/** The blog index (`prepend_link_to_index`): a link to the new post goes
    straight after the first `<ul id="posts">` opening tag, found without
    regard to case, so the newest post is listed first. A page without that
    tag is written back unchanged. */
module IndexPage {
  import opened Options
  import opened Text
  import opened Html

  /** The list opening the link goes after, matched case-insensitively. */
  const PostsOpen: string := "<ul id=\"posts\">"

  /** The list item for a post published on the date `today`
      (`YYYY-MM-DD`). */
  function IndexLink(slug: string, title: string, today: string): string {
    "\n      <li><a href=\"/blog/" + slug + ".html\">" + Escape(title) +
    "</a> <small>\U{2014} " + today + "</small></li>"
  }

  /** `re.sub(r'(<ul id="posts">)', r'\1' + link, text, count=1,
      flags=re.IGNORECASE)`: the opening tag, as it is spelled in the page,
      followed by the link. */
  function InsertAfterFirst(text: string, link: string): (r: string)
    ensures (forall i: nat :: !MatchesAt(text, i, PostsOpen, true)) ==> r == text
    ensures (exists i: nat :: MatchesAt(text, i, PostsOpen, true)) ==>
      exists i: nat ::
        && MatchesAt(text, i, PostsOpen, true)
        && (forall j :: 0 <= j < i ==> !MatchesAt(text, j, PostsOpen, true))
        && r == text[..i + |PostsOpen|] + link + text[i + |PostsOpen|..]
  {
    match Find(text, PostsOpen, 0, true)
    case None => text
    case Some(i) =>
      var e := i + |PostsOpen|;
      text[..e] + link + text[e..]
  }

  /** `prepend_link_to_index(index, slug, title)` on the index's text. */
  function PrependLink(text: string, slug: string, title: string, today: string): (r: string)
    ensures InsertionPoint(text).None? ==> r == text
    ensures InsertionPoint(text).Some? ==>
      var e := InsertionPoint(text).value;
      e <= |text| && r == text[..e] + IndexLink(slug, title, today) + text[e..]
    ensures InsertionPoint(r) == InsertionPoint(text)
  {
    var link := IndexLink(slug, title, today);
    InsertionKeepsPoint(text, link);
    InsertAfterFirst(text, link)
  }

  /** Where the link goes: just after the first opening tag. */
  function InsertionPoint(text: string): Option<nat> {
    match Find(text, PostsOpen, 0, true)
    case None => None
    case Some(i) => Some(i + |PostsOpen|)
  }

  /** Taking the link back out gives the page as it was: the insertion adds
      the link and nothing else. */
  lemma InsertionOnlyAddsLink(text: string, link: string)
    requires InsertionPoint(text).Some?
    ensures var e := InsertionPoint(text).value;
      var r := InsertAfterFirst(text, link);
      && e <= |text|
      && r[..e] == text[..e]
      && r[e..e + |link|] == link
      && r[e + |link|..] == text[e..]
  {
    var i := Find(text, PostsOpen, 0, true).value;
    var e := i + |PostsOpen|;
    var r := text[..e] + link + text[e..];
    assert r[..e] == text[..e];
    assert r[e..e + |link|] == link;
    assert r[e + |link|..] == text[e..];
  }

  /** The insertion leaves the first opening tag where it was, so the next
      link goes in the same place, ahead of this one. */
  lemma InsertionKeepsPoint(text: string, link: string)
    ensures InsertionPoint(InsertAfterFirst(text, link)) == InsertionPoint(text)
  {
    var r := InsertAfterFirst(text, link);
    if InsertionPoint(text).Some? {
      InsertionOnlyAddsLink(text, link);
      SameFirstMatch(r, text, Find(text, PostsOpen, 0, true).value);
    }
  }

  /** A text that agrees with `t` up to the end of `t`'s first opening tag
      has its first opening tag at the same place. */
  lemma SameFirstMatch(r: string, t: string, i: nat)
    requires Find(t, PostsOpen, 0, true) == Some(i)
    requires i + |PostsOpen| <= |r| && r[..i + |PostsOpen|] == t[..i + |PostsOpen|]
    ensures Find(r, PostsOpen, 0, true) == Some(i)
  {
    var e := i + |PostsOpen|;
    forall j | 0 <= j <= i ensures MatchesAt(r, j, PostsOpen, true) <==> MatchesAt(t, j, PostsOpen, true) {
      SamePrefixSameMatch(r, t, e, j);
    }
    FindAt(r, PostsOpen, 0, i, true);
  }

  /** Two texts that agree up to `e` match the same way at any position whose
      match would end by `e`. */
  lemma SamePrefixSameMatch(r: string, t: string, e: nat, j: nat)
    requires e <= |r| && e <= |t| && r[..e] == t[..e]
    requires j + |PostsOpen| <= e
    ensures MatchesAt(r, j, PostsOpen, true) <==> MatchesAt(t, j, PostsOpen, true)
  {
    forall k | 0 <= k < |PostsOpen|
      ensures CharEq(r[j + k], PostsOpen[k], true) <==> CharEq(t[j + k], PostsOpen[k], true)
    {
      assert r[..e][j + k] == t[..e][j + k];
    }
  }

  /** Publishing two posts in a row lists the later one first, both directly
      after the opening tag, with the rest of the page untouched. */
  lemma NewestFirst(text: string, first: string, second: string)
    requires InsertionPoint(text).Some?
    ensures var e := InsertionPoint(text).value;
      InsertAfterFirst(InsertAfterFirst(text, first), second) ==
        text[..e] + second + first + text[e..]
  {
    var e := InsertionPoint(text).value;
    var r1 := InsertAfterFirst(text, first);
    InsertedAtPoint(text, first);
    InsertionKeepsPoint(text, first);
    InsertedAtPoint(r1, second);
    InsertTwice(text, e, first, second);
  }

  /** With an opening tag, the link goes in at the insertion point. */
  lemma InsertedAtPoint(text: string, link: string)
    requires InsertionPoint(text).Some?
    ensures var e := InsertionPoint(text).value;
      e <= |text| && InsertAfterFirst(text, link) == text[..e] + link + text[e..]
  {
  }

  lemma InsertTwice(t: string, e: nat, a: string, b: string)
    requires e <= |t|
    ensures var r := t[..e] + a + t[e..];
      r[..e] + b + r[e..] == t[..e] + b + a + t[e..]
  {
    var r := t[..e] + a + t[e..];
    assert r[..e] == t[..e];
    assert r[e..] == a + t[e..];
  }
}
