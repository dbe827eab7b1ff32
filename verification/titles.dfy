/** Reading a post's title back out of its page, as the homepage rebuild does:
    `re.search(r"<title>(.*?)</title>", text, re.IGNORECASE | re.DOTALL)`,
    then the site name removed and the result stripped. */
module Titles {
  import opened Options
  import opened Text
  import opened Html
  import opened Render

  /** The text of the first title element: the group of the lazy search for
      `<title>` ... `</title>`, matched case-insensitively. */
  function TitleText(text: string): (r: Option<string>)
    ensures r.None? <==>
      forall i: nat, m: nat :: MatchesAt(text, i, TitleOpen, true) && i + |TitleOpen| <= m ==>
        !MatchesAt(text, m, TitleClose, true)
    ensures r.Some? ==> |r.value| + |TitleOpen| + |TitleClose| <= |text|
  {
    match LazySpan(text, TitleOpen, TitleClose, true, 0)
    case None => None
    case Some((i, j)) =>
      assert MatchesAt(text, i, TitleOpen, true) && MatchesAt(text, j, TitleClose, true);
      Some(text[i + |TitleOpen|..j])
  }

  /** The title as the rebuild reads it (as written): the element's text with
      every copy of the site name removed, then stripped. The text is still
      HTML-escaped. */
  function AsWrittenTitle(text: string): (r: Option<string>)
    ensures r.Some? ==> IsStripped(r.value)
    ensures r.None? <==> TitleText(text).None?
  {
    match TitleText(text)
    case None => None
    case Some(g) => Some(Strip(RemoveAll(g, SiteNameSuffix)))
  }

  /** The title as the rebuild should read it: the same text with the HTML
      escapes decoded, so that escaping it again for the homepage escapes it
      once. */
  function ReadTitle(text: string): (r: Option<string>)
    ensures r.None? <==> TitleText(text).None?
  {
    match AsWrittenTitle(text)
    case None => None
    case Some(t) => Some(Unescape(t))
  }

  // ---------------------------------------------------------------------
  // The title of a page the publisher rendered
  // ---------------------------------------------------------------------

  /** No case-insensitive `<title>` starts inside `s`, whatever follows it. */
  ghost predicate NoTitleOpening(s: string) {
    forall j: nat, t: string :: j < |s| ==> !MatchesAt(s + t, j, TitleOpen, true)
  }

  lemma NoTitleOpeningAppend(a: string, b: string)
    requires NoTitleOpening(a) && NoTitleOpening(b)
    ensures NoTitleOpening(a + b)
  {
    forall j: nat, t: string | j < |a + b| ensures !MatchesAt(a + b + t, j, TitleOpen, true) {
      assert a + b + t == a + (b + t);
      if j >= |a| {
        MatchesAtShift(a, b + t, j - |a|, TitleOpen, true);
      }
    }
  }

  /** Text without `<` opens no title element. */
  lemma NoTitleOpeningWithoutLt(s: string)
    requires '<' !in s
    ensures NoTitleOpening(s)
  {
    LtFoldsOnlyToItself(true);
    forall j: nat, t: string | j < |s| ensures !MatchesAt(s + t, j, TitleOpen, true) {
      assert (s + t)[j] == s[j];
      assert s[j] in s;
      assert !CharEq((s + t)[j], TitleOpen[0], true);
    }
  }

  /** A tag whose name does not begin with `t` opens no title element. */
  lemma NoTitleOpeningInTag(rest: string)
    requires rest != [] && rest[0] != 't' && rest[0] != 'T' && '<' !in rest
    ensures NoTitleOpening("<" + rest)
  {
    LtFoldsOnlyToItself(true);
    var s := "<" + rest;
    forall j: nat, t: string | j < |s| ensures !MatchesAt(s + t, j, TitleOpen, true) {
      if j == 0 {
        assert (s + t)[1] == rest[0];
        assert !CharEq((s + t)[1], TitleOpen[1], true);
      } else {
        assert (s + t)[j] == rest[j - 1];
        assert rest[j - 1] in rest;
        assert !CharEq((s + t)[j], TitleOpen[0], true);
      }
    }
  }

  /** The page preamble opens no title element. */
  lemma PageOpenHasNoTitle()
    ensures NoTitleOpening(PageOpen)
  {
    NoTitleOpeningInTag(DoctypeRest);
    NoTitleOpeningInTag(HtmlRest);
    NoTitleOpeningInTag(HeadRest0);
    NoTitleOpeningInTag(MetaRest);
    NoTitleOpeningWithoutLt(Indent);
    NoTitleOpeningAppend(DoctypeTag, HtmlTag);
    NoTitleOpeningAppend(DoctypeTag + HtmlTag, HeadTag);
    NoTitleOpeningAppend(DoctypeTag + HtmlTag + HeadTag, Indent);
    NoTitleOpeningAppend(DoctypeTag + HtmlTag + HeadTag + Indent, MetaTag);
    NoTitleOpeningAppend(DoctypeTag + HtmlTag + HeadTag + Indent + MetaTag, Indent);
  }

  /** The first title element of `pre + <title>x</title> + post` holds `x`
      when nothing before it opens one and `x` has no `<`. */
  lemma TitleTextOfElement(pre: string, x: string, post: string)
    requires NoTitleOpening(pre) && '<' !in x
    ensures TitleText(pre + TitleOpen + x + TitleClose + post) == Some(x)
  {
    ElementOfConcat(pre, x, post);
    TitleTextAt(pre + TitleOpen + x + TitleClose + post, |pre|, |pre| + |TitleOpen| + |x|, x);
  }

  lemma TitleTextAt(s: string, i: nat, j: nat, x: string)
    requires SpanAt(s, TitleOpen, TitleClose, true, i, j) && s[i + |TitleOpen|..j] == x
    ensures TitleText(s) == Some(x)
  {
    LazySpanAt(s, TitleOpen, TitleClose, true, i, j);
  }

  lemma ElementOfConcat(pre: string, x: string, post: string)
    requires NoTitleOpening(pre) && '<' !in x
    ensures var s := pre + TitleOpen + x + TitleClose + post;
      var a := |pre| + |TitleOpen|;
      SpanAt(s, TitleOpen, TitleClose, true, |pre|, a + |x|) && s[a..a + |x|] == x
  {
    OpeningOfElement(pre, x, post);
    ClosingOfElement(pre, x, post);
    Middle(pre, TitleOpen, x, TitleClose, post);
  }

  lemma Middle(a: string, b: string, c: string, d: string, e: string)
    ensures (a + b + c + d + e)[|a| + |b|..|a| + |b| + |c|] == c
  {
    var s := a + b + c + d + e;
    assert s == (a + b) + c + (d + e);
  }

  /** The element's opening tag is the first one. */
  lemma OpeningOfElement(pre: string, x: string, post: string)
    requires NoTitleOpening(pre)
    ensures var s := pre + TitleOpen + x + TitleClose + post;
      && MatchesAt(s, |pre|, TitleOpen, true)
      && forall k :: 0 <= k < |pre| ==> !MatchesAt(s, k, TitleOpen, true)
  {
    var rest := x + TitleClose + post;
    var s := pre + TitleOpen + x + TitleClose + post;
    assert s == pre + (TitleOpen + rest);
    assert forall k :: 0 <= k < |pre| ==> !MatchesAt(pre + (TitleOpen + rest), k, TitleOpen, true);
    assert s == pre + TitleOpen + rest;
    MatchesItself(pre, TitleOpen, rest, true);
  }

  /** The element's closing tag is the first one after its opening tag, as
      its text has no `<`. */
  lemma ClosingOfElement(pre: string, x: string, post: string)
    requires '<' !in x
    ensures var s := pre + TitleOpen + x + TitleClose + post;
      var a := |pre| + |TitleOpen|;
      && MatchesAt(s, a + |x|, TitleClose, true)
      && forall k :: a <= k < a + |x| ==> !MatchesAt(s, k, TitleClose, true)
  {
    var s := pre + TitleOpen + x + TitleClose + post;
    var a := |pre| + |TitleOpen|;
    var j := a + |x|;
    MatchesItself(pre + TitleOpen + x, TitleClose, post, true);
    LtFoldsOnlyToItself(true);
    assert Avoids(s, a, j, '<') by {
      forall k | a <= k < j ensures s[k] != '<' {
        assert s[k] == x[k - a];
        assert x[k - a] in x;
      }
    }
    forall k | a <= k < j ensures !MatchesAt(s, k, TitleClose, true) {
      NoMatchWhereFirstAbsent(s, TitleClose, true, a, j, k);
    }
  }

  /** The first title element of a rendered page holds the escaped title
      followed by the site name. */
  lemma TitleTextOfRenderedPage(siteUrl: string, slug: string, title: string, description: string,
                                tags: seq<string>, bodyHtml: string, year: nat)
    ensures TitleText(RenderPage(siteUrl, slug, title, description, tags, bodyHtml, year)) ==
      Some(Escape(title) + SiteNameSuffix)
  {
    RenderPageLayout(siteUrl, slug, title, description, tags, bodyHtml, year);
    PageOpenHasNoTitle();
    NoLtInTitle(title);
    TitleTextOfElement(PageOpen, Escape(title) + SiteNameSuffix,
      AfterTitle(siteUrl, slug, title, description, tags, bodyHtml, year));
  }

  lemma NoLtInTitle(title: string)
    ensures '<' !in Escape(title) + SiteNameSuffix
  {
    var e := Escape(title);
    var n := SiteNameSuffix;
    assert '<' !in n;
    forall k | 0 <= k < |e + n| ensures (e + n)[k] != '<' {
      if k >= |e| {
        assert (e + n)[k] == n[k - |e|];
        assert n[k - |e|] in n;
      }
    }
  }

  /** Removing the site name from the escaped title and stripping the rest
      leaves the escaped title. */
  lemma SiteNameRemoved(title: string)
    requires IsStripped(title) && '\U{2022}' !in title
    ensures Strip(RemoveAll(Escape(title) + SiteNameSuffix, SiteNameSuffix)) == Escape(title)
  {
    var e := Escape(title);
    var n := SiteNameSuffix;
    assert n[1] == '\U{2022}' && n[0] == ' ' && |n| >= 2;
    assert !EntityChar('\U{2022}');
    EscapeIntroducesOnlyEntityChars(title, '\U{2022}');
    assert n[1] !in e;
    RemoveAllOnlyAtEnd(e, n);
    assert RemoveAll(e + n, n) == e;
    EscapeKeepsStripped(title);
    StrippedIsFixed(e);
  }

  /** As written, the rebuild reads back a rendered page's title still
      escaped: for a stripped title without the site-name bullet it gets
      `html.escape(title)`, which it then escapes a second time. */
  lemma AsWrittenTitleOfRenderedPage(siteUrl: string, slug: string, title: string, description: string,
                                     tags: seq<string>, bodyHtml: string, year: nat)
    requires IsStripped(title) && '\U{2022}' !in title
    ensures AsWrittenTitle(RenderPage(siteUrl, slug, title, description, tags, bodyHtml, year)) == Some(Escape(title))
  {
    TitleTextOfRenderedPage(siteUrl, slug, title, description, tags, bodyHtml, year);
    SiteNameRemoved(title);
  }

  /** The corrected reading gives back exactly the title the page was
      rendered with. */
  lemma ReadTitleOfRenderedPage(siteUrl: string, slug: string, title: string, description: string,
                                tags: seq<string>, bodyHtml: string, year: nat)
    requires IsStripped(title) && '\U{2022}' !in title
    ensures ReadTitle(RenderPage(siteUrl, slug, title, description, tags, bodyHtml, year)) == Some(title)
  {
    AsWrittenTitleOfRenderedPage(siteUrl, slug, title, description, tags, bodyHtml, year);
    UnescapeEscape(title);
  }

  /** The discrepancy on one input: a post titled `R&D` is read back as
      `R&amp;D`, which the homepage then shows literally. */
  lemma AsWrittenTitleCounterexample(siteUrl: string, slug: string, description: string,
                                     tags: seq<string>, bodyHtml: string, year: nat)
    ensures AsWrittenTitle(RenderPage(siteUrl, slug, "R&D", description, tags, bodyHtml, year)) == Some("R&amp;D")
    ensures ReadTitle(RenderPage(siteUrl, slug, "R&D", description, tags, bodyHtml, year)) == Some("R&D")
  {
    var t := "R&D";
    assert IsStripped(t);
    assert '\U{2022}' !in t;
    AsWrittenTitleOfRenderedPage(siteUrl, slug, t, description, tags, bodyHtml, year);
    ReadTitleOfRenderedPage(siteUrl, slug, t, description, tags, bodyHtml, year);
    EscapeOfRAndD();
  }

  lemma EscapeOfRAndD()
    ensures Escape("R&D") == "R&amp;D"
  {
    var t := "R&D";
    assert t[1..] == "&D" && t[1..][1..] == "D" && t[1..][1..][1..] == [];
    assert Escape("D") == "D";
    assert Escape("&D") == "&amp;" + "D";
    assert Escape(t) == "R" + "&amp;D";
  }
}
