/** The sitemap (`update_sitemap`): the parsed XML tree gets an entry for the
    new post, or its existing entry gets today's date. Parsing the file and
    pretty-printing the tree are not modelled; the tree is the input and the
    result. */
module Sitemap {
  import opened Options
  import opened Text
  import opened Render

  /** ElementTree writes a namespaced tag as `{namespace}name`. */
  const Ns: string := "{http://www.sitemaps.org/schemas/sitemap/0.9}"
  const UrlsetTag: string := Ns + "urlset"
  const UrlTag: string := Ns + "url"
  const LocTag: string := Ns + "loc"
  const LastmodTag: string := Ns + "lastmod"
  const PriorityTag: string := Ns + "priority"

  /** The priorities the publisher writes: the homepage's, and a post's. */
  const HomePriority: string := "1.0"
  const PostPriority: string := "0.7"

  /** An element of the tree: its tag, its text, its children in order. */
  datatype Element = Element(tag: string, text: Option<string>, children: seq<Element>)

  /** What reading the sitemap file gave. */
  datatype SitemapFile =
    | Missing              // no file yet
    | Unparsable           // `ET.parse` raised `ParseError`
    | Parsed(root: Element)

  /** A `<url>` element with its three children. */
  function UrlEntry(loc: string, lastmod: string, priority: string): Element {
    Element(UrlTag, None, [
      Element(LocTag, Some(loc), []),
      Element(LastmodTag, Some(lastmod), []),
      Element(PriorityTag, Some(priority), [])])
  }

  // ---------------------------------------------------------------------
  // Reading an entry
  // ---------------------------------------------------------------------

  /** An element's own tag and text, without its children. */
  function Head(e: Element): (string, Option<string>) {
    (e.tag, e.text)
  }

  /** The heads of a sequence of elements. */
  function Heads(cs: seq<Element>): (hs: seq<(string, Option<string>)>)
    ensures |hs| == |cs|
  {
    if cs == [] then [] else [Head(cs[0])] + Heads(cs[1..])
  }

  lemma {:induction false} HeadsAppend(cs: seq<Element>, ds: seq<Element>)
    ensures Heads(cs + ds) == Heads(cs) + Heads(ds)
    decreases |cs|
  {
    if cs == [] {
      assert cs + ds == ds;
    } else {
      assert (cs + ds)[1..] == cs[1..] + ds;
      HeadsAppend(cs[1..], ds);
    }
  }

  lemma {:induction false} HeadsAt(cs: seq<Element>, i: nat)
    requires i < |cs|
    ensures Heads(cs)[i] == Head(cs[i])
    decreases i
  {
    if i > 0 {
      HeadsAt(cs[1..], i - 1);
    }
  }

  /** The first head with tag `tag` (what `element.find(tag)` finds among
      the children), by index. */
  function FirstWithTag(hs: seq<(string, Option<string>)>, tag: string): (r: Option<nat>)
    ensures r.Some? ==> r.value < |hs| && hs[r.value].0 == tag
    ensures r.None? ==> forall i :: 0 <= i < |hs| ==> hs[i].0 != tag
  {
    if hs == [] then None
    else if hs[0].0 == tag then Some(0)
    else match FirstWithTag(hs[1..], tag)
      case None => None
      case Some(i) => Some(i + 1)
  }

  /** The text of the first child tagged `tag`, if there is one. */
  function TextOf(e: Element, tag: string): Option<Option<string>> {
    var hs := Heads(e.children);
    match FirstWithTag(hs, tag)
    case None => None
    case Some(i) => Some(hs[i].1)
  }

  /** The text of an entry's first `<loc>` child, stripped, `""` standing
      for no text; `None` when the entry has no `<loc>`. */
  function LocOf(e: Element): Option<string> {
    match TextOf(e, LocTag)
    case None => None
    case Some(t) => Some(Strip(t.GetOr("")))
  }

  /** `u.tag == url` and `(u.find(loc).text or "").strip() == loc`. */
  predicate IsEntryFor(e: Element, loc: string) {
    e.tag == UrlTag && LocOf(e) == Some(loc)
  }

  /** The first entry for `loc` in document order among the elements of
      `cs` and all their descendants (`root.findall(".//url")`, then the
      first whose location matches). */
  function FindEntry(cs: seq<Element>, loc: string): Option<Element>
    decreases cs
  {
    if cs == [] then None
    else if IsEntryFor(cs[0], loc) then Some(cs[0])
    else match FindEntry(cs[0].children, loc)
      case Some(e) => Some(e)
      case None => FindEntry(cs[1..], loc)
  }

  // ---------------------------------------------------------------------
  // Updating
  // ---------------------------------------------------------------------

  /** The location and date tags differ from each other and from the entry
      tag (their names differ in length). */
  lemma TagsDiffer()
    ensures LocTag != LastmodTag && UrlTag != LastmodTag
    ensures UrlTag != LocTag && UrlTag != PriorityTag && LastmodTag != PriorityTag
  {
    assert |LocTag| != |LastmodTag| && |UrlTag| != |LastmodTag|;
    assert |UrlTag| != |PriorityTag| && |LastmodTag| != |PriorityTag|;
    assert UrlTag[|Ns|] != LocTag[|Ns|];
  }

  /** The first child tagged `tag` depends only on the children's tags. */
  lemma {:induction false} SameTags(hs: seq<(string, Option<string>)>, gs: seq<(string, Option<string>)>, tag: string)
    requires |hs| == |gs|
    requires forall i :: 0 <= i < |hs| ==> gs[i].0 == hs[i].0
    ensures FirstWithTag(gs, tag) == FirstWithTag(hs, tag)
    decreases |hs|
  {
    if hs != [] {
      SameTags(hs[1..], gs[1..], tag);
    }
  }

  lemma {:induction false} FirstWithTagAppend(hs: seq<(string, Option<string>)>, x: (string, Option<string>), tag: string)
    ensures FirstWithTag(hs + [x], tag) ==
      match FirstWithTag(hs, tag)
      case Some(i) => Some(i)
      case None => if x.0 == tag then Some(|hs|) else None
    decreases |hs|
  {
    if hs == [] {
      assert hs + [x] == [x];
    } else {
      assert (hs + [x])[1..] == hs[1..] + [x];
      FirstWithTagAppend(hs[1..], x, tag);
    }
  }

  /** Today's date on an entry: the text of its first `<lastmod>` child, or a
      new `<lastmod>` child at the end when it has none. */
  function SetLastmod(e: Element, today: string): (r: Element)
    ensures Head(r) == Head(e)
    ensures TextOf(r, LastmodTag) == Some(Some(today))
    ensures TextOf(r, LocTag) == TextOf(e, LocTag)
    ensures |e.children| <= |r.children| <= |e.children| + 1
    ensures forall k :: 0 <= k < |e.children| && Some(k) != FirstWithTag(Heads(e.children), LastmodTag) ==>
      r.children[k] == e.children[k]
    ensures FirstWithTag(Heads(e.children), LastmodTag).Some? ==>
      var i := FirstWithTag(Heads(e.children), LastmodTag).value;
      |r.children| == |e.children| && r.children[i] == e.children[i].(text := Some(today))
    ensures |r.children| > |e.children| ==> r.children[|e.children|] == Element(LastmodTag, Some(today), [])
  {
    var hs := Heads(e.children);
    match FirstWithTag(hs, LastmodTag)
    case Some(i) =>
      var c := e.children[i := e.children[i].(text := Some(today))];
      SetTextHeads(e.children, i, today);
      HeadsAt(e.children, i);
      TagsDiffer();
      SameTags(hs, Heads(c), LastmodTag);
      SameTags(hs, Heads(c), LocTag);
      e.(children := c)
    case None =>
      var n := Element(LastmodTag, Some(today), []);
      HeadsAppend(e.children, [n]);
      assert Heads([n]) == [Head(n)];
      TagsDiffer();
      FirstWithTagAppend(hs, Head(n), LastmodTag);
      FirstWithTagAppend(hs, Head(n), LocTag);
      e.(children := e.children + [n])
  }

  /** Setting one child's text changes that head's text and nothing else. */
  lemma SetTextHeads(cs: seq<Element>, i: nat, t: string)
    requires i < |cs|
    ensures Heads(cs[i := cs[i].(text := Some(t))]) == Heads(cs)[i := (cs[i].tag, Some(t))]
  {
    var ds := cs[i := cs[i].(text := Some(t))];
    var l, r := Heads(ds), Heads(cs)[i := (cs[i].tag, Some(t))];
    forall k | 0 <= k < |cs| ensures l[k] == r[k] {
      HeadsAt(ds, k);
      HeadsAt(cs, k);
    }
  }

  /** Gives the first entry for `loc` today's date, in place; `None` when
      there is no entry for `loc`. */
  function Touch(cs: seq<Element>, loc: string, today: string): (r: Option<seq<Element>>)
    ensures r.None? <==> FindEntry(cs, loc).None?
    decreases cs
  {
    if cs == [] then None
    else if IsEntryFor(cs[0], loc) then Some([SetLastmod(cs[0], today)] + cs[1..])
    else match Touch(cs[0].children, loc, today)
      case Some(kids) =>
        Some([cs[0].(children := kids)] + cs[1..])
      case None =>
        match Touch(cs[1..], loc, today)
        case Some(rest) => Some([cs[0]] + rest)
        case None => None
  }

  /** The update rewrites inside elements but keeps every element's own tag
      and text, at every level. */
  lemma {:induction false} TouchKeepsHeads(cs: seq<Element>, loc: string, today: string)
    requires FindEntry(cs, loc).Some?
    ensures Heads(Touch(cs, loc, today).value) == Heads(cs)
    decreases cs
  {
    var c := cs[0];
    var r := Touch(cs, loc, today).value;
    if !IsEntryFor(c, loc) && Touch(c.children, loc, today).None? {
      TouchKeepsHeads(cs[1..], loc, today);
    }
    assert r[0] == c || Head(r[0]) == Head(c);
    assert r[1..] == cs[1..] || Heads(r[1..]) == Heads(cs[1..]);
  }

  /** After the update, the first entry for `loc` is the one that was
      updated, now carrying today's date. */
  lemma {:induction false} TouchFindsUpdated(cs: seq<Element>, loc: string, today: string)
    requires FindEntry(cs, loc).Some?
    ensures FindEntry(Touch(cs, loc, today).value, loc) == Some(SetLastmod(FindEntry(cs, loc).value, today))
    decreases cs
  {
    var c := cs[0];
    if IsEntryFor(c, loc) {
    } else {
      match Touch(c.children, loc, today)
      case Some(kids) =>
        TouchFindsUpdated(c.children, loc, today);
        TouchKeepsHeads(c.children, loc, today);
        assert LocOf(c.(children := kids)) == LocOf(c);
        assert ([c.(children := kids)] + cs[1..])[0] == c.(children := kids);
      case None =>
        TouchFindsUpdated(cs[1..], loc, today);
        var rest := Touch(cs[1..], loc, today).value;
        assert ([c] + rest)[1..] == rest;
    }
  }

  /** Updating the same entry twice on one day changes nothing the second
      time. */
  lemma {:induction false} TouchIdempotent(cs: seq<Element>, loc: string, today: string)
    requires FindEntry(cs, loc).Some?
    ensures Touch(Touch(cs, loc, today).value, loc, today) == Touch(cs, loc, today)
    decreases cs
  {
    var c := cs[0];
    if IsEntryFor(c, loc) {
      var c2 := SetLastmod(c, today);
      assert IsEntryFor(c2, loc);
      SetLastmodIdempotent(c, today);
      assert ([c2] + cs[1..])[1..] == cs[1..];
    } else {
      match Touch(c.children, loc, today)
      case Some(kids) =>
        TouchIdempotent(c.children, loc, today);
        TouchKeepsHeads(c.children, loc, today);
        assert LocOf(c.(children := kids)) == LocOf(c);
        var c2 := c.(children := kids);
        assert ([c2] + cs[1..])[0] == c2 && ([c2] + cs[1..])[1..] == cs[1..];
        assert c2.(children := kids) == c2;
      case None =>
        TouchIdempotent(cs[1..], loc, today);
        var rest := Touch(cs[1..], loc, today).value;
        assert ([c] + rest)[0] == c && ([c] + rest)[1..] == rest;
    }
  }

  /** An entry already dated today is left as it is. */
  lemma SetLastmodKeepsDated(e: Element, today: string)
    requires TextOf(e, LastmodTag) == Some(Some(today))
    ensures SetLastmod(e, today) == e
  {
    var i := FirstWithTag(Heads(e.children), LastmodTag).value;
    HeadsAt(e.children, i);
    assert e.children[i := e.children[i].(text := Some(today))] == e.children;
  }

  /** An entry that already has today's date keeps it unchanged. */
  lemma SetLastmodIdempotent(e: Element, today: string)
    ensures SetLastmod(SetLastmod(e, today), today) == SetLastmod(e, today)
  {
    SetLastmodKeepsDated(SetLastmod(e, today), today);
  }

  /** With no entry anywhere in `a`, the first entry of `a + b` is found in
      `b`, and the update leaves `a` alone. */
  lemma {:induction false} TouchAppend(a: seq<Element>, b: seq<Element>, loc: string, today: string)
    requires FindEntry(a, loc).None?
    ensures FindEntry(a + b, loc) == FindEntry(b, loc)
    ensures Touch(b, loc, today).None? ==> Touch(a + b, loc, today).None?
    ensures Touch(b, loc, today).Some? ==> Touch(a + b, loc, today) == Some(a + Touch(b, loc, today).value)
    decreases a
  {
    if a == [] {
      assert a + b == b;
      if Touch(b, loc, today).Some? {
        assert a + Touch(b, loc, today).value == Touch(b, loc, today).value;
      }
    } else {
      var c, a1 := a[0], a[1..];
      assert a == [c] + a1;
      assert !IsEntryFor(c, loc) && FindEntry(c.children, loc).None? && FindEntry(a1, loc).None?;
      TouchAppend(a1, b, loc, today);
      TouchAppendStep(c, a1, a1 + b, b, loc, today);
      assert a + b == [c] + (a1 + b);
    }
  }

  /** One step of `TouchAppend`: from `x` to `[c] + x`, where `x` is `a1 + b`. */
  lemma TouchAppendStep(c: Element, a1: seq<Element>, x: seq<Element>, b: seq<Element>, loc: string, today: string)
    requires x == a1 + b
    requires !IsEntryFor(c, loc) && FindEntry(c.children, loc).None?
    requires FindEntry(x, loc) == FindEntry(b, loc)
    requires Touch(b, loc, today).None? ==> Touch(x, loc, today).None?
    requires Touch(b, loc, today).Some? ==> Touch(x, loc, today) == Some(a1 + Touch(b, loc, today).value)
    ensures FindEntry([c] + x, loc) == FindEntry(b, loc)
    ensures Touch(b, loc, today).None? ==> Touch([c] + x, loc, today).None?
    ensures Touch(b, loc, today).Some? ==> Touch([c] + x, loc, today) == Some([c] + a1 + Touch(b, loc, today).value)
  {
    TouchCons(c, x, loc, today);
    if Touch(b, loc, today).Some? {
      Regroup(c, a1, Touch(b, loc, today).value);
    }
  }

  /** The search and the update step over an element that is no entry for
      `loc` and holds none. */
  lemma TouchCons(c: Element, x: seq<Element>, loc: string, today: string)
    requires !IsEntryFor(c, loc) && FindEntry(c.children, loc).None?
    ensures FindEntry([c] + x, loc) == FindEntry(x, loc)
    ensures Touch(x, loc, today).None? ==> Touch([c] + x, loc, today).None?
    ensures Touch(x, loc, today).Some? ==> Touch([c] + x, loc, today) == Some([c] + Touch(x, loc, today).value)
  {
    var cs := [c] + x;
    assert cs[0] == c && cs[1..] == x;
    TouchSkip(cs, loc, today);
  }

  /** Past an element that is no entry for `loc` and holds none, the search
      and the update go on with the rest. */
  lemma TouchSkip(cs: seq<Element>, loc: string, today: string)
    requires cs != [] && !IsEntryFor(cs[0], loc) && FindEntry(cs[0].children, loc).None?
    ensures FindEntry(cs, loc) == FindEntry(cs[1..], loc)
    ensures Touch(cs, loc, today) ==
      match Touch(cs[1..], loc, today)
      case None => None
      case Some(r) => Some([cs[0]] + r)
  {
  }

  lemma Regroup(x: Element, a: seq<Element>, r: seq<Element>)
    ensures [x] + (a + r) == ([x] + a) + r
  {
  }

  // ---------------------------------------------------------------------
  // The operation
  // ---------------------------------------------------------------------

  /** The search and update on the root's descendants: the first entry for
      `loc` gets today's date, or a new entry with priority 0.7 is appended
      to the root. */
  function Upsert(root: Element, loc: string, today: string): (r: Element)
    ensures r.tag == root.tag && r.text == root.text
    ensures FindEntry(root.children, loc).None? ==>
      r.children == root.children + [UrlEntry(loc, today, PostPriority)]
    ensures FindEntry(root.children, loc).Some? ==> Heads(r.children) == Heads(root.children)
  {
    match Touch(root.children, loc, today)
    case Some(kids) =>
      TouchKeepsHeads(root.children, loc, today);
      root.(children := kids)
    case None => root.(children := root.children + [UrlEntry(loc, today, PostPriority)])
  }

  /** What a freshly written entry reads as: its location, its date, and no
      entry among its children. */
  lemma UrlEntryReads(loc: string, lastmod: string, priority: string, other: string)
    ensures TextOf(UrlEntry(loc, lastmod, priority), LocTag) == Some(Some(loc))
    ensures TextOf(UrlEntry(loc, lastmod, priority), LastmodTag) == Some(Some(lastmod))
    ensures FindEntry(UrlEntry(loc, lastmod, priority).children, other).None?
  {
    var e := UrlEntry(loc, lastmod, priority);
    var cs := e.children;
    TagsDiffer();
    assert cs[1..][1..][1..] == [];
    assert Heads(cs[1..][1..]) == [(PriorityTag, Some(priority))];
    assert Heads(cs[1..]) == [(LastmodTag, Some(lastmod))] + [(PriorityTag, Some(priority))];
    assert Heads(cs) == [(LocTag, Some(loc))] + [(LastmodTag, Some(lastmod)), (PriorityTag, Some(priority))];
    assert FirstWithTag(Heads(cs), LocTag) == Some(0);
    assert FirstWithTag(Heads(cs), LastmodTag) == Some(1);
    assert !IsEntryFor(cs[0], other) && !IsEntryFor(cs[1], other) && !IsEntryFor(cs[2], other);
    assert cs[0].children == [] && cs[1].children == [] && cs[2].children == [];
    assert FindEntry(cs[1..][1..], other).None?;
    assert FindEntry(cs[1..], other).None?;
  }

  /** The new entry is found by its location when the location has no
      surrounding whitespace (the search strips the text it compares). */
  lemma NewEntryIsEntry(loc: string, today: string)
    requires IsStripped(loc)
    ensures IsEntryFor(UrlEntry(loc, today, PostPriority), loc)
    ensures TextOf(UrlEntry(loc, today, PostPriority), LastmodTag) == Some(Some(today))
  {
    UrlEntryReads(loc, today, PostPriority, loc);
    StrippedIsFixed(loc);
  }

  /** After the update the sitemap holds an entry for `loc` dated today. */
  lemma UpsertRecordsToday(root: Element, loc: string, today: string)
    requires IsStripped(loc)
    ensures var e := FindEntry(Upsert(root, loc, today).children, loc);
      e.Some? && TextOf(e.value, LastmodTag) == Some(Some(today))
  {
    var cs := root.children;
    if FindEntry(cs, loc).Some? {
      TouchFindsUpdated(cs, loc, today);
    } else {
      var n := UrlEntry(loc, today, PostPriority);
      NewEntryIsEntry(loc, today);
      TouchAppend(cs, [n], loc, today);
    }
  }

  /** Updating the sitemap twice for the same post on the same day gives what
      one update gives. */
  lemma UpsertIdempotent(root: Element, loc: string, today: string)
    requires IsStripped(loc)
    ensures Upsert(Upsert(root, loc, today), loc, today) == Upsert(root, loc, today)
  {
    if FindEntry(root.children, loc).Some? {
      TouchIdempotent(root.children, loc, today);
    } else {
      AppendedEntryIsFound(root.children, loc, today);
    }
  }

  /** Once the new entry is appended, a second update finds it and leaves it
      as it is. */
  lemma AppendedEntryIsFound(cs: seq<Element>, loc: string, today: string)
    requires IsStripped(loc) && FindEntry(cs, loc).None?
    ensures var n := UrlEntry(loc, today, PostPriority);
      Touch(cs + [n], loc, today) == Some(cs + [n])
  {
    var n := UrlEntry(loc, today, PostPriority);
    NewEntryIsEntry(loc, today);
    SetLastmodKeepsDated(n, today);
    TouchSingle(n, loc, today);
    TouchAppend(cs, [n], loc, today);
  }

  lemma TouchSingle(e: Element, loc: string, today: string)
    requires IsEntryFor(e, loc)
    ensures Touch([e], loc, today) == Some([SetLastmod(e, today)])
  {
    var cs := [e];
    assert cs[0] == e && cs[1..] == [];
    TouchHead(cs, loc, today);
    assert [SetLastmod(e, today)] + [] == [SetLastmod(e, today)];
  }

  /** An entry for `loc` at the front is the one the update dates. */
  lemma TouchHead(cs: seq<Element>, loc: string, today: string)
    requires cs != [] && IsEntryFor(cs[0], loc)
    ensures Touch(cs, loc, today) == Some([SetLastmod(cs[0], today)] + cs[1..])
  {
  }

  /** When the entry for `loc` is a child of the root, as in every sitemap,
      the update dates that entry and leaves every other child of the root
      as it was. */
  lemma UpsertOnlyDatesFound(root: Element, loc: string, today: string,
                             a: seq<Element>, e: Element, rest: seq<Element>)
    requires root.children == a + [e] + rest
    requires FindEntry(a, loc).None? && IsEntryFor(e, loc)
    ensures Upsert(root, loc, today).children == a + [SetLastmod(e, today)] + rest
  {
    TouchOnlyDatesFound(a, e, rest, loc, today);
  }

  lemma TouchOnlyDatesFound(a: seq<Element>, e: Element, rest: seq<Element>, loc: string, today: string)
    requires FindEntry(a, loc).None? && IsEntryFor(e, loc)
    ensures Touch(a + [e] + rest, loc, today) == Some(a + [SetLastmod(e, today)] + rest)
  {
    var b := [e] + rest;
    TouchHead(b, loc, today);
    TouchAppend(a, b, loc, today);
    SeqAssoc(a, [e], rest);
    SeqAssoc(a, [SetLastmod(e, today)], rest);
  }

  lemma SeqAssoc(a: seq<Element>, b: seq<Element>, c: seq<Element>)
    ensures a + b + c == a + (b + c)
  {
  }

  /** The tree the update starts from: a fresh `urlset` seeded with the
      homepage when there is no file, an empty `urlset` when the file does
      not parse, the parsed root otherwise. */
  function StartingRoot(file: SitemapFile, siteUrl: string, today: string): (root: Element)
    ensures file.Missing? ==> root.children == [UrlEntry(SiteRoot(siteUrl) + "/", today, HomePriority)]
    ensures file.Unparsable? ==> root.children == []
    ensures !file.Parsed? ==> root.tag == UrlsetTag
    ensures file.Parsed? ==> root == file.root
  {
    match file
    case Missing => Element(UrlsetTag, None, [UrlEntry(SiteRoot(siteUrl) + "/", today, HomePriority)])
    case Unparsable => Element(UrlsetTag, None, [])
    case Parsed(r) => r
  }

  /** `update_sitemap(path, site_url, slug)` with India's date `today`. */
  function UpdateSitemap(file: SitemapFile, siteUrl: string, slug: string, today: string): (r: Element)
    ensures file.Parsed? ==> r.tag == file.root.tag
    ensures !file.Parsed? ==> r.tag == UrlsetTag
    ensures IsStripped(CanonicalUrl(siteUrl, slug)) ==>
      var e := FindEntry(r.children, CanonicalUrl(siteUrl, slug));
      e.Some? && TextOf(e.value, LastmodTag) == Some(Some(today))
  {
    var root := StartingRoot(file, siteUrl, today);
    var loc := CanonicalUrl(siteUrl, slug);
    assert IsStripped(loc) ==>
      var e := FindEntry(Upsert(root, loc, today).children, loc);
      e.Some? && TextOf(e.value, LastmodTag) == Some(Some(today))
    by {
      if IsStripped(loc) {
        UpsertRecordsToday(root, loc, today);
      }
    }
    Upsert(root, loc, today)
  }

  /** A first run writes the homepage entry and then the post's. */
  lemma FirstSitemap(siteUrl: string, slug: string, today: string)
    ensures UpdateSitemap(Missing, siteUrl, slug, today).children ==
      [UrlEntry(SiteRoot(siteUrl) + "/", today, HomePriority), UrlEntry(CanonicalUrl(siteUrl, slug), today, PostPriority)]
  {
    var home := UrlEntry(SiteRoot(siteUrl) + "/", today, HomePriority);
    var loc := CanonicalUrl(siteUrl, slug);
    HomeIsNotPost(siteUrl, slug, today);
    UrlEntryReads(SiteRoot(siteUrl) + "/", today, HomePriority, loc);
    assert [home][1..] == [];
    assert FindEntry([home], loc).None?;
  }

  /** A sitemap that does not parse is replaced by one holding only the
      post's entry: unlike a missing file, it is not seeded with the
      homepage. */
  lemma UnparsableSitemap(siteUrl: string, slug: string, today: string)
    ensures var r := UpdateSitemap(Unparsable, siteUrl, slug, today);
      r.tag == UrlsetTag && r.children == [UrlEntry(CanonicalUrl(siteUrl, slug), today, PostPriority)]
  {
    assert [] + [UrlEntry(CanonicalUrl(siteUrl, slug), today, PostPriority)] == [UrlEntry(CanonicalUrl(siteUrl, slug), today, PostPriority)];
  }

  /** The homepage location ends in `/`, a post's in `.html`, so the seeded
      entry never stands for a post. */
  lemma HomeIsNotPost(siteUrl: string, slug: string, today: string)
    ensures !IsEntryFor(UrlEntry(SiteRoot(siteUrl) + "/", today, HomePriority), CanonicalUrl(siteUrl, slug))
  {
    var h := SiteRoot(siteUrl) + "/";
    var loc := CanonicalUrl(siteUrl, slug);
    UrlEntryReads(h, today, HomePriority, loc);
    assert loc[|loc| - 1] == 'l';
    var m := Strip(h);
    if m != [] {
      StripPads(h);
      PaddedEndsWith(h, m);
      assert !IsSpace(h[|h| - 1]);
      assert m[|m| - 1] == '/';
    }
    assert m != loc;
  }

  /** A text padded around a stripped core ends in whitespace or in the
      core's last character. */
  lemma PaddedEndsWith(h: string, m: string)
    requires PaddedBy(h, m) && m != []
    ensures h != [] && (IsSpace(h[|h| - 1]) || h[|h| - 1] == m[|m| - 1])
  {
    var a, b :| AllSpace(a) && AllSpace(b) && h == a + m + b;
    if b == [] {
      assert h == a + m;
    } else {
      assert h[|h| - 1] == b[|b| - 1];
    }
  }
}
