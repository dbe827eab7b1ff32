/** The homepage's "latest from the blog" list (`rebuild_home_latest`, the
    second definition in the file, which is the one in force): the newest
    posts of the blog directory, each shown with the title read back from its
    page, written between two comment markers of the homepage. The directory
    listing, newest first, is an input; reading the files is not modelled. */
module Home {
  import opened Options
  import opened Text
  import opened Html
  import opened Titles
  import Render

  const StartMarker: string := "<" + StartRest
  const StartRest: string := "!-- LATEST_POSTS_START -->"
  const EndMarker: string := "<" + EndRest
  const EndRest: string := "!-- LATEST_POSTS_END -->"

  /** The default `max_items`. */
  const DefaultMaxItems: int := 5

  /** A `*.html` file of the blog directory: its name without the `.html`
      suffix and its text, `None` when reading it fails. */
  datatype PostFile = PostFile(base: string, text: Option<string>)

  /** One homepage entry: the post's slug and the title it shows. */
  datatype Post = Post(slug: string, title: string)

  function FileName(f: PostFile): string {
    f.base + ".html"
  }

  /** The index of the last `.` in a name, if any. */
  function LastDot(name: string): (r: Option<nat>)
    ensures r.Some? ==> r.value < |name| && name[r.value] == '.'
    ensures r.Some? ==> forall k :: r.value < k < |name| ==> name[k] != '.'
    ensures r.None? ==> forall k :: 0 <= k < |name| ==> name[k] != '.'
  {
    if name == [] then None
    else if name[|name| - 1] == '.' then Some(|name| - 1)
    else LastDot(name[..|name| - 1])
  }

  /** pathlib's `PurePath.stem` of a final name: the name without its
      suffix, where the suffix starts at the last dot, unless that dot is
      the first or the last character, in which case there is no suffix. */
  function Stem(name: string): (s: string)
    ensures |s| <= |name| && s == name[..|s|]
    ensures s != name ==> 0 < |s| < |name| - 1 && name[|s|] == '.'
    ensures s != name ==> forall k :: |s| < k < |name| ==> name[k] != '.'
  {
    match LastDot(name)
    case None => name
    case Some(i) => if 0 < i < |name| - 1 then name[..i] else name
  }

  /** The stem of a page's file is its name without `.html`, except for the
      file named just `.html`: a name whose only dot comes first has no
      suffix, so its stem is the whole name. */
  lemma {:induction false} HtmlStem(base: string)
    ensures Stem(base + ".html") == if base == "" then ".html" else base
  {
    var name := base + ".html";
    var n := |base|;
    assert name[n] == '.' && name[n + 1] == 'h' && name[n + 2] == 't' && name[n + 3] == 'm' && name[n + 4] == 'l';
    var d := LastDot(name);
    assert d == Some(n);
    if base != "" {
      assert name[..n] == base;
    } else {
      assert name == ".html";
    }
  }

  /** The two names the rebuild passes over. */
  predicate Skipped(f: PostFile) {
    FileName(f) == "index.html" || FileName(f) == "styles.css"
  }

  /** Only the blog index is ever passed over: `styles.css` does not end in
      `.html`, so the listing never holds it. */
  lemma SkippedIsIndex(f: PostFile)
    ensures Skipped(f) <==> f.base == "index"
  {
    var n := FileName(f);
    assert n[|n| - 1] == 'l';
    assert "styles.css"[9] == 's';
    if n == "index.html" {
      assert n[..|f.base|] == f.base;
      assert "index.html"[..5] == "index";
    }
  }

  // ---------------------------------------------------------------------
  // Choosing the posts
  // ---------------------------------------------------------------------

  /** The title an entry shows: the one read back from the page, else the
      file's stem (also when the file cannot be read). As the rebuild is
      written, the title read back is still HTML-escaped, and `Li` escapes it
      a second time. */
  function EntryTitle(f: PostFile): (t: string)
    ensures f.text.None? ==> t == Stem(FileName(f))
    ensures f.text.Some? && AsWrittenTitle(f.text.value).None? ==> t == Stem(FileName(f))
    ensures f.text.Some? && AsWrittenTitle(f.text.value).Some? ==> t == AsWrittenTitle(f.text.value).value
  {
    match f.text
    case None => Stem(FileName(f))
    case Some(text) =>
      match AsWrittenTitle(text)
      case None => Stem(FileName(f))
      case Some(t) => t
  }

  /** The entry of a file: its stem, which the list item turns back into a
      link by adding `.html`, and its title. */
  function Entry(f: PostFile): Post {
    Post(Stem(FileName(f)), EntryTitle(f))
  }

  /** The file `.html`, which the empty slug names, is linked under its
      whole name with `.html` added again: `/blog/.html.html`. */
  lemma EmptyBaseLink(text: Option<string>)
    ensures FileName(PostFile("", text)) == ".html"
    ensures Href(Entry(PostFile("", text))) == "/blog/" + FileName(PostFile("", text)) + ".html"
    ensures Href(Entry(PostFile("", text))) != "/blog/" + FileName(PostFile("", text))
  {
    var f := PostFile("", text);
    assert FileName(f) == ".html";
    HtmlStem("");
    assert Entry(f).slug == FileName(f);
  }



  /** The link an entry's list item points to. */
  function Href(p: Post): string {
    "/blog/" + p.slug + ".html"
  }

  /** As written, an entry links to its own file exactly when the file's
      name is more than `.html`; the file `.html` is linked as
      `/blog/.html.html`. */
  lemma EntryLinksFile(f: PostFile)
    ensures Href(Entry(f)) == "/blog/" + FileName(f) <==> f.base != ""
  {
    HtmlStem(f.base);
    if f.base == "" {
      assert Href(Entry(f)) == "/blog/.html.html";
      assert |Href(Entry(f))| != |"/blog/" + FileName(f)|;
    }
  }

  /** The listing without the names the rebuild passes over, in order. */
  function Eligible(files: seq<PostFile>): (r: seq<PostFile>)
    ensures |r| <= |files|
    ensures forall f :: f in r <==> f in files && !Skipped(f)
  {
    if files == [] then []
    else if Skipped(files[0]) then Eligible(files[1..])
    else [files[0]] + Eligible(files[1..])
  }

  lemma {:induction false} EligibleAppend(a: seq<PostFile>, b: seq<PostFile>)
    ensures Eligible(a + b) == Eligible(a) + Eligible(b)
    decreases |a|
  {
    if a != [] {
      var x, rest := a[0], a[1..];
      assert a == [x] + rest;
      assert a + b == [x] + (rest + b);
      EligibleAppend(rest, b);
      EligibleCons(x, rest);
      EligibleCons(x, rest + b);
    } else {
      assert a + b == b;
    }
  }

  /** The first file is kept unless the rebuild passes over it. */
  lemma EligibleCons(x: PostFile, t: seq<PostFile>)
    ensures Eligible([x] + t) == (if Skipped(x) then [] else [x]) + Eligible(t)
  {
    assert ([x] + t)[0] == x && ([x] + t)[1..] == t;
  }

  /** The number of posts taken: `max_items`, but at least one, since the
      loop appends before it compares the count with `max_items`. */
  function Cap(maxItems: int): (n: nat)
    ensures n >= 1 && n >= maxItems
    ensures maxItems >= 1 ==> n == maxItems
  {
    if maxItems < 1 then 1 else maxItems
  }

  /** The homepage entries: the first `Cap(maxItems)` eligible files,
      newest first, each with its slug and title. */
  function Latest(files: seq<PostFile>, maxItems: int): (posts: seq<Post>)
    ensures |posts| == if |Eligible(files)| < Cap(maxItems) then |Eligible(files)| else Cap(maxItems)
    ensures forall k :: 0 <= k < |posts| ==> posts[k] == Entry(Eligible(files)[k])
  {
    var e := Eligible(files);
    var n := if |e| < Cap(maxItems) then |e| else Cap(maxItems);
    seq(n, k requires 0 <= k < n => Entry(e[k]))
  }

  function Entries(files: seq<PostFile>): (posts: seq<Post>)
    ensures |posts| == |files|
    ensures forall k :: 0 <= k < |files| ==> posts[k] == Entry(files[k])
  {
    seq(|files|, k requires 0 <= k < |files| => Entry(files[k]))
  }

  /** The rebuild's loop: walk the listing newest first, pass over the blog
      index, add each post, and stop once the count reaches `max_items`. */
  method SelectLatest(files: seq<PostFile>, maxItems: int) returns (posts: seq<Post>)
    ensures posts == Latest(files, maxItems)
    ensures maxItems >= 1 ==> |posts| <= maxItems
    ensures forall k :: 0 <= k < |posts| ==> posts[k].slug != "index"
  {
    posts := [];
    var k := 0;
    var done := false;
    while k < |files| && !done
      invariant 0 <= k <= |files|
      invariant posts == Entries(Eligible(files[..k]))
      invariant done ==> |posts| == Cap(maxItems)
      invariant !done ==> |posts| < Cap(maxItems)
    {
      var f := files[k];
      assert files[..k + 1] == files[..k] + [f];
      EntriesStep(files[..k], f);
      if !Skipped(f) {
        posts := posts + [Entry(f)];
        if |posts| >= maxItems {
          done := true;
        }
      }
      k := k + 1;
    }
    SelectionComplete(files, k, maxItems);
    LatestSkipsIndex(files, maxItems);
  }

  /** No entry is the blog index: it is the one file passed over, and any
      other file's stem differs from `index`. */
  lemma LatestSkipsIndex(files: seq<PostFile>, maxItems: int)
    ensures forall k :: 0 <= k < |Latest(files, maxItems)| ==> Latest(files, maxItems)[k].slug != "index"
  {
    var posts := Latest(files, maxItems);
    forall k | 0 <= k < |posts| ensures posts[k].slug != "index" {
      var f := Eligible(files)[k];
      assert f in Eligible(files);
      SkippedIsIndex(f);
      HtmlStem(f.base);
    }
  }

  /** One more file adds its entry unless the rebuild passes over it. */
  lemma EntriesStep(prefix: seq<PostFile>, f: PostFile)
    ensures Entries(Eligible(prefix + [f])) ==
      Entries(Eligible(prefix)) + (if Skipped(f) then [] else [Entry(f)])
  {
    EligibleAppend(prefix, [f]);
    assert [f][1..] == [];
    var e := Eligible(prefix);
    var x := if Skipped(f) then [] else [f];
    assert Eligible([f]) == x;
    EntriesAppend(e, x);
  }

  lemma EntriesAppend(a: seq<PostFile>, b: seq<PostFile>)
    ensures Entries(a + b) == Entries(a) + Entries(b)
  {
    var l, r := Entries(a + b), Entries(a) + Entries(b);
    assert |l| == |r|;
    forall k | 0 <= k < |l| ensures l[k] == r[k] {
      if k < |a| {
        assert (a + b)[k] == a[k];
      } else {
        assert (a + b)[k] == b[k - |a|];
      }
    }
  }

  /** When the loop stops, it has the entries of the first `Cap(maxItems)`
      eligible files, or of all of them. */
  lemma SelectionComplete(files: seq<PostFile>, k: nat, maxItems: int)
    requires k <= |files|
    requires |Eligible(files[..k])| <= Cap(maxItems)
    requires k < |files| ==> |Eligible(files[..k])| == Cap(maxItems)
    ensures Entries(Eligible(files[..k])) == Latest(files, maxItems)
  {
    assert files == files[..k] + files[k..];
    EligibleAppend(files[..k], files[k..]);
    var e := Eligible(files[..k]);
    assert Eligible(files)[..|e|] == e;
  }

  // ---------------------------------------------------------------------
  // The list markup
  // ---------------------------------------------------------------------

  /** One list item: a link to the post showing its escaped title. */
  function Li(p: Post): string {
    "<li><a href=\"" + Href(p) + "\">" + Escape(p.title) + "</a></li>"
  }

  const ItemBreak: string := "\n          "
  const ListEnd: string := "\n        "

  /** The text written between the markers: the items joined by line breaks,
      with a line break before the first and one after the last. */
  function ListHtml(posts: seq<Post>): string {
    ItemBreak + Join(ItemBreak, ItemsOf(posts)) + ListEnd
  }

  function ItemsOf(posts: seq<Post>): (r: seq<string>)
    ensures |r| == |posts|
    ensures forall k :: 0 <= k < |posts| ==> r[k] == Li(posts[k])
  {
    seq(|posts|, k requires 0 <= k < |posts| => Li(posts[k]))
  }

  /** Each post on its own line, in order: the list is a line break and an
      item per post, then the closing indentation. */
  function Lines(posts: seq<Post>): string {
    if posts == [] then "" else ItemBreak + Li(posts[0]) + Lines(posts[1..])
  }

  lemma {:induction false} ListHtmlIsLines(posts: seq<Post>)
    requires posts != []
    ensures ListHtml(posts) == Lines(posts) + ListEnd
    decreases |posts|
  {
    JoinIsLines(posts);
  }

  lemma {:induction false} JoinIsLines(posts: seq<Post>)
    requires posts != []
    ensures ItemBreak + Join(ItemBreak, ItemsOf(posts)) == Lines(posts)
    decreases |posts|
  {
    var items := ItemsOf(posts);
    if |posts| > 1 {
      JoinIsLines(posts[1..]);
      assert items[1..] == ItemsOf(posts[1..]);
      var rest := Join(ItemBreak, items[1..]);
      assert Join(ItemBreak, items) == items[0] + ItemBreak + rest;
      Reassociate(ItemBreak, items[0], ItemBreak, rest);
    } else {
      assert posts[1..] == [];
    }
  }

  lemma Reassociate(a: string, b: string, c: string, d: string)
    ensures a + (b + c + d) == a + b + (c + d)
  {
  }

  /** Every chosen post has its item in the list. */
  lemma {:induction false} LinesShowEveryPost(posts: seq<Post>, k: nat)
    requires k < |posts|
    ensures Occurs(Lines(posts), Li(posts[k]))
    decreases k
  {
    var rest := Lines(posts[1..]);
    if k == 0 {
      OccursInMiddle(ItemBreak, Li(posts[0]), rest);
    } else {
      LinesShowEveryPost(posts[1..], k - 1);
      OccursWithin(ItemBreak + Li(posts[0]), rest, [], Li(posts[k]));
      assert ItemBreak + Li(posts[0]) + rest + [] == Lines(posts);
    }
  }

  // ---------------------------------------------------------------------
  // The region between the markers
  // ---------------------------------------------------------------------

  /** The homepage cut at its region: the text before the first start marker,
      the text up to the first end marker after it, and the rest; `None` when
      no end marker follows the first start marker. */
  function Split(home: string): (r: Option<(string, string, string)>)
    ensures r.Some? ==> home == r.value.0 + StartMarker + r.value.1 + EndMarker + r.value.2
    ensures r.Some? ==> !Occurs(r.value.0 + StartMarker[..|StartMarker| - 1], StartMarker)
    ensures r.Some? ==> !Occurs(r.value.1 + EndMarker[..|EndMarker| - 1], EndMarker)
    ensures r.None? <==> forall i: nat, m: nat ::
      MatchesAt(home, i, StartMarker, false) && i + |StartMarker| <= m ==> !MatchesAt(home, m, EndMarker, false)
  {
    match LazySpan(home, StartMarker, EndMarker, false, 0)
    case None => None
    case Some((i, j)) =>
      ExactMatchIsSlice(home, i, StartMarker);
      ExactMatchIsSlice(home, j, EndMarker);
      CutAround(home, i, StartMarker, j, EndMarker);
      NoCopyBefore(home, 0, i, StartMarker);
      assert home[0..i] == home[..i];
      NoCopyBefore(home, i + |StartMarker|, j, EndMarker);
      Some((home[..i], home[i + |StartMarker|..j], home[j + |EndMarker|..]))
  }

  /** A text cut around two slices it holds. */
  lemma CutAround(s: string, i: nat, p: string, j: nat, q: string)
    requires i + |p| <= j && j + |q| <= |s|
    requires s[i..i + |p|] == p && s[j..j + |q|] == q
    ensures s == s[..i] + p + s[i + |p|..j] + q + s[j + |q|..]
  {
  }

  /** When `w` first occurs at or after `a` at index `j`, the text from `a`
      up to the end of that copy, less its last character, holds no `w`. */
  lemma NoCopyBefore(home: string, a: nat, j: nat, w: string)
    requires a <= j && |w| > 0 && j + |w| <= |home| && home[j..j + |w|] == w
    requires forall k :: a <= k < j ==> !MatchesAt(home, k, w, false)
    ensures !Occurs(home[a..j] + w[..|w| - 1], w)
  {
    var n := |w|;
    var p := home[a..j] + w[..n - 1];
    assert w[..n - 1] == home[j..j + n - 1];
    assert p == home[a..j + n - 1];
    forall k: nat ensures !SliceAt(p, k, w) {
      if k + n <= |p| {
        NoCopyAt(home, a, p, k, w);
      }
    }
  }

  /** A copy of `w` inside a slice of `home` is a match in `home`. */
  lemma NoCopyAt(home: string, a: nat, p: string, k: nat, w: string)
    requires a + |p| <= |home| && p == home[a..a + |p|]
    requires k + |w| <= |p| && !MatchesAt(home, a + k, w, false)
    ensures !SliceAt(p, k, w)
  {
    ExactMatchIsSlice(home, a + k, w);
    var x, y := p[k..k + |w|], home[a + k..a + k + |w|];
    forall t | 0 <= t < |w| ensures x[t] == y[t] {
      assert p[k + t] == home[a + k + t];
    }
    assert x == y;
  }

  /** `re.sub(start.*?end, start + inner + end, home, count=1, flags=re.DOTALL)`,
      done only when both markers occur: the first region gets the new list
      and everything outside it stays. */
  function ReplaceRegion(home: string, inner: string): (r: string)
    ensures Split(home).None? ==> r == home
    ensures Split(home).Some? ==>
      r == Split(home).value.0 + StartMarker + inner + EndMarker + Split(home).value.2
  {
    if Find(home, StartMarker, 0, false).Some? && Find(home, EndMarker, 0, false).Some? then
      match LazySpan(home, StartMarker, EndMarker, false, 0)
      case None => home
      case Some((i, j)) => home[..i] + StartMarker + inner + EndMarker + home[j + |EndMarker|..]
    else
      assert Split(home).None? by {
        if Find(home, StartMarker, 0, false).Some? {
          FindAbsentAfter(home);
        }
      }
      home
  }

  /** A region implies an end marker somewhere. */
  lemma FindAbsentAfter(home: string)
    ensures Find(home, EndMarker, 0, false).None? ==> LazySpan(home, StartMarker, EndMarker, false, 0).None?
  {
    match LazySpan(home, StartMarker, EndMarker, false, 0)
    case None =>
    case Some((i, j)) =>
      assert MatchesAt(home, j, EndMarker, false);
  }

  /** A marker whose first character does not recur in it cannot start
      inside the text before a copy of itself and end inside that copy. */
  lemma NotStraddling(x: string, q: string, tail: string, k: nat)
    requires q != [] && q[0] !in q[1..]
    requires k < |x| < k + |q|
    ensures !MatchesAt(x + q + tail, k, q, false)
  {
    var s := x + q + tail;
    var d := |x| - k;
    assert s[k + d] == q[0];
    assert q[d] == q[1..][d - 1];
  }

  /** The markers' only `<` is their first character. */
  lemma MarkersOpenOnce()
    ensures StartMarker[0] !in StartMarker[1..]
    ensures EndMarker[0] !in EndMarker[1..]
  {
    assert StartMarker[1..] == StartRest;
    assert EndMarker[1..] == EndRest;
  }

  /** With nothing before `b`'s end completing a copy of `q`, the first `q`
      of `b + q + rest` is the one after `b`. */
  lemma FirstAfter(b: string, q: string, rest: string)
    requires q != [] && !Occurs(b + q[..|q| - 1], q)
    ensures MatchesAt(b + q + rest, |b|, q, false)
    ensures forall k :: 0 <= k < |b| ==> !MatchesAt(b + q + rest, k, q, false)
  {
    var r := b + q + rest;
    var n := |q|;
    var p := b + q[..n - 1];
    assert r[..|b| + n - 1] == p;
    forall k | 0 <= k < |b| ensures !MatchesAt(r, k, q, false) {
      ExactMatchIsSlice(r, k, q);
      assert !SliceAt(p, k, q);
      assert p[k..k + n] == r[k..k + n];
    }
    MatchesItself(b, q, rest, false);
  }

  /** From the start of `inner`, the first `q` of `pre + inner + q + a` is
      the one after `inner`, when `inner` has none and `q` opens once. */
  lemma FirstAfterInner(pre: string, inner: string, q: string, a: string)
    requires q != [] && q[0] !in q[1..]
    requires !Occurs(inner, q)
    ensures MatchesAt(pre + inner + q + a, |pre| + |inner|, q, false)
    ensures forall k :: |pre| <= k < |pre| + |inner| ==> !MatchesAt(pre + inner + q + a, k, q, false)
  {
    var r := pre + inner + q + a;
    forall k | |pre| <= k < |pre| + |inner| ensures !MatchesAt(r, k, q, false) {
      if k + |q| <= |pre| + |inner| {
        NoMatchInside(pre, inner, q + a, q, k);
        assert pre + inner + (q + a) == r;
      } else {
        NotStraddling(pre + inner, q, a, k);
      }
    }
    MatchesItself(pre + inner, q, a, false);
  }

  /** A match lying inside the middle part is a match in that part. */
  lemma NoMatchInside(pre: string, inner: string, post: string, q: string, k: nat)
    requires !Occurs(inner, q)
    requires |pre| <= k && k + |q| <= |pre| + |inner|
    ensures !MatchesAt(pre + inner + post, k, q, false)
  {
    var r := pre + inner + post;
    var o := |pre|;
    ExactMatchIsSlice(r, k, q);
    assert r[k..k + |q|] == inner[k - o..k - o + |q|];
    assert !SliceAt(inner, k - o, q);
  }

  /** Writing a list into the region and cutting the result again gives the
      same surroundings and the new list, when the list has no end marker. */
  lemma SplitReplaceRegion(home: string, inner: string)
    requires Split(home).Some?
    requires !Occurs(inner, EndMarker)
    ensures Split(ReplaceRegion(home, inner)) == Some((Split(home).value.0, inner, Split(home).value.2))
  {
    var (b, m, a) := Split(home).value;
    SplitOfRegion(b, inner, a);
  }

  /** Cutting a homepage built from a prefix without a start marker, the
      markers and a list without an end marker gives those pieces back. */
  lemma SplitOfRegion(b: string, inner: string, a: string)
    requires !Occurs(b + StartMarker[..|StartMarker| - 1], StartMarker)
    requires !Occurs(inner, EndMarker)
    ensures Split(b + StartMarker + inner + EndMarker + a) == Some((b, inner, a))
  {
    RegionOfConcat(b, inner, a);
    SplitFromSpan(b + StartMarker + inner + EndMarker + a, |b|, |b| + |StartMarker| + |inner|, b, inner, a);
  }

  /** Where the markers of such a homepage sit, and what lies around them. */
  lemma RegionOfConcat(b: string, inner: string, a: string)
    requires !Occurs(b + StartMarker[..|StartMarker| - 1], StartMarker)
    requires !Occurs(inner, EndMarker)
    ensures var r := b + StartMarker + inner + EndMarker + a;
      var i, j := |b|, |b| + |StartMarker| + |inner|;
      && SpanAt(r, StartMarker, EndMarker, false, i, j)
      && r[..i] == b && r[i + |StartMarker|..j] == inner && r[j + |EndMarker|..] == a
  {
    MarkersOpenOnce();
    Regroup(b, StartMarker, inner, EndMarker, a);
    FirstAfter(b, StartMarker, inner + EndMarker + a);
    FirstAfterInner(b + StartMarker, inner, EndMarker, a);
    CutPieces(b, StartMarker, inner, EndMarker, a);
  }

  lemma SplitFromSpan(s: string, i: nat, j: nat, b: string, m: string, a: string)
    requires SpanAt(s, StartMarker, EndMarker, false, i, j)
    requires j + |EndMarker| <= |s|
    requires s[..i] == b && s[i + |StartMarker|..j] == m && s[j + |EndMarker|..] == a
    ensures Split(s) == Some((b, m, a))
  {
    LazySpanAt(s, StartMarker, EndMarker, false, i, j);
  }

  lemma Regroup(b: string, p: string, m: string, q: string, a: string)
    ensures b + p + m + q + a == b + p + (m + q + a)
  {
  }

  lemma CutPieces(b: string, p: string, m: string, q: string, a: string)
    ensures var r := b + p + m + q + a;
      && r[..|b|] == b
      && r[|b| + |p|..|b| + |p| + |m|] == m
      && r[|b| + |p| + |m| + |q|..] == a
  {
  }

  /** Rewriting the region replaces what the last rewrite put there: two
      rebuilds in a row leave what the second alone would. */
  lemma ReplaceRegionTwice(home: string, x: string, y: string)
    requires !Occurs(x, EndMarker)
    ensures ReplaceRegion(ReplaceRegion(home, x), y) == ReplaceRegion(home, y)
  {
    if Split(home).Some? {
      SplitReplaceRegion(home, x);
    }
  }

  // ---------------------------------------------------------------------
  // The rebuild
  // ---------------------------------------------------------------------

  /** `rebuild_home_latest(home, blog_dir, max_items)` on an existing
      homepage: the region gets the list of the latest posts. */
  function RebuildHome(home: string, files: seq<PostFile>, maxItems: int): (r: string)
    ensures Split(home).None? ==> r == home
    ensures Split(home).Some? ==>
      r == Split(home).value.0 + StartMarker + ListHtml(Latest(files, maxItems)) + EndMarker + Split(home).value.2
  {
    ReplaceRegion(home, ListHtml(Latest(files, maxItems)))
  }

  /** A rebuild over the same files changes nothing the second time. */
  lemma RebuildHomeIdempotent(home: string, files: seq<PostFile>, maxItems: int)
    requires !Occurs(ListHtml(Latest(files, maxItems)), EndMarker)
    ensures RebuildHome(RebuildHome(home, files, maxItems), files, maxItems) == RebuildHome(home, files, maxItems)
  {
    ReplaceRegionTwice(home, ListHtml(Latest(files, maxItems)), ListHtml(Latest(files, maxItems)));
  }

  /** After a rebuild the region holds one item per chosen post, newest
      first, and the homepage is otherwise as it was. */
  lemma RebuildHomeShowsLatest(home: string, files: seq<PostFile>, maxItems: int)
    requires Split(home).Some?
    requires !Occurs(ListHtml(Latest(files, maxItems)), EndMarker)
    ensures var posts := Latest(files, maxItems);
      Split(RebuildHome(home, files, maxItems)) ==
        Some((Split(home).value.0, ListHtml(posts), Split(home).value.2))
  {
    SplitReplaceRegion(home, ListHtml(Latest(files, maxItems)));
  }

  /** A newly written post, newest in the listing, heads the homepage list,
      with the title read back from its page. */
  lemma NewestPostFirst(f: PostFile, files: seq<PostFile>, maxItems: int)
    requires f.base != "index"
    ensures |Latest([f] + files, maxItems)| > 0 && Latest([f] + files, maxItems)[0] == Entry(f)
  {
    SkippedIsIndex(f);
    assert ([f] + files)[1..] == files;
  }

  // ---------------------------------------------------------------------
  // The entry of a page the publisher rendered
  // ---------------------------------------------------------------------

  /** As written, the entry of a rendered post carries its title still
      escaped, and its list item escapes it a second time. */
  lemma EntryOfRenderedPost(slug: string, siteUrl: string, title: string, description: string,
                            tags: seq<string>, bodyHtml: string, year: nat)
    requires IsStripped(title) && '\U{2022}' !in title
    ensures var page := Render.RenderPage(siteUrl, slug, title, description, tags, bodyHtml, year);
      Entry(PostFile(slug, Some(page))) == Post(if slug == "" then ".html" else slug, Escape(title))
  {
    AsWrittenTitleOfRenderedPage(siteUrl, slug, title, description, tags, bodyHtml, year);
    EntryOfReadTitle(slug, Render.RenderPage(siteUrl, slug, title, description, tags, bodyHtml, year), Escape(title));
  }

  /** A page whose title reads back as `t` is listed under `t`. */
  lemma EntryOfReadTitle(slug: string, page: string, t: string)
    requires AsWrittenTitle(page) == Some(t)
    ensures Entry(PostFile(slug, Some(page))) == Post(if slug == "" then ".html" else slug, t)
  {
    HtmlStem(slug);
  }

  /** The discrepancy on one input: a post titled `R&D` is listed with the
      link text `R&amp;amp;D`, which a browser shows as `R&amp;D`. */
  lemma DoubleEscapedItem(slug: string, siteUrl: string, description: string,
                          tags: seq<string>, bodyHtml: string, year: nat)
    ensures var page := Render.RenderPage(siteUrl, slug, "R&D", description, tags, bodyHtml, year);
      Li(Entry(PostFile(slug, Some(page)))) == "<li><a href=\"" + Href(Post(if slug == "" then ".html" else slug, "")) + "\">" + "R&amp;amp;D" + "</a></li>"
  {
    var page := Render.RenderPage(siteUrl, slug, "R&D", description, tags, bodyHtml, year);
    AsWrittenTitleCounterexample(siteUrl, slug, description, tags, bodyHtml, year);
    ItemOfReadTitle(slug, page, "R&amp;D");
    EscapeOfEscapedRAndD();
  }

  /** A page whose title reads back as `t` is listed with `t` escaped. */
  lemma ItemOfReadTitle(slug: string, page: string, t: string)
    requires AsWrittenTitle(page) == Some(t)
    ensures Li(Entry(PostFile(slug, Some(page)))) == "<li><a href=\"" + Href(Post(if slug == "" then ".html" else slug, "")) + "\">" + Escape(t) + "</a></li>"
  {
    HtmlStem(slug);
  }

  lemma EscapeOfEscapedRAndD()
    ensures Escape("R&amp;D") == "R&amp;amp;D"
  {
    var t := "R&amp;D";
    assert t[1..] == "&amp;D";
    EscapeOfEscapedAmp();
    assert Escape(t) == "R" + "&amp;amp;D";
  }

  lemma EscapeOfEscapedAmp()
    ensures Escape("&amp;D") == "&amp;amp;D"
  {
    var t := "&amp;D";
    assert t[1..] == "amp;D";
    PlainEscape("amp;D");
    assert Escape(t) == "&amp;" + "amp;D";
  }

  lemma PlainEscape(s: string)
    requires forall i :: 0 <= i < |s| ==> !IsSpecial(s[i])
    ensures Escape(s) == s
  {
  }

  /** The entry as the rebuild should read it: the title with its escapes
      decoded (`Titles.ReadTitle`), so that the list item escapes it once. */
  function CorrectedEntry(f: PostFile): (p: Post)
    ensures p.slug == f.base
    ensures f.text.Some? && ReadTitle(f.text.value).Some? ==> p.title == ReadTitle(f.text.value).value
    ensures f.text.None? || ReadTitle(f.text.value).None? ==> p.title == f.base
  {
    match f.text
    case None => Post(f.base, f.base)
    case Some(text) =>
      match ReadTitle(text)
      case None => Post(f.base, f.base)
      case Some(t) => Post(f.base, t)
  }

  /** Read the corrected way, a rendered post is listed under the title it
      was published with, escaped once in its list item. */
  lemma CorrectedEntryOfRenderedPost(slug: string, siteUrl: string, title: string, description: string,
                                     tags: seq<string>, bodyHtml: string, year: nat)
    requires IsStripped(title) && '\U{2022}' !in title
    ensures var page := Render.RenderPage(siteUrl, slug, title, description, tags, bodyHtml, year);
      CorrectedEntry(PostFile(slug, Some(page))) == Post(slug, title)
  {
    ReadTitleOfRenderedPage(siteUrl, slug, title, description, tags, bodyHtml, year);
    CorrectedEntryOfReadTitle(slug, Render.RenderPage(siteUrl, slug, title, description, tags, bodyHtml, year), title);
  }

  /** Read the corrected way, every entry links to its own file. */
  lemma CorrectedEntryLinksFile(f: PostFile)
    ensures Href(CorrectedEntry(f)) == "/blog/" + FileName(f)
  {
    assert Href(CorrectedEntry(f)) == "/blog/" + (f.base + ".html");
  }

  lemma CorrectedEntryOfReadTitle(slug: string, page: string, t: string)
    requires ReadTitle(page) == Some(t)
    ensures CorrectedEntry(PostFile(slug, Some(page))) == Post(slug, t)
  {
  }
}
