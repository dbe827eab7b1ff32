/** Character and string operations the publisher borrows from Python:
    `str.isspace`, `str.strip`, `str.rstrip(ch)`, ASCII lower-casing,
    literal substring search (exact and under `re.IGNORECASE`),
    `str.replace(old, "")`, `str.join` and `str(n)` for naturals. */
module Text {
  import opened Options

  // ---------------------------------------------------------------------
  // Whitespace and stripping
  // ---------------------------------------------------------------------

  /** Python's `str.isspace` for a single character. */
  predicate IsSpace(c: char) {
    || c == ' '
    || ('\t' <= c <= '\r')
    || ('\U{1c}' <= c <= '\U{1f}')
    || c == '\U{85}' || c == '\U{a0}' || c == '\U{1680}'
    || ('\U{2000}' <= c <= '\U{200a}')
    || c == '\U{2028}' || c == '\U{2029}' || c == '\U{202f}'
    || c == '\U{205f}' || c == '\U{3000}'
  }

  predicate AllSpace(s: string) {
    forall i :: 0 <= i < |s| ==> IsSpace(s[i])
  }

  /** Neither end of `s` is whitespace: what `str.strip()` leaves behind. */
  predicate IsStripped(s: string) {
    s == [] || (!IsSpace(s[0]) && !IsSpace(s[|s| - 1]))
  }

  /** `s` is `core` with whitespace, and nothing else, on either side. */
  ghost predicate PaddedBy(s: string, core: string) {
    exists a, b :: AllSpace(a) && AllSpace(b) && s == a + core + b
  }

  /** `str.lstrip()`: the longest suffix of `s` that does not start with whitespace. */
  function StripLeft(s: string): (r: string)
    ensures |r| <= |s|
    ensures r == [] || !IsSpace(r[0])
  {
    if |s| > 0 && IsSpace(s[0]) then StripLeft(s[1..]) else s
  }

  /** `str.rstrip()`: the longest prefix of `s` that does not end with whitespace. */
  function StripRight(s: string): (r: string)
    ensures |r| <= |s|
    ensures r == [] || !IsSpace(r[|r| - 1])
    ensures r == [] || r[0] == s[0]
  {
    if |s| > 0 && IsSpace(s[|s| - 1]) then StripRight(s[..|s| - 1]) else s
  }

  /** `StripLeft` removes a run of whitespace from the front, and nothing else. */
  lemma {:induction false} StripLeftSuffix(s: string)
    ensures var r := StripLeft(s);
      r == s[|s| - |r|..] && AllSpace(s[..|s| - |r|])
    decreases |s|
  {
    if |s| > 0 && IsSpace(s[0]) {
      StripLeftSuffix(s[1..]);
      SpaceBefore(s, StripLeft(s[1..]));
    }
  }

  /** `StripRight` removes a run of whitespace from the back, and nothing else. */
  lemma {:induction false} StripRightPrefix(s: string)
    ensures var r := StripRight(s);
      r == s[..|r|] && AllSpace(s[|r|..])
    decreases |s|
  {
    if |s| > 0 && IsSpace(s[|s| - 1]) {
      StripRightPrefix(s[..|s| - 1]);
      SpaceAfter(s, StripRight(s[..|s| - 1]));
    }
  }

  /** A leading space joins the whitespace before a suffix. */
  lemma SpaceBefore(s: string, r: string)
    requires |s| > 0 && IsSpace(s[0])
    requires |r| <= |s| - 1 && r == s[1..][|s| - 1 - |r|..] && AllSpace(s[1..][..|s| - 1 - |r|])
    ensures r == s[|s| - |r|..] && AllSpace(s[..|s| - |r|])
  {
    assert s[..|s| - |r|] == [s[0]] + s[1..][..|s| - 1 - |r|];
  }

  /** A trailing space joins the whitespace after a prefix. */
  lemma SpaceAfter(s: string, r: string)
    requires |s| > 0 && IsSpace(s[|s| - 1])
    requires |r| <= |s| - 1 && r == s[..|s| - 1][..|r|] && AllSpace(s[..|s| - 1][|r|..])
    ensures r == s[..|r|] && AllSpace(s[|r|..])
  {
    assert s[|r|..] == s[..|s| - 1][|r|..] + [s[|s| - 1]];
  }

  /** Python's `str.strip()`: `s` with whitespace removed from both ends. */
  function Strip(s: string): (r: string)
    ensures IsStripped(r)
    ensures |r| <= |s|
  {
    StripRight(StripLeft(s))
  }

  /** What `Strip` removes is whitespace, and only from the ends. */
  lemma StripPads(s: string)
    ensures PaddedBy(s, Strip(s))
  {
    StripLeftSuffix(s);
    StripRightPrefix(StripLeft(s));
    StripParts(s, StripLeft(s), StripRight(StripLeft(s)));
  }

  /** A suffix after leading whitespace, cut before trailing whitespace, is
      the stripped core. */
  lemma StripParts(s: string, l: string, r: string)
    requires |l| <= |s| && l == s[|s| - |l|..] && AllSpace(s[..|s| - |l|])
    requires l == [] || !IsSpace(l[0])
    requires |r| <= |l| && r == l[..|r|] && AllSpace(l[|r|..])
    requires r == [] || !IsSpace(r[|r| - 1])
    ensures PaddedBy(s, r) && IsStripped(r)
  {
    var a, b := s[..|s| - |l|], l[|r|..];
    assert s == a + r + b;
    if r != [] {
      assert r[0] == l[0];
    }
  }

  /** Stripping is determined by its result: whatever whitespace surrounds a
      stripped core, `Strip` returns exactly that core. */
  lemma {:induction false} StripOfPadded(a: string, m: string, b: string)
    requires AllSpace(a) && AllSpace(b) && IsStripped(m)
    ensures Strip(a + m + b) == m
  {
    assert a + m + b == a + (m + b);
    if m == [] {
      assert m + b == b;
    } else {
      assert (m + b)[0] == m[0];
    }
    StripLeftOfPadded(a, m + b, m);
    if m == [] {
      assert StripLeft(a + m + b) == [];
    } else {
      StripRightOfPadded(m, b);
    }
  }

  lemma {:induction false} StripLeftOfPadded(a: string, rest: string, m: string)
    requires AllSpace(a)
    requires m == [] ==> AllSpace(rest)
    requires m != [] ==> |rest| > 0 && !IsSpace(rest[0])
    ensures StripLeft(a + rest) == (if m == [] then [] else rest)
    decreases |a| + |rest|
  {
    if a == [] {
      assert a + rest == rest;
      if m == [] {
        AllSpaceStripLeft(rest);
      }
    } else {
      assert (a + rest)[1..] == a[1..] + rest;
      StripLeftOfPadded(a[1..], rest, m);
    }
  }

  lemma {:induction false} AllSpaceStripLeft(s: string)
    requires AllSpace(s)
    ensures StripLeft(s) == []
    decreases |s|
  {
    if s != [] {
      AllSpaceStripLeft(s[1..]);
    }
  }

  lemma {:induction false} StripRightOfPadded(m: string, b: string)
    requires AllSpace(b) && IsStripped(m)
    ensures StripRight(m + b) == m
    decreases |b|
  {
    if b == [] {
      assert m + b == m;
      if m == [] { } else { }
    } else {
      assert (m + b)[..|m + b| - 1] == m + b[..|b| - 1];
      StripRightOfPadded(m, b[..|b| - 1]);
    }
  }

  /** `str.strip()` is idempotent. */
  lemma StripIdempotent(s: string)
    ensures Strip(Strip(s)) == Strip(s)
  {
    StrippedIsFixed(Strip(s));
  }

  /** A text with no surrounding whitespace is its own strip. */
  lemma StrippedIsFixed(s: string)
    requires IsStripped(s)
    ensures Strip(s) == s
  {
    StripOfPadded([], s, []);
    assert [] + s + [] == s;
  }

  /** `s.rstrip(c)`: `s` without its trailing run of `c`. */
  function StripTrailing(s: string, c: char): (r: string)
    ensures |r| <= |s| && r == s[..|r|]
    ensures forall i :: |r| <= i < |s| ==> s[i] == c
    ensures r == [] || r[|r| - 1] != c
  {
    if |s| > 0 && s[|s| - 1] == c then StripTrailing(s[..|s| - 1], c) else s
  }

  // ---------------------------------------------------------------------
  // Reading text files
  // ---------------------------------------------------------------------

  /** Universal newlines, as `read_text` decodes a file: each `\r\n` and
      each lone `\r` becomes `\n`. */
  function Newlines(s: string): (r: string)
    ensures forall i :: 0 <= i < |r| ==> r[i] != '\r'
    ensures |r| <= |s|
    ensures (forall i :: 0 <= i < |s| ==> s[i] != '\r') ==> r == s
  {
    if s == [] then []
    else if s[0] == '\r' then
      if |s| > 1 && s[1] == '\n' then "\n" + Newlines(s[2..]) else "\n" + Newlines(s[1..])
    else [s[0]] + Newlines(s[1..])
  }

  /** A `\r\n` pair becomes a single line break, not two. */
  lemma {:induction false} NewlinesOfCrLf(a: string, b: string)
    requires forall i :: 0 <= i < |a| ==> a[i] != '\r'
    ensures Newlines(a + "\r\n" + b) == a + "\n" + Newlines(b)
    decreases |a|
  {
    if a == [] {
      NewlinesOfLeadingCrLf(b);
      assert a + "\r\n" + b == "\r\n" + b;
    } else {
      NewlinesOfCrLf(a[1..], b);
      ConsRegroup(a, "\r\n", b);
      NewlinesCons(a[0], a[1..] + "\r\n" + b);
      ConsRegroup(a, "\n", Newlines(b));
    }
  }

  lemma NewlinesOfLeadingCrLf(b: string)
    ensures Newlines("\r\n" + b) == "\n" + Newlines(b)
  {
    var x := "\r\n" + b;
    assert x[0] == '\r' && x[1] == '\n' && x[2..] == b;
  }

  lemma NewlinesCons(c: char, t: string)
    requires c != '\r'
    ensures Newlines([c] + t) == [c] + Newlines(t)
  {
    assert ([c] + t)[0] == c && ([c] + t)[1..] == t;
  }

  lemma ConsRegroup(a: string, u: string, v: string)
    requires a != []
    ensures a + u + v == [a[0]] + (a[1..] + u + v)
  {
    assert a == [a[0]] + a[1..];
  }




  // ---------------------------------------------------------------------
  // Case folding
  // ---------------------------------------------------------------------

  /** Lower-casing of the ASCII letters A-Z. */
  function LowerChar(c: char): char {
    if 'A' <= c <= 'Z' then (c as int + 32) as char else c
  }

  /** `str.lower()`, restricted to ASCII letters. */
  function Lower(s: string): (r: string)
    ensures |r| == |s|
    ensures forall i :: 0 <= i < |s| ==> r[i] == LowerChar(s[i])
  {
    seq(|s|, i requires 0 <= i < |s| => LowerChar(s[i]))
  }

  /** Lower-casing distributes over concatenation. */
  lemma LowerAppend(a: string, b: string)
    ensures Lower(a + b) == Lower(a) + Lower(b)
  {
  }

  /** Lower-cased text contains the lower-case letter `c` only where the
      original has `c` or its upper-case form. */
  lemma LowerMissing(w: string, c: char)
    requires 'a' <= c <= 'z'
    requires c !in w && (c as int - 32) as char !in w
    ensures c !in Lower(w)
  {
    forall i | 0 <= i < |w| ensures Lower(w)[i] != c {
      assert w[i] in w;
    }
  }

  /** When character `c` of a subject matches pattern character `p` under
      Python's `re.IGNORECASE` (for the ASCII patterns this model searches
      for): same letter up to case, or one of the non-ASCII letters that
      Python's matcher also equates with i, s or k. */
  predicate FoldEq(c: char, p: char) {
    || LowerChar(c) == LowerChar(p)
    || (LowerChar(p) == 'i' && (c == '\U{130}' || c == '\U{131}'))
    || (LowerChar(p) == 's' && c == '\U{17f}')
    || (LowerChar(p) == 'k' && c == '\U{212a}')
  }

  predicate CharEq(c: char, p: char, ci: bool) {
    if ci then FoldEq(c, p) else c == p
  }

  // ---------------------------------------------------------------------
  // Literal search
  // ---------------------------------------------------------------------

  /** `pat` occurs in `s` starting at index `i` (case-insensitively when `ci`). */
  predicate MatchesAt(s: string, i: nat, pat: string, ci: bool) {
    && i + |pat| <= |s|
    && forall k :: 0 <= k < |pat| ==> CharEq(s[i + k], pat[k], ci)
  }

  /** `s` begins with `p`. */
  predicate StartsWith(s: string, p: string) {
    MatchesAt(s, 0, p, false)
  }

  lemma DiffersAt(s: string, p: string, k: nat)
    requires k < |p| && k < |s| && s[k] != p[k]
    ensures !StartsWith(s, p)
  {
  }

  /** A match inside the second part of a concatenation is a match in that
      part alone. */
  lemma MatchesAtShift(a: string, x: string, i: nat, pat: string, ci: bool)
    ensures MatchesAt(a + x, |a| + i, pat, ci) <==> MatchesAt(x, i, pat, ci)
  {
    if i + |pat| <= |x| {
      var s := a + x;
      forall k | 0 <= k < |pat| ensures CharEq(s[|a| + i + k], pat[k], ci) <==> CharEq(x[i + k], pat[k], ci) {
        assert s[|a| + i + k] == x[i + k];
      }
    }
  }

  /** Every character matches itself, with or without case folding. */
  lemma MatchesItself(a: string, pat: string, b: string, ci: bool)
    ensures MatchesAt(a + pat + b, |a|, pat, ci)
  {
    var s := a + pat + b;
    forall k | 0 <= k < |pat| ensures CharEq(s[|a| + k], pat[k], ci) {
      assert s[|a| + k] == pat[k];
    }
  }

  /** A match with none before it (from `from` on) is the one `Find` reports. */
  lemma FindAt(s: string, pat: string, from: nat, i: nat, ci: bool)
    requires from <= i && MatchesAt(s, i, pat, ci)
    requires forall j :: from <= j < i ==> !MatchesAt(s, j, pat, ci)
    ensures Find(s, pat, from, ci) == Some(i)
  {
  }

  /** A string begins with any of its prefixes. */
  lemma StartsWithPrefix(p: string, rest: string)
    ensures StartsWith(p + rest, p)
  {
  }

  /** Index of the first `c` in `s`, or `|s|` when there is none. */
  function IndexOfChar(s: string, c: char): (k: nat)
    ensures k <= |s|
    ensures k < |s| ==> s[k] == c
    ensures forall i :: 0 <= i < k ==> s[i] != c
  {
    if s == [] then 0
    else if s[0] == c then 0
    else 1 + IndexOfChar(s[1..], c)
  }

  /** The first `c` of `a + [c] + b`, where `a` lacks `c`, ends `a`. */
  lemma IndexOfCharAfter(a: string, c: char, b: string)
    requires c !in a
    ensures IndexOfChar(a + [c] + b, c) == |a|
  {
    var s := a + [c] + b;
    assert s[|a|] == c;
    forall i | 0 <= i < |a| ensures s[i] != c {
      assert s[i] == a[i];
      assert a[i] in a;
    }
  }

  /** A slice shows that a pattern occurs. */
  lemma OccursInMiddle(a: string, x: string, b: string)
    ensures Occurs(a + x + b, x)
  {
    var s := a + x + b;
    assert s[|a|..|a| + |x|] == x;
    assert SliceAt(s, |a|, x);
  }

  /** What occurs in a piece occurs in anything built around it. */
  lemma OccursWithin(a: string, x: string, b: string, pat: string)
    requires Occurs(x, pat)
    ensures Occurs(a + x + b, pat)
  {
    var i: nat :| SliceAt(x, i, pat);
    var s := a + x + b;
    assert s[|a| + i..|a| + i + |pat|] == x[i..i + |pat|];
    assert SliceAt(s, |a| + i, pat);
  }

  /** Python's `pat in s`: `pat` is a contiguous piece of `s`. */
  ghost predicate Occurs(s: string, pat: string) {
    exists i: nat :: SliceAt(s, i, pat)
  }

  /** The slice of `s` starting at `i` is `pat`. */
  ghost predicate SliceAt(s: string, i: nat, pat: string) {
    i + |pat| <= |s| && s[i..i + |pat|] == pat
  }

  /** An exact match is a slice equal to the pattern. */
  lemma ExactMatchIsSlice(s: string, i: nat, pat: string)
    ensures MatchesAt(s, i, pat, false) <==> (i + |pat| <= |s| && s[i..i + |pat|] == pat)
  {
    if i + |pat| <= |s| && s[i..i + |pat|] == pat {
      forall k | 0 <= k < |pat| ensures s[i + k] == pat[k] {
        assert s[i..i + |pat|][k] == s[i + k];
      }
    }
  }

  /** The leftmost match of `pat` in `s` at or after `from`. */
  function Find(s: string, pat: string, from: nat, ci: bool): (r: Option<nat>)
    ensures r.Some? ==> from <= r.value && r.value + |pat| <= |s| && MatchesAt(s, r.value, pat, ci)
    ensures r.Some? ==> forall j :: from <= j < r.value ==> !MatchesAt(s, j, pat, ci)
    ensures r.None? ==> forall j: nat :: from <= j ==> !MatchesAt(s, j, pat, ci)
    decreases |s| - from
  {
    if from + |pat| > |s| then None
    else if MatchesAt(s, from, pat, ci) then Some(from)
    else Find(s, pat, from + 1, ci)
  }

  /** Exact search finds something exactly when `pat in s` holds. */
  lemma FindDecidesOccurs(s: string, pat: string)
    ensures Find(s, pat, 0, false).Some? <==> Occurs(s, pat)
  {
    var r := Find(s, pat, 0, false);
    if r.Some? {
      ExactMatchIsSlice(s, r.value, pat);
      assert SliceAt(s, r.value, pat);
    }
    if Occurs(s, pat) {
      var i: nat :| SliceAt(s, i, pat);
      ExactMatchIsSlice(s, i, pat);
    }
  }

  /** A pattern containing a character that `t` lacks does not occur in `t`. */
  lemma AbsentCharNoOccurrence(t: string, k: string, c: char)
    requires c in k && c !in t
    ensures !Occurs(t, k)
  {
    var j :| 0 <= j < |k| && k[j] == c;
    forall i: nat ensures !SliceAt(t, i, k) {
      if i + |k| <= |t| {
        assert t[i..i + |k|][j] == t[i + j];
        assert t[i + j] in t;
      }
    }
  }

  /** An occurrence of a pattern without spaces lies on one side of a space. */
  lemma OccursAcrossSpace(a: string, b: string, k: string)
    requires ' ' !in k && Occurs(a + " " + b, k)
    ensures Occurs(a, k) || Occurs(b, k)
  {
    var t := a + " " + b;
    var i: nat :| SliceAt(t, i, k);
    if i + |k| <= |a| {
      assert t[i..i + |k|] == a[i..i + |k|];
      assert SliceAt(a, i, k);
    } else if i > |a| {
      assert t[i..i + |k|] == b[i - |a| - 1..i - |a| - 1 + |k|];
      assert SliceAt(b, i - |a| - 1, k);
    } else {
      StraddleHasSpace(a, b, k, i);
    }
  }

  lemma StraddleHasSpace(a: string, b: string, k: string, i: nat)
    requires SliceAt(a + " " + b, i, k) && i <= |a| < i + |k|
    ensures ' ' in k
  {
    var t := a + " " + b;
    assert t[i..i + |k|][|a| - i] == t[|a|];
  }

  /** Python's `re.search(re.escape(open) + ".*?" + re.escape(close), s,
      re.DOTALL)` (with `re.IGNORECASE` when `ci`), searching from index
      `from`: the start of the match and the start of its closing text. The
      contract is the expression's meaning: the leftmost opening that some
      closing follows, and the nearest closing after it. The engine retries
      at later openings when no closing follows the first one; those retries
      cannot succeed (the third clause), so the search is decided by the
      first opening. */
  function LazySpan(s: string, open: string, close: string, ci: bool, from: nat): (r: Option<(nat, nat)>)
    ensures r.Some? ==>
      && from <= r.value.0
      && MatchesAt(s, r.value.0, open, ci)
      && r.value.0 + |open| <= r.value.1
      && MatchesAt(s, r.value.1, close, ci)
      && forall m :: r.value.0 + |open| <= m < r.value.1 ==> !MatchesAt(s, m, close, ci)
    ensures r.Some? ==>
      forall i: nat, m: nat :: from <= i < r.value.0 && MatchesAt(s, i, open, ci) && i + |open| <= m ==>
        !MatchesAt(s, m, close, ci)
    ensures r.None? ==>
      forall i: nat, m: nat :: from <= i && MatchesAt(s, i, open, ci) && i + |open| <= m ==>
        !MatchesAt(s, m, close, ci)
  {
    FirstSpanNone(s, open, close, ci, from);
    FirstSpan(s, open, close, ci, from)
  }

  /** An opening at `i`, the first one, and a closing at `j`, the first one
      after it. */
  predicate SpanAt(s: string, open: string, close: string, ci: bool, i: nat, j: nat) {
    && MatchesAt(s, i, open, ci) && (forall k :: 0 <= k < i ==> !MatchesAt(s, k, open, ci))
    && i + |open| <= j
    && MatchesAt(s, j, close, ci) && (forall k :: i + |open| <= k < j ==> !MatchesAt(s, k, close, ci))
  }

  /** The first opening from the start and the first closing after it
      form the span the search finds. */
  lemma LazySpanAt(s: string, open: string, close: string, ci: bool, i: nat, j: nat)
    requires SpanAt(s, open, close, ci, i, j)
    ensures LazySpan(s, open, close, ci, 0) == Some((i, j))
  {
    FindAt(s, open, 0, i, ci);
    FindAt(s, close, i + |open|, j, ci);
  }

  lemma FirstSpanNone(s: string, open: string, close: string, ci: bool, from: nat)
    ensures FirstSpan(s, open, close, ci, from).None? ==>
      forall i: nat, m: nat :: from <= i && MatchesAt(s, i, open, ci) && i + |open| <= m ==>
        !MatchesAt(s, m, close, ci)
  {
    if FirstSpan(s, open, close, ci, from).None? && Find(s, open, from, ci).Some? {
      var i0 := Find(s, open, from, ci).value;
      forall i: nat, m: nat | from <= i && MatchesAt(s, i, open, ci) && i + |open| <= m
        ensures !MatchesAt(s, m, close, ci)
      {
        assert i0 <= i;
      }
    }
  }

  /** The first opening at or after `from` and the first closing after it. */
  function FirstSpan(s: string, open: string, close: string, ci: bool, from: nat): Option<(nat, nat)> {
    match Find(s, open, from, ci)
    case None => None
    case Some(i) =>
      match Find(s, close, i + |open|, ci)
      case Some(j) => Some((i, j))
      case None => None
  }

  /** No match at or after `a` means no match at or after any later `b`. */
  lemma NoMatchFromLater(s: string, pat: string, ci: bool, a: nat, b: nat)
    requires a <= b && Find(s, pat, a, ci).None?
    ensures Find(s, pat, b, ci).None?
  {
  }

  /** `s` has no `c` at any index in `[lo, hi)`. */
  predicate Avoids(s: string, lo: nat, hi: nat, c: char)
    requires lo <= hi <= |s|
  {
    forall k :: lo <= k < hi ==> s[k] != c
  }

  /** A pattern whose first character is only matched by itself cannot start
      in a stretch of `s` that lacks that character. */
  lemma NoMatchWhereFirstAbsent(s: string, pat: string, ci: bool, lo: nat, hi: nat, j: nat)
    requires lo <= hi <= |s| && |pat| > 0
    requires forall c :: CharEq(c, pat[0], ci) ==> c == pat[0]
    requires Avoids(s, lo, hi, pat[0])
    requires lo <= j < hi
    ensures !MatchesAt(s, j, pat, ci)
  {
  }

  /** `'<'` is matched only by itself, with or without `re.IGNORECASE`. */
  lemma LtFoldsOnlyToItself(ci: bool)
    ensures forall c :: CharEq(c, '<', ci) ==> c == '<'
  {
  }

  // ---------------------------------------------------------------------
  // Replacing, joining, formatting numbers
  // ---------------------------------------------------------------------

  /** `s.replace(pat, "")`: every non-overlapping occurrence of `pat`,
      scanned left to right, removed. */
  function RemoveAll(s: string, pat: string): (r: string)
    requires |pat| > 0
    ensures |r| <= |s|
    decreases |s|
  {
    if |s| < |pat| then s
    else if s[..|pat|] == pat then RemoveAll(s[|pat|..], pat)
    else [s[0]] + RemoveAll(s[1..], pat)
  }

  /** Removing a pattern from text that ends with it, where the pattern's
      second character appears neither in the text before it nor as its own
      first character, removes just that final copy. */
  lemma {:induction false} RemoveAllOnlyAtEnd(x: string, pat: string)
    requires |pat| >= 2 && pat[1] != pat[0] && pat[1] !in x
    ensures RemoveAll(x + pat, pat) == x
    decreases |x|
  {
    var s := x + pat;
    if x == [] {
      assert s == pat && s[|pat|..] == [];
    } else {
      if |x| >= 2 {
        assert s[1] == x[1];
      } else {
        assert s[1] == pat[0];
      }
      assert s[..|pat|][1] != pat[1];
      assert s[1..] == x[1..] + pat;
      assert pat[1] !in x[1..] by {
        forall k | 0 <= k < |x[1..]| ensures x[1..][k] != pat[1] {
          assert x[1..][k] == x[k + 1];
        }
      }
      RemoveAllOnlyAtEnd(x[1..], pat);
      assert [x[0]] + x[1..] == x;
    }
  }

  /** `sep.join(items)`. */
  function Join(sep: string, items: seq<string>): string {
    if items == [] then ""
    else if |items| == 1 then items[0]
    else items[0] + sep + Join(sep, items[1..])
  }

  predicate IsDigit(c: char) {
    '0' <= c <= '9'
  }

  function DigitChar(d: nat): char
    requires d < 10
  {
    ('0' as int + d) as char
  }

  /** `str(n)` for a natural number: its decimal digits, no leading zero. */
  function Decimal(n: nat): (r: string)
    ensures |r| > 0
    ensures forall i :: 0 <= i < |r| ==> IsDigit(r[i])
    ensures |r| > 1 ==> r[0] != '0'
    decreases n
  {
    if n < 10 then [DigitChar(n)] else Decimal(n / 10) + [DigitChar(n % 10)]
  }

  /** The value of a string of decimal digits. */
  function DecimalValue(s: string): nat
    requires forall i :: 0 <= i < |s| ==> IsDigit(s[i])
  {
    if s == [] then 0
    else
      assert IsDigit(s[|s| - 1]);
      DecimalValue(s[..|s| - 1]) * 10 + (s[|s| - 1] as int - '0' as int)
  }

  /** Reading the digits `str(n)` produces gives back `n`. */
  lemma {:induction false} DecimalRoundTrip(n: nat)
    ensures DecimalValue(Decimal(n)) == n
    decreases n
  {
    if n >= 10 {
      var d := Decimal(n / 10);
      assert (d + [DigitChar(n % 10)])[..|d|] == d;
      DecimalRoundTrip(n / 10);
    }
  }

  /** Distinct naturals print differently. */
  lemma DecimalInjective(a: nat, b: nat)
    requires Decimal(a) == Decimal(b)
    ensures a == b
  {
    DecimalRoundTrip(a);
    DecimalRoundTrip(b);
  }
}
