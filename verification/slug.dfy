/** Slug allocation (`ensure_unique_slug`): the first name among `s`, `s-2`,
    `s-3`, ... that no post in the blog directory already uses. The
    directory's post names are passed in as a set taken once per run;
    `slugify` is applied by the caller. */
module Slug {
  import opened Text

  /** The `i`-th alternative tried for `s`: `f"{s}-{i}"`. */
  function Candidate(s: string, i: nat): string {
    s + "-" + Decimal(i)
  }

  /** An alternative is always longer than the name it derives from. */
  lemma CandidateIsNotBase(s: string, i: nat)
    ensures Candidate(s, i) != s
  {
    assert |Candidate(s, i)| > |s|;
  }

  /** Different attempt numbers give different names. */
  lemma CandidateInjective(s: string, i: nat, j: nat)
    ensures Candidate(s, i) == Candidate(s, j) ==> i == j
  {
    if Candidate(s, i) == Candidate(s, j) {
      var p := s + "-";
      assert Candidate(s, i) == p + Decimal(i) && Candidate(s, j) == p + Decimal(j);
      assert Decimal(i) == Candidate(s, i)[|p|..];
      assert Decimal(j) == Candidate(s, j)[|p|..];
      DecimalInjective(i, j);
    }
  }

  /** The alternatives tried before attempt `n`: `{s-2, ..., s-(n-1)}`. */
  function Tried(s: string, n: nat): (r: set<string>)
    ensures forall j :: 2 <= j < n ==> Candidate(s, j) in r
    decreases n
  {
    if n <= 2 then {} else Tried(s, n - 1) + {Candidate(s, n - 1)}
  }

  /** Each attempt tries a new name, so `n - 2` names are tried before `n`. */
  lemma {:induction false} TriedSize(s: string, n: nat)
    ensures |Tried(s, n)| == if n < 2 then 0 else n - 2
    decreases n
  {
    if n > 2 {
      TriedSize(s, n - 1);
      NotYetTried(s, n - 1, n - 1);
    }
  }

  /** An attempt at or beyond `n` has not been tried before `n`. */
  lemma {:induction false} NotYetTried(s: string, n: nat, m: nat)
    requires m >= n
    ensures Candidate(s, m) !in Tried(s, n)
    decreases n
  {
    if n > 2 {
      NotYetTried(s, n - 1, m);
      CandidateInjective(s, m, n - 1);
    }
  }

  /** The attempt number of the first free alternative at or after `i`:
      every attempt in between names an existing post. */
  function FreeIndex(s: string, existing: set<string>, i: nat): (k: nat)
    requires 2 <= i
    requires forall j :: 2 <= j < i ==> Candidate(s, j) in existing
    ensures i <= k
    ensures Candidate(s, k) !in existing
    ensures forall j :: i <= j < k ==> Candidate(s, j) in existing
    decreases |existing| - |Tried(s, i)|
  {
    if Candidate(s, i) !in existing then i
    else
      TriedGrows(s, existing, i);
      FreeIndex(s, existing, i + 1)
  }

  /** While every attempt so far is taken, each one tries a name of
      `existing` not tried before, so the search ends. */
  lemma TriedGrows(s: string, existing: set<string>, i: nat)
    requires 2 <= i
    requires forall j :: 2 <= j <= i ==> Candidate(s, j) in existing
    ensures |Tried(s, i)| < |Tried(s, i + 1)| <= |existing|
  {
    assert Tried(s, i + 1) <= existing by {
      forall x | x in Tried(s, i + 1) ensures x in existing {
        TriedMembers(s, i + 1, x);
      }
    }
    Cardinality(Tried(s, i + 1), existing);
    TriedSize(s, i);
    TriedSize(s, i + 1);
  }

  /** Everything tried before `n` is one of the alternatives `2 .. n-1`. */
  lemma {:induction false} TriedMembers(s: string, n: nat, x: string)
    requires x in Tried(s, n)
    ensures exists j :: 2 <= j < n && x == Candidate(s, j)
    decreases n
  {
    if x != Candidate(s, n - 1) {
      TriedMembers(s, n - 1, x);
    }
  }

  lemma Cardinality(a: set<string>, b: set<string>)
    requires a <= b
    ensures |a| <= |b|
  {
    assert b == a + (b - a);
  }

  /** The first free attempt is unique: any attempt that is free and has only
      taken names before it is the one `FreeIndex` finds. */
  lemma FreeIndexUnique(s: string, existing: set<string>, k: nat)
    requires 2 <= k
    requires Candidate(s, k) !in existing
    requires forall j :: 2 <= j < k ==> Candidate(s, j) in existing
    ensures FreeIndex(s, existing, 2) == k
  {
  }

  /** The slug allocation as a function: `s` itself when free, otherwise the
      first free `s-i` with `i >= 2`. */
  function UniqueSlug(s: string, existing: set<string>): (r: string)
    ensures r !in existing
    ensures s !in existing ==> r == s
    ensures s in existing ==>
      exists i :: (2 <= i && r == Candidate(s, i) &&
                   forall j :: 2 <= j < i ==> Candidate(s, j) in existing)
  {
    if s !in existing then s else Candidate(s, FreeIndex(s, existing, 2))
  }

  /** `ensure_unique_slug` after `slugify`: probes `s`, then `s-2`, `s-3`, ...
      until a name that no existing post uses. */
  method EnsureUniqueSlug(s: string, existing: set<string>) returns (slug: string)
    ensures slug !in existing
    ensures s !in existing ==> slug == s
    ensures s in existing ==>
      exists i :: (2 <= i && slug == Candidate(s, i) &&
                   forall j :: 2 <= j < i ==> Candidate(s, j) in existing)
    ensures slug == UniqueSlug(s, existing)
  {
    if s !in existing {
      return s;
    }
    var i := 2;
    while Candidate(s, i) in existing
      invariant 2 <= i
      invariant forall j :: 2 <= j < i ==> Candidate(s, j) in existing
      decreases |existing| - |Tried(s, i)|
    {
      assert Tried(s, i + 1) <= existing by {
        forall x | x in Tried(s, i + 1) ensures x in existing {
          TriedMembers(s, i + 1, x);
        }
      }
      Cardinality(Tried(s, i + 1), existing);
      TriedSize(s, i);
      TriedSize(s, i + 1);
      i := i + 1;
    }
    FreeIndexUnique(s, existing, i);
    slug := Candidate(s, i);
  }

  /** `n` successive allocations for the same slug, each one's result added to
      the directory before the next (as successive runs do). */
  function Allocations(s: string, existing: set<string>, n: nat): seq<string>
    decreases n
  {
    if n == 0 then []
    else
      var slug := UniqueSlug(s, existing);
      [slug] + Allocations(s, existing + {slug}, n - 1)
  }

  /** The name the `k`-th of those allocations is expected to give (from 0):
      `s`, then `s-2`, `s-3`, ... */
  function Expected(s: string, k: nat): string {
    if k == 0 then s else Candidate(s, k + 1)
  }

  /** The names the first `m` allocations take. */
  function Taken(s: string, m: nat): set<string>
    decreases m
  {
    if m == 0 then {} else Taken(s, m - 1) + {Expected(s, m - 1)}
  }

  /** Nothing in `existing` looks like `s` or one of its alternatives. */
  ghost predicate FreeFamily(s: string, existing: set<string>) {
    s !in existing && forall j: nat :: Candidate(s, j) !in existing
  }

  /** With the first `m` names taken, the next allocation gives the `m`-th. */
  lemma NextAllocation(s: string, existing: set<string>, m: nat)
    requires FreeFamily(s, existing)
    ensures UniqueSlug(s, existing + Taken(s, m)) == Expected(s, m)
  {
    var e := existing + Taken(s, m);
    if m == 0 {
      assert Taken(s, 0) == {};
    } else {
      assert s in e by { assert Expected(s, 0) == s; TakenHas(s, m, 0); }
      forall j | 2 <= j < m + 1 ensures Candidate(s, j) in e {
        TakenHas(s, m, j - 1);
      }
      assert Candidate(s, m + 1) !in e by { NotTakenYet(s, m, m + 1); }
      FreeIndexUnique(s, e, m + 1);
    }
  }

  /** An alternative beyond the first `m` names is not among them. */
  lemma {:induction false} NotTakenYet(s: string, m: nat, j: nat)
    requires j > m
    ensures Candidate(s, j) !in Taken(s, m)
    decreases m
  {
    if m > 0 {
      NotTakenYet(s, m - 1, j);
      CandidateIsNotBase(s, j);
      CandidateInjective(s, j, m);
    }
  }

  lemma {:induction false} TakenHas(s: string, m: nat, k: nat)
    requires k < m
    ensures Expected(s, k) in Taken(s, m)
    decreases m
  {
    if k < m - 1 {
      TakenHas(s, m - 1, k);
    }
  }

  /** The names `Expected(s, m)`, ..., `Expected(s, m + n - 1)` in order. */
  function ExpectedRun(s: string, m: nat, n: nat): (r: seq<string>)
    ensures |r| == n
    decreases n
  {
    if n == 0 then [] else [Expected(s, m)] + ExpectedRun(s, m + 1, n - 1)
  }

  lemma {:induction false} ExpectedRunAt(s: string, m: nat, n: nat, k: nat)
    requires k < n
    ensures ExpectedRun(s, m, n)[k] == Expected(s, m + k)
    decreases n
  {
    if k > 0 {
      ExpectedRunAt(s, m + 1, n - 1, k - 1);
    }
  }

  /** Repeated allocation for a colliding name: after the first `m` names are
      taken, the next `n` runs publish exactly the next `n` names in order. */
  lemma {:induction false} AllocationsFrom(s: string, existing: set<string>, m: nat, n: nat)
    requires FreeFamily(s, existing)
    ensures Allocations(s, existing + Taken(s, m), n) == ExpectedRun(s, m, n)
    decreases n
  {
    if n > 0 {
      NextAllocation(s, existing, m);
      TakenStep(s, existing, m);
      AllocationsFrom(s, existing, m + 1, n - 1);
    }
  }

  lemma TakenStep(s: string, existing: set<string>, m: nat)
    ensures existing + Taken(s, m) + {Expected(s, m)} == existing + Taken(s, m + 1)
  {
  }

  /** `n` runs whose drafts all slugify to `s`, starting from a directory with
      no `s` post yet, publish `s`, `s-2`, ..., `s-n` in that order. */
  lemma RepeatedAllocation(s: string, existing: set<string>, n: nat)
    requires FreeFamily(s, existing)
    ensures |Allocations(s, existing, n)| == n
    ensures forall k :: 0 <= k < n ==> Allocations(s, existing, n)[k] == Expected(s, k)
  {
    assert existing + Taken(s, 0) == existing;
    AllocationsFrom(s, existing, 0, n);
    forall k | 0 <= k < n ensures Allocations(s, existing, n)[k] == Expected(s, k) {
      ExpectedRunAt(s, 0, n, k);
    }
  }
}
