/**
 * Overlap resolution (`_overlap`, `_sort_drop_overlaps`).
 *
 * Candidates are pooled in priority order and inserted one by one into a list
 * kept sorted by start offset; the insertion point comes from `bisect_left`
 * and a candidate is compared only with its left and right accepted
 * neighbours. `Resolve(pool, false)` is that procedure as written;
 * `Resolve(pool, true)` is the corrected variant that locates the insertion
 * point by (start, end), which keeps zero-width matches in order.
 */
module Matches {
  import opened ByteStrings

  /** A match of one rule: the half-open span [start, end), the rule's index and its replacement. */
  datatype Candidate = Candidate(start: nat, end: nat, rule: nat, replacement: Bytes)

  predicate WellFormed(c: Candidate) { c.start <= c.end }
  predicate NonEmpty(c: Candidate) { c.start < c.end }

  predicate AllWellFormed(s: seq<Candidate>) { forall x :: x in s ==> WellFormed(x) }
  predicate AllNonEmpty(s: seq<Candidate>) { forall x :: x in s ==> NonEmpty(x) }

  /** `_overlap`: the half-open intervals intersect. */
  predicate Overlap(a: Candidate, b: Candidate)
  {
    a.start < b.end && b.start < a.end
  }

  predicate SortedByStart(s: seq<Candidate>)
  {
    forall i, j :: 0 <= i < j < |s| ==> s[i].start <= s[j].start
  }

  /** Each match ends no later than every later match starts: what splicing needs. */
  predicate Separated(s: seq<Candidate>)
  {
    forall i, j :: 0 <= i < j < |s| ==> s[i].end <= s[j].start
  }

  /** No two distinct positions hold overlapping matches. */
  predicate PairwiseDisjoint(s: seq<Candidate>)
  {
    forall i, j :: 0 <= i < |s| && 0 <= j < |s| && i != j ==> !Overlap(s[i], s[j])
  }

  /** The key comparison behind the insertion point: by start (as written) or by (start, end). */
  predicate Before(a: Candidate, c: Candidate, byEnd: bool)
  {
    a.start < c.start || (byEnd && a.start == c.start && a.end < c.end)
  }

  /** The insertion point `bisect_left` finds: the number of leading entries keyed before `c`. */
  function InsertPos(acc: seq<Candidate>, c: Candidate, byEnd: bool): (i: nat)
    ensures i <= |acc|
    ensures forall j :: 0 <= j < i ==> Before(acc[j], c, byEnd)
    ensures i < |acc| ==> !Before(acc[i], c, byEnd)
  {
    if acc == [] || !Before(acc[0], c, byEnd) then 0 else 1 + InsertPos(acc[1..], c, byEnd)
  }

  /** The candidate overlaps neither accepted neighbour of its insertion point. */
  predicate Accepts(acc: seq<Candidate>, c: Candidate, byEnd: bool)
  {
    var i := InsertPos(acc, c, byEnd);
    !(i > 0 && Overlap(acc[i - 1], c)) && !(i < |acc| && Overlap(acc[i], c))
  }

  function Insert(acc: seq<Candidate>, c: Candidate, i: nat): seq<Candidate>
    requires i <= |acc|
  {
    acc[..i] + [c] + acc[i..]
  }

  /** One iteration of the loop in `_sort_drop_overlaps`. */
  function Step(acc: seq<Candidate>, c: Candidate, byEnd: bool): seq<Candidate>
  {
    if Accepts(acc, c, byEnd) then Insert(acc, c, InsertPos(acc, c, byEnd)) else acc
  }

  /** The whole loop, as a left fold over the pool. */
  function Resolve(pool: seq<Candidate>, byEnd: bool): seq<Candidate>
    decreases |pool|
  {
    if pool == [] then [] else Step(Resolve(pool[..|pool| - 1], byEnd), pool[|pool| - 1], byEnd)
  }

  /** `_sort_drop_overlaps` as written. */
  function DropOverlaps(pool: seq<Candidate>): seq<Candidate> { Resolve(pool, false) }

  /** The corrected resolver: insertion point found by (start, end). */
  function DropOverlapsFixed(pool: seq<Candidate>): seq<Candidate> { Resolve(pool, true) }

  // ---------------------------------------------------------------------------
  // The loop as the source runs it: `starts` mirrors the accepted starts.

  /** `bisect.bisect_left` on a sorted list. */
  method BisectLeft(a: seq<nat>, x: nat) returns (lo: nat)
    requires forall i, j :: 0 <= i < j < |a| ==> a[i] <= a[j]
    ensures lo <= |a|
    ensures forall j :: 0 <= j < lo ==> a[j] < x
    ensures forall j :: lo <= j < |a| ==> a[j] >= x
  {
    lo := 0;
    var hi := |a|;
    while lo < hi
      invariant 0 <= lo <= hi <= |a|
      invariant forall j :: 0 <= j < lo ==> a[j] < x
      invariant forall j :: hi <= j < |a| ==> a[j] >= x
    {
      var mid := (lo + hi) / 2;
      if a[mid] < x {
        lo := mid + 1;
      } else {
        hi := mid;
      }
    }
  }

  /** `_sort_drop_overlaps`: greedy insertion in pool order, checking only the neighbours. */
  method SortDropOverlaps(pool: seq<Candidate>) returns (nonOverlaps: seq<Candidate>)
    ensures nonOverlaps == DropOverlaps(pool)
    ensures SortedByStart(nonOverlaps)
    ensures multiset(nonOverlaps) <= multiset(pool)
  {
    nonOverlaps := [];
    var starts: seq<nat> := [];
    var k := 0;
    while k < |pool|
      invariant 0 <= k <= |pool|
      invariant nonOverlaps == DropOverlaps(pool[..k])
      invariant SortedByStart(nonOverlaps)
      invariant starts == Starts(nonOverlaps)
    {
      var c := pool[k];
      ResolveSnoc(pool, k, false);
      StartsSorted(nonOverlaps);
      var index := BisectLeft(starts, c.start);
      InsertPosUnique(nonOverlaps, starts, c, index);
      StepSorted(nonOverlaps, c);
      if index > 0 && Overlap(nonOverlaps[index - 1], c) {
        // skipped: overlaps the accepted match on its left
      } else if index < |nonOverlaps| && Overlap(nonOverlaps[index], c) {
        // skipped: overlaps the accepted match on its right
      } else {
        StartsInsert(nonOverlaps, c, index);
        starts := starts[..index] + [c.start] + starts[index..];
        nonOverlaps := nonOverlaps[..index] + [c] + nonOverlaps[index..];
      }
      k := k + 1;
    }
    assert pool[..k] == pool;
    DropOverlapsFromPool(pool, false);
  }

  /** Python's order on `(start, end)` tuples. */
  predicate KeyLess(a: (nat, nat), b: (nat, nat))
  {
    a.0 < b.0 || (a.0 == b.0 && a.1 < b.1)
  }

  predicate KeysSorted(keys: seq<(nat, nat)>)
  {
    forall i, j :: 0 <= i < j < |keys| ==> !KeyLess(keys[j], keys[i])
  }

  /** `bisect.bisect_left` on a sorted list of `(start, end)` keys. */
  method BisectLeftKeys(a: seq<(nat, nat)>, x: (nat, nat)) returns (lo: nat)
    requires KeysSorted(a)
    ensures lo <= |a|
    ensures forall j :: 0 <= j < lo ==> KeyLess(a[j], x)
    ensures forall j :: lo <= j < |a| ==> !KeyLess(a[j], x)
  {
    lo := 0;
    var hi := |a|;
    while lo < hi
      invariant 0 <= lo <= hi <= |a|
      invariant forall j :: 0 <= j < lo ==> KeyLess(a[j], x)
      invariant forall j :: hi <= j < |a| ==> !KeyLess(a[j], x)
    {
      var mid := (lo + hi) / 2;
      if KeyLess(a[mid], x) {
        lo := mid + 1;
      } else {
        hi := mid;
      }
    }
  }

  /** The `(start, end)` keys of the accepted matches. */
  function Keys(acc: seq<Candidate>): (r: seq<(nat, nat)>)
    ensures |r| == |acc| && forall j :: 0 <= j < |acc| ==> r[j] == (acc[j].start, acc[j].end)
  {
    seq(|acc|, j requires 0 <= j < |acc| => (acc[j].start, acc[j].end))
  }

  lemma KeysInsert(acc: seq<Candidate>, c: Candidate, i: nat)
    requires i <= |acc|
    ensures Keys(Insert(acc, c, i)) == Keys(acc)[..i] + [(c.start, c.end)] + Keys(acc)[i..]
  {
    var l, r := Keys(Insert(acc, c, i)), Keys(acc)[..i] + [(c.start, c.end)] + Keys(acc)[i..];
    assert |l| == |r|;
    forall j | 0 <= j < |l| ensures l[j] == r[j] {
      if j < i {
        assert Insert(acc, c, i)[j] == acc[j];
      } else if j > i {
        assert Insert(acc, c, i)[j] == acc[j - 1];
      }
    }
  }

  /** A separated list of well-formed matches is sorted by `(start, end)`. */
  lemma SeparatedKeysSorted(acc: seq<Candidate>)
    requires Separated(acc) && AllWellFormed(acc)
    ensures KeysSorted(Keys(acc))
  {
    forall i, j | 0 <= i < j < |acc| ensures !KeyLess(Keys(acc)[j], Keys(acc)[i]) {
      assert acc[i] in acc && acc[j] in acc;
    }
  }

  /** The index `bisect_left` returns on the keys is the corrected insertion point. */
  lemma InsertPosKeys(acc: seq<Candidate>, keys: seq<(nat, nat)>, c: Candidate, i: nat)
    requires keys == Keys(acc) && i <= |keys|
    requires forall j :: 0 <= j < i ==> KeyLess(keys[j], (c.start, c.end))
    requires forall j :: i <= j < |keys| ==> !KeyLess(keys[j], (c.start, c.end))
    ensures i == InsertPos(acc, c, true)
  {
    var ip := InsertPos(acc, c, true);
    assert i < |acc| ==> !Before(acc[i], c, true);
    assert ip < i ==> Before(acc[ip], c, true);
  }

  /**
   * The corrected `_sort_drop_overlaps`: the same greedy insertion, with
   * `bisect_left` run on `(start, end)` keys instead of starts alone.
   */
  method SortDropOverlapsFixed(pool: seq<Candidate>) returns (nonOverlaps: seq<Candidate>)
    requires AllWellFormed(pool)
    ensures nonOverlaps == DropOverlapsFixed(pool)
  {
    nonOverlaps := [];
    var keys: seq<(nat, nat)> := [];
    var k := 0;
    while k < |pool|
      invariant 0 <= k <= |pool|
      invariant nonOverlaps == DropOverlapsFixed(pool[..k])
      invariant keys == Keys(nonOverlaps)
    {
      var c := pool[k];
      ResolveSnoc(pool, k, true);
      ResolvedPrefixSorted(pool, k);
      var index := BisectLeftKeys(keys, (c.start, c.end));
      InsertPosKeys(nonOverlaps, keys, c, index);
      if index > 0 && Overlap(nonOverlaps[index - 1], c) {
        // skipped: overlaps the accepted match on its left
      } else if index < |nonOverlaps| && Overlap(nonOverlaps[index], c) {
        // skipped: overlaps the accepted match on its right
      } else {
        KeysInsert(nonOverlaps, c, index);
        keys := keys[..index] + [(c.start, c.end)] + keys[index..];
        nonOverlaps := nonOverlaps[..index] + [c] + nonOverlaps[index..];
      }
      k := k + 1;
    }
    assert pool[..k] == pool;
  }

  lemma ResolvedPrefixSorted(pool: seq<Candidate>, k: nat)
    requires AllWellFormed(pool) && k <= |pool|
    ensures KeysSorted(Keys(DropOverlapsFixed(pool[..k])))
  {
    var init := pool[..k];
    assert forall x :: x in init ==> x in pool;
    ResolveSeparated(init, true);
    DropOverlapsFromPool(init, true);
    SeparatedKeysSorted(DropOverlapsFixed(init));
  }

  // ---------------------------------------------------------------------------
  // Properties of the resolver.

  lemma ResolveSnoc(pool: seq<Candidate>, k: nat, byEnd: bool)
    requires k < |pool|
    ensures Resolve(pool[..k + 1], byEnd) == Step(Resolve(pool[..k], byEnd), pool[k], byEnd)
  {
    assert pool[..k + 1][..k] == pool[..k];
  }

  /** The start offsets of the accepted matches: the list `starts` mirrors. */
  function Starts(acc: seq<Candidate>): (r: seq<nat>)
    ensures |r| == |acc| && forall j :: 0 <= j < |acc| ==> r[j] == acc[j].start
  {
    seq(|acc|, j requires 0 <= j < |acc| => acc[j].start)
  }

  lemma StartsSorted(acc: seq<Candidate>)
    requires SortedByStart(acc)
    ensures forall i, j :: 0 <= i < j < |Starts(acc)| ==> Starts(acc)[i] <= Starts(acc)[j]
  {
  }

  lemma StartsInsert(acc: seq<Candidate>, c: Candidate, i: nat)
    requires i <= |acc|
    ensures Starts(Insert(acc, c, i)) == Starts(acc)[..i] + [c.start] + Starts(acc)[i..]
  {
    var l, r := Starts(Insert(acc, c, i)), Starts(acc)[..i] + [c.start] + Starts(acc)[i..];
    assert |l| == |r|;
    forall j | 0 <= j < |l| ensures l[j] == r[j] {
      if j < i {
        assert Insert(acc, c, i)[j] == acc[j];
      } else if j > i {
        assert Insert(acc, c, i)[j] == acc[j - 1];
      }
    }
  }

  /** The index `bisect_left` returns on the starts is the insertion point. */
  lemma InsertPosUnique(acc: seq<Candidate>, starts: seq<nat>, c: Candidate, i: nat)
    requires starts == Starts(acc) && i <= |starts|
    requires forall j :: 0 <= j < i ==> starts[j] < c.start
    requires forall j :: i <= j < |starts| ==> starts[j] >= c.start
    ensures i == InsertPos(acc, c, false)
  {
    var ip := InsertPos(acc, c, false);
    assert i < |acc| ==> !Before(acc[i], c, false);
    assert ip < i ==> Before(acc[ip], c, false);
  }

  lemma InsertSorted(acc: seq<Candidate>, c: Candidate, i: nat)
    requires i <= |acc| && SortedByStart(acc)
    requires forall k :: 0 <= k < i ==> acc[k].start <= c.start
    requires forall k :: i <= k < |acc| ==> c.start <= acc[k].start
    ensures SortedByStart(Insert(acc, c, i))
  {
    var r := Insert(acc, c, i);
    assert forall k :: 0 <= k < i ==> r[k] == acc[k];
    assert r[i] == c;
    assert forall k :: i < k < |r| ==> r[k] == acc[k - 1];
    forall p, q | 0 <= p < q < |r| ensures r[p].start <= r[q].start {
      if q < i {
      } else if q == i {
      } else if p < i {
        assert r[p].start <= c.start <= r[q].start;
      } else if p == i {
      } else {
      }
    }
  }

  lemma StepSorted(acc: seq<Candidate>, c: Candidate)
    requires SortedByStart(acc)
    ensures SortedByStart(Step(acc, c, false))
  {
    if Accepts(acc, c, false) {
      var i := InsertPos(acc, c, false);
      forall k | i <= k < |acc| ensures c.start <= acc[k].start {
        assert acc[i].start <= acc[k].start;
      }
      InsertSorted(acc, c, i);
    }
  }

  /** The resolved list is sorted by start offset, for every pool. */
  lemma {:induction false} DropOverlapsSorted(pool: seq<Candidate>)
    ensures SortedByStart(DropOverlaps(pool))
  {
    if pool != [] {
      DropOverlapsSorted(pool[..|pool| - 1]);
      StepSorted(DropOverlaps(pool[..|pool| - 1]), pool[|pool| - 1]);
    }
  }

  lemma StepMultiset(acc: seq<Candidate>, c: Candidate, byEnd: bool)
    ensures multiset(acc) <= multiset(Step(acc, c, byEnd)) <= multiset(acc) + multiset{c}
  {
    if Accepts(acc, c, byEnd) {
      var i := InsertPos(acc, c, byEnd);
      assert acc == acc[..i] + acc[i..];
      assert multiset(Insert(acc, c, i)) == multiset(acc) + multiset{c};
    }
  }

  lemma {:induction false} ResolveMultiset(pool: seq<Candidate>, byEnd: bool)
    ensures multiset(Resolve(pool, byEnd)) <= multiset(pool)
  {
    if pool != [] {
      var init := pool[..|pool| - 1];
      ResolveMultiset(init, byEnd);
      ResolveLastMultiset(pool, byEnd);
      MultisetSnoc(pool);
    }
  }

  lemma ResolveLastMultiset(pool: seq<Candidate>, byEnd: bool)
    requires pool != []
    ensures multiset(Resolve(pool, byEnd))
      <= multiset(Resolve(pool[..|pool| - 1], byEnd)) + multiset{pool[|pool| - 1]}
  {
    StepMultiset(Resolve(pool[..|pool| - 1], byEnd), pool[|pool| - 1], byEnd);
  }

  lemma MultisetSnoc(pool: seq<Candidate>)
    requires pool != []
    ensures multiset(pool) == multiset(pool[..|pool| - 1]) + multiset{pool[|pool| - 1]}
  {
    assert pool == pool[..|pool| - 1] + [pool[|pool| - 1]];
  }

  /**
   * Every resolved match comes from the pool, none is duplicated, so the
   * result is no longer than the pool.
   */
  lemma DropOverlapsFromPool(pool: seq<Candidate>, byEnd: bool)
    ensures multiset(Resolve(pool, byEnd)) <= multiset(pool)
    ensures |Resolve(pool, byEnd)| <= |pool|
    ensures forall x :: x in Resolve(pool, byEnd) ==> x in pool
  {
    var r := Resolve(pool, byEnd);
    ResolveMultiset(pool, byEnd);
    assert |multiset(r)| <= |multiset(pool)|;
    forall x | x in r ensures x in pool {
      assert x in multiset(r);
    }
  }

  /** Once a candidate is accepted it is never displaced by a later one. */
  lemma {:induction false} AcceptedStay(pool: seq<Candidate>, k: nat, byEnd: bool)
    requires k <= |pool|
    ensures multiset(Resolve(pool[..k], byEnd)) <= multiset(Resolve(pool, byEnd))
    decreases |pool| - k
  {
    if k < |pool| {
      AcceptedStay(pool, k + 1, byEnd);
      ResolveSnoc(pool, k, byEnd);
      StepMultiset(Resolve(pool[..k], byEnd), pool[k], byEnd);
    } else {
      assert pool[..k] == pool;
    }
  }

  /** The neighbour checks see the ends of the neighbours they pass. */
  lemma NeighbourBounds(acc: seq<Candidate>, c: Candidate, byEnd: bool)
    requires Separated(acc) && AllWellFormed(acc + [c])
    requires byEnd || AllNonEmpty(acc + [c])
    requires Accepts(acc, c, byEnd)
    ensures var i := InsertPos(acc, c, byEnd);
      (i > 0 ==> acc[i - 1].end <= c.start) && (i < |acc| ==> c.end <= acc[i].start)
  {
    var i := InsertPos(acc, c, byEnd);
    assert c in acc + [c];
    if i > 0 {
      assert acc[i - 1] in acc + [c];
    }
    if i < |acc| {
      assert acc[i] in acc + [c];
    }
  }

  lemma InsertSeparated(acc: seq<Candidate>, c: Candidate, i: nat)
    requires i <= |acc| && Separated(acc) && c.start <= c.end
    requires forall k :: 0 <= k < |acc| ==> acc[k].start <= acc[k].end
    requires i > 0 ==> acc[i - 1].end <= c.start
    requires i < |acc| ==> c.end <= acc[i].start
    ensures Separated(Insert(acc, c, i))
  {
    var r := Insert(acc, c, i);
    assert forall k :: 0 <= k < i ==> r[k] == acc[k];
    assert r[i] == c;
    assert forall k :: i < k < |r| ==> r[k] == acc[k - 1];
    forall k | 0 <= k < i ensures acc[k].end <= c.start {
      if k < i - 1 {
        assert acc[k].end <= acc[i - 1].start;
      }
    }
    forall k | i <= k < |acc| ensures c.end <= acc[k].start {
      if k > i {
        assert acc[i].end <= acc[k].start;
      }
    }
    forall p, q | 0 <= p < q < |r| ensures r[p].end <= r[q].start {
      if q < i {
      } else if q == i {
      } else if p < i {
        assert r[p].end <= c.start <= c.end <= r[q].start;
      } else if p == i {
      } else {
      }
    }
  }

  lemma StepSeparated(acc: seq<Candidate>, c: Candidate, byEnd: bool)
    requires Separated(acc) && AllWellFormed(acc + [c])
    requires byEnd || AllNonEmpty(acc + [c])
    ensures Separated(Step(acc, c, byEnd))
  {
    if Accepts(acc, c, byEnd) {
      var i := InsertPos(acc, c, byEnd);
      NeighbourBounds(acc, c, byEnd);
      forall k | 0 <= k < |acc| ensures acc[k].start <= acc[k].end {
        assert acc[k] in acc + [c];
      }
      assert c in acc + [c];
      InsertSeparated(acc, c, i);
    }
  }

  lemma AllWellFormedInit(pool: seq<Candidate>)
    requires pool != []
    ensures pool == pool[..|pool| - 1] + [pool[|pool| - 1]]
    ensures forall x :: x in pool[..|pool| - 1] ==> x in pool
  {
    assert pool == pool[..|pool| - 1] + [pool[|pool| - 1]];
  }

  /**
   * The resolved list is separated (each match ends before the next one
   * starts) for the corrected resolver on every well-formed pool, and for the
   * resolver as written when no candidate is zero-width.
   */
  lemma {:induction false} ResolveSeparated(pool: seq<Candidate>, byEnd: bool)
    requires AllWellFormed(pool)
    requires byEnd || AllNonEmpty(pool)
    ensures Separated(Resolve(pool, byEnd))
  {
    if pool != [] {
      var init := pool[..|pool| - 1];
      var c := pool[|pool| - 1];
      AllWellFormedInit(pool);
      ResolveSeparated(init, byEnd);
      var acc := Resolve(init, byEnd);
      DropOverlapsFromPool(init, byEnd);
      assert forall x :: x in acc + [c] ==> x in pool;
      StepSeparated(acc, c, byEnd);
    }
  }

  lemma SeparatedDisjoint(s: seq<Candidate>)
    requires Separated(s) && AllWellFormed(s)
    ensures PairwiseDisjoint(s)
  {
    forall i, j | 0 <= i < |s| && 0 <= j < |s| && i != j ensures !Overlap(s[i], s[j]) {
      assert s[i] in s && s[j] in s;
    }
  }

  /**
   * The guarantee of `_sort_drop_overlaps`: sorted and pairwise disjoint,
   * provided no candidate is zero-width.
   */
  lemma DropOverlapsDisjoint(pool: seq<Candidate>)
    requires AllWellFormed(pool) && AllNonEmpty(pool)
    ensures SortedByStart(DropOverlaps(pool))
    ensures PairwiseDisjoint(DropOverlaps(pool))
  {
    DropOverlapsSorted(pool);
    ResolveSeparated(pool, false);
    DropOverlapsFromPool(pool, false);
    SeparatedDisjoint(DropOverlaps(pool));
  }

  /** The corrected resolver's guarantee holds for every well-formed pool, zero-width matches included. */
  lemma DropOverlapsFixedDisjoint(pool: seq<Candidate>)
    requires AllWellFormed(pool)
    ensures SortedByStart(DropOverlapsFixed(pool))
    ensures Separated(DropOverlapsFixed(pool))
    ensures PairwiseDisjoint(DropOverlapsFixed(pool))
  {
    var r := DropOverlapsFixed(pool);
    ResolveSeparated(pool, true);
    DropOverlapsFromPool(pool, true);
    SeparatedDisjoint(r);
    forall i, j | 0 <= i < j < |r| ensures r[i].start <= r[j].start {
      assert r[i] in r;
    }
  }

  /** Keyed by start alone or by (start, end), the insertion point is the same for a candidate that overlaps nothing. */
  lemma {:induction false} InsertPosAgree(acc: seq<Candidate>, c: Candidate)
    requires NonEmpty(c) && AllNonEmpty(acc)
    requires forall a :: a in acc ==> !Overlap(a, c)
    ensures InsertPos(acc, c, false) == InsertPos(acc, c, true)
  {
    if acc != [] {
      assert acc[0] in acc;
      assert forall a :: a in acc[1..] ==> a in acc;
      InsertPosAgree(acc[1..], c);
    }
  }

  lemma StepAgree(acc: seq<Candidate>, c: Candidate)
    requires Separated(acc) && AllWellFormed(acc + [c]) && AllNonEmpty(acc + [c])
    ensures Step(acc, c, false) == Step(acc, c, true)
  {
    AcceptsIffNoOverlap(acc, c, false);
    AcceptsIffNoOverlap(acc, c, true);
    assert c in acc + [c];
    assert forall a :: a in acc ==> a in acc + [c];
    if Accepts(acc, c, false) {
      InsertPosAgree(acc, c);
    }
  }

  /**
   * Without zero-width candidates the correction changes nothing: both
   * resolvers accept the same matches in the same order.
   */
  lemma {:induction false} DropOverlapsAgree(pool: seq<Candidate>)
    requires AllWellFormed(pool) && AllNonEmpty(pool)
    ensures DropOverlaps(pool) == DropOverlapsFixed(pool)
  {
    if pool != [] {
      var init := pool[..|pool| - 1];
      var c := pool[|pool| - 1];
      AllWellFormedInit(pool);
      DropOverlapsAgree(init);
      var acc := Resolve(init, false);
      ResolveSeparated(init, false);
      DropOverlapsFromPool(init, false);
      assert forall x :: x in acc + [c] ==> x in pool;
      StepAgree(acc, c);
    }
  }

  /**
   * Checking only the two neighbours is as good as checking every accepted
   * match: a candidate is accepted exactly when it overlaps none of them.
   */
  lemma AcceptsIffNoOverlap(acc: seq<Candidate>, c: Candidate, byEnd: bool)
    requires Separated(acc) && AllWellFormed(acc + [c])
    requires byEnd || AllNonEmpty(acc + [c])
    ensures Accepts(acc, c, byEnd) <==> forall a :: a in acc ==> !Overlap(a, c)
  {
    if Accepts(acc, c, byEnd) {
      forall a | a in acc ensures !Overlap(a, c) {
        var k :| 0 <= k < |acc| && acc[k] == a;
        AcceptedClear(acc, c, byEnd, k);
      }
    }
  }

  /** An accepted candidate overlaps no accepted match, near or far. */
  lemma AcceptedClear(acc: seq<Candidate>, c: Candidate, byEnd: bool, k: nat)
    requires Separated(acc) && AllWellFormed(acc + [c])
    requires byEnd || AllNonEmpty(acc + [c])
    requires Accepts(acc, c, byEnd) && k < |acc|
    ensures !Overlap(acc[k], c)
  {
    var i := InsertPos(acc, c, byEnd);
    NeighbourBounds(acc, c, byEnd);
    assert c in acc + [c];
    assert acc[k] in acc + [c];
    if k + 1 < i {
      assert acc[k].end <= acc[i - 1].start;
      assert acc[i - 1] in acc + [c];
    } else if k > i {
      assert acc[i].end <= acc[k].start;
      assert acc[i] in acc + [c];
    }
  }

  /**
   * Priority: a candidate accepted when its turn came stays in the result,
   * and no later candidate overlapping it is in the result. This holds for
   * the corrected resolver on every well-formed pool, and for the resolver
   * as written when no candidate is zero-width.
   */
  lemma EarlierWins(pool: seq<Candidate>, i: nat, j: nat, byEnd: bool)
    requires i < j < |pool|
    requires AllWellFormed(pool) && (byEnd || AllNonEmpty(pool))
    requires pool[i] in Resolve(pool[..i + 1], byEnd)
    requires Overlap(pool[i], pool[j]) && pool[i] != pool[j]
    ensures pool[i] in Resolve(pool, byEnd)
    ensures pool[j] !in Resolve(pool, byEnd)
  {
    AcceptedStay(pool, i + 1, byEnd);
    assert pool[i] in multiset(Resolve(pool[..i + 1], byEnd));
    var r := Resolve(pool, byEnd);
    assert pool[i] in r;
    if byEnd {
      DropOverlapsFixedDisjoint(pool);
    } else {
      DropOverlapsDisjoint(pool);
    }
    var p :| 0 <= p < |r| && r[p] == pool[i];
    forall q | 0 <= q < |r| ensures r[q] != pool[j] {
      if q != p {
        assert !Overlap(r[p], r[q]);
      }
    }
  }

  // ---------------------------------------------------------------------------
  // A zero-width candidate defeats the neighbour check.

  /**
   * The empty literal search matches at every offset. With a zero-width match
   * accepted at 3 and at 4, a match [3, 5) is inserted before the one at 3 and
   * ends up overlapping the one at 4.
   */
  lemma ZeroWidthBreaksDisjointness(r0: Bytes, r1: Bytes)
    ensures var pool := [Candidate(3, 3, 0, r0), Candidate(4, 4, 0, r0), Candidate(3, 5, 1, r1)];
      && AllWellFormed(pool)
      && DropOverlaps(pool) == [Candidate(3, 5, 1, r1), Candidate(3, 3, 0, r0), Candidate(4, 4, 0, r0)]
      && Overlap(DropOverlaps(pool)[0], DropOverlaps(pool)[2])
      && DropOverlapsFixed(pool) == [Candidate(3, 3, 0, r0), Candidate(4, 4, 0, r0)]
  {
    var a, b, c := Candidate(3, 3, 0, r0), Candidate(4, 4, 0, r0), Candidate(3, 5, 1, r1);
    var pool := [a, b, c];
    assert pool[..2] == [a, b] && [a, b][..1] == [a] && [a][..0] == [];
    assert [a][..0] == [];
    assert Resolve([], false) == [] && Resolve([], true) == [];
    assert Insert([], a, 0) == [a];
    assert DropOverlaps([a]) == [a];
    assert InsertPos([a], b, false) == 1;
    assert DropOverlaps([a, b]) == [a, b];
    assert InsertPos([a, b], c, false) == 0;
    assert Insert([a, b], c, 0) == [c, a, b];
    assert DropOverlapsFixed([a]) == [a];
    assert InsertPos([a], b, true) == 1;
    assert DropOverlapsFixed([a, b]) == [a, b];
    assert InsertPos([a, b], c, true) == 1;
  }
}
