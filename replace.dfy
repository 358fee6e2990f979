/**
 * The `multi_replace` driver: scan the input once per rule, pool the matches
 * in rule order, resolve overlaps, splice, and account for the work in the
 * run tally. Rules are literal (the search text is matched byte for byte, as
 * with `re.escape`) and replacements are literal byte strings.
 */
module Replace {
  import opened ByteStrings
  import opened Matches
  import opened Apply
  import opened Counters

  /** A pattern rule: search text and replacement. Its position in the rule list is its priority. */
  datatype Rule = Rule(search: Bytes, replacement: Bytes)

  predicate OccursAt(input: Bytes, pat: Bytes, p: nat)
  {
    p + |pat| <= |input| && input[p..p + |pat|] == pat
  }

  /**
   * `finditer` of a literal pattern from offset `p`: leftmost occurrences,
   * resuming after each one (one byte later for the empty pattern, which
   * therefore matches at every offset up to and including the end).
   */
  function ScanFrom(input: Bytes, rule: Rule, index: nat, p: nat): seq<Candidate>
    decreases |input| + 1 - p
  {
    if p > |input| then []
    else if OccursAt(input, rule.search, p) then
      [Candidate(p, p + |rule.search|, index, rule.replacement)]
        + ScanFrom(input, rule, index, p + (if rule.search == [] then 1 else |rule.search|))
    else ScanFrom(input, rule, index, p + 1)
  }

  function Scan(input: Bytes, rule: Rule, index: nat): seq<Candidate>
  {
    ScanFrom(input, rule, index, 0)
  }

  /** The pool of `multi_replace`: every rule's matches, rule by rule. */
  function Pool(input: Bytes, rules: seq<Rule>): seq<Candidate>
  {
    if rules == [] then []
    else Pool(input, rules[..|rules| - 1]) + Scan(input, rules[|rules| - 1], |rules| - 1)
  }

  /**
   * The bytes `multi_replace` returns: with `byEnd` false the overlaps are
   * resolved by `_sort_drop_overlaps` as written, with `byEnd` true by the
   * corrected resolver.
   */
  function Replaced(input: Bytes, rules: seq<Rule>, byEnd: bool): Bytes
  {
    Applied(input, Resolve(Pool(input, rules), byEnd))
  }

  /** No rule searches for the empty text, so every pooled match has width. */
  predicate NoEmptySearch(rules: seq<Rule>)
  {
    forall k :: 0 <= k < |rules| ==> rules[k].search != []
  }

  /** `regex.finditer(input)` for a literal rule. */
  method FindIter(input: Bytes, rule: Rule, index: nat) returns (found: seq<Candidate>)
    ensures found == Scan(input, rule, index)
  {
    found := [];
    var p := 0;
    while p <= |input|
      invariant p <= |input| + 1
      invariant found + ScanFrom(input, rule, index, p) == Scan(input, rule, index)
      decreases |input| + 1 - p
    {
      ScanFromStep(input, rule, index, p);
      if OccursAt(input, rule.search, p) {
        found := found + [Candidate(p, p + |rule.search|, index, rule.replacement)];
        p := p + if rule.search == [] then 1 else |rule.search|;
      } else {
        p := p + 1;
      }
    }
  }

  lemma ScanFromStep(input: Bytes, rule: Rule, index: nat, p: nat)
    requires p <= |input|
    ensures OccursAt(input, rule.search, p) ==>
      ScanFrom(input, rule, index, p) == [Candidate(p, p + |rule.search|, index, rule.replacement)]
        + ScanFrom(input, rule, index, p + (if rule.search == [] then 1 else |rule.search|))
    ensures !OccursAt(input, rule.search, p) ==> ScanFrom(input, rule, index, p) == ScanFrom(input, rule, index, p + 1)
  {
  }

  /** The first loop of `multi_replace`: every rule's matches appended in rule order. */
  method PoolMatches(input: Bytes, rules: seq<Rule>) returns (matches: seq<Candidate>)
    ensures matches == Pool(input, rules)
  {
    matches := [];
    var k := 0;
    while k < |rules|
      invariant k <= |rules|
      invariant matches == Pool(input, rules[..k])
    {
      var found := FindIter(input, rules[k], k);
      assert rules[..k + 1][..k] == rules[..k];
      matches := matches + found;
      k := k + 1;
    }
    assert rules[..k] == rules;
  }

  /** `multi_replace` as written. */
  method MultiReplace(input: Bytes, rules: seq<Rule>, isPath: bool, tally: Tally)
    returns (result: Bytes, counts: MatchCounts)
    modifies tally
    ensures fresh(counts)
    ensures result == Replaced(input, rules, false)
    ensures counts.found == |Pool(input, rules)| && counts.valid == |DropOverlaps(Pool(input, rules))|
    ensures counts.Consistent()
    ensures !isPath ==> (tally.chars == old(tally.chars) + |input|
                         && tally.matches == old(tally.matches) + counts.found
                         && tally.validMatches == old(tally.validMatches) + counts.valid)
    ensures isPath ==> (tally.chars == old(tally.chars) && tally.matches == old(tally.matches)
                        && tally.validMatches == old(tally.validMatches))
    ensures tally.files == old(tally.files) && tally.filesChanged == old(tally.filesChanged)
      && tally.filesRewritten == old(tally.filesRewritten) && tally.renames == old(tally.renames)
  {
    var matches := PoolMatches(input, rules);
    var validMatches := SortDropOverlaps(matches);
    result := ApplyReplacements(input, validMatches);
    ValidAtMostFound(input, rules, false);
    var found, valid := |matches|, |validMatches|;
    if !isPath {
      tally.AddScanned(|input|, found, valid);
    }
    counts := new MatchCounts(found, valid);
  }

  /** `multi_replace` with the corrected resolver of `SortDropOverlapsFixed`. */
  method MultiReplaceFixed(input: Bytes, rules: seq<Rule>, isPath: bool, tally: Tally)
    returns (result: Bytes, counts: MatchCounts)
    modifies tally
    ensures fresh(counts)
    ensures result == Replaced(input, rules, true)
    ensures counts.found == |Pool(input, rules)| && counts.valid == |DropOverlapsFixed(Pool(input, rules))|
    ensures counts.Consistent()
    ensures !isPath ==> (tally.chars == old(tally.chars) + |input|
                         && tally.matches == old(tally.matches) + counts.found
                         && tally.validMatches == old(tally.validMatches) + counts.valid)
    ensures isPath ==> (tally.chars == old(tally.chars) && tally.matches == old(tally.matches)
                        && tally.validMatches == old(tally.validMatches))
    ensures tally.files == old(tally.files) && tally.filesChanged == old(tally.filesChanged)
      && tally.filesRewritten == old(tally.filesRewritten) && tally.renames == old(tally.renames)
  {
    var matches := PoolMatches(input, rules);
    PoolWellFormed(input, rules);
    var validMatches := SortDropOverlapsFixed(matches);
    result := ApplyReplacements(input, validMatches);
    ValidAtMostFound(input, rules, true);
    var found, valid := |matches|, |validMatches|;
    if !isPath {
      tally.AddScanned(|input|, found, valid);
    }
    counts := new MatchCounts(found, valid);
  }

  // ---------------------------------------------------------------------------
  // What one rule's scan finds.

  /** Every match of a scan is an occurrence of the rule's text at or after `p`, tagged with the rule. */
  predicate GenuineFrom(input: Bytes, rule: Rule, index: nat, s: seq<Candidate>, p: nat)
  {
    forall c :: c in s ==>
      && p <= c.start && c.end == c.start + |rule.search| && c.end <= |input|
      && input[c.start..c.end] == rule.search
      && c.rule == index && c.replacement == rule.replacement
  }

  lemma {:induction false} ScanGenuine(input: Bytes, rule: Rule, index: nat, p: nat)
    ensures GenuineFrom(input, rule, index, ScanFrom(input, rule, index, p), p)
    decreases |input| + 1 - p
  {
    if p <= |input| {
      if OccursAt(input, rule.search, p) {
        ScanGenuine(input, rule, index, p + (if rule.search == [] then 1 else |rule.search|));
      } else {
        ScanGenuine(input, rule, index, p + 1);
      }
    }
  }

  /** A scan's matches come in order and do not overlap each other. */
  lemma {:induction false} ScanSeparated(input: Bytes, rule: Rule, index: nat, p: nat)
    ensures Separated(ScanFrom(input, rule, index, p))
    decreases |input| + 1 - p
  {
    var s := ScanFrom(input, rule, index, p);
    if p <= |input| {
      if OccursAt(input, rule.search, p) {
        var next := p + (if rule.search == [] then 1 else |rule.search|);
        ScanSeparated(input, rule, index, next);
        ScanGenuine(input, rule, index, next);
        var rest := ScanFrom(input, rule, index, next);
        forall i, j | 0 <= i < j < |s| ensures s[i].end <= s[j].start {
          if i == 0 {
            assert s[j] == rest[j - 1] && rest[j - 1] in rest;
          } else {
            assert s[i] == rest[i - 1] && s[j] == rest[j - 1];
          }
        }
      } else {
        ScanSeparated(input, rule, index, p + 1);
      }
    }
  }

  /**
   * Leftmost, non-overlapping: every occurrence of a non-empty search text at
   * or after `p` is found, or lies inside a match found before it.
   */
  lemma {:induction false} ScanCovers(input: Bytes, rule: Rule, index: nat, p: nat, q: nat)
    requires rule.search != [] && p <= q && OccursAt(input, rule.search, q)
    ensures exists c :: c in ScanFrom(input, rule, index, p) && c.start <= q < c.end
    decreases |input| + 1 - p
  {
    var s := ScanFrom(input, rule, index, p);
    if OccursAt(input, rule.search, p) {
      var c := Candidate(p, p + |rule.search|, index, rule.replacement);
      if q < p + |rule.search| {
        assert c in s;
      } else {
        ScanCovers(input, rule, index, p + |rule.search|, q);
        var c' :| c' in ScanFrom(input, rule, index, p + |rule.search|) && c'.start <= q < c'.end;
        assert c' in s;
      }
    } else {
      ScanCovers(input, rule, index, p + 1, q);
    }
  }

  // ---------------------------------------------------------------------------
  // The pool and the result.

  /** Every pooled match is an occurrence of its rule's text, carrying that rule's index and replacement. */
  predicate PoolGenuine(input: Bytes, rules: seq<Rule>, pool: seq<Candidate>)
  {
    forall c :: c in pool ==>
      && c.rule < |rules| && c.end == c.start + |rules[c.rule].search| && c.end <= |input|
      && input[c.start..c.end] == rules[c.rule].search
      && c.replacement == rules[c.rule].replacement
  }

  lemma {:induction false} PoolIsGenuine(input: Bytes, rules: seq<Rule>)
    ensures PoolGenuine(input, rules, Pool(input, rules))
  {
    if rules != [] {
      var init := rules[..|rules| - 1];
      PoolIsGenuine(input, init);
      ScanGenuine(input, rules[|rules| - 1], |rules| - 1, 0);
      forall c | c in Pool(input, init) ensures rules[c.rule] == init[c.rule] {
      }
    }
  }

  /**
   * Pool order: by rule index, and within one rule in scan order with no
   * overlap, so earlier-listed rules come first.
   */
  predicate PoolOrdered(pool: seq<Candidate>)
  {
    forall i, j :: 0 <= i < j < |pool| ==>
      pool[i].rule < pool[j].rule || (pool[i].rule == pool[j].rule && pool[i].end <= pool[j].start)
  }

  lemma {:induction false} PoolIsOrdered(input: Bytes, rules: seq<Rule>)
    ensures PoolOrdered(Pool(input, rules))
    ensures forall c :: c in Pool(input, rules) ==> c.rule < |rules|
  {
    if rules != [] {
      var n := |rules| - 1;
      var init := Pool(input, rules[..n]);
      var last := Scan(input, rules[n], n);
      PoolIsOrdered(input, rules[..n]);
      ScanGenuine(input, rules[n], n, 0);
      ScanSeparated(input, rules[n], n, 0);
      var pool := init + last;
      forall i, j | 0 <= i < j < |pool|
        ensures pool[i].rule < pool[j].rule || (pool[i].rule == pool[j].rule && pool[i].end <= pool[j].start)
      {
        if j < |init| {
          assert pool[i] == init[i] && pool[j] == init[j];
        } else if i < |init| {
          assert pool[i] == init[i] && init[i] in init;
          assert pool[j] == last[j - |init|] && last[j - |init|] in last;
        } else {
          assert pool[i] == last[i - |init|] && pool[j] == last[j - |init|];
        }
      }
    }
  }

  /** `multi_replace` never accepts more matches than it finds, with either resolver. */
  lemma ValidAtMostFound(input: Bytes, rules: seq<Rule>, byEnd: bool)
    ensures |Resolve(Pool(input, rules), byEnd)| <= |Pool(input, rules)|
  {
    DropOverlapsFromPool(Pool(input, rules), byEnd);
  }

  lemma PoolWellFormed(input: Bytes, rules: seq<Rule>)
    ensures AllWellFormed(Pool(input, rules))
  {
    PoolIsGenuine(input, rules);
  }

  /** Without an empty search text every pooled match has width. */
  lemma PoolNonEmpty(input: Bytes, rules: seq<Rule>)
    requires NoEmptySearch(rules)
    ensures AllNonEmpty(Pool(input, rules))
  {
    PoolIsGenuine(input, rules);
  }

  /** Without an empty search text the correction changes nothing. */
  lemma ReplacedAgree(input: Bytes, rules: seq<Rule>)
    requires NoEmptySearch(rules)
    ensures Resolve(Pool(input, rules), false) == Resolve(Pool(input, rules), true)
    ensures Replaced(input, rules, false) == Replaced(input, rules, true)
  {
    PoolWellFormed(input, rules);
    PoolNonEmpty(input, rules);
    DropOverlapsAgree(Pool(input, rules));
  }

  /**
   * The accepted matches are sorted, separated, disjoint and inside the
   * input: always for the corrected resolver, and for the resolver as
   * written when no search text is empty.
   */
  lemma ResolvedSeparated(input: Bytes, rules: seq<Rule>, byEnd: bool)
    requires byEnd || NoEmptySearch(rules)
    ensures Splicable(input, Resolve(Pool(input, rules), byEnd))
    ensures SortedByStart(Resolve(Pool(input, rules), byEnd))
    ensures PairwiseDisjoint(Resolve(Pool(input, rules), byEnd))
  {
    var pool := Pool(input, rules);
    PoolIsGenuine(input, rules);
    if !byEnd {
      ReplacedAgree(input, rules);
    }
    DropOverlapsFixedDisjoint(pool);
    DropOverlapsFromPool(pool, true);
    var r := DropOverlapsFixed(pool);
    forall k | 0 <= k < |r| ensures r[k].start <= r[k].end <= |input| {
      assert r[k] in pool;
    }
  }

  /**
   * Simultaneous replacement: rules that rewrite their text to itself leave
   * the input unchanged, always with the corrected resolver, and with the
   * resolver as written when no search text is empty (`EmptySearchExample`
   * shows the exception).
   */
  lemma ReplacedIdentity(input: Bytes, rules: seq<Rule>, byEnd: bool)
    requires forall k :: 0 <= k < |rules| ==> rules[k].replacement == rules[k].search
    requires byEnd || NoEmptySearch(rules)
    ensures Replaced(input, rules, byEnd) == input
  {
    var pool := Pool(input, rules);
    ResolvedSeparated(input, rules, byEnd);
    PoolIsGenuine(input, rules);
    DropOverlapsFromPool(pool, byEnd);
    var r := Resolve(pool, byEnd);
    forall k | 0 <= k < |r| ensures r[k].replacement == input[r[k].start..r[k].end] {
      assert r[k] in pool;
    }
    AppliedIdentity(input, r);
  }

  /** An input where no rule's text occurs comes back unchanged. */
  lemma {:induction false} ReplacedNoOccurrence(input: Bytes, rules: seq<Rule>)
    requires forall k, p :: 0 <= k < |rules| && 0 <= p <= |input| ==> !OccursAt(input, rules[k].search, p)
    ensures Pool(input, rules) == []
    ensures Replaced(input, rules, false) == input && Replaced(input, rules, true) == input
  {
    if rules != [] {
      var n := |rules| - 1;
      ReplacedNoOccurrence(input, rules[..n]);
      ScanGenuine(input, rules[n], n, 0);
      var s := Scan(input, rules[n], n);
      if s != [] {
        assert s[0] in s;
        assert OccursAt(input, rules[n].search, s[0].start);
      }
    }
  }

  // ---------------------------------------------------------------------------
  // The swap from the docstring of `multi_replace`.

  lemma ScanSwapInput()
    ensures Scan([120, 120, 120, 32, 121, 121, 121], Rule([120, 120, 120], [121, 121, 121]), 0)
      == [Candidate(0, 3, 0, [121, 121, 121])]
    ensures Scan([120, 120, 120, 32, 121, 121, 121], Rule([121, 121, 121], [120, 120, 120]), 1)
      == [Candidate(4, 7, 1, [120, 120, 120])]
  {
    var input: Bytes := [120, 120, 120, 32, 121, 121, 121];
    var x, y := Rule([120, 120, 120], [121, 121, 121]), Rule([121, 121, 121], [120, 120, 120]);
    assert ScanFrom(input, x, 0, 7) == [];
    assert ScanFrom(input, x, 0, 6) == [];
    assert ScanFrom(input, x, 0, 5) == [];
    assert input[4..7][0] == 121;
    assert !OccursAt(input, x.search, 4);
    assert ScanFrom(input, x, 0, 4) == [];
    assert input[3..6][0] == 32;
    assert !OccursAt(input, x.search, 3);
    assert ScanFrom(input, x, 0, 3) == [];
    assert input[0..3] == [120, 120, 120];
    assert ScanFrom(input, y, 1, 7) == [];
    assert ScanFrom(input, y, 1, 6) == [];
    assert ScanFrom(input, y, 1, 5) == [];
    assert input[4..7] == [121, 121, 121];
    assert ScanFrom(input, y, 1, 4) == [Candidate(4, 7, 1, [120, 120, 120])];
    assert input[3..6][0] == 32;
    assert !OccursAt(input, y.search, 3);
    assert input[2..5][0] == 120 && input[1..4][0] == 120 && input[0..3][0] == 120;
    assert !OccursAt(input, y.search, 2);
    assert !OccursAt(input, y.search, 1);
    assert !OccursAt(input, y.search, 0);
  }

  lemma SwapPool()
    ensures Pool([120, 120, 120, 32, 121, 121, 121],
                 [Rule([120, 120, 120], [121, 121, 121]), Rule([121, 121, 121], [120, 120, 120])])
      == [Candidate(0, 3, 0, [121, 121, 121]), Candidate(4, 7, 1, [120, 120, 120])]
  {
    var input: Bytes := [120, 120, 120, 32, 121, 121, 121];
    var x, y := Rule([120, 120, 120], [121, 121, 121]), Rule([121, 121, 121], [120, 120, 120]);
    ScanSwapInput();
    assert [x, y][..1] == [x] && [x][..0] == [];
    assert Pool(input, []) == [];
    assert Pool(input, [x]) == Pool(input, []) + Scan(input, x, 0);
    assert Pool(input, [x, y]) == Pool(input, [x]) + Scan(input, y, 1);
  }

  lemma SwapResolved()
    ensures DropOverlaps([Candidate(0, 3, 0, [121, 121, 121]), Candidate(4, 7, 1, [120, 120, 120])])
      == [Candidate(0, 3, 0, [121, 121, 121]), Candidate(4, 7, 1, [120, 120, 120])]
  {
    var c0, c1 := Candidate(0, 3, 0, [121, 121, 121]), Candidate(4, 7, 1, [120, 120, 120]);
    assert [c0, c1][..1] == [c0] && [c0][..0] == [];
    assert Resolve([], false) == [];
    assert InsertPos([], c0, false) == 0 && Accepts([], c0, false);
    assert Insert([], c0, 0) == [c0];
    assert Resolve([c0], false) == Step([], c0, false);
    assert DropOverlaps([c0]) == [c0];
    assert InsertPos([c0], c1, false) == 1;
    assert Accepts([c0], c1, false);
    assert Resolve([c0, c1], false) == Step([c0], c1, false);
    assert Insert([c0], c1, 1) == [c0, c1];
  }

  lemma SwapApplied()
    ensures Applied([120, 120, 120, 32, 121, 121, 121],
                    [Candidate(0, 3, 0, [121, 121, 121]), Candidate(4, 7, 1, [120, 120, 120])])
      == [121, 121, 121, 32, 120, 120, 120]
  {
    var input: Bytes := [120, 120, 120, 32, 121, 121, 121];
    var c0, c1 := Candidate(0, 3, 0, [121, 121, 121]), Candidate(4, 7, 1, [120, 120, 120]);
    assert [c0, c1][1..] == [c1] && [c1][1..] == [];
    assert ApplyFrom(input, [], 7) == Slice(input, 7, 7) == [];
    assert Slice(input, 3, 4) == [32];
    assert ApplyFrom(input, [c1], 3) == [32] + [120, 120, 120] + [];
    assert Slice(input, 0, 0) == [];
    assert Applied(input, [c0, c1]) == [] + [121, 121, 121] + ApplyFrom(input, [c1], 3);
  }

  /** `{xxx -> yyy, yyy -> xxx}` on "xxx yyy" swaps the two words: no replacement is re-matched. */
  lemma SwapExample()
    ensures Replaced([120, 120, 120, 32, 121, 121, 121],
                     [Rule([120, 120, 120], [121, 121, 121]), Rule([121, 121, 121], [120, 120, 120])], false)
      == [121, 121, 121, 32, 120, 120, 120]
  {
    SwapPool();
    SwapResolved();
    SwapApplied();
  }

  // ---------------------------------------------------------------------------
  // An empty search text, as a regex that matches the empty string (`x*` on
  // text without `x`) gives at every offset.

  lemma EmptyScan()
    ensures Scan([97, 98], Rule([], []), 0) == [Candidate(0, 0, 0, []), Candidate(1, 1, 0, []), Candidate(2, 2, 0, [])]
    ensures Scan([97, 98], Rule([97, 98], [97, 98]), 1) == [Candidate(0, 2, 1, [97, 98])]
  {
    var input: Bytes := [97, 98];
    var e, w := Rule([], []), Rule([97, 98], [97, 98]);
    assert ScanFrom(input, e, 0, 3) == [];
    assert OccursAt(input, [], 2) && OccursAt(input, [], 1) && OccursAt(input, [], 0);
    assert ScanFrom(input, w, 1, 2) == [] && ScanFrom(input, w, 1, 1) == [];
    assert input[0..2] == [97, 98];
  }

  lemma EmptySearchPool()
    ensures Pool([97, 98], [Rule([], []), Rule([97, 98], [97, 98])])
      == [Candidate(0, 0, 0, []), Candidate(1, 1, 0, []), Candidate(2, 2, 0, []), Candidate(0, 2, 1, [97, 98])]
  {
    var input: Bytes := [97, 98];
    var e, w := Rule([], []), Rule([97, 98], [97, 98]);
    EmptyScan();
    assert [e, w][..1] == [e] && [e][..0] == [];
    assert Pool(input, [e]) == Pool(input, []) + Scan(input, e, 0);
    assert Pool(input, [e, w]) == Pool(input, [e]) + Scan(input, w, 1);
  }

  lemma EmptySearchResolved()
    ensures DropOverlaps([Candidate(0, 0, 0, []), Candidate(1, 1, 0, []), Candidate(2, 2, 0, []), Candidate(0, 2, 1, [97, 98])])
      == [Candidate(0, 2, 1, [97, 98]), Candidate(0, 0, 0, []), Candidate(1, 1, 0, []), Candidate(2, 2, 0, [])]
  {
    var a, b, c, d := Candidate(0, 0, 0, []), Candidate(1, 1, 0, []), Candidate(2, 2, 0, []), Candidate(0, 2, 1, [97, 98]);
    var pool := [a, b, c, d];
    assert pool[..3] == [a, b, c] && [a, b, c][..2] == [a, b] && [a, b][..1] == [a] && [a][..0] == [];
    assert Resolve([], false) == [];
    assert Insert([], a, 0) == [a];
    assert DropOverlaps([a]) == [a];
    assert InsertPos([a], b, false) == 1;
    assert DropOverlaps([a, b]) == [a, b];
    assert InsertPos([a, b], c, false) == 2;
    assert DropOverlaps([a, b, c]) == [a, b, c];
    assert InsertPos([a, b, c], d, false) == 0;
    assert Insert([a, b, c], d, 0) == [d, a, b, c];
  }

  lemma EmptySearchApplied()
    ensures Applied([97, 98], [Candidate(0, 2, 1, [97, 98]), Candidate(0, 0, 0, []), Candidate(1, 1, 0, []), Candidate(2, 2, 0, [])])
      == [97, 98, 97, 98]
  {
    var input: Bytes := [97, 98];
    var a, b, c, d := Candidate(0, 0, 0, []), Candidate(1, 1, 0, []), Candidate(2, 2, 0, []), Candidate(0, 2, 1, [97, 98]);
    assert [d, a, b, c][1..] == [a, b, c] && [a, b, c][1..] == [b, c] && [b, c][1..] == [c] && [c][1..] == [];
    var t0 := ApplyFrom(input, [], 2);
    assert t0 == [];
    var t1 := ApplyFrom(input, [c], 1);
    assert t1 == [98] + [] + t0;
    var t2 := ApplyFrom(input, [b, c], 0);
    assert t2 == [97] + [] + t1;
    var t3 := ApplyFrom(input, [a, b, c], 2);
    assert t3 == [] + [] + t2;
    assert Applied(input, [d, a, b, c]) == [] + [97, 98] + t3;
  }

  /**
   * The rules `"" -> ""` and `ab -> ab` rewrite every match to itself, yet
   * the resolver as written puts the match of `ab` before the empty match
   * at 0, and the splice duplicates `ab`; the corrected resolver returns
   * the input.
   */
  lemma EmptySearchExample()
    ensures Replaced([97, 98], [Rule([], []), Rule([97, 98], [97, 98])], false) == [97, 98, 97, 98]
    ensures Replaced([97, 98], [Rule([], []), Rule([97, 98], [97, 98])], true) == [97, 98]
  {
    var rules := [Rule([], []), Rule([97, 98], [97, 98])];
    EmptySearchPool();
    EmptySearchResolved();
    EmptySearchApplied();
    ReplacedIdentity([97, 98], rules, true);
  }
}
