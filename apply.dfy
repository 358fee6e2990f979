/**
 * Replacement application (`_apply_replacements`): copy the input between
 * resolved matches verbatim and put each match's replacement in its place.
 * Replacement templates are literal byte strings here.
 */
module Apply {
  import opened ByteStrings
  import opened Matches

  /** The output of `_apply_replacements` from offset `pos` on. */
  function ApplyFrom(input: Bytes, ms: seq<Candidate>, pos: nat): Bytes
  {
    if ms == [] then Slice(input, pos, |input|)
    else Slice(input, pos, ms[0].start) + ms[0].replacement + ApplyFrom(input, ms[1..], ms[0].end)
  }

  function Applied(input: Bytes, ms: seq<Candidate>): Bytes
  {
    ApplyFrom(input, ms, 0)
  }

  /** `_apply_replacements`: append the gap and the replacement per match, then the tail. */
  method ApplyReplacements(input: Bytes, ms: seq<Candidate>) returns (result: Bytes)
    ensures result == Applied(input, ms)
  {
    var out: seq<Bytes> := [];
    var pos: nat := 0;
    var k := 0;
    assert ms[0..] == ms;
    while k < |ms|
      invariant k <= |ms|
      invariant Concat(out) + ApplyFrom(input, ms[k..], pos) == Applied(input, ms)
    {
      ApplyStep(input, ms, k, pos, out, Applied(input, ms));
      out := out + [Slice(input, pos, ms[k].start), ms[k].replacement];
      pos := ms[k].end;
      k := k + 1;
    }
    ApplyLast(input, ms, k, pos, out, Applied(input, ms));
    out := out + [Slice(input, pos, |input|)];
    result := Concat(out);
  }

  /** One iteration of the loop in `ApplyReplacements` keeps its invariant. */
  lemma ApplyStep(input: Bytes, ms: seq<Candidate>, k: nat, pos: nat, out: seq<Bytes>, goal: Bytes)
    requires k < |ms| && Concat(out) + ApplyFrom(input, ms[k..], pos) == goal
    ensures Concat(out + [Slice(input, pos, ms[k].start), ms[k].replacement])
      + ApplyFrom(input, ms[k + 1..], ms[k].end) == goal
  {
    var gap, r, rest := Slice(input, pos, ms[k].start), ms[k].replacement, ApplyFrom(input, ms[k + 1..], ms[k].end);
    ApplyFromUnfold(input, ms, k, pos);
    ConcatPush(out, gap, r);
    assert Concat(out) + (gap + r) + rest == Concat(out) + (gap + r + rest);
  }

  /** After the last match the tail completes the output. */
  lemma ApplyLast(input: Bytes, ms: seq<Candidate>, k: nat, pos: nat, out: seq<Bytes>, goal: Bytes)
    requires k == |ms| && Concat(out) + ApplyFrom(input, ms[k..], pos) == goal
    ensures Concat(out + [Slice(input, pos, |input|)]) == goal
  {
    assert ms[k..] == [];
    ConcatLast(out, Slice(input, pos, |input|));
  }

  /** A suffix of a suffix of `s` is a suffix of `s`. */
  lemma EndsWithPrepend(x: Bytes, rest: Bytes, t: Bytes)
    requires EndsWith(rest, t)
    ensures EndsWith(x + rest, t)
  {
    assert (x + rest)[|x + rest| - |t|..] == rest[|rest| - |t|..];
  }

  lemma ApplyFromUnfold(input: Bytes, ms: seq<Candidate>, k: nat, pos: nat)
    requires k < |ms|
    ensures ApplyFrom(input, ms[k..], pos)
      == Slice(input, pos, ms[k].start) + ms[k].replacement + ApplyFrom(input, ms[k + 1..], ms[k].end)
  {
    assert ms[k..][1..] == ms[k + 1..];
  }

  lemma ConcatPair(x: Bytes, y: Bytes)
    ensures Concat([x, y]) == x + y
  {
    assert [x, y][1..] == [y] && [y][1..] == [];
    assert Concat([y]) == y + Concat([]);
    assert y + [] == y;
  }

  lemma ConcatPush(out: seq<Bytes>, x: Bytes, y: Bytes)
    ensures Concat(out + [x, y]) == Concat(out) + x + y
  {
    ConcatAppend(out, [x, y]);
    ConcatPair(x, y);
  }

  lemma ConcatLast(out: seq<Bytes>, x: Bytes)
    ensures Concat(out + [x]) == Concat(out) + x
  {
    ConcatAppend(out, [x]);
    assert [x][1..] == [];
    assert Concat([x]) == x + Concat([]);
    assert x + [] == x;
  }

  /** Matches that are well-formed, inside the input and separated. */
  predicate Splicable(input: Bytes, ms: seq<Candidate>)
  {
    Separated(ms) && forall k :: 0 <= k < |ms| ==> ms[k].start <= ms[k].end <= |input|
  }

  /** Total length of the matched spans. */
  function MatchedLength(ms: seq<Candidate>): int
  {
    if ms == [] then 0 else ms[0].end - ms[0].start + MatchedLength(ms[1..])
  }

  /** Total length of the replacements. */
  function ReplacementLength(ms: seq<Candidate>): nat
  {
    if ms == [] then 0 else |ms[0].replacement| + ReplacementLength(ms[1..])
  }

  /** With no matches the input comes back unchanged. */
  lemma AppliedNoMatches(input: Bytes)
    ensures Applied(input, []) == input
  {
  }

  lemma {:induction false} ApplyFromIdentity(input: Bytes, ms: seq<Candidate>, pos: nat)
    requires Splicable(input, ms) && pos <= |input|
    requires ms != [] ==> pos <= ms[0].start
    requires forall k :: 0 <= k < |ms| ==> ms[k].replacement == input[ms[k].start..ms[k].end]
    ensures ApplyFrom(input, ms, pos) == input[pos..]
  {
    if ms != [] {
      var m := ms[0];
      if |ms| > 1 {
        assert ms[1..][0] == ms[1];
      }
      ApplyFromIdentity(input, ms[1..], m.end);
      SliceThree(input, pos, m.start, m.end);
    }
  }

  lemma SliceThree(s: Bytes, a: nat, b: nat, c: nat)
    requires a <= b <= c <= |s|
    ensures s[a..] == s[a..b] + s[b..c] + s[c..]
  {
  }

  /**
   * Untouched bytes are copied verbatim and in order: when every match is
   * replaced by the bytes it matched, the output is the input.
   */
  lemma AppliedIdentity(input: Bytes, ms: seq<Candidate>)
    requires Splicable(input, ms)
    requires forall k :: 0 <= k < |ms| ==> ms[k].replacement == input[ms[k].start..ms[k].end]
    ensures Applied(input, ms) == input
  {
    ApplyFromIdentity(input, ms, 0);
  }

  lemma {:induction false} ApplyFromLength(input: Bytes, ms: seq<Candidate>, pos: nat)
    requires Splicable(input, ms) && pos <= |input|
    requires ms != [] ==> pos <= ms[0].start
    ensures |ApplyFrom(input, ms, pos)| == |input| - pos - MatchedLength(ms) + ReplacementLength(ms)
  {
    if ms != [] {
      if |ms| > 1 {
        assert ms[1..][0] == ms[1];
      }
      ApplyFromLength(input, ms[1..], ms[0].end);
    }
  }

  /** Each match's span is exchanged for its replacement; nothing else changes length. */
  lemma AppliedLength(input: Bytes, ms: seq<Candidate>)
    requires Splicable(input, ms)
    ensures |Applied(input, ms)| == |input| - MatchedLength(ms) + ReplacementLength(ms)
  {
    ApplyFromLength(input, ms, 0);
  }

  predicate EndsWith(s: Bytes, t: Bytes)
  {
    |t| <= |s| && s[|s| - |t|..] == t
  }

  lemma {:induction false} ApplyFromTail(input: Bytes, ms: seq<Candidate>, pos: nat)
    requires Splicable(input, ms) && ms != []
    ensures EndsWith(ApplyFrom(input, ms, pos), input[ms[|ms| - 1].end..])
  {
    var t := input[ms[|ms| - 1].end..];
    var rest := ApplyFrom(input, ms[1..], ms[0].end);
    var x := Slice(input, pos, ms[0].start) + ms[0].replacement;
    if |ms| == 1 {
      assert ms[1..] == [] && ms[0].end <= |input|;
      assert rest == Slice(input, ms[0].end, |input|);
      assert rest[|rest| - |t|..] == t;
    } else {
      assert ms[1..][|ms[1..]| - 1] == ms[|ms| - 1];
      ApplyFromTail(input, ms[1..], ms[0].end);
    }
    EndsWithPrepend(x, rest, t);
  }

  /**
   * The output begins with the input up to the first match and ends with the
   * input after the last match, copied verbatim.
   */
  lemma AppliedEnds(input: Bytes, ms: seq<Candidate>)
    requires Splicable(input, ms) && ms != []
    ensures input[..ms[0].start] <= Applied(input, ms)
    ensures EndsWith(Applied(input, ms), input[ms[|ms| - 1].end..])
  {
    ApplyFromTail(input, ms, 0);
  }

  /** A single match: the familiar splice. */
  lemma AppliedOne(input: Bytes, m: Candidate)
    requires m.start <= m.end <= |input|
    ensures Applied(input, [m]) == input[..m.start] + m.replacement + input[m.end..]
  {
    assert [m][1..] == [];
    assert ApplyFrom(input, [], m.end) == input[m.end..];
    assert Slice(input, 0, m.start) == input[..m.start];
  }

  /**
   * The as-written resolver's order for zero-width matches duplicates input:
   * replacing every match of "" and of "ab" in "xxxab" by itself gives
   * "xxxabab"; the corrected resolver gives "xxxab" back.
   */
  lemma ZeroWidthDuplicatesBytes()
    ensures var input: Bytes := [120, 120, 120, 97, 98];
      var pool := [Candidate(3, 3, 0, []), Candidate(4, 4, 0, []), Candidate(3, 5, 1, [97, 98])];
      && Applied(input, DropOverlaps(pool)) == [120, 120, 120, 97, 98, 97, 98]
      && Applied(input, DropOverlapsFixed(pool)) == input
  {
    ZeroWidthBreaksDisjointness([], [97, 98]);
    AppliedOutOfOrder();
    AppliedInOrder();
  }

  lemma AppliedOutOfOrder()
    ensures Applied([120, 120, 120, 97, 98], [Candidate(3, 5, 1, [97, 98]), Candidate(3, 3, 0, []), Candidate(4, 4, 0, [])])
      == [120, 120, 120, 97, 98, 97, 98]
  {
    var input: Bytes := [120, 120, 120, 97, 98];
    var a, b, c := Candidate(3, 3, 0, []), Candidate(4, 4, 0, []), Candidate(3, 5, 1, [97, 98]);
    assert [c, a, b][1..] == [a, b] && [a, b][1..] == [b] && [b][1..] == [];
    var t0 := ApplyFrom(input, [], 4);
    assert t0 == [98];
    var t1 := ApplyFrom(input, [b], 3);
    assert t1 == [97] + [] + t0;
    var t2 := ApplyFrom(input, [a, b], 5);
    assert t2 == [] + [] + t1;
    assert Applied(input, [c, a, b]) == [120, 120, 120] + [97, 98] + t2;
  }

  lemma AppliedInOrder()
    ensures Applied([120, 120, 120, 97, 98], [Candidate(3, 3, 0, []), Candidate(4, 4, 0, [])])
      == [120, 120, 120, 97, 98]
  {
    var input: Bytes := [120, 120, 120, 97, 98];
    var a, b := Candidate(3, 3, 0, []), Candidate(4, 4, 0, []);
    assert [a, b][1..] == [b] && [b][1..] == [];
    var t0 := ApplyFrom(input, [], 4);
    assert t0 == [98];
    var t1 := ApplyFrom(input, [b], 3);
    assert t1 == [97] + [] + t0;
    assert Applied(input, [a, b]) == [120, 120, 120] + [] + t1;
  }
}
