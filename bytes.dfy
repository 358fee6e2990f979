/**
 * Byte strings and the handful of Python `bytes` operations the replacement
 * engine relies on: ASCII case mapping, `split`, `join`, slicing and `strip`.
 * Everything is ASCII: Python's `bytes.lower()`/`upper()` only touch A-Z/a-z.
 */
module ByteStrings {

  type Byte = b: int | 0 <= b < 256
  type Bytes = seq<Byte>

  const TAB: Byte := 9
  const NEWLINE: Byte := 10
  const RETURN: Byte := 13
  const SPACE: Byte := 32
  const HASH: Byte := 35
  const DOT: Byte := 46
  const UNDERSCORE: Byte := 95

  predicate IsUpper(b: Byte) { 65 <= b <= 90 }
  predicate IsLower(b: Byte) { 97 <= b <= 122 }
  predicate IsDigit(b: Byte) { 48 <= b <= 57 }

  /** `\w` of a bytes regular expression: ASCII letters, digits and `_`. */
  predicate IsWordChar(b: Byte) { IsUpper(b) || IsLower(b) || IsDigit(b) || b == UNDERSCORE }

  /** The bytes `bytes.strip()` removes: space, \t, \n, \v, \f, \r. */
  predicate IsSpace(b: Byte) { b == SPACE || 9 <= b <= 13 }

  function Lower(b: Byte): Byte { if IsUpper(b) then b + 32 else b }
  function Upper(b: Byte): Byte { if IsLower(b) then b - 32 else b }

  /** `bytes.lower()` */
  function LowerAll(s: Bytes): Bytes
  {
    if s == [] then [] else [Lower(s[0])] + LowerAll(s[1..])
  }

  /** `bytes.upper()` */
  function UpperAll(s: Bytes): Bytes
  {
    if s == [] then [] else [Upper(s[0])] + UpperAll(s[1..])
  }

  lemma {:induction false} LowerAllAppend(a: Bytes, b: Bytes)
    ensures LowerAll(a + b) == LowerAll(a) + LowerAll(b)
  {
    if a == [] {
      assert a + b == b;
    } else {
      assert (a + b)[1..] == a[1..] + b;
      LowerAllAppend(a[1..], b);
    }
  }

  lemma {:induction false} UpperAllAppend(a: Bytes, b: Bytes)
    ensures UpperAll(a + b) == UpperAll(a) + UpperAll(b)
  {
    if a == [] {
      assert a + b == b;
    } else {
      assert (a + b)[1..] == a[1..] + b;
      UpperAllAppend(a[1..], b);
    }
  }

  /** `s.split(bytes([sep]))`: the pieces between occurrences of `sep`, empty pieces kept. */
  function Split(s: Bytes, sep: Byte): (r: seq<Bytes>)
    ensures |r| >= 1
  {
    if s == [] then [[]]
    else
      var rest := Split(s[1..], sep);
      if s[0] == sep then [[]] + rest else [[s[0]] + rest[0]] + rest[1..]
  }

  /** `bytes([sep]).join(ws)` */
  function Join(ws: seq<Bytes>, sep: Byte): Bytes
  {
    if ws == [] then []
    else if |ws| == 1 then ws[0]
    else ws[0] + [sep] + Join(ws[1..], sep)
  }

  /** `b"".join(ws)` */
  function Concat(ws: seq<Bytes>): Bytes
  {
    if ws == [] then [] else ws[0] + Concat(ws[1..])
  }

  lemma {:induction false} ConcatAppend(a: seq<Bytes>, b: seq<Bytes>)
    ensures Concat(a + b) == Concat(a) + Concat(b)
  {
    if a == [] {
      assert a + b == b;
    } else {
      assert (a + b)[1..] == a[1..] + b;
      ConcatAppend(a[1..], b);
    }
  }

  /** Splitting and joining on the same separator gives the input back. */
  lemma {:induction false} JoinSplit(s: Bytes, sep: Byte)
    ensures Join(Split(s, sep), sep) == s
  {
    if s != [] {
      var rest := Split(s[1..], sep);
      JoinSplit(s[1..], sep);
      if s[0] == sep {
        assert Split(s, sep) == [[]] + rest;
      } else {
        var r := Split(s, sep);
        assert r == [[s[0]] + rest[0]] + rest[1..];
        if |rest| == 1 {
          assert Join(r, sep) == [s[0]] + rest[0];
        } else {
          assert r[1..] == rest[1..];
          assert Join(rest, sep) == rest[0] + [sep] + Join(rest[1..], sep);
        }
      }
    }
  }

  /** Every piece of a split is free of the separator. */
  lemma {:induction false} SplitPiecesFree(s: Bytes, sep: Byte)
    ensures forall w :: w in Split(s, sep) ==> sep !in w
  {
    if s != [] {
      SplitPiecesFree(s[1..], sep);
    }
  }

  lemma {:induction false} SplitFree(w: Bytes, sep: Byte)
    requires sep !in w
    ensures Split(w, sep) == [w]
  {
    if w != [] {
      SplitFree(w[1..], sep);
      assert [w[0]] + w[1..] == w;
    }
  }

  lemma {:induction false} SplitAppend(w: Bytes, t: Bytes, sep: Byte)
    requires sep !in w
    ensures Split(w + [sep] + t, sep) == [w] + Split(t, sep)
  {
    if w == [] {
      assert ([] + [sep] + t)[1..] == t;
    } else {
      assert (w + [sep] + t)[1..] == w[1..] + [sep] + t;
      SplitAppend(w[1..], t, sep);
      assert [w[0]] + w[1..] == w;
    }
  }

  /** Joining separator-free words and splitting again gives the words back. */
  lemma {:induction false} SplitJoin(ws: seq<Bytes>, sep: Byte)
    requires |ws| >= 1
    requires forall k :: 0 <= k < |ws| ==> sep !in ws[k]
    ensures Split(Join(ws, sep), sep) == ws
  {
    if |ws| == 1 {
      SplitFree(ws[0], sep);
    } else {
      SplitJoin(ws[1..], sep);
      SplitAppend(ws[0], Join(ws[1..], sep), sep);
      assert [ws[0]] + ws[1..] == ws;
    }
  }

  /** Python slice `s[i:j]` for non-negative bounds: clamped, empty when i >= j. */
  function Slice(s: Bytes, i: nat, j: nat): (r: Bytes)
    ensures i <= j <= |s| ==> r == s[i..j]
    ensures j <= i ==> r == []
  {
    var hi := if j <= |s| then j else |s|;
    if i < hi then s[i..hi] else []
  }

  /** `bytes.strip()` */
  function Strip(s: Bytes): Bytes
  {
    StripRight(StripLeft(s))
  }

  function StripLeft(s: Bytes): Bytes
  {
    if s != [] && IsSpace(s[0]) then StripLeft(s[1..]) else s
  }

  function StripRight(s: Bytes): Bytes
  {
    if s != [] && IsSpace(s[|s| - 1]) then StripRight(s[..|s| - 1]) else s
  }
}
