/**
 * The names `move_file` tries when its destination is taken: strip a
 * trailing `.N` (the pattern `(.*)[.]\d+$`) and append `.i` for i = 1, 2, ...
 * Paths are byte strings.
 */
module Paths {
  import opened ByteStrings
  import opened Wrappers

  type Path = Bytes

  /** `"%s" % n`: the decimal digits of `n`. */
  function NatToString(n: nat): (r: Bytes)
    ensures r != [] && forall i :: 0 <= i < |r| ==> IsDigit(r[i])
  {
    if n < 10 then [48 + n] else NatToString(n / 10) + [48 + n % 10]
  }

  /** The number a string of decimal digits spells. */
  function DecimalValue(s: Bytes): nat
  {
    if s == [] then 0 else DecimalValue(s[..|s| - 1]) * 10 + (if IsDigit(s[|s| - 1]) then s[|s| - 1] - 48 else 0)
  }

  /** Reading back the digits `%s` writes gives the number. */
  lemma {:induction false} DecimalRoundTrip(n: nat)
    ensures DecimalValue(NatToString(n)) == n
  {
    if n >= 10 {
      DecimalRoundTrip(n / 10);
      var s := NatToString(n);
      assert s[..|s| - 1] == NatToString(n / 10);
    }
  }

  lemma NatToStringInjective(a: nat, b: nat)
    requires NatToString(a) == NatToString(b)
    ensures a == b
  {
    DecimalRoundTrip(a);
    DecimalRoundTrip(b);
  }

  /** Position of the last `.` in `p`, if any. */
  function LastDot(p: Path): (r: Option<nat>)
    ensures r.Some? ==> r.value < |p| && p[r.value] == DOT && forall i :: r.value < i < |p| ==> p[i] != DOT
    ensures r.None? ==> forall i :: 0 <= i < |p| ==> p[i] != DOT
  {
    if p == [] then None
    else if p[|p| - 1] == DOT then Some(|p| - 1)
    else LastDot(p[..|p| - 1])
  }

  lemma {:induction false} LastDotAppend(x: Path, s: Bytes)
    requires forall i :: 0 <= i < |s| ==> s[i] != DOT
    ensures LastDot(x + [DOT] + s) == Some(|x|)
    decreases |s|
  {
    var p := x + [DOT] + s;
    if s != [] {
      var t := s[..|s| - 1];
      assert p[|p| - 1] == s[|s| - 1];
      assert p[..|p| - 1] == x + [DOT] + t;
      LastDotAppend(x, t);
    }
  }

  predicate AllDigits(t: Bytes)
  {
    forall i :: 0 <= i < |t| ==> IsDigit(t[i])
  }

  /** `\d+$`: digits to the end, or to a final newline, which `$` also accepts. */
  predicate DigitTail(t: Bytes)
  {
    (t != [] && AllDigits(t)) || (|t| >= 2 && t[|t| - 1] == NEWLINE && AllDigits(t[..|t| - 1]))
  }

  /**
   * `trailing_num.match(p)` and its group 1: everything before the last `.`,
   * when only digits follow that `.` and the part before it has no newline
   * (`.` does not match one).
   */
  function StripTrailingNum(p: Path): Path
  {
    match LastDot(p)
    case None => p
    case Some(k) => if NEWLINE !in p[..k] && DigitTail(p[k + 1..]) then p[..k] else p
  }

  /** One step of the collision loop: `"%s.%s" % (stem, i)` after stripping a trailing number. */
  function Retry(p: Path, i: nat): Path
  {
    StripTrailingNum(p) + [DOT] + NatToString(i)
  }

  /** The name tried after `i` collisions, starting from `dest`. */
  function Attempt(dest: Path, i: nat): Path
  {
    if i == 0 then dest else Retry(Attempt(dest, i - 1), i)
  }

  /** A numbered name loses exactly its number. */
  lemma StripNumbered(x: Path, n: nat)
    requires NEWLINE !in x
    ensures StripTrailingNum(x + [DOT] + NatToString(n)) == x
  {
    var s := NatToString(n);
    var p := x + [DOT] + s;
    LastDotAppend(x, s);
    assert p[..|x|] == x && p[|x| + 1..] == s;
  }

  /**
   * Every retry keeps the stem: for a destination whose stripped form has no
   * newline, the i-th retry is that stem followed by `.i` (`a.orig`,
   * `a.orig.1`, `a.orig.2`; `a.7` gives `a.1`, `a.2`).
   */
  lemma {:induction false} AttemptStem(dest: Path, i: nat)
    requires i >= 1 && NEWLINE !in StripTrailingNum(dest)
    ensures Attempt(dest, i) == StripTrailingNum(dest) + [DOT] + NatToString(i)
  {
    if i > 1 {
      AttemptStem(dest, i - 1);
      StripNumbered(StripTrailingNum(dest), i - 1);
    }
  }

  /** Retries never repeat a name, so they run out of taken names. */
  lemma AttemptsDistinct(dest: Path, i: nat, j: nat)
    requires 1 <= i < j
    ensures Attempt(dest, i) != Attempt(dest, j)
  {
    var x, y := StripTrailingNum(Attempt(dest, i - 1)), StripTrailingNum(Attempt(dest, j - 1));
    NumberedParts(x, i);
    NumberedParts(y, j);
    if Attempt(dest, i) == Attempt(dest, j) {
      NatToStringInjective(i, j);
    }
  }

  /** In `x.n` the last `.` is the one before the number, and the number follows it. */
  lemma NumberedParts(x: Path, n: nat)
    ensures LastDot(x + [DOT] + NatToString(n)) == Some(|x|)
    ensures (x + [DOT] + NatToString(n))[|x| + 1..] == NatToString(n)
  {
    LastDotAppend(x, NatToString(n));
  }

  /** The first `n` names tried are all taken. */
  predicate TakenUpTo(taken: set<Path>, dest: Path, n: nat)
  {
    n == 0 || (TakenUpTo(taken, dest, n - 1) && Attempt(dest, n - 1) in taken)
  }

  /** Distinct retries that are all taken cannot outnumber the taken names: the loop ends. */
  lemma RetryBound(taken: set<Path>, dest: Path, n: nat)
    requires TakenUpTo(taken, dest, n + 1)
    ensures n <= |taken|
  {
    var f := (i: nat) => Attempt(dest, i);
    forall i, j | 1 <= i < j <= n
      ensures f(i) != f(j)
    {
      AttemptsDistinct(dest, i, j);
    }
    forall i | 1 <= i <= n
      ensures f(i) in taken
    {
      TakenUpToEach(taken, dest, n + 1, i);
    }
    Pigeonhole(f, taken, n);
  }

  lemma {:induction false} TakenUpToEach(taken: set<Path>, dest: Path, n: nat, j: nat)
    requires TakenUpTo(taken, dest, n) && j < n
    ensures Attempt(dest, j) in taken
  {
    if j < n - 1 {
      TakenUpToEach(taken, dest, n - 1, j);
    }
  }

  /** `k` collisions happened: the first `k` names were taken and the next one is free. */
  predicate FirstFreeAt(taken: set<Path>, dest: Path, k: nat)
  {
    Attempt(dest, k) !in taken && TakenUpTo(taken, dest, k)
  }

  /** The name `move_file` settles on is determined by the taken names. */
  lemma FirstFreeUnique(taken: set<Path>, dest: Path, k: nat, l: nat)
    requires FirstFreeAt(taken, dest, k) && FirstFreeAt(taken, dest, l)
    ensures k == l
  {
    if k < l {
      TakenUpToEach(taken, dest, l, k);
    } else if l < k {
      TakenUpToEach(taken, dest, k, l);
    }
  }

  /**
   * The collision loop as Python 3 runs it: paths are `bytes` but
   * `trailing_num` is a `str` pattern, so the first `trailing_num.match`
   * raises `TypeError`. A free destination is kept; a taken one is an error.
   */
  function FirstFreeAsWritten(taken: set<Path>, dest: Path): Option<Path>
  {
    if dest in taken then None else Some(dest)
  }

  /**
   * Moving `a` onto an existing `a`: the loop as intended settles on `a.1`
   * after one collision, while the code as written raises.
   */
  lemma CollisionRaises()
    ensures FirstFreeAsWritten({[97]}, [97]).None?
    ensures FirstFreeAt({[97]}, [97], 1) && Attempt([97], 1) == [97, DOT, 49]
  {
    assert LastDot([97]) == None;
  }

  /** Away from collisions the two agree. */
  lemma AsWrittenWhenFree(taken: set<Path>, dest: Path)
    requires dest !in taken
    ensures FirstFreeAsWritten(taken, dest) == Some(Attempt(dest, 0)) && FirstFreeAt(taken, dest, 0)
  {
  }

  /** The values `f(1), ..., f(n)`. */
  function Image<T>(f: nat -> T, n: nat): set<T>
  {
    if n == 0 then {} else Image(f, n - 1) + {f(n)}
  }

  lemma {:induction false} ImageLater<T>(f: nat -> T, m: nat, n: nat)
    requires m < n && forall i, j :: 1 <= i < j <= n ==> f(i) != f(j)
    ensures f(n) !in Image(f, m)
  {
    if m > 0 {
      ImageLater(f, m - 1, n);
    }
  }

  lemma {:induction false} ImageCard<T>(f: nat -> T, n: nat)
    requires forall i, j :: 1 <= i < j <= n ==> f(i) != f(j)
    ensures |Image(f, n)| == n
  {
    if n > 0 {
      ImageCard(f, n - 1);
      ImageLater(f, n - 1, n);
    }
  }

  lemma {:induction false} ImageWithin<T>(f: nat -> T, s: set<T>, n: nat)
    requires forall i :: 1 <= i <= n ==> f(i) in s
    ensures Image(f, n) <= s
  {
    if n > 0 {
      ImageWithin(f, s, n - 1);
    }
  }

  /** `n` distinct values inside `s` need `n` elements of `s`. */
  lemma Pigeonhole<T>(f: nat -> T, s: set<T>, n: nat)
    requires forall i, j :: 1 <= i < j <= n ==> f(i) != f(j)
    requires forall i :: 1 <= i <= n ==> f(i) in s
    ensures n <= |s|
  {
    ImageCard(f, n);
    ImageWithin(f, s, n);
    SubsetCard(Image(f, n), s);
  }

  lemma SubsetCard<T>(a: set<T>, b: set<T>)
    requires a <= b
    ensures |a| <= |b|
    decreases |a|
  {
    if a != {} {
      var x :| x in a;
      SubsetCard(a - {x}, b - {x});
    }
  }
}
