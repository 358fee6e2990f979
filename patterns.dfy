/**
 * `parse_patterns`: the patterns file holds one `regex<TAB>replacement` pair
 * per line. Comment lines are skipped. Any other line without exactly two
 * fields stops the parse. With case preservation each pair also yields its
 * four case variants, and one line's pairs are deduplicated and sorted
 * before they are appended.
 */
module Patterns {
  import opened ByteStrings
  import opened Wrappers
  import opened Casing
  import opened Replace

  // ---------------------------------------------------------------------------
  // Lines.

  /** Offset of the first line break (`\n` or `\r`) in `s`, or `|s|` when there is none. */
  function BreakAt(s: Bytes): (n: nat)
    ensures n <= |s|
    ensures n < |s| ==> s[n] == NEWLINE || s[n] == RETURN
    ensures forall i :: 0 <= i < n ==> s[i] != NEWLINE && s[i] != RETURN
  {
    if s == [] || s[0] == NEWLINE || s[0] == RETURN then 0 else 1 + BreakAt(s[1..])
  }

  /** `bytes.splitlines()`: a line ends at `\n`, `\r` or `\r\n`; a final break opens no empty line. */
  function SplitLines(s: Bytes): seq<Bytes>
    decreases |s|
  {
    if s == [] then []
    else
      var n := BreakAt(s);
      if n == |s| then [s]
      else if s[n] == RETURN && n + 1 < |s| && s[n + 1] == NEWLINE then [s[..n]] + SplitLines(s[n + 2..])
      else [s[..n]] + SplitLines(s[n + 1..])
  }

  predicate NoBreak(line: Bytes)
  {
    NEWLINE !in line && RETURN !in line
  }

  /** No line keeps a line break. */
  lemma {:induction false} SplitLinesNoBreaks(s: Bytes)
    ensures forall k :: 0 <= k < |SplitLines(s)| ==> NoBreak(SplitLines(s)[k])
    decreases |s|
  {
    if s != [] {
      var n := BreakAt(s);
      if n < |s| {
        if s[n] == RETURN && n + 1 < |s| && s[n + 1] == NEWLINE {
          SplitLinesNoBreaks(s[n + 2..]);
        } else {
          SplitLinesNoBreaks(s[n + 1..]);
        }
      }
    }
  }

  /**
   * With `\n` as the only break, the lines of a text that ends in a newline
   * are the pieces of `split(b"\n")` of the text before that newline.
   */
  lemma {:induction false} SplitLinesUnix(t: Bytes)
    requires RETURN !in t
    ensures SplitLines(t + [NEWLINE]) == Split(t, NEWLINE)
    decreases |t|
  {
    var s := t + [NEWLINE];
    var n := BreakAt(s);
    assert s[|t|] == NEWLINE;
    if n == |t| {
      assert forall i :: 0 <= i < |t| ==> t[i] == s[i];
      SplitFree(t, NEWLINE);
      assert s[..n] == t && s[n + 1..] == [];
    } else {
      var w, rest := t[..n], t[n + 1..];
      assert s[n] == t[n];
      assert t == w + [NEWLINE] + rest;
      assert forall i :: 0 <= i < |w| ==> w[i] == s[i];
      SplitAppend(w, rest, NEWLINE);
      assert s[..n] == w && s[n + 1..] == rest + [NEWLINE];
      SplitLinesUnix(rest);
    }
  }

  /** The same without the final newline, for a text whose last byte is not a break. */
  lemma {:induction false} SplitLinesUnterminated(t: Bytes)
    requires RETURN !in t && t != [] && t[|t| - 1] != NEWLINE
    ensures SplitLines(t) == Split(t, NEWLINE)
    decreases |t|
  {
    var n := BreakAt(t);
    if n == |t| {
      SplitFree(t, NEWLINE);
    } else {
      var w, rest := t[..n], t[n + 1..];
      assert t == w + [NEWLINE] + rest;
      assert forall i :: 0 <= i < |w| ==> w[i] == t[i];
      SplitAppend(w, rest, NEWLINE);
      SplitLinesUnterminated(rest);
    }
  }

  /** Joining the lines with `\n` gives back a Unix text, its final newline aside. */
  lemma SplitLinesJoin(t: Bytes)
    requires RETURN !in t
    ensures Join(SplitLines(t + [NEWLINE]), NEWLINE) == t
    ensures t != [] && t[|t| - 1] != NEWLINE ==> Join(SplitLines(t), NEWLINE) == t
  {
    SplitLinesUnix(t);
    JoinSplit(t, NEWLINE);
    if t != [] && t[|t| - 1] != NEWLINE {
      SplitLinesUnterminated(t);
    }
  }

  // ---------------------------------------------------------------------------
  // One line.

  /** What a line of the patterns file is. */
  datatype LineKind = Comment | Pair(regex: Bytes, replacement: Bytes) | Invalid

  /** A line is a comment when it starts with `#` once stripped, and a pair when it has exactly two tab-separated fields and is not blank. */
  function Classify(line: Bytes): LineKind
  {
    var bits := Split(line, TAB);
    var stripped := Strip(line);
    if stripped != [] && stripped[0] == HASH then Comment
    else if stripped != [] && |bits| == 2 then Pair(bits[0], bits[1])
    else Invalid
  }

  /** A pair line is its two fields joined by one tab, and neither field holds a tab. */
  lemma ClassifyPair(line: Bytes)
    requires Classify(line).Pair?
    ensures var p := Classify(line);
      && p.regex + [TAB] + p.replacement == line
      && TAB !in p.regex && TAB !in p.replacement
  {
    var bits := Split(line, TAB);
    JoinSplit(line, TAB);
    SplitPiecesFree(line, TAB);
    assert bits[1..] == [bits[1]];
    assert bits[0] in bits && bits[1] in bits;
  }

  /** Conversely, two tab-free fields joined by a tab make a pair line unless the line reads as a comment or is blank. */
  lemma PairLine(regex: Bytes, replacement: Bytes)
    requires TAB !in regex && TAB !in replacement
    requires var s := Strip(regex + [TAB] + replacement); s != [] && s[0] != HASH
    ensures Classify(regex + [TAB] + replacement) == Pair(regex, replacement)
  {
    SplitAppend(regex, replacement, TAB);
    SplitFree(replacement, TAB);
  }

  // ---------------------------------------------------------------------------
  // `sorted(set(pairs))`.

  /** Python's order on byte strings: lexicographic, a proper prefix first. */
  predicate BytesLess(a: Bytes, b: Bytes)
    decreases |a|
  {
    b != [] && (a == [] || a[0] < b[0] || (a[0] == b[0] && BytesLess(a[1..], b[1..])))
  }

  lemma {:induction false} BytesLessIrreflexive(a: Bytes)
    ensures !BytesLess(a, a)
    decreases |a|
  {
    if a != [] {
      BytesLessIrreflexive(a[1..]);
    }
  }

  lemma {:induction false} BytesLessTransitive(a: Bytes, b: Bytes, c: Bytes)
    requires BytesLess(a, b) && BytesLess(b, c)
    ensures BytesLess(a, c)
    decreases |a|
  {
    if a != [] && a[0] == b[0] && b[0] == c[0] {
      BytesLessTransitive(a[1..], b[1..], c[1..]);
    }
  }

  lemma {:induction false} BytesLessTotal(a: Bytes, b: Bytes)
    requires a != b
    ensures BytesLess(a, b) || BytesLess(b, a)
    decreases |a|
  {
    if a != [] && b != [] && a[0] == b[0] {
      assert a == [a[0]] + a[1..] && b == [b[0]] + b[1..];
      BytesLessTotal(a[1..], b[1..]);
    }
  }

  /** Python's order on `(regex, replacement)` tuples. */
  predicate RuleLess(x: Rule, y: Rule)
  {
    BytesLess(x.search, y.search) || (x.search == y.search && BytesLess(x.replacement, y.replacement))
  }

  lemma RuleLessIrreflexive(x: Rule)
    ensures !RuleLess(x, x)
  {
    BytesLessIrreflexive(x.search);
    BytesLessIrreflexive(x.replacement);
  }

  lemma RuleLessTransitive(x: Rule, y: Rule, z: Rule)
    requires RuleLess(x, y) && RuleLess(y, z)
    ensures RuleLess(x, z)
  {
    if BytesLess(x.search, y.search) && BytesLess(y.search, z.search) {
      BytesLessTransitive(x.search, y.search, z.search);
    } else if x.search == y.search == z.search {
      BytesLessTransitive(x.replacement, y.replacement, z.replacement);
    }
  }

  lemma RuleLessTotal(x: Rule, y: Rule)
    requires x != y
    ensures RuleLess(x, y) || RuleLess(y, x)
  {
    if x.search != y.search {
      BytesLessTotal(x.search, y.search);
    } else {
      BytesLessTotal(x.replacement, y.replacement);
    }
  }

  /** Strictly increasing, hence free of duplicates. */
  predicate Sorted(s: seq<Rule>)
  {
    forall i :: 0 < i < |s| ==> RuleLess(s[i - 1], s[i])
  }

  function Elems(s: seq<Rule>): set<Rule>
  {
    set x | x in s
  }

  /** Insert `x` into a sorted list unless it is already there. */
  function Insert(x: Rule, s: seq<Rule>): (r: seq<Rule>)
    ensures Elems(r) == Elems(s) + {x}
    ensures r != [] && (s != [] ==> r[0] == x || r[0] == s[0])
  {
    if s == [] then [x]
    else if x == s[0] then s
    else if RuleLess(x, s[0]) then ElemsCons(x, s); [x] + s
    else
      ElemsCons(s[0], s[1..]);
      ElemsCons(s[0], Insert(x, s[1..]));
      [s[0]] + Insert(x, s[1..])
  }

  lemma ElemsCons(x: Rule, s: seq<Rule>)
    ensures Elems([x] + s) == {x} + Elems(s)
    ensures s != [] ==> Elems(s) == {s[0]} + Elems(s[1..])
  {
    if s != [] {
      assert s == [s[0]] + s[1..];
    }
  }

  lemma {:induction false} InsertSorted(x: Rule, s: seq<Rule>)
    requires Sorted(s)
    ensures Sorted(Insert(x, s))
  {
    if s != [] && x != s[0] && !RuleLess(x, s[0]) {
      RuleLessTotal(x, s[0]);
      InsertSorted(x, s[1..]);
      var t := Insert(x, s[1..]);
      assert s[1..] != [] ==> RuleLess(s[0], s[1..][0]);
    }
  }

  /** `sorted(set(pairs))` */
  function SortedSet(pairs: seq<Rule>): (r: seq<Rule>)
    ensures Sorted(r) && Elems(r) == Elems(pairs)
  {
    if pairs == [] then []
    else
      var rest := SortedSet(pairs[1..]);
      InsertSorted(pairs[0], rest);
      ElemsCons(pairs[0], pairs[1..]);
      Insert(pairs[0], rest)
  }

  lemma {:induction false} SortedHeadLeast(s: seq<Rule>, i: nat)
    requires Sorted(s) && 0 < i < |s|
    ensures RuleLess(s[0], s[i])
  {
    if i > 1 {
      SortedHeadLeast(s, i - 1);
      RuleLessTransitive(s[0], s[i - 1], s[i]);
    }
  }

  /** The head of an increasing listing is its least element and does not recur. */
  lemma SortedHead(s: seq<Rule>, x: Rule)
    requires Sorted(s) && x in s && x != s[0]
    ensures RuleLess(s[0], x)
  {
    var i :| 0 <= i < |s| && s[i] == x;
    SortedHeadLeast(s, i);
  }

  lemma SortedTail(s: seq<Rule>)
    requires Sorted(s) && s != []
    ensures Sorted(s[1..]) && Elems(s[1..]) == Elems(s) - {s[0]}
  {
    ElemsCons(s[0], s[1..]);
    if s[0] in s[1..] {
      var i :| 0 <= i < |s[1..]| && s[1..][i] == s[0];
      SortedHeadLeast(s, i + 1);
      RuleLessIrreflexive(s[0]);
    }
  }

  /** A set has one increasing listing: whatever the input order, `sorted(set(...))` is determined by the set. */
  lemma {:induction false} SortedUnique(a: seq<Rule>, b: seq<Rule>)
    requires Sorted(a) && Sorted(b) && Elems(a) == Elems(b)
    ensures a == b
  {
    ElemsEmpty(a);
    ElemsEmpty(b);
    if a != [] && b != [] {
      assert a[0] in Elems(a) && b[0] in Elems(b);
      if a[0] != b[0] {
        SortedHead(a, b[0]);
        SortedHead(b, a[0]);
        RuleLessTransitive(a[0], b[0], a[0]);
        RuleLessIrreflexive(a[0]);
        assert false;
      }
      SortedTail(a);
      SortedTail(b);
      SortedUnique(a[1..], b[1..]);
      assert a == [a[0]] + a[1..] && b == [b[0]] + b[1..];
    }
  }

  lemma ElemsEmpty(s: seq<Rule>)
    ensures Elems(s) == {} <==> s == []
  {
    if s != [] {
      assert s[0] in Elems(s);
    }
  }

  // ---------------------------------------------------------------------------
  // The rules of one line.

  /** `zip(xs, ys)` as rules. */
  function Zip(xs: seq<Bytes>, ys: seq<Bytes>): (r: seq<Rule>)
    ensures |r| == if |xs| < |ys| then |xs| else |ys|
    ensures forall k :: 0 <= k < |r| ==> r[k] == Rule(xs[k], ys[k])
  {
    if xs == [] || ys == [] then [] else [Rule(xs[0], ys[0])] + Zip(xs[1..], ys[1..])
  }

  /**
   * The rules a pair line adds, in the order they are compiled; `None` when
   * a case variant cannot be rendered (`_capitalize` of an empty word raises).
   */
  function LineRules(regex: Bytes, replacement: Bytes, preserveCase: bool): Option<seq<Rule>>
  {
    if !preserveCase then Some(SortedSet([Rule(regex, replacement)]))
    else
      match (AllCaseVariants(regex), AllCaseVariants(replacement))
      case (Some(a), Some(b)) => Some(SortedSet(Zip(a, b) + [Rule(regex, replacement)]))
      case _ => None
  }

  /** Without case preservation a pair line adds exactly its own rule. */
  lemma LineRulesPlain(regex: Bytes, replacement: Bytes)
    ensures LineRules(regex, replacement, false) == Some([Rule(regex, replacement)])
  {
    var r := SortedSet([Rule(regex, replacement)]);
    assert Elems(r) == {Rule(regex, replacement)};
    SortedUnique(r, [Rule(regex, replacement)]);
  }

  /** The rule for case style `k`: both fields rendered in that style. */
  function VariantRule(regex: Bytes, replacement: Bytes, k: nat): Rule
    requires k < |Styles|
    requires TransformExpr(regex, Styles[k]).Some? && TransformExpr(replacement, Styles[k]).Some?
  {
    Rule(TransformExpr(regex, Styles[k]).value, TransformExpr(replacement, Styles[k]).value)
  }

  /** The deduplicated listing of `zip(a, b)` plus one more rule holds that rule, each zipped pair, and nothing else. */
  lemma ZipListing(a: seq<Bytes>, b: seq<Bytes>, own: Rule)
    requires |a| == |b|
    ensures var g := SortedSet(Zip(a, b) + [own]);
      && own in g
      && (forall k :: 0 <= k < |a| ==> Rule(a[k], b[k]) in g)
      && forall x :: x in g ==> x == own || exists k :: 0 <= k < |a| && x == Rule(a[k], b[k])
  {
    var pairs := Zip(a, b) + [own];
    var g := SortedSet(pairs);
    assert pairs[|pairs| - 1] == own;
    assert own in Elems(pairs);
    forall k | 0 <= k < |a|
      ensures Rule(a[k], b[k]) in g
    {
      assert pairs[k] == Rule(a[k], b[k]);
      assert pairs[k] in Elems(pairs);
    }
    forall x | x in g
      ensures x == own || exists k :: 0 <= k < |a| && x == Rule(a[k], b[k])
    {
      assert x in Elems(pairs);
      var i :| 0 <= i < |pairs| && pairs[i] == x;
      if i < |a| {
        assert x == Rule(a[i], b[i]);
      }
    }
  }

  /** With case preservation a line succeeds exactly when both fields render in both camel styles. */
  lemma LineRulesDefined(regex: Bytes, replacement: Bytes)
    ensures LineRules(regex, replacement, true).Some? <==>
      && TransformExpr(regex, LowerCamel).Some? && TransformExpr(regex, UpperCamel).Some?
      && TransformExpr(replacement, LowerCamel).Some? && TransformExpr(replacement, UpperCamel).Some?
  {
    AllCaseVariantsOrder(regex);
    AllCaseVariantsOrder(replacement);
  }

  /**
   * A line that succeeds with case preservation adds, sorted and without
   * repeats, its own rule and the rule of each of the four styles, and
   * nothing else.
   */
  lemma LineRulesVariants(regex: Bytes, replacement: Bytes)
    ensures LineRules(regex, replacement, true).Some? ==>
      var g := LineRules(regex, replacement, true).value;
      && Sorted(g)
      && Rule(regex, replacement) in g
      && (forall k :: 0 <= k < |Styles| ==>
            TransformExpr(regex, Styles[k]).Some? && TransformExpr(replacement, Styles[k]).Some?
            && VariantRule(regex, replacement, k) in g)
      && forall x :: x in g ==>
           x == Rule(regex, replacement) || exists k :: 0 <= k < |Styles| && x == VariantRule(regex, replacement, k)
  {
    AllCaseVariantsOrder(regex);
    AllCaseVariantsOrder(replacement);
    var va, vb := AllCaseVariants(regex), AllCaseVariants(replacement);
    if va.Some? && vb.Some? {
      var a, b := va.value, vb.value;
      var own := Rule(regex, replacement);
      assert LineRules(regex, replacement, true) == Some(SortedSet(Zip(a, b) + [own]));
      ZipListing(a, b, own);
      forall k | 0 <= k < |Styles|
        ensures TransformExpr(regex, Styles[k]).Some? && TransformExpr(replacement, Styles[k]).Some?
        ensures VariantRule(regex, replacement, k) == Rule(a[k], b[k])
      {
        assert Some(a[k]) == TransformExpr(regex, Styles[k]);
        assert Some(b[k]) == TransformExpr(replacement, Styles[k]);
      }
    }
  }

  // ---------------------------------------------------------------------------
  // The whole file.

  /** Why `parse_patterns` stops: a line that is neither a comment nor a pair, or a case variant that raised. */
  datatype ParseError = InvalidLine(line: Bytes) | BadVariant(line: Bytes)

  /** The line fails the parse. */
  predicate LineFails(line: Bytes, preserveCase: bool)
  {
    match Classify(line)
    case Comment => false
    case Invalid => true
    case Pair(regex, replacement) => LineRules(regex, replacement, preserveCase).None?
  }

  function LineError(line: Bytes, preserveCase: bool): ParseError
  {
    if Classify(line).Invalid? then InvalidLine(line) else BadVariant(line)
  }

  /** The rules parsed so far, followed by one more line. */
  function AddLine(rules: seq<Rule>, line: Bytes, preserveCase: bool): Result<seq<Rule>, ParseError>
  {
    match Classify(line)
    case Comment => Success(rules)
    case Invalid => Failure(InvalidLine(line))
    case Pair(regex, replacement) =>
      match LineRules(regex, replacement, preserveCase)
      case None => Failure(BadVariant(line))
      case Some(g) => Success(rules + g)
  }

  /** One more line after a partial parse: a failure stays. */
  function Step(sofar: Result<seq<Rule>, ParseError>, line: Bytes, preserveCase: bool): Result<seq<Rule>, ParseError>
  {
    if sofar.Failure? then sofar else AddLine(sofar.value, line, preserveCase)
  }

  /** The result of `parse_patterns` on the given lines; the first failing line stops it. */
  function Parsed(lines: seq<Bytes>, preserveCase: bool): Result<seq<Rule>, ParseError>
  {
    if lines == [] then Success([])
    else Step(Parsed(lines[..|lines| - 1], preserveCase), lines[|lines| - 1], preserveCase)
  }

  /** Once a prefix fails, the parse fails the same way. */
  lemma {:induction false} FailureStays(lines: seq<Bytes>, k: nat, preserveCase: bool)
    requires k <= |lines| && Parsed(lines[..k], preserveCase).Failure?
    ensures Parsed(lines, preserveCase) == Parsed(lines[..k], preserveCase)
  {
    if k == |lines| {
      assert lines[..k] == lines;
    } else {
      var init := lines[..|lines| - 1];
      assert init[..k] == lines[..k];
      FailureStays(init, k, preserveCase);
    }
  }

  lemma ParsedSnoc(lines: seq<Bytes>, k: nat, preserveCase: bool)
    requires k < |lines|
    ensures Parsed(lines[..k + 1], preserveCase) == Step(Parsed(lines[..k], preserveCase), lines[k], preserveCase)
  {
    assert lines[..k + 1][..k] == lines[..k];
  }

  /** `parse_patterns`: classify each line, append the rules of each pair line, stop at the first failure. */
  method ParsePatterns(text: Bytes, preserveCase: bool) returns (result: Result<seq<Rule>, ParseError>)
    ensures result == Parsed(SplitLines(text), preserveCase)
  {
    var lines := SplitLines(text);
    var patterns: seq<Rule> := [];
    var k := 0;
    while k < |lines|
      invariant k <= |lines| && Parsed(lines[..k], preserveCase) == Success(patterns)
    {
      var line := lines[k];
      ParsedSnoc(lines, k, preserveCase);
      var bits := Split(line, TAB);
      var stripped := Strip(line);
      if stripped != [] && stripped[0] == HASH {
      } else if stripped != [] && |bits| == 2 {
        var regex, replacement := bits[0], bits[1];
        var pairs: seq<Rule> := [];
        if preserveCase {
          var a, b := AllCaseVariants(regex), AllCaseVariants(replacement);
          if a.None? || b.None? {
            FailureStays(lines, k + 1, preserveCase);
            return Failure(BadVariant(line));
          }
          pairs := Zip(a.value, b.value);
        }
        assert !preserveCase ==> pairs + [Rule(regex, replacement)] == [Rule(regex, replacement)];
        pairs := SortedSet(pairs + [Rule(regex, replacement)]);
        patterns := patterns + pairs;
      } else {
        FailureStays(lines, k + 1, preserveCase);
        return Failure(InvalidLine(line));
      }
      k := k + 1;
    }
    assert lines[..k] == lines;
    return Success(patterns);
  }

  /**
   * The parse fails exactly when some line fails, and then it reports the
   * first such line.
   */
  lemma {:induction false} ParsedFailsIff(lines: seq<Bytes>, preserveCase: bool)
    ensures Parsed(lines, preserveCase).Failure? <==> exists i :: 0 <= i < |lines| && LineFails(lines[i], preserveCase)
    ensures Parsed(lines, preserveCase).Failure? ==>
      exists i :: 0 <= i < |lines| && LineFails(lines[i], preserveCase)
        && Parsed(lines, preserveCase).error == LineError(lines[i], preserveCase)
        && forall j :: 0 <= j < i ==> !LineFails(lines[j], preserveCase)
  {
    if lines != [] {
      var init, last := lines[..|lines| - 1], lines[|lines| - 1];
      ParsedFailsIff(init, preserveCase);
      assert forall i :: 0 <= i < |init| ==> init[i] == lines[i];
      if Parsed(init, preserveCase).Success? {
        assert forall i :: 0 <= i < |init| ==> !LineFails(lines[i], preserveCase);
      }
    }
  }

  /** The rules of the pair lines, in file order, one per line. */
  function PairRules(lines: seq<Bytes>): seq<Rule>
  {
    if lines == [] then []
    else
      PairRules(lines[..|lines| - 1])
      + match Classify(lines[|lines| - 1])
        case Pair(regex, replacement) => [Rule(regex, replacement)]
        case _ => []
  }

  /** Without case preservation a successful parse gives one rule per pair line, in file order. */
  lemma {:induction false} ParsedPlain(lines: seq<Bytes>)
    requires Parsed(lines, false).Success?
    ensures Parsed(lines, false).value == PairRules(lines)
  {
    if lines != [] {
      var last := lines[|lines| - 1];
      ParsedPlain(lines[..|lines| - 1]);
      if Classify(last).Pair? {
        LineRulesPlain(Classify(last).regex, Classify(last).replacement);
      }
    }
  }

  /** A successful parse keeps every pair line's own rule. */
  lemma {:induction false} ParsedKeepsPairs(lines: seq<Bytes>, preserveCase: bool, i: nat)
    requires Parsed(lines, preserveCase).Success? && i < |lines| && Classify(lines[i]).Pair?
    ensures Rule(Classify(lines[i]).regex, Classify(lines[i]).replacement) in Parsed(lines, preserveCase).value
  {
    var init, last := lines[..|lines| - 1], lines[|lines| - 1];
    var p := Classify(lines[i]);
    if i < |lines| - 1 {
      assert init[i] == lines[i];
      ParsedKeepsPairs(init, preserveCase, i);
    } else if preserveCase {
      LineRulesVariants(p.regex, p.replacement);
    } else {
      LineRulesPlain(p.regex, p.replacement);
    }
  }

  /** A blank line is fatal: `a<TAB>b`, then an empty line, stops at the empty line. */
  lemma BlankLineFails()
    ensures Parsed([[97, TAB, 98], []], false) == Failure(InvalidLine([]))
  {
    var lines: seq<Bytes> := [[97, TAB, 98], []];
    assert lines[..1] == [[97, TAB, 98]] && lines[..1][..0] == [];
    SplitFree([98], TAB);
    SplitAppend([97], [98], TAB);
    assert [97] + [TAB] + [98] == [97, TAB, 98];
    assert Strip([97, TAB, 98]) == [97, TAB, 98];
    assert Classify([97, TAB, 98]) == Pair([97], [98]);
    LineRulesPlain([97], [98]);
    assert [] + [Rule([97], [98])] == [Rule([97], [98])];
    assert AddLine([], [97, TAB, 98], false) == Success([Rule([97], [98])]);
    assert Parsed(lines[..1][..0], false) == Success([]);
    assert Parsed(lines[..1], false) == Success([Rule([97], [98])]);
    assert Classify([]) == Invalid;
  }
}
