/**
 * Identifier case transcoding (`_split_name`, `_capitalize`, the four `to_*`
 * renderers, `_transform_expr`, `all_case_variants`).
 *
 * `_capitalize` indexes the first character of its word and raises on an
 * empty one; the renderers that call it therefore return `None` when a word
 * is empty, which happens for names with a leading, trailing or doubled `_`.
 */
module Casing {
  import opened ByteStrings
  import opened Wrappers

  /** `_camel_split_pat1.sub(b"\\1\t\\2", s)`: a tab between a non-capital and a capital. */
  function CamelPass1(s: Bytes): Bytes
  {
    if |s| < 2 then s
    else if !IsUpper(s[0]) && IsUpper(s[1]) then [s[0], TAB, s[1]] + CamelPass1(s[2..])
    else [s[0]] + CamelPass1(s[1..])
  }

  /** `_camel_split_pat2.sub(b"\\1\t\\2", s)`: a tab inside capital, capital, non-capital. */
  function CamelPass2(s: Bytes): Bytes
  {
    if |s| < 3 then s
    else if IsUpper(s[0]) && IsUpper(s[1]) && !IsUpper(s[2]) then [s[0], TAB, s[1], s[2]] + CamelPass2(s[3..])
    else [s[0]] + CamelPass2(s[1..])
  }

  /** The separator and the words `_split_name` returns. */
  datatype SplitResult = SplitResult(separator: Bytes, words: seq<Bytes>)

  /** `_split_name` */
  function SplitName(name: Bytes): SplitResult
  {
    if UNDERSCORE in name then SplitResult([UNDERSCORE], Split(name, UNDERSCORE))
    else SplitResult([], Split(CamelPass2(CamelPass1(name)), TAB))
  }

  /** `_capitalize`, for ASCII words. */
  function Capitalize(word: Bytes): Bytes
    requires word != []
  {
    [Upper(word[0])] + LowerAll(word[1..])
  }

  /** `b"".join([_capitalize(w) for w in words])`, or `None` where `_capitalize` raises. */
  function CapitalizeAll(words: seq<Bytes>): Option<Bytes>
  {
    if words == [] then Some([])
    else if words[0] == [] then None
    else match CapitalizeAll(words[1..])
      case None => None
      case Some(rest) => Some(Capitalize(words[0]) + rest)
  }

  function LowerEach(words: seq<Bytes>): seq<Bytes>
  {
    if words == [] then [] else [LowerAll(words[0])] + LowerEach(words[1..])
  }

  function UpperEach(words: seq<Bytes>): seq<Bytes>
  {
    if words == [] then [] else [UpperAll(words[0])] + UpperEach(words[1..])
  }

  /** `to_lower_camel` */
  function ToLowerCamel(name: Bytes): Option<Bytes>
  {
    var words := SplitName(name).words;
    match CapitalizeAll(words[1..])
    case None => None
    case Some(rest) => Some(LowerAll(words[0]) + rest)
  }

  /** `to_upper_camel` */
  function ToUpperCamel(name: Bytes): Option<Bytes>
  {
    CapitalizeAll(SplitName(name).words)
  }

  /** `to_lower_underscore` */
  function ToLowerUnderscore(name: Bytes): Bytes
  {
    Join(LowerEach(SplitName(name).words), UNDERSCORE)
  }

  /** `to_upper_underscore` */
  function ToUpperUnderscore(name: Bytes): Bytes
  {
    Join(UpperEach(SplitName(name).words), UNDERSCORE)
  }

  /** The four renderers, in the order `all_case_variants` applies them. */
  datatype Style = LowerCamel | UpperCamel | LowerUnderscore | UpperUnderscore

  const Styles: seq<Style> := [LowerCamel, UpperCamel, LowerUnderscore, UpperUnderscore]

  function Render(style: Style, name: Bytes): Option<Bytes>
  {
    match style
    case LowerCamel => ToLowerCamel(name)
    case UpperCamel => ToUpperCamel(name)
    case LowerUnderscore => Some(ToLowerUnderscore(name))
    case UpperUnderscore => Some(ToUpperUnderscore(name))
  }

  /** Length of the run of word bytes (`\w+`) at the front of `s`. */
  function WordRun(s: Bytes): (n: nat)
    ensures n <= |s|
    ensures forall i :: 0 <= i < n ==> IsWordChar(s[i])
    ensures n < |s| ==> !IsWordChar(s[n])
  {
    if s != [] && IsWordChar(s[0]) then 1 + WordRun(s[1..]) else 0
  }

  /** `_transform_expr`: render every maximal run of word bytes, keep everything else. */
  function TransformExpr(expr: Bytes, style: Style): Option<Bytes>
    decreases |expr|
  {
    if expr == [] then Some([])
    else if !IsWordChar(expr[0]) then
      match TransformExpr(expr[1..], style)
      case None => None
      case Some(rest) => Some([expr[0]] + rest)
    else
      var n := WordRun(expr);
      match Render(style, expr[..n])
      case None => None
      case Some(word) =>
        match TransformExpr(expr[n..], style)
        case None => None
        case Some(rest) => Some(word + rest)
  }

  /** `all_case_variants`: lower camel, upper camel, lower underscore, upper underscore. */
  function AllCaseVariants(expr: Bytes): Option<seq<Bytes>>
  {
    match (TransformExpr(expr, LowerCamel), TransformExpr(expr, UpperCamel),
           TransformExpr(expr, LowerUnderscore), TransformExpr(expr, UpperUnderscore))
    case (Some(a), Some(b), Some(c), Some(d)) => Some([a, b, c, d])
    case _ => None
  }

  // ---------------------------------------------------------------------------
  // Splitting.

  /** An underscore name splits strictly on `_`, empty words kept, and joining rebuilds it. */
  lemma SplitNameUnderscore(name: Bytes)
    requires UNDERSCORE in name
    ensures SplitName(name) == SplitResult([UNDERSCORE], Split(name, UNDERSCORE))
    ensures Join(SplitName(name).words, UNDERSCORE) == name
    ensures forall w :: w in SplitName(name).words ==> UNDERSCORE !in w
  {
    JoinSplit(name, UNDERSCORE);
    SplitPiecesFree(name, UNDERSCORE);
  }

  /** `s` with every `b` removed. */
  function Without(s: Bytes, b: Byte): Bytes
  {
    if s == [] then [] else (if s[0] == b then [] else [s[0]]) + Without(s[1..], b)
  }

  lemma {:induction false} WithoutAppend(a: Bytes, c: Bytes, b: Byte)
    ensures Without(a + c, b) == Without(a, b) + Without(c, b)
  {
    if a == [] {
      assert a + c == c;
    } else {
      assert (a + c)[1..] == a[1..] + c;
      WithoutAppend(a[1..], c, b);
    }
  }

  lemma {:induction false} WithoutAbsent(s: Bytes, b: Byte)
    requires b !in s
    ensures Without(s, b) == s
  {
    if s != [] {
      WithoutAbsent(s[1..], b);
      assert [s[0]] + s[1..] == s;
    }
  }

  lemma {:induction false} ConcatSplit(t: Bytes, sep: Byte)
    ensures Concat(Split(t, sep)) == Without(t, sep)
  {
    if t != [] {
      ConcatSplit(t[1..], sep);
      var rest := Split(t[1..], sep);
      assert Concat(rest) == rest[0] + Concat(rest[1..]);
      if t[0] != sep {
        var r := Split(t, sep);
        assert r[0] == [t[0]] + rest[0] && r[1..] == rest[1..];
      }
    }
  }

  lemma {:induction false} RisesWithout(s: Bytes)
    ensures Without(Rises(s), TAB) == Without(s, TAB)
  {
    if |s| >= 2 {
      var gap := RiseGap(s);
      RisesWithout(s[1..]);
      WithoutAppend([s[0]] + gap, Rises(s[1..]), TAB);
      WithoutAppend([s[0]], gap, TAB);
      assert Without(gap, TAB) == [];
      assert Without([s[0]], TAB) + Without(s[1..], TAB) == Without(s, TAB);
    }
  }

  lemma {:induction false} AcronymEndsWithout(s: Bytes)
    ensures Without(AcronymEnds(s), TAB) == Without(s, TAB)
  {
    if |s| >= 3 {
      var gap := AcronymGap(s);
      AcronymEndsWithout(s[1..]);
      WithoutAppend([s[0]] + gap, AcronymEnds(s[1..]), TAB);
      WithoutAppend([s[0]], gap, TAB);
      assert Without(gap, TAB) == [];
      assert Without([s[0]], TAB) + Without(s[1..], TAB) == Without(s, TAB);
    }
  }

  /** A name without `_` (and without tabs) is the concatenation of its camel-case words. */
  lemma SplitNameCamel(name: Bytes)
    requires UNDERSCORE !in name && TAB !in name
    ensures SplitName(name).separator == []
    ensures Concat(SplitName(name).words) == name
    ensures forall w :: w in SplitName(name).words ==> TAB !in w
  {
    var t := CamelPass2(CamelPass1(name));
    ConcatSplit(t, TAB);
    Pass1Rises(name);
    Pass2AcronymEnds(Rises(name));
    AcronymEndsWithout(Rises(name));
    RisesWithout(name);
    WithoutAbsent(name, TAB);
    SplitPiecesFree(t, TAB);
  }

  // ---------------------------------------------------------------------------
  // What the two substitutions do, position by position. A match never
  // overlaps the next possible one (a capital cannot start pass 1's pattern,
  // a non-capital cannot start pass 2's), so each pass is a tab inserted at
  // every position where its pattern's boundary lies.

  /** A tab at every rise from a non-capital to a capital. */
  function Rises(s: Bytes): Bytes
  {
    if |s| < 2 then s
    else [s[0]] + RiseGap(s) + Rises(s[1..])
  }

  /** The tab pass 1 puts after the first byte of `s`, if any. */
  function RiseGap(s: Bytes): Bytes
  {
    if |s| >= 2 && !IsUpper(s[0]) && IsUpper(s[1]) then [TAB] else []
  }

  /** A tab before the last capital of a run of capitals followed by a non-capital. */
  function AcronymEnds(s: Bytes): Bytes
  {
    if |s| < 3 then s else [s[0]] + AcronymGap(s) + AcronymEnds(s[1..])
  }

  /** The tab pass 2 puts after the first byte of `s`, if any. */
  function AcronymGap(s: Bytes): Bytes
  {
    if |s| >= 3 && IsUpper(s[0]) && IsUpper(s[1]) && !IsUpper(s[2]) then [TAB] else []
  }

  lemma RisesUpperHead(s: Bytes)
    requires |s| >= 1 && IsUpper(s[0])
    ensures Rises(s) == [s[0]] + Rises(s[1..])
  {
    if |s| < 2 {
      assert s[1..] == [];
    }
  }

  /** Pass 1 inserts a tab at exactly the rises and changes nothing else. */
  lemma {:induction false} Pass1Rises(s: Bytes)
    ensures CamelPass1(s) == Rises(s)
    decreases |s|
  {
    if |s| >= 2 {
      if !IsUpper(s[0]) && IsUpper(s[1]) {
        Pass1Rises(s[2..]);
        RisesUpperHead(s[1..]);
        assert s[1..][1..] == s[2..];
      } else {
        Pass1Rises(s[1..]);
      }
    }
  }

  lemma AcronymEndsLowerHead(s: Bytes)
    requires |s| >= 1 && !IsUpper(s[0])
    ensures AcronymEnds(s) == [s[0]] + AcronymEnds(s[1..])
  {
    if |s| < 3 {
      assert s == [s[0]] + s[1..];
    }
  }

  /** Pass 2 inserts a tab at exactly the acronym ends and changes nothing else. */
  lemma {:induction false} Pass2AcronymEnds(s: Bytes)
    ensures CamelPass2(s) == AcronymEnds(s)
    decreases |s|
  {
    if |s| >= 3 {
      if IsUpper(s[0]) && IsUpper(s[1]) && !IsUpper(s[2]) {
        Pass2AcronymEnds(s[3..]);
        AcronymEndsLowerHead(s[2..]);
        assert s[2..][1..] == s[3..];
        assert AcronymEnds(s[1..]) == [s[1]] + AcronymEnds(s[2..]) by {
          if |s| == 3 {
            assert s[1..] == [s[1]] + s[2..];
          } else {
            assert s[1..][1..] == s[2..];
          }
        }
      } else {
        Pass2AcronymEnds(s[1..]);
      }
    }
  }

  /** The tab `Rises` puts between the last byte of one part and the first of the next. */
  function Seam(u: Bytes, v: Bytes): Bytes
    requires u != [] && v != []
  {
    if !IsUpper(u[|u| - 1]) && IsUpper(v[0]) then [TAB] else []
  }

  lemma RisesHeadAppend(u: Bytes, v: Bytes)
    requires |u| >= 2
    ensures Rises(u + v) == [u[0]] + RiseGap(u) + Rises(u[1..] + v)
  {
    var w := u + v;
    assert w[0] == u[0] && w[1] == u[1];
    assert w[1..] == u[1..] + v;
  }

  lemma RisesAppendStep(u: Bytes, v: Bytes)
    requires |u| >= 2 && v != []
    requires Rises(u[1..] + v) == Rises(u[1..]) + (Seam(u[1..], v) + Rises(v))
    ensures Rises(u + v) == Rises(u) + (Seam(u, v) + Rises(v))
  {
    assert Seam(u[1..], v) == Seam(u, v);
    RisesHeadAppend(u, v);
    Regroup([u[0]] + RiseGap(u), Rises(u[1..]), Seam(u, v) + Rises(v), Rises(u + v), Rises(u));
  }

  /** Rises of a concatenation: the parts' rises, and a tab where the seam rises. */
  lemma {:induction false} RisesAppend(u: Bytes, v: Bytes)
    requires u != [] && v != []
    ensures Rises(u + v) == Rises(u) + (Seam(u, v) + Rises(v))
    decreases |u|
  {
    if |u| == 1 {
      assert (u + v)[1..] == v;
    } else {
      assert u[1..][|u[1..]| - 1] == u[|u| - 1];
      RisesAppend(u[1..], v);
      RisesAppendStep(u, v);
    }
  }

  predicate NoRise(s: Bytes)
  {
    forall i :: 0 < i < |s| ==> IsUpper(s[i - 1]) || !IsUpper(s[i])
  }

  lemma {:induction false} NoRiseFixed(s: Bytes)
    requires NoRise(s)
    ensures Rises(s) == s
    decreases |s|
  {
    if |s| >= 2 {
      assert IsUpper(s[0]) || !IsUpper(s[1]);
      assert NoRise(s[1..]) by {
        forall i | 0 < i < |s[1..]|
          ensures IsUpper(s[1..][i - 1]) || !IsUpper(s[1..][i])
        {
          assert s[1..][i - 1] == s[i] && s[1..][i] == s[i + 1];
        }
      }
      NoRiseFixed(s[1..]);
      assert s == [s[0]] + s[1..];
    }
  }

  lemma AcronymEndsUnfold(u: Bytes)
    requires |u| >= 2 && !IsUpper(u[|u| - 1])
    ensures AcronymEnds(u) == [u[0]] + AcronymGap(u) + AcronymEnds(u[1..])
  {
    if |u| == 2 {
      assert u[1..] == [u[1]];
      assert u == [u[0]] + [u[1]];
    }
  }

  lemma AcronymGapAppend(u: Bytes, v: Bytes)
    requires |u| >= 2 && !IsUpper(u[|u| - 1])
    ensures AcronymGap(u + v) == AcronymGap(u)
  {
    assert (u + v)[0] == u[0] && (u + v)[1] == u[1];
    if |u| >= 3 {
      assert (u + v)[2] == u[2];
    }
  }

  lemma AcronymEndsHeadAppend(u: Bytes, v: Bytes)
    requires |u| >= 2 && v != [] && !IsUpper(u[|u| - 1])
    ensures AcronymEnds(u + v) == [u[0]] + AcronymGap(u) + AcronymEnds(u[1..] + v)
  {
    var w := u + v;
    assert |w| >= 3 && w[0] == u[0];
    assert w[1..] == u[1..] + v;
    AcronymGapAppend(u, v);
  }

  lemma Regroup(h: Bytes, x: Bytes, y: Bytes, a: Bytes, b: Bytes)
    requires a == h + (x + y) && b == h + x
    ensures a == b + y
  {
  }

  lemma AcronymEndsAppendStep(u: Bytes, v: Bytes)
    requires |u| >= 2 && v != [] && !IsUpper(u[|u| - 1])
    requires AcronymEnds(u[1..] + v) == AcronymEnds(u[1..]) + AcronymEnds(v)
    ensures AcronymEnds(u + v) == AcronymEnds(u) + AcronymEnds(v)
  {
    AcronymEndsHeadAppend(u, v);
    AcronymEndsUnfold(u);
    Regroup([u[0]] + AcronymGap(u), AcronymEnds(u[1..]), AcronymEnds(v), AcronymEnds(u + v), AcronymEnds(u));
  }

  lemma {:induction false} AcronymEndsAppend(u: Bytes, v: Bytes)
    requires u != [] && !IsUpper(u[|u| - 1])
    ensures AcronymEnds(u + v) == AcronymEnds(u) + AcronymEnds(v)
    decreases |u|
  {
    if v == [] {
      assert u + v == u;
    } else if |u| == 1 {
      AcronymEndsLowerHead(u + v);
      assert (u + v)[1..] == v;
    } else {
      assert u[1..][|u[1..]| - 1] == u[|u| - 1];
      AcronymEndsAppend(u[1..], v);
      AcronymEndsAppendStep(u, v);
    }
  }

  lemma {:induction false} AcronymEndsBefore(u: Bytes, v: Bytes)
    requires u != [] && forall i :: 0 <= i < |u| ==> IsUpper(u[i])
    requires |v| >= 2 && IsUpper(v[0]) && !IsUpper(v[1])
    ensures AcronymEnds(u + v) == u + [TAB] + AcronymEnds(v)
    decreases |u|
  {
    if |u| == 1 {
      assert (u + v)[1..] == v;
    } else {
      assert (u + v)[1..] == u[1..] + v;
      AcronymEndsBefore(u[1..], v);
      assert IsUpper((u + v)[2]);
    }
  }

  predicate NoAcronymEnd(s: Bytes)
  {
    forall i :: 0 <= i < |s| - 2 ==> !(IsUpper(s[i]) && IsUpper(s[i + 1]) && !IsUpper(s[i + 2]))
  }

  lemma {:induction false} NoAcronymEndFixed(s: Bytes)
    requires NoAcronymEnd(s)
    ensures AcronymEnds(s) == s
    decreases |s|
  {
    if |s| >= 3 {
      assert NoAcronymEnd(s[1..]) by {
        forall i | 0 <= i < |s[1..]| - 2
          ensures !(IsUpper(s[1..][i]) && IsUpper(s[1..][i + 1]) && !IsUpper(s[1..][i + 2]))
        {
          assert s[1..][i] == s[i + 1];
        }
      }
      NoAcronymEndFixed(s[1..]);
      assert s == [s[0]] + s[1..];
    }
  }

  // ---------------------------------------------------------------------------
  // Camel-case words.

  /** A byte that may follow the first byte of a camel-case word. */
  predicate Plain(b: Byte) { !IsUpper(b) && b != TAB && b != UNDERSCORE }

  /** `foo`: no capitals. */
  predicate LowerWord(w: Bytes) { w != [] && forall i :: 0 <= i < |w| ==> Plain(w[i]) }

  /** `Foo`: one capital, then at least one non-capital. */
  predicate CapitalWord(w: Bytes) { |w| >= 2 && IsUpper(w[0]) && forall i :: 1 <= i < |w| ==> Plain(w[i]) }

  /** `HTTP`: capitals only. */
  predicate AcronymWord(w: Bytes) { w != [] && forall i :: 0 <= i < |w| ==> IsUpper(w[i]) }

  /**
   * Words a camel-case name is written from: a lower-case word may only come
   * first, and an acronym is followed by a capitalised word or ends the name.
   */
  predicate CamelWords(ws: seq<Bytes>)
  {
    |ws| >= 1 && (LowerWord(ws[0]) || CapitalWord(ws[0]) || AcronymWord(ws[0])) && CamelTail(ws)
  }

  /** After the first word: capitalised words and acronyms, an acronym never followed by an acronym. */
  predicate CamelTail(ws: seq<Bytes>)
  {
    |ws| <= 1
    || (&& (CapitalWord(ws[1]) || AcronymWord(ws[1]))
        && (AcronymWord(ws[0]) ==> CapitalWord(ws[1]))
        && CamelTail(ws[1..]))
  }

  lemma CamelWordsTail(ws: seq<Bytes>)
    requires CamelWords(ws) && |ws| >= 2
    ensures CamelWords(ws[1..])
  {
    assert ws[1..][0] == ws[1];
  }

  lemma {:induction false} CamelWordsEach(ws: seq<Bytes>)
    requires CamelWords(ws)
    ensures forall k :: 0 <= k < |ws| ==> LowerWord(ws[k]) || CapitalWord(ws[k]) || AcronymWord(ws[k])
  {
    if |ws| >= 2 {
      CamelWordsTail(ws);
      CamelWordsEach(ws[1..]);
      assert forall k :: 1 <= k < |ws| ==> ws[k] == ws[1..][k - 1];
    }
  }

  /** What pass 1 makes of camel-case words: a tab between them, except after a capital. */
  function Pass1Words(ws: seq<Bytes>): Bytes
    requires ws != []
  {
    if |ws| == 1 then ws[0]
    else ws[0] + (if ws[0] != [] && IsUpper(ws[0][|ws[0]| - 1]) then [] else [TAB]) + Pass1Words(ws[1..])
  }

  lemma {:induction false} Pass1WordsHead(ws: seq<Bytes>)
    requires ws != []
    ensures ws[0] <= Pass1Words(ws)
  {
  }

  /** The shape facts about one camel-case word that the two passes depend on. */
  lemma WordShape(w: Bytes)
    requires LowerWord(w) || CapitalWord(w) || AcronymWord(w)
    ensures w != [] && NoRise(w)
    ensures AcronymWord(w) <==> IsUpper(w[|w| - 1])
    ensures AcronymWord(w) ==> NoAcronymEnd(w) && forall i :: 0 <= i < |w| ==> IsUpper(w[i])
    ensures !AcronymWord(w) ==> NoAcronymEnd(w + [TAB])
    ensures CapitalWord(w) ==> IsUpper(w[0]) && !IsUpper(w[1])
  {
    if !AcronymWord(w) {
      assert !IsUpper(w[|w| - 1]);
      var s := w + [TAB];
      forall i | 0 <= i < |s| - 2
        ensures !(IsUpper(s[i]) && IsUpper(s[i + 1]) && !IsUpper(s[i + 2]))
      {
        assert s[i + 1] == w[i + 1];
      }
    }
  }

  lemma RisesFirstWord(w: Bytes, t: Bytes)
    requires w != [] && NoRise(w) && t != [] && IsUpper(t[0])
    ensures Rises(w + t) == w + (if IsUpper(w[|w| - 1]) then [] else [TAB]) + Rises(t)
  {
    NoRiseFixed(w);
    RisesAppend(w, t);
  }

  lemma ConcatHead(ws: seq<Bytes>)
    requires |ws| >= 2 && ws[1] != []
    ensures Concat(ws) == ws[0] + Concat(ws[1..])
    ensures Concat(ws[1..]) != [] && Concat(ws[1..])[0] == ws[1][0]
  {
    assert Concat(ws[1..]) == ws[1..][0] + Concat(ws[2..]);
  }

  lemma {:induction false} RisesWords(ws: seq<Bytes>)
    requires CamelWords(ws)
    ensures Rises(Concat(ws)) == Pass1Words(ws)
    decreases |ws|
  {
    WordShape(ws[0]);
    if |ws| == 1 {
      NoRiseFixed(ws[0]);
      assert ws[1..] == [];
      assert Concat(ws) == ws[0] + [];
      assert Concat(ws) == ws[0];
    } else {
      CamelWordsTail(ws);
      RisesWords(ws[1..]);
      WordShape(ws[1]);
      ConcatHead(ws);
      RisesFirstWord(ws[0], Concat(ws[1..]));
    }
  }

  lemma AcronymEndsOneWord(w: Bytes)
    requires LowerWord(w) || CapitalWord(w) || AcronymWord(w)
    ensures AcronymEnds(w) == w
  {
    WordShape(w);
    if AcronymWord(w) {
      NoAcronymEndFixed(w);
    } else {
      assert NoAcronymEnd(w) by {
        assert forall i :: 0 <= i < |w| ==> w[i] == (w + [TAB])[i];
      }
      NoAcronymEndFixed(w);
    }
  }

  /** A lower-case or capitalised word and the tab after it. */
  lemma AcronymEndsAfterTab(w: Bytes, t: Bytes)
    requires NoAcronymEnd(w + [TAB])
    ensures AcronymEnds(w + [TAB] + t) == w + [TAB] + AcronymEnds(t)
  {
    NoAcronymEndFixed(w + [TAB]);
    AcronymEndsAppend(w + [TAB], t);
  }

  /** An acronym and the capitalised word after it: the tab goes before the word's capital. */
  lemma AcronymEndsAfterAcronym(w: Bytes, next: Bytes, t: Bytes)
    requires w != [] && forall i :: 0 <= i < |w| ==> IsUpper(w[i])
    requires |next| >= 2 && IsUpper(next[0]) && !IsUpper(next[1]) && next <= t
    ensures AcronymEnds(w + t) == w + [TAB] + AcronymEnds(t)
  {
    assert t[0] == next[0] && t[1] == next[1];
    AcronymEndsBefore(w, t);
  }

  lemma AcronymEndsFirstAcronym(ws: seq<Bytes>)
    requires |ws| >= 2 && AcronymWord(ws[0]) && CapitalWord(ws[1])
    ensures AcronymEnds(Pass1Words(ws)) == ws[0] + [TAB] + AcronymEnds(Pass1Words(ws[1..]))
  {
    assert IsUpper(ws[0][|ws[0]| - 1]);
    Pass1WordsHead(ws[1..]);
    assert Pass1Words(ws) == ws[0] + Pass1Words(ws[1..]);
    AcronymEndsAfterAcronym(ws[0], ws[1], Pass1Words(ws[1..]));
  }

  lemma AcronymEndsFirstPlain(ws: seq<Bytes>)
    requires |ws| >= 2 && (LowerWord(ws[0]) || CapitalWord(ws[0]))
    ensures AcronymEnds(Pass1Words(ws)) == ws[0] + [TAB] + AcronymEnds(Pass1Words(ws[1..]))
  {
    WordShape(ws[0]);
    assert Pass1Words(ws) == ws[0] + [TAB] + Pass1Words(ws[1..]);
    AcronymEndsAfterTab(ws[0], Pass1Words(ws[1..]));
  }

  lemma {:induction false} AcronymEndsWords(ws: seq<Bytes>)
    requires CamelWords(ws)
    ensures AcronymEnds(Pass1Words(ws)) == Join(ws, TAB)
    decreases |ws|
  {
    if |ws| == 1 {
      AcronymEndsOneWord(ws[0]);
    } else {
      CamelWordsTail(ws);
      AcronymEndsWords(ws[1..]);
      if AcronymWord(ws[0]) {
        AcronymEndsFirstAcronym(ws);
      } else {
        AcronymEndsFirstPlain(ws);
      }
    }
  }

  lemma {:induction false} ConcatWithout(ws: seq<Bytes>, b: Byte)
    requires forall k :: 0 <= k < |ws| ==> b !in ws[k]
    ensures b !in Concat(ws)
  {
    if ws != [] {
      ConcatWithout(ws[1..], b);
    }
  }

  /**
   * Camel-case words run together split back into exactly those words: the
   * tabs of the two passes fall at the word boundaries and nowhere else.
   */
  lemma SplitNameCamelWords(ws: seq<Bytes>)
    requires CamelWords(ws)
    ensures SplitName(Concat(ws)) == SplitResult([], ws)
  {
    CamelWordsEach(ws);
    assert forall k :: 0 <= k < |ws| ==> UNDERSCORE !in ws[k] && TAB !in ws[k] by {
      forall k | 0 <= k < |ws|
        ensures UNDERSCORE !in ws[k] && TAB !in ws[k]
      {
        assert forall i :: 0 <= i < |ws[k]| ==> Plain(ws[k][i]) || IsUpper(ws[k][i]);
      }
    }
    ConcatWithout(ws, UNDERSCORE);
    Pass1Rises(Concat(ws));
    RisesWords(ws);
    Pass2AcronymEnds(Pass1Words(ws));
    AcronymEndsWords(ws);
    SplitJoin(ws, TAB);
  }

  lemma AcronymExampleWords(ws: seq<Bytes>)
    requires ws == [[88, 77, 76], [70, 111, 111], [72, 84, 84, 80], [66, 97, 114]]
    ensures CamelWords(ws)
    ensures Concat(ws) == [88, 77, 76, 70, 111, 111, 72, 84, 84, 80, 66, 97, 114]
  {
    assert AcronymWord(ws[0]) && CapitalWord(ws[1]) && AcronymWord(ws[2]) && CapitalWord(ws[3]);
    assert !IsUpper(ws[1][1]);
    assert ws[1..][1..][1..] == [ws[3]];
    assert CamelTail(ws[1..][1..][1..]);
    assert ws[1..][1..][0] == ws[2] && ws[1..][1..][1] == ws[3];
    assert CamelTail(ws[1..][1..]);
    assert ws[1..][0] == ws[1] && ws[1..][1] == ws[2];
    assert CamelTail(ws[1..]);
    assert Concat(ws[3..]) == [66, 97, 114] + Concat([]);
    assert Concat(ws[2..]) == [72, 84, 84, 80] + Concat(ws[3..]);
    assert Concat(ws[1..]) == [70, 111, 111] + Concat(ws[2..]);
  }

  /** `XMLFooHTTPBar` splits into `XML`, `Foo`, `HTTP`, `Bar`. */
  lemma SplitNameAcronyms()
    ensures SplitName([88, 77, 76, 70, 111, 111, 72, 84, 84, 80, 66, 97, 114]).words
      == [[88, 77, 76], [70, 111, 111], [72, 84, 84, 80], [66, 97, 114]]
  {
    var ws: seq<Bytes> := [[88, 77, 76], [70, 111, 111], [72, 84, 84, 80], [66, 97, 114]];
    AcronymExampleWords(ws);
    SplitNameCamelWords(ws);
  }

  /** `foo_bar` splits into `foo`, `bar`; `foo__bar` into `foo`, ``, `bar`: the empty word is kept. */
  lemma SplitNameUnderscores()
    ensures SplitName([102, 111, 111, 95, 98, 97, 114]).words == [[102, 111, 111], [98, 97, 114]]
    ensures SplitName([102, 111, 111, 95, 95, 98, 97, 114]).words == [[102, 111, 111], [], [98, 97, 114]]
  {
    var ws1: seq<Bytes> := [[102, 111, 111], [98, 97, 114]];
    var ws2: seq<Bytes> := [[102, 111, 111], [], [98, 97, 114]];
    assert Join(ws1, UNDERSCORE) == [102, 111, 111, 95, 98, 97, 114];
    assert Join(ws2, UNDERSCORE) == [102, 111, 111, 95, 95, 98, 97, 114];
    SplitJoin(ws1, UNDERSCORE);
    SplitJoin(ws2, UNDERSCORE);
  }

  // ---------------------------------------------------------------------------
  // Rendering.

  /** `_capitalize` on each word; an empty word, on which `_capitalize` raises, stays empty. */
  function CapitalizeEach(ws: seq<Bytes>): (r: seq<Bytes>)
    ensures |r| == |ws|
  {
    if ws == [] then [] else [if ws[0] == [] then [] else Capitalize(ws[0])] + CapitalizeEach(ws[1..])
  }

  /**
   * `_capitalize` raises exactly when one of the words is empty; otherwise the
   * result is the capitalised words run together.
   */
  lemma {:induction false} CapitalizeAllFails(ws: seq<Bytes>)
    ensures CapitalizeAll(ws) == None <==> exists k :: 0 <= k < |ws| && ws[k] == []
    ensures (forall k :: 0 <= k < |ws| ==> |ws[k]| > 0) ==> CapitalizeAll(ws) == Some(Concat(CapitalizeEach(ws)))
  {
    if ws != [] {
      CapitalizeAllFails(ws[1..]);
      assert ws == [ws[0]] + ws[1..];
    }
  }

  /** `to_upper_camel` raises exactly when the name splits into an empty word (`foo__bar`, `_foo`, ``). */
  lemma ToUpperCamelFails(name: Bytes)
    ensures ToUpperCamel(name) == None <==> exists k :: 0 <= k < |SplitName(name).words| && SplitName(name).words[k] == []
  {
    CapitalizeAllFails(SplitName(name).words);
  }

  /** `to_lower_camel` raises exactly when a word after the first is empty. */
  lemma ToLowerCamelFails(name: Bytes)
    ensures ToLowerCamel(name) == None <==> exists k :: 1 <= k < |SplitName(name).words| && SplitName(name).words[k] == []
  {
    CapitalizeAllFails(SplitName(name).words[1..]);
  }

  lemma {:induction false} LowerAllNoUpper(s: Bytes)
    requires forall i :: 0 <= i < |s| ==> !IsUpper(s[i])
    ensures LowerAll(s) == s
  {
    if s != [] {
      LowerAllNoUpper(s[1..]);
      assert s == [s[0]] + s[1..];
    }
  }

  lemma {:induction false} JoinLowerEach(ws: seq<Bytes>)
    ensures Join(LowerEach(ws), UNDERSCORE) == LowerAll(Join(ws, UNDERSCORE))
  {
    if |ws| == 1 {
      assert LowerEach(ws) == [LowerAll(ws[0])];
    } else if |ws| >= 2 {
      JoinLowerEach(ws[1..]);
      LowerAllAppend(ws[0] + [UNDERSCORE], Join(ws[1..], UNDERSCORE));
      LowerAllAppend(ws[0], [UNDERSCORE]);
      assert LowerAll([UNDERSCORE]) == [UNDERSCORE];
    }
  }

  lemma {:induction false} JoinUpperEach(ws: seq<Bytes>)
    ensures Join(UpperEach(ws), UNDERSCORE) == UpperAll(Join(ws, UNDERSCORE))
  {
    if |ws| == 1 {
      assert UpperEach(ws) == [UpperAll(ws[0])];
    } else if |ws| >= 2 {
      JoinUpperEach(ws[1..]);
      UpperAllAppend(ws[0] + [UNDERSCORE], Join(ws[1..], UNDERSCORE));
      UpperAllAppend(ws[0], [UNDERSCORE]);
      assert UpperAll([UNDERSCORE]) == [UNDERSCORE];
    }
  }

  /** An underscore name renders in underscore style as the whole name lower- or upper-cased. */
  lemma UnderscoreStyles(name: Bytes)
    requires UNDERSCORE in name
    ensures ToLowerUnderscore(name) == LowerAll(name)
    ensures ToUpperUnderscore(name) == UpperAll(name)
  {
    SplitNameUnderscore(name);
    JoinLowerEach(SplitName(name).words);
    JoinUpperEach(SplitName(name).words);
  }

  /**
   * `foo`, `bar2`: a lower-case letter, then at least one non-capital that is
   * neither `_` nor a tab. The round trips below hold for names made of such
   * words; a one-letter word breaks them (`SingleLetterRoundTripFails`).
   */
  predicate SnakeWord(w: Bytes)
  {
    |w| >= 2 && IsLower(w[0]) && forall i :: 1 <= i < |w| ==> Plain(w[i])
  }

  lemma CapitalizeSnake(w: Bytes)
    requires SnakeWord(w)
    ensures CapitalWord(Capitalize(w))
    ensures LowerAll(Capitalize(w)) == w
  {
    LowerAllNoUpper(w[1..]);
    LowerAllAppend([Upper(w[0])], w[1..]);
    assert w == [w[0]] + w[1..];
  }

  lemma {:induction false} CapitalizeEachSnake(ws: seq<Bytes>)
    requires forall k :: 0 <= k < |ws| ==> SnakeWord(ws[k])
    ensures forall k :: 0 <= k < |ws| ==> CapitalWord(CapitalizeEach(ws)[k])
    ensures LowerEach(CapitalizeEach(ws)) == ws
  {
    if ws != [] {
      CapitalizeSnake(ws[0]);
      CapitalizeEachSnake(ws[1..]);
      var r := CapitalizeEach(ws);
      assert r == [Capitalize(ws[0])] + CapitalizeEach(ws[1..]);
      assert r[1..] == CapitalizeEach(ws[1..]);
      assert ws == [ws[0]] + ws[1..];
    }
  }

  lemma {:induction false} CapitalTail(ws: seq<Bytes>)
    requires forall k :: 1 <= k < |ws| ==> CapitalWord(ws[k])
    ensures CamelTail(ws)
  {
    if |ws| >= 2 {
      assert forall k :: 1 <= k < |ws[1..]| ==> ws[1..][k] == ws[k + 1];
      CapitalTail(ws[1..]);
    }
  }

  /** A lower-case or capitalised word followed by capitalised words are camel-case words. */
  lemma CapitalWordsCamel(first: seq<Bytes>, ws: seq<Bytes>)
    requires |first| <= 1 && |first + ws| >= 1
    requires forall k :: 0 <= k < |first| ==> LowerWord(first[k])
    requires forall k :: 0 <= k < |ws| ==> CapitalWord(ws[k])
    ensures CamelWords(first + ws)
  {
    var all := first + ws;
    assert forall k :: 1 <= k < |all| ==> all[k] == ws[k - |first|];
    CapitalTail(all);
  }

  lemma SnakeWordFree(w: Bytes)
    requires SnakeWord(w)
    ensures UNDERSCORE !in w && TAB !in w
  {
    assert forall i :: 0 <= i < |w| ==> w[i] != UNDERSCORE && w[i] != TAB;
  }

  lemma SnakeLowered(w: Bytes)
    requires SnakeWord(w)
    ensures LowerAll(w) == w
  {
    assert Plain(w[0]);
    LowerAllNoUpper(w);
  }

  lemma SplitNameOneSnake(w: Bytes)
    requires SnakeWord(w)
    ensures SplitName(w).words == [w]
  {
    assert Plain(w[0]) && LowerWord(w);
    CapitalWordsCamel([w], []);
    assert [w] + [] == [w];
    assert Concat([w]) == w + Concat([]);
    assert Concat([w]) == w;
    SplitNameCamelWords([w]);
  }

  lemma JoinHasSeparator(ws: seq<Bytes>, sep: Byte)
    requires |ws| >= 2
    ensures sep in Join(ws, sep)
  {
    assert Join(ws, sep)[|ws[0]|] == sep;
  }

  /** A snake-case name of lower-case words splits into exactly those words. */
  lemma SplitNameSnake(ws: seq<Bytes>)
    requires |ws| >= 1 && forall k :: 0 <= k < |ws| ==> SnakeWord(ws[k])
    ensures SplitName(Join(ws, UNDERSCORE)).words == ws
  {
    if |ws| == 1 {
      SplitNameOneSnake(ws[0]);
    } else {
      JoinHasSeparator(ws, UNDERSCORE);
      forall k | 0 <= k < |ws|
        ensures UNDERSCORE !in ws[k]
      {
        SnakeWordFree(ws[k]);
      }
      SplitJoin(ws, UNDERSCORE);
    }
  }

  /**
   * A snake-case name of lower-case words survives the trip to upper camel
   * case and back: `foo_bar` renders as `FooBar`, which renders as `foo_bar`.
   */
  lemma UpperCamelRoundTrip(ws: seq<Bytes>)
    requires |ws| >= 1 && forall k :: 0 <= k < |ws| ==> SnakeWord(ws[k])
    ensures ToUpperCamel(Join(ws, UNDERSCORE)) == Some(Concat(CapitalizeEach(ws)))
    ensures ToLowerUnderscore(Concat(CapitalizeEach(ws))) == Join(ws, UNDERSCORE)
  {
    SplitNameSnake(ws);
    CapitalizeAllFails(ws);
    var caps := CapitalizeEach(ws);
    CapitalizeEachSnake(ws);
    CapitalWordsCamel([], caps);
    assert [] + caps == caps;
    SplitNameCamelWords(caps);
  }

  /**
   * Outside `SnakeWord` the trip can lose the underscores: `a_b` renders as
   * `AB`, which `_split_name` keeps as one word, because the acronym pass
   * needs a third byte, so it renders back as `ab`.
   */
  lemma SingleLetterRoundTripFails()
    ensures ToUpperCamel([97, 95, 98]) == Some([65, 66])
    ensures ToLowerUnderscore([65, 66]) == [97, 98]
  {
    var a: Bytes, b: Bytes, ab: Bytes, none: Bytes := [97], [98], [65, 66], [];
    SplitOne(98, UNDERSCORE);
    assert Split([95, 98], UNDERSCORE) == [none, b] by {
      assert [95, 98][1..] == b;
    }
    assert Split([97, 95, 98], UNDERSCORE) == [a, b] by {
      assert [97, 95, 98][1..] == [95, 98];
      assert [97] + none == a && [none, b][1..] == [b];
    }
    assert Capitalize(b) == [66] && Capitalize(a) == [65] by {
      assert b[1..] == none && a[1..] == none && LowerAll(none) == none;
    }
    assert CapitalizeAll([b]) == Some([66]) by {
      assert |[b][1..]| == 0;
    }
    assert CapitalizeAll([a, b]) == Some(ab) by {
      assert [a, b][1..] == [b] && [a, b][0] == a;
      assert Capitalize(a) + [66] == ab;
    }
    assert CamelPass2(CamelPass1(ab)) == ab by {
      assert ab[2..] == [];
    }
    SplitOne(66, TAB);
    assert Split(ab, TAB) == [ab] by {
      assert ab[1..] == [66];
    }
    assert LowerAll(ab) == [97, 98] by {
      assert ab[1..] == [66] && ab[1..][1..] == none;
      assert LowerAll([66]) == [98] + LowerAll(none);
    }
    assert LowerEach([ab]) == [[97, 98]] by {
      assert |[ab][1..]| == 0;
    }
  }

  lemma SplitOne(x: Byte, sep: Byte)
    requires x != sep
    ensures Split([x], sep) == [[x]]
  {
    var none: Bytes := [];
    assert [x][1..] == none;
    assert Split(none, sep) == [none];
    assert [x] + none == [x] && [none][1..] == [];
  }

  lemma LowerCamelWords(ws: seq<Bytes>)
    requires |ws| >= 1 && forall k :: 0 <= k < |ws| ==> SnakeWord(ws[k])
    ensures SplitName(ws[0] + Concat(CapitalizeEach(ws[1..]))).words == [ws[0]] + CapitalizeEach(ws[1..])
    ensures LowerEach([ws[0]] + CapitalizeEach(ws[1..])) == ws
  {
    var caps := CapitalizeEach(ws[1..]);
    CapitalizeEachSnake(ws[1..]);
    SnakeLowered(ws[0]);
    var all := [ws[0]] + caps;
    CapitalWordsCamel([ws[0]], caps);
    assert all[1..] == caps;
    assert Concat(all) == ws[0] + Concat(caps);
    SplitNameCamelWords(all);
    assert LowerEach(all) == [LowerAll(ws[0])] + LowerEach(caps);
    assert ws == [ws[0]] + ws[1..];
  }

  /** The same trip through lower camel case: `foo_bar` renders as `fooBar`, which renders as `foo_bar`. */
  lemma LowerCamelRoundTrip(ws: seq<Bytes>)
    requires |ws| >= 1 && forall k :: 0 <= k < |ws| ==> SnakeWord(ws[k])
    ensures ToLowerCamel(Join(ws, UNDERSCORE)) == Some(ws[0] + Concat(CapitalizeEach(ws[1..])))
    ensures ToLowerUnderscore(ws[0] + Concat(CapitalizeEach(ws[1..]))) == Join(ws, UNDERSCORE)
  {
    var rest := ws[1..];
    forall k | 0 <= k < |rest|
      ensures |rest[k]| > 0
    {
      assert rest[k] == ws[k + 1] && SnakeWord(ws[k + 1]);
    }
    CapitalizeAllFails(rest);
    assert ws[0] != [];
    SplitNameSnake(ws);
    SnakeLowered(ws[0]);
    LowerCamelWords(ws);
  }

  // ---------------------------------------------------------------------------
  // Transforming expressions.

  /** Two rendered pieces run together; a failed piece fails the whole. */
  function OptCat(a: Option<Bytes>, b: Option<Bytes>): Option<Bytes>
  {
    if a.Some? && b.Some? then Some(a.value + b.value) else None
  }

  lemma OptCatAssoc(a: Option<Bytes>, b: Option<Bytes>, c: Option<Bytes>)
    ensures OptCat(OptCat(a, b), c) == OptCat(a, OptCat(b, c))
  {
    if a.Some? && b.Some? && c.Some? {
      assert a.value + b.value + c.value == a.value + (b.value + c.value);
    }
  }

  lemma OptCatUnit(a: Option<Bytes>)
    ensures OptCat(Some([]), a) == a && OptCat(a, Some([])) == a
  {
    if a.Some? {
      assert [] + a.value == a.value && a.value + [] == a.value;
    }
  }

  lemma WordRunUnique(s: Bytes, n: nat)
    requires n <= |s| && forall i :: 0 <= i < n ==> IsWordChar(s[i])
    requires n < |s| ==> !IsWordChar(s[n])
    ensures WordRun(s) == n
  {
  }

  /** Length of the first token of `s`: a whole run of word bytes, or one other byte. */
  function FrontLen(s: Bytes): (n: nat)
    requires s != []
    ensures 1 <= n <= |s|
  {
    if IsWordChar(s[0]) then WordRun(s) else 1
  }

  /** What `_transform_expr` makes of the first token of `s`. */
  function Front(s: Bytes, style: Style): Option<Bytes>
    requires s != []
  {
    if IsWordChar(s[0]) then Render(style, s[..FrontLen(s)]) else Some([s[0]])
  }

  lemma TransformFront(s: Bytes, style: Style)
    requires s != []
    ensures TransformExpr(s, style) == OptCat(Front(s, style), TransformExpr(s[FrontLen(s)..], style))
  {
  }

  /** The run of word bytes at the front of `a + b` is that of `a` when no word straddles the seam. */
  lemma WordRunAppend(a: Bytes, b: Bytes)
    requires a != [] && (b == [] || !IsWordChar(a[|a| - 1]) || !IsWordChar(b[0]))
    ensures WordRun(a + b) == WordRun(a)
  {
    var n := WordRun(a);
    if n == |a| {
      assert IsWordChar(a[|a| - 1]);
    }
    WordRunUnique(a + b, n);
  }

  lemma FrontAppend(a: Bytes, b: Bytes, style: Style)
    requires a != [] && (b == [] || !IsWordChar(a[|a| - 1]) || !IsWordChar(b[0]))
    ensures FrontLen(a + b) == FrontLen(a)
    ensures Front(a + b, style) == Front(a, style)
    ensures (a + b)[FrontLen(a)..] == a[FrontLen(a)..] + b
  {
    var n := FrontLen(a);
    assert (a + b)[0] == a[0];
    if IsWordChar(a[0]) {
      WordRunAppend(a, b);
      assert (a + b)[..n] == a[..n];
    }
    assert (a + b)[n..] == a[n..] + b;
  }

  lemma TransformAppendStep(a: Bytes, b: Bytes, style: Style)
    requires a != [] && (b == [] || !IsWordChar(a[|a| - 1]) || !IsWordChar(b[0]))
    requires TransformExpr(a[FrontLen(a)..] + b, style)
      == OptCat(TransformExpr(a[FrontLen(a)..], style), TransformExpr(b, style))
    ensures TransformExpr(a + b, style) == OptCat(TransformExpr(a, style), TransformExpr(b, style))
  {
    var n := FrontLen(a);
    FrontAppend(a, b, style);
    TransformFront(a + b, style);
    TransformFront(a, style);
    OptCatAssoc(Front(a, style), TransformExpr(a[n..], style), TransformExpr(b, style));
  }

  /**
   * `_name_pat.sub` works token by token: cutting the expression where no
   * word straddles the cut, the output is the two parts' outputs run together.
   */
  lemma {:induction false} TransformExprAppend(a: Bytes, b: Bytes, style: Style)
    requires a == [] || b == [] || !IsWordChar(a[|a| - 1]) || !IsWordChar(b[0])
    ensures TransformExpr(a + b, style) == OptCat(TransformExpr(a, style), TransformExpr(b, style))
    decreases |a|
  {
    if a == [] {
      assert a + b == b;
      OptCatUnit(TransformExpr(b, style));
    } else {
      var rest := a[FrontLen(a)..];
      if rest == [] {
        assert rest + b == b;
        OptCatUnit(TransformExpr(b, style));
      } else {
        assert rest[|rest| - 1] == a[|a| - 1];
        TransformExprAppend(rest, b, style);
      }
      TransformAppendStep(a, b, style);
    }
  }

  /** Bytes outside words are copied unchanged: an expression without word bytes comes back as it is. */
  lemma {:induction false} TransformExprNoWords(s: Bytes, style: Style)
    requires forall i :: 0 <= i < |s| ==> !IsWordChar(s[i])
    ensures TransformExpr(s, style) == Some(s)
  {
    if s != [] {
      TransformExprNoWords(s[1..], style);
      assert s == [s[0]] + s[1..];
    }
  }

  /** A single name is rendered whole by the style's renderer. */
  lemma TransformExprWord(w: Bytes, style: Style)
    requires w != [] && forall i :: 0 <= i < |w| ==> IsWordChar(w[i])
    ensures TransformExpr(w, style) == Render(style, w)
  {
    WordRunUnique(w, |w|);
    assert w[..|w|] == w;
    TransformFront(w, style);
    assert w[|w|..] == [];
    OptCatUnit(Render(style, w));
  }

  /** The underscore styles never fail: every name renders in them. */
  lemma {:induction false} TransformExprUnderscore(s: Bytes)
    ensures TransformExpr(s, LowerUnderscore).Some? && TransformExpr(s, UpperUnderscore).Some?
    decreases |s|
  {
    if s != [] {
      TransformFront(s, LowerUnderscore);
      TransformFront(s, UpperUnderscore);
      TransformExprUnderscore(s[FrontLen(s)..]);
    }
  }

  /**
   * `all_case_variants` yields one output per renderer, in the order lower
   * camel, upper camel, lower underscore, upper underscore, and fails exactly
   * when a camel-case rendering fails.
   */
  lemma AllCaseVariantsOrder(expr: Bytes)
    ensures AllCaseVariants(expr).Some?
      <==> TransformExpr(expr, LowerCamel).Some? && TransformExpr(expr, UpperCamel).Some?
    ensures AllCaseVariants(expr).Some? ==>
      |AllCaseVariants(expr).value| == |Styles|
      && forall k :: 0 <= k < |Styles| ==> Some(AllCaseVariants(expr).value[k]) == TransformExpr(expr, Styles[k])
  {
    TransformExprUnderscore(expr);
  }
}
