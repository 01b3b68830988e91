/**
 The words of the expression language, character by character: what counts as white space, a number,
 a name and a bracket, and what the simplest texts evaluate to.
 */
module Lexicon {
  import opened Wrappers
  import opened Expressions
  import opened ExpressionMeaning

  // ----- characters -----

  /** The code points `trim` removes. */
  lemma SpaceIff(c: char)
    ensures Space(c) <==>
            || c as int in {0x9, 0xA, 0xB, 0xC, 0xD, 0x20, 0xA0, 0x1680, 0x2028, 0x2029, 0x202F, 0x205F, 0x3000, 0xFEFF}
            || 0x2000 <= c as int <= 0x200A
  {
  }

  predicate Letter(c: char) { 'A' <= c <= 'Z' || 'a' <= c <= 'z' || c == '_' || c == '$' }

  predicate Numeric(c: char) { '0' <= c <= '9' }

  predicate Digits(s: string) { s != "" && forall i :: 0 <= i < |s| ==> Numeric(s[i]) }

  predicate Identifier(s: string) {
    s != "" && Letter(s[0]) && forall i :: 0 <= i < |s| ==> Letter(s[i]) || Numeric(s[i])
  }

  lemma RunWhole(s: string, p: char -> bool)
    ensures Run(s, p) == |s| <==> forall i :: 0 <= i < |s| ==> p(s[i])
  {
  }

  /** A name is a letter, underscore or dollar sign, then those and digits. */
  lemma IdentIff(s: string)
    ensures IsIdent(s) <==> Identifier(s)
  {
    RunWhole(s, IdentPart);
  }

  /** After a dot, a name or a run of digits. */
  lemma MemberIff(s: string)
    ensures IsMemberName(s) <==> Identifier(s) || Digits(s)
  {
    RunWhole(s, IdentPart);
    RunWhole(s, Digit);
  }

  /** The longest name at the start of a text. */
  lemma IdentPrefix(s: string)
    ensures var n := IdentLength(s);
            if n == 0 then s == "" || !Letter(s[0])
            else n <= |s| && Identifier(s[..n]) && (n < |s| ==> !Letter(s[n]) && !Numeric(s[n]))
  {
  }

  /** A number: an optional minus sign, digits, and optionally a point with more digits. */
  predicate Numeral(sign: string, whole: string, fraction: string) {
    && (sign == "" || sign == "-") && Digits(whole)
    && (fraction == "" || (fraction[0] == '.' && Digits(fraction[1..])))
  }

  lemma {:induction false} RunStops(t: string, n: nat)
    requires n <= |t| && (forall i :: 0 <= i < n ==> Numeric(t[i])) && (n < |t| ==> !Numeric(t[n]))
    ensures Run(t, Digit) == n
  {
    var r := Run(t, Digit);
    assert r < |t| ==> !Digit(t[r]);
  }

  /** Digits, and optionally a point with more digits. */
  predicate Unsigned(t: string, whole: string, fraction: string) {
    t == whole + fraction && Digits(whole) && (fraction == "" || (fraction[0] == '.' && Digits(fraction[1..])))
  }

  lemma UnsignedRun(t: string, whole: string, fraction: string)
    requires Unsigned(t, whole, fraction)
    ensures Run(t, Digit) == |whole| > 0 && t[0] != '-'
    ensures fraction != "" ==> t[|whole|] == '.' && |whole| + 1 < |t| && Run(t[|whole| + 1..], Digit) == |t| - |whole| - 1
  {
    RunStops(t, |whole|);
    if fraction != "" {
      assert t[|whole| + 1..] == fraction[1..];
      RunStops(fraction[1..], |fraction[1..]|);
    }
  }

  lemma NumeralIsNumber(sign: string, whole: string, fraction: string)
    requires Numeral(sign, whole, fraction)
    ensures IsNumber(sign + whole + fraction)
  {
    hide Run, Digits;
    var t := whole + fraction;
    assert sign + whole + fraction == sign + t;
    UnsignedRun(t, whole, fraction);
    assert sign == "-" ==> (sign + t)[1..] == t;
    assert sign == "" ==> sign + t == t;
  }

  lemma RunSplits(t: string, n: nat)
    requires n == Run(t, Digit) && n > 0
    requires n == |t| || (t[n] == '.' && n + 1 < |t| && Run(t[n + 1..], Digit) == |t| - n - 1)
    ensures Unsigned(t, t[..n], t[n..])
  {
    hide Run;
    if n < |t| {
      assert t[n..][1..] == t[n + 1..];
    }
  }

  lemma Sign(s: string) returns (sign: string, t: string)
    requires IsNumber(s)
    ensures (sign == "" || sign == "-") && s == sign + t
    ensures var n := Run(t, Digit);
            n > 0 && (n == |t| || (t[n] == '.' && n + 1 < |t| && Run(t[n + 1..], Digit) == |t| - n - 1))
  {
    hide Run;
    if s != "" && s[0] == '-' {
      sign, t := "-", s[1..];
    } else {
      sign, t := "", s;
    }
  }

  lemma NumberSplits(s: string) returns (sign: string, whole: string, fraction: string)
    requires IsNumber(s)
    ensures Numeral(sign, whole, fraction) && s == sign + whole + fraction
  {
    hide Run, Digits, IsNumber;
    var t;
    sign, t := Sign(s);
    var n := Run(t, Digit);
    RunSplits(t, n);
    whole, fraction := t[..n], t[n..];
    assert sign + whole + fraction == sign + t;
  }

  lemma NumberIff(s: string)
    ensures IsNumber(s) <==> exists sign, whole, fraction :: Numeral(sign, whole, fraction) && s == sign + whole + fraction
  {
    if IsNumber(s) {
      var sign, whole, fraction := NumberSplits(s);
    }
    if sign, whole, fraction :| Numeral(sign, whole, fraction) && s == sign + whole + fraction {
      NumeralIsNumber(sign, whole, fraction);
    }
  }

  // ----- brackets and operators -----

  function Count(s: string, c: char): nat { |set i | 0 <= i < |s| && s[i] == c| }

  lemma CountNone(c: char)
    ensures Count("", c) == 0
  {
    assert (set i | 0 <= i < |""| && ""[i] == c) == {};
  }

  lemma CountNext(s: string, c: char)
    requires s != ""
    ensures Count(s, c) == Count(s[..|s| - 1], c) + if s[|s| - 1] == c then 1 else 0
  {
    var last := |s| - 1;
    var before, all := set i | 0 <= i < last && s[..last][i] == c, set i | 0 <= i < |s| && s[i] == c;
    assert all == if s[last] == c then before + {last} else before;
  }

  /** Depth counts parentheses, square brackets, or both; no other character is a bracket. */
  lemma {:induction false} DepthCounts(s: string)
    ensures Depth(s, Round) == Count(s, '(') - Count(s, ')')
    ensures Depth(s, Square) == Count(s, '[') - Count(s, ']')
    ensures Depth(s, Either) == Count(s, '(') - Count(s, ')') + Count(s, '[') - Count(s, ']')
  {
    if s == "" {
      CountNone('(');
      CountNone(')');
      CountNone('[');
      CountNone(']');
    } else {
      DepthCounts(s[..|s| - 1]);
      hide Count;
      CountNext(s, '(');
      CountNext(s, ')');
      CountNext(s, '[');
      CountNext(s, ']');
    }
  }

  /** The four operators, as they are written and as they decide. */
  lemma OperatorsAre(h: Host, l: Value, r: Value)
    ensures Op(false, true).Text() == "===" && Compare(h, Op(false, true), l, r) == Boolean(h.strictEqual(l, r))
    ensures Op(true, true).Text() == "!==" && Compare(h, Op(true, true), l, r) == Boolean(!h.strictEqual(l, r))
    ensures Op(false, false).Text() == "==" && Compare(h, Op(false, false), l, r) == Boolean(h.looseEqual(l, r))
    ensures Op(true, false).Text() == "!=" && Compare(h, Op(true, false), l, r) == Boolean(!h.looseEqual(l, r))
  {
  }

  // ----- the simplest texts -----

  lemma Unpadded(h: Host, vals: Value, e: Expr)
    requires WellFormed(e)
    ensures Resolve(h, vals, Print(e)) == Eval(h, vals, e)
  {
    hide WellFormed, Print, Eval, Resolve;
    ResolvePrint(h, vals, "", e, "");
    assert "" + Print(e) + "" == Print(e);
  }

  lemma WordsRead(h: Host, vals: Value)
    ensures Resolve(h, vals, "true") == Boolean(true) && Resolve(h, vals, "false") == Boolean(false)
    ensures Resolve(h, vals, "null") == Null && Resolve(h, vals, "undefined") == Undefined
  {
    hide Resolve, IsIdent;
    forall w | w in {"true", "false", "null", "undefined"}
      ensures Resolve(h, vals, w) == Eval(h, vals, Name(w))
    {
      IdentIff(w);
      Unpadded(h, vals, Name(w));
    }
  }

  /** Any other name is looked up in the values; on null and on undefined nothing is found. */
  lemma NameReads(h: Host, vals: Value, n: string)
    requires Identifier(n) && n !in {"true", "false", "null", "undefined"}
    ensures Resolve(h, vals, n) == if vals.Null? || vals.Undefined? then Undefined else h.get(vals, String(n))
  {
    hide Resolve, IsIdent;
    IdentIff(n);
    Unpadded(h, vals, Name(n));
  }

  lemma NumberReads(h: Host, vals: Value, sign: string, whole: string, fraction: string)
    requires Numeral(sign, whole, fraction)
    ensures Resolve(h, vals, sign + whole + fraction) == Number(sign + whole + fraction)
  {
    hide Resolve, IsNumber;
    NumeralIsNumber(sign, whole, fraction);
    Unpadded(h, vals, Expr.Numeral(sign + whole + fraction));
  }

  /** Text between two like quotes, single or double. */
  lemma TextReads(h: Host, vals: Value, t: string)
    requires forall c :: c in t ==> c != '(' && c != ')' && c != '[' && c != ']' && c != '=' && c != '!'
    ensures Resolve(h, vals, "\"" + t + "\"") == String(t) && Resolve(h, vals, "'" + t + "'") == String(t)
  {
    hide Resolve, Balanced;
    assert forall i :: 0 <= i < |t| ==> t[i] in t;
    BracketFreeBalanced(t, Round);
    BracketFreeBalanced(t, Square);
    assert Readable(t) by {
      assert forall i: nat :: !FreshOperator(t, i);
    }
    Unpadded(h, vals, Quoted('"', t));
    Unpadded(h, vals, Quoted('\'', t));
  }

  // ----- what reads as undefined -----

  lemma {:induction false} TrimBlank(s: string)
    requires AllSpace(s)
    ensures Trim(s) == ""
  {
    if s != "" {
      TrimBlank(s[1..]);
    }
  }

  lemma BlankReads(h: Host, vals: Value, s: string)
    requires AllSpace(s)
    ensures Resolve(h, vals, s) == Undefined
  {
    TrimBlank(s);
    ResolveBlank(h, vals, s);
  }

  /** Text whose reading is left to the path scan. */
  lemma LeftToPath(h: Host, vals: Value, s: string)
    requires Tight(s) && !Wrapped(s) && s[0] != '!' && LiteralValue(s) == None
    requires forall i: nat :: OperatorAt(s, i) ==> !EqualityAt(s, i)
    ensures Resolve(h, vals, s) == ResolvePath(h, vals, s)
  {
    hide Wrapped, LiteralValue, Trim, Depth, OperatorAt, Resolve, ResolvePath;
    TightTrim(s);
    NoOperator(s);
    ResolveRest(h, vals, s, s);
  }

  /** Text that starts no name and is no group, negation, comparison, number or quotation. */
  lemma JunkReads(h: Host, vals: Value, s: string)
    requires Tight(s) && !Letter(s[0]) && s[0] != '!' && (s[0] == '(' ==> s[|s| - 1] != ')')
    requires forall c :: c in s ==> c != '='
    requires forall sign, whole, fraction :: Numeral(sign, whole, fraction) ==> s != sign + whole + fraction
    requires s[0] == '"' || s[0] == '\'' ==> |s| == 1 || s[|s| - 1] != s[0]
    ensures Resolve(h, vals, s) == Undefined
  {
    hide IsNumber, Resolve, ResolvePath, Trim, Depth, Space;
    NumberIff(s);
    if s in WORDS {
      WordChars(s);
    }
    assert forall i :: 0 <= i < |s| ==> s[i] in s;
    LeftToPath(h, vals, s);
    IdentPrefix(s);
    PathUnfolds(h, vals, s);
  }

  /** What follows a path and continues it in no way: no name after the dot, or no dot or bracket first. */
  predicate Stray(t: string) {
    && t != "" && !Space(t[|t| - 1]) && !IdentPart(t[0]) && t[0] != '['
    && (forall c :: c in t ==> c != '=')
    && (t[0] == '.' ==> |t| == 1 || !IdentPart(t[1]))
  }

  lemma StrayParts(front: string, t: string)
    requires Quiet(front) && Depth(front, Either) == 0 && t != "" && Quiet(t) && t[0] != '='
    ensures forall i: nat :: OperatorAt(front + t, i) ==> !EqualityAt(front + t, i)
  {
    hide Depth, Trim;
    QuietConcat(front, t);
  }

  /** A path's text followed by text that is not its own. */
  lemma PathThenText(h: Host, vals: Value, e: Expr, t: string)
    requires WellFormed(e) && IsPath(e) && t != "" && !IdentPart(t[0]) && t[0] != '=' && !Space(t[|t| - 1]) && Quiet(t)
    ensures var s := Print(e) + t; Resolve(h, vals, s) == Follow(h, vals, s, Reach(h, vals, e), |Print(e)|)
  {
    hide Resolve, ResolvePath, Follow, Reach, Print, WellFormed, IsNumber, Depth, Space, Trim, OperatorAt, EqualityAt;
    var front, s := Print(e), Print(e) + t;
    PrintEdges(e);
    PrintQuiet(e);
    PrintBalanced(e, Either);
    StrayParts(front, t);
    assert s[0] == front[0] && s[|front|] == t[0];
    if IsNumber(s) {
      NumberChars(s);
    }
    if s in WORDS {
      WordChars(s);
    }
    LeftToPath(h, vals, s);
    PathSteps(h, vals, e, t);
  }

  lemma StrayReads(h: Host, vals: Value, e: Expr, t: string)
    requires WellFormed(e) && IsPath(e) && Stray(t)
    ensures Resolve(h, vals, Print(e) + t) == Undefined
  {
    hide Resolve, Follow, Reach, Print, WellFormed, Run, Depth, Space;
    var s, i := Print(e) + t, |Print(e)|;
    assert t[0] in t && forall k :: 0 <= k < |t| ==> t[k] in t;
    assert Quiet(t);
    PathThenText(h, vals, e, t);
    FollowUnfolds(h, vals, s, Reach(h, vals, e), i);
    assert s[i] == t[0] && s[i + 1..] == t[1..];
  }

  lemma {:induction false} OpensOnly(t: string)
    requires forall i :: 0 <= i < |t| ==> t[i] != ')' && t[i] != ']'
    ensures Depth(t, Either) >= 0
  {
    if t != "" {
      OpensOnly(t[..|t| - 1]);
    }
  }

  lemma OpenedStaysOpen(t: string, i: nat)
    requires (forall c :: c in t ==> c != ')' && c != ']') && i <= |t|
    ensures Depth("[" + t[..i], Either) >= 1
  {
    DepthConcat("[", t[..i], Either);
    DepthOne('[', Either);
    assert forall j :: 0 <= j < |t| ==> t[j] in t;
    OpensOnly(t[..i]);
  }

  /** A bracket that is never closed. */
  lemma UnclosedReads(h: Host, vals: Value, e: Expr, t: string)
    requires WellFormed(e) && IsPath(e)
    requires (forall c :: c in t ==> c != ')' && c != ']') && (t != "" ==> !Space(t[|t| - 1]))
    ensures Resolve(h, vals, Print(e) + ("[" + t)) == Undefined
  {
    hide Resolve, Follow, Reach, Print, WellFormed, Run, Depth, Space;
    var open := "[" + t;
    var s, n := Print(e) + open, |Print(e)|;
    forall i: nat | FreshOperator(open, i)
      ensures Depth(open[..i], Either) != 0
    {
      assert open[..i] == "[" + t[..i - 1];
      OpenedStaysOpen(t, i - 1);
    }
    assert !Space('[') by {
      SpaceIff('[');
    }
    PathThenText(h, vals, e, open);
    FollowUnfolds(h, vals, s, Reach(h, vals, e), n);
    assert s[n] == '[' && s[n + 1..] == t;
    assert ClosingBracket(t) == None by {
      assert forall j :: 0 <= j < |t| ==> t[j] in t;
    }
  }
}
