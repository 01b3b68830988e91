/**
 Expression trees, their text and their value; the evaluator recovers the value from the text.
 */
module ExpressionMeaning {
  import opened Wrappers
  import opened Expressions

  /** An expression with the white space its text may carry between tokens. */
  datatype Expr =
    | Numeral(digits: string)
    | Quoted(quote: char, text: string)
    | Name(name: string)
    | Member(base: Expr, member: string)
    | Index(base: Expr, left: string, key: Expr, right: string)
    | Group(left: string, inner: Expr, right: string)
    | Not(left: string, inner: Expr)
    | Equal(op: Op, lhs: Expr, left: string, right: string, rhs: Expr)

  predicate IsIdent(s: string) { s != "" && IdentLength(s) == |s| }

  predicate IsMemberName(s: string) { s != "" && NameLength(s) == |s| }

  predicate Bracket(c: char) { c in {'(', ')', '[', ']'} }

  /** No prefix closes more brackets of the kind than it opened, and all that open close. */
  ghost predicate Balanced(s: string, k: Kind) {
    Depth(s, k) == 0 && forall i :: 0 <= i <= |s| ==> Depth(s[..i], k) >= 0
  }

  /** An operator's start, and not the tail of a longer run of `=` and `!`. */
  predicate FreshOperator(s: string, i: nat) {
    OperatorAt(s, i) && (i > 0 ==> s[i - 1] !in {'=', '!'})
  }

  /** No operator outside all brackets. */
  ghost predicate Quiet(s: string) {
    forall i: nat :: FreshOperator(s, i) ==> Depth(s[..i], Either) != 0
  }

  /** Text that can stand between quotes: the scanner counts its brackets and sees its operators. */
  ghost predicate Readable(s: string) {
    Balanced(s, Round) && Balanced(s, Square) && Quiet(s)
  }

  predicate IsPath(e: Expr) { e.Name? || e.Member? || e.Index? }

  ghost predicate WellFormed(e: Expr) {
    match e
    case Numeral(d) => IsNumber(d)
    case Quoted(q, t) => q in {'"', '\''} && Readable(t)
    case Name(n) => IsIdent(n)
    case Member(o, m) => IsPath(o) && WellFormed(o) && IsMemberName(m)
    case Index(o, l, k, r) => IsPath(o) && WellFormed(o) && WellFormed(k) && AllSpace(l) && AllSpace(r)
    case Group(l, x, r) => WellFormed(x) && AllSpace(l) && AllSpace(r)
    case Not(l, x) => WellFormed(x) && !x.Equal? && AllSpace(l)
    case Equal(_, a, l, r, b) => WellFormed(a) && !a.Equal? && WellFormed(b) && AllSpace(l) && AllSpace(r)
  }

  function Print(e: Expr): string {
    match e
    case Numeral(d) => d
    case Quoted(q, t) => [q] + t + [q]
    case Name(n) => n
    case Member(o, m) => Print(o) + ("." + m)
    case Index(o, l, k, r) => Print(o) + ("[" + (l + Print(k) + r) + "]")
    case Group(l, x, r) => "(" + (l + Print(x) + r) + ")"
    case Not(l, x) => "!" + l + Print(x)
    case Equal(op, a, l, r, b) => Print(a) + l + op.Text() + (r + Print(b))
  }

  /** The value of a reserved word. */
  function Reserved(name: string): Option<Value> {
    match name
    case "true" => Some(Boolean(true))
    case "false" => Some(Boolean(false))
    case "null" => Some(Null)
    case "undefined" => Some(Undefined)
    case _ => None
  }

  /** A property of a value; nothing is a property of null or undefined. */
  function Property(h: Host, v: Value, key: Value): Value {
    match v
    case Undefined => Undefined
    case Null => Undefined
    case _ => h.get(v, key)
  }

  /** A name standing alone may be a reserved word; anywhere in a path it is a property. */
  function Eval(h: Host, vals: Value, e: Expr): Value
    decreases e, 1
  {
    match e
    case Numeral(d) => Number(d)
    case Quoted(_, t) => String(t)
    case Name(n) => if Reserved(n).Some? then Reserved(n).value else Reach(h, vals, e)
    case Group(_, x, _) => Eval(h, vals, x)
    case Not(_, x) => Boolean(!h.truthy(Eval(h, vals, x)))
    case Equal(op, a, _, _, b) =>
      var l, r := Eval(h, vals, a), Eval(h, vals, b);
      Boolean((if op.strict then h.strictEqual(l, r) else h.looseEqual(l, r)) != op.negated)
    case _ => Reach(h, vals, e)
  }

  /** The value a path leads to. */
  function Reach(h: Host, vals: Value, e: Expr): Value
    decreases e, 0
  {
    match e
    case Name(n) => Property(h, vals, String(n))
    case Member(o, m) => Property(h, Reach(h, vals, o), String(m))
    case Index(o, _, k, _) => Property(h, Reach(h, vals, o), Eval(h, vals, k))
    case _ => Undefined
  }

  lemma WordsReserved(name: string)
    ensures name in WORDS <==> Reserved(name).Some?
    ensures name in WORDS ==> WORDS[name] == Reserved(name).value
  {
  }

  // ----- depth of concatenations -----

  lemma {:induction false} DepthConcat(a: string, b: string, k: Kind)
    ensures Depth(a + b, k) == Depth(a, k) + Depth(b, k)
  {
    if b == "" {
      assert a + b == a;
    } else {
      assert (a + b)[..|a + b| - 1] == a + b[..|b| - 1];
      DepthConcat(a, b[..|b| - 1], k);
    }
  }

  lemma PrefixDepth(a: string, b: string, i: nat, k: Kind)
    requires i <= |a + b|
    ensures i <= |a| ==> (a + b)[..i] == a[..i]
    ensures i >= |a| ==> Depth((a + b)[..i], k) == Depth(a, k) + Depth(b[..i - |a|], k)
  {
    if i >= |a| {
      assert (a + b)[..i] == a + b[..i - |a|];
      DepthConcat(a, b[..i - |a|], k);
    }
  }

  lemma BalancedConcat(a: string, b: string, k: Kind)
    requires Balanced(a, k) && Balanced(b, k)
    ensures Balanced(a + b, k)
  {
    DepthConcat(a, b, k);
    forall i | 0 <= i <= |a + b|
      ensures Depth((a + b)[..i], k) >= 0
    {
      PrefixDepth(a, b, i, k);
    }
  }

  lemma {:induction false} BracketFree(s: string, k: Kind)
    requires forall i :: 0 <= i < |s| ==> !Bracket(s[i])
    ensures Depth(s, k) == 0
  {
    if s != "" {
      BracketFree(s[..|s| - 1], k);
      assert !Bracket(s[|s| - 1]);
    }
  }

  lemma BracketFreeBalanced(s: string, k: Kind)
    requires forall i :: 0 <= i < |s| ==> !Bracket(s[i])
    ensures Balanced(s, k)
  {
    BracketFree(s, k);
    forall i | 0 <= i <= |s|
      ensures Depth(s[..i], k) >= 0
    {
      BracketFree(s[..i], k);
    }
  }

  /** Inside an enclosing pair of the kind the depth stays positive. */
  lemma Enclosed(open: char, s: string, close: char, i: nat, k: Kind)
    requires Balanced(s, k) && 1 <= i <= |s| + 1 && Delta(open, k) + Delta(close, k) == 0
    ensures var t := [open] + s + [close];
            t[..i] == [open] + s[..i - 1] && Depth(t[..i], k) >= Delta(open, k) && Depth(t, k) == 0
  {
    var t := [open] + s + [close];
    assert t[..i] == [open] + s[..i - 1];
    DepthConcat([open], s[..i - 1], k);
    DepthConcat([open] + s, [close], k);
    DepthConcat([open], s, k);
    DepthOne(open, k);
    DepthOne(close, k);
  }

  lemma DepthOne(c: char, k: Kind)
    ensures Depth([c], k) == Delta(c, k)
  {
    assert [c][..0] == "";
  }

  lemma EnclosedBalanced(open: char, s: string, close: char, k: Kind)
    requires Balanced(s, k) && Delta(open, k) >= 0 && Delta(open, k) + Delta(close, k) == 0
    ensures Balanced([open] + s + [close], k)
  {
    var t := [open] + s + [close];
    Enclosed(open, s, close, 1, k);
    forall i | 0 <= i <= |t|
      ensures Depth(t[..i], k) >= 0
    {
      if i == |t| {
        assert t[..i] == t;
      } else if i >= 1 {
        Enclosed(open, s, close, i, k);
      }
    }
  }

  // ----- what printed text looks like -----

  lemma IdentChars(s: string)
    requires IsIdent(s) || IsMemberName(s)
    ensures forall i :: 0 <= i < |s| ==> IdentPart(s[i])
  {
  }

  lemma UnsignedChars(t: string)
    requires var n := Run(t, Digit);
             n > 0 && (n == |t| || (t[n] == '.' && n + 1 < |t| && Run(t[n + 1..], Digit) == |t| - n - 1))
    ensures t != "" && Digit(t[0]) && Digit(t[|t| - 1])
    ensures forall i :: 0 <= i < |t| ==> Digit(t[i]) || t[i] == '.'
  {
    hide Run;
    var n := Run(t, Digit);
    if n < |t| {
      var u := t[n + 1..];
      assert forall i :: 0 <= i < |u| ==> Digit(u[i]);
      assert forall i :: n + 1 <= i < |t| ==> t[i] == u[i - n - 1];
    }
  }

  lemma NumberChars(s: string)
    requires IsNumber(s)
    ensures s != "" && (Digit(s[0]) || s[0] == '-') && Digit(s[|s| - 1])
    ensures forall i :: 0 <= i < |s| ==> Digit(s[i]) || s[i] in {'-', '.'}
  {
    hide Run;
    if s[0] == '-' {
      UnsignedChars(s[1..]);
      assert forall i :: 1 <= i < |s| ==> s[i] == s[1..][i - 1];
    } else {
      UnsignedChars(s);
    }
  }

  /** The characters of a word, a number or a name. */
  predicate Plain(c: char) { IdentPart(c) || c == '-' || c == '.' }

  /** Printed text is nonempty, without outer white space, and no operator can begin or end at its edges. */
  ghost predicate Edges(s: string) {
    Tight(s) && s[0] != '=' && s[|s| - 1] !in {'=', '!'}
  }

  lemma {:induction false} PrintEdges(e: Expr)
    requires WellFormed(e)
    ensures Edges(Print(e))
    ensures Print(e)[0] == '(' && !e.Equal? ==> e.Group?
    ensures Print(e)[0] == '!' && !e.Equal? ==> e.Not?
    ensures IsPath(e) ==> IdentStart(Print(e)[0])
  {
    hide Run, NameLength, IsNumber, Readable, IdentLength, Edges, IdentStart, Space;
    match e
    case Numeral(_) => AtomEdges(e);
    case Quoted(_, _) => AtomEdges(e);
    case Name(_) => AtomEdges(e);
    case Member(o, m) =>
      PrintEdges(o);
      MemberEnds(m);
      EdgesConcat(Print(o), "." + m);
      StartChars(Print(e)[0]);
    case Index(o, l, k, r) =>
      PrintEdges(o);
      BracketEnds('[', l + Print(k) + r, ']');
      EdgesConcat(Print(o), "[" + (l + Print(k) + r) + "]");
      StartChars(Print(e)[0]);
    case Group(l, x, r) => BracketEnds('(', l + Print(x) + r, ')');
    case Not(l, x) =>
      PrintEdges(x);
      BracketEnds('!', l, '.');
      EdgesConcat("!" + l, Print(x));
    case Equal(op, a, l, r, b) =>
      PrintEdges(a);
      PrintEdges(b);
      EqualEdges(Print(a), l + op.Text(), r, Print(b));
      assert Print(e) == Print(a) + (l + op.Text()) + (r + Print(b));
  }

  lemma EqualEdges(a: string, op: string, r: string, b: string)
    requires Edges(a) && Edges(b)
    ensures Edges(a + op + (r + b))
  {
    hide Edges;
    EdgesStart(a, op + r);
    assert a + (op + r) == a + op + r;
    EdgesConcat(a + op + r, b);
    assert a + op + r + b == a + op + (r + b);
  }

  ghost predicate StartsWell(s: string) {
    s != "" && !Space(s[0]) && s[0] != '='
  }

  ghost predicate EndsWell(s: string) {
    s != "" && !Space(s[|s| - 1]) && s[|s| - 1] !in {'=', '!'}
  }

  lemma EdgesStart(a: string, b: string)
    requires Edges(a)
    ensures StartsWell(a + b) && (a + b)[0] == a[0]
  {
  }

  lemma EdgesConcat(a: string, b: string)
    requires StartsWell(a) || Edges(a)
    requires EndsWell(b) || Edges(b)
    ensures Edges(a + b) && (a + b)[0] == a[0]
  {
  }

  lemma BracketEnds(open: char, inner: string, close: char)
    requires open in {'(', '[', '!'} && close in {')', ']', '.'}
    ensures StartsWell([open] + inner) && EndsWell(inner + [close])
    ensures Edges([open] + inner + [close]) || open == '!'
    ensures EndsWell([open] + inner + [close])
  {
  }

  lemma MemberEnds(m: string)
    requires IsMemberName(m)
    ensures EndsWell("." + m)
  {
    IdentChars(m);
    assert ("." + m)[|m|] == m[|m| - 1];
  }

  lemma StartChars(c: char)
    requires IdentStart(c)
    ensures c != '(' && c != '!'
  {
  }

  lemma AtomEdges(e: Expr)
    requires WellFormed(e) && (e.Numeral? || e.Quoted? || e.Name?)
    ensures Edges(Print(e)) && Print(e)[0] != '(' && Print(e)[0] != '!'
    ensures e.Name? ==> IdentStart(Print(e)[0])
  {
    hide Run, IsNumber, Readable;
    match e
    case Numeral(d) => NumberChars(d);
    case Quoted(_, _) =>
    case Name(n) => IdentChars(n);
  }

  lemma SpacesBalanced(l: string, s: string, r: string, k: Kind)
    requires AllSpace(l) && AllSpace(r) && Balanced(s, k)
    ensures Balanced(l + s + r, k)
  {
    BracketFreeBalanced(l, k);
    BracketFreeBalanced(r, k);
    BalancedConcat(l, s, k);
    BalancedConcat(l + s, r, k);
  }

  lemma {:induction false} PrintBalanced(e: Expr, k: Kind)
    requires WellFormed(e)
    ensures Balanced(Print(e), k)
  {
    hide Run, NameLength, IdentLength, IsNumber, Depth, Balanced, Eval, Reach;
    match e
    case Numeral(d) => NumberChars(d); BracketFreeBalanced(d, k);
    case Quoted(q, t) => QuotedBalanced(q, t, k);
    case Name(n) => IdentChars(n); BracketFreeBalanced(n, k);
    case Member(o, m) =>
      PrintBalanced(o, k);
      IdentChars(m);
      BracketFreeBalanced("." + m, k);
      BalancedConcat(Print(o), "." + m, k);
    case Index(o, l, x, r) =>
      PrintBalanced(o, k);
      PrintBalanced(x, k);
      SpacesBalanced(l, Print(x), r, k);
      var keyed := "[" + (l + Print(x) + r) + "]";
      EnclosedBalanced('[', l + Print(x) + r, ']', k);
      BalancedConcat(Print(o), keyed, k);
    case Group(l, x, r) =>
      PrintBalanced(x, k);
      SpacesBalanced(l, Print(x), r, k);
      EnclosedBalanced('(', l + Print(x) + r, ')', k);
    case Not(l, x) =>
      PrintBalanced(x, k);
      BracketFreeBalanced("!" + l, k);
      BalancedConcat("!" + l, Print(x), k);
    case Equal(op, a, l, r, b) =>
      PrintBalanced(a, k);
      PrintBalanced(b, k);
      SpacesBalanced("", Print(a), l, k);
      SpacesBalanced(r, Print(b), "", k);
      BracketFreeBalanced(op.Text(), k);
      assert "" + Print(a) + l == Print(a) + l;
      assert r + Print(b) + "" == r + Print(b);
      BalancedConcat(Print(a) + l, op.Text(), k);
      BalancedConcat(Print(a) + l + op.Text(), r + Print(b), k);
  }

  // ----- no operator shows at the top level of an operand -----

  lemma QuietConcat(a: string, b: string)
    requires Quiet(a) && Quiet(b) && Depth(a, Either) == 0
    requires a == "" || b == "" || a[|a| - 1] !in {'=', '!'} || b[0] != '='
    ensures Quiet(a + b)
  {
    hide Depth;
    forall i: nat | FreshOperator(a + b, i)
      ensures Depth((a + b)[..i], Either) != 0
    {
      PrefixDepth(a, b, i, Either);
      if i < |a| {
        assert i + 1 < |a|;
        assert FreshOperator(a, i);
      } else {
        assert FreshOperator(b, i - |a|);
      }
    }
  }

  lemma QuietEnclosed(open: char, s: string, close: char)
    requires Balanced(s, Either) && Delta(open, Either) == 1 && Delta(close, Either) == -1
    ensures Quiet([open] + s + [close])
  {
    hide Depth;
    var t := [open] + s + [close];
    forall i: nat | FreshOperator(t, i)
      ensures Depth(t[..i], Either) != 0
    {
      assert i >= 1 && i + 1 < |t|;
      Enclosed(open, s, close, i, Either);
    }
  }

  predicate Quote(q: char) { q in {'"', '\''} }

  lemma QuoteNeutral(q: char, k: Kind)
    requires Quote(q)
    ensures Delta(q, k) == 0 && Quiet([q]) && Balanced([q], k)
  {
    BracketFreeBalanced([q], k);
  }

  lemma QuotedQuiet(q: char, t: string)
    requires Quote(q) && Quiet(t) && Depth(t, Either) == 0
    ensures Quiet([q] + t + [q])
  {
    QuoteNeutral(q, Either);
    DepthConcat([q], t, Either);
    hide Depth, Quiet;
    QuietConcat([q], t);
    QuietConcat([q] + t, [q]);
  }

  lemma {:induction false} EitherIsSum(s: string)
    ensures Depth(s, Either) == Depth(s, Round) + Depth(s, Square)
  {
    if s != "" {
      EitherIsSum(s[..|s| - 1]);
    }
  }

  lemma ReadableBalanced(t: string, k: Kind)
    requires Readable(t)
    ensures Balanced(t, k)
  {
    if k == Either {
      EitherIsSum(t);
      forall i | 0 <= i <= |t|
        ensures Depth(t[..i], Either) >= 0
      {
        EitherIsSum(t[..i]);
      }
    }
  }

  lemma QuotedBalanced(q: char, t: string, k: Kind)
    requires Quote(q) && Readable(t)
    ensures Balanced([q] + t + [q], k)
  {
    QuoteNeutral(q, k);
    ReadableBalanced(t, k);
    EnclosedBalanced(q, t, q, k);
  }

  lemma {:induction false} PrintQuiet(e: Expr)
    requires WellFormed(e) && !e.Equal?
    ensures Quiet(Print(e))
  {
    hide Depth, Run, NameLength, IdentLength, IsNumber, Eval, Reach;
    match e
    case Numeral(d) => NumberChars(d);
    case Quoted(q, t) =>
      ReadableBalanced(t, Either);
      QuotedQuiet(q, t);
    case Name(n) => IdentChars(n);
    case Member(o, m) =>
      PrintQuiet(o);
      PrintEdges(o);
      PrintBalanced(o, Either);
      IdentChars(m);
      QuietConcat(Print(o), "." + m);
    case Index(o, l, x, r) =>
      PrintQuiet(o);
      PrintEdges(o);
      PrintBalanced(o, Either);
      PrintBalanced(x, Either);
      SpacesBalanced(l, Print(x), r, Either);
      QuietEnclosed('[', l + Print(x) + r, ']');
      QuietConcat(Print(o), "[" + (l + Print(x) + r) + "]");
    case Group(l, x, r) =>
      PrintBalanced(x, Either);
      SpacesBalanced(l, Print(x), r, Either);
      QuietEnclosed('(', l + Print(x) + r, ')');
    case Not(l, x) =>
      PrintQuiet(x);
      PrintEdges(x);
      BracketFreeBalanced("!" + l, Either);
      QuietConcat("!" + l, Print(x));
  }

  // ----- what the scanner finds -----

  lemma NoEquality(e: Expr)
    requires WellFormed(e) && !e.Equal?
    ensures TopLevelEquality(Print(e)) == None
  {
    hide Depth, Print, WellFormed, Trim;
    PrintQuiet(e);
  }

  lemma PrintParts(e: Expr)
    requires WellFormed(e) && e.Equal?
    ensures WellFormed(e.lhs) && WellFormed(e.rhs) && !e.lhs.Equal? && AllSpace(e.left) && AllSpace(e.right)
    ensures Print(e) == Print(e.lhs) + e.left + e.op.Text() + (e.right + Print(e.rhs))
  {
  }

  /** What stands before the operator. */
  lemma FrontFacts(e: Expr)
    requires WellFormed(e) && e.Equal?
    ensures var front := Print(e.lhs) + e.left;
            && Quiet(front) && Depth(front, Either) == 0 && Trim(front) != ""
            && front != "" && front[|front| - 1] !in {'=', '!'}
  {
    hide Depth, Trim, WellFormed, Print, OperatorAt;
    PrintParts(e);
    PrintQuiet(e.lhs);
    PrintEdges(e.lhs);
    PrintBalanced(e.lhs, Either);
    BracketFreeBalanced(e.left, Either);
    DepthConcat(Print(e.lhs), e.left, Either);
    assert Quiet(e.left) by {
      SpacesQuiet(e.left);
    }
    QuietConcat(Print(e.lhs), e.left);
    TrimPadded("", Print(e.lhs), e.left);
    assert "" + Print(e.lhs) + e.left == Print(e.lhs) + e.left;
  }

  lemma SpacesQuiet(s: string)
    requires AllSpace(s)
    ensures Quiet(s)
  {
    hide Depth;
  }

  /** The operator of an unparenthesised equality is the one found, and it splits the two operands. */
  lemma EqualityFound(e: Expr)
    requires WellFormed(e) && e.Equal?
    ensures TopLevelEquality(Print(e)) == Some(|Print(e.lhs) + e.left|)
    ensures OperatorAt(Print(e), |Print(e.lhs) + e.left|) && OpOf(Print(e), |Print(e.lhs) + e.left|) == e.op
  {
    hide Depth, Trim, WellFormed, Print, Quiet;
    var s, front := Print(e), Print(e.lhs) + e.left;
    PrintParts(e);
    FrontFacts(e);
    PrintEdges(e.rhs);
    var back := e.right + Print(e.rhs);
    assert back[0] != '=';
    assert s == front + (e.op.Text() + back);
    OperatorFound(front, e.op, back);
  }

  lemma BeforeOperator(front: string, rest: string, i: nat)
    requires Quiet(front) && i < |front| && front[|front| - 1] !in {'=', '!'}
    ensures !EqualityAt(front + rest, i)
  {
    hide Depth, Trim;
    assert (front + rest)[..i] == front[..i];
    assert FreshOperator(front + rest, i) ==> FreshOperator(front, i);
  }

  lemma OperatorFound(front: string, op: Op, back: string)
    requires Quiet(front) && Depth(front, Either) == 0 && Trim(front) != ""
    requires front != "" && front[|front| - 1] !in {'=', '!'} && back != "" && back[0] != '='
    ensures var s := front + (op.Text() + back);
            TopLevelEquality(s) == Some(|front|) && OperatorAt(s, |front|) && OpOf(s, |front|) == op
  {
    hide Depth, Trim, Quiet;
    var s := front + (op.Text() + back);
    assert s[..|front|] == front;
    assert EqualityAt(s, |front|);
    hide EqualityAt;
    forall i: nat | i < |front|
      ensures !EqualityAt(s, i)
    {
      BeforeOperator(front, op.Text() + back, i);
    }
  }

  lemma GroupWraps(e: Expr)
    requires WellFormed(e) && e.Group?
    ensures WrapsWhole(Print(e))
  {
    hide Depth;
    var inner := e.left + Print(e.inner) + e.right;
    PrintBalanced(e.inner, Round);
    SpacesBalanced(e.left, Print(e.inner), e.right, Round);
    forall i | 0 <= i < |Print(e)| - 1 && Print(e)[i] == ')'
      ensures Depth(Print(e)[..i + 1], Round) != 0
    {
      Enclosed('(', inner, ')', i + 1, Round);
    }
  }

  /** Two parenthesised operands are not mistaken for one parenthesised expression. */
  lemma EqualNotWrapped(e: Expr)
    requires WellFormed(e) && e.Equal?
    ensures Print(e)[0] == '(' ==> !WrapsWhole(Print(e))
  {
    hide Depth, WellFormed;
    PrintParts(e);
    var s, front := Print(e), Print(e.lhs);
    PrintEdges(e.lhs);
    if s[0] == '(' {
      PrintBalanced(e.lhs, Round);
      assert s[..|front|] == front;
      assert s[|front| - 1] == front[|front| - 1] == ')';
    }
  }

  lemma RunStops(n: string, t: string, p: char -> bool)
    requires Run(n, p) == |n| && (t == "" || !p(t[0]))
    ensures Run(n + t, p) == |n|
  {
    hide Run;
    assert forall i :: 0 <= i < |n| ==> p(n[i]) && (n + t)[i] == n[i];
    assert t != "" ==> (n + t)[|n|] == t[0];
  }

  lemma NameStops(n: string, t: string)
    requires n != "" && (t == "" || !IdentPart(t[0]))
    ensures IsIdent(n) ==> IdentLength(n + t) == |n|
    ensures IsMemberName(n) ==> NameLength(n + t) == |n|
  {
    hide Run;
    if IdentLength(n) == |n| {
      RunStops(n, t, IdentPart);
    } else if IsMemberName(n) {
      RunStops(n, t, Digit);
    }
  }

  // ----- the evaluator gives the tree's value -----

  lemma InnerOf(open: char, inner: string, close: char)
    ensures var s := [open] + inner + [close]; |s| >= 2 && s[1..|s| - 1] == inner
  {
  }

  lemma ResolvePadded(h: Host, vals: Value, pre: string, s: string, post: string)
    requires AllSpace(pre) && AllSpace(post) && Tight(s)
    ensures Resolve(h, vals, pre + s + post) == Resolve(h, vals, s)
  {
    TrimPadded(pre, s, post);
    TrimPadded("", s, "");
    assert "" + s + "" == s;
    SameTrim(h, vals, pre + s + post, s);
  }

  lemma SameTrim(h: Host, vals: Value, a: string, b: string)
    requires Trim(a) == Trim(b)
    ensures Resolve(h, vals, a) == Resolve(h, vals, b)
  {
    hide Trim, WrapsWhole, OperatorAt, LiteralValue;
  }

  /** An operand read with the white space around it. */
  lemma ResolveOperand(h: Host, vals: Value, pre: string, e: Expr, post: string)
    requires WellFormed(e) && AllSpace(pre) && AllSpace(post)
    ensures Resolve(h, vals, pre + Print(e) + post) == Eval(h, vals, e)
    decreases e, 3
  {
    hide Resolve, Eval, Print, WellFormed;
    PrintEdges(e);
    ResolvePadded(h, vals, pre, Print(e), post);
    ResolveTight(h, vals, e);
  }

  lemma TightTrim(s: string)
    requires Tight(s)
    ensures Trim(s) == s
  {
    TrimPadded("", s, "");
    assert "" + s + "" == s;
  }

  lemma ResolveTight(h: Host, vals: Value, e: Expr)
    requires WellFormed(e)
    ensures Resolve(h, vals, Print(e)) == Eval(h, vals, e)
    decreases e, 2
  {
    hide Resolve, Print, Eval, WellFormed, OperatorAt, LiteralValue, Trim, WrapsWhole;
    if e.Group? {
      ResolveGroup(h, vals, e);
    } else if e.Not? {
      ResolveNot(h, vals, e);
    } else if e.Equal? {
      ResolveEqual(h, vals, e);
    } else {
      PrintEdges(e);
      TightTrim(Print(e));
      NoEquality(e);
      ResolveRest(h, vals, Print(e), Print(e));
      ResolveAtom(h, vals, e);
    }
  }

  lemma ResolveGroup(h: Host, vals: Value, e: Expr)
    requires WellFormed(e) && e.Group?
    ensures Resolve(h, vals, Print(e)) == Eval(h, vals, e)
    decreases e, 1
  {
    hide Resolve, Reach, OperatorAt, LiteralValue, Trim, WrapsWhole;
    PrintEdges(e);
    TightTrim(Print(e));
    GroupWraps(e);
    ResolveWrapped(h, vals, Print(e), Print(e));
    InnerOf('(', e.left + Print(e.inner) + e.right, ')');
    ResolveOperand(h, vals, e.left, e.inner, e.right);
  }

  lemma ResolveNot(h: Host, vals: Value, e: Expr)
    requires WellFormed(e) && e.Not?
    ensures Resolve(h, vals, Print(e)) == Eval(h, vals, e)
    decreases e, 1
  {
    hide Resolve, Reach, OperatorAt, LiteralValue, Trim, WrapsWhole, Print, WellFormed;
    PrintEdges(e);
    TightTrim(Print(e));
    NoEquality(e);
    NotParts(e);
    assert Print(e)[0] == '!';
    ResolveNegation(h, vals, Print(e), Print(e));
    assert Print(e)[1..] == e.left + Print(e.inner) + "";
    ResolveOperand(h, vals, e.left, e.inner, "");
  }

  lemma NotParts(e: Expr)
    requires WellFormed(e) && e.Not?
    ensures Print(e) == "!" + e.left + Print(e.inner) && WellFormed(e.inner) && AllSpace(e.left)
  {
  }

  lemma ResolveEqual(h: Host, vals: Value, e: Expr)
    requires WellFormed(e) && e.Equal?
    ensures Resolve(h, vals, Print(e)) == Eval(h, vals, e)
    decreases e, 1
  {
    hide Resolve, OperatorAt, LiteralValue, Trim, WrapsWhole, Print, WellFormed, OpOf;
    var s, i := Print(e), |Print(e.lhs) + e.left|;
    PrintEdges(e);
    TightTrim(Print(e));
    PrintParts(e);
    EqualNotWrapped(e);
    EqualityFound(e);
    ResolveOperator(h, vals, s, s, i);
    assert s[..i] == "" + Print(e.lhs) + e.left;
    assert s[i + |e.op.Text()|..] == e.right + Print(e.rhs) + "";
    ResolveOperand(h, vals, "", e.lhs, e.left);
    ResolveOperand(h, vals, e.right, e.rhs, "");
  }

  lemma ResolveAtom(h: Host, vals: Value, e: Expr)
    requires WellFormed(e) && (e.Numeral? || e.Quoted? || IsPath(e))
    ensures var s := Print(e);
            (match LiteralValue(s)
             case Some(v) => v
             case None => ResolvePath(h, vals, s)) == Eval(h, vals, e)
    decreases e, 1
  {
    hide Reach, ResolvePath, Follow, Run, NameLength, IdentLength, IsNumber;
    PrintEdges(e);
    if IsPath(e) {
      PathSteps(h, vals, e, "");
      assert Print(e) + "" == Print(e);
      FollowUnfolds(h, vals, Print(e), Reach(h, vals, e), |Print(e)|);
      PathNotLiteral(e);
      if e.Name? {
        WordsReserved(e.name);
      }
    } else if e.Numeral? {
      NumberChars(e.digits);
    } else {
      QuotedNotNumber(e.quote, e.text);
      InnerOf(e.quote, e.text, e.quote);
    }
  }

  lemma QuotedNotNumber(q: char, t: string)
    requires q in {'"', '\''}
    ensures !IsNumber([q] + t + [q]) && [q] + t + [q] !in WORDS
  {
    hide Run;
    var s := [q] + t + [q];
    assert s[0] == q;
    if IsNumber(s) {
      NumberChars(s);
    }
  }

  /** A path is a literal only when it is a lone reserved word. */
  lemma PathNotLiteral(e: Expr)
    requires WellFormed(e) && IsPath(e)
    ensures LiteralValue(Print(e)) ==
            if e.Name? && e.name in WORDS then Some(WORDS[e.name]) else None
  {
    hide Run, IdentLength, NameLength;
    PrintEdges(e);
    var s := Print(e);
    if IsNumber(s) {
      NumberChars(s);
    }
    if !e.Name? {
      PathHasPunctuation(e);
    }
  }

  lemma WordChars(w: string)
    requires w in WORDS
    ensures forall i :: 0 <= i < |w| ==> IdentPart(w[i])
  {
  }

  lemma PathHasPunctuation(e: Expr)
    requires WellFormed(e) && (e.Member? || e.Index?)
    ensures Print(e) !in WORDS
  {
    hide Run, IdentLength, NameLength, WORDS;
    var i := |Print(e.base)|;
    assert Print(e)[i] in {'.', '['};
    if Print(e) in WORDS {
      WordChars(Print(e));
    }
  }

  /** The scan along a path's text arrives, after the path, at the value the path leads to. */
  lemma PathSteps(h: Host, vals: Value, e: Expr, t: string)
    requires WellFormed(e) && IsPath(e) && (t == "" || !IdentPart(t[0]))
    ensures var s := Print(e) + t;
            ResolvePath(h, vals, s) == Follow(h, vals, s, Reach(h, vals, e), |Print(e)|)
    decreases e, 0, 1
  {
    hide Run, Resolve, ResolvePath, Follow;
    match e
    case Name(n) =>
      IdentChars(n);
      NameStops(n, t);
      PathUnfolds(h, vals, n + t);
      assert (n + t)[..|n|] == n;
    case Member(o, m) =>
      PathSteps(h, vals, o, "." + m + t);
      assert Print(e) + t == Print(o) + ("." + m + t);
      MemberStep(h, vals, o, m, t);
    case Index(_, _, _, _) => IndexSteps(h, vals, e, t);
  }

  lemma IndexParts(e: Expr)
    requires WellFormed(e) && e.Index?
    ensures WellFormed(e.base) && IsPath(e.base) && WellFormed(e.key) && AllSpace(e.left) && AllSpace(e.right)
    ensures Print(e) == Print(e.base) + ("[" + (e.left + Print(e.key) + e.right) + "]")
  {
  }

  lemma IndexSteps(h: Host, vals: Value, e: Expr, t: string)
    requires WellFormed(e) && e.Index? && (t == "" || !IdentPart(t[0]))
    ensures var s := Print(e) + t;
            ResolvePath(h, vals, s) == Follow(h, vals, s, Reach(h, vals, e), |Print(e)|)
    decreases e, 0, 0
  {
    hide Resolve, ResolvePath, Follow, Print, WellFormed, Balanced, ClosesAt;
    IndexParts(e);
    var key, front := e.left + Print(e.key) + e.right, Print(e.base);
    var s := Print(e) + t;
    assert s == front + ("[" + key + "]" + t);
    PathSteps(h, vals, e.base, "[" + key + "]" + t);
    PrintBalanced(e.key, Square);
    SpacesBalanced(e.left, Print(e.key), e.right, Square);
    ResolveOperand(h, vals, e.left, e.key, e.right);
    var i := |front|;
    FollowUnfolds(h, vals, s, Reach(h, vals, e.base), i);
    assert s[i + 1..] == key + ("]" + t);
    KeyCloses(key, t);
    assert s[i + 1..i + 1 + |key|] == key;
  }

  lemma MemberStep(h: Host, vals: Value, o: Expr, m: string, t: string)
    requires IsMemberName(m) && (t == "" || !IdentPart(t[0]))
    ensures var s := Print(o) + ("." + m + t);
            Follow(h, vals, s, Reach(h, vals, o), |Print(o)|) ==
            Follow(h, vals, s, Get(h, Reach(h, vals, o), String(m)), |Print(o) + ("." + m)|)
  {
    hide Run, Resolve, Follow, Print, Reach, NameLength, IdentLength;
    var s, i := Print(o) + ("." + m + t), |Print(o)|;
    FollowUnfolds(h, vals, s, Reach(h, vals, o), i);
    assert s[i + 1..] == m + t;
    NameStops(m, t);
    assert s[i + 1..i + 1 + |m|] == m;
  }

  lemma KeyCloses(key: string, t: string)
    requires Balanced(key, Square)
    ensures ClosingBracket(key + ("]" + t)) == Some(|key|)
  {
    hide Depth;
    var s := key + ("]" + t);
    assert s[..|key| + 1] == key + "]";
    DepthConcat(key, "]", Square);
    DepthOne(']', Square);
    assert ClosesAt(s, |key|);
    forall i: nat | i < |key|
      ensures !ClosesAt(s, i)
    {
      assert s[..i + 1] == key[..i + 1];
    }
  }

  /**
   Evaluating the text of any expression, with white space around any token and no more parentheses
   than the grammar asks for, gives the expression's value. Equalities group to the right.
   */
  lemma ResolvePrint(h: Host, vals: Value, pre: string, e: Expr, post: string)
    requires WellFormed(e) && AllSpace(pre) && AllSpace(post)
    ensures Resolve(h, vals, pre + Print(e) + post) == Eval(h, vals, e)
  {
    ResolveOperand(h, vals, pre, e, post);
  }

  lemma NoOperator(s: string)
    requires forall i: nat :: !EqualityAt(s, i)
    ensures TopLevelEquality(s) == None
  {
    hide EqualityAt;
  }

  lemma OpenParenHidesOperators(q: char, rest: string)
    requires q in {'"', '\''} && forall i :: 0 <= i < |rest| ==> !Bracket(rest[i])
    ensures forall i: nat :: !EqualityAt([q, '('] + rest, i)
  {
    hide Depth, Trim;
    var s := [q, '('] + rest;
    DepthConcat([q], ['('], Either);
    DepthOne(q, Either);
    DepthOne('(', Either);
    assert [q] + ['('] == [q, '('];
    forall i: nat
      ensures !EqualityAt(s, i)
    {
      if 2 <= i < |s| {
        PrefixDepth([q, '('], rest, i, Either);
        BracketFree(rest[..i - 2], Either);
      }
    }
  }

  /**
   The scanner does not know about quotes, which is why the brackets of quoted text must balance: an
   opening parenthesis inside the left operand's quotes hides the operator, and the whole comparison
   is read as one quoted string.
   */
  lemma BracketInQuotesHidesOperator(h: Host, vals: Value, q: char, op: Op, t: string)
    requires q in {'"', '\''} && forall i :: 0 <= i < |t| ==> !Bracket(t[i])
    ensures Resolve(h, vals, [q] + ("(" + [q] + op.Text() + [q] + t) + [q]) ==
            String("(" + [q] + op.Text() + [q] + t)
  {
    hide Resolve, WrapsWhole, Trim, IsNumber, Depth, EqualityAt, TopLevelEquality;
    var text := "(" + [q] + op.Text() + [q] + t;
    var s := [q] + text + [q];
    assert s == [q, '('] + ([q] + op.Text() + [q] + t + [q]);
    OpenParenHidesOperators(q, [q] + op.Text() + [q] + t + [q]);
    NoOperator(s);
    TrimPadded("", s, "");
    assert "" + s + "" == s;
    ResolveRest(h, vals, s, s);
    QuotedNotNumber(q, text);
    InnerOf(q, text, q);
  }
}
