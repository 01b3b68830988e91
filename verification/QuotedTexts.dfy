/**
 Which texts may stand between quotes: exactly those whose brackets balance and whose operators hide
 inside brackets, since the scanner counts and sees both without knowing about quotes.
 */
module QuotedTexts {
  import opened Wrappers
  import opened Expressions
  import opened ExpressionMeaning

  /** A tree of the grammar, whatever its quoted texts hold. */
  ghost predicate Shaped(e: Expr) {
    match e
    case Numeral(d) => IsNumber(d)
    case Quoted(q, _) => Quote(q)
    case Name(n) => IsIdent(n)
    case Member(o, m) => IsPath(o) && Shaped(o) && IsMemberName(m)
    case Index(o, l, k, r) => IsPath(o) && Shaped(o) && Shaped(k) && AllSpace(l) && AllSpace(r)
    case Group(l, x, r) => Shaped(x) && AllSpace(l) && AllSpace(r)
    case Not(l, x) => Shaped(x) && !x.Equal? && AllSpace(l)
    case Equal(_, a, l, r, b) => Shaped(a) && !a.Equal? && Shaped(b) && AllSpace(l) && AllSpace(r)
  }

  function Texts(e: Expr): set<string> {
    match e
    case Quoted(_, t) => {t}
    case Member(o, _) => Texts(o)
    case Index(o, _, k, _) => Texts(o) + Texts(k)
    case Group(_, x, _) => Texts(x)
    case Not(_, x) => Texts(x)
    case Equal(_, a, _, _, b) => Texts(a) + Texts(b)
    case _ => {}
  }

  /** Every host reads the tree's text, however padded, as the tree's value. */
  ghost predicate ReadsRight(e: Expr) {
    forall h: Host, vals: Value, pre: string, post: string :: AllSpace(pre) && AllSpace(post) ==>
      Resolve(h, vals, pre + Print(e) + post) == Eval(h, vals, e)
  }

  ghost predicate Misread(e: Expr) {
    exists h: Host, vals: Value :: Resolve(h, vals, Print(e)) != Eval(h, vals, e)
  }

  lemma MisreadIsWrong(e: Expr)
    requires Misread(e)
    ensures !ReadsRight(e)
  {
    hide Resolve, Eval, Print;
    var h: Host, vals: Value :| Resolve(h, vals, Print(e)) != Eval(h, vals, e);
    assert AllSpace("") && "" + Print(e) + "" == Print(e);
  }

  lemma {:induction false} ReadableIsWellFormed(e: Expr)
    requires Shaped(e) && forall t :: t in Texts(e) ==> Readable(t)
    ensures WellFormed(e)
  {
    hide Readable;
    match e
    case Member(o, _) => ReadableIsWellFormed(o);
    case Index(o, _, k, _) => ReadableIsWellFormed(o); ReadableIsWellFormed(k);
    case Group(_, x, _) => ReadableIsWellFormed(x);
    case Not(_, x) => ReadableIsWellFormed(x);
    case Equal(_, a, _, _, b) => ReadableIsWellFormed(a); ReadableIsWellFormed(b);
    case _ =>
  }

  // ----- what an unreadable text breaks -----

  lemma Untrimmed(s: string)
    requires s != "" && !Space(s[0])
    ensures Trim(s) != ""
  {
    hide Space;
    assert |TrimStart(s)| == |s|;
    assert TrimStart(s) == s;
    assert |TrimEnd(s)| > 0;
  }

  lemma QuoteIsTight(q: char)
    requires Quote(q)
    ensures !Space(q) && !IdentStart(q) && !Digit(q)
  {
  }

  lemma QuotedPrefix(q: char, t: string, rest: string, i: nat, k: Kind)
    requires Quote(q) && i <= |t|
    ensures ([q] + t + rest)[..i + 1] == [q] + t[..i] && Depth([q] + t[..i], k) == Depth(t[..i], k)
  {
    QuoteNeutral(q, k);
    DepthConcat([q], t[..i], k);
  }

  lemma Witness(h: Host, vals: Value, e: Expr)
    requires Resolve(h, vals, Print(e)) != Eval(h, vals, e)
    ensures Misread(e)
  {
    hide Resolve, Eval, Print;
  }

  function AnyHost(): Host {
    Host((v: Value, k: Value) => Undefined, (a: Value, b: Value) => true, (a: Value, b: Value) => true, (v: Value) => true)
  }

  lemma SplitIsBoolean(h: Host, vals: Value, s: string)
    requires Tight(s) && !Wrapped(s) && TopLevelEquality(s).Some?
    ensures Resolve(h, vals, s).Boolean?
  {
    hide Depth, Space, WrapsWhole, EqualityAt, Trim, Resolve;
    TightTrim(s);
    ResolveOperator(h, vals, s, s, TopLevelEquality(s).value);
  }

  /** A text no earlier rule of the evaluator takes is read as a path. */
  lemma PathOrBoolean(h: Host, vals: Value, s: string)
    requires Tight(s) && !Wrapped(s) && s[0] != '!' && LiteralValue(s) == None
    ensures Resolve(h, vals, s).Boolean? || Resolve(h, vals, s) == ResolvePath(h, vals, s)
  {
    hide Depth, Space, WrapsWhole, EqualityAt, Trim, Resolve, ResolvePath, LiteralValue, Wrapped;
    if TopLevelEquality(s).Some? {
      SplitIsBoolean(h, vals, s);
    } else {
      TightTrim(s);
      ResolveRest(h, vals, s, s);
    }
  }

  /** A text that starts with neither a letter, a digit, a sign nor a quote is no literal and no path. */
  lemma NoLiteral(h: Host, vals: Value, s: string)
    requires s != "" && !IdentStart(s[0]) && !Digit(s[0]) && s[0] != '-'
    requires Quote(s[0]) ==> s[|s| - 1] != s[0]
    ensures LiteralValue(s) == None && ResolvePath(h, vals, s) == Undefined
  {
    hide Run;
    if s in WORDS {
      WordChars(s);
    }
    if IsNumber(s) {
      NumberChars(s);
    }
  }

  lemma LoudHasEquality(q: char, t: string)
    requires Quote(q) && !Quiet(t)
    ensures TopLevelEquality([q] + t + [q]).Some?
  {
    hide Depth, Space, Trim;
    var s := [q] + t + [q];
    var i: nat :| FreshOperator(t, i) && Depth(t[..i], Either) == 0;
    QuotedPrefix(q, t, [q], i, Either);
    QuoteIsTight(q);
    Untrimmed(s[..i + 1]);
    assert FreshOperator(s, i + 1);
    assert EqualityAt(s, i + 1);
  }

  lemma QuotedIsTight(q: char, t: string)
    requires Quote(q)
    ensures Tight([q] + t + [q]) && !Wrapped([q] + t + [q])
  {
    QuoteIsTight(q);
  }

  /** An operator outside brackets splits the literal itself. */
  lemma LoudLiteral(q: char, t: string)
    requires Quote(q) && !Quiet(t)
    ensures Misread(Quoted(q, t))
  {
    hide Depth, Space, TopLevelEquality, Resolve, Quiet, Tight, Wrapped;
    LoudHasEquality(q, t);
    QuotedIsTight(q, t);
    SplitIsBoolean(AnyHost(), Null, [q] + t + [q]);
    Witness(AnyHost(), Null, Quoted(q, t));
  }

  // ----- parentheses -----

  /** Where a text first closes what it never opened. */
  lemma {:induction false} Dip(t: string, i: nat, k: Kind) returns (j: nat)
    requires i <= |t| && Depth(t[..i], k) < 0
    ensures j < i && Depth(t[..j + 1], k) == -1 && Delta(t[j], k) == -1
  {
    assert t[..0] == "";
    DepthStep(t, i - 1, k);
    if Depth(t[..i - 1], k) < 0 {
      j := Dip(t, i - 1, k);
    } else {
      j := i - 1;
    }
  }

  lemma DippedGroup(q: char, t: string, i: nat)
    requires Quote(q) && i <= |t| && Depth(t[..i], Round) < 0
    ensures !WrapsWhole("(" + ("" + ([q] + t + [q]) + "") + ")")
  {
    hide Depth;
    var j := Dip(t, i, Round);
    var s := "(" + ("" + ([q] + t + [q]) + "") + ")";
    QuotedPrefix(q, t, [q], j + 1, Round);
    assert s[..j + 3] == "(" + ([q] + t[..j + 1]);
    DepthConcat("(", [q] + t[..j + 1], Round);
    DepthOne('(', Round);
    assert s[j + 2] == t[j] == ')';
    assert Depth(s[..(j + 2) + 1], Round) == 0;
  }

  /** A parenthesis closed too early ends the group around the literal. */
  lemma GroupBreaks(q: char, t: string, i: nat)
    requires Quote(q) && i <= |t| && Depth(t[..i], Round) < 0
    ensures Misread(Group("", Quoted(q, t), ""))
  {
    var e := Group("", Quoted(q, t), "");
    var s := Print(e);
    DippedGroup(q, t, i);
    assert Print(Quoted(q, t)) == [q] + t + [q];
    assert s == "(" + ("" + ([q] + t + [q]) + "") + ")";
    assert !Wrapped(s);
    assert s[0] == '(' && s[|s| - 1] == ')';
    hide Depth, Space, Resolve, ResolvePath, WrapsWhole, LiteralValue, Quote;
    ParenTight(s);
    NoLiteral(AnyHost(), Null, s);
    PathOrBoolean(AnyHost(), Null, s);
    Witness(AnyHost(), Null, e);
  }

  lemma ParenTight(s: string)
    requires |s| >= 2 && s[0] == '(' && s[|s| - 1] == ')'
    ensures Tight(s) && !IdentStart(s[0]) && !Digit(s[0]) && !Quote(s[0])
  {
  }

  // ----- square brackets -----

  /** A host under which every lookup on an object goes one object further. */
  function Counter(): Host {
    Host((v: Value, k: Value) => if v.Object? then Object(v.id + 1) else Undefined,
         (a: Value, b: Value) => true, (a: Value, b: Value) => true, (v: Value) => true)
  }

  predicate Beyond(v: Value) { v == Undefined || (v.Object? && v.id > 2) }

  /** A path that starts past the second object, or nowhere, comes out so. */
  lemma {:induction false} StaysBeyond(vals: Value, e: string, cur: Value, i: nat)
    requires i <= |e| && Beyond(cur)
    ensures Beyond(Follow(Counter(), vals, e, cur, i))
    decreases |e| - i
  {
    hide Resolve, Follow, NameLength, ClosingBracket;
    FollowUnfolds(Counter(), vals, e, cur, i);
    if i < |e| && e[i] == '.' && NameLength(e[i + 1..]) > 0 {
      var n := NameLength(e[i + 1..]);
      StaysBeyond(vals, e, Get(Counter(), cur, String(e[i + 1..i + 1 + n])), i + 1 + n);
    } else if i < |e| && e[i] == '[' && ClosingBracket(e[i + 1..]).Some? {
      var j := ClosingBracket(e[i + 1..]).value;
      StaysBeyond(vals, e, Get(Counter(), cur, Resolve(Counter(), vals, e[i + 1..i + 1 + j])), i + 1 + j + 1);
    }
  }

  /** From an unfinished position at the second object, a path comes out nowhere or further on. */
  lemma FollowGoesOn(vals: Value, e: string, i: nat)
    requires i < |e|
    ensures Beyond(Follow(Counter(), vals, e, Object(2), i))
  {
    hide Resolve, Follow, NameLength, ClosingBracket;
    FollowUnfolds(Counter(), vals, e, Object(2), i);
    if e[i] == '.' && NameLength(e[i + 1..]) > 0 {
      StaysBeyond(vals, e, Object(3), i + 1 + NameLength(e[i + 1..]));
    } else if e[i] == '[' && ClosingBracket(e[i + 1..]).Some? {
      StaysBeyond(vals, e, Object(3), i + 1 + ClosingBracket(e[i + 1..]).value + 1);
    }
  }

  lemma ClosesEarly(s: string, tail: string)
    requires !Balanced(s, Square)
    ensures var r := ClosingBracket(s + "]" + tail); r.None? || r.value != |s|
  {
    hide Depth;
    var whole := s + "]" + tail;
    if i :| 0 <= i <= |s| && Depth(s[..i], Square) < 0 {
      var j := Dip(s, i, Square);
      assert whole[..j + 1] == s[..j + 1];
      assert ClosesAt(whole, j);
    } else {
      assert whole[..|s| + 1] == s + "]";
      DepthConcat(s, "]", Square);
      DepthOne(']', Square);
    }
  }

  lemma QuotedUnbalanced(q: char, t: string, k: Kind)
    requires Quote(q) && !Balanced(t, k)
    ensures !Balanced([q] + t + [q], k)
  {
    hide Depth;
    var s := [q] + t + [q];
    if i :| 0 <= i <= |t| && Depth(t[..i], k) < 0 {
      QuotedPrefix(q, t, [q], i, k);
      assert Depth(s[..i + 1], k) < 0;
    } else {
      QuoteNeutral(q, k);
      DepthConcat([q] + t, [q], k);
      DepthConcat([q], t, k);
    }
  }

  function Keyed(q: char, t: string): Expr { Index(Name("a"), "", Quoted(q, t), "") }

  /** The bracket of the key closes too early or never. */
  lemma KeyGoesAstray(s: string)
    requires !Balanced(s, Square)
    ensures ResolvePath(Counter(), Object(0), "a[" + s + "]") != Object(2)
  {
    hide Depth, Balanced, Resolve, Follow, ResolvePath, ClosingBracket;
    var e := "a[" + s + "]";
    HeadOnly(s);
    PathUnfolds(Counter(), Object(0), e);
    assert e[2..] == s + "]" + "";
    assert e[1] == '[';
    FollowUnfolds(Counter(), Object(0), e, Object(1), 1);
    ClosesEarly(s, "");
    if ClosingBracket(e[2..]).Some? {
      FollowGoesOn(Object(0), e, 2 + ClosingBracket(e[2..]).value + 1);
    }
  }

  lemma HeadOnly(s: string)
    ensures IdentLength("a[" + s + "]") == 1
  {
    assert IsIdent("a");
    NameStops("a", "[" + s + "]");
    assert "a" + ("[" + s + "]") == "a[" + s + "]";
  }

  lemma KeyedIsNoLiteral(q: char, t: string)
    requires Quote(q)
    ensures var s := "a[" + ([q] + t + [q]) + "]"; Tight(s) && !Wrapped(s) && LiteralValue(s) == None
  {
    hide Run;
    var s := "a[" + ([q] + t + [q]) + "]";
    assert s[1] == '[';
    if s in WORDS {
      WordChars(s);
    }
    if IsNumber(s) {
      NumberChars(s);
    }
  }

  lemma KeyBreaks(q: char, t: string)
    requires Quote(q) && !Balanced(t, Square)
    ensures Misread(Keyed(q, t))
  {
    var e, text := Keyed(q, t), [q] + t + [q];
    var s := "a[" + text + "]";
    assert Print(Name("a")) == "a" && Print(Quoted(q, t)) == text;
    assert Print(e) == s;
    assert Reach(Counter(), Object(0), Name("a")) == Object(1);
    assert Eval(Counter(), Object(0), e) == Object(2);
    hide Depth, Balanced, Resolve, ResolvePath, LiteralValue, Wrapped, Tight, Eval, Print;
    QuotedUnbalanced(q, t, Square);
    KeyGoesAstray(text);
    KeyedIsNoLiteral(q, t);
    PathOrBoolean(Counter(), Object(0), s);
    Witness(Counter(), Object(0), e);
  }

  // ----- an open parenthesis -----

  function Compared(q: char, t: string): Expr { Equal(Op(false, true), Quoted(q, t), "", "", Numeral("1")) }

  /** Left at another depth than it was entered, the literal hides the operator after it. */
  lemma OperatorHidden(q: char, t: string)
    requires Quote(q) && Quiet(t) && Depth(t, Either) != 0
    ensures TopLevelEquality([q] + t + [q] + "===1") == None
  {
    hide Depth, Trim, Space;
    var s := [q] + t + [q] + "===1";
    forall i: nat
      ensures !EqualityAt(s, i)
    {
      if 1 <= i < |t| + 1 {
        assert s == [q] + t + ([q] + "===1");
        QuotedPrefix(q, t, [q] + "===1", i - 1, Either);
        assert FreshOperator(s, i) ==> i + 1 < |t| + 1 && FreshOperator(t, i - 1);
      } else if |t| + 2 <= i < |s| {
        PastQuoted(q, t, "===1", i - |t| - 2);
      }
    }
  }

  lemma PastQuoted(q: char, t: string, rest: string, j: nat)
    requires Quote(q) && j <= |rest| && forall i :: 0 <= i < |rest| ==> !Bracket(rest[i])
    ensures Depth(([q] + t + [q] + rest)[..|t| + 2 + j], Either) == Depth(t, Either)
  {
    hide Depth;
    QuoteNeutral(q, Either);
    BracketFree(rest[..j], Either);
    assert ([q] + t + [q] + rest)[..|t| + 2 + j] == [q] + t + [q] + rest[..j];
    DepthConcat([q] + t + [q], rest[..j], Either);
    DepthConcat([q] + t, [q], Either);
    DepthConcat([q], t, Either);
  }

  lemma ComparedText(q: char, t: string)
    requires Quote(q)
    ensures Print(Compared(q, t)) == [q] + t + [q] + "===1" && IsNumber("1")
    ensures var s := [q] + t + [q] + "===1"; Tight(s) && !Wrapped(s) && !IdentStart(s[0]) && !Digit(s[0]) && s[0] != '-' && s[0] == q && s[|s| - 1] == '1' != q
  {
    assert Print(Quoted(q, t)) == [q] + t + [q];
    assert Op(false, true).Text() == "===";
    assert Print(Numeral("1")) == "1";
    assert [q] + t + [q] + "" + "===" + ("" + "1") == [q] + t + [q] + "===1";
    assert "1"[..1] == "1" && Run("1", Digit) == 1;
  }

  lemma ComparisonBreaks(q: char, t: string)
    requires Quote(q) && Quiet(t) && Depth(t, Either) != 0
    ensures Misread(Compared(q, t))
  {
    var e, s := Compared(q, t), [q] + t + [q] + "===1";
    assert Eval(AnyHost(), Null, e).Boolean?;
    hide Depth, Resolve, ResolvePath, LiteralValue, Wrapped, Tight, Eval, Print, TopLevelEquality, Trim, Space, IsNumber;
    ComparedText(q, t);
    OperatorHidden(q, t);
    NoLiteral(AnyHost(), Null, s);
    TightTrim(s);
    ResolveRest(AnyHost(), Null, s, s);
    Witness(AnyHost(), Null, e);
  }

  // ----- the exact condition -----

  /** Whatever is wrong with a text, one of four small trees around it is misread. */
  lemma UnreadableBreaks(q: char, t: string) returns (e: Expr)
    requires Quote(q) && !Readable(t)
    ensures Shaped(e) && Texts(e) == {t} && Misread(e)
  {
    hide Depth, Quiet, Misread;
    if !Quiet(t) {
      e := Quoted(q, t);
      LoudLiteral(q, t);
    } else if i :| 0 <= i <= |t| && Depth(t[..i], Round) < 0 {
      e := Group("", Quoted(q, t), "");
      GroupBreaks(q, t, i);
    } else if !Balanced(t, Square) {
      e := Keyed(q, t);
      assert IsIdent("a");
      KeyBreaks(q, t);
    } else {
      e := Compared(q, t);
      EitherIsSum(t);
      ComparedText(q, t);
      ComparisonBreaks(q, t);
    }
  }

  /**
   The exact condition: every tree over these quoted texts is read as its value, by every host and
   under any padding, just when each text's brackets balance and its operators hide inside brackets.
   */
  lemma QuotedTextsIff(texts: set<string>)
    ensures (forall e: Expr :: Shaped(e) && Texts(e) <= texts ==> ReadsRight(e)) <==>
            forall t :: t in texts ==> Readable(t)
  {
    hide Readable, Shaped, Texts, Misread, WellFormed, Resolve, Eval, Print;
    if forall t :: t in texts ==> Readable(t) {
      forall e: Expr | Shaped(e) && Texts(e) <= texts
        ensures ReadsRight(e)
      {
        ReadableIsWellFormed(e);
        forall h: Host, vals: Value, pre: string, post: string | AllSpace(pre) && AllSpace(post)
          ensures Resolve(h, vals, pre + Print(e) + post) == Eval(h, vals, e)
        {
          ResolvePrint(h, vals, pre, e, post);
        }
      }
    } else {
      var t :| t in texts && !Readable(t);
      var e := UnreadableBreaks('"', t);
      MisreadIsWrong(e);
    }
  }
}
