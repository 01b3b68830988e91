/**
 The template expression evaluator: a recursive scanner over substrings, proved against the
 meaning of the expression tree whose text it is given.
 */
module Expressions {
  import opened Wrappers

  // ----- values -----

  /** Script values; a number is known by a literal that denotes it. */
  datatype Value = Undefined | Null | Boolean(b: bool) | Number(literal: string) | String(s: string) | Object(id: nat)

  /** What the script engine itself decides: property lookup, the two equalities, truthiness. */
  datatype Host = Host(get: (Value, Value) -> Value, strictEqual: (Value, Value) -> bool,
                       looseEqual: (Value, Value) -> bool, truthy: Value -> bool)

  /** `v == null ? void 0 : v[key]`. */
  function Get(h: Host, v: Value, key: Value): Value {
    if v.Undefined? || v.Null? then Undefined else h.get(v, key)
  }

  /** One of `==`, `!=`, `===` and `!==`. */
  datatype Op = Op(negated: bool, strict: bool) {
    function Text(): string {
      (if negated then "!" else "=") + (if strict then "==" else "=")
    }
  }

  function Compare(h: Host, op: Op, l: Value, r: Value): Value {
    match op
    case Op(false, true) => Boolean(h.strictEqual(l, r))
    case Op(true, true) => Boolean(!h.strictEqual(l, r))
    case Op(false, false) => Boolean(h.looseEqual(l, r))
    case Op(true, false) => Boolean(!h.looseEqual(l, r))
  }

  // ----- characters -----

  /** The white space and line terminators `trim` removes. */
  predicate Space(c: char) {
    || '\t' <= c <= '\r' || c == ' ' || c == '\U{A0}' || c == '\U{1680}' || '\U{2000}' <= c <= '\U{200A}'
    || c == '\U{2028}' || c == '\U{2029}' || c == '\U{202F}' || c == '\U{205F}' || c == '\U{3000}' || c == '\U{FEFF}'
  }

  predicate Digit(c: char) { '0' <= c <= '9' }

  predicate IdentStart(c: char) { 'A' <= c <= 'Z' || 'a' <= c <= 'z' || c == '_' || c == '$' }

  predicate IdentPart(c: char) { IdentStart(c) || Digit(c) }

  /** How many leading characters satisfy `p`. */
  function Run(s: string, p: char -> bool): (n: nat)
    ensures n <= |s| && (forall i :: 0 <= i < n ==> p(s[i])) && (n < |s| ==> !p(s[n]))
  {
    if s == "" || !p(s[0]) then 0 else 1 + Run(s[1..], p)
  }

  function IdentLength(s: string): nat {
    if s == "" || !IdentStart(s[0]) then 0 else Run(s, IdentPart)
  }

  /** The name after a dot: an identifier, or else digits; 0 when there is neither. */
  function NameLength(s: string): nat {
    if IdentLength(s) > 0 then IdentLength(s) else Run(s, Digit)
  }

  predicate IsNumber(s: string) {
    var t := if s != "" && s[0] == '-' then s[1..] else s;
    var n := Run(t, Digit);
    n > 0 && (n == |t| || (t[n] == '.' && n + 1 < |t| && Run(t[n + 1..], Digit) == |t| - n - 1))
  }

  function TrimStart(s: string): (r: string)
    ensures |r| <= |s| && s[|s| - |r|..] == r && (r != "" ==> !Space(r[0]))
    ensures forall i :: 0 <= i < |s| - |r| ==> Space(s[i])
  {
    if s != "" && Space(s[0]) then TrimStart(s[1..]) else s
  }

  function TrimEnd(s: string): (r: string)
    ensures |r| <= |s| && s[..|r|] == r && (r != "" ==> !Space(r[|r| - 1]))
    ensures forall i :: |r| <= i < |s| ==> Space(s[i])
  {
    if s != "" && Space(s[|s| - 1]) then TrimEnd(s[..|s| - 1]) else s
  }

  function Trim(s: string): (r: string)
    ensures |r| <= |s|
  {
    TrimEnd(TrimStart(s))
  }

  ghost predicate AllSpace(s: string) {
    forall i :: 0 <= i < |s| ==> Space(s[i])
  }

  ghost predicate Tight(s: string) {
    s != "" && !Space(s[0]) && !Space(s[|s| - 1])
  }

  lemma TrimStartPadded(pre: string, s: string)
    requires AllSpace(pre) && s != "" && !Space(s[0])
    ensures TrimStart(pre + s) == s
  {
    hide Space, TrimStart;
    var whole, start := pre + s, TrimStart(pre + s);
    assert whole[|pre|] == s[0];
    assert |start| >= |s|;
    assert whole[|whole| - |s|..] == s;
  }

  lemma TrimEndPadded(s: string, post: string)
    requires AllSpace(post) && s != "" && !Space(s[|s| - 1])
    ensures TrimEnd(s + post) == s
  {
    hide Space, TrimEnd;
    var whole, end := s + post, TrimEnd(s + post);
    assert whole[|s| - 1] == s[|s| - 1];
    assert |end| >= |s|;
    assert whole[..|s|] == s;
  }

  lemma TrimPadded(pre: string, s: string, post: string)
    requires AllSpace(pre) && AllSpace(post) && Tight(s)
    ensures Trim(pre + s + post) == s
  {
    hide Space, TrimStart, TrimEnd;
    assert pre + s + post == pre + (s + post);
    TrimStartPadded(pre, s + post);
    TrimEndPadded(s, post);
  }

  // ----- nesting -----

  datatype Kind = Round | Square | Either

  function Delta(c: char, k: Kind): int {
    if (c == '(' && k != Square) || (c == '[' && k != Round) then 1
    else if (c == ')' && k != Square) || (c == ']' && k != Round) then -1
    else 0
  }

  /** Opening minus closing brackets of the kind. */
  function Depth(s: string, k: Kind): int {
    if s == "" then 0 else Depth(s[..|s| - 1], k) + Delta(s[|s| - 1], k)
  }

  /** The first position below `end` where `p` holds. */
  function First(p: nat -> bool, start: nat, end: nat): (r: Option<nat>)
    requires start <= end
    ensures r.Some? ==> start <= r.value < end && p(r.value) && forall i: nat :: start <= i < r.value ==> !p(i)
    ensures r.None? ==> forall i: nat :: start <= i < end ==> !p(i)
    decreases end - start
  {
    if start == end then None else if p(start) then Some(start) else First(p, start + 1, end)
  }

  /** The parenthesis that opens the text closes only at its last character. */
  predicate WrapsWhole(e: string) {
    forall i :: 0 <= i < |e| - 1 && e[i] == ')' ==> Depth(e[..i + 1], Round) != 0
  }

  predicate Wrapped(e: string) {
    e != "" && e[0] == '(' && e[|e| - 1] == ')' && WrapsWhole(e)
  }

  predicate OperatorAt(e: string, i: nat) {
    i + 1 < |e| && e[i] in {'=', '!'} && e[i + 1] == '='
  }

  predicate EqualityAt(e: string, i: nat) {
    && OperatorAt(e, i) && Depth(e[..i], Either) == 0
    && (i > 0 ==> e[i - 1] !in {'=', '!'})
    && Trim(e[..i]) != ""
  }

  function TopLevelEquality(e: string): (r: Option<nat>)
    ensures r.Some? ==> OperatorAt(e, r.value) && EqualityAt(e, r.value)
    ensures r.Some? ==> forall i: nat :: i < r.value ==> !EqualityAt(e, i)
    ensures r.None? ==> forall i: nat :: !EqualityAt(e, i)
  {
    var p := (i: nat) => EqualityAt(e, i);
    assert forall i: nat :: p(i) == EqualityAt(e, i);
    First(p, 0, |e|)
  }

  function OpOf(e: string, i: nat): Op
    requires OperatorAt(e, i)
  {
    Op(e[i] == '!', i + 2 < |e| && e[i + 2] == '=')
  }

  /** The operator at `i`, and the text on either side of it. */
  function Operands(e: string, i: nat): (r: (Op, string, string))
    requires OperatorAt(e, i)
    ensures |r.1| < |e| && |r.2| < |e|
  {
    var op := OpOf(e, i);
    (op, e[..i], e[i + |op.Text()|..])
  }

  predicate ClosesAt(s: string, j: nat) {
    j < |s| && s[j] == ']' && Depth(s[..j + 1], Square) == -1
  }

  /** Where the bracket opened just before `s` closes. */
  function ClosingBracket(s: string): (r: Option<nat>)
    ensures r.Some? ==> ClosesAt(s, r.value) && forall i: nat :: i < r.value ==> !ClosesAt(s, i)
    ensures r.None? ==> forall i: nat :: !ClosesAt(s, i)
  {
    var p := (i: nat) => ClosesAt(s, i);
    assert forall i: nat :: p(i) == ClosesAt(s, i);
    First(p, 0, |s|)
  }

  // ----- the evaluator -----

  const WORDS: map<string, Value> :=
    map["true" := Boolean(true), "false" := Boolean(false), "null" := Null, "undefined" := Undefined]

  /** Words, numbers and quoted text; anything else is read as a path. */
  function LiteralValue(e: string): Option<Value> {
    if e in WORDS then Some(WORDS[e])
    else if IsNumber(e) then Some(Number(e))
    else if |e| >= 2 && e[0] in {'"', '\''} && e[|e| - 1] == e[0] then Some(String(e[1..|e| - 1]))
    else None
  }

  function Resolve(h: Host, vals: Value, src: string): Value
    decreases |src|, 2, 0
  {
    var e := Trim(src);
    if e == "" then Undefined
    else if Wrapped(e) then Resolve(h, vals, e[1..|e| - 1])
    else match TopLevelEquality(e)
      case Some(i) =>
        var (op, l, r) := Operands(e, i);
        Compare(h, op, Resolve(h, vals, l), Resolve(h, vals, r))
      case None =>
        if e[0] == '!' then Boolean(!h.truthy(Resolve(h, vals, e[1..])))
        else match LiteralValue(e)
          case Some(v) => v
          case None => ResolvePath(h, vals, e)
  }

  function ResolvePath(h: Host, vals: Value, e: string): Value
    decreases |e|, 1, 0
  {
    var n := IdentLength(e);
    if n == 0 then Undefined else Follow(h, vals, e, Get(h, vals, String(e[..n])), n)
  }

  /** The path from position `i` on, having reached `cur`. */
  function Follow(h: Host, vals: Value, e: string, cur: Value, i: nat): Value
    requires i <= |e|
    decreases |e|, 0, |e| - i
  {
    if i == |e| then cur
    else if e[i] == '.' then
      var n := NameLength(e[i + 1..]);
      if n == 0 then Undefined
      else Follow(h, vals, e, Get(h, cur, String(e[i + 1..i + 1 + n])), i + 1 + n)
    else if e[i] == '[' then
      match ClosingBracket(e[i + 1..])
      case None => Undefined
      case Some(j) => Follow(h, vals, e, Get(h, cur, Resolve(h, vals, e[i + 1..i + 1 + j])), i + 1 + j + 1)
    else Undefined
  }

  // ----- the loops -----

  lemma DepthStep(s: string, i: nat, k: Kind)
    requires i < |s|
    ensures Depth(s[..i + 1], k) == Depth(s[..i], k) + Delta(s[i], k)
  {
    assert s[..i + 1][..i] == s[..i];
  }

  method ParensWrapWhole(e: string) returns (wraps: bool)
    ensures wraps <==> WrapsWhole(e)
  {
    var depth := 0;
    var i := 0;
    while i < |e| - 1
      invariant 0 <= i <= |e| && depth == Depth(e[..i], Round)
      invariant forall j :: 0 <= j < i && e[j] == ')' ==> Depth(e[..j + 1], Round) != 0
    {
      DepthStep(e, i, Round);
      if e[i] == '(' {
        depth := depth + 1;
      } else if e[i] == ')' {
        depth := depth - 1;
        if depth == 0 {
          return false;
        }
      }
      i := i + 1;
    }
    wraps := true;
  }

  ghost predicate Scanned(e: string, i: nat, depth: int) {
    i <= |e| && depth == Depth(e[..i], Either) && forall j: nat :: j < i ==> !EqualityAt(e, j)
  }

  lemma ScanStep(e: string, i: nat, depth: int)
    requires Scanned(e, i, depth) && i < |e|
    ensures EqualityAt(e, i) ==> TopLevelEquality(e) == Some(i)
    ensures !EqualityAt(e, i) ==> Scanned(e, i + 1, depth + Delta(e[i], Either))
  {
    DepthStep(e, i, Either);
  }

  lemma ScanEnd(e: string, depth: int)
    requires Scanned(e, |e|, depth)
    ensures TopLevelEquality(e) == None
  {
  }

  method FindTopLevelEquality(e: string) returns (found: Option<(nat, Op)>)
    ensures found.None? <==> TopLevelEquality(e).None?
    ensures found.Some? ==>
              && TopLevelEquality(e) == Some(found.value.0) && OperatorAt(e, found.value.0)
              && found.value.1 == OpOf(e, found.value.0)
  {
    var depth := 0;
    var i := 0;
    while i < |e|
      invariant Scanned(e, i, depth)
    {
      ScanStep(e, i, depth);
      var c := e[i];
      if c == '[' || c == '(' {
        depth := depth + 1;
      } else if c == ']' || c == ')' {
        depth := depth - 1;
      } else if depth == 0 && (c == '=' || c == '!') && i + 1 < |e| && e[i + 1] == '=' {
        if !(i > 0 && (e[i - 1] == '=' || e[i - 1] == '!')) && Trim(e[..i]) != "" {
          return Some((i, Op(c == '!', i + 2 < |e| && e[i + 2] == '=')));
        }
      }
      i := i + 1;
    }
    ScanEnd(e, depth);
    found := None;
  }

  /** The inner scan of a bracketed key. */
  method FindClosingBracket(e: string, start: nat) returns (j: nat, depth: int)
    requires start <= |e|
    ensures start <= j <= |e|
    ensures depth == 0 <==> ClosingBracket(e[start..]).Some?
    ensures depth == 0 ==> ClosingBracket(e[start..]) == Some(j - start)
  {
    ghost var s := e[start..];
    depth := 1;
    j := start;
    while j < |e| && depth > 0
      invariant start <= j <= |e| && depth == 1 + Depth(s[..j - start], Square) && depth > 0
      invariant forall i: nat :: i < j - start ==> !ClosesAt(s, i)
    {
      DepthStep(s, j - start, Square);
      if e[j] == '[' {
        depth := depth + 1;
      } else if e[j] == ']' {
        depth := depth - 1;
        if depth == 0 {
          assert ClosesAt(s, j - start);
          return;
        }
      }
      j := j + 1;
    }
  }

  // Each branch of `Resolve`, one level deep.

  lemma ResolveBlank(h: Host, vals: Value, src: string)
    requires Trim(src) == ""
    ensures Resolve(h, vals, src) == Undefined
  {
  }

  lemma ResolveWrapped(h: Host, vals: Value, src: string, e: string)
    requires e == Trim(src) && Wrapped(e)
    ensures Resolve(h, vals, src) == Resolve(h, vals, e[1..|e| - 1])
  {
    hide Trim, WrapsWhole, OperatorAt, EqualityAt, LiteralValue;
  }

  lemma ResolveOperator(h: Host, vals: Value, src: string, e: string, i: nat)
    requires e == Trim(src) && e != "" && !Wrapped(e)
    requires OperatorAt(e, i) && TopLevelEquality(e) == Some(i)
    ensures Resolve(h, vals, src) ==
            Compare(h, Operands(e, i).0, Resolve(h, vals, Operands(e, i).1), Resolve(h, vals, Operands(e, i).2))
  {
    hide Trim, WrapsWhole, EqualityAt, LiteralValue, Wrapped, Operands;
  }

  lemma ResolveNegation(h: Host, vals: Value, src: string, e: string)
    requires e == Trim(src) && e != "" && e[0] == '!' && TopLevelEquality(e) == None
    ensures Resolve(h, vals, src) == Boolean(!h.truthy(Resolve(h, vals, e[1..])))
  {
    hide Trim, WrapsWhole, EqualityAt, LiteralValue, TopLevelEquality;
  }

  lemma ResolveRest(h: Host, vals: Value, src: string, e: string)
    requires e == Trim(src) && e != "" && !Wrapped(e) && e[0] != '!' && TopLevelEquality(e) == None
    ensures Resolve(h, vals, src) ==
            match LiteralValue(e)
            case Some(v) => v
            case None => ResolvePath(h, vals, e)
  {
    hide Trim, WrapsWhole, EqualityAt, LiteralValue, TopLevelEquality, ResolvePath;
  }

  method ResolveText(h: Host, vals: Value, src: string) returns (v: Value)
    ensures v == Resolve(h, vals, src)
    decreases |src|, 2
  {
    hide Resolve, ResolvePath, LiteralValue, WrapsWhole, Trim, TopLevelEquality, EqualityAt;
    var e := Trim(src);
    if e == "" {
      ResolveBlank(h, vals, src);
      return Undefined;
    }
    if e[0] == '(' && e[|e| - 1] == ')' {
      var wraps := ParensWrapWhole(e);
      if wraps {
        ResolveWrapped(h, vals, src, e);
        v := ResolveText(h, vals, e[1..|e| - 1]);
        return;
      }
    }
    var eq := FindTopLevelEquality(e);
    if eq.Some? {
      var (i, op) := eq.value;
      ResolveOperator(h, vals, src, e, i);
      var l := ResolveText(h, vals, e[..i]);
      var r := ResolveText(h, vals, e[i + |op.Text()|..]);
      return Compare(h, op, l, r);
    }
    if e[0] == '!' {
      ResolveNegation(h, vals, src, e);
      var inner := ResolveText(h, vals, e[1..]);
      return Boolean(!h.truthy(inner));
    }
    ResolveRest(h, vals, src, e);
    var literal := LiteralValue(e);
    if literal.Some? {
      return literal.value;
    }
    v := ResolvePathText(h, vals, e);
  }

  lemma PathUnfolds(h: Host, vals: Value, e: string)
    ensures IdentLength(e) <= |e|
    ensures ResolvePath(h, vals, e) ==
            var n := IdentLength(e);
            if n == 0 then Undefined else Follow(h, vals, e, Get(h, vals, String(e[..n])), n)
  {
  }

  /** One step along a path. */
  lemma FollowUnfolds(h: Host, vals: Value, e: string, cur: Value, i: nat)
    requires i <= |e|
    ensures i == |e| ==> Follow(h, vals, e, cur, i) == cur
    ensures i < |e| && e[i] == '.' ==>
              var n := NameLength(e[i + 1..]);
              && i + 1 + n <= |e|
              && Follow(h, vals, e, cur, i) ==
                 if n == 0 then Undefined
                 else Follow(h, vals, e, Get(h, cur, String(e[i + 1..i + 1 + n])), i + 1 + n)
    ensures i < |e| && e[i] == '[' ==>
              match ClosingBracket(e[i + 1..])
              case None => Follow(h, vals, e, cur, i) == Undefined
              case Some(j) =>
                && i + 1 + j < |e|
                && Follow(h, vals, e, cur, i) ==
                   Follow(h, vals, e, Get(h, cur, Resolve(h, vals, e[i + 1..i + 1 + j])), i + 1 + j + 1)
    ensures i < |e| && e[i] != '.' && e[i] != '[' ==> Follow(h, vals, e, cur, i) == Undefined
  {
    hide Resolve, Depth;
  }

  method ResolvePathText(h: Host, vals: Value, e: string) returns (v: Value)
    ensures v == ResolvePath(h, vals, e)
    decreases |e|, 1
  {
    hide *;
    PathUnfolds(h, vals, e);
    var head := IdentLength(e);
    if head == 0 {
      return Undefined;
    }
    var cur := Get(h, vals, String(e[..head]));
    var i := head;
    while i < |e|
      invariant 0 <= i <= |e| && ResolvePath(h, vals, e) == Follow(h, vals, e, cur, i)
    {
      FollowUnfolds(h, vals, e, cur, i);
      if e[i] == '.' {
        var n := NameLength(e[i + 1..]);
        if n == 0 {
          return Undefined;
        }
        cur := Get(h, cur, String(e[i + 1..i + 1 + n]));
        i := i + 1 + n;
      } else if e[i] == '[' {
        var j, depth := FindClosingBracket(e, i + 1);
        if depth != 0 {
          return Undefined;
        }
        var key := ResolveText(h, vals, e[i + 1..j]);
        cur := Get(h, cur, key);
        i := j + 1;
      } else {
        return Undefined;
      }
    }
    FollowUnfolds(h, vals, e, cur, i);
    v := cur;
  }
}
