/**
 Python's string operations the modelled code relies on: `split` and `join` on a
 separator, character replacement, and the code-point order used by `sorted`.
 */
module Strings {

  // ----- split, join, replace -----

  /** `s.split(sep)` for a one-character separator. */
  function Split(s: string, sep: char): (parts: seq<string>)
    ensures |parts| >= 1
  {
    if s == "" then [""]
    else
      var rest := Split(s[1..], sep);
      if s[0] == sep then [""] + rest else [[s[0]] + rest[0]] + rest[1..]
  }

  /** `sep.join(parts)`. */
  function Join(parts: seq<string>, sep: string): string {
    if |parts| == 0 then ""
    else if |parts| == 1 then parts[0]
    else parts[0] + sep + Join(parts[1..], sep)
  }

  /** `s.replace(from, to)` for single characters. */
  function Replace(s: string, from: char, to: char): string {
    seq(|s|, i requires 0 <= i < |s| => if s[i] == from then to else s[i])
  }

  lemma {:induction false} SplitParts(s: string, sep: char)
    ensures forall p :: p in Split(s, sep) ==> sep !in p
    ensures sep !in s ==> Split(s, sep) == [s]
  {
    if s != "" {
      SplitParts(s[1..], sep);
      if sep !in s {
        assert sep !in s[1..];
        assert [s[0]] + s[1..] == s;
      }
    }
  }

  lemma {:induction false} SplitConcat(a: string, sep: char, b: string)
    ensures Split(a + [sep] + b, sep) == Split(a, sep) + Split(b, sep)
  {
    var s := a + [sep] + b;
    if a == "" {
      assert s[1..] == b;
    } else {
      assert s[1..] == a[1..] + [sep] + b;
      SplitConcat(a[1..], sep, b);
    }
  }

  lemma {:induction false} JoinConcat(a: seq<string>, b: seq<string>, sep: string)
    requires |a| >= 1 && |b| >= 1
    ensures Join(a + b, sep) == Join(a, sep) + sep + Join(b, sep)
  {
    if |a| == 1 {
      assert (a + b)[1..] == b;
    } else {
      assert (a + b)[1..] == a[1..] + b;
      JoinConcat(a[1..], b, sep);
    }
  }

  lemma {:induction false} JoinSplit(s: string, sep: char)
    ensures Join(Split(s, sep), [sep]) == s
  {
    if s != "" {
      JoinSplit(s[1..], sep);
      var rest := Split(s[1..], sep);
      if s[0] == sep {
        assert ([""] + rest)[1..] == rest;
      } else {
        assert ([[s[0]] + rest[0]] + rest[1..])[1..] == rest[1..];
      }
    }
  }

  lemma {:induction false} SplitJoin(parts: seq<string>, sep: char)
    requires |parts| >= 1
    requires forall p :: p in parts ==> sep !in p
    ensures Split(Join(parts, [sep]), sep) == parts
  {
    SplitParts(parts[0], sep);
    if |parts| > 1 {
      SplitJoin(parts[1..], sep);
      SplitConcat(parts[0], sep, Join(parts[1..], [sep]));
    }
  }

  /** Renaming the separator does not change the parts of a string free of the new one. */
  lemma {:induction false} SplitReplace(s: string, from: char, to: char)
    requires to !in s || from == to
    ensures Split(Replace(s, from, to), to) == Split(s, from)
  {
    if s != "" {
      assert Replace(s, from, to)[1..] == Replace(s[1..], from, to);
      SplitReplace(s[1..], from, to);
    }
  }

  lemma {:induction false} SplitInjective(s: string, t: string, sep: char)
    requires Split(s, sep) == Split(t, sep)
    ensures s == t
  {
    JoinSplit(s, sep);
    JoinSplit(t, sep);
  }

  // ----- prefix and suffix -----

  predicate StartsWith(s: string, p: string) {
    |p| <= |s| && s[..|p|] == p
  }

  predicate EndsWith(s: string, p: string) {
    |p| <= |s| && s[|s| - |p|..] == p
  }

  // ----- order -----

  /** Python's `a < b` on strings: the first differing code point decides. */
  predicate Less(a: string, b: string) {
    b != "" && (a == "" || a[0] < b[0] || (a[0] == b[0] && Less(a[1..], b[1..])))
  }

  lemma {:induction false} LessTrichotomy(a: string, b: string)
    ensures Less(a, b) || a == b || Less(b, a)
    ensures !(Less(a, b) && Less(b, a))
    ensures !Less(a, a)
  {
    if a != "" && b != "" && a[0] == b[0] {
      LessTrichotomy(a[1..], b[1..]);
      assert a == [a[0]] + a[1..] && b == [b[0]] + b[1..];
    }
    if a != "" {
      LessTrichotomy(a[1..], a[1..]);
    }
  }

  lemma {:induction false} LessTransitive(a: string, b: string, c: string)
    requires Less(a, b) && Less(b, c)
    ensures Less(a, c)
  {
    if a != "" && a[0] == b[0] == c[0] {
      LessTransitive(a[1..], b[1..], c[1..]);
    }
  }

  ghost predicate Ascending(xs: seq<string>) {
    forall i, j :: 0 <= i < j < |xs| ==> Less(xs[i], xs[j])
  }

  function Elements<T>(xs: seq<T>): set<T> {
    set x | x in xs
  }

  /** `ys` is what `xs` holds at the listed positions, which ascend. */
  ghost predicate Picks<T>(xs: seq<T>, at: seq<nat>, ys: seq<T>) {
    && |at| == |ys|
    && (forall i, j :: 0 <= i < j < |at| ==> at[i] < at[j])
    && (forall k :: 0 <= k < |at| ==> at[k] < |xs| && ys[k] == xs[at[k]])
  }

  /** The positions one further on. */
  function Later(at: seq<nat>): seq<nat> {
    seq(|at|, k requires 0 <= k < |at| => at[k] + 1)
  }

  lemma LaterHolds(at: seq<nat>, i: nat)
    ensures i in Later(at) <==> i > 0 && i - 1 in at
  {
    if i > 0 && i - 1 in at {
      var k :| 0 <= k < |at| && at[k] == i - 1;
      assert Later(at)[k] == i;
    }
  }

  lemma PicksAfter<T>(xs: seq<T>, at: seq<nat>, ys: seq<T>)
    requires xs != [] && Picks(xs[1..], at, ys)
    ensures Picks(xs, Later(at), ys) && Picks(xs, [0] + Later(at), [xs[0]] + ys)
  {
  }

  lemma PicksLonger<T>(xs: seq<T>, longer: seq<T>, at: seq<nat>, ys: seq<T>)
    requires Picks(xs, at, ys) && xs <= longer
    ensures Picks(longer, at, ys)
  {
  }

  lemma Ends(a: string, b: string)
    ensures StartsWith(a + b, a) && EndsWith(a + b, b) && (a + b)[..|a|] == a && (a + b)[|a|..] == b
  {
  }

  lemma Cut(s: string, a: string, b: string)
    ensures StartsWith(s, a) ==> |a| <= |s| && s == a + s[|a|..]
    ensures EndsWith(s, b) ==> |b| <= |s| && s == s[..|s| - |b|] + b
    ensures StartsWith(s, a) && EndsWith(s, b) && |a| + |b| <= |s| ==> EndsWith(s[|a|..], b)
  {
  }

  lemma OneMoreHolds(at: seq<nat>, last: nat)
    ensures forall i :: i in at + [last] <==> i in at || i == last
  {
  }

  lemma PicksNext<T>(xs: seq<T>, at: seq<nat>, ys: seq<T>, i: nat)
    requires Picks(xs, at, ys) && i < |xs| && forall k :: 0 <= k < |at| ==> at[k] < i
    ensures Picks(xs, at + [i], ys + [xs[i]])
  {
  }

  predicate IsMin(m: string, xs: set<string>) {
    m in xs && forall y :: y in xs ==> y == m || Less(m, y)
  }

  lemma {:induction false} MinExists(xs: set<string>)
    requires xs != {}
    ensures exists m :: IsMin(m, xs)
    ensures forall m, n :: IsMin(m, xs) && IsMin(n, xs) ==> m == n
  {
    forall m, n | IsMin(m, xs) && IsMin(n, xs)
      ensures m == n
    {
      LessTrichotomy(m, n);
    }
    var x :| x in xs;
    if xs == {x} {
      assert IsMin(x, xs);
    } else {
      MinExists(xs - {x});
      var m :| IsMin(m, xs - {x});
      LessTrichotomy(x, m);
      if Less(m, x) {
        assert IsMin(m, xs);
      } else {
        forall y | y in xs
          ensures y == x || Less(x, y)
        {
          if y != x && y != m {
            LessTransitive(x, m, y);
          }
        }
        assert IsMin(x, xs);
      }
    }
  }

  /** `sorted(xs)` of a set of strings. */
  function Sorted(xs: set<string>): (r: seq<string>) {
    if xs == {} then []
    else
      MinExists(xs);
      var m :| IsMin(m, xs);
      [m] + Sorted(xs - {m})
  }

  lemma {:induction false} SortedFacts(xs: set<string>)
    ensures Elements(Sorted(xs)) == xs
    ensures Ascending(Sorted(xs))
    ensures |Sorted(xs)| == |xs|
  {
    hide Less;
    if xs != {} {
      MinExists(xs);
      var m :| IsMin(m, xs);
      SortedFacts(xs - {m});
      PrependMin(m, Sorted(xs - {m}), xs);
      assert Sorted(xs) == [m] + Sorted(xs - {m});
    }
  }

  lemma PrependMin(m: string, rest: seq<string>, xs: set<string>)
    requires IsMin(m, xs) && Elements(rest) == xs - {m} && Ascending(rest)
    ensures Elements([m] + rest) == xs && Ascending([m] + rest)
  {
    hide Less;
    forall k | 0 <= k < |rest|
      ensures Less(m, rest[k])
    {
      assert rest[k] in Elements(rest);
    }
    assert forall y :: y in [m] + rest <==> y == m || y in Elements(rest);
  }

  lemma AscendingHead(xs: seq<string>)
    requires Ascending(xs) && xs != []
    ensures IsMin(xs[0], Elements(xs))
    ensures Ascending(xs[1..])
    ensures Elements(xs[1..]) == Elements(xs) - {xs[0]}
  {
    LessTrichotomy(xs[0], xs[0]);
    assert forall k :: 1 <= k < |xs| ==> Less(xs[0], xs[k]);
    assert xs == [xs[0]] + xs[1..];
    assert forall x :: x in xs <==> x == xs[0] || x in xs[1..];
  }

  /** A set has exactly one ascending listing. */
  lemma {:induction false} AscendingUnique(xs: seq<string>, ys: seq<string>)
    requires Ascending(xs) && Ascending(ys)
    requires Elements(xs) == Elements(ys)
    ensures xs == ys
  {
    assert xs != [] ==> xs[0] in Elements(xs);
    assert ys != [] ==> ys[0] in Elements(ys);
    if xs != [] && ys != [] {
      AscendingHead(xs);
      AscendingHead(ys);
      MinExists(Elements(xs));
      AscendingUnique(xs[1..], ys[1..]);
      assert xs == [xs[0]] + xs[1..] && ys == [ys[0]] + ys[1..];
    }
  }

  // ----- sorting by a key -----

  /** Python's stable `sorted(xs, key=...)`, as insertion from the right. */
  function SortBy<T>(key: T -> string, xs: seq<T>): seq<T> {
    if xs == [] then [] else Insert(key, xs[0], SortBy(key, xs[1..]))
  }

  function Insert<T>(key: T -> string, x: T, xs: seq<T>): seq<T> {
    if xs == [] || !Less(key(xs[0]), key(x)) then [x] + xs
    else [xs[0]] + Insert(key, x, xs[1..])
  }

  ghost predicate InOrder<T>(key: T -> string, xs: seq<T>) {
    forall i, j :: 0 <= i < j < |xs| ==> !Less(key(xs[j]), key(xs[i]))
  }

  lemma {:induction false} InsertSorts<T>(key: T -> string, x: T, xs: seq<T>)
    requires InOrder(key, xs)
    ensures InOrder(key, Insert(key, x, xs))
    ensures multiset(Insert(key, x, xs)) == multiset{x} + multiset(xs)
  {
    hide Less;
    if xs != [] && Less(key(xs[0]), key(x)) {
      InsertSorts(key, x, xs[1..]);
      var rest := Insert(key, x, xs[1..]);
      assert xs == [xs[0]] + xs[1..];
      forall j | 0 <= j < |rest|
        ensures !Less(key(rest[j]), key(xs[0]))
      {
        assert rest[j] in multiset(rest);
        LessTrichotomy(key(x), key(xs[0]));
      }
    } else if xs != [] {
      forall j | 0 <= j < |xs|
        ensures !Less(key(xs[j]), key(x))
      {
        LessTrichotomy(key(xs[j]), key(xs[0]));
        LessTrichotomy(key(x), key(xs[0]));
        if Less(key(xs[j]), key(x)) && key(x) != key(xs[0]) {
          LessTransitive(key(xs[j]), key(x), key(xs[0]));
        }
      }
    }
  }

  lemma {:induction false} SortBySorts<T>(key: T -> string, xs: seq<T>)
    ensures InOrder(key, SortBy(key, xs))
    ensures multiset(SortBy(key, xs)) == multiset(xs)
  {
    if xs != [] {
      SortBySorts(key, xs[1..]);
      InsertSorts(key, xs[0], SortBy(key, xs[1..]));
      assert xs == [xs[0]] + xs[1..];
    }
  }

  lemma SortBySame<T>(key: T -> string, xs: seq<T>, x: T)
    ensures x in SortBy(key, xs) <==> x in xs
  {
    SortBySorts(key, xs);
    assert x in multiset(xs) <==> x in xs;
    assert x in multiset(SortBy(key, xs)) <==> x in SortBy(key, xs);
  }
}
