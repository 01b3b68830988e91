/**
 Where a row's leaves are: the leaves listed for redaction are exactly the scalars of the row, in
 container order, each under the key of the field that holds it.
 */
module RowLeaves {
  import opened Wrappers
  import opened Redaction

  /** What a container holds, in order: its items under no key, or its fields' values under their names. */
  function Children(value: Value): (cs: seq<Leaf>)
    ensures forall c :: c in cs ==> c.value < value
  {
    match value
    case List(items) => seq(|items|, i requires 0 <= i < |items| => Leaf(None, items[i]))
    case Object(fields) => seq(|fields|, i requires 0 <= i < |fields| => Leaf(Some(fields[i].name), fields[i].value))
    case _ => []
  }

  /** What lies at a path of child positions, with the key it is stored under. */
  function At(value: Value, key: Option<string>, path: seq<nat>): Option<Leaf>
    decreases path
  {
    if path == [] then Some(Leaf(key, value))
    else if path[0] >= |Children(value)| then None
    else At(Children(value)[path[0]].value, Children(value)[path[0]].key, path[1..])
  }

  /** The first place two paths differ puts one before the other. */
  predicate Earlier(p: seq<nat>, q: seq<nat>) {
    p != [] && q != [] && (p[0] < q[0] || (p[0] == q[0] && Earlier(p[1..], q[1..])))
  }

  ghost predicate InPlace(paths: seq<seq<nat>>) {
    forall i, j :: 0 <= i < j < |paths| ==> Earlier(paths[i], paths[j])
  }

  predicate ScalarAt(value: Value, key: Option<string>, path: seq<nat>) {
    var found := At(value, key, path);
    found.Some? && (found.value.value.Text? || found.value.value.Scalar?)
  }

  /** The paths list the leaves found below `value`: each at its path, in order, none left out. */
  ghost predicate Locate(value: Value, key: Option<string>, leaves: seq<Leaf>, paths: seq<seq<nat>>) {
    && |paths| == |leaves|
    && (forall i :: 0 <= i < |paths| ==> ScalarAt(value, key, paths[i]) && At(value, key, paths[i]).value == leaves[i])
    && InPlace(paths)
    && (forall path :: ScalarAt(value, key, path) ==> path in paths)
  }

  function LeavesOfAll(children: seq<Leaf>): seq<Leaf> {
    if children == [] then [] else Leaves(children[0].value, children[0].key) + LeavesOfAll(children[1..])
  }

  lemma {:induction false} ItemsAreChildren(items: seq<Value>)
    ensures ItemLeaves(items) == LeavesOfAll(Children(List(items)))
  {
    if items != [] {
      ItemsAreChildren(items[1..]);
      assert Children(List(items))[1..] == Children(List(items[1..]));
    }
  }

  lemma {:induction false} FieldsAreChildren(fields: seq<Field>)
    ensures FieldLeaves(fields) == LeavesOfAll(Children(Object(fields)))
  {
    if fields != [] {
      FieldsAreChildren(fields[1..]);
      assert Children(Object(fields))[1..] == Children(Object(fields[1..]));
    }
  }

  function Under(i: nat, paths: seq<seq<nat>>): seq<seq<nat>> {
    seq(|paths|, k requires 0 <= k < |paths| => [i] + paths[k])
  }

  /** A path into the children from the `n`-th on, to this leaf. */
  ghost predicate LeadsTo(value: Value, n: nat, path: seq<nat>, leaf: Leaf) {
    path != [] && path[0] >= n && ScalarAt(value, None, path) && At(value, None, path).value == leaf
  }

  ghost predicate NoneLeftOut(value: Value, n: nat, paths: seq<seq<nat>>) {
    forall path :: path != [] && path[0] >= n && ScalarAt(value, None, path) ==> path in paths
  }

  /** The leaves of the children from the `n`-th on, at their paths in the container. */
  ghost predicate LocateFrom(value: Value, n: nat, leaves: seq<Leaf>, paths: seq<seq<nat>>) {
    && |paths| == |leaves| && (forall i :: 0 <= i < |paths| ==> LeadsTo(value, n, paths[i], leaves[i]))
    && InPlace(paths) && NoneLeftOut(value, n, paths)
  }

  /**
   The leaves are the scalars of the value in container order, each under the key of the field that
   holds it and under none in a list.
   */
  lemma {:induction false} LeavesLocated(value: Value, key: Option<string>) returns (paths: seq<seq<nat>>)
    ensures Locate(value, key, Leaves(value, key), paths)
    decreases value, 1, 0
  {
    match value
    case Null =>
      paths := [];
    case Text(_) =>
      paths := [[]];
    case Scalar(_) =>
      paths := [[]];
    case List(items) =>
      ItemsAreChildren(items);
      paths := ChildrenLocated(value, 0);
      assert Children(value)[0..] == Children(value);
      FromTheFirst(value, key, Leaves(value, key), paths);
    case Object(fields) =>
      FieldsAreChildren(fields);
      paths := ChildrenLocated(value, 0);
      assert Children(value)[0..] == Children(value);
      FromTheFirst(value, key, Leaves(value, key), paths);
  }

  lemma FromTheFirst(value: Value, key: Option<string>, leaves: seq<Leaf>, paths: seq<seq<nat>>)
    requires LocateFrom(value, 0, leaves, paths) && (value.List? || value.Object?)
    ensures Locate(value, key, leaves, paths)
  {
  }

  lemma {:induction false} ChildrenLocated(value: Value, n: nat) returns (paths: seq<seq<nat>>)
    requires n <= |Children(value)|
    ensures LocateFrom(value, n, LeavesOfAll(Children(value)[n..]), paths)
    decreases value, 0, |Children(value)| - n
  {
    var children := Children(value);
    if n == |children| {
      paths := [];
    } else {
      var child := children[n];
      assert child in children;
      var first := LeavesLocated(child.value, child.key);
      var rest := ChildrenLocated(value, n + 1);
      assert children[n..][1..] == children[n + 1..];
      paths := Under(n, first) + rest;
      ChildThenRest(value, n, Leaves(child.value, child.key), first, LeavesOfAll(children[n + 1..]), rest);
    }
  }

  lemma StepDown(value: Value, n: nat, path: seq<nat>)
    requires n < |Children(value)|
    ensures At(value, None, [n] + path) == At(Children(value)[n].value, Children(value)[n].key, path)
    ensures ScalarAt(value, None, [n] + path) <==> ScalarAt(Children(value)[n].value, Children(value)[n].key, path)
  {
    assert ([n] + path)[1..] == path;
  }

  lemma UnderInPlace(n: nat, first: seq<seq<nat>>, rest: seq<seq<nat>>)
    requires InPlace(first) && InPlace(rest) && forall i :: 0 <= i < |rest| ==> rest[i] != [] && rest[i][0] > n
    ensures InPlace(Under(n, first) + rest)
  {
    var paths := Under(n, first) + rest;
    forall i, j | 0 <= i < j < |paths|
      ensures Earlier(paths[i], paths[j])
    {
      if j < |first| {
        assert paths[i][1..] == first[i] && paths[j][1..] == first[j];
      } else if i < |first| {
        assert paths[j] == rest[j - |first|];
      } else {
        assert paths[i] == rest[i - |first|] && paths[j] == rest[j - |first|];
      }
    }
  }

  lemma ChildLeads(value: Value, n: nat, path: seq<nat>, leaf: Leaf)
    requires n < |Children(value)|
    requires ScalarAt(Children(value)[n].value, Children(value)[n].key, path)
    requires At(Children(value)[n].value, Children(value)[n].key, path).value == leaf
    ensures LeadsTo(value, n, [n] + path, leaf)
  {
    StepDown(value, n, path);
  }

  lemma ChildNoneLeftOut(value: Value, n: nat, key: Option<string>, leaves: seq<Leaf>, first: seq<seq<nat>>, rest: seq<seq<nat>>)
    requires n < |Children(value)| && key == Children(value)[n].key
    requires Locate(Children(value)[n].value, key, leaves, first) && NoneLeftOut(value, n + 1, rest)
    ensures NoneLeftOut(value, n, Under(n, first) + rest)
  {
    hide At, ScalarAt, Earlier, Children, InPlace;
    var paths := Under(n, first) + rest;
    forall path | path != [] && path[0] >= n && ScalarAt(value, None, path)
      ensures path in paths
    {
      if path[0] == n {
        assert path == [n] + path[1..];
        StepDown(value, n, path[1..]);
        var k :| 0 <= k < |first| && first[k] == path[1..];
        assert paths[k] == path;
      } else {
        var k :| 0 <= k < |rest| && rest[k] == path;
        assert paths[|first| + k] == path;
      }
    }
  }

  lemma Deeper(value: Value, n: nat, path: seq<nat>, leaf: Leaf)
    requires LeadsTo(value, n + 1, path, leaf)
    ensures LeadsTo(value, n, path, leaf) && path != [] && path[0] > n
  {
  }

  lemma ChildThenRest(value: Value, n: nat, leaves: seq<Leaf>, first: seq<seq<nat>>, more: seq<Leaf>, rest: seq<seq<nat>>)
    requires n < |Children(value)| && LocateFrom(value, n + 1, more, rest)
    requires Locate(Children(value)[n].value, Children(value)[n].key, leaves, first)
    ensures LocateFrom(value, n, leaves + more, Under(n, first) + rest)
  {
    hide At, ScalarAt, Earlier, Children, InPlace, LeadsTo, NoneLeftOut;
    var paths := Under(n, first) + rest;
    forall i | 0 <= i < |rest|
      ensures LeadsTo(value, n, rest[i], more[i]) && rest[i] != [] && rest[i][0] > n
    {
      Deeper(value, n, rest[i], more[i]);
    }
    UnderInPlace(n, first, rest);
    ChildNoneLeftOut(value, n, Children(value)[n].key, leaves, first, rest);
    forall i | 0 <= i < |paths|
      ensures LeadsTo(value, n, paths[i], (leaves + more)[i])
    {
      if i < |first| {
        ChildLeads(value, n, first[i], leaves[i]);
      } else {
        assert paths[i] == rest[i - |first|];
      }
    }
  }

  /** The texts scanned for keys: one for each leaf, its text or how the scalar is shown. */
  lemma CollectedAre(value: Value)
    ensures var texts, leaves := CollectTextValues(value), Leaves(value, None);
            |texts| == |leaves| &&
            forall i :: 0 <= i < |leaves| ==>
              && (leaves[i].value.Text? ==> texts[i] == leaves[i].value.text)
              && (leaves[i].value.Scalar? ==> texts[i] == leaves[i].value.shown)
  {
  }
}
