/**
 Amendments on the objects a loaded document is made of. A YAML alias makes two places hold one
 object, a deep copy keeps it one, and an edit of the object then shows at both. On a document
 without aliases the edits do exactly what they do to its value; one item's edits stay at their own
 place exactly when no other path leads to the item.
 */
module SharedDocuments {
  import opened Wrappers
  import opened Amendments

  // ----- objects -----

  type Ref = nat

  /** What a field or a list position holds: a scalar, or a reference to a list or a dictionary. */
  datatype Slot = Atom(value: Value) | At(ref: Ref)

  datatype Object = ListOf(items: seq<Slot>) | DictOf(fields: map<string, Slot>)

  type Heap = map<Ref, Object>

  datatype Hop = Key(name: string) | Index(i: nat)

  type Path = seq<Hop>

  predicate IsDict(h: Heap, t: Ref) { t in h && h[t].DictOf? }

  predicate IsList(h: Heap, t: Ref) { t in h && h[t].ListOf? }

  function Child(h: Heap, s: Slot, hop: Hop): Option<Slot> {
    match hop
    case Key(name) => if s.At? && IsDict(h, s.ref) && name in h[s.ref].fields then Some(h[s.ref].fields[name]) else None
    case Index(i) => if s.At? && IsList(h, s.ref) && i < |h[s.ref].items| then Some(h[s.ref].items[i]) else None
  }

  function Follow(h: Heap, s: Slot, p: Path): Option<Slot>
    decreases p
  {
    if p == [] then Some(s)
    else
      var c := Child(h, s, p[0]);
      if c.None? then None else Follow(h, c.value, p[1..])
  }

  /** `target[field] = value`. */
  function Assign(h: Heap, t: Ref, f: string, put: Slot): Heap
    requires IsDict(h, t)
  {
    h[t := DictOf(h[t].fields[f := put])]
  }

  /** The path goes through field `f` of the object `t`. */
  predicate Crosses(h: Heap, s: Slot, p: Path, t: Ref, f: string)
    decreases p
  {
    p != [] &&
    ((s == At(t) && p[0] == Key(f)) ||
     (Child(h, s, p[0]).Some? && Crosses(h, Child(h, s, p[0]).value, p[1..], t, f)))
  }

  ghost predicate Reached(h: Heap, s: Slot, t: Ref) {
    exists p :: Follow(h, s, p) == Some(At(t))
  }

  /** The path leads to the object, and no other does. */
  ghost predicate Only(h: Heap, s: Slot, p: Path, t: Ref) {
    Follow(h, s, p) == Some(At(t)) && forall q :: Follow(h, s, q) == Some(At(t)) ==> q == p
  }

  lemma {:induction false} FollowConcat(h: Heap, s: Slot, p: Path, q: Path)
    ensures Follow(h, s, p + q) == if Follow(h, s, p).None? then None else Follow(h, Follow(h, s, p).value, q)
    decreases p
  {
    if p == [] {
      assert p + q == q;
    } else {
      assert (p + q)[1..] == p[1..] + q;
      if Child(h, s, p[0]).Some? {
        FollowConcat(h, Child(h, s, p[0]).value, p[1..], q);
      }
    }
  }

  lemma {:induction false} CrossesAt(h: Heap, s: Slot, p: Path, t: Ref, f: string) returns (n: nat)
    requires Crosses(h, s, p, t, f)
    ensures n < |p| && Follow(h, s, p[..n]) == Some(At(t)) && p[n] == Key(f)
    decreases p
  {
    if s == At(t) && p[0] == Key(f) {
      n := 0;
    } else {
      var k := CrossesAt(h, Child(h, s, p[0]).value, p[1..], t, f);
      n := k + 1;
      assert p[..n][1..] == p[1..][..k];
    }
  }

  /** A path that does not go through the assigned field leads where it led. */
  lemma {:induction false} AssignElsewhere(h: Heap, t: Ref, f: string, put: Slot, s: Slot, p: Path)
    requires IsDict(h, t) && !Crosses(h, s, p, t, f)
    ensures Follow(Assign(h, t, f, put), s, p) == Follow(h, s, p)
    decreases p
  {
    if p != [] {
      assert Child(Assign(h, t, f, put), s, p[0]) == Child(h, s, p[0]);
      if Child(h, s, p[0]).Some? {
        AssignElsewhere(h, t, f, put, Child(h, s, p[0]).value, p[1..]);
      }
    }
  }

  lemma Unreached(h: Heap, s: Slot, t: Ref, f: string, put: Slot, p: Path)
    requires IsDict(h, t) && !Reached(h, s, t)
    ensures Follow(Assign(h, t, f, put), s, p) == Follow(h, s, p)
  {
    if Crosses(h, s, p, t, f) {
      var n := CrossesAt(h, s, p, t, f);
    }
    AssignElsewhere(h, t, f, put, s, p);
  }

  // ----- when an edit stays in its place -----

  function NamesIn(p: Path): set<string> {
    set hop | hop in p && hop.Key? :: hop.name
  }

  lemma {:induction false} FreshName(names: set<string>) returns (f: string)
    ensures forall n :: n in names ==> |n| < |f|
  {
    f := "f";
    if names != {} {
      var n :| n in names;
      var g := FreshName(names - {n});
      f := g + n + "f";
    }
  }

  lemma CrossesNames(h: Heap, s: Slot, p: Path, t: Ref, f: string)
    requires Crosses(h, s, p, t, f)
    ensures f in NamesIn(p)
  {
    var n := CrossesAt(h, s, p, t, f);
    assert p[n] in p;
  }

  /** One object, a second path to it: a field assigned there appears on the second path too. */
  lemma SecondPathShows(h: Heap, s: Slot, q: Path, t: Ref, f: string, put: Slot)
    requires IsDict(h, t) && Follow(h, s, q) == Some(At(t)) && f !in NamesIn(q) && f !in h[t].fields
    ensures Follow(h, s, q + [Key(f)]) == None
    ensures Follow(Assign(h, t, f, put), s, q + [Key(f)]) == Some(put)
  {
    if Crosses(h, s, q, t, f) {
      CrossesNames(h, s, q, t, f);
    }
    AssignElsewhere(h, t, f, put, s, q);
    FollowConcat(h, s, q, [Key(f)]);
    FollowConcat(Assign(h, t, f, put), s, q, [Key(f)]);
  }

  /** Assigning field `f` at path `p` changes nothing but what lies there. */
  ghost predicate Stays(h: Heap, h': Heap, s: Slot, p: Path, f: string) {
    forall q :: !(p + [Key(f)] <= q) ==> Follow(h', s, q) == Follow(h, s, q)
  }

  lemma OnlyCrosses(h: Heap, s: Slot, p: Path, t: Ref, f: string, q: Path)
    requires Only(h, s, p, t) && Crosses(h, s, q, t, f)
    ensures p + [Key(f)] <= q
  {
    var n := CrossesAt(h, s, q, t, f);
    assert q[..n + 1] == p + [Key(f)];
  }

  lemma OnlyStays(h: Heap, s: Slot, p: Path, t: Ref, f: string, put: Slot)
    requires IsDict(h, t) && Only(h, s, p, t)
    ensures Stays(h, Assign(h, t, f, put), s, p, f)
  {
    forall q | !(p + [Key(f)] <= q)
      ensures Follow(Assign(h, t, f, put), s, q) == Follow(h, s, q)
    {
      if Crosses(h, s, q, t, f) {
        OnlyCrosses(h, s, p, t, f, q);
      }
      AssignElsewhere(h, t, f, put, s, q);
    }
  }

  lemma SameEnd(p: Path, q: Path, f: string)
    requires p + [Key(f)] <= q + [Key(f)]
    ensures p == q || f in NamesIn(q)
  {
    var n, longer := |p|, q + [Key(f)];
    assert longer[n] == (p + [Key(f)])[n] == Key(f);
    if n < |q| {
      assert q[n] in q && longer[n] == q[n];
    } else {
      assert longer[..n] == (p + [Key(f)])[..n] == p;
      assert longer[..|q|] == q;
    }
  }

  lemma SharedStrays(h: Heap, s: Slot, p: Path, q: Path, t: Ref) returns (f: string)
    requires IsDict(h, t) && Follow(h, s, q) == Some(At(t)) && q != p
    ensures f !in h[t].fields
    ensures forall put :: !Stays(h, Assign(h, t, f, put), s, p, f)
  {
    f := FreshName(NamesIn(q) + h[t].fields.Keys);
    if p + [Key(f)] <= q + [Key(f)] {
      SameEnd(p, q, f);
    }
    forall put
      ensures !Stays(h, Assign(h, t, f, put), s, p, f)
    {
      SecondPathShows(h, s, q, t, f, put);
    }
  }

  /** Assignments to an object stay in their place exactly when one path alone leads to it. */
  lemma StaysIff(h: Heap, s: Slot, p: Path, t: Ref)
    requires IsDict(h, t) && Follow(h, s, p) == Some(At(t))
    ensures (forall f, put :: Stays(h, Assign(h, t, f, put), s, p, f)) <==> Only(h, s, p, t)
  {
    if Only(h, s, p, t) {
      forall f, put
        ensures Stays(h, Assign(h, t, f, put), s, p, f)
      {
        OnlyStays(h, s, p, t, f, put);
      }
    } else {
      var q :| Follow(h, s, q) == Some(At(t)) && q != p;
      var f := SharedStrays(h, s, p, q, t);
      assert !Stays(h, Assign(h, t, f, Atom(Null)), s, p, f);
    }
  }

  // ----- the edits, on objects -----

  /** The objects at the slot spell out the value. */
  ghost predicate Denotes(h: Heap, s: Slot, v: Value)
    decreases v
  {
    match v
    case List(items) =>
      && s.At? && IsList(h, s.ref) && |h[s.ref].items| == |items|
      && forall i :: 0 <= i < |items| ==> Denotes(h, h[s.ref].items[i], items[i])
    case Dict(fields) =>
      && s.At? && IsDict(h, s.ref) && h[s.ref].fields.Keys == fields.Keys
      && forall k :: k in fields ==> Denotes(h, h[s.ref].fields[k], fields[k])
    case _ => s == Atom(v)
  }

  function GetSlot(fields: map<string, Slot>, key: string): Slot {
    if key in fields then fields[key] else Atom(Null)
  }

  ghost predicate Answers(h: Heap, s: Slot, id: Value) {
    s.At? && IsDict(h, s.ref) && Denotes(h, GetSlot(h[s.ref].fields, "id"), id)
  }

  /** The positions of the selected items; an item listed twice counts twice. */
  ghost function Answering(h: Heap, items: seq<Slot>, id: Value): (found: seq<nat>)
    ensures forall i :: i in found ==> i < |items| && Answers(h, items[i], id)
  {
    if items == [] then []
    else
      var last := |items| - 1;
      Answering(h, items[..last], id) + if Answers(h, items[last], id) then [last] else []
  }

  /** One edit in place; `put` is the slot of its new value. */
  ghost function ApplyInPlace(h: Heap, root: Ref, e: Edit, put: Slot): (r: Result<Heap, AmendError>)
    requires IsDict(h, root)
    ensures r.Ok? ==> forall t :: IsDict(h, t) ==> IsDict(r.value, t)
  {
    match e
    case Direct(field, oldValue, _) =>
      if !Denotes(h, GetSlot(h[root].fields, field), oldValue) then Err(OldValueMismatch)
      else Ok(Assign(h, root, field, put))
    case Cell(collection, id, field, oldValue, _) =>
      var list := GetSlot(h[root].fields, collection);
      if !(list.At? && IsList(h, list.ref)) then Err(NotAList)
      else
        var found := Answering(h, h[list.ref].items, id);
        if |found| != 1 then Err(NotOneItem)
        else
          assert found[0] in found;
          var target := h[list.ref].items[found[0]].ref;
          if !Denotes(h, GetSlot(h[target].fields, field), oldValue) then Err(OldValueMismatch)
          else Ok(Assign(h, target, field, put))
  }

  /** The id selects position `i` of the collection, and nothing else in it. */
  ghost predicate Selects(h: Heap, root: Ref, collection: string, id: Value, i: nat) {
    && IsDict(h, root)
    && var list := GetSlot(h[root].fields, collection);
       list.At? && IsList(h, list.ref) && Answering(h, h[list.ref].items, id) == [i]
  }

  lemma SelectedAt(h: Heap, root: Ref, collection: string, id: Value, i: nat) returns (t: Ref)
    requires Selects(h, root, collection, id, i)
    ensures IsDict(h, t) && Follow(h, At(root), [Key(collection), Index(i)]) == Some(At(t))
    ensures Child(h, GetSlot(h[root].fields, collection), Index(i)) == Some(At(t))
    ensures forall f: string, oldValue: Value, newValue: Value, put: Slot ::
              ApplyInPlace(h, root, Cell(collection, id, f, oldValue, newValue), put) ==
              if Denotes(h, GetSlot(h[t].fields, f), oldValue) then Ok(Assign(h, t, f, put)) else Err(OldValueMismatch)
  {
    var list := GetSlot(h[root].fields, collection);
    assert i in Answering(h, h[list.ref].items, id);
    t := h[list.ref].items[i].ref;
    var p := [Key(collection), Index(i)];
    assert p[1..] == [Index(i)] && p[1..][1..] == [];
    assert Child(h, At(root), p[0]) == Some(list) && Child(h, list, p[1]) == Some(At(t));
    assert Follow(h, list, p[1..]) == Some(At(t));
  }

  /** Every accepted edit of the selected item changes nothing but the field it names. */
  ghost predicate EditsStay(h: Heap, root: Ref, collection: string, id: Value, i: nat)
    requires IsDict(h, root)
  {
    forall f: string, oldValue: Value, newValue: Value, put: Slot ::
      var edited := ApplyInPlace(h, root, Cell(collection, id, f, oldValue, newValue), put);
      edited.Ok? ==> Stays(h, edited.value, At(root), [Key(collection), Index(i)], f)
  }

  /**
   On any document, aliases and cycles included: the edits of an item stay in their place exactly
   when the item is reached through its collection alone.
   */
  lemma EditsStayIff(h: Heap, root: Ref, collection: string, id: Value, i: nat)
    requires Selects(h, root, collection, id, i)
    ensures EditsStay(h, root, collection, id, i) <==>
            exists t :: Only(h, At(root), [Key(collection), Index(i)], t)
  {
    hide Denotes, Answering, ApplyInPlace, Stays;
    var p := [Key(collection), Index(i)];
    var t := SelectedAt(h, root, collection, id, i);
    if Only(h, At(root), p, t) {
      forall f: string, oldValue: Value, newValue: Value, put: Slot
        ensures var edited := ApplyInPlace(h, root, Cell(collection, id, f, oldValue, newValue), put);
                edited.Ok? ==> Stays(h, edited.value, At(root), p, f)
      {
        OnlyStays(h, At(root), p, t, f, put);
      }
    } else {
      var q :| Follow(h, At(root), q) == Some(At(t)) && q != p;
      var f := SharedStrays(h, At(root), p, q, t);
      NullIsAbsent(h);
      assert ApplyInPlace(h, root, Cell(collection, id, f, Null, Null), Atom(Null)) == Ok(Assign(h, t, f, Atom(Null)));
      assert !Stays(h, Assign(h, t, f, Atom(Null)), At(root), p, f);
    }
  }

  lemma NullIsAbsent(h: Heap)
    ensures Denotes(h, Atom(Null), Null)
  {
  }

  // ----- an aliased base -----

  /** `a: &x [{id: i, f: 1}]` and `b: *x`. */
  function Aliased(): Heap {
    map[0 := DictOf(map["a" := At(1), "b" := At(1)]),
        1 := ListOf([At(2)]),
        2 := DictOf(map["id" := Atom(Str("i")), "f" := Atom(Num(1.0))])]
  }

  /** Changing `f` of item `i` of `a` changes it under `b`, which the change does not mention. */
  lemma AliasChangesBoth()
    ensures Selects(Aliased(), 0, "a", Str("i"), 0)
    ensures var edited := ApplyInPlace(Aliased(), 0, Cell("a", Str("i"), "f", Num(1.0), Num(2.0)), Atom(Num(2.0)));
            && edited.Ok?
            && Follow(Aliased(), At(0), [Key("b"), Index(0), Key("f")]) == Some(Atom(Num(1.0)))
            && Follow(edited.value, At(0), [Key("b"), Index(0), Key("f")]) == Some(Atom(Num(2.0)))
  {
    var h := Aliased();
    assert Answers(h, At(2), Str("i"));
    assert Answering(h, [At(2)][..0], Str("i")) == [];
    assert Answering(h, [At(2)], Str("i")) == [0];
    var p := [Key("b"), Index(0), Key("f")];
    assert p[1..] == [Index(0), Key("f")] && p[1..][1..] == [Key("f")] && p[1..][1..][1..] == [];
    ThreeHops(h, At(0), p);
    ThreeHops(ApplyInPlace(h, 0, Cell("a", Str("i"), "f", Num(1.0), Num(2.0)), Atom(Num(2.0))).value, At(0), p);
  }

  lemma OneHop(h: Heap, s: Slot, hop: Hop)
    ensures Follow(h, s, [hop]) == Child(h, s, hop)
  {
    assert [hop][1..] == [];
  }

  lemma ThreeHops(h: Heap, s: Slot, p: Path)
    requires |p| == 3 && Child(h, s, p[0]).Some? && Child(h, Child(h, s, p[0]).value, p[1]).Some?
    ensures Follow(h, s, p) == Child(h, Child(h, Child(h, s, p[0]).value, p[1]).value, p[2])
  {
    var a := Child(h, s, p[0]).value;
    var b := Child(h, a, p[1]).value;
    assert p[1..][1..] == [p[2]] && [p[2]][1..] == [];
    assert Follow(h, b, [p[2]]) == Child(h, b, p[2]);
    assert Follow(h, a, p[1..]) == Follow(h, b, [p[2]]);
  }

  // ----- documents without aliases -----

  /** No object is reached by two paths, from the same slot or from two. */
  ghost predicate Forest(h: Heap, slots: seq<Slot>) {
    forall i, j, p, q, t ::
      0 <= i < |slots| && 0 <= j < |slots| && Follow(h, slots[i], p) == Some(At(t)) && Follow(h, slots[j], q) == Some(At(t)) ==>
        i == j && p == q
  }

  /**
   A document and the new values still to come: the objects spell them out, and share nothing. So it
   is for a base without aliases and a manifest, which is JSON.
   */
  ghost predicate Sound(h: Heap, root: Ref, doc: Fields, slots: seq<Slot>, values: seq<Value>) {
    && Denotes(h, At(root), Dict(doc))
    && |slots| == |values| && (forall k :: 0 <= k < |slots| ==> Denotes(h, slots[k], values[k]))
    && Forest(h, [At(root)] + slots)
  }

  lemma ReachedChild(h: Heap, s: Slot, hop: Hop, t: Ref)
    requires Child(h, s, hop).Some? && Reached(h, Child(h, s, hop).value, t)
    ensures exists q :: q != [] && q[0] == hop && Follow(h, s, q) == Some(At(t))
  {
    var p :| Follow(h, Child(h, s, hop).value, p) == Some(At(t));
    var q := [hop] + p;
    assert q[1..] == p;
    assert Follow(h, s, q) == Some(At(t));
  }

  /** What does not reach the assigned object spells out the same value. */
  lemma {:induction false} DenotesStill(h: Heap, t: Ref, f: string, put: Slot, s: Slot, v: Value)
    requires IsDict(h, t) && Denotes(h, s, v) && !Reached(h, s, t)
    ensures Denotes(Assign(h, t, f, put), s, v)
    decreases v
  {
    assert s != At(t) by {
      assert Follow(h, s, []) == Some(s);
    }
    match v
    case List(items) =>
      forall i | 0 <= i < |items|
        ensures Denotes(Assign(h, t, f, put), h[s.ref].items[i], items[i])
      {
        UnreachedChild(h, s, Index(i), t);
        DenotesStill(h, t, f, put, h[s.ref].items[i], items[i]);
      }
    case Dict(fields) =>
      forall k | k in fields
        ensures Denotes(Assign(h, t, f, put), h[s.ref].fields[k], fields[k])
      {
        UnreachedChild(h, s, Key(k), t);
        DenotesStill(h, t, f, put, h[s.ref].fields[k], fields[k]);
      }
    case _ =>
  }

  lemma UnreachedChild(h: Heap, s: Slot, hop: Hop, t: Ref)
    requires Child(h, s, hop).Some? && !Reached(h, s, t)
    ensures !Reached(h, Child(h, s, hop).value, t)
  {
    if Reached(h, Child(h, s, hop).value, t) {
      ReachedChild(h, s, hop, t);
    }
  }

  /** A value with one field of the dictionary at the path replaced. */
  function Put(v: Value, p: Path, f: string, w: Value): Value
    decreases p
  {
    if p == [] then (if v.Dict? then Dict(v.fields[f := w]) else v)
    else
      match p[0]
      case Key(k) => if v.Dict? && k in v.fields then Dict(v.fields[k := Put(v.fields[k], p[1..], f, w)]) else v
      case Index(i) => if v.List? && i < |v.items| then List(v.items[i := Put(v.items[i], p[1..], f, w)]) else v
  }

  lemma OnlyChild(h: Heap, s: Slot, p: Path, t: Ref, hop: Hop)
    requires p != [] && Only(h, s, p, t) && Child(h, s, hop).Some?
    ensures s != At(t)
    ensures if hop == p[0] then Only(h, Child(h, s, hop).value, p[1..], t) else !Reached(h, Child(h, s, hop).value, t)
  {
    assert Follow(h, s, []) == Some(s);
    var c := Child(h, s, hop).value;
    if hop == p[0] {
      forall q | Follow(h, c, q) == Some(At(t))
        ensures q == p[1..]
      {
        assert ([hop] + q)[1..] == q;
        assert Follow(h, s, [hop] + q) == Some(At(t));
      }
    } else if Reached(h, c, t) {
      ReachedChild(h, s, hop, t);
    }
  }

  /** An assignment in place does to the value what `Put` does. */
  lemma {:induction false} AssignDenotes(h: Heap, s: Slot, v: Value, p: Path, t: Ref, f: string, put: Slot, w: Value)
    requires IsDict(h, t) && Denotes(h, s, v) && Only(h, s, p, t)
    requires Denotes(h, put, w) && !Reached(h, put, t)
    ensures Denotes(Assign(h, t, f, put), s, Put(v, p, f, w))
    decreases p
  {
    var h' := Assign(h, t, f, put);
    if p == [] {
      DenotesStill(h, t, f, put, put, w);
      forall k | k in v.fields && k != f
        ensures Denotes(h', h[t].fields[k], v.fields[k])
      {
        OnlyRoot(h, s, t, Key(k));
        DenotesStill(h, t, f, put, h[t].fields[k], v.fields[k]);
      }
    } else {
      assert Child(h, s, p[0]).Some?;
      OnlyChild(h, s, p, t, p[0]);
      match v
      case List(items) =>
        forall i | 0 <= i < |items|
          ensures Denotes(h', h[s.ref].items[i], if Index(i) == p[0] then Put(items[i], p[1..], f, w) else items[i])
        {
          OnlyChild(h, s, p, t, Index(i));
          if Index(i) == p[0] {
            AssignDenotes(h, h[s.ref].items[i], items[i], p[1..], t, f, put, w);
          } else {
            DenotesStill(h, t, f, put, h[s.ref].items[i], items[i]);
          }
        }
      case Dict(fields) =>
        forall k | k in fields
          ensures Denotes(h', h[s.ref].fields[k], if Key(k) == p[0] then Put(fields[k], p[1..], f, w) else fields[k])
        {
          OnlyChild(h, s, p, t, Key(k));
          if Key(k) == p[0] {
            AssignDenotes(h, h[s.ref].fields[k], fields[k], p[1..], t, f, put, w);
          } else {
            DenotesStill(h, t, f, put, h[s.ref].fields[k], fields[k]);
          }
        }
      case _ =>
    }
  }

  lemma OnlyRoot(h: Heap, s: Slot, t: Ref, hop: Hop)
    requires Only(h, s, [], t) && Child(h, s, hop).Some?
    ensures !Reached(h, Child(h, s, hop).value, t)
  {
    if Reached(h, Child(h, s, hop).value, t) {
      ReachedChild(h, s, hop, t);
    }
  }

  /** Where a path into the edited document led before: into the new value's slot, or where it was. */
  function Origin(i: nat, q: Path, p: Path, f: string): (nat, Path) {
    if i > 0 then (i + 1, q)
    else if p + [Key(f)] <= q then (1, q[|p| + 1..])
    else (0, q)
  }

  lemma OriginFollows(h: Heap, slots: seq<Slot>, p: Path, t: Ref, f: string, i: nat, q: Path)
    requires IsDict(h, t) && |slots| >= 2 && i < |slots| - 1 && Forest(h, slots) && Follow(h, slots[0], p) == Some(At(t))
    ensures var o := Origin(i, q, p, f);
            Follow(Assign(h, t, f, slots[1]), ([slots[0]] + slots[2..])[i], q) == Follow(h, slots[o.0], o.1)
  {
    OthersUnreached(h, slots, p, t);
    if i > 0 {
      Unreached(h, slots[i + 1], t, f, slots[1], q);
    } else if p + [Key(f)] <= q {
      var rest := q[|p| + 1..];
      assert q == (p + [Key(f)]) + rest;
      AssignedAt(h, slots[0], p, t, f, slots[1]);
      FollowConcat(Assign(h, t, f, slots[1]), slots[0], p + [Key(f)], rest);
      Unreached(h, slots[1], t, f, slots[1], rest);
    } else {
      OnlyStays(h, slots[0], p, t, f, slots[1]);
    }
  }

  lemma OthersUnreached(h: Heap, slots: seq<Slot>, p: Path, t: Ref)
    requires slots != [] && Forest(h, slots) && Follow(h, slots[0], p) == Some(At(t))
    ensures Only(h, slots[0], p, t)
    ensures forall j :: 1 <= j < |slots| ==> !Reached(h, slots[j], t)
  {
  }

  lemma AssignedAt(h: Heap, s: Slot, p: Path, t: Ref, f: string, put: Slot)
    requires IsDict(h, t) && Only(h, s, p, t)
    ensures Follow(Assign(h, t, f, put), s, p + [Key(f)]) == Some(put)
  {
    if Crosses(h, s, p, t, f) {
      OnlyCrosses(h, s, p, t, f, p);
    }
    AssignElsewhere(h, t, f, put, s, p);
    FollowConcat(Assign(h, t, f, put), s, p, [Key(f)]);
  }

  lemma OriginApart(i: nat, j: nat, q: Path, r: Path, p: Path, f: string)
    requires Origin(i, q, p, f) == Origin(j, r, p, f)
    ensures i == j && q == r
  {
    if i == 0 && j == 0 && p + [Key(f)] <= q && p + [Key(f)] <= r {
      assert q == (p + [Key(f)]) + q[|p| + 1..];
      assert r == (p + [Key(f)]) + r[|p| + 1..];
    }
  }

  /** An assignment of the next new value leaves no object shared. */
  lemma ForestKept(h: Heap, slots: seq<Slot>, p: Path, t: Ref, f: string)
    requires IsDict(h, t) && |slots| >= 2 && Forest(h, slots) && Follow(h, slots[0], p) == Some(At(t))
    ensures Forest(Assign(h, t, f, slots[1]), [slots[0]] + slots[2..])
  {
    var h', left := Assign(h, t, f, slots[1]), [slots[0]] + slots[2..];
    forall i, j, q, r, u | 0 <= i < |left| && 0 <= j < |left|
                           && Follow(h', left[i], q) == Some(At(u)) && Follow(h', left[j], r) == Some(At(u))
      ensures i == j && q == r
    {
      OriginFollows(h, slots, p, t, f, i, q);
      OriginFollows(h, slots, p, t, f, j, r);
      OriginApart(i, j, q, r, p, f);
    }
  }

  lemma AssignSound(h: Heap, root: Ref, doc: Fields, slots: seq<Slot>, values: seq<Value>, p: Path, t: Ref, f: string)
    requires Sound(h, root, doc, slots, values) && slots != []
    requires IsDict(h, t) && Follow(h, At(root), p) == Some(At(t))
    ensures Put(Dict(doc), p, f, values[0]).Dict?
    ensures Sound(Assign(h, t, f, slots[0]), root, Put(Dict(doc), p, f, values[0]).fields, slots[1..], values[1..])
  {
    var all := [At(root)] + slots;
    OthersUnreached(h, all, p, t);
    assert forall k :: 0 <= k < |slots| ==> all[k + 1] == slots[k];
    AssignDenotes(h, At(root), Dict(doc), p, t, f, slots[0], values[0]);
    forall k | 0 <= k < |slots[1..]|
      ensures Denotes(Assign(h, t, f, slots[0]), slots[1..][k], values[1..][k])
    {
      DenotesStill(h, t, f, slots[0], slots[k + 1], values[k + 1]);
    }
    ForestKept(h, all, p, t, f);
    assert [all[0]] + all[2..] == [At(root)] + slots[1..];
  }

  // ----- the value model is what the objects do -----

  /** Objects spell out one value. */
  lemma {:induction false} DenotesOne(h: Heap, s: Slot, v: Value, w: Value)
    requires Denotes(h, s, v) && Denotes(h, s, w)
    ensures v == w
    decreases v
  {
    match v
    case List(items) =>
      forall i | 0 <= i < |items| ensures items[i] == w.items[i] {
        DenotesOne(h, h[s.ref].items[i], items[i], w.items[i]);
      }
    case Dict(fields) =>
      assert fields.Keys == w.fields.Keys;
      forall k | k in fields ensures fields[k] == w.fields[k] {
        DenotesOne(h, h[s.ref].fields[k], fields[k], w.fields[k]);
      }
    case _ =>
  }

  /** Comparing a field's objects with a value is comparing the field's value. */
  lemma ComparesAlike(h: Heap, t: Ref, fields: Fields, key: string, v: Value)
    requires Denotes(h, At(t), Dict(fields))
    ensures Denotes(h, GetSlot(h[t].fields, key), Get(fields, key))
    ensures Denotes(h, GetSlot(h[t].fields, key), v) <==> Get(fields, key) == v
  {
    if Denotes(h, GetSlot(h[t].fields, key), v) {
      DenotesOne(h, GetSlot(h[t].fields, key), Get(fields, key), v);
    }
  }

  lemma AnswersAlike(h: Heap, s: Slot, v: Value, id: Value)
    requires Denotes(h, s, v)
    ensures Answers(h, s, id) <==> Selected(v, id)
  {
    if v.Dict? {
      ComparesAlike(h, s.ref, v.fields, "id", id);
    }
  }

  lemma {:induction false} AnsweringAlike(h: Heap, slots: seq<Slot>, items: seq<Value>, id: Value)
    requires |slots| == |items| && forall k :: 0 <= k < |slots| ==> Denotes(h, slots[k], items[k])
    ensures Answering(h, slots, id) == Matches(items, id)
  {
    hide Denotes, Answers, Selected;
    if slots != [] {
      var last := |slots| - 1;
      AnsweringAlike(h, slots[..last], items[..last], id);
      AnswersAlike(h, slots[last], items[last], id);
    }
  }

  /** What an edit in place comes to: the refusal of the value model, or its value and nothing shared. */
  ghost predicate Mirrors(h': Result<Heap, AmendError>, root: Ref, doc': Result<Fields, AmendError>,
                          slots: seq<Slot>, values: seq<Value>) {
    match h'
    case Ok(after) => doc'.Ok? && Sound(after, root, doc'.value, slots, values)
    case Err(error) => doc' == Err(error)
  }

  lemma DirectSound(h: Heap, root: Ref, doc: Fields, slots: seq<Slot>, values: seq<Value>, e: Edit)
    requires Sound(h, root, doc, slots, values) && slots != [] && e.newValue == values[0] && e.Direct?
    ensures Mirrors(ApplyInPlace(h, root, e, slots[0]), root, Apply(doc, e), slots[1..], values[1..])
  {
    ComparesAlike(h, root, doc, e.field, e.oldValue);
    assert Follow(h, At(root), []) == Some(At(root));
    AssignSound(h, root, doc, slots, values, [], root, e.field);
  }

  /** The collection's list, on objects and in the value. */
  lemma CollectionAlike(h: Heap, root: Ref, doc: Fields, c: string, id: Value)
    requires Denotes(h, At(root), Dict(doc))
    ensures var list := GetSlot(h[root].fields, c);
            && (Get(doc, c).List? <==> list.At? && IsList(h, list.ref))
            && (Get(doc, c).List? ==> c in doc && Answering(h, h[list.ref].items, id) == Matches(doc[c].items, id))
            && (forall i :: Get(doc, c).List? && 0 <= i < |doc[c].items| ==>
                  Child(h, list, Index(i)).Some? && Denotes(h, Child(h, list, Index(i)).value, doc[c].items[i]))
  {
    ComparesAlike(h, root, doc, c, Null);
    if Get(doc, c).List? {
      AnsweringAlike(h, h[GetSlot(h[root].fields, c).ref].items, doc[c].items, id);
    }
  }

  lemma CellRefused(h: Heap, root: Ref, doc: Fields, e: Edit, put: Slot)
    requires Denotes(h, At(root), Dict(doc)) && e.Cell?
    requires Get(doc, e.collection).List? ==> |Matches(doc[e.collection].items, e.id)| != 1
    ensures Apply(doc, e).Err? && ApplyInPlace(h, root, e, put) == Err(Apply(doc, e).error)
  {
    CollectionAlike(h, root, doc, e.collection, e.id);
    hide Matches, Answering, Denotes;
  }

  /** The one selected item, on objects and in the value. */
  lemma CellTaken(h: Heap, root: Ref, doc: Fields, e: Edit, put: Slot, i: nat) returns (t: Ref)
    requires Denotes(h, At(root), Dict(doc)) && e.Cell?
    requires Get(doc, e.collection).List? && Matches(doc[e.collection].items, e.id) == [i]
    ensures OnlyMatch(doc[e.collection].items, e.id, i) && doc[e.collection].items[i].Dict?
    ensures IsDict(h, t) && Follow(h, At(root), [Key(e.collection), Index(i)]) == Some(At(t))
    ensures if Apply(doc, e).Err? then ApplyInPlace(h, root, e, put) == Err(Apply(doc, e).error)
            else ApplyInPlace(h, root, e, put) == Ok(Assign(h, t, e.field, put))
  {
    CollectionAlike(h, root, doc, e.collection, e.id);
    OnlyMatchIff(doc[e.collection].items, e.id, i);
    var target := doc[e.collection].items[i];
    t := SelectedAt(h, root, e.collection, e.id, i);
    assert Denotes(h, At(t), target);
    ComparesAlike(h, t, target.fields, e.field, e.oldValue);
    hide Matches, Answering, Denotes;
    var same := Cell(e.collection, e.id, e.field, e.oldValue, e.newValue);
    assert e == same;
  }

  lemma CellSound(h: Heap, root: Ref, doc: Fields, slots: seq<Slot>, values: seq<Value>, e: Edit)
    requires Sound(h, root, doc, slots, values) && slots != [] && e.newValue == values[0] && e.Cell?
    ensures Mirrors(ApplyInPlace(h, root, e, slots[0]), root, Apply(doc, e), slots[1..], values[1..])
  {
    if Get(doc, e.collection).List? && |Matches(doc[e.collection].items, e.id)| == 1 {
      var i := Matches(doc[e.collection].items, e.id)[0];
      var t := CellTaken(h, root, doc, e, slots[0], i);
      AssignSound(h, root, doc, slots, values, [Key(e.collection), Index(i)], t, e.field);
      PutCell(doc, e.collection, i, e.field, values[0]);
      hide Matches, ApplyInPlace, Sound, Put;
    } else {
      CellRefused(h, root, doc, e, slots[0]);
    }
  }

  lemma PutCell(doc: Fields, c: string, i: nat, f: string, w: Value)
    requires c in doc && doc[c].List? && i < |doc[c].items| && doc[c].items[i].Dict?
    ensures Put(Dict(doc), [Key(c), Index(i)], f, w) ==
            Dict(doc[c := List(doc[c].items[i := Dict(doc[c].items[i].fields[f := w])])])
  {
    var p := [Key(c), Index(i)];
    assert p[1..] == [Index(i)] && p[1..][1..] == [];
    assert Put(doc[c].items[i], [], f, w) == Dict(doc[c].items[i].fields[f := w]);
    assert Put(doc[c], [Index(i)], f, w) == List(doc[c].items[i := Dict(doc[c].items[i].fields[f := w])]);
  }

  lemma ApplySound(h: Heap, root: Ref, doc: Fields, slots: seq<Slot>, values: seq<Value>, e: Edit)
    requires Sound(h, root, doc, slots, values) && slots != [] && e.newValue == values[0]
    ensures Mirrors(ApplyInPlace(h, root, e, slots[0]), root, Apply(doc, e), slots[1..], values[1..])
  {
    if e.Direct? {
      DirectSound(h, root, doc, slots, values, e);
    } else {
      CellSound(h, root, doc, slots, values, e);
    }
  }

  ghost function RunInPlace(h: Heap, root: Ref, edits: seq<Edit>, slots: seq<Slot>): (r: Result<Heap, AmendError>)
    requires IsDict(h, root) && |slots| >= |edits|
    ensures r.Ok? ==> IsDict(r.value, root)
    decreases edits
  {
    if edits == [] then Ok(h)
    else
      var first := ApplyInPlace(h, root, edits[0], slots[0]);
      if first.Err? then first else RunInPlace(first.value, root, edits[1..], slots[1..])
  }

  function ExtendInPlace(h: Heap, t: Ref, additions: seq<(string, Value)>, slots: seq<Slot>): (r: Result<Heap, string>)
    requires IsDict(h, t) && |slots| >= |additions|
    ensures r.Ok? ==> forall u :: IsDict(h, u) ==> IsDict(r.value, u)
  {
    if additions == [] then Ok(h)
    else
      var last := |additions| - 1;
      var earlier := ExtendInPlace(h, t, additions[..last], slots);
      if earlier.Err? then earlier
      else if additions[last].0 in earlier.value[t].fields then Err(additions[last].0)
      else Ok(Assign(earlier.value, t, additions[last].0, slots[last]))
  }

  /** The new values of a manifest, in the order they are used. */
  function NewValues(m: Manifest): seq<Value> {
    EditValues(m.directChanges + m.changes) + Added(m.bindingAdditions) + Added(m.additions)
  }

  function EditValues(edits: seq<Edit>): seq<Value> {
    seq(|edits|, i requires 0 <= i < |edits| => edits[i].newValue)
  }

  function Added(additions: seq<(string, Value)>): seq<Value> {
    seq(|additions|, i requires 0 <= i < |additions| => additions[i].1)
  }

  /** `_build_expected_effective` on the copied objects; `slots` are those of the new values. */
  ghost function EffectiveInPlace(h: Heap, root: Ref, m: Manifest, slots: seq<Slot>): Result<Heap, AmendError>
    requires IsDict(h, root) && |slots| == |NewValues(m)|
  {
    var edits := m.directChanges + m.changes;
    var edited := RunInPlace(h, root, edits, slots);
    if edited.Err? then edited
    else
      var bindings := GetSlot(edited.value[root].fields, BINDINGS);
      if !(bindings.At? && IsDict(edited.value, bindings.ref)) then Err(NoBindings)
      else
        var rest := slots[|edits|..];
        var bound := ExtendInPlace(edited.value, bindings.ref, m.bindingAdditions, rest);
        if bound.Err? then Err(BindingExists(bound.error))
        else
          var extended := ExtendInPlace(bound.value, root, m.additions, rest[|m.bindingAdditions|..]);
          if extended.Err? then Err(FieldExists(extended.error)) else Ok(extended.value)
  }

  lemma {:induction false} RunSound(h: Heap, root: Ref, doc: Fields, slots: seq<Slot>, values: seq<Value>, edits: seq<Edit>)
    requires Sound(h, root, doc, slots, values) && |edits| <= |values| && EditValues(edits) == values[..|edits|]
    ensures Mirrors(RunInPlace(h, root, edits, slots), root, Run(doc, edits), slots[|edits|..], values[|edits|..])
    decreases edits
  {
    assert IsDict(h, root);
    hide Denotes, Forest;
    if edits != [] {
      assert values[0] == EditValues(edits)[0];
      ApplySound(h, root, doc, slots, values, edits[0]);
      var first := ApplyInPlace(h, root, edits[0], slots[0]);
      if first.Ok? {
        assert EditValues(edits[1..]) == EditValues(edits)[1..] == values[1..][..|edits| - 1];
        RunSound(first.value, root, Apply(doc, edits[0]).value, slots[1..], values[1..], edits[1..]);
        assert slots[1..][|edits| - 1..] == slots[|edits|..] && values[1..][|edits| - 1..] == values[|edits|..];
      }
    }
  }

  /** The document with the dictionary that is extended replaced: itself, or its bindings. */
  function Settled(doc: Fields, p: Path, fields: Fields): Fields {
    if p == [] then fields else doc[BINDINGS := Dict(fields)]
  }

  lemma SettledTwice(doc: Fields, p: Path, fields: Fields, fields': Fields)
    ensures Settled(Settled(doc, p, fields), p, fields') == Settled(doc, p, fields')
  {
  }

  ghost predicate Extended(h: Heap, root: Ref, doc: Fields, p: Path, t: Ref, fields: Fields) {
    && (p == [] || p == [Key(BINDINGS)]) && doc == Settled(doc, p, fields)
    && IsDict(h, t) && Follow(h, At(root), p) == Some(At(t))
  }

  lemma ExtendedDict(h: Heap, root: Ref, doc: Fields, p: Path, t: Ref, fields: Fields)
    requires Denotes(h, At(root), Dict(doc)) && Extended(h, root, doc, p, t, fields)
    ensures Denotes(h, At(t), Dict(fields)) && fields.Keys == h[t].fields.Keys
  {
    if p != [] {
      OneHop(h, At(root), p[0]);
      assert doc[BINDINGS] == Dict(fields);
    }
  }

  lemma ExtendOne(h: Heap, root: Ref, doc: Fields, p: Path, t: Ref, fields: Fields, name: string,
                  slots: seq<Slot>, values: seq<Value>)
    requires Sound(h, root, doc, slots, values) && slots != [] && Extended(h, root, doc, p, t, fields)
    ensures var h', fields' := Assign(h, t, name, slots[0]), fields[name := values[0]];
            && Sound(h', root, Settled(doc, p, fields'), slots[1..], values[1..])
            && Extended(h', root, Settled(doc, p, fields'), p, t, fields')
  {
    AssignSound(h, root, doc, slots, values, p, t, name);
    assert Put(Dict(doc), p, name, values[0]) == Dict(Settled(doc, p, fields[name := values[0]])) by {
      if p != [] {
        assert p[1..] == [];
      }
    }
    OthersUnreached(h, [At(root)] + slots, p, t);
    if Crosses(h, At(root), p, t, name) {
      OnlyCrosses(h, At(root), p, t, name, p);
    }
    AssignElsewhere(h, t, name, slots[0], At(root), p);
  }

  lemma {:induction false} ExtendSound(h: Heap, root: Ref, doc: Fields, p: Path, t: Ref, fields: Fields,
                                       additions: seq<(string, Value)>, slots: seq<Slot>, values: seq<Value>)
    requires Sound(h, root, doc, slots, values) && Extended(h, root, doc, p, t, fields)
    requires |additions| <= |values| && Added(additions) == values[..|additions|]
    ensures match ExtendInPlace(h, t, additions, slots)
            case Err(name) => Extend(fields, additions) == Err(name)
            case Ok(h') =>
              && Extend(fields, additions).Ok?
              && var fields' := Extend(fields, additions).value;
                 && Sound(h', root, Settled(doc, p, fields'), slots[|additions|..], values[|additions|..])
                 && Extended(h', root, Settled(doc, p, fields'), p, t, fields')
    decreases additions
  {
    hide Denotes, Forest;
    if additions != [] {
      var last := |additions| - 1;
      assert Added(additions[..last]) == values[..last];
      ExtendSound(h, root, doc, p, t, fields, additions[..last], slots, values);
      var earlier := ExtendInPlace(h, t, additions[..last], slots);
      if earlier.Ok? {
        var sofar := Extend(fields, additions[..last]).value;
        var doc' := Settled(doc, p, sofar);
        ExtendedDict(earlier.value, root, doc', p, t, sofar);
        assert values[last..][0] == Added(additions)[last] && slots[last..][0] == slots[last];
        ExtendOne(earlier.value, root, doc', p, t, sofar, additions[last].0, slots[last..], values[last..]);
        SettledTwice(doc, p, sofar, Extend(fields, additions[..last]).value[additions[last].0 := additions[last].1]);
        assert slots[last..][1..] == slots[|additions|..] && values[last..][1..] == values[|additions|..];
      }
    }
  }

  /**
   Without aliases the objects and the value model agree: the same refusal, or objects that spell out
   exactly the effective document.
   */
  lemma TreeEffective(h: Heap, root: Ref, base: Fields, m: Manifest, slots: seq<Slot>)
    requires Sound(h, root, base, slots, NewValues(m))
    ensures match EffectiveInPlace(h, root, m, slots)
            case Ok(h') => Effective(base, m).Ok? && Denotes(h', At(root), Dict(Effective(base, m).value))
            case Err(error) => Effective(base, m) == Err(error)
  {
    var edits, values := m.directChanges + m.changes, NewValues(m);
    assert EditValues(edits) == values[..|edits|];
    RunSound(h, root, base, slots, values, edits);
    var edited := RunInPlace(h, root, edits, slots);
    if edited.Ok? {
      var doc := Run(base, edits).value;
      ComparesAlike(edited.value, root, doc, BINDINGS, Null);
      if Get(doc, BINDINGS).Dict? {
        AdditionsSound(edited.value, root, doc, m, slots[|edits|..], values[|edits|..]);
      }
    }
  }

  lemma AdditionsSound(h: Heap, root: Ref, doc: Fields, m: Manifest, slots: seq<Slot>, values: seq<Value>)
    requires Sound(h, root, doc, slots, values) && values == Added(m.bindingAdditions) + Added(m.additions)
    requires Get(doc, BINDINGS).Dict?
    ensures var b := GetSlot(h[root].fields, BINDINGS);
            && b.At? && IsDict(h, b.ref)
            && var bound, bindings := ExtendInPlace(h, b.ref, m.bindingAdditions, slots),
                                    Extend(doc[BINDINGS].fields, m.bindingAdditions);
               match bound
               case Err(name) => bindings == Err(name)
               case Ok(h') =>
                 && bindings.Ok?
                 && var all := Extend(doc[BINDINGS := Dict(bindings.value)], m.additions);
                    match ExtendInPlace(h', root, m.additions, slots[|m.bindingAdditions|..])
                    case Err(name) => all == Err(name)
                    case Ok(h'') => all.Ok? && Denotes(h'', At(root), Dict(all.value))
  {
    var n, b, p := |m.bindingAdditions|, GetSlot(h[root].fields, BINDINGS), [Key(BINDINGS)];
    OneHop(h, At(root), p[0]);
    assert b == h[root].fields[BINDINGS] && Denotes(h, b, doc[BINDINGS]);
    assert doc == Settled(doc, p, doc[BINDINGS].fields);
    assert Added(m.bindingAdditions) == values[..n] && Added(m.additions) == values[n..];
    ExtendSound(h, root, doc, p, b.ref, doc[BINDINGS].fields, m.bindingAdditions, slots, values);
    var bound := ExtendInPlace(h, b.ref, m.bindingAdditions, slots);
    if bound.Ok? {
      var doc' := doc[BINDINGS := Dict(Extend(doc[BINDINGS].fields, m.bindingAdditions).value)];
      assert Follow(bound.value, At(root), []) == Some(At(root));
      assert values[n..][..|m.additions|] == values[n..];
      ExtendSound(bound.value, root, doc', [], root, doc', m.additions, slots[n..], values[n..]);
    }
  }
}
