/**
 Amendments of the experiment matrix: how an effective document is built from a base and a manifest,
 and exactly when the manifest can be undone.
 */
module Amendments {
  import opened Wrappers

  /**
   A document value, up to Python's `==`: booleans, integers and floats are the numbers they equal,
   so `true` and `1` are one value here as they are for the old-value checks.
   */
  datatype Value = Null | Num(n: real) | Str(s: string) | List(items: seq<Value>) | Dict(fields: map<string, Value>)

  type Fields = map<string, Value>

  /** `fields.get(key)`. */
  function Get(fields: Fields, key: string): Value {
    if key in fields then fields[key] else Null
  }

  const BINDINGS := "immutable_bindings"

  // ----- one edit -----

  /** A direct change of a top-level field, or a change of one item's field selected by collection and id. */
  datatype Edit =
    | Direct(field: string, oldValue: Value, newValue: Value)
    | Cell(collection: string, id: Value, field: string, oldValue: Value, newValue: Value)
  {
    function Inverse(): Edit {
      this.(oldValue := newValue, newValue := oldValue)
    }
  }

  datatype AmendError =
    | NotAList | NotOneItem | OldValueMismatch | NoBindings | BindingExists(name: string) | FieldExists(name: string)

  predicate Selected(item: Value, id: Value) {
    item.Dict? && Get(item.fields, "id") == id
  }

  /** The positions of the selected items, in order. */
  function Matches(items: seq<Value>, id: Value): seq<nat> {
    if items == [] then []
    else
      var last := |items| - 1;
      Matches(items[..last], id) + if Selected(items[last], id) then [last] else []
  }

  lemma {:induction false} MatchesAre(items: seq<Value>, id: Value)
    ensures forall i :: i in Matches(items, id) <==> 0 <= i < |items| && Selected(items[i], id)
    ensures forall j, k :: 0 <= j < k < |Matches(items, id)| ==> Matches(items, id)[j] < Matches(items, id)[k]
  {
    if items != [] {
      MatchesAre(items[..|items| - 1], id);
      var earlier := Matches(items[..|items| - 1], id);
      assert forall j :: 0 <= j < |earlier| ==> earlier[j] in earlier;
    }
  }

  /** Exactly one item is selected, and it is this one. */
  ghost predicate OnlyMatch(items: seq<Value>, id: Value, i: nat) {
    i < |items| && forall k :: 0 <= k < |items| ==> (Selected(items[k], id) <==> k == i)
  }

  lemma {:induction false} NoMatchIff(items: seq<Value>, id: Value)
    ensures Matches(items, id) == [] <==> forall k :: 0 <= k < |items| ==> !Selected(items[k], id)
  {
    if items != [] {
      NoMatchIff(items[..|items| - 1], id);
    }
  }

  lemma {:induction false} OnlyMatchIff(items: seq<Value>, id: Value, i: nat)
    ensures Matches(items, id) == [i] <==> OnlyMatch(items, id, i)
  {
    hide Selected;
    if items != [] {
      var rest, last := items[..|items| - 1], |items| - 1;
      assert items == rest + [items[last]];
      OnlyMatchIff(rest, id, i);
      if Selected(items[last], id) {
        NoMatchIff(rest, id);
        LastIs(Matches(rest, id), last, i);
        assert OnlyMatch(items, id, i) <==> i == last && forall k :: 0 <= k < last ==> !Selected(rest[k], id);
      } else {
        assert OnlyMatch(items, id, i) <==> OnlyMatch(rest, id, i);
      }
    }
  }

  lemma LastIs(xs: seq<nat>, last: nat, i: nat)
    ensures xs + [last] == [i] <==> xs == [] && last == i
  {
    assert (xs + [last])[|xs|] == last;
  }

  function Apply(doc: Fields, e: Edit): Result<Fields, AmendError> {
    match e
    case Direct(field, oldValue, newValue) =>
      if Get(doc, field) != oldValue then Err(OldValueMismatch) else Ok(doc[field := newValue])
    case Cell(collection, id, field, oldValue, newValue) =>
      if !Get(doc, collection).List? then Err(NotAList)
      else
        var items := doc[collection].items;
        var matches := Matches(items, id);
        if |matches| != 1 then Err(NotOneItem)
        else
          MatchesAre(items, id);
          assert matches[0] in matches;
          var target := items[matches[0]].fields;
          if Get(target, field) != oldValue then Err(OldValueMismatch)
          else Ok(doc[collection := List(items[matches[0] := Dict(target[field := newValue])])])
  }

  /**
   What an edit does, and when it is refused: the old value must be what is there, absent counting as
   null; a cell edit needs its collection to be a list with exactly one item of that id.
   */
  lemma ApplyIs(doc: Fields, e: Edit)
    ensures e.Direct? ==>
              var there := if e.field in doc then doc[e.field] else Null;
              Apply(doc, e) == if there == e.oldValue then Ok(doc[e.field := e.newValue]) else Err(OldValueMismatch)
    ensures e.Cell? && !(e.collection in doc && doc[e.collection].List?) ==> Apply(doc, e) == Err(NotAList)
    ensures e.Cell? && e.collection in doc && doc[e.collection].List? ==>
              var items := doc[e.collection].items;
              && ((forall i: nat :: !OnlyMatch(items, e.id, i)) ==> Apply(doc, e) == Err(NotOneItem))
              && forall i: nat :: OnlyMatch(items, e.id, i) ==>
                   items[i].Dict? &&
                   var there := if e.field in items[i].fields then items[i].fields[e.field] else Null;
                   Apply(doc, e) ==
                   if there == e.oldValue then Ok(doc[e.collection := List(items[i := Dict(items[i].fields[e.field := e.newValue])])])
                   else Err(OldValueMismatch)
  {
    if e.Cell? && e.collection in doc && doc[e.collection].List? {
      var items := doc[e.collection].items;
      forall i: nat
        ensures OnlyMatch(items, e.id, i) <==> Matches(items, e.id) == [i]
      {
        OnlyMatchIff(items, e.id, i);
      }
      hide Matches;
      if |Matches(items, e.id)| == 1 {
        assert Matches(items, e.id) == [Matches(items, e.id)[0]];
      }
    }
  }

  /** The edit fills a field that was not there, under a null old value. */
  predicate Creates(doc: Fields, e: Edit)
    requires Apply(doc, e).Ok?
  {
    match e
    case Direct(field, _, _) => field !in doc
    case Cell(collection, id, field, _, _) =>
      var items := doc[collection].items;
      MatchesAre(items, id);
      assert Matches(items, id)[0] in Matches(items, id);
      field !in items[Matches(items, id)[0]].fields
  }

  /** The edit renames the very item it selects. */
  predicate Renames(e: Edit) {
    e.Cell? && e.field == "id" && e.newValue != e.id
  }

  lemma DirectInverse(doc: Fields, e: Edit)
    requires e.Direct? && Apply(doc, e).Ok?
    ensures Apply(Apply(doc, e).value, e.Inverse()) == Ok(doc) <==> e.field in doc
  {
    var after := Apply(doc, e).value;
    if e.field in doc {
      assert after[e.field := e.oldValue] == doc;
    } else {
      assert e.field in after[e.field := e.oldValue];
    }
  }

  /** What a cell edit does, and the position it does it at. */
  lemma CellAfter(doc: Fields, e: Edit, i: nat)
    requires e.Cell? && Apply(doc, e).Ok? && Matches(doc[e.collection].items, e.id) == [i]
    ensures e.collection in doc && doc[e.collection].List? && OnlyMatch(doc[e.collection].items, e.id, i)
    ensures doc[e.collection].items[i].Dict? && Get(doc[e.collection].items[i].fields, e.field) == e.oldValue
    ensures var items := doc[e.collection].items;
            Apply(doc, e).value ==
            doc[e.collection := List(items[i := Dict(items[i].fields[e.field := e.newValue])])]
  {
    OnlyMatchIff(doc[e.collection].items, e.id, i);
  }

  lemma MatchedOne(doc: Fields, e: Edit) returns (i: nat)
    requires e.Cell? && Apply(doc, e).Ok?
    ensures Matches(doc[e.collection].items, e.id) == [i]
  {
    i := Matches(doc[e.collection].items, e.id)[0];
  }

  /** A renamed item no longer answers to the id the inverse looks for. */
  lemma RenameLost(items: seq<Value>, items': seq<Value>, id: Value, i: nat)
    requires OnlyMatch(items, id, i) && |items'| == |items| && items' == items[i := items'[i]] && !Selected(items'[i], id)
    ensures Matches(items', id) == []
  {
    NoMatchIff(items', id);
  }

  lemma CellRenamed(doc: Fields, e: Edit)
    requires e.Cell? && Apply(doc, e).Ok? && Renames(e)
    ensures Apply(Apply(doc, e).value, e.Inverse()).Err?
  {
    var i := MatchedOne(doc, e);
    CellAfter(doc, e, i);
    var items, items' := doc[e.collection].items, Apply(doc, e).value[e.collection].items;
    RenameLost(items, items', e.id, i);
  }

  lemma CellInverse(doc: Fields, e: Edit)
    requires e.Cell? && Apply(doc, e).Ok? && !Renames(e)
    ensures Apply(Apply(doc, e).value, e.Inverse()) == Ok(doc) <==> !Creates(doc, e)
  {
    var i := MatchedOne(doc, e);
    CellAfter(doc, e, i);
    var items, after := doc[e.collection].items, Apply(doc, e).value;
    var target := items[i].fields;
    var items' := after[e.collection].items;
    OnlyMatchIff(items', e.id, i);
    var back := target[e.field := e.newValue][e.field := e.oldValue];
    var items'' := items'[i := Dict(back)];
    assert Apply(after, e.Inverse()) == Ok(after[e.collection := List(items'')]);
    if e.field in target {
      assert back == target;
      assert items'' == items;
      assert after[e.collection := List(items'')] == doc;
    } else {
      assert e.field in back;
      assert items''[i] != items[i];
    }
  }

  /** Reversing an edit right away restores the document exactly when it neither creates nor renames. */
  lemma InverseIff(doc: Fields, e: Edit)
    requires Apply(doc, e).Ok?
    ensures Apply(Apply(doc, e).value, e.Inverse()) == Ok(doc) <==> !Creates(doc, e) && !Renames(e)
    ensures Renames(e) ==> Apply(Apply(doc, e).value, e.Inverse()).Err?
  {
    hide Apply, Matches;
    if e.Direct? {
      DirectInverse(doc, e);
    } else if Renames(e) {
      CellRenamed(doc, e);
    } else {
      CellInverse(doc, e);
    }
  }

  // ----- runs of edits -----

  function Run(doc: Fields, edits: seq<Edit>): Result<Fields, AmendError>
    decreases edits
  {
    if edits == [] then Ok(doc)
    else
      var first := Apply(doc, edits[0]);
      if first.Err? then first else Run(first.value, edits[1..])
  }

  /** The inverse edits, the last one first. */
  function UndoRun(doc: Fields, edits: seq<Edit>): Result<Fields, AmendError> {
    if edits == [] then Ok(doc)
    else
      var later := UndoRun(doc, edits[1..]);
      if later.Err? then later else Apply(later.value, edits[0].Inverse())
  }

  /** No edit of the run creates a field or renames its item. */
  predicate Faithful(doc: Fields, edits: seq<Edit>)
    requires Run(doc, edits).Ok?
    decreases edits
  {
    edits == [] ||
    (!Creates(doc, edits[0]) && !Renames(edits[0]) && Faithful(Apply(doc, edits[0]).value, edits[1..]))
  }

  /** A place a value can be stored: a top-level field, a field of one item of a collection, or a binding. */
  datatype Place = Top(field: string) | Item(collection: string, index: nat, field: string) | Binding(name: string)

  function ItemAt(doc: Fields, collection: string, index: nat): Option<Value> {
    if collection in doc && doc[collection].List? && index < |doc[collection].items| then
      Some(doc[collection].items[index])
    else None
  }

  /** What is stored at a place, if anything. */
  function Stored(doc: Fields, p: Place): Option<Value> {
    match p
    case Top(field) => if field in doc then Some(doc[field]) else None
    case Item(collection, index, field) =>
      var item := ItemAt(doc, collection, index);
      if item.Some? && item.value.Dict? && field in item.value.fields then Some(item.value.fields[field]) else None
    case Binding(name) =>
      if Get(doc, BINDINGS).Dict? && name in doc[BINDINGS].fields then Some(doc[BINDINGS].fields[name]) else None
  }

  predicate Present(doc: Fields, p: Place) { Stored(doc, p).Some? }

  /** Something is stored in `d` where `s` stores nothing. */
  ghost predicate Padded(d: Fields, s: Fields) {
    exists p :: Present(d, p) && !Present(s, p)
  }

  /** A change of one item's field removes nothing anywhere. */
  lemma CellKeepsPlaces(doc: Fields, e: Edit, p: Place)
    requires e.Cell? && Apply(doc, e).Ok? && Present(doc, p)
    ensures Present(Apply(doc, e).value, p)
  {
    MatchesAre(doc[e.collection].items, e.id);
  }

  /** Undoing an edit cannot take away what an earlier undo left behind. */
  lemma PaddingStays(s: Fields, d: Fields, e: Edit)
    requires Apply(s, e).Ok? && Padded(d, Apply(s, e).value)
    requires Apply(d, e.Inverse()).Ok?
    ensures Padded(Apply(d, e.Inverse()).value, s)
  {
    var s', d' := Apply(s, e).value, Apply(d, e.Inverse()).value;
    var p :| Present(d, p) && !Present(s', p);
    if e.Cell? {
      if Present(s, p) {
        CellKeepsPlaces(s, e, p);
      }
      CellKeepsPlaces(d, e.Inverse(), p);
    } else {
      assert e.field in d ==> d[e.field] == e.newValue;
      assert s'[e.field] == e.newValue;
      match p
      case Top(field) =>
      case Item(collection, _, _) =>
        assert collection != e.field;
      case Binding(_) =>
    }
    assert Present(d', p) && !Present(s, p);
  }

  lemma CreatePads(doc: Fields, e: Edit)
    requires Apply(doc, e).Ok? && Creates(doc, e) && !Renames(e)
    ensures Apply(Apply(doc, e).value, e.Inverse()).Ok? ==>
              Padded(Apply(Apply(doc, e).value, e.Inverse()).value, doc)
  {
    var after := Apply(doc, e).value;
    var undone := Apply(after, e.Inverse());
    if undone.Ok? {
      match e
      case Direct(field, _, _) =>
        assert Present(undone.value, Top(field)) && !Present(doc, Top(field));
      case Cell(collection, id, field, _, _) =>
        MatchesAre(doc[collection].items, id);
        var i := Matches(doc[collection].items, id)[0];
        assert i in Matches(doc[collection].items, id);
        var p := Item(collection, i, field);
        assert Present(after, p);
        CellKeepsPlaces(after, e.Inverse(), p);
        assert !Present(doc, p);
    }
  }

  /** Once padded, an undo never comes back to the document it started from. */
  lemma {:induction false} PaddedNeverRecovers(s: Fields, d: Fields, edits: seq<Edit>)
    requires Run(s, edits).Ok? && Padded(d, Run(s, edits).value)
    ensures UndoRun(d, edits).Ok? ==> Padded(UndoRun(d, edits).value, s)
    decreases edits
  {
    if edits != [] {
      var s' := Apply(s, edits[0]).value;
      PaddedNeverRecovers(s', d, edits[1..]);
      if UndoRun(d, edits).Ok? {
        PaddingStays(s, UndoRun(d, edits[1..]).value, edits[0]);
      }
    }
  }

  /** The whole run can be undone back to its start exactly when it is faithful. */
  lemma {:induction false} UndoRunIff(s: Fields, edits: seq<Edit>)
    requires Run(s, edits).Ok?
    ensures UndoRun(Run(s, edits).value, edits) == Ok(s) <==> Faithful(s, edits)
    ensures var undone := UndoRun(Run(s, edits).value, edits);
            undone.Err? || undone.value == s || Padded(undone.value, s)
    decreases edits
  {
    if edits != [] {
      var e, s' := edits[0], Apply(s, edits[0]).value;
      var end := Run(s, edits).value;
      UndoRunIff(s', edits[1..]);
      var later := UndoRun(end, edits[1..]);
      if later.Ok? && later.value != s' {
        if Apply(later.value, e.Inverse()).Ok? {
          PaddingStays(s, later.value, e);
        }
      } else if later.Ok? {
        InverseIff(s, e);
        if Creates(s, e) && !Renames(e) {
          CreatePads(s, e);
        }
      }
    }
  }

  /** Non-null old values and no change of an `id` field are enough, whatever the base. */
  predicate Plain(edits: seq<Edit>) {
    forall e :: e in edits ==> e.oldValue != Null && (e.Cell? ==> e.field != "id")
  }

  lemma {:induction false} PlainIsFaithful(s: Fields, edits: seq<Edit>)
    requires Run(s, edits).Ok? && Plain(edits)
    ensures Faithful(s, edits)
    decreases edits
  {
    if edits != [] {
      var e := edits[0];
      assert e.oldValue != Null;
      PlainIsFaithful(Apply(s, e).value, edits[1..]);
      if e.Cell? {
        MatchesAre(s[e.collection].items, e.id);
      }
    }
  }

  // ----- the effective document -----

  datatype Manifest = Manifest(
    directChanges: seq<Edit>, changes: seq<Edit>,
    bindingAdditions: seq<(string, Value)>, additions: seq<(string, Value)>)

  /** A manifest as parsed: direct changes and changes in their places, no key added twice. */
  predicate Shaped(m: Manifest) {
    && (forall e :: e in m.directChanges ==> e.Direct?)
    && (forall e :: e in m.changes ==> e.Cell?)
    && (forall i, j :: 0 <= i < j < |m.bindingAdditions| ==> m.bindingAdditions[i].0 != m.bindingAdditions[j].0)
    && (forall i, j :: 0 <= i < j < |m.additions| ==> m.additions[i].0 != m.additions[j].0)
  }

  /** Adds fields that must be new; the first that is not is the error. */
  function Extend(fields: Fields, additions: seq<(string, Value)>): Result<Fields, string> {
    if additions == [] then Ok(fields)
    else
      var last := additions[|additions| - 1];
      var earlier := Extend(fields, additions[..|additions| - 1]);
      if earlier.Err? then earlier
      else if last.0 in earlier.value then Err(last.0)
      else Ok(earlier.value[last.0 := last.1])
  }

  /** Additions are accepted when each is new, and each is then there with its value. */
  lemma {:induction false} ExtendIff(fields: Fields, additions: seq<(string, Value)>)
    ensures Extend(fields, additions).Ok? <==>
            && (forall i :: 0 <= i < |additions| ==> additions[i].0 !in fields)
            && forall i, j :: 0 <= i < j < |additions| ==> additions[i].0 != additions[j].0
    ensures Extend(fields, additions).Ok? ==>
              forall i :: 0 <= i < |additions| ==>
                additions[i].0 in Extend(fields, additions).value && Extend(fields, additions).value[additions[i].0] == additions[i].1
    ensures Extend(fields, additions).Ok? ==>
              forall k :: k in Extend(fields, additions).value ==> k in fields || exists i :: 0 <= i < |additions| && additions[i].0 == k
    ensures Extend(fields, additions).Ok? ==> forall k :: k in fields ==> k in Extend(fields, additions).value
  {
    if additions != [] {
      var last := |additions| - 1;
      ExtendIff(fields, additions[..last]);
      assert forall i :: 0 <= i < last ==> additions[..last][i] == additions[i];
    }
  }

  function Names(additions: seq<(string, Value)>): set<string> {
    set a | a in additions :: a.0
  }

  function Effective(base: Fields, m: Manifest): Result<Fields, AmendError> {
    var edited := Run(base, m.directChanges + m.changes);
    if edited.Err? then edited
    else if !Get(edited.value, BINDINGS).Dict? then Err(NoBindings)
    else
      var bindings := Extend(edited.value[BINDINGS].fields, m.bindingAdditions);
      if bindings.Err? then Err(BindingExists(bindings.error))
      else
        var extended := Extend(edited.value[BINDINGS := Dict(bindings.value)], m.additions);
        if extended.Err? then Err(FieldExists(extended.error)) else Ok(extended.value)
  }

  /** The effective document holds every addition, the bindings' among the bindings. */
  lemma EffectiveHas(base: Fields, m: Manifest)
    requires Effective(base, m).Ok?
    ensures var effective := Effective(base, m).value;
            && (forall i :: 0 <= i < |m.additions| ==>
                  m.additions[i].0 in effective && effective[m.additions[i].0] == m.additions[i].1)
            && "immutable_bindings" in effective && effective["immutable_bindings"].Dict?
            && forall i :: 0 <= i < |m.bindingAdditions| ==>
                 && m.bindingAdditions[i].0 in effective["immutable_bindings"].fields
                 && effective["immutable_bindings"].fields[m.bindingAdditions[i].0] == m.bindingAdditions[i].1
  {
    hide Extend, Run;
    var edited := Run(base, m.directChanges + m.changes).value;
    var bindings := Extend(edited[BINDINGS].fields, m.bindingAdditions).value;
    ExtendIff(edited[BINDINGS].fields, m.bindingAdditions);
    ExtendIff(edited[BINDINGS := Dict(bindings)], m.additions);
    ExtendUndone(edited[BINDINGS := Dict(bindings)], m.additions);
  }

  /** Removes the additions, then reverses the changes, then the direct changes. */
  function Undo(effective: Fields, m: Manifest): Result<Fields, AmendError> {
    var trimmed := effective - Names(m.additions);
    if !Get(trimmed, BINDINGS).Dict? then Err(NoBindings)
    else
      UndoRun(trimmed[BINDINGS := Dict(trimmed[BINDINGS].fields - Names(m.bindingAdditions))],
              m.directChanges + m.changes)
  }

  lemma {:induction false} ExtendUndone(fields: Fields, additions: seq<(string, Value)>)
    requires Extend(fields, additions).Ok?
    ensures Extend(fields, additions).value - Names(additions) == fields
    ensures Extend(fields, additions).value.Keys == fields.Keys + Names(additions) && fields.Keys !! Names(additions)
    ensures forall k :: k in fields ==> Extend(fields, additions).value[k] == fields[k]
  {
    if additions != [] {
      var rest, last := additions[..|additions| - 1], additions[|additions| - 1];
      ExtendUndone(fields, rest);
      assert forall a :: a in additions <==> a in rest || a == last;
      assert Names(additions) == Names(rest) + {last.0};
    }
  }

  /**
   Amendments are invertible: undoing an effective document recovers its base exactly when no edit
   created a field under a null old value and none renamed the item it selects.
   */
  lemma InvertibleIff(base: Fields, m: Manifest)
    requires Effective(base, m).Ok?
    ensures Undo(Effective(base, m).value, m) == Ok(base) <==> Faithful(base, m.directChanges + m.changes)
  {
    var edits := m.directChanges + m.changes;
    var edited := Run(base, edits).value;
    var bindings := Extend(edited[BINDINGS].fields, m.bindingAdditions).value;
    var bound := edited[BINDINGS := Dict(bindings)];
    ExtendUndone(edited[BINDINGS].fields, m.bindingAdditions);
    ExtendUndone(bound, m.additions);
    assert bound[BINDINGS := Dict(bindings - Names(m.bindingAdditions))] == edited;
    UndoRunIff(base, edits);
  }

  /** The manifest alone shows it: non-null old values and no change to an `id` field. */
  lemma PlainManifestInvertible(base: Fields, m: Manifest)
    requires Effective(base, m).Ok? && Plain(m.directChanges + m.changes)
    ensures Undo(Effective(base, m).value, m) == Ok(base)
  {
    PlainIsFaithful(base, m.directChanges + m.changes);
    InvertibleIff(base, m);
  }

  /** The top-level fields an edit can reach. */
  function Touched(edits: seq<Edit>): set<string> {
    set e | e in edits :: if e.Direct? then e.field else e.collection
  }

  lemma {:induction false} RunTouches(s: Fields, edits: seq<Edit>, f: string)
    requires Run(s, edits).Ok? && f !in Touched(edits)
    ensures f in s <==> f in Run(s, edits).value
    ensures f in s ==> Run(s, edits).value[f] == s[f]
    decreases edits
  {
    if edits != [] {
      assert edits[0] in edits;
      RunTouches(Apply(s, edits[0]).value, edits[1..], f);
    }
  }

  lemma {:induction false} RunKeepsField(s: Fields, edits: seq<Edit>, c: string, i: nat, f: string)
    requires Run(s, edits).Ok? && forall e :: e in edits ==> !(e.Direct? && e.field == c)
    requires forall e :: e in edits ==> !(e.Cell? && e.collection == c && e.field == f)
    ensures Stored(Run(s, edits).value, Item(c, i, f)) == Stored(s, Item(c, i, f))
    decreases edits
  {
    if edits != [] {
      var e := edits[0];
      assert e in edits;
      if e.Cell? && e.collection == c {
        var k := MatchedOne(s, e);
        CellAfter(s, e, k);
      }
      RunKeepsField(Apply(s, e).value, edits[1..], c, i, f);
    }
  }

  /** No selector of the run names the item by its id. */
  predicate Unselected(doc: Fields, edits: seq<Edit>, c: string, i: nat) {
    forall e :: e in edits && e.Cell? && e.collection == c && ItemAt(doc, c, i).Some? ==>
      !Selected(ItemAt(doc, c, i).value, e.id)
  }

  lemma {:induction false} RunKeepsItem(s: Fields, edits: seq<Edit>, c: string, i: nat)
    requires Run(s, edits).Ok? && forall e :: e in edits ==> !(e.Direct? && e.field == c)
    requires Unselected(s, edits, c, i)
    ensures ItemAt(Run(s, edits).value, c, i) == ItemAt(s, c, i)
    decreases edits
  {
    if edits != [] {
      var e := edits[0];
      assert e in edits;
      if e.Cell? && e.collection == c {
        var k := MatchedOne(s, e);
        CellAfter(s, e, k);
      }
      RunKeepsItem(Apply(s, e).value, edits[1..], c, i);
    }
  }

  /** Bindings are reached by a direct change of the whole object, or not at all. */
  lemma {:induction false} RunKeepsBindings(s: Fields, edits: seq<Edit>)
    requires Run(s, edits).Ok? && Get(Run(s, edits).value, BINDINGS).Dict?
    requires forall e :: e in edits ==> !(e.Direct? && e.field == BINDINGS)
    ensures Get(s, BINDINGS) == Get(Run(s, edits).value, BINDINGS)
    decreases edits
  {
    if edits != [] {
      assert edits[0] in edits;
      RunKeepsBindings(Apply(s, edits[0]).value, edits[1..]);
    }
  }

  /**
   The manifest does not mention the place: no addition and no direct change covers it, and no
   selector names it, by the field or by the item's id.
   */
  predicate Unmentioned(base: Fields, m: Manifest, p: Place) {
    var edits := m.directChanges + m.changes;
    match p
    case Top(f) => f !in Touched(edits) && f !in Names(m.additions) && (f == BINDINGS ==> m.bindingAdditions == [])
    case Item(c, i, f) =>
      && c !in Names(m.additions) && (forall e :: e in edits ==> !(e.Direct? && e.field == c))
      && (Unselected(base, edits, c, i) || forall e :: e in edits ==> !(e.Cell? && e.collection == c && e.field == f))
    case Binding(k) => k !in Names(m.bindingAdditions) && forall e :: e in edits ==> !(e.Direct? && e.field == BINDINGS)
  }

  /** Everything the manifest does not mention is untouched, in value and in presence. */
  lemma UnmentionedUntouched(base: Fields, m: Manifest, p: Place)
    requires Effective(base, m).Ok? && Unmentioned(base, m, p)
    ensures Stored(Effective(base, m).value, p) == Stored(base, p)
  {
    var edits := m.directChanges + m.changes;
    var edited := Run(base, edits).value;
    AdditionsKeep(edited, m, p);
    match p
    case Top(f) => RunTouches(base, edits, f);
    case Item(c, i, f) =>
      if Unselected(base, edits, c, i) {
        RunKeepsItem(base, edits, c, i);
      } else {
        RunKeepsField(base, edits, c, i, f);
      }
    case Binding(k) => RunKeepsBindings(base, edits);
  }

  /** Adding bindings and fields keeps every place but the ones they name. */
  lemma AdditionsKeep(edited: Fields, m: Manifest, p: Place)
    requires Get(edited, BINDINGS).Dict? && Extend(edited[BINDINGS].fields, m.bindingAdditions).Ok?
    requires var bound := edited[BINDINGS := Dict(Extend(edited[BINDINGS].fields, m.bindingAdditions).value)];
             Extend(bound, m.additions).Ok?
    requires match p
             case Top(f) => f !in Names(m.additions) && (f == BINDINGS ==> m.bindingAdditions == [])
             case Item(c, _, _) => c !in Names(m.additions)
             case Binding(k) => k !in Names(m.bindingAdditions)
    ensures var bound := edited[BINDINGS := Dict(Extend(edited[BINDINGS].fields, m.bindingAdditions).value)];
            Stored(Extend(bound, m.additions).value, p) == Stored(edited, p)
  {
    var bound := edited[BINDINGS := Dict(Extend(edited[BINDINGS].fields, m.bindingAdditions).value)];
    ExtendUndone(edited[BINDINGS].fields, m.bindingAdditions);
    ExtendUndone(bound, m.additions);
    var full := Extend(bound, m.additions).value;
    assert full[BINDINGS] == bound[BINDINGS];
  }

  /** Inside the selected collection, an edit changes one field of one item and nothing else. */
  lemma CellTouchesOne(doc: Fields, e: Edit, i: nat)
    requires e.Cell? && Apply(doc, e).Ok? && OnlyMatch(doc[e.collection].items, e.id, i)
    ensures var items, items' := doc[e.collection].items, Apply(doc, e).value[e.collection].items;
            && |items'| == |items| && (forall k :: 0 <= k < |items| && k != i ==> items'[k] == items[k])
            && items'[i] == Dict(items[i].fields[e.field := e.newValue])
  {
    OnlyMatchIff(doc[e.collection].items, e.id, i);
  }

  // ----- in place -----

  /** The working copy of the document, changed step by step. */
  class Document {
    var fields: Fields

    constructor (base: Fields)
      ensures fields == base
    {
      fields := base;
    }

    /** `_apply_change`, and the loop body of the direct changes. */
    method ApplyEdit(e: Edit) returns (error: Option<AmendError>)
      modifies this
      ensures error.None? <==> Apply(old(fields), e).Ok?
      ensures error.None? ==> fields == Apply(old(fields), e).value
      ensures error.Some? ==> fields == old(fields) && Apply(old(fields), e) == Err(error.value)
    {
      if e.Direct? {
        if Get(fields, e.field) != e.oldValue {
          return Some(OldValueMismatch);
        }
        fields := fields[e.field := e.newValue];
        return None;
      }
      if !Get(fields, e.collection).List? {
        return Some(NotAList);
      }
      var items := fields[e.collection].items;
      var matches := Matches(items, e.id);
      if |matches| != 1 {
        return Some(NotOneItem);
      }
      MatchesAre(items, e.id);
      assert matches[0] in matches;
      var target := items[matches[0]].fields;
      if Get(target, e.field) != e.oldValue {
        return Some(OldValueMismatch);
      }
      fields := fields[e.collection := List(items[matches[0] := Dict(target[e.field := e.newValue])])];
      error := None;
    }

    /** Applies the edits in order, up to the first that is refused. */
    method ApplyAll(edits: seq<Edit>) returns (error: Option<AmendError>)
      modifies this
      ensures error.None? <==> Run(old(fields), edits).Ok?
      ensures error.None? ==> fields == Run(old(fields), edits).value
      ensures error.Some? ==> Run(old(fields), edits) == Err(error.value)
    {
      for k := 0 to |edits|
        invariant Run(old(fields), edits) == Run(fields, edits[k..])
      {
        error := ApplyEdit(edits[k]);
        if error.Some? {
          return;
        }
        assert edits[k..][1..] == edits[k + 1..];
      }
      error := None;
    }
  }

  lemma {:induction false} ExtendStops(fields: Fields, additions: seq<(string, Value)>, k: nat)
    requires k <= |additions| && Extend(fields, additions[..k]).Err?
    ensures Extend(fields, additions) == Extend(fields, additions[..k])
    decreases |additions|
  {
    if k == |additions| {
      assert additions[..k] == additions;
    } else {
      assert additions[..|additions| - 1][..k] == additions[..k];
      ExtendStops(fields, additions[..|additions| - 1], k);
    }
  }

  method AddFields(fields: Fields, additions: seq<(string, Value)>) returns (r: Result<Fields, string>)
    ensures r == Extend(fields, additions)
  {
    var extended := fields;
    for k := 0 to |additions|
      invariant Extend(fields, additions[..k]) == Ok(extended)
    {
      assert additions[..k + 1][..k] == additions[..k];
      if additions[k].0 in extended {
        ExtendStops(fields, additions, k + 1);
        return Err(additions[k].0);
      }
      extended := extended[additions[k].0 := additions[k].1];
    }
    assert additions[..|additions|] == additions;
    r := Ok(extended);
  }

  /** `_build_expected_effective`: a copy of the base, edited in place and then extended. */
  method BuildExpectedEffective(base: Fields, m: Manifest) returns (r: Result<Fields, AmendError>)
    requires Shaped(m)
    ensures r == Effective(base, m)
    ensures r.Ok? && Plain(m.directChanges + m.changes) ==> Undo(r.value, m) == Ok(base)
  {
    var expected := new Document(base);
    var error := expected.ApplyAll(m.directChanges + m.changes);
    if error.Some? {
      return Err(error.value);
    }
    if !Get(expected.fields, BINDINGS).Dict? {
      return Err(NoBindings);
    }
    var bindings := AddFields(expected.fields[BINDINGS].fields, m.bindingAdditions);
    if bindings.Err? {
      return Err(BindingExists(bindings.error));
    }
    var extended := AddFields(expected.fields[BINDINGS := Dict(bindings.value)], m.additions);
    if extended.Err? {
      return Err(FieldExists(extended.error));
    }
    r := Ok(extended.value);
    if Plain(m.directChanges + m.changes) {
      PlainManifestInvertible(base, m);
    }
  }
}
