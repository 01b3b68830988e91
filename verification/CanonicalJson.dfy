/**
 The canonical JSON profile of the assurance records: which payloads are accepted, and what their
 canonical text and digest determine.
 */
module CanonicalJson {
  import opened Wrappers
  import opened JsonText

  // ----- payloads -----

  /** A Python payload; `Other` is any type that is not JSON-native. */
  datatype Payload =
    | PNone
    | PBool(b: bool)
    | PInt(n: int)
    | PFloat(repr: string)
    | PStr(s: string)
    | PList(items: seq<Payload>)
    | PTuple(items: seq<Payload>)
    | PDict(entries: seq<Entry>)
    | Other

  datatype Entry = Entry(key: Payload, value: Payload)

  /** Where `_reject_nondeterministic` stops, if anywhere: the path of the first offence. */
  function Reject(p: Payload, path: string): Option<string>
    decreases p, 1
  {
    match p
    case PFloat(_) => Some(path)
    case Other => Some(path)
    case PList(items) => RejectItems(items, 0, path)
    case PTuple(items) => RejectItems(items, 0, path)
    case PDict(entries) => RejectEntries(entries, path)
    case _ => None
  }

  function RejectItems(items: seq<Payload>, index: nat, path: string): Option<string>
    decreases items, 0
  {
    if items == [] then None
    else
      var first := Reject(items[0], path + "[" + PrintNat(index) + "]");
      if first.Some? then first else RejectItems(items[1..], index + 1, path)
  }

  function RejectEntries(entries: seq<Entry>, path: string): Option<string>
    decreases entries, 0
  {
    if entries == [] then None
    else
      var first := RejectEntry(entries[0], path);
      if first.Some? then first else RejectEntries(entries[1..], path)
  }

  function RejectEntry(e: Entry, path: string): Option<string>
    decreases e, 0
  {
    if e.key.PStr? then Reject(e.value, path + "." + e.key.s) else Some(path)
  }

  /** No float, no foreign type and no non-string key anywhere. */
  ghost predicate Native(p: Payload) {
    match p
    case PFloat(_) => false
    case Other => false
    case PList(items) => forall i :: 0 <= i < |items| ==> Native(items[i])
    case PTuple(items) => forall i :: 0 <= i < |items| ==> Native(items[i])
    case PDict(entries) => forall i :: 0 <= i < |entries| ==> entries[i].key.PStr? && Native(entries[i].value)
    case _ => true
  }

  lemma {:induction false} RejectIff(p: Payload, path: string)
    ensures Reject(p, path).None? <==> Native(p)
    decreases p, 1
  {
    match p
    case PList(items) => RejectItemsIff(items, 0, path);
    case PTuple(items) => RejectItemsIff(items, 0, path);
    case PDict(entries) => RejectEntriesIff(entries, path);
    case _ =>
  }

  lemma {:induction false} RejectItemsIff(items: seq<Payload>, index: nat, path: string)
    ensures RejectItems(items, index, path).None? <==> forall i :: 0 <= i < |items| ==> Native(items[i])
    decreases items, 0
  {
    if items != [] {
      RejectIff(items[0], path + "[" + PrintNat(index) + "]");
      RejectItemsIff(items[1..], index + 1, path);
      assert forall i :: 1 <= i < |items| ==> items[i] == items[1..][i - 1];
    }
  }

  lemma {:induction false} RejectEntriesIff(entries: seq<Entry>, path: string)
    ensures RejectEntries(entries, path).None? <==>
            forall i :: 0 <= i < |entries| ==> entries[i].key.PStr? && Native(entries[i].value)
    decreases entries, 0
  {
    if entries != [] {
      RejectEntryIff(entries[0], path);
      RejectEntriesIff(entries[1..], path);
      assert forall i :: 1 <= i < |entries| ==> entries[i] == entries[1..][i - 1];
    }
  }

  lemma {:induction false} RejectEntryIff(e: Entry, path: string)
    ensures RejectEntry(e, path).None? <==> e.key.PStr? && Native(e.value)
    decreases e, 0
  {
    if e.key.PStr? {
      RejectIff(e.value, path + "." + e.key.s);
    }
  }

  /** The first offence in reading order is at the path: a float, a foreign type, or a dictionary with such a key. */
  ghost predicate OffendsAt(p: Payload, path: string, at: string)
    decreases p
  {
    match p
    case PFloat(_) => at == path
    case Other => at == path
    case PList(items) =>
      exists i :: 0 <= i < |items| && OffendsAt(items[i], path + "[" + PrintNat(i) + "]", at) && forall j :: 0 <= j < i ==> Native(items[j])
    case PTuple(items) =>
      exists i :: 0 <= i < |items| && OffendsAt(items[i], path + "[" + PrintNat(i) + "]", at) && forall j :: 0 <= j < i ==> Native(items[j])
    case PDict(entries) =>
      exists i :: 0 <= i < |entries|
                  && (if entries[i].key.PStr? then OffendsAt(entries[i].value, path + "." + entries[i].key.s, at) else at == path)
                  && forall j :: 0 <= j < i ==> entries[j].key.PStr? && Native(entries[j].value)
    case _ => false
  }

  lemma {:induction false} RejectPoints(p: Payload, path: string, at: string)
    requires Reject(p, path) == Some(at)
    ensures OffendsAt(p, path, at)
    decreases p, 1
  {
    match p
    case PList(items) => var i := RejectItemsPoints(items, 0, path, at);
    case PTuple(items) => var i := RejectItemsPoints(items, 0, path, at);
    case PDict(entries) => var i := RejectEntriesPoints(entries, path, at);
    case _ =>
  }

  lemma {:induction false} RejectItemsPoints(items: seq<Payload>, index: nat, path: string, at: string) returns (i: nat)
    requires RejectItems(items, index, path) == Some(at)
    ensures i < |items| && OffendsAt(items[i], path + "[" + PrintNat(index + i) + "]", at) && forall j :: 0 <= j < i ==> Native(items[j])
    decreases items, 0
  {
    var first := Reject(items[0], path + "[" + PrintNat(index) + "]");
    if first.Some? {
      i := 0;
      RejectPoints(items[0], path + "[" + PrintNat(index) + "]", at);
    } else {
      RejectIff(items[0], path + "[" + PrintNat(index) + "]");
      var k := RejectItemsPoints(items[1..], index + 1, path, at);
      i := k + 1;
      assert forall j :: 1 <= j < i ==> items[j] == items[1..][j - 1];
    }
  }

  lemma {:induction false} RejectEntriesPoints(entries: seq<Entry>, path: string, at: string) returns (i: nat)
    requires RejectEntries(entries, path) == Some(at)
    ensures i < |entries|
    ensures if entries[i].key.PStr? then OffendsAt(entries[i].value, path + "." + entries[i].key.s, at) else at == path
    ensures forall j :: 0 <= j < i ==> entries[j].key.PStr? && Native(entries[j].value)
    decreases entries, 0
  {
    if RejectEntry(entries[0], path).Some? {
      i := 0;
      RejectEntryPoints(entries[0], path, at);
    } else {
      RejectEntryIff(entries[0], path);
      var k := RejectEntriesPoints(entries[1..], path, at);
      i := k + 1;
      assert forall j :: 1 <= j < i ==> entries[j] == entries[1..][j - 1];
    }
  }

  lemma {:induction false} RejectEntryPoints(e: Entry, path: string, at: string)
    requires RejectEntry(e, path) == Some(at)
    ensures if e.key.PStr? then OffendsAt(e.value, path + "." + e.key.s, at) else at == path
    decreases e, 0
  {
    if e.key.PStr? {
      RejectPoints(e.value, path + "." + e.key.s, at);
    }
  }

  /** What every Python dictionary guarantees: no key twice. */
  ghost predicate Distinct(p: Payload) {
    match p
    case PList(items) => forall i :: 0 <= i < |items| ==> Distinct(items[i])
    case PTuple(items) => forall i :: 0 <= i < |items| ==> Distinct(items[i])
    case PDict(entries) =>
      && (forall i :: 0 <= i < |entries| ==> Distinct(entries[i].value))
      && (forall i, j :: 0 <= i < j < |entries| ==> entries[i].key != entries[j].key)
    case _ => true
  }

  /** The JSON value a payload denotes. */
  function ToJson(p: Payload): Json
    decreases p, 1
  {
    match p
    case PBool(b) => JBool(b)
    case PInt(n) => JInt(n)
    case PStr(s) => JString(s)
    case PList(items) => JArray(ToJsonItems(items))
    case PTuple(items) => JArray(ToJsonItems(items))
    case PDict(entries) => JObject(ToJsonFields(entries))
    case _ => JNull
  }

  function ToJsonItems(items: seq<Payload>): seq<Json>
    decreases items, 0
  {
    if items == [] then [] else [ToJson(items[0])] + ToJsonItems(items[1..])
  }

  function ToJsonFields(entries: seq<Entry>): map<string, Json>
    decreases entries, 0
  {
    if entries == [] then map[] else ToJsonFields(entries[1..])[KeyText(entries[0].key) := ToJsonEntry(entries[0])]
  }

  /** The text the serializer writes for a key: other scalars than strings are turned into strings. */
  function KeyText(key: Payload): string {
    match key
    case PStr(s) => s
    case PInt(n) => PrintInt(n)
    case PBool(b) => if b then "true" else "false"
    case PFloat(repr) => repr
    case _ => "null"
  }

  function ToJsonEntry(e: Entry): Json
    decreases e, 0
  {
    ToJson(e.value)
  }

  /** `canonical_dumps`: the refusing path, or the text. */
  function CanonicalDumps(p: Payload): Result<string, string> {
    var offence := Reject(p, "$");
    if offence.Some? then Err(offence.value) else Ok(Print(ToJson(p)))
  }

  /** Equal up to the order of dictionary keys and to lists written as tuples. */
  ghost predicate Alike(a: Payload, b: Payload)
    decreases a
  {
    match a
    case PList(items) => SequenceOf(b).Some? && AlikeItems(a, items, SequenceOf(b).value)
    case PTuple(items) => SequenceOf(b).Some? && AlikeItems(a, items, SequenceOf(b).value)
    case PDict(entries) =>
      && b.PDict?
      && Keys(entries) == Keys(b.entries)
      && (forall i, j :: 0 <= i < |entries| && 0 <= j < |b.entries| && entries[i].key == b.entries[j].key ==>
            Alike(entries[i].value, b.entries[j].value))
    case _ => a == b
  }

  function Keys(entries: seq<Entry>): set<Payload> {
    set e | e in entries :: e.key
  }

  function SequenceOf(p: Payload): Option<seq<Payload>> {
    match p
    case PList(items) => Some(items)
    case PTuple(items) => Some(items)
    case _ => None
  }

  ghost predicate AlikeItems(whole: Payload, a: seq<Payload>, b: seq<Payload>)
    requires forall i :: 0 <= i < |a| ==> a[i] < whole
    decreases whole, 0
  {
    |a| == |b| && forall i :: 0 <= i < |a| ==> Alike(a[i], b[i])
  }

  lemma {:induction false} ItemsAt(items: seq<Payload>)
    ensures |ToJsonItems(items)| == |items|
    ensures forall i :: 0 <= i < |items| ==> ToJsonItems(items)[i] == ToJson(items[i])
  {
    if items != [] {
      ItemsAt(items[1..]);
    }
  }

  lemma {:induction false} FieldsAt(entries: seq<Entry>)
    requires StringKeyed(entries)
    ensures forall k :: k in ToJsonFields(entries) <==> PStr(k) in Keys(entries)
    ensures forall i :: 0 <= i < |entries| ==>
              entries[i].key.s in ToJsonFields(entries) &&
              ToJsonFields(entries)[entries[i].key.s] == ToJson(entries[i].value)
  {
    if entries != [] {
      FieldsAt(entries[1..]);
      assert forall i :: 1 <= i < |entries| ==> entries[i] == entries[1..][i - 1];
      assert Keys(entries) == {entries[0].key} + Keys(entries[1..]);
    }
  }

  /** The JSON value forgets exactly key order and the tuple/list distinction. */
  lemma {:induction false} AlikeIff(a: Payload, b: Payload)
    requires Native(a) && Native(b) && Distinct(a) && Distinct(b)
    ensures ToJson(a) == ToJson(b) <==> Alike(a, b)
    decreases a, 1
  {
    if SequenceOf(a).Some? && SequenceOf(b).Some? {
      AlikeItemsIff(SequenceOf(a).value, SequenceOf(b).value);
    } else if a.PDict? && b.PDict? {
      AlikeEntriesIff(a.entries, b.entries);
    }
  }

  lemma {:induction false} AlikeItemsIff(a: seq<Payload>, b: seq<Payload>)
    requires forall i :: 0 <= i < |a| ==> Native(a[i]) && Distinct(a[i])
    requires forall i :: 0 <= i < |b| ==> Native(b[i]) && Distinct(b[i])
    ensures ToJsonItems(a) == ToJsonItems(b) <==> |a| == |b| && forall i :: 0 <= i < |a| ==> Alike(a[i], b[i])
    decreases a, 0
  {
    ItemsAt(a);
    ItemsAt(b);
    if |a| == |b| {
      forall i | 0 <= i < |a|
        ensures ToJsonItems(a)[i] == ToJsonItems(b)[i] <==> Alike(a[i], b[i])
      {
        AlikeIff(a[i], b[i]);
      }
    }
  }

  lemma {:induction false} AlikeEntriesIff(a: seq<Entry>, b: seq<Entry>)
    requires Native(PDict(a)) && Distinct(PDict(a)) && Native(PDict(b)) && Distinct(PDict(b))
    ensures ToJsonFields(a) == ToJsonFields(b) <==> Alike(PDict(a), PDict(b))
    decreases a, 0
  {
    FieldsEqualIff(a, b);
    forall i, j | 0 <= i < |a| && 0 <= j < |b| && a[i].key == b[j].key
      ensures ToJson(a[i].value) == ToJson(b[j].value) <==> Alike(a[i].value, b[j].value)
    {
      AlikeIff(a[i].value, b[j].value);
    }
  }

  ghost predicate StringKeyed(entries: seq<Entry>) {
    && (forall i :: 0 <= i < |entries| ==> entries[i].key.PStr?)
    && (forall i, j :: 0 <= i < j < |entries| ==> entries[i].key != entries[j].key)
  }

  lemma FieldsEqualIff(a: seq<Entry>, b: seq<Entry>)
    requires StringKeyed(a) && StringKeyed(b)
    ensures ToJsonFields(a) == ToJsonFields(b) <==>
            && Keys(a) == Keys(b)
            && forall i, j :: 0 <= i < |a| && 0 <= j < |b| && a[i].key == b[j].key ==>
                 ToJson(a[i].value) == ToJson(b[j].value)
  {
    FieldsAt(a);
    FieldsAt(b);
    SameKeys(a, b);
    if Keys(a) == Keys(b) {
      forall k | k in ToJsonFields(a)
        ensures exists i, j :: 0 <= i < |a| && 0 <= j < |b| && a[i].key == b[j].key == PStr(k)
      {
        KeyAt(a, PStr(k));
        KeyAt(b, PStr(k));
      }
    }
  }

  lemma KeyAt(entries: seq<Entry>, k: Payload)
    requires k in Keys(entries)
    ensures exists i :: 0 <= i < |entries| && entries[i].key == k
  {
    var e :| e in entries && e.key == k;
    var i :| 0 <= i < |entries| && entries[i] == e;
  }

  lemma SameKeys(a: seq<Entry>, b: seq<Entry>)
    requires StringKeyed(a) && StringKeyed(b)
    ensures ToJsonFields(a).Keys == ToJsonFields(b).Keys <==> Keys(a) == Keys(b)
  {
    FieldsAt(a);
    FieldsAt(b);
    if ToJsonFields(a).Keys == ToJsonFields(b).Keys {
      forall k | k in Keys(a) + Keys(b)
        ensures k in Keys(a) && k in Keys(b)
      {
        assert k.s in ToJsonFields(a) <==> k.s in ToJsonFields(b);
      }
    } else if Keys(a) == Keys(b) {
      assert forall k :: k in ToJsonFields(a).Keys <==> k in ToJsonFields(b).Keys;
    }
  }

  /**
   Canonical printing: every accepted payload reads back as its JSON value, and two accepted
   payloads print alike just when they agree up to key order and tuple/list.
   */
  lemma CanonicalIff(a: Payload, b: Payload)
    requires Distinct(a) && Distinct(b)
    requires CanonicalDumps(a).Ok? && CanonicalDumps(b).Ok?
    ensures Parse(CanonicalDumps(a).value) == Some(ToJson(a))
    ensures CanonicalDumps(a) == CanonicalDumps(b) <==> Alike(a, b)
  {
    RejectIff(a, "$");
    RejectIff(b, "$");
    RoundTrip(ToJson(a));
    AlikeIff(a, b);
    if CanonicalDumps(a) == CanonicalDumps(b) {
      PrintInjective(ToJson(a), ToJson(b));
    }
  }

  /** The JSON value says what the payload does: each scalar as itself, sequences item by item, dictionaries key by key. */
  ghost predicate Means(v: Json, p: Payload)
    decreases p
  {
    match p
    case PNone => v == JNull
    case PBool(b) => v == JBool(b)
    case PInt(n) => v == JInt(n)
    case PStr(s) => v == JString(s)
    case PList(items) => v.JArray? && |v.items| == |items| && forall i :: 0 <= i < |items| ==> Means(v.items[i], items[i])
    case PTuple(items) => v.JArray? && |v.items| == |items| && forall i :: 0 <= i < |items| ==> Means(v.items[i], items[i])
    case PDict(entries) =>
      && v.JObject? && (forall k :: k in v.fields <==> exists i :: 0 <= i < |entries| && entries[i].key == PStr(k))
      && forall i :: 0 <= i < |entries| ==>
           entries[i].key.PStr? && entries[i].key.s in v.fields && Means(v.fields[entries[i].key.s], entries[i].value)
    case _ => false
  }

  lemma {:induction false} JsonMeans(p: Payload)
    requires Native(p) && Distinct(p)
    ensures Means(ToJson(p), p)
  {
    if SequenceOf(p).Some? {
      var items := SequenceOf(p).value;
      ItemsAt(items);
      forall i | 0 <= i < |items|
        ensures Means(ToJsonItems(items)[i], items[i])
      {
        JsonMeans(items[i]);
      }
    } else if p.PDict? {
      FieldsAt(p.entries);
      forall k | PStr(k) in Keys(p.entries)
        ensures exists i :: 0 <= i < |p.entries| && p.entries[i].key == PStr(k)
      {
        KeyAt(p.entries, PStr(k));
      }
      forall i | 0 <= i < |p.entries|
        ensures Means(ToJsonFields(p.entries)[p.entries[i].key.s], p.entries[i].value)
        ensures p.entries[i].key in Keys(p.entries)
      {
        JsonMeans(p.entries[i].value);
        assert p.entries[i] in p.entries;
      }
    }
  }

  /** The canonical text of an accepted payload reads back as a value that says what the payload does. */
  lemma DumpsMean(p: Payload)
    requires Distinct(p) && CanonicalDumps(p).Ok?
    ensures Parse(CanonicalDumps(p).value).Some? && Means(Parse(CanonicalDumps(p).value).value, p)
  {
    RejectIff(p, "$");
    RoundTrip(ToJson(p));
    JsonMeans(p);
  }

  /**
   Why non-string keys are refused: printed without the refusal, a number and its decimal text would
   be one key, although the payloads differ.
   */
  lemma NumericKeyCollides(n: int, value: Payload)
    ensures var numbered, named := PDict([Entry(PInt(n), value)]), PDict([Entry(PStr(PrintInt(n)), value)]);
            && Print(ToJson(numbered)) == Print(ToJson(named)) && !Alike(numbered, named)
            && CanonicalDumps(numbered).Err?
  {
    var a, b := [Entry(PInt(n), value)], [Entry(PStr(PrintInt(n)), value)];
    assert ToJsonFields(a) == ToJsonFields(b);
    assert a[0].key in Keys(a) && a[0].key !in Keys(b);
    RejectIff(PDict(a), "$");
    assert !Native(PDict(a));
  }

  /** So would a truth value or nothing, written as a word. */
  lemma WordKeyCollides(key: Payload, word: string, value: Payload)
    requires (key, word) in {(PBool(true), "true"), (PBool(false), "false"), (PNone, "null")}
    ensures var keyed, named := PDict([Entry(key, value)]), PDict([Entry(PStr(word), value)]);
            && Print(ToJson(keyed)) == Print(ToJson(named)) && !Alike(keyed, named)
            && CanonicalDumps(keyed).Err?
  {
    var a, b := [Entry(key, value)], [Entry(PStr(word), value)];
    assert ToJsonFields(a) == ToJsonFields(b);
    assert a[0].key in Keys(a) && a[0].key !in Keys(b);
    RejectIff(PDict(a), "$");
    assert !Native(PDict(a));
  }

  // ----- digests -----

  const DIGEST_PREFIX := "sha256:"

  /** The idealisation of SHA-256 under which the digests are reasoned about. */
  ghost predicate CollisionFree(hash: string -> string) {
    forall x, y :: hash(x) == hash(y) ==> x == y
  }

  /** `sha256_digest` of an accepted payload's JSON value. */
  function DigestOf(hash: string -> string, v: Json): string {
    DIGEST_PREFIX + hash(Print(v))
  }

  lemma DigestInjective(hash: string -> string, v: Json, w: Json)
    requires CollisionFree(hash) && DigestOf(hash, v) == DigestOf(hash, w)
    ensures v == w
  {
    var n := |DIGEST_PREFIX|;
    assert DigestOf(hash, v)[n..] == hash(Print(v)) && DigestOf(hash, w)[n..] == hash(Print(w));
    PrintInjective(v, w);
  }
}
