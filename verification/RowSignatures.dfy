/**
 The signatures the cleaning pass gives to dataset rows, and exactly which rows it can lose: the
 exact signature sorts the keys of every object, the normalized one only those of the row itself.
 */
module RowSignatures {
  import opened Wrappers
  import opened Strings
  import opened JsonText
  import opened CanonicalJson
  import opened Cleaning
  import Redaction

  // ----- rows -----

  /** What parsing JSON without fractions yields: objects hold their keys in the order of the text. */
  ghost predicate FromJson(p: Payload) {
    match p
    case PList(items) => forall i :: 0 <= i < |items| ==> FromJson(items[i])
    case PDict(entries) => StringKeyed(entries) && forall i :: 0 <= i < |entries| ==> FromJson(entries[i].value)
    case PFloat(_) => false
    case PTuple(_) => false
    case Other => false
    case _ => true
  }

  type Row = p: Payload | p.PDict? && FromJson(p) witness PDict([])

  lemma {:induction false} FromJsonIsNative(p: Payload)
    requires FromJson(p)
    ensures Native(p) && Distinct(p)
  {
    match p
    case PList(items) =>
      forall i | 0 <= i < |items| ensures Native(items[i]) && Distinct(items[i]) { FromJsonIsNative(items[i]); }
    case PDict(entries) =>
      forall i | 0 <= i < |entries| ensures Native(entries[i].value) && Distinct(entries[i].value) {
        FromJsonIsNative(entries[i].value);
      }
    case _ =>
  }

  // ----- signatures -----

  function AsValue(p: Payload): Redaction.Value
    decreases p, 1
  {
    match p
    case PBool(b) => Redaction.Scalar(if b then "True" else "False")
    case PInt(n) => Redaction.Scalar(PrintInt(n))
    case PStr(s) => Redaction.Text(s)
    case PList(items) => Redaction.List(AsItems(items))
    case PDict(entries) => Redaction.Object(AsFields(entries))
    case _ => Redaction.Null
  }

  function AsItems(items: seq<Payload>): seq<Redaction.Value>
    decreases items, 0
  {
    if items == [] then [] else [AsValue(items[0])] + AsItems(items[1..])
  }

  function AsFields(entries: seq<Entry>): seq<Redaction.Field>
    decreases entries, 0
  {
    if entries == [] then [] else [AsField(entries[0])] + AsFields(entries[1..])
  }

  function AsField(e: Entry): Redaction.Field
    decreases e, 0
  {
    Redaction.Field(KeyText(e.key), AsValue(e.value))
  }

  /** Every scalar in container order, one space between any two. */
  /** `collect_text_values`. */
  function Texts(p: Payload): seq<string> { Redaction.CollectTextValues(AsValue(p)) }

  function TextOf(p: Payload): string { Join(Texts(p), " ") }

  /** Unicode normalization, lower case and the token pattern, as one function. */
  type Words = string -> seq<string>

  const FIELD_SEPARATOR := "\U{001F}"

  function Names(row: Row): set<string> {
    set e | e in row.entries :: e.key.s
  }

  function ValueAt(entries: seq<Entry>, name: string): Payload {
    if entries == [] then PNone
    else if entries[0].key == PStr(name) then entries[0].value
    else ValueAt(entries[1..], name)
  }

  function FieldText(words: Words, row: Row, name: string): string {
    name + "=" + Join(words(TextOf(ValueAt(row.entries, name))), " ")
  }

  function FieldTexts(words: Words, row: Row, names: seq<string>): seq<string> {
    seq(|names|, i requires 0 <= i < |names| => FieldText(words, row, names[i]))
  }

  /** `normalized_text_signature` of a row: its fields by sorted key, each with the words of its text. */
  function Normalized(words: Words, row: Row): string {
    Join(FieldTexts(words, row, Sorted(Names(row))), FIELD_SEPARATOR)
  }

  /** `exact_row_signature`: compact JSON, every object's keys sorted. */
  function Exact(row: Row): string {
    Print(ToJson(row))
  }

  function SignaturesOf(words: Words, tokens: string -> nat): Signatures<Row> {
    Signatures((row: Row) => Exact(row), (row: Row) => Normalized(words, row), tokens)
  }

  // ----- what decides a signature -----

  lemma ExactIff(a: Row, b: Row)
    ensures Exact(a) == Exact(b) <==> Alike(a, b)
  {
    FromJsonIsNative(a);
    FromJsonIsNative(b);
    AlikeIff(a, b);
    if Exact(a) == Exact(b) {
      PrintInjective(ToJson(a), ToJson(b));
    }
  }

  lemma {:induction false} ValueAtIs(entries: seq<Entry>, i: nat)
    requires StringKeyed(entries) && i < |entries|
    ensures ValueAt(entries, entries[i].key.s) == entries[i].value
  {
    if i > 0 {
      ValueAtIs(entries[1..], i - 1);
    }
  }

  lemma Named(row: Row, name: string) returns (i: nat)
    requires name in Names(row)
    ensures i < |row.entries| && row.entries[i].key == PStr(name)
    ensures ValueAt(row.entries, name) == row.entries[i].value
  {
    var e :| e in row.entries && e.key.s == name;
    i :| 0 <= i < |row.entries| && row.entries[i] == e;
    ValueAtIs(row.entries, i);
  }

  lemma AlikeNames(a: Row, b: Row)
    requires Alike(a, b)
    ensures Names(a) == Names(b)
    ensures forall k :: k in Names(a) ==> Alike(ValueAt(a.entries, k), ValueAt(b.entries, k))
  {
    NamesAre(a);
    NamesAre(b);
    assert Names(a) == Names(b) by {
      assert forall k :: k in Names(a) <==> PStr(k) in Keys(a.entries);
    }
    forall k | k in Names(a)
      ensures Alike(ValueAt(a.entries, k), ValueAt(b.entries, k))
    {
      var i := Named(a, k);
      var j := Named(b, k);
      assert a.entries[i].key == b.entries[j].key;
    }
  }

  lemma NamesAre(row: Row)
    ensures forall k :: k in Names(row) <==> PStr(k) in Keys(row.entries)
  {
    forall k | PStr(k) in Keys(row.entries)
      ensures k in Names(row)
    {
      KeyAt(row.entries, PStr(k));
    }
  }

  /**
   The normalized signature spelled out: by ascending key, the key, an equals sign and the words of the
   value's text one space apart, with the unit separator between the fields.
   */
  lemma NormalizedIs(words: Words, row: Row, names: seq<string>)
    requires Ascending(names) && forall k :: k in names <==> exists i :: 0 <= i < |row.entries| && row.entries[i].key == PStr(k)
    ensures Normalized(words, row) ==
            Join(seq(|names|, i requires 0 <= i < |names| => names[i] + "=" + Join(words(TextOf(ValueAt(row.entries, names[i]))), " ")), "\U{001F}")
  {
    hide TextOf, ValueAt, Join, Less;
    NamesIff(row);
    SortedFacts(Names(row));
    assert forall k :: k in Sorted(Names(row)) <==> k in Elements(Sorted(Names(row)));
    assert Elements(names) == Elements(Sorted(Names(row))) by {
      assert forall k :: k in Elements(names) <==> k in Elements(Sorted(Names(row)));
    }
    AscendingUnique(names, Sorted(Names(row)));
    assert FieldTexts(words, row, names) ==
           seq(|names|, i requires 0 <= i < |names| => names[i] + "=" + Join(words(TextOf(ValueAt(row.entries, names[i]))), " "));
  }

  lemma NamesIff(row: Row)
    ensures forall k :: k in Names(row) <==> exists i :: 0 <= i < |row.entries| && row.entries[i].key == PStr(k)
  {
    forall k | k in Names(row)
      ensures exists i :: 0 <= i < |row.entries| && row.entries[i].key == PStr(k)
    {
      var i := Named(row, k);
    }
    forall i | 0 <= i < |row.entries|
      ensures row.entries[i].key.s in Names(row)
    {
      assert row.entries[i] in row.entries;
    }
  }

  /** Scalars as the signature sees them: strings as they are, numbers in decimal, booleans capitalized, null not at all. */
  lemma ScalarTexts(s: string, n: int)
    ensures TextOf(PStr(s)) == s && TextOf(PInt(n)) == PrintInt(n)
    ensures TextOf(PBool(true)) == "True" && TextOf(PBool(false)) == "False" && TextOf(PNone) == ""
  {
  }

  lemma ShownConcat(a: seq<Redaction.Leaf>, b: seq<Redaction.Leaf>)
    ensures Redaction.ShownAll(a + b) == Redaction.ShownAll(a) + Redaction.ShownAll(b)
  {
  }

  lemma ShownUnder(value: Redaction.Value, key: Option<string>)
    ensures Redaction.ShownAll(Redaction.Leaves(value, key)) == Redaction.CollectTextValues(value)
  {
  }

  /** A list's texts are those of its items, in order. */
  lemma ListTexts(x: Payload, items: seq<Payload>)
    ensures Texts(PList([])) == [] && Texts(PList([x] + items)) == Texts(x) + Texts(PList(items))
  {
    assert ([x] + items)[1..] == items;
    var first, rest := AsValue(x), AsItems(items);
    assert AsItems([x] + items) == [first] + rest;
    assert Redaction.ItemLeaves([first] + rest) == Redaction.Leaves(first, None) + Redaction.ItemLeaves(rest) by {
      assert ([first] + rest)[1..] == rest;
    }
    ShownUnder(first, None);
    ShownConcat(Redaction.Leaves(first, None), Redaction.ItemLeaves(rest));
  }

  /** An object's texts are those of its values, in the order of its keys. */
  lemma ObjectTexts(e: Entry, entries: seq<Entry>)
    ensures Texts(PDict([])) == [] && Texts(PDict([e] + entries)) == Texts(e.value) + Texts(PDict(entries))
  {
    assert ([e] + entries)[1..] == entries;
    var first, rest := AsField(e), AsFields(entries);
    assert AsFields([e] + entries) == [first] + rest;
    assert Redaction.FieldLeaves([first] + rest) ==
           Redaction.Leaves(first.value, Some(first.name)) + Redaction.FieldLeaves(rest) by {
      assert ([first] + rest)[1..] == rest;
    }
    ShownUnder(first.value, Some(first.name));
    ShownConcat(Redaction.Leaves(first.value, Some(first.name)), Redaction.FieldLeaves(rest));
  }

  lemma SameTexts(words: Words, a: Row, b: Row)
    requires Names(a) == Names(b)
    requires forall k :: k in Names(a) ==> TextOf(ValueAt(a.entries, k)) == TextOf(ValueAt(b.entries, k))
    ensures Normalized(words, a) == Normalized(words, b)
  {
    hide TextOf, ValueAt;
    var names := Sorted(Names(a));
    SortedFacts(Names(a));
    assert forall k :: k in names ==> k in Elements(names);
    assert FieldTexts(words, a, names) == FieldTexts(words, b, names);
  }

  // ----- which rows can be lost -----

  /** The row with every field's text in one string. */
  function Flat(row: Row): Row {
    var entries := seq(|row.entries|, i requires 0 <= i < |row.entries| =>
                         Entry(row.entries[i].key, PStr(TextOf(row.entries[i].value))));
    assert StringKeyed(entries) && forall i :: 0 <= i < |entries| ==> FromJson(entries[i].value);
    PDict(entries)
  }

  lemma StringText(s: string)
    ensures TextOf(PStr(s)) == s
  {
  }

  lemma FlatFields(row: Row)
    ensures Names(Flat(row)) == Names(row)
    ensures forall k :: k in Names(row) ==> ValueAt(Flat(row).entries, k) == PStr(TextOf(ValueAt(row.entries, k)))
  {
    hide TextOf;
    var flat := Flat(row);
    assert forall i :: 0 <= i < |row.entries| ==> flat.entries[i].key == row.entries[i].key;
    forall k | k in Names(row) || k in Names(flat)
      ensures k in Names(row) && k in Names(flat)
      ensures ValueAt(flat.entries, k) == PStr(TextOf(ValueAt(row.entries, k)))
    {
      var i := Named(if k in Names(row) then row else flat, k);
      assert flat.entries[i] in flat.entries && row.entries[i] in row.entries;
      ValueAtIs(row.entries, i);
      ValueAtIs(flat.entries, i);
    }
  }

  lemma FlatSame(words: Words, row: Row)
    ensures Normalized(words, Flat(row)) == Normalized(words, row)
  {
    FlatFields(row);
    forall k | k in Names(row)
      ensures TextOf(ValueAt(Flat(row).entries, k)) == TextOf(ValueAt(row.entries, k))
    {
      StringText(TextOf(ValueAt(row.entries, k)));
    }
    SameTexts(words, Flat(row), row);
  }

  /** The same row up to key order, with another normalized signature. */
  ghost predicate Shuffled(words: Words, s: Row, t: Row) {
    Alike(s, t) && Normalized(words, s) != Normalized(words, t)
  }

  lemma ShuffledIsNested(words: Words, s: Row, t: Row)
    requires Shuffled(words, s, t)
    ensures !Alike(Flat(s), s) && Normalized(words, s) != ""
  {
    hide TextOf, Normalized;
    AlikeNames(s, t);
    FlatFields(s);
    if Alike(Flat(s), s) {
      AlikeNames(Flat(s), s);
      SameTexts(words, s, t);
    }
    if Names(s) == {} {
      SameTexts(words, s, t);
    } else {
      NormalizedNonEmpty(words, s);
    }
  }

  lemma NormalizedNonEmpty(words: Words, row: Row)
    requires Names(row) != {}
    ensures Normalized(words, row) != ""
  {
    var names := Sorted(Names(row));
    SortedFacts(Names(row));
    assert names != [];
    var texts := FieldTexts(words, row, names);
    assert texts[0] == FieldText(words, row, names[0]) != "";
  }

  /** Whether deduplication loses the row somewhere. */
  ghost predicate CanLose(words: Words, tokens: string -> nat, o: Options, t: Row) {
    exists rows: seq<Row> :: Lost(SignaturesOf(words, tokens), o, rows + [t], |rows|)
  }

  /**
   Which rows deduplication can lose: exactly those whose normalized signature changes when keys
   change places somewhere inside them. The row itself may be in any order.
   */
  lemma CanLoseIff(words: Words, tokens: string -> nat, o: Options, t: Row)
    requires o.dedupe && !o.dropLowInformation
    ensures CanLose(words, tokens, o, t) <==> exists s: Row :: Shuffled(words, s, t)
  {
    hide Normalized, Exact, Lost;
    var sig := SignaturesOf(words, tokens);
    if CanLose(words, tokens, o, t) {
      var rows: seq<Row> :| Lost(sig, o, rows + [t], |rows|);
      var _, k := LostFollowsTriple(sig, o, rows + [t], |rows|);
      ExactIff(rows[k], t);
      assert Shuffled(words, rows[k], t);
    }
    if s: Row :| Shuffled(words, s, t) {
      ShuffledLoses(words, tokens, o, s, t);
      assert [Flat(s), s] + [t] == [Flat(s), s, t];
    }
  }

  /** The three rows that show it: the text of the second in one string, the second, and its shuffled twin. */
  lemma ShuffledLoses(words: Words, tokens: string -> nat, o: Options, s: Row, t: Row)
    requires o.dedupe && !o.dropLowInformation && Shuffled(words, s, t)
    ensures Lost(SignaturesOf(words, tokens), o, [Flat(s), s, t], 2)
  {
    hide Normalized, Exact, Lost, TextOf;
    ShuffledIsNested(words, s, t);
    FlatSame(words, s);
    ExactIff(Flat(s), s);
    ExactIff(s, t);
    IncoherentLoses(SignaturesOf(words, tokens), o, Flat(s), s, t);
  }

  // ----- a concrete loss -----

  function Pair(k: string, v: string, l: string, w: string): Payload {
    PDict([Entry(PStr(k), PStr(v)), Entry(PStr(l), PStr(w))])
  }

  function Wrapped(value: Payload): Row
    requires FromJson(value)
  {
    PDict([Entry(PStr("m"), value)])
  }

  lemma TextField(k: string, v: string)
    ensures AsField(Entry(PStr(k), PStr(v))) == Redaction.Field(k, Redaction.Text(v))
  {
    assert AsValue(PStr(v)) == Redaction.Text(v);
  }

  lemma PairText(k: string, v: string, l: string, w: string)
    ensures TextOf(Pair(k, v, l, w)) == v + " " + w
  {
    var first, second := Entry(PStr(k), PStr(v)), Entry(PStr(l), PStr(w));
    assert [first, second][1..] == [second] && [second][1..] == [];
    var a, b := Redaction.Field(k, Redaction.Text(v)), Redaction.Field(l, Redaction.Text(w));
    TextField(k, v);
    TextField(l, w);
    assert AsFields([second]) == [AsField(second)] + AsFields([]) == [b];
    assert AsFields([first, second]) == [AsField(first)] + AsFields([second]) == [a, b];
    assert [a, b][1..] == [b] && [b][1..] == [];
    var c, d := Redaction.Leaf(Some(k), a.value), Redaction.Leaf(Some(l), b.value);
    assert Redaction.FieldLeaves([a, b]) == [c] + Redaction.FieldLeaves([b]) == [c, d];
    assert Redaction.ShownAll([c, d]) == [v, w];
    assert AsValue(Pair(k, v, l, w)) == Redaction.Object([a, b]);
    assert Redaction.CollectTextValues(Redaction.Object([a, b])) == [v, w];
    assert Join([v, w], " ") == v + " " + w;
  }

  lemma OneName()
    ensures Sorted({"m"}) == ["m"]
  {
    SortedFacts({"m"});
    AscendingUnique(Sorted({"m"}), ["m"]);
  }

  lemma WrappedFields(value: Payload)
    requires FromJson(value)
    ensures Keys(Wrapped(value).entries) == {PStr("m")} && Names(Wrapped(value)) == {"m"}
  {
    assert Wrapped(value).entries[0] in Wrapped(value).entries;
  }

  lemma WrappedNormalized(words: Words, value: Payload)
    requires FromJson(value)
    ensures Normalized(words, Wrapped(value)) == "m=" + Join(words(TextOf(value)), " ")
  {
    hide TextOf, Names, FromJson, Sorted;
    OneName();
    WrappedFields(value);
    var row := Wrapped(value);
    assert FieldTexts(words, row, ["m"]) == [FieldText(words, row, "m")];
  }

  lemma PairFields(k: string, v: string, l: string, w: string)
    requires k != l
    ensures FromJson(Pair(k, v, l, w)) && Keys(Pair(k, v, l, w).entries) == {PStr(k), PStr(l)}
  {
    var entries := Pair(k, v, l, w).entries;
    assert entries[0] in entries && entries[1] in entries;
  }

  lemma SwappedAlike(k: string, v: string, l: string, w: string)
    requires k != l
    ensures FromJson(Pair(k, v, l, w)) && FromJson(Pair(l, w, k, v))
    ensures Alike(Wrapped(Pair(k, v, l, w)), Wrapped(Pair(l, w, k, v)))
  {
    hide FromJson, Keys;
    PairFields(k, v, l, w);
    PairFields(l, w, k, v);
    assert {PStr(k), PStr(l)} == {PStr(l), PStr(k)};
    assert Alike(Pair(k, v, l, w), Pair(l, w, k, v));
    WrappedFields(Pair(k, v, l, w));
    WrappedFields(Pair(l, w, k, v));
  }

  lemma Spaced(v: string, w: string)
    requires |v| == |w| == 1 && v != w
    ensures Join([v, w], " ") == v + " " + w
    ensures "m=" + Join([v, w], " ") != "m=" + Join([w, v], " ")
  {
    assert ("m=" + (v + " " + w))[2] == v[0] && ("m=" + (w + " " + v))[2] == w[0];
  }

  /**
   `{"m": "x y"}`, `{"m": {"a": "x", "b": "y"}}`, `{"m": {"b": "y", "a": "x"}}`: the second goes as
   a normalized duplicate of the first, and the third as an exact duplicate of the second although
   no row that stays has either of its signatures.
   */
  lemma ThirdRowLost(words: Words, tokens: string -> nat, o: Options)
    requires o.dedupe && !o.dropLowInformation
    requires words("x y") == ["x", "y"] && words("y x") == ["y", "x"]
    ensures FromJson(Pair("a", "x", "b", "y")) && FromJson(Pair("b", "y", "a", "x"))
    ensures Lost(SignaturesOf(words, tokens), o,
                 [Wrapped(PStr("x y")), Wrapped(Pair("a", "x", "b", "y")), Wrapped(Pair("b", "y", "a", "x"))], 2)
  {
    hide TextOf, Normalized, Lost, Alike, FromJson, Join;
    SwappedAlike("a", "x", "b", "y");
    var p, q := Pair("a", "x", "b", "y"), Pair("b", "y", "a", "x");
    PairText("a", "x", "b", "y");
    PairText("b", "y", "a", "x");
    WrappedNormalized(words, p);
    WrappedNormalized(words, q);
    assert "x" + " " + "y" == "x y" && "y" + " " + "x" == "y x";
    Spaced("x", "y");
    ShuffledLoses(words, tokens, o, Wrapped(p), Wrapped(q));
    FlatWrapped(p);
  }

  lemma FlatWrapped(value: Payload)
    requires FromJson(value)
    ensures Flat(Wrapped(value)) == Wrapped(PStr(TextOf(value)))
  {
    hide TextOf;
  }

  // ----- rows that cannot be lost together -----

  /** The keys of every object inside the value are in ascending order. */
  ghost predicate KeysAscend(p: Payload) {
    match p
    case PList(items) => forall i :: 0 <= i < |items| ==> KeysAscend(items[i])
    case PDict(entries) =>
      && (forall i, j :: 0 <= i < j < |entries| ==> Less(KeyText(entries[i].key), KeyText(entries[j].key)))
      && (forall i :: 0 <= i < |entries| ==> KeysAscend(entries[i].value))
    case _ => true
  }

  lemma {:induction false} AscendAlike(a: Payload, b: Payload)
    requires FromJson(a) && FromJson(b) && KeysAscend(a) && KeysAscend(b) && Alike(a, b)
    ensures a == b
  {
    match a
    case PList(items) =>
      forall i | 0 <= i < |items| ensures items[i] == b.items[i] { AscendAlike(items[i], b.items[i]); }
    case PDict(entries) =>
      SameOrder(entries, b.entries);
      forall i | 0 <= i < |entries| ensures entries[i] == b.entries[i] {
        AscendAlike(entries[i].value, b.entries[i].value);
      }
    case _ =>
  }

  function KeyTexts(entries: seq<Entry>): seq<string> {
    seq(|entries|, i requires 0 <= i < |entries| => KeyText(entries[i].key))
  }

  lemma SameOrder(a: seq<Entry>, b: seq<Entry>)
    requires StringKeyed(a) && StringKeyed(b) && Keys(a) == Keys(b)
    requires Ascending(KeyTexts(a)) && Ascending(KeyTexts(b))
    ensures |a| == |b| && forall i :: 0 <= i < |a| ==> a[i].key == b[i].key
  {
    KeyElements(a);
    KeyElements(b);
    assert Elements(KeyTexts(a)) == Elements(KeyTexts(b)) by {
      assert forall k :: k in Elements(KeyTexts(a)) <==> k in Elements(KeyTexts(b));
    }
    AscendingUnique(KeyTexts(a), KeyTexts(b));
    forall i | 0 <= i < |a| ensures a[i].key == b[i].key {
      assert KeyTexts(a)[i] == KeyTexts(b)[i];
    }
  }

  lemma KeyElements(entries: seq<Entry>)
    requires StringKeyed(entries)
    ensures forall k :: k in Elements(KeyTexts(entries)) <==> PStr(k) in Keys(entries)
  {
    forall k | PStr(k) in Keys(entries)
      ensures k in Elements(KeyTexts(entries))
    {
      KeyAt(entries, PStr(k));
      var i: nat :| i < |entries| && entries[i].key == PStr(k);
      assert KeyTexts(entries)[i] == k;
    }
  }

  /** Rows whose nested objects keep their keys in ascending order. */
  type TidyRow = r: Row | forall i :: 0 <= i < |r.entries| ==> KeysAscend(r.entries[i].value) witness PDict([])

  /** Among such rows every removed one has a kept twin, whatever the order of their own keys. */
  lemma TidyRowsRepresented(words: Words, tokens: string -> nat, o: Options, rows: seq<TidyRow>)
    requires o.dedupe && !o.dropLowInformation
    ensures Represented(SignaturesOf(words, tokens), o, rows)
  {
    hide Normalized, Exact, Lost;
    var sig := SignaturesOf(words, tokens);
    forall i | 0 <= i < |rows|
      ensures !Lost(sig, o, rows, i)
    {
      if Lost(sig, o, rows, i) {
        var _, k := LostFollowsTriple(sig, o, rows, i);
        ExactIff(rows[k], rows[i]);
        TidyAlike(words, rows[k], rows[i]);
      }
    }
  }

  lemma TidyAlike(words: Words, a: TidyRow, b: TidyRow)
    requires Alike(a, b)
    ensures Normalized(words, a) == Normalized(words, b)
  {
    hide TextOf, Normalized;
    AlikeNames(a, b);
    forall k | k in Names(a)
      ensures ValueAt(a.entries, k) == ValueAt(b.entries, k)
    {
      var i := Named(a, k);
      var j := Named(b, k);
      AscendAlike(a.entries[i].value, b.entries[j].value);
    }
    SameTexts(words, a, b);
  }
}
