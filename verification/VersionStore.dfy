/**
 The dataset version store: captured rows, ordered manifests and version records, how a version is
 reconstructed and verified, and what no later step may do to one that verifies.

 A row is known by its exact signature, a JSON text without newlines.
 */
module VersionStore {
  import opened Wrappers
  import opened Strings
  import opened CanonicalJson

  type Row = s: string | s != "" && '\n' !in s witness "{}"

  type RowId = string

  type VersionId = string

  /** A row-store line: a row under its id, or a fragment no reader can classify. */
  datatype StoreEntry = Stored(id: RowId, row: Row) | Fragment(text: string)

  datatype VersionRecord = VersionRecord(
    fingerprint: Option<string>, rowCount: nat, rowsStored: bool, storedRowCount: nat)

  /** Everything on disk; the dataset is None while examples.jsonl does not exist. */
  datatype Disk = Disk(
    dataset: Option<seq<string>>, store: seq<StoreEntry>,
    manifests: map<VersionId, seq<RowId>>, records: map<VersionId, VersionRecord>)

  /** JSON parsing of a dataset line, the canonical line of a row, and SHA-256. */
  datatype Codec = Codec(parse: string -> Option<Row>, canonical: Row -> string, hash: string -> string)

  ghost predicate Lawful(c: Codec) {
    && CollisionFree(c.hash)
    && forall r: Row :: c.parse(c.canonical(r)) == Some(r)
  }

  /** The rows of dataset lines, or None when one does not parse. */
  function Rows(c: Codec, lines: seq<string>): Option<seq<Row>> {
    if lines == [] then Some([])
    else
      var first, rest := c.parse(lines[0]), Rows(c, lines[1..]);
      if first.Some? && rest.Some? then Some([first.value] + rest.value) else None
  }

  function CanonicalLines(c: Codec, rows: seq<Row>): seq<string> {
    seq(|rows|, i requires 0 <= i < |rows| => c.canonical(rows[i]))
  }

  lemma {:induction false} CanonicalLinesParse(c: Codec, rows: seq<Row>)
    requires Lawful(c)
    ensures Rows(c, CanonicalLines(c, rows)) == Some(rows)
  {
    if rows != [] {
      CanonicalLinesParse(c, rows[1..]);
      assert CanonicalLines(c, rows)[1..] == CanonicalLines(c, rows[1..]);
      assert rows == [rows[0]] + rows[1..];
    }
  }

  // ----- the fingerprint -----

  /** The order-sensitive digest of the rows' signatures joined by newlines. */
  function Fingerprint(c: Codec, rows: seq<Row>): string {
    c.hash(Join(rows, "\n"))
  }

  lemma {:induction false} JoinNonEmpty(rows: seq<Row>)
    requires rows != []
    ensures Join(rows, "\n") != ""
  {
  }

  /** Lines are rows exactly when each parses, and then row by row. */
  lemma {:induction false} RowsAre(c: Codec, lines: seq<string>)
    ensures Rows(c, lines).Some? <==> forall k :: 0 <= k < |lines| ==> c.parse(lines[k]).Some?
    ensures Rows(c, lines).Some? ==>
              && |Rows(c, lines).value| == |lines|
              && forall k :: 0 <= k < |lines| ==> c.parse(lines[k]) == Some(Rows(c, lines).value[k])
  {
    if lines != [] {
      RowsAre(c, lines[1..]);
      assert forall k :: 1 <= k < |lines| ==> lines[k] == lines[1..][k - 1];
    }
  }

  lemma {:induction false} RowsConcat(c: Codec, a: seq<string>, b: seq<string>)
    requires Rows(c, a).Some? && Rows(c, b).Some?
    ensures Rows(c, a + b) == Some(Rows(c, a).value + Rows(c, b).value)
  {
    RowsAre(c, a);
    RowsAre(c, b);
    RowsAre(c, a + b);
    forall k | 0 <= k < |a + b|
      ensures c.parse((a + b)[k]) == Some((Rows(c, a).value + Rows(c, b).value)[k])
    {
      assert (a + b)[k] == if k < |a| then a[k] else b[k - |a|];
    }
    assert Rows(c, a + b).value == Rows(c, a).value + Rows(c, b).value;
  }

  lemma FingerprintInjective(c: Codec, a: seq<Row>, b: seq<Row>)
    requires CollisionFree(c.hash) && Fingerprint(c, a) == Fingerprint(c, b)
    ensures a == b
  {
    if a != [] && b != [] {
      SplitJoin(a, '\n');
      SplitJoin(b, '\n');
    } else if a != [] {
      JoinNonEmpty(a);
    } else if b != [] {
      JoinNonEmpty(b);
    }
  }

  // ----- reconstruction -----

  /** The first stored row under an id. */
  function Lookup(store: seq<StoreEntry>, id: RowId): Option<Row> {
    if store == [] then None
    else if store[0].Stored? && store[0].id == id then Some(store[0].row)
    else Lookup(store[1..], id)
  }

  function LookupAll(store: seq<StoreEntry>, ids: seq<RowId>): Option<seq<Row>> {
    if ids == [] then Some([])
    else
      var earlier, last := LookupAll(store, ids[..|ids| - 1]), Lookup(store, ids[|ids| - 1]);
      if earlier.Some? && last.Some? then Some(earlier.value + [last.value]) else None
  }

  datatype RestoreError = NoSuchVersion | NoStoredRows | MissingRows | FingerprintMismatch

  /** `reconstruct_version_lines`: the verified rows of a version. */
  function Reconstruct(c: Codec, d: Disk, id: VersionId): Result<seq<Row>, RestoreError> {
    if id !in d.records then Err(NoSuchVersion)
    else if !d.records[id].rowsStored || id !in d.manifests then Err(NoStoredRows)
    else
      var rows := LookupAll(d.store, d.manifests[id]);
      if rows.None? then Err(MissingRows)
      else if d.records[id].fingerprint != Some(Fingerprint(c, rows.value)) then Err(FingerprintMismatch)
      else Ok(rows.value)
  }

  /** The row is the first one stored under the id. */
  ghost predicate FirstUnder(store: seq<StoreEntry>, id: RowId, row: Row) {
    exists k :: 0 <= k < |store| && store[k] == Stored(id, row) && forall j :: 0 <= j < k ==> !(store[j].Stored? && store[j].id == id)
  }

  lemma {:induction false} LookupIff(store: seq<StoreEntry>, id: RowId, row: Row)
    ensures Lookup(store, id) == Some(row) <==> FirstUnder(store, id, row)
    ensures Lookup(store, id) == None <==> forall k :: 0 <= k < |store| ==> !(store[k].Stored? && store[k].id == id)
  {
    if store != [] {
      var rest := store[1..];
      assert forall k :: 1 <= k < |store| ==> store[k] == rest[k - 1];
      if store[0].Stored? && store[0].id == id {
        assert FirstUnder(store, id, store[0].row);
      } else {
        LookupIff(rest, id, row);
        if FirstUnder(rest, id, row) {
          var k :| 0 <= k < |rest| && rest[k] == Stored(id, row) && forall j :: 0 <= j < k ==> !(rest[j].Stored? && rest[j].id == id);
          assert store[k + 1] == Stored(id, row);
        }
      }
    }
  }

  lemma {:induction false} LookupAllIff(store: seq<StoreEntry>, ids: seq<RowId>, rows: seq<Row>)
    ensures LookupAll(store, ids) == Some(rows) <==>
            |rows| == |ids| && forall k :: 0 <= k < |ids| ==> Lookup(store, ids[k]) == Some(rows[k])
  {
    if ids != [] && rows != [] {
      var m, n := |ids| - 1, |rows| - 1;
      LookupAllIff(store, ids[..m], rows[..n]);
      assert rows == rows[..n] + [rows[n]];
    }
  }

  /**
   When a version reconstructs, and to what: its record says rows were stored, its manifest is there,
   each id of the manifest has a stored row, the first of them in its place, and the digest of the
   rows' signatures, one to a line, is the recorded fingerprint.
   */
  lemma ReconstructIff(c: Codec, d: Disk, id: VersionId, rows: seq<Row>)
    ensures Reconstruct(c, d, id) == Ok(rows) <==>
            && id in d.records && d.records[id].rowsStored && id in d.manifests
            && |rows| == |d.manifests[id]|
            && (forall k :: 0 <= k < |rows| ==> FirstUnder(d.store, d.manifests[id][k], rows[k]))
            && d.records[id].fingerprint == Some(c.hash(Join(rows, "\n")))
  {
    hide FirstUnder, LookupAll, Lookup, Join;
    if id in d.manifests {
      var ids := d.manifests[id];
      LookupAllIff(d.store, ids, rows);
      forall k | 0 <= k < |ids| && k < |rows|
        ensures Lookup(d.store, ids[k]) == Some(rows[k]) <==> FirstUnder(d.store, ids[k], rows[k])
      {
        LookupIff(d.store, ids[k], rows[k]);
      }
      if LookupAll(d.store, ids).Some? {
        LookupAllIff(d.store, ids, LookupAll(d.store, ids).value);
      }
    }
  }

  /** `reconstruct_and_verify`: rebuild in manifest order, feeding the digest row by row. */
  method ReconstructAndVerify(c: Codec, store: seq<StoreEntry>, manifest: seq<RowId>, expected: Option<string>)
    returns (lines: seq<string>, computed: string, matches: bool, missing: seq<RowId>)
    ensures missing == [] <==> LookupAll(store, manifest).Some?
    ensures forall id :: id in missing <==> id in manifest && Lookup(store, id).None?
    ensures missing != [] ==> lines == [] && !matches
    ensures missing == [] ==>
              && lines == CanonicalLines(c, LookupAll(store, manifest).value)
              && computed == Fingerprint(c, LookupAll(store, manifest).value)
              && (matches <==> expected == Some(computed))
  {
    lines, missing := [], [];
    var fed: seq<Row> := [];
    var text := "";
    for k := 0 to |manifest|
      invariant forall id :: id in missing <==> id in manifest[..k] && Lookup(store, id).None?
      invariant missing == [] <==> LookupAll(store, manifest[..k]).Some?
      invariant missing == [] ==> LookupAll(store, manifest[..k]) == Some(fed)
      invariant lines == CanonicalLines(c, fed) && text == Join(fed, "\n")
    {
      assert manifest[..k + 1] == manifest[..k] + [manifest[k]];
      assert manifest[..k + 1][..k] == manifest[..k];
      var row := Lookup(store, manifest[k]);
      if row.None? {
        missing := missing + [manifest[k]];
      } else {
        lines := lines + [c.canonical(row.value)];
        if fed != [] {
          JoinConcat(fed, [row.value], "\n");
          text := text + "\n";
        }
        text := text + row.value;
        fed := fed + [row.value];
      }
    }
    assert manifest[..|manifest|] == manifest;
    computed := c.hash(text);
    if missing != [] {
      return [], computed, false, missing;
    }
    matches := expected == Some(computed);
  }

  // ----- what later steps preserve -----

  /** Nothing stored is lost or rewritten; only entries, manifests and records are added. */
  ghost predicate Grows(d: Disk, d': Disk) {
    && d.store <= d'.store
    && (forall v :: v in d.manifests ==> v in d'.manifests && d'.manifests[v] == d.manifests[v])
    && (forall v :: v in d.records ==> v in d'.records && d'.records[v] == d.records[v])
  }

  function Referenced(manifests: map<VersionId, seq<RowId>>): set<RowId> {
    set v, id | v in manifests && id in manifests[v] :: id
  }

  /** The store lines collection keeps: the referenced rows, and what it cannot classify. */
  function KeepReferenced(store: seq<StoreEntry>, live: set<RowId>): seq<StoreEntry> {
    if store == [] then []
    else
      var last := store[|store| - 1];
      KeepReferenced(store[..|store| - 1], live) + if last.Fragment? || last.id in live then [last] else []
  }

  /** The positions of the unclassifiable lines and of the referenced rows. */
  ghost predicate KeptPositions(store: seq<StoreEntry>, live: set<RowId>, at: seq<nat>) {
    forall i :: i in at <==> 0 <= i < |store| && (store[i].Fragment? || store[i].id in live)
  }

  lemma KeptNext(store: seq<StoreEntry>, live: set<RowId>, at: seq<nat>)
    requires store != [] && KeptPositions(store[..|store| - 1], live, at)
    ensures var last := |store| - 1;
            && (forall k :: 0 <= k < |at| ==> at[k] < last)
            && KeptPositions(store, live, if store[last].Fragment? || store[last].id in live then at + [last] else at)
  {
    var last := |store| - 1;
    assert forall k :: 0 <= k < |at| ==> at[k] in at;
    assert forall i :: i in at + [last] <==> i in at || i == last;
    assert forall i :: 0 <= i < last ==> store[..last][i] == store[i];
  }

  /** What collection keeps, in order: the unclassifiable lines and the referenced rows. */
  lemma {:induction false} KeptAre(store: seq<StoreEntry>, live: set<RowId>) returns (at: seq<nat>)
    ensures Picks(store, at, KeepReferenced(store, live)) && KeptPositions(store, live, at)
  {
    if store == [] {
      at := [];
    } else {
      var last := |store| - 1;
      at := KeptAre(store[..last], live);
      hide Picks, KeptPositions;
      PicksLonger(store[..last], store, at, KeepReferenced(store[..last], live));
      KeptNext(store, live, at);
      if store[last].Fragment? || store[last].id in live {
        PicksNext(store, at, KeepReferenced(store[..last], live), last);
        at := at + [last];
      }
    }
  }

  ghost predicate Collected(d: Disk, d': Disk) {
    d' == d.(store := KeepReferenced(d.store, Referenced(d.manifests)))
  }

  /** One step of the project's life; the dataset may change in any way, by any program. */
  ghost predicate Step(d: Disk, d': Disk) {
    Grows(d, d') || Collected(d, d')
  }

  lemma {:induction false} LookupPrefix(store: seq<StoreEntry>, more: seq<StoreEntry>, id: RowId)
    requires store <= more && Lookup(store, id).Some?
    ensures Lookup(more, id) == Lookup(store, id)
  {
    if !(store[0].Stored? && store[0].id == id) {
      LookupPrefix(store[1..], more[1..], id);
    }
  }

  lemma {:induction false} LookupConcat(a: seq<StoreEntry>, b: seq<StoreEntry>, id: RowId)
    ensures Lookup(a + b, id) == if Lookup(a, id).Some? then Lookup(a, id) else Lookup(b, id)
  {
    if a == [] {
      assert a + b == b;
    } else {
      assert (a + b)[1..] == a[1..] + b;
      LookupConcat(a[1..], b, id);
    }
  }

  lemma {:induction false} LookupKept(store: seq<StoreEntry>, live: set<RowId>, id: RowId)
    requires id in live
    ensures Lookup(KeepReferenced(store, live), id) == Lookup(store, id)
  {
    if store != [] {
      var rest, last := store[..|store| - 1], store[|store| - 1];
      LookupKept(rest, live, id);
      assert store == rest + [last];
      LookupConcat(rest, [last], id);
      LookupConcat(KeepReferenced(rest, live), if last.Fragment? || last.id in live then [last] else [], id);
    }
  }

  lemma {:induction false} LookupAllSame(a: seq<StoreEntry>, b: seq<StoreEntry>, ids: seq<RowId>)
    requires forall id :: id in ids && Lookup(a, id).Some? ==> Lookup(b, id) == Lookup(a, id)
    requires LookupAll(a, ids).Some?
    ensures LookupAll(b, ids) == LookupAll(a, ids)
  {
    if ids != [] {
      LookupAllSame(a, b, ids[..|ids| - 1]);
    }
  }

  lemma StepKeepsVersion(c: Codec, d: Disk, d': Disk, id: VersionId)
    requires Step(d, d') && Reconstruct(c, d, id).Ok?
    ensures Reconstruct(c, d', id) == Reconstruct(c, d, id)
  {
    var ids := d.manifests[id];
    forall r | r in ids && Lookup(d.store, r).Some?
      ensures Lookup(d'.store, r) == Lookup(d.store, r)
    {
      if Grows(d, d') {
        LookupPrefix(d.store, d'.store, r);
      } else {
        LookupKept(d.store, Referenced(d.manifests), r);
      }
    }
    LookupAllSame(d.store, d'.store, ids);
  }

  ghost predicate IsRun(run: seq<Disk>) {
    forall k :: 1 <= k < |run| ==> Step(run[k - 1], run[k])
  }

  /** A version that verifies once verifies, with the same rows, after any run of steps. */
  lemma {:induction false} RunKeepsVersion(c: Codec, run: seq<Disk>, i: nat, j: nat, id: VersionId)
    requires IsRun(run) && i <= j < |run| && Reconstruct(c, run[i], id).Ok?
    ensures Reconstruct(c, run[j], id) == Reconstruct(c, run[i], id)
    decreases j
  {
    if i < j {
      RunKeepsVersion(c, run, i, j - 1, id);
      StepKeepsVersion(c, run[j - 1], run[j], id);
    }
  }

  /** A step that committed a mutation of a non-empty dataset under an undo version. */
  ghost predicate Undoable(c: Codec, d: Disk, d': Disk, undo: VersionId) {
    && d.dataset.Some? && Rows(c, d.dataset.value).Some? && Rows(c, d.dataset.value).value != []
    && Reconstruct(c, d', undo) == Ok(Rows(c, d.dataset.value).value)
  }

  /**
   Run-level undo: the undo id of a committed mutation reconstructs, for the rest of any run of
   mutations, restores, captures, collections and foreign edits, exactly the rows that were live
   before that mutation.
   */
  lemma UndoSurvives(c: Codec, run: seq<Disk>, k: nat, undo: VersionId)
    requires IsRun(run) && k + 1 < |run| && Undoable(c, run[k], run[k + 1], undo)
    ensures forall j :: k < j < |run| ==>
              Reconstruct(c, run[j], undo) == Ok(Rows(c, run[k].dataset.value).value)
  {
    forall j | k < j < |run|
      ensures Reconstruct(c, run[j], undo) == Ok(Rows(c, run[k].dataset.value).value)
    {
      RunKeepsVersion(c, run, k + 1, j, undo);
    }
  }
}
