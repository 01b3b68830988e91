/**
 The undo-first commands over a project's dataset: delete, edit, clean, restore in place, import
 and row-store collection, each as its sequence of checks and writes.

 The environment decides whether a lock is free, what a capture really stores, what it claims to
 have stored, and whether it dies half way.
 */
module DatasetMutation {
  import opened Wrappers
  import opened Strings
  import opened VersionStore
  import Cleaning

  // ----- what a capture may do -----

  /**
   The outcome of capturing the live dataset. A completed capture states the dataset's fingerprint
   honestly, if it could read it; its stored rows, manifest and `rowsStored` flag are whatever the
   environment left on disk.
   */
  datatype Capture =
    | StoreBusy
    | Died(id: VersionId, appended: seq<StoreEntry>, manifest: Option<seq<RowId>>)
    | Completed(id: VersionId, appended: seq<StoreEntry>, manifest: Option<seq<RowId>>, rowsStored: bool, readable: bool)

  predicate FreshFor(capture: Capture, d: Disk) {
    !capture.StoreBusy? ==> capture.id !in d.manifests && capture.id !in d.records
  }

  function RecordOf(c: Codec, d: Disk, capture: Capture): VersionRecord
    requires capture.Completed?
  {
    var rows := if d.dataset.Some? && capture.readable then Rows(c, d.dataset.value) else None;
    if rows.None? then VersionRecord(None, 0, capture.rowsStored, 0)
    else
      VersionRecord(Some(Fingerprint(c, rows.value)), |rows.value|, capture.rowsStored,
                    if capture.rowsStored then |rows.value| else 0)
  }

  function Publish(manifests: map<VersionId, seq<RowId>>, id: VersionId, ids: Option<seq<RowId>>)
    : map<VersionId, seq<RowId>>
  {
    if ids.Some? then manifests[id := ids.value] else manifests
  }

  /** The disk a capture leaves; the dataset itself is only read. */
  function AfterCapture(c: Codec, d: Disk, capture: Capture): Disk {
    match capture
    case StoreBusy => d
    case Died(id, appended, manifest) =>
      d.(store := d.store + appended, manifests := Publish(d.manifests, id, manifest))
    case Completed(id, appended, manifest, _, _) =>
      d.(store := d.store + appended, manifests := Publish(d.manifests, id, manifest),
         records := d.records[id := RecordOf(c, d, capture)])
  }

  datatype CaptureError = VersionStoreBusy | CaptureDied

  datatype MutationError =
    | NoDataset | WriterLocked | BadAddress(message: string)
    | NoOption | NotJson | NoSchema(message: string) | BreaksSchema(issues: seq<string>)
    | UndoNotCaptured(cause: CaptureError) | DatasetUnreadable | UndoNotStored
    | UndoNotVerified(how: RestoreError) | RestoreRefused(reason: RestoreError) | Unverifiable
    | CollectionRefused

  /** What the environment decides for one command. */
  datatype Env = Env(writerLockFree: bool, capture: Capture)

  type Transform = seq<string> -> Result<seq<string>, string>

  /** The capture stored a restorable image of the live rows: what every mutation demands before it writes. */
  predicate UndoVerifies(c: Codec, d: Disk, capture: Capture) {
    && capture.Completed? && capture.readable
    && d.dataset.Some? && Rows(c, d.dataset.value).Some?
    && (Rows(c, d.dataset.value).value != [] ==> Reconstruct(c, AfterCapture(c, d, capture), capture.id).Ok?)
  }

  /** The capture's manifest finds, row by row in the grown store, rows with the digest of the live ones. */
  ghost predicate Restores(c: Codec, d: Disk, capture: Capture, live: seq<Row>, rows: seq<Row>)
    requires capture.Completed?
  {
    var manifests := if capture.manifest.Some? then d.manifests[capture.id := capture.manifest.value] else d.manifests;
    && capture.rowsStored && capture.id in manifests && |rows| == |manifests[capture.id]|
    && (forall k :: 0 <= k < |rows| ==> FirstUnder(d.store + capture.appended, manifests[capture.id][k], rows[k]))
    && c.hash(Join(rows, "\n")) == c.hash(Join(live, "\n"))
  }

  lemma CapturedReconstructs(c: Codec, d: Disk, capture: Capture, rows: seq<Row>)
    requires capture.Completed? && capture.readable && d.dataset.Some? && Rows(c, d.dataset.value).Some?
    ensures Reconstruct(c, AfterCapture(c, d, capture), capture.id) == Ok(rows) <==>
            Restores(c, d, capture, Rows(c, d.dataset.value).value, rows)
  {
    hide FirstUnder, Rows;
    ReconstructIff(c, AfterCapture(c, d, capture), capture.id, rows);
  }

  /** An undo verifies just when the capture read the live rows and its own rows restore to their digest. */
  lemma UndoVerifiesIff(c: Codec, d: Disk, capture: Capture, live: seq<Row>)
    requires d.dataset.Some? && |live| == |d.dataset.value|
    requires forall k :: 0 <= k < |live| ==> c.parse(d.dataset.value[k]) == Some(live[k])
    ensures UndoVerifies(c, d, capture) <==>
            capture.Completed? && capture.readable && (live != [] ==> exists rows :: Restores(c, d, capture, live, rows))
  {
    hide Rows, Reconstruct, AfterCapture, Restores;
    RowsAre(c, d.dataset.value);
    assert Rows(c, d.dataset.value) == Some(live) by {
      assert Rows(c, d.dataset.value).value == live;
    }
    if capture.Completed? && capture.readable {
      var restored := Reconstruct(c, AfterCapture(c, d, capture), capture.id);
      forall rows
        ensures restored == Ok(rows) <==> Restores(c, d, capture, live, rows)
      {
        CapturedReconstructs(c, d, capture, rows);
      }
    }
  }

  lemma UndoNeedsReadable(c: Codec, d: Disk, capture: Capture)
    requires UndoVerifies(c, d, capture)
    ensures d.dataset.Some? && forall line :: line in d.dataset.value ==> c.parse(line).Some?
  {
    RowsAre(c, d.dataset.value);
  }

  /** Reading a replacement row, the issues its schema finds, if a schema is known, and the row's line. */
  datatype RowChecks<!J> = RowChecks(
    parse: string -> Option<J>, schema: Result<J -> seq<string>, string>, dump: J -> string)

  // ----- the project -----

  class Project {
    const codec: Codec
    var dataset: Option<seq<string>>
    var store: seq<StoreEntry>
    var manifests: map<VersionId, seq<RowId>>
    var records: map<VersionId, VersionRecord>

    constructor (codec: Codec, disk: Disk)
      ensures this.codec == codec && Now() == disk
    {
      this.codec := codec;
      dataset, store, manifests, records := disk.dataset, disk.store, disk.manifests, disk.records;
    }

    function Now(): Disk
      reads this
    {
      Disk(dataset, store, manifests, records)
    }

    /** `create_dataset_version` with stored rows, as far as the environment lets it get. */
    method CreateDatasetVersion(capture: Capture) returns (r: Result<VersionId, CaptureError>)
      requires FreshFor(capture, Now())
      modifies this`store, this`manifests, this`records
      ensures Now() == AfterCapture(codec, old(Now()), capture)
      ensures Grows(old(Now()), Now())
      ensures dataset == old(dataset)
      ensures store == old(store) + (if capture.StoreBusy? then [] else capture.appended)
      ensures manifests == if !capture.StoreBusy? && capture.manifest.Some? then old(manifests)[capture.id := capture.manifest.value]
                           else old(manifests)
      ensures !capture.Completed? ==> records == old(records)
      ensures capture.Completed? ==>
                && records.Keys == old(records).Keys + {capture.id}
                && (forall v :: v in old(records) ==> records[v] == old(records)[v])
                && records[capture.id].rowsStored == capture.rowsStored
                && (dataset.Some? && capture.readable && Rows(codec, dataset.value).Some? ==>
                      var rows := Rows(codec, dataset.value).value;
                      && records[capture.id].fingerprint == Some(codec.hash(Join(rows, "\n")))
                      && records[capture.id].rowCount == |rows|
                      && records[capture.id].storedRowCount == if capture.rowsStored then |rows| else 0)
      ensures r == match capture
                   case StoreBusy => Err(VersionStoreBusy)
                   case Died(_, _, _) => Err(CaptureDied)
                   case Completed(id, _, _, _, _) => Ok(id)
    {
      match capture {
        case StoreBusy => return Err(VersionStoreBusy);
        case Died(id, appended, manifest) =>
          store := store + appended;
          manifests := Publish(manifests, id, manifest);
          r := Err(CaptureDied);
        case Completed(id, appended, manifest, _, _) =>
          var record := RecordOf(codec, Now(), capture);
          store := store + appended;
          manifests := Publish(manifests, id, manifest);
          records := records[id := record];
          r := Ok(id);
      }
    }

    /**
     Captures an undo version and proves it restorable: a non-empty dataset must reconstruct from
     it, fingerprint and all, before anything may be overwritten.
     */
    method CaptureVerifiedUndo(capture: Capture) returns (r: Result<VersionId, MutationError>)
      requires FreshFor(capture, Now()) && dataset.Some?
      modifies this`store, this`manifests, this`records
      ensures Grows(old(Now()), Now()) && Now() == AfterCapture(codec, old(Now()), capture)
      ensures r.Ok? ==> r.value !in old(records) && Rows(codec, dataset.value).Some?
      ensures r.Ok? && Lawful(codec) && Rows(codec, dataset.value).value != [] ==>
                Reconstruct(codec, Now(), r.value) == Ok(Rows(codec, dataset.value).value)
      ensures r.Ok? <==> UndoVerifies(codec, old(Now()), capture)
      ensures r.Ok? ==> r.value == capture.id
    {
      var captured := CreateDatasetVersion(capture);
      if captured.Err? {
        return Err(UndoNotCaptured(captured.error));
      }
      var undo := captured.value;
      var record := records[undo];
      if record.fingerprint.None? {
        return Err(DatasetUnreadable);
      }
      if record.rowCount > 0 {
        if !record.rowsStored {
          return Err(UndoNotStored);
        }
        var rebuilt := Reconstruct(codec, Now(), undo);
        if rebuilt.Err? {
          return Err(UndoNotVerified(rebuilt.error));
        }
        if Lawful(codec) {
          FingerprintInjective(codec, rebuilt.value, Rows(codec, dataset.value).value);
        }
      }
      r := Ok(undo);
    }

    /**
     `_apply_examples_mutation`: whatever the capture reports, either the dataset is untouched, or
     the undo of a non-empty dataset was verified first and exactly the transformed lines are in
     place. A refused address changes nothing at all.
     */
    method ApplyExamplesMutation(transform: Transform, env: Env) returns (r: Result<(nat, VersionId), MutationError>)
      requires FreshFor(env.capture, Now())
      modifies this
      ensures Step(old(Now()), Now())
      ensures r.Ok? <==>
                && old(dataset).Some? && env.writerLockFree && transform(old(dataset).value).Ok?
                && UndoVerifies(codec, old(Now()), env.capture)
      ensures r.Ok? ==>
                && Now() == AfterCapture(codec, old(Now()), env.capture).(dataset := Some(transform(old(dataset).value).value))
                && r.value == (|dataset.value|, env.capture.id)
                && (Lawful(codec) && Rows(codec, old(dataset).value).value != [] ==>
                      Undoable(codec, old(Now()), Now(), env.capture.id))
      ensures r.Err? ==> dataset == old(dataset)
      ensures old(dataset).None? ==> r == Err(NoDataset) && Now() == old(Now())
      ensures old(dataset).Some? && !env.writerLockFree ==> r == Err(WriterLocked) && Now() == old(Now())
      ensures old(dataset).Some? && env.writerLockFree && transform(old(dataset).value).Err? ==>
                r == Err(BadAddress(transform(old(dataset).value).error)) && Now() == old(Now())
      ensures old(dataset).Some? && env.writerLockFree && transform(old(dataset).value).Ok? && r.Err? ==>
                Now() == AfterCapture(codec, old(Now()), env.capture)
    {
      if dataset.None? {
        return Err(NoDataset);
      }
      if !env.writerLockFree {
        return Err(WriterLocked);
      }
      var existing := dataset.value;
      var transformed := transform(existing);
      if transformed.Err? {
        return Err(BadAddress(transformed.error));
      }
      var undo := CaptureVerifiedUndo(env.capture);
      if undo.Err? {
        return Err(undo.error);
      }
      assert Grows(old(Now()), Now());
      label captured:
      dataset := Some(transformed.value);
      if Lawful(codec) && Rows(codec, existing).value != [] {
        StepKeepsVersion(codec, old@captured(Now()), Now(), undo.value);
      }
      r := Ok((|transformed.value|, undo.value));
    }

    /** `examples-delete`: the named lines go and every other stays in order, under a verified undo. */
    method ExamplesDelete(rows: set<int>, env: Env) returns (r: Result<(nat, VersionId), MutationError>)
      requires FreshFor(env.capture, Now())
      modifies this
      ensures Step(old(Now()), Now())
      ensures r.Ok? <==>
                && old(dataset).Some? && env.writerLockFree && UndoVerifies(codec, old(Now()), env.capture)
                && forall n :: n in rows ==> 1 <= n <= |old(dataset).value|
      ensures r.Ok? ==>
                && dataset.Some? && |dataset.value| + |rows| == |old(dataset).value|
                && (exists at: seq<nat> :: Picks(old(dataset).value, at, dataset.value) && forall i :: i in at <==>
                      0 <= i < |old(dataset).value| && i + 1 !in rows)
                && r.value == (|dataset.value|, env.capture.id)
      ensures r.Ok? && Lawful(codec) && Rows(codec, old(dataset).value).value != [] ==>
                Undoable(codec, old(Now()), Now(), r.value.1)
      ensures r.Err? ==> dataset == old(dataset)
    {
      var transform: Transform := existing => DeleteRows(rows, existing);
      r := ApplyExamplesMutation(transform, env);
      if r.Ok? {
        ghost var at := DeleteRowsExact(rows, old(dataset).value);
      }
    }

    /**
     `examples-edit`: a replacement that is JSON and fits the schema takes the place of one line, and
     of nothing else, under a verified undo; any other replacement is refused before anything is read.
     */
    method ExamplesEdit<J>(row: int, raw: string, checks: RowChecks<J>, env: Env)
      returns (r: Result<(nat, VersionId), MutationError>)
      requires FreshFor(env.capture, Now()) && row >= 1
      modifies this
      ensures Step(old(Now()), Now())
      ensures r.Ok? <==>
                && checks.parse(raw).Some? && checks.schema.Ok? && checks.schema.value(checks.parse(raw).value) == []
                && old(dataset).Some? && env.writerLockFree && row <= |old(dataset).value|
                && UndoVerifies(codec, old(Now()), env.capture)
      ensures r.Ok? ==>
                var line := checks.dump(checks.parse(raw).value);
                && dataset.Some? && |dataset.value| == |old(dataset).value| && dataset.value[row - 1] == line
                && (forall k :: 0 <= k < |dataset.value| && k != row - 1 ==> dataset.value[k] == old(dataset).value[k])
                && dataset.value[row - 1 := old(dataset).value[row - 1]] == old(dataset).value
                && r.value == (|dataset.value|, env.capture.id)
      ensures r.Ok? && Lawful(codec) && Rows(codec, old(dataset).value).value != [] ==>
                Undoable(codec, old(Now()), Now(), r.value.1)
      ensures r.Err? ==> dataset == old(dataset)
      ensures checks.parse(raw).None? ==> r == Err(NotJson) && Now() == old(Now())
      ensures checks.parse(raw).Some? && checks.schema.Err? ==> r == Err(NoSchema(checks.schema.error)) && Now() == old(Now())
      ensures checks.parse(raw).Some? && checks.schema.Ok? && checks.schema.value(checks.parse(raw).value) != [] ==>
                r == Err(BreaksSchema(checks.schema.value(checks.parse(raw).value))) && Now() == old(Now())
    {
      assert Grows(Now(), Now());
      var parsed := checks.parse(raw);
      if parsed.None? {
        return Err(NotJson);
      }
      if checks.schema.Err? {
        return Err(NoSchema(checks.schema.error));
      }
      var issues := checks.schema.value(parsed.value);
      if issues != [] {
        return Err(BreaksSchema(issues));
      }
      var line := checks.dump(parsed.value);
      var transform: Transform := existing => EditRow(row, line, existing);
      r := ApplyExamplesMutation(transform, env);
      if r.Ok? {
        EditRowUndone(row, line, old(dataset).value);
      }
    }

    /**
     `examples-clean`: a preview of the live rows, and in place their deduplicated lines under a
     verified undo. A dataset that cannot be read, or has nothing to remove, is left alone, and so is
     any dataset when neither kind of cleaning is chosen.
     */
    method ExamplesClean<T>(parse: string -> Option<T>, dump: T -> string, sig: Cleaning.Signatures<T>,
                            o: Cleaning.Options, inPlace: bool, env: Env)
      returns (r: Result<(Cleaning.CleanResult, Option<VersionId>), MutationError>)
      requires FreshFor(env.capture, Now())
      modifies this
      ensures Step(old(Now()), Now())
      ensures r.Ok? <==>
                && (o.dedupe || o.dropLowInformation)
                && old(dataset).Some? && ParseAll(parse, old(dataset).value).Some?
                && var rows := ParseAll(parse, old(dataset).value).value;
                   inPlace && |Cleaning.Kept(sig, o, rows)| < |rows| ==>
                     env.writerLockFree && UndoVerifies(codec, old(Now()), env.capture)
      ensures r.Err? || r.value.1.None? ==> dataset == old(dataset)
      ensures r.Ok? ==> forall line :: line in old(dataset).value ==> parse(line).Some?
      ensures r.Ok? ==>
                && old(dataset).Some? && ParseAll(parse, old(dataset).value).Some?
                && r.value.0.keptRows == |Cleaning.Kept(sig, o, ParseAll(parse, old(dataset).value).value)|
                && (r.value.1.Some? <==> inPlace && r.value.0.removedRows > 0)
      ensures r.Ok? && r.value.1.Some? ==>
                && dataset.Some? && Cleaned(parse, dump, sig, o, old(dataset).value, dataset.value)
                && r.value.0.keptRows == |dataset.value|
                && UndoVerifies(codec, old(Now()), env.capture) && r.value.1.value == env.capture.id
      ensures r.Ok? && r.value.1.Some? && Lawful(codec) && Rows(codec, old(dataset).value).value != [] ==>
                Undoable(codec, old(Now()), Now(), r.value.1.value)
      ensures !(o.dedupe || o.dropLowInformation) ==> r == Err(NoOption) && Now() == old(Now())
    {
      if !(o.dedupe || o.dropLowInformation) {
        return Err(NoOption);
      }
      if dataset.None? {
        return Err(NoDataset);
      }
      var current := ParseAll(parse, dataset.value);
      ParsedAre(parse, dataset.value);
      if current.None? {
        return Err(BadAddress(UNREADABLE_ROW));
      }
      var _, preview := Cleaning.CleanRows(sig, o, current.value);
      assert Grows(Now(), Now());
      if !inPlace || preview.removedRows == 0 {
        return Ok((preview, None));
      }
      var transform: Transform := existing => CleanLines(parse, dump, sig, o, existing);
      var applied := ApplyExamplesMutation(transform, env);
      if applied.Err? {
        return Err(applied.error);
      }
      CleanedLines(parse, dump, sig, o, old(dataset).value);
      r := Ok((preview, Some(applied.value.1)));
    }

    /**
     `dataset-version-restore --in-place`: installs exactly the verified rows of the version, after
     a verified undo of the dataset it replaces, or leaves the dataset untouched.
     */
    method RestoreInPlace(version: VersionId, verify: bool, env: Env) returns (r: Result<Option<VersionId>, MutationError>)
      requires FreshFor(env.capture, Now())
      modifies this
      ensures Step(old(Now()), Now())
      ensures r.Ok? <==>
                && verify && Reconstruct(codec, old(Now()), version).Ok? && env.writerLockFree
                && (old(dataset).Some? ==> UndoVerifies(codec, old(Now()), env.capture))
      ensures r.Ok? ==>
                var rows := Reconstruct(codec, old(Now()), version).value;
                var captured := if old(dataset).Some? then AfterCapture(codec, old(Now()), env.capture) else old(Now());
                && Now() == captured.(dataset := Some(CanonicalLines(codec, rows)))
                && r.value == if old(dataset).Some? then Some(env.capture.id) else None
      ensures r.Err? ==> dataset == old(dataset)
      ensures !verify || !env.writerLockFree || Reconstruct(codec, old(Now()), version).Err? ==>
                r.Err? && Now() == old(Now())
      ensures r.Ok? && Lawful(codec) ==>
                && Rows(codec, dataset.value) == Some(Reconstruct(codec, old(Now()), version).value)
                && Reconstruct(codec, Now(), version) == Reconstruct(codec, old(Now()), version)
      ensures r.Ok? && Lawful(codec) && old(dataset).Some? && Rows(codec, old(dataset).value).value != [] ==>
                Undoable(codec, old(Now()), Now(), r.value.value)
    {
      if version !in records {
        return Err(RestoreRefused(NoSuchVersion));
      }
      var record := records[version];
      if !record.rowsStored || version !in manifests {
        return Err(RestoreRefused(NoStoredRows));
      }
      var lines, _, matches, missing := ReconstructAndVerify(codec, store, manifests[version], record.fingerprint);
      if missing != [] {
        return Err(RestoreRefused(MissingRows));
      }
      if verify && record.fingerprint.Some? && !matches {
        return Err(RestoreRefused(FingerprintMismatch));
      }
      if !verify || record.fingerprint.None? {
        return Err(Unverifiable);
      }
      if !env.writerLockFree {
        return Err(WriterLocked);
      }
      ghost var rows := Reconstruct(codec, Now(), version);
      var undoId := None;
      if dataset.Some? {
        var undo := CaptureVerifiedUndo(env.capture);
        if undo.Err? {
          return Err(undo.error);
        }
        undoId := Some(undo.value);
      }
      assert Grows(old(Now()), Now());
      label captured:
      dataset := Some(lines);
      assert Grows(old@captured(Now()), Now());
      StepKeepsVersion(codec, old(Now()), Now(), version);
      if Lawful(codec) {
        CanonicalLinesParse(codec, rows.value);
        if old(dataset).Some? && Rows(codec, old(dataset).value).value != [] {
          StepKeepsVersion(codec, old@captured(Now()), Now(), undoId.value);
        }
      }
      r := Ok(undoId);
    }

    /**
     `import-commit` of the accepted rows: a busy version store refuses the whole commit; otherwise
     the dataset grows by exactly those rows, and a completed capture fingerprints the grown dataset.
     */
    method ImportCommit(accepted: seq<Row>, captureVersion: bool, storeLockFree: bool, env: Env)
      returns (r: Result<Option<VersionId>, MutationError>)
      requires FreshFor(env.capture, Now()) && (captureVersion ==> !env.capture.StoreBusy?)
      modifies this
      ensures Step(old(Now()), Now())
      ensures r.Ok? <==>
                accepted == [] || (env.writerLockFree && (captureVersion ==> storeLockFree && env.capture.Completed?))
      ensures r.Ok? ==> r.value == if accepted != [] && captureVersion then Some(env.capture.id) else None
      ensures accepted == [] ==> Now() == old(Now())
      ensures accepted != [] && !env.writerLockFree ==> r == Err(WriterLocked) && Now() == old(Now())
      ensures accepted != [] && env.writerLockFree && captureVersion && !storeLockFree ==>
                r == Err(UndoNotCaptured(VersionStoreBusy)) && Now() == old(Now())
      ensures accepted != [] && env.writerLockFree && (captureVersion ==> storeLockFree) ==>
                var lines := (if old(dataset).Some? then old(dataset).value else []) + CanonicalLines(codec, accepted);
                var grown := old(Now()).(dataset := Some(lines));
                Now() == if captureVersion then AfterCapture(codec, grown, env.capture) else grown
      ensures accepted != [] && env.writerLockFree && (captureVersion ==> storeLockFree) ==>
                && dataset == Some((if old(dataset).Some? then old(dataset).value else []) + CanonicalLines(codec, accepted))
                && (Lawful(codec) && (old(dataset).Some? ==> Rows(codec, old(dataset).value).Some?) ==>
                      Rows(codec, dataset.value) ==
                      Some((if old(dataset).Some? then Rows(codec, old(dataset).value).value else []) + accepted))
      ensures r.Ok? && r.value.Some? ==>
                && r.value.value in records && dataset.Some?
                && (env.capture.readable && Rows(codec, dataset.value).Some? ==>
                      records[r.value.value].fingerprint == Some(Fingerprint(codec, Rows(codec, dataset.value).value)))
    {
      hide Rows, Grows, Step, Picks, Lawful, CanonicalLines, AfterCapture;
      NothingDone(Now());
      if accepted == [] {
        return Ok(None);
      }
      if !env.writerLockFree {
        return Err(WriterLocked);
      }
      if captureVersion && !storeLockFree {
        return Err(UndoNotCaptured(VersionStoreBusy));
      }
      var existing := if dataset.Some? then dataset.value else [];
      dataset := Some(existing + CanonicalLines(codec, accepted));
      ghost var grown := Now();
      if Lawful(codec) && (old(dataset).Some? ==> Rows(codec, old(dataset).value).Some?) {
        GrownRows(codec, old(dataset), accepted);
      }
      if !captureVersion {
        DatasetReplaced(old(Now()), grown, Now());
        return Ok(None);
      }
      var captured := CreateDatasetVersion(env.capture);
      DatasetReplaced(old(Now()), grown, Now());
      if captured.Err? {
        return Err(UndoNotCaptured(captured.error));
      }
      r := Ok(Some(captured.value));
    }

    predicate AllTrusted()
      reads `manifests, `records
    {
      forall v :: v in manifests ==> Trusted(manifests[v], if v in records then Some(records[v]) else None)
    }

    /** `collect_referenced_row_ids`: the live ids, or a refusal when a manifest cannot be trusted. */
    method CollectReferencedRowIds() returns (r: Result<set<RowId>, MutationError>)
      ensures r.Ok? ==> forall id :: id in r.value <==> exists v :: v in manifests && id in manifests[v]
      ensures r.Ok? ==> r.value == Referenced(manifests)
      ensures r.Ok? <==> AllTrusted()
    {
      var todo := manifests.Keys;
      var live: set<RowId> := {};
      while todo != {}
        invariant todo <= manifests.Keys
        invariant live == set v, id | v in manifests && v !in todo && id in manifests[v] :: id
        invariant forall v :: v in manifests && v !in todo ==>
                    Trusted(manifests[v], if v in records then Some(records[v]) else None)
      {
        var v :| v in todo;
        if !Trusted(manifests[v], if v in records then Some(records[v]) else None) {
          return Err(CollectionRefused);
        }
        live := live + set id | id in manifests[v];
        todo := todo - {v};
      }
      r := Ok(live);
    }

    /** No version store at all: no directory, so nothing captured, stored or recorded. */
    predicate NoVersionStore()
      reads this
    {
      store == [] && manifests == map[] && records == map[]
    }

    /**
     `gc_row_store`: rewrites the store without the rows no manifest references, or changes nothing.
     Without a version-store directory it takes no lock and has nothing to prune.
     */
    method GcRowStore(storeExists: bool, storeLockFree: bool, replaceSucceeds: bool, dryRun: bool)
      returns (r: Result<(nat, nat), MutationError>)
      requires storeExists || NoVersionStore()
      modifies this`store
      ensures Step(old(Now()), Now())
      ensures !storeExists ==> r == Ok((0, 0))
      ensures var kept := KeepReferenced(old(store), Referenced(manifests));
              && (r.Ok? <==>
                    || !storeExists
                    || (storeLockFree && AllTrusted() &&
                          (dryRun || replaceSucceeds || StoredRows(kept) == StoredRows(old(store)))))
              && (r.Ok? ==> r.value == (StoredRows(kept), StoredRows(old(store)) - StoredRows(kept)))
              && (r.Ok? && !dryRun && r.value.1 > 0 ==> Collected(old(Now()), Now()))
      ensures r.Err? || dryRun || r.value.1 == 0 ==> Now() == old(Now())
      ensures r.Ok? && !dryRun ==>
                && manifests == old(manifests) && records == old(records) && dataset == old(dataset)
                && OnlyUnreferencedGone(old(store), store, manifests)
    {
      hide OnlyUnreferencedGone, StoredRows, KeepReferenced, Trusted, Referenced, AllTrusted, Grows, Collected, Step;
      NothingDone(Now());
      KeptUnreferenced(store, manifests);
      if !storeExists {
        SweepStart(Referenced(manifests));
        return Ok((0, 0));
      }
      if !storeLockFree {
        return Err(CollectionRefused);
      }
      var live := CollectReferencedRowIds();
      if live.Err? {
        return Err(live.error);
      }
      var kept, scanned, pruned := SweepStore(store, live.value);
      if pruned > 0 && !dryRun {
        if !replaceSucceeds {
          return Err(CollectionRefused);
        }
        store := kept;
        SweptIsCollected(old(Now()), Now());
      }
      r := Ok((scanned - pruned, pruned));
    }
  }

  /** What stays of the store, in order: every line no reader can classify, and every row some manifest lists. */
  ghost predicate OnlyUnreferencedGone(before: seq<StoreEntry>, after: seq<StoreEntry>, manifests: map<VersionId, seq<RowId>>) {
    exists at: seq<nat> :: Picks(before, at, after) && forall i :: i in at <==>
      0 <= i < |before| && (before[i].Fragment? || exists v :: v in manifests && before[i].id in manifests[v])
  }

  lemma KeptUnreferenced(store: seq<StoreEntry>, manifests: map<VersionId, seq<RowId>>)
    ensures OnlyUnreferencedGone(store, KeepReferenced(store, Referenced(manifests)), manifests)
  {
    var at := KeptAre(store, Referenced(manifests));
    hide Picks, KeepReferenced;
    assert forall id :: id in Referenced(manifests) <==> exists v :: v in manifests && id in manifests[v];
  }

  lemma NothingDone(d: Disk)
    ensures Step(d, d)
  {
  }

  /** The dataset replaced, and then perhaps a capture. */
  lemma DatasetReplaced(d: Disk, replaced: Disk, d': Disk)
    requires replaced == d.(dataset := replaced.dataset) && (d' == replaced || Grows(replaced, d'))
    ensures Step(d, d')
  {
  }

  /** Appended to a readable dataset, or to none, the canonical lines of some rows add those rows. */
  lemma GrownRows(c: Codec, before: Option<seq<string>>, accepted: seq<Row>)
    requires Lawful(c) && (before.Some? ==> Rows(c, before.value).Some?)
    ensures Rows(c, (if before.Some? then before.value else []) + CanonicalLines(c, accepted)) ==
            Some((if before.Some? then Rows(c, before.value).value else []) + accepted)
  {
    CanonicalLinesParse(c, accepted);
    RowsConcat(c, if before.Some? then before.value else [], CanonicalLines(c, accepted));
  }

  lemma SweptIsCollected(d: Disk, d': Disk)
    requires d' == d.(store := KeepReferenced(d.store, Referenced(d.manifests)))
    ensures Collected(d, d') && Step(d, d')
  {
  }

  lemma SweepStart(live: set<RowId>)
    ensures KeepReferenced([], live) == [] && StoredRows([]) == 0
  {
  }

  lemma SweepStep(lines: seq<StoreEntry>, k: nat, live: set<RowId>)
    requires k < |lines|
    ensures lines[..k + 1] == lines[..k] + [lines[k]]
    ensures KeepReferenced(lines[..k + 1], live) ==
            KeepReferenced(lines[..k], live) + if lines[k].Fragment? || lines[k].id in live then [lines[k]] else []
    ensures StoredRows(lines[..k + 1]) == StoredRows(lines[..k]) + if lines[k].Stored? then 1 else 0
  {
    assert lines[..k + 1][..k] == lines[..k];
  }

  /** The scan of the store: every line is kept but the rows nothing references. */
  method SweepStore(lines: seq<StoreEntry>, live: set<RowId>) returns (kept: seq<StoreEntry>, scanned: nat, pruned: nat)
    ensures kept == KeepReferenced(lines, live)
    ensures scanned == StoredRows(lines) && scanned - pruned == StoredRows(kept)
    ensures pruned == 0 ==> kept == lines
  {
    hide KeepReferenced, StoredRows;
    SweepStart(live);
    kept, scanned, pruned := [], 0, 0;
    for k := 0 to |lines|
      invariant kept == KeepReferenced(lines[..k], live)
      invariant scanned == StoredRows(lines[..k]) && scanned - pruned == StoredRows(kept)
      invariant pruned == 0 ==> kept == lines[..k]
    {
      SweepStep(lines, k, live);
      StoredRowsSnoc(kept, lines[k]);
      match lines[k] {
        case Fragment(_) => kept := kept + [lines[k]];
        case Stored(id, _) =>
          scanned := scanned + 1;
          if id in live {
            kept := kept + [lines[k]];
          } else {
            pruned := pruned + 1;
          }
      }
    }
    assert lines[..|lines|] == lines;
  }

  predicate IsRowId(id: RowId) {
    |id| == 64 && forall i :: 0 <= i < 64 ==> '0' <= id[i] <= '9' || 'a' <= id[i] <= 'f'
  }

  /** Every line is a row id, and there are as many as the version's record declares. */
  predicate Trusted(ids: seq<RowId>, record: Option<VersionRecord>) {
    && (forall id :: id in ids ==> IsRowId(id))
    && (record.Some? && record.value.rowsStored ==> record.value.storedRowCount == |ids|)
  }

  /** A manifest is refused for a line that is no SHA-256 in lower case, or for a length its record contradicts. */
  lemma TrustedIff(ids: seq<RowId>, record: Option<VersionRecord>)
    ensures Trusted(ids, record) <==>
            && (forall id :: id in ids ==> |id| == 64 && forall i :: 0 <= i < 64 ==> '0' <= id[i] <= '9' || 'a' <= id[i] <= 'f')
            && (record.None? || !record.value.rowsStored || record.value.storedRowCount == |ids|)
  {
    forall id
      ensures IsRowId(id) <==> |id| == 64 && forall i :: 0 <= i < 64 ==> '0' <= id[i] <= '9' || 'a' <= id[i] <= 'f'
    {
    }
  }

  function StoredRows(store: seq<StoreEntry>): nat {
    if store == [] then 0
    else StoredRows(store[..|store| - 1]) + if store[|store| - 1].Stored? then 1 else 0
  }

  lemma StoredRowsSnoc(store: seq<StoreEntry>, e: StoreEntry)
    ensures StoredRows(store + [e]) == StoredRows(store) + if e.Stored? then 1 else 0
  {
    assert (store + [e])[..|store|] == store;
  }

  lemma {:induction false} StoredRowsAre(store: seq<StoreEntry>)
    ensures StoredRows(store) == |set i | 0 <= i < |store| && store[i].Stored?|
  {
    var all := set i | 0 <= i < |store| && store[i].Stored?;
    if store == [] {
      assert all == {};
    } else {
      var last := |store| - 1;
      StoredRowsAre(store[..last]);
      var before := set i | 0 <= i < last && store[..last][i].Stored?;
      hide StoredRows;
      forall i
        ensures i in all <==> i in before || (i == last && store[last].Stored?)
      {
      }
      assert all == if store[last].Stored? then before + {last} else before;
    }
  }

  // ----- the transforms -----

  /** `examples-delete`: the lines whose 1-based numbers are not targeted. */
  function DeleteRows(targets: set<int>, existing: seq<string>): Result<seq<string>, string> {
    if exists t :: t in targets && !(1 <= t <= |existing|) then Err("row number(s) out of range")
    else Ok(WithoutRows(targets, existing, |existing|))
  }

  function WithoutRows(targets: set<int>, existing: seq<string>, n: nat): seq<string>
    requires n <= |existing|
  {
    if n == 0 then []
    else WithoutRows(targets, existing, n - 1) + if n in targets then [] else [existing[n - 1]]
  }

  /** `examples-edit`: one line replaced. */
  function EditRow(row: int, line: string, existing: seq<string>): Result<seq<string>, string>
    requires row >= 1
  {
    if row > |existing| then Err("row out of range") else Ok(existing[row - 1 := line])
  }

  /** Deletion removes exactly as many lines as it names, and keeps the others in order. */
  lemma {:induction false} WithoutRowsCount(targets: set<int>, existing: seq<string>, n: nat)
    requires n <= |existing|
    requires forall t :: t in targets ==> 1 <= t
    ensures |WithoutRows(targets, existing, n)| + |set t | t in targets && t <= n| == n
  {
    var upto := set t | t in targets && t <= n;
    if n == 0 {
      assert upto == {};
    } else {
      WithoutRowsCount(targets, existing, n - 1);
      var before := set t | t in targets && t <= n - 1;
      assert upto == if n in targets then before + {n} else before;
    }
  }

  /** The positions before the `n`-th whose row numbers are not named. */
  ghost predicate Unnamed(targets: set<int>, n: nat, at: seq<nat>) {
    forall i :: i in at <==> 0 <= i < n && i + 1 !in targets
  }

  lemma UnnamedNext(targets: set<int>, n: nat, at: seq<nat>)
    requires n > 0 && Unnamed(targets, n - 1, at)
    ensures Unnamed(targets, n, if n in targets then at else at + [n - 1])
    ensures forall k :: 0 <= k < |at| ==> at[k] < n - 1
  {
    OneMoreHolds(at, n - 1);
    forall k | 0 <= k < |at|
      ensures at[k] < n - 1
    {
      assert at[k] in at;
    }
  }

  lemma WithoutRowsNext(targets: set<int>, existing: seq<string>, n: nat, at: seq<nat>)
    requires 0 < n <= |existing| && Picks(existing, at, WithoutRows(targets, existing, n - 1))
    requires forall k :: 0 <= k < |at| ==> at[k] < n - 1
    ensures Picks(existing, if n in targets then at else at + [n - 1], WithoutRows(targets, existing, n))
  {
    PicksNext(existing, at, WithoutRows(targets, existing, n - 1), n - 1);
  }

  lemma WithoutRowsNone(targets: set<int>, existing: seq<string>)
    ensures Picks(existing, [], WithoutRows(targets, existing, 0)) && Unnamed(targets, 0, [])
  {
  }

  /** The surviving lines are those not named, in their order. */
  lemma {:induction false} WithoutRowsAt(targets: set<int>, existing: seq<string>, n: nat) returns (at: seq<nat>)
    requires n <= |existing|
    ensures Picks(existing, at, WithoutRows(targets, existing, n)) && Unnamed(targets, n, at)
  {
    hide Picks, Unnamed, WithoutRows;
    if n == 0 {
      at := [];
      WithoutRowsNone(targets, existing);
    } else {
      at := WithoutRowsAt(targets, existing, n - 1);
      UnnamedNext(targets, n, at);
      WithoutRowsNext(targets, existing, n, at);
      at := if n in targets then at else at + [n - 1];
    }
  }

  lemma DeleteRowsExact(targets: set<int>, existing: seq<string>) returns (at: seq<nat>)
    requires DeleteRows(targets, existing).Ok?
    ensures |DeleteRows(targets, existing).value| + |targets| == |existing|
    ensures Picks(existing, at, DeleteRows(targets, existing).value)
    ensures forall i :: i in at <==> 0 <= i < |existing| && i + 1 !in targets
  {
    WithoutRowsCount(targets, existing, |existing|);
    assert (set t | t in targets && t <= |existing|) == targets;
    at := WithoutRowsAt(targets, existing, |existing|);
  }

  /** Writing the replaced line back restores the dataset. */
  lemma EditRowUndone(row: int, line: string, existing: seq<string>)
    requires row >= 1 && EditRow(row, line, existing).Ok?
    ensures EditRow(row, existing[row - 1], EditRow(row, line, existing).value) == Ok(existing)
  {
    assert existing[row - 1 := line][row - 1 := existing[row - 1]] == existing;
  }

  const UNREADABLE_ROW := "a row cannot be read; refusing to clean"

  /** `examples-clean`: the kept rows re-serialised, refused when any line is not a row object. */
  function CleanLines<T>(parse: string -> Option<T>, dump: T -> string, sig: Cleaning.Signatures<T>,
                         o: Cleaning.Options, existing: seq<string>): Result<seq<string>, string>
  {
    var rows := ParseAll(parse, existing);
    if rows.None? then Err(UNREADABLE_ROW)
    else Ok(DumpAll(dump, Cleaning.Kept(sig, o, rows.value)))
  }

  function ParseAll<T>(parse: string -> Option<T>, lines: seq<string>): Option<seq<T>> {
    if lines == [] then Some([])
    else
      var first, rest := parse(lines[0]), ParseAll(parse, lines[1..]);
      if first.Some? && rest.Some? then Some([first.value] + rest.value) else None
  }

  function DumpAll<T>(dump: T -> string, rows: seq<T>): seq<string> {
    seq(|rows|, i requires 0 <= i < |rows| => dump(rows[i]))
  }

  lemma {:induction false} DumpParses<T>(parse: string -> Option<T>, dump: T -> string, rows: seq<T>)
    requires forall k :: 0 <= k < |rows| ==> parse(dump(rows[k])) == Some(rows[k])
    ensures ParseAll(parse, DumpAll(dump, rows)) == Some(rows)
  {
    if rows != [] {
      assert DumpAll(dump, rows)[1..] == DumpAll(dump, rows[1..]);
      DumpParses(parse, dump, rows[1..]);
      assert rows == [rows[0]] + rows[1..];
    }
  }

  /** Cleaning a cleaned dataset changes none of its lines. */
  lemma {:induction false} ParsedAre<T>(parse: string -> Option<T>, lines: seq<string>)
    ensures ParseAll(parse, lines).Some? <==> forall line :: line in lines ==> parse(line).Some?
    ensures ParseAll(parse, lines).Some? ==>
              && |ParseAll(parse, lines).value| == |lines|
              && forall k :: 0 <= k < |lines| ==> parse(lines[k]) == Some(ParseAll(parse, lines).value[k])
  {
    if lines != [] {
      ParsedAre(parse, lines[1..]);
      assert forall line :: line in lines <==> line == lines[0] || line in lines[1..];
      assert forall k :: 1 <= k < |lines| ==> lines[k] == lines[1..][k - 1];
    }
  }

  /** What is left are the re-serialised rows without a verdict, in order. */
  ghost predicate Cleaned<T>(parse: string -> Option<T>, dump: T -> string, sig: Cleaning.Signatures<T>,
                             o: Cleaning.Options, before: seq<string>, after: seq<string>)
  {
    && (forall line :: line in before ==> parse(line).Some?)
    && var rows := seq(|before|, i requires 0 <= i < |before| => parse(before[i]).value);
       exists at: seq<nat> ::
         && |at| == |after| && (forall i, j :: 0 <= i < j < |at| ==> at[i] < at[j])
         && (forall i :: i in at <==> 0 <= i < |before| && Cleaning.Verdict(sig, o, rows, i).None?)
         && forall k :: 0 <= k < |at| ==> at[k] < |rows| && after[k] == dump(rows[at[k]])
  }

  lemma CleanedLines<T>(parse: string -> Option<T>, dump: T -> string, sig: Cleaning.Signatures<T>,
                        o: Cleaning.Options, existing: seq<string>)
    requires CleanLines(parse, dump, sig, o, existing).Ok?
    ensures var after := CleanLines(parse, dump, sig, o, existing).value;
            Cleaned(parse, dump, sig, o, existing, after) &&
            |after| == |Cleaning.Kept(sig, o, ParseAll(parse, existing).value)|
  {
    hide ParseAll, Cleaning.Kept, Cleaning.Verdict;
    ParsedAre(parse, existing);
    var rows := ParseAll(parse, existing).value;
    var at := Cleaning.KeptAre(sig, o, rows);
    assert rows == seq(|existing|, i requires 0 <= i < |existing| => parse(existing[i]).value);
  }

  lemma CleanLinesIdempotent<T>(parse: string -> Option<T>, dump: T -> string, sig: Cleaning.Signatures<T>,
                                o: Cleaning.Options, existing: seq<string>)
    requires CleanLines(parse, dump, sig, o, existing).Ok?
    requires forall row: T {:trigger dump(row)} :: parse(dump(row)) == Some(row)
    ensures CleanLines(parse, dump, sig, o, CleanLines(parse, dump, sig, o, existing).value) ==
            CleanLines(parse, dump, sig, o, existing)
  {
    var rows := ParseAll(parse, existing).value;
    DumpParses(parse, dump, Cleaning.Kept(sig, o, rows));
    Cleaning.Idempotent(sig, o, rows);
  }
}
