/**
 Source views, change sets, their fingerprint, and the sealed record built from two snapshots.
 */
module ChangeSets {
  import opened Wrappers
  import opened Strings
  import opened JsonText
  import opened CanonicalJson

  type Bytes = seq<bv8>

  const REGULAR_MODES := {"100644", "100755"}
  const MODE_SYMLINK := "120000"
  const MODE_GITLINK := "160000"

  /** The content identity of one path within a view. */
  datatype FileState = FileState(
    kind: string, mode: string, contentDigest: Option<string>, commitOid: Option<string>)

  datatype ViewError = UnsupportedSpecialFile | Unreadable | BadTargetEncoding | UnknownMode | MissingBlob

  type PathState = Result<Option<FileState>, ViewError>

  /** A source view, as the states it answers with. */
  type View = string -> PathState

  function Regular(mode: string, digest: string): FileState {
    FileState("regular", mode, Some(digest), None)
  }

  function Symlink(mode: string, digest: string): FileState {
    FileState("symlink", mode, Some(digest), None)
  }

  // ----- a committed tree -----

  datatype TreeEntry = TreeEntry(entryType: string, mode: string, oid: string)

  datatype Tree = Tree(entries: map<string, TreeEntry>, blobs: map<string, Bytes>)

  function ContentDigest(hash: Bytes -> string, data: Bytes): string {
    DIGEST_PREFIX + hash(data)
  }

  /** `GitTreeSourceView.state`. */
  function TreeState(hash: Bytes -> string, tree: Tree, path: string): PathState {
    if path !in tree.entries then Ok(None)
    else
      var e := tree.entries[path];
      if e.entryType == "commit" || e.mode == MODE_GITLINK then
        Ok(Some(FileState("gitlink", e.mode, None, Some(e.oid))))
      else if e.mode == MODE_SYMLINK || e.mode in REGULAR_MODES then
        if e.oid !in tree.blobs then Err(MissingBlob)
        else if e.mode == MODE_SYMLINK then Ok(Some(Symlink(e.mode, ContentDigest(hash, tree.blobs[e.oid]))))
        else Ok(Some(Regular(e.mode, ContentDigest(hash, tree.blobs[e.oid]))))
      else Err(UnsupportedSpecialFile)
  }

  // ----- a working tree -----

  /** What `lstat` finds; `data` and `target` are None where reading them fails. */
  datatype Inode =
    | File(stMode: nat, data: Option<Bytes>)
    | Link(target: Option<Bytes>)
    | Directory
    | Special
    | Unstatable

  /** A checkout: its files, its index, and the git settings that say which of them is the authority. */
  datatype Checkout = Checkout(disk: map<string, Inode>, index: map<string, string>, settings: map<string, bool>)

  /** `config_bool` with git's own default for an absent key. */
  function Setting(c: Checkout, name: string): bool {
    name in c.settings ==> c.settings[name]
  }

  predicate OwnerExecutable(stMode: nat) {
    stMode / 0x40 % 2 == 1
  }

  /** The mode git itself gives a regular worktree file. */
  function GitMode(trustFilemode: bool, staged: Option<string>, stMode: nat): Result<string, ViewError> {
    if trustFilemode then Ok(if OwnerExecutable(stMode) then "100755" else "100644")
    else if staged.None? then Ok("100644")
    else if staged.value in REGULAR_MODES then Ok(staged.value)
    else if staged.value == MODE_SYMLINK || staged.value == MODE_GITLINK then Ok("100644")
    else Err(UnknownMode)
  }

  function RegularFileState(hash: Bytes -> string, trustFilemode: bool, hasSymlinks: bool,
                            index: map<string, string>, path: string, stMode: nat, data: Bytes): PathState
  {
    var staged :=
      if (trustFilemode && hasSymlinks) || path !in index then None else Some(index[path]);
    if staged == Some(MODE_SYMLINK) && !hasSymlinks then
      Ok(Some(Symlink(MODE_SYMLINK, ContentDigest(hash, data))))
    else
      var mode := GitMode(trustFilemode, staged, stMode);
      if mode.Err? then Err(mode.error) else Ok(Some(Regular(mode.value, ContentDigest(hash, data))))
  }

  /** What the working tree holds at a path, `utf8` telling which link targets decode. */
  function WorkspaceState(hash: Bytes -> string, utf8: Bytes -> bool, c: Checkout, path: string): PathState {
    if path !in c.disk then Ok(None)
    else
      match c.disk[path]
      case Unstatable => Err(Unreadable)
      case Link(target) =>
        if target.None? then Err(Unreadable)
        else if !utf8(target.value) then Err(BadTargetEncoding)
        else Ok(Some(Symlink(MODE_SYMLINK, ContentDigest(hash, target.value))))
      case File(stMode, data) =>
        if data.None? then Err(Unreadable)
        else
          RegularFileState(hash, Setting(c, "core.filemode"), Setting(c, "core.symlinks"), c.index, path, stMode, data.value)
      case Directory => Err(UnsupportedSpecialFile)
      case Special => Err(UnsupportedSpecialFile)
  }

  // ----- the two views, case by case -----

  /** What a committed tree holds at a path, by the entry's type and mode. */
  lemma TreeIs(hash: Bytes -> string, tree: Tree, path: string)
    ensures path !in tree.entries ==> TreeState(hash, tree, path) == Ok(None)
    ensures path in tree.entries ==>
              var e := tree.entries[path];
              var commit := e.entryType == "commit" || e.mode == "160000";
              var file := !commit && e.mode in {"100644", "100755"};
              var link := !commit && e.mode == "120000";
              && (commit ==> TreeState(hash, tree, path) == Ok(Some(FileState("gitlink", e.mode, None, Some(e.oid)))))
              && (file && e.oid in tree.blobs ==>
                    TreeState(hash, tree, path) == Ok(Some(FileState("regular", e.mode, Some("sha256:" + hash(tree.blobs[e.oid])), None))))
              && (link && e.oid in tree.blobs ==>
                    TreeState(hash, tree, path) == Ok(Some(FileState("symlink", "120000", Some("sha256:" + hash(tree.blobs[e.oid])), None))))
              && ((file || link) && e.oid !in tree.blobs ==> TreeState(hash, tree, path) == Err(MissingBlob))
              && (!commit && !file && !link ==> TreeState(hash, tree, path) == Err(UnsupportedSpecialFile))
  {
  }

  /** The owner-executable bit of a mode, octal 100. */
  lemma OwnerExecutableIff(high: nat, low: nat)
    requires low < 0x40
    ensures OwnerExecutable(0x80 * high + 0x40 + low) && !OwnerExecutable(0x80 * high + low)
  {
    assert (0x80 * high + 0x40 + low) / 0x40 == 2 * high + 1;
    assert (0x80 * high + low) / 0x40 == 2 * high;
  }

  /** What the working tree holds at a path; a setting that is not there counts as on. */
  lemma WorkspaceIs(hash: Bytes -> string, utf8: Bytes -> bool, c: Checkout, path: string)
    ensures path !in c.disk ==> WorkspaceState(hash, utf8, c, path) == Ok(None)
    ensures path in c.disk && c.disk[path] in {Directory, Special} ==>
              WorkspaceState(hash, utf8, c, path) == Err(UnsupportedSpecialFile)
    ensures path in c.disk && c.disk[path] in {Unstatable, Link(None)} ==> WorkspaceState(hash, utf8, c, path) == Err(Unreadable)
    ensures path in c.disk && c.disk[path].File? && c.disk[path].data.None? ==>
              WorkspaceState(hash, utf8, c, path) == Err(Unreadable)
    ensures path in c.disk && c.disk[path].Link? && c.disk[path].target.Some? ==>
              var target := c.disk[path].target.value;
              WorkspaceState(hash, utf8, c, path) ==
              if utf8(target) then Ok(Some(FileState("symlink", "120000", Some("sha256:" + hash(target)), None))) else Err(BadTargetEncoding)
    ensures path in c.disk && c.disk[path].File? && c.disk[path].data.Some? ==>
              var digest := Some("sha256:" + hash(c.disk[path].data.value));
              var filemode := "core.filemode" !in c.settings || c.settings["core.filemode"];
              var symlinks := "core.symlinks" !in c.settings || c.settings["core.symlinks"];
              var staged := if path in c.index then c.index[path] else "";
              var state := WorkspaceState(hash, utf8, c, path);
              if !symlinks && staged == "120000" then state == Ok(Some(FileState("symlink", "120000", digest, None)))
              else if filemode then
                state == Ok(Some(FileState("regular", if OwnerExecutable(c.disk[path].stMode) then "100755" else "100644", digest, None)))
              else if staged in {"100644", "100755"} then state == Ok(Some(FileState("regular", staged, digest, None)))
              else if path !in c.index || staged in {"120000", "160000"} then state == Ok(Some(FileState("regular", "100644", digest, None)))
              else state == Err(UnknownMode)
  {
  }

  /** The workspace view: each git setting is read once and kept for the life of the view. */
  class WorkspaceSourceView {
    const checkout: Checkout
    const hash: Bytes -> string
    const utf8: Bytes -> bool
    var config: map<string, bool>

    ghost predicate Valid()
      reads this
    {
      forall name :: name in config ==> config[name] == Setting(checkout, name)
    }

    constructor (checkout: Checkout, hash: Bytes -> string, utf8: Bytes -> bool)
      ensures Valid() && this.checkout == checkout && this.hash == hash && this.utf8 == utf8 && config == map[]
    {
      this.checkout, this.hash, this.utf8, config := checkout, hash, utf8, map[];
    }

    method ConfigBool(name: string) returns (value: bool)
      requires Valid()
      modifies this
      ensures Valid() && value == Setting(checkout, name)
      ensures name in old(config) ==> config == old(config)
      ensures name !in old(config) ==> config == old(config)[name := value]
    {
      if name !in config {
        config := config[name := Setting(checkout, name)];
      }
      value := config[name];
    }

    method State(path: string) returns (state: PathState)
      requires Valid()
      modifies this
      ensures Valid() && state == WorkspaceState(hash, utf8, checkout, path)
      ensures config.Keys <= old(config.Keys) + {"core.filemode", "core.symlinks"}
    {
      if path !in checkout.disk {
        return Ok(None);
      }
      match checkout.disk[path] {
        case Unstatable => state := Err(Unreadable);
        case Link(target) =>
          state :=
            if target.None? then Err(Unreadable)
            else if !utf8(target.value) then Err(BadTargetEncoding)
            else Ok(Some(Symlink(MODE_SYMLINK, ContentDigest(hash, target.value))));
        case File(stMode, data) =>
          if data.None? {
            return Err(Unreadable);
          }
          var trustFilemode := ConfigBool("core.filemode");
          var hasSymlinks := ConfigBool("core.symlinks");
          state := RegularFileState(hash, trustFilemode, hasSymlinks, checkout.index, path, stMode, data.value);
        case Directory => state := Err(UnsupportedSpecialFile);
        case Special => state := Err(UnsupportedSpecialFile);
      }
    }
  }

  // ----- collecting a change set -----

  datatype Change = Change(path: string, base: Option<FileState>, candidate: Option<FileState>)

  /** The differing listed paths, in order, or the first view error. */
  function ChangesIn(base: View, candidate: View, paths: seq<string>): Result<seq<Change>, ViewError> {
    if paths == [] then Ok([])
    else
      var last := paths[|paths| - 1];
      var earlier := ChangesIn(base, candidate, paths[..|paths| - 1]);
      if earlier.Err? then earlier
      else if base(last).Err? then Err(base(last).error)
      else if candidate(last).Err? then Err(candidate(last).error)
      else if base(last) == candidate(last) then earlier
      else Ok(earlier.value + [Change(last, base(last).value, candidate(last).value)])
  }

  lemma {:induction false} ErrorStays(base: View, candidate: View, paths: seq<string>, k: nat)
    requires k <= |paths| && ChangesIn(base, candidate, paths[..k]).Err?
    ensures ChangesIn(base, candidate, paths) == ChangesIn(base, candidate, paths[..k])
    decreases |paths|
  {
    if k == |paths| {
      assert paths[..k] == paths;
    } else {
      assert paths[..|paths| - 1][..k] == paths[..k];
      ErrorStays(base, candidate, paths[..|paths| - 1], k);
    }
  }

  /** `_collect_change_set`, for one snapshot. */
  method CollectChangeSet(hash: string -> string, scope: string, baseOid: string,
                          base: View, candidate: View, candidatePaths: set<string>)
    returns (r: Result<(string, seq<Change>), ViewError>)
    ensures r.Ok? <==> ChangesIn(base, candidate, Sorted(candidatePaths)).Ok?
    ensures r.Ok? ==>
              && Ok(r.value.1) == ChangesIn(base, candidate, Sorted(candidatePaths))
              && r.value.0 == Fingerprint(hash, scope, baseOid, r.value.1)
    ensures r.Err? ==> Err(r.error) == ChangesIn(base, candidate, Sorted(candidatePaths))
  {
    var paths := Sorted(candidatePaths);
    var records: seq<Change> := [];
    for k := 0 to |paths|
      invariant ChangesIn(base, candidate, paths[..k]) == Ok(records)
    {
      assert paths[..k + 1][..k] == paths[..k];
      var baseState := base(paths[k]);
      var candidateState := candidate(paths[k]);
      if baseState.Err? {
        ErrorStays(base, candidate, paths, k + 1);
        return Err(baseState.error);
      }
      if candidateState.Err? {
        ErrorStays(base, candidate, paths, k + 1);
        return Err(candidateState.error);
      }
      if baseState.value != candidateState.value {
        records := records + [Change(paths[k], baseState.value, candidateState.value)];
      }
    }
    assert paths[..|paths|] == paths;
    r := Ok((Fingerprint(hash, scope, baseOid, records), records));
  }

  /** Each change states both sides of a listed path, and every listed path that differs has one. */
  lemma {:induction false} ChangesExact(base: View, candidate: View, paths: seq<string>)
    requires ChangesIn(base, candidate, paths).Ok?
    ensures forall c :: c in ChangesIn(base, candidate, paths).value ==>
              && c.path in paths && base(c.path) == Ok(c.base) && candidate(c.path) == Ok(c.candidate)
              && c.base != c.candidate
    ensures forall p :: p in paths ==>
              && base(p).Ok? && candidate(p).Ok?
              && (base(p) != candidate(p) ==>
                    Change(p, base(p).value, candidate(p).value) in ChangesIn(base, candidate, paths).value)
  {
    if paths != [] {
      ChangesExact(base, candidate, paths[..|paths| - 1]);
      assert paths == paths[..|paths| - 1] + [paths[|paths| - 1]];
    }
  }

  function Paths(changes: seq<Change>): seq<string> {
    seq(|changes|, i requires 0 <= i < |changes| => changes[i].path)
  }

  /** The changed paths, in ascending order, are exactly the listed ones that differ. */
  ghost predicate ExactlyChanged(base: View, candidate: View, paths: set<string>, changed: seq<string>) {
    Ascending(changed) && forall p :: p in changed <==> p in paths && base(p) != candidate(p)
  }

  lemma {:induction false} ChangesAscend(base: View, candidate: View, paths: seq<string>)
    requires Ascending(paths) && ChangesIn(base, candidate, paths).Ok?
    ensures Ascending(Paths(ChangesIn(base, candidate, paths).value))
  {
    hide Less;
    if paths != [] {
      var last := paths[|paths| - 1];
      ChangesAscend(base, candidate, paths[..|paths| - 1]);
      ChangesExact(base, candidate, paths[..|paths| - 1]);
      var earlier := ChangesIn(base, candidate, paths[..|paths| - 1]).value;
      forall c | c in earlier
        ensures Less(c.path, last)
      {
        var i :| 0 <= i < |paths| - 1 && paths[i] == c.path;
      }
      var all := ChangesIn(base, candidate, paths).value;
      forall i, j | 0 <= i < j < |all|
        ensures Less(Paths(all)[i], Paths(all)[j])
      {
        assert all[i] == earlier[i] && all[i] in earlier;
        if j < |earlier| {
          assert Paths(all)[i] == Paths(earlier)[i] && Paths(all)[j] == Paths(earlier)[j];
        }
      }
    }
  }

  lemma ChangedExactly(base: View, candidate: View, paths: set<string>)
    requires ChangesIn(base, candidate, Sorted(paths)).Ok?
    ensures ExactlyChanged(base, candidate, paths, Paths(ChangesIn(base, candidate, Sorted(paths)).value))
  {
    hide Less, ChangesIn;
    var changes := ChangesIn(base, candidate, Sorted(paths)).value;
    SortedFacts(paths);
    ChangesAscend(base, candidate, Sorted(paths));
    ChangesExact(base, candidate, Sorted(paths));
    assert forall p :: p in Sorted(paths) <==> p in Elements(Sorted(paths));
    forall i | 0 <= i < |changes|
      ensures Paths(changes)[i] in paths && base(Paths(changes)[i]) != candidate(Paths(changes)[i])
    {
      assert changes[i] in changes;
    }
    forall p | p in paths && base(p) != candidate(p)
      ensures p in Paths(changes)
    {
      var i :| 0 <= i < |changes| && changes[i] == Change(p, base(p).value, candidate(p).value);
      assert Paths(changes)[i] == p;
    }
  }

  /** The state of a path after the recorded changes are laid over a view. */
  function Overlay(base: View, changes: seq<Change>, path: string): PathState {
    if changes == [] then base(path)
    else if changes[0].path == path then Ok(changes[0].candidate)
    else Overlay(base, changes[1..], path)
  }

  lemma {:induction false} OverlayIs(base: View, changes: seq<Change>, path: string)
    ensures (forall c :: c in changes ==> c.path != path) ==> Overlay(base, changes, path) == base(path)
    ensures (exists c :: c in changes && c.path == path) ==>
              exists c :: c in changes && c.path == path && Overlay(base, changes, path) == Ok(c.candidate)
  {
    if changes != [] {
      OverlayIs(base, changes[1..], path);
      assert forall c :: c in changes <==> c == changes[0] || c in changes[1..];
    }
  }

  ghost predicate ListsAllDifferences(base: View, candidate: View, paths: set<string>) {
    forall p :: base(p) != candidate(p) ==> p in paths
  }

  /** A change set over a complete listing is an exact patch from the base view to the candidate view. */
  lemma ExactPatch(base: View, candidate: View, paths: set<string>)
    requires ListsAllDifferences(base, candidate, paths)
    requires ChangesIn(base, candidate, Sorted(paths)).Ok?
    ensures forall p :: Overlay(base, ChangesIn(base, candidate, Sorted(paths)).value, p) == candidate(p)
  {
    var changes := ChangesIn(base, candidate, Sorted(paths)).value;
    ChangesExact(base, candidate, Sorted(paths));
    SortedFacts(paths);
    forall p
      ensures Overlay(base, changes, p) == candidate(p)
    {
      OverlayIs(base, changes, p);
      assert p in paths ==> p in Elements(Sorted(paths));
    }
  }

  // ----- clean checkouts -----

  predicate FilesAndLinks(tree: Tree) {
    forall p :: p in tree.entries ==>
      && tree.entries[p].entryType != "commit" && tree.entries[p].oid in tree.blobs
      && (tree.entries[p].mode == MODE_SYMLINK || tree.entries[p].mode in REGULAR_MODES)
  }

  function Blob(tree: Tree, path: string): Bytes
    requires FilesAndLinks(tree) && path in tree.entries
  {
    tree.blobs[tree.entries[path].oid]
  }

  /** The working tree git leaves after checking the tree out under the checkout's own settings. */
  predicate CleanCheckout(tree: Tree, c: Checkout)
    requires FilesAndLinks(tree)
  {
    && c.disk.Keys == c.index.Keys == tree.entries.Keys
    && forall p :: p in tree.entries ==>
         && c.index[p] == tree.entries[p].mode
         && if tree.entries[p].mode == MODE_SYMLINK && Setting(c, "core.symlinks")
            then c.disk[p] == Link(Some(Blob(tree, p)))
            else
              && c.disk[p].File? && c.disk[p].data == Some(Blob(tree, p))
              && (tree.entries[p].mode != MODE_SYMLINK && Setting(c, "core.filemode") ==>
                    (OwnerExecutable(c.disk[p].stMode) <==> tree.entries[p].mode == "100755"))
  }

  /** A link the working tree really holds needs a target the view can encode. */
  predicate TargetsDecode(utf8: Bytes -> bool, tree: Tree, c: Checkout, paths: set<string>)
    requires FilesAndLinks(tree)
  {
    Setting(c, "core.symlinks") ==>
      forall p :: p in paths && p in tree.entries && tree.entries[p].mode == MODE_SYMLINK ==> utf8(Blob(tree, p))
  }

  /** A regular file's mode and bytes are read back whichever authority git trusts. */
  lemma CleanFile(hash: Bytes -> string, utf8: Bytes -> bool, tree: Tree, c: Checkout, path: string)
    requires FilesAndLinks(tree) && CleanCheckout(tree, c)
    requires path in tree.entries && tree.entries[path].mode in REGULAR_MODES
    ensures TreeState(hash, tree, path).Ok? && WorkspaceState(hash, utf8, c, path) == TreeState(hash, tree, path)
  {
    hide ContentDigest, Setting, OwnerExecutable;
    assert c.index[path] == tree.entries[path].mode;
  }

  /** So is a link, unless the checkout holds a real one whose target does not decode. */
  lemma CleanLink(hash: Bytes -> string, utf8: Bytes -> bool, tree: Tree, c: Checkout, path: string)
    requires FilesAndLinks(tree) && CleanCheckout(tree, c)
    requires path in tree.entries && tree.entries[path].mode == MODE_SYMLINK
    ensures TreeState(hash, tree, path).Ok?
    ensures WorkspaceState(hash, utf8, c, path) ==
            if Setting(c, "core.symlinks") && !utf8(Blob(tree, path)) then Err(BadTargetEncoding)
            else TreeState(hash, tree, path)
  {
    hide ContentDigest, Setting, OwnerExecutable;
    assert c.index[path] == tree.entries[path].mode;
  }

  lemma CleanState(hash: Bytes -> string, utf8: Bytes -> bool, tree: Tree, c: Checkout, path: string)
    requires FilesAndLinks(tree) && CleanCheckout(tree, c)
    ensures TreeState(hash, tree, path).Ok?
    ensures WorkspaceState(hash, utf8, c, path) ==
            if TargetsDecode(utf8, tree, c, {path}) then TreeState(hash, tree, path) else Err(BadTargetEncoding)
  {
    hide ContentDigest, Setting, OwnerExecutable, RegularFileState;
    if path in tree.entries {
      if tree.entries[path].mode == MODE_SYMLINK {
        CleanLink(hash, utf8, tree, c, path);
      } else {
        CleanFile(hash, utf8, tree, c, path);
      }
    }
  }

  /**
   Under every setting of `core.filemode` and `core.symlinks`, a clean checkout has an empty change
   set over any listed paths, just when each real link listed has a decodable target; otherwise
   collection refuses.
   */
  lemma {:induction false} CleanCheckoutIff(hash: Bytes -> string, utf8: Bytes -> bool, tree: Tree, c: Checkout,
                                            paths: seq<string>)
    requires FilesAndLinks(tree) && CleanCheckout(tree, c)
    ensures ChangesIn(p => TreeState(hash, tree, p), p => WorkspaceState(hash, utf8, c, p), paths) ==
            if TargetsDecode(utf8, tree, c, Elements(paths)) then Ok([]) else Err(BadTargetEncoding)
  {
    if paths != [] {
      var last := paths[|paths| - 1];
      CleanCheckoutIff(hash, utf8, tree, c, paths[..|paths| - 1]);
      CleanState(hash, utf8, tree, c, last);
      assert paths == paths[..|paths| - 1] + [last];
      assert forall p :: p in Elements(paths) <==> p in Elements(paths[..|paths| - 1]) || p == last;
    }
  }

  // ----- fingerprints -----

  function ToRecord(s: FileState): Json {
    var required := map["kind" := JString(s.kind), "mode" := JString(s.mode)];
    var digested := if s.contentDigest.Some? then required["content_digest" := JString(s.contentDigest.value)] else required;
    JObject(if s.commitOid.Some? then digested["commit_oid" := JString(s.commitOid.value)] else digested)
  }

  function SideRecord(s: Option<FileState>): Json {
    if s.Some? then ToRecord(s.value) else JNull
  }

  function ChangedPathRecord(c: Change): Json {
    JObject(map["path" := JString(c.path), "base" := SideRecord(c.base), "candidate" := SideRecord(c.candidate)])
  }

  function ChangeRecords(changes: seq<Change>): seq<Json> {
    seq(|changes|, i requires 0 <= i < |changes| => ChangedPathRecord(changes[i]))
  }

  function FingerprintInput(scope: string, baseOid: string, changes: seq<Change>): Json {
    JObject(map["scope" := JString(scope), "base_oid" := JString(baseOid), "paths" := JArray(ChangeRecords(changes))])
  }

  function Fingerprint(hash: string -> string, scope: string, baseOid: string, changes: seq<Change>): string {
    DigestOf(hash, FingerprintInput(scope, baseOid, changes))
  }

  function Field(v: Json, key: string): Option<Json> {
    if v.JObject? && key in v.fields then Some(v.fields[key]) else None
  }

  /** One side of a changed path, read field by field: null where there is no file, else its four properties. */
  predicate SideReads(side: Option<Json>, state: Option<FileState>) {
    && side.Some?
    && (state.None? ==> side.value == JNull)
    && (state.Some? ==>
          && side.value.JObject? && side.value.fields.Keys <= {"kind", "mode", "content_digest", "commit_oid"}
          && Field(side.value, "kind") == Some(JString(state.value.kind))
          && Field(side.value, "mode") == Some(JString(state.value.mode))
          && Field(side.value, "content_digest") ==
             (if state.value.contentDigest.Some? then Some(JString(state.value.contentDigest.value)) else None)
          && Field(side.value, "commit_oid") ==
             (if state.value.commitOid.Some? then Some(JString(state.value.commitOid.value)) else None))
  }

  /** A changed path's record names the path, and says under "base" and "candidate" what each side holds. */
  lemma ChangeReads(c: Change)
    ensures var record := ChangedPathRecord(c);
            && record.JObject? && record.fields.Keys == {"path", "base", "candidate"}
            && Field(record, "path") == Some(JString(c.path))
            && SideReads(Field(record, "base"), c.base) && SideReads(Field(record, "candidate"), c.candidate)
  {
    SideIs(c.base);
    SideIs(c.candidate);
    hide SideReads, SideRecord;
  }

  lemma SideIs(state: Option<FileState>)
    ensures SideReads(Some(SideRecord(state)), state)
  {
    if state.Some? {
      var s := state.value;
      assert Field(ToRecord(s), "kind") == Some(JString(s.kind)) && Field(ToRecord(s), "mode") == Some(JString(s.mode));
    }
  }

  /** What is digested for a fingerprint: the scope, the base commit and the changed paths in order. */
  lemma FingerprintReads(hash: string -> string, scope: string, baseOid: string, changes: seq<Change>)
    ensures var input := FingerprintInput(scope, baseOid, changes);
            && Fingerprint(hash, scope, baseOid, changes) == "sha256:" + hash(Print(input))
            && input.JObject? && input.fields.Keys == {"scope", "base_oid", "paths"}
            && Field(input, "scope") == Some(JString(scope)) && Field(input, "base_oid") == Some(JString(baseOid))
            && Field(input, "paths").Some? && Field(input, "paths").value.JArray?
            && |Field(input, "paths").value.items| == |changes|
            && forall i :: 0 <= i < |changes| ==>
                 Field(Field(input, "paths").value.items[i], "path") == Some(JString(changes[i].path))
  {
    hide SideRecord, Print;
    var input := FingerprintInput(scope, baseOid, changes);
    assert Field(input, "paths") == Some(JArray(ChangeRecords(changes)));
    forall i | 0 <= i < |changes|
      ensures Field(ChangeRecords(changes)[i], "path") == Some(JString(changes[i].path))
    {
      ChangeReads(changes[i]);
    }
  }

  lemma StateRecordInjective(s: FileState, t: FileState)
    requires ToRecord(s) == ToRecord(t)
    ensures s == t
  {
    SideIs(Some(s));
    SideIs(Some(t));
    hide ToRecord, Field;
  }

  lemma ChangeRecordInjective(c: Change, d: Change)
    requires ChangedPathRecord(c) == ChangedPathRecord(d)
    ensures c == d
  {
    ChangeReads(c);
    ChangeReads(d);
    hide ChangedPathRecord, Field;
  }

  lemma ChangesInjective(changes: seq<Change>, changes': seq<Change>)
    requires ChangeRecords(changes) == ChangeRecords(changes')
    ensures changes == changes'
  {
    assert |ChangeRecords(changes)| == |ChangeRecords(changes')|;
    forall i | 0 <= i < |changes|
      ensures changes[i] == changes'[i]
    {
      assert ChangeRecords(changes)[i] == ChangeRecords(changes')[i];
      ChangeRecordInjective(changes[i], changes'[i]);
    }
  }

  /** Equal fingerprints mean the same scope, base commit and per-path states. */
  lemma FingerprintInjective(hash: string -> string, scope: string, baseOid: string, changes: seq<Change>,
                             scope': string, baseOid': string, changes': seq<Change>)
    requires CollisionFree(hash)
    requires Fingerprint(hash, scope, baseOid, changes) == Fingerprint(hash, scope', baseOid', changes')
    ensures scope == scope' && baseOid == baseOid' && changes == changes'
  {
    var x, y := FingerprintInput(scope, baseOid, changes), FingerprintInput(scope', baseOid', changes');
    DigestInjective(hash, x, y);
    assert Field(x, "scope") == Some(JString(scope)) && Field(y, "scope") == Some(JString(scope'));
    assert Field(x, "base_oid") == Some(JString(baseOid)) && Field(y, "base_oid") == Some(JString(baseOid'));
    assert Field(x, "paths") == Some(JArray(ChangeRecords(changes))) && Field(y, "paths") == Some(JArray(ChangeRecords(changes')));
    ChangesInjective(changes, changes');
  }

  // ----- sealed records -----

  function Envelope(recordType: string, schemaVersion: int, payload: Json, provenance: Json): map<string, Json> {
    map["record_type" := JString(recordType), "schema_version" := JInt(schemaVersion),
        "payload" := payload, "provenance" := provenance]
  }

  function SealRecord(hash: string -> string, recordType: string, schemaVersion: int, payload: Json, provenance: Json)
    : map<string, Json>
  {
    var envelope := Envelope(recordType, schemaVersion, payload, provenance);
    envelope["record_digest" := JString(DigestOf(hash, JObject(envelope)))]
  }

  predicate VerifyRecord(hash: string -> string, record: map<string, Json>) {
    "record_digest" in record &&
    JString(DigestOf(hash, JObject(record - {"record_digest"}))) == record["record_digest"]
  }

  lemma SealedVerifies(hash: string -> string, recordType: string, schemaVersion: int, payload: Json, provenance: Json)
    ensures VerifyRecord(hash, SealRecord(hash, recordType, schemaVersion, payload, provenance))
  {
    var envelope := Envelope(recordType, schemaVersion, payload, provenance);
    var record := SealRecord(hash, recordType, schemaVersion, payload, provenance);
    assert record - {"record_digest"} == envelope;
  }

  /** A verifying record is determined by its digest: no other content verifies under it. */
  lemma DigestBindsRecord(hash: string -> string, r: map<string, Json>, s: map<string, Json>)
    requires CollisionFree(hash) && VerifyRecord(hash, r) && VerifyRecord(hash, s)
    requires r["record_digest"] == s["record_digest"]
    ensures r == s
  {
    DigestInjective(hash, JObject(r - {"record_digest"}), JObject(s - {"record_digest"}));
    assert r == (r - {"record_digest"})["record_digest" := r["record_digest"]];
    assert s == (s - {"record_digest"})["record_digest" := s["record_digest"]];
  }

  // ----- the two-pass builder -----

  /** What one pass can see: the two views and the paths that may differ. */
  datatype Snapshot = Snapshot(base: View, candidate: View, paths: set<string>)

  datatype BuildError = ScopeNotImplemented | ViewFailed(why: ViewError) | ChangeSetUnstable

  const SUPPORTED_SCOPES := {"workspace", "head", "merge_candidate"}

  /** The payload; a scope whose candidate is a committed tree pins that tree as well. */
  function ChangeSetPayload(hash: string -> string, scope: string, baseOid: string, candidateOid: Option<string>,
                            labels: (string, string), changes: seq<Change>): Json
  {
    var fields := map[
      "scope" := JString(scope), "base_view" := JString(labels.0), "base_oid" := JString(baseOid),
      "candidate_view" := JString(labels.1), "changed_path_count" := JInt(|changes|),
      "changed_paths" := JArray(ChangeRecords(changes)),
      "fingerprint" := JString(Fingerprint(hash, scope, baseOid, changes))];
    JObject(if candidateOid.Some? then fields["candidate_oid" := JString(candidateOid.value)] else fields)
  }

  /** A payload determines what it pins: scope, base, candidate tree, both labels and every change. */
  lemma PayloadInjective(hash: string -> string, scope: string, baseOid: string, candidateOid: Option<string>,
                         labels: (string, string), changes: seq<Change>, scope': string, baseOid': string,
                         candidateOid': Option<string>, labels': (string, string), changes': seq<Change>)
    requires ChangeSetPayload(hash, scope, baseOid, candidateOid, labels, changes) ==
             ChangeSetPayload(hash, scope', baseOid', candidateOid', labels', changes')
    ensures scope == scope' && baseOid == baseOid' && candidateOid == candidateOid' && labels == labels'
    ensures changes == changes'
  {
    hide ChangeRecords, Fingerprint;
    var x := ChangeSetPayload(hash, scope, baseOid, candidateOid, labels, changes);
    var y := ChangeSetPayload(hash, scope', baseOid', candidateOid', labels', changes');
    assert Field(x, "scope") == Some(JString(scope)) && Field(y, "scope") == Some(JString(scope'));
    assert Field(x, "base_oid") == Some(JString(baseOid)) && Field(y, "base_oid") == Some(JString(baseOid'));
    assert Field(x, "base_view") == Some(JString(labels.0)) && Field(y, "base_view") == Some(JString(labels'.0));
    assert Field(x, "candidate_view") == Some(JString(labels.1)) && Field(y, "candidate_view") == Some(JString(labels'.1));
    assert Field(x, "candidate_oid") == if candidateOid.Some? then Some(JString(candidateOid.value)) else None;
    assert Field(y, "candidate_oid") == if candidateOid'.Some? then Some(JString(candidateOid'.value)) else None;
    assert Field(x, "changed_paths") == Some(JArray(ChangeRecords(changes)));
    assert Field(y, "changed_paths") == Some(JArray(ChangeRecords(changes')));
    ChangesInjective(changes, changes');
  }

  /** The payload, read field by field. */
  ghost predicate PayloadReads(payload: Json, scope: string, baseOid: string, candidateOid: Option<string>,
                               labels: (string, string), fingerprint: string, changes: seq<Change>)
  {
    && payload.JObject?
    && payload.fields.Keys == {"scope", "base_view", "base_oid", "candidate_view", "changed_path_count", "changed_paths",
                               "fingerprint"} + (if candidateOid.Some? then {"candidate_oid"} else {})
    && Field(payload, "scope") == Some(JString(scope)) && Field(payload, "base_oid") == Some(JString(baseOid))
    && Field(payload, "base_view") == Some(JString(labels.0)) && Field(payload, "candidate_view") == Some(JString(labels.1))
    && Field(payload, "candidate_oid") == (if candidateOid.Some? then Some(JString(candidateOid.value)) else None)
    && Field(payload, "fingerprint") == Some(JString(fingerprint))
    && Field(payload, "changed_path_count") == Some(JInt(|changes|))
    && Field(payload, "changed_paths") == Some(JArray(ChangeRecords(changes)))
  }

  lemma PayloadIs(hash: string -> string, scope: string, baseOid: string, candidateOid: Option<string>,
                  labels: (string, string), changes: seq<Change>)
    ensures PayloadReads(ChangeSetPayload(hash, scope, baseOid, candidateOid, labels, changes), scope, baseOid, candidateOid,
                         labels, Fingerprint(hash, scope, baseOid, changes), changes)
  {
    hide ChangeRecords, Fingerprint;
  }

  /** A changed path's record states, under each name, what that side of the pass holds at the path. */
  ghost predicate PathReads(record: Json, p: string, pass: Snapshot) {
    && Field(record, "path") == Some(JString(p))
    && pass.base(p).Ok? && SideReads(Field(record, "base"), pass.base(p).value)
    && pass.candidate(p).Ok? && SideReads(Field(record, "candidate"), pass.candidate(p).value)
  }

  /**
   The emitted record, read as a reader would: the envelope's fields, and for each path that differs,
   in order, what the base view and the candidate view of the pass hold there.
   */
  ghost predicate RecordReads(hash: string -> string, record: map<string, Json>, scope: string, baseOid: string,
                              candidateOid: Option<string>, labels: (string, string), provenance: Json, pass: Snapshot,
                              changes: seq<Change>)
  {
    && record.Keys == {"record_type", "schema_version", "payload", "provenance", "record_digest"}
    && record["record_type"] == JString("change_set") && record["schema_version"] == JInt(1)
    && record["provenance"] == provenance
    && record["record_digest"] == JString("sha256:" + hash(Print(JObject(record - {"record_digest"}))))
    && PayloadReads(record["payload"], scope, baseOid, candidateOid, labels, Fingerprint(hash, scope, baseOid, changes), changes)
    && ExactlyChanged(pass.base, pass.candidate, pass.paths, Paths(changes))
    && forall i :: 0 <= i < |changes| ==> PathReads(ChangeRecords(changes)[i], changes[i].path, pass)
  }

  lemma SealIs(hash: string -> string, recordType: string, schemaVersion: int, payload: Json, provenance: Json)
    ensures var record := SealRecord(hash, recordType, schemaVersion, payload, provenance);
            && record.Keys == {"record_type", "schema_version", "payload", "provenance", "record_digest"}
            && record["record_type"] == JString(recordType) && record["schema_version"] == JInt(schemaVersion)
            && record["payload"] == payload && record["provenance"] == provenance
            && record["record_digest"] == JString("sha256:" + hash(Print(JObject(record - {"record_digest"}))))
  {
    hide Print;
    assert SealRecord(hash, recordType, schemaVersion, payload, provenance) - {"record_digest"} ==
           Envelope(recordType, schemaVersion, payload, provenance);
  }

  lemma RecordIs(hash: string -> string, scope: string, baseOid: string, candidateOid: Option<string>,
                 labels: (string, string), provenance: Json, pass: Snapshot, changes: seq<Change>)
    requires ChangesIn(pass.base, pass.candidate, Sorted(pass.paths)) == Ok(changes)
    ensures RecordReads(hash, SealRecord(hash, "change_set", 1, ChangeSetPayload(hash, scope, baseOid, candidateOid, labels, changes), provenance),
                        scope, baseOid, candidateOid, labels, provenance, pass, changes)
  {
    hide PayloadReads, ChangeSetPayload, SideReads, ChangedPathRecord, Print, ChangesIn, SealRecord, ExactlyChanged, Fingerprint;
    PayloadIs(hash, scope, baseOid, candidateOid, labels, changes);
    SealIs(hash, "change_set", 1, ChangeSetPayload(hash, scope, baseOid, candidateOid, labels, changes), provenance);
    ChangedExactly(pass.base, pass.candidate, pass.paths);
    ChangesExact(pass.base, pass.candidate, Sorted(pass.paths));
    forall i | 0 <= i < |changes|
      ensures PathReads(ChangeRecords(changes)[i], changes[i].path, pass)
    {
      assert changes[i] in changes;
      ChangeReads(changes[i]);
    }
  }

  /** `build_change_set_record`: two passes whose fingerprints must agree. */
  method BuildChangeSetRecord(hash: string -> string, scope: string, baseOid: string, candidateOid: Option<string>,
                              labels: (string, string), provenance: Json, first: Snapshot, second: Snapshot)
    returns (r: Result<map<string, Json>, BuildError>, ghost changes: seq<Change>)
    ensures r.Ok? ==>
              && r.value == SealRecord(hash, "change_set", 1, ChangeSetPayload(hash, scope, baseOid, candidateOid, labels, changes), provenance)
              && VerifyRecord(hash, r.value)
              && RecordReads(hash, r.value, scope, baseOid, candidateOid, labels, provenance, first, changes)
              && ChangesIn(first.base, first.candidate, Sorted(first.paths)) == Ok(changes)
    ensures r.Ok? && CollisionFree(hash) ==>
              ChangesIn(second.base, second.candidate, Sorted(second.paths)) == Ok(changes)
    ensures r == Err(ScopeNotImplemented) <==> scope !in SUPPORTED_SCOPES
    ensures r.Err? && r.error.ViewFailed? ==>
              || ChangesIn(first.base, first.candidate, Sorted(first.paths)) == Err(r.error.why)
              || ChangesIn(second.base, second.candidate, Sorted(second.paths)) == Err(r.error.why)
    ensures r == Err(ChangeSetUnstable) ==>
              ChangesIn(first.base, first.candidate, Sorted(first.paths)) !=
              ChangesIn(second.base, second.candidate, Sorted(second.paths))
  {
    changes := [];
    if scope !in SUPPORTED_SCOPES {
      return Err(ScopeNotImplemented), changes;
    }
    var one := CollectChangeSet(hash, scope, baseOid, first.base, first.candidate, first.paths);
    if one.Err? {
      return Err(ViewFailed(one.error)), changes;
    }
    var two := CollectChangeSet(hash, scope, baseOid, second.base, second.candidate, second.paths);
    if two.Err? {
      return Err(ViewFailed(two.error)), changes;
    }
    if one.value.0 != two.value.0 {
      return Err(ChangeSetUnstable), changes;
    }
    changes := one.value.1;
    if CollisionFree(hash) {
      FingerprintInjective(hash, scope, baseOid, changes, scope, baseOid, two.value.1);
    }
    var payload := ChangeSetPayload(hash, scope, baseOid, candidateOid, labels, one.value.1);
    SealedVerifies(hash, "change_set", 1, payload, provenance);
    RecordIs(hash, scope, baseOid, candidateOid, labels, provenance, first, changes);
    r := Ok(SealRecord(hash, "change_set", 1, payload, provenance));
  }

  /**
   The record two agreeing passes emit is an exact patch in both: over one base and complete
   listings, the candidate views the two passes saw are the same at every path.
   */
  lemma BothPassesSawTheSame(first: Snapshot, second: Snapshot, changes: seq<Change>)
    requires forall p :: first.base(p) == second.base(p)
    requires ListsAllDifferences(first.base, first.candidate, first.paths)
    requires ListsAllDifferences(second.base, second.candidate, second.paths)
    requires ChangesIn(first.base, first.candidate, Sorted(first.paths)) == Ok(changes)
    requires ChangesIn(second.base, second.candidate, Sorted(second.paths)) == Ok(changes)
    ensures forall p :: first.candidate(p) == second.candidate(p) == Overlay(first.base, changes, p)
  {
    ExactPatch(first.base, first.candidate, first.paths);
    ExactPatch(second.base, second.candidate, second.paths);
    forall p
      ensures Overlay(first.base, changes, p) == Overlay(second.base, changes, p)
    {
      OverlaySameBase(first.base, second.base, changes, p);
    }
  }

  lemma {:induction false} OverlaySameBase(a: View, b: View, changes: seq<Change>, path: string)
    requires a(path) == b(path)
    ensures Overlay(a, changes, path) == Overlay(b, changes, path)
  {
    if changes != [] {
      OverlaySameBase(a, b, changes[1..], path);
    }
  }
}
