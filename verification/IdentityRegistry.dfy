/**
 The append-only registry of reserved identities, and the check that a candidate reuses none of them.
 */
module IdentityRegistry {
  import opened Wrappers
  import opened Strings

  /** A registry version: its identity classes, the identities reserved in each, and the reuse flag. */
  datatype Registry = Registry(classes: seq<string>, identities: map<string, seq<string>>, reuseAuthorized: bool)

  function Identities(r: Registry, field: string): seq<string> {
    if field in r.identities then r.identities[field] else []
  }

  /** One class of a well-formed registry: listed, nonempty strings, sorted and unique. */
  predicate ClassWellFormed(r: Registry, field: string) {
    && field in r.identities && "" !in r.identities[field]
    && r.identities[field] == Sorted(Elements(r.identities[field]))
  }

  /** `_validate_reserved`: true when the registry may be used. */
  method ValidateReserved(r: Registry) returns (ok: bool)
    ensures ok <==> r.classes != [] && (forall f :: f in r.classes ==> ClassWellFormed(r, f)) && !r.reuseAuthorized
  {
    if r.classes == [] {
      return false;
    }
    for k := 0 to |r.classes|
      invariant forall f :: f in r.classes[..k] ==> ClassWellFormed(r, f)
    {
      var field := r.classes[k];
      assert field in r.classes;
      assert r.classes[..k + 1] == r.classes[..k] + [field];
      if field !in r.identities || "" in r.identities[field] {
        return false;
      }
      if r.identities[field] != Sorted(Elements(r.identities[field])) {
        return false;
      }
    }
    assert r.classes[..|r.classes|] == r.classes;
    ok := !r.reuseAuthorized;
  }

  lemma AscendingIff(values: seq<string>)
    ensures values == Sorted(Elements(values)) <==> Ascending(values)
  {
    hide Less;
    SortedFacts(Elements(values));
    if Ascending(values) {
      AscendingUnique(values, Sorted(Elements(values)));
    }
  }

  lemma ClassWellFormedIff(r: Registry, field: string)
    ensures ClassWellFormed(r, field) <==>
            field in r.identities && Ascending(r.identities[field]) && forall v :: v in r.identities[field] ==> v != ""
  {
    hide Less;
    if field in r.identities {
      AscendingIff(r.identities[field]);
    }
  }

  // ----- the registry only grows -----

  predicate Covers(prior: Registry, reserved: Registry, field: string) {
    field in reserved.classes && Elements(Identities(prior, field)) <= Elements(Identities(reserved, field))
  }

  /** `_validate_reserved_superset`: the first class that lost something, if any. */
  method ValidateReservedSuperset(prior: Registry, reserved: Registry) returns (dropped: Option<string>)
    ensures dropped.None? <==> prior.classes != [] && forall f :: f in prior.classes ==> Covers(prior, reserved, f)
    ensures dropped.Some? && prior.classes != [] ==> dropped.value in prior.classes && !Covers(prior, reserved, dropped.value)
  {
    if prior.classes == [] {
      return Some("");
    }
    for k := 0 to |prior.classes|
      invariant forall f :: f in prior.classes[..k] ==> Covers(prior, reserved, f)
    {
      var field := prior.classes[k];
      assert prior.classes[..k + 1] == prior.classes[..k] + [field];
      assert field in prior.classes;
      if field !in reserved.classes {
        return Some(field);
      }
      var missing := Elements(Identities(prior, field)) - Elements(Identities(reserved, field));
      if missing != {} {
        var x :| x in missing;
        assert x in Elements(Identities(prior, field));
        return Some(field);
      }
      forall x | x in Elements(Identities(prior, field))
        ensures x in Elements(Identities(reserved, field))
      {
        assert x !in missing;
      }
    }
    assert prior.classes[..|prior.classes|] == prior.classes;
    dropped := None;
  }

  ghost predicate Extends(prior: Registry, reserved: Registry) {
    forall f :: f in prior.classes ==> Covers(prior, reserved, f)
  }

  ghost predicate IsChain(chain: seq<Registry>) {
    forall k :: 1 <= k < |chain| ==> Extends(chain[k - 1], chain[k])
  }

  /** Nothing ever reserved leaves the registry, over any chain of accepted versions. */
  lemma {:induction false} NothingDropped(chain: seq<Registry>, i: nat, j: nat, field: string)
    requires IsChain(chain) && i <= j < |chain| && field in chain[i].classes
    ensures field in chain[j].classes
    ensures Elements(Identities(chain[i], field)) <= Elements(Identities(chain[j], field))
    decreases j
  {
    if i < j {
      NothingDropped(chain, i, j - 1, field);
      assert Covers(chain[j - 1], chain[j], field);
    }
  }

  // ----- paths -----

  /** A pure POSIX path; the root is empty, "/", or the implementation-defined "//". */
  datatype PosixPath = PosixPath(root: string, parts: seq<string>) {
    function Text(): string {
      if root == "" && parts == [] then "." else root + Join(parts, "/")
    }
  }

  function Root(s: string): string {
    if !StartsWith(s, "/") then ""
    else if StartsWith(s, "//") && !StartsWith(s, "///") then "//"
    else "/"
  }

  function Significant(parts: seq<string>): seq<string> {
    if parts == [] then []
    else if parts[0] == "" || parts[0] == "." then Significant(parts[1..])
    else [parts[0]] + Significant(parts[1..])
  }

  /** `PurePosixPath(s)`. */
  function ParsePath(s: string): PosixPath {
    PosixPath(Root(s), Significant(Split(s, '/')))
  }

  /** The components are the pieces between slashes but the empty ones and the single dots, in order. */
  lemma {:induction false} SignificantAre(parts: seq<string>) returns (at: seq<nat>)
    ensures Picks(parts, at, Significant(parts))
    ensures forall i :: i in at <==> 0 <= i < |parts| && parts[i] != "" && parts[i] != "."
  {
    if parts == [] {
      at := [];
    } else {
      var rest := SignificantAre(parts[1..]);
      hide Picks, Later;
      PicksAfter(parts, rest, Significant(parts[1..]));
      forall i: nat
        ensures i in Later(rest) <==> i > 0 && i - 1 in rest
      {
        LaterHolds(rest, i);
      }
      at := if parts[0] == "" || parts[0] == "." then Later(rest) else [0] + Later(rest);
      assert forall i: nat :: i in [0] + Later(rest) <==> i == 0 || i in Later(rest);
    }
  }

  /** The root: none without a leading slash, "//" for exactly two, "/" otherwise. */
  lemma RootIs(s: string)
    ensures (s == "" || s[0] != '/') ==> ParsePath(s).root == ""
    ensures |s| >= 2 && s[0] == '/' && s[1] == '/' && (|s| == 2 || s[2] != '/') ==> ParsePath(s).root == "//"
    ensures s != "" && s[0] == '/' && (|s| == 1 || s[1] != '/' || (|s| >= 3 && s[2] == '/')) ==> ParsePath(s).root == "/"
  {
    hide Significant;
    if |s| >= 3 {
      assert s[..3] == [s[0], s[1], s[2]];
    }
    if |s| >= 2 {
      assert s[..2] == [s[0], s[1]];
    }
  }

  /** `a.is_relative_to(b)`. */
  predicate RelativeTo(a: PosixPath, b: PosixPath) {
    a.root == b.root && b.parts <= a.parts
  }

  predicate Nested(a: PosixPath, b: PosixPath) {
    a == b || RelativeTo(a, b) || RelativeTo(b, a)
  }

  predicate CanonicalAbsolute(s: string) {
    var p := ParsePath(s);
    p.root != "" && ".." !in p.parts && p.Text() == s
  }

  lemma {:induction false} SignificantConcat(a: seq<string>, b: seq<string>)
    ensures Significant(a + b) == Significant(a) + Significant(b)
  {
    if a == [] {
      assert a + b == b;
    } else {
      assert (a + b)[1..] == a[1..] + b;
      SignificantConcat(a[1..], b);
    }
  }

  /** A path written inside another's directory is nested in it, component by component. */
  lemma InsideIsNested(a: string, b: string)
    requires CanonicalAbsolute(b) && StartsWith(a, b + "/") && b != "/" && b != "//"
    ensures RelativeTo(ParsePath(a), ParsePath(b))
  {
    var rest := a[|b| + 1..];
    assert a == b + ['/'] + rest;
    SplitConcat(b, '/', rest);
    SignificantConcat(Split(b, '/'), Split(rest, '/'));
    assert a[0] == b[0];
    SameRoot(a, b);
  }

  lemma SameRoot(a: string, b: string)
    requires CanonicalAbsolute(b) && StartsWith(a, b + "/") && b != "/" && b != "//"
    ensures Root(a) == Root(b)
  {
    NoTripleSlash(b);
    assert a[..|b| + 1] == b + "/";
    assert forall i :: 0 <= i < |b| ==> a[i] == b[i];
  }

  lemma {:induction false} SignificantParts(parts: seq<string>)
    ensures forall p :: p in Significant(parts) ==> p != "" && p in parts
  {
    if parts != [] {
      SignificantParts(parts[1..]);
    }
  }

  /** The components joined never start with a slash. */
  lemma JoinedHead(s: string)
    ensures var joined := Join(ParsePath(s).parts, "/"); joined == "" || joined[0] != '/'
  {
    var parts := ParsePath(s).parts;
    SignificantParts(Split(s, '/'));
    SplitParts(s, '/');
    if parts != [] {
      assert parts[0] in parts;
      assert Join(parts, "/")[0] == parts[0][0];
      assert parts[0][0] in parts[0];
    }
  }

  /** A canonical path never starts with three slashes. */
  lemma NoTripleSlash(b: string)
    requires CanonicalAbsolute(b)
    ensures |b| >= 2 && b[1] == '/' ==> Root(b) == "//"
    ensures |b| >= 3 ==> !StartsWith(b, "///")
  {
    JoinedHead(b);
    assert b == Root(b) + Join(ParsePath(b).parts, "/");
  }

  // ----- the candidate -----

  const HASH_FIELDS := {"environment_lock_hashes", "worker_wheel_sha256", "plan_hashes", "execution_configuration_hashes"}
  const PATH_FIELDS := {"output_paths", "evidence_roots"}
  const ID_FIELDS := {"environment_ids", "plan_ids", "execution_configuration_ids", "run_ids", "artifact_ids"}

  const PLANNED := {
    "environment_ids", "environment_lock_hashes", "worker_wheel_sha256", "plan_ids", "plan_hashes",
    "execution_configuration_ids", "execution_configuration_hashes", "output_paths", "evidence_roots"
  }

  const STAGES := {"environment_plan", "runplan", "trial"}

  function RequiredNonempty(stage: string): set<string> {
    if stage == "environment_plan" then {"environment_ids", "worker_wheel_sha256", "evidence_roots"}
    else if stage == "runplan" then PLANNED
    else PLANNED + {"run_ids"}
  }

  function RequiredEmpty(stage: string): set<string> {
    if stage == "environment_plan" then
      {"environment_lock_hashes", "plan_ids", "plan_hashes", "execution_configuration_ids",
       "execution_configuration_hashes", "run_ids", "output_paths", "artifact_ids"}
    else if stage == "runplan" then {"run_ids", "artifact_ids"}
    else {}
  }

  predicate IsSha256(s: string) {
    |s| == 64 && forall i :: 0 <= i < 64 ==> '0' <= s[i] <= '9' || 'a' <= s[i] <= 'f'
  }

  predicate Alphanumeric(c: char) {
    'A' <= c <= 'Z' || 'a' <= c <= 'z' || '0' <= c <= '9'
  }

  predicate IsIdentity(s: string) {
    s != "" && Alphanumeric(s[0]) && forall i :: 0 <= i < |s| ==> Alphanumeric(s[i]) || s[i] in {'.', '_', '-'}
  }

  /** A value the registry already holds: folded for ids, exact otherwise, and by nesting too for paths. */
  predicate Reuses(fold: string -> string, field: string, value: string, reserved: seq<string>) {
    || (field in ID_FIELDS && exists w :: w in reserved && fold(value) == fold(w))
    || (field !in ID_FIELDS && value in reserved)
    || (field in PATH_FIELDS && exists w :: w in reserved && Nested(ParsePath(value), ParsePath(w)))
  }

  function ReusedAmong(fold: string -> string, field: string, values: seq<string>, reserved: seq<string>): set<string> {
    set v | v in values && Reuses(fold, field, v, reserved)
  }

  predicate WellFormedValue(field: string, value: string) {
    && (field in HASH_FIELDS ==> IsSha256(value))
    && (field in ID_FIELDS ==> IsIdentity(value))
    && (field in PATH_FIELDS ==> CanonicalAbsolute(value))
  }

  predicate FieldAccepted(fold: string -> string, stage: string, field: string, values: seq<string>, reserved: seq<string>) {
    && values == Sorted(Elements(values))
    && (field in RequiredNonempty(stage) ==> values != [])
    && (field in RequiredEmpty(stage) ==> values == [])
    && (forall v :: v in values ==> WellFormedValue(field, v))
    && ReusedAmong(fold, field, values, reserved) == {}
  }

  /** What a stage asks of a class: planned identities from the plan on, runs with the trial, nothing early. */
  lemma StageRules(stage: string, field: string)
    requires stage in {"environment_plan", "runplan", "trial"}
    ensures var early := field in {"environment_ids", "worker_wheel_sha256", "evidence_roots"};
            var planned := field in {"environment_lock_hashes", "plan_ids", "plan_hashes", "execution_configuration_ids",
                                     "execution_configuration_hashes", "output_paths"};
            var late := field == "run_ids" || field == "artifact_ids";
            && (field in RequiredNonempty(stage) <==>
                  early || (planned && stage != "environment_plan") || (field == "run_ids" && stage == "trial"))
            && (field in RequiredEmpty(stage) <==>
                  (planned && stage == "environment_plan") || (late && stage != "trial"))
  {
  }

  /** What a value of a class must look like. */
  lemma FormRules(field: string, value: string)
    ensures WellFormedValue(field, value) <==>
            && (field in {"environment_lock_hashes", "worker_wheel_sha256", "plan_hashes", "execution_configuration_hashes"} ==>
                  |value| == 64 && forall i :: 0 <= i < 64 ==> '0' <= value[i] <= '9' || 'a' <= value[i] <= 'f')
            && (field in {"environment_ids", "plan_ids", "execution_configuration_ids", "run_ids", "artifact_ids"} ==> IdText(value))
            && (field in {"output_paths", "evidence_roots"} ==> CanonicalAbsolute(value))
  {
    hide CanonicalAbsolute;
    assert IsIdentity(value) <==> IdText(value);
  }

  /** Reuse: ids up to case, paths by nesting too, everything else by equality. */
  lemma ReuseRules(fold: string -> string, field: string, values: seq<string>, reserved: seq<string>)
    ensures ReusedAmong(fold, field, values, reserved) == {} <==>
            forall v, w :: v in values && w in reserved ==>
              if field in {"environment_ids", "plan_ids", "execution_configuration_ids", "run_ids", "artifact_ids"}
              then fold(v) != fold(w)
              else v != w && (field in {"output_paths", "evidence_roots"} ==> !Nested(ParsePath(v), ParsePath(w)))
  {
    hide Nested, ParsePath;
    forall v | v in values && Reuses(fold, field, v, reserved)
      ensures v in ReusedAmong(fold, field, values, reserved)
    {
    }
  }

  /**
   One class is accepted when it is sorted without repetition, empty or nonempty as the stage asks, well
   formed throughout and disjoint from what is reserved.
   */
  lemma FieldAcceptedIff(fold: string -> string, stage: string, field: string, values: seq<string>, reserved: seq<string>)
    ensures FieldAccepted(fold, stage, field, values, reserved) <==>
            && Ascending(values)
            && (values == [] ==> field !in RequiredNonempty(stage)) && (values != [] ==> field !in RequiredEmpty(stage))
            && (forall v :: v in values ==> WellFormedValue(field, v))
            && ReusedAmong(fold, field, values, reserved) == {}
  {
    hide Less, WellFormedValue, RequiredNonempty, RequiredEmpty, ReusedAmong;
    AscendingIff(values);
  }

  /** A letter or digit, then letters, digits, dots, underscores and hyphens. */
  predicate IdText(s: string) {
    && s != "" && s[0] !in {'.', '_', '-'}
    && forall i :: 0 <= i < |s| ==>
         'A' <= s[i] <= 'Z' || 'a' <= s[i] <= 'z' || '0' <= s[i] <= '9' || s[i] == '.' || s[i] == '_' || s[i] == '-'
  }

  datatype Candidate = Candidate(schemaVersion: string, stage: string, identities: map<string, seq<string>>)

  datatype Refusal =
    | FieldsMismatch | BadSchemaVersion | UnknownStage | NotSortedUnique(field: string)
    | MustBeNonempty(field: string) | MustBeEmpty(field: string) | Malformed(field: string)
    | Reused(field: string, values: seq<string>)

  /** The values of one class that the registry already holds, in order. */
  method Overlap(fold: string -> string, field: string, values: seq<string>, reserved: seq<string>)
    returns (overlap: seq<string>)
    ensures overlap == Sorted(ReusedAmong(fold, field, values, reserved))
  {
    hide Nested, ParsePath;
    var found: set<string> := {};
    if field in ID_FIELDS {
      var reservedFolded := set w | w in reserved :: fold(w);
      found := set v | v in values && fold(v) in reservedFolded;
    } else {
      found := set v | v in values && v in reserved;
    }
    if field in PATH_FIELDS {
      var nested := NestedAmong(values, reserved);
      found := found + nested;
    }
    overlap := Sorted(found);
    assert found == ReusedAmong(fold, field, values, reserved);
  }

  /** The inner loops over paths: each value nested with some reserved one, the scan stopping there. */
  method NestedAmong(values: seq<string>, reserved: seq<string>) returns (nested: set<string>)
    ensures nested == set v | v in values && NestedInAny(v, reserved)
  {
    hide Nested, ParsePath;
    nested := {};
    for k := 0 to |values|
      invariant nested == set v | v in values[..k] && NestedInAny(v, reserved)
    {
      assert values[..k + 1] == values[..k] + [values[k]];
      var path := ParsePath(values[k]);
      var j := 0;
      while j < |reserved| && !Nested(path, ParsePath(reserved[j]))
        invariant 0 <= j <= |reserved|
        invariant forall i :: 0 <= i < j ==> !Nested(path, ParsePath(reserved[i]))
      {
        j := j + 1;
      }
      if j < |reserved| {
        assert reserved[j] in reserved;
        nested := nested + {values[k]};
      }
    }
    assert values[..|values|] == values;
  }

  predicate NestedInAny(value: string, reserved: seq<string>) {
    exists w :: w in reserved && Nested(ParsePath(value), ParsePath(w))
  }

  /** The class loop of `validate_candidate_identities`. */
  method ValidateCandidate(fold: string -> string, candidate: Candidate, reserved: Registry)
    returns (refusal: Option<Refusal>)
    ensures refusal.None? <==>
            && candidate.identities.Keys == Elements(reserved.classes)
            && candidate.schemaVersion == "1.0.0" && candidate.stage in STAGES
            && forall f :: f in reserved.classes ==>
                 FieldAccepted(fold, candidate.stage, f, candidate.identities[f], Identities(reserved, f))
    ensures refusal.Some? && refusal.value.Reused? ==>
              && refusal.value.field in reserved.classes
              && refusal.value.field in candidate.identities && refusal.value.values != []
              && Elements(refusal.value.values) ==
                 ReusedAmong(fold, refusal.value.field, candidate.identities[refusal.value.field],
                             Identities(reserved, refusal.value.field))
  {
    if candidate.identities.Keys != Elements(reserved.classes) {
      return Some(FieldsMismatch);
    }
    if candidate.schemaVersion != "1.0.0" {
      return Some(BadSchemaVersion);
    }
    if candidate.stage !in STAGES {
      return Some(UnknownStage);
    }
    for k := 0 to |reserved.classes|
      invariant forall f :: f in reserved.classes[..k] ==>
                  FieldAccepted(fold, candidate.stage, f, candidate.identities[f], Identities(reserved, f))
    {
      var field := reserved.classes[k];
      assert reserved.classes[..k + 1] == reserved.classes[..k] + [field];
      assert field in Elements(reserved.classes);
      refusal := ValidateField(fold, candidate.stage, field, candidate.identities[field], Identities(reserved, field));
      if refusal.Some? {
        return;
      }
    }
    assert reserved.classes[..|reserved.classes|] == reserved.classes;
    refusal := None;
  }

  method ValidateField(fold: string -> string, stage: string, field: string, values: seq<string>, reserved: seq<string>)
    returns (refusal: Option<Refusal>)
    ensures refusal.None? <==> FieldAccepted(fold, stage, field, values, reserved)
    ensures refusal.Some? && refusal.value.Reused? ==>
              && refusal.value.field == field && refusal.value.values != []
              && Elements(refusal.value.values) == ReusedAmong(fold, field, values, reserved)
    ensures refusal.Some? ==> refusal.value !in {FieldsMismatch, BadSchemaVersion, UnknownStage}
  {
    if values != Sorted(Elements(values)) {
      return Some(NotSortedUnique(field));
    }
    if field in RequiredNonempty(stage) && values == [] {
      return Some(MustBeNonempty(field));
    }
    if field in RequiredEmpty(stage) && values != [] {
      return Some(MustBeEmpty(field));
    }
    if exists v :: v in values && !WellFormedValue(field, v) {
      return Some(Malformed(field));
    }
    var overlap := Overlap(fold, field, values, reserved);
    SortedFacts(ReusedAmong(fold, field, values, reserved));
    if overlap != [] {
      assert overlap[0] in Elements(overlap);
      return Some(Reused(field, overlap));
    }
    refusal := None;
  }

  /**
   Never reuse: over any chain of registries that each pass the append-only check, a candidate
   accepted against the newest shares no identity with any version, ids not even up to case, and no
   path equals, contains or lies inside one ever reserved.
   */
  lemma NeverReused(fold: string -> string, chain: seq<Registry>, i: nat, stage: string, field: string,
                    values: seq<string>, v: string, w: string)
    requires IsChain(chain) && i < |chain| && field in chain[i].classes
    requires FieldAccepted(fold, stage, field, values, Identities(chain[|chain| - 1], field))
    requires v in values && w in Identities(chain[i], field)
    ensures v != w
    ensures field in ID_FIELDS ==> fold(v) != fold(w)
    ensures field in PATH_FIELDS ==> !Nested(ParsePath(v), ParsePath(w))
  {
    NothingDropped(chain, i, |chain| - 1, field);
    assert w in Elements(Identities(chain[i], field));
    assert w in Identities(chain[|chain| - 1], field);
    assert v !in ReusedAmong(fold, field, values, Identities(chain[|chain| - 1], field));
  }

  /** In text: an accepted path is not written at, under or above a canonical path ever reserved. */
  lemma NeverNestedInText(fold: string -> string, chain: seq<Registry>, i: nat, stage: string, field: string,
                          values: seq<string>, v: string, w: string)
    requires IsChain(chain) && i < |chain| && field in chain[i].classes && field in PATH_FIELDS
    requires FieldAccepted(fold, stage, field, values, Identities(chain[|chain| - 1], field))
    requires v in values && w in Identities(chain[i], field) && CanonicalAbsolute(w)
    requires v !in {"/", "//"} && w !in {"/", "//"}
    ensures v != w && !StartsWith(v, w + "/") && !StartsWith(w, v + "/")
  {
    NeverReused(fold, chain, i, stage, field, values, v, w);
    assert WellFormedValue(field, v);
    if StartsWith(v, w + "/") {
      InsideIsNested(v, w);
    }
    if StartsWith(w, v + "/") {
      InsideIsNested(w, v);
    }
  }

  // ----- paths under the other root -----

  /** One path's components start the other's: whatever their roots, one holds the other or they are the same. */
  predicate Overlapping(v: string, w: string) {
    ParsePath(v).parts <= ParsePath(w).parts || ParsePath(w).parts <= ParsePath(v).parts
  }

  /** A path is recognized as reused exactly when some reserved path it overlaps is under the same root. */
  lemma ReusedUnderSameRoot(fold: string -> string, field: string, v: string, reserved: seq<string>)
    requires field in PATH_FIELDS
    ensures Reuses(fold, field, v, reserved) <==>
            exists w :: w in reserved && Overlapping(v, w) && ParsePath(v).root == ParsePath(w).root
  {
    hide ParsePath;
    if v in reserved {
      assert Overlapping(v, v);
    }
    if w :| w in reserved && Overlapping(v, w) && ParsePath(v).root == ParsePath(w).root {
      assert Nested(ParsePath(v), ParsePath(w));
    }
    if w :| w in reserved && Nested(ParsePath(v), ParsePath(w)) {
      assert Overlapping(v, w);
    }
  }

  const ABSOLUTE_ROOTS := {"/", "//"}

  /** The components a canonical path can share: those before the first parent step. */
  function Stem(parts: seq<string>): seq<string> {
    if parts == [] || parts[0] == ".." then [] else [parts[0]] + Stem(parts[1..])
  }

  lemma {:induction false} StemFacts(parts: seq<string>)
    ensures Stem(parts) <= parts && ".." !in Stem(parts)
    ensures ".." in parts ==> |Stem(parts)| < |parts| && parts[|Stem(parts)|] == ".."
    ensures ".." !in parts ==> Stem(parts) == parts
  {
    if parts != [] && parts[0] != ".." {
      StemFacts(parts[1..]);
      assert parts == [parts[0]] + parts[1..];
    }
  }

  /** `w'` stops every canonical path that overlaps `w`. */
  predicate Stops(w': string, w: string) {
    var stem := Stem(ParsePath(w).parts);
    || ParsePath(w').parts <= stem
    || (".." in ParsePath(w).parts && stem <= ParsePath(w').parts)
  }

  /** Each reserved path is mirrored: under either absolute root, something reserved stops what overlaps it. */
  predicate Mirrored(reserved: seq<string>) {
    forall w, root :: w in reserved && root in ABSOLUTE_ROOTS ==> HasMirror(reserved, w, root)
  }

  predicate HasMirror(reserved: seq<string>, w: string, root: string) {
    exists w' :: w' in reserved && ParsePath(w').root == root && Stops(w', w)
  }

  lemma RootsAbsolute(s: string)
    ensures ParsePath(s).root != "" <==> ParsePath(s).root in ABSOLUTE_ROOTS
  {
  }

  lemma {:induction false} PrefixNoParent(a: seq<string>, b: seq<string>)
    requires a <= b && ".." !in a
    ensures a <= Stem(b)
  {
    if a != [] {
      assert a[0] in a && a[0] == b[0];
      PrefixNoParent(a[1..], b[1..]);
    }
  }

  lemma PrefixHolds(a: seq<string>, b: seq<string>)
    ensures a <= b ==> forall x :: x in a ==> x in b
  {
  }

  lemma MirroredStops(fold: string -> string, field: string, reserved: seq<string>, v: string, w: string)
    requires field in PATH_FIELDS && Mirrored(reserved) && CanonicalAbsolute(v)
    requires w in reserved && Overlapping(v, w)
    ensures Reuses(fold, field, v, reserved)
  {
    hide ParsePath;
    RootsAbsolute(v);
    var root := ParsePath(v).root;
    assert HasMirror(reserved, w, root);
    var w' :| w' in reserved && ParsePath(w').root == root && Stops(w', w);
    var parts := ParsePath(v).parts;
    StemFacts(ParsePath(w).parts);
    if parts <= ParsePath(w).parts {
      PrefixNoParent(parts, ParsePath(w).parts);
    }
    PrefixHolds(ParsePath(w).parts, parts);
    assert Overlapping(v, w');
    ReusedUnderSameRoot(fold, field, v, reserved);
  }

  // ----- a path no reserved one stops -----

  predicate Component(p: string) { p != "" && p != "." && p != ".." && '/' !in p }

  /** The canonical text of absolute components parses back to them. */
  lemma TextParses(root: string, parts: seq<string>)
    requires root in ABSOLUTE_ROOTS && forall p :: p in parts ==> Component(p)
    ensures ParsePath(root + Join(parts, "/")) == PosixPath(root, parts)
    ensures CanonicalAbsolute(root + Join(parts, "/"))
  {
    var body := Join(parts, "/");
    var s := root + body;
    hide Join;
    BodyFacts(parts);
    if root == "/" {
      assert s == "" + ['/'] + body;
      SplitConcat("", '/', body);
    } else {
      assert s == "" + ['/'] + ("" + ['/'] + body);
      SplitConcat("", '/', body);
      SplitConcat("", '/', "" + ['/'] + body);
    }
    assert Split("", '/') == [""];
    SignificantConcat([""], Split(body, '/'));
    SignificantConcat([""], [""] + Split(body, '/'));
    RootOf(root, body);
  }

  lemma RootOf(root: string, body: string)
    requires root in ABSOLUTE_ROOTS && (body == "" || body[0] != '/')
    ensures Root(root + body) == root
  {
  }

  lemma BodyFacts(parts: seq<string>)
    requires forall p :: p in parts ==> Component(p)
    ensures var body := Join(parts, "/"); Significant(Split(body, '/')) == parts && (body == "" || body[0] != '/')
  {
    if parts == [] {
      assert Split("", '/') == [""];
      assert Significant([""]) == [];
    } else {
      SplitJoin(parts, '/');
      AllSignificant(parts);
      assert parts[0] in parts;
      assert Join(parts, "/")[0] == parts[0][0];
      assert parts[0][0] in parts[0];
    }
  }

  lemma {:induction false} AllSignificant(parts: seq<string>)
    requires forall p :: p in parts ==> Component(p)
    ensures Significant(parts) == parts
  {
    if parts != [] {
      assert parts[0] in parts;
      AllSignificant(parts[1..]);
      assert parts == [parts[0]] + parts[1..];
    }
  }

  /** The parsed components of any path are components, but for parent steps. */
  lemma ParsedComponents(s: string)
    ensures forall p :: p in ParsePath(s).parts && p != ".." ==> Component(p)
  {
    SignificantParts(Split(s, '/'));
    SplitParts(s, '/');
    NoDots(Split(s, '/'));
  }

  /** A canonical absolute path: one of the two roots, then components with single slashes between them. */
  lemma CanonicalIff(s: string)
    ensures CanonicalAbsolute(s) <==>
            exists root, parts :: (root == "/" || root == "//") && s == root + Join(parts, "/") &&
              forall p :: p in parts ==> p != "" && p != "." && p != ".." && '/' !in p
  {
    if root, parts :| (root == "/" || root == "//") && s == root + Join(parts, "/") &&
                      forall p :: p in parts ==> p != "" && p != "." && p != ".." && '/' !in p {
      TextParses(root, parts);
    }
    if CanonicalAbsolute(s) {
      var path := ParsePath(s);
      hide ParsePath;
      ParsedComponents(s);
      RootsAbsolute(s);
      assert s == path.root + Join(path.parts, "/");
    }
  }

  lemma {:induction false} NoDots(parts: seq<string>)
    ensures "." !in Significant(parts)
  {
    if parts != [] {
      NoDots(parts[1..]);
    }
  }

  /** A component longer than any in the registry. */
  function Longest(reserved: seq<string>): nat {
    if reserved == [] then 2
    else if |reserved[0]| > Longest(reserved[1..]) then |reserved[0]| else Longest(reserved[1..])
  }

  lemma {:induction false} LongestBounds(reserved: seq<string>)
    ensures Longest(reserved) >= 2 && forall w :: w in reserved ==> |w| <= Longest(reserved)
  {
    if reserved != [] {
      LongestBounds(reserved[1..]);
    }
  }

  lemma {:induction false} SplitShorter(s: string)
    ensures forall p :: p in Split(s, '/') ==> |p| <= |s|
  {
    if s != "" {
      SplitShorter(s[1..]);
    }
  }

  function Fresh(reserved: seq<string>): string { seq(Longest(reserved) + 1, _ => 'n') }

  lemma FreshComponent(reserved: seq<string>)
    ensures Component(Fresh(reserved)) && forall w :: w in reserved ==> Fresh(reserved) !in ParsePath(w).parts
  {
    LongestBounds(reserved);
    forall w | w in reserved
      ensures Fresh(reserved) !in ParsePath(w).parts
    {
      SignificantParts(Split(w, '/'));
      SplitShorter(w);
    }
  }

  /** The components that slip past the registry when `w` has no mirror under the root. */
  function Slipping(reserved: seq<string>, w: string): seq<string> {
    var parts := ParsePath(w).parts;
    if ".." in parts then Stem(parts) else parts + [Fresh(reserved)]
  }

  lemma SlippingComponents(reserved: seq<string>, w: string)
    requires w in reserved
    ensures forall p :: p in Slipping(reserved, w) ==> Component(p)
  {
    hide ParsePath, Component, Fresh;
    ParsedComponents(w);
    StemFacts(ParsePath(w).parts);
    FreshComponent(reserved);
  }

  lemma UnmirroredSlips(fold: string -> string, field: string, reserved: seq<string>, w: string, root: string) returns (v: string)
    requires field in PATH_FIELDS && w in reserved && root in ABSOLUTE_ROOTS && !HasMirror(reserved, w, root)
    ensures CanonicalAbsolute(v) && Overlapping(v, w) && !Reuses(fold, field, v, reserved)
  {
    var parts := Slipping(reserved, w);
    SlippingComponents(reserved, w);
    v := root + Join(parts, "/");
    TextParses(root, parts);
    StemFacts(ParsePath(w).parts);
    FreshComponent(reserved);
    hide ParsePath, CanonicalAbsolute, Component, Fresh;
    ReusedUnderSameRoot(fold, field, v, reserved);
    if w' :| w' in reserved && Overlapping(v, w') && ParsePath(v).root == ParsePath(w').root {
      MirrorFound(reserved, w, root, w');
      assert false;
    }
  }

  lemma MirrorFound(reserved: seq<string>, w: string, root: string, w': string)
    requires w in reserved && w' in reserved && ParsePath(w').root == root
    requires Slipping(reserved, w) <= ParsePath(w').parts || ParsePath(w').parts <= Slipping(reserved, w)
    ensures HasMirror(reserved, w, root)
  {
    StemFacts(ParsePath(w).parts);
    FreshComponent(reserved);
    hide ParsePath, Component, Fresh;
    var slip := Slipping(reserved, w);
    if ".." !in ParsePath(w).parts {
      assert slip[|slip| - 1] == Fresh(reserved);
      PrefixHolds(slip, ParsePath(w').parts);
    }
    assert Stops(w', w);
  }

  lemma OneValueSorted(v: string)
    ensures [v] == Sorted(Elements([v]))
  {
    SortedFacts({v});
    assert Elements([v]) == {v};
    var s := Sorted({v});
    assert s[0] in Elements(s);
  }

  lemma OneAccepted(fold: string -> string, field: string, v: string, reserved: seq<string>)
    requires field in PATH_FIELDS && CanonicalAbsolute(v) && !Reuses(fold, field, v, reserved)
    ensures FieldAccepted(fold, "trial", field, [v], reserved)
  {
    hide CanonicalAbsolute, Reuses;
    OneValueSorted(v);
    assert v in [v];
  }

  /**
   The exact condition: no accepted path equals, contains or lies inside a reserved one, component by
   component, just when the registry holds a mirror of each of its paths under both absolute roots.
   */
  lemma PathsDisjointIff(fold: string -> string, field: string, reserved: seq<string>)
    requires field in PATH_FIELDS
    ensures (forall stage, values, v, w :: FieldAccepted(fold, stage, field, values, reserved) && v in values && w in reserved ==>
               !Overlapping(v, w))
            <==> Mirrored(reserved)
  {
    hide Reuses, Overlapping, HasMirror, CanonicalAbsolute, ABSOLUTE_ROOTS;
    if Mirrored(reserved) {
      forall stage, values, v, w | FieldAccepted(fold, stage, field, values, reserved) && v in values && w in reserved
        ensures !Overlapping(v, w)
      {
        assert WellFormedValue(field, v);
        assert v !in ReusedAmong(fold, field, values, reserved);
        if Overlapping(v, w) {
          MirroredStops(fold, field, reserved, v, w);
        }
      }
    } else {
      var w, root :| w in reserved && root in ABSOLUTE_ROOTS && !HasMirror(reserved, w, root);
      var v := UnmirroredSlips(fold, field, reserved, w, root);
      OneAccepted(fold, field, v, reserved);
      assert v in [v];
    }
  }

  /** A reserved path written once more with a doubled first slash is accepted against a registry of it alone. */
  lemma DoubledRootAccepted(fold: string -> string, field: string, w: string)
    requires CanonicalAbsolute(w) && Root(w) == "/" && field in PATH_FIELDS
    ensures FieldAccepted(fold, "trial", field, ["/" + w], [w])
    ensures ParsePath("/" + w).parts == ParsePath(w).parts
  {
    var v := "/" + w;
    NoTripleSlash(w);
    assert v[1..] == w;
    assert v[0] == '/' && v[1] == '/';
    assert StartsWith(v, "//") && !StartsWith(v, "///");
    assert Split(v, '/') == [""] + Split(w, '/');
    assert "//" + Join(ParsePath(w).parts, "/") == "/" + ("/" + Join(ParsePath(w).parts, "/"));
    OneAccepted(fold, field, v, [w]);
  }
}
