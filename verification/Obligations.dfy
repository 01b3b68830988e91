/**
 The obligation policy: parsing a bundle, the union of a candidate with its trusted base, and the
 matching of changed paths.
 */
module Obligations {
  import opened Wrappers
  import opened Strings
  import opened JsonText
  import opened CanonicalJson

  datatype Obligation = Obligation(
    id: string, globs: seq<string>, obligation: string, authority: string, severity: string, source: string)

  const VALID_SEVERITIES := {"info", "advisory", "blocking"}
  const TOP_KEYS := {"schema_version", "description", "severities", "obligations"}
  const OBLIGATION_KEYS := {"id", "globs", "obligation", "authority", "severity", "source"}
  const UNBOUNDED_GLOBS := {"*", "**", "/**"}

  // ----- parsing -----

  predicate Occurs(s: string, pattern: string) {
    exists k :: 0 <= k <= |s| && StartsWith(s[k..], pattern)
  }

  /** `_validate_glob`. */
  predicate ValidGlob(glob: string) {
    && glob != "" && '\\' !in glob && glob[0] != '/' && glob !in UNBOUNDED_GLOBS
    && (Occurs(glob, "**") ==> EndsWith(glob, "/**"))
    && forall segment :: segment in Split(glob, '/') ==> segment !in {"", ".", ".."} && ':' !in segment
  }

  function Text(fields: map<string, Json>, key: string): Option<string> {
    if key in fields && fields[key].JString? && fields[key].s != "" then Some(fields[key].s) else None
  }

  function GlobsOf(items: seq<Json>): Option<seq<string>> {
    if items == [] then Some([])
    else
      var rest := GlobsOf(items[1..]);
      if items[0].JString? && ValidGlob(items[0].s) && rest.Some? then Some([items[0].s] + rest.value) else None
  }

  /** One entry of the bundle, if it is well formed. */
  function ParseEntry(entry: Json): Option<Obligation> {
    if !entry.JObject? || entry.fields.Keys != OBLIGATION_KEYS then None
    else
      var f := entry.fields;
      var id, severity := Text(f, "id"), Text(f, "severity");
      var globs := if f["globs"].JArray? && f["globs"].items != [] then GlobsOf(f["globs"].items) else None;
      var obligation, authority, source := Text(f, "obligation"), Text(f, "authority"), Text(f, "source");
      if id.None? || severity.None? || severity.value !in VALID_SEVERITIES || globs.None? ||
         obligation.None? || authority.None? || source.None?
      then None
      else Some(Obligation(id.value, globs.value, obligation.value, authority.value, severity.value, source.value))
  }

  /** The entries of a bundle whose envelope is well formed; Python's `1 == True` lets `true` pass as version 1. */
  function Entries(raw: Json): Option<seq<Json>> {
    if !raw.JObject? || !(raw.fields.Keys <= TOP_KEYS) then None
    else if "schema_version" !in raw.fields || raw.fields["schema_version"] !in {JInt(1), JBool(true)} then None
    else if "obligations" !in raw.fields || !raw.fields["obligations"].JArray? then None
    else if raw.fields["obligations"].items == [] then None
    else Some(raw.fields["obligations"].items)
  }

  /** A bundle whose version is `true` is read like one whose version is 1. */
  lemma VersionTruePasses(items: seq<Json>)
    requires items != []
    ensures Entries(JObject(map["schema_version" := JBool(true), "obligations" := JArray(items)])) == Some(items)
    ensures Entries(JObject(map["schema_version" := JInt(1), "obligations" := JArray(items)])) == Some(items)
  {
    var yes := map["schema_version" := JBool(true), "obligations" := JArray(items)];
    var one := map["schema_version" := JInt(1), "obligations" := JArray(items)];
    assert yes.Keys == one.Keys == {"schema_version", "obligations"};
  }

  // Two directory globs joined by a slash are accepted, so `**` passes inside a glob as well as at its end.
  lemma InnerDoubleStarPasses(d: string, e: string)
    requires ValidGlob(d + "/**") && ValidGlob(e + "/**")
    ensures ValidGlob(d + "/**" + "/" + (e + "/**"))
  {
    var first, second := d + "/**", e + "/**";
    var glob := first + "/" + second;
    assert glob == first + ['/'] + second;
    SplitConcat(first, '/', second);
    assert glob[0] == first[0];
    assert glob[|glob| - 3..] == second[|second| - 3..];
    assert |glob| > 3;
  }

  lemma {:induction false} GlobsIff(items: seq<Json>, globs: seq<string>)
    ensures GlobsOf(items) == Some(globs) <==>
            |globs| == |items| && forall k :: 0 <= k < |items| ==> items[k] == JString(globs[k]) && ValidGlob(globs[k])
  {
    hide ValidGlob;
    if items != [] && globs != [] {
      GlobsIff(items[1..], globs[1..]);
      assert globs == [globs[0]] + globs[1..];
      assert forall k :: 1 <= k < |items| ==> items[k] == items[1..][k - 1];
      assert forall k :: 1 <= k < |globs| ==> globs[k] == globs[1..][k - 1];
    }
  }

  /** The field is a nonempty string, and this one. */
  predicate Says(fields: map<string, Json>, key: string, text: string) {
    key in fields && fields[key] == JString(text) && text != ""
  }

  /** What an entry must be for an obligation, and which: six fields, each read under its own name. */
  lemma EntryIff(entry: Json, o: Obligation)
    ensures ParseEntry(entry) == Some(o) <==>
            && entry.JObject?
            && entry.fields.Keys == {"id", "globs", "obligation", "authority", "severity", "source"}
            && Says(entry.fields, "id", o.id) && Says(entry.fields, "obligation", o.obligation)
            && Says(entry.fields, "authority", o.authority) && Says(entry.fields, "source", o.source)
            && Says(entry.fields, "severity", o.severity) && o.severity in {"info", "advisory", "blocking"}
            && entry.fields["globs"].JArray? && o.globs != [] && |o.globs| == |entry.fields["globs"].items|
            && forall k :: 0 <= k < |o.globs| ==> entry.fields["globs"].items[k] == JString(o.globs[k]) && ValidGlob(o.globs[k])
  {
    hide ValidGlob, GlobsOf;
    if entry.JObject? && entry.fields.Keys == OBLIGATION_KEYS {
      assert forall key :: key in OBLIGATION_KEYS ==> key in entry.fields;
      if entry.fields["globs"].JArray? {
        GlobsIff(entry.fields["globs"].items, o.globs);
      }
    }
  }

  lemma OccursIff(glob: string)
    ensures Occurs(glob, "**") <==> exists k :: 0 <= k < |glob| - 1 && glob[k] == '*' && glob[k + 1] == '*'
  {
    if k :| 0 <= k <= |glob| && StartsWith(glob[k..], "**") {
      assert glob[k..][..2] == "**";
      assert glob[k] == glob[k..][..2][0] && glob[k + 1] == glob[k..][..2][1];
    }
    if k :| 0 <= k < |glob| - 1 && glob[k] == '*' && glob[k + 1] == '*' {
      assert glob[k..][..2] == "**";
    }
  }

  // Which globs are valid: no backslash, no absolute or unbounded one, `**` only with a final `/**`, plain segments.
  lemma ValidGlobIff(glob: string)
    ensures ValidGlob(glob) <==>
            && glob != "" && glob[0] != '/' && (forall c :: c in glob ==> c != '\\')
            && glob != "*" && glob != "**" && glob != "/**"
            && ((exists k :: 0 <= k < |glob| - 1 && glob[k] == '*' && glob[k + 1] == '*') ==>
                  |glob| >= 3 && glob[|glob| - 3..] == "/**")
            && forall segment :: segment in Split(glob, '/') ==>
                 segment != "" && segment != "." && segment != ".." && forall c :: c in segment ==> c != ':'
  {
    hide Split, Occurs;
    OccursIff(glob);
    SegmentsIff(glob);
    if !ValidGlob(glob) && glob != "" && glob[0] != '/' && (forall c :: c in glob ==> c != '\\') {
      assert '\\' !in glob;
      if (Occurs(glob, "**") ==> EndsWith(glob, "/**")) && glob !in UNBOUNDED_GLOBS {
        assert !forall segment :: segment in Split(glob, '/') ==>
          segment != "" && segment != "." && segment != ".." && forall c :: c in segment ==> c != ':';
      }
    }
  }

  lemma SegmentsIff(glob: string)
    ensures (forall segment :: segment in Split(glob, '/') ==> segment !in {"", ".", ".."} && ':' !in segment) <==>
            forall segment :: segment in Split(glob, '/') ==>
              segment != "" && segment != "." && segment != ".." && forall c :: c in segment ==> c != ':'
  {
    hide Split;
    forall segment | segment in Split(glob, '/')
      ensures segment !in {"", ".", ".."} && ':' !in segment <==>
              segment != "" && segment != "." && segment != ".." && forall c :: c in segment ==> c != ':'
    {
      PlainSegment(segment);
    }
  }

  lemma PlainSegment(segment: string)
    ensures segment in {"", ".", ".."} <==> segment == "" || segment == "." || segment == ".."
    ensures ':' in segment <==> exists c :: c in segment && c == ':'
  {
  }

  /** Which bundles have entries: the version is 1 or `true`, no foreign key, a nonempty list of obligations. */
  lemma EntriesIff(raw: Json, items: seq<Json>)
    ensures Entries(raw) == Some(items) <==>
            && raw.JObject? && raw.fields.Keys <= {"schema_version", "description", "severities", "obligations"}
            && "schema_version" in raw.fields
            && (raw.fields["schema_version"] == JInt(1) || raw.fields["schema_version"] == JBool(true))
            && "obligations" in raw.fields && raw.fields["obligations"] == JArray(items) && items != []
  {
  }

  function Ids(obligations: seq<Obligation>): set<string> {
    set o | o in obligations :: o.id
  }

  /** Every entry parses and no id repeats. */
  predicate Admissible(entries: seq<Json>) {
    && (forall i :: 0 <= i < |entries| ==> ParseEntry(entries[i]).Some?)
    && forall i, j :: 0 <= i < j < |entries| ==> ParseEntry(entries[i]).value.id != ParseEntry(entries[j]).value.id
  }

  function IdOf(o: Obligation): string { o.id }

  /** Strictly increasing ids: sorted, and each once. */
  ghost predicate ById(obligations: seq<Obligation>) {
    forall i, j :: 0 <= i < j < |obligations| ==> Less(obligations[i].id, obligations[j].id)
  }

  /** `parse_policy`: the obligations of an admissible bundle, sorted by id; anything else is refused. */
  method ParsePolicy(raw: Json) returns (r: Option<seq<Obligation>>)
    ensures r.Some? <==> Entries(raw).Some? && Admissible(Entries(raw).value)
    ensures r.Some? ==>
              && ById(r.value)
              && forall o :: o in r.value <==> exists i :: 0 <= i < |Entries(raw).value| && ParseEntry(Entries(raw).value[i]) == Some(o)
    ensures r.Some? ==> forall o :: o in r.value ==>
              o.severity in VALID_SEVERITIES && o.globs != [] && forall g :: g in o.globs ==> ValidGlob(g)
  {
    hide Entries, Less;
    if Entries(raw).None? {
      return None;
    }
    var entries := Entries(raw).value;
    var obligations: seq<Obligation> := [];
    var seenIds: set<string> := {};
    for k := 0 to |entries|
      invariant |obligations| == k && seenIds == Ids(obligations)
      invariant forall i :: 0 <= i < k ==> ParseEntry(entries[i]) == Some(obligations[i])
      invariant forall i, j :: 0 <= i < j < k ==> obligations[i].id != obligations[j].id
    {
      var parsed := ParseEntry(entries[k]);
      if parsed.None? {
        return None;
      }
      if parsed.value.id in seenIds {
        var o :| o in obligations && o.id == parsed.value.id;
        var i :| 0 <= i < k && obligations[i] == o;
        return None;
      }
      seenIds := seenIds + {parsed.value.id};
      assert forall o :: o in obligations + [parsed.value] <==> o in obligations || o == parsed.value;
      obligations := obligations + [parsed.value];
    }
    r := Some(SortBy(IdOf, obligations));
    DistinctSorted(obligations);
    forall o
      ensures o in r.value <==> exists i :: 0 <= i < |entries| && ParseEntry(entries[i]) == Some(o)
    {
      SortBySame(IdOf, obligations, o);
    }
    forall o | o in r.value
      ensures o.severity in VALID_SEVERITIES && o.globs != [] && forall g :: g in o.globs ==> ValidGlob(g)
    {
      var i :| 0 <= i < |entries| && ParseEntry(entries[i]) == Some(o);
      GlobsValid(entries[i].fields["globs"].items);
    }
  }

  lemma {:induction false} GlobsValid(items: seq<Json>)
    requires GlobsOf(items).Some?
    ensures |GlobsOf(items).value| == |items| && forall g :: g in GlobsOf(items).value ==> ValidGlob(g)
  {
    if items != [] {
      GlobsValid(items[1..]);
    }
  }

  lemma DistinctSorted(obligations: seq<Obligation>)
    requires forall i, j :: 0 <= i < j < |obligations| ==> obligations[i].id != obligations[j].id
    ensures ById(SortBy(IdOf, obligations))
  {
    var sorted := SortBy(IdOf, obligations);
    SortBySorts(IdOf, obligations);
    forall i, j | 0 <= i < j < |sorted|
      ensures Less(sorted[i].id, sorted[j].id)
    {
      LessTrichotomy(sorted[i].id, sorted[j].id);
      if sorted[i].id == sorted[j].id {
        TwiceInMultiset(sorted, i, j);
        DistinctIdsOnce(obligations, sorted[i], sorted[j]);
      }
    }
  }

  lemma TwiceInMultiset(xs: seq<Obligation>, i: nat, j: nat)
    requires i < j < |xs|
    ensures multiset{xs[i], xs[j]} <= multiset(xs)
  {
    assert xs == xs[..i] + [xs[i]] + xs[i + 1..j] + [xs[j]] + xs[j + 1..];
  }

  lemma {:induction false} DistinctIdsOnce(xs: seq<Obligation>, a: Obligation, b: Obligation)
    requires forall i, j :: 0 <= i < j < |xs| ==> xs[i].id != xs[j].id
    requires multiset{a, b} <= multiset(xs)
    ensures a.id != b.id
  {
    assert xs == [xs[0]] + xs[1..];
    if xs[0] == a {
      assert multiset{b} <= multiset(xs[1..]);
      assert b in xs[1..];
    } else if xs[0] == b {
      assert multiset{a} <= multiset(xs[1..]);
      assert a in xs[1..];
    } else {
      DistinctIdsOnce(xs[1..], a, b);
    }
  }

  // ----- the union with the trusted base -----

  datatype LoadedPolicy = LoadedPolicy(obligations: seq<Obligation>, digest: string)

  /** An unknown severity ranks above every known one. */
  function Rank(severity: string): nat {
    match severity
    case "info" => 0
    case "advisory" => 1
    case "blocking" => 2
    case _ => 3
  }

  function StrongerSeverity(a: string, b: string): string {
    if Rank(a) >= Rank(b) then a else b
  }

  /** The first severity is no lower: info below advisory below blocking below a word that is none of them. */
  predicate NoLower(s': string, s: string) {
    && (s == "advisory" ==> s' != "info")
    && (s == "blocking" ==> s' != "info" && s' != "advisory")
    && (s !in {"info", "advisory", "blocking"} ==> s' !in {"info", "advisory", "blocking"})
  }

  /** Of two parsed severities the stronger is blocking when either is, and info only when both are. */
  lemma StrongerIs(a: string, b: string)
    ensures StrongerSeverity(a, b) == a || StrongerSeverity(a, b) == b
    ensures NoLower(StrongerSeverity(a, b), a) && NoLower(StrongerSeverity(a, b), b)
    ensures a in {"info", "advisory", "blocking"} && b in {"info", "advisory", "blocking"} ==>
              && (StrongerSeverity(a, b) == "blocking" <==> a == "blocking" || b == "blocking")
              && (StrongerSeverity(a, b) == "info" <==> a == "info" && b == "info")
  {
  }

  /** `{o.id: o for o in obligations}.get(id)`. */
  function Find(obligations: seq<Obligation>, id: string): (r: Option<Obligation>)
    ensures r.Some? ==> r.value in obligations && r.value.id == id
    ensures r.None? <==> id !in Ids(obligations)
  {
    if obligations == [] then None
    else if obligations[|obligations| - 1].id == id then Some(obligations[|obligations| - 1])
    else
      assert forall o :: o in obligations <==> o in obligations[..|obligations| - 1] || o == obligations[|obligations| - 1];
      Find(obligations[..|obligations| - 1], id)
  }

  /** The union's obligation for an id, from the trusted base's and the candidate's. */
  function Merge(b: Option<Obligation>, c: Option<Obligation>): Option<Obligation> {
    if b.Some? && c.Some? then
      Some(c.value.(globs := Sorted(Elements(b.value.globs) + Elements(c.value.globs)),
                    severity := StrongerSeverity(b.value.severity, c.value.severity)))
    else if b.Some? then b
    else c
  }

  ghost predicate IsUnion(effective: seq<Obligation>, candidate: seq<Obligation>, base: seq<Obligation>) {
    && Ids(effective) == Ids(candidate) + Ids(base)
    && forall o :: o in effective ==> Some(o) == Merge(Find(base, o.id), Find(candidate, o.id))
  }

  /**
   What the union holds: an id of one side keeps its obligation; an id of both has the candidate's
   wording, the globs of both in order, and the stronger severity.
   */
  lemma UnionIs(effective: seq<Obligation>, candidate: seq<Obligation>, base: seq<Obligation>)
    requires ById(candidate) && ById(base) && IsUnion(effective, candidate, base)
    ensures forall o :: o in effective ==> o.id in Ids(candidate) || o.id in Ids(base)
    ensures forall b :: b in base && b.id !in Ids(candidate) ==> b in effective
    ensures forall c :: c in candidate && c.id !in Ids(base) ==> c in effective
    ensures forall b, c :: b in base && c in candidate && b.id == c.id ==> MergedInto(effective, b, c)
  {
    hide ById, Merge, IsUnion, IsBoth;
    forall o | o in effective
      ensures o.id in Ids(candidate) || o.id in Ids(base)
    {
      UnionIds(effective, candidate, base, o);
    }
    forall b | b in base && b.id !in Ids(candidate)
      ensures b in effective
    {
      var _ := UnionAt(effective, candidate, base, b.id);
      FindUnique(base, b);
      OneSided(b);
    }
    forall c | c in candidate && c.id !in Ids(base)
      ensures c in effective
    {
      var _ := UnionAt(effective, candidate, base, c.id);
      FindUnique(candidate, c);
      OneSided(c);
    }
    forall b, c | b in base && c in candidate && b.id == c.id
      ensures MergedInto(effective, b, c)
    {
      var _ := UnionAt(effective, candidate, base, b.id);
      FindUnique(base, b);
      FindUnique(candidate, c);
      MergeIs(b, c);
    }
  }

  lemma UnionIds(effective: seq<Obligation>, candidate: seq<Obligation>, base: seq<Obligation>, o: Obligation)
    requires IsUnion(effective, candidate, base) && o in effective
    ensures o.id in Ids(candidate) || o.id in Ids(base)
  {
    assert o.id in Ids(effective);
  }

  lemma UnionAt(effective: seq<Obligation>, candidate: seq<Obligation>, base: seq<Obligation>, id: string)
    returns (e: Obligation)
    requires IsUnion(effective, candidate, base) && id in Ids(candidate) + Ids(base)
    ensures e in effective && e.id == id && Some(e) == Merge(Find(base, id), Find(candidate, id))
  {
    assert id in Ids(effective);
    e :| e in effective && e.id == id;
  }

  /** One obligation of the list is the two sides' together. */
  ghost predicate MergedInto(effective: seq<Obligation>, b: Obligation, c: Obligation) {
    exists o :: o in effective && IsBoth(o, b, c)
  }

  ghost predicate IsBoth(o: Obligation, b: Obligation, c: Obligation) {
    && o.id == c.id && o.obligation == c.obligation && o.authority == c.authority && o.source == c.source
    && Ascending(o.globs) && (forall g :: g in o.globs <==> g in b.globs || g in c.globs)
    && (o.severity == b.severity || o.severity == c.severity)
    && NoLower(o.severity, b.severity) && NoLower(o.severity, c.severity)
  }

  lemma OneSided(o: Obligation)
    ensures Merge(Some(o), None) == Some(o) == Merge(None, Some(o))
  {
  }

  lemma MergeIs(b: Obligation, c: Obligation)
    ensures Merge(Some(b), Some(c)).Some? && IsBoth(Merge(Some(b), Some(c)).value, b, c)
  {
    hide Less, NoLower;
    var globs := Elements(b.globs) + Elements(c.globs);
    SortedFacts(globs);
    assert forall g :: g in Sorted(globs) <==> g in Elements(Sorted(globs));
    StrongerIs(b.severity, c.severity);
  }

  function UnionDigest(hash: string -> string, candidate: string, base: string): string {
    DigestOf(hash, JObject(map["effective_policy_of" :=
      JObject(map["candidate" := JString(candidate), "base" := JString(base)])]))
  }

  /** `union_policy`: one merged obligation for every id of either side, in id order. */
  method UnionPolicy(hash: string -> string, candidate: LoadedPolicy, base: LoadedPolicy) returns (r: LoadedPolicy)
    ensures ById(r.obligations)
    ensures IsUnion(r.obligations, candidate.obligations, base.obligations)
    ensures r.digest == UnionDigest(hash, candidate.digest, base.digest)
    ensures r.digest == "sha256:" + hash(Print(JObject(map["effective_policy_of" :=
                          JObject(map["candidate" := JString(candidate.digest), "base" := JString(base.digest)])])))
  {
    hide Merge, MergedFor, IsUnion, ById, Less;
    var ids := Sorted(Ids(base.obligations) + Ids(candidate.obligations));
    SortedFacts(Ids(base.obligations) + Ids(candidate.obligations));
    assert forall id :: id in ids <==> id in Elements(ids);
    var merged: seq<Obligation> := [];
    for k := 0 to |ids|
      invariant |merged| == k
      invariant forall i :: 0 <= i < k ==> MergedFor(merged[i], ids[i], candidate.obligations, base.obligations)
    {
      assert ids[k] in ids;
      MergeAt(ids[k], candidate.obligations, base.obligations);
      var o := Merge(Find(base.obligations, ids[k]), Find(candidate.obligations, ids[k])).value;
      merged := merged + [o];
    }
    r := LoadedPolicy(merged, UnionDigest(hash, candidate.digest, base.digest));
    MergedAll(merged, ids, candidate.obligations, base.obligations);
  }

  lemma MergeAt(id: string, candidate: seq<Obligation>, base: seq<Obligation>)
    requires id in Ids(candidate) + Ids(base)
    ensures var m := Merge(Find(base, id), Find(candidate, id));
            m.Some? && MergedFor(m.value, id, candidate, base)
  {
  }

  ghost predicate MergedFor(o: Obligation, id: string, candidate: seq<Obligation>, base: seq<Obligation>) {
    o.id == id && Some(o) == Merge(Find(base, id), Find(candidate, id))
  }

  lemma MergedAll(merged: seq<Obligation>, ids: seq<string>, candidate: seq<Obligation>, base: seq<Obligation>)
    requires |merged| == |ids| && Ascending(ids) && forall id :: id in ids <==> id in Ids(candidate) + Ids(base)
    requires forall i :: 0 <= i < |ids| ==> MergedFor(merged[i], ids[i], candidate, base)
    ensures ById(merged) && IsUnion(merged, candidate, base)
  {
    forall id | id in ids
      ensures id in Ids(merged)
    {
      var i :| 0 <= i < |ids| && ids[i] == id;
      assert merged[i] in merged;
    }
    forall o | o in merged
      ensures o.id in ids && Some(o) == Merge(Find(base, o.id), Find(candidate, o.id))
    {
      var i :| 0 <= i < |merged| && merged[i] == o;
    }
  }

  // ----- matching -----

  /** Case folding with NFC, and the library's wildcard match. */
  datatype Matcher = Matcher(fold: string -> string, fnmatch: (string, string) -> bool)

  function DropLast(s: string, n: nat): string {
    if |s| <= n then "" else s[..|s| - n]
  }

  predicate GlobMatches(m: Matcher, glob: string, path: string) {
    var foldedGlob, foldedPath := m.fold(glob), m.fold(path);
    if EndsWith(glob, "/**") then
      var prefix := DropLast(foldedGlob, 3);
      foldedPath == prefix || StartsWith(foldedPath, prefix + "/")
    else if '*' in glob || '?' in glob || '[' in glob then m.fnmatch(foldedPath, foldedGlob)
    else foldedPath == foldedGlob
  }

  /** The three kinds of glob: a directory, a wildcard, and a literal path, each compared after folding. */
  lemma GlobKinds(m: Matcher, glob: string, path: string)
    ensures |glob| >= 3 && glob[|glob| - 3..] == "/**" && |m.fold(glob)| >= 3 ==>
              var d := m.fold(glob)[..|m.fold(glob)| - 3];
              (GlobMatches(m, glob, path) <==> m.fold(path) == d || StartsWith(m.fold(path), d + "/"))
    ensures !EndsWith(glob, "/**") && (exists c :: c in glob && (c == '*' || c == '?' || c == '[')) ==>
              (GlobMatches(m, glob, path) <==> m.fnmatch(m.fold(path), m.fold(glob)))
    ensures !EndsWith(glob, "/**") && (forall c :: c in glob ==> c != '*' && c != '?' && c != '[') ==>
              (GlobMatches(m, glob, path) <==> m.fold(path) == m.fold(glob))
  {
    if |m.fold(glob)| == 3 {
      assert m.fold(glob)[..0] == "";
    }
  }

  // `d/**` matches exactly the directory and what lies under it, segment by segment.
  lemma DirectoryGlob(m: Matcher, d: string, path: string)
    requires m.fold(d + "/**") == m.fold(d) + "/**"
    ensures GlobMatches(m, d + "/**", path) <==> Split(m.fold(d), '/') <= Split(m.fold(path), '/')
  {
    var dir, p := m.fold(d), m.fold(path);
    assert EndsWith(d + "/**", "/**");
    assert DropLast(dir + "/**", 3) == dir;
    var ds, ps := Split(dir, '/'), Split(p, '/');
    if StartsWith(p, dir + "/") {
      assert p == dir + ['/'] + p[|dir| + 1..];
      SplitConcat(dir, '/', p[|dir| + 1..]);
    }
    if ds <= ps {
      if |ds| == |ps| {
        SplitInjective(dir, p, '/');
      } else {
        assert ps == ds + ps[|ds|..];
        JoinConcat(ds, ps[|ds|..], "/");
        JoinSplit(dir, '/');
        JoinSplit(p, '/');
      }
    }
  }

  /** Paths alike up to case and composition match alike. */
  lemma FoldedAlike(m: Matcher, glob: string, path: string, other: string)
    requires m.fold(path) == m.fold(other)
    ensures GlobMatches(m, glob, path) <==> GlobMatches(m, glob, other)
  {
  }

  datatype Trigger = Trigger(path: string, globs: seq<string>)

  datatype Fired = Fired(
    id: string, severity: string, authority: string, obligation: string, source: string, triggers: seq<Trigger>)

  function Self(s: string): string { s }

  function PathOf(t: Trigger): string { t.path }

  function FiredId(f: Fired): string { f.id }

  /** `sorted(g for g in globs if ...)`. */
  function Hits(m: Matcher, globs: seq<string>, path: string): seq<string> {
    if globs == [] then []
    else
      var rest := Hits(m, globs[1..], path);
      if GlobMatches(m, globs[0], path) then [globs[0]] + rest else rest
  }

  lemma {:induction false} HitsAre(m: Matcher, globs: seq<string>, path: string, g: string)
    ensures g in SortBy(Self, Hits(m, globs, path)) <==> g in globs && GlobMatches(m, g, path)
    ensures SortBy(Self, Hits(m, globs, path)) == [] <==> Hits(m, globs, path) == []
    ensures g in Hits(m, globs, path) <==> g in globs && GlobMatches(m, g, path)
  {
    if globs != [] {
      HitsAre(m, globs[1..], path, g);
      assert globs == [globs[0]] + globs[1..];
    }
    SortBySame(Self, Hits(m, globs, path), g);
    SortBySorts(Self, Hits(m, globs, path));
    assert |multiset(Hits(m, globs, path))| == |Hits(m, globs, path)|;
    assert |multiset(SortBy(Self, Hits(m, globs, path)))| == |SortBy(Self, Hits(m, globs, path))|;
  }

  /** Some glob of the obligation matches the path. */
  ghost predicate Touches(m: Matcher, o: Obligation, path: string) {
    exists g :: g in o.globs && GlobMatches(m, g, path)
  }

  /** The distinct changed paths that fire nothing. */
  ghost function Untouched(m: Matcher, paths: seq<string>, obligations: seq<Obligation>): set<string> {
    set p | p in paths && forall o :: o in obligations ==> !Touches(m, o, p)
  }

  /** How many of the listed paths the obligation touches, each occurrence counted. */
  ghost function TouchCount(m: Matcher, o: Obligation, paths: seq<string>): nat {
    if paths == [] then 0
    else TouchCount(m, o, paths[..|paths| - 1]) + if Touches(m, o, paths[|paths| - 1]) then 1 else 0
  }

  ghost predicate TouchesAny(m: Matcher, o: Obligation, paths: seq<string>) {
    exists p :: p in paths && Touches(m, o, p)
  }

  /** How many obligations some listed path touches. */
  ghost function FireCount(m: Matcher, obligations: seq<Obligation>, paths: seq<string>): nat {
    if obligations == [] then 0
    else
      var last := |obligations| - 1;
      FireCount(m, obligations[..last], paths) + if TouchesAny(m, obligations[last], paths) then 1 else 0
  }

  method TriggersOf(m: Matcher, paths: seq<string>, o: Obligation) returns (triggers: seq<Trigger>, matched: set<string>)
    ensures matched == set p | p in paths && Touches(m, o, p)
    ensures forall t :: t in triggers ==> t.path in paths && Touches(m, o, t.path) && t.globs == SortBy(Self, Hits(m, o.globs, t.path))
    ensures forall p :: p in paths && Touches(m, o, p) ==> Trigger(p, SortBy(Self, Hits(m, o.globs, p))) in triggers
    ensures InOrder(PathOf, triggers) && |triggers| == TouchCount(m, o, paths)
  {
    hide Touches, Less, Hits;
    triggers, matched := [], {};
    for k := 0 to |paths|
      invariant |triggers| == TouchCount(m, o, paths[..k])
      invariant matched == set p | p in paths[..k] && Touches(m, o, p)
      invariant forall t :: t in triggers ==>
                  t.path in paths && Touches(m, o, t.path) && t.globs == SortBy(Self, Hits(m, o.globs, t.path))
      invariant forall p :: p in paths[..k] && Touches(m, o, p) ==>
                  Trigger(p, SortBy(Self, Hits(m, o.globs, p))) in triggers
    {
      var path := paths[k];
      assert paths[..k + 1] == paths[..k] + [path] && paths[..k + 1][..k] == paths[..k];
      var hit := SortBy(Self, Hits(m, o.globs, path));
      TouchesIffHit(m, o, path);
      if hit != [] {
        assert forall t :: t in triggers + [Trigger(path, hit)] <==> t in triggers || t == Trigger(path, hit);
        triggers := triggers + [Trigger(path, hit)];
        matched := matched + {path};
      }
    }
    assert paths[..|paths|] == paths;
    SortBySorts(PathOf, triggers);
    forall t
      ensures t in SortBy(PathOf, triggers) <==> t in triggers
    {
      SortBySame(PathOf, triggers, t);
    }
    assert |SortBy(PathOf, triggers)| == |multiset(triggers)|;
    triggers := SortBy(PathOf, triggers);
  }

  lemma TouchesIffHit(m: Matcher, o: Obligation, path: string)
    ensures SortBy(Self, Hits(m, o.globs, path)) != [] <==> Touches(m, o, path)
  {
    if Touches(m, o, path) {
      var g :| g in o.globs && GlobMatches(m, g, path);
      HitsAre(m, o.globs, path, g);
    } else if SortBy(Self, Hits(m, o.globs, path)) != [] {
      HitsAre(m, o.globs, path, SortBy(Self, Hits(m, o.globs, path))[0]);
    }
  }

  /** What the fired list says about one obligation. */
  ghost predicate Reports(m: Matcher, f: Fired, o: Obligation, paths: seq<string>) {
    && f.id == o.id && f.severity == o.severity && f.authority == o.authority
    && f.obligation == o.obligation && f.source == o.source
    && f.triggers != [] && InOrder(PathOf, f.triggers) && |f.triggers| == TouchCount(m, o, paths)
    && (forall t :: t in f.triggers ==>
          t.path in paths && Touches(m, o, t.path) && forall g :: g in t.globs <==> g in o.globs && GlobMatches(m, g, t.path))
    && forall p :: p in paths && Touches(m, o, p) ==> exists t :: t in f.triggers && t.path == p
  }

  /** The fired list is exactly what these obligations fire: each obligation some changed path touches. */
  ghost predicate FiresAlone(m: Matcher, paths: seq<string>, obligations: seq<Obligation>, fired: seq<Fired>) {
    && (forall f :: f in fired ==> exists o :: o in obligations && Reports(m, f, o, paths))
    && (forall o :: o in obligations && TouchesAny(m, o, paths) ==> exists f :: f in fired && Reports(m, f, o, paths))
    && |fired| == FireCount(m, obligations, paths)
  }

  lemma FireNext(m: Matcher, paths: seq<string>, obligations: seq<Obligation>, k: nat, fired: seq<Fired>, f: Fired)
    requires k < |obligations| && FiresAlone(m, paths, obligations[..k], fired)
    requires Reports(m, f, obligations[k], paths) && TouchesAny(m, obligations[k], paths)
    ensures FiresAlone(m, paths, obligations[..k + 1], fired + [f])
  {
    hide Reports, TouchesAny;
    assert obligations[..k + 1] == obligations[..k] + [obligations[k]];
    assert obligations[..k + 1][..k] == obligations[..k];
    assert forall g :: g in fired + [f] <==> g in fired || g == f;
  }

  lemma FireSkip(m: Matcher, paths: seq<string>, obligations: seq<Obligation>, k: nat, fired: seq<Fired>)
    requires k < |obligations| && FiresAlone(m, paths, obligations[..k], fired)
    requires !TouchesAny(m, obligations[k], paths)
    ensures FiresAlone(m, paths, obligations[..k + 1], fired)
  {
    hide Reports, TouchesAny;
    assert obligations[..k + 1] == obligations[..k] + [obligations[k]];
    assert obligations[..k + 1][..k] == obligations[..k];
  }

  lemma FireSorted(m: Matcher, paths: seq<string>, obligations: seq<Obligation>, fired: seq<Fired>)
    requires FiresAlone(m, paths, obligations, fired)
    ensures FiresAlone(m, paths, obligations, SortBy(FiredId, fired)) && InOrder(FiredId, SortBy(FiredId, fired))
  {
    hide Reports, TouchesAny, SortBy, Less;
    SortBySorts(FiredId, fired);
    forall f
      ensures f in SortBy(FiredId, fired) <==> f in fired
    {
      SortBySame(FiredId, fired, f);
    }
    assert |SortBy(FiredId, fired)| == |multiset(fired)|;
  }

  lemma {:induction false} TouchedSome(m: Matcher, o: Obligation, paths: seq<string>)
    ensures TouchCount(m, o, paths) > 0 <==> TouchesAny(m, o, paths)
  {
    hide Touches;
    if paths != [] {
      var last := |paths| - 1;
      TouchedSome(m, o, paths[..last]);
      assert paths == paths[..last] + [paths[last]];
    }
  }

  /** The paths the first `k` obligations touch. */
  ghost predicate MatchedBy(m: Matcher, paths: seq<string>, obligations: seq<Obligation>, k: nat, matched: set<string>)
    requires k <= |obligations|
  {
    matched == set p | p in paths && exists o :: o in obligations[..k] && Touches(m, o, p)
  }

  lemma MatchedNext(m: Matcher, paths: seq<string>, obligations: seq<Obligation>, k: nat,
                    matched: set<string>, touched: set<string>)
    requires k < |obligations| && MatchedBy(m, paths, obligations, k, matched)
    requires touched == set p | p in paths && Touches(m, obligations[k], p)
    ensures MatchedBy(m, paths, obligations, k + 1, matched + touched)
  {
    hide Touches;
    assert obligations[..k + 1] == obligations[..k] + [obligations[k]];
  }

  /** `match_obligations`: exactly the obligations some changed path touches, each with exactly its matches. */
  method MatchObligations(m: Matcher, paths: seq<string>, obligations: seq<Obligation>)
    returns (fired: seq<Fired>, unmatched: nat)
    ensures FiresAlone(m, paths, obligations, fired)
    ensures InOrder(FiredId, fired)
    ensures forall f :: f in fired ==> exists o :: o in obligations && Fired(o.id, o.severity, o.authority, o.obligation, o.source, f.triggers) == f
    ensures unmatched == |Untouched(m, paths, obligations)|
    ensures unmatched == |(set p | p in paths && forall o, g :: o in obligations && g in o.globs ==> !GlobMatches(m, g, p))|
  {
    hide FiresAlone, MatchedBy, Touches, TouchesAny, Reports, Untouched, Less;
    fired := [];
    var matched: set<string> := {};
    NothingYet(m, paths, obligations);
    for k := 0 to |obligations|
      invariant MatchedBy(m, paths, obligations, k, matched)
      invariant FiresAlone(m, paths, obligations[..k], fired)
    {
      var o := obligations[k];
      var triggers, touched := TriggersOf(m, paths, o);
      MatchedNext(m, paths, obligations, k, matched, touched);
      TouchedSome(m, o, paths);
      matched := matched + touched;
      if triggers != [] {
        var f := Fired(o.id, o.severity, o.authority, o.obligation, o.source, triggers);
        ReportsOne(m, f, o, paths);
        FireNext(m, paths, obligations, k, fired, f);
        fired := fired + [f];
      } else {
        FireSkip(m, paths, obligations, k, fired);
      }
    }
    assert obligations[..|obligations|] == obligations;
    FireSorted(m, paths, obligations, fired);
    fired := SortBy(FiredId, fired);
    CountUnmatched(m, paths, obligations, matched);
    FiredFields(m, paths, obligations, fired);
    UntouchedAre(m, paths, obligations);
    unmatched := |Elements(paths)| - |matched|;
  }

  lemma FiredFields(m: Matcher, paths: seq<string>, obligations: seq<Obligation>, fired: seq<Fired>)
    requires FiresAlone(m, paths, obligations, fired)
    ensures forall f :: f in fired ==>
              exists o :: o in obligations && Fired(o.id, o.severity, o.authority, o.obligation, o.source, f.triggers) == f
  {
    forall f | f in fired
      ensures exists o :: o in obligations && Fired(o.id, o.severity, o.authority, o.obligation, o.source, f.triggers) == f
    {
      var o :| o in obligations && Reports(m, f, o, paths);
    }
  }

  lemma UntouchedAre(m: Matcher, paths: seq<string>, obligations: seq<Obligation>)
    ensures Untouched(m, paths, obligations) ==
            (set p | p in paths && forall o, g :: o in obligations && g in o.globs ==> !GlobMatches(m, g, p))
  {
    hide GlobMatches;
  }

  lemma NothingYet(m: Matcher, paths: seq<string>, obligations: seq<Obligation>)
    ensures MatchedBy(m, paths, obligations, 0, {}) && FiresAlone(m, paths, obligations[..0], [])
  {
  }

  lemma ReportsOne(m: Matcher, f: Fired, o: Obligation, paths: seq<string>)
    requires f == Fired(o.id, o.severity, o.authority, o.obligation, o.source, f.triggers) && f.triggers != []
    requires InOrder(PathOf, f.triggers) && |f.triggers| == TouchCount(m, o, paths)
    requires forall t :: t in f.triggers ==>
               t.path in paths && Touches(m, o, t.path) && t.globs == SortBy(Self, Hits(m, o.globs, t.path))
    requires forall p :: p in paths && Touches(m, o, p) ==> Trigger(p, SortBy(Self, Hits(m, o.globs, p))) in f.triggers
    ensures Reports(m, f, o, paths)
  {
    forall t, g | t in f.triggers
      ensures g in t.globs <==> g in o.globs && GlobMatches(m, g, t.path)
    {
      HitsAre(m, o.globs, t.path, g);
    }
    forall p | p in paths && Touches(m, o, p)
      ensures exists t :: t in f.triggers && t.path == p
    {
      assert Trigger(p, SortBy(Self, Hits(m, o.globs, p))).path == p;
    }
  }

  lemma CountUnmatched(m: Matcher, paths: seq<string>, obligations: seq<Obligation>, matched: set<string>)
    requires MatchedBy(m, paths, obligations, |obligations|, matched)
    ensures matched <= Elements(paths)
    ensures |Elements(paths)| - |matched| == |Untouched(m, paths, obligations)|
  {
    hide Touches;
    var rest := Untouched(m, paths, obligations);
    assert obligations[..|obligations|] == obligations;
    assert Elements(paths) == matched + rest && matched !! rest;
  }

  // ----- no weakening -----

  /** `f'` obliges at least what `f` does: same id, no weaker severity, every trigger and glob of `f`. */
  ghost predicate AtLeast(f': Fired, f: Fired) {
    && f'.id == f.id && NoLower(f'.severity, f.severity)
    && forall t :: t in f.triggers ==>
         exists t' :: t' in f'.triggers && t'.path == t.path && forall g :: g in t.globs ==> g in t'.globs
  }

  lemma {:induction false} FindUnique(obligations: seq<Obligation>, o: Obligation)
    requires ById(obligations) && o in obligations
    ensures Find(obligations, o.id) == Some(o)
  {
    var found := Find(obligations, o.id).value;
    var i, j :| 0 <= i < |obligations| && obligations[i] == o && 0 <= j < |obligations| && obligations[j] == found;
    LessTrichotomy(o.id, o.id);
  }

  /** The merged obligation keeps every glob of both sides, and the stronger severity. */
  lemma MergeKeeps(b: Option<Obligation>, c: Option<Obligation>, o: Obligation)
    requires b == Some(o) || c == Some(o)
    ensures Merge(b, c).Some? && NoLower(Merge(b, c).value.severity, o.severity)
    ensures forall g :: g in o.globs ==> g in Merge(b, c).value.globs
  {
    if b.Some? && c.Some? {
      var globs := Elements(b.value.globs) + Elements(c.value.globs);
      SortedFacts(globs);
      forall g | g in o.globs
        ensures g in Sorted(globs)
      {
        assert g in Elements(Sorted(globs));
      }
    }
  }

  ghost predicate AllAtLeast(fired: seq<Fired>, alone: seq<Fired>) {
    forall f :: f in alone ==> exists f' :: f' in fired && AtLeast(f', f)
  }

  /** Each obligation of either policy has a stronger one in the union. */
  lemma UnionCovers(effective: seq<Obligation>, candidate: seq<Obligation>, base: seq<Obligation>, o: Obligation)
    returns (merged: Obligation)
    requires ById(candidate) && ById(base) && IsUnion(effective, candidate, base)
    requires o in base || o in candidate
    ensures merged in effective && Stronger(merged, o)
  {
    assert o.id in Ids(effective);
    merged :| merged in effective && merged.id == o.id;
    if o in base { FindUnique(base, o); } else { FindUnique(candidate, o); }
    MergeKeeps(Find(base, o.id), Find(candidate, o.id), o);
  }

  ghost predicate Stronger(o': Obligation, o: Obligation) {
    o'.id == o.id && NoLower(o'.severity, o.severity) && forall g :: g in o.globs ==> g in o'.globs
  }

  /** A stronger obligation is fired whenever the weaker one is, and reports at least as much. */
  lemma StrongerFires(m: Matcher, paths: seq<string>, effective: seq<Obligation>, fired: seq<Fired>,
                      o: Obligation, o': Obligation, f: Fired)
    requires o' in effective && Stronger(o', o) && Reports(m, f, o, paths)
    requires FiresAlone(m, paths, effective, fired)
    ensures exists f' :: f' in fired && AtLeast(f', f)
  {
    forall p | Touches(m, o, p)
      ensures Touches(m, o', p)
    {
      var g :| g in o.globs && GlobMatches(m, g, p);
    }
    assert f.triggers[0] in f.triggers && Touches(m, o', f.triggers[0].path);
    var f' :| f' in fired && Reports(m, f', o', paths);
    assert AtLeast(f', f);
  }

  /**
   No weakening: whatever either policy fires on its own, the union fires too, with at least the
   same trigger paths and globs and no lower severity.
   */
  lemma UnionNeverWeakens(m: Matcher, paths: seq<string>, effective: seq<Obligation>, candidate: seq<Obligation>,
                          base: seq<Obligation>, alone: seq<Obligation>, firedAlone: seq<Fired>, firedUnion: seq<Fired>)
    requires ById(candidate) && ById(base) && IsUnion(effective, candidate, base)
    requires alone == base || alone == candidate
    requires FiresAlone(m, paths, alone, firedAlone) && FiresAlone(m, paths, effective, firedUnion)
    ensures AllAtLeast(firedUnion, firedAlone)
  {
    forall f | f in firedAlone
      ensures exists f' :: f' in firedUnion && AtLeast(f', f)
    {
      var o :| o in alone && Reports(m, f, o, paths);
      var merged := UnionCovers(effective, candidate, base, o);
      StrongerFires(m, paths, effective, firedUnion, o, merged, f);
    }
  }

  predicate Parses(raw: Json) {
    Entries(raw).Some? && Admissible(Entries(raw).value)
  }

  ghost predicate IsParse(obligations: seq<Obligation>, raw: Json) {
    && ById(obligations) && Entries(raw).Some?
    && forall o :: o in obligations <==>
         exists i :: 0 <= i < |Entries(raw).value| && ParseEntry(Entries(raw).value[i]) == Some(o)
  }

  /** `load_effective_policy`: the union with the trusted base when that parses, the candidate alone otherwise. */
  method LoadEffectivePolicy(hash: string -> string, candidateRaw: Json, candidateDigest: string,
                             baseRaw: Option<Json>, baseDigest: string)
    returns (r: Option<(LoadedPolicy, bool)>, ghost candidate: seq<Obligation>, ghost base: seq<Obligation>)
    ensures r.Some? <==> Parses(candidateRaw)
    ensures r.Some? ==>
              && IsParse(candidate, candidateRaw)
              && (r.value.1 <==> baseRaw.Some? && Parses(baseRaw.value))
              && (!r.value.1 ==> r.value.0 == LoadedPolicy(candidate, candidateDigest))
              && (r.value.1 ==>
                    r.value.0.digest == UnionDigest(hash, candidateDigest, baseDigest) &&
                    IsParse(base, baseRaw.value) && ById(r.value.0.obligations) &&
                    IsUnion(r.value.0.obligations, candidate, base))
  {
    candidate, base := [], [];
    var parsed := ParsePolicy(candidateRaw);
    if parsed.None? {
      return None, candidate, base;
    }
    candidate := parsed.value;
    var trusted := None;
    if baseRaw.Some? {
      trusted := ParsePolicy(baseRaw.value);
    }
    if trusted.None? {
      return Some((LoadedPolicy(parsed.value, candidateDigest), false)), candidate, base;
    }
    base := trusted.value;
    var policy := UnionPolicy(hash, LoadedPolicy(parsed.value, candidateDigest), LoadedPolicy(trusted.value, baseDigest));
    r := Some((policy, true));
  }

  /**
   From parse to fired list. Whatever bundle the candidate ships, everything the parsed trusted base
   fires on its own is in the fired list, and everything the candidate fires on its own survives.
   */
  method AssessImpact(hash: string -> string, m: Matcher, paths: seq<string>, candidateRaw: Json,
                      candidateDigest: string, baseRaw: Option<Json>, baseDigest: string)
    returns (r: Option<(seq<Fired>, nat, bool)>, ghost candidate: seq<Obligation>, ghost base: seq<Obligation>)
    ensures r.Some? <==> Parses(candidateRaw)
    ensures r.Some? ==> (r.value.2 <==> baseRaw.Some? && Parses(baseRaw.value)) && IsParse(candidate, candidateRaw)
    ensures r.Some? ==> exists effective ::
              && (if r.value.2 then IsParse(base, baseRaw.value) && IsUnion(effective, candidate, base) else effective == candidate)
              && FiresAlone(m, paths, effective, r.value.0) && r.value.1 == |Untouched(m, paths, effective)|
    ensures r.Some? ==> InOrder(FiredId, r.value.0)
    ensures r.Some? ==> forall alone :: FiresAlone(m, paths, candidate, alone) ==> AllAtLeast(r.value.0, alone)
    ensures r.Some? && r.value.2 ==>
              && IsParse(base, baseRaw.value)
              && forall alone :: FiresAlone(m, paths, base, alone) ==> AllAtLeast(r.value.0, alone)
    ensures r.Some? ==> forall f :: f in r.value.0 ==> f.severity in {"info", "advisory", "blocking"}
    ensures r.Some? ==> forall alone :: FiresAlone(m, paths, candidate, alone) ==> GateStands(r.value.0, alone)
    ensures r.Some? && r.value.2 ==> forall alone :: FiresAlone(m, paths, base, alone) ==> GateStands(r.value.0, alone)
  {
    var policy;
    policy, candidate, base := LoadEffectivePolicy(hash, candidateRaw, candidateDigest, baseRaw, baseDigest);
    if policy.None? {
      return None, candidate, base;
    }
    var effective := policy.value.0.obligations;
    var fired, unmatched := MatchObligations(m, paths, effective);
    r := Some((fired, unmatched, policy.value.1));
    ParsedSeverities(candidate, candidateRaw);
    if policy.value.1 {
      ParsedSeverities(base, baseRaw.value);
      UnionSeverities(effective, candidate, base);
    }
    hide FiresAlone, IsParse, IsUnion, NoLower, ById, AllAtLeast;
    forall alone | FiresAlone(m, paths, candidate, alone)
      ensures AllAtLeast(fired, alone)
    {
      if policy.value.1 {
        UnionNeverWeakens(m, paths, effective, candidate, base, candidate, alone, fired);
      } else {
        CandidateStands(m, paths, candidate, alone, fired);
      }
    }
    forall alone | policy.value.1 && FiresAlone(m, paths, base, alone)
      ensures AllAtLeast(fired, alone)
    {
      UnionNeverWeakens(m, paths, effective, candidate, base, base, alone, fired);
    }
    forall alone | AllAtLeast(fired, alone)
      ensures GateStands(fired, alone)
    {
      GateStays(fired, alone);
    }
  }

  lemma ParsedSeverities(obligations: seq<Obligation>, raw: Json)
    requires IsParse(obligations, raw)
    ensures forall o :: o in obligations ==> o.severity in {"info", "advisory", "blocking"}
  {
    forall o | o in obligations
      ensures o.severity in {"info", "advisory", "blocking"}
    {
      var i :| 0 <= i < |Entries(raw).value| && ParseEntry(Entries(raw).value[i]) == Some(o);
      EntryIff(Entries(raw).value[i], o);
    }
  }

  lemma UnionSeverities(effective: seq<Obligation>, candidate: seq<Obligation>, base: seq<Obligation>)
    requires IsUnion(effective, candidate, base)
    requires forall o :: o in candidate || o in base ==> o.severity in {"info", "advisory", "blocking"}
    ensures forall o :: o in effective ==> o.severity in {"info", "advisory", "blocking"}
  {
    forall o | o in effective
      ensures o.severity in {"info", "advisory", "blocking"}
    {
      var b, c := Find(base, o.id), Find(candidate, o.id);
      if b.Some? && c.Some? {
        StrongerIs(b.value.severity, c.value.severity);
      }
    }
  }

  /** What blocks alone blocks here, and what advises alone advises or blocks. */
  ghost predicate GateStands(fired: seq<Fired>, alone: seq<Fired>) {
    && (forall f :: f in alone && f.severity == "blocking" ==>
          exists f' :: f' in fired && f'.id == f.id && f'.severity == "blocking")
    && (forall f :: f in alone && f.severity == "advisory" ==>
          exists f' :: f' in fired && f'.id == f.id && (f'.severity == "advisory" || f'.severity == "blocking"))
  }

  lemma GateStays(fired: seq<Fired>, alone: seq<Fired>)
    requires AllAtLeast(fired, alone)
    requires forall f' :: f' in fired ==> f'.severity in {"info", "advisory", "blocking"}
    ensures GateStands(fired, alone)
  {
    forall f | f in alone
      ensures exists f' :: f' in fired && f'.id == f.id && NoLower(f'.severity, f.severity)
    {
      var f' :| f' in fired && AtLeast(f', f);
    }
  }

  // ----- case variants -----

  /** The same paths up to case and composition, one by one. */
  predicate Variants(m: Matcher, paths: seq<string>, variants: seq<string>) {
    |paths| == |variants| && forall i :: 0 <= i < |paths| ==> m.fold(paths[i]) == m.fold(variants[i])
  }

  lemma TouchesVariant(m: Matcher, o: Obligation, path: string, other: string)
    requires m.fold(path) == m.fold(other)
    ensures Touches(m, o, path) <==> Touches(m, o, other)
  {
    forall g
      ensures GlobMatches(m, g, path) <==> GlobMatches(m, g, other)
    {
      FoldedAlike(m, g, path, other);
    }
  }

  lemma {:induction false} TouchesVariants(m: Matcher, o: Obligation, paths: seq<string>, variants: seq<string>)
    requires Variants(m, paths, variants)
    ensures TouchCount(m, o, paths) == TouchCount(m, o, variants)
    ensures TouchesAny(m, o, paths) <==> TouchesAny(m, o, variants)
  {
    hide Touches;
    if paths != [] {
      var last := |paths| - 1;
      TouchesVariants(m, o, paths[..last], variants[..last]);
      TouchesVariant(m, o, paths[last], variants[last]);
    }
    TouchedSome(m, o, paths);
    TouchedSome(m, o, variants);
  }

  lemma {:induction false} FireCountVariants(m: Matcher, obligations: seq<Obligation>, paths: seq<string>, variants: seq<string>)
    requires Variants(m, paths, variants)
    ensures FireCount(m, obligations, paths) == FireCount(m, obligations, variants)
  {
    hide TouchesAny;
    if obligations != [] {
      var last := |obligations| - 1;
      FireCountVariants(m, obligations[..last], paths, variants);
      TouchesVariants(m, obligations[last], paths, variants);
    }
  }

  ghost predicate FiredAlike(f: Fired, g: Fired) {
    g == f.(triggers := g.triggers) && |g.triggers| == |f.triggers|
  }

  /**
   A change cannot dodge an obligation by its spelling: paths that differ only in case or composition
   fire the same obligations, each with as many triggers.
   */
  lemma CaseVariantsFireAlike(m: Matcher, obligations: seq<Obligation>, paths: seq<string>, variants: seq<string>,
                              fired: seq<Fired>, firedVariants: seq<Fired>)
    requires Variants(m, paths, variants)
    requires FiresAlone(m, paths, obligations, fired) && FiresAlone(m, variants, obligations, firedVariants)
    ensures |fired| == |firedVariants|
    ensures forall f :: f in fired ==> exists g :: g in firedVariants && FiredAlike(f, g)
  {
    FireCountVariants(m, obligations, paths, variants);
    hide TouchesAny, TouchCount, Touches;
    forall f | f in fired
      ensures exists g :: g in firedVariants && FiredAlike(f, g)
    {
      var o :| o in obligations && Reports(m, f, o, paths);
      TouchedSome(m, o, paths);
      TouchesVariants(m, o, paths, variants);
      var g :| g in firedVariants && Reports(m, g, o, variants);
      assert FiredAlike(f, g);
    }
  }

  lemma CandidateStands(m: Matcher, paths: seq<string>, candidate: seq<Obligation>, alone: seq<Fired>, fired: seq<Fired>)
    requires FiresAlone(m, paths, candidate, alone) && FiresAlone(m, paths, candidate, fired)
    ensures AllAtLeast(fired, alone)
  {
    forall f | f in alone
      ensures exists f' :: f' in fired && AtLeast(f', f)
    {
      var o :| o in candidate && Reports(m, f, o, paths);
      assert Stronger(o, o);
      StrongerFires(m, paths, candidate, fired, o, o, f);
    }
  }
}
