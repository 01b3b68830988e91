/**
 The comparison of a base and a candidate view, and what an empty impact set proves.
 */
module ReachabilityImpact {
  import opened Wrappers
  import opened Strings
  import opened ImportClosure
  import opened ImportGraph
  import opened WorkerReachability

  // ----- two views -----

  ghost predicate DifferOnlyAt(b: View, c: View, changed: set<string>) {
    forall p :: p !in changed ==> (p in b <==> p in c) && (p in b ==> b[p] == c[p])
  }

  ghost function Impacting(cfg: Config, roots: seq<string>, b: View, c: View, changed: set<string>): set<string>
    requires RootsAreModules(cfg, roots)
  {
    changed * (Reach(cfg, roots, b) + Reach(cfg, roots, c))
  }

  /** A root spelled the way its own module name resolves: `a/b.py`, or `a/b/__init__.py` for a package. */
  predicate WellFormedRoot(cfg: Config, root: string) {
    match PathToModule(cfg, root)
    case None => false
    case Some((name, isPackage)) =>
      if isPackage then InitPath(cfg, name) == root && PathToModule(cfg, PlainPath(cfg, name)) == Some((name, false))
      else PlainPath(cfg, name) == root
  }

  predicate WellFormedRoots(cfg: Config, roots: seq<string>) {
    RootsAreModules(cfg, roots) && forall r :: r in roots ==> WellFormedRoot(cfg, r)
  }

  /** A changed package root `x/__init__.py` has its shadowing twin `x.py` watched as well. */
  predicate TwinsWatched(cfg: Config, roots: seq<string>, changed: set<string>)
    requires RootsAreModules(cfg, roots)
  {
    forall r :: r in roots && r in changed && PathToModule(cfg, r).value.1 ==>
      PlainPath(cfg, PathToModule(cfg, r).value.0) in changed ||
      PlainPath(cfg, PathToModule(cfg, r).value.0) in roots
  }

  ghost predicate Untouched(paths: set<string>, changed: set<string>) {
    forall p :: p in paths ==> p !in changed
  }

  lemma ResolvesAlike(cfg: Config, b: View, c: View, changed: set<string>, n: string)
    requires DifferOnlyAt(b, c, changed)
    requires ModuleToPath(cfg, n, b).Some? ==> ModuleToPath(cfg, n, b).value.0 !in changed
    requires ModuleToPath(cfg, n, c).Some? ==> ModuleToPath(cfg, n, c).value.0 !in changed
    ensures ModuleToPath(cfg, n, b) == ModuleToPath(cfg, n, c)
  {
  }

  /** A name that drags only unchanged files in both views drags the same files. */
  lemma SameDrags(cfg: Config, b: View, c: View, changed: set<string>, name: string)
    requires DifferOnlyAt(b, c, changed)
    requires Untouched(Drags(cfg, b, name), changed) && Untouched(Drags(cfg, c, name), changed)
    ensures Drags(cfg, b, name) == Drags(cfg, c, name)
  {
    forall n | n in ModuleAndAncestors(name)
      ensures ModuleToPath(cfg, n, b) == ModuleToPath(cfg, n, c)
    {
      var inBase, inCand := ModuleToPath(cfg, n, b), ModuleToPath(cfg, n, c);
      assert inBase.Some? ==> inBase.value.0 in Drags(cfg, b, name);
      assert inCand.Some? ==> inCand.value.0 in Drags(cfg, c, name);
      ResolvesAlike(cfg, b, c, changed, n);
    }
  }

  /** What a root present in one view imports is demanded in the other view too. */
  lemma RootDemanded(cfg: Config, roots: seq<string>, b: View, c: View, changed: set<string>, r: string)
    requires WellFormedRoots(cfg, roots) && TwinsWatched(cfg, roots, changed)
    requires DifferOnlyAt(b, c, changed)
    requires r in roots && r in b && Untouched(Drags(cfg, b, PathToModule(cfg, r).value.0), changed)
    ensures PathToModule(cfg, r).value.0 in RootNames(cfg, roots, c)
  {
    var name := PathToModule(cfg, r).value.0;
    if r !in c {
      var resolved := ModuleToPath(cfg, name, b);
      SelfIsFirst(name);
      assert resolved.Some?;
      assert resolved.value.0 in Drags(cfg, b, name);
      assert PlainPath(cfg, name) in roots && PlainPath(cfg, name) in c;
    }
  }

  lemma ReachContains(cfg: Config, roots: seq<string>, v: View)
    requires RootsAreModules(cfg, roots)
    ensures forall n :: n in RootNames(cfg, roots, v) ==> Drags(cfg, v, n) <= Reach(cfg, roots, v)
    ensures forall p, t :: p in Reach(cfg, roots, v) && t in PathTargets(cfg, v, p) ==>
              Drags(cfg, v, t) <= Reach(cfg, roots, v)
  {
    ReachIsLeast(cfg, roots, v);
    forall p, t | p in Reach(cfg, roots, v) && t in PathTargets(cfg, v, p)
      ensures Drags(cfg, v, t) <= Reach(cfg, roots, v)
    {
      DragsAllSplit(cfg, v, PathTargets(cfg, v, p));
    }
  }

  lemma ReachStays(cfg: Config, roots: seq<string>, b: View, c: View, changed: set<string>)
    requires WellFormedRoots(cfg, roots) && TwinsWatched(cfg, roots, changed)
    requires DifferOnlyAt(b, c, changed)
    requires Untouched(Reach(cfg, roots, b), changed) && Untouched(Reach(cfg, roots, c), changed)
    ensures Reach(cfg, roots, b) <= Reach(cfg, roots, c)
  {
    ReachContains(cfg, roots, b);
    ReachContains(cfg, roots, c);
    var both := Reach(cfg, roots, b) * Reach(cfg, roots, c);
    forall r | r in roots && r in b
      ensures Drags(cfg, b, PathToModule(cfg, r).value.0) <= both
    {
      var name := PathToModule(cfg, r).value.0;
      assert name in RootNames(cfg, roots, b);
      RootDemanded(cfg, roots, b, c, changed, r);
      SameDrags(cfg, b, c, changed, name);
    }
    forall p, t | p in both && t in PathTargets(cfg, b, p)
      ensures Drags(cfg, b, t) <= both
    {
      assert PathTargets(cfg, b, p) == PathTargets(cfg, c, p) by {
        assert p !in changed;
      }
      SameDrags(cfg, b, c, changed, t);
    }
    BothClosed(cfg, roots, b, both);
    ReachIsLeast(cfg, roots, b);
  }

  lemma BothClosed(cfg: Config, roots: seq<string>, v: View, t: set<string>)
    requires RootsAreModules(cfg, roots) && t <= v.Keys
    requires forall r :: r in roots && r in v ==> Drags(cfg, v, PathToModule(cfg, r).value.0) <= t
    requires forall p, n :: p in t && n in PathTargets(cfg, v, p) ==> Drags(cfg, v, n) <= t
    ensures Closed(cfg, roots, v, t)
  {
    forall p | p in t
      ensures DragsAll(cfg, v, PathTargets(cfg, v, p)) <= t
    {
      DragsAllSplit(cfg, v, PathTargets(cfg, v, p));
    }
  }

  lemma ApartFromBoth(changed: set<string>, a: set<string>, b: set<string>)
    requires changed * (a + b) == {}
    ensures Untouched(a, changed) && Untouched(b, changed)
  {
    forall p | p in a + b
      ensures p !in changed
    {
      assert p in changed ==> p in changed * (a + b);
    }
  }

  /** Impact completeness: no changed file is reachable on either side, so the sides reach the same files. */
  lemma ImpactComplete(cfg: Config, roots: seq<string>, b: View, c: View, changed: set<string>)
    requires WellFormedRoots(cfg, roots) && TwinsWatched(cfg, roots, changed)
    requires DifferOnlyAt(b, c, changed) && Impacting(cfg, roots, b, c, changed) == {}
    ensures Reach(cfg, roots, b) == Reach(cfg, roots, c)
  {
    ApartFromBoth(changed, Reach(cfg, roots, b), Reach(cfg, roots, c));
    ReachStays(cfg, roots, b, c, changed);
    ReachStays(cfg, roots, c, b, changed);
  }

  ghost predicate MissesNothing(cfg: Config, roots: seq<string>, b: View, c: View, changed: set<string>)
    requires RootsAreModules(cfg, roots)
  {
    DifferOnlyAt(b, c, changed) && Impacting(cfg, roots, b, c, changed) == {} ==>
      Reach(cfg, roots, b) == Reach(cfg, roots, c)
  }

  lemma PathLengths(cfg: Config, name: string)
    ensures |PlainPath(cfg, name)| == |cfg.Prefix()| + |name| + 3
    ensures |InitPath(cfg, name)| == |cfg.Prefix()| + |name| + 12
  {
  }

  /** In the view holding just a plain module and the package it shadows, the name drags the module alone. */
  lemma TwinDrags(cfg: Config, v: View, name: string)
    requires v.Keys == {PlainPath(cfg, name), InitPath(cfg, name)}
    ensures Drags(cfg, v, name) == {PlainPath(cfg, name)}
  {
    PathLengths(cfg, name);
    SelfIsFirst(name);
    forall n | n in ModuleAndAncestors(name)
      ensures ModuleToPath(cfg, n, v).Some? ==> ModuleToPath(cfg, n, v).value.0 == PlainPath(cfg, name)
    {
      AncestorShorter(name, n);
      PathLengths(cfg, n);
    }
    assert ModuleToPath(cfg, name, v) == Some((PlainPath(cfg, name), false));
    assert ModuleToPath(cfg, name, v).value.0 in Drags(cfg, v, name);
  }

  lemma TwinReach(cfg: Config, roots: seq<string>, c: View, name: string)
    requires RootsAreModules(cfg, roots)
    requires PlainPath(cfg, name) !in roots && InitPath(cfg, name) in roots
    requires PathToModule(cfg, InitPath(cfg, name)) == Some((name, true))
    requires c.Keys == {PlainPath(cfg, name), InitPath(cfg, name)}
    requires c[PlainPath(cfg, name)] == Parsed([])
    ensures Reach(cfg, roots, c) == {PlainPath(cfg, name)}
  {
    var twin := PlainPath(cfg, name);
    TwinDrags(cfg, c, name);
    assert PathTargets(cfg, c, twin) == {};
    BothClosed(cfg, roots, c, {twin});
    ReachIsLeast(cfg, roots, c);
    ReachContains(cfg, roots, c);
    assert name in RootNames(cfg, roots, c) by {
      assert InitPath(cfg, name) in roots && InitPath(cfg, name) in c;
    }
  }

  lemma NoRootNoReach(cfg: Config, roots: seq<string>, v: View)
    requires RootsAreModules(cfg, roots)
    requires forall r :: r in roots ==> r !in v
    ensures Reach(cfg, roots, v) == {}
  {
    BothClosed(cfg, roots, v, {});
    ReachIsLeast(cfg, roots, v);
  }

  /** An unwatched twin: adding the package file starts a walk that lands on the unchanged plain module. */
  lemma UnwatchedTwinMissed(cfg: Config, roots: seq<string>, changed: set<string>, r: string)
    requires WellFormedRoots(cfg, roots)
    requires r in roots && r in changed && PathToModule(cfg, r).value.1
    requires PlainPath(cfg, PathToModule(cfg, r).value.0) !in changed
    requires PlainPath(cfg, PathToModule(cfg, r).value.0) !in roots
    ensures exists b, c :: !MissesNothing(cfg, roots, b, c, changed)
  {
    var name := PathToModule(cfg, r).value.0;
    var twin := PlainPath(cfg, name);
    assert InitPath(cfg, name) == r && WellFormedRoot(cfg, r);
    hide Reach, PlainPath, InitPath, PathToModule, WellFormedRoot;
    var b: View, c: View := map[twin := Parsed([])], map[twin := Parsed([]), r := Parsed([])];
    TwinReach(cfg, roots, c, name);
    NoRootNoReach(cfg, roots, b);
    assert twin in Reach(cfg, roots, c);
    assert DifferOnlyAt(b, c, changed);
    assert !MissesNothing(cfg, roots, b, c, changed);
  }

  lemma {:induction false} JoinPrefixShorter(parts: seq<string>, k: nat)
    requires 1 <= k <= |parts|
    ensures |Join(parts[..k], ".")| <= |Join(parts, ".")|
    ensures k < |parts| ==> |Join(parts[..k], ".")| < |Join(parts, ".")|
  {
    if k == |parts| {
      assert parts[..k] == parts;
    } else {
      assert parts == parts[..k] + parts[k..];
      JoinConcat(parts[..k], parts[k..], ".");
    }
  }

  lemma AncestorShorter(name: string, n: string)
    requires n in ModuleAndAncestors(name)
    ensures n == name || |n| < |name|
  {
    var parts := Split(name, '.');
    var k :| 0 <= k < |parts| && n == Ancestor(parts, k);
    JoinSplit(name, '.');
    JoinPrefixShorter(parts, |parts| - k);
    assert k == 0 ==> parts[..|parts|] == parts;
  }

  /**
   The exact condition: for roots and a change list, an empty impact set proves the reachable sets
   equal for every pair of views just when every changed package root has its twin watched. Plain
   roots always qualify.
   */
  lemma ImpactCompleteIff(cfg: Config, roots: seq<string>, changed: set<string>)
    requires WellFormedRoots(cfg, roots)
    ensures (forall b, c :: MissesNothing(cfg, roots, b, c, changed)) <==> TwinsWatched(cfg, roots, changed)
  {
    if TwinsWatched(cfg, roots, changed) {
      forall b, c
        ensures MissesNothing(cfg, roots, b, c, changed)
      {
        if DifferOnlyAt(b, c, changed) && Impacting(cfg, roots, b, c, changed) == {} {
          ImpactComplete(cfg, roots, b, c, changed);
        }
      }
    } else {
      var r :| r in roots && r in changed && PathToModule(cfg, r).value.1 &&
        PlainPath(cfg, PathToModule(cfg, r).value.0) !in changed &&
        PlainPath(cfg, PathToModule(cfg, r).value.0) !in roots;
      UnwatchedTwinMissed(cfg, roots, changed, r);
    }
  }

  datatype TwoSided = TwoSided(
    base: Reachability, candidate: Reachability,
    added: seq<string>, removed: seq<string>, undeclared: seq<string>, impacting: seq<string>)

  function GapsOf(r: Reachability): set<Gap> {
    set d | d in r.unresolvedDynamic :: d.gap
  }

  /** A present root is reached, unless a plain module shadows the package it belongs to. */
  lemma RootReached(cfg: Config, roots: seq<string>, v: View, r: string)
    requires RootsAreModules(cfg, roots) && r in roots && r in v && WellFormedRoot(cfg, r)
    requires PathToModule(cfg, r).value.1 ==> PlainPath(cfg, PathToModule(cfg, r).value.0) !in v
    ensures r in Reach(cfg, roots, v)
  {
    var name := PathToModule(cfg, r).value.0;
    SelfIsFirst(name);
    ReachContains(cfg, roots, v);
    assert name in RootNames(cfg, roots, v);
    assert ModuleToPath(cfg, name, v).value.0 == r;
    assert r in Drags(cfg, v, name);
  }

  /** The lists, file by file: a chain of imports leads to it in one view, the other, or both. */
  ghost predicate ComparesFiles(cfg: Config, roots: seq<string>, b: View, c: View, changed: seq<string>, t: TwoSided) {
    forall p ::
      && (p in t.added <==> Followed(cfg, roots, c, p) && !Followed(cfg, roots, b, p))
      && (p in t.removed <==> Followed(cfg, roots, b, p) && !Followed(cfg, roots, c, p))
      && (p in t.undeclared <==> (Followed(cfg, roots, b, p) || Followed(cfg, roots, c, p)) && p !in roots)
      && (p in t.impacting <==> p in changed && (Followed(cfg, roots, b, p) || Followed(cfg, roots, c, p)))
  }

  lemma FilesCompared(cfg: Config, roots: seq<string>, b: View, c: View, changed: seq<string>, t: TwoSided)
    requires RootsAreModules(cfg, roots)
    requires var rb, rc := Reach(cfg, roots, b), Reach(cfg, roots, c);
             && t.added == Sorted(rc - rb) && t.removed == Sorted(rb - rc)
             && t.undeclared == Sorted(rb + rc - Elements(roots))
             && t.impacting == Sorted(Elements(changed) * (rb + rc))
    ensures ComparesFiles(cfg, roots, b, c, changed, t)
  {
    hide Reach, Followed, Sorted;
    var rb, rc := Reach(cfg, roots, b), Reach(cfg, roots, c);
    SortedHolds(rc - rb);
    SortedHolds(rb - rc);
    SortedHolds(rb + rc - Elements(roots));
    SortedHolds(Elements(changed) * (rb + rc));
    forall p
      ensures p in rb <==> Followed(cfg, roots, b, p)
      ensures p in rc <==> Followed(cfg, roots, c, p)
    {
      ReachIff(cfg, roots, b, p);
      ReachIff(cfg, roots, c, p);
    }
  }

  /** `analyze_two_sided`: the two walks and their derived sets. */
  method AnalyzeTwoSided(cfg: Config, roots: seq<string>, b: View, c: View, changed: seq<string>)
    returns (r: Result<TwoSided, string>)
    ensures r.Ok? <==> RootsAreModules(cfg, roots)
    ensures r.Ok? && SlashFree(cfg, b) && SlashFree(cfg, c) ==>
              var rb, rc := Reach(cfg, roots, b), Reach(cfg, roots, c);
              && r.value.added == Sorted(rc - rb) && r.value.removed == Sorted(rb - rc)
              && r.value.undeclared == Sorted(rb + rc - Elements(roots))
              && r.value.impacting == Sorted(Impacting(cfg, roots, b, c, Elements(changed)))
              && r.value.base.reachable == Sorted(rb) && r.value.candidate.reachable == Sorted(rc)
              && r.value.base.unreadable == Sorted(Unparsed(b, rb)) && r.value.candidate.unreadable == Sorted(Unparsed(c, rc))
              && GapsOf(r.value.base) == AllGaps(cfg, b, rb) && GapsOf(r.value.candidate) == AllGaps(cfg, c, rc)
    ensures r.Ok? && SlashFree(cfg, b) && SlashFree(cfg, c) ==> ComparesFiles(cfg, roots, b, c, changed, r.value)
    ensures
      && r.Ok? && SlashFree(cfg, b) && SlashFree(cfg, c) && r.value.impacting == []
      && WellFormedRoots(cfg, roots) && TwinsWatched(cfg, roots, Elements(changed))
      && DifferOnlyAt(b, c, Elements(changed))
      ==> r.value.base.reachable == r.value.candidate.reachable
  {
    var base, _ := ReachableFrom(cfg, roots, b);
    if base.Err? {
      return Err(base.error);
    }
    var candidate, _ := ReachableFrom(cfg, roots, c);
    var rb, rc := Elements(base.value.reachable), Elements(candidate.value.reachable);
    if SlashFree(cfg, b) && SlashFree(cfg, c) {
      SortedFacts(Reach(cfg, roots, b));
      SortedFacts(Reach(cfg, roots, c));
      SortedFacts(Impacting(cfg, roots, b, c, Elements(changed)));
      if WellFormedRoots(cfg, roots) && TwinsWatched(cfg, roots, Elements(changed)) &&
         DifferOnlyAt(b, c, Elements(changed)) && Impacting(cfg, roots, b, c, Elements(changed)) == {} {
        ImpactComplete(cfg, roots, b, c, Elements(changed));
      }
    }
    r := Ok(TwoSided(base.value, candidate.value, Sorted(rc - rb), Sorted(rb - rc),
                     Sorted(rb + rc - Elements(roots)), Sorted(Elements(changed) * (rb + rc))));
    if SlashFree(cfg, b) && SlashFree(cfg, c) {
      FilesCompared(cfg, roots, b, c, changed, r.value);
    }
  }
}
