/**
 What the reachable set is, in terms of files: a file is reached exactly when a chain of imports
 leads to it from a present root. Every link is spelled out from the import statement, the importing
 file's own path, and the two paths a dotted name can denote.
 */
module ImportClosure {
  import opened Wrappers
  import opened Strings
  import opened ImportGraph

  // ----- what names and paths say -----

  /** The file a dotted name denotes: the plain module, or else the package's `__init__.py`. */
  predicate Denotes(cfg: Config, v: View, name: string, q: string) {
    var base := cfg.Prefix() + Replace(name, '.', '/');
    q in v && (q == base + ".py" || (q == base + "/__init__.py" && base + ".py" !in v))
  }

  /** The name itself, or a package around it. */
  predicate Encloses(outer: string, name: string) {
    outer == name || StartsWith(name, outer + ".")
  }

  /** Importing the name executes the file: its own, or that of a package around it. */
  ghost predicate Pulls(cfg: Config, v: View, name: string, q: string) {
    exists outer :: Encloses(outer, name) && Denotes(cfg, v, outer, q)
  }

  /** The directories from the package root down to a source file. */
  ghost predicate Directories(cfg: Config, p: string, dirs: seq<string>) {
    (forall d :: d in dirs ==> '/' !in d) &&
    exists last :: '/' !in last && p == cfg.Prefix() + Join(dirs + [last], "/") + ".py"
  }

  /** The dotted name a root file goes by. */
  ghost predicate GoesBy(cfg: Config, root: string, name: string) {
    exists stem ::
      && name == Replace(stem, '/', '.')
      && (root == cfg.Prefix() + stem + "/__init__.py" ||
          (root == cfg.Prefix() + stem + ".py" && !EndsWith(stem + ".py", "/__init__.py")))
  }

  // ----- chains of imports -----

  /** Executing a present root executes the file. */
  ghost predicate RootPulls(cfg: Config, roots: seq<string>, v: View, q: string) {
    exists r, name :: r in roots && r in v && GoesBy(cfg, r, name) && Pulls(cfg, v, name, q)
  }

  /** A statement of the file asks for a name of the top package that executes the other file. */
  ghost predicate Imports(cfg: Config, v: View, p: string, q: string) {
    exists dirs, node, name ::
      && p in v && v[p].Parsed? && Directories(cfg, p, dirs) && node in v[p].nodes && AsksFor(dirs, node, name)
      && InPackage(cfg.topPackage, name) && Pulls(cfg, v, name, q)
  }

  ghost predicate Chain(cfg: Config, roots: seq<string>, v: View, files: seq<string>) {
    && files != [] && RootPulls(cfg, roots, v, files[0])
    && forall k :: 1 <= k < |files| ==> Imports(cfg, v, files[k - 1], files[k])
  }

  /** A chain of imports leads from a present root to the file. */
  ghost predicate Followed(cfg: Config, roots: seq<string>, v: View, q: string) {
    exists files :: Chain(cfg, roots, v, files) && files[|files| - 1] == q
  }

  /** A statement of the file blocks the graph. */
  ghost predicate BlockedAt(cfg: Config, v: View, p: string, g: Gap) {
    exists dirs, node ::
      p in v && v[p].Parsed? && Directories(cfg, p, dirs) && node in v[p].nodes && Blocks(dirs, node, g)
  }

  ghost predicate BlockedSomewhere(cfg: Config, roots: seq<string>, v: View, g: Gap) {
    exists p :: Followed(cfg, roots, v, p) && BlockedAt(cfg, v, p, g)
  }

  // ----- the functions of the graph, in these terms -----

  lemma JoinCut(parts: seq<string>, n: nat) returns (tail: string)
    requires 0 < n <= |parts|
    ensures Join(parts, ".") == Join(parts[..n], ".") + tail && (tail != "" ==> tail[0] == '.')
  {
    hide Join;
    if n == |parts| {
      assert parts[..n] == parts;
      tail := "";
    } else {
      JoinConcat(parts[..n], parts[n..], ".");
      assert parts[..n] + parts[n..] == parts;
      tail := "." + Join(parts[n..], ".");
    }
  }

  /** What encloses a name is cut off at one of its dots. */
  lemma CutAtDot(l: string, a: string) returns (tail: string)
    requires a in ModuleAndAncestors(l)
    ensures l == a + tail && (tail != "" ==> tail[0] == '.')
  {
    hide Split, Join;
    var parts := Split(l, '.');
    var k :| 0 <= k < |parts| && a == Ancestor(parts, k);
    JoinSplit(l, '.');
    tail := JoinCut(parts, |parts| - k);
  }

  lemma PrefixExecuted(name: string, more: string)
    ensures name in ModuleAndAncestors(name + ['.'] + more)
  {
    var front, back, all := Split(name, '.'), Split(more, '.'), Split(name + ['.'] + more, '.');
    SplitConcat(name, '.', more);
    JoinSplit(name, '.');
    assert all[..|all| - |back|] == front;
    assert ModuleAndAncestors(name + ['.'] + more)[|back|] == Ancestor(all, |back|);
  }

  lemma AncestorIff(outer: string, name: string)
    ensures outer in ModuleAndAncestors(name) <==> Encloses(outer, name)
  {
    hide ModuleAndAncestors;
    if outer in ModuleAndAncestors(name) {
      var tail := CutAtDot(name, outer);
      if tail != "" {
        assert name == outer + "." + tail[1..];
        assert name[..|outer| + 1] == outer + ".";
      }
    }
    if outer == name {
      SelfIsFirst(name);
    } else if StartsWith(name, outer + ".") {
      assert name == outer + ['.'] + name[|outer| + 1..];
      PrefixExecuted(outer, name[|outer| + 1..]);
    }
  }

  lemma SelfIsFirst(name: string)
    ensures name in ModuleAndAncestors(name)
  {
    JoinSplit(name, '.');
    var parts := Split(name, '.');
    assert parts[..|parts|] == parts;
    assert ModuleAndAncestors(name)[0] == name;
  }

  lemma DenotesIff(cfg: Config, v: View, name: string, q: string)
    ensures Denotes(cfg, v, name, q) <==> ModuleToPath(cfg, name, v).Some? && ModuleToPath(cfg, name, v).value.0 == q
  {
    hide Replace;
    assert cfg.Prefix() + Replace(name, '.', '/') + ".py" != cfg.Prefix() + Replace(name, '.', '/') + "/__init__.py" by {
      assert |".py"| < |"/__init__.py"|;
    }
  }

  lemma PullsIff(cfg: Config, v: View, name: string, q: string)
    ensures Pulls(cfg, v, name, q) <==> q in Drags(cfg, v, name)
  {
    hide Denotes, Encloses, ModuleToPath, ModuleAndAncestors;
    forall outer
      ensures Denotes(cfg, v, outer, q) <==> ModuleToPath(cfg, outer, v).Some? && ModuleToPath(cfg, outer, v).value.0 == q
      ensures outer in ModuleAndAncestors(name) <==> Encloses(outer, name)
    {
      DenotesIff(cfg, v, outer, q);
      AncestorIff(outer, name);
    }
  }

  lemma IsSource(cfg: Config, root: string)
    requires PathToModule(cfg, root).Some?
    ensures StartsWith(root, cfg.Prefix()) && EndsWith(root, ".py") && |cfg.Prefix()| + |".py"| <= |root|
  {
    PrefixMissesSuffix(cfg, root);
  }

  lemma StemOf(prefix: string, root: string, tail: string) returns (stem: string)
    requires StartsWith(root, prefix) && |prefix| <= |root| && EndsWith(root[|prefix|..], tail)
    ensures root == prefix + stem + tail
  {
    hide StartsWith, EndsWith;
    Cut(root, prefix, "");
    var rel := root[|prefix|..];
    Cut(rel, "", tail);
    stem := rel[..|rel| - |tail|];
    assert prefix + stem + tail == prefix + (stem + tail);
  }

  lemma ModuleStem(cfg: Config, root: string) returns (stem: string)
    requires PathToModule(cfg, root).Some?
    ensures PathToModule(cfg, root).value.0 == Replace(stem, '/', '.')
    ensures root == cfg.Prefix() + stem + "/__init__.py" ||
            (root == cfg.Prefix() + stem + ".py" && !EndsWith(stem + ".py", "/__init__.py"))
  {
    hide Replace, StartsWith, EndsWith, PathToModule;
    IsSource(cfg, root);
    var prefix := cfg.Prefix();
    if EndsWith(root[|prefix|..], "/__init__.py") {
      stem := StemOf(prefix, root, "/__init__.py");
      PackageFile(cfg, stem);
    } else {
      Cut(root, prefix, ".py");
      stem := StemOf(prefix, root, ".py");
      Ends(prefix, stem + ".py");
      assert root == prefix + (stem + ".py");
      PlainFile(cfg, stem);
    }
  }

  lemma GoesByIff(cfg: Config, root: string, name: string)
    ensures GoesBy(cfg, root, name) <==> PathToModule(cfg, root).Some? && PathToModule(cfg, root).value.0 == name
  {
    hide Replace, PathToModule;
    if stem :| name == Replace(stem, '/', '.') && root == cfg.Prefix() + stem + "/__init__.py" {
      PackageFile(cfg, stem);
    }
    if stem :| name == Replace(stem, '/', '.') && root == cfg.Prefix() + stem + ".py" && !EndsWith(stem + ".py", "/__init__.py") {
      PlainFile(cfg, stem);
    }
    if PathToModule(cfg, root).Some? {
      var stem := ModuleStem(cfg, root);
    }
  }

  lemma JoinedDirectories(dirs: seq<string>, last: string)
    requires '/' !in last && forall d :: d in dirs ==> '/' !in d
    ensures Split(Join(dirs + [last], "/"), '/') == dirs + [last]
  {
    hide Split, Join;
    SplitJoin(dirs + [last], '/');
  }

  /** A source file's directories are the ones its relative imports start from. */
  lemma DirectoriesAnchor(cfg: Config, p: string, dirs: seq<string>)
    requires Directories(cfg, p, dirs)
    ensures StartsWith(p, cfg.Prefix()) && EndsWith(p, ".py") && PathAnchor(cfg, p) == dirs
  {
    hide Split, Join;
    var last :| '/' !in last && p == cfg.Prefix() + Join(dirs + [last], "/") + ".py";
    JoinedDirectories(dirs, last);
    ModuleFile(cfg, Join(dirs + [last], "/"), p);
  }

  lemma SplitAtLast(stem: string)
    ensures var parts := Split(stem, '/');
            var dirs, last := parts[..|parts| - 1], parts[|parts| - 1];
            '/' !in last && (forall d :: d in dirs ==> '/' !in d) && stem == Join(dirs + [last], "/")
  {
    hide Split, Join;
    var parts := Split(stem, '/');
    JoinSplit(stem, '/');
    SplitParts(stem, '/');
    assert parts == parts[..|parts| - 1] + [parts[|parts| - 1]];
    assert forall d :: d in parts[..|parts| - 1] ==> d in parts;
  }

  lemma AnchorDirectories(cfg: Config, p: string)
    requires StartsWith(p, cfg.Prefix()) && EndsWith(p, ".py")
    ensures Directories(cfg, p, PathAnchor(cfg, p))
  {
    hide Split, Join;
    PrefixMissesSuffix(cfg, p);
    var stem := p[|cfg.Prefix()|..|p| - 3];
    SplitAtLast(stem);
    assert p == cfg.Prefix() + stem + ".py" by {
      assert p[|p| - 3..] == ".py";
    }
  }

  // ----- the reachable set -----

  lemma DenotedIsSource(cfg: Config, v: View, name: string, q: string)
    requires Denotes(cfg, v, name, q)
    ensures StartsWith(q, cfg.Prefix()) && EndsWith(q, ".py")
  {
    hide Replace;
    var rel := Replace(name, '.', '/');
    if q == cfg.Prefix() + rel + ".py" {
      ModuleFile(cfg, rel, q);
    } else {
      ModuleFile(cfg, rel + "/__init__", q) by {
        assert q == cfg.Prefix() + (rel + "/__init__") + ".py";
      }
    }
  }

  lemma RootPullsIff(cfg: Config, roots: seq<string>, v: View, q: string)
    requires RootsAreModules(cfg, roots)
    ensures RootPulls(cfg, roots, v, q) <==>
            exists r :: r in roots && r in v && q in Drags(cfg, v, PathToModule(cfg, r).value.0)
  {
    hide GoesBy, Pulls, PathToModule, Drags, RootsAreModules;
    forall r, name | r in roots
      ensures GoesBy(cfg, r, name) <==> PathToModule(cfg, r).Some? && PathToModule(cfg, r).value.0 == name
      ensures Pulls(cfg, v, name, q) <==> q in Drags(cfg, v, name)
    {
      GoesByIff(cfg, r, name);
      PullsIff(cfg, v, name, q);
    }
    RootsAre(cfg, roots);
    if r :| r in roots && r in v && q in Drags(cfg, v, PathToModule(cfg, r).value.0) {
      assert GoesBy(cfg, r, PathToModule(cfg, r).value.0);
    }
  }

  lemma RootsAre(cfg: Config, roots: seq<string>)
    requires RootsAreModules(cfg, roots)
    ensures forall r :: r in roots ==> PathToModule(cfg, r).Some?
  {
  }

  lemma ImportsIff(cfg: Config, v: View, p: string, q: string)
    requires p in v && StartsWith(p, cfg.Prefix()) && EndsWith(p, ".py")
    ensures Imports(cfg, v, p, q) <==> q in DragsAll(cfg, v, PathTargets(cfg, v, p))
  {
    hide Drags, Pulls, AsksFor, Directories, InPackage, PathAnchor, Targets, DragsAll;
    AnchorDirectories(cfg, p);
    DragsAllSplit(cfg, v, PathTargets(cfg, v, p));
    forall name
      ensures Pulls(cfg, v, name, q) <==> q in Drags(cfg, v, name)
    {
      PullsIff(cfg, v, name, q);
    }
    if v[p].Parsed? {
      TargetsAre(cfg.topPackage, PathAnchor(cfg, p), v[p].nodes);
      if dirs, node, name :| Directories(cfg, p, dirs) && node in v[p].nodes && AsksFor(dirs, node, name)
                             && InPackage(cfg.topPackage, name) && Pulls(cfg, v, name, q) {
        DirectoriesAnchor(cfg, p, dirs);
        assert name in PathTargets(cfg, v, p);
      }
    }
  }

  /** What a parsed file of the reachable set asks for is reached, with the packages around it. */
  lemma ReachFollows(cfg: Config, roots: seq<string>, v: View, p: string, q: string)
    requires RootsAreModules(cfg, roots) && p in Reach(cfg, roots, v) && Imports(cfg, v, p, q)
    ensures q in Reach(cfg, roots, v)
  {
    hide Imports, Reach, Closed, DragsAll, PathTargets;
    ReachIsLeast(cfg, roots, v);
    ImportsSource(cfg, v, p, q);
    ImportsIff(cfg, v, p, q);
    ClosedKeeps(cfg, roots, v, Reach(cfg, roots, v), p);
  }

  lemma ImportsSource(cfg: Config, v: View, p: string, q: string)
    requires Imports(cfg, v, p, q)
    ensures p in v && StartsWith(p, cfg.Prefix()) && EndsWith(p, ".py")
  {
    hide Directories, AsksFor, Pulls;
    var dirs :| Directories(cfg, p, dirs);
    DirectoriesAnchor(cfg, p, dirs);
  }

  lemma ClosedKeeps(cfg: Config, roots: seq<string>, v: View, t: set<string>, p: string)
    requires RootsAreModules(cfg, roots) && Closed(cfg, roots, v, t) && p in t && p in v
    ensures DragsAll(cfg, v, PathTargets(cfg, v, p)) <= t
  {
  }

  lemma {:induction false} ChainReached(cfg: Config, roots: seq<string>, v: View, files: seq<string>)
    requires RootsAreModules(cfg, roots) && Chain(cfg, roots, v, files)
    ensures files[|files| - 1] in Reach(cfg, roots, v)
    decreases |files|
  {
    hide RootPulls, Imports, Reach, Drags;
    var n := |files| - 1;
    if n == 0 {
      ReachIsLeast(cfg, roots, v);
      RootPullsIff(cfg, roots, v, files[0]);
    } else {
      ChainReached(cfg, roots, v, files[..n]);
      assert Imports(cfg, v, files[n - 1], files[n]);
      ReachFollows(cfg, roots, v, files[n - 1], files[n]);
    }
  }

  ghost function Chained(cfg: Config, roots: seq<string>, v: View): set<string> {
    set q | q in v && Followed(cfg, roots, v, q)
  }

  lemma ChainGrows(cfg: Config, roots: seq<string>, v: View, p: string, q: string)
    requires Followed(cfg, roots, v, p) && Imports(cfg, v, p, q)
    ensures Followed(cfg, roots, v, q)
  {
    hide RootPulls, Imports;
    var files :| Chain(cfg, roots, v, files) && files[|files| - 1] == p;
    var longer := files + [q];
    assert Chain(cfg, roots, v, longer);
    assert longer[|longer| - 1] == q;
  }

  lemma {:induction false} FollowedIsSource(cfg: Config, roots: seq<string>, v: View, q: string)
    requires Followed(cfg, roots, v, q)
    ensures q in v && StartsWith(q, cfg.Prefix()) && EndsWith(q, ".py")
  {
    hide GoesBy, Directories, AsksFor, Denotes;
    var files :| Chain(cfg, roots, v, files) && files[|files| - 1] == q;
    if |files| > 1 {
      assert Imports(cfg, v, files[|files| - 2], q);
    }
    var name :| Pulls(cfg, v, name, q);
    var outer :| Denotes(cfg, v, outer, q);
    DenotedIsSource(cfg, v, outer, q);
    DenotesIff(cfg, v, outer, q);
  }

  lemma ChainedIsClosed(cfg: Config, roots: seq<string>, v: View)
    requires RootsAreModules(cfg, roots)
    ensures Closed(cfg, roots, v, Chained(cfg, roots, v))
  {
    hide RootPulls, Imports, Followed, Drags, DragsAll, PathTargets, PathToModule;
    RootsAre(cfg, roots);
    forall r, q | r in roots && r in v && q in Drags(cfg, v, PathToModule(cfg, r).value.0)
      ensures q in Chained(cfg, roots, v)
    {
      RootPullsIff(cfg, roots, v, q);
      RootFollowed(cfg, roots, v, q);
      FollowedIsSource(cfg, roots, v, q);
    }
    forall p, q | p in Chained(cfg, roots, v) && p in v && q in DragsAll(cfg, v, PathTargets(cfg, v, p))
      ensures q in Chained(cfg, roots, v)
    {
      FollowedIsSource(cfg, roots, v, p);
      ImportsIff(cfg, v, p, q);
      ChainGrows(cfg, roots, v, p, q);
      FollowedIsSource(cfg, roots, v, q);
    }
  }

  lemma RootFollowed(cfg: Config, roots: seq<string>, v: View, q: string)
    requires RootPulls(cfg, roots, v, q)
    ensures Followed(cfg, roots, v, q)
  {
    hide RootPulls, Imports;
    assert Chain(cfg, roots, v, [q]);
    assert [q][|[q]| - 1] == q;
  }

  /** The reachable set: a file is in it exactly when a chain of imports leads to it from a present root. */
  lemma ReachIff(cfg: Config, roots: seq<string>, v: View, q: string)
    requires RootsAreModules(cfg, roots)
    ensures q in Reach(cfg, roots, v) <==> Followed(cfg, roots, v, q)
  {
    hide Followed, Reach, Closed;
    if Followed(cfg, roots, v, q) {
      FollowedReached(cfg, roots, v, q);
    }
    ChainedIsClosed(cfg, roots, v);
    ReachIsLeast(cfg, roots, v);
  }

  lemma FollowedReached(cfg: Config, roots: seq<string>, v: View, q: string)
    requires RootsAreModules(cfg, roots) && Followed(cfg, roots, v, q)
    ensures q in Reach(cfg, roots, v)
  {
    hide Reach, RootPulls, Imports;
    var files :| Chain(cfg, roots, v, files) && files[|files| - 1] == q;
    ChainReached(cfg, roots, v, files);
  }

  /**
   One statement at a time: an import, a from-import (of the package and of what it names), one with
   dots, and a dynamic import of a literal each bring in the file of the name they give, and the files
   of the packages around it, when the name is under the top package.
   */
  lemma StatementFollowed(cfg: Config, roots: seq<string>, v: View, p: string, dirs: seq<string>, node: ImportNode,
                          package: string, n: string, name: string, outer: string, q: string)
    requires RootsAreModules(cfg, roots) && p in Reach(cfg, roots, v) && p in v
    requires v[p].Parsed? && node in v[p].nodes && Directories(cfg, p, dirs)
    requires match node
             case Import(names) => name in names
             case ImportFrom(level, from, names) =>
               && package != ""
               && (level == 0 ==> from == Some(package))
               && (level > 0 ==>
                     && level <= |dirs|
                     && package == Join(NonEmpty(dirs[..|dirs| - (level - 1)] +
                                                 if from.Some? && from.value != "" then Split(from.value, '.') else []), "."))
               && (name == package || (n in names && n != "*" && name == package + "." + n))
             case DynamicImport(literal, _) => literal == Some(name)
    requires name != "" && (name == cfg.topPackage || StartsWith(name, cfg.topPackage + "."))
    requires outer == name || StartsWith(name, outer + ".")
    requires var base := cfg.Prefix() + Replace(outer, '.', '/');
             q in v && (q == base + ".py" || (q == base + "/__init__.py" && base + ".py" !in v))
    ensures q in Reach(cfg, roots, v)
  {
    assert AsksFor(dirs, node, name) by {
      if node.ImportFrom? && node.level > 0 {
        assert ClimbsTo(dirs, node.level, node.from, package);
      }
    }
    assert Encloses(outer, name) && Denotes(cfg, v, outer, q) && InPackage(cfg.topPackage, name);
    hide AsksFor, Encloses, Denotes, Directories, Reach, InPackage;
    assert Pulls(cfg, v, name, q);
    assert Imports(cfg, v, p, q);
    ReachFollows(cfg, roots, v, p, q);
  }

  lemma BlockedIff(cfg: Config, v: View, p: string, g: Gap)
    requires p in v && StartsWith(p, cfg.Prefix()) && EndsWith(p, ".py")
    ensures BlockedAt(cfg, v, p, g) <==> g in PathGaps(cfg, v, p)
  {
    hide Blocks, Directories, PathAnchor, Gaps;
    AnchorDirectories(cfg, p);
    if v[p].Parsed? {
      TargetsAre(cfg.topPackage, PathAnchor(cfg, p), v[p].nodes);
      if dirs, node :| Directories(cfg, p, dirs) && node in v[p].nodes && Blocks(dirs, node, g) {
        DirectoriesAnchor(cfg, p, dirs);
      }
    }
  }

  /** In a reached file, a statement blocks the graph exactly where the graph has a gap. */
  lemma ReachedGaps(cfg: Config, roots: seq<string>, v: View, p: string, g: Gap)
    requires RootsAreModules(cfg, roots) && p in Reach(cfg, roots, v)
    ensures p in v && (BlockedAt(cfg, v, p, g) <==> g in PathGaps(cfg, v, p))
  {
    hide Followed, Reach, BlockedAt, PathGaps;
    ReachIff(cfg, roots, v, p);
    FollowedIsSource(cfg, roots, v, p);
    BlockedIff(cfg, v, p, g);
  }
}
