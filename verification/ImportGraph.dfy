/**
 The intra-repository import graph of one view of the sources: how dotted names and files
 correspond, what a module imports, and the set of files reachable from the worker roots.

 A view maps each repository path that exists to its parsed import nodes, or to the
 fact that it does not parse.
 */
module ImportGraph {
  import opened Wrappers
  import opened Strings

  datatype Config = Config(packageRoot: string, topPackage: string) {
    /** The package root as a prefix of paths: nothing, or a text that ends with one more slash if it had none. */
    function Prefix(): (prefix: string)
      ensures prefix == packageRoot || (prefix == packageRoot + "/" && !EndsWith(packageRoot, "/"))
      ensures prefix == "" || EndsWith(prefix, "/")
    {
      if EndsWith(packageRoot, "/") || packageRoot == "" then packageRoot else packageRoot + "/"
    }
  }

  /** The nodes of a module that can import something; `literal` is None for a computed target. */
  datatype ImportNode =
    | Import(names: seq<string>)
    | ImportFrom(level: nat, from: Option<string>, names: seq<string>)
    | DynamicImport(literal: Option<string>, callee: string)

  datatype Source = Parsed(nodes: seq<ImportNode>) | Unparseable

  type View = map<string, Source>

  /** What the static graph could not follow at one import node. */
  datatype Gap = EscapesPackage(level: nat, from: Option<string>) | NonLiteral(callee: string)

  datatype GapRecord = GapRecord(gap: Gap, importer: string)

  // ----- names and paths -----

  function PathToModule(cfg: Config, path: string): Option<(string, bool)> {
    var prefix := cfg.Prefix();
    if !StartsWith(path, prefix) || !EndsWith(path, ".py") then None
    else
      PrefixMissesSuffix(cfg, path);
      var rel := path[|prefix|..];
      if EndsWith(rel, "/__init__.py") then
        Some((Replace(rel[..|rel| - |"/__init__.py"|], '/', '.'), true))
      else
        Some((Replace(rel[..|rel| - |".py"|], '/', '.'), false))
  }

  lemma PrefixMissesSuffix(cfg: Config, path: string)
    requires StartsWith(path, cfg.Prefix()) && EndsWith(path, ".py")
    ensures |cfg.Prefix()| + |".py"| <= |path|
  {
    var prefix := cfg.Prefix();
    if prefix != "" {
      assert EndsWith(prefix, "/");
      assert prefix[|prefix| - 1..][0] == '/';
      assert path[|prefix| - 1] == path[..|prefix|][|prefix| - 1] == '/';
      var tail := path[|path| - 3..];
      assert tail == ".py";
      assert forall i :: |path| - 3 <= i < |path| ==> path[i] == tail[i - (|path| - 3)];
    }
  }

  /** A package's file goes by the package's name. */
  lemma PackageFile(cfg: Config, stem: string)
    ensures PathToModule(cfg, cfg.Prefix() + stem + "/__init__.py") == Some((Replace(stem, '/', '.'), true))
  {
    hide Replace, StartsWith, EndsWith;
    var prefix, rel := cfg.Prefix(), stem + "/__init__.py";
    var path := prefix + stem + "/__init__.py";
    assert path == prefix + rel && path == (prefix + stem + "/__init__") + ".py";
    Ends(prefix, rel);
    Ends(prefix + stem + "/__init__", ".py");
    Ends(stem, "/__init__.py");
  }

  /** Any other file goes by its path, slashes read as dots. */
  lemma PlainFile(cfg: Config, stem: string)
    requires !EndsWith(stem + ".py", "/__init__.py")
    ensures PathToModule(cfg, cfg.Prefix() + stem + ".py") == Some((Replace(stem, '/', '.'), false))
  {
    hide Replace, StartsWith, EndsWith;
    var prefix, rel := cfg.Prefix(), stem + ".py";
    var path := prefix + stem + ".py";
    assert path == prefix + rel && path == (prefix + stem) + ".py";
    Ends(prefix, rel);
    Ends(prefix + stem, ".py");
    Ends(stem, ".py");
  }

  function PlainPath(cfg: Config, name: string): string {
    cfg.Prefix() + Replace(name, '.', '/') + ".py"
  }

  function InitPath(cfg: Config, name: string): string {
    cfg.Prefix() + Replace(name, '.', '/') + "/__init__.py"
  }

  /** The file a dotted name denotes in a view; a plain module shadows a package. */
  function ModuleToPath(cfg: Config, name: string, v: View): Option<(string, bool)> {
    if PlainPath(cfg, name) in v then Some((PlainPath(cfg, name), false))
    else if InitPath(cfg, name) in v then Some((InitPath(cfg, name), true))
    else None
  }

  function Ancestor(parts: seq<string>, k: nat): string {
    if k <= |parts| then Join(parts[..|parts| - k], ".") else ""
  }

  /** The module itself, then each enclosing package, the most specific first. */
  function ModuleAndAncestors(name: string): seq<string> {
    var parts := Split(name, '.');
    seq(|parts|, k requires 0 <= k < |parts| => Ancestor(parts, k))
  }

  // ----- relative imports -----

  /** The package a module's relative imports start from, as segments. */
  function Anchor(current: string, isPackage: bool): seq<string> {
    var parts := Split(current, '.');
    if isPackage then parts else parts[..|parts| - 1]
  }

  function NonEmpty(parts: seq<string>): seq<string> {
    if parts == [] then []
    else if parts[0] == "" then NonEmpty(parts[1..])
    else [parts[0]] + NonEmpty(parts[1..])
  }

  function Climb(base: seq<string>, level: nat, from: Option<string>): Option<string>
    requires level >= 1
  {
    var climb := level - 1;
    if climb >= |base| then None
    else
      var parts := base[..|base| - climb] + if from.Some? && from.value != "" then Split(from.value, '.') else [];
      var joined := Join(NonEmpty(parts), ".");
      if joined == "" then None else Some(joined)
  }

  function ResolveRelative(current: string, isPackage: bool, level: nat, from: Option<string>): Option<string>
    requires level >= 1
  {
    Climb(Anchor(current, isPackage), level, from)
  }

  // ----- import targets -----

  function Intra(top: string, dotted: string): set<string> {
    if dotted != "" && (dotted == top || StartsWith(dotted, top + ".")) then {dotted} else {}
  }

  function MemberTargets(top: string, package: string, names: seq<string>): set<string> {
    Intra(top, package) +
    set n, t | n in names && n != "*" && t in Intra(top, package + "." + n) :: t
  }

  /** What one node imports, given the package relative imports start from. */
  function NodeTargets(top: string, base: seq<string>, node: ImportNode): set<string> {
    match node
    case Import(names) => set n, t | n in names && t in Intra(top, n) :: t
    case ImportFrom(level, from, names) =>
      if level > 0 then
        var anchor := Climb(base, level, from);
        if anchor.None? then {} else MemberTargets(top, anchor.value, names)
      else if from.Some? && from.value != "" then MemberTargets(top, from.value, names)
      else {}
    case DynamicImport(literal, _) => if literal.Some? then Intra(top, literal.value) else {}
  }

  function NodeGaps(base: seq<string>, node: ImportNode): set<Gap> {
    match node
    case Import(_) => {}
    case ImportFrom(level, from, _) =>
      if level > 0 && Climb(base, level, from).None? then {EscapesPackage(level, from)} else {}
    case DynamicImport(literal, callee) => if literal.None? then {NonLiteral(callee)} else {}
  }

  function Targets(top: string, base: seq<string>, nodes: seq<ImportNode>): set<string> {
    set node, t | node in nodes && t in NodeTargets(top, base, node) :: t
  }

  function Gaps(base: seq<string>, nodes: seq<ImportNode>): set<Gap> {
    set node, g | node in nodes && g in NodeGaps(base, node) :: g
  }

  // ----- what a statement asks for -----

  predicate InPackage(top: string, name: string) {
    name != "" && (name == top || StartsWith(name, top + "."))
  }

  /** One dot is the package at `dirs`, each further dot its parent; then the name after the dots. */
  predicate ClimbsTo(dirs: seq<string>, level: nat, from: Option<string>, package: string) {
    && 1 <= level <= |dirs| && package != ""
    && package == Join(NonEmpty(dirs[..|dirs| - (level - 1)] + if from.Some? && from.value != "" then Split(from.value, '.') else []), ".")
  }

  /** The names one import statement, or dynamic import of a literal, asks for, in a module under `dirs`. */
  ghost predicate AsksFor(dirs: seq<string>, node: ImportNode, name: string) {
    match node
    case Import(names) => name in names
    case ImportFrom(level, from, names) =>
      exists package ::
        && (if level == 0 then from == Some(package) && package != "" else ClimbsTo(dirs, level, from, package))
        && (name == package || exists n :: n in names && n != "*" && name == package + "." + n)
    case DynamicImport(literal, _) => literal == Some(name)
  }

  /** What cannot be followed: a climb to no package, and a dynamic import of no literal. */
  ghost predicate Blocks(dirs: seq<string>, node: ImportNode, g: Gap) {
    match node
    case Import(_) => false
    case ImportFrom(level, from, _) =>
      level > 0 && g == EscapesPackage(level, from) && forall package :: !ClimbsTo(dirs, level, from, package)
    case DynamicImport(literal, callee) => literal == None && g == NonLiteral(callee)
  }

  lemma ClimbsIff(dirs: seq<string>, level: nat, from: Option<string>, package: string)
    requires level >= 1
    ensures Climb(dirs, level, from) == Some(package) <==> ClimbsTo(dirs, level, from, package)
  {
  }

  lemma MembersIff(top: string, package: string, names: seq<string>, t: string)
    ensures t in MemberTargets(top, package, names) <==>
            InPackage(top, t) && (t == package || exists n :: n in names && n != "*" && t == package + "." + n)
  {
    if n :| n in names && n != "*" && t == package + "." + n && InPackage(top, t) {
      assert t in Intra(top, package + "." + n);
    }
  }

  lemma AsksIff(top: string, dirs: seq<string>, node: ImportNode, t: string)
    ensures t in NodeTargets(top, dirs, node) <==> InPackage(top, t) && AsksFor(dirs, node, t)
  {
    hide MemberTargets, ClimbsTo, Climb;
    if node.Import? && InPackage(top, t) && t in node.names {
      assert t in Intra(top, t);
    }
    if node.ImportFrom? {
      if node.level > 0 {
        var anchor := Climb(dirs, node.level, node.from);
        forall package
          ensures ClimbsTo(dirs, node.level, node.from, package) <==> anchor == Some(package)
        {
          ClimbsIff(dirs, node.level, node.from, package);
        }
        if anchor.Some? {
          MembersIff(top, anchor.value, node.names, t);
        }
      } else if node.from.Some? {
        MembersIff(top, node.from.value, node.names, t);
      }
    }
  }

  lemma BlocksIff(dirs: seq<string>, node: ImportNode, g: Gap)
    ensures g in NodeGaps(dirs, node) <==> Blocks(dirs, node, g)
  {
    hide ClimbsTo, Climb;
    if node.ImportFrom? && node.level > 0 {
      forall package
        ensures ClimbsTo(dirs, node.level, node.from, package) <==> Climb(dirs, node.level, node.from) == Some(package)
      {
        ClimbsIff(dirs, node.level, node.from, package);
      }
      if Climb(dirs, node.level, node.from).Some? {
        assert ClimbsTo(dirs, node.level, node.from, Climb(dirs, node.level, node.from).value);
      }
    }
  }

  lemma TargetsAre(top: string, dirs: seq<string>, nodes: seq<ImportNode>)
    ensures forall t :: t in Targets(top, dirs, nodes) <==>
              InPackage(top, t) && exists node :: node in nodes && AsksFor(dirs, node, t)
    ensures forall g :: g in Gaps(dirs, nodes) <==> exists node :: node in nodes && Blocks(dirs, node, g)
  {
    hide NodeTargets, AsksFor, NodeGaps, Blocks;
    forall node, t
      ensures t in NodeTargets(top, dirs, node) <==> InPackage(top, t) && AsksFor(dirs, node, t)
    {
      AsksIff(top, dirs, node, t);
    }
    forall node, g
      ensures g in NodeGaps(dirs, node) <==> Blocks(dirs, node, g)
    {
      BlocksIff(dirs, node, g);
    }
  }

  /** `import_targets`: exactly the names of the top package that some node asks for, and what blocks. */
  method ImportTargets(nodes: seq<ImportNode>, current: string, isPackage: bool, top: string)
    returns (targets: set<string>, dynamic: set<GapRecord>)
    ensures targets == Targets(top, Anchor(current, isPackage), nodes)
    ensures dynamic == set g | g in Gaps(Anchor(current, isPackage), nodes) :: GapRecord(g, current)
    ensures forall t :: t in targets <==>
              InPackage(top, t) && exists node :: node in nodes && AsksFor(Anchor(current, isPackage), node, t)
    ensures forall d :: d in dynamic <==>
              d.importer == current && exists node :: node in nodes && Blocks(Anchor(current, isPackage), node, d.gap)
  {
    targets, dynamic := {}, {};
    var base := Anchor(current, isPackage);
    TargetsAre(top, base, nodes);
    hide AsksFor, Blocks;
    for k := 0 to |nodes|
      invariant targets == Targets(top, base, nodes[..k])
      invariant dynamic == set g | g in Gaps(base, nodes[..k]) :: GapRecord(g, current)
    {
      var node := nodes[k];
      assert nodes[..k + 1] == nodes[..k] + [node];
      assert Targets(top, base, nodes[..k + 1]) == Targets(top, base, nodes[..k]) + NodeTargets(top, base, node);
      assert Gaps(base, nodes[..k + 1]) == Gaps(base, nodes[..k]) + NodeGaps(base, node);
      match node {
        case Import(names) =>
          targets := targets + set n, t | n in names && t in Intra(top, n) :: t;
        case ImportFrom(level, from, names) =>
          if level > 0 {
            var anchor := ResolveRelative(current, isPackage, level, from);
            if anchor.None? {
              dynamic := dynamic + {GapRecord(EscapesPackage(level, from), current)};
            } else {
              targets := targets + MemberTargets(top, anchor.value, names);
            }
          } else if from.Some? && from.value != "" {
            targets := targets + MemberTargets(top, from.value, names);
          }
        case DynamicImport(literal, callee) =>
          if literal.Some? {
            targets := targets + Intra(top, literal.value);
          } else {
            dynamic := dynamic + {GapRecord(NonLiteral(callee), current)};
          }
      }
    }
    assert nodes[..|nodes|] == nodes;
  }

  // ----- one file, two names -----

  /** The components of a source file's path below the package root, the last without `.py`. */
  function Components(cfg: Config, path: string): (parts: seq<string>)
    ensures |parts| >= 1
  {
    if StartsWith(path, cfg.Prefix()) && EndsWith(path, ".py") then
      PrefixMissesSuffix(cfg, path);
      Split(path[|cfg.Prefix()|..|path| - 3], '/')
    else [path]
  }

  /** The package a file's relative imports start from, read off its path alone. */
  function PathAnchor(cfg: Config, path: string): seq<string> {
    var parts := Components(cfg, path);
    parts[..|parts| - 1]
  }

  lemma ModuleFile(cfg: Config, rel: string, path: string)
    requires path == cfg.Prefix() + rel + ".py"
    ensures StartsWith(path, cfg.Prefix()) && EndsWith(path, ".py")
    ensures |path| == |cfg.Prefix()| + |rel| + 3
    ensures path[|cfg.Prefix()|..|path| - 3] == rel
  {
  }

  /** The anchor a file's path gives is the directory that holds it. */
  lemma AnchorIsDirectory(cfg: Config, dir: string, last: string, path: string)
    requires '/' !in last
    requires path == cfg.Prefix() + (dir + ['/'] + last) + ".py"
    ensures PathAnchor(cfg, path) == Split(dir, '/')
  {
    ModuleFile(cfg, dir + ['/'] + last, path);
    SplitConcat(dir, '/', last);
    SplitParts(last, '/');
  }

  /** Whatever slash-free name a file was reached by, its anchor is the one its path gives. */
  lemma AnchorOfPath(cfg: Config, name: string, isPackage: bool)
    requires '/' !in name
    ensures Anchor(name, isPackage) == PathAnchor(cfg, if isPackage then InitPath(cfg, name) else PlainPath(cfg, name))
  {
    var rel := Replace(name, '.', '/');
    SplitReplace(name, '.', '/');
    if isPackage {
      InitFile(cfg, name);
    } else {
      ModuleFile(cfg, rel, PlainPath(cfg, name));
    }
  }

  lemma InitFile(cfg: Config, name: string)
    ensures PathAnchor(cfg, InitPath(cfg, name)) == Split(Replace(name, '.', '/'), '/')
  {
    hide Replace, Split, PathAnchor;
    var rel, path, last := Replace(name, '.', '/'), InitPath(cfg, name), "__init__";
    assert "/__init__.py" == ['/'] + last + ".py";
    assert path == cfg.Prefix() + (rel + ['/'] + last) + ".py";
    AnchorIsDirectory(cfg, rel, last, path);
  }

  /** Without the slash-free assumption the same file has two anchors. */
  lemma SlashedNameSplitsAnchor(cfg: Config, a: string, b: string, c: string)
    requires '/' !in a && '/' !in b && '/' !in c
    ensures PlainPath(cfg, a + "." + b + "/" + c) == PlainPath(cfg, a + "." + b + "." + c)
    ensures Anchor(a + "." + b + "/" + c, false) != Anchor(a + "." + b + "." + c, false)
  {
    var slashed, dotted := a + "." + b + "/" + c, a + "." + b + "." + c;
    assert Replace(slashed, '.', '/') == Replace(dotted, '.', '/');
    assert slashed == a + ['.'] + (b + "/" + c) && dotted == a + ['.'] + (b + ['.'] + c);
    SplitConcat(a, '.', b + "/" + c);
    SplitConcat(a, '.', b + ['.'] + c);
    SplitConcat(b, '.', c);
    SplitSlash(b, c);
  }

  /** A slash joins the last part of one string to the first of the next. */
  lemma {:induction false} SplitSlash(b: string, c: string)
    ensures |Split(b + "/" + c, '.')| == |Split(b, '.')| + |Split(c, '.')| - 1
  {
    var s := b + "/" + c;
    if b == "" {
      assert s[1..] == c;
    } else {
      assert s[1..] == b[1..] + "/" + c;
      SplitSlash(b[1..], c);
    }
  }

  // ----- the reachable set -----

  /** The files a set of dotted names denotes. */
  function Files(cfg: Config, v: View, names: set<string>): set<string> {
    set n | n in names && ModuleToPath(cfg, n, v).Some? :: ModuleToPath(cfg, n, v).value.0
  }

  /** The dotted names executed by importing `names`: each module and its ancestor packages. */
  function Executed(names: set<string>): set<string> {
    set n, a | n in names && a in ModuleAndAncestors(n) :: a
  }

  /** The files that importing a dotted name executes. */
  function Drags(cfg: Config, v: View, name: string): set<string> {
    Files(cfg, v, Elements(ModuleAndAncestors(name)))
  }

  function DragsAll(cfg: Config, v: View, names: set<string>): set<string> {
    Files(cfg, v, Executed(names))
  }

  lemma DragsAllSplit(cfg: Config, v: View, names: set<string>)
    ensures DragsAll(cfg, v, names) == set n, p | n in names && p in Drags(cfg, v, n) :: p
  {
    forall p | p in DragsAll(cfg, v, names)
      ensures exists n :: n in names && p in Drags(cfg, v, n)
    {
      var a :| a in Executed(names) && ModuleToPath(cfg, a, v).Some? && ModuleToPath(cfg, a, v).value.0 == p;
      var n :| n in names && a in ModuleAndAncestors(n);
      assert a in Elements(ModuleAndAncestors(n));
    }
    forall n, p | n in names && p in Drags(cfg, v, n)
      ensures p in DragsAll(cfg, v, names)
    {
      var a :| a in Elements(ModuleAndAncestors(n)) && ModuleToPath(cfg, a, v).Some? &&
        ModuleToPath(cfg, a, v).value.0 == p;
      assert a in Executed(names);
    }
  }

  function PathTargets(cfg: Config, v: View, path: string): set<string>
    requires path in v
  {
    if v[path].Unparseable? then {} else Targets(cfg.topPackage, PathAnchor(cfg, path), v[path].nodes)
  }

  function PathGaps(cfg: Config, v: View, path: string): set<Gap>
    requires path in v
  {
    if v[path].Unparseable? then {} else Gaps(PathAnchor(cfg, path), v[path].nodes)
  }

  predicate RootsAreModules(cfg: Config, roots: seq<string>) {
    forall r :: r in roots ==> PathToModule(cfg, r).Some?
  }

  /** Contains what the present roots drag in, and what everything in it imports. */
  ghost predicate Closed(cfg: Config, roots: seq<string>, v: View, t: set<string>)
    requires RootsAreModules(cfg, roots)
  {
    && (forall r :: r in roots && r in v ==> Drags(cfg, v, PathToModule(cfg, r).value.0) <= t)
    && (forall p :: p in t && p in v ==> DragsAll(cfg, v, PathTargets(cfg, v, p)) <= t)
  }

  /** The files common to all closed sets. */
  ghost function Reach(cfg: Config, roots: seq<string>, v: View): set<string>
    requires RootsAreModules(cfg, roots)
  {
    set p | p in v && forall t :: Closed(cfg, roots, v, t) ==> p in t
  }

  /** `Reach` is itself closed, hence the least closed set. */
  lemma ReachIsLeast(cfg: Config, roots: seq<string>, v: View)
    requires RootsAreModules(cfg, roots)
    ensures Closed(cfg, roots, v, Reach(cfg, roots, v))
    ensures forall t :: Closed(cfg, roots, v, t) ==> Reach(cfg, roots, v) <= t
  {
    var least := Reach(cfg, roots, v);
    forall p | p in least && p in v
      ensures DragsAll(cfg, v, PathTargets(cfg, v, p)) <= least
    {
      forall q | q in DragsAll(cfg, v, PathTargets(cfg, v, p))
        ensures q in least
      {
        forall t | Closed(cfg, roots, v, t)
          ensures q in t
        {
          assert p in t;
          assert DragsAll(cfg, v, PathTargets(cfg, v, p)) <= t;
        }
      }
    }
  }

  /** A closed set inside every closed set is `Reach`. */
  lemma LeastIsReach(cfg: Config, roots: seq<string>, v: View, s: set<string>)
    requires RootsAreModules(cfg, roots)
    requires Closed(cfg, roots, v, s)
    requires forall t :: Closed(cfg, roots, v, t) ==> s <= t
    requires s <= v.Keys
    ensures s == Reach(cfg, roots, v)
  {
    ReachIsLeast(cfg, roots, v);
  }

  // ----- names stay slash-free -----

  /** Of what the name executes, nothing with a slash in its name is a file of the view. */
  predicate SlashesMiss(cfg: Config, v: View, name: string) {
    forall a :: a in ModuleAndAncestors(name) && '/' in a ==> ModuleToPath(cfg, a, v).None?
  }

  /** So it is for the name, or the name is outside the top package, where the graph ignores it. */
  predicate NameKept(cfg: Config, v: View, name: string) {
    Intra(cfg.topPackage, name) != {} ==> SlashesMiss(cfg, v, name)
  }

  predicate SlashFreeNode(cfg: Config, v: View, node: ImportNode) {
    match node
    case Import(names) => forall n :: n in names ==> NameKept(cfg, v, n)
    case ImportFrom(_, from, names) =>
      (from.Some? ==> '/' !in from.value) && forall n :: n in names ==> '/' !in n
    case DynamicImport(literal, _) => literal.Some? ==> NameKept(cfg, v, literal.value)
  }

  /** No import reaches a file by a name with a slash in it; only a string literal could. */
  predicate SlashFree(cfg: Config, v: View) {
    forall p :: p in v && v[p].Parsed? ==> forall node :: node in v[p].nodes ==> SlashFreeNode(cfg, v, node)
  }

  lemma {:induction false} JoinSlashFree(parts: seq<string>)
    requires forall p :: p in parts ==> '/' !in p
    ensures '/' !in Join(parts, ".")
  {
    if |parts| > 1 {
      JoinSlashFree(parts[1..]);
    }
  }

  lemma {:induction false} NonEmptySubset(parts: seq<string>)
    ensures forall p :: p in NonEmpty(parts) ==> p in parts
  {
    if parts != [] {
      NonEmptySubset(parts[1..]);
    }
  }

  lemma {:induction false} SplitSlashFree(s: string)
    requires '/' !in s
    ensures forall p :: p in Split(s, '.') ==> '/' !in p
  {
    if s != "" {
      SplitSlashFree(s[1..]);
    }
  }

  lemma AncestorsSlashFree(name: string)
    requires '/' !in name
    ensures forall n :: n in ModuleAndAncestors(name) ==> '/' !in n
  {
    SplitSlashFree(name);
    var parts := Split(name, '.');
    forall k: nat | k < |parts|
      ensures '/' !in Ancestor(parts, k)
    {
      JoinSlashFree(parts[..|parts| - k]);
    }
  }

  lemma ClimbSlashFree(base: seq<string>, level: nat, from: Option<string>)
    requires level >= 1
    requires forall p :: p in base ==> '/' !in p
    requires from.Some? ==> '/' !in from.value
    ensures Climb(base, level, from).Some? ==> '/' !in Climb(base, level, from).value
  {
    if level - 1 < |base| {
      var tail := if from.Some? && from.value != "" then Split(from.value, '.') else [];
      if from.Some? {
        SplitSlashFree(from.value);
      }
      var parts := base[..|base| - (level - 1)] + tail;
      NonEmptySubset(parts);
      JoinSlashFree(NonEmpty(parts));
    }
  }

  lemma SlashFreeMisses(cfg: Config, v: View, name: string)
    requires '/' !in name
    ensures SlashesMiss(cfg, v, name)
  {
    AncestorsSlashFree(name);
  }

  lemma TargetsMiss(cfg: Config, v: View, base: seq<string>, nodes: seq<ImportNode>)
    requires forall p :: p in base ==> '/' !in p
    requires forall node :: node in nodes ==> SlashFreeNode(cfg, v, node)
    ensures forall t :: t in Targets(cfg.topPackage, base, nodes) ==> SlashesMiss(cfg, v, t)
  {
    forall node, t | node in nodes && t in NodeTargets(cfg.topPackage, base, node)
      ensures SlashesMiss(cfg, v, t)
    {
      if node.ImportFrom? {
        if node.level > 0 {
          ClimbSlashFree(base, node.level, node.from);
        }
        assert '/' !in t;
        SlashFreeMisses(cfg, v, t);
      }
    }
  }

  /** Whatever a file of such a view imports, only slash-free names are files. */
  lemma PathTargetsMiss(cfg: Config, v: View, path: string)
    requires SlashFree(cfg, v) && path in v
    ensures forall t :: t in PathTargets(cfg, v, path) ==> SlashesMiss(cfg, v, t)
  {
    if v[path].Parsed? {
      forall p | p in PathAnchor(cfg, path)
        ensures '/' !in p
      {
        if StartsWith(path, cfg.Prefix()) && EndsWith(path, ".py") {
          PrefixMissesSuffix(cfg, path);
          SplitParts(path[|cfg.Prefix()|..|path| - 3], '/');
        }
      }
      TargetsMiss(cfg, v, PathAnchor(cfg, path), v[path].nodes);
    }
  }
}
