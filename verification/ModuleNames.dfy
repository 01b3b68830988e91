/**
 Dotted names and the files they denote: each direction undoes the other, one file can go by two
 names, and a relative import drops exactly the enclosing packages its dots ask for.
 */
module ModuleNames {
  import opened Wrappers
  import opened Strings
  import opened ImportGraph

  const INIT := "__init__"

  lemma SlashesBack(name: string)
    requires '/' !in name
    ensures Replace(Replace(name, '.', '/'), '/', '.') == name
  {
    var there := Replace(name, '.', '/');
    forall i | 0 <= i < |name|
      ensures Replace(there, '/', '.')[i] == name[i]
    {
      assert name[i] != '/';
    }
  }

  /** A package's file names the package. */
  lemma PackageRoundTrip(cfg: Config, name: string)
    requires '/' !in name
    ensures PathToModule(cfg, InitPath(cfg, name)) == Some((name, true))
  {
    PackageFile(cfg, Replace(name, '.', '/'));
    SlashesBack(name);
  }

  /** A plain module's file names the module, unless the module is itself called `__init__`. */
  lemma ModuleRoundTrip(cfg: Config, name: string)
    requires '/' !in name
    ensures PathToModule(cfg, PlainPath(cfg, name)) ==
            if EndsWith(name, ".__init__") then Some((name[..|name| - 9], true)) else Some((name, false))
  {
    var rel, path := Replace(name, '.', '/'), PlainPath(cfg, name);
    ModuleFile(cfg, rel, path);
    assert path[|cfg.Prefix()|..] == rel + ".py";
    SlashesBack(name);
    if EndsWith(name, ".__init__") {
      var package := name[..|name| - 9];
      assert name == package + ".__init__";
      TwoNames(cfg, package);
      PackageRoundTrip(cfg, package);
    } else if EndsWith(rel + ".py", "/__init__.py") {
      InitFromPath(name);
    }
  }

  lemma InitFromPath(name: string)
    requires '/' !in name && EndsWith(Replace(name, '.', '/') + ".py", "/__init__.py")
    ensures EndsWith(name, ".__init__")
  {
    var rel := Replace(name, '.', '/');
    var tail := (rel + ".py")[|rel| + 3 - 12..];
    assert tail == "/__init__.py";
    assert |name| >= 9;
    forall i | |name| - 9 <= i < |name|
      ensures name[i] == ".__init__"[i - (|name| - 9)]
    {
      assert rel[i] == tail[i - (|name| - 9)];
      assert rel[i] == "/__init__.py"[i - (|name| - 9)];
    }
    assert name[|name| - 9..] == ".__init__";
  }

  lemma InitPaths(package: string)
    ensures Replace(package + ".__init__", '.', '/') + ".py" == Replace(package, '.', '/') + "/__init__.py"
  {
    assert Replace(package + ".__init__", '.', '/') == Replace(package, '.', '/') + "/__init__";
  }

  lemma SameAnchor(package: string)
    ensures Anchor(package + ".__init__", false) == Anchor(package, true)
  {
    hide Split;
    assert package + ".__init__" == package + ['.'] + INIT;
    SplitConcat(package, '.', INIT);
    SplitParts(INIT, '.');
    var parts := Split(package, '.') + [INIT];
    assert parts[..|parts| - 1] == Split(package, '.');
  }

  /** One file under two names: the package, and the module called `__init__` inside it. */
  lemma TwoNames(cfg: Config, package: string)
    ensures PlainPath(cfg, package + ".__init__") == InitPath(cfg, package)
    ensures Anchor(package + ".__init__", false) == Anchor(package, true)
  {
    hide Replace, Anchor;
    InitPaths(package);
    SameAnchor(package);
    var prefix := cfg.Prefix();
    assert PlainPath(cfg, package + ".__init__") == prefix + (Replace(package + ".__init__", '.', '/') + ".py");
    assert InitPath(cfg, package) == prefix + (Replace(package, '.', '/') + "/__init__.py");
  }

  // ----- relative imports -----

  ghost predicate WellNamed(name: string) {
    forall p :: p in Split(name, '.') ==> p != ""
  }

  lemma {:induction false} NonEmptyKeeps(parts: seq<string>)
    requires forall p :: p in parts ==> p != ""
    ensures NonEmpty(parts) == parts
  {
    if parts != [] {
      assert parts[0] in parts;
      assert forall p :: p in parts[1..] ==> p in parts;
      NonEmptyKeeps(parts[1..]);
    }
  }

  lemma JoinedParts(parts: seq<string>)
    requires parts != [] && forall p :: p in parts ==> p != "" && '.' !in p
    ensures Join(NonEmpty(parts), ".") != "" && Split(Join(NonEmpty(parts), "."), '.') == parts
  {
    NonEmptyKeeps(parts);
    SplitJoin(parts, '.');
    assert parts[0] in parts;
  }

  predicate Segments(parts: seq<string>) {
    forall p :: p in parts ==> p != "" && '.' !in p
  }

  lemma WellNamedSegments(name: string)
    requires WellNamed(name)
    ensures Segments(Split(name, '.'))
  {
    SplitParts(name, '.');
  }

  /** The name after the dots of a relative import, as segments. */
  function Suffix(from: Option<string>): seq<string> {
    if from.Some? && from.value != "" then Split(from.value, '.') else []
  }

  lemma ClimbIs(base: seq<string>, level: nat, from: Option<string>)
    requires 1 <= level <= |base| && Segments(base) && Segments(Suffix(from))
    ensures Climb(base, level, from).Some?
    ensures Split(Climb(base, level, from).value, '.') == base[..|base| - (level - 1)] + Suffix(from)
  {
    hide Join, NonEmpty, Split;
    var parts := base[..|base| - (level - 1)] + Suffix(from);
    assert forall p :: p in parts ==> p in base || p in Suffix(from);
    JoinedParts(parts);
  }

  lemma PackageSegments(current: string, isPackage: bool)
    requires WellNamed(current)
    ensures Segments(Anchor(current, isPackage))
  {
    hide Split;
    WellNamedSegments(current);
    assert forall p :: p in Anchor(current, isPackage) ==> p in Split(current, '.');
  }

  /**
   Section 5.7 of the Python language reference: one dot is the package that holds the module, each
   further dot its parent; the name after the dots is looked up there. More dots than packages
   escape, and nothing else does.
   */
  lemma RelativeImport(current: string, isPackage: bool, level: nat, from: Option<string>)
    requires level >= 1 && WellNamed(current) && (from.Some? && from.value != "" ==> WellNamed(from.value))
    ensures var names := Split(current, '.');
            var packages := if isPackage then names else names[..|names| - 1];
            var target := ResolveRelative(current, isPackage, level, from);
            && (target.None? <==> level > |packages|)
            && (target.Some? ==> Split(target.value, '.') == packages[..|packages| - (level - 1)] + Suffix(from))
  {
    hide Segments, WellNamed, Split, Join, NonEmpty;
    PackageSegments(current, isPackage);
    if level <= |Anchor(current, isPackage)| {
      SuffixSegments(from);
      ClimbIs(Anchor(current, isPackage), level, from);
    }
  }

  lemma SuffixSegments(from: Option<string>)
    requires from.Some? && from.value != "" ==> WellNamed(from.value)
    ensures Segments(Suffix(from))
  {
    hide WellNamed;
    if from.Some? && from.value != "" {
      WellNamedSegments(from.value);
    }
  }
}
