/**
 When the order of the walk cannot matter: exactly when no string literal given to a dynamic import
 reaches into the top package by a name with a slash in it.
 */
module OrderIndependence {
  import opened Wrappers
  import opened Strings
  import opened ImportClosure
  import opened ImportGraph
  import opened ModuleNames
  import opened WorkerReachability
  import opened ReachabilityImpact

  // ----- views as the parser yields them -----

  predicate Identifier(s: string) { s != "" && '/' !in s && '.' !in s }

  predicate DottedName(s: string) { '/' !in s && forall p :: p in Split(s, '.') ==> p != "" }

  /** The names an import statement can hold; a dynamic import's literal is any string. */
  predicate GrammaticalNode(node: ImportNode) {
    match node
    case Import(names) => forall n :: n in names ==> DottedName(n)
    case ImportFrom(_, from, names) =>
      (from.Some? ==> DottedName(from.value)) && forall n :: n in names ==> n == "*" || Identifier(n)
    case DynamicImport(_, _) => true
  }

  /** Parsed import statements, with no dynamic import of a literal that is not permitted. */
  predicate BuiltFrom(literals: set<string>, v: View) {
    forall p :: p in v && v[p].Parsed? ==> forall node :: node in v[p].nodes ==>
      GrammaticalNode(node) && (node.DynamicImport? && node.literal.Some? ==> node.literal.value in literals)
  }

  ghost predicate CompleteRun(cfg: Config, roots: seq<string>, v: View, ws: seq<Walk>)
    requires RootsAreModules(cfg, roots)
  {
    IsRun(cfg, roots, v, ws) && ws[|ws| - 1].pending == {}
  }

  /** Every run that empties the worklist ends with the same set. */
  ghost predicate OrderIndependent(cfg: Config, roots: seq<string>, v: View)
    requires RootsAreModules(cfg, roots)
  {
    forall a: seq<Walk>, b: seq<Walk> :: CompleteRun(cfg, roots, v, a) && CompleteRun(cfg, roots, v, b) ==>
      a[|a| - 1].seen == b[|b| - 1].seen
  }

  lemma StarSlashFree()
    ensures '/' !in "*"
  {
  }

  // ----- separators -----

  predicate Separator(c: char) { c == '.' || c == '/' }

  /** Nonempty segments between single dots and slashes. */
  predicate WellSegmented(s: string) {
    && s != "" && !Separator(s[0]) && !Separator(s[|s| - 1])
    && forall i :: 0 <= i < |s| - 1 ==> !(Separator(s[i]) && Separator(s[i + 1]))
  }

  /** The pieces after the first are nonempty when no separator ends the text or follows another. */
  lemma {:induction false} PiecesIff(s: string, sep: char)
    ensures "" !in Split(s, sep)[1..] <==>
            (s != "" ==> s[|s| - 1] != sep) && forall i :: 0 <= i < |s| - 1 ==> !(s[i] == sep && s[i + 1] == sep)
    ensures Split(s, sep)[0] == "" <==> s == "" || s[0] == sep
  {
    if s != "" {
      var rest := Split(s[1..], sep);
      PiecesIff(s[1..], sep);
      if s[0] == sep {
        assert Split(s, sep)[1..] == rest;
        assert rest == [rest[0]] + rest[1..];
      } else {
        assert Split(s, sep)[1..] == rest[1..];
      }
      assert forall i :: 1 <= i < |s| - 1 ==> s[i] == s[1..][i - 1] && s[i + 1] == s[1..][i];
    }
  }

  lemma AllPieces(s: string, sep: char)
    requires "" !in Split(s, sep)[1..] && Split(s, sep)[0] != ""
    ensures "" !in Split(s, sep)
  {
    assert Split(s, sep) == [Split(s, sep)[0]] + Split(s, sep)[1..];
  }

  lemma SegmentsNonEmpty(s: string)
    requires WellSegmented(s)
    ensures forall p :: p in Split(s, '.') ==> p != ""
  {
    PiecesIff(s, '.');
    AllPieces(s, '.');
  }

  // ----- files of a source tree -----

  /** No path has an empty component, nor a file no name before its `.py`. */
  predicate TreePaths(cfg: Config, v: View) {
    forall p :: p in v ==> "" !in Components(cfg, p)
  }

  lemma WholePieces(s: string)
    ensures WellSegmented(s) <==> "" !in Split(Replace(s, '.', '/'), '/')
  {
    var d := Replace(s, '.', '/');
    assert forall i :: 0 <= i < |s| ==> (Separator(s[i]) <==> d[i] == '/');
    PiecesIff(d, '/');
  }

  lemma PlainParts(cfg: Config, name: string)
    ensures Components(cfg, PlainPath(cfg, name)) == Split(Replace(name, '.', '/'), '/')
  {
    hide Replace, Split;
    ModuleFile(cfg, Replace(name, '.', '/'), PlainPath(cfg, name));
  }

  lemma InitParts(cfg: Config, name: string)
    ensures forall p :: p in Split(Replace(name, '.', '/'), '/') ==> p in Components(cfg, InitPath(cfg, name))
  {
    hide Replace, Split;
    var rel, last := Replace(name, '.', '/'), "__init__";
    assert "/__init__.py" == ['/'] + last + ".py";
    assert InitPath(cfg, name) == cfg.Prefix() + (rel + ['/'] + last) + ".py";
    ModuleFile(cfg, rel + ['/'] + last, InitPath(cfg, name));
    SplitConcat(rel, '/', last);
  }

  /** A name that denotes a file of a source tree has nonempty segments. */
  lemma FilesAreWhole(cfg: Config, v: View, name: string)
    requires TreePaths(cfg, v) && ModuleToPath(cfg, name, v).Some?
    ensures WellSegmented(name)
  {
    hide Replace, WellSegmented, Split, Components;
    var path := ModuleToPath(cfg, name, v).value.0;
    if path == PlainPath(cfg, name) {
      PlainParts(cfg, name);
    } else {
      InitParts(cfg, name);
    }
    WholePieces(name);
  }

  // ----- literals that do no harm -----

  /** Nothing the literal executes is spelled with a slash and could be a file; or it is none of ours. */
  predicate Calm(top: string, literal: string) {
    Intra(top, literal) != {} ==> forall a :: a in ModuleAndAncestors(literal) && '/' in a ==> !WellSegmented(a)
  }

  lemma KeptIsSlashFree(cfg: Config, literals: set<string>, v: View)
    requires BuiltFrom(literals, v) && TreePaths(cfg, v) && forall l :: l in literals ==> Calm(cfg.topPackage, l)
    ensures SlashFree(cfg, v)
  {
    hide WellSegmented, DottedName, TreePaths, ModuleAndAncestors;
    StarSlashFree();
    forall p, node | p in v && v[p].Parsed? && node in v[p].nodes
      ensures SlashFreeNode(cfg, v, node)
    {
      NodeKept(cfg, literals, v, node);
    }
  }

  lemma NodeKept(cfg: Config, literals: set<string>, v: View, node: ImportNode)
    requires TreePaths(cfg, v) && forall l :: l in literals ==> Calm(cfg.topPackage, l)
    requires GrammaticalNode(node) && (node.DynamicImport? && node.literal.Some? ==> node.literal.value in literals)
    ensures SlashFreeNode(cfg, v, node)
  {
    StarSlashFree();
    match node
    case Import(names) =>
      forall n | n in names ensures NameKept(cfg, v, n) { SlashFreeMisses(cfg, v, n); }
    case ImportFrom(_, _, _) =>
    case DynamicImport(literal, _) =>
      if literal.Some? && Intra(cfg.topPackage, literal.value) != {} {
        forall a | a in ModuleAndAncestors(literal.value) && '/' in a
          ensures ModuleToPath(cfg, a, v).None?
        {
          if ModuleToPath(cfg, a, v).Some? {
            FilesAreWhole(cfg, v, a);
          }
        }
      }
  }

  lemma CalmIsOrderIndependent(cfg: Config, literals: set<string>, roots: seq<string>, v: View)
    requires BuiltFrom(literals, v) && TreePaths(cfg, v) && forall l :: l in literals ==> Calm(cfg.topPackage, l)
    requires RootsAreModules(cfg, roots)
    ensures OrderIndependent(cfg, roots, v)
  {
    KeptIsSlashFree(cfg, literals, v);
    forall a: seq<Walk>, b: seq<Walk> | CompleteRun(cfg, roots, v, a) && CompleteRun(cfg, roots, v, b)
      ensures a[|a| - 1].seen == b[|b| - 1].seen
    {
      AnyOrder(cfg, roots, v, a);
      AnyOrder(cfg, roots, v, b);
    }
  }

  function Dotted(s: string): string { Replace(s, '/', '.') }

  lemma DottedFacts(s: string)
    ensures |Dotted(s)| == |s| && '/' !in Dotted(s)
    ensures forall i :: 0 <= i < |s| ==> Separator(Dotted(s)[i]) == Separator(s[i])
    ensures '/' !in s ==> Dotted(s) == s
    ensures Replace(Dotted(s), '.', '/') == Replace(s, '.', '/')
    ensures WellSegmented(s) ==> WellSegmented(Dotted(s))
  {
  }

  lemma DottedConcat(a: string, b: string)
    ensures Dotted(a + b) == Dotted(a) + Dotted(b)
  {
  }

  lemma {:induction false} LastOf(s: string, c: char) returns (k: nat)
    requires c in s
    ensures k < |s| && s[k] == c && c !in s[k + 1..] && forall i :: k < i < |s| ==> s[i] != c
  {
    if s[|s| - 1] == c {
      k := |s| - 1;
    } else {
      var rest := s[..|s| - 1];
      assert s == rest + [s[|s| - 1]];
      k := LastOf(rest, c);
      assert s[k + 1..] == rest[k + 1..] + [s[|s| - 1]];
    }
  }

  // ----- a slashed literal, and the view it confuses -----

  /**
   A literal that executes the name `u.w/z`, itself or as an ancestor: `z` follows the name's last
   slash, and `w` starts at the last dot before that.
   */
  datatype Clash = Clash(cfg: Config, u: string, w: string, z: string, tail: string) {
    function Literal(): string { u + "." + w + "/" + z }

    /** What the dynamic import is given. */
    function Whole(): string { Literal() + tail }

    /** The same file under its own dotted name. */
    function Name(): string { Dotted(Literal()) }

    /** The package that holds what encloses `z`, under the dotted name. */
    function Package(): string { Dotted(u) + "." + Dotted(w) }

    function Level(): nat { |Split(z, '.')| }

    function Long(): nat { |Whole()| + 12 }

    function Member(): string { seq(Long(), _ => 'x') }

    function RootName(): string { seq(3 * Long(), _ => 'r') }

    function Root(): string { PlainPath(cfg, RootName()) }

    function File(): string { PlainPath(cfg, Literal()) }

    function Hidden(): string { PlainPath(cfg, Package() + "." + Member()) }

    function Seen(): View {
      map[Root() := Parsed([DynamicImport(Some(Whole()), ""), Import([Name()])]),
          File() := Parsed([ImportFrom(Level(), None, [Member()])]),
          Hidden() := Parsed([])]
    }

    ghost predicate Valid() {
      && DottedName(cfg.topPackage) && cfg.topPackage != ""
      && WellSegmented(Literal()) && '/' !in z && '.' !in w && w != "" && z != ""
      && (u == cfg.topPackage || StartsWith(u, cfg.topPackage + ".")) && (tail != "" ==> tail[0] == '.')
    }
  }

  /** What starts with the top package, cut at a later dot, is the top package or lies in it. */
  lemma Lead(top: string, l: string, j: nat)
    requires StartsWith(l, top + ".") && |top| <= j < |l|
    ensures l[|top|] == '.' && forall i :: 0 <= i < |top| ==> l[i] == top[i]
    ensures if j == |top| then l[..j] == top else StartsWith(l[..j], top + ".")
  {
    assert l[..|top| + 1] == top + ".";
    assert l[|top|] == (top + ".")[|top|];
    assert forall i :: 0 <= i < |top| ==> l[i] == (top + ".")[i];
    if j > |top| {
      assert l[..j][..|top| + 1] == l[..|top| + 1];
    }
  }

  lemma FindClash(cfg: Config, l: string, a: string) returns (c: Clash)
    requires DottedName(cfg.topPackage) && cfg.topPackage != "" && Intra(cfg.topPackage, l) != {}
    requires a in ModuleAndAncestors(l) && '/' in a && WellSegmented(a)
    ensures c.Valid() && c.cfg == cfg && c.Literal() == a && c.Whole() == l
  {
    hide WellSegmented, Split, ModuleAndAncestors;
    var top := cfg.topPackage;
    var tail := CutAtDot(l, a);
    var k := LastOf(a, '/');
    assert a[k] == l[k];
    SlashBeyondTop(top, l, k);
    var front := a[..k];
    assert front == l[..k];
    Lead(top, l, k);
    assert front[|top|] == l[|top|] == '.';
    var j := LastOf(front, '.');
    assert j >= |top|;
    Lead(top, l, j);
    c := Clash(cfg, front[..j], front[j + 1..], a[k + 1..], tail);
    assert front[..j] == l[..j] == a[..j];
    assert a == front[..j] + "." + front[j + 1..] + "/" + a[k + 1..];
    PartsNonEmpty(a, j, k);
  }

  lemma SlashBeyondTop(top: string, l: string, k: nat)
    requires '/' !in top && Intra(top, l) != {} && k < |l| && l[k] == '/'
    ensures StartsWith(l, top + ".") && |top| < k
  {
    if k <= |top| {
      Lead(top, l, |top|);
    }
  }

  lemma PartsNonEmpty(l: string, j: nat, k: nat)
    requires WellSegmented(l) && j < k < |l| && Separator(l[j]) && Separator(l[k])
    ensures j + 1 < k && k + 1 < |l|
  {
  }

  lemma PrefixSegmented(s: string, k: nat)
    requires WellSegmented(s) && 0 < k < |s| && Separator(s[k])
    ensures WellSegmented(s[..k])
  {
  }

  lemma NameParts(c: Clash)
    requires c.Valid()
    ensures c.Name() == c.Package() + "." + c.z
  {
    hide Replace, WellSegmented, Split;
    DottedFacts(c.z);
    DottedConcat(c.u + "." + c.w + "/", c.z);
    DottedConcat(c.u + "." + c.w, "/");
    DottedConcat(c.u + ".", c.w);
    DottedConcat(c.u, ".");
    DottedSeparators();
  }

  lemma DottedSeparators()
    ensures Dotted("/") == "." && Dotted(".") == "."
  {
  }

  /** The three spellings, part by part. */
  lemma Spellings(c: Clash)
    requires c.Valid()
    ensures c.Name() == c.Package() + "." + c.z && |c.Name()| == |c.Literal()|
    ensures |c.Package()| == |c.u| + 1 + |c.w| < |c.Literal()|
    ensures PlainPath(c.cfg, c.Name()) == c.File()
    ensures WellSegmented(c.u) && WellSegmented(c.Name()) && WellSegmented(c.Package())
    ensures '/' !in c.Name() && '/' !in c.Package()
  {
    NameParts(c);
    TopNonEmpty(c);
    hide Replace, WellSegmented, Split, Dotted;
    var l, name, package := c.Literal(), c.Name(), c.Package();
    DottedFacts(l);
    DottedFacts(c.u);
    DottedFacts(c.w);
    assert l[..|c.u|] == c.u && l[|c.u|] == '.';
    PrefixSegmented(l, |c.u|);
    assert name[..|package|] == package && name[|package|] == '.';
    PrefixSegmented(name, |package|);
  }

  lemma TopNonEmpty(c: Clash)
    requires c.Valid()
    ensures c.u != ""
  {
  }

  predicate Under(top: string, name: string) { name == top || StartsWith(name, top + ".") }

  lemma UnderMore(top: string, name: string, more: string)
    requires Under(top, name)
    ensures Under(top, name + "." + more) && Intra(top, name + "." + more) == {name + "." + more}
  {
    var longer := name + "." + more;
    if name == top {
      assert longer[..|top| + 1] == top + ".";
    } else {
      assert longer[..|top| + 1] == name[..|top| + 1];
    }
  }

  lemma UnderDotted(top: string, name: string)
    requires '/' !in top && Under(top, name)
    ensures Under(top, Dotted(name))
  {
    DottedFacts(top);
    if name != top {
      var more := name[|top| + 1..];
      assert name == top + "." + more;
      DottedConcat(top + ".", more);
      DottedConcat(top, ".");
      assert Dotted(".") == ".";
      assert Dotted(name)[..|top| + 1] == top + ".";
    }
  }

  /** Every spelling lies in the top package, so the graph keeps it. */
  lemma AllIntra(c: Clash)
    requires c.Valid()
    ensures var top := c.cfg.topPackage;
            && Intra(top, c.Whole()) == {c.Whole()} && Intra(top, c.Name()) == {c.Name()}
            && Intra(top, c.u) == {c.u} && Intra(top, c.u + "." + c.Member()) == {c.u + "." + c.Member()}
            && Intra(top, c.Package()) == {c.Package()}
            && Intra(top, c.Package() + "." + c.Member()) == {c.Package() + "." + c.Member()}
  {
    var top := c.cfg.topPackage;
    Spellings(c);
    TopNonEmpty(c);
    hide Intra, Replace, Split, Under, Dotted, WellSegmented;
    UnderTop(c);
    UnderDotted(top, c.u);
    UnderMore(top, c.u, c.w + "/" + c.z);
    assert c.Literal() == c.u + "." + (c.w + "/" + c.z);
    WholeIntra(c);
    UnderMore(top, c.u, c.Member());
    UnderMore(top, Dotted(c.u), Dotted(c.w));
    UnderMore(top, c.Package(), c.z);
    UnderMore(top, c.Package(), c.Member());
  }

  lemma WholeIntra(c: Clash)
    requires Under(c.cfg.topPackage, c.Literal()) && (c.tail != "" ==> c.tail[0] == '.')
    requires Intra(c.cfg.topPackage, c.Literal()) == {c.Literal()}
    ensures Intra(c.cfg.topPackage, c.Whole()) == {c.Whole()}
  {
    hide Under, Intra;
    if c.tail == "" {
      assert c.Whole() == c.Literal();
    } else {
      UnderMore(c.cfg.topPackage, c.Literal(), c.tail[1..]);
      assert c.Whole() == c.Literal() + "." + c.tail[1..];
    }
  }

  lemma UnderTop(c: Clash)
    requires c.Valid()
    ensures Under(c.cfg.topPackage, c.u) && Intra(c.cfg.topPackage, c.u) == {c.u} && '/' !in c.cfg.topPackage
  {
  }

  // ----- two runs over it -----

  lemma Lengths(c: Clash, n: string)
    ensures |PlainPath(c.cfg, n)| == |c.cfg.Prefix()| + |n| + 3
    ensures |InitPath(c.cfg, n)| == |c.cfg.Prefix()| + |n| + 12
  {
  }

  /** The three files are different files. */
  lemma ThreeFiles(c: Clash)
    requires c.Valid()
    ensures |c.File()| < |c.Hidden()| < |c.Root()|
    ensures c.Seen().Keys == {c.Root(), c.File(), c.Hidden()}
    ensures c.Seen()[c.Root()] == Parsed([DynamicImport(Some(c.Whole()), ""), Import([c.Name()])])
    ensures c.Seen()[c.File()] == Parsed([ImportFrom(c.Level(), None, [c.Member()])])
    ensures c.Seen()[c.Hidden()] == Parsed([])
  {
    Spellings(c);
    Lengths(c, c.Literal());
    Lengths(c, c.Package() + "." + c.Member());
    Lengths(c, c.RootName());
  }

  /** Neither a name as short as the literal nor the member looked up beside `u` denotes the hidden file. */
  predicate Misses(c: Clash, n: string) {
    var found := ModuleToPath(c.cfg, n, c.Seen());
    found.Some? ==> found.value.0 in {c.Root(), c.File()}
  }

  lemma ShortMisses(c: Clash, n: string)
    requires c.Valid() && |n| <= |c.Whole()|
    ensures Misses(c, n)
  {
    hide PlainPath, InitPath, Replace;
    ThreeFiles(c);
    Spellings(c);
    Lengths(c, n);
    Lengths(c, c.Package() + "." + c.Member());
  }

  lemma MemberMisses(c: Clash)
    requires c.Valid()
    ensures Misses(c, c.u + "." + c.Member())
  {
    ThreeFiles(c);
    Spellings(c);
    var n, hidden := c.u + "." + c.Member(), c.Package() + "." + c.Member();
    Lengths(c, n);
    Lengths(c, hidden);
    PlainEnd(c.cfg, hidden);
    InitEnd(c.cfg, n);
    assert hidden[|hidden| - 1] == 'x';
    hide PlainPath, InitPath, Replace;
  }

  lemma PlainEnd(cfg: Config, n: string)
    requires n != "" && n[|n| - 1] != '.'
    ensures PlainPath(cfg, n)[|PlainPath(cfg, n)| - 4] == n[|n| - 1]
  {
    var path := PlainPath(cfg, n);
    assert path == (cfg.Prefix() + Replace(n, '.', '/')) + ".py";
    assert path[|path| - 4] == (cfg.Prefix() + Replace(n, '.', '/'))[|path| - 4];
  }

  lemma InitEnd(cfg: Config, n: string)
    ensures InitPath(cfg, n)[|InitPath(cfg, n)| - 4] == '_'
  {
    var path := InitPath(cfg, n);
    assert path[|path| - 4] == "/__init__.py"[8];
  }

  /** Executing a member of a package executes the member, the package and its ancestors. */
  lemma MemberAncestors(package: string, member: string, n: string)
    requires '.' !in member && n in ModuleAndAncestors(package + "." + member)
    ensures n == package + "." + member || n in ModuleAndAncestors(package)
  {
    SplitConcat(package, '.', member);
    SplitParts(member, '.');
    assert package + ['.'] + member == package + "." + member;
    var parts, all := Split(package, '.'), Split(package + "." + member, '.');
    assert all == parts + [member];
    var k :| 0 <= k < |all| && n == Ancestor(all, k);
    if k == 0 {
      JoinSplit(package + "." + member, '.');
      assert all[..|all|] == all;
    } else {
      assert all[..|all| - k] == parts[..|parts| - (k - 1)];
      assert ModuleAndAncestors(package)[k - 1] == n;
    }
  }

  lemma ExecutedShort(names: set<string>, bound: nat, n: string)
    requires n in Executed(names) && forall m :: m in names ==> |m| <= bound
    ensures |n| <= bound
  {
    var m :| m in names && n in ModuleAndAncestors(m);
    AncestorShorter(m, n);
  }

  lemma ClimbTo(name: string, package: string, tail: seq<string>)
    requires package != "" && tail != [] && Split(name, '.') == Split(package, '.') + tail
    requires forall p :: p in Split(package, '.') ==> p != ""
    ensures Climb(Anchor(name, false), |tail|, None) == Some(package)
  {
    hide Split, NonEmpty, Join;
    var base := Anchor(name, false);
    assert base[..|base| - (|tail| - 1)] == Split(package, '.');
    assert base[..|base| - (|tail| - 1)] + [] == Split(package, '.');
    NonEmptyKeeps(Split(package, '.'));
    JoinSplit(package, '.');
  }

  lemma LiteralParts(c: Clash)
    requires c.Valid()
    ensures Split(c.Literal(), '.') == Split(c.u, '.') + Split(c.w + "/" + c.z, '.')
    ensures |Split(c.w + "/" + c.z, '.')| == c.Level()
  {
    SplitParts(c.w, '.');
    hide Split, WellSegmented;
    SplitConcat(c.u, '.', c.w + "/" + c.z);
    assert c.u + ['.'] + (c.w + "/" + c.z) == c.Literal();
    SplitSlash(c.w, c.z);
  }

  lemma NameSegments(c: Clash)
    requires c.Valid()
    ensures Split(c.Name(), '.') == Split(c.Package(), '.') + Split(c.z, '.')
  {
    NameParts(c);
    hide Split, WellSegmented, Dotted;
    SplitConcat(c.Package(), '.', c.z);
    assert c.Package() + ['.'] + c.z == c.Package() + "." + c.z;
  }

  /** One import in one file means two different packages under its two names. */
  lemma TwoClimbs(c: Clash)
    requires c.Valid()
    ensures Climb(Anchor(c.Literal(), false), c.Level(), None) == Some(c.u)
    ensures Climb(Anchor(c.Name(), false), c.Level(), None) == Some(c.Package())
  {
    Spellings(c);
    TopNonEmpty(c);
    LiteralParts(c);
    NameSegments(c);
    hide Split, WellSegmented, Climb, Anchor, Dotted, DottedName;
    SegmentsNonEmpty(c.u);
    SegmentsNonEmpty(c.Package());
    ClimbTo(c.Literal(), c.u, Split(c.w + "/" + c.z, '.'));
    ClimbTo(c.Name(), c.Package(), Split(c.z, '.'));
  }

  function Plain(name: string, path: string): Frame { Frame(name, path, false) }

  lemma MemberIsNoStar(c: Clash)
    ensures c.Member() != "*" && Identifier(c.Member())
  {
    assert |"*"| == 1;
  }

  lemma OneNode(top: string, base: seq<string>, node: ImportNode)
    ensures Targets(top, base, [node]) == NodeTargets(top, base, node)
  {
    hide NodeTargets;
    assert node in [node];
  }

  lemma FileTargets(c: Clash, name: string, package: string)
    requires c.Valid()
    requires Climb(Anchor(name, false), c.Level(), None) == Some(package)
    requires Intra(c.cfg.topPackage, package) == {package}
    requires Intra(c.cfg.topPackage, package + "." + c.Member()) == {package + "." + c.Member()}
    ensures c.File() in c.Seen()
    ensures FrameTargets(c.cfg, c.Seen(), Plain(name, c.File())) == {package, package + "." + c.Member()}
  {
    hide Climb, Anchor, Intra;
    ThreeFiles(c);
    MemberIsNoStar(c);
    OneNode(c.cfg.topPackage, Anchor(name, false), ImportFrom(c.Level(), None, [c.Member()]));
    assert c.Member() in [c.Member()];
  }

  lemma RootTargets(c: Clash)
    requires c.Valid()
    ensures c.Root() in c.Seen()
    ensures FrameTargets(c.cfg, c.Seen(), Plain(c.RootName(), c.Root())) == {c.Whole(), c.Name()}
  {
    AllIntra(c);
    ThreeFiles(c);
    hide Intra, Anchor;
    var base := Anchor(c.RootName(), false);
    var first: ImportNode, second: ImportNode := DynamicImport(Some(c.Whole()), ""), Import([c.Name()]);
    assert NodeTargets(c.cfg.topPackage, base, first) == {c.Whole()};
    assert c.Name() in [c.Name()];
    assert NodeTargets(c.cfg.topPackage, base, second) == {c.Name()};
    assert first in [first, second] && second in [first, second];
  }

  /** Executing names that denote at most one new file queues that file, under any one of them. */
  lemma PushOne(cfg: Config, v: View, modules: set<string>, w: Walk, f: Frame)
    requires Files(cfg, v, modules) <= w.seen + {f.path} && f.path !in w.seen
    requires Resolves(cfg, v, f) && f.name in modules
    ensures Pushed(cfg, v, modules, w, Walk(w.seen + {f.path}, w.pending + {f}))
  {
    assert f.path in Files(cfg, v, modules);
    assert f in (w.pending + {f});
  }

  lemma PushNone(cfg: Config, v: View, modules: set<string>, w: Walk)
    requires Files(cfg, v, modules) <= w.seen
    ensures Pushed(cfg, v, modules, w, w)
  {
  }

  lemma MissingFiles(c: Clash, modules: set<string>)
    requires forall n :: n in modules ==> Misses(c, n)
    ensures Files(c.cfg, c.Seen(), modules) <= {c.Root(), c.File()}
  {
  }

  lemma ExecutesItself(names: set<string>, n: string)
    requires n in names
    ensures n in Executed(names)
  {
    SelfIsFirst(n);
  }

  lemma BothExecuted(c: Clash)
    requires c.Valid()
    ensures c.Literal() in Executed({c.Whole(), c.Name()}) && c.Name() in Executed({c.Whole(), c.Name()})
  {
    var names := {c.Whole(), c.Name()};
    ExecutesItself(names, c.Name());
    if c.tail == "" {
      ExecutesItself(names, c.Whole());
      assert c.Whole() == c.Literal();
    } else {
      assert c.Whole() == c.Literal() + ['.'] + c.tail[1..];
      PrefixExecuted(c.Literal(), c.tail[1..]);
      assert c.Whole() in names;
    }
  }

  function Started(c: Clash): Walk { Walk({c.Root()}, {Plain(c.RootName(), c.Root())}) }

  function Reached(c: Clash, name: string): Walk {
    Walk({c.Root(), c.File()}, {Plain(name, c.File())})
  }

  lemma RootNameFacts(c: Clash)
    ensures '/' !in c.RootName() && '.' !in c.RootName() && c.RootName() != ""
    ensures PathToModule(c.cfg, c.Root()) == Some((c.RootName(), false))
  {
    var n := c.RootName();
    assert n[|n| - 1] == 'r';
    EndsInLast(n, ".__init__");
    ModuleRoundTrip(c.cfg, n);
  }

  lemma EndsInLast(s: string, suffix: string)
    requires suffix != ""
    ensures EndsWith(s, suffix) ==> s != "" && s[|s| - 1] == suffix[|suffix| - 1]
  {
    if EndsWith(s, suffix) {
      assert s[|s| - |suffix|..][|suffix| - 1] == s[|s| - 1];
    }
  }

  lemma Lone(n: string)
    requires '.' !in n
    ensures Executed({n}) == {n}
  {
    SplitParts(n, '.');
    var parts := Split(n, '.');
    assert parts == [n] && parts[..1] == [n];
    assert Ancestor(parts, 0) == n;
    assert ModuleAndAncestors(n) == [n];
    ExecutedOne(n);
  }

  lemma RootAlone(c: Clash)
    requires c.Valid()
    ensures RootsAreModules(c.cfg, [c.Root()])
    ensures RootNames(c.cfg, [c.Root()], c.Seen()) == {c.RootName()}
  {
    ThreeFiles(c);
    RootNameFacts(c);
    hide PathToModule;
    assert c.Root() in [c.Root()];
  }

  lemma RootResolves(c: Clash)
    requires c.Valid()
    ensures Resolves(c.cfg, c.Seen(), Plain(c.RootName(), c.Root()))
    ensures Files(c.cfg, c.Seen(), {c.RootName()}) == {c.Root()}
  {
    ThreeFiles(c);
    hide PlainPath, InitPath;
  }

  lemma StartAt(cfg: Config, v: View, f: Frame)
    requires Resolves(cfg, v, f) && Files(cfg, v, {f.name}) == {f.path} && '.' !in f.name
    ensures Pushed(cfg, v, Executed({f.name}), Walk({}, {}), Walk({f.path}, {f}))
  {
    Lone(f.name);
    PushOne(cfg, v, {f.name}, Walk({}, {}), f);
    assert {} + {f.path} == {f.path};
    assert {} + {f} == {f};
  }

  lemma FirstStep(c: Clash)
    requires c.Valid()
    ensures RootsAreModules(c.cfg, [c.Root()])
    ensures Pushed(c.cfg, c.Seen(), Executed(RootNames(c.cfg, [c.Root()], c.Seen())), Walk({}, {}), Started(c))
  {
    RootAlone(c);
    RootNameFacts(c);
    RootResolves(c);
    hide Pushed, Executed, RootNames, Resolves, Files, RootsAreModules, Started;
    StartAt(c.cfg, c.Seen(), Plain(c.RootName(), c.Root()));
    StartedIs(c);
  }

  lemma StartedIs(c: Clash)
    ensures var f := Plain(c.RootName(), c.Root()); Started(c) == Walk({f.path}, {f}) && f.name == c.RootName()
  {
  }

  /** Expanding the root queues the file, under whichever of its two names comes first. */
  lemma SecondStep(c: Clash, name: string)
    requires c.Valid() && name in {c.Literal(), c.Name()}
    ensures Step(c.cfg, c.Seen(), Started(c), Reached(c, name))
  {
    var v, f := c.Seen(), Plain(name, c.File());
    RootTargets(c);
    ThreeFiles(c);
    Spellings(c);
    var names := {c.Whole(), c.Name()};
    var root := Plain(c.RootName(), c.Root());
    forall n | n in Executed(names)
      ensures Misses(c, n)
    {
      ExecutedShort(names, |c.Whole()|, n);
      ShortMisses(c, n);
    }
    MissingFiles(c, Executed(names));
    BothExecuted(c);
    hide Executed, Misses, FrameTargets, PlainPath;
    assert Resolves(c.cfg, v, f) by {
      FileResolves(c, name);
    }
    PushOne(c.cfg, v, Executed(names), Walk({c.Root()}, {}), f);
    assert {c.Root()} + {c.File()} == {c.Root(), c.File()};
    assert {} + {f} == {f};
    assert Started(c).pending - {root} == {};
    assert Expands(c.cfg, v, root, Started(c), Reached(c, name));
  }

  lemma FileResolves(c: Clash, name: string)
    requires c.Valid() && name in {c.Literal(), c.Name()}
    ensures Resolves(c.cfg, c.Seen(), Plain(name, c.File()))
  {
    Spellings(c);
    ThreeFiles(c);
  }

  /** Under the slashed name the file's import finds nothing new. */
  lemma ThirdStepSlashed(c: Clash)
    requires c.Valid()
    ensures Step(c.cfg, c.Seen(), Reached(c, c.Literal()), Walk({c.Root(), c.File()}, {}))
  {
    var names := {c.u, c.u + "." + c.Member()};
    AllIntra(c);
    TwoClimbs(c);
    FileTargets(c, c.Literal(), c.u);
    forall n | n in Executed(names)
      ensures Misses(c, n)
    {
      MemberOrAncestor(c, c.u, n);
      if n == c.u + "." + c.Member() {
        MemberMisses(c);
      } else {
        Spellings(c);
        ShortMisses(c, n);
      }
    }
    MissingFiles(c, Executed(names));
    hide Executed, Misses, FrameTargets, PlainPath, Files;
    var f := Plain(c.Literal(), c.File());
    PushNone(c.cfg, c.Seen(), Executed(names), Walk({c.Root(), c.File()}, {}));
    assert Reached(c, c.Literal()).pending - {f} == {};
    assert Expands(c.cfg, c.Seen(), f, Reached(c, c.Literal()), Walk({c.Root(), c.File()}, {}));
  }

  lemma MemberOrAncestor(c: Clash, package: string, n: string)
    requires n in Executed({package, package + "." + c.Member()})
    ensures n == package + "." + c.Member() || |n| <= |package|
  {
    MemberIsNoStar(c);
    var m :| m in {package, package + "." + c.Member()} && n in ModuleAndAncestors(m);
    if m == package {
      AncestorShorter(package, n);
    } else {
      MemberAncestors(package, c.Member(), n);
      if n in ModuleAndAncestors(package) {
        AncestorShorter(package, n);
      }
    }
  }

  /** Under its own name the same import finds the hidden file. */
  lemma ThirdStepDotted(c: Clash)
    requires c.Valid()
    ensures Step(c.cfg, c.Seen(), Reached(c, c.Name()), Found(c))
  {
    var v, deep := c.Seen(), c.Package() + "." + c.Member();
    var names, f, g := {c.Package(), deep}, Plain(c.Name(), c.File()), Plain(deep, c.Hidden());
    AllIntra(c);
    TwoClimbs(c);
    FileTargets(c, c.Name(), c.Package());
    ThreeFiles(c);
    forall n | n in Executed(names)
      ensures n == deep || Misses(c, n)
    {
      MemberOrAncestor(c, c.Package(), n);
      if n != deep {
        Spellings(c);
        ShortMisses(c, n);
      }
    }
    ExecutesItself(names, deep);
    assert ModuleToPath(c.cfg, deep, v) == Some((c.Hidden(), false));
    hide Executed, FrameTargets, PlainPath, InitPath;
    PushOne(c.cfg, v, Executed(names), Walk({c.Root(), c.File()}, {}), g);
    assert {c.Root(), c.File()} + {c.Hidden()} == {c.Root(), c.File(), c.Hidden()};
    assert {} + {g} == {g};
    assert Reached(c, c.Name()).pending - {f} == {};
    assert Expands(c.cfg, v, f, Reached(c, c.Name()), Found(c));
  }

  function Found(c: Clash): Walk {
    Walk({c.Root(), c.File(), c.Hidden()}, {Plain(c.Package() + "." + c.Member(), c.Hidden())})
  }

  lemma LastStep(c: Clash)
    requires c.Valid()
    ensures Step(c.cfg, c.Seen(), Found(c), Walk({c.Root(), c.File(), c.Hidden()}, {}))
  {
    var f, end := Plain(c.Package() + "." + c.Member(), c.Hidden()), Walk({c.Root(), c.File(), c.Hidden()}, {});
    ThreeFiles(c);
    assert FrameTargets(c.cfg, c.Seen(), f) == {};
    assert Executed({}) == {};
    hide FrameTargets, Executed, PlainPath;
    PushNone(c.cfg, c.Seen(), {}, end);
    assert Found(c).pending - {f} == {};
    assert Expands(c.cfg, c.Seen(), f, Found(c), end);
  }

  lemma Extend(cfg: Config, roots: seq<string>, v: View, ws: seq<Walk>, w: Walk)
    requires RootsAreModules(cfg, roots) && IsRun(cfg, roots, v, ws) && Step(cfg, v, ws[|ws| - 1], w)
    ensures IsRun(cfg, roots, v, ws + [w])
  {
    hide Step, Pushed, Executed, RootNames;
    var longer := ws + [w];
    forall k | 1 <= k < |longer|
      ensures Step(cfg, v, longer[k - 1], longer[k])
    {
      if k < |ws| {
        assert Step(cfg, v, ws[k - 1], ws[k]);
      }
    }
  }

  lemma Begin(c: Clash)
    requires c.Valid()
    ensures RootsAreModules(c.cfg, [c.Root()]) && IsRun(c.cfg, [c.Root()], c.Seen(), [Started(c)])
  {
    FirstStep(c);
    hide Step, Pushed, Executed, RootNames;
  }

  /**
   Order matters: one view, two runs that both empty the worklist, and only the one that takes the
   dotted name first finds the hidden file.
   */
  lemma SlashMatters(c: Clash) returns (slashed: seq<Walk>, dotted: seq<Walk>)
    requires c.Valid()
    ensures RootsAreModules(c.cfg, [c.Root()])
    ensures CompleteRun(c.cfg, [c.Root()], c.Seen(), slashed) && CompleteRun(c.cfg, [c.Root()], c.Seen(), dotted)
    ensures slashed[|slashed| - 1].seen == {c.Root(), c.File()}
    ensures dotted[|dotted| - 1].seen == {c.Root(), c.File(), c.Hidden()}
    ensures c.Hidden() !in {c.Root(), c.File()}
  {
    hide IsRun, Started, Reached, Found, Step, RootsAreModules;
    var roots, v := [c.Root()], c.Seen();
    Begin(c);
    SecondStep(c, c.Literal());
    ThirdStepSlashed(c);
    Extend(c.cfg, roots, v, [Started(c)], Reached(c, c.Literal()));
    slashed := [Started(c)] + [Reached(c, c.Literal())];
    Extend(c.cfg, roots, v, slashed, Walk({c.Root(), c.File()}, {}));
    slashed := slashed + [Walk({c.Root(), c.File()}, {})];
    SecondStep(c, c.Name());
    ThirdStepDotted(c);
    LastStep(c);
    Extend(c.cfg, roots, v, [Started(c)], Reached(c, c.Name()));
    dotted := [Started(c)] + [Reached(c, c.Name())];
    Extend(c.cfg, roots, v, dotted, Found(c));
    dotted := dotted + [Found(c)];
    Extend(c.cfg, roots, v, dotted, Walk({c.Root(), c.File(), c.Hidden()}, {}));
    dotted := dotted + [Walk({c.Root(), c.File(), c.Hidden()}, {})];
    ThreeFiles(c);
  }

  lemma TwoEnds(cfg: Config, roots: seq<string>, v: View, a: seq<Walk>, b: seq<Walk>)
    requires RootsAreModules(cfg, roots) && CompleteRun(cfg, roots, v, a) && CompleteRun(cfg, roots, v, b)
    requires a[|a| - 1].seen != b[|b| - 1].seen
    ensures !OrderIndependent(cfg, roots, v)
  {
    hide CompleteRun;
  }

  lemma ClashIsBuilt(c: Clash, literals: set<string>)
    requires c.Valid() && c.Whole() in literals
    ensures BuiltFrom(literals, c.Seen())
  {
    ThreeFiles(c);
    Spellings(c);
    SegmentsNonEmpty(c.Name());
    MemberIsNoStar(c);
    hide PlainPath, Split, Replace, WellSegmented;
  }

  lemma PlainComponents(cfg: Config, name: string)
    requires WellSegmented(name)
    ensures "" !in Components(cfg, PlainPath(cfg, name))
  {
    PlainParts(cfg, name);
    WholePieces(name);
  }

  /** The three files are files of a source tree. */
  lemma ClashIsTree(c: Clash)
    requires c.Valid()
    ensures TreePaths(c.cfg, c.Seen())
  {
    ThreeFiles(c);
    Spellings(c);
    hide Split, Replace, PlainPath, Components, WellSegmented, Dotted;
    RootSegmented(c);
    MemberSegmented(c, c.Package());
    PlainComponents(c.cfg, c.RootName());
    PlainComponents(c.cfg, c.Literal());
    PlainComponents(c.cfg, c.Package() + "." + c.Member());
  }

  lemma RootSegmented(c: Clash)
    ensures WellSegmented(c.RootName())
  {
  }

  lemma MemberSegmented(c: Clash, package: string)
    requires WellSegmented(package)
    ensures WellSegmented(package + "." + c.Member())
  {
  }

  lemma NotCalm(top: string, l: string) returns (a: string)
    requires !Calm(top, l)
    ensures Intra(top, l) != {} && a in ModuleAndAncestors(l) && '/' in a && WellSegmented(a)
  {
    a :| a in ModuleAndAncestors(l) && '/' in a && WellSegmented(a);
  }

  /**
   The exact condition: on every source tree whose dynamic imports use permitted literals the walk is
   order-independent just when each permitted literal is calm.
   */
  lemma OrderIndependentIff(cfg: Config, literals: set<string>)
    requires DottedName(cfg.topPackage) && cfg.topPackage != ""
    ensures (forall roots: seq<string>, v: View ::
               RootsAreModules(cfg, roots) && BuiltFrom(literals, v) && TreePaths(cfg, v) ==> OrderIndependent(cfg, roots, v))
            <==> forall l :: l in literals ==> Calm(cfg.topPackage, l)
  {
    hide OrderIndependent, RootsAreModules, BuiltFrom, CompleteRun, Calm, WellSegmented, DottedName, TreePaths;
    if forall l :: l in literals ==> Calm(cfg.topPackage, l) {
      forall roots: seq<string>, v: View | RootsAreModules(cfg, roots) && BuiltFrom(literals, v) && TreePaths(cfg, v)
        ensures OrderIndependent(cfg, roots, v)
      {
        CalmIsOrderIndependent(cfg, literals, roots, v);
      }
    } else {
      var l :| l in literals && !Calm(cfg.topPackage, l);
      var a := NotCalm(cfg.topPackage, l);
      var c := FindClash(cfg, l, a);
      var slashed, dotted := SlashMatters(c);
      ClashIsBuilt(c, literals);
      ClashIsTree(c);
      TwoEnds(cfg, [c.Root()], c.Seen(), slashed, dotted);
    }
  }
}
