/**
 The worklist walk that computes the reachable set, in the order the code takes and in any other.
 */
module WorkerReachability {
  import opened Wrappers
  import opened Strings
  import opened ImportClosure
  import opened ImportGraph

  datatype Reachability = Reachability(
    reachable: seq<string>, unresolvedDynamic: set<GapRecord>, unreadable: seq<string>)

  // ----- the walk, in any order -----

  /** A worklist entry: the dotted name a file was first reached by. */
  datatype Frame = Frame(name: string, path: string, isPackage: bool)

  datatype Walk = Walk(seen: set<string>, pending: set<Frame>)

  predicate Resolves(cfg: Config, v: View, f: Frame) {
    ModuleToPath(cfg, f.name, v) == Some((f.path, f.isPackage))
  }

  /** What expanding a frame imports, computed from the name it was reached by. */
  function FrameTargets(cfg: Config, v: View, f: Frame): set<string>
    requires f.path in v
  {
    if v[f.path].Unparseable? then {}
    else Targets(cfg.topPackage, Anchor(f.name, f.isPackage), v[f.path].nodes)
  }

  /** `w'` is `w` after executing `modules`: one frame, under one of those names, for each new file. */
  ghost predicate Pushed(cfg: Config, v: View, modules: set<string>, w: Walk, w': Walk) {
    && w'.seen == w.seen + Files(cfg, v, modules)
    && w.pending <= w'.pending
    && (forall f :: f in w'.pending && f !in w.pending ==>
          Resolves(cfg, v, f) && f.name in modules && f.path in w'.seen && f.path !in w.seen)
    && (forall p :: p in w'.seen && p !in w.seen ==> Pending(w', p))
  }

  /** Expanding any pending frame at all. */
  ghost predicate Expands(cfg: Config, v: View, f: Frame, w: Walk, w': Walk) {
    && f in w.pending && f.path in v
    && Pushed(cfg, v, Executed(FrameTargets(cfg, v, f)), w.(pending := w.pending - {f}), w')
  }

  ghost predicate Step(cfg: Config, v: View, w: Walk, w': Walk) {
    exists f :: Expands(cfg, v, f, w, w')
  }

  ghost predicate Pending(w: Walk, p: string) {
    exists f :: f in w.pending && f.path == p
  }

  ghost predicate WalkInv(cfg: Config, roots: seq<string>, v: View, w: Walk)
    requires RootsAreModules(cfg, roots)
  {
    && w.seen <= v.Keys
    && (forall f :: f in w.pending ==> Resolves(cfg, v, f) && '/' !in f.name && f.path in w.seen)
    && (forall t :: Closed(cfg, roots, v, t) ==> w.seen <= t)
    && (forall p :: p in w.seen && !Pending(w, p) ==> DragsAll(cfg, v, PathTargets(cfg, v, p)) <= w.seen)
  }

  lemma FrameTargetsByPath(cfg: Config, v: View, f: Frame)
    requires Resolves(cfg, v, f) && '/' !in f.name
    ensures f.path in v
    ensures v[f.path].Parsed? ==> Anchor(f.name, f.isPackage) == PathAnchor(cfg, f.path)
    ensures FrameTargets(cfg, v, f) == PathTargets(cfg, v, f.path)
  {
    AnchorOfPath(cfg, f.name, f.isPackage);
  }

  lemma PushKeeps(cfg: Config, roots: seq<string>, v: View, names: set<string>, w: Walk, w': Walk)
    requires RootsAreModules(cfg, roots)
    requires forall n :: n in names ==> SlashesMiss(cfg, v, n)
    requires Pushed(cfg, v, Executed(names), w, w')
    requires forall t :: Closed(cfg, roots, v, t) ==> DragsAll(cfg, v, names) <= t
    requires w.seen <= v.Keys
    requires forall f :: f in w.pending ==> Resolves(cfg, v, f) && '/' !in f.name && f.path in w.seen
    requires forall t :: Closed(cfg, roots, v, t) ==> w.seen <= t
    requires forall p :: p in w.seen && !Pending(w, p) ==> DragsAll(cfg, v, PathTargets(cfg, v, p)) <= w'.seen
    ensures WalkInv(cfg, roots, v, w')
  {
    forall p | p in w'.seen && !Pending(w', p)
      ensures DragsAll(cfg, v, PathTargets(cfg, v, p)) <= w'.seen
    {
      assert p in w.seen;
      assert !Pending(w, p);
    }
  }

  lemma ExpandKeeps(cfg: Config, roots: seq<string>, v: View, f: Frame, w: Walk, w': Walk)
    requires RootsAreModules(cfg, roots) && SlashFree(cfg, v)
    requires WalkInv(cfg, roots, v, w) && Expands(cfg, v, f, w, w')
    ensures WalkInv(cfg, roots, v, w')
  {
    FrameTargetsByPath(cfg, v, f);
    PathTargetsMiss(cfg, v, f.path);
    var rest := w.(pending := w.pending - {f});
    forall p | p in rest.seen && !Pending(rest, p)
      ensures DragsAll(cfg, v, PathTargets(cfg, v, p)) <= w'.seen
    {
      if p != f.path {
        assert !Pending(w, p);
      }
    }
    PushKeeps(cfg, roots, v, FrameTargets(cfg, v, f), rest, w');
  }

  function RootNames(cfg: Config, roots: seq<string>, v: View): set<string>
    requires RootsAreModules(cfg, roots)
  {
    set r | r in roots && r in v :: PathToModule(cfg, r).value.0
  }

  lemma RootNamesMiss(cfg: Config, roots: seq<string>, v: View)
    requires RootsAreModules(cfg, roots)
    ensures forall n :: n in RootNames(cfg, roots, v) ==> SlashesMiss(cfg, v, n)
  {
    forall n | n in RootNames(cfg, roots, v)
      ensures SlashesMiss(cfg, v, n)
    {
      SlashFreeMisses(cfg, v, n);
    }
  }

  lemma RootsStart(cfg: Config, roots: seq<string>, v: View, w: Walk)
    requires RootsAreModules(cfg, roots)
    requires Pushed(cfg, v, Executed(RootNames(cfg, roots, v)), Walk({}, {}), w)
    ensures WalkInv(cfg, roots, v, w)
    ensures DragsAll(cfg, v, RootNames(cfg, roots, v)) <= w.seen
  {
    RootNamesMiss(cfg, roots, v);
    DragsAllSplit(cfg, v, RootNames(cfg, roots, v));
    PushKeeps(cfg, roots, v, RootNames(cfg, roots, v), Walk({}, {}), w);
  }

  /** A finished walk that started from the roots has seen exactly `Reach`. */
  lemma FinishedIsReach(cfg: Config, roots: seq<string>, v: View, w: Walk)
    requires RootsAreModules(cfg, roots)
    requires WalkInv(cfg, roots, v, w) && w.pending == {}
    requires DragsAll(cfg, v, RootNames(cfg, roots, v)) <= w.seen
    ensures w.seen == Reach(cfg, roots, v)
  {
    DragsAllSplit(cfg, v, RootNames(cfg, roots, v));
    forall r | r in roots && r in v
      ensures Drags(cfg, v, PathToModule(cfg, r).value.0) <= w.seen
    {
      assert PathToModule(cfg, r).value.0 in RootNames(cfg, roots, v);
    }
    forall p | p in w.seen && p in v
      ensures DragsAll(cfg, v, PathTargets(cfg, v, p)) <= w.seen
    {
      assert !Pending(w, p);
    }
    LeastIsReach(cfg, roots, v, w.seen);
  }

  ghost predicate IsRun(cfg: Config, roots: seq<string>, v: View, ws: seq<Walk>)
    requires RootsAreModules(cfg, roots)
  {
    && |ws| > 0
    && Pushed(cfg, v, Executed(RootNames(cfg, roots, v)), Walk({}, {}), ws[0])
    && forall k :: 1 <= k < |ws| ==> Step(cfg, v, ws[k - 1], ws[k])
  }

  lemma {:induction false} RunKeeps(cfg: Config, roots: seq<string>, v: View, ws: seq<Walk>, k: nat)
    requires RootsAreModules(cfg, roots) && SlashFree(cfg, v)
    requires IsRun(cfg, roots, v, ws) && k < |ws|
    ensures WalkInv(cfg, roots, v, ws[k])
    ensures ws[0].seen <= ws[k].seen
  {
    if k == 0 {
      RootsStart(cfg, roots, v, ws[0]);
    } else {
      RunKeeps(cfg, roots, v, ws, k - 1);
      var f :| Expands(cfg, v, f, ws[k - 1], ws[k]);
      ExpandKeeps(cfg, roots, v, f, ws[k - 1], ws[k]);
    }
  }

  /**
   Order independence: whichever frame each step expands, and whichever dotted name each file was
   first reached by, a run that empties the worklist ends with the same set.
   */
  lemma AnyOrder(cfg: Config, roots: seq<string>, v: View, ws: seq<Walk>)
    requires RootsAreModules(cfg, roots) && SlashFree(cfg, v)
    requires IsRun(cfg, roots, v, ws) && ws[|ws| - 1].pending == {}
    ensures ws[|ws| - 1].seen == Reach(cfg, roots, v)
  {
    RunKeeps(cfg, roots, v, ws, |ws| - 1);
    FinishedIsReach(cfg, roots, v, ws[|ws| - 1]);
  }

  // ----- the walk as the code runs it -----

  /** The worklist holds each file once, among those seen, under a name that resolves to it. */
  ghost predicate Stacked(cfg: Config, v: View, seen: set<string>, stack: seq<Frame>) {
    && seen <= v.Keys
    && (forall f :: f in stack ==> f.path in seen && Resolves(cfg, v, f))
    && (forall i, j :: 0 <= i < j < |stack| ==> stack[i].path != stack[j].path)
  }

  function AsWalk(seen: set<string>, stack: seq<Frame>): Walk {
    Walk(seen, Elements(stack))
  }

  lemma PushCompose(cfg: Config, v: View, a: set<string>, b: set<string>, w: Walk, x: Walk, y: Walk)
    requires Pushed(cfg, v, a, w, x) && Pushed(cfg, v, b, x, y)
    ensures Pushed(cfg, v, a + b, w, y)
  {
    forall p | p in y.seen && p !in w.seen
      ensures Pending(y, p)
    {
      if p in x.seen {
        assert Pending(x, p);
      }
    }
  }

  lemma Appended<T>(xs: seq<T>, x: T)
    ensures Elements(xs + [x]) == Elements(xs) + {x}
  {
    assert forall y :: y in xs + [x] <==> y in xs || y == x;
  }

  method EnqueueName(cfg: Config, v: View, name: string, seen: set<string>, stack: seq<Frame>)
    returns (seen': set<string>, stack': seq<Frame>)
    requires Stacked(cfg, v, seen, stack)
    ensures Stacked(cfg, v, seen', stack') && seen <= seen'
    ensures Pushed(cfg, v, {name}, AsWalk(seen, stack), AsWalk(seen', stack'))
    ensures seen' == seen ==> stack' == stack
  {
    seen', stack' := seen, stack;
    var resolved := ModuleToPath(cfg, name, v);
    if resolved.Some? && resolved.value.0 !in seen {
      var f := Frame(name, resolved.value.0, resolved.value.1);
      seen', stack' := seen + {f.path}, stack + [f];
      Appended(stack, f);
      assert f in AsWalk(seen', stack').pending;
    }
  }

  lemma ExecutedOne(name: string)
    ensures Executed({name}) == Elements(ModuleAndAncestors(name))
  {
    forall a | a in ModuleAndAncestors(name)
      ensures a in Executed({name})
    {
      assert name in {name};
    }
  }

  /** Queues a module and its ancestor packages, each file that is not yet seen once. */
  method Enqueue(cfg: Config, v: View, target: string, seen: set<string>, stack: seq<Frame>)
    returns (seen': set<string>, stack': seq<Frame>)
    requires Stacked(cfg, v, seen, stack)
    ensures Stacked(cfg, v, seen', stack') && seen <= seen'
    ensures Pushed(cfg, v, Executed({target}), AsWalk(seen, stack), AsWalk(seen', stack'))
    ensures seen' == seen ==> stack' == stack
  {
    seen', stack' := seen, stack;
    var names := ModuleAndAncestors(target);
    for k := 0 to |names|
      invariant Stacked(cfg, v, seen', stack') && seen <= seen'
      invariant Pushed(cfg, v, Elements(names[..k]), AsWalk(seen, stack), AsWalk(seen', stack'))
      invariant seen' == seen ==> stack' == stack
    {
      ghost var before := AsWalk(seen', stack');
      assert names[..k + 1] == names[..k] + [names[k]];
      Appended(names[..k], names[k]);
      seen', stack' := EnqueueName(cfg, v, names[k], seen', stack');
      PushCompose(cfg, v, Elements(names[..k]), {names[k]}, AsWalk(seen, stack), before, AsWalk(seen', stack'));
    }
    assert names[..|names|] == names;
    ExecutedOne(target);
  }

  method EnqueueAll(cfg: Config, v: View, names: set<string>, seen: set<string>, stack: seq<Frame>)
    returns (seen': set<string>, stack': seq<Frame>)
    requires Stacked(cfg, v, seen, stack)
    ensures Stacked(cfg, v, seen', stack') && seen <= seen'
    ensures Pushed(cfg, v, Executed(names), AsWalk(seen, stack), AsWalk(seen', stack'))
    ensures seen' == seen ==> stack' == stack
  {
    seen', stack' := seen, stack;
    var todo := names;
    assert names - todo == {};
    while todo != {}
      invariant todo <= names
      invariant Stacked(cfg, v, seen', stack') && seen <= seen'
      invariant Pushed(cfg, v, Executed(names - todo), AsWalk(seen, stack), AsWalk(seen', stack'))
      invariant seen' == seen ==> stack' == stack
    {
      ghost var before := AsWalk(seen', stack');
      var name :| name in todo;
      seen', stack' := Enqueue(cfg, v, name, seen', stack');
      PushCompose(cfg, v, Executed(names - todo), Executed({name}), AsWalk(seen, stack), before, AsWalk(seen', stack'));
      assert Executed(names - (todo - {name})) == Executed(names - todo) + Executed({name});
      todo := todo - {name};
    }
    assert names - todo == names;
  }

  method EnqueueRoots(cfg: Config, roots: seq<string>, v: View)
    returns (refused: Option<string>, seen: set<string>, stack: seq<Frame>)
    ensures refused.Some? ==> refused.value in roots && PathToModule(cfg, refused.value).None?
    ensures refused.None? <==> RootsAreModules(cfg, roots)
    ensures refused.None? ==>
              Pushed(cfg, v, Executed(RootNames(cfg, roots, v)), Walk({}, {}), AsWalk(seen, stack))
    ensures Stacked(cfg, v, seen, stack)
  {
    hide RootNames, PathToModule, Executed, Pushed, RootsAreModules;
    refused, seen, stack := None, {}, [];
    NoRoots(cfg, v);
    assert roots[..0] == [];
    for k := 0 to |roots|
      invariant RootsAreModules(cfg, roots[..k])
      invariant Stacked(cfg, v, seen, stack)
      invariant Pushed(cfg, v, Executed(RootNames(cfg, roots[..k], v)), Walk({}, {}), AsWalk(seen, stack))
    {
      assert roots[..k + 1] == roots[..k] + [roots[k]];
      var resolved := PathToModule(cfg, roots[k]);
      if resolved.None? {
        refused := Some(roots[k]);
        RootRefused(cfg, roots, roots[k]);
        return;
      }
      RootNamesNext(cfg, roots[..k], v, roots[k]);
      ghost var done := RootNames(cfg, roots[..k], v);
      if roots[k] in v {
        ghost var before := AsWalk(seen, stack);
        seen, stack := Enqueue(cfg, v, resolved.value.0, seen, stack);
        PushCompose(cfg, v, Executed(done), Executed({resolved.value.0}), Walk({}, {}), before, AsWalk(seen, stack));
      }
    }
    assert roots[..|roots|] == roots;
  }

  lemma NoRoots(cfg: Config, v: View)
    ensures RootsAreModules(cfg, []) && RootNames(cfg, [], v) == {}
    ensures Pushed(cfg, v, Executed({}), Walk({}, {}), AsWalk({}, []))
  {
    assert Executed({}) == {};
  }

  lemma RootRefused(cfg: Config, roots: seq<string>, root: string)
    requires root in roots && PathToModule(cfg, root).None?
    ensures !RootsAreModules(cfg, roots)
  {
  }

  /** One more root: its name, when it is present, and what importing that executes. */
  lemma RootNamesNext(cfg: Config, roots: seq<string>, v: View, root: string)
    requires RootsAreModules(cfg, roots) && PathToModule(cfg, root).Some?
    ensures RootsAreModules(cfg, roots + [root])
    ensures var done, name := RootNames(cfg, roots, v), PathToModule(cfg, root).value.0;
            && RootNames(cfg, roots + [root], v) == (if root in v then done + {name} else done)
            && Executed(done + {name}) == Executed(done) + Executed({name})
  {
    hide PathToModule;
    var done, name := RootNames(cfg, roots, v), PathToModule(cfg, root).value.0;
    assert forall r :: r in roots + [root] <==> r in roots || r == root;
    assert RootNames(cfg, roots + [root], v) == if root in v then done + {name} else done;
    assert Executed(done + {name}) == Executed(done) + Executed({name});
  }

  function PathsOf(stack: seq<Frame>): set<string> {
    set f | f in stack :: f.path
  }

  /** Popping removes one frame and its path, and nothing else. */
  lemma Popped(cfg: Config, v: View, seen: set<string>, stack: seq<Frame>)
    requires Stacked(cfg, v, seen, stack) && stack != []
    ensures Stacked(cfg, v, seen, stack[..|stack| - 1])
    ensures Elements(stack[..|stack| - 1]) == Elements(stack) - {stack[|stack| - 1]}
    ensures PathsOf(stack[..|stack| - 1]) == PathsOf(stack) - {stack[|stack| - 1].path}
  {
    var last := stack[|stack| - 1];
    assert stack == stack[..|stack| - 1] + [last];
    Appended(stack[..|stack| - 1], last);
  }

  /** Every file a push adds waits on the worklist; the others wait or not as before. */
  lemma Settled(cfg: Config, v: View, modules: set<string>, seen: set<string>, stack: seq<Frame>,
                seen': set<string>, stack': seq<Frame>)
    requires Stacked(cfg, v, seen, stack) && Stacked(cfg, v, seen', stack')
    requires Pushed(cfg, v, modules, AsWalk(seen, stack), AsWalk(seen', stack'))
    ensures seen' - PathsOf(stack') == seen - PathsOf(stack)
  {
    assert forall f :: f in stack <==> f in AsWalk(seen, stack).pending;
    assert forall f :: f in stack' <==> f in AsWalk(seen', stack').pending;
    forall p | p in seen'
      ensures p in seen - PathsOf(stack) <==> p !in PathsOf(stack')
    {
      if p !in seen {
        assert Pending(AsWalk(seen', stack'), p);
      }
    }
  }

  /** One pop of the worklist: the file on top is expanded, and what it newly drags in is pushed. */
  method ExpandTop(cfg: Config, v: View, seen: set<string>, stack: seq<Frame>)
    returns (seen': set<string>, stack': seq<Frame>, dynamic: set<GapRecord>, readable: bool)
    requires Stacked(cfg, v, seen, stack) && stack != []
    ensures Stacked(cfg, v, seen', stack')
    ensures seen <= seen' && (seen' == seen ==> |stack'| < |stack|)
    ensures Expands(cfg, v, stack[|stack| - 1], AsWalk(seen, stack), AsWalk(seen', stack'))
    ensures seen' - PathsOf(stack') == seen - PathsOf(stack) + {stack[|stack| - 1].path}
    ensures readable == v[stack[|stack| - 1].path].Parsed?
    ensures '/' !in stack[|stack| - 1].name ==>
              (set d | d in dynamic :: d.gap) == PathGaps(cfg, v, stack[|stack| - 1].path)
  {
    var f := stack[|stack| - 1];
    assert f in stack;
    Popped(cfg, v, seen, stack);
    var rest := stack[..|stack| - 1];
    seen', stack', dynamic := seen, rest, {};
    readable := v[f.path].Parsed?;
    if readable {
      var targets;
      targets, dynamic := ImportTargets(v[f.path].nodes, f.name, f.isPackage, cfg.topPackage);
      GapsOfFrame(cfg, v, f, dynamic);
      seen', stack' := EnqueueAll(cfg, v, targets, seen, rest);
    } else {
      assert Executed({}) == {};
    }
    Settled(cfg, v, Executed(FrameTargets(cfg, v, f)), seen, rest, seen', stack');
  }

  lemma GapsOfFrame(cfg: Config, v: View, f: Frame, dynamic: set<GapRecord>)
    requires Resolves(cfg, v, f) && v[f.path].Parsed?
    requires dynamic == set g | g in Gaps(Anchor(f.name, f.isPackage), v[f.path].nodes) :: GapRecord(g, f.name)
    ensures '/' !in f.name ==> (set d | d in dynamic :: d.gap) == PathGaps(cfg, v, f.path)
  {
    if '/' !in f.name {
      AnchorOfPath(cfg, f.name, f.isPackage);
      assert forall g :: g in PathGaps(cfg, v, f.path) ==> GapRecord(g, f.name) in dynamic;
    }
  }

  // ----- what the main loop reports -----

  function Unparsed(v: View, paths: set<string>): set<string>
    requires paths <= v.Keys
  {
    set p | p in paths && v[p].Unparseable?
  }

  ghost function AllGaps(cfg: Config, v: View, paths: set<string>): set<Gap>
    requires paths <= v.Keys
  {
    set p, g | p in paths && g in PathGaps(cfg, v, p) :: g
  }

  /** How far the walk, and each list it reports, has come. */
  ghost predicate Progress(cfg: Config, roots: seq<string>, v: View, seen: set<string>, stack: seq<Frame>,
                           expanded: seq<string>, unreadable: set<string>, dynamic: set<GapRecord>)
    requires RootsAreModules(cfg, roots)
  {
    && Stacked(cfg, v, seen, stack)
    && DragsAll(cfg, v, RootNames(cfg, roots, v)) <= seen
    && (forall i, j :: 0 <= i < j < |expanded| ==> expanded[i] != expanded[j])
    && Elements(expanded) == seen - PathsOf(stack)
    && unreadable == Unparsed(v, seen - PathsOf(stack))
    && (SlashFree(cfg, v) ==>
          && WalkInv(cfg, roots, v, AsWalk(seen, stack))
          && (set d | d in dynamic :: d.gap) == AllGaps(cfg, v, seen - PathsOf(stack)))
  }

  lemma ProgressStarts(cfg: Config, roots: seq<string>, v: View, seen: set<string>, stack: seq<Frame>)
    requires RootsAreModules(cfg, roots) && Stacked(cfg, v, seen, stack)
    requires Pushed(cfg, v, Executed(RootNames(cfg, roots, v)), Walk({}, {}), AsWalk(seen, stack))
    ensures Progress(cfg, roots, v, seen, stack, [], {}, {})
  {
    RootsStart(cfg, roots, v, AsWalk(seen, stack));
    assert AsWalk({}, []) == Walk({}, {});
    Settled(cfg, v, Executed(RootNames(cfg, roots, v)), {}, [], seen, stack);
  }

  lemma ProgressKept(cfg: Config, roots: seq<string>, v: View, seen: set<string>, stack: seq<Frame>,
                     expanded: seq<string>, unreadable: set<string>, dynamic: set<GapRecord>,
                     seen': set<string>, stack': seq<Frame>, dyn: set<GapRecord>)
    requires RootsAreModules(cfg, roots) && stack != []
    requires Progress(cfg, roots, v, seen, stack, expanded, unreadable, dynamic)
    requires Stacked(cfg, v, seen', stack') && seen <= seen'
    requires Expands(cfg, v, stack[|stack| - 1], AsWalk(seen, stack), AsWalk(seen', stack'))
    requires seen' - PathsOf(stack') == seen - PathsOf(stack) + {stack[|stack| - 1].path}
    requires '/' !in stack[|stack| - 1].name ==>
               (set d | d in dyn :: d.gap) == PathGaps(cfg, v, stack[|stack| - 1].path)
    ensures var f := stack[|stack| - 1];
            Progress(cfg, roots, v, seen', stack', expanded + [f.path],
                     unreadable + if v[f.path].Parsed? then {} else {f.path}, dynamic + dyn)
  {
    var f := stack[|stack| - 1];
    Appended(expanded, f.path);
    assert f.path in PathsOf(stack);
    assert forall p :: p in expanded ==> p in Elements(expanded);
    if SlashFree(cfg, v) {
      assert f in Elements(stack);
      ExpandKeeps(cfg, roots, v, f, AsWalk(seen, stack), AsWalk(seen', stack'));
      GapsGrow(cfg, v, seen - PathsOf(stack), f.path);
      assert (set d | d in dynamic + dyn :: d.gap) == (set d | d in dynamic :: d.gap) + (set d | d in dyn :: d.gap);
    }
  }

  lemma GapsGrow(cfg: Config, v: View, paths: set<string>, p: string)
    requires paths <= v.Keys && p in v
    ensures AllGaps(cfg, v, paths + {p}) == AllGaps(cfg, v, paths) + PathGaps(cfg, v, p)
  {
  }

  lemma ProgressDone(cfg: Config, roots: seq<string>, v: View, seen: set<string>, expanded: seq<string>,
                     unreadable: set<string>, dynamic: set<GapRecord>)
    requires RootsAreModules(cfg, roots) && SlashFree(cfg, v)
    requires Progress(cfg, roots, v, seen, [], expanded, unreadable, dynamic)
    ensures seen == Elements(expanded) == Reach(cfg, roots, v)
    ensures unreadable == Unparsed(v, seen)
    ensures (set d | d in dynamic :: d.gap) == AllGaps(cfg, v, seen)
  {
    assert seen - PathsOf([]) == seen;
    FinishedIsReach(cfg, roots, v, AsWalk(seen, []));
  }

  /** The least closed set and what is reported of it, in terms of chains of imports. */
  lemma InFiles(cfg: Config, roots: seq<string>, v: View, dynamic: set<GapRecord>)
    requires RootsAreModules(cfg, roots) && Reach(cfg, roots, v) <= v.Keys
    requires (set d | d in dynamic :: d.gap) == AllGaps(cfg, v, Reach(cfg, roots, v))
    ensures var reach := Reach(cfg, roots, v);
            && Ascending(Sorted(reach)) && Ascending(Sorted(Unparsed(v, reach)))
            && (forall q :: q in Sorted(reach) <==> Followed(cfg, roots, v, q))
            && (forall q :: q in Sorted(Unparsed(v, reach)) <==> Followed(cfg, roots, v, q) && q in v && v[q].Unparseable?)
            && (forall g :: BlockedSomewhere(cfg, roots, v, g) <==> exists d :: d in dynamic && d.gap == g)
  {
    hide Reach, Followed, BlockedAt, PathGaps, Sorted, Ascending;
    var reach := Reach(cfg, roots, v);
    forall q
      ensures q in reach <==> Followed(cfg, roots, v, q)
    {
      ReachIff(cfg, roots, v, q);
    }
    SortedFacts(reach);
    SortedFacts(Unparsed(v, reach));
    SortedHolds(reach);
    SortedHolds(Unparsed(v, reach));
    forall g
      ensures BlockedSomewhere(cfg, roots, v, g) <==> exists d :: d in dynamic && d.gap == g
    {
      assert (exists d :: d in dynamic && d.gap == g) <==> g in (set d | d in dynamic :: d.gap);
      forall p | p in reach
        ensures BlockedAt(cfg, v, p, g) <==> g in PathGaps(cfg, v, p)
      {
        ReachedGaps(cfg, roots, v, p, g);
      }
      assert g in AllGaps(cfg, v, reach) <==> exists p :: p in reach && g in PathGaps(cfg, v, p);
    }
  }

  lemma SortedHolds(xs: set<string>)
    ensures forall x :: x in Sorted(xs) <==> x in xs
  {
    SortedFacts(xs);
    assert forall x :: x in Sorted(xs) <==> x in Elements(Sorted(xs));
  }

  /**
   `reachable_from`: where no slashed name reaches a file it returns the least closed set, expands each
   of its files exactly once, and reports every file of it that does not parse and every import in
   it the graph could not follow, whatever order the targets of a module are taken in.
   */
  method ReachableFrom(cfg: Config, roots: seq<string>, v: View)
    returns (r: Result<Reachability, string>, ghost expanded: seq<string>)
    ensures r.Ok? <==> RootsAreModules(cfg, roots)
    ensures r.Err? ==> r.error in roots && PathToModule(cfg, r.error).None?
    ensures r.Ok? ==> forall i, j :: 0 <= i < j < |expanded| ==> expanded[i] != expanded[j]
    ensures r.Ok? && SlashFree(cfg, v) ==>
              && r.value.reachable == Sorted(Reach(cfg, roots, v))
              && Elements(expanded) == Reach(cfg, roots, v)
              && r.value.unreadable == Sorted(Unparsed(v, Reach(cfg, roots, v)))
              && (set d | d in r.value.unresolvedDynamic :: d.gap) == AllGaps(cfg, v, Reach(cfg, roots, v))
    ensures r.Ok? && SlashFree(cfg, v) ==>
              && Ascending(r.value.reachable) && Ascending(r.value.unreadable)
              && (forall q :: q in r.value.reachable <==> Followed(cfg, roots, v, q))
              && (forall q :: q in r.value.unreadable <==> Followed(cfg, roots, v, q) && q in v && v[q].Unparseable?)
              && (forall g :: BlockedSomewhere(cfg, roots, v, g) <==> exists d :: d in r.value.unresolvedDynamic && d.gap == g)
  {
    expanded := [];
    var refused, seen, stack := EnqueueRoots(cfg, roots, v);
    if refused.Some? {
      r := Err(refused.value);
      return;
    }
    var dynamic: set<GapRecord>, unreadable: set<string> := {}, {};
    ProgressStarts(cfg, roots, v, seen, stack);
    while stack != []
      invariant Progress(cfg, roots, v, seen, stack, expanded, unreadable, dynamic)
      decreases v.Keys - seen, |stack|
    {
      var path := stack[|stack| - 1].path;
      ghost var oldSeen, oldStack := seen, stack;
      var dyn, readable;
      seen, stack, dyn, readable := ExpandTop(cfg, v, seen, stack);
      ProgressKept(cfg, roots, v, oldSeen, oldStack, expanded, unreadable, dynamic, seen, stack, dyn);
      expanded := expanded + [path];
      dynamic := dynamic + dyn;
      if !readable {
        unreadable := unreadable + {path};
      }
    }
    if SlashFree(cfg, v) {
      ProgressDone(cfg, roots, v, seen, expanded, unreadable, dynamic);
      InFiles(cfg, roots, v, dynamic);
    }
    r := Ok(Reachability(Sorted(seen), dynamic, Sorted(unreadable)));
  }
}
