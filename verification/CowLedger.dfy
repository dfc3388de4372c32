/**
 The references of a run, accounted for: what the kernel holds after it is what it
 held before, what it took, and what it lost, less what it gave away.
 */
module CowLedger {
  import opened PageTree
  import opened CowSpec
  import opened CowFault
  import opened CowSteps
  import opened CowMap
  import opened CowRun
  import PM = PageMap

  /** The fork has marked the parent and taken its references, but the new thread could not be set up. */
  predicate Abandoned(op: Op)
  {
    op.Fork? && op.root != 0 && op.tlp != 0 && !op.complete
  }

  /** The thread-local PDPT of a new thread, which no user half reaches. */
  function Locals(op: Op): (frames: multiset<nat>)
  {
    if op.Fork? && op.root != 0 && op.tlp != 0 && op.complete then multiset{op.tlp} else multiset{}
  }

  /** What an abandoned fork does not give back: its thread-local PDPT, of which only what is
      below it is freed, and the references to everything the parent reaches. */
  function Lost(m: Machine, op: Op): (frames: multiset<nat>)
    requires Named(m, op)
  {
    if Abandoned(op) then multiset{op.tlp} + Tree(m.mem, m.spaces[op.a]) else multiset{}
  }

  /** What a walk finds mapped, as references. */
  function Found(w: PM.Mapping): (frames: multiset<nat>)
  {
    if w.Mapped? then multiset{w.frame} else multiset{}
  }

  /** The page mapped at va of space a before. */
  function Before(m: Machine, a: nat, va: nat): (frames: multiset<nat>)
    requires a < |m.spaces|
  {
    Found(PM.Walk(m.mem, m.spaces[a], Path(va), 0))
  }

  /** Mapping changes what is mapped: it succeeds, and with another page. */
  predicate Remaps(m: Machine, op: Op)
    requires Named(m, op)
  {
    && op.Map?
    && MapWalk(m, m.spaces[op.a], Path(op.va), 0, op.pages, op.frame, op.flags).1.Done?
    && PM.Walk(m.mem, m.spaces[op.a], Path(op.va), 0) != PM.Mapped(op.frame, 3)
  }

  /** References that come into the kernel's hands, and that leave them. */
  function Gained(m: Machine, op: Op): (frames: multiset<nat>)
    requires Named(m, op)
  {
    match op
    case Fork(_, _, _, _) => Locals(op) + Lost(m, op)
    case Map(a, va, _, _, _) => if Remaps(m, op) then Before(m, a, va) else multiset{}
    case UnmapPage(a, va) => Before(m, a, va)
    case Grab(page, _) => multiset{page}
    case _ => multiset{}
  }

  function Spent(m: Machine, op: Op): (frames: multiset<nat>)
    requires Named(m, op)
  {
    match op
    case Map(_, _, _, frame, _) => if Remaps(m, op) then multiset{frame} else multiset{}
    case Drop(frame) => multiset{frame}
    case _ => multiset{}
  }

  /* ---------- one step ---------- */

  lemma {:induction false} CloneHeld(m: Machine, a: nat, root: nat, tlp: nat, complete: bool)
    requires Inv(m) && a < |m.spaces| && CloneAllocOk(m, root, tlp)
    ensures var op := Fork(a, root, tlp, complete);
      Clone(m, a, root, tlp, complete).held == m.held + Locals(op) + Lost(m, op)
  {
    hide Inv, Tree, MarkEntries, Entries, GoodSpace, ClonedEntries;
    if root != 0 && tlp != 0 {
      var c := Table(seq(ENTRIES, _ => NO_ENTRY));
      TakeInv(m, tlp, c);
      FreshUnreached(m, tlp);
      SpaceTree(m, tlp, c, a);
      var m1 := Take(m, tlp, c);
      MarkHoldInv(m1, a);
      if complete {
        AttachedTree(m1, a, root, tlp);
        GivenOn(m1.held, Tree(m.mem, m.spaces[a]), multiset{root});
      }
    }
  }

  lemma SpaceTree(m: Machine, page: nat, c: Content, b: nat)
    requires Inv(m) && b < |m.spaces| && page !in m.count
    ensures Tree(Take(m, page, c).mem, m.spaces[b]) == Tree(m.mem, m.spaces[b])
  {
    hide Inv, Tree;
    FreshUnreached(m, page);
    TreeFrame(m.mem, Take(m, page, c).mem, m.spaces[b]);
  }

  lemma GivenOn(held: multiset<nat>, x: multiset<nat>, y: multiset<nat>)
    ensures held + x + y - y - x == held
  {
  }

  /** The new PML4T reaches what its parent reaches. */
  lemma {:induction false} AttachedTree(m1: Machine, a: nat, root: nat, tlp: nat)
    requires Inv(m1) && a < |m1.spaces| && root !in m1.count
    ensures var m2 := Mark(m1, m1.spaces[a]);
      var m3 := Hold(m2, Tree(m2.mem, m1.spaces[a]));
      var m4 := Take(m3, root, Table(ClonedEntries(Entries(m3.mem, m1.spaces[a]), tlp)));
      Tree(m4.mem, root) == Tree(m1.mem, m1.spaces[a])
  {
    hide Inv, Reach, GoodSpace;
    var parent := m1.spaces[a];
    var m2 := Mark(m1, parent);
    var m3 := Hold(m2, Tree(m2.mem, parent));
    var c := Table(ClonedEntries(Entries(m3.mem, parent), tlp));
    MarkHoldInv(m1, a);
    FreshUnreached(m1, root);
    assert root !in m3.count;
    var m4 := Take(m3, root, c);
    SpaceTable(m3, a);
    FreshUnreached(m3, root);
    assert UserHalf(m4.mem, root) == UserHalf(m4.mem, parent) == UserHalf(m3.mem, parent);
    TreeFrame(m3.mem, m4.mem, parent);
  }

  /** The kernel's references after a mapping, where the walk found w before. */
  ghost predicate HeldResult(m: Machine, w: PM.Mapping, frame: nat, r: (Machine, PM.Outcome))
  {
    r.0.held == if r.1.Done? && w != PM.Mapped(frame, 3) then m.held - multiset{frame} + Found(w) else m.held
  }

  lemma {:induction false} MapHeld(m: Machine, a: nat, path: seq<nat>, depth: nat, t: nat, pages: seq<nat>, frame: nat, flags: Entry)
    requires Inv(m) && a < |m.spaces| && depth < |path| == |pages| == 4 && path[0] < USER_ENTRIES
    requires At(m, a, path[..depth], t) && FrameOk(m, t, path, depth, frame, flags) && MapOk(m, t, path, depth, pages, flags)
    ensures HeldResult(m, PM.Walk(m.mem, t, path, depth), frame, MapWalk(m, t, path, depth, pages, frame, flags))
    decreases 4 - depth
  {
    hide Inv, At, HeldResult, AddTable, SetLeaf, Set, FrameOk, PM.Walk;
    var es := Entries(m.mem, t);
    var p, i := path[..depth], path[depth];
    if i >= |es| {
      HeldNot(m, PM.Walk(m.mem, t, path, depth), frame, PM.NoMemory);
      return;
    }
    assert path[..depth + 1] == p + [i];
    if depth == 3 {
      LeafHeld(m, t, path, frame, flags);
    } else if es[i].present {
      if PM.Large(es[i], depth) {
        HeldNot(m, PM.Walk(m.mem, t, path, depth), frame, PM.InLargePage);
      } else {
        AtDown(m, a, p, t, i);
        WalkDown(m.mem, t, path, depth);
        FrameDown(m, t, path, depth, frame, flags);
        MapHeld(m, a, path, depth + 1, es[i].frame, pages, frame, flags);
      }
    } else if pages[depth] == 0 {
      NoMemoryHeld(m, t, i, PM.Walk(m.mem, t, path, depth), frame);
    } else {
      var page := pages[depth];
      FrameFlags(m, t, path, depth, frame, flags);
      AddTableInv(m, a, p, t, i, page, flags);
      AddTablePage(m, a, p, t, page);
      AddTableFrame(m, a, path, depth, t, page, frame, flags);
      MapHeld(AddTable(m, t, i, page, flags), a, path, depth + 1, page, pages, frame, flags);
      AddedHeld(m, t, path, depth, page, frame, flags, MapWalk(m, t, path, depth, pages, frame, flags));
    }
  }

  lemma WalkDown(mem: Mem, t: nat, path: seq<nat>, depth: nat)
    requires depth < 3 && |path| == 4 && path[depth] < |Entries(mem, t)|
    requires Entries(mem, t)[path[depth]].present && !PM.Large(Entries(mem, t)[path[depth]], depth)
    ensures PM.Walk(mem, t, path, depth) == PM.Walk(mem, Entries(mem, t)[path[depth]].frame, path, depth + 1)
  {
  }

  lemma FrameDown(m: Machine, t: nat, path: seq<nat>, depth: nat, frame: nat, flags: Entry)
    requires depth < 3 && |path| == 4 && path[depth] < |Entries(m.mem, t)| && FrameOk(m, t, path, depth, frame, flags)
    requires Entries(m.mem, t)[path[depth]].present && !PM.Large(Entries(m.mem, t)[path[depth]], depth)
    ensures FrameOk(m, Entries(m.mem, t)[path[depth]].frame, path, depth + 1, frame, flags)
  {
  }

  lemma FrameFlags(m: Machine, t: nat, path: seq<nat>, depth: nat, frame: nat, flags: Entry)
    requires depth < |path| == 4 && FrameOk(m, t, path, depth, frame, flags)
    ensures !flags.size && !flags.cow
  {
  }

  lemma HeldNot(m: Machine, w: PM.Mapping, frame: nat, o: PM.Outcome)
    requires !o.Done?
    ensures HeldResult(m, w, frame, (m, o))
  {
  }

  lemma LeafHeld(m: Machine, t: nat, path: seq<nat>, frame: nat, flags: Entry)
    requires |path| == 4 && path[3] < |Entries(m.mem, t)|
    ensures HeldResult(m, PM.Walk(m.mem, t, path, 3), frame, (SetLeaf(m, t, path[3], PM.LeafEntry(frame, flags)), PM.Done))
  {
  }

  lemma NoMemoryHeld(m: Machine, t: nat, i: nat, w: PM.Mapping, frame: nat)
    requires i < |Entries(m.mem, t)|
    ensures HeldResult(m, w, frame, (Set(m, t, i, NO_ENTRY, multiset{}, multiset{}), PM.NoMemory))
  {
  }

  /** A new table maps nothing, and costs the kernel no reference. */
  lemma AddedHeld(m: Machine, t: nat, path: seq<nat>, depth: nat, page: nat, frame: nat, flags: Entry, r: (Machine, PM.Outcome))
    requires depth < 3 && |path| == 4 && path[depth] < |Entries(m.mem, t)| && page != t
    requires !Entries(m.mem, t)[path[depth]].present
    requires var m1 := AddTable(m, t, path[depth], page, flags);
      HeldResult(m1, PM.Walk(m1.mem, page, path, depth + 1), frame, r)
    ensures HeldResult(m, PM.Walk(m.mem, t, path, depth), frame, r)
  {
    var m1 := AddTable(m, t, path[depth], page, flags);
    assert Entries(m1.mem, page) == PM.EmptyTable();
    assert PM.Walk(m1.mem, page, path, depth + 1) == PM.Absent;
  }

  lemma {:induction false} UnmapHeld(m: Machine, t: nat, path: seq<nat>, depth: nat)
    requires depth < |path| == 4
    ensures UnmapWalk(m, t, path, depth).held == m.held + Found(PM.Walk(m.mem, t, path, depth))
    decreases 4 - depth
  {
    var es := Entries(m.mem, t);
    var i := path[depth];
    if i < |es| && depth < 3 && es[i].present && !PM.Large(es[i], depth) {
      UnmapHeld(m, es[i].frame, path, depth + 1);
    }
  }

  lemma {:induction false} StepHeld(m: Machine, op: Op)
    requires Inv(m) && Allowed(m, op)
    ensures Spent(m, op) <= m.held
    ensures Step(m, op).held == m.held - Spent(m, op) + Gained(m, op)
  {
    hide Inv, Clone, HandleFault, UserStore, Unmap, MapWalk, UnmapWalk, MapOk, UnmapOk, FaultOk, FrameOk, Tree, SameLoads, WritablePath, Remaps, Before;
    match op
    case Fork(a, root, tlp, complete) => CloneHeld(m, a, root, tlp, complete);
    case Access(a, va, pages) => FaultKeeps(m, a, va, pages);
    case Write(a, va, b, pages) => WriteHeld(m, a, va, b, pages);
    case Exit(a) => ExitHeld(m, a);
    case Map(_, _, _, _, _) => MapStepHeld(m, op);
    case UnmapPage(a, va) => UnmapStepHeld(m, a, va);
    case Grab(_, _) =>
    case Drop(_) =>
  }

  lemma {:induction false} WriteHeld(m: Machine, a: nat, va: nat, b: bv8, pages: seq<nat>)
    requires Inv(m) && a < |m.spaces| && |pages| == 4 && FaultOk(m, a, va, pages)
    ensures UserStore(m, a, va, b, pages).0.held == m.held
  {
    hide Inv, HandleFault, CanStore, SameLoads, WritablePath, FaultOk;
    FaultKeeps(m, a, va, pages);
  }

  lemma {:induction false} MapStepHeld(m: Machine, op: Op)
    requires Inv(m) && Allowed(m, op) && op.Map?
    ensures Spent(m, op) <= m.held
    ensures Step(m, op).held == m.held - Spent(m, op) + Gained(m, op)
  {
    hide Inv, MapWalk, MapOk, Path, PM.Walk;
    PathDigits(op.va);
    assert Path(op.va)[..0] == [];
    MapHeld(m, op.a, Path(op.va), 0, m.spaces[op.a], op.pages, op.frame, op.flags);
  }

  lemma UnmapStepHeld(m: Machine, a: nat, va: nat)
    requires a < |m.spaces|
    ensures UnmapWalk(m, m.spaces[a], Path(va), 0).held == m.held + Before(m, a, va)
  {
    hide UnmapWalk, PM.Walk;
    UnmapHeld(m, m.spaces[a], Path(va), 0);
  }

  lemma ExitHeld(m: Machine, a: nat)
    requires a < |m.spaces|
    ensures Unmap(m, a).held == m.held
  {
    hide Tree;
    assert m.held + Tree(m.mem, m.spaces[a]) - Tree(m.mem, m.spaces[a]) == m.held;
  }

  /* ---------- runs ---------- */

  ghost function AllGained(m: Machine, ops: seq<Op>): (frames: multiset<nat>)
    requires Runs(m, ops)
    decreases |ops|
  {
    if ops == [] then multiset{} else Gained(m, ops[0]) + AllGained(Step(m, ops[0]), ops[1..])
  }

  ghost function AllSpent(m: Machine, ops: seq<Op>): (frames: multiset<nat>)
    requires Runs(m, ops)
    decreases |ops|
  {
    if ops == [] then multiset{} else Spent(m, ops[0]) + AllSpent(Step(m, ops[0]), ops[1..])
  }

  /** Conservation: over every run, what is held changes by what is gained and spent, and a
      frame's count is its occurrences plus what is held. */
  lemma {:induction false} RunLedger(m: Machine, ops: seq<Op>, f: nat)
    requires Inv(m) && Runs(m, ops)
    ensures Run(m, ops).held[f] + AllSpent(m, ops)[f] == m.held[f] + AllGained(m, ops)[f]
    ensures Run(m, ops).count[f] + AllSpent(m, ops)[f] == Occurrences(Run(m, ops))[f] + m.held[f] + AllGained(m, ops)[f]
    decreases |ops|
  {
    hide Step, Gained, Spent, Occurrences, GoodSpace, FaultOk;
    if ops != [] {
      StepInv(m, ops[0]);
      StepHeld(m, ops[0]);
      Booked(m.held, Spent(m, ops[0]), Gained(m, ops[0]), f);
      RunLedger(Step(m, ops[0]), ops[1..], f);
    }
  }

  lemma Booked(held: multiset<nat>, spent: multiset<nat>, gained: multiset<nat>, f: nat)
    requires spent <= held
    ensures (held - spent + gained)[f] + spent[f] == held[f] + gained[f]
  {
    assert spent[f] <= held[f];
  }

  /** Exact accounting over a run: a frame is free exactly when nothing refers to it. */
  lemma {:induction false} RunAccounting(m: Machine, ops: seq<Op>, f: nat)
    requires Inv(m) && Runs(m, ops)
    ensures var m' := Run(m, ops);
      && m'.count[f] == Occurrences(m')[f] + m'.held[f]
      && (f !in m'.count <==> f !in m'.held && f !in m'.spaces
                              && forall b | 0 <= b < |m'.spaces| :: f !in Tree(m'.mem, m'.spaces[b]))
  {
    RunRefinesEagerCopy(m, ops);
    var m' := Run(m, ops);
    hide Tree, Sum;
    if f !in m'.count {
      FreshUnreached(m', f);
    } else if f in Trees(m'.mem, m'.spaces) {
      var b := InSumWitness(TreeList(m'.mem, m'.spaces), f);
    }
  }

  /* ---------- runs of user code ---------- */

  /** Forks, faults, stores and exits: what happens without the kernel mapping anything. */
  predicate UserOp(op: Op)
  {
    op.Fork? || op.Access? || op.Write? || op.Exit?
  }

  ghost function AllLocals(ops: seq<Op>): (frames: multiset<nat>)
  {
    if ops == [] then multiset{} else Locals(ops[0]) + AllLocals(ops[1..])
  }

  ghost function AllLost(m: Machine, ops: seq<Op>): (frames: multiset<nat>)
    requires Runs(m, ops)
    decreases |ops|
  {
    if ops == [] then multiset{} else Lost(m, ops[0]) + AllLost(Step(m, ops[0]), ops[1..])
  }

  /** Some fork of the run is abandoned after both its allocations. */
  predicate Abandons(ops: seq<Op>)
  {
    exists i | 0 <= i < |ops| :: Abandoned(ops[i])
  }

  /** Faults, stores and exits neither take nor lose a reference; a completed fork takes one to
      its thread-local PDPT. References are lost exactly when a fork is abandoned. */
  lemma {:induction false} UserRunHeld(m: Machine, ops: seq<Op>)
    requires Inv(m) && Runs(m, ops) && forall i | 0 <= i < |ops| :: UserOp(ops[i])
    ensures Run(m, ops).held == m.held + AllLocals(ops) + AllLost(m, ops)
    ensures AllLost(m, ops) == multiset{} <==> !Abandons(ops)
    decreases |ops|
  {
    hide Inv, Step, FaultOk, Lost, Locals, Abandoned, Abandons;
    AbandonsFirst(ops);
    if ops != [] {
      assert UserOp(ops[0]);
      var m1 := Step(m, ops[0]);
      StepInv(m, ops[0]);
      UserStepHeld(m, ops[0]);
      assert forall i | 0 <= i < |ops[1..]| :: ops[1..][i] == ops[i + 1];
      UserRunHeld(m1, ops[1..]);
      Reordered(m.held, Locals(ops[0]), Lost(m, ops[0]), AllLocals(ops[1..]), AllLost(m1, ops[1..]));
      LostExactly(m, ops[0]);
      SumEmpty(Lost(m, ops[0]), AllLost(m1, ops[1..]));
    }
  }

  lemma AbandonsFirst(ops: seq<Op>)
    ensures Abandons(ops) <==> ops != [] && (Abandoned(ops[0]) || Abandons(ops[1..]))
  {
    hide Abandoned;
    if ops != [] {
      assert forall i | 0 <= i < |ops[1..]| :: ops[1..][i] == ops[i + 1];
      if i :| 0 < i < |ops| && Abandoned(ops[i]) {
        assert Abandoned(ops[1..][i - 1]);
      }
    }
  }

  lemma LostExactly(m: Machine, op: Op)
    requires Named(m, op)
    ensures Lost(m, op) == multiset{} <==> !Abandoned(op)
  {
    hide Tree;
    if Abandoned(op) {
      assert op.tlp in Lost(m, op);
    }
  }

  /** Beyond the PDPT something is lost exactly if the parent maps something. */
  lemma {:induction false} TreeEmpty(m: Machine, a: nat)
    requires a < |m.spaces|
    ensures Tree(m.mem, m.spaces[a]) == multiset{} <==>
            forall i | 0 <= i < |UserHalf(m.mem, m.spaces[a])| :: !UserHalf(m.mem, m.spaces[a])[i].present
  {
    hide Reach;
    var es := UserHalf(m.mem, m.spaces[a]);
    if i :| 0 <= i < |es| && es[i].present {
      EntryInReach(m.mem, es, i, 4);
    } else {
      NothingReached(m.mem, m.count, es, 4);
    }
  }

  /** The PDPT of an abandoned fork stays counted though nothing names it. */
  lemma {:induction false} AbandonedLeaks(m: Machine, a: nat, root: nat, tlp: nat)
    requires Inv(m) && a < |m.spaces| && CloneAllocOk(m, root, tlp) && root != 0 && tlp != 0
    ensures var m' := Clone(m, a, root, tlp, false);
      && m'.count[tlp] == 1 && tlp !in m'.spaces
      && forall b | 0 <= b < |m'.spaces| :: tlp !in Tree(m'.mem, m'.spaces[b])
  {
    hide Inv, Tree, MarkEntries, GoodSpace;
    var c := Table(seq(ENTRIES, _ => NO_ENTRY));
    TakeInv(m, tlp, c);
    FreshUnreached(m, tlp);
    var m1 := Take(m, tlp, c);
    MarkHoldInv(m1, a);
    forall b | 0 <= b < |m.spaces| ensures tlp !in Tree(Mark(m1, m.spaces[a]).mem, m.spaces[b]) {
      MarkTrees(m1, a, b);
      SpaceTree(m, tlp, c, b);
    }
  }

  lemma SumEmpty(x: multiset<nat>, y: multiset<nat>)
    ensures x + y == multiset{} <==> x == multiset{} && y == multiset{}
  {
    if x + y == multiset{} {
      assert forall f :: x[f] <= (x + y)[f] && y[f] <= (x + y)[f];
    }
  }

  lemma Reordered(h: multiset<nat>, x: multiset<nat>, y: multiset<nat>, xs: multiset<nat>, ys: multiset<nat>)
    ensures h + x + y + xs + ys == h + (x + xs) + (y + ys)
  {
  }

  lemma UserStepHeld(m: Machine, op: Op)
    requires Inv(m) && Allowed(m, op) && UserOp(op)
    ensures Step(m, op).held == m.held + Locals(op) + Lost(m, op)
  {
    hide Inv, Tree, MapWalk, Step, FaultOk, CloneAllocOk;
    StepHeld(m, op);
  }

  /** Exits of all spaces from the k-th on. */
  function Exits(k: nat, n: nat): (ops: seq<Op>)
    ensures forall i | 0 <= i < |ops| :: UserOp(ops[i])
    decreases n - k
  {
    if k >= n then [] else [Exit(k)] + Exits(k + 1, n)
  }

  lemma {:induction false} ExitTrees(m: Machine, a: nat, b: nat)
    requires Inv(m) && a < |m.spaces| && b < |m.spaces|
    ensures Tree(Unmap(m, a).mem, m.spaces[b]) == if b == a then multiset{} else Tree(m.mem, m.spaces[b])
  {
    hide Inv, Tree, GoodSpace;
    ClearSpace(m, a);
    if b != a {
      ClearOther(m, a, b);
    }
  }

  lemma {:induction false} ExitsEmpty(m: Machine, k: nat)
    requires Inv(m) && k <= |m.spaces| && forall b | 0 <= b < k :: Tree(m.mem, m.spaces[b]) == multiset{}
    ensures Runs(m, Exits(k, |m.spaces|))
    ensures var m' := Run(m, Exits(k, |m.spaces|));
      && m'.spaces == m.spaces && Inv(m') && m'.held == m.held
      && forall b | 0 <= b < |m.spaces| :: Tree(m'.mem, m.spaces[b]) == multiset{}
    decreases |m.spaces| - k
  {
    hide Inv, Tree, Unmap;
    if k < |m.spaces| {
      var ops := Exits(k, |m.spaces|);
      var m1 := Step(m, ops[0]);
      UnmapInv(m, k);
      ExitHeld(m, k);
      forall b | 0 <= b <= k ensures Tree(m1.mem, m.spaces[b]) == multiset{} {
        ExitTrees(m, k, b);
      }
      assert ops[1..] == Exits(k + 1, |m.spaces|);
      ExitsEmpty(m1, k + 1);
    }
  }

  /** After a run of user code and the exit of every space nothing is counted but the PML4Ts, the
      thread-local PDPTs, what was held before the run, and what abandoned forks have lost. */
  lemma {:induction false} EverythingReturned(m: Machine, ops: seq<Op>)
    requires Inv(m) && Runs(m, ops) && forall i | 0 <= i < |ops| :: UserOp(ops[i])
    ensures var m1 := Run(m, ops);
      var exits := Exits(0, |m1.spaces|);
      && Runs(m1, exits)
      && Run(m1, exits).count == multiset(m1.spaces) + m.held + AllLocals(ops) + AllLost(m, ops)
  {
    hide Inv, Tree, AllLocals, AllLost;
    UserRunHeld(m, ops);
    RunRefinesEagerCopy(m, ops);
    var m1 := Run(m, ops);
    ExitsEmpty(m1, 0);
    var m2 := Run(m1, Exits(0, |m1.spaces|));
    NothingMapped(m2);
  }

  lemma NothingMapped(m: Machine)
    requires Inv(m) && forall b | 0 <= b < |m.spaces| :: Tree(m.mem, m.spaces[b]) == multiset{}
    ensures m.count == multiset(m.spaces) + m.held
  {
    hide Tree, GoodSpace, Sum;
    NothingInSum(TreeList(m.mem, m.spaces));
    assert forall f: nat :: m.count[f] == (multiset(m.spaces) + m.held)[f];
  }
}
