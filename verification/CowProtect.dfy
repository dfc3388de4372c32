/**
 Write protection. thread_clone marks every entry of the parent's PML4T as
 copy-on-write, and the page fault handler grants write access to every page it
 resolves: pages that were mapped read-only become writable in parent and child.
 Here that is compared with a machine whose forks keep permissions.
 */
module CowProtect {
  import opened PageTree
  import opened CowSpec
  import opened CowFault
  import opened CowSteps
  import opened CowMap
  import opened CowRun
  import PM = PageMap

  /** The eager machine with forks that copy permissions as they are. */
  ghost function Keep(views: seq<View>, e: Effect): (views': seq<View>)
  {
    match e
    case Raise(a) => views
    case Copy(a) => if a < |views| then views + [views[a]] else views
    case _ => Apply(views, e)
  }

  ghost function KeepAll(views: seq<View>, es: seq<Effect>): (views': seq<View>)
    decreases |es|
  {
    if es == [] then views else KeepAll(Keep(views, es[0]), es[1..])
  }

  ghost predicate AllWritable(v: View)
  {
    forall va: int | va in v :: v[va].writable
  }

  /** A fork of a space in which something is not writable. */
  ghost predicate Unprotects(views: seq<View>, e: Effect)
  {
    (e.Copy? || e.Raise?) && e.a < |views| && !AllWritable(views[e.a])
  }

  lemma RaisedSame(v: View)
    ensures Raised(v) == v <==> AllWritable(v)
  {
    if AllWritable(v) {
      forall va: int | va in v ensures Raised(v)[va] == v[va] {
        assert v[va].writable;
      }
    }
    if Raised(v) == v {
      forall va: int | va in v ensures v[va].writable {
        assert Raised(v)[va] == v[va];
      }
    }
  }

  /** One step keeps permissions exactly if it is not such a fork. */
  lemma {:induction false} StepKeeps(views: seq<View>, e: Effect)
    ensures Apply(views, e) == Keep(views, e) <==> !Unprotects(views, e)
  {
    hide Raised, AllWritable, Filled;
    if (e.Copy? || e.Raise?) && e.a < |views| {
      RaisedSame(views[e.a]);
      var raised := views[e.a := Raised(views[e.a])];
      if Raised(views[e.a]) == views[e.a] {
        assert raised == views;
      } else {
        assert Apply(views, e)[e.a] == Raised(views[e.a]) && Keep(views, e)[e.a] == views[e.a];
      }
    }
  }

  /** No fork of the run is one of a space in which something is not writable. */
  ghost predicate KeepsProtection(views: seq<View>, es: seq<Effect>)
    decreases |es|
  {
    es == [] || (!Unprotects(views, es[0]) && KeepsProtection(Apply(views, es[0]), es[1..]))
  }

  /** The two machines agree all along a run exactly if every fork in it is of a space all of
      whose readable memory is writable. */
  lemma {:induction false} RunKeepsExactly(views: seq<View>, es: seq<Effect>)
    ensures (forall n | 0 <= n <= |es| :: ApplyAll(views, es[..n]) == KeepAll(views, es[..n])) <==> KeepsProtection(views, es)
    decreases |es|
  {
    hide Apply, Keep, Unprotects;
    if es != [] {
      StepKeeps(views, es[0]);
      var views' := Apply(views, es[0]);
      RunKeepsExactly(views', es[1..]);
      FirstEffect(views, es);
      if Keep(views, es[0]) == views' {
        forall n | 0 <= n <= |es|
          ensures n > 0 ==> ApplyAll(views, es[..n]) == ApplyAll(views', es[1..][..n - 1])
          ensures n > 0 ==> KeepAll(views, es[..n]) == KeepAll(views', es[1..][..n - 1])
        {
          if n > 0 {
            assert es[..n][0] == es[0] && es[..n][1..] == es[1..][..n - 1];
          }
        }
        if forall n | 0 <= n <= |es| :: ApplyAll(views, es[..n]) == KeepAll(views, es[..n]) {
          forall k | 0 <= k <= |es[1..]| ensures ApplyAll(views', es[1..][..k]) == KeepAll(views', es[1..][..k]) {
            assert ApplyAll(views, es[..k + 1]) == KeepAll(views, es[..k + 1]);
          }
        }
      } else {
        assert ApplyAll(views, es[..1]) != KeepAll(views, es[..1]);
      }
    }
  }

  lemma FirstEffect(views: seq<View>, es: seq<Effect>)
    requires es != []
    ensures ApplyAll(views, es[..1]) == Apply(views, es[0]) && KeepAll(views, es[..1]) == Keep(views, es[0])
  {
    assert es[..1] == [es[0]] && [es[0]][1..] == [];
  }

  /** A user mapping of the run is writable, as are all views before it. */
  ghost predicate WritableMappings(ops: seq<Op>)
  {
    forall i | 0 <= i < |ops| :: ops[i].Map? && ops[i].flags.user ==> ops[i].flags.rw
  }

  ghost predicate AllViewsWritable(views: seq<View>)
  {
    forall a | 0 <= a < |views| :: AllWritable(views[a])
  }

  lemma EffectWritable(m: Machine, op: Op, views: seq<View>)
    requires Named(m, op) && AllViewsWritable(views) && (op.Map? && op.flags.user ==> op.flags.rw)
    ensures !Unprotects(views, EffectOf(m, op)) && AllViewsWritable(Apply(views, EffectOf(m, op)))
  {
    hide UserStore, MapWalk;
  }

  lemma {:induction false} WritableKeeps(m: Machine, ops: seq<Op>, views: seq<View>)
    requires Runs(m, ops) && WritableMappings(ops) && AllViewsWritable(views)
    ensures KeepsProtection(views, Effects(m, ops))
    decreases |ops|
  {
    hide EffectOf, Apply, Unprotects, AllViewsWritable, Step, FaultOk;
    if ops != [] {
      var es := Effects(m, ops);
      assert es[1..] == Effects(Step(m, ops[0]), ops[1..]);
      EffectWritable(m, ops[0], views);
      assert forall i | 0 <= i < |ops[1..]| :: ops[1..][i] == ops[i + 1];
      WritableKeeps(Step(m, ops[0]), ops[1..], Apply(views, es[0]));
    }
  }

  /** Runs in which all user memory is mapped writable refine eager copying with permissions kept. */
  lemma {:induction false} WritableRunsKeepRights(m: Machine, ops: seq<Op>)
    requires Inv(m) && Runs(m, ops) && WritableMappings(ops) && AllViewsWritable(Views(m))
    ensures Views(Run(m, ops)) == KeepAll(Views(m), Effects(m, ops))
  {
    hide Inv, Views, AllViewsWritable, KeepsProtection;
    RunRefinesEagerCopy(m, ops);
    WritableKeeps(m, ops, Views(m));
    var es := Effects(m, ops);
    RunKeepsExactly(Views(m), es);
    assert es[..|es|] == es;
  }

  /* ---------- and the others do not ---------- */

  /** Whatever the parent can read, the child of a completed fork can store to, whether or not
      the parent might write there; and so can the parent. */
  lemma {:induction false} ForkUnprotects(m: Machine, a: nat, root: nat, tlp: nat, c: nat, va: nat, b: bv8, pages: seq<nat>)
    requires Inv(m) && a < |m.spaces| && CloneAllocOk(m, root, tlp) && root != 0 && tlp != 0
    requires c == a || c == |m.spaces|
    requires Load(m, a, va).Some? && |pages| == 4 && 0 !in pages
    requires FaultOk(Clone(m, a, root, tlp, true), c, va, pages)
    ensures UserStore(Clone(m, a, root, tlp, true), c, va, b, pages).1
  {
    hide Inv, Load, MayWrite, Clone, UserStore, FaultOk;
    var m1 := Clone(m, a, root, tlp, true);
    CloneInv(m, a, root, tlp, true);
    CloneLoad(m, a, root, tlp, true, c, va);
    StoreDecided(m1, c, va, b, pages);
  }

  /** Without the fork, the store is refused. */
  lemma {:induction false} ProtectedBefore(m: Machine, a: nat, va: nat, b: bv8, pages: seq<nat>)
    requires Inv(m) && a < |m.spaces| && |pages| == 4 && FaultOk(m, a, va, pages) && !MayWrite(m, a, va)
    ensures !UserStore(m, a, va, b, pages).1
  {
    hide Inv, MayWrite, UserStore, FaultOk;
    StoreDecided(m, a, va, b, pages);
  }

  /** A completed fork keeps the right to write a readable page exactly if there was one: the page
      could be stored to, or an entry on the way to it was copy-on-write already. */
  lemma {:induction false} ForkKeepsRights(m: Machine, a: nat, root: nat, tlp: nat, va: nat)
    requires Inv(m) && a < |m.spaces| && CloneAllocOk(m, root, tlp) && root != 0 && tlp != 0
    requires Load(m, a, va).Some?
    ensures var m1 := Clone(m, a, root, tlp, true);
      MayWrite(m1, a, va) == MayWrite(m1, |m.spaces|, va) == MayWrite(m, a, va)
      <==> CanStore(m, a, va) || HasCow(m.mem, UserHalf(m.mem, m.spaces[a]), 4, Path(va))
  {
    hide Inv, Load, MayWrite, Clone, HasCow, CanStore;
    CloneLoad(m, a, root, tlp, true, a, va);
    CloneLoad(m, a, root, tlp, true, |m.spaces|, va);
    MayWriteIs(m, a, va);
  }

  /* ---------- a run that shows it ---------- */

  const READ_ONLY: Entry := Entry(0, false, false, true, false, false, 0)

  /** A clone counts no frame that was free, but for the two it allocates. */
  lemma {:induction false} CloneFresh(m: Machine, a: nat, root: nat, tlp: nat, f: nat)
    requires Inv(m) && a < |m.spaces| && CloneAllocOk(m, root, tlp) && root != 0 && tlp != 0
    requires f !in m.count && f != root && f != tlp
    ensures f !in Clone(m, a, root, tlp, true).count
  {
    hide Inv, Tree, MarkEntries, ClonedEntries, GoodSpace;
    var c := Table(seq(ENTRIES, _ => NO_ENTRY));
    TakeInv(m, tlp, c);
    var m1 := Take(m, tlp, c);
    MarkHoldInv(m1, a);
    FreshUnreached(m1, f);
  }

  /** A machine with one page, mapped for reading only at address 0 of its only space. */
  ghost predicate OnePage(m: Machine, first: nat)
  {
    && Inv(m) && |m.spaces| == 1
    && Load(m, 0, 0) == Some(0) && !MayWrite(m, 0, 0) && Load(m, 0, PAGE_SIZE) == None
    && forall f: nat | f >= first :: f !in m.count
  }

  lemma {:induction false} MapReadOnly(mem: Mem, root: nat)
    requires |Entries(mem, root)| == ENTRIES && forall i | 0 <= i < USER_ENTRIES :: !Entries(mem, root)[i].present
    ensures var m := Boot(mem, root);
      var bytes: seq<bv8> := seq(PAGE_SIZE, _ => 0);
      var grab, map_ := Grab(root + 1, bytes), Map(0, 0, [root + 2, root + 3, root + 4, 0], root + 1, READ_ONLY);
      && Allowed(m, grab) && Allowed(Step(m, grab), map_)
      && OnePage(Step(Step(m, grab), map_), root + 5)
  {
    hide Inv, OnePage, MapWalk, MapOk, UnmapOk, FrameOk;
    var m := Boot(mem, root);
    var bytes: seq<bv8> := seq(PAGE_SIZE, _ => 0);
    BootInv(mem, root);
    TakeInv(m, root + 1, Page(bytes));
    var m1 := Take(m, root + 1, Page(bytes));
    assert m1.count == multiset{root} + multiset{root + 1};
    MapOnly(m1, root, root + 1);
  }

  lemma {:induction false} MapOnly(m: Machine, root: nat, frame: nat)
    requires Inv(m) && m.spaces == [root] && m.count == multiset{root} + multiset{frame} && frame == root + 1 && frame in m.held
    requires |Entries(m.mem, root)| == ENTRIES && forall i | 0 <= i < USER_ENTRIES :: !Entries(m.mem, root)[i].present
    requires frame in m.mem && m.mem[frame] == Page(seq(PAGE_SIZE, _ => 0))
    ensures var map_ := Map(0, 0, [root + 2, root + 3, root + 4, 0], frame, READ_ONLY);
      Allowed(m, map_) && OnePage(Step(m, map_), root + 5)
  {
    hide Inv, MapWalk, MapOk, UnmapOk, PageSet, At, Path, Load, MayWrite;
    var pages := [root + 2, root + 3, root + 4, 0];
    PathDigits(0);
    PM.Indices(0);
    FirstUnmapOk(m, root);
    MapAllowed(m, 0, 0, pages, frame, READ_ONLY);
    MapStep(m, 0, 0, pages, frame, READ_ONLY);
    assert Path(0)[..0] == [];
    RootAt(m);
    MapDone(m, 0, Path(0), 0, root, pages, frame, READ_ONLY);
    var m2 := MapWalk(m, root, Path(0), 0, pages, frame, READ_ONLY).0;
    ReadOnlyCell(m, m2, frame);
    NothingRead(m, PAGE_SIZE);
    forall f: nat | f >= root + 5 ensures f !in m2.count {
      MapCounts(m, root, Path(0), 0, pages, frame, READ_ONLY, f);
    }
  }

  lemma FirstUnmapOk(m: Machine, root: nat)
    requires forall i | 0 <= i < USER_ENTRIES && i < |Entries(m.mem, root)| :: !Entries(m.mem, root)[i].present
    ensures UnmapOk(m, root, Path(0), 0)
  {
    PathDigits(0);
  }

  lemma RootAt(m: Machine)
    requires |m.spaces| == 1
    ensures At(m, 0, [], m.spaces[0])
  {
  }

  lemma ReadOnlyCell(m: Machine, m': Machine, frame: nat)
    requires |m.spaces| == 1 && PageSet(m, m', 0, Path(0), PM.LeafEntry(frame, READ_ONLY))
    requires ByteAt(m.mem, frame, 0) == Some(0)
    ensures Load(m', 0, 0) == Some(0) && !MayWrite(m', 0, 0) && Load(m', 0, PAGE_SIZE) == Load(m, 0, PAGE_SIZE)
  {
    hide Load, MayWrite, Path;
    assert CellSet(m, m', 0, Path(0), PM.LeafEntry(frame, READ_ONLY), 0, 0);
    assert CellSet(m, m', 0, Path(0), PM.LeafEntry(frame, READ_ONLY), 0, PAGE_SIZE);
    PageOf(0, PAGE_SIZE);
  }

  lemma NothingRead(m: Machine, va: nat)
    requires |m.spaces| > 0 && va < USER_TOP && |Entries(m.mem, m.spaces[0])| == ENTRIES
    requires forall i | 0 <= i < USER_ENTRIES :: !Entries(m.mem, m.spaces[0])[i].present
    ensures Load(m, 0, va) == None
  {
    PathDigits(va);
  }

  lemma {:induction false} ForkReady(m: Machine, first: nat, pages: seq<nat>)
    requires OnePage(m, first) && first > 0 && pages == [first + 2, first + 3, first + 4, first + 5]
    ensures Allowed(m, Fork(0, first, first + 1, true))
    ensures var m1 := Clone(m, 0, first, first + 1, true);
      Inv(m1) && |m1.spaces| == 2 && FaultOk(m1, 1, 0, pages)
  {
    hide Inv, Load, MayWrite, Clone, AllocOk;
    var m1 := Clone(m, 0, first, first + 1, true);
    CloneInv(m, 0, first, first + 1, true);
    forall d | 0 <= d < 4 ensures pages[d] !in m1.count {
      CloneFresh(m, 0, first, first + 1, pages[d]);
    }
    AnsweredAllocOk(m1, m1.spaces[1], Path(0), pages);
  }

  /** From such a machine a fork and a store lead to a byte that the machine with kept
      permissions does not show. */
  lemma {:induction false} ForkAndStore(m: Machine, first: nat, pages: seq<nat>, fork: Op, m1: Machine, write: Op)
    requires OnePage(m, first) && first > 0 && pages == [first + 2, first + 3, first + 4, first + 5]
    requires fork == Fork(0, first, first + 1, true) && write == Write(1, 0, 1, pages)
    requires m1 == Clone(m, 0, first, first + 1, true)
    ensures Allowed(m, fork) && Step(m, fork) == m1 && Allowed(m1, write)
    ensures Views(Step(m1, write)) != Keep(Keep(Views(m), EffectOf(m, fork)), EffectOf(m1, write))
  {
    hide Inv, Load, MayWrite, Clone, UserStore, Views, FaultOk;
    ForkReady(m, first, pages);
    ForkUnprotects(m, 0, first, first + 1, 1, 0, 1, pages);
    StepRefines(m1, write);
    StoreDecided(m1, 1, 0, 1, pages);
    ViewCell(m1, 1, 0);
    ViewCell(m, 0, 0);
    CellByte(m);
    var kept := Keep(Views(m), EffectOf(m, fork));
    assert kept == Views(m) + [Views(m)[0]];
    assert !CanPut(kept, 1, 0);
    assert Views(Step(m1, write))[1][0].byte == 1;
  }

  lemma CellByte(m: Machine)
    requires |m.spaces| > 0 && Load(m, 0, 0) == Some(0)
    ensures 0 in ViewOf(m, 0) && ViewOf(m, 0)[0].byte == 0
  {
    hide Load, MayWrite;
  }

  /** With permissions kept, eager copying is not what the kernel shows: from every machine with an
      empty space there is a run of four steps in which the child writes to a page that was mapped
      for reading only. */
  lemma {:induction false} ReadOnlyLost(mem: Mem, root: nat)
    requires |Entries(mem, root)| == ENTRIES && forall i | 0 <= i < USER_ENTRIES :: !Entries(mem, root)[i].present
    ensures exists ops ::
      && |ops| == 4 && Runs(Boot(mem, root), ops)
      && Views(Run(Boot(mem, root), ops)) != KeepAll(Views(Boot(mem, root)), Effects(Boot(mem, root), ops))
  {
    hide Views, Step, EffectOf, Keep, OnePage, Inv, FaultOk, CloneAllocOk, MapOk, UnmapOk, FrameOk;
    var m := Boot(mem, root);
    BootInv(mem, root);
    MapReadOnly(mem, root);
    var bytes: seq<bv8> := seq(PAGE_SIZE, _ => 0);
    var o0, o1 := Grab(root + 1, bytes), Map(0, 0, [root + 2, root + 3, root + 4, 0], root + 1, READ_ONLY);
    var m1 := Step(m, o0);
    var m2 := Step(m1, o1);
    var first := root + 5;
    var pages := [first + 2, first + 3, first + 4, first + 5];
    var o2, o3 := Fork(0, first, first + 1, true), Write(1, 0, 1, pages);
    OnePageSpace(m2, first);
    var m3 := Clone(m2, 0, first, first + 1, true);
    ForkAndStore(m2, first, pages, o2, m3, o3);
    FourSteps(m, m1, m2, m3, o0, o1, o2, o3);
    StepInv(m, o0);
    StepRefines(m, o0);
    StepRefines(m1, o1);
    KernelEffects(m, o0);
    KernelEffects(m1, o1);
    NotFork(Views(m), EffectOf(m, o0));
    NotFork(Views(m1), EffectOf(m1, o1));
    var ops := [o0, o1, o2, o3];
    assert |ops| == 4 && Runs(m, ops) && Views(Run(m, ops)) != KeepAll(Views(m), Effects(m, ops));
  }

  lemma OnePageSpace(m: Machine, first: nat)
    requires OnePage(m, first)
    ensures |m.spaces| == 1
  {
  }

  lemma KernelEffects(m: Machine, op: Op)
    requires Allowed(m, op) && (op.Grab? || op.Map?)
    ensures !EffectOf(m, op).Copy? && !EffectOf(m, op).Raise?
  {
    hide MapWalk;
  }

  lemma NotFork(views: seq<View>, e: Effect)
    ensures !e.Copy? && !e.Raise? ==> Keep(views, e) == Apply(views, e)
  {
  }

  lemma KeepFour(views: seq<View>, e0: Effect, e1: Effect, e2: Effect, e3: Effect)
    ensures KeepAll(views, [e0, e1, e2, e3]) == Keep(Keep(Keep(Keep(views, e0), e1), e2), e3)
  {
    hide Keep;
    assert [e0, e1, e2, e3][1..] == [e1, e2, e3] && [e1, e2, e3][1..] == [e2, e3] && [e2, e3][1..] == [e3] && [e3][1..] == [];
    var views3 := Keep(Keep(Keep(views, e0), e1), e2);
    assert KeepAll(views3, [e3]) == Keep(views3, e3);
    assert KeepAll(Keep(Keep(views, e0), e1), [e2, e3]) == Keep(views3, e3);
  }

  lemma FourSteps(m: Machine, m1: Machine, m2: Machine, m3: Machine, o0: Op, o1: Op, o2: Op, o3: Op)
    requires Allowed(m, o0) && m1 == Step(m, o0) && Allowed(m1, o1) && m2 == Step(m1, o1)
    requires Allowed(m2, o2) && m3 == Step(m2, o2) && Allowed(m3, o3)
    ensures var ops := [o0, o1, o2, o3];
      && Runs(m, ops) && Run(m, ops) == Step(m3, o3)
      && KeepAll(Views(m), Effects(m, ops)) ==
         Keep(Keep(Keep(Keep(Views(m), EffectOf(m, o0)), EffectOf(m1, o1)), EffectOf(m2, o2)), EffectOf(m3, o3))
  {
    hide Views, Step, EffectOf, Keep, FaultOk, CloneAllocOk, MapOk, UnmapOk, FrameOk;
    var ops := [o0, o1, o2, o3];
    assert ops[1..] == [o1, o2, o3] && [o1, o2, o3][1..] == [o2, o3] && [o2, o3][1..] == [o3] && [o3][1..] == [];
    var e0, e1, e2, e3 := EffectOf(m, o0), EffectOf(m1, o1), EffectOf(m2, o2), EffectOf(m3, o3);
    assert Runs(m3, [o3]) && Effects(m3, [o3]) == [e3] && Run(m3, [o3]) == Step(m3, o3);
    assert Runs(m2, [o2, o3]) && Effects(m2, [o2, o3]) == [e2, e3] && Run(m2, [o2, o3]) == Step(m3, o3);
    assert Runs(m1, [o1, o2, o3]) && Effects(m1, [o1, o2, o3]) == [e1, e2, e3];
    assert Run(m1, [o1, o2, o3]) == Step(m3, o3);
    assert Runs(m, ops) && Run(m, ops) == Step(m3, o3);
    assert Effects(m, ops) == [e0, e1, e2, e3];
    KeepFour(Views(m), e0, e1, e2, e3);
  }
}
