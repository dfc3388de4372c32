/**
 The kernel half of the address spaces. Nothing the copy-on-write machine does changes
 an entry of it, and a new space gets its parent's, apart from the thread-local area.
 */
module CowKernelHalf {
  import opened PageTree
  import opened CowSpec
  import opened CowFault
  import opened CowSteps
  import opened CowMap
  import opened CowRun
  import PM = PageMap

  const THREAD_LOCAL_BASE: nat := 0xffff_fd00_0000_0000   // THREAD_LOCAL_BASE_VMA

  /** The two PML4Ts have the same entry i. */
  predicate SameEntry(mem: Mem, root: nat, mem': Mem, root': nat, i: nat)
  {
    PM.EntryAt(mem', root', i) == PM.EntryAt(mem, root, i)
  }

  /** Every space there was is still there, with the kernel half it had. */
  ghost predicate KernelKept(m: Machine, m': Machine)
  {
    && m.spaces <= m'.spaces
    && forall b, i | 0 <= b < |m.spaces| && USER_ENTRIES <= i < ENTRIES :: SameEntry(m.mem, m.spaces[b], m'.mem, m.spaces[b], i)
  }

  lemma KernelKeptTrans(m: Machine, m1: Machine, m2: Machine)
    requires KernelKept(m, m1) && KernelKept(m1, m2)
    ensures KernelKept(m, m2)
  {
    forall b, i | 0 <= b < |m.spaces| && USER_ENTRIES <= i < ENTRIES
      ensures SameEntry(m.mem, m.spaces[b], m2.mem, m.spaces[b], i)
    {
      assert m1.spaces[b] == m.spaces[b];
      assert SameEntry(m.mem, m.spaces[b], m1.mem, m.spaces[b], i);
      assert SameEntry(m1.mem, m1.spaces[b], m2.mem, m1.spaces[b], i);
    }
  }

  lemma KernelKeptIf(m: Machine, m': Machine)
    requires m.spaces <= m'.spaces && forall b | 0 <= b < |m.spaces| :: OnlyIn(m.mem, m'.mem, m.spaces[b])
    ensures KernelKept(m, m')
  {
    forall b, i | 0 <= b < |m.spaces| && USER_ENTRIES <= i < ENTRIES
      ensures SameEntry(m.mem, m.spaces[b], m'.mem, m.spaces[b], i)
    {
      assert OnlyIn(m.mem, m'.mem, m.spaces[b]);
    }
  }

  /* ---------- thread_clone ---------- */

  /** A PML4T that is the other one in its kernel half, with the PDPT tlp for the thread-local area. */
  ghost predicate KernelCopied(mem: Mem, parent: nat, mem': Mem, child: nat, tlp: nat)
  {
    forall i | USER_ENTRIES <= i < ENTRIES ::
      if i == Path(THREAD_LOCAL_BASE)[0] then
        var e := PM.EntryAt(mem', child, i);
        e.present && e.rw && e.user && !e.size && !e.cow && e.frame == tlp
      else SameEntry(mem, parent, mem', child, i)
  }

  /** thread_clone keeps the kernel half of every space. The new space has the parent's, apart from
      the thread-local area, which is empty; in the user half the two PML4Ts are the same. */
  lemma {:induction false} CloneKernelHalf(m: Machine, a: nat, root: nat, tlp: nat, complete: bool)
    requires Inv(m) && a < |m.spaces| && CloneAllocOk(m, root, tlp)
    ensures var m' := Clone(m, a, root, tlp, complete);
      && KernelKept(m, m')
      && (root != 0 && tlp != 0 && complete ==>
            && m'.spaces == m.spaces + [root] && |Entries(m'.mem, root)| == ENTRIES
            && KernelCopied(m.mem, m.spaces[a], m'.mem, root, tlp)
            && (forall i | 0 <= i < ENTRIES :: !PM.EntryAt(m'.mem, tlp, i).present)
            && (forall i | 0 <= i < USER_ENTRIES :: SameEntry(m'.mem, m.spaces[a], m'.mem, root, i)))
  {
    hide Inv, Tree, Clone, KernelKept, KernelCopied, MarkEntries, ClonedEntries;
    KernelKeptRefl(m);
    if root != 0 && tlp != 0 {
      FreshUnreached(m, root);
      FreshUnreached(m, tlp);
      SpaceTable(m, a);
      assert m.spaces[a] in m.spaces;
      CloneMem(m, a, root, tlp, complete);
      var m' := Clone(m, a, root, tlp, complete);
      MarkedKernel(m, m', a);
      if complete {
        CopiedKernel(m.mem, m'.mem, m.spaces[a], root, tlp);
      }
    } else {
      CloneNot(m, a, root, tlp, complete);
    }
  }

  /** What thread_clone leaves in memory. */
  lemma CloneMem(m: Machine, a: nat, root: nat, tlp: nat, complete: bool)
    requires a < |m.spaces| && root != 0 && tlp != 0 && root != tlp && root != m.spaces[a] && tlp != m.spaces[a]
    ensures var mem' := Clone(m, a, root, tlp, complete).mem;
      && Entries(mem', m.spaces[a]) == MarkEntries(Entries(m.mem, m.spaces[a]))
      && (forall f | f != m.spaces[a] && f != root && f != tlp :: OnlyIn(m.mem, mem', f))
      && Entries(mem', tlp) == seq(ENTRIES, _ => NO_ENTRY)
      && (complete ==> Entries(mem', root) == ClonedEntries(Entries(mem', m.spaces[a]), tlp))
  {
    hide Tree, MarkEntries, ClonedEntries;
  }

  /** Marking the entries of one PML4T, and writing frames that are no PML4Ts. */
  lemma MarkedKernel(m: Machine, m': Machine, a: nat)
    requires a < |m.spaces| && m.spaces <= m'.spaces
    requires Entries(m'.mem, m.spaces[a]) == MarkEntries(Entries(m.mem, m.spaces[a]))
    requires forall f | f in m.spaces && f != m.spaces[a] :: OnlyIn(m.mem, m'.mem, f)
    ensures KernelKept(m, m')
  {
    forall b, i | 0 <= b < |m.spaces| && USER_ENTRIES <= i < ENTRIES
      ensures SameEntry(m.mem, m.spaces[b], m'.mem, m.spaces[b], i)
    {
      assert m.spaces[b] in m.spaces;
    }
  }

  lemma CopiedKernel(mem: Mem, mem': Mem, parent: nat, root: nat, tlp: nat)
    requires |Entries(mem, parent)| == ENTRIES && Entries(mem', parent) == MarkEntries(Entries(mem, parent))
    requires Entries(mem', root) == ClonedEntries(Entries(mem', parent), tlp)
    ensures KernelCopied(mem, parent, mem', root, tlp)
    ensures forall i | 0 <= i < USER_ENTRIES :: SameEntry(mem', parent, mem', root, i)
  {
    assert Path(THREAD_LOCAL_BASE)[0] == 506;
    hide Path;
  }

  /* ---------- vm_unmap_user_mem ---------- */

  /** vm_unmap_user_mem keeps the kernel half of every space, and empties the user half of one. */
  lemma {:induction false} UnmapKernelHalf(m: Machine, a: nat)
    requires Inv(m) && a < |m.spaces|
    ensures KernelKept(m, Unmap(m, a))
    ensures forall i | 0 <= i < USER_ENTRIES :: !PM.EntryAt(Unmap(m, a).mem, m.spaces[a], i).present
  {
    hide Inv, Tree;
    SpaceTable(m, a);
    RootAlone(m, a);
  }

  /* ---------- writing one entry ---------- */

  /** An entry is written of a table on the way to user memory; nothing else that is a PML4T changes. */
  lemma {:induction false} SetKernel(m: Machine, m': Machine, a: nat, path: seq<nat>, t: nat, i: nat, e': Entry)
    requires Inv(m) && a < |m.spaces| && |path| < 4 && At(m, a, path, t)
    requires i < |Entries(m.mem, t)| && (path == [] ==> i < USER_ENTRIES)
    requires m'.spaces == m.spaces && Entries(m'.mem, t) == Entries(m.mem, t)[i := e']
    requires forall f | f in m.spaces && f != t :: OnlyIn(m.mem, m'.mem, f)
    ensures KernelKept(m, m')
  {
    hide Inv, Tree, WritablePath, Reach, Good;
    AtTable(m, a, path, t);
    RootAlone(m, a);
    if path != [] { AtInnerAlone(m, a, path, t); }
    forall b, j | 0 <= b < |m.spaces| && USER_ENTRIES <= j < ENTRIES
      ensures SameEntry(m.mem, m.spaces[b], m'.mem, m.spaces[b], j)
    {
      if m.spaces[b] == t {
        assert b == a;
        assert path == [];
      } else {
        assert m.spaces[b] in m.spaces;
      }
    }
  }

  lemma {:induction false} CowStepKernel(m: Machine, a: nat, path: seq<nat>, t: nat, i: nat, page: nat)
    requires Resolvable(m, a, path, t, i, page) && Entries(m.mem, t)[i].frame in m.mem
    ensures KernelKept(m, CowStep(m, t, i, page))
  {
    hide Inv, At, Tree, Reach, KernelKept;
    ResolvableFacts(m, a, path, t, i, page);
    SetKernel(m, CowStep(m, t, i, page), a, path, t, i, Entries(m.mem, t)[i].(frame := page, rw := true, cow := false));
  }

  /** The page fault handler. */
  lemma {:induction false} FaultWalkKernel(m: Machine, a: nat, path: seq<nat>, t: nat, idx: seq<nat>, pages: seq<nat>)
    requires Inv(m) && a < |m.spaces| && |path| < 4 && At(m, a, path, t)
    requires |pages| == |idx| && |path| + |idx| == 4 && (path == [] ==> idx[0] < USER_ENTRIES)
    requires AllocOk(m, t, idx, pages)
    ensures KernelKept(m, FaultWalk(m, t, idx, pages).0)
    decreases |idx|
  {
    hide Inv, At, Reach, KernelKept, CowStep, SameLoads;
    KernelKeptRefl(m);
    if idx != [] && idx[0] < |Entries(m.mem, t)| && Entries(m.mem, t)[idx[0]].present {
      var i := idx[0];
      var e := Entries(m.mem, t)[i];
      AtEntry(m, a, path, t, i);
      if e.cow && pages[0] != 0 {
        var m1 := CowStep(m, t, i, pages[0]);
        CowStepKeeps(m, a, path, t, i, pages[0]);
        CowStepKernel(m, a, path, t, i, pages[0]);
        if |idx| > 1 {
          FaultWalkKernel(m1, a, path + [i], pages[0], idx[1..], pages[1..]);
          KernelKeptTrans(m, m1, FaultWalk(m, t, idx, pages).0);
        }
      } else if !e.cow && |idx| > 1 {
        AtDown(m, a, path, t, i);
        FaultWalkKernel(m, a, path + [i], e.frame, idx[1..], pages[1..]);
      }
    }
  }

  lemma KernelKeptRefl(m: Machine)
    ensures KernelKept(m, m)
  {
  }

  lemma {:induction false} FaultKernel(m: Machine, a: nat, va: nat, pages: seq<nat>)
    requires Inv(m) && a < |m.spaces| && |pages| == 4 && FaultOk(m, a, va, pages)
    ensures KernelKept(m, HandleFault(m, a, va, pages).0)
  {
    hide Inv, KernelKept, FaultWalk, AllocOk;
    KernelKeptRefl(m);
    if va < USER_TOP {
      PathDigits(va);
      FaultWalkKernel(m, a, [], m.spaces[a], Path(va), pages);
    }
  }

  /** A store writes a page, and no PML4T is one. */
  lemma {:induction false} StoreKernel(m: Machine, a: nat, va: nat, b: bv8)
    requires Inv(m) && a < |m.spaces|
    ensures KernelKept(m, Store(m, a, va, b))
  {
    hide Inv, Translate;
    var m' := Store(m, a, va, b);
    forall c | 0 <= c < |m.spaces| ensures OnlyIn(m.mem, m'.mem, m.spaces[c]) {
      SpaceTable(m, c);
    }
    KernelKeptIf(m, m');
  }

  lemma {:induction false} UserStoreKernel(m: Machine, a: nat, va: nat, b: bv8, pages: seq<nat>)
    requires Inv(m) && a < |m.spaces| && |pages| == 4 && FaultOk(m, a, va, pages)
    ensures KernelKept(m, UserStore(m, a, va, b, pages).0)
  {
    hide Inv, HandleFault, Store, CanStore, SameLoads, WritablePath, FaultOk, KernelKept;
    var m1 := HandleFault(m, a, va, pages).0;
    FaultKeeps(m, a, va, pages);
    FaultKernel(m, a, va, pages);
    StoreKernel(m, a, va, b);
    StoreKernel(m1, a, va, b);
    KernelKeptTrans(m, m1, Store(m1, a, va, b));
  }

  /** vm_map_page. */
  lemma {:induction false} MapWalkKernel(m: Machine, a: nat, path: seq<nat>, depth: nat, t: nat, pages: seq<nat>, frame: nat, flags: Entry)
    requires Inv(m) && a < |m.spaces| && depth < |path| == |pages| == 4 && path[0] < USER_ENTRIES
    requires At(m, a, path[..depth], t) && FrameOk(m, t, path, depth, frame, flags) && MapOk(m, t, path, depth, pages, flags)
    ensures KernelKept(m, MapWalk(m, t, path, depth, pages, frame, flags).0)
    decreases 4 - depth
  {
    hide Inv, At, AddTable, KernelKept, SetLeaf, Set;
    KernelKeptRefl(m);
    var es := Entries(m.mem, t);
    var p, i := path[..depth], path[depth];
    if i < |es| {
      AtEntry(m, a, p, t, i);
      assert path[..depth + 1] == p + [i];
      if depth == 3 {
        SetLeafKernel(m, a, p, t, i, PM.LeafEntry(frame, flags));
      } else if es[i].present {
        AtDown(m, a, p, t, i);
        if !PM.Large(es[i], depth) {
          MapWalkKernel(m, a, path, depth + 1, es[i].frame, pages, frame, flags);
        }
      } else if pages[depth] == 0 {
        NoTableKernel(m, a, p, t, i);
      } else {
        var page := pages[depth];
        var m1 := AddTable(m, t, i, page, flags);
        AddTableInv(m, a, p, t, i, page, flags);
        AddTableFrame(m, a, path, depth, t, page, frame, flags);
        AddTableKernel(m, a, p, t, i, page, flags);
        MapWalkKernel(m1, a, path, depth + 1, page, pages, frame, flags);
        KernelKeptTrans(m, m1, MapWalk(m, t, path, depth, pages, frame, flags).0);
      }
    }
  }

  lemma {:induction false} SetLeafKernel(m: Machine, a: nat, path: seq<nat>, t: nat, i: nat, e': Entry)
    requires Inv(m) && a < |m.spaces| && |path| < 4 && At(m, a, path, t)
    requires i < |Entries(m.mem, t)| && (path == [] ==> i < USER_ENTRIES)
    ensures KernelKept(m, SetLeaf(m, t, i, e'))
  {
    hide Inv, At, KernelKept, Set;
    SetKernel(m, SetLeaf(m, t, i, e'), a, path, t, i, e');
  }

  lemma {:induction false} NoTableKernel(m: Machine, a: nat, path: seq<nat>, t: nat, i: nat)
    requires Inv(m) && a < |m.spaces| && |path| < 4 && At(m, a, path, t)
    requires i < |Entries(m.mem, t)| && (path == [] ==> i < USER_ENTRIES)
    ensures KernelKept(m, Set(m, t, i, NO_ENTRY, multiset{}, multiset{}))
  {
    hide Inv, At, KernelKept;
    SetKernel(m, Set(m, t, i, NO_ENTRY, multiset{}, multiset{}), a, path, t, i, NO_ENTRY);
  }

  lemma {:induction false} AddTableKernel(m: Machine, a: nat, path: seq<nat>, t: nat, i: nat, page: nat, flags: Entry)
    requires Addable(m, a, path, t, i, page, flags)
    ensures KernelKept(m, AddTable(m, t, i, page, flags))
  {
    hide Inv, At, KernelKept, Tree;
    FreshUnreached(m, page);
    SetKernel(m, AddTable(m, t, i, page, flags), a, path, t, i, PM.TableEntry(page, flags));
  }

  /** vm_unmap_page. */
  lemma {:induction false} UnmapWalkKernel(m: Machine, a: nat, path: seq<nat>, depth: nat, t: nat)
    requires Inv(m) && a < |m.spaces| && depth < |path| == 4 && path[0] < USER_ENTRIES
    requires At(m, a, path[..depth], t) && UnmapOk(m, t, path, depth)
    ensures KernelKept(m, UnmapWalk(m, t, path, depth))
    decreases 4 - depth
  {
    hide Inv, At, KernelKept, SetLeaf;
    KernelKeptRefl(m);
    var es := Entries(m.mem, t);
    var p, i := path[..depth], path[depth];
    if i < |es| && (depth < 3 ==> es[i].present) {
      AtEntry(m, a, p, t, i);
      assert path[..depth + 1] == p + [i];
      if depth == 3 || PM.Large(es[i], depth) {
        SetLeafKernel(m, a, p, t, i, NO_ENTRY);
      } else {
        AtDown(m, a, p, t, i);
        UnmapWalkKernel(m, a, path, depth + 1, es[i].frame);
      }
    }
  }

  /* ---------- runs ---------- */

  /** No step changes an entry of the kernel half of any space. */
  lemma {:induction false} StepKeepsKernel(m: Machine, op: Op)
    requires Inv(m) && Allowed(m, op)
    ensures KernelKept(m, Step(m, op))
  {
    hide Inv, Clone, HandleFault, UserStore, Unmap, MapWalk, UnmapWalk, MapOk, UnmapOk, FrameOk, FaultOk, KernelKept, KernelCopied;
    match op
    case Fork(a, root, tlp, complete) => CloneKernelHalf(m, a, root, tlp, complete);
    case Access(a, va, pages) => FaultKernel(m, a, va, pages);
    case Write(a, va, b, pages) => UserStoreKernel(m, a, va, b, pages);
    case Exit(a) => UnmapKernelHalf(m, a);
    case Map(a, va, pages, frame, flags) =>
      PathDigits(va);
      assert Path(va)[..0] == [];
      MapWalkKernel(m, a, Path(va), 0, m.spaces[a], pages, frame, flags);
    case UnmapPage(a, va) =>
      PathDigits(va);
      assert Path(va)[..0] == [];
      UnmapWalkKernel(m, a, Path(va), 0, m.spaces[a]);
    case Grab(page, bytes) => GrabKernel(m, page, Page(bytes));
    case Drop(frame) => DropKernel(m, frame);
  }

  lemma {:induction false} GrabKernel(m: Machine, page: nat, c: Content)
    requires Inv(m) && page !in m.count
    ensures KernelKept(m, Take(m, page, c))
  {
    hide Inv, KernelKept, Tree;
    FreshUnreached(m, page);
    KernelKeptIf(m, Take(m, page, c));
  }

  lemma DropKernel(m: Machine, frame: nat)
    ensures KernelKept(m, Release(m, multiset{frame}))
  {
  }

  /** The kernel is mapped in the same way in all spaces: their PML4Ts agree in the kernel half,
      apart from the thread-local area. */
  ghost predicate KernelShared(m: Machine)
  {
    forall a, b, i | 0 <= a < |m.spaces| && 0 <= b < |m.spaces| && USER_ENTRIES <= i < ENTRIES && i != Path(THREAD_LOCAL_BASE)[0] ::
      SameEntry(m.mem, m.spaces[a], m.mem, m.spaces[b], i)
  }

  lemma {:induction false} StepShares(m: Machine, op: Op)
    requires Inv(m) && Allowed(m, op) && KernelShared(m)
    ensures KernelShared(Step(m, op))
  {
    hide Inv, Path, MapOk, UnmapOk, FrameOk, FaultOk, Step, KernelShared;
    var m' := Step(m, op);
    StepKeepsKernel(m, op);
    if m'.spaces == m.spaces {
      SharedKept(m, m');
    } else {
      ChildShares(m, op);
    }
  }

  lemma SharedKept(m: Machine, m': Machine)
    requires KernelShared(m) && KernelKept(m, m') && m'.spaces == m.spaces
    ensures KernelShared(m')
  {
    hide Path;
    forall a, b, i | 0 <= a < |m'.spaces| && 0 <= b < |m'.spaces| && USER_ENTRIES <= i < ENTRIES && i != Path(THREAD_LOCAL_BASE)[0]
      ensures SameEntry(m'.mem, m'.spaces[a], m'.mem, m'.spaces[b], i)
    {
      assert SameEntry(m.mem, m.spaces[a], m.mem, m.spaces[b], i);
      assert SameEntry(m.mem, m.spaces[a], m'.mem, m.spaces[a], i);
      assert SameEntry(m.mem, m.spaces[b], m'.mem, m.spaces[b], i);
    }
  }

  lemma {:induction false} ChildShares(m: Machine, op: Op)
    requires Inv(m) && Allowed(m, op) && KernelShared(m) && Step(m, op).spaces != m.spaces
    ensures KernelShared(Step(m, op))
  {
    hide Inv, Path, Clone, HandleFault, UserStore, Unmap, MapWalk, UnmapWalk, MapOk, UnmapOk, FrameOk, FaultOk;
    var m' := Step(m, op);
    var Fork(p, root, tlp, complete) := op;
    CloneKernelHalf(m, p, root, tlp, complete);
    forall a, i | 0 <= a < |m'.spaces| && USER_ENTRIES <= i < ENTRIES && i != Path(THREAD_LOCAL_BASE)[0]
      ensures SameEntry(m.mem, m.spaces[p], m'.mem, m'.spaces[a], i)
    {
      if a < |m.spaces| {
        assert SameEntry(m.mem, m.spaces[p], m.mem, m.spaces[a], i);
        assert SameEntry(m.mem, m.spaces[a], m'.mem, m.spaces[a], i);
      }
    }
    forall a, b, i | 0 <= a < |m'.spaces| && 0 <= b < |m'.spaces| && USER_ENTRIES <= i < ENTRIES && i != Path(THREAD_LOCAL_BASE)[0]
      ensures SameEntry(m'.mem, m'.spaces[a], m'.mem, m'.spaces[b], i)
    {
      assert SameEntry(m.mem, m.spaces[p], m'.mem, m'.spaces[a], i);
      assert SameEntry(m.mem, m.spaces[p], m'.mem, m'.spaces[b], i);
    }
  }

  /** Over every run each space keeps its kernel half, and if the spaces share theirs at the
      beginning, all that exist at the end do, those forked on the way included. */
  lemma {:induction false} RunKeepsKernel(m: Machine, ops: seq<Op>)
    requires Inv(m) && Runs(m, ops)
    ensures KernelKept(m, Run(m, ops))
    ensures KernelShared(m) ==> KernelShared(Run(m, ops))
    decreases |ops|
  {
    hide Inv, Step, KernelKept, KernelShared, FaultOk, CloneAllocOk;
    KernelKeptRefl(m);
    if ops != [] {
      var m1 := Step(m, ops[0]);
      StepInv(m, ops[0]);
      StepKeepsKernel(m, ops[0]);
      if KernelShared(m) { StepShares(m, ops[0]); }
      RunKeepsKernel(m1, ops[1..]);
      KernelKeptTrans(m, m1, Run(m, ops));
    }
  }
}
