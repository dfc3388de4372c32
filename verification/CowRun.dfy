/**
 Whole runs of the copy-on-write machine. The specification is a machine that
 copies eagerly: each address space is its own map from addresses to bytes and
 to whether they may be written, and each store is decided by that map alone.
 */
module CowRun {
  import opened PageTree
  import opened CowSpec
  import opened CowFault
  import opened CowSteps
  import opened CowMap
  import PM = PageMap

  datatype Op =
    | Fork(a: nat, root: nat, tlp: nat, complete: bool)
    | Access(a: nat, va: nat, pages: seq<nat>)            // an access that traps to the page fault handler
    | Write(a: nat, va: nat, b: bv8, pages: seq<nat>)     // a store instruction, retried after its page fault
    | Exit(a: nat)
    | Map(a: nat, va: nat, pages: seq<nat>, frame: nat, flags: Entry)
    | UnmapPage(a: nat, va: nat)
    | Grab(page: nat, bytes: seq<bv8>)                    // the kernel allocates a page and fills it
    | Drop(frame: nat)                                    // and gives up a reference it holds

  /** int_page_fault for a user access at va. */
  function HandleFault(m: Machine, a: nat, va: nat, pages: seq<nat>): (r: (Machine, bool))
    requires a < |m.spaces| && |pages| == 4
    ensures r.0.spaces == m.spaces
  {
    if va >= USER_TOP then (m, false) else FaultWalk(m, m.spaces[a], Path(va), pages)
  }

  /** A store instruction: if the processor does not permit it, the handler runs, and the
      instruction is tried again if the handler says so. The second result tells whether
      the byte was stored. */
  function UserStore(m: Machine, a: nat, va: nat, b: bv8, pages: seq<nat>): (r: (Machine, bool))
    requires a < |m.spaces| && |pages| == 4
    ensures r.0.spaces == m.spaces
  {
    if CanStore(m, a, va) then (Store(m, a, va, b), true)
    else
      var (m1, retry) := HandleFault(m, a, va, pages);
      if retry && CanStore(m1, a, va) then (Store(m1, a, va, b), true) else (m1, false)
  }

  predicate Named(m: Machine, op: Op)
  {
    && (!op.Grab? && !op.Drop? ==> op.a < |m.spaces|)
    && (op.Access? || op.Write? || op.Map? ==> |op.pages| == 4)
  }

  function Step(m: Machine, op: Op): (m': Machine)
    requires Named(m, op)
    ensures m.spaces <= m'.spaces
  {
    match op
    case Fork(a, root, tlp, complete) => Clone(m, a, root, tlp, complete)
    case Access(a, va, pages) => HandleFault(m, a, va, pages).0
    case Write(a, va, b, pages) => UserStore(m, a, va, b, pages).0
    case Exit(a) => Unmap(m, a)
    case Map(a, va, pages, frame, flags) => MapWalk(m, m.spaces[a], Path(va), 0, pages, frame, flags).0
    case UnmapPage(a, va) => UnmapWalk(m, m.spaces[a], Path(va), 0)
    case Grab(page, bytes) => Take(m, page, Page(bytes))
    case Drop(frame) => Release(m, multiset{frame})
  }

  /** The frames the allocator hands out for a page fault at va are free ones. */
  ghost predicate FaultOk(m: Machine, a: nat, va: nat, pages: seq<nat>)
    requires a < |m.spaces| && |pages| == 4
  {
    va < USER_TOP ==> AllocOk(m, m.spaces[a], Path(va), pages)
  }

  /** The frames the allocator hands out are free ones; the kernel maps and gives up only
      what it holds, and writes no table that is shared. */
  ghost predicate Allowed(m: Machine, op: Op)
  {
    && Named(m, op)
    && match op
       case Fork(a, root, tlp, _) => CloneAllocOk(m, root, tlp)
       case Access(a, va, pages) => FaultOk(m, a, va, pages)
       case Write(a, va, _, pages) => FaultOk(m, a, va, pages)
       case Exit(_) => true
       case Map(a, va, pages, frame, flags) =>
         && va < USER_TOP && FrameOk(m, m.spaces[a], Path(va), 0, frame, flags)
         && MapOk(m, m.spaces[a], Path(va), 0, pages, flags)
       case UnmapPage(a, va) => va < USER_TOP && UnmapOk(m, m.spaces[a], Path(va), 0)
       case Grab(page, _) => page !in m.count
       case Drop(frame) => frame in m.held
  }

  /* ---------- the eager machine ---------- */

  /** What a space knows of an address: its byte, and whether it may be written. */
  datatype Cell = Cell(byte: bv8, writable: bool)

  type View = imap<int, Cell>

  datatype Effect =
    | Nothing
    | Raise(a: nat)
    | Copy(a: nat)
    | Put(a: nat, va: nat, b: bv8)
    | Empty(a: nat)
    | Fill(a: nat, page: nat, bytes: seq<bv8>, writable: bool)

  /** One page of a view replaced. */
  ghost function Filled(v: View, page: nat, bytes: seq<bv8>, writable: bool): (v': View)
  {
    imap va: int | if va / PAGE_SIZE == page then va % PAGE_SIZE < |bytes| else va in v ::
      if va / PAGE_SIZE == page then Cell(bytes[va % PAGE_SIZE], writable) else v[va]
  }

  /** The view with all of it writable. */
  ghost function Raised(v: View): (v': View)
  {
    imap va: int | va in v :: Cell(v[va].byte, true)
  }

  ghost predicate CanPut(views: seq<View>, a: nat, va: nat)
  {
    a < |views| && va in views[a] && views[a][va].writable
  }

  /** A fork copies the view of the parent, and makes all of it writable in both. */
  ghost function Apply(views: seq<View>, e: Effect): (views': seq<View>)
  {
    match e
    case Nothing => views
    case Raise(a) => if a < |views| then views[a := Raised(views[a])] else views
    case Copy(a) => if a < |views| then views[a := Raised(views[a])] + [Raised(views[a])] else views
    case Put(a, va, b) => if CanPut(views, a, va) then views[a := views[a][va := Cell(b, true)]] else views
    case Empty(a) => if a < |views| then views[a := imap[]] else views
    case Fill(a, page, bytes, w) => if a < |views| then views[a := Filled(views[a], page, bytes, w)] else views
  }

  /** What an operation does to the eager machine. A store is one there, too; only when the
      allocator has failed may it be refused without that machine's leave. */
  function EffectOf(m: Machine, op: Op): (e: Effect)
    requires Named(m, op)
  {
    match op
    case Fork(a, root, tlp, complete) =>
      if root == 0 || tlp == 0 then Nothing else if complete then Copy(a) else Raise(a)
    case Access(_, _, _) => Nothing
    case Write(a, va, b, pages) =>
      if 0 in pages && !UserStore(m, a, va, b, pages).1 then Nothing else Put(a, va, b)
    case Exit(a) => Empty(a)
    case Map(a, va, pages, frame, flags) =>
      if MapWalk(m, m.spaces[a], Path(va), 0, pages, frame, flags).1.Done?
      then Fill(a, va / PAGE_SIZE, if flags.user then PageBytes(m.mem, frame) else [], flags.rw) else Nothing
    case UnmapPage(a, va) => Fill(a, va / PAGE_SIZE, [], false)
    case Grab(_, _) => Nothing
    case Drop(_) => Nothing
  }

  function PageBytes(mem: Mem, f: nat): (bytes: seq<bv8>)
  {
    if f in mem && mem[f].Page? then mem[f].bytes else []
  }

  ghost function ViewOf(m: Machine, a: nat): (v: View)
    requires a < |m.spaces|
  {
    imap va: int | va >= 0 && Load(m, a, va).Some? :: Cell(Load(m, a, va).value, MayWrite(m, a, va))
  }

  ghost function Views(m: Machine): (vs: seq<View>)
    ensures |vs| == |m.spaces|
    ensures forall a | 0 <= a < |m.spaces| :: vs[a] == ViewOf(m, a)
  {
    seq(|m.spaces|, a requires 0 <= a < |m.spaces| => ViewOf(m, a))
  }

  lemma ViewSame(m: Machine, a: nat, m': Machine, a': nat)
    requires a < |m.spaces| && a' < |m'.spaces|
    requires forall va: nat :: Load(m', a', va) == Load(m, a, va) && MayWrite(m', a', va) == MayWrite(m, a, va)
    ensures ViewOf(m', a') == ViewOf(m, a)
  {
    hide Load, MayWrite;
  }

  lemma ViewRaised(m: Machine, a: nat, m': Machine, a': nat)
    requires a < |m.spaces| && a' < |m'.spaces|
    requires forall va: nat :: Load(m', a', va) == Load(m, a, va) && MayWrite(m', a', va) == Load(m, a, va).Some?
    ensures ViewOf(m', a') == Raised(ViewOf(m, a))
  {
    hide Load, MayWrite;
  }

  /* ---------- page faults and stores ---------- */

  lemma {:induction false} FaultKeeps(m: Machine, a: nat, va: nat, pages: seq<nat>)
    requires Inv(m) && a < |m.spaces| && |pages| == 4 && FaultOk(m, a, va, pages)
    ensures var (m', ok) := HandleFault(m, a, va, pages);
      && Inv(m') && SameLoads(m, m') && m'.held == m.held
      && (ok ==> va < USER_TOP && exists f :: WritablePath(m'.mem, UserHalf(m'.mem, m.spaces[a]), 4, Path(va), f))
  {
    hide Inv, SameLoads, WritablePath, FaultWalk, AllocOk;
    SameLoadsRefl(m);
    if va < USER_TOP {
      PathDigits(va);
      FaultWalkKeeps(m, a, [], m.spaces[a], Path(va), pages);
      assert [] + Path(va) == Path(va);
    }
  }

  /** What can be read may be written exactly if it can be stored to at once or an entry on the
      way to it is copy-on-write. */
  lemma {:induction false} MayWriteIs(m: Machine, a: nat, va: nat)
    requires Inv(m) && a < |m.spaces| && Load(m, a, va).Some?
    ensures MayWrite(m, a, va) <==> CanStore(m, a, va) || HasCow(m.mem, UserHalf(m.mem, m.spaces[a]), 4, Path(va))
  {
    hide Inv, Reach, Good, Resolve, May, HasCow;
    SpaceCount(m, a);
    var es := UserHalf(m.mem, m.spaces[a]);
    LoadHit(m.mem, es, 4, Path(va), va % PAGE_SIZE);
    MayIs(m.mem, m.count, es, 4, Path(va), true);
  }

  /** With memory at hand, the handler asks for a retry at a readable address exactly if an
      entry on the way to it is copy-on-write. */
  lemma {:induction false} FaultRetries(m: Machine, a: nat, va: nat, pages: seq<nat>)
    requires Inv(m) && a < |m.spaces| && |pages| == 4 && FaultOk(m, a, va, pages)
    requires Load(m, a, va).Some? && 0 !in pages
    ensures HandleFault(m, a, va, pages).1 <==> HasCow(m.mem, UserHalf(m.mem, m.spaces[a]), 4, Path(va))
  {
    hide Inv, FaultWalk, AllocOk, HasCow, LoadAt;
    assert [] + Path(va) == Path(va);
    WalkRetries(m, a, [], m.spaces[a], Path(va), pages, va);
  }

  /** When the handler asks for a retry at an address that can be read, the store is then permitted. */
  lemma {:induction false} FaultThenStore(m: Machine, a: nat, va: nat, pages: seq<nat>)
    requires Inv(m) && a < |m.spaces| && |pages| == 4 && FaultOk(m, a, va, pages)
    requires Load(m, a, va).Some?
    requires HandleFault(m, a, va, pages).1
    ensures CanStore(HandleFault(m, a, va, pages).0, a, va)
  {
    hide Inv, Reach, HandleFault, MayWrite;
    FaultKeeps(m, a, va, pages);
    var m' := HandleFault(m, a, va, pages).0;
    assert Load(m', a, va) == Load(m, a, va);
    var es := UserHalf(m'.mem, m'.spaces[a]);
    var f :| WritablePath(m'.mem, es, 4, Path(va), f);
    WritableResolve(m'.mem, es, 4, Path(va), f);
  }

  lemma {:induction false} WritableResolve(mem: Mem, es: seq<Entry>, level: nat, path: seq<nat>, f: nat)
    requires WritablePath(mem, es, level, path, f) && |path| == level
    requires Resolve(mem, es, level, path).Hit?
    ensures Resolve(mem, es, level, path).writable
    decreases level
  {
    if level > 1 {
      WritableResolve(mem, Entries(mem, es[path[0]].frame), level - 1, path[1..], f);
    }
  }

  lemma {:induction false} CanStoreMay(m: Machine, a: nat, va: nat)
    requires Inv(m) && a < |m.spaces| && CanStore(m, a, va)
    ensures Load(m, a, va).Some? && MayWrite(m, a, va)
  {
    hide Inv, Load, MayWrite;
    TranslateOwned(m, a, va);
    MayWriteIs(m, a, va);
  }

  /** A store instruction stores exactly what may be written, unless the allocator fails. */
  lemma {:induction false} StoreDecided(m: Machine, a: nat, va: nat, b: bv8, pages: seq<nat>)
    requires Inv(m) && a < |m.spaces| && |pages| == 4 && FaultOk(m, a, va, pages)
    ensures UserStore(m, a, va, b, pages).1 ==> MayWrite(m, a, va)
    ensures MayWrite(m, a, va) && 0 !in pages ==> UserStore(m, a, va, b, pages).1
  {
    hide Inv, Load, CanStore, HandleFault, MayWrite, SameLoads, HasCow, FaultOk;
    var (m1, retry) := HandleFault(m, a, va, pages);
    if CanStore(m, a, va) {
      CanStoreMay(m, a, va);
    } else {
      StoreRefused(m, a, va, pages);
      if MayWrite(m, a, va) && 0 !in pages {
        MayRead(m, a, va);
        MayWriteIs(m, a, va);
        FaultRetries(m, a, va, pages);
        FaultThenStore(m, a, va, pages);
      }
    }
  }

  lemma MayRead(m: Machine, a: nat, va: nat)
    requires a < |m.spaces| && MayWrite(m, a, va)
    ensures Load(m, a, va).Some?
  {
  }

  lemma {:induction false} StoreRefused(m: Machine, a: nat, va: nat, pages: seq<nat>)
    requires Inv(m) && a < |m.spaces| && |pages| == 4 && FaultOk(m, a, va, pages)
    ensures CanStore(HandleFault(m, a, va, pages).0, a, va) ==> MayWrite(m, a, va)
  {
    hide Inv, Load, CanStore, HandleFault, MayWrite, WritablePath, FaultOk;
    FaultKeeps(m, a, va, pages);
    var m1 := HandleFault(m, a, va, pages).0;
    if CanStore(m1, a, va) {
      CanStoreMay(m1, a, va);
    }
  }

  lemma {:induction false} UserStoreInv(m: Machine, a: nat, va: nat, b: bv8, pages: seq<nat>)
    requires Inv(m) && a < |m.spaces| && |pages| == 4 && FaultOk(m, a, va, pages)
    ensures Inv(UserStore(m, a, va, b, pages).0)
  {
    hide Inv, HandleFault, Store, CanStore, SameLoads, WritablePath, FaultOk;
    FaultKeeps(m, a, va, pages);
    StoreInv(m, a, va, b);
    StoreInv(HandleFault(m, a, va, pages).0, a, va, b);
  }

  /* ---------- one step ---------- */

  lemma {:induction false} StepInv(m: Machine, op: Op)
    requires Inv(m) && Allowed(m, op)
    ensures Inv(Step(m, op))
  {
    hide Inv, Clone, HandleFault, UserStore, Unmap, MapWalk, UnmapWalk, MapOk, UnmapOk, FrameOk, FaultOk, MapResult, PageSet;
    match op
    case Fork(a, root, tlp, complete) => CloneInv(m, a, root, tlp, complete);
    case Access(a, va, pages) => FaultKeeps(m, a, va, pages);
    case Write(a, va, b, pages) => UserStoreInv(m, a, va, b, pages);
    case Exit(a) => UnmapInv(m, a);
    case Map(a, va, pages, frame, flags) => MapStep(m, a, va, pages, frame, flags);
    case UnmapPage(a, va) => UnmapPageStep(m, a, va);
    case Grab(page, bytes) => TakeInv(m, page, Page(bytes));
    case Drop(frame) => ReleaseInv(m, multiset{frame});
  }

  lemma {:induction false} MapStep(m: Machine, a: nat, va: nat, pages: seq<nat>, frame: nat, flags: Entry)
    requires Inv(m) && Allowed(m, Map(a, va, pages, frame, flags))
    ensures MapResult(m, a, Path(va), frame, flags, MapWalk(m, m.spaces[a], Path(va), 0, pages, frame, flags))
    ensures Inv(MapWalk(m, m.spaces[a], Path(va), 0, pages, frame, flags).0)
  {
    hide Inv, MapOk, FrameOk, MapWalk, PageSet;
    PathDigits(va);
    assert Path(va)[..0] == [];
    MapWalkKeeps(m, a, Path(va), 0, m.spaces[a], pages, frame, flags);
  }

  lemma {:induction false} UnmapPageStep(m: Machine, a: nat, va: nat)
    requires Inv(m) && Allowed(m, UnmapPage(a, va))
    ensures Inv(UnmapWalk(m, m.spaces[a], Path(va), 0))
    ensures PageSet(m, UnmapWalk(m, m.spaces[a], Path(va), 0), a, Path(va), NO_ENTRY)
  {
    hide Inv, UnmapOk, UnmapWalk, PageSet;
    PathDigits(va);
    assert Path(va)[..0] == [];
    UnmapWalkKeeps(m, a, Path(va), 0, m.spaces[a]);
  }

  lemma {:induction false} ForkRefines(m: Machine, a: nat, root: nat, tlp: nat, complete: bool)
    requires Inv(m) && a < |m.spaces| && CloneAllocOk(m, root, tlp)
    ensures Views(Clone(m, a, root, tlp, complete)) == Apply(Views(m), EffectOf(m, Fork(a, root, tlp, complete)))
  {
    hide Clone, Load, MayWrite, Inv, ViewOf, Raised;
    var m' := Clone(m, a, root, tlp, complete);
    forall b: nat | b < |m'.spaces|
      ensures ViewOf(m', b) ==
              if root != 0 && tlp != 0 && (b == a || b == |m.spaces|) then Raised(ViewOf(m, a)) else ViewOf(m, b)
    {
      ForkView(m, a, root, tlp, complete, b);
    }
  }

  lemma {:induction false} ForkView(m: Machine, a: nat, root: nat, tlp: nat, complete: bool, b: nat)
    requires Inv(m) && a < |m.spaces| && CloneAllocOk(m, root, tlp)
    requires b < |Clone(m, a, root, tlp, complete).spaces|
    ensures ViewOf(Clone(m, a, root, tlp, complete), b) ==
            if root != 0 && tlp != 0 && (b == a || b == |m.spaces|) then Raised(ViewOf(m, a)) else ViewOf(m, b)
  {
    hide Clone, Load, MayWrite, Inv, ViewOf, Raised;
    var m' := Clone(m, a, root, tlp, complete);
    var b' := if b < |m.spaces| then b else a;
    forall va: nat
      ensures Load(m', b, va) == Load(m, b', va)
      ensures MayWrite(m', b, va) ==
              if root != 0 && tlp != 0 && (b == a || b == |m.spaces|) then Load(m, a, va).Some? else MayWrite(m, b, va)
    {
      CloneLoad(m, a, root, tlp, complete, b, va);
    }
    if root != 0 && tlp != 0 && (b == a || b == |m.spaces|) {
      ViewRaised(m, a, m', b);
    } else {
      ViewSame(m, b, m', b);
    }
  }

  lemma {:induction false} PermittedStore(m: Machine, a: nat, va: nat, b: bv8)
    requires Inv(m) && a < |m.spaces| && CanStore(m, a, va)
    ensures Views(Store(m, a, va, b)) == Views(m)[a := ViewOf(m, a)[va := Cell(b, true)]]
  {
    hide Load, MayWrite, Inv, CanStore;
    CanStoreMay(m, a, va);
    var m' := Store(m, a, va, b);
    forall c: nat | c < |m.spaces|
      ensures ViewOf(m', c) == if c == a then ViewOf(m, a)[va := Cell(b, true)] else ViewOf(m, c)
    {
      forall va': nat
        ensures Load(m', c, va') == if c == a && va' == va then Some(b) else Load(m, c, va')
        ensures MayWrite(m', c, va') == MayWrite(m, c, va')
      {
        StoreLoad(m, a, va, b, c, va');
        StoreMay(m, a, va, b, c, va');
      }
    }
  }

  lemma {:induction false} WriteRefines(m: Machine, a: nat, va: nat, b: bv8, pages: seq<nat>)
    requires Inv(m) && Allowed(m, Write(a, va, b, pages))
    ensures Views(UserStore(m, a, va, b, pages).0) == Apply(Views(m), EffectOf(m, Write(a, va, b, pages)))
  {
    hide Inv, CanStore, HandleFault, Store, FaultOk, Views, WritablePath, SameLoads, MayWrite, Load;
    StoreDecided(m, a, va, b, pages);
    ViewCell(m, a, va);
    FaultKeeps(m, a, va, pages);
    var m1 := HandleFault(m, a, va, pages).0;
    SameViews(m, m1);
    if CanStore(m, a, va) {
      PermittedStore(m, a, va, b);
    } else if CanStore(m1, a, va) {
      PermittedStore(m1, a, va, b);
      ViewsAt(m, a);
      ViewsAt(m1, a);
    }
  }

  lemma ViewsAt(m: Machine, a: nat)
    requires a < |m.spaces|
    ensures |Views(m)| == |m.spaces| && Views(m)[a] == ViewOf(m, a)
  {
  }

  lemma ViewCell(m: Machine, a: nat, va: nat)
    requires a < |m.spaces|
    ensures CanPut(Views(m), a, va) == MayWrite(m, a, va)
    ensures |Views(m)| == |m.spaces| && Views(m)[a] == ViewOf(m, a)
  {
    hide Load, May;
  }

  lemma {:induction false} ExitRefines(m: Machine, a: nat)
    requires Inv(m) && a < |m.spaces|
    ensures Views(Unmap(m, a)) == Apply(Views(m), Empty(a))
  {
    hide Load, MayWrite, Inv, Tree;
    var m' := Unmap(m, a);
    forall c: nat | c < |m.spaces| ensures ViewOf(m', c) == if c == a then imap[] else ViewOf(m, c) {
      forall va: nat
        ensures Load(m', c, va) == if c == a then None else Load(m, c, va)
        ensures c != a ==> MayWrite(m', c, va) == MayWrite(m, c, va)
      {
        UnmapLoad(m, a, c, va);
      }
    }
    assert Views(m') == Views(m)[a := imap[]];
  }

  lemma {:induction false} AccessRefines(m: Machine, a: nat, va: nat, pages: seq<nat>)
    requires Inv(m) && Allowed(m, Access(a, va, pages))
    ensures Views(HandleFault(m, a, va, pages).0) == Views(m)
  {
    hide Inv, SameLoads, HandleFault, Views, FaultOk, WritablePath, UserHalf;
    FaultKeeps(m, a, va, pages);
    SameViews(m, HandleFault(m, a, va, pages).0);
  }

  /** Setting one page is what `Fill` describes. */
  lemma {:induction false} PageSetRefines(m: Machine, m': Machine, a: nat, va: nat, e': Entry, bytes: seq<bv8>)
    requires a < |m.spaces| && va < USER_TOP && PageSet(m, m', a, Path(va), e')
    requires if e'.present && e'.user then bytes == PageBytes(m.mem, e'.frame) && |bytes| == PAGE_SIZE else bytes == []
    ensures Views(m') == Apply(Views(m), Fill(a, va / PAGE_SIZE, bytes, e'.rw || e'.cow))
  {
    hide Load, MayWrite, Path, CellSet, PageBytes;
    var page, w := va / PAGE_SIZE, e'.rw || e'.cow;
    forall c: nat | c < |m.spaces|
      ensures ViewOf(m', c) == if c == a then Filled(ViewOf(m, a), page, bytes, w) else ViewOf(m, c)
    {
      forall x: nat
        ensures Load(m', c, x) ==
                if c == a && x / PAGE_SIZE == page
                then (if x % PAGE_SIZE < |bytes| then Some(bytes[x % PAGE_SIZE]) else None)
                else Load(m, c, x)
        ensures Load(m', c, x).Some? ==>
                MayWrite(m', c, x) == if c == a && x / PAGE_SIZE == page then w else MayWrite(m, c, x)
      {
        assert CellSet(m, m', a, Path(va), e', c, x);
        CellSetIs(m, m', a, va, e', bytes, c, x);
      }
    }
    assert Views(m') == Views(m)[a := Filled(ViewOf(m, a), page, bytes, w)];
  }

  lemma CellSetIs(m: Machine, m': Machine, a: nat, va: nat, e': Entry, bytes: seq<bv8>, c: nat, x: nat)
    requires a < |m.spaces| && va < USER_TOP && c < |m.spaces| == |m'.spaces| && CellSet(m, m', a, Path(va), e', c, x)
    requires if e'.present && e'.user then bytes == PageBytes(m.mem, e'.frame) && |bytes| == PAGE_SIZE else bytes == []
    ensures Load(m', c, x) ==
            if c == a && x / PAGE_SIZE == va / PAGE_SIZE
            then (if x % PAGE_SIZE < |bytes| then Some(bytes[x % PAGE_SIZE]) else None)
            else Load(m, c, x)
    ensures Load(m', c, x).Some? ==>
            MayWrite(m', c, x) == if c == a && x / PAGE_SIZE == va / PAGE_SIZE then e'.rw || e'.cow else MayWrite(m, c, x)
  {
    hide Load, MayWrite, Path;
    PageOf(va, x);
  }

  /** User addresses have the same path when they are on the same page. */
  lemma PageOf(va: nat, x: nat)
    requires va < USER_TOP
    ensures x < USER_TOP && Path(x) == Path(va) <==> x / PAGE_SIZE == va / PAGE_SIZE
  {
    if x < USER_TOP {
      PathDigits(va);
      PathDigits(x);
      PM.Indices(va);
      PM.Indices(x);
      hide Path;
      PM.SameSpan(va, x, 3);
      assert Path(x)[..4] == Path(x) && Path(va)[..4] == Path(va);
    }
  }

  lemma {:induction false} MapRefines(m: Machine, op: Op)
    requires Inv(m) && Allowed(m, op) && (op.Map? || op.UnmapPage?)
    ensures Views(Step(m, op)) == Apply(Views(m), EffectOf(m, op))
  {
    hide Inv, MapOk, UnmapOk, MapWalk, UnmapWalk, PageSet, Views, Apply, SameLoads;
    match op
    case Map(a, va, pages, frame, flags) =>
      MapStep(m, a, va, pages, frame, flags);
      var (m', o) := MapWalk(m, m.spaces[a], Path(va), 0, pages, frame, flags);
      if o.Done? {
        PageSetRefines(m, m', a, va, PM.LeafEntry(frame, flags), if flags.user then PageBytes(m.mem, frame) else []);
      } else {
        SameViews(m, m');
        ApplyNothing(m);
      }
    case UnmapPage(a, va) =>
      UnmapPageStep(m, a, va);
      PageSetRefines(m, UnmapWalk(m, m.spaces[a], Path(va), 0), a, va, NO_ENTRY, []);
  }

  lemma ApplyNothing(m: Machine)
    ensures Apply(Views(m), Nothing) == Views(m)
  {
  }

  lemma SameViews(m: Machine, m': Machine)
    requires SameLoads(m, m')
    ensures Views(m') == Views(m)
  {
    hide Load, MayWrite, ViewOf;
    forall c: nat | c < |m.spaces| ensures ViewOf(m', c) == ViewOf(m, c) {
      ViewSame(m, c, m', c);
    }
  }

  /** What the kernel does with its own references shows nowhere. */
  lemma {:induction false} GrabDropRefines(m: Machine, op: Op)
    requires Inv(m) && Allowed(m, op) && (op.Grab? || op.Drop?)
    ensures Views(Step(m, op)) == Views(m)
  {
    hide Inv, Load, MayWrite, Tree;
    var m' := Step(m, op);
    forall b: nat, va: nat | b < |m.spaces|
      ensures Load(m', b, va) == Load(m, b, va) && MayWrite(m', b, va) == MayWrite(m, b, va)
    {
      if op.Grab? {
        FreshUnreached(m, op.page);
      }
      CellFrame(m, m', b, va);
    }
    hide Views;
    SameViews(m, m');
  }

  /** Each step shows every space what the eager machine shows it. */
  lemma {:induction false} StepRefines(m: Machine, op: Op)
    requires Inv(m) && Allowed(m, op)
    ensures Views(Step(m, op)) == Apply(Views(m), EffectOf(m, op))
  {
    hide Inv, Clone, HandleFault, UserStore, Unmap, MapWalk, UnmapWalk, Views, FaultOk, CloneAllocOk, MapOk, UnmapOk, FrameOk, Apply;
    match op
    case Fork(a, root, tlp, complete) => ForkRefines(m, a, root, tlp, complete);
    case Access(a, va, pages) => AccessRefines(m, a, va, pages); ApplyNothing(m);
    case Write(a, va, b, pages) => WriteRefines(m, a, va, b, pages);
    case Exit(a) => ExitRefines(m, a);
    case Map(_, _, _, _, _) => MapRefines(m, op);
    case UnmapPage(_, _) => MapRefines(m, op);
    case Grab(_, _) => GrabDropRefines(m, op); ApplyNothing(m);
    case Drop(_) => GrabDropRefines(m, op); ApplyNothing(m);
  }

  /** Where vm_unmap_page is a step of the machine, so is vm_map_page with free pages. */
  lemma {:induction false} MapAllowed(m: Machine, a: nat, va: nat, pages: seq<nat>, frame: nat, flags: Entry)
    requires Inv(m) && Allowed(m, UnmapPage(a, va)) && |pages| == 4
    requires Answered(m.count, pages, 0) && FrameOk(m, m.spaces[a], Path(va), 0, frame, flags)
    ensures Allowed(m, Map(a, va, pages, frame, flags))
  {
    hide Inv, Answered, MapOk, UnmapOk;
    PathDigits(va);
    assert Path(va)[..0] == [];
    AnsweredMapOk(m, a, Path(va), 0, m.spaces[a], pages, flags);
  }

  /* ---------- runs ---------- */

  ghost predicate Runs(m: Machine, ops: seq<Op>)
    decreases |ops|
  {
    ops == [] || (Allowed(m, ops[0]) && Runs(Step(m, ops[0]), ops[1..]))
  }

  ghost function Run(m: Machine, ops: seq<Op>): (m': Machine)
    requires Runs(m, ops)
    ensures m.spaces <= m'.spaces
    decreases |ops|
  {
    if ops == [] then m else Run(Step(m, ops[0]), ops[1..])
  }

  ghost function Effects(m: Machine, ops: seq<Op>): (es: seq<Effect>)
    requires Runs(m, ops)
    ensures |es| == |ops|
    decreases |ops|
  {
    if ops == [] then [] else [EffectOf(m, ops[0])] + Effects(Step(m, ops[0]), ops[1..])
  }

  ghost function ApplyAll(views: seq<View>, es: seq<Effect>): (views': seq<View>)
    decreases |es|
  {
    if es == [] then views else ApplyAll(Apply(views, es[0]), es[1..])
  }

  /** Sharing frames is invisible: every run of forks, faults, stores, mappings and exits shows
      every address space what eager copying would show it. */
  lemma {:induction false} RunRefinesEagerCopy(m: Machine, ops: seq<Op>)
    requires Inv(m) && Runs(m, ops)
    ensures Inv(Run(m, ops))
    ensures Views(Run(m, ops)) == ApplyAll(Views(m), Effects(m, ops))
    decreases |ops|
  {
    hide Inv, Step, Views, Apply, EffectOf, FaultOk, CloneAllocOk;
    if ops != [] {
      var m1 := Step(m, ops[0]);
      StepInv(m, ops[0]);
      StepRefines(m, ops[0]);
      RunRefinesEagerCopy(m1, ops[1..]);
      var es := Effects(m, ops);
      assert es[1..] == Effects(m1, ops[1..]);
    }
  }

  /** The operation stores, maps, unmaps or exits in space b. */
  predicate Touches(op: Op, b: nat)
  {
    (op.Write? || op.Exit? || op.Map? || op.UnmapPage?) && op.a == b
  }

  /** No operation of the run touches space b. */
  ghost predicate Spares(ops: seq<Op>, b: nat)
  {
    forall i | 0 <= i < |ops| :: !Touches(ops[i], b)
  }

  /** The bytes of a view. */
  ghost function Bytes(v: View): (bytes: imap<int, bv8>)
  {
    imap va: int | va in v :: v[va].byte
  }

  /** Fork isolation: whatever the other spaces do, and whatever faults occur
      anywhere, a space that does not itself write goes on reading the same bytes. */
  lemma {:induction false} ForkIsolation(m: Machine, ops: seq<Op>, b: nat)
    requires Inv(m) && Runs(m, ops) && b < |m.spaces| && Spares(ops, b)
    ensures b < |Run(m, ops).spaces|
    ensures Bytes(ViewOf(Run(m, ops), b)) == Bytes(ViewOf(m, b))
    decreases |ops|
  {
    hide Inv, Step, ViewOf, EffectOf, Apply, FaultOk, CloneAllocOk, Views, Bytes;
    if ops != [] {
      var m1 := Step(m, ops[0]);
      StepInv(m, ops[0]);
      StepRefines(m, ops[0]);
      EffectElsewhere(m, ops[0], b);
      assert Bytes(Views(m1)[b]) == Bytes(Views(m)[b]);
      assert forall i | 0 <= i < |ops[1..]| :: ops[1..][i] == ops[i + 1];
      ForkIsolation(m1, ops[1..], b);
    }
  }

  lemma EffectElsewhere(m: Machine, op: Op, b: nat)
    requires Allowed(m, op) && b < |m.spaces| && !Touches(op, b)
    ensures b < |Apply(Views(m), EffectOf(m, op))|
    ensures Bytes(Apply(Views(m), EffectOf(m, op))[b]) == Bytes(Views(m)[b])
  {
    hide Views, UserStore, MapWalk, MapOk, UnmapOk, FrameOk, FaultOk, Apply, Bytes;
    ApplyElsewhere(Views(m), EffectOf(m, op), b);
  }

  /** Effects on another space, and copying, keep the bytes of space b. */
  lemma ApplyElsewhere(views: seq<View>, e: Effect, b: nat)
    requires b < |views| && (e.Put? || e.Empty? || e.Fill? ==> e.a != b)
    ensures b < |Apply(views, e)| && Bytes(Apply(views, e)[b]) == Bytes(views[b])
  {
    hide Filled;
  }

  /** A machine with one space that maps nothing yet: where runs begin. */
  function Boot(mem: Mem, root: nat): (m: Machine)
  {
    Machine(mem, multiset{root}, [root], multiset{})
  }

  lemma BootInv(mem: Mem, root: nat)
    requires |Entries(mem, root)| == ENTRIES && forall i | 0 <= i < USER_ENTRIES :: !Entries(mem, root)[i].present
    ensures Inv(Boot(mem, root))
  {
    var m := Boot(mem, root);
    hide Sum;
    NothingInSum(Children(mem, UserHalf(mem, root), 4));
    NothingInSum(TreeList(mem, [root]));
    assert multiset(m.spaces) == multiset{root};
  }
}
