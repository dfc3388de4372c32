/**
 vm_map_page and vm_unmap_page (arch/x86_64/mm.c) as steps of the copy-on-write
 machine: a page is entered at one address of one space, or taken away from it. They
 write tables without copying them first, so the tables on the way must be unshared.
 */
module CowMap {
  import opened PageTree
  import opened CowSpec
  import opened CowFault
  import opened CowSteps
  import PM = PageMap

  /** A missing table is allocated, cleared and entered. */
  function AddTable(m: Machine, t: nat, i: nat, page: nat, flags: Entry): (m': Machine)
    requires i < |Entries(m.mem, t)|
    ensures m'.spaces == m.spaces
  {
    m.(mem := m.mem[page := Table(PM.EmptyTable())][t := Table(Entries(m.mem, t)[i := PM.TableEntry(page, flags)])],
       count := m.count + multiset{page})
  }

  /** The reference an entry of a page table holds. */
  function Refs(e: Entry): (frames: multiset<nat>)
  {
    if e.present then multiset{e.frame} else multiset{}
  }

  /** Entry i of page table t becomes e'. The caller's reference to the page becomes the entry's,
      and that of a page mapped there before becomes the caller's. */
  function SetLeaf(m: Machine, t: nat, i: nat, e': Entry): (m': Machine)
    requires i < |Entries(m.mem, t)|
    ensures m'.spaces == m.spaces && m'.count == m.count && m'.mem == m.mem[t := Table(Entries(m.mem, t)[i := e'])]
  {
    var e := Entries(m.mem, t)[i];
    if e.present && e'.present && e.frame == e'.frame then Set(m, t, i, e', multiset{}, multiset{})
    else Set(m, t, i, e', Refs(e), Refs(e'))
  }

  /** vm_map_page from table t on. */
  function MapWalk(m: Machine, t: nat, path: seq<nat>, depth: nat, pages: seq<nat>, frame: nat, flags: Entry): (r: (Machine, PM.Outcome))
    requires depth < |path| == |pages| == 4
    ensures r.0.spaces == m.spaces
    decreases 4 - depth
  {
    var es := Entries(m.mem, t);
    var i := path[depth];
    if i >= |es| then (m, PM.NoMemory)
    else if depth == 3 then (SetLeaf(m, t, i, PM.LeafEntry(frame, flags)), PM.Done)
    else if es[i].present then
      if PM.Large(es[i], depth) then (m, PM.InLargePage)
      else MapWalk(m, es[i].frame, path, depth + 1, pages, frame, flags)
    else if pages[depth] == 0 then (Set(m, t, i, NO_ENTRY, multiset{}, multiset{}), PM.NoMemory)
    else
      var m1 := AddTable(m, t, i, pages[depth], flags);
      if PM.Large(flags, depth) then (m1, PM.MadeLarge(depth, pages[depth]))
      else MapWalk(m1, pages[depth], path, depth + 1, pages, frame, flags)
  }

  /** vm_unmap_page from table t on. */
  function UnmapWalk(m: Machine, t: nat, path: seq<nat>, depth: nat): (m': Machine)
    requires depth < |path| == 4
    ensures m'.spaces == m.spaces
    decreases 4 - depth
  {
    var es := Entries(m.mem, t);
    var i := path[depth];
    if i >= |es| || (depth < 3 && !es[i].present) then m
    else if depth == 3 || PM.Large(es[i], depth) then SetLeaf(m, t, i, NO_ENTRY)
    else UnmapWalk(m, es[i].frame, path, depth + 1)
  }

  /** To memory they do what the code does. */
  lemma {:induction false} MapWalkMem(m: Machine, t: nat, path: seq<nat>, depth: nat, pages: seq<nat>, frame: nat, flags: Entry)
    requires depth < |path| == |pages| == 4
    ensures var (m', o) := MapWalk(m, t, path, depth, pages, frame, flags);
      (m'.mem, o) == PM.MapFrom(m.mem, t, path, depth, pages, frame, flags)
    decreases 4 - depth
  {
    var es := Entries(m.mem, t);
    var i := path[depth];
    if i < |es| && depth < 3 {
      if es[i].present {
        MapWalkMem(m, es[i].frame, path, depth + 1, pages, frame, flags);
      } else if pages[depth] != 0 {
        MapWalkMem(AddTable(m, t, i, pages[depth], flags), pages[depth], path, depth + 1, pages, frame, flags);
      }
    }
  }

  lemma {:induction false} UnmapWalkMem(m: Machine, t: nat, path: seq<nat>, depth: nat)
    requires depth < |path| == 4
    ensures UnmapWalk(m, t, path, depth).mem == PM.UnmapFrom(m.mem, t, path, depth)
    decreases 4 - depth
  {
    var es := Entries(m.mem, t);
    var i := path[depth];
    if i < |es| && depth < 3 && es[i].present && !PM.Large(es[i], depth) {
      UnmapWalkMem(m, es[i].frame, path, depth + 1);
    }
  }

  /** No table on the way is marked copy-on-write, and the allocator answers free pages. */
  ghost predicate MapOk(m: Machine, t: nat, path: seq<nat>, depth: nat, pages: seq<nat>, flags: Entry)
    requires depth < |path| == |pages| == 4
    decreases 4 - depth
  {
    var es := Entries(m.mem, t);
    var i := path[depth];
    i < |es| && depth < 3 ==>
      if es[i].present then !es[i].cow && MapOk(m, es[i].frame, path, depth + 1, pages, flags)
      else pages[depth] != 0 ==>
        && pages[depth] !in m.count
        && MapOk(AddTable(m, t, i, pages[depth], flags), pages[depth], path, depth + 1, pages, flags)
  }

  ghost predicate UnmapOk(m: Machine, t: nat, path: seq<nat>, depth: nat)
    requires depth < |path| == 4
    decreases 4 - depth
  {
    var es := Entries(m.mem, t);
    var i := path[depth];
    i < |es| && depth < 3 && es[i].present ==> !es[i].cow && UnmapOk(m, es[i].frame, path, depth + 1)
  }

  /** The caller has a page to map, or the page is mapped there already; if it is to be
      written, it is in use nowhere else. */
  ghost predicate FrameOk(m: Machine, t: nat, path: seq<nat>, depth: nat, frame: nat, flags: Entry)
    requires depth < |path| == 4
  {
    && !flags.size && !flags.cow
    && (frame in m.held || PM.Walk(m.mem, t, path, depth) == PM.Mapped(frame, 3))
    && frame in m.mem && m.mem[frame].Page? && |m.mem[frame].bytes| == PAGE_SIZE
    && (flags.rw ==> m.count[frame] == 1)
  }

  /* ---------- an empty table changes nothing that is read ---------- */

  /** e' is e, or leads to the empty table `page` where e led nowhere. */
  ghost predicate Grown(e: Entry, e': Entry, page: nat)
  {
    e' == e || (!e.present && e'.present && e'.frame == page)
  }

  ghost predicate AllGrown(es: seq<Entry>, es': seq<Entry>, page: nat)
  {
    |es| == |es'| && forall j | 0 <= j < |es| :: Grown(es[j], es'[j], page)
  }

  ghost predicate GrownTo(mem: Mem, mem': Mem, page: nat)
  {
    && Entries(mem', page) == PM.EmptyTable()
    && (forall f: nat | f != page :: AllGrown(Entries(mem, f), Entries(mem', f), page))
    && (forall f: nat, o: nat | f != page :: ByteAt(mem', f, o) == ByteAt(mem, f, o))
  }

  lemma GrownStep(mem: Mem, mem': Mem, page: nat, e: Entry, e': Entry, off: nat)
    requires GrownTo(mem, mem', page) && Grown(e, e', page) && e.present && e.frame != page
    ensures e'.frame == e.frame && AllGrown(Entries(mem, e.frame), Entries(mem', e.frame), page)
    ensures ByteAt(mem', e'.frame, off) == ByteAt(mem, e.frame, off)
  {
  }

  lemma {:induction false} LoadGrown(mem: Mem, mem': Mem, page: nat, es: seq<Entry>, es': seq<Entry>, level: nat, path: seq<nat>, off: nat)
    requires page !in Reach(mem, es, level)
    requires AllGrown(es, es', page)
    requires GrownTo(mem, mem', page)
    ensures LoadAt(mem', es', level, path, off) == LoadAt(mem, es, level, path, off)
    decreases level
  {
    hide Reach, Child, Children, GrownTo;
    if level > 0 && path != [] && path[0] < |es| {
      var e, e' := es[path[0]], es'[path[0]];
      assert Grown(e, e', page);
      if e.present && e.user && !(level > 1 && e.size) {
        EntryInReach(mem, es, path[0], level);
        GrownStep(mem, mem', page, e, e', off);
        if level > 1 {
          LoadGrown(mem, mem', page, Entries(mem, e.frame), Entries(mem', e.frame), level - 1, path[1..], off);
        }
      } else if !e.present && e'.present {
        EmptyLoad(mem, mem', page, es', level, path, off);
      }
    }
  }

  lemma EmptyLoad(mem: Mem, mem': Mem, page: nat, es': seq<Entry>, level: nat, path: seq<nat>, off: nat)
    requires GrownTo(mem, mem', page) && level > 0 && path != [] && path[0] < |es'| && es'[path[0]].frame == page
    ensures LoadAt(mem', es', level, path, off) == None
  {
    assert |Entries(mem', page)| == ENTRIES;
    if level > 1 {
      assert Resolve(mem', PM.EmptyTable(), level - 1, path[1..]).Fault?;
    }
  }

  lemma {:induction false} MayGrown(mem: Mem, mem': Mem, page: nat, es: seq<Entry>, es': seq<Entry>, level: nat, path: seq<nat>)
    requires page !in Reach(mem, es, level)
    requires AllGrown(es, es', page) && GrownTo(mem, mem', page)
    requires Resolve(mem, es, level, path).Hit?
    ensures May(mem', es', level, path) == May(mem, es, level, path)
    decreases level
  {
    hide Reach, Child, Children, GrownTo;
    var e, e' := es[path[0]], es'[path[0]];
    assert Grown(e, e', page);
    if level > 1 {
      EntryInReach(mem, es, path[0], level);
      GrownStep(mem, mem', page, e, e', 0);
      MayGrown(mem, mem', page, Entries(mem, e.frame), Entries(mem', e.frame), level - 1, path[1..]);
    }
  }

  /** The step that adds a table is allowed. */
  ghost predicate Addable(m: Machine, a: nat, path: seq<nat>, t: nat, i: nat, page: nat, flags: Entry)
  {
    && Inv(m) && a < |m.spaces| && |path| < 3 && At(m, a, path, t)
    && page != 0 && page !in m.count && !flags.size && !flags.cow
    && i < |Entries(m.mem, t)| && (path == [] ==> i < USER_ENTRIES) && !Entries(m.mem, t)[i].present
  }

  lemma {:induction false} AddTableLoad(m: Machine, a: nat, path: seq<nat>, t: nat, i: nat, page: nat, flags: Entry)
    requires Addable(m, a, path, t, i, page, flags)
    ensures page != t && SameLoads(m, AddTable(m, t, i, page, flags))
  {
    hide Inv, Reach, LoadAt, GrownTo, WritablePath, May;
    var m' := AddTable(m, t, i, page, flags);
    FreshUnreached(m, page);
    AddTablePage(m, a, path, t, page);
    AddTableGrown(m, t, i, page, flags);
    forall b: nat, va: nat | b < |m.spaces|
      ensures Load(m', b, va) == Load(m, b, va) && MayWrite(m', b, va) == MayWrite(m, b, va)
    {
      if va < USER_TOP {
        var r := m.spaces[b];
        GrownRoot(m.mem, m'.mem, page, r);
        LoadGrown(m.mem, m'.mem, page, UserHalf(m.mem, r), UserHalf(m'.mem, r), 4, Path(va), va % PAGE_SIZE);
        if Load(m, b, va).Some? {
          LoadHit(m.mem, UserHalf(m.mem, r), 4, Path(va), va % PAGE_SIZE);
          MayGrown(m.mem, m'.mem, page, UserHalf(m.mem, r), UserHalf(m'.mem, r), 4, Path(va));
        }
      }
    }
  }

  lemma AddTablePage(m: Machine, a: nat, path: seq<nat>, t: nat, page: nat)
    requires Inv(m) && a < |m.spaces| && |path| < 4 && At(m, a, path, t) && page !in m.count
    ensures page != t
    ensures page != m.spaces[a] && page !in Tree(m.mem, m.spaces[a])
  {
    hide Inv, Reach, WritablePath;
    FreshUnreached(m, page);
    if path != [] {
      AtInnerAlone(m, a, path, t);
    }
  }

  lemma GrownRoot(mem: Mem, mem': Mem, page: nat, r: nat)
    requires GrownTo(mem, mem', page) && r != page
    ensures AllGrown(UserHalf(mem, r), UserHalf(mem', r), page)
  {
    assert AllGrown(Entries(mem, r), Entries(mem', r), page);
  }

  lemma AddTableGrown(m: Machine, t: nat, i: nat, page: nat, flags: Entry)
    requires i < |Entries(m.mem, t)| && page != t && !Entries(m.mem, t)[i].present
    ensures GrownTo(m.mem, AddTable(m, t, i, page, flags).mem, page)
  {
    var mem' := AddTable(m, t, i, page, flags).mem;
    forall f: nat | f != page
      ensures AllGrown(Entries(m.mem, f), Entries(mem', f), page)
      ensures forall o: nat :: ByteAt(mem', f, o) == ByteAt(m.mem, f, o)
    {
    }
  }

  lemma {:induction false} AddTableInv(m: Machine, a: nat, path: seq<nat>, t: nat, i: nat, page: nat, flags: Entry)
    requires Addable(m, a, path, t, i, page, flags)
    ensures Inv(AddTable(m, t, i, page, flags))
    ensures At(AddTable(m, t, i, page, flags), a, path + [i], page)
  {
    hide Inv, At, Settable, Tree;
    var c := Table(PM.EmptyTable());
    var e := PM.TableEntry(page, flags);
    AddTablePage(m, a, path, t, page);
    TakeInv(m, page, c);
    TakeAt(m, a, path, t, page, c);
    var m1 := Take(m, page, c);
    AddSettable(m1, a, path, t, i, page, flags);
    SetInv(m1, a, path, t, i, e, multiset{}, multiset{page});
    var m2 := Set(m1, t, i, e, multiset{}, multiset{page});
    assert m2.held == m.held;
    assert m2 == AddTable(m, t, i, page, flags);
    AddedAt(m1, a, path, t, i, e);
  }

  lemma {:induction false} AddedAt(m1: Machine, a: nat, path: seq<nat>, t: nat, i: nat, e: Entry)
    requires Inv(m1) && a < |m1.spaces| && |path| < 3 && At(m1, a, path, t)
    requires i < |Entries(m1.mem, t)| && (path == [] ==> i < USER_ENTRIES)
    requires e.present && e.rw && !e.size
    ensures At(Set(m1, t, i, e, multiset{}, multiset{e.frame}), a, path + [i], e.frame)
  {
    hide Inv, WritablePath;
    AtEntry(m1, a, path, t, i);
    AtExtend(m1, Set(m1, t, i, e, multiset{}, multiset{e.frame}).mem, a, path, t, i);
  }

  lemma {:induction false} AddSettable(m: Machine, a: nat, path: seq<nat>, t: nat, i: nat, page: nat, flags: Entry)
    requires Inv(m) && a < |m.spaces| && |path| < 3 && At(m, a, path, t)
    requires !flags.size && !flags.cow
    requires page != t && page in m.held && m.count[page] == 1 && page in m.mem && m.mem[page] == Table(PM.EmptyTable())
    requires i < |Entries(m.mem, t)| && (path == [] ==> i < USER_ENTRIES) && !Entries(m.mem, t)[i].present
    ensures Settable(m, a, path, t, i, PM.TableEntry(page, flags), multiset{}, multiset{page})
  {
    hide Inv, At, Reach;
    var level := 4 - |path|;
    var e := PM.TableEntry(page, flags);
    var m' := Set(m, t, i, e, multiset{}, multiset{page});
    EmptyReach(m'.mem, level - 1);
    assert Entries(m'.mem, page) == PM.EmptyTable();
    assert Good(m'.mem, m.count, PM.EmptyTable(), level - 1, true);
    assert GoodEntry(m'.mem, m.count, e, level, true);
    assert Child(m'.mem, e, level) == multiset{page};
    assert Child(m.mem, Entries(m.mem, t)[i], level) == multiset{};
  }

  lemma EmptyReach(mem: Mem, level: nat)
    ensures Reach(mem, PM.EmptyTable(), level) == multiset{}
  {
    var es := PM.EmptyTable();
    NothingInSum(Children(mem, es, level));
  }

  lemma {:induction false} NothingInSum(ts: seq<multiset<nat>>)
    requires forall i | 0 <= i < |ts| :: ts[i] == multiset{}
    ensures Sum(ts) == multiset{}
    decreases |ts|
  {
    if ts != [] {
      NothingInSum(ts[..|ts| - 1]);
    }
  }

  /* ---------- an entry without a mapping is cleared ---------- */

  ghost predicate AllSameView(es: seq<Entry>, es': seq<Entry>)
  {
    |es| == |es'| && forall j | 0 <= j < |es| :: es'[j] == es[j] || (!es[j].present && !es'[j].present)
  }

  ghost predicate Restated(mem: Mem, mem': Mem)
  {
    && (forall f: nat :: AllSameView(Entries(mem, f), Entries(mem', f)))
    && (forall f: nat, o: nat :: ByteAt(mem', f, o) == ByteAt(mem, f, o))
  }

  lemma {:induction false} LoadRestated(mem: Mem, mem': Mem, es: seq<Entry>, es': seq<Entry>, level: nat, path: seq<nat>, off: nat)
    requires AllSameView(es, es') && Restated(mem, mem')
    ensures LoadAt(mem', es', level, path, off) == LoadAt(mem, es, level, path, off)
    decreases level
  {
    if level > 0 && path != [] && path[0] < |es| {
      var e, e' := es[path[0]], es'[path[0]];
      if level > 1 && e.present {
        assert AllSameView(Entries(mem, e.frame), Entries(mem', e.frame));
        LoadRestated(mem, mem', Entries(mem, e.frame), Entries(mem', e.frame), level - 1, path[1..], off);
      }
    }
  }

  lemma {:induction false} MayRestated(mem: Mem, mem': Mem, es: seq<Entry>, es': seq<Entry>, level: nat, path: seq<nat>)
    requires AllSameView(es, es') && Restated(mem, mem') && Resolve(mem, es, level, path).Hit?
    ensures May(mem', es', level, path) == May(mem, es, level, path)
    decreases level
  {
    var e := es[path[0]];
    if level > 1 {
      assert AllSameView(Entries(mem, e.frame), Entries(mem', e.frame));
      MayRestated(mem, mem', Entries(mem, e.frame), Entries(mem', e.frame), level - 1, path[1..]);
    }
  }

  lemma {:induction false} ClearAbsent(m: Machine, a: nat, path: seq<nat>, t: nat, i: nat)
    requires Inv(m) && a < |m.spaces| && |path| < 3 && At(m, a, path, t)
    requires i < |Entries(m.mem, t)| && (path == [] ==> i < USER_ENTRIES) && !Entries(m.mem, t)[i].present
    ensures var m' := Set(m, t, i, NO_ENTRY, multiset{}, multiset{});
      Inv(m') && SameLoads(m, m')
  {
    hide Inv, At, LoadAt, Reach, May;
    var m' := Set(m, t, i, NO_ENTRY, multiset{}, multiset{});
    assert Settable(m, a, path, t, i, NO_ENTRY, multiset{}, multiset{});
    SetInv(m, a, path, t, i, NO_ENTRY, multiset{}, multiset{});
    forall b: nat, va: nat | b < |m.spaces|
      ensures Load(m', b, va) == Load(m, b, va) && MayWrite(m', b, va) == MayWrite(m, b, va)
    {
      if va < USER_TOP {
        ClearRestated(m, t, i);
        var r := m.spaces[b];
        assert AllSameView(Entries(m.mem, r), Entries(m'.mem, r));
        LoadRestated(m.mem, m'.mem, UserHalf(m.mem, r), UserHalf(m'.mem, r), 4, Path(va), va % PAGE_SIZE);
        if Load(m, b, va).Some? {
          LoadHit(m.mem, UserHalf(m.mem, r), 4, Path(va), va % PAGE_SIZE);
          MayRestated(m.mem, m'.mem, UserHalf(m.mem, r), UserHalf(m'.mem, r), 4, Path(va));
        }
      }
    }
  }

  lemma ClearRestated(m: Machine, t: nat, i: nat)
    requires i < |Entries(m.mem, t)| && !Entries(m.mem, t)[i].present
    ensures Restated(m.mem, Set(m, t, i, NO_ENTRY, multiset{}, multiset{}).mem)
  {
    var mem' := Set(m, t, i, NO_ENTRY, multiset{}, multiset{}).mem;
    forall f: nat ensures AllSameView(Entries(m.mem, f), Entries(mem', f)) {
    }
  }

  /* ---------- one entry of a page table decides one page ---------- */

  /** Only accesses whose path goes through table t see a change of it. */
  lemma {:induction false} ResolveAside(mem: Mem, mem': Mem, t: nat, es: seq<Entry>, level: nat, pp: seq<nat>, path: seq<nat>)
    requires OnlyAt(mem, mem', t) && Rewritable(mem, t, es, level, pp) && |pp| + 1 == level == |path|
    requires path[..|pp|] != pp
    ensures Resolve(mem', es, level, path) == Resolve(mem, es, level, path)
    decreases level
  {
    hide Reach, Child, Children;
    RewritableDown(mem, t, es, level, pp);
    if path[0] != pp[0] {
      ResolveOther(mem, mem', t, es, level, pp, path);
    } else {
      var e := es[path[0]];
      assert path[..|pp|] == [path[0]] + path[1..][..|pp| - 1] && pp == [pp[0]] + pp[1..];
      ResolveAside(mem, mem', t, Entries(mem, e.frame), level - 1, pp[1..], path[1..]);
    }
  }

  lemma {:induction false} ResolveOther(mem: Mem, mem': Mem, t: nat, es: seq<Entry>, level: nat, pp: seq<nat>, path: seq<nat>)
    requires OnlyAt(mem, mem', t) && Rewritable(mem, t, es, level, pp) && |pp| + 1 == level == |path|
    requires path[0] != pp[0]
    ensures Resolve(mem', es, level, path) == Resolve(mem, es, level, path)
  {
    hide Reach, Child, Children, Rewritable;
    if path[0] < |es| && es[path[0]].present && !es[path[0]].size {
      var e := es[path[0]];
      RewritableAside(mem, t, es, level, pp, path[0]);
      EntryInReach(mem, es, path[0], level);
      assert e.frame != t;
      ResolveShape(mem, mem', Entries(mem, e.frame), level - 1, path[1..]);
    }
  }

  /** And those see what the table says. */
  lemma {:induction false} ResolveThrough(mem: Mem, mem': Mem, count: multiset<nat>, t: nat, es: seq<Entry>, level: nat, pp: seq<nat>, path: seq<nat>)
    requires OnlyAt(mem, mem', t) && Rewritable(mem, t, es, level, pp) && |pp| + 1 == level == |path|
    requires Good(mem, count, es, level, true)
    requires path[..|pp|] == pp
    ensures Resolve(mem', es, level, path) == Resolve(mem', Entries(mem', t), 1, path[|pp|..])
    decreases level
  {
    hide Reach, Child, Children;
    RewritableDown(mem, t, es, level, pp);
    assert path[0] == pp[0];
    var e := es[path[0]];
    assert GoodEntry(mem, count, e, level, true);
    if |pp| > 1 {
      assert path[1..][..|pp| - 1] == pp[1..];
      ResolveThrough(mem, mem', count, t, Entries(mem, e.frame), level - 1, pp[1..], path[1..]);
      assert path[1..][|pp| - 1..] == path[|pp|..];
    }
  }

  /** As for reading, for writing. */
  lemma {:induction false} MayAside(mem: Mem, mem': Mem, t: nat, es: seq<Entry>, level: nat, pp: seq<nat>, path: seq<nat>)
    requires OnlyAt(mem, mem', t) && Rewritable(mem, t, es, level, pp) && |pp| + 1 == level == |path|
    requires path[..|pp|] != pp && Resolve(mem, es, level, path).Hit?
    ensures May(mem', es, level, path) == May(mem, es, level, path)
    decreases level
  {
    hide Reach, Child, Children;
    RewritableDown(mem, t, es, level, pp);
    var e := es[path[0]];
    if path[0] != pp[0] {
      MayOther(mem, mem', t, es, level, pp, path);
    } else {
      assert path[..|pp|] == [path[0]] + path[1..][..|pp| - 1] && pp == [pp[0]] + pp[1..];
      MayAside(mem, mem', t, Entries(mem, e.frame), level - 1, pp[1..], path[1..]);
    }
  }

  lemma {:induction false} MayOther(mem: Mem, mem': Mem, t: nat, es: seq<Entry>, level: nat, pp: seq<nat>, path: seq<nat>)
    requires OnlyAt(mem, mem', t) && Rewritable(mem, t, es, level, pp) && |pp| + 1 == level == |path|
    requires path[0] != pp[0] && Resolve(mem, es, level, path).Hit?
    ensures May(mem', es, level, path) == May(mem, es, level, path)
  {
    hide Reach, Child, Children, Rewritable;
    var e := es[path[0]];
    if level > 1 {
      RewritableAside(mem, t, es, level, pp, path[0]);
      EntryInReach(mem, es, path[0], level);
      assert e.frame != t;
      MayShape(mem, mem', Entries(mem, e.frame), level - 1, path[1..]);
    }
  }

  /** No entry of a writable path is copy-on-write, so the last one decides. */
  lemma {:induction false} MayThrough(mem: Mem, mem': Mem, count: multiset<nat>, t: nat, es: seq<Entry>, level: nat, pp: seq<nat>, path: seq<nat>)
    requires OnlyAt(mem, mem', t) && Rewritable(mem, t, es, level, pp) && |pp| + 1 == level == |path|
    requires Good(mem, count, es, level, true)
    requires path[..|pp|] == pp
    ensures May(mem', es, level, path) == May(mem', Entries(mem', t), 1, path[|pp|..])
    decreases level
  {
    hide Reach, Child, Children;
    RewritableDown(mem, t, es, level, pp);
    assert path[0] == pp[0];
    var e := es[path[0]];
    assert GoodEntry(mem, count, e, level, true);
    if |pp| > 1 {
      assert path[1..][..|pp| - 1] == pp[1..];
      MayThrough(mem, mem', count, t, Entries(mem, e.frame), level - 1, pp[1..], path[1..]);
      assert path[1..][|pp| - 1..] == path[|pp|..];
    }
  }

  /** In space a the page at `path` becomes what e' says; everything else stays as it was. */
  ghost predicate PageSet(m: Machine, m': Machine, a: nat, path: seq<nat>, e': Entry)
  {
    && m'.spaces == m.spaces
    && forall b: nat, va: nat | b < |m.spaces| :: CellSet(m, m', a, path, e', b, va)
  }

  ghost predicate CellSet(m: Machine, m': Machine, a: nat, path: seq<nat>, e': Entry, b: nat, va: nat)
    requires b < |m.spaces| && b < |m'.spaces|
  {
    if b == a && va < USER_TOP && Path(va) == path then
      && Load(m', b, va) == (if e'.present && e'.user then ByteAt(m.mem, e'.frame, va % PAGE_SIZE) else None)
      && (MayWrite(m', b, va) <==> Load(m', b, va).Some? && (e'.rw || e'.cow))
    else Load(m', b, va) == Load(m, b, va) && MayWrite(m', b, va) == MayWrite(m, b, va)
  }

  /** What may be written into an entry of a page table. */
  ghost predicate LeafOk(m: Machine, a: nat, path: seq<nat>, t: nat, e': Entry)
  {
    && Inv(m) && a < |m.spaces| && |path| == 4 && At(m, a, path[..3], t) && path[3] < |Entries(m.mem, t)|
    && var e := Entries(m.mem, t)[path[3]];
    && (e'.present ==>
          && (e'.frame in m.held || (e.present && e.frame == e'.frame))
          && e'.frame in m.mem && m.mem[e'.frame].Page? && |m.mem[e'.frame].bytes| == PAGE_SIZE
          && (e'.rw ==> m.count[e'.frame] == 1 && !e'.cow))
  }

  lemma {:induction false} LeafInv(m: Machine, a: nat, path: seq<nat>, t: nat, e': Entry)
    requires LeafOk(m, a, path, t, e')
    ensures Inv(SetLeaf(m, t, path[3], e'))
  {
    hide Inv, At, Reach;
    var e := Entries(m.mem, t)[path[3]];
    var mem' := SetLeaf(m, t, path[3], e').mem;
    LeafTable(m, a, path, t);
    assert GoodEntry(mem', m.count, e', 1, true);
    LeafChild(m.mem, e);
    LeafChild(mem', e');
    if e.present && e'.present && e.frame == e'.frame {
      SetInv(m, a, path[..3], t, path[3], e', multiset{}, multiset{});
    } else {
      SetInv(m, a, path[..3], t, path[3], e', Refs(e), Refs(e'));
    }
  }

  lemma LeafTable(m: Machine, a: nat, path: seq<nat>, t: nat)
    requires Inv(m) && a < |m.spaces| && |path| == 4 && At(m, a, path[..3], t)
    ensures t in m.mem && m.mem[t].Table?
    ensures Rewritable(m.mem, t, UserHalf(m.mem, m.spaces[a]), 4, path[..3])
    ensures Good(m.mem, m.count, UserHalf(m.mem, m.spaces[a]), 4, true)
    ensures t != m.spaces[a]
    ensures forall b | 0 <= b < |m.spaces| && b != a :: t !in Tree(m.mem, m.spaces[b]) && t != m.spaces[b]
  {
    hide Inv, WritablePath, Reach, Good;
    AtTable(m, a, path[..3], t);
    AtInnerAlone(m, a, path[..3], t);
    RootAlone(m, a);
    SpaceCount(m, a);
  }

  lemma LeafChild(mem: Mem, e: Entry)
    ensures Child(mem, e, 1) == Refs(e)
  {
  }

  lemma {:induction false} LeafLoad(m: Machine, a: nat, path: seq<nat>, t: nat, e': Entry)
    requires LeafOk(m, a, path, t, e')
    ensures PageSet(m, SetLeaf(m, t, path[3], e'), a, path, e')
  {
    hide Inv, At, CellSet, SetLeaf;
    var m' := SetLeaf(m, t, path[3], e');
    forall b: nat, va: nat | b < |m.spaces| ensures CellSet(m, m', a, path, e', b, va) {
      if b == a {
        LeafLoadOwn(m, a, path, t, e', va);
      } else {
        LeafLoadOther(m, a, path, t, e', b, va);
      }
    }
  }

  lemma {:induction false} LeafLoadOther(m: Machine, a: nat, path: seq<nat>, t: nat, e': Entry, b: nat, va: nat)
    requires LeafOk(m, a, path, t, e') && b < |m.spaces| && b != a
    ensures CellSet(m, SetLeaf(m, t, path[3], e'), a, path, e', b, va)
  {
    hide Inv, At, Load, MayWrite, Tree, Good, Rewritable, SetLeaf;
    LeafTable(m, a, path, t);
    CellFrame(m, SetLeaf(m, t, path[3], e'), b, va);
  }

  lemma {:induction false} LeafLoadOwn(m: Machine, a: nat, path: seq<nat>, t: nat, e': Entry, va: nat)
    requires LeafOk(m, a, path, t, e')
    ensures CellSet(m, SetLeaf(m, t, path[3], e'), a, path, e', a, va)
  {
    hide Inv, At, Reach, Good, Rewritable, Resolve, May, Path, SetLeaf;
    var m' := SetLeaf(m, t, path[3], e');
    if va < USER_TOP {
      LeafTable(m, a, path, t);
      var es := UserHalf(m.mem, m.spaces[a]);
      var p, q := path[..3], Path(va);
      if q[..3] != p {
        LeafLoadAside(m.mem, m'.mem, t, es, p, q, va % PAGE_SIZE);
      } else {
        LeafLoadThrough(m, m', a, path, t, q);
        assert q == q[..3] + [q[3]] && path == p + [path[3]];
      }
    }
  }

  lemma {:induction false} LeafLoadAside(mem: Mem, mem': Mem, t: nat, es: seq<Entry>, p: seq<nat>, q: seq<nat>, off: nat)
    requires OnlyAt(mem, mem', t) && Rewritable(mem, t, es, 4, p) && |p| == 3 && |q| == 4 && q[..3] != p
    requires t in mem && mem[t].Table? && t in mem' && mem'[t].Table?
    ensures LoadAt(mem', es, 4, q, off) == LoadAt(mem, es, 4, q, off)
    ensures LoadAt(mem, es, 4, q, off).Some? ==> May(mem', es, 4, q) == May(mem, es, 4, q)
  {
    hide Rewritable, Resolve, May;
    ResolveAside(mem, mem', t, es, 4, p, q);
    if Resolve(mem, es, 4, q).Hit? {
      MayAside(mem, mem', t, es, 4, p, q);
    }
  }

  lemma {:induction false} LeafLoadThrough(m: Machine, m': Machine, a: nat, path: seq<nat>, t: nat, q: seq<nat>)
    requires Inv(m) && a < |m.spaces| && |path| == |q| == 4 && At(m, a, path[..3], t) && q[..3] == path[..3]
    requires OnlyAt(m.mem, m'.mem, t)
    ensures var es, e0, e1 := UserHalf(m.mem, m.spaces[a]), Entries(m.mem, t), Entries(m'.mem, t);
      && Resolve(m.mem, es, 4, q) == LastHit(e0, q[3]) && May(m.mem, es, 4, q) == LastMay(e0, q[3])
      && Resolve(m'.mem, es, 4, q) == LastHit(e1, q[3]) && May(m'.mem, es, 4, q) == LastMay(e1, q[3])
  {
    hide Inv, At, Reach, Good, Rewritable, Resolve, May;
    LeafTable(m, a, path, t);
    var es, p := UserHalf(m.mem, m.spaces[a]), path[..3];
    ResolveThrough(m.mem, m.mem, m.count, t, es, 4, p, q);
    ResolveThrough(m.mem, m'.mem, m.count, t, es, 4, p, q);
    MayThrough(m.mem, m.mem, m.count, t, es, 4, p, q);
    MayThrough(m.mem, m'.mem, m.count, t, es, 4, p, q);
    ResolveLast(m.mem, Entries(m.mem, t), q);
    ResolveLast(m'.mem, Entries(m'.mem, t), q);
  }

  /** What entry i of a page table says. */
  function LastHit(es: seq<Entry>, i: nat): (t: Translation)
  {
    if i < |es| && es[i].present && es[i].user then Hit(es[i].frame, es[i].rw) else Fault
  }

  predicate LastMay(es: seq<Entry>, i: nat)
  {
    i < |es| && (es[i].rw || es[i].cow)
  }

  lemma ResolveLast(mem: Mem, es: seq<Entry>, q: seq<nat>)
    requires |q| == 4
    ensures Resolve(mem, es, 1, q[3..]) == LastHit(es, q[3]) && May(mem, es, 1, q[3..]) == LastMay(es, q[3])
  {
    assert q[3..] == [q[3]];
  }

  /* ---------- the two operations ---------- */

  /** What mapping `frame` at `path` of space a may come to. */
  ghost predicate MapResult(m: Machine, a: nat, path: seq<nat>, frame: nat, flags: Entry, r: (Machine, PM.Outcome))
  {
    && Inv(r.0)
    && if r.1.Done? then PageSet(m, r.0, a, path, PM.LeafEntry(frame, flags)) else SameLoads(m, r.0)
  }

  /** vm_map_page keeps the invariant. It changes the one page of the one space, or, when
      it fails, nothing that anyone reads. */
  lemma {:induction false} MapWalkKeeps(m: Machine, a: nat, path: seq<nat>, depth: nat, t: nat, pages: seq<nat>, frame: nat, flags: Entry)
    requires Inv(m) && a < |m.spaces| && depth < |path| == |pages| == 4 && path[0] < USER_ENTRIES
    requires At(m, a, path[..depth], t) && FrameOk(m, t, path, depth, frame, flags) && MapOk(m, t, path, depth, pages, flags)
    ensures MapResult(m, a, path, frame, flags, MapWalk(m, t, path, depth, pages, frame, flags))
    decreases 4 - depth
  {
    hide Inv, At, SameLoads, PageSet, MapResult, AddTable;
    var es := Entries(m.mem, t);
    var p, i := path[..depth], path[depth];
    if i >= |es| {
      MapNot(m, a, path, frame, flags, PM.NoMemory);
      return;
    }
    AtEntry(m, a, p, t, i);
    assert path[..depth + 1] == p + [i];
    if depth == 3 {
      MapLeaf(m, a, path, t, frame, flags);
    } else if es[i].present {
      if PM.Large(es[i], depth) {
        MapNot(m, a, path, frame, flags, PM.InLargePage);
      } else {
        AtDown(m, a, p, t, i);
        MapWalkKeeps(m, a, path, depth + 1, es[i].frame, pages, frame, flags);
      }
    } else if pages[depth] == 0 {
      MapNoMemory(m, a, path, depth, t, frame, flags);
    } else {
      var page := pages[depth];
      var m1 := AddTable(m, t, i, page, flags);
      AddTableInv(m, a, p, t, i, page, flags);
      AddTableLoad(m, a, p, t, i, page, flags);
      AddTableFrame(m, a, path, depth, t, page, frame, flags);
      MapWalkKeeps(m1, a, path, depth + 1, page, pages, frame, flags);
      MapAfter(m, m1, a, path, frame, flags, MapWalk(m, t, path, depth, pages, frame, flags));
    }
  }

  lemma MapNot(m: Machine, a: nat, path: seq<nat>, frame: nat, flags: Entry, o: PM.Outcome)
    requires Inv(m) && !o.Done?
    ensures MapResult(m, a, path, frame, flags, (m, o))
  {
    hide Inv;
    SameLoadsRefl(m);
  }

  lemma MapLeaf(m: Machine, a: nat, path: seq<nat>, t: nat, frame: nat, flags: Entry)
    requires Inv(m) && a < |m.spaces| && |path| == 4 && At(m, a, path[..3], t) && path[3] < |Entries(m.mem, t)|
    requires FrameOk(m, t, path, 3, frame, flags)
    ensures MapResult(m, a, path, frame, flags, (SetLeaf(m, t, path[3], PM.LeafEntry(frame, flags)), PM.Done))
  {
    hide Inv, At, SameLoads, PageSet, SetLeaf;
    var e' := PM.LeafEntry(frame, flags);
    LeafInv(m, a, path, t, e');
    LeafLoad(m, a, path, t, e');
  }

  lemma MapNoMemory(m: Machine, a: nat, path: seq<nat>, depth: nat, t: nat, frame: nat, flags: Entry)
    requires Inv(m) && a < |m.spaces| && depth < 3 && |path| == 4 && path[0] < USER_ENTRIES
    requires At(m, a, path[..depth], t) && path[depth] < |Entries(m.mem, t)| && !Entries(m.mem, t)[path[depth]].present
    ensures MapResult(m, a, path, frame, flags, (Set(m, t, path[depth], NO_ENTRY, multiset{}, multiset{}), PM.NoMemory))
  {
    hide Inv, At, SameLoads, PageSet;
    ClearAbsent(m, a, path[..depth], t, path[depth]);
  }

  /** The page to be mapped is not disturbed by the tables made for it. */
  lemma AddTableFrame(m: Machine, a: nat, path: seq<nat>, depth: nat, t: nat, page: nat, frame: nat, flags: Entry)
    requires depth < 3 && |path| == 4 && path[depth] < |Entries(m.mem, t)|
    requires Addable(m, a, path[..depth], t, path[depth], page, flags) && FrameOk(m, t, path, depth, frame, flags)
    ensures var m1 := AddTable(m, t, path[depth], page, flags);
      FrameOk(m1, page, path, depth + 1, frame, flags) && m1.mem[frame] == m.mem[frame]
  {
    hide Occurrences, GoodSpace, WritablePath;
    assert frame in m.held && frame in m.count;
  }

  lemma MapAfter(m: Machine, m1: Machine, a: nat, path: seq<nat>, frame: nat, flags: Entry, r: (Machine, PM.Outcome))
    requires SameLoads(m, m1) && MapResult(m1, a, path, frame, flags, r)
    requires frame in m.mem && frame in m1.mem && m1.mem[frame] == m.mem[frame]
    ensures MapResult(m, a, path, frame, flags, r)
  {
    hide Inv, Load, MayWrite, Path;
    if !r.1.Done? {
      SameLoadsTrans(m, m1, r.0);
    } else {
      assert forall o: nat :: ByteAt(m1.mem, frame, o) == ByteAt(m.mem, frame, o);
      forall b: nat, va: nat | b < |m.spaces| ensures CellSet(m, r.0, a, path, PM.LeafEntry(frame, flags), b, va) {
        assert CellSet(m1, r.0, a, path, PM.LeafEntry(frame, flags), b, va);
      }
    }
  }

  /** vm_unmap_page keeps the invariant and takes away the one page of the one space. */
  lemma {:induction false} UnmapWalkKeeps(m: Machine, a: nat, path: seq<nat>, depth: nat, t: nat)
    requires Inv(m) && a < |m.spaces| && depth < |path| == 4 && path[0] < USER_ENTRIES
    requires At(m, a, path[..depth], t) && UnmapOk(m, t, path, depth)
    ensures Inv(UnmapWalk(m, t, path, depth))
    ensures PageSet(m, UnmapWalk(m, t, path, depth), a, path, NO_ENTRY)
    decreases 4 - depth
  {
    hide Inv, At, PageSet;
    var es := Entries(m.mem, t);
    var p, i := path[..depth], path[depth];
    if i >= |es| || (depth < 3 && !es[i].present) {
      NothingThere(m, a, path, depth, t);
      return;
    }
    AtEntry(m, a, p, t, i);
    assert path[..depth + 1] == p + [i];
    if depth == 3 {
      LeafInv(m, a, path, t, NO_ENTRY);
      LeafLoad(m, a, path, t, NO_ENTRY);
    } else {
      AtDown(m, a, p, t, i);
      UnmapWalkKeeps(m, a, path, depth + 1, es[i].frame);
    }
  }

  /** A walk that ends early maps nothing. */
  lemma {:induction false} NothingThere(m: Machine, a: nat, path: seq<nat>, depth: nat, t: nat)
    requires Inv(m) && a < |m.spaces| && depth < |path| == 4 && path[0] < USER_ENTRIES
    requires At(m, a, path[..depth], t)
    requires path[depth] >= |Entries(m.mem, t)| || !Entries(m.mem, t)[path[depth]].present
    ensures PageSet(m, m, a, path, NO_ENTRY)
  {
    hide Inv, WritablePath, Reach, Path;
    SpaceCount(m, a);
    var es := UserHalf(m.mem, m.spaces[a]);
    if depth > 0 {
      EndsEarly(m.mem, es, 4, path, depth, t);
    }
  }

  /* ---------- free pages from the allocator ---------- */

  /** The pages allocated, from some depth on, were free and are different. */
  ghost predicate Answered(count: multiset<nat>, pages: seq<nat>, depth: nat)
  {
    && (forall d | depth <= d < |pages| && pages[d] != 0 :: pages[d] !in count)
    && (forall c, d | depth <= c < d < |pages| && pages[d] != 0 :: pages[c] != pages[d])
  }

  lemma AnsweredNone(count: multiset<nat>, pages: seq<nat>, depth: nat)
    requires forall d | 0 <= d < |pages| :: pages[d] == 0
    ensures Answered(count, pages, depth)
  {
  }

  lemma AnsweredFirst(count: multiset<nat>, page: nat, rest: seq<nat>, depth: nat, count1: multiset<nat>)
    requires depth < |rest| && Answered(count1, rest, depth + 1)
    requires if page == 0 then count1 == count else page !in count && count1 == count + multiset{page}
    ensures Answered(count, rest[depth := page], depth)
  {
    var pages := rest[depth := page];
    forall d | depth < d < |pages| && pages[d] != 0 ensures pages[d] !in count && pages[d] != page {
      assert pages[d] == rest[d] && rest[d] !in count1;
    }
  }

  lemma AnsweredRest(count: multiset<nat>, pages: seq<nat>, depth: nat)
    requires depth < |pages| && Answered(count, pages, depth)
    ensures Answered(count, pages, depth + 1)
    ensures pages[depth] != 0 ==> pages[depth] !in count && Answered(count + multiset{pages[depth]}, pages, depth + 1)
  {
  }

  /** On user memory whose tables are not shared, vm_map_page takes a step of the machine. */
  lemma {:induction false} AnsweredMapOk(m: Machine, a: nat, path: seq<nat>, depth: nat, t: nat, pages: seq<nat>, flags: Entry)
    requires Inv(m) && a < |m.spaces| && depth < |path| == |pages| == 4 && path[0] < USER_ENTRIES
    requires At(m, a, path[..depth], t) && UnmapOk(m, t, path, depth) && !flags.size && !flags.cow
    requires Answered(m.count, pages, depth)
    ensures MapOk(m, t, path, depth, pages, flags)
    decreases 4 - depth
  {
    hide Inv, At, Answered;
    var es := Entries(m.mem, t);
    var p, i := path[..depth], path[depth];
    if i < |es| && depth < 3 {
      assert path[..depth + 1] == p + [i];
      AnsweredRest(m.count, pages, depth);
      if es[i].present {
        AtDown(m, a, p, t, i);
        AnsweredMapOk(m, a, path, depth + 1, es[i].frame, pages, flags);
      } else if pages[depth] != 0 {
        AddTableInv(m, a, p, t, i, pages[depth], flags);
        AddTablePage(m, a, p, t, pages[depth]);
        var m1 := AddTable(m, t, i, pages[depth], flags);
        assert Entries(m1.mem, pages[depth]) == PM.EmptyTable();
        AnsweredMapOk(m1, a, path, depth + 1, pages[depth], pages, flags);
      }
    }
  }

  /** With memory at hand, mapping on an unshared path succeeds. */
  lemma {:induction false} MapDone(m: Machine, a: nat, path: seq<nat>, depth: nat, t: nat, pages: seq<nat>, frame: nat, flags: Entry)
    requires Inv(m) && a < |m.spaces| && depth < |path| == |pages| == 4 && path[0] < USER_ENTRIES
    requires forall j | 0 <= j < 4 :: path[j] < ENTRIES
    requires At(m, a, path[..depth], t) && MapOk(m, t, path, depth, pages, flags) && !flags.size && !flags.cow
    requires forall d | 0 <= d < 3 :: pages[d] != 0
    ensures MapWalk(m, t, path, depth, pages, frame, flags).1.Done?
    decreases 4 - depth
  {
    hide Inv, At, Good, Reach, Rewritable, AddTable, SetLeaf;
    var p, i := path[..depth], path[depth];
    AtTable(m, a, p, t);
    var es := Entries(m.mem, t);
    AtEntry(m, a, p, t, i);
    assert path[..depth + 1] == p + [i];
    if depth < 3 {
      if es[i].present {
        AtDown(m, a, p, t, i);
        MapDone(m, a, path, depth + 1, es[i].frame, pages, frame, flags);
      } else {
        AddTableInv(m, a, p, t, i, pages[depth], flags);
        MapDone(AddTable(m, t, i, pages[depth], flags), a, path, depth + 1, pages[depth], pages, frame, flags);
      }
    }
  }

  lemma {:induction false} MapCounts(m: Machine, t: nat, path: seq<nat>, depth: nat, pages: seq<nat>, frame: nat, flags: Entry, f: nat)
    requires depth < |path| == |pages| == 4 && f !in m.count && f !in pages
    ensures f !in MapWalk(m, t, path, depth, pages, frame, flags).0.count
    decreases 4 - depth
  {
    var es := Entries(m.mem, t);
    var i := path[depth];
    if i < |es| && depth < 3 {
      if es[i].present {
        MapCounts(m, es[i].frame, path, depth + 1, pages, frame, flags, f);
      } else if pages[depth] != 0 {
        MapCounts(AddTable(m, t, i, pages[depth], flags), pages[depth], path, depth + 1, pages, frame, flags, f);
      }
    }
  }

  /** Different free pages will do for a page fault. */
  lemma {:induction false} AnsweredAllocOk(m: Machine, t: nat, idx: seq<nat>, pages: seq<nat>)
    requires |pages| == |idx| && Answered(m.count, pages, 0)
    ensures AllocOk(m, t, idx, pages)
    decreases |idx|
  {
    var es := Entries(m.mem, t);
    if idx != [] && idx[0] < |es| && es[idx[0]].present && !(2 <= |idx| <= 3 && es[idx[0]].size) {
      var e := es[idx[0]];
      assert forall d | 0 <= d < |pages[1..]| :: pages[1..][d] == pages[d + 1];
      if e.cow {
        if pages[0] != 0 && e.frame in m.mem {
          AnsweredAllocOk(CowStep(m, t, idx[0], pages[0]), pages[0], idx[1..], pages[1..]);
        }
      } else {
        AnsweredAllocOk(m, e.frame, idx[1..], pages[1..]);
      }
    }
  }
}
