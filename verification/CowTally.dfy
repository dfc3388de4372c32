/**
 What vm_map_page and vm_unmap_page do to the accounting when the page table they
 write is reached more than once: they move one reference, but every way to the
 table gains or loses an occurrence.
 */
module CowTally {
  import opened PageTree
  import opened CowSpec
  import opened CowFault
  import opened CowSteps
  import opened CowMap
  import opened CowShare
  import PM = PageMap

  /** d for each of k; d is one of -1, 0 and 1. */
  function Times(k: int, d: int): (n: int)
  {
    if d == 0 then 0 else if d > 0 then k else -k
  }

  /** Entry i of table t, which named a page or nothing, has come to name another or nothing. */
  ghost predicate Rewritten(mem: Mem, mem': Mem, t: nat, i: nat, x: Entry, x': Entry)
  {
    && t in mem && mem[t].Table? && i < |mem[t].entries| && mem[t].entries[i] == x
    && mem' == mem[t := Table(mem[t].entries[i := x'])]
    && NamesPage(mem, x) && NamesPage(mem, x') && !x'.size
  }

  /** The change of occurrences of f that one occurrence of the entry makes. */
  ghost function Delta(x: Entry, x': Entry, f: nat): (d: int)
    ensures -1 <= d <= 1
  {
    Refs(x')[f] as int - Refs(x)[f] as int
  }

  lemma {:induction false} SumTimes(ts: seq<multiset<nat>>, ts': seq<multiset<nat>>, t: nat, f: nat, d: int)
    requires |ts| == |ts'| && forall j | 0 <= j < |ts| :: ts'[j][f] == ts[j][f] + Times(ts[j][t], d)
    ensures Sum(ts')[f] == Sum(ts)[f] + Times(Sum(ts)[t], d)
    decreases |ts|
  {
    if ts != [] {
      SumTimes(ts[..|ts| - 1], ts'[..|ts| - 1], t, f, d);
    }
  }

  /** Below a list of entries every frame's occurrences change once for each occurrence of the table. */
  lemma {:induction false} ReachTimes(mem: Mem, mem': Mem, t: nat, i: nat, x: Entry, x': Entry, count: multiset<nat>, es: seq<Entry>, level: nat, w: bool, f: nat)
    requires Rewritten(mem, mem', t, i, x, x') && Good(mem, count, es, level, w)
    ensures Reach(mem', es, level)[f] == Reach(mem, es, level)[f] + Times(Reach(mem, es, level)[t], Delta(x, x', f))
    decreases level, 1
  {
    if level > 0 {
      hide Child, GoodEntry, Rewritten, Delta, Times;
      forall j | 0 <= j < |es|
        ensures Child(mem', es[j], level)[f] == Child(mem, es[j], level)[f] + Times(Child(mem, es[j], level)[t], Delta(x, x', f))
      {
        ChildTimes(mem, mem', t, i, x, x', count, es[j], level, w, f);
      }
      SumTimes(Children(mem, es, level), Children(mem', es, level), t, f, Delta(x, x', f));
    }
  }

  lemma {:induction false} ChildTimes(mem: Mem, mem': Mem, t: nat, i: nat, x: Entry, x': Entry, count: multiset<nat>, e: Entry, level: nat, w: bool, f: nat)
    requires Rewritten(mem, mem', t, i, x, x') && GoodEntry(mem, count, e, level, w) && level > 0
    ensures Child(mem', e, level)[f] == Child(mem, e, level)[f] + Times(Child(mem, e, level)[t], Delta(x, x', f))
    decreases level, 0
  {
    if Counted(e, level) && level > 1 {
      hide Reach, Delta;
      var es, w' := mem[e.frame].entries, w && e.rw;
      ReachTimes(mem, mem', t, i, x, x', count, es, level - 1, w', f);
      if e.frame == t {
        EntryTimes(mem, mem', t, i, x, x', count, level - 1, w', f);
      }
    } else {
      ReachNothing(mem, Entries(mem, e.frame));
      ReachNothing(mem', Entries(mem', e.frame));
    }
  }

  /** And in the table itself by the entry. */
  lemma {:induction false} EntryTimes(mem: Mem, mem': Mem, t: nat, i: nat, x: Entry, x': Entry, count: multiset<nat>, level: nat, w: bool, f: nat)
    requires Rewritten(mem, mem', t, i, x, x') && level > 0 && Good(mem, count, mem[t].entries, level, w)
    ensures Reach(mem', Entries(mem', t), level)[f] == Reach(mem', mem[t].entries, level)[f] + Delta(x, x', f)
  {
    hide Reach, Children;
    var es, es' := mem[t].entries, Entries(mem', t);
    assert GoodEntry(mem, count, x, level, w);
    PageChild(mem', x', level);
    if level == 1 || !x.present {
      PageChild(mem', x, level);
    }
    hide Child;
    assert forall j | 0 <= j < |es| && j != i :: es'[j] == es[j];
    ReachOneChanged(mem', es, mem', es', level, i, f, Delta(x, x', f));
  }

  /** A page, or nothing, contributes itself. */
  lemma PageChild(mem: Mem, x: Entry, level: nat)
    requires level > 0 && NamesPage(mem, x) && (level == 1 || !x.present || !x.size)
    ensures Child(mem, x, level) == Refs(x)
  {
    hide Reach;
    if x.present {
      assert Entries(mem, x.frame) == [];
      EmptyList(mem, level - 1);
    }
  }

  lemma EmptyList(mem: Mem, level: nat)
    ensures Reach(mem, [], level) == multiset{}
  {
  }

  /* ---------- all spaces ---------- */

  lemma {:induction false} TreeTimes(m: Machine, mem': Mem, t: nat, i: nat, x: Entry, x': Entry, b: nat, f: nat)
    requires Inv(m) && b < |m.spaces| && Rewritten(m.mem, mem', t, i, x, x') && m.spaces[b] != t
    ensures Tree(mem', m.spaces[b])[f] == Tree(m.mem, m.spaces[b])[f] + Times(Tree(m.mem, m.spaces[b])[t], Delta(x, x', f))
  {
    hide Inv, Reach, Good, Delta, Times;
    SpaceCount(m, b);
    ReachTimes(m.mem, mem', t, i, x, x', m.count, UserHalf(m.mem, m.spaces[b]), 4, true, f);
  }

  lemma {:induction false} TreesTimes(m: Machine, mem': Mem, t: nat, i: nat, x: Entry, x': Entry, f: nat)
    requires Inv(m) && Rewritten(m.mem, mem', t, i, x, x') && t !in m.spaces
    ensures Trees(mem', m.spaces)[f] == Trees(m.mem, m.spaces)[f] + Times(Trees(m.mem, m.spaces)[t], Delta(x, x', f))
  {
    hide Inv, Tree, Delta, Times, Rewritten;
    forall b | 0 <= b < |m.spaces|
      ensures Tree(mem', m.spaces[b])[f] == Tree(m.mem, m.spaces[b])[f] + Times(Tree(m.mem, m.spaces[b])[t], Delta(x, x', f))
    {
      TreeTimes(m, mem', t, i, x, x', b, f);
    }
    SumTimes(TreeList(m.mem, m.spaces), TreeList(mem', m.spaces), t, f, Delta(x, x', f));
  }

  /* ---------- when the invariant survives ---------- */

  /** A page table reached by user accesses has all its entries, and they name pages. */
  lemma {:induction false} LeadsTable(mem: Mem, count: multiset<nat>, from: nat, es: seq<Entry>, level: nat, w: bool, q: seq<nat>)
    requires Good(mem, count, es, level, w) && es <= Entries(mem, from) && 0 < |q| == level - 1 && q[0] < |es|
    requires Leads(mem, from, q).Some?
    ensures var t := Leads(mem, from, q).value;
      && t in mem && mem[t].Table? && |mem[t].entries| == ENTRIES
      && forall j | 0 <= j < ENTRIES :: NamesPage(mem, mem[t].entries[j])
    decreases |q|
  {
    var e := es[q[0]];
    assert GoodEntry(mem, count, e, level, w);
    if |q| > 1 {
      LeadsDeeper(mem, e.frame, q[1..]);
      LeadsTable(mem, count, e.frame, mem[e.frame].entries, level - 1, w && e.rw, q[1..]);
    } else {
      assert q[1..] == [];
      PagesNamed(mem, count, mem[e.frame].entries, w && e.rw);
    }
  }

  lemma PagesNamed(mem: Mem, count: multiset<nat>, es: seq<Entry>, w: bool)
    requires Good(mem, count, es, 1, w)
    ensures forall j | 0 <= j < |es| :: NamesPage(mem, es[j])
  {
    forall j | 0 <= j < |es| ensures NamesPage(mem, es[j]) {
      assert GoodEntry(mem, count, es[j], 1, w);
    }
  }

  /** The page the new entry names may stand in a page table. */
  ghost predicate LeafFits(mem: Mem, count: multiset<nat>, x: Entry)
  {
    x.present ==>
      && x.frame in mem && mem[x.frame].Page? && |mem[x.frame].bytes| == PAGE_SIZE
      && (x.rw ==> count[x.frame] == 1 && !x.cow)
  }

  /** A page table that a tree reaches once may be rewritten, whatever its path permits. */
  lemma {:induction false} GoodOnce(mem: Mem, mem': Mem, t: nat, i: nat, x: Entry, x': Entry, count: multiset<nat>,
                                    from: nat, es: seq<Entry>, level: nat, w: bool, q: seq<nat>)
    requires Rewritten(mem, mem', t, i, x, x') && LeafFits(mem, count, x') && |mem[t].entries| == ENTRIES
    requires Good(mem, count, es, level, w) && es <= Entries(mem, from) && 0 < |q| == level - 1 && q[0] < |es|
    requires Leads(mem, from, q) == Some(t) && Reach(mem, es, level)[t] == 1
    ensures Good(mem', count, es, level, w)
    decreases |q|
  {
    hide Reach, Child, Children;
    var e := es[q[0]];
    assert GoodEntry(mem, count, e, level, w);
    LeadsInChild(mem, from, es, level, q);
    EntryInReach(mem, es, q[0], level);
    if |q| > 1 {
      LeadsDeeper(mem, e.frame, q[1..]);
      LeadsReach(mem, e.frame, Entries(mem, e.frame), level - 1, q[1..]);
      GoodOnce(mem, mem', t, i, x, x', count, e.frame, mem[e.frame].entries, level - 1, w && e.rw, q[1..]);
      assert e.frame != t;
    } else {
      assert q[1..] == [];
      TableGood(mem, mem', t, i, x, x', count, w && e.rw);
    }
    assert GoodEntry(mem', count, e, level, w);
    forall j | 0 <= j < |es| && j != q[0] ensures GoodEntry(mem', count, es[j], level, w) {
      TwoChildrenInReach(mem, es, q[0], j, level, t);
      assert GoodEntry(mem, count, es[j], level, w);
      GoodEntryFrame(mem, count, mem', count, es[j], level, w);
    }
  }

  lemma TableGood(mem: Mem, mem': Mem, t: nat, i: nat, x: Entry, x': Entry, count: multiset<nat>, w: bool)
    requires Rewritten(mem, mem', t, i, x, x') && LeafFits(mem, count, x') && Good(mem, count, mem[t].entries, 1, w)
    ensures Good(mem', count, mem'[t].entries, 1, w)
  {
    forall j | 0 <= j < |mem[t].entries| ensures GoodEntry(mem', count, mem'[t].entries[j], 1, w) {
      assert GoodEntry(mem, count, mem[t].entries[j], 1, w);
    }
  }

  /** The entry x of page table t of space a may be replaced by x': the kernel holds the page. */
  ghost predicate Replaceable(m: Machine, a: nat, q: seq<nat>, t: nat, i: nat, x': Entry)
  {
    && Inv(m) && a < |m.spaces| && |q| == 3 && q[0] < USER_ENTRIES && Leads(m.mem, m.spaces[a], q) == Some(t)
    && i < |Entries(m.mem, t)|
    && LeafFits(m.mem, m.count, x') && !x'.size && (x'.present ==> x'.frame in m.held)
    && Refs(x') != Refs(Entries(m.mem, t)[i])
  }

  lemma {:induction false} ReplaceableFacts(m: Machine, a: nat, q: seq<nat>, t: nat, i: nat, x': Entry)
    requires Replaceable(m, a, q, t, i, x')
    ensures t in m.mem && m.mem[t].Table? && |m.mem[t].entries| == ENTRIES
    ensures Rewritten(m.mem, SetLeaf(m, t, i, x').mem, t, i, Entries(m.mem, t)[i], x')
    ensures t in Tree(m.mem, m.spaces[a]) && t !in m.spaces
    ensures Good(m.mem, m.count, UserHalf(m.mem, m.spaces[a]), 4, true)
  {
    hide Inv, Reach, Good;
    SpaceCount(m, a);
    var es := UserHalf(m.mem, m.spaces[a]);
    LeadsTable(m.mem, m.count, m.spaces[a], es, 4, true, q);
    LeadsReach(m.mem, m.spaces[a], es, 4, q);
    if b :| 0 <= b < |m.spaces| && m.spaces[b] == t {
      RootAlone(m, b);
    }
  }

  /** The counts do not change; the occurrences and what is held do. */
  lemma {:induction false} ReplacedCount(m: Machine, a: nat, q: seq<nat>, t: nat, i: nat, x': Entry, f: nat)
    requires Replaceable(m, a, q, t, i, x')
    ensures var m', d := SetLeaf(m, t, i, x'), Delta(Entries(m.mem, t)[i], x', f);
      && m'.count == m.count
      && Occurrences(m')[f] + m'.held[f] == m.count[f] + Times(Occurrences(m)[t], d) - d
  {
    ReplaceableFacts(m, a, q, t, i, x');
    hide Tree, GoodSpace, Trees, Leads, LeafFits;
    var m', x := SetLeaf(m, t, i, x'), Entries(m.mem, t)[i];
    TreesTimes(m, m'.mem, t, i, x, x', f);
    HeldMoves(m.held, Refs(x), Refs(x'), f);
    assert t !in multiset(m.spaces);
    assert !(x.present && x'.present && x.frame == x'.frame);
  }

  lemma HeldMoves(held: multiset<nat>, lost: multiset<nat>, gained: multiset<nat>, f: nat)
    requires gained <= held
    ensures (held - gained + lost)[f] == held[f] - gained[f] + lost[f]
  {
    assert gained[f] <= held[f];
  }

  /** The page newly mapped is named by each way to the table, but was counted once. */
  lemma {:induction false} Undercounted(m: Machine, a: nat, q: seq<nat>, t: nat, i: nat, x': Entry)
    requires Replaceable(m, a, q, t, i, x') && x'.present
    ensures var m' := SetLeaf(m, t, i, x');
      Occurrences(m')[x'.frame] + m'.held[x'.frame] + 1 == m'.count[x'.frame] + Occurrences(m)[t]
  {
    hide Inv, Occurrences, Leads, LeafFits;
    var x := Entries(m.mem, t)[i];
    DeltaAt(x, x');
    ReplacedCount(m, a, q, t, i, x', x'.frame);
  }

  lemma DeltaAt(x: Entry, x': Entry)
    requires Refs(x) != Refs(x')
    ensures x'.present ==> Delta(x, x', x'.frame) == 1
    ensures !x'.present ==> x.present && Delta(x, x', x.frame) == -1
  {
  }

  /** Rewriting an entry of a page table keeps the invariant exactly if the table is reached once. */
  lemma {:induction false} ReplaceExactly(m: Machine, a: nat, q: seq<nat>, t: nat, i: nat, x': Entry)
    requires Replaceable(m, a, q, t, i, x')
    ensures Inv(SetLeaf(m, t, i, x')) <==> Occurrences(m)[t] == 1
  {
    hide Inv, Occurrences, Leads, LeafFits, SetLeaf;
    var m', x := SetLeaf(m, t, i, x'), Entries(m.mem, t)[i];
    DeltaAt(x, x');
    var f := if x'.present then x'.frame else x.frame;
    ReplacedCount(m, a, q, t, i, x', f);
    if Inv(m') {
      CountIs(m', f);
    } else if Occurrences(m)[t] == 1 {
      ReplacedInv(m, a, q, t, i, x');
    }
  }

  lemma CountIs(m: Machine, f: nat)
    requires Inv(m)
    ensures m.count[f] == Occurrences(m)[f] + m.held[f]
  {
  }

  lemma {:induction false} ReplacedInv(m: Machine, a: nat, q: seq<nat>, t: nat, i: nat, x': Entry)
    requires Replaceable(m, a, q, t, i, x') && Occurrences(m)[t] == 1
    ensures Inv(SetLeaf(m, t, i, x'))
  {
    hide Leads, LeafFits, GoodSpace, Occurrences, SetLeaf;
    var m' := SetLeaf(m, t, i, x');
    forall f: nat ensures m'.count[f] == Occurrences(m')[f] + m'.held[f] {
      ReplacedCount(m, a, q, t, i, x', f);
    }
    SameSpaces(m, a, q, t, i, x');
    forall b | 0 <= b < |m.spaces| ensures GoodSpace(m'.mem, m'.count, m.spaces[b]) {
      ReplacedSpace(m, a, q, t, i, x', b);
    }
  }

  lemma SameSpaces(m: Machine, a: nat, q: seq<nat>, t: nat, i: nat, x': Entry)
    requires Replaceable(m, a, q, t, i, x')
    ensures Inv(m) && SetLeaf(m, t, i, x').spaces == m.spaces
  {
  }

  lemma {:induction false} ReplacedSpace(m: Machine, a: nat, q: seq<nat>, t: nat, i: nat, x': Entry, b: nat)
    requires Replaceable(m, a, q, t, i, x') && Occurrences(m)[t] == 1 && b < |m.spaces|
    ensures GoodSpace(SetLeaf(m, t, i, x').mem, m.count, m.spaces[b])
  {
    hide Inv, Reach, Good, Leads, SetLeaf;
    ReplaceableFacts(m, a, q, t, i, x');
    var m' := SetLeaf(m, t, i, x');
    OnceInTrees(m, a, t);
    SpaceCount(m, b);
    if b == a {
      GoodOnce(m.mem, m'.mem, t, i, Entries(m.mem, t)[i], x', m.count, m.spaces[a], UserHalf(m.mem, m.spaces[a]), 4, true, q);
    } else {
      SpaceFrame(m.mem, m.count, m'.mem, m.count, m.spaces[b]);
    }
  }

  lemma {:induction false} OnceInTrees(m: Machine, a: nat, t: nat)
    requires a < |m.spaces| && t in Tree(m.mem, m.spaces[a]) && Occurrences(m)[t] == 1
    ensures Tree(m.mem, m.spaces[a])[t] == 1
    ensures forall b | 0 <= b < |m.spaces| && b != a :: t !in Tree(m.mem, m.spaces[b])
  {
    hide Tree;
    TreeInTrees(m.mem, m.spaces, a);
    forall b | 0 <= b < |m.spaces| && b != a ensures t !in Tree(m.mem, m.spaces[b]) {
      TwoTreesInTrees(m.mem, m.spaces, a, b, t);
    }
  }

  /* ---------- the two operations ---------- */

  /** Where the tables are there, mapping is one entry written. */
  lemma {:induction false} MapAtTarget(m: Machine, t: nat, es: seq<Entry>, w: bool, path: seq<nat>, depth: nat, pages: seq<nat>, frame: nat, flags: Entry)
    requires depth < |path| == |pages| == 4 && (forall j | 0 <= j < 4 :: path[j] < ENTRIES)
    requires es <= Entries(m.mem, t) && |Entries(m.mem, t)| == ENTRIES && path[depth] < |es| && Good(m.mem, m.count, es, 4 - depth, w)
    requires Target(m.mem, t, path, depth).1 == 3
    ensures var t' := Target(m.mem, t, path, depth).0;
      && path[3] < |Entries(m.mem, t')|
      && MapWalk(m, t, path, depth, pages, frame, flags) == (SetLeaf(m, t', path[3], PM.LeafEntry(frame, flags)), PM.Done)
      && UnmapWalk(m, t, path, depth) == SetLeaf(m, t', path[3], NO_ENTRY)
    decreases 4 - depth
  {
    hide SetLeaf;
    var e := es[path[depth]];
    assert GoodEntry(m.mem, m.count, e, 4 - depth, w);
    if depth < 3 {
      MapAtTarget(m, e.frame, m.mem[e.frame].entries, w && e.rw, path, depth + 1, pages, frame, flags);
    }
  }

  lemma {:induction false} SpaceTarget(m: Machine, a: nat, va: nat, pages: seq<nat>, frame: nat, flags: Entry)
    requires Inv(m) && a < |m.spaces| && va < USER_TOP && |pages| == 4
    requires Target(m.mem, m.spaces[a], Path(va), 0).1 == 3
    ensures var t, i := Target(m.mem, m.spaces[a], Path(va), 0).0, Path(va)[3];
      && i < |Entries(m.mem, t)| && Path(va)[0] < USER_ENTRIES
      && Leads(m.mem, m.spaces[a], Path(va)[..3]) == Some(t)
      && MapWalk(m, m.spaces[a], Path(va), 0, pages, frame, flags) == (SetLeaf(m, t, i, PM.LeafEntry(frame, flags)), PM.Done)
      && UnmapWalk(m, m.spaces[a], Path(va), 0) == SetLeaf(m, t, i, NO_ENTRY)
  {
    hide Inv, Reach, Good, Path, SetLeaf, MapWalk, UnmapWalk, Leads;
    PathDigits(va);
    PM.Indices(va);
    SpaceCount(m, a);
    var es := UserHalf(m.mem, m.spaces[a]);
    MapAtTarget(m, m.spaces[a], es, true, Path(va), 0, pages, frame, flags);
    TargetLeads(m.mem, m.count, m.spaces[a], es, true, Path(va), 0);
    assert Path(va)[0..3] == Path(va)[..3];
  }

  /** Page table t is the one for va, and the kernel holds a page, other than the one mapped there. */
  ghost predicate MapReady(m: Machine, a: nat, va: nat, t: nat, frame: nat, flags: Entry)
    requires a < |m.spaces|
  {
    && Inv(m) && va < USER_TOP && Target(m.mem, m.spaces[a], Path(va), 0) == (t, 3)
    && Path(va)[3] < |Entries(m.mem, t)| && Refs(Entries(m.mem, t)[Path(va)[3]]) != multiset{frame}
    && frame in m.held && LeafFits(m.mem, m.count, PM.LeafEntry(frame, flags)) && !flags.size
  }

  /** Mapping a page the kernel holds into a page table t keeps the invariant exactly if the table is
      reached once. */
  lemma {:induction false} MapCountsExactly(m: Machine, a: nat, va: nat, t: nat, pages: seq<nat>, frame: nat, flags: Entry)
    requires a < |m.spaces| && MapReady(m, a, va, t, frame, flags) && |pages| == 4
    ensures Inv(MapWalk(m, m.spaces[a], Path(va), 0, pages, frame, flags).0) <==> Occurrences(m)[t] == 1
  {
    hide Inv, Occurrences, MapWalk, UnmapWalk, SetLeaf, Path, Leads, LeafFits, Target;
    SpaceTarget(m, a, va, pages, frame, flags);
    ReplaceExactly(m, a, Path(va)[..3], t, Path(va)[3], PM.LeafEntry(frame, flags));
  }

  /** Otherwise the page is undercounted by the other ways to the table. */
  lemma {:induction false} MapUndercounts(m: Machine, a: nat, va: nat, t: nat, pages: seq<nat>, frame: nat, flags: Entry)
    requires a < |m.spaces| && MapReady(m, a, va, t, frame, flags) && |pages| == 4
    ensures var m' := MapWalk(m, m.spaces[a], Path(va), 0, pages, frame, flags).0;
      Occurrences(m')[frame] + m'.held[frame] + 1 == m'.count[frame] + Occurrences(m)[t]
  {
    hide Inv, Occurrences, MapWalk, UnmapWalk, SetLeaf, Path, Leads, LeafFits, Target;
    SpaceTarget(m, a, va, pages, frame, flags);
    Undercounted(m, a, Path(va)[..3], t, Path(va)[3], PM.LeafEntry(frame, flags));
  }

  /** And so does unmapping a page. */
  lemma {:induction false} UnmapCountsExactly(m: Machine, a: nat, va: nat, t: nat)
    requires Inv(m) && a < |m.spaces| && va < USER_TOP
    requires Target(m.mem, m.spaces[a], Path(va), 0) == (t, 3)
    requires Path(va)[3] < |Entries(m.mem, t)| && Entries(m.mem, t)[Path(va)[3]].present
    ensures Inv(UnmapWalk(m, m.spaces[a], Path(va), 0)) <==> Occurrences(m)[t] == 1
  {
    hide Inv, Occurrences, MapWalk, UnmapWalk, SetLeaf, Path, Leads, Target;
    SpaceTarget(m, a, va, [0, 0, 0, 0], 0, NO_ENTRY);
    ReplaceExactly(m, a, Path(va)[..3], t, Path(va)[3], NO_ENTRY);
  }
}
