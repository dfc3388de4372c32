/**
 vm_phys_addr, vm_map_page and vm_unmap_page (arch/x86_64/mm.c): the page tables
 of one address space, written through one entry at a time, are a map from pages
 to frames. Large and huge pages are part of it, as is the kernel half.
 */
module PageMap {
  import opened PageTree
  import opened CowSpec

  const LOW_HALF: nat := 0x1_0000_0000_0000   // what the four indices and the offset can tell apart

  /** Bits 48 to 63 are copies of bit 47. */
  predicate Canonical(v: nat)
  {
    v / LOW_HALF == if Path(v)[0] >= USER_ENTRIES then 0xffff else 0
  }

  /** The bytes mapped by an entry met after `depth` others. */
  function Span(depth: nat): (n: nat)
    ensures n > 0
  {
    match depth
    case 0 => 0x80_0000_0000
    case 1 => 0x4000_0000
    case 2 => 0x20_0000
    case _ => PAGE_SIZE
  }

  /** What an address is mapped to: an entry naming `frame`, found at some depth. */
  datatype Mapping = Absent | Mapped(frame: nat, depth: nat)

  predicate Large(e: Entry, depth: nat)
  {
    1 <= depth <= 2 && e.size
  }

  /** The walk all three functions make, from table t at the given depth. */
  function Walk(mem: Mem, t: nat, path: seq<nat>, depth: nat): (r: Mapping)
    requires depth < |path| == 4
    decreases 4 - depth
  {
    var es := Entries(mem, t);
    if path[depth] >= |es| || !es[path[depth]].present then Absent
    else
      var e := es[path[depth]];
      if depth == 3 || Large(e, depth) then Mapped(e.frame, depth)
      else Walk(mem, e.frame, path, depth + 1)
  }

  /** The physical address of v, given the mapping of its page; 0 stands for none. */
  function Address(r: Mapping, v: nat): (p: nat)
  {
    match r
    case Absent => 0
    case Mapped(frame, depth) => frame * PAGE_SIZE / Span(depth) * Span(depth) + v % Span(depth)
  }

  function PhysAddr(mem: Mem, root: nat, v: nat): (p: nat)
  {
    if Canonical(v) then Address(Walk(mem, root, Path(v), 0), v) else 0
  }

  /** `MadeLarge`: the flags of the call have turned the entry for a new table into one of a large
      page. The caller is told EINVAL, as for an address in a large page. */
  datatype Outcome = Done | NotCanonical | InLargePage | NoMemory | MadeLarge(depth: nat, frame: nat)

  /** The entry vm_map_page makes for a new table: present, writable, user, and the caller's flags. */
  function TableEntry(page: nat, flags: Entry): (e: Entry)
  {
    flags.(frame := page, present := true, rw := true, user := true)
  }

  function LeafEntry(frame: nat, flags: Entry): (e: Entry)
  {
    flags.(frame := frame, present := true)
  }

  function EmptyTable(): (es: seq<Entry>)
    ensures |es| == ENTRIES
    ensures forall i | 0 <= i < |es| :: es[i] == NO_ENTRY
  {
    seq(ENTRIES, _ => NO_ENTRY)
  }

  function SetEntry(mem: Mem, t: nat, i: nat, e: Entry): (mem': Mem)
    requires i < |Entries(mem, t)|
  {
    mem[t := Table(Entries(mem, t)[i := e])]
  }

  /** vm_map_page from table t on. `pages` holds what alloc_page answers at each depth
      if it is called there (0: no memory). Tables have all their entries, so
      the first branch is never taken. */
  function MapFrom(mem: Mem, t: nat, path: seq<nat>, depth: nat, pages: seq<nat>, frame: nat, flags: Entry): (r: (Mem, Outcome))
    requires depth < |path| == |pages| == 4
    decreases 4 - depth
  {
    var es := Entries(mem, t);
    var i := path[depth];
    if i >= |es| then (mem, NoMemory)
    else if depth == 3 then (SetEntry(mem, t, i, LeafEntry(frame, flags)), Done)
    else if es[i].present then
      if Large(es[i], depth) then (mem, InLargePage)
      else MapFrom(mem, es[i].frame, path, depth + 1, pages, frame, flags)
    else if pages[depth] == 0 then (SetEntry(mem, t, i, NO_ENTRY), NoMemory)
    else
      var mem1 := mem[pages[depth] := Table(EmptyTable())][t := Table(es[i := TableEntry(pages[depth], flags)])];
      if Large(flags, depth) then (mem1, MadeLarge(depth, pages[depth]))
      else MapFrom(mem1, pages[depth], path, depth + 1, pages, frame, flags)
  }

  function MapPage(mem: Mem, root: nat, v: nat, pages: seq<nat>, phys: nat, flags: Entry): (r: (Mem, Outcome))
    requires |pages| == 4
  {
    if Canonical(v) then MapFrom(mem, root, Path(v), 0, pages, phys / PAGE_SIZE, flags) else (mem, NotCanonical)
  }

  function UnmapFrom(mem: Mem, t: nat, path: seq<nat>, depth: nat): (mem': Mem)
    requires depth < |path| == 4
    decreases 4 - depth
  {
    var es := Entries(mem, t);
    var i := path[depth];
    if i >= |es| || (depth < 3 && !es[i].present) then mem
    else if depth == 3 || Large(es[i], depth) then SetEntry(mem, t, i, NO_ENTRY)
    else UnmapFrom(mem, es[i].frame, path, depth + 1)
  }

  function UnmapPage(mem: Mem, root: nat, v: nat): (r: (Mem, Outcome))
  {
    if Canonical(v) then (UnmapFrom(mem, root, Path(v), 0), Done) else (mem, NotCanonical)
  }

  /* ---------- an unshared tree ---------- */

  /** The table that entry i of t, a table at the given depth, leads to. */
  function Next(mem: Mem, t: nat, depth: nat, i: nat): (r: Option<nat>)
  {
    var es := Entries(mem, t);
    if depth < 3 && i < |es| && es[i].present && !Large(es[i], depth) then Some(es[i].frame) else None
  }

  /** The table reached by a list of indices from the root. */
  function TableAt(mem: Mem, root: nat, p: seq<nat>): (r: Option<nat>)
    decreases |p|
  {
    if p == [] then Some(root)
    else
      var last := |p| - 1;
      match TableAt(mem, root, p[..last])
      case None => None
      case Some(t) => Next(mem, t, last, p[last])
  }

  /** Every table has its entries and is reached in one way only. */
  ghost predicate Unshared(mem: Mem, root: nat)
  {
    && (forall p :: TableAt(mem, root, p).Some? ==> |Entries(mem, TableAt(mem, root, p).value)| == ENTRIES)
    && (forall p, q :: TableAt(mem, root, p).Some? && TableAt(mem, root, p) == TableAt(mem, root, q) ==> p == q)
  }

  lemma TableAtNext(mem: Mem, root: nat, p: seq<nat>, i: nat)
    ensures TableAt(mem, root, p + [i]) ==
            if TableAt(mem, root, p).Some? then Next(mem, TableAt(mem, root, p).value, |p|, i) else None
  {
    assert (p + [i])[..|p|] == p;
  }

  lemma TableAtRoot(mem: Mem, root: nat)
    ensures TableAt(mem, root, []) == Some(root)
  {
  }

  /** The walk passes through the tables its path names. */
  lemma {:induction false} WalkVia(mem: Mem, root: nat, path: seq<nat>, depth: nat)
    requires depth < |path| == 4 && TableAt(mem, root, path[..depth]).Some?
    ensures Walk(mem, root, path, 0) == Walk(mem, TableAt(mem, root, path[..depth]).value, path, depth)
    decreases depth
  {
    if depth > 0 {
      assert path[..depth][..depth - 1] == path[..depth - 1];
      WalkVia(mem, root, path, depth - 1);
    }
  }

  /* ---------- one entry written ---------- */

  /** In the tables of the tree, only entry i of the table at p changed, and became e. */
  ghost predicate Written(mem: Mem, mem': Mem, root: nat, p: seq<nat>, i: nat, e: Entry)
  {
    && TableAt(mem, root, p).Some? && i < |Entries(mem, TableAt(mem, root, p).value)|
    && forall q | TableAt(mem, root, q).Some? ::
         var t := TableAt(mem, root, q).value;
         Entries(mem', t) == if q == p then Entries(mem, t)[i := e] else Entries(mem, t)
  }

  lemma SetWritten(mem: Mem, root: nat, p: seq<nat>, t: nat, i: nat, e: Entry)
    requires Unshared(mem, root) && TableAt(mem, root, p) == Some(t) && i < ENTRIES
    ensures i < |Entries(mem, t)| && Written(mem, SetEntry(mem, t, i, e), root, p, i, e)
  {
  }

  lemma WrittenEntries(mem: Mem, mem': Mem, root: nat, p: seq<nat>, i: nat, e: Entry, q: seq<nat>)
    requires Written(mem, mem', root, p, i, e) && TableAt(mem, root, q).Some?
    ensures var t := TableAt(mem, root, q).value;
      && (q == p ==> i < |Entries(mem, t)|)
      && Entries(mem', t) == if q == p then Entries(mem, t)[i := e] else Entries(mem, t)
  {
  }

  /** Tables not below the entry are where they were. */
  lemma {:induction false} WrittenAside(mem: Mem, mem': Mem, root: nat, p: seq<nat>, i: nat, e: Entry, q: seq<nat>)
    requires Written(mem, mem', root, p, i, e) && !(p + [i] <= q)
    ensures TableAt(mem', root, q) == TableAt(mem, root, q)
    decreases |q|
  {
    hide TableAt, Written;
    if q != [] {
      var last := |q| - 1;
      WrittenAside(mem, mem', root, p, i, e, q[..last]);
      assert q == q[..last] + [q[last]];
      TableAtNext(mem, root, q[..last], q[last]);
      TableAtNext(mem', root, q[..last], q[last]);
      if TableAt(mem, root, q[..last]).Some? {
        WrittenEntries(mem, mem', root, p, i, e, q[..last]);
      }
    } else {
      TableAtRoot(mem, root);
      TableAtRoot(mem', root);
    }
  }

  /** Mappings not below the entry are what they were. */
  lemma {:induction false} WrittenElsewhere(mem: Mem, mem': Mem, root: nat, p: seq<nat>, i: nat, e: Entry, path: seq<nat>, depth: nat)
    requires Written(mem, mem', root, p, i, e) && depth < |path| == 4 && !(p + [i] <= path)
    requires TableAt(mem, root, path[..depth]).Some?
    ensures var t := TableAt(mem, root, path[..depth]).value;
      Walk(mem', t, path, depth) == Walk(mem, t, path, depth)
    decreases 4 - depth
  {
    hide TableAt, Written;
    var t := TableAt(mem, root, path[..depth]).value;
    assert path[..depth + 1] == path[..depth] + [path[depth]] && path[..depth + 1] <= path;
    TableAtNext(mem, root, path[..depth], path[depth]);
    WrittenEntries(mem, mem', root, p, i, e, path[..depth]);
    assert path[..depth] != p || path[depth] != i;
    if Next(mem, t, depth, path[depth]).Some? {
      WrittenElsewhere(mem, mem', root, p, i, e, path, depth + 1);
    }
  }

  /** Below the entry, the walk goes on from it. */
  lemma {:induction false} WrittenBelow(mem: Mem, mem': Mem, root: nat, p: seq<nat>, i: nat, e: Entry, path: seq<nat>)
    requires Written(mem, mem', root, p, i, e) && |p| < |path| == 4 && p + [i] <= path
    ensures var t := TableAt(mem, root, p).value;
      && Walk(mem', root, path, 0) == Walk(mem', t, path, |p|)
      && Walk(mem, root, path, 0) == Walk(mem, t, path, |p|)
      && path[|p|] == i
  {
    assert path[..|p|] == (p + [i])[..|p|] == p;
    assert path[|p|] == (p + [i])[|p|];
    WrittenAside(mem, mem', root, p, i, e, p);
    WalkVia(mem, root, path, |p|);
    WalkVia(mem', root, path, |p|);
  }

  /** What the new entry leads to: nothing, or an empty table that was not in the tree. */
  ghost predicate Barren(mem: Mem, mem': Mem, root: nat, depth: nat, e: Entry)
  {
    e.present && depth < 3 && !Large(e, depth) ==>
      && Entries(mem', e.frame) == EmptyTable()
      && forall q :: TableAt(mem, root, q) != Some(e.frame)
  }

  /** Below the written entry there is at most that one empty table. */
  lemma {:induction false} WrittenTables(mem: Mem, mem': Mem, root: nat, p: seq<nat>, i: nat, e: Entry, q: seq<nat>)
    requires Written(mem, mem', root, p, i, e) && Barren(mem, mem', root, |p|, e)
    requires p + [i] <= q
    ensures TableAt(mem', root, q) ==
            if q == p + [i] && e.present && |p| < 3 && !Large(e, |p|) then Some(e.frame) else None
    decreases |q|
  {
    var last := |q| - 1;
    if q == p + [i] {
      WrittenAside(mem, mem', root, p, i, e, p);
      TableAtNext(mem', root, p, i);
    } else {
      assert p + [i] <= q[..last];
      WrittenTables(mem, mem', root, p, i, e, q[..last]);
    }
  }

  lemma {:induction false} WrittenTableAt(mem: Mem, mem': Mem, root: nat, p: seq<nat>, i: nat, e: Entry, q: seq<nat>)
    requires Written(mem, mem', root, p, i, e) && Barren(mem, mem', root, |p|, e)
    requires TableAt(mem', root, q).Some?
    ensures || TableAt(mem', root, q) == TableAt(mem, root, q)
            || (q == p + [i] && TableAt(mem', root, q) == Some(e.frame) && Entries(mem', e.frame) == EmptyTable()
                && forall r :: TableAt(mem, root, r) != Some(e.frame))
  {
    if p + [i] <= q {
      WrittenTables(mem, mem', root, p, i, e, q);
    } else {
      WrittenAside(mem, mem', root, p, i, e, q);
    }
  }

  lemma {:induction false} WrittenUnshared(mem: Mem, mem': Mem, root: nat, p: seq<nat>, i: nat, e: Entry)
    requires Unshared(mem, root) && Written(mem, mem', root, p, i, e) && Barren(mem, mem', root, |p|, e)
    ensures Unshared(mem', root)
  {
    hide TableAt, Barren;
    forall q | TableAt(mem', root, q).Some? ensures |Entries(mem', TableAt(mem', root, q).value)| == ENTRIES {
      WrittenTableAt(mem, mem', root, p, i, e, q);
    }
    forall q, r | TableAt(mem', root, q).Some? && TableAt(mem', root, q) == TableAt(mem', root, r) ensures q == r {
      WrittenTableAt(mem, mem', root, p, i, e, q);
      WrittenTableAt(mem, mem', root, p, i, e, r);
    }
  }

  /* ---------- the three operations ---------- */

  /** Two trees that map every page alike. */
  ghost predicate SameMap(mem: Mem, mem': Mem, root: nat)
  {
    forall path: seq<nat> | |path| == 4 :: Walk(mem', root, path, 0) == Walk(mem, root, path, 0)
  }

  /** The pages the allocator answers are different and not tables of the tree. */
  ghost predicate FreshPages(mem: Mem, root: nat, pages: seq<nat>, depth: nat)
  {
    && (forall d, q | depth <= d < |pages| && pages[d] != 0 :: TableAt(mem, root, q) != Some(pages[d]))
    && (forall c, d | depth <= c < d < |pages| && pages[d] != 0 :: pages[c] != pages[d])
  }

  /** An entry that mapped nothing still maps nothing. */
  lemma {:induction false} WrittenNothing(mem: Mem, mem': Mem, root: nat, p: seq<nat>, i: nat, e: Entry)
    requires Unshared(mem, root) && Written(mem, mem', root, p, i, e) && Barren(mem, mem', root, |p|, e)
    requires |p| < 3 && !Entries(mem, TableAt(mem, root, p).value)[i].present && !(e.present && Large(e, |p|))
    ensures Unshared(mem', root) && SameMap(mem, mem', root)
  {
    WrittenUnshared(mem, mem', root, p, i, e);
    forall path: seq<nat> | |path| == 4 ensures Walk(mem', root, path, 0) == Walk(mem, root, path, 0) {
      if p + [i] <= path {
        WrittenBelow(mem, mem', root, p, i, e, path);
      } else {
        WrittenRoot(mem, mem', root, p, i, e, path);
      }
    }
  }

  lemma WrittenRoot(mem: Mem, mem': Mem, root: nat, p: seq<nat>, i: nat, e: Entry, path: seq<nat>)
    requires Written(mem, mem', root, p, i, e) && |path| == 4 && !(p + [i] <= path)
    ensures Walk(mem', root, path, 0) == Walk(mem, root, path, 0)
  {
    assert path[..0] == [];
    WrittenElsewhere(mem, mem', root, p, i, e, path, 0);
  }

  /** The last entry of a walk decides the pages it covers. */
  lemma {:induction false} WrittenLeaf(mem: Mem, mem': Mem, root: nat, p: seq<nat>, i: nat, e: Entry)
    requires Unshared(mem, root) && Written(mem, mem', root, p, i, e) && |p| <= 3
    requires !e.present || |p| == 3 || Large(e, |p|)
    ensures Unshared(mem', root)
    ensures forall path: seq<nat> | |path| == 4 :: Walk(mem', root, path, 0) ==
              if !(p + [i] <= path) then Walk(mem, root, path, 0) else if e.present then Mapped(e.frame, |p|) else Absent
  {
    WrittenUnshared(mem, mem', root, p, i, e);
    forall path: seq<nat> | |path| == 4
      ensures Walk(mem', root, path, 0) ==
              if !(p + [i] <= path) then Walk(mem, root, path, 0) else if e.present then Mapped(e.frame, |p|) else Absent
    {
      if p + [i] <= path {
        WrittenBelow(mem, mem', root, p, i, e, path);
      } else {
        WrittenRoot(mem, mem', root, p, i, e, path);
      }
    }
  }

  /** A new table enters the tree. */
  lemma {:induction false} TableAdded(mem: Mem, root: nat, p: seq<nat>, t: nat, i: nat, pages: seq<nat>, flags: Entry)
    requires Unshared(mem, root) && TableAt(mem, root, p) == Some(t) && |p| < 3 == |pages| - 1 && i < ENTRIES
    requires FreshPages(mem, root, pages, |p|) && pages[|p|] != 0 && !Large(flags, |p|)
    requires |Entries(mem, t)| == ENTRIES && !Entries(mem, t)[i].present
    ensures var page := pages[|p|];
      var mem1 := mem[page := Table(EmptyTable())][t := Table(Entries(mem, t)[i := TableEntry(page, flags)])];
      && Unshared(mem1, root) && SameMap(mem, mem1, root)
      && TableAt(mem1, root, p + [i]) == Some(page)
      && FreshPages(mem1, root, pages, |p| + 1)
  {
    hide TableAt, SameMap;
    var page := pages[|p|];
    var e := TableEntry(page, flags);
    var mem1 := mem[page := Table(EmptyTable())][t := Table(Entries(mem, t)[i := e])];
    assert Written(mem, mem1, root, p, i, e);
    assert Barren(mem, mem1, root, |p|, e);
    WrittenNothing(mem, mem1, root, p, i, e);
    WrittenTables(mem, mem1, root, p, i, e, p + [i]);
    forall d, q | |p| + 1 <= d < |pages| && pages[d] != 0 ensures TableAt(mem1, root, q) != Some(pages[d]) {
      if TableAt(mem1, root, q).Some? {
        WrittenTableAt(mem, mem1, root, p, i, e, q);
      }
    }
  }

  /** What vm_map_page from table t on does to the whole tree. */
  ghost predicate MapResult(mem: Mem, root: nat, path: seq<nat>, pages: seq<nat>, frame: nat, r: (Mem, Outcome))
    requires |path| == 4
  {
    && Unshared(r.0, root)
    && (if r.1.Done? then
          forall q: seq<nat> | |q| == 4 :: Walk(r.0, root, q, 0) == if q == path then Mapped(frame, 3) else Walk(mem, root, q, 0)
        else if r.1.MadeLarge? then BecameLarge(mem, root, path, r.1.depth, r.1.frame, r.0)
        else SameMap(mem, r.0, root))
    && var was := Walk(mem, root, path, 0);
    && (r.1.InLargePage? <==> was.Mapped? && was.depth < 3)
    && (r.1.NoMemory? ==> was.Absent? && 0 in pages)
    && (r.1.MadeLarge? ==> was.Absent? && r.1.frame in pages && r.1.frame != 0)
    && !r.1.NotCanonical?
  }

  /** A range in which nothing was mapped has become a large page. */
  ghost predicate BecameLarge(mem: Mem, root: nat, path: seq<nat>, depth: nat, frame: nat, mem': Mem)
    requires |path| == 4
  {
    && 1 <= depth <= 2
    && forall q: seq<nat> | |q| == 4 ::
         if q[..depth + 1] == path[..depth + 1] then Walk(mem, root, q, 0) == Absent && Walk(mem', root, q, 0) == Mapped(frame, depth)
         else Walk(mem', root, q, 0) == Walk(mem, root, q, 0)
  }

  lemma {:induction false} MapKeeps(mem: Mem, root: nat, path: seq<nat>, depth: nat, t: nat, pages: seq<nat>, frame: nat, flags: Entry)
    requires depth < |path| == |pages| == 4 && forall j | 0 <= j < 4 :: path[j] < ENTRIES
    requires Unshared(mem, root) && TableAt(mem, root, path[..depth]) == Some(t)
    requires FreshPages(mem, root, pages, depth)
    ensures MapResult(mem, root, path, pages, frame, MapFrom(mem, t, path, depth, pages, frame, flags))
    decreases 4 - depth
  {
    hide TableAt, FreshPages, Unshared, MapResult, SameMap;
    var p, i := path[..depth], path[depth];
    TableFull(mem, root, p, t);
    var es := Entries(mem, t);
    assert path[..depth + 1] == p + [i];
    if depth == 3 {
      MapLeaf(mem, root, path, t, pages, frame, LeafEntry(frame, flags));
    } else if es[i].present {
      if Large(es[i], depth) {
        MapLarge(mem, root, path, depth, t, pages, frame);
      } else {
        TableAtNext(mem, root, p, i);
        FreshLater(mem, root, pages, depth);
        MapKeeps(mem, root, path, depth + 1, es[i].frame, pages, frame, flags);
      }
    } else if pages[depth] == 0 {
      MapNoMemory(mem, root, path, depth, t, pages, frame);
    } else if Large(flags, depth) {
      MapMadeLarge(mem, root, path, depth, t, pages, frame, flags);
    } else {
      TableAdded(mem, root, p, t, i, pages, flags);
      var mem1 := mem[pages[depth] := Table(EmptyTable())][t := Table(es[i := TableEntry(pages[depth], flags)])];
      MapKeeps(mem1, root, path, depth + 1, pages[depth], pages, frame, flags);
      MapAfter(mem, mem1, root, path, pages, frame, MapFrom(mem, t, path, depth, pages, frame, flags));
    }
  }

  lemma {:induction false} MapLeaf(mem: Mem, root: nat, path: seq<nat>, t: nat, pages: seq<nat>, frame: nat, e: Entry)
    requires |path| == 4 && path[3] < |Entries(mem, t)| == ENTRIES
    requires Unshared(mem, root) && TableAt(mem, root, path[..3]) == Some(t) && e.present && e.frame == frame
    ensures MapResult(mem, root, path, pages, frame, (SetEntry(mem, t, path[3], e), Done))
  {
    hide TableAt, Unshared;
    WalkVia(mem, root, path, 3);
    SetWritten(mem, root, path[..3], t, path[3], e);
    hide Written;
    WrittenLeaf(mem, SetEntry(mem, t, path[3], e), root, path[..3], path[3], e);
    assert path[..3] + [path[3]] == path;
  }

  lemma {:induction false} MapLarge(mem: Mem, root: nat, path: seq<nat>, depth: nat, t: nat, pages: seq<nat>, frame: nat)
    requires depth < 3 && |path| == 4 && path[depth] < |Entries(mem, t)| == ENTRIES
    requires Unshared(mem, root) && TableAt(mem, root, path[..depth]) == Some(t)
    requires Entries(mem, t)[path[depth]].present && Large(Entries(mem, t)[path[depth]], depth)
    ensures MapResult(mem, root, path, pages, frame, (mem, InLargePage))
  {
    hide TableAt, Unshared;
    WalkVia(mem, root, path, depth);
  }

  lemma {:induction false} MapNoMemory(mem: Mem, root: nat, path: seq<nat>, depth: nat, t: nat, pages: seq<nat>, frame: nat)
    requires depth < 3 && |path| == |pages| == 4 && path[depth] < |Entries(mem, t)| == ENTRIES && pages[depth] == 0
    requires Unshared(mem, root) && TableAt(mem, root, path[..depth]) == Some(t)
    requires !Entries(mem, t)[path[depth]].present
    ensures MapResult(mem, root, path, pages, frame, (SetEntry(mem, t, path[depth], NO_ENTRY), NoMemory))
  {
    hide TableAt, Unshared, SameMap;
    var p, i := path[..depth], path[depth];
    WalkVia(mem, root, path, depth);
    SetWritten(mem, root, p, t, i, NO_ENTRY);
    NoEntryBarren(mem, SetEntry(mem, t, i, NO_ENTRY), root, depth);
    WrittenNothing(mem, SetEntry(mem, t, i, NO_ENTRY), root, p, i, NO_ENTRY);
  }

  lemma NewWritten(mem: Mem, root: nat, p: seq<nat>, t: nat, i: nat, pages: seq<nat>, e: Entry)
    requires Unshared(mem, root) && TableAt(mem, root, p) == Some(t) && |p| < |pages| && i < |Entries(mem, t)|
    requires FreshPages(mem, root, pages, |p|) && pages[|p|] != 0
    ensures Written(mem, mem[pages[|p|] := Table(EmptyTable())][t := Table(Entries(mem, t)[i := e])], root, p, i, e)
  {
    hide TableAt;
  }

  lemma {:induction false} MapMadeLarge(mem: Mem, root: nat, path: seq<nat>, depth: nat, t: nat, pages: seq<nat>, frame: nat, flags: Entry)
    requires 1 <= depth < 3 && |path| == |pages| == 4 && path[depth] < |Entries(mem, t)| == ENTRIES && pages[depth] != 0
    requires Unshared(mem, root) && TableAt(mem, root, path[..depth]) == Some(t) && FreshPages(mem, root, pages, depth)
    requires !Entries(mem, t)[path[depth]].present && flags.size
    ensures var page := pages[depth];
      var mem1 := mem[page := Table(EmptyTable())][t := Table(Entries(mem, t)[path[depth] := TableEntry(page, flags)])];
      MapResult(mem, root, path, pages, frame, (mem1, MadeLarge(depth, page)))
  {
    hide TableAt, SameMap, Unshared, Written, FreshPages, Walk;
    var p, i, page := path[..depth], path[depth], pages[depth];
    var e := TableEntry(page, flags);
    var mem1 := mem[page := Table(EmptyTable())][t := Table(Entries(mem, t)[i := e])];
    NewWritten(mem, root, p, t, i, pages, e);
    WrittenLeaf(mem, mem1, root, p, i, e);
    forall q: seq<nat> | |q| == 4
      ensures if q[..depth + 1] == path[..depth + 1] then Walk(mem, root, q, 0) == Absent && Walk(mem1, root, q, 0) == Mapped(page, depth)
              else Walk(mem1, root, q, 0) == Walk(mem, root, q, 0)
    {
      SameStart(path, depth, q);
      if p + [i] <= q {
        AbsentBelow(mem, root, p, i, q);
      }
    }
    SameStart(path, depth, path);
    AbsentBelow(mem, root, p, i, path);
  }

  lemma SameStart(path: seq<nat>, depth: nat, q: seq<nat>)
    requires depth < |path| == |q|
    ensures path[..depth] + [path[depth]] <= q <==> q[..depth + 1] == path[..depth + 1]
  {
    assert path[..depth + 1] == path[..depth] + [path[depth]];
  }

  /** Nothing is mapped below an absent entry. */
  lemma AbsentBelow(mem: Mem, root: nat, p: seq<nat>, i: nat, path: seq<nat>)
    requires |p| < |path| == 4 && p + [i] <= path && TableAt(mem, root, p).Some?
    requires i < |Entries(mem, TableAt(mem, root, p).value)| && !Entries(mem, TableAt(mem, root, p).value)[i].present
    ensures Walk(mem, root, path, 0) == Absent
  {
    hide TableAt;
    assert path[..|p|] == (p + [i])[..|p|] == p;
    assert path[|p|] == (p + [i])[|p|];
    WalkVia(mem, root, path, |p|);
  }

  lemma MapAfter(mem: Mem, mem1: Mem, root: nat, path: seq<nat>, pages: seq<nat>, frame: nat, r: (Mem, Outcome))
    requires |path| == 4 && SameMap(mem, mem1, root) && MapResult(mem1, root, path, pages, frame, r)
    ensures MapResult(mem, root, path, pages, frame, r)
  {
    hide Unshared, Walk;
    if r.1.MadeLarge? {
      var k := r.1.depth;
      forall q: seq<nat> | |q| == 4
        ensures if q[..k + 1] == path[..k + 1] then Walk(mem, root, q, 0) == Absent && Walk(r.0, root, q, 0) == Mapped(r.1.frame, k)
                else Walk(r.0, root, q, 0) == Walk(mem, root, q, 0)
      {
        assert Walk(mem1, root, q, 0) == Walk(mem, root, q, 0);
      }
    }
  }

  lemma TableFull(mem: Mem, root: nat, p: seq<nat>, t: nat)
    requires Unshared(mem, root) && TableAt(mem, root, p) == Some(t)
    ensures |Entries(mem, t)| == ENTRIES
  {
  }

  lemma FreshLater(mem: Mem, root: nat, pages: seq<nat>, depth: nat)
    requires FreshPages(mem, root, pages, depth)
    ensures FreshPages(mem, root, pages, depth + 1)
  {
  }

  lemma NoEntryBarren(mem: Mem, mem': Mem, root: nat, depth: nat)
    ensures Barren(mem, mem', root, depth, NO_ENTRY)
  {
  }

  /** The pages that share with `path` the entry found at that depth. */
  predicate Covered(r: Mapping, path: seq<nat>, q: seq<nat>)
    requires |path| == |q| == 4
  {
    r.Mapped? && r.depth < 4 && q[..r.depth + 1] == path[..r.depth + 1]
  }

  /** After removing `path`: what its entry covered is gone, and nothing else. */
  ghost predicate UnmapResult(mem: Mem, root: nat, path: seq<nat>, mem': Mem)
    requires |path| == 4
  {
    && Unshared(mem', root)
    && forall q: seq<nat> | |q| == 4 :: Walk(mem', root, q, 0) ==
         if Covered(Walk(mem, root, path, 0), path, q) then Absent else Walk(mem, root, q, 0)
  }

  lemma {:induction false} UnmapKeeps(mem: Mem, root: nat, path: seq<nat>, depth: nat, t: nat)
    requires depth < |path| == 4 && forall j | 0 <= j < 4 :: path[j] < ENTRIES
    requires Unshared(mem, root) && TableAt(mem, root, path[..depth]) == Some(t)
    ensures UnmapResult(mem, root, path, UnmapFrom(mem, t, path, depth))
    decreases 4 - depth
  {
    hide TableAt, Unshared;
    var i := path[depth];
    TableFull(mem, root, path[..depth], t);
    var es := Entries(mem, t);
    WalkVia(mem, root, path, depth);
    if depth == 3 || (es[i].present && Large(es[i], depth)) {
      UnmapLeaf(mem, root, path, depth, t);
    } else if es[i].present {
      assert path[..depth + 1] == path[..depth] + [i];
      TableAtNext(mem, root, path[..depth], i);
      UnmapKeeps(mem, root, path, depth + 1, es[i].frame);
    }
  }

  lemma {:induction false} UnmapLeaf(mem: Mem, root: nat, path: seq<nat>, depth: nat, t: nat)
    requires depth < |path| == 4 && path[depth] < |Entries(mem, t)| == ENTRIES
    requires Unshared(mem, root) && TableAt(mem, root, path[..depth]) == Some(t)
    requires depth == 3 || (Entries(mem, t)[path[depth]].present && Large(Entries(mem, t)[path[depth]], depth))
    ensures UnmapResult(mem, root, path, SetEntry(mem, t, path[depth], NO_ENTRY))
  {
    hide TableAt, Unshared;
    var p, i := path[..depth], path[depth];
    var mem' := SetEntry(mem, t, i, NO_ENTRY);
    WalkVia(mem, root, path, depth);
    SetWritten(mem, root, p, t, i, NO_ENTRY);
    hide Written;
    WrittenLeaf(mem, mem', root, p, i, NO_ENTRY);
    forall q: seq<nat> | |q| == 4
      ensures Walk(mem', root, q, 0) ==
              if Covered(Walk(mem, root, path, 0), path, q) then Absent else Walk(mem, root, q, 0)
    {
      assert path[..depth + 1] == p + [i];
      assert p + [i] <= q <==> q[..depth + 1] == path[..depth + 1];
      if q[..depth + 1] == path[..depth + 1] && depth == 3 {
        assert q[..4] == q && path[..4] == path;
      }
    }
  }

  /* ---------- addresses ---------- */

  /** Canonical addresses agree on the first indices when the same entry covers them. */
  lemma {:induction false} SameSpan(v: nat, v': nat, depth: nat)
    requires Canonical(v) && Canonical(v') && depth < 4
    ensures Path(v)[..depth + 1] == Path(v')[..depth + 1] <==> v / Span(depth) == v' / Span(depth)
  {
    hide Path, Span, Canonical;
    var p, p' := Path(v), Path(v');
    if depth == 0 {
      SameTop(v, v');
      SamePrefix(p, p', 0);
    } else {
      Digit(v, depth);
      Digit(v', depth);
      SameSpan(v, v', depth - 1);
      SamePrefix(p, p', depth);
      SameDigits(v / Span(depth - 1), p[depth], v' / Span(depth - 1), p'[depth]);
    }
  }

  lemma SamePrefix(p: seq<nat>, p': seq<nat>, k: nat)
    requires k < |p| == |p'|
    ensures p[..k + 1] == p'[..k + 1] <==> p[..k] == p'[..k] && p[k] == p'[k]
  {
    assert p[..k + 1] == p[..k] + [p[k]] && p'[..k + 1] == p'[..k] + [p'[k]];
  }

  lemma SameTop(v: nat, v': nat)
    requires Canonical(v) && Canonical(v')
    ensures Path(v)[0] == Path(v')[0] <==> v / Span(0) == v' / Span(0)
  {
    Indices(v);
    Indices(v');
  }

  lemma Digit(v: nat, depth: nat)
    requires 1 <= depth < 4
    ensures Path(v)[depth] < ENTRIES && v / Span(depth) == v / Span(depth - 1) * ENTRIES + Path(v)[depth]
  {
    Indices(v);
  }

  lemma SameDigits(x: nat, i: nat, y: nat, j: nat)
    requires i < ENTRIES && j < ENTRIES
    ensures x * ENTRIES + i == y * ENTRIES + j <==> x == y && i == j
  {
  }

  /** The indices are the digits of the address in base 512. */
  lemma Indices(v: nat)
    ensures var p := Path(v);
      && p[0] < ENTRIES && p[1] < ENTRIES && p[2] < ENTRIES && p[3] < ENTRIES
      && v / Span(0) == v / LOW_HALF * ENTRIES + p[0]
      && v / Span(1) == v / Span(0) * ENTRIES + p[1]
      && v / Span(2) == v / Span(1) * ENTRIES + p[2]
      && v / Span(3) == v / Span(2) * ENTRIES + p[3]
  {
    var n := v / PAGE_SIZE;
    assert v / 0x20_0000 == n / 512;
    assert v / 0x4000_0000 == n / 512 / 512;
    assert v / 0x80_0000_0000 == n / 512 / 512 / 512;
    assert v / LOW_HALF == n / 512 / 512 / 512 / 512;
  }

  /** The canonical addresses are the lower and the upper end of the 64-bit range. */
  lemma CanonicalIs(v: nat)
    ensures Canonical(v) <==> v < 0x8000_0000_0000 || 0xffff_8000_0000_0000 <= v < 0x1_0000_0000_0000_0000
  {
    Indices(v);
  }

  /** An entry maps its whole span: the first address of the span goes to the frame's address rounded
      down to the span, and the others follow in order. */
  lemma AddressIs(frame: nat, depth: nat, v: nat)
    requires depth < 4
    ensures var p := Address(Mapped(frame, depth), v);
      && p % Span(depth) == v % Span(depth)
      && frame * PAGE_SIZE - Span(depth) < p - v % Span(depth) <= frame * PAGE_SIZE
  {
    AddressAt(frame, depth, v);
    hide Address;
    var x := frame * PAGE_SIZE;
    match depth
    case 0 => RoundedHalf(x, v);
    case 1 => RoundedHuge(x, v);
    case 2 => RoundedLarge(x, v);
    case 3 => RoundedPage(frame, v);
  }

  lemma AddressAt(frame: nat, depth: nat, v: nat)
    ensures Address(Mapped(frame, depth), v) == frame * PAGE_SIZE / Span(depth) * Span(depth) + v % Span(depth)
  {
    hide Span;
  }

  lemma RoundedPage(frame: nat, v: nat)
    ensures var x, s := frame * 4096, 4096; x / s * s == x && (x + v % s) % s == v % s
  {
  }

  lemma RoundedHalf(x: nat, v: nat)
    ensures var s := 0x80_0000_0000; x - s < x / s * s <= x && (x / s * s + v % s) % s == v % s
  {
  }

  lemma RoundedHuge(x: nat, v: nat)
    ensures var s := 0x4000_0000; x - s < x / s * s <= x && (x / s * s + v % s) % s == v % s
  {
  }

  lemma RoundedLarge(x: nat, v: nat)
    ensures var s := 0x20_0000; x - s < x / s * s <= x && (x / s * s + v % s) % s == v % s
  {
  }

  /** Entry i of table t, absent if the table has no such entry. */
  function EntryAt(mem: Mem, t: nat, i: nat): (e: Entry)
  {
    if i < |Entries(mem, t)| then Entries(mem, t)[i] else NO_ENTRY
  }

  /** vm_phys_addr by the entries it meets: nothing below an absent one; at the PDPT and at the
      directory an entry with the size bit ends the walk. */
  lemma PhysAddrByEntries(mem: Mem, root: nat, v: nat)
    ensures var pml4e := EntryAt(mem, root, v / 0x80_0000_0000 % 512);
      var pdpe := EntryAt(mem, pml4e.frame, v / 0x4000_0000 % 512);
      var pde := EntryAt(mem, pdpe.frame, v / 0x20_0000 % 512);
      var pte := EntryAt(mem, pde.frame, v / 4096 % 512);
      PhysAddr(mem, root, v) ==
      if !(v < 0x8000_0000_0000 || 0xffff_8000_0000_0000 <= v < 0x1_0000_0000_0000_0000) then 0
      else if !pml4e.present || !pdpe.present then 0
      else if pdpe.size then pdpe.frame * 4096 / 0x4000_0000 * 0x4000_0000 + v % 0x4000_0000
      else if !pde.present then 0
      else if pde.size then pde.frame * 4096 / 0x20_0000 * 0x20_0000 + v % 0x20_0000
      else if !pte.present then 0
      else pte.frame * 4096 + v % 4096
  {
    CanonicalIs(v);
    hide Canonical;
    var pml4e := EntryAt(mem, root, Path(v)[0]);
    var pdpe := EntryAt(mem, pml4e.frame, Path(v)[1]);
    var pde := EntryAt(mem, pdpe.frame, Path(v)[2]);
    AddressLast(EntryAt(mem, pde.frame, Path(v)[3]).frame, v);
  }

  /** Inside the range that one entry maps, physical addresses are as far apart as virtual ones. */
  lemma {:induction false} PhysAddrSpan(mem: Mem, root: nat, v: nat, v': nat)
    requires Canonical(v) && Canonical(v')
    requires var r := Walk(mem, root, Path(v), 0); r.Mapped? && v / Span(r.depth) == v' / Span(r.depth)
    ensures PhysAddr(mem, root, v') - PhysAddr(mem, root, v) == v' - v
  {
    hide Path, Canonical;
    var r := Walk(mem, root, Path(v), 0);
    WalkDepth(mem, root, Path(v), 0);
    SameSpan(v, v', r.depth);
    SameWalk(mem, root, Path(v), Path(v'), 0);
    Apart(v, v', r.depth);
  }

  lemma Apart(v: nat, v': nat, depth: nat)
    requires depth < 4 && v / Span(depth) == v' / Span(depth)
    ensures v' % Span(depth) - v % Span(depth) == v' - v
  {
  }

  /** The walk does not look at the indices below the entry where it ends. */
  lemma {:induction false} SameWalk(mem: Mem, t: nat, path: seq<nat>, path': seq<nat>, depth: nat)
    requires depth < |path| == |path'| == 4
    requires var r := Walk(mem, t, path, depth); r.Mapped? && depth <= r.depth < 4 && path[..r.depth + 1] == path'[..r.depth + 1]
    ensures Walk(mem, t, path', depth) == Walk(mem, t, path, depth)
    decreases 4 - depth
  {
    var r := Walk(mem, t, path, depth);
    assert path[depth] == path[..r.depth + 1][depth] == path'[..r.depth + 1][depth] == path'[depth];
    var e := Entries(mem, t)[path[depth]];
    if depth < 3 && !Large(e, depth) {
      WalkDepth(mem, e.frame, path, depth + 1);
      SameWalk(mem, e.frame, path, path', depth + 1);
    }
  }

  lemma AddressLast(frame: nat, v: nat)
    ensures Address(Mapped(frame, 3), v) == frame * PAGE_SIZE + v % PAGE_SIZE && Span(3) == PAGE_SIZE
  {
  }

  /** vm_map_page gives the page of v the frame of `phys`, and no other page anything;
      if it fails, no address is translated differently, unless it has made a large page. */
  lemma {:induction false} MapThenPhysAddr(mem: Mem, root: nat, v: nat, pages: seq<nat>, phys: nat, flags: Entry, v': nat)
    requires Unshared(mem, root) && |pages| == 4 && FreshPages(mem, root, pages, 0)
    ensures var (mem', o) := MapPage(mem, root, v, pages, phys, flags);
      && Unshared(mem', root)
      && PhysAddr(mem', root, v') ==
         if o.Done? && Canonical(v') && v' / PAGE_SIZE == v / PAGE_SIZE
         then phys / PAGE_SIZE * PAGE_SIZE + v' % PAGE_SIZE
         else if o.MadeLarge? && Canonical(v') && v' / Span(o.depth) == v / Span(o.depth)
         then Address(Mapped(o.frame, o.depth), v')
         else PhysAddr(mem, root, v')
  {
    hide Unshared, FreshPages, Walk, Path, MapFrom, Address, Span, Canonical;
    AddressLast(phys / PAGE_SIZE, v');
    if Canonical(v) {
      RootTable(mem, root, v);
      MapKeeps(mem, root, Path(v), 0, root, pages, phys / PAGE_SIZE, flags);
      if Canonical(v') {
        var o := MapPage(mem, root, v, pages, phys, flags).1;
        SameSpan(v, v', if o.MadeLarge? then o.depth else 3);
        assert Path(v)[..4] == Path(v) && Path(v')[..4] == Path(v');
      }
    }
  }

  /** The depth at which the walk first misses a table; 3 if it misses none. */
  function FirstMissing(mem: Mem, t: nat, path: seq<nat>, depth: nat): (d: nat)
    requires depth < |path| == 4
    ensures depth <= d < 4
    decreases 4 - depth
  {
    var es := Entries(mem, t);
    if depth == 3 || path[depth] >= |es| || !es[path[depth]].present || Large(es[path[depth]], depth) then depth
    else FirstMissing(mem, es[path[depth]].frame, path, depth + 1)
  }

  /** The depth at which flags with the size bit make a large page of a new table. */
  function LargeDepth(d: nat): (k: nat)
  {
    if d == 0 then 1 else d
  }

  /** A failed mapping leaves every translation as it was, but for one case: the flags have the size
      bit, a table below the PML4T is missing, and there was memory for it. */
  lemma {:induction false} FailedMapKeeps(mem: Mem, root: nat, v: nat, pages: seq<nat>, phys: nat, flags: Entry)
    requires Unshared(mem, root) && |pages| == 4 && FreshPages(mem, root, pages, 0)
    requires !MapPage(mem, root, v, pages, phys, flags).1.Done?
    ensures SameMap(mem, MapPage(mem, root, v, pages, phys, flags).0, root) <==> !MapPage(mem, root, v, pages, phys, flags).1.MadeLarge?
  {
    hide Unshared, FreshPages, Walk, Path, MapFrom;
    if Canonical(v) {
      RootTable(mem, root, v);
      MapKeeps(mem, root, Path(v), 0, root, pages, phys / PAGE_SIZE, flags);
      assert |Path(v)| == 4;
    }
  }

  lemma {:induction false} MadeLargeExactly(mem: Mem, root: nat, path: seq<nat>, depth: nat, t: nat, pages: seq<nat>, frame: nat, flags: Entry)
    requires depth < |path| == |pages| == 4 && forall j | 0 <= j < 4 :: path[j] < ENTRIES
    requires Unshared(mem, root) && TableAt(mem, root, path[..depth]) == Some(t)
    requires FreshPages(mem, root, pages, depth)
    ensures var d := FirstMissing(mem, t, path, depth);
      MapFrom(mem, t, path, depth, pages, frame, flags).1.MadeLarge? <==>
      flags.size && d < 3 && Walk(mem, t, path, depth).Absent? && pages[d] != 0 && pages[LargeDepth(d)] != 0
    decreases 4 - depth
  {
    hide TableAt, FreshPages, Unshared, SameMap;
    var p, i := path[..depth], path[depth];
    TableFull(mem, root, p, t);
    var es := Entries(mem, t);
    assert path[..depth + 1] == p + [i];
    if depth < 3 {
      if es[i].present {
        if !Large(es[i], depth) {
          TableAtNext(mem, root, p, i);
          FreshLater(mem, root, pages, depth);
          MadeLargeExactly(mem, root, path, depth + 1, es[i].frame, pages, frame, flags);
        }
      } else if pages[depth] != 0 && !Large(flags, depth) {
        TableAdded(mem, root, p, t, i, pages, flags);
        var page := pages[depth];
        var mem1 := mem[page := Table(EmptyTable())][t := Table(es[i := TableEntry(page, flags)])];
        MadeLargeExactly(mem1, root, path, depth + 1, page, pages, frame, flags);
        NewTableEmpty(mem, root, p, t, i, pages, flags);
      }
    }
  }

  lemma NewTableEmpty(mem: Mem, root: nat, p: seq<nat>, t: nat, i: nat, pages: seq<nat>, flags: Entry)
    requires TableAt(mem, root, p) == Some(t) && |p| < 3 == |pages| - 1 && i < |Entries(mem, t)|
    requires FreshPages(mem, root, pages, |p|) && pages[|p|] != 0
    ensures var page := pages[|p|];
      Entries(mem[page := Table(EmptyTable())][t := Table(Entries(mem, t)[i := TableEntry(page, flags)])], page) == EmptyTable()
  {
  }

  lemma RootTable(mem: Mem, root: nat, v: nat)
    ensures TableAt(mem, root, Path(v)[..0]) == Some(root)
    ensures forall j | 0 <= j < 4 :: Path(v)[j] < ENTRIES
  {
    Indices(v);
  }

  /** vm_unmap_page takes away the page, large page or huge page that v is in. */
  lemma {:induction false} UnmapThenPhysAddr(mem: Mem, root: nat, v: nat, v': nat)
    requires Unshared(mem, root)
    ensures var (mem', o) := UnmapPage(mem, root, v);
      && Unshared(mem', root) && (o.Done? <==> Canonical(v))
      && PhysAddr(mem', root, v') ==
         var r := Walk(mem, root, Path(v), 0);
         if Canonical(v) && Canonical(v') && r.Mapped? && v' / Span(r.depth) == v / Span(r.depth) then 0
         else PhysAddr(mem, root, v')
  {
    hide Unshared, Path, UnmapFrom;
    if Canonical(v) {
      RootTable(mem, root, v);
      UnmapKeeps(mem, root, Path(v), 0, root);
      var r := Walk(mem, root, Path(v), 0);
      if Canonical(v') && r.Mapped? {
        WalkDepth(mem, root, Path(v), 0);
        SameSpan(v, v', r.depth);
      }
    }
  }

  lemma {:induction false} WalkDepth(mem: Mem, t: nat, path: seq<nat>, depth: nat)
    requires depth < |path| == 4 && Walk(mem, t, path, depth).Mapped?
    ensures depth <= Walk(mem, t, path, depth).depth < 4
    decreases 4 - depth
  {
    var e := Entries(mem, t)[path[depth]];
    if depth < 3 && !Large(e, depth) {
      WalkDepth(mem, e.frame, path, depth + 1);
    }
  }

  /** Where the processor lets user code read, vm_phys_addr names the byte it reads. */
  lemma {:induction false} PhysAddrOfTranslation(m: Machine, a: nat, va: nat)
    requires a < |m.spaces| && Translate(m, a, va).Hit?
    ensures PhysAddr(m.mem, m.spaces[a], va) == Translate(m, a, va).frame * PAGE_SIZE + va % PAGE_SIZE
  {
    hide Resolve, Walk;
    PathDigits(va);
    Indices(va);
    var es := UserHalf(m.mem, m.spaces[a]);
    assert Path(va)[0..] == Path(va);
    ResolveWalk(m.mem, m.spaces[a], es, Path(va), 0);
  }

  lemma {:induction false} ResolveWalk(mem: Mem, t: nat, es: seq<Entry>, path: seq<nat>, depth: nat)
    requires depth < |path| == 4 && es <= Entries(mem, t)
    requires Resolve(mem, es, 4 - depth, path[depth..]).Hit?
    ensures Walk(mem, t, path, depth) == Mapped(Resolve(mem, es, 4 - depth, path[depth..]).frame, 3)
    decreases 4 - depth
  {
    if depth < 3 {
      var e := es[path[depth]];
      assert path[depth..][1..] == path[depth + 1..];
      ResolveWalk(mem, e.frame, Entries(mem, e.frame), path, depth + 1);
    }
  }

  /* ---------- runs ---------- */

  datatype PageOp =
    | MapOp(v: nat, phys: nat, flags: Entry, pages: seq<nat>)
    | UnmapOp(v: nat)

  /** Every page of an address space and what it is mapped to. */
  type PageView = imap<seq<nat>, Mapping>

  ghost predicate Total(view: PageView)
  {
    forall path: seq<nat> | |path| == 4 :: path in view
  }

  ghost function ViewOf(mem: Mem, root: nat): (view: PageView)
    ensures Total(view)
  {
    imap path: seq<nat> | |path| == 4 :: Walk(mem, root, path, 0)
  }

  /** vm_phys_addr of the abstract map. */
  ghost function Lookup(view: PageView, v: nat): (p: nat)
    requires Total(view)
  {
    if Canonical(v) then Address(view[Path(v)], v) else 0
  }

  ghost function Removed(view: PageView, path: seq<nat>): (view': PageView)
    requires Total(view) && |path| == 4
    ensures Total(view')
  {
    imap q: seq<nat> | |q| == 4 :: if Covered(view[path], path, q) then Absent else view[q]
  }

  /** What an operation with a given answer does to the abstract map. */
  ghost function Apply(view: PageView, op: PageOp, o: Outcome): (view': PageView)
    requires Total(view)
    ensures Total(view')
  {
    match o
    case Done =>
      (match op
       case MapOp(v, phys, _, _) => view[Path(v) := Mapped(phys / PAGE_SIZE, 3)]
       case UnmapOp(v) => Removed(view, Path(v)))
    case MadeLarge(depth, frame) => Enlarged(view, Path(op.v), depth, frame)
    case _ => view
  }

  ghost function Enlarged(view: PageView, path: seq<nat>, depth: nat, frame: nat): (view': PageView)
    requires Total(view) && |path| == 4
    ensures Total(view')
  {
    imap q: seq<nat> | |q| == 4 ::
      if depth < 3 && q[..depth + 1] == path[..depth + 1] then Mapped(frame, depth) else view[q]
  }

  /** The answers the abstract map allows: failure only for the reasons given. */
  ghost predicate MayAnswer(view: PageView, op: PageOp, o: Outcome)
    requires Total(view)
  {
    if !Canonical(op.v) then o.NotCanonical?
    else match op
      case UnmapOp(_) => o.Done?
      case MapOp(v, _, flags, pages) =>
        var was := view[Path(v)];
        if was.Mapped? && was.depth < 3 then o.InLargePage?
        else
          || o.Done?
          || (o.NoMemory? && was.Absent? && 0 in pages)
          || (o.MadeLarge? && was.Absent? && flags.size && 1 <= o.depth <= 2 && o.frame in pages)
  }

  function Do(mem: Mem, root: nat, op: PageOp): (r: (Mem, Outcome))
    requires op.MapOp? ==> |op.pages| == 4
  {
    match op
    case MapOp(v, phys, flags, pages) => MapPage(mem, root, v, pages, phys, flags)
    case UnmapOp(v) => UnmapPage(mem, root, v)
  }

  ghost predicate Allowed(mem: Mem, root: nat, op: PageOp)
  {
    op.MapOp? ==> |op.pages| == 4 && FreshPages(mem, root, op.pages, 0)
  }

  lemma {:induction false} MapRefines(mem: Mem, root: nat, v: nat, phys: nat, flags: Entry, pages: seq<nat>)
    requires Unshared(mem, root) && |pages| == 4 && FreshPages(mem, root, pages, 0) && Canonical(v)
    ensures var (mem', o) := MapPage(mem, root, v, pages, phys, flags);
      && Unshared(mem', root)
      && MayAnswer(ViewOf(mem, root), MapOp(v, phys, flags, pages), o)
      && ViewOf(mem', root) == Apply(ViewOf(mem, root), MapOp(v, phys, flags, pages), o)
  {
    hide Unshared, FreshPages, Walk, Path, MapFrom, FirstMissing;
    RootTable(mem, root, v);
    MapKeeps(mem, root, Path(v), 0, root, pages, phys / PAGE_SIZE, flags);
    MadeLargeExactly(mem, root, Path(v), 0, root, pages, phys / PAGE_SIZE, flags);
  }

  lemma {:induction false} UnmapRefines(mem: Mem, root: nat, v: nat)
    requires Unshared(mem, root) && Canonical(v)
    ensures Unshared(UnmapFrom(mem, root, Path(v), 0), root)
    ensures ViewOf(UnmapFrom(mem, root, Path(v), 0), root) == Removed(ViewOf(mem, root), Path(v))
  {
    hide Unshared, Walk, Path, UnmapFrom;
    RootTable(mem, root, v);
    UnmapKeeps(mem, root, Path(v), 0, root);
  }

  lemma {:induction false} DoRefines(mem: Mem, root: nat, op: PageOp)
    requires Unshared(mem, root) && Allowed(mem, root, op)
    ensures var (mem', o) := Do(mem, root, op);
      && Unshared(mem', root)
      && MayAnswer(ViewOf(mem, root), op, o)
      && ViewOf(mem', root) == Apply(ViewOf(mem, root), op, o)
  {
    hide Unshared, FreshPages, Path, MapFrom, UnmapFrom, ViewOf, Removed;
    if Canonical(op.v) {
      match op
      case MapOp(v, phys, flags, pages) => MapRefines(mem, root, v, phys, flags, pages);
      case UnmapOp(v) => UnmapRefines(mem, root, v);
    }
  }

  ghost predicate Runs(mem: Mem, root: nat, ops: seq<PageOp>)
    decreases |ops|
  {
    ops == [] || (Allowed(mem, root, ops[0]) && Runs(Do(mem, root, ops[0]).0, root, ops[1..]))
  }

  /** The memory after a run, and the answers given. */
  ghost function Run(mem: Mem, root: nat, ops: seq<PageOp>): (r: (Mem, seq<Outcome>))
    requires Runs(mem, root, ops)
    decreases |ops|
  {
    if ops == [] then (mem, [])
    else
      var (mem1, o) := Do(mem, root, ops[0]);
      var (mem', os) := Run(mem1, root, ops[1..]);
      (mem', [o] + os)
  }

  /** A run of the abstract map with these answers ends in view'. */
  ghost predicate IsRun(view: PageView, ops: seq<PageOp>, os: seq<Outcome>, view': PageView)
    requires Total(view)
    decreases |ops|
  {
    if ops == [] then os == [] && view' == view
    else os != [] && MayAnswer(view, ops[0], os[0]) && IsRun(Apply(view, ops[0], os[0]), ops[1..], os[1..], view')
  }

  /** Page tables are a map: over every run of vm_map_page and vm_unmap_page the tree
      stays unshared, the answers and the mappings are the abstract map's, and
      vm_phys_addr looks addresses up in it. */
  lemma {:induction false} RunRefinesMap(mem: Mem, root: nat, ops: seq<PageOp>)
    requires Unshared(mem, root) && Runs(mem, root, ops)
    ensures var (mem', os) := Run(mem, root, ops);
      && Unshared(mem', root)
      && IsRun(ViewOf(mem, root), ops, os, ViewOf(mem', root))
      && forall v :: PhysAddr(mem', root, v) == Lookup(ViewOf(mem', root), v)
    decreases |ops|
  {
    hide Unshared, Do, ViewOf, MayAnswer, Apply, FreshPages, Path;
    if ops != [] {
      DoRefines(mem, root, ops[0]);
      RunRefinesMap(Do(mem, root, ops[0]).0, root, ops[1..]);
      var os := Run(mem, root, ops).1;
      assert os[1..] == Run(Do(mem, root, ops[0]).0, root, ops[1..]).1;
    } else {
      LookupIs(mem, root);
    }
  }

  lemma LookupIs(mem: Mem, root: nat)
    ensures forall v :: PhysAddr(mem, root, v) == Lookup(ViewOf(mem, root), v)
  {
    hide Walk, Path;
  }
}
