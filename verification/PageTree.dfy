/**
 Four-level x86-64 page tables over a frame store (arch/x86_64/mm.c).

 A frame holds either a paging structure or a page of data. Everything here is
 stated about a list of entries `es` at a `level`: 4 is a PML4T, 3 a PDPT,
 2 a page directory and 1 a page table, whose entries name data pages.
 */
module PageTree {

  const ENTRIES: nat := 512        // PAGE_STRUCT_ENTRIES
  const USER_ENTRIES: nat := 256   // the half of a PML4T that holds user space
  const PAGE_SIZE: nat := 4096

  /** A decoded page-structure entry; `rest` keeps the flag bits no code here looks at. */
  datatype Entry = Entry(frame: nat, present: bool, rw: bool, user: bool, size: bool, cow: bool, rest: bv64)

  const NO_ENTRY: Entry := Entry(0, false, false, false, false, false, 0)

  datatype Content = Table(entries: seq<Entry>) | Page(bytes: seq<bv8>)

  /** Physical memory, by frame number. */
  type Mem = map<nat, Content>

  function Entries(mem: Mem, f: nat): (es: seq<Entry>)
  {
    if f in mem && mem[f].Table? then mem[f].entries else []
  }

  /** The entries of a PML4T that map user space. */
  function UserHalf(mem: Mem, root: nat): (es: seq<Entry>)
  {
    var es := Entries(mem, root);
    if |es| < USER_ENTRIES then es else es[..USER_ENTRIES]
  }

  /** ref_pdt, ref_pdpt and their free_ counterparts skip large pages. */
  predicate Counted(e: Entry, level: nat)
  {
    e.present && (2 <= level <= 3 ==> !e.size)
  }

  function Sum(ts: seq<multiset<nat>>): (total: multiset<nat>)
  {
    if ts == [] then multiset{} else Sum(ts[..|ts| - 1]) + ts[|ts| - 1]
  }

  /** Every frame named by the entries or by tables below them, once for each path. */
  function Reach(mem: Mem, es: seq<Entry>, level: nat): (frames: multiset<nat>)
    decreases level, 2
  {
    if level == 0 then multiset{} else Sum(Children(mem, es, level))
  }

  function Children(mem: Mem, es: seq<Entry>, level: nat): (ts: seq<multiset<nat>>)
    ensures |ts| == |es|
    ensures forall i | 0 <= i < |es| :: ts[i] == Child(mem, es[i], level)
    decreases level, 1
  {
    seq(|es|, i requires 0 <= i < |es| => Child(mem, es[i], level))
  }

  /** The part of `Reach` that one entry contributes. */
  function Child(mem: Mem, e: Entry, level: nat): (frames: multiset<nat>)
    decreases level, 0
  {
    if level == 0 || !Counted(e, level) then multiset{}
    else multiset{e.frame} + Reach(mem, Entries(mem, e.frame), level - 1)
  }

  /** Shape and flags of a tree, and exclusive ownership of what it may write:
      a frame all of whose path is writable is referenced exactly once. */
  ghost predicate Good(mem: Mem, count: multiset<nat>, es: seq<Entry>, level: nat, writable: bool)
    decreases level, 1
  {
    forall i | 0 <= i < |es| :: GoodEntry(mem, count, es[i], level, writable)
  }

  ghost predicate GoodEntry(mem: Mem, count: multiset<nat>, e: Entry, level: nat, writable: bool)
    decreases level, 0
  {
    e.present && level > 0 ==>
      && e.frame in mem
      && (writable && e.rw ==> count[e.frame] == 1)
      && if level == 1 then
           && mem[e.frame].Page? && |mem[e.frame].bytes| == PAGE_SIZE
           && !(e.rw && e.cow)
         else
           && mem[e.frame].Table? && |mem[e.frame].entries| == ENTRIES
           && e.user && !e.size && e.rw == !e.cow
           && Good(mem, count, mem[e.frame].entries, level - 1, writable && e.rw)
  }

  /** What the processor does with a user-mode access (Intel SDM volume 3A, sections 4.5 and 4.6). */
  datatype Translation = Fault | Hit(frame: nat, writable: bool)

  function Resolve(mem: Mem, es: seq<Entry>, level: nat, path: seq<nat>): (t: Translation)
    decreases level
  {
    if level == 0 || path == [] || path[0] >= |es| then Fault
    else
      var e := es[path[0]];
      if !e.present || !e.user || (level > 1 && e.size) then Fault
      else if level == 1 then Hit(e.frame, e.rw)
      else match Resolve(mem, Entries(mem, e.frame), level - 1, path[1..])
        case Fault => Fault
        case Hit(f, w) => Hit(f, w && e.rw)
  }

  /* ---------- sums ---------- */

  lemma {:induction false} InSum(ts: seq<multiset<nat>>, a: nat)
    requires a < |ts|
    ensures ts[a] <= Sum(ts)
    decreases |ts|
  {
    if a < |ts| - 1 {
      InSum(ts[..|ts| - 1], a);
    }
  }

  lemma {:induction false} TwoInSum(ts: seq<multiset<nat>>, a: nat, b: nat, f: nat)
    requires a < b < |ts|
    ensures ts[a][f] + ts[b][f] <= Sum(ts)[f]
    decreases |ts|
  {
    var last := |ts| - 1;
    if b == last {
      InSum(ts[..last], a);
    } else {
      TwoInSum(ts[..last], a, b, f);
    }
  }

  lemma {:induction false} SumOneChanged(ts: seq<multiset<nat>>, ts': seq<multiset<nat>>, a: nat, f: nat)
    requires a < |ts| == |ts'|
    requires forall b | 0 <= b < |ts| && b != a :: ts'[b] == ts[b]
    ensures Sum(ts')[f] + ts[a][f] == Sum(ts)[f] + ts'[a][f]
    decreases |ts|
  {
    var last := |ts| - 1;
    if a == last {
      assert ts'[..last] == ts[..last];
    } else {
      SumOneChanged(ts[..last], ts'[..last], a, f);
    }
  }

  lemma {:induction false} InSumWitness(ts: seq<multiset<nat>>, f: nat) returns (i: nat)
    requires f in Sum(ts)
    ensures i < |ts| && f in ts[i]
    decreases |ts|
  {
    var last := |ts| - 1;
    if f in ts[last] {
      i := last;
    } else {
      i := InSumWitness(ts[..last], f);
    }
  }

  /* ---------- entry lists ---------- */

  lemma ReachNothing(mem: Mem, es: seq<Entry>)
    ensures Reach(mem, es, 0) == multiset{}
  {
  }

  lemma ReachSlice(mem: Mem, es: seq<Entry>, i: nat, level: nat)
    requires i < |es| && level > 0
    ensures Reach(mem, es[..i + 1], level) == Reach(mem, es[..i], level) + Child(mem, es[i], level)
  {
    hide Child;
    var ts := Children(mem, es[..i + 1], level);
    assert ts[..i] == Children(mem, es[..i], level);
  }

  lemma ChildInReach(mem: Mem, es: seq<Entry>, i: nat, level: nat)
    requires i < |es|
    ensures Child(mem, es[i], level) <= Reach(mem, es, level)
  {
    InSum(Children(mem, es, level), i);
  }

  /** A counted entry of the list contributes its frame and what lies below it. */
  lemma EntryInReach(mem: Mem, es: seq<Entry>, i: nat, level: nat)
    requires i < |es| && level > 0 && Counted(es[i], level)
    ensures multiset{es[i].frame} + Reach(mem, Entries(mem, es[i].frame), level - 1) <= Reach(mem, es, level)
    ensures Child(mem, es[i], level) == multiset{es[i].frame} + Reach(mem, Entries(mem, es[i].frame), level - 1)
    ensures es[i].frame in Reach(mem, es, level)
    ensures Reach(mem, Entries(mem, es[i].frame), level - 1) <= Reach(mem, es, level)
  {
    hide Reach;
    ChildInReach(mem, es, i, level);
  }

  /** Two different entries contribute separately. */
  lemma TwoChildrenInReach(mem: Mem, es: seq<Entry>, i: nat, j: nat, level: nat, f: nat)
    requires i < |es| && j < |es| && i != j
    ensures Child(mem, es[i], level)[f] + Child(mem, es[j], level)[f] <= Reach(mem, es, level)[f]
  {
    if level > 0 {
      hide Child;
      TwoInSum(Children(mem, es, level), if i < j then i else j, if i < j then j else i, f);
    }
  }

  /** If one entry's contribution of frame f changes by d, so does the whole. */
  lemma ReachOneChanged(mem: Mem, es: seq<Entry>, mem': Mem, es': seq<Entry>, level: nat, i: nat, f: nat, d: int)
    requires |es| == |es'| && i < |es|
    requires forall j | 0 <= j < |es| && j != i :: Child(mem', es'[j], level) == Child(mem, es[j], level)
    requires Child(mem', es'[i], level)[f] == Child(mem, es[i], level)[f] + d
    ensures Reach(mem', es', level)[f] == Reach(mem, es, level)[f] + d
  {
    if level > 0 {
      hide Child;
      SumOneChanged(Children(mem, es, level), Children(mem', es', level), i, f);
    }
  }

  lemma ReachSame(mem: Mem, es: seq<Entry>, mem': Mem, es': seq<Entry>, level: nat)
    requires |es| == |es'|
    requires forall j | 0 <= j < |es| :: Child(mem', es'[j], level) == Child(mem, es[j], level)
    ensures Reach(mem', es', level) == Reach(mem, es, level)
  {
    hide Child;
    assert Children(mem', es', level) == Children(mem, es, level);
  }

  /* ---------- framing: a tree depends only on the tables it reaches ---------- */

  /** Frame f has the same kind, the same entries if a table, and the same size if a page. */
  ghost predicate SameShape(mem: Mem, mem': Mem, f: nat)
  {
    && (f in mem <==> f in mem')
    && (f in mem ==>
          match mem[f]
          case Table(es) => mem'[f] == Table(es)
          case Page(bytes) => mem'[f].Page? && |mem'[f].bytes| == |bytes|)
  }

  /** mem' differs from mem at most in frame t. */
  ghost predicate OnlyAt(mem: Mem, mem': Mem, t: nat)
  {
    forall f: nat | f != t :: (f in mem <==> f in mem') && (f in mem ==> mem[f] == mem'[f])
  }

  lemma {:induction false} ReachFrame(mem: Mem, mem': Mem, es: seq<Entry>, level: nat)
    requires forall f | f in Reach(mem, es, level) :: SameShape(mem, mem', f)
    ensures Reach(mem', es, level) == Reach(mem, es, level)
    decreases level, 1
  {
    hide Child;
    forall i | 0 <= i < |es| ensures Child(mem', es[i], level) == Child(mem, es[i], level) {
      ChildInReach(mem, es, i, level);
      ChildFrame(mem, mem', es[i], level);
    }
    ReachSame(mem, es, mem', es, level);
  }

  lemma {:induction false} ChildFrame(mem: Mem, mem': Mem, e: Entry, level: nat)
    requires forall f | f in Child(mem, e, level) :: SameShape(mem, mem', f)
    ensures Child(mem', e, level) == Child(mem, e, level)
    decreases level, 0
  {
    if level > 0 && Counted(e, level) {
      hide Reach;
      assert e.frame in Child(mem, e, level);
      ReachFrame(mem, mem', Entries(mem, e.frame), level - 1);
    }
  }

  /** `Good` survives a change that keeps the shape of, and every count of one for, the frames reached. */
  lemma {:induction false} GoodFrame(mem: Mem, count: multiset<nat>, mem': Mem, count': multiset<nat>,
                                     es: seq<Entry>, level: nat, writable: bool)
    requires forall f | f in Reach(mem, es, level) :: SameShape(mem, mem', f) && (count[f] == 1 ==> count'[f] == 1)
    requires Good(mem, count, es, level, writable)
    ensures Good(mem', count', es, level, writable)
    decreases level, 1
  {
    forall i | 0 <= i < |es| ensures GoodEntry(mem', count', es[i], level, writable) {
      ChildInReach(mem, es, i, level);
      GoodEntryFrame(mem, count, mem', count', es[i], level, writable);
    }
  }

  lemma {:induction false} GoodEntryFrame(mem: Mem, count: multiset<nat>, mem': Mem, count': multiset<nat>,
                                          e: Entry, level: nat, writable: bool)
    requires forall f | f in Child(mem, e, level) :: SameShape(mem, mem', f) && (count[f] == 1 ==> count'[f] == 1)
    requires GoodEntry(mem, count, e, level, writable)
    ensures GoodEntry(mem', count', e, level, writable)
    decreases level, 0
  {
    if e.present && level > 0 {
      assert Counted(e, level);
      assert e.frame in Child(mem, e, level);
      if level > 1 {
        GoodFrame(mem, count, mem', count', mem[e.frame].entries, level - 1, writable && e.rw);
      }
    }
  }

  /** Owning less is easier. */
  lemma {:induction false} GoodReadOnly(mem: Mem, count: multiset<nat>, count': multiset<nat>, es: seq<Entry>, level: nat, writable: bool)
    requires Good(mem, count, es, level, writable)
    ensures Good(mem, count', es, level, false)
    decreases level
  {
    forall i | 0 <= i < |es| ensures GoodEntry(mem, count', es[i], level, false) {
      var e := es[i];
      assert GoodEntry(mem, count, e, level, writable);
      if e.present && level > 1 {
        GoodReadOnly(mem, count, count', mem[e.frame].entries, level - 1, writable && e.rw);
      }
    }
  }

  /* ---------- paths ---------- */

  /** Following `path` from `es` meets only present, writable entries and ends at frame t. */
  ghost predicate WritablePath(mem: Mem, es: seq<Entry>, level: nat, path: seq<nat>, t: nat)
    decreases path
  {
    && path != [] && path[0] < |es| && |path| <= level
    && var e := es[path[0]];
    && Counted(e, level) && e.rw
    && if |path| == 1 then e.frame == t
       else WritablePath(mem, Entries(mem, e.frame), level - 1, path[1..], t)
  }

  lemma {:induction false} WritablePathReaches(mem: Mem, count: multiset<nat>, es: seq<Entry>, level: nat, path: seq<nat>, t: nat)
    requires WritablePath(mem, es, level, path, t)
    ensures t in Reach(mem, es, level)
    ensures Good(mem, count, es, level, true) ==> count[t] == 1
    decreases path
  {
    hide Reach, Child, Children;
    var e := es[path[0]];
    EntryInReach(mem, es, path[0], level);
    if Good(mem, count, es, level, true) {
      assert GoodEntry(mem, count, e, level, true);
    }
    if |path| > 1 {
      WritablePathReaches(mem, count, Entries(mem, e.frame), level - 1, path[1..], t);
    }
  }

  /** What a tree must look like for one of its tables to be rewritten in place:
      the table t is reached once, and by a writable path. */
  ghost predicate Rewritable(mem: Mem, t: nat, es: seq<Entry>, level: nat, path: seq<nat>)
  {
    && WritablePath(mem, es, level, path, t) && |path| < level
    && Reach(mem, es, level)[t] == 1
  }

  lemma {:induction false} RewritableDown(mem: Mem, t: nat, es: seq<Entry>, level: nat, path: seq<nat>)
    requires Rewritable(mem, t, es, level, path)
    ensures Child(mem, es[path[0]], level)[t] == 1
    ensures |path| > 1 ==>
      && es[path[0]].frame != t
      && Rewritable(mem, t, Entries(mem, es[path[0]].frame), level - 1, path[1..])
  {
    var e := es[path[0]];
    ChildInReach(mem, es, path[0], level);
    if |path| == 1 {
      assert t in Child(mem, e, level);
    } else {
      WritablePathReaches(mem, multiset{}, Entries(mem, e.frame), level - 1, path[1..], t);
    }
  }

  lemma {:induction false} RewritableAside(mem: Mem, t: nat, es: seq<Entry>, level: nat, path: seq<nat>, j: nat)
    requires Rewritable(mem, t, es, level, path)
    requires j < |es| && j != path[0]
    ensures t !in Child(mem, es[j], level)
  {
    RewritableDown(mem, t, es, level, path);
    TwoChildrenInReach(mem, es, path[0], j, level, t);
  }

  lemma ChildDelta(mem: Mem, mem': Mem, e: Entry, level: nat, f: nat, d: int)
    requires level > 0 && Counted(e, level)
    requires Reach(mem', Entries(mem', e.frame), level - 1)[f] == Reach(mem, Entries(mem, e.frame), level - 1)[f] + d
    ensures Child(mem', e, level)[f] == Child(mem, e, level)[f] + d
  {
  }

  /** Rewriting such a table changes the occurrences of a frame in the whole tree
      by exactly the change below the table. */
  lemma {:induction false} PathReach(mem: Mem, mem': Mem, t: nat, below: nat, es: seq<Entry>, level: nat, path: seq<nat>, f: nat, d: int)
    requires OnlyAt(mem, mem', t) && Rewritable(mem, t, es, level, path) && level == below + |path|
    requires Reach(mem', Entries(mem', t), below)[f] == Reach(mem, Entries(mem, t), below)[f] + d
    ensures Reach(mem', es, level)[f] == Reach(mem, es, level)[f] + d
    decreases path
  {
    hide Reach, Child, Children;
    RewritableOthersSame(mem, mem', t, es, level, path);
    RewritableDown(mem, t, es, level, path);
    var e := es[path[0]];
    if |path| > 1 {
      PathReach(mem, mem', t, below, Entries(mem, e.frame), level - 1, path[1..], f, d);
    }
    ChildDelta(mem, mem', e, level, f, d);
    ReachOneChanged(mem, es, mem', es, level, path[0], f, d);
  }

  lemma RewritableOthersSame(mem: Mem, mem': Mem, t: nat, es: seq<Entry>, level: nat, path: seq<nat>)
    requires OnlyAt(mem, mem', t) && Rewritable(mem, t, es, level, path)
    ensures forall j | 0 <= j < |es| && j != path[0] :: Child(mem', es[j], level) == Child(mem, es[j], level)
  {
    forall j | 0 <= j < |es| && j != path[0]
      ensures Child(mem', es[j], level) == Child(mem, es[j], level)
    {
      RewritableAside(mem, t, es, level, path, j);
      ChildFrame(mem, mem', es[j], level);
    }
  }

  lemma {:induction false} PathGood(mem: Mem, mem': Mem, count: multiset<nat>, t: nat, es: seq<Entry>, level: nat, path: seq<nat>)
    requires OnlyAt(mem, mem', t) && Rewritable(mem, t, es, level, path)
    requires Good(mem, count, es, level, true)
    requires t in mem' && mem'[t].Table? && |mem'[t].entries| == ENTRIES
    requires Good(mem', count, mem'[t].entries, level - |path|, true)
    ensures Good(mem', count, es, level, true)
    decreases path
  {
    hide Reach, Child, Children;
    RewritableDown(mem, t, es, level, path);
    var e := es[path[0]];
    assert GoodEntry(mem, count, e, level, true);
    if |path| > 1 {
      PathGood(mem, mem', count, t, Entries(mem, e.frame), level - 1, path[1..]);
    }
    assert GoodEntry(mem', count, e, level, true);
    forall j | 0 <= j < |es| && j != path[0]
      ensures GoodEntry(mem', count, es[j], level, true)
    {
      RewritableAside(mem, t, es, level, path, j);
      assert GoodEntry(mem, count, es[j], level, true);
      GoodEntryFrame(mem, count, mem', count, es[j], level, true);
    }
  }

  /** A translated page is one of the frames reached, and two distinct pages of
      one tree that translate to the same frame reach it twice. */
  lemma {:induction false} ResolveReaches(mem: Mem, es: seq<Entry>, level: nat, path: seq<nat>)
    requires Resolve(mem, es, level, path).Hit?
    ensures Resolve(mem, es, level, path).frame in Reach(mem, es, level)
    decreases level
  {
    var e := es[path[0]];
    ChildInReach(mem, es, path[0], level);
    if level > 1 {
      ResolveReaches(mem, Entries(mem, e.frame), level - 1, path[1..]);
    }
    assert Resolve(mem, es, level, path).frame in Child(mem, e, level);
  }

  lemma {:induction false} ResolveTwice(mem: Mem, es: seq<Entry>, level: nat, path: seq<nat>, path': seq<nat>)
    requires |path| == level == |path'| && path != path'
    requires Resolve(mem, es, level, path).Hit? && Resolve(mem, es, level, path').Hit?
    requires Resolve(mem, es, level, path).frame == Resolve(mem, es, level, path').frame
    ensures Reach(mem, es, level)[Resolve(mem, es, level, path).frame] >= 2
    decreases level
  {
    var f := Resolve(mem, es, level, path).frame;
    var i, j := path[0], path'[0];
    if i == j {
      assert path == [i] + path[1..] && path' == [j] + path'[1..];
      ResolveTwice(mem, Entries(mem, es[i].frame), level - 1, path[1..], path'[1..]);
      ChildInReach(mem, es, i, level);
    } else {
      ResolveInChild(mem, es, level, path);
      ResolveInChild(mem, es, level, path');
      TwoChildrenInReach(mem, es, i, j, level, f);
    }
  }

  lemma {:induction false} ResolveInChild(mem: Mem, es: seq<Entry>, level: nat, path: seq<nat>)
    requires Resolve(mem, es, level, path).Hit?
    ensures Resolve(mem, es, level, path).frame in Child(mem, es[path[0]], level)
  {
    if level > 1 {
      ResolveReaches(mem, Entries(mem, es[path[0]].frame), level - 1, path[1..]);
    }
  }

  /* ---------- reading a byte ---------- */

  datatype Option<T> = None | Some(value: T)

  function ByteAt(mem: Mem, f: nat, off: nat): (b: Option<bv8>)
  {
    if f in mem && mem[f].Page? && off < |mem[f].bytes| then Some(mem[f].bytes[off]) else None
  }

  function LoadAt(mem: Mem, es: seq<Entry>, level: nat, path: seq<nat>, off: nat): (b: Option<bv8>)
  {
    match Resolve(mem, es, level, path)
    case Fault => None
    case Hit(f, _) => ByteAt(mem, f, off)
  }

  /** Two entries that lead to the same page, whatever they permit. */
  ghost predicate SameView(e: Entry, e': Entry)
  {
    e.present == e'.present && (e.present ==> e.frame == e'.frame && e.user == e'.user && e.size == e'.size)
  }

  /** As `SameView`, or e' leads to frame `page` where e leads to `old`. */
  ghost predicate Moved(e: Entry, e': Entry, old_: nat, page: nat)
  {
    || SameView(e, e')
    || (e.present && e'.present && e.frame == old_ && e'.frame == page && e.user == e'.user && e.size == e'.size)
  }

  ghost predicate AllMoved(es: seq<Entry>, es': seq<Entry>, old_: nat, page: nat)
  {
    |es| == |es'| && forall j | 0 <= j < |es| :: Moved(es[j], es'[j], old_, page)
  }

  /** mem' is mem with some references to `old_` turned into references to its copy `page`. */
  ghost predicate CopiedTo(mem: Mem, mem': Mem, old_: nat, page: nat)
  {
    && (forall f: nat | f != page :: AllMoved(Entries(mem, f), Entries(mem', f), old_, page))
    && (forall f: nat, o: nat | f != page :: ByteAt(mem', f, o) == ByteAt(mem, f, o))
    && AllMoved(Entries(mem, old_), Entries(mem', page), old_, page)
    && (forall o: nat :: ByteAt(mem', page, o) == ByteAt(mem, old_, o))
  }

  lemma CopiedStep(mem: Mem, mem': Mem, old_: nat, page: nat, e: Entry, e': Entry, off: nat)
    requires CopiedTo(mem, mem', old_, page) && Moved(e, e', old_, page) && e.present && e.frame != page
    ensures AllMoved(Entries(mem, e.frame), Entries(mem', e'.frame), old_, page)
    ensures ByteAt(mem', e'.frame, off) == ByteAt(mem, e.frame, off)
  {
  }

  /** Replacing references to a frame by references to a copy of it changes no byte read. */
  lemma {:induction false} LoadMoved(mem: Mem, mem': Mem, old_: nat, page: nat, es: seq<Entry>, es': seq<Entry>, level: nat,
                                     path: seq<nat>, off: nat)
    requires page !in Reach(mem, es, level)
    requires AllMoved(es, es', old_, page)
    requires CopiedTo(mem, mem', old_, page)
    ensures LoadAt(mem', es', level, path, off) == LoadAt(mem, es, level, path, off)
    decreases level
  {
    hide Reach, Child, Children, CopiedTo;
    if level > 0 && path != [] && path[0] < |es| {
      var e, e' := es[path[0]], es'[path[0]];
      assert Moved(e, e', old_, page);
      if e.present && e.user && !(level > 1 && e.size) {
        EntryInReach(mem, es, path[0], level);
        CopiedStep(mem, mem', old_, page, e, e', off);
        if level > 1 {
          var below, below' := Entries(mem, e.frame), Entries(mem', e'.frame);
          LoadMoved(mem, mem', old_, page, below, below', level - 1, path[1..], off);
        }
      }
    }
  }
}
