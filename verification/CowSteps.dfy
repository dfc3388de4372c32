/**
 The other steps of a copy-on-write machine: a user store, thread_clone with
 copying (arch/x86_64/thread.c) and vm_unmap_user_mem (arch/x86_64/mm.c). Each
 keeps the invariant; each says exactly what every address space reads afterwards.
 */
module CowSteps {
  import opened PageTree
  import opened CowSpec
  import opened CowFault

  /* ---------- loads depend on what is reached ---------- */

  lemma {:induction false} ResolveShape(mem: Mem, mem': Mem, es: seq<Entry>, level: nat, path: seq<nat>)
    requires forall f | f in Reach(mem, es, level) :: SameShape(mem, mem', f)
    ensures Resolve(mem', es, level, path) == Resolve(mem, es, level, path)
    decreases level
  {
    hide Reach, Child;
    if level > 1 && path != [] && path[0] < |es| {
      var e := es[path[0]];
      if e.present && e.user && !e.size {
        EntryInReach(mem, es, path[0], level);
        ResolveShape(mem, mem', Entries(mem, e.frame), level - 1, path[1..]);
      }
    }
  }

  /** Space b reads the same if its PML4T and every frame it reaches are untouched. */
  lemma {:induction false} LoadFrame(m: Machine, m': Machine, b: nat, va: nat)
    requires b < |m.spaces| <= |m'.spaces| && m'.spaces[b] == m.spaces[b]
    requires OnlyIn(m.mem, m'.mem, m.spaces[b]) && forall f | f in Tree(m.mem, m.spaces[b]) :: OnlyIn(m.mem, m'.mem, f)
    ensures Load(m', b, va) == Load(m, b, va)
  {
    hide Reach, Resolve;
    if va < USER_TOP {
      var es := UserHalf(m.mem, m.spaces[b]);
      forall f | f in Reach(m.mem, es, 4) ensures SameShape(m.mem, m'.mem, f) {
        assert f in Tree(m.mem, m.spaces[b]) && OnlyIn(m.mem, m'.mem, f);
      }
      ResolveShape(m.mem, m'.mem, es, 4, Path(va));
      if Resolve(m.mem, es, 4, Path(va)).Hit? {
        ResolveReaches(m.mem, es, 4, Path(va));
        var f := Resolve(m.mem, es, 4, Path(va)).frame;
        assert f in Tree(m.mem, m.spaces[b]) && OnlyIn(m.mem, m'.mem, f);
      }
    }
  }

  lemma {:induction false} MayShape(mem: Mem, mem': Mem, es: seq<Entry>, level: nat, path: seq<nat>)
    requires forall f | f in Reach(mem, es, level) :: SameShape(mem, mem', f)
    requires Resolve(mem, es, level, path).Hit?
    ensures May(mem', es, level, path) == May(mem, es, level, path)
    decreases level
  {
    hide Reach, Child;
    if level > 1 {
      var e := es[path[0]];
      EntryInReach(mem, es, path[0], level);
      MayShape(mem, mem', Entries(mem, e.frame), level - 1, path[1..]);
    }
  }

  /** As `LoadFrame`, for what may be written. */
  lemma {:induction false} MayFrame(m: Machine, m': Machine, b: nat, va: nat)
    requires b < |m.spaces| <= |m'.spaces| && m'.spaces[b] == m.spaces[b]
    requires SameShape(m.mem, m'.mem, m.spaces[b]) && forall f | f in Tree(m.mem, m.spaces[b]) :: SameShape(m.mem, m'.mem, f)
    requires Load(m, b, va).Some? == Load(m', b, va).Some?
    ensures MayWrite(m', b, va) == MayWrite(m, b, va)
  {
    hide Reach, Resolve, May;
    if Load(m, b, va).Some? {
      MayShape(m.mem, m'.mem, UserHalf(m.mem, m.spaces[b]), 4, Path(va));
    }
  }

  /** Both, if the PML4T and every frame reached are untouched. */
  lemma {:induction false} CellFrame(m: Machine, m': Machine, b: nat, va: nat)
    requires b < |m.spaces| <= |m'.spaces| && m'.spaces[b] == m.spaces[b]
    requires OnlyIn(m.mem, m'.mem, m.spaces[b]) && forall f | f in Tree(m.mem, m.spaces[b]) :: OnlyIn(m.mem, m'.mem, f)
    ensures Load(m', b, va) == Load(m, b, va) && MayWrite(m', b, va) == MayWrite(m, b, va)
  {
    hide Tree, Load, MayWrite;
    LoadFrame(m, m', b, va);
    MayFrame(m, m', b, va);
  }

  /** Frame f holds the same in both. */
  ghost predicate OnlyIn(mem: Mem, mem': Mem, f: nat)
  {
    (f in mem <==> f in mem') && (f in mem ==> mem[f] == mem'[f])
  }

  /* ---------- user store ---------- */

  /** A byte written by user code at an address it may write. */
  function Store(m: Machine, a: nat, va: nat, b: bv8): (m': Machine)
    requires a < |m.spaces|
    ensures m'.spaces == m.spaces
  {
    var t := Translate(m, a, va);
    if !CanStore(m, a, va) || ByteAt(m.mem, t.frame, va % PAGE_SIZE).None? then m
    else m.(mem := m.mem[t.frame := Page(m.mem[t.frame].bytes[va % PAGE_SIZE := b])])
  }

  /** A page that may be written is counted once. */
  lemma {:induction false} ResolveOwned(mem: Mem, count: multiset<nat>, es: seq<Entry>, level: nat, path: seq<nat>, w: bool)
    requires Good(mem, count, es, level, w)
    requires Resolve(mem, es, level, path).Hit?
    ensures var t := Resolve(mem, es, level, path);
      && t.frame in mem && mem[t.frame].Page? && |mem[t.frame].bytes| == PAGE_SIZE
      && (w && t.writable ==> count[t.frame] == 1)
    decreases level
  {
    var e := es[path[0]];
    assert GoodEntry(mem, count, e, level, w);
    if level > 1 {
      ResolveOwned(mem, count, mem[e.frame].entries, level - 1, path[1..], w && e.rw);
    }
  }

  lemma {:induction false} TranslateOwned(m: Machine, a: nat, va: nat)
    requires Inv(m) && a < |m.spaces| && Translate(m, a, va).Hit?
    ensures var t := Translate(m, a, va);
      && t.frame in m.mem && m.mem[t.frame].Page? && |m.mem[t.frame].bytes| == PAGE_SIZE
      && t.frame in Tree(m.mem, m.spaces[a])
      && Load(m, a, va).Some?
      && (t.writable ==> m.count[t.frame] == 1)
  {
    hide Inv, Reach, Good, Resolve;
    SpaceCount(m, a);
    var es := UserHalf(m.mem, m.spaces[a]);
    ResolveReaches(m.mem, es, 4, Path(va));
    ResolveOwned(m.mem, m.count, es, 4, Path(va), true);
  }

  lemma {:induction false} StoreInv(m: Machine, a: nat, va: nat, b: bv8)
    requires Inv(m) && a < |m.spaces|
    ensures Inv(Store(m, a, va, b))
  {
    hide Tree, GoodSpace, Sum, Translate;
    var m' := Store(m, a, va, b);
    assert forall f: nat :: SameShape(m.mem, m'.mem, f);
    forall c | 0 <= c < |m.spaces|
      ensures Tree(m'.mem, m.spaces[c]) == Tree(m.mem, m.spaces[c])
      ensures GoodSpace(m'.mem, m'.count, m.spaces[c])
    {
      SpaceCount(m, c);
      TreeFrame(m.mem, m'.mem, m.spaces[c]);
      SpaceFrame(m.mem, m.count, m'.mem, m'.count, m.spaces[c]);
    }
    TreesSame(m.mem, m'.mem, m.spaces);
  }

  /** A permitted store changes the one byte, in the one space. */
  lemma {:induction false} StoreLoad(m: Machine, a: nat, va: nat, b: bv8, c: nat, va': nat)
    requires Inv(m) && a < |m.spaces| && CanStore(m, a, va) && c < |m.spaces|
    ensures Load(Store(m, a, va, b), c, va') == if c == a && va' == va then Some(b) else Load(m, c, va')
  {
    hide Inv, Reach, Resolve, UserHalf;
    var f := Translate(m, a, va).frame;
    TranslateOwned(m, a, va);
    SoleOwner(m, a, f);
    StoreTranslate(m, a, va, b, c, va');
    if Translate(m, c, va').Hit? && Translate(m, c, va').frame == f {
      TranslateOwned(m, c, va');
      assert c == a;
      if Path(va') != Path(va) {
        ResolveTwice(m.mem, UserHalf(m.mem, m.spaces[a]), 4, Path(va), Path(va'));
      } else if va' % PAGE_SIZE == va % PAGE_SIZE {
        PathInjective(va, va');
      }
    }
  }

  lemma {:induction false} StoreTranslate(m: Machine, a: nat, va: nat, b: bv8, c: nat, va': nat)
    requires a < |m.spaces| && c < |m.spaces|
    ensures Translate(Store(m, a, va, b), c, va') == Translate(m, c, va')
  {
    hide Reach, Resolve;
    var m' := Store(m, a, va, b);
    assert forall f: nat :: SameShape(m.mem, m'.mem, f);
    ResolveShape(m.mem, m'.mem, UserHalf(m.mem, m.spaces[c]), 4, Path(va'));
  }

  lemma {:induction false} StoreMay(m: Machine, a: nat, va: nat, b: bv8, c: nat, va': nat)
    requires Inv(m) && a < |m.spaces| && CanStore(m, a, va) && c < |m.spaces|
    ensures MayWrite(Store(m, a, va, b), c, va') == MayWrite(m, c, va')
  {
    hide Inv, Tree, Load, MayWrite, Translate;
    StoreLoad(m, a, va, b, c, va');
    TranslateOwned(m, a, va);
    var m' := Store(m, a, va, b);
    assert forall f: nat :: SameShape(m.mem, m'.mem, f);
    MayFrame(m, m', c, va');
  }

  /* ---------- thread_clone with copying ---------- */

  const TLS_ENTRY: nat := 506   // PML4T_INDEX (THREAD_LOCAL_BASE_VMA)

  /** Present user entries become read-only and copy-on-write. */
  function MarkEntries(es: seq<Entry>): (es': seq<Entry>)
    ensures |es'| == |es|
    ensures forall i | 0 <= i < |es| :: SameView(es[i], es'[i]) && (i >= USER_ENTRIES ==> es'[i] == es[i])
  {
    seq(|es|, i requires 0 <= i < |es| =>
      if i < USER_ENTRIES && es[i].present then es[i].(rw := false, cow := true) else es[i])
  }

  function Mark(m: Machine, root: nat): (m': Machine)
  {
    m.(mem := m.mem[root := Table(MarkEntries(Entries(m.mem, root)))])
  }

  /** ref_page and ref_pdpt over the user half: one more reference to everything it reaches. */
  function Hold(m: Machine, x: multiset<nat>): (m': Machine)
  {
    m.(count := m.count + x, held := m.held + x)
  }

  /** The new PML4T: the parent's entries, with a thread-local PDPT of its own. */
  function ClonedEntries(es: seq<Entry>, tlp: nat): (es': seq<Entry>)
    ensures |es'| == |es|
  {
    if TLS_ENTRY < |es| then es[TLS_ENTRY := Entry(tlp, true, true, true, false, false, 0)] else es
  }

  /** A held PML4T becomes an address space; what it reaches is no longer held on its behalf. */
  function Attach(m: Machine, root: nat): (m': Machine)
  {
    m.(spaces := m.spaces + [root], held := m.held - multiset{root} - Tree(m.mem, root))
  }

  /** `root` and `tlp` are the frames alloc_page answers (0: none); `complete` tells
      whether the thread's own stacks could be set up afterwards. Without them the
      clone is abandoned, but the references it took are not given back. */
  function Clone(m: Machine, a: nat, root: nat, tlp: nat, complete: bool): (m': Machine)
    requires a < |m.spaces|
    ensures m'.spaces == if root != 0 && tlp != 0 && complete then m.spaces + [root] else m.spaces
  {
    if root == 0 || tlp == 0 then m
    else
      var parent := m.spaces[a];
      var m1 := Take(m, tlp, Table(seq(ENTRIES, _ => NO_ENTRY)));
      var m2 := Mark(m1, parent);
      var m3 := Hold(m2, Tree(m2.mem, parent));
      if !complete then m3
      else Attach(Take(m3, root, Table(ClonedEntries(Entries(m3.mem, parent), tlp))), root)
  }

  /** Entries without write permission own nothing, so counts do not matter to them. */
  lemma {:induction false} GoodUnowned(mem: Mem, count: multiset<nat>, count': multiset<nat>, es: seq<Entry>, es': seq<Entry>, level: nat)
    requires Good(mem, count, es, level, true) && |es'| == |es| && level > 1
    requires forall i | 0 <= i < |es| :: es'[i].present ==> es[i] == es'[i].(rw := es[i].rw, cow := es[i].cow) && !es'[i].rw && es'[i].cow
    ensures Good(mem, count', es', level, true)
  {
    forall i | 0 <= i < |es| ensures GoodEntry(mem, count', es'[i], level, true) {
      if es'[i].present {
        assert GoodEntry(mem, count, es[i], level, true);
        GoodReadOnly(mem, count, count', mem[es[i].frame].entries, level - 1, true && es[i].rw);
      }
    }
  }

  lemma {:induction false} MarkSpace(mem: Mem, mem': Mem, count: multiset<nat>, count': multiset<nat>, root: nat)
    requires GoodSpace(mem, count, root) && root !in Tree(mem, root)
    requires mem' == mem[root := Table(MarkEntries(Entries(mem, root)))] && count'[root] == 1
    ensures Tree(mem', root) == Tree(mem, root)
    ensures GoodSpace(mem', count', root)
  {
    hide Good, Reach, Child, GoodEntry;
    var es, es' := UserHalf(mem, root), UserHalf(mem', root);
    GoodUnowned(mem, count, count', es, es', 4);
    GoodFrame(mem, count', mem', count', es', 4, true) by {
      MarkReach(mem, mem, es, es');
    }
    MarkReach(mem, mem', es, es');
  }

  lemma {:induction false} MarkReach(mem: Mem, mem': Mem, es: seq<Entry>, es': seq<Entry>)
    requires |es| == |es'| && forall i | 0 <= i < |es| :: SameView(es[i], es'[i])
    requires forall f | f in Reach(mem, es, 4) :: SameShape(mem, mem', f)
    ensures Reach(mem', es', 4) == Reach(mem, es, 4)
  {
    hide Reach, Child;
    forall j | 0 <= j < |es| ensures Child(mem', es'[j], 4) == Child(mem, es[j], 4) {
      ChildInReach(mem, es, j, 4);
      ChildFrame(mem, mem', es[j], 4);
      ChildSameView(mem', es[j], es'[j], 4);
    }
    ReachSame(mem, es, mem', es', 4);
  }

  /** Marking the parent and referencing everything it reaches keeps the invariant. */
  lemma {:induction false} MarkHoldInv(m: Machine, a: nat)
    requires Inv(m) && a < |m.spaces|
    ensures var m2 := Mark(m, m.spaces[a]);
      && Tree(m2.mem, m.spaces[a]) == Tree(m.mem, m.spaces[a])
      && Inv(Hold(m2, Tree(m2.mem, m.spaces[a])))
  {
    hide Tree, GoodSpace, Sum;
    var root := m.spaces[a];
    var m2 := Mark(m, root);
    var m3 := Hold(m2, Tree(m2.mem, root));
    forall b | 0 <= b < |m.spaces|
      ensures Tree(m2.mem, m.spaces[b]) == Tree(m.mem, m.spaces[b])
    {
      MarkTrees(m, a, b);
    }
    forall b | 0 <= b < |m.spaces| ensures GoodSpace(m3.mem, m3.count, m.spaces[b]) {
      MarkHoldSpace(m, a, b);
    }
    TreesSame(m.mem, m2.mem, m.spaces);
  }

  lemma {:induction false} MarkTrees(m: Machine, a: nat, b: nat)
    requires Inv(m) && a < |m.spaces| && b < |m.spaces|
    ensures Tree(Mark(m, m.spaces[a]).mem, m.spaces[b]) == Tree(m.mem, m.spaces[b])
  {
    hide Inv, Tree, GoodSpace;
    RootAlone(m, a);
    SpaceCount(m, a);
    if b == a {
      MarkSpace(m.mem, Mark(m, m.spaces[a]).mem, m.count, m.count, m.spaces[a]);
    } else {
      TreeFrame(m.mem, Mark(m, m.spaces[a]).mem, m.spaces[b]);
    }
  }

  lemma {:induction false} MarkHoldSpace(m: Machine, a: nat, b: nat)
    requires Inv(m) && a < |m.spaces| && b < |m.spaces|
    ensures GoodSpace(Mark(m, m.spaces[a]).mem, m.count + Tree(m.mem, m.spaces[a]), m.spaces[b])
  {
    hide Inv, Tree, GoodSpace;
    var count' := m.count + Tree(m.mem, m.spaces[a]);
    RootAlone(m, a);
    RootAlone(m, b);
    SpaceCount(m, a);
    SpaceCount(m, b);
    var mem' := Mark(m, m.spaces[a]).mem;
    if b == a {
      MarkSpace(m.mem, mem', m.count, count', m.spaces[a]);
    } else {
      forall f | f in Tree(m.mem, m.spaces[b])
        ensures SameShape(m.mem, mem', f) && (m.count[f] == 1 ==> count'[f] == 1)
      {
        if m.count[f] == 1 {
          SoleOwner(m, b, f);
        }
      }
      SpaceFrame(m.mem, m.count, mem', count', m.spaces[b]);
    }
  }

  lemma {:induction false} AttachInv(m: Machine, a: nat, root: nat)
    requires Inv(m) && a < |m.spaces|
    requires root in m.mem && m.mem[root].Table? && |m.mem[root].entries| == ENTRIES && m.count[root] == 1
    requires UserHalf(m.mem, root) == UserHalf(m.mem, m.spaces[a])
    requires multiset{root} + Tree(m.mem, root) <= m.held
    ensures Inv(Attach(m, root))
  {
    hide Tree, GoodSpace, Occurrences;
    var m' := Attach(m, root);
    AttachSpace(m, a, root);
    forall f: nat ensures m'.count[f] == Occurrences(m')[f] + m'.held[f] {
      AttachCount(m, root, f);
    }
    assert forall b | 0 <= b < |m'.spaces| :: m'.spaces[b] == if b < |m.spaces| then m.spaces[b] else root;
  }

  lemma AttachCount(m: Machine, root: nat, f: nat)
    requires multiset{root} + Tree(m.mem, root) <= m.held
    ensures Occurrences(Attach(m, root))[f] + Attach(m, root).held[f] == Occurrences(m)[f] + m.held[f]
  {
    hide Tree, Trees;
    AttachOccurrences(m.mem, m.spaces, root, f);
    GivenAway(m.held, multiset{root}, Tree(m.mem, root), f);
  }

  lemma {:induction false} AttachSpace(m: Machine, a: nat, root: nat)
    requires Inv(m) && a < |m.spaces|
    requires root in m.mem && m.mem[root].Table? && |m.mem[root].entries| == ENTRIES && m.count[root] == 1
    requires UserHalf(m.mem, root) == UserHalf(m.mem, m.spaces[a])
    ensures GoodSpace(m.mem, m.count, root)
  {
    hide Inv, Good;
    SpaceCount(m, a);
  }

  lemma GivenAway(held: multiset<nat>, x: multiset<nat>, y: multiset<nat>, f: nat)
    requires x + y <= held
    ensures (held - x - y)[f] + x[f] + y[f] == held[f]
  {
    assert (x + y)[f] <= held[f];
  }

  lemma AttachOccurrences(mem: Mem, spaces: seq<nat>, root: nat, f: nat)
    ensures multiset(spaces + [root])[f] == multiset(spaces)[f] + multiset{root}[f]
    ensures Trees(mem, spaces + [root])[f] == Trees(mem, spaces)[f] + Tree(mem, root)[f]
  {
    hide Tree;
    var ts, ts' := TreeList(mem, spaces), TreeList(mem, spaces + [root]);
    assert ts'[..|ts|] == ts;
  }

  ghost predicate CloneAllocOk(m: Machine, root: nat, tlp: nat)
  {
    root != 0 && tlp != 0 ==> root !in m.count && tlp !in m.count && root != tlp
  }

  lemma CloneNot(m: Machine, a: nat, root: nat, tlp: nat, complete: bool)
    requires a < |m.spaces| && (root == 0 || tlp == 0)
    ensures Clone(m, a, root, tlp, complete) == m
  {
  }

  /** thread_clone keeps the invariant, whether or not it completes. */
  lemma {:induction false} CloneInv(m: Machine, a: nat, root: nat, tlp: nat, complete: bool)
    requires Inv(m) && a < |m.spaces| && CloneAllocOk(m, root, tlp)
    ensures Inv(Clone(m, a, root, tlp, complete))
  {
    hide Inv, Tree, GoodSpace;
    if root != 0 && tlp != 0 {
      var parent := m.spaces[a];
      var c := Table(seq(ENTRIES, _ => NO_ENTRY));
      TakeInv(m, tlp, c);
      var m1 := Take(m, tlp, c);
      MarkHoldInv(m1, a);
      if complete {
        CloneAttach(m1, a, root, tlp);
      }
    }
  }

  lemma {:induction false} CloneAttach(m1: Machine, a: nat, root: nat, tlp: nat)
    requires Inv(m1) && a < |m1.spaces| && root !in m1.count
    ensures var m2 := Mark(m1, m1.spaces[a]);
      var m3 := Hold(m2, Tree(m2.mem, m1.spaces[a]));
      Inv(Attach(Take(m3, root, Table(ClonedEntries(Entries(m3.mem, m1.spaces[a]), tlp))), root))
  {
    hide Inv, Reach, GoodSpace;
    var parent := m1.spaces[a];
    var m2 := Mark(m1, parent);
    var m3 := Hold(m2, Tree(m2.mem, parent));
    var c := Table(ClonedEntries(Entries(m3.mem, parent), tlp));
    MarkHoldInv(m1, a);
    FreshUnreached(m1, root);
    assert root !in m3.count;
    TakeInv(m3, root, c);
    var m4 := Take(m3, root, c);
    SpaceTable(m3, a);
    FreshUnreached(m3, root);
    assert UserHalf(m4.mem, root) == UserHalf(m4.mem, parent) == UserHalf(m3.mem, parent);
    TreeFrame(m3.mem, m4.mem, parent);
    AttachInv(m4, a, root);
  }

  lemma SpaceTable(m: Machine, a: nat)
    requires Inv(m) && a < |m.spaces|
    ensures var root := m.spaces[a]; root in m.mem && m.mem[root].Table? && |m.mem[root].entries| == ENTRIES
  {
    assert GoodSpace(m.mem, m.count, m.spaces[a]);
  }

  /** Re-flagging the entries of a PML4T changes no byte read. */
  lemma {:induction false} MarkLoad(m: Machine, a: nat, b: nat, va: nat)
    requires Inv(m) && a < |m.spaces| && b < |m.spaces|
    ensures Load(Mark(m, m.spaces[a]), b, va) == Load(m, b, va)
  {
    hide Inv, Reach, LoadAt;
    var root := m.spaces[a];
    RootAlone(m, a);
    SpaceTable(m, a);
    SpaceTable(m, b);
    var mem' := Mark(m, root).mem;
    MarkCopied(m.mem, mem', root);
    if va < USER_TOP {
      LoadMoved(m.mem, mem', root, root, UserHalf(m.mem, m.spaces[b]), UserHalf(mem', m.spaces[b]), 4, Path(va), va % PAGE_SIZE);
    }
  }

  lemma MarkCopied(mem: Mem, mem': Mem, root: nat)
    requires root in mem && mem[root].Table?
    requires mem' == mem[root := Table(MarkEntries(Entries(mem, root)))]
    ensures CopiedTo(mem, mem', root, root)
  {
  }

  /** What user code can read of a space whose PML4T has been marked, it may then write. */
  lemma {:induction false} MarkMay(m: Machine, a: nat, b: nat, va: nat)
    requires Inv(m) && a < |m.spaces| && b < |m.spaces|
    ensures MayWrite(Mark(m, m.spaces[a]), b, va) == if b == a then Load(m, a, va).Some? else MayWrite(m, b, va)
  {
    hide Inv, Reach, LoadAt;
    MarkLoad(m, a, b, va);
    RootAlone(m, a);
    var m' := Mark(m, m.spaces[a]);
    if b != a {
      hide Load, MayWrite, Tree;
      MayFrame(m, m', b, va);
    } else if Load(m, a, va).Some? {
      SpaceTable(m, a);
      PathDigits(va);
      var es, es' := UserHalf(m.mem, m.spaces[a]), UserHalf(m'.mem, m.spaces[a]);
      LoadHit(m.mem, es, 4, Path(va), va % PAGE_SIZE);
      assert es[Path(va)[0]].present && es'[Path(va)[0]].cow;
    }
  }

  /** After a clone every space reads what it read before, and the new one reads what its parent reads. */
  lemma {:induction false} CloneLoad(m: Machine, a: nat, root: nat, tlp: nat, complete: bool, b: nat, va: nat)
    requires Inv(m) && a < |m.spaces| && CloneAllocOk(m, root, tlp)
    requires b < |Clone(m, a, root, tlp, complete).spaces|
    ensures Load(Clone(m, a, root, tlp, complete), b, va) == Load(m, if b < |m.spaces| then b else a, va)
    ensures MayWrite(Clone(m, a, root, tlp, complete), b, va) ==
            if root != 0 && tlp != 0 && (b == a || b == |m.spaces|) then Load(m, a, va).Some? else MayWrite(m, b, va)
  {
    hide Inv, Load, MayWrite, Tree, Mark, Entries;
    if root != 0 && tlp != 0 {
      var c := Table(seq(ENTRIES, _ => NO_ENTRY));
      TakeInv(m, tlp, c);
      var m1 := Take(m, tlp, c);
      var b' := if b < |m.spaces| then b else a;
      TakeLoad(m, tlp, c, b', va);
      MarkHoldLoad(m1, a, b', va, root);
      if complete {
        MarkHoldInv(m1, a);
        var m2 := Mark(m1, m.spaces[a]);
        CloneAttachLoad(Hold(m2, Tree(m2.mem, m.spaces[a])), a, root, tlp, b, va);
      }
    }
  }

  lemma {:induction false} MarkHoldLoad(m1: Machine, a: nat, b: nat, va: nat, root: nat)
    requires Inv(m1) && a < |m1.spaces| && b < |m1.spaces| && root !in m1.count
    ensures var m2 := Mark(m1, m1.spaces[a]);
      var m3 := Hold(m2, Tree(m2.mem, m1.spaces[a]));
      && m3.spaces == m1.spaces && root !in m3.count && Load(m3, b, va) == Load(m1, b, va)
      && MayWrite(m3, b, va) == if b == a then Load(m1, a, va).Some? else MayWrite(m1, b, va)
  {
    hide Inv, Tree, LoadAt, UserHalf, May;
    MarkLoad(m1, a, b, va);
    MarkMay(m1, a, b, va);
    MarkTrees(m1, a, a);
    FreshUnreached(m1, root);
  }

  lemma {:induction false} TakeLoad(m: Machine, page: nat, c: Content, b: nat, va: nat)
    requires Inv(m) && b < |m.spaces| && page !in m.count
    ensures Load(Take(m, page, c), b, va) == Load(m, b, va) && MayWrite(Take(m, page, c), b, va) == MayWrite(m, b, va)
  {
    hide Inv, Load, MayWrite, Tree;
    FreshUnreached(m, page);
    CellFrame(m, Take(m, page, c), b, va);
  }

  lemma {:induction false} CloneAttachLoad(m3: Machine, a: nat, root: nat, tlp: nat, b: nat, va: nat)
    requires Inv(m3) && a < |m3.spaces| && root !in m3.count && b <= |m3.spaces|
    ensures var c := Table(ClonedEntries(Entries(m3.mem, m3.spaces[a]), tlp));
      var m4, b' := Attach(Take(m3, root, c), root), if b < |m3.spaces| then b else a;
      Load(m4, b, va) == Load(m3, b', va) && MayWrite(m4, b, va) == MayWrite(m3, b', va)
  {
    hide Inv, Tree, LoadAt, May;
    var c := Table(ClonedEntries(Entries(m3.mem, m3.spaces[a]), tlp));
    var m4 := Take(m3, root, c);
    SpaceTable(m3, a);
    FreshUnreached(m3, root);
    TakeLoad(m3, root, c, if b < |m3.spaces| then b else a, va);
    if b == |m3.spaces| {
      assert UserHalf(m4.mem, root) == UserHalf(m4.mem, m3.spaces[a]);
    }
  }

  /* ---------- vm_unmap_user_mem ---------- */

  function ClearEntries(es: seq<Entry>): (es': seq<Entry>)
    ensures |es'| == |es|
    ensures forall i | 0 <= i < |es| && i < USER_ENTRIES :: !es'[i].present
  {
    seq(|es|, i requires 0 <= i < |es| => if i < USER_ENTRIES && es[i].present then NO_ENTRY else es[i])
  }

  /** The user entries go; what they reached stays counted until it is given back. */
  function Clear(m: Machine, root: nat): (m': Machine)
  {
    m.(mem := m.mem[root := Table(ClearEntries(Entries(m.mem, root)))], held := m.held + Tree(m.mem, root))
  }

  function Unmap(m: Machine, a: nat): (m': Machine)
    requires a < |m.spaces|
    ensures m'.spaces == m.spaces
  {
    Release(Clear(m, m.spaces[a]), Tree(m.mem, m.spaces[a]))
  }

  lemma {:induction false} NothingReached(mem: Mem, count: multiset<nat>, es: seq<Entry>, level: nat)
    requires forall i | 0 <= i < |es| :: !es[i].present
    ensures Reach(mem, es, level) == multiset{}
    ensures Good(mem, count, es, level, true)
    decreases |es|
  {
    hide Children, Reach;
    forall f: nat ensures Reach(mem, es, level)[f] == 0 {
      if f in Reach(mem, es, level) {
        ReachWitness(mem, es, level, f);
      }
    }
  }

  lemma {:induction false} ReachWitness(mem: Mem, es: seq<Entry>, level: nat, f: nat)
    requires f in Reach(mem, es, level)
    ensures exists i :: 0 <= i < |es| && es[i].present
  {
    hide Sum;
    var i := InSumWitness(Children(mem, es, level), f);
    assert es[i].present;
  }

  lemma {:induction false} ClearInv(m: Machine, a: nat)
    requires Inv(m) && a < |m.spaces|
    ensures Inv(Clear(m, m.spaces[a]))
  {
    hide Tree, GoodSpace, Sum, Trees;
    var root := m.spaces[a];
    var m' := Clear(m, root);
    ClearSpace(m, a);
    forall b | 0 <= b < |m.spaces| && b != a
      ensures Tree(m'.mem, m.spaces[b]) == Tree(m.mem, m.spaces[b])
      ensures GoodSpace(m'.mem, m'.count, m.spaces[b])
    {
      ClearOther(m, a, b);
    }
    forall f: nat ensures m'.count[f] == Occurrences(m')[f] + m'.held[f] {
      TreesOneChanged(m.mem, m'.mem, m.spaces, a, f);
    }
  }

  lemma {:induction false} ClearSpace(m: Machine, a: nat)
    requires Inv(m) && a < |m.spaces|
    ensures var m' := Clear(m, m.spaces[a]);
      && Tree(m'.mem, m.spaces[a]) == multiset{}
      && GoodSpace(m'.mem, m.count, m.spaces[a])
  {
    hide Inv, Reach, Good;
    SpaceCount(m, a);
    var m' := Clear(m, m.spaces[a]);
    NothingReached(m'.mem, m.count, UserHalf(m'.mem, m.spaces[a]), 4);
  }

  lemma {:induction false} ClearOther(m: Machine, a: nat, b: nat)
    requires Inv(m) && a < |m.spaces| && b < |m.spaces| && b != a
    ensures var m' := Clear(m, m.spaces[a]);
      && Tree(m'.mem, m.spaces[b]) == Tree(m.mem, m.spaces[b])
      && GoodSpace(m'.mem, m'.count, m.spaces[b])
  {
    hide Inv, Tree, GoodSpace;
    var m' := Clear(m, m.spaces[a]);
    RootAlone(m, a);
    SpaceCount(m, b);
    TreeFrame(m.mem, m'.mem, m.spaces[b]);
    SpaceFrame(m.mem, m.count, m'.mem, m'.count, m.spaces[b]);
  }

  lemma {:induction false} UnmapInv(m: Machine, a: nat)
    requires Inv(m) && a < |m.spaces|
    ensures Inv(Unmap(m, a))
  {
    hide Inv, Tree;
    ClearInv(m, a);
    ReleaseInv(Clear(m, m.spaces[a]), Tree(m.mem, m.spaces[a]));
  }

  /** The space reads nothing any more; the others read what they did. */
  lemma {:induction false} UnmapLoad(m: Machine, a: nat, b: nat, va: nat)
    requires Inv(m) && a < |m.spaces| && b < |m.spaces|
    ensures Load(Unmap(m, a), b, va) == if b == a then None else Load(m, b, va)
    ensures MayWrite(Unmap(m, a), b, va) == (b != a && MayWrite(m, b, va))
  {
    hide Inv, Tree;
    var m' := Unmap(m, a);
    RootAlone(m, a);
    if b != a {
      hide Load, MayWrite;
      CellFrame(m, m', b, va);
    } else if va < USER_TOP {
      SpaceTable(m, a);
      PathDigits(va);
      assert !UserHalf(m'.mem, m.spaces[a])[Path(va)[0]].present;
    }
  }
}
