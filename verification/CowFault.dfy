/**
 Copy-on-write resolution (arch/x86_64/page-fault.c): one level at a time, then
 the whole walk of the handler.
 */
module CowFault {
  import opened PageTree
  import opened CowSpec

  /** An entry of a copied paging structure: shared, so read-only until resolved. */
  function CowEntry(e: Entry): (e': Entry)
    ensures e'.present ==> e'.cow && !e'.rw
    ensures SameView(e, e')
  {
    if e.present then e.(cow := true, rw := false) else NO_ENTRY
  }

  function CowEntries(es: seq<Entry>): (es': seq<Entry>)
    ensures |es'| == |es|
    ensures forall i | 0 <= i < |es| :: es'[i] == CowEntry(es[i])
  {
    seq(|es|, i requires 0 <= i < |es| => CowEntry(es[i]))
  }

  /** What a private copy of a frame holds. */
  function CowCopy(c: Content): (c': Content)
  {
    match c
    case Table(es) => Table(CowEntries(es))
    case Page(_) => c
  }

  /** Give entry i of table t its own copy, in frame `page`, of what it refers to. */
  function CowStep(m: Machine, t: nat, i: nat, page: nat): (m': Machine)
    requires i < |Entries(m.mem, t)| && Entries(m.mem, t)[i].frame in m.mem
    ensures m'.spaces == m.spaces && m'.held == m.held
  {
    var es := Entries(m.mem, t);
    var e := es[i];
    var mem1 := m.mem[page := CowCopy(m.mem[e.frame])];
    var mem2 := mem1[t := Table(es[i := e.(frame := page, rw := true, cow := false)])];
    m.(mem := mem2, count := m.count + multiset{page} - multiset{e.frame})
  }

  /** Table t is where `path` leads in space a, by writable entries only. */
  ghost predicate At(m: Machine, a: nat, path: seq<nat>, t: nat)
    requires a < |m.spaces|
  {
    if path == [] then t == m.spaces[a]
    else WritablePath(m.mem, UserHalf(m.mem, m.spaces[a]), 4, path, t)
  }

  /** The entries of t that the user half of the space uses. */
  function TableOf(m: Machine, path: seq<nat>, t: nat): (es: seq<Entry>)
  {
    if path == [] then UserHalf(m.mem, t) else Entries(m.mem, t)
  }

  /** A table on a writable path is counted once, well formed, and nothing else reaches it. */
  lemma {:induction false} AtTable(m: Machine, a: nat, path: seq<nat>, t: nat)
    requires Inv(m) && a < |m.spaces| && |path| < 4 && At(m, a, path, t)
    ensures t in m.mem && m.mem[t].Table? && |m.mem[t].entries| == ENTRIES
    ensures Good(m.mem, m.count, TableOf(m, path, t), 4 - |path|, true)
    ensures Reach(m.mem, TableOf(m, path, t), 4 - |path|) <= Tree(m.mem, m.spaces[a])
    ensures t !in Reach(m.mem, TableOf(m, path, t), 4 - |path|)
    ensures path != [] ==> Rewritable(m.mem, t, UserHalf(m.mem, m.spaces[a]), 4, path)
    ensures forall b | 0 <= b < |m.spaces| && b != a :: t !in Tree(m.mem, m.spaces[b]) && t != m.spaces[b]
  {
    assert GoodSpace(m.mem, m.count, m.spaces[a]);
    if path == [] {
      RootAlone(m, a);
    } else {
      AtInner(m, a, path, t);
    }
  }

  lemma {:induction false} AtInner(m: Machine, a: nat, path: seq<nat>, t: nat)
    requires Inv(m) && a < |m.spaces| && 0 < |path| < 4 && At(m, a, path, t)
    ensures t in m.mem && m.mem[t].Table? && |m.mem[t].entries| == ENTRIES
    ensures Good(m.mem, m.count, m.mem[t].entries, 4 - |path|, true)
    ensures Reach(m.mem, m.mem[t].entries, 4 - |path|) <= Tree(m.mem, m.spaces[a])
    ensures t !in Reach(m.mem, m.mem[t].entries, 4 - |path|)
    ensures Rewritable(m.mem, t, UserHalf(m.mem, m.spaces[a]), 4, path)
    ensures forall b | 0 <= b < |m.spaces| && b != a :: t !in Tree(m.mem, m.spaces[b]) && t != m.spaces[b]
  {
    hide Reach, Child, Good, GoodEntry, WritablePath, Inv;
    SpaceCount(m, a);
    AtInnerAlone(m, a, path, t);
    InnerTable(m.mem, m.count, UserHalf(m.mem, m.spaces[a]), 4, path, t);
  }

  lemma {:induction false} AtInnerAlone(m: Machine, a: nat, path: seq<nat>, t: nat)
    requires Inv(m) && a < |m.spaces| && 0 < |path| < 4 && At(m, a, path, t)
    ensures Tree(m.mem, m.spaces[a])[t] == 1
    ensures forall b | 0 <= b < |m.spaces| && b != a :: t !in Tree(m.mem, m.spaces[b]) && t != m.spaces[b]
  {
    SpaceCount(m, a);
    WritablePathReaches(m.mem, m.count, UserHalf(m.mem, m.spaces[a]), 4, path, t);
    SoleOwner(m, a, t);
  }

  lemma {:induction false} InnerTable(mem: Mem, count: multiset<nat>, es: seq<Entry>, level: nat, path: seq<nat>, t: nat)
    requires WritablePath(mem, es, level, path, t) && |path| < level
    requires Good(mem, count, es, level, true)
    requires Reach(mem, es, level)[t] == 1
    ensures t in mem && mem[t].Table? && |mem[t].entries| == ENTRIES
    ensures Good(mem, count, mem[t].entries, level - |path|, true)
    ensures Reach(mem, mem[t].entries, level - |path|) <= Reach(mem, es, level)
    ensures t !in Reach(mem, mem[t].entries, level - |path|)
  {
    WritablePathTable(mem, count, es, level, path, t);
    Twice(t, Reach(mem, mem[t].entries, level - |path|), Reach(mem, es, level));
  }

  lemma Twice(t: nat, below: multiset<nat>, whole: multiset<nat>)
    requires multiset{t} + below <= whole && whole[t] == 1
    ensures t !in below && below <= whole
  {
  }

  lemma {:induction false} WritablePathTable(mem: Mem, count: multiset<nat>, es: seq<Entry>, level: nat, path: seq<nat>, t: nat)
    requires WritablePath(mem, es, level, path, t) && |path| < level
    requires Good(mem, count, es, level, true)
    ensures t in mem && mem[t].Table? && |mem[t].entries| == ENTRIES
    ensures Good(mem, count, mem[t].entries, level - |path|, true)
    ensures multiset{t} + Reach(mem, mem[t].entries, level - |path|) <= Reach(mem, es, level)
    decreases path
  {
    hide Reach, Child, Children;
    var e := es[path[0]];
    assert GoodEntry(mem, count, e, level, true);
    EntryInReach(mem, es, path[0], level);
    if |path| > 1 {
      WritablePathTable(mem, count, mem[e.frame].entries, level - 1, path[1..], t);
    }
  }

  /* ---------- one level keeps every byte read ---------- */

  lemma CowStepCopied(m: Machine, t: nat, i: nat, page: nat)
    requires i < |Entries(m.mem, t)| && Entries(m.mem, t)[i].present && Entries(m.mem, t)[i].frame in m.mem
    requires page != t && page != Entries(m.mem, t)[i].frame && t != Entries(m.mem, t)[i].frame
    ensures CopiedTo(m.mem, CowStep(m, t, i, page).mem, Entries(m.mem, t)[i].frame, page)
  {
    var e := Entries(m.mem, t)[i];
    var mem' := CowStep(m, t, i, page).mem;
    forall f: nat | f != page
      ensures AllMoved(Entries(m.mem, f), Entries(mem', f), e.frame, page)
      ensures forall o: nat :: ByteAt(mem', f, o) == ByteAt(m.mem, f, o)
    {
    }
    assert AllMoved(Entries(m.mem, e.frame), Entries(mem', page), e.frame, page);
  }

  /** Some references to `old_`, marked copy-on-write, have been resolved to `page`. */
  ghost predicate Replaced(es: seq<Entry>, es': seq<Entry>, old_: nat, page: nat)
  {
    && |es| == |es'|
    && forall j | 0 <= j < |es| ::
         es'[j] == es[j] || (es[j].cow && es[j].frame == old_ && es'[j] == Resolved(es[j], page))
  }

  ghost predicate ResolvedTo(mem: Mem, mem': Mem, old_: nat, page: nat)
  {
    && (forall f: nat | f != page :: Replaced(Entries(mem, f), Entries(mem', f), old_, page))
    && Entries(mem', page) == CowEntries(Entries(mem, old_))
  }

  lemma CowStepResolved(m: Machine, t: nat, i: nat, page: nat)
    requires i < |Entries(m.mem, t)| && Entries(m.mem, t)[i].cow && Entries(m.mem, t)[i].frame in m.mem
    requires page != t && page != Entries(m.mem, t)[i].frame && t != Entries(m.mem, t)[i].frame
    ensures ResolvedTo(m.mem, CowStep(m, t, i, page).mem, Entries(m.mem, t)[i].frame, page)
  {
    var e := Entries(m.mem, t)[i];
    var mem' := CowStep(m, t, i, page).mem;
    forall f: nat | f != page ensures Replaced(Entries(m.mem, f), Entries(mem', f), e.frame, page) {
    }
    assert Entries(mem', page) == CowEntries(Entries(m.mem, e.frame));
  }

  /** A page that can be read may be written after a resolution exactly if it might before. */
  lemma {:induction false} MayMoved(mem: Mem, mem': Mem, old_: nat, page: nat, es: seq<Entry>, es': seq<Entry>, level: nat, path: seq<nat>)
    requires page !in Reach(mem, es, level)
    requires Replaced(es, es', old_, page) && ResolvedTo(mem, mem', old_, page)
    requires Resolve(mem, es, level, path).Hit? && Resolve(mem', es', level, path).Hit?
    ensures May(mem', es', level, path) == May(mem, es, level, path)
    decreases level
  {
    hide Reach, Child, Children, ResolvedTo;
    var e, e' := es[path[0]], es'[path[0]];
    if level > 1 {
      if e' == e {
        EntryInReach(mem, es, path[0], level);
        ResolvedStep(mem, mem', old_, page, e.frame);
        MayMoved(mem, mem', old_, page, Entries(mem, e.frame), Entries(mem', e.frame), level - 1, path[1..]);
      } else {
        ResolvedStep(mem, mem', old_, page, page);
      }
    }
  }

  lemma ResolvedStep(mem: Mem, mem': Mem, old_: nat, page: nat, f: nat)
    requires ResolvedTo(mem, mem', old_, page)
    ensures if f == page then Entries(mem', f) == CowEntries(Entries(mem, old_))
            else Replaced(Entries(mem, f), Entries(mem', f), old_, page)
  {
  }

  lemma LoadHit(mem: Mem, es: seq<Entry>, level: nat, path: seq<nat>, off: nat)
    requires LoadAt(mem, es, level, path, off).Some?
    ensures Resolve(mem, es, level, path).Hit?
  {
  }

  /* ---------- one level keeps the invariant ---------- */

  lemma ChildSameView(mem: Mem, e: Entry, e': Entry, level: nat)
    requires SameView(e, e')
    ensures Child(mem, e', level) == Child(mem, e, level)
  {
  }

  /** A copied table reaches what the original reaches, and owns nothing. */
  lemma {:induction false} CowEntriesReach(mem: Mem, mem': Mem, count: multiset<nat>, es: seq<Entry>, level: nat, w: bool)
    requires forall f | f in Reach(mem, es, level) :: SameShape(mem, mem', f)
    requires Good(mem, count, es, level, w)
    ensures Reach(mem', CowEntries(es), level) == Reach(mem, es, level)
    ensures Good(mem', count, CowEntries(es), level, true)
  {
    var es' := CowEntries(es);
    GoodReadOnly(mem, count, count, es, level, w);
    forall j | 0 <= j < |es|
      ensures Child(mem', es'[j], level) == Child(mem, es[j], level)
      ensures GoodEntry(mem', count, es'[j], level, true)
    {
      ChildInReach(mem, es, j, level);
      ChildFrame(mem, mem', es[j], level);
      ChildSameView(mem', es[j], es'[j], level);
      GoodEntryFrame(mem, count, mem', count, es[j], level, false);
    }
    ReachSame(mem, es, mem', es', level);
  }

  /** The effect of one changed entry on the entries of its table: each frame's
      occurrences change as they change below that entry. */
  lemma {:induction false} SetTable(mem: Mem, mem': Mem, count: multiset<nat>, t: nat, i: nat, es: seq<Entry>, es': seq<Entry>,
                                    level: nat, f: nat, d: int)
    requires OnlyAt(mem, mem', t) && i < |es| == |es'| && es' == es[i := es'[i]]
    requires t !in Reach(mem, es, level)
    requires Good(mem, count, es, level, true)
    requires Child(mem', es'[i], level)[f] == Child(mem, es[i], level)[f] + d
    requires GoodEntry(mem', count, es'[i], level, true)
    ensures Reach(mem', es', level)[f] == Reach(mem, es, level)[f] + d
    ensures Good(mem', count, es', level, true)
  {
    hide Reach, Child, Children, GoodEntry;
    SetOthers(mem, mem', count, t, i, es, level);
    ReachOneChanged(mem, es, mem', es', level, i, f, d);
  }

  lemma {:induction false} SetOthers(mem: Mem, mem': Mem, count: multiset<nat>, t: nat, i: nat, es: seq<Entry>, level: nat)
    requires OnlyAt(mem, mem', t) && i < |es|
    requires t !in Reach(mem, es, level)
    requires Good(mem, count, es, level, true)
    ensures forall j | 0 <= j < |es| && j != i ::
              Child(mem', es[j], level) == Child(mem, es[j], level) && GoodEntry(mem', count, es[j], level, true)
  {
    forall j | 0 <= j < |es| && j != i
      ensures Child(mem', es[j], level) == Child(mem, es[j], level)
      ensures GoodEntry(mem', count, es[j], level, true)
    {
      ChildInReach(mem, es, j, level);
      ChildFrame(mem, mem', es[j], level);
      assert GoodEntry(mem, count, es[j], level, true);
      GoodEntryFrame(mem, count, mem', count, es[j], level, true);
    }
  }

  lemma {:induction false} RedirectEntry(mem: Mem, mem': Mem, count: multiset<nat>, t: nat, page: nat, e: Entry, e': Entry, level: nat)
    requires OnlyAt(mem, mem', t) && page != t && 1 <= level
    requires e.present && e.cow && e' == e.(frame := page, rw := true, cow := false)
    requires e.frame in mem && page in mem && mem[page] == CowCopy(mem[e.frame])
    requires count[page] == 1
    requires t !in Child(mem, e, level)
    requires GoodEntry(mem, count, e, level, true)
    ensures Child(mem', e', level) == Child(mem, e, level) - multiset{e.frame} + multiset{page}
    ensures e.frame in Child(mem, e, level)
    ensures GoodEntry(mem', count, e', level, true)
  {
    hide Reach, Children;
    assert e.frame in Child(mem, e, level);
    if level > 1 {
      var old_ := mem[e.frame].entries;
      CowEntriesReach(mem, mem', count, old_, level - 1, true && e.rw);
      assert Entries(mem', page) == CowEntries(old_);
    } else {
      ReachNothing(mem, Entries(mem, e.frame));
      ReachNothing(mem', Entries(mem', page));
    }
  }

  /* ---------- the moves every step is made of ---------- */

  /** A frame is taken from the allocator and filled. */
  function Take(m: Machine, page: nat, c: Content): (m': Machine)
  {
    m.(mem := m.mem[page := c], count := m.count + multiset{page}, held := m.held + multiset{page})
  }

  /** Some references that are no longer in use are given back. */
  function Release(m: Machine, x: multiset<nat>): (m': Machine)
  {
    m.(count := m.count - x, held := m.held - x)
  }

  lemma {:induction false} TreeFrame(mem: Mem, mem': Mem, root: nat)
    requires SameShape(mem, mem', root)
    requires forall f | f in Tree(mem, root) :: SameShape(mem, mem', f)
    ensures Tree(mem', root) == Tree(mem, root)
  {
    ReachFrame(mem, mem', UserHalf(mem, root), 4);
  }

  lemma {:induction false} SpaceFrame(mem: Mem, count: multiset<nat>, mem': Mem, count': multiset<nat>, root: nat)
    requires GoodSpace(mem, count, root) && count'[root] == 1
    requires SameShape(mem, mem', root)
    requires forall f | f in Tree(mem, root) :: SameShape(mem, mem', f) && (count[f] == 1 ==> count'[f] == 1)
    ensures GoodSpace(mem', count', root)
  {
    GoodFrame(mem, count, mem', count', UserHalf(mem, root), 4, true);
  }

  lemma {:induction false} TakeInv(m: Machine, page: nat, c: Content)
    requires Inv(m) && page !in m.count
    ensures Inv(Take(m, page, c))
  {
    hide Tree, GoodSpace, Sum;
    var m' := Take(m, page, c);
    FreshUnreached(m, page);
    forall a | 0 <= a < |m.spaces|
      ensures Tree(m'.mem, m.spaces[a]) == Tree(m.mem, m.spaces[a])
      ensures GoodSpace(m'.mem, m'.count, m.spaces[a])
    {
      SpaceCount(m, a);
      TreeFrame(m.mem, m'.mem, m.spaces[a]);
      SpaceFrame(m.mem, m.count, m'.mem, m'.count, m.spaces[a]);
    }
    TreesSame(m.mem, m'.mem, m.spaces);
  }

  lemma SpaceCount(m: Machine, a: nat)
    requires Inv(m) && a < |m.spaces|
    ensures GoodSpace(m.mem, m.count, m.spaces[a]) && m.count[m.spaces[a]] == 1
  {
  }

  lemma {:induction false} ReleaseInv(m: Machine, x: multiset<nat>)
    requires Inv(m) && x <= m.held
    ensures Inv(Release(m, x))
  {
    hide Tree, GoodSpace, Sum;
    var m' := Release(m, x);
    forall a | 0 <= a < |m.spaces| ensures GoodSpace(m'.mem, m'.count, m.spaces[a]) {
      SpaceCount(m, a);
      RootCounted(m.spaces, a);
      TreeInTrees(m.mem, m.spaces, a);
      SpaceFrame(m.mem, m.count, m'.mem, m'.count, m.spaces[a]);
    }
  }

  /** Entry i of table t becomes e'. The references `gained`, held so far, are now the
      entry's; those `lost` by it are held until they are given back. */
  function Set(m: Machine, t: nat, i: nat, e': Entry, lost: multiset<nat>, gained: multiset<nat>): (m': Machine)
    requires i < |Entries(m.mem, t)|
  {
    m.(mem := m.mem[t := Table(Entries(m.mem, t)[i := e'])], held := m.held - gained + lost)
  }

  ghost predicate Settable(m: Machine, a: nat, path: seq<nat>, t: nat, i: nat, e': Entry, lost: multiset<nat>, gained: multiset<nat>)
  {
    && Inv(m) && a < |m.spaces| && |path| < 4 && At(m, a, path, t)
    && i < |Entries(m.mem, t)| && (path == [] ==> i < USER_ENTRIES)
    && gained <= m.held
    && var mem' := Set(m, t, i, e', lost, gained).mem;
    && GoodEntry(mem', m.count, e', 4 - |path|, true)
    && forall f: nat ::
         Child(mem', e', 4 - |path|)[f] + lost[f] == Child(m.mem, Entries(m.mem, t)[i], 4 - |path|)[f] + gained[f]
  }

  /** The space that owns the table: its tree loses what the entry loses and gains what it gains. */
  lemma {:induction false} SetOwner(m: Machine, a: nat, path: seq<nat>, t: nat, i: nat, e': Entry, lost: multiset<nat>, gained: multiset<nat>, f: nat)
    requires Settable(m, a, path, t, i, e', lost, gained)
    ensures var m' := Set(m, t, i, e', lost, gained);
      && Tree(m'.mem, m.spaces[a])[f] + lost[f] == Tree(m.mem, m.spaces[a])[f] + gained[f]
      && GoodSpace(m'.mem, m'.count, m.spaces[a])
  {
    hide Inv, Reach, Child, Children, Good, GoodEntry, WritablePath;
    AtTable(m, a, path, t);
    SpaceCount(m, a);
    var m' := Set(m, t, i, e', lost, gained);
    var level := 4 - |path|;
    var d := gained[f] as int - lost[f] as int;
    assert Child(m'.mem, e', level)[f] == Child(m.mem, Entries(m.mem, t)[i], level)[f] + d;
    if path == [] {
      SetTable(m.mem, m'.mem, m.count, t, i, UserHalf(m.mem, t), UserHalf(m'.mem, t), 4, f, d);
    } else {
      AtInnerAlone(m, a, path, t);
      RootAlone(m, a);
      var es := UserHalf(m.mem, m.spaces[a]);
      SetTable(m.mem, m'.mem, m.count, t, i, Entries(m.mem, t), Entries(m'.mem, t), level, f, d);
      PathReach(m.mem, m'.mem, t, level, es, 4, path, f, d);
      PathGood(m.mem, m'.mem, m.count, t, es, 4, path);
    }
  }

  lemma {:induction false} SetOther(m: Machine, a: nat, path: seq<nat>, t: nat, i: nat, e': Entry, lost: multiset<nat>, gained: multiset<nat>, b: nat)
    requires Settable(m, a, path, t, i, e', lost, gained) && b < |m.spaces| && b != a
    ensures var m' := Set(m, t, i, e', lost, gained);
      && Tree(m'.mem, m.spaces[b]) == Tree(m.mem, m.spaces[b])
      && GoodSpace(m'.mem, m.count, m.spaces[b])
  {
    hide Inv, Tree, GoodSpace, WritablePath, Reach, Good, Child, GoodEntry;
    var m' := Set(m, t, i, e', lost, gained);
    AtTable(m, a, path, t);
    SpaceCount(m, b);
    TreeFrame(m.mem, m'.mem, m.spaces[b]);
    SpaceFrame(m.mem, m.count, m'.mem, m'.count, m.spaces[b]);
  }

  lemma {:induction false} SetInv(m: Machine, a: nat, path: seq<nat>, t: nat, i: nat, e': Entry, lost: multiset<nat>, gained: multiset<nat>)
    requires Settable(m, a, path, t, i, e', lost, gained)
    ensures Inv(Set(m, t, i, e', lost, gained))
  {
    hide Tree, GoodSpace, Sum, WritablePath, Trees, Child, GoodEntry;
    var m' := Set(m, t, i, e', lost, gained);
    forall b | 0 <= b < |m.spaces| && b != a
      ensures Tree(m'.mem, m.spaces[b]) == Tree(m.mem, m.spaces[b])
      ensures GoodSpace(m'.mem, m'.count, m.spaces[b])
    {
      SetOther(m, a, path, t, i, e', lost, gained, b);
    }
    forall f: nat ensures m'.count[f] == Occurrences(m')[f] + m'.held[f] {
      SetOwner(m, a, path, t, i, e', lost, gained, f);
      TreesOneChanged(m.mem, m'.mem, m.spaces, a, f);
      assert gained[f] <= m.held[f];
    }
    SetOwner(m, a, path, t, i, e', lost, gained, 0);
  }

  /* ---------- one level of the handler ---------- */

  ghost predicate Resolvable(m: Machine, a: nat, path: seq<nat>, t: nat, i: nat, page: nat)
  {
    && Inv(m) && a < |m.spaces| && |path| < 4 && At(m, a, path, t)
    && page != 0 && page !in m.count
    && i < |Entries(m.mem, t)| && (path == [] ==> i < USER_ENTRIES)
    && Entries(m.mem, t)[i].present && Entries(m.mem, t)[i].cow
  }

  lemma {:induction false} ResolvableFacts(m: Machine, a: nat, path: seq<nat>, t: nat, i: nat, page: nat)
    requires Resolvable(m, a, path, t, i, page)
    ensures var old_ := Entries(m.mem, t)[i].frame;
      && old_ in m.mem && old_ in Tree(m.mem, m.spaces[a])
      && page != t && page != old_ && old_ != t
      && page !in m.spaces && (forall b | 0 <= b < |m.spaces| :: page !in Tree(m.mem, m.spaces[b]))
      && (path == [] ==> t == m.spaces[a]) && (path != [] ==> t in Tree(m.mem, m.spaces[a]))
      && m.mem[old_].Page? == (|path| == 3)
  {
    hide Inv, Reach, Child, Children, WritablePath;
    AtTable(m, a, path, t);
    if path != [] { AtInnerAlone(m, a, path, t); }
    FreshUnreached(m, page);
    var es := TableOf(m, path, t);
    assert GoodEntry(m.mem, m.count, es[i], 4 - |path|, true);
    EntryInReach(m.mem, es, i, 4 - |path|);
  }

  /** What the handler writes into an entry it resolves. */
  function Resolved(e: Entry, page: nat): (e': Entry)
  {
    e.(frame := page, rw := true, cow := false)
  }

  lemma {:induction false} CowStepInv(m: Machine, a: nat, path: seq<nat>, t: nat, i: nat, page: nat)
    requires Resolvable(m, a, path, t, i, page) && Entries(m.mem, t)[i].frame in m.mem
    ensures Inv(CowStep(m, t, i, page))
  {
    hide Tree, Inv, WritablePath, At, Settable, Set;
    ResolvableFacts(m, a, path, t, i, page);
    var e := Entries(m.mem, t)[i];
    var copy := CowCopy(m.mem[e.frame]);
    var p, o := multiset{page}, multiset{e.frame};
    TakeInv(m, page, copy);
    TakeAt(m, a, path, t, page, copy);
    CowSettable(m, a, path, t, i, page);
    SetInv(Take(m, page, copy), a, path, t, i, Resolved(e, page), o, p);
    CowStepMoves(m, t, i, page);
    ReleaseInv(Set(Take(m, page, copy), t, i, Resolved(e, page), o, p), o);
  }

  lemma {:induction false} CowSettable(m: Machine, a: nat, path: seq<nat>, t: nat, i: nat, page: nat)
    requires Resolvable(m, a, path, t, i, page) && Entries(m.mem, t)[i].frame in m.mem
    requires Inv(Take(m, page, CowCopy(m.mem[Entries(m.mem, t)[i].frame])))
    requires At(Take(m, page, CowCopy(m.mem[Entries(m.mem, t)[i].frame])), a, path, t)
    ensures var e := Entries(m.mem, t)[i];
      Settable(Take(m, page, CowCopy(m.mem[e.frame])), a, path, t, i, Resolved(e, page), multiset{e.frame}, multiset{page})
  {
    hide Inv, WritablePath, At, Reach, Child, Children, GoodEntry, CowCopy, Good;
    ResolvableFacts(m, a, path, t, i, page);
    var e := Entries(m.mem, t)[i];
    var level := 4 - |path|;
    var m1 := Take(m, page, CowCopy(m.mem[e.frame]));
    AtEntryGood(m1, a, path, t, i);
    var m2 := Set(m1, t, i, Resolved(e, page), multiset{e.frame}, multiset{page});
    RedirectEntry(m1.mem, m2.mem, m1.count, t, page, e, Resolved(e, page), level);
  }

  /** An entry of a table on the walk is good, and does not lead back to its table. */
  lemma {:induction false} AtEntryGood(m: Machine, a: nat, path: seq<nat>, t: nat, i: nat)
    requires Inv(m) && a < |m.spaces| && |path| < 4 && At(m, a, path, t)
    requires i < |Entries(m.mem, t)| && (path == [] ==> i < USER_ENTRIES)
    ensures GoodEntry(m.mem, m.count, Entries(m.mem, t)[i], 4 - |path|, true)
    ensures t !in Child(m.mem, Entries(m.mem, t)[i], 4 - |path|)
  {
    hide Inv, WritablePath, Reach, Child, Children, GoodEntry;
    AtTable(m, a, path, t);
    ChildInReach(m.mem, TableOf(m, path, t), i, 4 - |path|);
  }

  lemma CowStepMoves(m: Machine, t: nat, i: nat, page: nat)
    requires i < |Entries(m.mem, t)| && Entries(m.mem, t)[i].frame in m.mem && page != t
    ensures var e := Entries(m.mem, t)[i];
      var p, o := multiset{page}, multiset{e.frame};
      var m1 := Take(m, page, CowCopy(m.mem[e.frame]));
      && i < |Entries(m1.mem, t)|
      && o <= Set(m1, t, i, Resolved(e, page), o, p).held
      && Release(Set(m1, t, i, Resolved(e, page), o, p), o) == CowStep(m, t, i, page)
  {
    var e := Entries(m.mem, t)[i];
    hide CowCopy;
    TakenAndGiven(m.held, multiset{page}, multiset{e.frame});
    var m1 := Take(m, page, CowCopy(m.mem[e.frame]));
    assert Entries(m1.mem, t) == Entries(m.mem, t);
    var m2 := Set(m1, t, i, Resolved(e, page), multiset{e.frame}, multiset{page});
    assert m2.mem == CowStep(m, t, i, page).mem;
  }

  lemma TakenAndGiven(held: multiset<nat>, p: multiset<nat>, o: multiset<nat>)
    ensures held + p - p + o - o == held
  {
  }

  lemma {:induction false} TakeAt(m: Machine, a: nat, path: seq<nat>, t: nat, page: nat, c: Content)
    requires a < |m.spaces| && At(m, a, path, t)
    requires page != m.spaces[a] && page !in Tree(m.mem, m.spaces[a])
    ensures At(Take(m, page, c), a, path, t)
  {
    hide Reach, Child, Children, WritablePath;
    if path != [] {
      WritablePathFrame(m.mem, m.mem[page := c], page, UserHalf(m.mem, m.spaces[a]), 4, path, t);
    }
  }

  lemma {:induction false} WritablePathFrame(mem: Mem, mem': Mem, x: nat, es: seq<Entry>, level: nat, path: seq<nat>, t: nat)
    requires OnlyAt(mem, mem', x) && x !in Reach(mem, es, level)
    requires WritablePath(mem, es, level, path, t)
    ensures WritablePath(mem', es, level, path, t)
    decreases path
  {
    hide Reach, Child, Children;
    var e := es[path[0]];
    EntryInReach(mem, es, path[0], level);
    if |path| > 1 {
      WritablePathFrame(mem, mem', x, Entries(mem, e.frame), level - 1, path[1..], t);
    }
  }

  /** One level of resolution changes nothing that any space reads. */
  lemma {:induction false} CowStepLoad(m: Machine, a: nat, path: seq<nat>, t: nat, i: nat, page: nat, b: nat, va: nat)
    requires Resolvable(m, a, path, t, i, page) && Entries(m.mem, t)[i].frame in m.mem
    requires b < |m.spaces|
    ensures Load(CowStep(m, t, i, page), b, va) == Load(m, b, va)
  {
    hide Inv, WritablePath, Reach, LoadAt, CopiedTo;
    ResolvableFacts(m, a, path, t, i, page);
    CowStepCopied(m, t, i, page);
    var m' := CowStep(m, t, i, page);
    if va < USER_TOP {
      var old_ := Entries(m.mem, t)[i].frame;
      LoadMoved(m.mem, m'.mem, old_, page, UserHalf(m.mem, m.spaces[b]), UserHalf(m'.mem, m.spaces[b]), 4,
                Path(va), va % PAGE_SIZE);
    }
  }

  lemma {:induction false} CowStepMay(m: Machine, a: nat, path: seq<nat>, t: nat, i: nat, page: nat, b: nat, va: nat)
    requires Resolvable(m, a, path, t, i, page) && Entries(m.mem, t)[i].frame in m.mem
    requires b < |m.spaces|
    ensures MayWrite(CowStep(m, t, i, page), b, va) == MayWrite(m, b, va)
  {
    hide Inv, WritablePath, Reach, LoadAt, ResolvedTo, May, CowStep, Path;
    ResolvableFacts(m, a, path, t, i, page);
    CowStepLoad(m, a, path, t, i, page, b, va);
    CowStepResolved(m, t, i, page);
    var m' := CowStep(m, t, i, page);
    if Load(m, b, va).Some? {
      var old_ := Entries(m.mem, t)[i].frame;
      var es, es' := UserHalf(m.mem, m.spaces[b]), UserHalf(m'.mem, m.spaces[b]);
      ResolvedStep(m.mem, m'.mem, old_, page, m.spaces[b]);
      LoadHit(m.mem, es, 4, Path(va), va % PAGE_SIZE);
      LoadHit(m'.mem, es', 4, Path(va), va % PAGE_SIZE);
      MayMoved(m.mem, m'.mem, old_, page, es, es', 4, Path(va));
    }
  }

  /** The walk may go on below an entry that is, or has just been made, writable. */
  lemma {:induction false} PathExtend(mem: Mem, mem': Mem, t: nat, es: seq<Entry>, level: nat, path: seq<nat>, i: nat)
    requires OnlyAt(mem, mem', t) && Rewritable(mem, t, es, level, path)
    requires i < |Entries(mem', t)| && Entries(mem', t)[i].rw && Counted(Entries(mem', t)[i], level - |path|)
    ensures WritablePath(mem', es, level, path + [i], Entries(mem', t)[i].frame)
    decreases path
  {
    hide Reach, Child, Children;
    RewritableDown(mem, t, es, level, path);
    var e := es[path[0]];
    assert (path + [i])[1..] == path[1..] + [i];
    if |path| > 1 {
      PathExtend(mem, mem', t, Entries(mem, e.frame), level - 1, path[1..], i);
    }
  }

  /* ---------- the whole handler ---------- */

  /** The handler's walk from table t down the remaining indices. `pages` holds, for
      each level, what alloc_page answers there if it is called (0: no memory). The
      second result tells whether the access may be retried. */
  function FaultWalk(m: Machine, t: nat, idx: seq<nat>, pages: seq<nat>): (r: (Machine, bool))
    requires |pages| == |idx|
    ensures r.0.spaces == m.spaces
    decreases |idx|
  {
    var es := Entries(m.mem, t);
    if idx == [] || idx[0] >= |es| then (m, false)
    else
      var e := es[idx[0]];
      if !e.present || (2 <= |idx| <= 3 && e.size) then (m, false)
      else if e.cow && (pages[0] == 0 || e.frame !in m.mem) then (m, false)
      else
        var m1 := if e.cow then CowStep(m, t, idx[0], pages[0]) else m;
        if |idx| == 1 then (m1, e.cow)
        else FaultWalk(m1, if e.cow then pages[0] else e.frame, idx[1..], pages[1..])
  }

  /** Every page answered was free when it was asked for. */
  ghost predicate AllocOk(m: Machine, t: nat, idx: seq<nat>, pages: seq<nat>)
    requires |pages| == |idx|
    decreases |idx|
  {
    var es := Entries(m.mem, t);
    idx != [] && idx[0] < |es| && es[idx[0]].present && !(2 <= |idx| <= 3 && es[idx[0]].size) ==>
      var e := es[idx[0]];
      if e.cow then
        e.frame in m.mem && pages[0] != 0 ==>
          && pages[0] !in m.count
          && AllocOk(CowStep(m, t, idx[0], pages[0]), pages[0], idx[1..], pages[1..])
      else AllocOk(m, e.frame, idx[1..], pages[1..])
  }

  /** Two machines with the same spaces, in which every user byte reads the same and may be
      written in the same places. */
  ghost predicate SameLoads(m: Machine, m': Machine)
  {
    && m'.spaces == m.spaces
    && forall b: nat, va: nat | b < |m.spaces| :: Load(m', b, va) == Load(m, b, va) && MayWrite(m', b, va) == MayWrite(m, b, va)
  }

  lemma {:induction false} CowStepSameLoads(m: Machine, a: nat, path: seq<nat>, t: nat, i: nat, page: nat)
    requires Resolvable(m, a, path, t, i, page) && Entries(m.mem, t)[i].frame in m.mem
    ensures SameLoads(m, CowStep(m, t, i, page))
  {
    hide Inv, At, Load, MayWrite;
    forall b: nat, va: nat | b < |m.spaces|
      ensures Load(CowStep(m, t, i, page), b, va) == Load(m, b, va)
      ensures MayWrite(CowStep(m, t, i, page), b, va) == MayWrite(m, b, va)
    {
      CowStepLoad(m, a, path, t, i, page, b, va);
      CowStepMay(m, a, path, t, i, page, b, va);
    }
  }

  lemma {:induction false} AtExtend(m: Machine, mem': Mem, a: nat, path: seq<nat>, t: nat, i: nat)
    requires Inv(m) && a < |m.spaces| && |path| < 4 && At(m, a, path, t)
    requires OnlyAt(m.mem, mem', t) && |Entries(mem', t)| == ENTRIES
    requires i < ENTRIES && (path == [] ==> i < USER_ENTRIES)
    requires Entries(mem', t)[i].rw && Counted(Entries(mem', t)[i], 4 - |path|)
    ensures WritablePath(mem', UserHalf(mem', m.spaces[a]), 4, path + [i], Entries(mem', t)[i].frame)
  {
    hide Inv, Reach, Good;
    if path != [] {
      AtTable(m, a, path, t);
      AtInnerAlone(m, a, path, t);
      RootAlone(m, a);
      PathExtend(m.mem, mem', t, UserHalf(m.mem, m.spaces[a]), 4, path, i);
    }
  }

  lemma {:induction false} CowStepAt(m: Machine, a: nat, path: seq<nat>, t: nat, i: nat, page: nat)
    requires Resolvable(m, a, path, t, i, page) && Entries(m.mem, t)[i].frame in m.mem
    ensures At(CowStep(m, t, i, page), a, path + [i], page)
  {
    hide Inv, Reach, Good, WritablePath;
    ResolvableFacts(m, a, path, t, i, page);
    var copy := CowCopy(m.mem[Entries(m.mem, t)[i].frame]);
    TakeInv(m, page, copy);
    TakeAt(m, a, path, t, page, copy);
    AtEntry(m, a, path, t, i);
    AtExtend(Take(m, page, copy), CowStep(m, t, i, page).mem, a, path, t, i);
  }

  /** Entries of tables on the walk are well formed. */
  lemma {:induction false} AtEntry(m: Machine, a: nat, path: seq<nat>, t: nat, i: nat)
    requires Inv(m) && a < |m.spaces| && |path| < 4 && At(m, a, path, t)
    requires i < |Entries(m.mem, t)| && (path == [] ==> i < USER_ENTRIES)
    ensures |Entries(m.mem, t)| == ENTRIES
    ensures var e := Entries(m.mem, t)[i];
      e.present ==> e.frame in m.mem && Counted(e, 4 - |path|) && (|path| < 3 ==> e.rw == !e.cow)
  {
    hide Inv, Reach, WritablePath;
    AtTable(m, a, path, t);
    assert GoodEntry(m.mem, m.count, TableOf(m, path, t)[i], 4 - |path|, true);
  }

  /** The handler keeps the invariant and everything that any space reads. If it
      asks for a retry, the page is then writable down the whole path. */
  lemma {:induction false} FaultWalkKeeps(m: Machine, a: nat, path: seq<nat>, t: nat, idx: seq<nat>, pages: seq<nat>)
    requires Inv(m) && a < |m.spaces| && |path| < 4 && At(m, a, path, t)
    requires |pages| == |idx| && |path| + |idx| == 4 && (path == [] ==> idx[0] < USER_ENTRIES)
    requires AllocOk(m, t, idx, pages)
    ensures var (m', ok) := FaultWalk(m, t, idx, pages);
      && Inv(m') && SameLoads(m, m') && m'.held == m.held
      && (ok ==> exists f :: WritablePath(m'.mem, UserHalf(m'.mem, m.spaces[a]), 4, path + idx, f))
    decreases |idx|
  {
    hide Inv, At, SameLoads, WritablePath, Reach;
    SameLoadsRefl(m);
    if idx != [] && idx[0] < |Entries(m.mem, t)| && Entries(m.mem, t)[idx[0]].present {
      var i := idx[0];
      var e := Entries(m.mem, t)[i];
      AtEntry(m, a, path, t, i);
      assert path + idx == path + [i] + idx[1..];
      if e.cow && pages[0] != 0 {
        ResolveKeeps(m, a, path, t, idx, pages);
      } else if !e.cow && |idx| > 1 {
        AtDown(m, a, path, t, i);
        FaultWalkKeeps(m, a, path + [i], e.frame, idx[1..], pages[1..]);
      }
    }
  }

  lemma SameLoadsRefl(m: Machine)
    ensures SameLoads(m, m)
  {
  }

  lemma SameLoadsTrans(m: Machine, m1: Machine, m2: Machine)
    requires SameLoads(m, m1) && SameLoads(m1, m2)
    ensures SameLoads(m, m2)
  {
    hide Load, MayWrite;
    assert m1.spaces == m.spaces;
    forall b: nat, va: nat | b < |m.spaces|
      ensures Load(m2, b, va) == Load(m, b, va) && MayWrite(m2, b, va) == MayWrite(m, b, va)
    {
      assert Load(m1, b, va) == Load(m, b, va);
    }
  }

  lemma {:induction false} AtDown(m: Machine, a: nat, path: seq<nat>, t: nat, i: nat)
    requires Inv(m) && a < |m.spaces| && |path| < 3 && At(m, a, path, t)
    requires i < |Entries(m.mem, t)| && (path == [] ==> i < USER_ENTRIES)
    requires Entries(m.mem, t)[i].present && !Entries(m.mem, t)[i].cow
    ensures At(m, a, path + [i], Entries(m.mem, t)[i].frame)
  {
    hide Inv, Reach, WritablePath;
    AtEntry(m, a, path, t, i);
    AtExtend(m, m.mem, a, path, t, i);
  }

  /** What one resolution keeps, and where the walk goes on. */
  lemma {:induction false} CowStepKeeps(m: Machine, a: nat, path: seq<nat>, t: nat, i: nat, page: nat)
    requires Resolvable(m, a, path, t, i, page) && Entries(m.mem, t)[i].frame in m.mem
    ensures var m1 := CowStep(m, t, i, page);
      Inv(m1) && SameLoads(m, m1) && At(m1, a, path + [i], page)
  {
    hide Inv, At, SameLoads, CowStep;
    CowStepInv(m, a, path, t, i, page);
    CowStepSameLoads(m, a, path, t, i, page);
    CowStepAt(m, a, path, t, i, page);
  }

  /** The branch of the walk that resolves a level. */
  lemma {:induction false} ResolveKeeps(m: Machine, a: nat, path: seq<nat>, t: nat, idx: seq<nat>, pages: seq<nat>)
    requires Inv(m) && a < |m.spaces| && At(m, a, path, t)
    requires |pages| == |idx| && |path| + |idx| == 4 && idx != [] && (path == [] ==> idx[0] < USER_ENTRIES)
    requires idx[0] < |Entries(m.mem, t)|
    requires var e := Entries(m.mem, t)[idx[0]];
      && e.present && e.cow && pages[0] != 0 && e.frame in m.mem && Counted(e, 4 - |path|)
    requires AllocOk(m, t, idx, pages)
    ensures var (m', ok) := FaultWalk(m, t, idx, pages);
      && Inv(m') && SameLoads(m, m') && m'.held == m.held
      && (ok ==> exists f :: WritablePath(m'.mem, UserHalf(m'.mem, m.spaces[a]), 4, path + idx, f))
    decreases |idx|, 0
  {
    hide Inv, At, SameLoads, WritablePath, Reach, CowStep;
    var i, page := idx[0], pages[0];
    var m1 := CowStep(m, t, i, page);
    CowStepKeeps(m, a, path, t, i, page);
    if |idx| == 1 {
      assert idx == [i];
      AtWritable(m1, a, path + [i], page);
    } else {
      FaultWalkKeeps(m1, a, path + [i], page, idx[1..], pages[1..]);
      assert path + idx == path + [i] + idx[1..];
      SameLoadsTrans(m, m1, FaultWalk(m, t, idx, pages).0);
    }
  }

  lemma AtWritable(m: Machine, a: nat, path: seq<nat>, t: nat)
    requires a < |m.spaces| && At(m, a, path, t) && path != []
    ensures WritablePath(m.mem, UserHalf(m.mem, m.spaces[a]), 4, path, t)
  {
  }

  /* ---------- when the handler asks for a retry ---------- */

  /** Some entry of the path is copy-on-write. */
  predicate HasCow(mem: Mem, es: seq<Entry>, level: nat, path: seq<nat>)
    decreases level
  {
    && level > 0 && path != [] && path[0] < |es|
    && var e := es[path[0]];
    e.cow || (level > 1 && HasCow(mem, Entries(mem, e.frame), level - 1, path[1..]))
  }

  /** What may be written is what can be stored to at once, or lies below a copy-on-write entry. */
  lemma {:induction false} MayIs(mem: Mem, count: multiset<nat>, es: seq<Entry>, level: nat, path: seq<nat>, w: bool)
    requires Good(mem, count, es, level, w) && Resolve(mem, es, level, path).Hit?
    ensures May(mem, es, level, path) <==> Resolve(mem, es, level, path).writable || HasCow(mem, es, level, path)
    decreases level
  {
    var e := es[path[0]];
    assert GoodEntry(mem, count, e, level, w);
    if level > 1 {
      MayIs(mem, count, mem[e.frame].entries, level - 1, path[1..], w && e.rw);
    }
  }

  lemma {:induction false} EndsEarly(mem: Mem, es: seq<Entry>, level: nat, path: seq<nat>, depth: nat, t: nat)
    requires 0 < depth < |path| == level && WritablePath(mem, es, level, path[..depth], t)
    requires path[depth] >= |Entries(mem, t)| || !Entries(mem, t)[path[depth]].present
    ensures Resolve(mem, es, level, path).Fault?
    decreases level
  {
    var e := es[path[0]];
    if depth > 1 {
      assert path[..depth][1..] == path[1..][..depth - 1];
      EndsEarly(mem, Entries(mem, e.frame), level - 1, path[1..], depth - 1, t);
    }
  }

  /** The entries on the path of a page that can be read are present. */
  lemma {:induction false} AtReadable(m: Machine, a: nat, path: seq<nat>, t: nat, idx: seq<nat>, va: nat)
    requires Inv(m) && a < |m.spaces| && |path| < 4 && At(m, a, path, t)
    requires va < USER_TOP && Path(va) == path + idx && Load(m, a, va).Some?
    ensures idx != [] && (path == [] ==> idx[0] < USER_ENTRIES)
    ensures idx[0] < |Entries(m.mem, t)| && Entries(m.mem, t)[idx[0]].present
  {
    hide Inv, WritablePath, Reach;
    SpaceCount(m, a);
    PathDigits(va);
    var es := UserHalf(m.mem, m.spaces[a]);
    LoadHit(m.mem, es, 4, Path(va), va % PAGE_SIZE);
    assert idx[0] == Path(va)[|path|] && Path(va)[..|path|] == path;
    if path != [] && !(idx[0] < |Entries(m.mem, t)| && Entries(m.mem, t)[idx[0]].present) {
      EndsEarly(m.mem, es, 4, Path(va), |path|, t);
    }
  }

  /** With memory at hand, the handler retries an access to a page that can be read exactly if
      some entry of its path is copy-on-write. */
  lemma {:induction false} WalkRetries(m: Machine, a: nat, path: seq<nat>, t: nat, idx: seq<nat>, pages: seq<nat>, va: nat)
    requires Inv(m) && a < |m.spaces| && |path| < 4 && At(m, a, path, t)
    requires |pages| == |idx| && va < USER_TOP && Path(va) == path + idx && Load(m, a, va).Some?
    requires AllocOk(m, t, idx, pages) && 0 !in pages
    ensures FaultWalk(m, t, idx, pages).1 <==> HasCow(m.mem, TableOf(m, path, t), |idx|, idx)
    decreases |idx|
  {
    hide Inv, At, SameLoads, WritablePath, Reach, Load;
    AtReadable(m, a, path, t, idx, va);
    var i := idx[0];
    AtEntry(m, a, path, t, i);
    var e := Entries(m.mem, t)[i];
    assert path + idx == path + [i] + idx[1..];
    if e.cow {
      StepRetries(m, a, path, t, idx, pages, va);
    } else if |idx| > 1 {
      AtDown(m, a, path, t, i);
      WalkRetries(m, a, path + [i], e.frame, idx[1..], pages[1..], va);
    }
  }

  lemma {:induction false} StepRetries(m: Machine, a: nat, path: seq<nat>, t: nat, idx: seq<nat>, pages: seq<nat>, va: nat)
    requires Inv(m) && a < |m.spaces| && |path| < 4 && At(m, a, path, t) && idx != []
    requires |pages| == |idx| && va < USER_TOP && Path(va) == path + idx && Load(m, a, va).Some?
    requires AllocOk(m, t, idx, pages) && 0 !in pages
    requires idx[0] < |Entries(m.mem, t)| && (path == [] ==> idx[0] < USER_ENTRIES)
    requires var e := Entries(m.mem, t)[idx[0]]; e.present && e.cow && e.frame in m.mem && Counted(e, 4 - |path|)
    ensures FaultWalk(m, t, idx, pages).1
    decreases |idx|, 0
  {
    hide Inv, At, SameLoads, WritablePath, Reach, Load;
    var i, page := idx[0], pages[0];
    if |idx| > 1 {
      var m1 := CowStep(m, t, i, page);
      CowStepInv(m, a, path, t, i, page);
      CowStepAt(m, a, path, t, i, page);
      CowStepLoad(m, a, path, t, i, page, a, va);
      assert path + idx == path + [i] + idx[1..];
      AtReadable(m1, a, path + [i], page, idx[1..], va);
      CopyCow(m, a, path, t, i, page, idx[1]);
      WalkRetries(m1, a, path + [i], page, idx[1..], pages[1..], va);
    }
  }

  /** Every present entry of a fresh copy is copy-on-write. */
  lemma {:induction false} CopyCow(m: Machine, a: nat, path: seq<nat>, t: nat, i: nat, page: nat, j: nat)
    requires Resolvable(m, a, path, t, i, page) && Entries(m.mem, t)[i].frame in m.mem
    requires var es := Entries(CowStep(m, t, i, page).mem, page); j < |es| && es[j].present
    ensures Entries(CowStep(m, t, i, page).mem, page)[j].cow
  {
    hide Inv, WritablePath, Reach;
    ResolvableFacts(m, a, path, t, i, page);
  }
}
