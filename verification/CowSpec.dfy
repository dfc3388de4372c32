/**
 Copy-on-write address spaces as a state machine: what thread_clone, the page
 fault handler, a user store and the release of user memory do to the frame
 store and to the table of reference counts, and the invariant they keep.
 */
module CowSpec {
  import opened PageTree

  const USER_TOP: nat := 0x8000_0000_0000   // USER_MEM_TOP_VMA

  /** `count` is the table of page counts, as a multiset of frames; `spaces` lists
      the PML4Ts; `held` are the references that are not user mappings. */
  datatype Machine = Machine(mem: Mem, count: multiset<nat>, spaces: seq<nat>, held: multiset<nat>)

  /** PML4T_INDEX, PDPT_INDEX, PDT_INDEX and PT_INDEX of an address. */
  function Path(va: nat): (path: seq<nat>)
    ensures |path| == 4
  {
    [va / 0x80_0000_0000 % ENTRIES, va / 0x4000_0000 % ENTRIES, va / 0x20_0000 % ENTRIES, va / PAGE_SIZE % ENTRIES]
  }

  lemma PathInjective(va: nat, va': nat)
    requires va < USER_TOP && va' < USER_TOP
    requires Path(va) == Path(va') && va % PAGE_SIZE == va' % PAGE_SIZE
    ensures va == va'
  {
    PathDigits(va);
    PathDigits(va');
    assert Path(va)[0] == Path(va')[0] && Path(va)[1] == Path(va')[1];
    assert Path(va)[2] == Path(va')[2] && Path(va)[3] == Path(va')[3];
  }

  lemma PathDigits(va: nat)
    requires va < USER_TOP
    ensures Path(va)[0] < USER_ENTRIES
    ensures va == Path(va)[0] * 0x80_0000_0000 + Path(va)[1] * 0x4000_0000 + Path(va)[2] * 0x20_0000
                  + Path(va)[3] * PAGE_SIZE + va % PAGE_SIZE
  {
    var p := va / PAGE_SIZE;
    assert va / 0x20_0000 == p / 512;
    assert va / 0x4000_0000 == p / 512 / 512;
    assert va / 0x80_0000_0000 == p / 512 / 512 / 512;
  }

  /* ---------- what user code sees ---------- */

  function Load(m: Machine, a: nat, va: nat): (b: Option<bv8>)
    requires a < |m.spaces|
  {
    if va >= USER_TOP then None else LoadAt(m.mem, UserHalf(m.mem, m.spaces[a]), 4, Path(va), va % PAGE_SIZE)
  }

  function Translate(m: Machine, a: nat, va: nat): (t: Translation)
    requires a < |m.spaces|
  {
    if va >= USER_TOP then Fault else Resolve(m.mem, UserHalf(m.mem, m.spaces[a]), 4, Path(va))
  }

  /** The processor lets user code write at va. */
  predicate CanStore(m: Machine, a: nat, va: nat)
    requires a < |m.spaces|
  {
    var t := Translate(m, a, va);
    t.Hit? && t.writable
  }

  /** The last entry of the path lets user code write, or some entry of it would be
      resolved by the page fault handler, which then does. */
  function May(mem: Mem, es: seq<Entry>, level: nat, path: seq<nat>): (may: bool)
    decreases level
  {
    if level == 0 || path == [] || path[0] >= |es| then false
    else
      var e := es[path[0]];
      if level == 1 then e.rw || e.cow
      else e.cow || May(mem, Entries(mem, e.frame), level - 1, path[1..])
  }

  /** User code of space a can write at va, at once or after a page fault. */
  predicate MayWrite(m: Machine, a: nat, va: nat)
    requires a < |m.spaces|
  {
    Load(m, a, va).Some? && May(m.mem, UserHalf(m.mem, m.spaces[a]), 4, Path(va))
  }

  /* ---------- the invariant ---------- */

  function Tree(mem: Mem, root: nat): (frames: multiset<nat>)
  {
    Reach(mem, UserHalf(mem, root), 4)
  }

  function TreeList(mem: Mem, roots: seq<nat>): (ts: seq<multiset<nat>>)
    ensures |ts| == |roots|
    ensures forall i | 0 <= i < |roots| :: ts[i] == Tree(mem, roots[i])
  {
    seq(|roots|, i requires 0 <= i < |roots| => Tree(mem, roots[i]))
  }

  function Trees(mem: Mem, roots: seq<nat>): (frames: multiset<nat>)
  {
    Sum(TreeList(mem, roots))
  }

  /** Every reference to a frame from the user halves and the PML4Ts themselves. */
  function Occurrences(m: Machine): (frames: multiset<nat>)
  {
    multiset(m.spaces) + Trees(m.mem, m.spaces)
  }

  ghost predicate GoodSpace(mem: Mem, count: multiset<nat>, root: nat)
  {
    && root in mem && mem[root].Table? && |mem[root].entries| == ENTRIES
    && count[root] == 1
    && Good(mem, count, UserHalf(mem, root), 4, true)
  }

  ghost predicate Inv(m: Machine)
  {
    && (forall f: nat :: m.count[f] == Occurrences(m)[f] + m.held[f])
    && (forall a | 0 <= a < |m.spaces| :: GoodSpace(m.mem, m.count, m.spaces[a]))
  }

  lemma TreeInTrees(mem: Mem, roots: seq<nat>, a: nat)
    requires a < |roots|
    ensures Tree(mem, roots[a]) <= Trees(mem, roots)
  {
    InSum(TreeList(mem, roots), a);
  }

  lemma TwoTreesInTrees(mem: Mem, roots: seq<nat>, a: nat, b: nat, f: nat)
    requires a < |roots| && b < |roots| && a != b
    ensures Tree(mem, roots[a])[f] + Tree(mem, roots[b])[f] <= Trees(mem, roots)[f]
  {
    TwoInSum(TreeList(mem, roots), if a < b then a else b, if a < b then b else a, f);
  }

  lemma TreesSame(mem: Mem, mem': Mem, roots: seq<nat>)
    requires forall b | 0 <= b < |roots| :: Tree(mem', roots[b]) == Tree(mem, roots[b])
    ensures Trees(mem', roots) == Trees(mem, roots)
  {
    assert TreeList(mem', roots) == TreeList(mem, roots);
  }

  lemma TreesOneChanged(mem: Mem, mem': Mem, roots: seq<nat>, a: nat, f: nat)
    requires a < |roots|
    requires forall b | 0 <= b < |roots| && b != a :: Tree(mem', roots[b]) == Tree(mem, roots[b])
    ensures Trees(mem', roots)[f] + Tree(mem, roots[a])[f] == Trees(mem, roots)[f] + Tree(mem', roots[a])[f]
  {
    SumOneChanged(TreeList(mem, roots), TreeList(mem', roots), a, f);
  }

  lemma {:induction false} RootCounted(roots: seq<nat>, a: nat)
    requires a < |roots|
    ensures roots[a] in multiset(roots)
  {
    assert roots[a] in roots;
  }

  lemma RootsDistinct(roots: seq<nat>, a: nat, b: nat)
    requires a < b < |roots| && roots[a] == roots[b]
    ensures multiset(roots)[roots[a]] >= 2
  {
    assert roots == roots[..b] + [roots[b]] + roots[b + 1..];
    assert roots[..b][a] in multiset(roots[..b]);
  }

  /** A frame counted once, that space a reaches, is reached once, only by a, and is no PML4T. */
  lemma {:induction false} SoleOwner(m: Machine, a: nat, f: nat)
    requires Inv(m) && a < |m.spaces|
    requires f in Tree(m.mem, m.spaces[a]) && m.count[f] == 1
    ensures Tree(m.mem, m.spaces[a])[f] == 1
    ensures forall b | 0 <= b < |m.spaces| && b != a :: f !in Tree(m.mem, m.spaces[b])
    ensures f !in m.spaces
  {
    TreeInTrees(m.mem, m.spaces, a);
    forall b | 0 <= b < |m.spaces| && b != a ensures f !in Tree(m.mem, m.spaces[b]) {
      TwoTreesInTrees(m.mem, m.spaces, a, b, f);
    }
    assert f !in multiset(m.spaces);
  }

  /** No tree reaches a PML4T, and PML4Ts differ. */
  lemma {:induction false} RootAlone(m: Machine, a: nat)
    requires Inv(m) && a < |m.spaces|
    ensures forall b | 0 <= b < |m.spaces| :: m.spaces[a] !in Tree(m.mem, m.spaces[b])
    ensures forall b | 0 <= b < |m.spaces| && b != a :: m.spaces[b] != m.spaces[a]
  {
    var r := m.spaces[a];
    assert GoodSpace(m.mem, m.count, r);
    RootCounted(m.spaces, a);
    forall b | 0 <= b < |m.spaces| ensures r !in Tree(m.mem, m.spaces[b]) {
      TreeInTrees(m.mem, m.spaces, b);
    }
    forall b | 0 <= b < |m.spaces| && b != a ensures m.spaces[b] != r {
      if m.spaces[b] == r {
        RootsDistinct(m.spaces, if a < b then a else b, if a < b then b else a);
      }
    }
  }

  /** alloc_page returns frames of count zero, which nothing reaches. */
  lemma {:induction false} FreshUnreached(m: Machine, page: nat)
    requires Inv(m) && page !in m.count
    ensures page !in m.spaces
    ensures forall b | 0 <= b < |m.spaces| :: page !in Tree(m.mem, m.spaces[b])
  {
    assert page !in multiset(m.spaces);
    forall b | 0 <= b < |m.spaces| ensures page !in Tree(m.mem, m.spaces[b]) {
      TreeInTrees(m.mem, m.spaces, b);
    }
  }
}
