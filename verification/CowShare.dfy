/**
 vm_map_page and vm_unmap_page on tables that may be shared: they write the table
 they find without copying it, so that whoever else reaches the table sees the
 change. Here is exactly what each address space reads afterwards.
 */
module CowShare {
  import opened PageTree
  import opened CowSpec
  import opened CowFault
  import opened CowSteps
  import opened CowMap
  import opened CowRun
  import opened CowProtect
  import PM = PageMap

  /** The table that a user access with indices q reaches from table t. */
  function Leads(mem: Mem, t: nat, q: seq<nat>): (r: Option<nat>)
    decreases |q|
  {
    if q == [] then Some(t)
    else
      var es := Entries(mem, t);
      if q[0] < |es| && es[q[0]].present && es[q[0]].user && !es[q[0]].size then Leads(mem, es[q[0]].frame, q[1..])
      else None
  }

  /** The last table there is on the way of a mapping, and its depth: the one that is written. */
  function Target(mem: Mem, t: nat, path: seq<nat>, depth: nat): (r: (nat, nat))
    requires depth < |path| == 4
    ensures depth <= r.1 < 4
    decreases 4 - depth
  {
    var es := Entries(mem, t);
    if depth == 3 || path[depth] >= |es| || !es[path[depth]].present then (t, depth)
    else Target(mem, es[path[depth]].frame, path, depth + 1)
  }

  /** What user code reads through an entry of a page table. */
  function LeafByte(mem: Mem, e: Entry, off: nat): (b: Option<bv8>)
  {
    if e.present && e.user then ByteAt(mem, e.frame, off) else None
  }

  /* ---------- new tables ---------- */

  /** From `page` on there is one way, s, and it ends at e. */
  ghost predicate Chain(mem: Mem, page: nat, s: seq<nat>, e: Entry)
    decreases |s|
  {
    && s != [] && page in mem && mem[page].Table? && s[0] < |mem[page].entries|
    && (forall j | 0 <= j < |mem[page].entries| && j != s[0] :: !mem[page].entries[j].present)
    && var x := mem[page].entries[s[0]];
    if |s| == 1 then x == e else x.present && x.user && !x.size && Chain(mem, x.frame, s[1..], e)
  }

  /** The entry names a page of data, if anything. */
  ghost predicate NamesPage(mem: Mem, e: Entry)
  {
    e.present ==> e.frame in mem && mem[e.frame].Page?
  }

  /** Nothing is read through a page of data as if it were a table. */
  lemma NoTable(mem: Mem, es: seq<Entry>, level: nat, q: seq<nat>, off: nat)
    requires level > 1 && q != [] && q[0] < |es| && Entries(mem, es[q[0]].frame) == []
    ensures LoadAt(mem, es, level, q, off) == None
    ensures |q| > 1 ==> Resolve(mem, [], level - 1, q[1..]) == Fault
  {
    assert Resolve(mem, [], level - 1, q[1..]) == Fault;
  }

  lemma {:induction false} ChainLoad(mem: Mem, page: nat, s: seq<nat>, e: Entry, level: nat, q: seq<nat>, off: nat)
    requires Chain(mem, page, s, e) && NamesPage(mem, e) && |q| == level > 0
    ensures LoadAt(mem, Entries(mem, page), level, q, off) == if q == s then LeafByte(mem, e, off) else None
    decreases |s|
  {
    var es := Entries(mem, page);
    if q[0] == s[0] {
      var x := es[q[0]];
      assert s == [s[0]] + s[1..] && q == [q[0]] + q[1..];
      if |s| > 1 && level > 1 {
        ChainLoad(mem, x.frame, s[1..], e, level - 1, q[1..], off);
      } else if level > 1 && x.present {
        NoTable(mem, es, level, q, off);
      }
    }
  }

  /** What vm_map_page does below an empty table. */
  lemma {:induction false} ChainMade(mem: Mem, page: nat, path: seq<nat>, depth: nat, pages: seq<nat>, frame: nat, flags: Entry)
    requires depth < |path| == |pages| == 4 && forall j | 0 <= j < 4 :: path[j] < ENTRIES
    requires page in mem && mem[page] == Table(PM.EmptyTable()) && !flags.size
    requires forall d | depth <= d < 4 && pages[d] != 0 :: pages[d] != page
    requires forall c, d | depth <= c < d < 4 && pages[d] != 0 :: pages[c] != pages[d]
    requires PM.MapFrom(mem, page, path, depth, pages, frame, flags).1.Done?
    ensures var mem' := PM.MapFrom(mem, page, path, depth, pages, frame, flags).0;
      && Chain(mem', page, path[depth..], PM.LeafEntry(frame, flags))
      && forall f: nat | f != page && (forall d | depth <= d < 4 && pages[d] != 0 :: pages[d] != f) :: OnlyIn(mem, mem', f)
    decreases 4 - depth
  {
    hide Chain;
    var i := path[depth];
    if depth == 3 {
      ChainEnd(mem, page, path, PM.LeafEntry(frame, flags));
    } else {
      var next := pages[depth];
      var mem1 := mem[next := Table(PM.EmptyTable())][page := Table(PM.EmptyTable()[i := PM.TableEntry(next, flags)])];
      ChainMade(mem1, next, path, depth + 1, pages, frame, flags);
      var mem' := PM.MapFrom(mem1, next, path, depth + 1, pages, frame, flags).0;
      assert OnlyIn(mem1, mem', page);
      ChainCons(mem', page, path, depth, next, flags, PM.LeafEntry(frame, flags));
    }
  }

  lemma ChainEnd(mem: Mem, page: nat, path: seq<nat>, e: Entry)
    requires |path| == 4 && path[3] < ENTRIES && page in mem && mem[page] == Table(PM.EmptyTable())
    ensures Chain(PM.SetEntry(mem, page, path[3], e), page, path[3..], e)
  {
    assert path[3..] == [path[3]];
  }

  lemma ChainCons(mem: Mem, page: nat, path: seq<nat>, depth: nat, next: nat, flags: Entry, e: Entry)
    requires depth < 3 && |path| == 4 && path[depth] < ENTRIES && !flags.size
    requires page in mem && mem[page] == Table(PM.EmptyTable()[path[depth] := PM.TableEntry(next, flags)])
    requires Chain(mem, next, path[depth + 1..], e)
    ensures Chain(mem, page, path[depth..], e)
  {
    assert path[depth..][0] == path[depth] && path[depth..][1..] == path[depth + 1..];
  }

  /* ---------- one table written ---------- */

  /** Entry s[0] of table t has come to lead, by the indices s, to e, through tables that are new;
      nothing else has changed. */
  ghost predicate Placed(mem: Mem, mem': Mem, t: nat, s: seq<nat>, e: Entry, made: set<nat>)
  {
    && s != [] && t in mem && mem[t].Table? && s[0] < |mem[t].entries|
    && t in mem' && mem'[t].Table? && |mem'[t].entries| == |mem[t].entries|
    && mem'[t] == Table(mem[t].entries[s[0] := mem'[t].entries[s[0]]])
    && (forall f: nat | f != t && f !in made :: OnlyIn(mem, mem', f))
    && NamesPage(mem, e) && NamesPage(mem', e) && (e.present ==> e.frame !in made)
    && var x, x' := mem[t].entries[s[0]], mem'[t].entries[s[0]];
    if |s| == 1 then x' == e && NamesPage(mem, x) && (x.present ==> x.frame !in made)
    else !x.present && x'.present && x'.user && !x'.size && Chain(mem', x'.frame, s[1..], e)
  }

  /** The access passes through table t where s begins. */
  predicate Passes(mem: Mem, from: nat, t: nat, q: seq<nat>, s: seq<nat>)
  {
    |s| <= |q| && Leads(mem, from, q[..|q| - |s|]) == Some(t) && q[|q| - |s|..] == s
  }

  lemma {:induction false} PlacedHere(mem: Mem, mem': Mem, t: nat, s: seq<nat>, e: Entry, made: set<nat>, q: seq<nat>, off: nat)
    requires Placed(mem, mem', t, s, e, made) && q != [] && q[0] == s[0]
    ensures LoadAt(mem', Entries(mem', t), |q|, q, off) == if q == s then LeafByte(mem', e, off) else None
    ensures |q| > 1 || |s| > 1 ==> LoadAt(mem, Entries(mem, t), |q|, q, off) == None
  {
    var x, x' := mem[t].entries[s[0]], mem'[t].entries[s[0]];
    assert s == [s[0]] + s[1..] && q == [q[0]] + q[1..];
    if |s| > 1 {
      if |q| > 1 {
        ChainLoad(mem', x'.frame, s[1..], e, |q| - 1, q[1..], off);
      }
    } else if |q| > 1 {
      if x.present {
        NoTable(mem, Entries(mem, t), |q|, q, off);
      }
      if x'.present {
        NoTable(mem', Entries(mem', t), |q|, q, off);
      }
    }
  }

  /** What is read after the change, from any table. */
  lemma {:induction false} PlacedLoad(mem: Mem, mem': Mem, t: nat, s: seq<nat>, e: Entry, made: set<nat>, from: nat, q: seq<nat>, off: nat)
    requires Placed(mem, mem', t, s, e, made) && from !in made && q != []
    requires forall p | p in made :: p !in Reach(mem, Entries(mem, from), |q|)
    ensures LoadAt(mem', Entries(mem', from), |q|, q, off) ==
            if Passes(mem, from, t, q, s) then LeafByte(mem', e, off) else LoadAt(mem, Entries(mem, from), |q|, q, off)
    decreases |q|
  {
    hide Reach, Chain, NamesPage;
    var es, es' := Entries(mem, from), Entries(mem', from);
    if from == t && q[0] == s[0] {
      PlacedHere(mem, mem', t, s, e, made, q, off);
      PassesHere(mem, t, q, s, e, mem', made);
    } else {
      assert |es| == |es'| && (q[0] < |es| ==> es'[q[0]] == es[q[0]]);
      PassesOn(mem, from, t, q, s);
      if q[0] < |es| && es[q[0]].present && es[q[0]].user && !(|q| > 1 && es[q[0]].size) {
        EntryInReach(mem, es, q[0], |q|);
        if |q| > 1 {
          PlacedLoad(mem, mem', t, s, e, made, es[q[0]].frame, q[1..], off);
        } else {
          PlacedByte(mem, mem', t, s, e, made, es[q[0]].frame, off);
        }
      }
    }
  }

  lemma PlacedByte(mem: Mem, mem': Mem, t: nat, s: seq<nat>, e: Entry, made: set<nat>, f: nat, off: nat)
    requires Placed(mem, mem', t, s, e, made) && f !in made
    ensures ByteAt(mem', f, off) == ByteAt(mem, f, off)
  {
    if f != t {
      assert OnlyIn(mem, mem', f);
    }
  }

  lemma PassesHere(mem: Mem, t: nat, q: seq<nat>, s: seq<nat>, e: Entry, mem': Mem, made: set<nat>)
    requires Placed(mem, mem', t, s, e, made) && q != [] && q[0] == s[0]
    ensures Passes(mem, t, t, q, s) <==> q == s
  {
    var k := |q| - |s|;
    assert q[..0] == [] && q[0..] == q;
    if k > 0 {
      assert q[..k][0] == q[0];
      PlacedOnce(mem, t, s, e, mem', made, q[..k]);
    }
  }

  /** The entry that is replaced did not lead back to its table. */
  lemma PlacedOnce(mem: Mem, t: nat, s: seq<nat>, e: Entry, mem': Mem, made: set<nat>, q: seq<nat>)
    requires Placed(mem, mem', t, s, e, made) && q != [] && q[0] == s[0]
    ensures Leads(mem, t, q) != Some(t)
  {
    var x := mem[t].entries[s[0]];
    if |s| == 1 && x.present {
      assert Entries(mem, x.frame) == [];
      if |q| == 1 {
        assert q[1..] == [];
      }
    }
  }

  /** Passing later is passing from the next table. */
  lemma PassesOn(mem: Mem, from: nat, t: nat, q: seq<nat>, s: seq<nat>)
    requires q != [] && s != [] && !(from == t && q[0] == s[0])
    ensures var es := Entries(mem, from);
      Passes(mem, from, t, q, s) <==>
      q[0] < |es| && es[q[0]].present && es[q[0]].user && !es[q[0]].size && |q| > 1 && Passes(mem, es[q[0]].frame, t, q[1..], s)
  {
    var k := |q| - |s|;
    if k == 0 {
      assert q[..0] == [] && q[0..] == q;
    } else if k > 0 {
      assert q[..k][1..] == q[1..][..k - 1] && q[k..] == q[1..][k - 1..] && q[..k][0] == q[0];
    }
  }

  /** The same from a PML4T, of which user code uses one half. */
  lemma {:induction false} PlacedRoot(mem: Mem, mem': Mem, t: nat, s: seq<nat>, e: Entry, made: set<nat>, root: nat, q: seq<nat>, off: nat)
    requires Placed(mem, mem', t, s, e, made) && root !in made && |q| == 4
    requires q[0] < USER_ENTRIES <= |Entries(mem, root)|
    requires forall p | p in made :: p !in Tree(mem, root)
    ensures LoadAt(mem', UserHalf(mem', root), 4, q, off) ==
            if Passes(mem, root, t, q, s) then LeafByte(mem', e, off) else LoadAt(mem, UserHalf(mem, root), 4, q, off)
  {
    hide Reach, Chain, NamesPage, Leads;
    var es, es' := Entries(mem, root), Entries(mem', root);
    assert |es| == |es'|;
    HalfLoad(mem, root, q, off);
    HalfLoad(mem', root, q, off);
    if root == t && q[0] == s[0] {
      PlacedHere(mem, mem', t, s, e, made, q, off);
      PassesHere(mem, t, q, s, e, mem', made);
    } else {
      PassesOn(mem, root, t, q, s);
      if es[q[0]].present && es[q[0]].user && !es[q[0]].size {
        EntryInReach(mem, UserHalf(mem, root), q[0], 4);
        PlacedLoad(mem, mem', t, s, e, made, es[q[0]].frame, q[1..], off);
      }
    }
  }

  lemma HalfLoad(mem: Mem, root: nat, q: seq<nat>, off: nat)
    requires |q| == 4 && q[0] < USER_ENTRIES <= |Entries(mem, root)|
    ensures LoadAt(mem, UserHalf(mem, root), 4, q, off) == LoadAt(mem, Entries(mem, root), 4, q, off)
  {
  }

  /* ---------- what vm_map_page writes ---------- */

  function Used(pages: seq<nat>): (made: set<nat>)
  {
    set d | 0 <= d < |pages| && pages[d] != 0 :: pages[d]
  }

  lemma {:induction false} MapPlaced(mem: Mem, count: multiset<nat>, t: nat, es: seq<Entry>, w: bool, path: seq<nat>, depth: nat,
                                     pages: seq<nat>, frame: nat, flags: Entry)
    requires depth < |path| == |pages| == 4 && forall j | 0 <= j < 4 :: path[j] < ENTRIES
    requires t in mem && mem[t].Table? && |mem[t].entries| == ENTRIES && es <= mem[t].entries && path[depth] < |es|
    requires Good(mem, count, es, 4 - depth, w)
    requires t !in Used(pages) && forall p | p in Used(pages) :: p !in Reach(mem, es, 4 - depth)
    requires forall c, d | 0 <= c < d < 4 && pages[d] != 0 :: pages[c] != pages[d]
    requires frame in mem && mem[frame].Page? && frame !in Used(pages) && !flags.size
    requires PM.MapFrom(mem, t, path, depth, pages, frame, flags).1.Done?
    ensures var (t', d) := Target(mem, t, path, depth);
      Placed(mem, PM.MapFrom(mem, t, path, depth, pages, frame, flags).0, t', path[d..], PM.LeafEntry(frame, flags), Used(pages))
    decreases 4 - depth
  {
    hide Reach, Child, Chain, Used;
    var i := path[depth];
    var e := es[i];
    assert GoodEntry(mem, count, e, 4 - depth, w);
    if depth == 3 {
      assert path[3..] == [i];
      if e.present {
        EntryInReach(mem, es, i, 1);
      }
    } else if e.present {
      hide Placed;
      MapPlacedDown(mem, count, es, w, path, depth, pages);
      MapPlaced(mem, count, e.frame, mem[e.frame].entries, w && e.rw, path, depth + 1, pages, frame, flags);
    } else {
      TablesPlaced(mem, t, path, depth, pages, frame, flags);
    }
  }

  lemma MapPlacedDown(mem: Mem, count: multiset<nat>, es: seq<Entry>, w: bool, path: seq<nat>, depth: nat, pages: seq<nat>)
    requires depth < 3 && |path| == 4 && path[depth] < |es| && es[path[depth]].present && Good(mem, count, es, 4 - depth, w)
    requires forall p | p in Used(pages) :: p !in Reach(mem, es, 4 - depth)
    ensures var e := es[path[depth]];
      && e.frame in mem && mem[e.frame].Table? && |mem[e.frame].entries| == ENTRIES && !e.size
      && Good(mem, count, mem[e.frame].entries, 3 - depth, w && e.rw)
      && e.frame !in Used(pages) && forall p | p in Used(pages) :: p !in Reach(mem, mem[e.frame].entries, 3 - depth)
  {
    hide Reach, Child, Used;
    assert GoodEntry(mem, count, es[path[depth]], 4 - depth, w);
    EntryInReach(mem, es, path[depth], 4 - depth);
  }

  lemma {:induction false} TablesPlaced(mem: Mem, t: nat, path: seq<nat>, depth: nat, pages: seq<nat>, frame: nat, flags: Entry)
    requires depth < 3 && |path| == |pages| == 4 && forall j | 0 <= j < 4 :: path[j] < ENTRIES
    requires t in mem && mem[t].Table? && |mem[t].entries| == ENTRIES && !mem[t].entries[path[depth]].present
    requires t !in Used(pages) && forall c, d | 0 <= c < d < 4 && pages[d] != 0 :: pages[c] != pages[d]
    requires frame in mem && mem[frame].Page? && frame !in Used(pages) && !flags.size
    requires PM.MapFrom(mem, t, path, depth, pages, frame, flags).1.Done?
    ensures Placed(mem, PM.MapFrom(mem, t, path, depth, pages, frame, flags).0, t, path[depth..], PM.LeafEntry(frame, flags), Used(pages))
  {
    hide Chain;
    var i, page := path[depth], pages[depth];
    assert page in Used(pages);
    var mem1 := mem[page := Table(PM.EmptyTable())][t := Table(mem[t].entries[i := PM.TableEntry(page, flags)])];
    ChainMade(mem1, page, path, depth + 1, pages, frame, flags);
    var mem' := PM.MapFrom(mem1, page, path, depth + 1, pages, frame, flags).0;
    assert path[depth..][1..] == path[depth + 1..] && path[depth..][0] == i;
    forall f: nat | f !in Used(pages) ensures OnlyIn(mem1, mem', f) {
      assert forall d | 0 <= d < 4 && pages[d] != 0 :: pages[d] in Used(pages);
    }
    assert OnlyIn(mem1, mem', t) && OnlyIn(mem1, mem', frame);
  }

  /* ---------- what every space reads ---------- */

  ghost predicate MapCase(m: Machine, a: nat, va: nat, pages: seq<nat>, frame: nat, flags: Entry)
  {
    && Inv(m) && a < |m.spaces| && va < USER_TOP && |pages| == 4 && Answered(m.count, pages, 0)
    && frame in m.mem && m.mem[frame].Page? && frame !in Used(pages) && !flags.size
    && MapWalk(m, m.spaces[a], Path(va), 0, pages, frame, flags).1.Done?
  }

  /** The way of an access at va from table t of depth d. */
  predicate Through(m: Machine, b: nat, t: nat, d: nat, va: nat, va': nat)
    requires b < |m.spaces| && d < 4
  {
    Leads(m.mem, m.spaces[b], Path(va')[..d]) == Some(t) && Path(va')[d..] == Path(va)[d..]
  }

  lemma {:induction false} MapTarget(m: Machine, a: nat, va: nat, pages: seq<nat>, frame: nat, flags: Entry)
    requires MapCase(m, a, va, pages, frame, flags)
    ensures var (t, d) := Target(m.mem, m.spaces[a], Path(va), 0);
      Placed(m.mem, MapWalk(m, m.spaces[a], Path(va), 0, pages, frame, flags).0.mem, t, Path(va)[d..],
             PM.LeafEntry(frame, flags), Used(pages))
  {
    hide Inv, Reach, Good, MapWalk, Path, Placed;
    var root := m.spaces[a];
    PathDigits(va);
    PM.Indices(va);
    SpaceCount(m, a);
    RootAlone(m, a);
    forall p | p in Used(pages) ensures p !in Tree(m.mem, root) && p != root {
      FreshUnreached(m, p);
    }
    MapWalkMem(m, root, Path(va), 0, pages, frame, flags);
    MapPlaced(m.mem, m.count, root, UserHalf(m.mem, root), true, Path(va), 0, pages, frame, flags);
  }

  /** After vm_map_page, whether or not tables are shared: an access that comes through the
      table written, by the indices of the address mapped, reads the page; every other access, of
      every space, reads what it did. */
  lemma {:induction false} MapSeen(m: Machine, a: nat, va: nat, pages: seq<nat>, frame: nat, flags: Entry, b: nat, va': nat)
    requires MapCase(m, a, va, pages, frame, flags) && b < |m.spaces| && va' < USER_TOP
    ensures var (t, d) := Target(m.mem, m.spaces[a], Path(va), 0);
      Load(MapWalk(m, m.spaces[a], Path(va), 0, pages, frame, flags).0, b, va') ==
      if Through(m, b, t, d, va, va') then LeafByte(m.mem, PM.LeafEntry(frame, flags), va' % PAGE_SIZE) else Load(m, b, va')
  {
    hide Inv, Reach, MapWalk, Path, Leads, LoadAt, Chain;
    var root := m.spaces[b];
    PathDigits(va');
    SpaceCount(m, b);
    forall p | p in Used(pages) ensures p !in Tree(m.mem, root) && p != root {
      FreshUnreached(m, p);
    }
    MapTarget(m, a, va, pages, frame, flags);
    var (t, d) := Target(m.mem, m.spaces[a], Path(va), 0);
    var mem' := MapWalk(m, m.spaces[a], Path(va), 0, pages, frame, flags).0.mem;
    PlacedRoot(m.mem, mem', t, Path(va)[d..], PM.LeafEntry(frame, flags), Used(pages), root, Path(va'), va' % PAGE_SIZE);
    PlacedByte(m.mem, mem', t, Path(va)[d..], PM.LeafEntry(frame, flags), Used(pages), frame, va' % PAGE_SIZE);
  }

  /** Whoever shares the table that vm_map_page writes for one space reads the page mapped, too, at
      the address that leads through it. */
  lemma {:induction false} SharedTableShows(m: Machine, a: nat, va: nat, pages: seq<nat>, frame: nat, flags: Entry, b: nat, va': nat)
    requires MapCase(m, a, va, pages, frame, flags) && b < |m.spaces| && va' < USER_TOP && flags.user
    requires var (t, d) := Target(m.mem, m.spaces[a], Path(va), 0); Through(m, b, t, d, va, va')
    ensures Load(MapWalk(m, m.spaces[a], Path(va), 0, pages, frame, flags).0, b, va') == ByteAt(m.mem, frame, va' % PAGE_SIZE)
  {
    hide Inv, MapWalk, Path, Leads, LoadAt;
    MapSeen(m, a, va, pages, frame, flags, b, va');
  }

  /** There is one way only to the table that vm_map_page writes: no other space reaches it at its
      depth, nor does the space itself at another place. */
  ghost predicate Private(m: Machine, a: nat, va: nat)
    requires a < |m.spaces|
  {
    var (t, d) := Target(m.mem, m.spaces[a], Path(va), 0);
    forall b: nat, q: seq<nat> | b < |m.spaces| && |q| == d && (q == [] || q[0] < USER_ENTRIES) && (b != a || q != Path(va)[..d]) ::
      Leads(m.mem, m.spaces[b], q) != Some(t)
  }

  /** Every other page of every space reads as before. */
  ghost predicate Unseen(m: Machine, m': Machine, a: nat, va: nat)
  {
    && m'.spaces == m.spaces
    && forall b: nat, va': nat | b < |m.spaces| && va' < USER_TOP && (b != a || va' / PAGE_SIZE != va / PAGE_SIZE) ::
         Load(m', b, va') == Load(m, b, va')
  }

  /** A private table is enough ... */
  lemma {:induction false} PrivateUnseen(m: Machine, a: nat, va: nat, pages: seq<nat>, frame: nat, flags: Entry)
    requires MapCase(m, a, va, pages, frame, flags) && Private(m, a, va)
    ensures Unseen(m, MapWalk(m, m.spaces[a], Path(va), 0, pages, frame, flags).0, a, va)
  {
    hide Inv, MapWalk, Path, Leads, Load;
    var m' := MapWalk(m, m.spaces[a], Path(va), 0, pages, frame, flags).0;
    var (t, d) := Target(m.mem, m.spaces[a], Path(va), 0);
    forall b: nat, va': nat | b < |m.spaces| && va' < USER_TOP && (b != a || va' / PAGE_SIZE != va / PAGE_SIZE)
      ensures Load(m', b, va') == Load(m, b, va')
    {
      MapSeen(m, a, va, pages, frame, flags, b, va');
      if Through(m, b, t, d, va, va') {
        PathDigits(va');
        Halves(Path(va'), Path(va), d);
        PageOf(va, va');
      }
    }
  }

  lemma Halves(p: seq<nat>, q: seq<nat>, d: nat)
    requires d < |p| == |q| && p[d..] == q[d..]
    ensures p[..d] == q[..d] ==> p == q
    ensures d > 0 ==> p[..d][0] == p[0]
  {
    assert p == p[..d] + p[d..] && q == q[..d] + q[d..];
  }

  /** The user address with the given indices. */
  function AddressOf(q: seq<nat>): (va: nat)
    requires |q| == 4
  {
    (((q[0] * 512 + q[1]) * 512 + q[2]) * 512 + q[3]) * PAGE_SIZE
  }

  lemma AddressPath(q: seq<nat>)
    requires |q| == 4 && q[0] < USER_ENTRIES && q[1] < ENTRIES && q[2] < ENTRIES && q[3] < ENTRIES
    ensures AddressOf(q) < USER_TOP && Path(AddressOf(q)) == q
  {
    hide Path, PM.Span, AddressOf;
    var n1 := q[0] * ENTRIES + q[1];
    var n2 := n1 * ENTRIES + q[2];
    var va, p := AddressOf(q), Path(AddressOf(q));
    AddressPage(q, n1, n2);
    PM.Indices(va);
    PM.SameDigits(va / PM.Span(2), p[3], n2, q[3]);
    PM.SameDigits(va / PM.Span(1), p[2], n1, q[2]);
    PM.SameDigits(va / PM.Span(0), p[1], q[0], q[1]);
    PM.SameDigits(va / PM.LOW_HALF, p[0], 0, q[0]);
    assert p == [p[0], p[1], p[2], p[3]] && q == [q[0], q[1], q[2], q[3]];
  }

  lemma AddressPage(q: seq<nat>, n1: nat, n2: nat)
    requires |q| == 4 && q[0] < USER_ENTRIES && q[1] < ENTRIES && q[2] < ENTRIES && q[3] < ENTRIES
    requires n1 == q[0] * ENTRIES + q[1] && n2 == n1 * ENTRIES + q[2]
    ensures AddressOf(q) / PM.Span(3) == n2 * ENTRIES + q[3] && AddressOf(q) < USER_TOP
  {
  }

  lemma {:induction false} LeadsIndices(mem: Mem, count: multiset<nat>, t: nat, es: seq<Entry>, level: nat, w: bool, q: seq<nat>)
    requires Good(mem, count, es, level, w) && es <= Entries(mem, t) && |q| < level && |es| <= ENTRIES
    requires q != [] ==> q[0] < |es|
    requires Leads(mem, t, q).Some?
    ensures forall j | 0 <= j < |q| :: q[j] < ENTRIES
    decreases |q|
  {
    if q != [] {
      var e := es[q[0]];
      assert GoodEntry(mem, count, e, level, w);
      if |q| > 1 {
        LeadsDeeper(mem, e.frame, q[1..]);
        LeadsIndices(mem, count, e.frame, mem[e.frame].entries, level - 1, w && e.rw, q[1..]);
      }
    }
  }

  lemma LeadsDeeper(mem: Mem, t: nat, q: seq<nat>)
    requires q != [] && Leads(mem, t, q).Some?
    ensures q[0] < |Entries(mem, t)|
  {
  }

  /** Nothing is read through an absent entry. */
  lemma {:induction false} AbsentLoad(mem: Mem, from: nat, q: seq<nat>, d: nat, t: nat, off: nat)
    requires d < |q| && Leads(mem, from, q[..d]) == Some(t)
    requires q[d] < |Entries(mem, t)| && !Entries(mem, t)[q[d]].present
    ensures LoadAt(mem, Entries(mem, from), |q|, q, off) == None
    decreases d
  {
    if d > 0 {
      assert q[..d][1..] == q[1..][..d - 1] && q[..d][0] == q[0];
      AbsentLoad(mem, Entries(mem, from)[q[0]].frame, q[1..], d - 1, t, off);
    }
  }

  /** ... and needed: a page mapped for user code where nothing was mapped is seen elsewhere if
      the table written is reached in another way. */
  lemma {:induction false} SharedSeen(m: Machine, a: nat, va: nat, pages: seq<nat>, frame: nat, flags: Entry, b: nat, q: seq<nat>)
    requires MapCase(m, a, va, pages, frame, flags) && flags.user && |m.mem[frame].bytes| == PAGE_SIZE
    requires var (t, d) := Target(m.mem, m.spaces[a], Path(va), 0);
      && Path(va)[d] < |Entries(m.mem, t)| && !Entries(m.mem, t)[Path(va)[d]].present
      && b < |m.spaces| && |q| == d && (q == [] || q[0] < USER_ENTRIES) && (b != a || q != Path(va)[..d])
      && Leads(m.mem, m.spaces[b], q) == Some(t)
    ensures !Unseen(m, MapWalk(m, m.spaces[a], Path(va), 0, pages, frame, flags).0, a, va)
  {
    hide Inv, MapWalk, Path, Leads, LoadAt, Good, Reach;
    var (t, d) := Target(m.mem, m.spaces[a], Path(va), 0);
    var p := Path(va);
    PathDigits(va);
    PM.Indices(va);
    SpaceCount(m, b);
    LeadsIndices(m.mem, m.count, m.spaces[b], UserHalf(m.mem, m.spaces[b]), 4, true, q);
    var p' := q + p[d..];
    AddressPath(p');
    var va' := AddressOf(p');
    assert p'[..d] == q && p'[d..] == p[d..] && p'[d] == p[d];
    SharedTableShows(m, a, va, pages, frame, flags, b, va');
    AbsentLoad(m.mem, m.spaces[b], p', d, t, va' % PAGE_SIZE);
    HalfLoad(m.mem, m.spaces[b], p', va' % PAGE_SIZE);
    PageOf(va, va');
    assert Load(m, b, va') == None && ByteAt(m.mem, frame, va' % PAGE_SIZE).Some?;
  }

  /** Exactly then is a new mapping of a page, for user code, a matter of its space alone. */
  lemma {:induction false} MapUnseenExactly(m: Machine, a: nat, va: nat, pages: seq<nat>, frame: nat, flags: Entry)
    requires MapCase(m, a, va, pages, frame, flags) && flags.user && |m.mem[frame].bytes| == PAGE_SIZE
    requires var (t, d) := Target(m.mem, m.spaces[a], Path(va), 0);
      Path(va)[d] < |Entries(m.mem, t)| && !Entries(m.mem, t)[Path(va)[d]].present
    ensures Unseen(m, MapWalk(m, m.spaces[a], Path(va), 0, pages, frame, flags).0, a, va) <==> Private(m, a, va)
  {
    hide Inv, MapWalk, Path, Leads, Unseen, Target;
    if Private(m, a, va) {
      PrivateUnseen(m, a, va, pages, frame, flags);
    } else {
      var (t, d) := Target(m.mem, m.spaces[a], Path(va), 0);
      var b: nat, q: seq<nat> :| b < |m.spaces| && |q| == d && (q == [] || q[0] < USER_ENTRIES) && (b != a || q != Path(va)[..d])
                                 && Leads(m.mem, m.spaces[b], q) == Some(t);
      SharedSeen(m, a, va, pages, frame, flags, b, q);
    }
  }

  /** A table that an access reaches is in the tree. */
  lemma {:induction false} LeadsReach(mem: Mem, t: nat, es: seq<Entry>, level: nat, q: seq<nat>)
    requires es <= Entries(mem, t) && 0 < |q| <= level && q[0] < |es| && Leads(mem, t, q).Some?
    ensures Leads(mem, t, q).value in Reach(mem, es, level)
    decreases |q|
  {
    hide Reach, Child;
    var e := es[q[0]];
    EntryInReach(mem, es, q[0], level);
    if |q| > 1 {
      LeadsDeeper(mem, e.frame, q[1..]);
      LeadsReach(mem, e.frame, Entries(mem, e.frame), level - 1, q[1..]);
    } else {
      assert q[1..] == [];
    }
  }

  lemma LeadsInChild(mem: Mem, t: nat, es: seq<Entry>, level: nat, q: seq<nat>)
    requires es <= Entries(mem, t) && 0 < |q| <= level && q[0] < |es| && Leads(mem, t, q).Some?
    ensures Leads(mem, t, q).value in Child(mem, es[q[0]], level)
  {
    hide Reach;
    var e := es[q[0]];
    if |q| > 1 {
      LeadsDeeper(mem, e.frame, q[1..]);
      LeadsReach(mem, e.frame, Entries(mem, e.frame), level - 1, q[1..]);
    } else {
      assert q[1..] == [];
    }
  }

  /** One that is reached in two ways is in the tree twice. */
  lemma {:induction false} LeadsTwice(mem: Mem, t: nat, es: seq<Entry>, level: nat, q: seq<nat>, q': seq<nat>)
    requires es <= Entries(mem, t) && 0 < |q| == |q'| <= level && q[0] < |es| && q'[0] < |es| && q != q'
    requires Leads(mem, t, q).Some? && Leads(mem, t, q) == Leads(mem, t, q')
    ensures Reach(mem, es, level)[Leads(mem, t, q).value] >= 2
    decreases |q|
  {
    hide Reach, Child;
    var f, e := Leads(mem, t, q).value, es[q[0]];
    assert q == [q[0]] + q[1..] && q' == [q'[0]] + q'[1..];
    if q[0] == q'[0] {
      LeadsDeeper(mem, e.frame, q[1..]);
      LeadsDeeper(mem, e.frame, q'[1..]);
      LeadsTwice(mem, e.frame, Entries(mem, e.frame), level - 1, q[1..], q'[1..]);
      EntryInReach(mem, es, q[0], level);
    } else {
      LeadsInChild(mem, t, es, level, q);
      LeadsInChild(mem, t, es, level, q');
      TwoChildrenInReach(mem, es, q[0], q'[0], level, f);
    }
  }

  /** So a table that is in no other space's tree, and once in its own, is private; as is the
      space's own PML4T. */
  lemma {:induction false} AloneIsPrivate(m: Machine, a: nat, va: nat)
    requires Inv(m) && a < |m.spaces| && va < USER_TOP
    requires var (t, d) := Target(m.mem, m.spaces[a], Path(va), 0);
      && Leads(m.mem, m.spaces[a], Path(va)[..d]) == Some(t)
      && (d > 0 ==> Tree(m.mem, m.spaces[a])[t] == 1)
      && forall b | 0 <= b < |m.spaces| && b != a :: t !in Tree(m.mem, m.spaces[b])
    ensures Private(m, a, va)
  {
    hide Inv, Reach, Path, Target, Leads;
    var (t, d) := Target(m.mem, m.spaces[a], Path(va), 0);
    RootAlone(m, a);
    PathDigits(va);
    TargetRoot(m.mem, m.spaces[a], Path(va));
    forall b: nat, q: seq<nat> | b < |m.spaces| && |q| == d && (q == [] || q[0] < USER_ENTRIES) && (b != a || q != Path(va)[..d])
      ensures Leads(m.mem, m.spaces[b], q) != Some(t)
    {
      SpaceCount(m, b);
      OneWay(m, a, b, t, Path(va)[..d], q);
    }
  }

  lemma TargetRoot(mem: Mem, root: nat, path: seq<nat>)
    requires |path| == 4
    ensures var (t, d) := Target(mem, root, path, 0); d == 0 ==> t == root
    ensures Leads(mem, root, []) == Some(root)
  {
  }

  lemma {:induction false} OneWay(m: Machine, a: nat, b: nat, t: nat, p: seq<nat>, q: seq<nat>)
    requires Inv(m) && a < |m.spaces| && b < |m.spaces| && |p| == |q| < 4 && (b != a || q != p)
    requires p != [] ==> p[0] < USER_ENTRIES && q[0] < USER_ENTRIES && Tree(m.mem, m.spaces[a])[t] == 1
    requires Leads(m.mem, m.spaces[a], p) == Some(t)
    requires forall c | 0 <= c < |m.spaces| && c != a :: t !in Tree(m.mem, m.spaces[c])
    ensures Leads(m.mem, m.spaces[b], q) != Some(t)
  {
    hide Inv, Reach, Good;
    RootAlone(m, a);
    SpaceCount(m, b);
    if p != [] && Leads(m.mem, m.spaces[b], q) == Some(t) {
      if b == a {
        LeadsTwice(m.mem, m.spaces[a], UserHalf(m.mem, m.spaces[a]), 4, p, q);
      } else {
        LeadsReach(m.mem, m.spaces[b], UserHalf(m.mem, m.spaces[b]), 4, q);
      }
    }
  }

  /* ---------- after a fork ---------- */

  /** The way of a mapping to the table it writes is one that user accesses take. */
  lemma {:induction false} TargetLeads(mem: Mem, count: multiset<nat>, t: nat, es: seq<Entry>, w: bool, path: seq<nat>, depth: nat)
    requires depth < |path| == 4 && es <= Entries(mem, t) && path[depth] < |es|
    requires forall j | 0 <= j < 4 :: path[j] < ENTRIES
    requires Good(mem, count, es, 4 - depth, w)
    ensures var (t', d) := Target(mem, t, path, depth);
      Leads(mem, t, path[depth..d]) == Some(t') && (es[path[depth]].present && depth < 3 ==> d > depth)
    decreases 4 - depth
  {
    var e := es[path[depth]];
    assert GoodEntry(mem, count, e, 4 - depth, w);
    if depth < 3 && e.present {
      TargetLeads(mem, count, e.frame, mem[e.frame].entries, w && e.rw, path, depth + 1);
      var d := Target(mem, t, path, depth).1;
      assert path[depth..d][0] == path[depth] && path[depth..d][1..] == path[depth + 1..d];
    }
  }

  /** Two spaces with the same user entries share every table below their PML4Ts. */
  lemma {:induction false} TwinsShare(m: Machine, a: nat, b: nat, va: nat)
    requires Inv(m) && a < |m.spaces| && b < |m.spaces| && a != b && va < USER_TOP
    requires UserHalf(m.mem, m.spaces[a]) == UserHalf(m.mem, m.spaces[b])
    requires Path(va)[0] < |UserHalf(m.mem, m.spaces[a])| && UserHalf(m.mem, m.spaces[a])[Path(va)[0]].present
    ensures var (t, d) := Target(m.mem, m.spaces[a], Path(va), 0);
      d > 0 && Leads(m.mem, m.spaces[b], Path(va)[..d]) == Some(t)
    ensures !Private(m, a, va)
  {
    hide Inv, Reach, Good, Path, Target;
    var (t, d) := Target(m.mem, m.spaces[a], Path(va), 0);
    PathDigits(va);
    PM.Indices(va);
    SpaceCount(m, a);
    var es := UserHalf(m.mem, m.spaces[a]);
    TargetLeads(m.mem, m.count, m.spaces[a], es, true, Path(va), 0);
    assert Path(va)[0..d] == Path(va)[..d];
    SameFirst(m.mem, m.spaces[a], m.spaces[b], es, Path(va)[..d]);
  }

  lemma SameFirst(mem: Mem, x: nat, y: nat, es: seq<Entry>, q: seq<nat>)
    requires es <= Entries(mem, x) && es <= Entries(mem, y) && q != [] && q[0] < |es|
    ensures Leads(mem, x, q) == Leads(mem, y, q)
  {
  }

  /** A fork leaves parent and child with the same user entries. */
  lemma {:induction false} CloneTwins(m: Machine, a: nat, root: nat, tlp: nat)
    requires Inv(m) && a < |m.spaces| && CloneAllocOk(m, root, tlp) && root != 0 && tlp != 0
    ensures var m1 := Clone(m, a, root, tlp, true);
      && m1.spaces == m.spaces + [root]
      && UserHalf(m1.mem, root) == UserHalf(m1.mem, m.spaces[a])
      && |UserHalf(m1.mem, root)| == USER_ENTRIES == |UserHalf(m.mem, m.spaces[a])|
      && forall i | 0 <= i < USER_ENTRIES :: UserHalf(m1.mem, root)[i].present == UserHalf(m.mem, m.spaces[a])[i].present
  {
    hide Inv, Tree;
    var c := Table(seq(ENTRIES, _ => NO_ENTRY));
    FreshUnreached(m, tlp);
    FreshUnreached(m, root);
    SpaceTable(m, a);
    var parent := m.spaces[a];
    var m2 := Mark(Take(m, tlp, c), parent);
    assert Entries(m2.mem, parent) == MarkEntries(Entries(m.mem, parent));
  }

  predicate Pair(x: nat, y: nat, a: nat, b: nat)
  {
    (x == a && y == b) || (x == b && y == a)
  }

  /** After a fork a mapping in one of the two spaces, at an address whose PML4T entry was present,
      is a mapping in the other: the table written is shared, and what was read there is replaced. */
  lemma {:induction false} ForkShares(m: Machine, a: nat, root: nat, tlp: nat, c: nat, c': nat, va: nat, pages: seq<nat>, frame: nat, flags: Entry)
    requires Inv(m) && a < |m.spaces| && CloneAllocOk(m, root, tlp) && root != 0 && tlp != 0
    requires Pair(c, c', a, |m.spaces|) && va < USER_TOP
    requires Path(va)[0] < |UserHalf(m.mem, m.spaces[a])| && UserHalf(m.mem, m.spaces[a])[Path(va)[0]].present
    requires MapCase(Clone(m, a, root, tlp, true), c, va, pages, frame, flags) && flags.user
    ensures var m1 := Clone(m, a, root, tlp, true);
      var m2 := MapWalk(m1, m1.spaces[c], Path(va), 0, pages, frame, flags).0;
      && !Private(m1, c, va)
      && Load(m2, c', va) == ByteAt(m1.mem, frame, va % PAGE_SIZE)
      && (Load(m, a, va) == None && |m1.mem[frame].bytes| == PAGE_SIZE ==> !Unseen(m1, m2, c, va))
  {
    hide Inv, Clone, MapWalk, Path, Private, Leads, UserHalf, Load, Target, MayWrite, Unseen, CloneAllocOk;
    var m1 := Clone(m, a, root, tlp, true);
    ForkTwins(m, a, root, tlp, c, c', va);
    SharedTableShows(m1, c, va, pages, frame, flags, c', va);
    CloneLoad(m, a, root, tlp, true, c', va);
    SeenThere(m1, MapWalk(m1, m1.spaces[c], Path(va), 0, pages, frame, flags).0, c, c', va);
    assert va % PAGE_SIZE < PAGE_SIZE;
  }

  lemma SeenThere(m: Machine, m': Machine, a: nat, b: nat, va: nat)
    requires b < |m.spaces| && m'.spaces == m.spaces && b != a && va < USER_TOP
    ensures Load(m', b, va) != Load(m, b, va) ==> !Unseen(m, m', a, va)
  {
    hide Load;
  }

  lemma {:induction false} ForkTwins(m: Machine, a: nat, root: nat, tlp: nat, c: nat, c': nat, va: nat)
    requires Inv(m) && a < |m.spaces| && CloneAllocOk(m, root, tlp) && root != 0 && tlp != 0
    requires Pair(c, c', a, |m.spaces|) && va < USER_TOP
    requires Path(va)[0] < |UserHalf(m.mem, m.spaces[a])| && UserHalf(m.mem, m.spaces[a])[Path(va)[0]].present
    ensures var m1 := Clone(m, a, root, tlp, true);
      && c < |m1.spaces| && c' < |m1.spaces| && c != c' && !Private(m1, c, va)
      && var (t, d) := Target(m1.mem, m1.spaces[c], Path(va), 0);
         Leads(m1.mem, m1.spaces[c'], Path(va)[..d]) == Some(t)
  {
    hide Inv, Clone, Path, Private, Leads, UserHalf, Target;
    var m1 := Clone(m, a, root, tlp, true);
    CloneInv(m, a, root, tlp, true);
    CloneTwins(m, a, root, tlp);
    TwinsShare(m1, c, c', va);
  }

  /** With memory at hand, mapping succeeds, on shared tables too. */
  lemma {:induction false} MapFromDone(mem: Mem, count: multiset<nat>, t: nat, es: seq<Entry>, w: bool, path: seq<nat>, depth: nat,
                                       pages: seq<nat>, frame: nat, flags: Entry)
    requires depth < |path| == |pages| == 4 && (forall j | 0 <= j < 4 :: path[j] < ENTRIES) && !flags.size
    requires es <= Entries(mem, t) && path[depth] < |es| && Good(mem, count, es, 4 - depth, w)
    requires forall c | 0 <= c < 3 :: pages[c] != 0
    requires t !in Used(pages) && forall c, d | 0 <= c < d < 4 && pages[d] != 0 :: pages[c] != pages[d]
    requires forall p | p in Used(pages) :: p !in Reach(mem, es, 4 - depth)
    ensures PM.MapFrom(mem, t, path, depth, pages, frame, flags).1.Done?
    decreases 4 - depth
  {
    hide Reach, Child, Used;
    var e := es[path[depth]];
    assert GoodEntry(mem, count, e, 4 - depth, w);
    if depth < 3 {
      if e.present {
        EntryInReach(mem, es, path[depth], 4 - depth);
        MapFromDone(mem, count, e.frame, mem[e.frame].entries, w && e.rw, path, depth + 1, pages, frame, flags);
      } else {
        var page := pages[depth];
        UsedIs(pages, depth);
        var mem1 := mem[page := Table(PM.EmptyTable())][t := Table(Entries(mem, t)[path[depth] := PM.TableEntry(page, flags)])];
        EmptyDone(mem1, page, path, depth + 1, pages, frame, flags);
      }
    }
  }

  lemma UsedIs(pages: seq<nat>, d: nat)
    requires d < |pages| && pages[d] != 0
    ensures pages[d] in Used(pages)
  {
  }

  lemma {:induction false} EmptyDone(mem: Mem, t: nat, path: seq<nat>, depth: nat, pages: seq<nat>, frame: nat, flags: Entry)
    requires depth < |path| == |pages| == 4 && (forall j | 0 <= j < 4 :: path[j] < ENTRIES) && !flags.size
    requires t in mem && mem[t] == Table(PM.EmptyTable())
    requires forall c | 0 <= c < 3 :: pages[c] != 0
    requires forall d | depth <= d < 4 && pages[d] != 0 :: pages[d] != t
    requires forall c, d | 0 <= c < d < 4 && pages[d] != 0 :: pages[c] != pages[d]
    ensures PM.MapFrom(mem, t, path, depth, pages, frame, flags).1.Done?
    decreases 4 - depth
  {
    if depth < 3 {
      var page := pages[depth];
      var mem1 := mem[page := Table(PM.EmptyTable())][t := Table(PM.EmptyTable()[path[depth] := PM.TableEntry(page, flags)])];
      EmptyDone(mem1, page, path, depth + 1, pages, frame, flags);
    }
  }

  const READ_WRITE: Entry := Entry(0, false, true, true, false, false, 0)

  /** Space 1 maps a page at PAGE_SIZE, and space 0, which read nothing there, reads it. */
  ghost predicate Intrudes(m: Machine, pages: seq<nat>, frame: nat)
  {
    && |m.spaces| == 2 && MapCase(m, 1, PAGE_SIZE, pages, frame, READ_WRITE)
    && Load(m, 0, PAGE_SIZE) == None
    && Load(MapWalk(m, m.spaces[1], Path(PAGE_SIZE), 0, pages, frame, READ_WRITE).0, 0, PAGE_SIZE).Some?
  }

  lemma {:induction false} ForkThenMap(m: Machine, first: nat) returns (pages: seq<nat>, frame: nat)
    requires OnePage(m, first) && first > 0
    ensures Allowed(m, Fork(0, first, first + 1, true))
    ensures Intrudes(Clone(m, 0, first, first + 1, true), pages, frame)
  {
    hide Inv, Load, MayWrite, Clone, MapWalk, UserHalf, Path, Private, Unseen, MapCase, Tree, OnePage;
    pages := [first + 2, first + 3, first + 4, 0];
    frame := ForkedPage(m, first);
    OnePageSpace(m, first);
    ForkPages(m, Clone(m, 0, first, first + 1, true), first, pages, frame);
    MapAfterFork(m, first, pages, frame);
  }

  lemma {:induction false} ForkedPage(m: Machine, first: nat) returns (frame: nat)
    requires OnePage(m, first) && first > 0
    ensures Allowed(m, Fork(0, first, first + 1, true))
    ensures var m1 := Clone(m, 0, first, first + 1, true);
      && Inv(m1) && |m1.spaces| == 2
      && frame in m1.mem && m1.mem[frame].Page? && |m1.mem[frame].bytes| == PAGE_SIZE && frame in Tree(m1.mem, m1.spaces[1])
  {
    hide Inv, Load, MayWrite, Clone, Translate, Tree;
    var m1 := Clone(m, 0, first, first + 1, true);
    CloneInv(m, 0, first, first + 1, true);
    CloneLoad(m, 0, first, first + 1, true, 1, 0);
    LoadTranslates(m1, 1, 0);
    TranslateOwned(m1, 1, 0);
    frame := Translate(m1, 1, 0).frame;
  }

  lemma {:induction false} MapAfterFork(m: Machine, first: nat, pages: seq<nat>, frame: nat)
    requires OnePage(m, first) && first > 0
    requires MapCase(Clone(m, 0, first, first + 1, true), 1, PAGE_SIZE, pages, frame, READ_WRITE)
    requires |Clone(m, 0, first, first + 1, true).mem[frame].bytes| == PAGE_SIZE
    ensures Intrudes(Clone(m, 0, first, first + 1, true), pages, frame)
  {
    hide Inv, Load, MayWrite, Clone, MapWalk, UserHalf, Path, Private, Unseen, Used, Answered;
    CloneLoad(m, 0, first, first + 1, true, 0, PAGE_SIZE);
    FirstSlot(m, first);
    ForkShares(m, 0, first, first + 1, 1, 0, PAGE_SIZE, pages, frame, READ_WRITE);
  }

  lemma LoadTranslates(m: Machine, a: nat, va: nat)
    requires a < |m.spaces| && Load(m, a, va).Some?
    ensures Translate(m, a, va).Hit?
  {
  }

  /** The PML4T entry for address 0 serves the next page, too. */
  lemma FirstSlot(m: Machine, first: nat)
    requires OnePage(m, first)
    ensures var es := UserHalf(m.mem, m.spaces[0]); Path(PAGE_SIZE)[0] < |es| && es[Path(PAGE_SIZE)[0]].present
  {
    hide Inv;
    assert Path(PAGE_SIZE)[0] == Path(0)[0];
  }

  lemma {:induction false} ForkPages(m: Machine, m1: Machine, first: nat, pages: seq<nat>, frame: nat)
    requires OnePage(m, first) && first > 0 && m1 == Clone(m, 0, first, first + 1, true) && Inv(m1) && |m1.spaces| == 2
    requires pages == [first + 2, first + 3, first + 4, 0]
    requires frame in m1.mem && m1.mem[frame].Page? && frame in Tree(m1.mem, m1.spaces[1])
    ensures MapCase(m1, 1, PAGE_SIZE, pages, frame, READ_WRITE)
  {
    hide Inv, Load, MayWrite, Clone, MapWalk, Path, Good, Reach;
    var root := m1.spaces[1];
    forall d | 0 <= d < 3 ensures pages[d] !in m1.count {
      CloneFresh(m, 0, first, first + 1, pages[d]);
    }
    forall p | p in Used(pages) ensures p !in m1.count && p != root && p !in Tree(m1.mem, root) {
      FreshUnreached(m1, p);
    }
    SpaceCount(m1, 1);
    PathDigits(PAGE_SIZE);
    PM.Indices(PAGE_SIZE);
    MapFromDone(m1.mem, m1.count, root, UserHalf(m1.mem, root), true, Path(PAGE_SIZE), 0, pages, frame, READ_WRITE);
    MapWalkMem(m1, root, Path(PAGE_SIZE), 0, pages, frame, READ_WRITE);
  }

  /** There are such machines: from every machine with an empty space a run of three steps leads to
      one in which a mapping by the child shows in the parent. */
  lemma {:induction false} IntrusionReached(mem: Mem, root: nat)
    requires |Entries(mem, root)| == ENTRIES && forall i | 0 <= i < USER_ENTRIES :: !Entries(mem, root)[i].present
    ensures exists ops, pages, frame :: Runs(Boot(mem, root), ops) && Intrudes(Run(Boot(mem, root), ops), pages, frame)
  {
    hide Step, OnePage, Inv, FaultOk, CloneAllocOk, MapOk, UnmapOk, FrameOk, Intrudes;
    var m := Boot(mem, root);
    MapReadOnly(mem, root);
    var bytes: seq<bv8> := seq(PAGE_SIZE, _ => 0);
    var o0, o1 := Grab(root + 1, bytes), Map(0, 0, [root + 2, root + 3, root + 4, 0], root + 1, READ_ONLY);
    var m1 := Step(m, o0);
    var m2 := Step(m1, o1);
    var first := root + 5;
    var o2 := Fork(0, first, first + 1, true);
    OnePageSpace(m2, first);
    var pages, frame := ForkThenMap(m2, first);
    ForkStep(m2, first);
    ThreeSteps(m, m1, m2, o0, o1, o2);
    assert Intrudes(Run(m, [o0, o1, o2]), pages, frame);
  }

  lemma ForkStep(m: Machine, first: nat)
    requires |m.spaces| == 1
    ensures Step(m, Fork(0, first, first + 1, true)) == Clone(m, 0, first, first + 1, true)
  {
    hide Clone;
  }

  lemma ThreeSteps(m: Machine, m1: Machine, m2: Machine, o0: Op, o1: Op, o2: Op)
    requires Allowed(m, o0) && m1 == Step(m, o0) && Allowed(m1, o1) && m2 == Step(m1, o1) && Allowed(m2, o2)
    ensures Runs(m, [o0, o1, o2]) && Run(m, [o0, o1, o2]) == Step(m2, o2)
  {
    hide Step, FaultOk, CloneAllocOk, MapOk, UnmapOk, FrameOk;
    assert [o0, o1, o2][1..] == [o1, o2] && [o1, o2][1..] == [o2] && [o2][1..] == [];
    assert Runs(m2, [o2]) && Run(m2, [o2]) == Step(m2, o2);
    assert Runs(m1, [o1, o2]) && Run(m1, [o1, o2]) == Step(m2, o2);
  }

  /* ---------- vm_unmap_page ---------- */

  lemma {:induction false} UnmapPlaced(mem: Mem, count: multiset<nat>, t: nat, es: seq<Entry>, w: bool, path: seq<nat>, depth: nat)
    requires depth < |path| == 4 && forall j | 0 <= j < 4 :: path[j] < ENTRIES
    requires t in mem && mem[t].Table? && |mem[t].entries| == ENTRIES && es <= mem[t].entries && path[depth] < |es|
    requires Good(mem, count, es, 4 - depth, w)
    ensures var (t', d) := Target(mem, t, path, depth);
      var mem' := PM.UnmapFrom(mem, t, path, depth);
      if d == 3 then Placed(mem, mem', t', path[3..], NO_ENTRY, {}) else mem' == mem
    decreases 4 - depth
  {
    var i := path[depth];
    var e := es[i];
    assert GoodEntry(mem, count, e, 4 - depth, w);
    if depth == 3 {
      assert path[3..] == [i];
    } else if e.present {
      UnmapPlaced(mem, count, e.frame, mem[e.frame].entries, w && e.rw, path, depth + 1);
    }
  }

  /** After vm_unmap_page, shared tables or not: an access through the page table written, by the
      last index of the address, reads nothing; every other access reads what it did. */
  lemma {:induction false} UnmapSeen(m: Machine, a: nat, va: nat, b: nat, va': nat)
    requires Inv(m) && a < |m.spaces| && b < |m.spaces| && va < USER_TOP && va' < USER_TOP
    ensures var (t, d) := Target(m.mem, m.spaces[a], Path(va), 0);
      Load(UnmapWalk(m, m.spaces[a], Path(va), 0), b, va') ==
      if d == 3 && Through(m, b, t, d, va, va') then None else Load(m, b, va')
  {
    hide Inv, Reach, UnmapWalk, Path, Leads, LoadAt, Chain, Good;
    PathDigits(va);
    PathDigits(va');
    PM.Indices(va);
    SpaceCount(m, a);
    SpaceCount(m, b);
    var (t, d) := Target(m.mem, m.spaces[a], Path(va), 0);
    UnmapWalkMem(m, m.spaces[a], Path(va), 0);
    UnmapPlaced(m.mem, m.count, m.spaces[a], UserHalf(m.mem, m.spaces[a]), true, Path(va), 0);
    var mem' := UnmapWalk(m, m.spaces[a], Path(va), 0).mem;
    if d == 3 {
      PlacedRoot(m.mem, mem', t, Path(va)[3..], NO_ENTRY, {}, m.spaces[b], Path(va'), va' % PAGE_SIZE);
    }
  }
}
