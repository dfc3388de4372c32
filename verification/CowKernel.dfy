/**
 The kernel's own code for address spaces: the page frame allocator, the
 reference and release passes, the page fault handler, thread_clone and
 vm_unmap_user_mem, as imperative code proved to take the steps of the machine.
 */
module CowKernel {
  import opened PageTree
  import opened CowSpec
  import opened CowFault
  import opened CowSteps
  import opened CowMap
  import opened CowRun
  import opened CowKernelHalf
  import PM = PageMap

  /** The entries of a private copy of a paging structure. */
  method CopyTable(cp: seq<Entry>) returns (np: seq<Entry>)
    ensures np == CowEntries(cp)
  {
    var a := new Entry[|cp|](_ => NO_ENTRY);
    for i := 0 to |cp|
      invariant a[..i] == CowEntries(cp)[..i]
      invariant forall j | i <= j < |cp| :: a[j] == NO_ENTRY
    {
      if cp[i].present {
        a[i] := cp[i].(cow := true);
        a[i] := a[i].(rw := false);
      }
    }
    np := a[..];
    assert CowEntries(cp)[..|cp|] == CowEntries(cp);
  }

  method CopyFrame(c: Content) returns (c': Content)
    ensures c' == CowCopy(c)
  {
    match c {
      case Table(cp) =>
        var np := CopyTable(cp);
        c' := Table(np);
      case Page(_) =>
        c' := c;
    }
  }

  const HUGE_PAGE_SIZE: nat := 0x4000_0000
  const LARGE_PAGE_SIZE: nat := 0x20_0000

  class Kernel {
    var mem: Mem
    var count: multiset<nat>   // phys_alloc_table: how often each frame is referenced
    var next: nat              // next_phys_addr, as a frame number
    var limit: nat             // end of physical memory
    var avail: bool            // mem_avail
    var spaces: seq<nat>
    ghost var held: multiset<nat>

    ghost function State(): (m: Machine)
      reads this
    {
      Machine(mem, count, spaces, held)
    }

    /** Every frame below the allocator's cursor is in use. */
    ghost predicate Compact()
      reads `next, `count
    {
      forall f: nat | 0 < f < next :: f in count
    }

    /** Every frame of memory is in use. */
    ghost predicate Full()
      reads `limit, `count
    {
      forall f: nat | 0 < f <= limit :: f in count
    }

    /** Every frame of memory was in use before, or has been handed out. */
    ghost predicate Spent(before: multiset<nat>, pages: seq<nat>)
      reads `limit
    {
      forall f: nat | 0 < f <= limit :: f in before || f in pages
    }

    /** There is memory: the cursor has not passed the end, and a free frame lies at it or after it. */
    ghost predicate Available()
      reads `next, `limit, `avail, `count
    {
      avail && exists f: nat :: f != 0 && next <= f <= Last() && f !in count
    }

    /** The last frame the cursor will look at. */
    function Last(): (f: nat)
      reads `next, `limit
    {
      if next < limit then limit else next
    }

    /** A free frame at or after the cursor is found if there is one, the lowest of them. Once there
        is none, memory stays exhausted: freeing moves the cursor back but does not make
        memory available again. */
    method AllocPage() returns (page: nat)
      modifies `count, `next, `avail
      ensures page != 0 <==> old(Available())
      ensures page == 0 ==> count == old(count) && !avail
      ensures page != 0 ==> page !in old(count) && count == old(count) + multiset{page} && old(next) <= page
      ensures page != 0 ==> forall f: nat | f != 0 && old(next) <= f < page :: f in old(count)
      ensures old(Compact()) ==> Compact()
      ensures old(avail) && old(Compact()) && !avail ==> Full()
    {
      while avail
        invariant count == old(count) && (avail ==> old(avail)) && old(next) <= next && Last() == old(Last())
        invariant forall f: nat | f != 0 && old(next) <= f < next :: f in count
        invariant !avail ==> !old(Available())
        invariant old(avail) && old(Compact()) && !avail ==> Full()
        invariant old(Compact()) ==> Compact()
        decreases avail, limit - next
      {
        if next != 0 && next !in count {
          page := next;
          count := count + multiset{page};
          NextPage();
          return;
        }
        NextPage();
      }
      page := 0;
    }

    /** The same, as its callers need it: a page, or memory has run out. */
    method GetPage() returns (page: nat)
      modifies `count, `next, `avail
      ensures page == 0 ==> count == old(count) && !avail
      ensures page != 0 ==> page !in old(count) && count == old(count) + multiset{page}
      ensures old(Compact()) ==> Compact()
      ensures old(avail) && old(Compact()) && !avail ==> Spent(old(count), [page])
    {
      hide Compact, Available, Full, Spent;
      page := AllocPage();
      if old(avail) && old(Compact()) && !avail {
        SpentBy(old(count), page);
      }
    }

    /** Ask for a page, give up the last reference to frame f, and ask again: a refusal is repeated,
        though f is free now. */
    method AskAgain(f: nat) returns (page: nat, again: nat)
      requires f != 0 && count[f] == 1
      modifies `count, `next, `avail
      ensures page == 0 ==> again == 0 && f !in count && count == old(count) - multiset{f}
    {
      page := AllocPage();
      FreePage(f);
      again := AllocPage();
    }

    /** Frames are numbered without holes here. */
    method NextPage()
      requires avail
      modifies `next, `avail
      ensures next == if old(next) < limit then old(next) + 1 else old(next)
      ensures avail == (old(next) < limit)
    {
      if next < limit {
        next := next + 1;
      } else {
        avail := false;
      }
    }

    method RefPage(f: nat)
      modifies `count
      ensures Referenced(old(count), multiset{f}, count)
    {
      if f in count {
        count := count + multiset{f};
      }
    }

    method FreePage(f: nat)
      modifies `count, `next
      ensures count == old(count) - multiset{f}
      ensures old(Compact()) ==> Compact()
    {
      if f in count {
        count := count - multiset{f};
      }
      if f !in count && f < next {
        next := f;
      }
    }

    method RefPt(t: nat)
      modifies `count
      ensures Referenced(old(count), Reach(mem, Entries(mem, t), 1), count)
    {
      hide Reach, Child, Referenced;
      var es := Entries(mem, t);
      ReferencedNothing(mem, es, count, 1);
      for i := 0 to |es|
        invariant Referenced(old(count), Reach(mem, es[..i], 1), count)
      {
        ghost var before := count;
        if es[i].present {
          RefPage(es[i].frame);
          ghost var self := count;
          ReferencedChild(mem, es[i], 1, before, self, count);
        } else {
          ReferencedSkip(mem, es[i], 1, count);
        }
        ReferencedStep(mem, es, i, 1, old(count), before, count);
      }
      assert es[..|es|] == es;
    }

    method RefPdt(t: nat)
      modifies `count
      ensures Referenced(old(count), Reach(mem, Entries(mem, t), 2), count)
    {
      hide Reach, Child, Referenced;
      var es := Entries(mem, t);
      ReferencedNothing(mem, es, count, 2);
      for i := 0 to |es|
        invariant Referenced(old(count), Reach(mem, es[..i], 2), count)
      {
        ghost var before := count;
        if es[i].present && !es[i].size {
          RefPage(es[i].frame);
          ghost var self := count;
          RefPt(es[i].frame);
          ReferencedChild(mem, es[i], 2, before, self, count);
        } else {
          ReferencedSkip(mem, es[i], 2, count);
        }
        ReferencedStep(mem, es, i, 2, old(count), before, count);
      }
      assert es[..|es|] == es;
    }

    method RefPdpt(t: nat)
      modifies `count
      ensures Referenced(old(count), Reach(mem, Entries(mem, t), 3), count)
    {
      hide Reach, Child, Referenced;
      var es := Entries(mem, t);
      ReferencedNothing(mem, es, count, 3);
      for i := 0 to |es|
        invariant Referenced(old(count), Reach(mem, es[..i], 3), count)
      {
        ghost var before := count;
        if es[i].present && !es[i].size {
          RefPage(es[i].frame);
          ghost var self := count;
          RefPdt(es[i].frame);
          ReferencedChild(mem, es[i], 3, before, self, count);
        } else {
          ReferencedSkip(mem, es[i], 3, count);
        }
        ReferencedStep(mem, es, i, 3, old(count), before, count);
      }
      assert es[..|es|] == es;
    }

    method FreePt(t: nat)
      modifies `count, `next
      ensures Released(old(count), Reach(mem, Entries(mem, t), 1), count)
      ensures old(Compact()) ==> Compact()
    {
      hide Reach, Child, Released, Compact;
      var es := Entries(mem, t);
      ReleasedNothing(mem, es, count, 1);
      for i := 0 to |es|
        invariant Released(old(count), Reach(mem, es[..i], 1), count)
        invariant old(Compact()) ==> Compact()
      {
        ghost var before := count;
        if es[i].present {
          ghost var below := count;
          FreePage(es[i].frame);
          ReleasedChild(mem, es[i], 1, before, below, count);
        } else {
          ReleasedSkip(mem, es[i], 1, count);
        }
        ReleasedStep(mem, es, i, 1, old(count), before, count);
      }
      assert es[..|es|] == es;
    }

    method FreePdt(t: nat)
      modifies `count, `next
      ensures Released(old(count), Reach(mem, Entries(mem, t), 2), count)
      ensures old(Compact()) ==> Compact()
    {
      hide Reach, Child, Released, Compact;
      var es := Entries(mem, t);
      ReleasedNothing(mem, es, count, 2);
      for i := 0 to |es|
        invariant Released(old(count), Reach(mem, es[..i], 2), count)
        invariant old(Compact()) ==> Compact()
      {
        ghost var before := count;
        if es[i].present && !es[i].size {
          FreePt(es[i].frame);
          ghost var below := count;
          FreePage(es[i].frame);
          ReleasedChild(mem, es[i], 2, before, below, count);
        } else {
          ReleasedSkip(mem, es[i], 2, count);
        }
        ReleasedStep(mem, es, i, 2, old(count), before, count);
      }
      assert es[..|es|] == es;
    }

    method FreePdpt(t: nat)
      modifies `count, `next
      ensures Released(old(count), Reach(mem, Entries(mem, t), 3), count)
      ensures old(Compact()) ==> Compact()
    {
      hide Reach, Child, Released, Compact;
      var es := Entries(mem, t);
      ReleasedNothing(mem, es, count, 3);
      for i := 0 to |es|
        invariant Released(old(count), Reach(mem, es[..i], 3), count)
        invariant old(Compact()) ==> Compact()
      {
        ghost var before := count;
        if es[i].present && !es[i].size {
          FreePdt(es[i].frame);
          ghost var below := count;
          FreePage(es[i].frame);
          ReleasedChild(mem, es[i], 3, before, below, count);
        } else {
          ReleasedSkip(mem, es[i], 3, count);
        }
        ReleasedStep(mem, es, i, 3, old(count), before, count);
      }
      assert es[..|es|] == es;
    }

    /** One block of int_page_fault, for an entry marked copy-on-write. */
    method ResolveEntry(t: nat, i: nat) returns (page: nat)
      requires i < |Entries(mem, t)| && Entries(mem, t)[i].frame in mem
      modifies `mem, `count, `next, `avail
      ensures page == 0 ==> State() == old(State()) && !avail
      ensures page != 0 ==> page !in old(count) && State() == CowStep(old(State()), t, i, page)
      ensures old(Compact()) ==> Compact()
      ensures old(avail) && old(Compact()) && !avail ==> Spent(old(count), [page])
    {
      hide CowCopy, CowStep, Spent, Compact;
      page := GetPage();
      if page != 0 {
        CopyTo(t, i, page);
        CowStepIs(old(State()), t, i, page, mem, count);
      }
    }

    /** The copy, the reference given up, and the entry. */
    method CopyTo(t: nat, i: nat, page: nat)
      requires i < |Entries(mem, t)| && Entries(mem, t)[i].frame in mem
      modifies `mem, `count, `next
      ensures var e := old(Entries(mem, t)[i]);
        && mem == old(mem)[page := CowCopy(old(mem)[e.frame])][t := Table(old(Entries(mem, t))[i := e.(frame := page, rw := true, cow := false)])]
        && count == old(count) - multiset{e.frame}
      ensures old(Compact()) ==> Compact()
    {
      hide CowCopy, Compact;
      var es := Entries(mem, t);
      var e := es[i];
      var copy := CopyFrame(mem[e.frame]);
      mem := mem[page := copy];
      FreePage(e.frame);
      mem := mem[t := Table(es[i := e.(frame := page, rw := true, cow := false)])];
    }

    lemma SpentBy(before: multiset<nat>, page: nat)
      requires Full() && count == if page == 0 then before else before + multiset{page}
      ensures Spent(before, [page])
    {
    }

    lemma SpentNext(before: multiset<nat>, between: multiset<nat>, page: nat, rest: seq<nat>)
      requires between <= before + multiset{page} && Spent(between, rest)
      ensures Spent(before, [page] + rest)
    {
      forall f: nat | 0 < f <= limit ensures f in before || f in [page] + rest {
        assert f in between ==> f in before + multiset{page};
      }
    }

    lemma SpentAfter(before: multiset<nat>, page: nat, rest: seq<nat>)
      requires Spent(before, rest)
      ensures Spent(before, [page] + rest)
    {
    }

    lemma SpentMore(before: multiset<nat>, pages: seq<nat>, more: seq<nat>)
      requires Spent(before, pages)
      ensures Spent(before, pages + more)
    {
    }

    /** int_page_fault below table t: one block of the handler for each remaining index.
        The blocks differ in whether the size bit is looked at, and in whether a
        paging structure or a page is copied. */
    method ResolveFrom(t: nat, idx: seq<nat>) returns (retry: bool, ghost pages: seq<nat>)
      modifies `mem, `count, `next, `avail
      ensures |pages| == |idx|
      ensures AllocOk(old(State()), t, idx, pages)
      ensures (State(), retry) == FaultWalk(old(State()), t, idx, pages)
      ensures 0 in pages ==> !avail
      ensures old(avail) && old(Compact()) && !avail ==> Spent(old(count), pages)
      ensures old(Compact()) ==> Compact()
      decreases |idx|
    {
      hide CowStep, Compact, Spent;
      pages := seq(|idx|, _ => 1);
      retry := false;
      var es := Entries(mem, t);
      if idx == [] || idx[0] >= |es| { return; }
      var e := es[idx[0]];
      if !e.present || (2 <= |idx| <= 3 && e.size) { return; }
      ghost var rest;
      if e.cow {
        if e.frame !in mem { return; }
        var page := ResolveEntry(t, idx[0]);
        ghost var spent, before := old(avail) && old(Compact()) && !avail, count;
        if page == 0 {
          pages := [0] + seq(|idx| - 1, _ => 1);
          if spent { SpentMore(old(count), [0], pages[1..]); }
          return;
        }
        CowStepCount(old(State()), t, idx[0], page);
        retry := true;
        rest := [];
        if |idx| > 1 {
          retry, rest := ResolveFrom(page, idx[1..]);
        }
        pages := [page] + rest;
        if spent {
          SpentMore(old(count), [page], rest);
        } else if old(avail) && old(Compact()) && !avail {
          SpentNext(old(count), before, page, rest);
        }
      } else if |idx| > 1 {
        retry, rest := ResolveFrom(e.frame, idx[1..]);
        pages := [1] + rest;
        if old(avail) && old(Compact()) && !avail {
          SpentAfter(old(count), 1, rest);
        }
      }
    }

    /** int_page_fault for a user access at va by the thread of space a. */
    method PageFault(a: nat, va: nat) returns (retry: bool, ghost pages: seq<nat>)
      requires a < |spaces|
      modifies `mem, `count, `next, `avail
      ensures |pages| == 4 && Allowed(old(State()), Access(a, va, pages))
      ensures (State(), retry) == HandleFault(old(State()), a, va, pages)
      ensures 0 in pages ==> !avail && (old(avail) && old(Compact()) ==> Spent(old(count), pages))
      ensures old(Compact()) ==> Compact()
    {
      retry, pages := false, [1, 1, 1, 1];
      if va >= USER_TOP { return; }
      retry, pages := ResolveFrom(spaces[a], Path(va));
    }

    /** The loop body of vm_unmap_user_mem: entry i of the PML4T and what is below it. */
    method ReleaseEntry(root: nat, i: nat, ghost m: Machine, ghost a: nat)
      requires Inv(m) && a < |m.spaces| && root == m.spaces[a] && OnlyAt(m.mem, mem, root)
      requires i < |UserHalf(m.mem, root)| && i < |Entries(mem, root)| && Entries(mem, root)[i] == UserHalf(m.mem, root)[i]
      modifies `mem, `count, `next
      ensures Released(old(count), Child(m.mem, UserHalf(m.mem, root)[i], 4), count)
      ensures old(Compact()) ==> Compact()
      ensures var es := old(Entries(mem, root));
        mem == if es[i].present then old(mem)[root := Table(es[i := NO_ENTRY])] else old(mem)
    {
      hide Reach, Child, Inv, Released, UserHalf, Compact;
      var es := Entries(mem, root);
      ghost var before := count;
      if es[i].present {
        FreePdpt(es[i].frame);
        BelowRoot(m, a, mem, i);
        ghost var below := count;
        FreePage(es[i].frame);
        ReleasedChild(m.mem, es[i], 4, before, below, count);
        mem := mem[root := Table(es[i := NO_ENTRY])];
      } else {
        ReleasedSkip(m.mem, es[i], 4, count);
      }
    }

    /** vm_unmap_user_mem for space a. */
    method UnmapUserMem(a: nat)
      requires Inv(State()) && a < |spaces|
      modifies this
      ensures State() == Unmap(old(State()), a)
      ensures KernelKept(old(State()), State())
      ensures old(Compact()) ==> Compact()
    {
      hide Reach, Child, Inv, Released, Compact, KernelKept;
      ghost var m := State();
      var root := spaces[a];
      SpaceTable(m, a);
      RootAlone(m, a);
      ghost var user := UserHalf(mem, root);
      ghost var es0 := mem[root].entries;
      ReleasedNothing(mem, user, count, 4);
      for i := 0 to USER_ENTRIES
        invariant spaces == m.spaces && held == m.held && (old(Compact()) ==> Compact())
        invariant root in mem && mem[root].Table? && |mem[root].entries| == ENTRIES
        invariant forall j | 0 <= j < ENTRIES :: mem[root].entries[j] == if j < i then ClearEntries(es0)[j] else es0[j]
        invariant OnlyAt(m.mem, mem, root)
        invariant Released(m.count, Reach(m.mem, user[..i], 4), count)
      {
        ghost var before := count;
        ReleaseEntry(root, i, m, a);
        ReleasedStep(m.mem, user, i, 4, m.count, before, count);
      }
      assert mem[root].entries == ClearEntries(es0);
      assert user[..USER_ENTRIES] == user;
      UnmapIs(m, a, mem, count);
      UnmapKernelHalf(m, a);
    }

    /** vm_phys_addr, level by level. */
    method VmPhysAddr(root: nat, v: nat) returns (p: nat)
      ensures p == PM.PhysAddr(mem, root, v)
    {
      hide Path, PM.Canonical;
      var path := Path(v);
      if !PM.Canonical(v) { return 0; }
      var pml4e := PM.EntryAt(mem, root, path[0]);
      if !pml4e.present { return 0; }
      var pdpe := PM.EntryAt(mem, pml4e.frame, path[1]);
      if !pdpe.present { return 0; }
      if pdpe.size { return pdpe.frame * PAGE_SIZE / HUGE_PAGE_SIZE * HUGE_PAGE_SIZE + v % HUGE_PAGE_SIZE; }
      var pde := PM.EntryAt(mem, pdpe.frame, path[2]);
      if !pde.present { return 0; }
      if pde.size { return pde.frame * PAGE_SIZE / LARGE_PAGE_SIZE * LARGE_PAGE_SIZE + v % LARGE_PAGE_SIZE; }
      var pte := PM.EntryAt(mem, pde.frame, path[3]);
      if !pte.present { return 0; }
      return pte.frame * PAGE_SIZE + v % PAGE_SIZE;
    }

    /** The part of vm_map_page that makes a missing table; 0 if there is no memory for it. */
    method MakeTable(t: nat, i: nat, flags: Entry) returns (page: nat)
      requires i < |Entries(mem, t)| && !Entries(mem, t)[i].present
      modifies `mem, `count, `next, `avail
      ensures page == 0 ==> State() == Set(old(State()), t, i, NO_ENTRY, multiset{}, multiset{})
      ensures page != 0 ==>
        && page !in old(count) && State() == AddTable(old(State()), t, i, page, flags)
        && count == old(count) + multiset{page}
        && Entries(mem, t) == old(Entries(mem, t))[i := PM.TableEntry(page, flags)]
      ensures page != 0 && page != t ==> Entries(mem, page) == PM.EmptyTable()
      ensures page == 0 ==> !avail && count == old(count)
      ensures old(Compact()) ==> Compact()
      ensures old(avail) && old(Compact()) && !avail ==> Spent(old(count), [page])
    {
      hide Compact, Available, Full, Spent;
      var es := Entries(mem, t);
      page := GetPage();
      if page == 0 {
        mem := mem[t := Table(es[i := NO_ENTRY])];
      } else {
        mem := mem[page := Table(PM.EmptyTable())];
        mem := mem[t := Table(es[i := PM.TableEntry(page, flags)])];
      }
    }

    /** vm_map_page below table t: a block for each of the upper levels, then the entry itself.
        The PML4T block does not look at the size bit. */
    method MapBelow(t: nat, path: seq<nat>, depth: nat, frame: nat, flags: Entry) returns (o: PM.Outcome, ghost pages: seq<nat>)
      requires depth < |path| == 4
      modifies `mem, `count, `next, `avail
      ensures |pages| == 4
      ensures var (m, r) := MapWalk(old(State()), t, path, depth, pages, frame, flags);
        mem == m.mem && count == m.count && o == r
      ensures Answered(old(count), pages, depth)
      ensures forall d | 0 <= d < depth :: pages[d] == 0
      ensures o.NoMemory? && WholeTables(old(mem), old(count), t, path, depth) ==> !avail
      ensures old(avail) && old(Compact()) && !avail ==> Spent(old(count), pages)
      ensures old(Compact()) ==> Compact()
      decreases 4 - depth, 1
    {
      hide Answered, AddTable, SetLeaf, Compact, Spent, Set;
      pages := [0, 0, 0, 0];
      var es := Entries(mem, t);
      var i := path[depth];
      AnsweredNone(count, pages, depth);
      if i >= |es| { return PM.NoMemory, pages; }
      if depth == 3 {
        mem := mem[t := Table(es[i := PM.LeafEntry(frame, flags)])];
        return PM.Done, pages;
      }
      if es[i].present {
        if PM.Large(es[i], depth) { return PM.InLargePage, pages; }
        o, pages := MapBelow(es[i].frame, path, depth + 1, frame, flags);
        AnsweredFirst(old(count), 0, pages, depth, old(count));
        assert pages == pages[depth := 0];
      } else {
        o, pages := MapNew(t, path, depth, frame, flags);
      }
    }

    /** One of its blocks, if there is no table yet. */
    method MapNew(t: nat, path: seq<nat>, depth: nat, frame: nat, flags: Entry) returns (o: PM.Outcome, ghost pages: seq<nat>)
      requires depth < 3 && |path| == 4 && path[depth] < |Entries(mem, t)| && !Entries(mem, t)[path[depth]].present
      modifies `mem, `count, `next, `avail
      ensures |pages| == 4
      ensures var (m, r) := MapWalk(old(State()), t, path, depth, pages, frame, flags);
        mem == m.mem && count == m.count && o == r
      ensures Answered(old(count), pages, depth)
      ensures forall d | 0 <= d < depth :: pages[d] == 0
      ensures o.NoMemory? && WholeTables(old(mem), old(count), t, path, depth) ==> !avail
      ensures old(avail) && old(Compact()) && !avail ==> Spent(old(count), pages)
      ensures old(Compact()) ==> Compact()
      decreases 4 - depth, 0
    {
      hide Answered, AddTable, SetLeaf, Compact, Spent, Set, WholeTables, PM.EmptyTable, MapWalk;
      pages := [0, 0, 0, 0];
      var i := path[depth];
      var page := MakeTable(t, i, flags);
      ghost var m1 := State();
      ghost var spent := old(avail) && old(Compact()) && !avail;
      if spent {
        SpentAt(old(count), page, pages[depth := page], depth);
      }
      AnsweredNone(old(count), pages, depth);
      AnsweredNone(count, pages, depth + 1);
      MapWalkNew(old(State()), t, path, depth, pages[depth := page], frame, flags);
      if page == 0 {
        assert pages[depth := 0] == pages;
        return PM.NoMemory, pages;
      }
      AnsweredFirst(old(count), page, pages, depth, count);
      if PM.Large(Entries(mem, t)[i], depth) {
        return PM.MadeLarge(depth, page), pages[depth := page];
      }
      if WholeTables(old(mem), old(count), t, path, depth) {
        NewWhole(old(mem), old(count), t, mem, count, page, path, depth);
      }
      ghost var rest;
      o, rest := MapBelow(page, path, depth + 1, frame, flags);
      pages := rest[depth := page];
      if spent {
        SpentAt(old(count), page, pages, depth);
      } else if old(avail) && old(Compact()) && !avail {
        SpentNext(old(count), m1.count, page, rest);
        SpentJoin(old(count), page, rest, depth);
      }
      AnsweredFirst(old(count), page, rest, depth, m1.count);
      MapWalkPages(m1, page, path, depth + 1, rest, pages, frame, flags);
      MapWalkNew(old(State()), t, path, depth, pages, frame, flags);
    }

    lemma SpentAt(before: multiset<nat>, page: nat, pages: seq<nat>, d: nat)
      requires Spent(before, [page]) && d < |pages| && pages[d] == page
      ensures Spent(before, pages)
    {
    }

    lemma SpentJoin(before: multiset<nat>, page: nat, rest: seq<nat>, d: nat)
      requires Spent(before, [page] + rest) && d < |rest| && rest[d] == 0
      ensures Spent(before, rest[d := page])
    {
      var pages := rest[d := page];
      forall f: nat | 0 < f <= limit && f !in before ensures f in pages {
        var all := [page] + rest;
        assert f in all;
        var j :| 0 <= j < |all| && all[j] == f;
        if j > 0 {
          assert pages[j - 1] == f;
        } else {
          assert pages[d] == f;
        }
      }
    }

    /** vm_map_page. */
    method VmMapPage(root: nat, phys: nat, v: nat, flags: Entry) returns (o: PM.Outcome, ghost pages: seq<nat>)
      modifies `mem, `count, `next, `avail
      ensures |pages| == 4 && Answered(old(count), pages, 0)
      ensures (mem, o) == PM.MapPage(old(mem), root, v, pages, phys, flags)
      ensures o.NoMemory? && WholeTables(old(mem), old(count), root, Path(v), 0) ==> !avail && (old(avail) && old(Compact()) ==> Spent(old(count), pages))
      ensures PM.Canonical(v) ==> count == MapWalk(old(State()), root, Path(v), 0, pages, phys / PAGE_SIZE, flags).0.count
    {
      if !PM.Canonical(v) {
        return PM.NotCanonical, [0, 0, 0, 0];
      }
      o, pages := MapBelow(root, Path(v), 0, phys / PAGE_SIZE, flags);
      MapWalkMem(old(State()), root, Path(v), 0, pages, phys / PAGE_SIZE, flags);
    }

    /** vm_unmap_page, level by level. */
    method VmUnmapPage(root: nat, v: nat) returns (o: PM.Outcome)
      modifies `mem
      ensures (mem, o) == PM.UnmapPage(old(mem), root, v)
    {
      var path := Path(v);
      if !PM.Canonical(v) { return PM.NotCanonical; }
      var pml4e := PM.EntryAt(mem, root, path[0]);
      if !pml4e.present { return PM.Done; }
      var pdpe := PM.EntryAt(mem, pml4e.frame, path[1]);
      if !pdpe.present { return PM.Done; }
      if pdpe.size {
        mem := PM.SetEntry(mem, pml4e.frame, path[1], NO_ENTRY);
        return PM.Done;
      }
      var pde := PM.EntryAt(mem, pdpe.frame, path[2]);
      if !pde.present { return PM.Done; }
      if pde.size {
        mem := PM.SetEntry(mem, pdpe.frame, path[2], NO_ENTRY);
        return PM.Done;
      }
      if path[3] < |Entries(mem, pde.frame)| {
        mem := PM.SetEntry(mem, pde.frame, path[3], NO_ENTRY);
      }
      return PM.Done;
    }

    /** thread_clone with copying, up to the stacks of the new thread: `tid` and `stacks` tell
        whether a thread identifier and the stacks could be allocated. Without an identifier
        the PML4T is given back before anything is marked. Returns the new PML4T, or 0. */
    method ThreadClone(a: nat, tid: bool, stacks: bool) returns (child: nat, ghost root: nat, ghost tlp: nat)
      requires Inv(State()) && a < |spaces|
      modifies this
      ensures CloneAllocOk(old(State()), root, tlp) && (!tid ==> tlp == 0)
      ensures State() == Clone(old(State()), a, root, tlp, stacks)
      ensures child == if root != 0 && tlp != 0 && stacks then root else 0
      ensures tid && (root == 0 || tlp == 0) ==> !avail && (old(avail) && old(Compact()) ==> Spent(old(count), [root]))
      ensures KernelKept(old(State()), State())
      ensures child != 0 ==> KernelCopied(old(mem), spaces[a], mem, child, tlp)
    {
      hide KernelKept, KernelCopied;
      hide Inv, Tree, Mark, Take, ClonedEntries, Clone, Entries, Compact, Spent;
      ghost var m := State();
      var pml4t, tl := CloneFrames(tid);
      root, tlp, child := pml4t, tl, 0;
      CloneKernelHalf(m, a, root, tlp, stacks);
      if pml4t == 0 || tl == 0 {
        CloneNot(m, a, root, tlp, stacks);
        return;
      }
      ShareUser(spaces[a], tl, m, a, pml4t);
      FinishClone(spaces[a], pml4t, tl, stacks, m, a);
      child := if stacks then pml4t else 0;
    }

    /** Its end: the parent's entries are copied, or the PML4T is given back. */
    method FinishClone(parent: nat, pml4t: nat, tl: nat, stacks: bool, ghost m: Machine, ghost a: nat)
      requires a < |m.spaces| && pml4t != 0 && tl != 0 && spaces == m.spaces && parent == m.spaces[a]
      requires var m2 := Mark(Take(m, tl, Table(seq(ENTRIES, _ => NO_ENTRY))), m.spaces[a]);
        mem == m2.mem && count == m.count + multiset{tl} + Tree(m2.mem, m.spaces[a]) + multiset{pml4t}
      modifies this
      ensures State() == Clone(m, a, pml4t, tl, stacks)
    {
      hide Tree, Mark, Take, ClonedEntries, Clone, Entries, Compact;
      CloneIs(m, a, pml4t, tl);
      held := Clone(m, a, pml4t, tl, stacks).held;
      if stacks {
        mem := mem[pml4t := Table(ClonedEntries(Entries(mem, parent), tl))];
        spaces := spaces + [pml4t];
      } else {
        ghost var kept := Clone(m, a, pml4t, tl, stacks).count;
        GivenBack(kept, pml4t);
        FreePage(pml4t);
      }
    }

    /** The allocations at its beginning: the PML4T, the identifier, the thread-local PDPT. What has
        been allocated is given back if something is missing. */
    method CloneFrames(tid: bool) returns (root: nat, tlp: nat)
      modifies `count, `next, `avail
      ensures root == 0 || !tid ==> tlp == 0
      ensures root == 0 || tlp == 0 ==> count == old(count)
      ensures root != 0 && tlp != 0 ==>
        && root !in old(count) && tlp !in old(count) && root != tlp
        && count == old(count) + multiset{root} + multiset{tlp}
      ensures tid && (root == 0 || tlp == 0) ==> !avail && (old(avail) && old(Compact()) ==> Spent(old(count), [root]))
    {
      hide Compact, Available, Spent, Full;
      tlp := 0;
      root := AllocPage();
      ghost var spent := old(avail) && old(Compact()) && !avail;
      if spent { SpentBy(old(count), root); }
      if root == 0 { return; }
      GivenBack(old(count), root);
      if tid {
        tlp := AllocPage();
        if tlp == 0 && !spent && old(avail) && old(Compact()) { SpentBy(old(count), root); }
      }
      if tlp == 0 {
        FreePage(root);
      }
    }

    /** The passes of thread_clone over the parent's PML4T. */
    method ShareUser(parent: nat, tl: nat, ghost m: Machine, ghost a: nat, ghost root: nat)
      requires Inv(m) && a < |m.spaces| && m.spaces[a] == parent && root !in m.count && tl !in m.count && root != tl
      requires mem == m.mem && count == m.count + multiset{root} + multiset{tl}
      modifies `mem, `count
      ensures var m2 := Mark(Take(m, tl, Table(seq(ENTRIES, _ => NO_ENTRY))), parent);
        mem == m2.mem && count == m.count + multiset{tl} + Tree(m2.mem, parent) + multiset{root}
    {
      hide Inv, Tree, MarkEntries, Referenced;
      SpaceTable(m, a);
      FreshUnreached(m, tl);
      mem := mem[tl := Table(seq(ENTRIES, _ => NO_ENTRY))];
      MarkUser(parent);
      RefUser(parent);
      CloneCounts(m, a, root, tl, count);
    }

    /** Mark the present user entries of a PML4T as copy-on-write. */
    method MarkUser(root: nat)
      requires |Entries(mem, root)| == ENTRIES
      modifies `mem
      ensures mem == old(mem)[root := Table(MarkEntries(old(Entries(mem, root))))]
    {
      ghost var es0 := Entries(mem, root);
      for i := 0 to USER_ENTRIES
        invariant root in mem && mem[root].Table? && |mem[root].entries| == ENTRIES
        invariant forall j | 0 <= j < ENTRIES ::
                    mem[root].entries[j] == if j < i then MarkEntries(es0)[j] else es0[j]
        invariant OnlyAt(old(mem), mem, root)
      {
        var es := mem[root].entries;
        if es[i].present {
          mem := mem[root := Table(es[i := es[i].(rw := false, cow := true)])];
        }
      }
      assert mem[root].entries == MarkEntries(es0);
    }

    /** Reference everything a PML4T reaches in user space. */
    method RefUser(root: nat)
      requires |Entries(mem, root)| == ENTRIES
      modifies `count
      ensures Referenced(old(count), Tree(mem, root), count)
    {
      hide Reach, Child, Referenced;
      var es := Entries(mem, root);
      ghost var user := UserHalf(mem, root);
      ReferencedNothing(mem, user, count, 4);
      for i := 0 to USER_ENTRIES
        invariant Referenced(old(count), Reach(mem, user[..i], 4), count)
      {
        ghost var before := count;
        if es[i].present {
          RefPage(es[i].frame);
          ghost var self := count;
          RefPdpt(es[i].frame);
          ReferencedChild(mem, user[i], 4, before, self, count);
        } else {
          ReferencedSkip(mem, user[i], 4, count);
        }
        ReferencedStep(mem, user, i, 4, old(count), before, count);
      }
      assert user[..USER_ENTRIES] == user;
    }
  }

  /** The tables that a walk meets are in use, with all their entries. */
  predicate WholeTables(mem: Mem, count: multiset<nat>, t: nat, path: seq<nat>, depth: nat)
    requires depth < |path| == 4
    decreases 4 - depth
  {
    var es := Entries(mem, t);
    && t in count && |es| == ENTRIES && path[depth] < ENTRIES
    && (forall j | depth < j < 4 :: path[j] < ENTRIES)
    && (depth < 3 ==>
          (es[path[depth]].present && !PM.Large(es[path[depth]], depth) ==>
                WholeTables(mem, count, es[path[depth]].frame, path, depth + 1)))
  }

  /** So is a table that has been made for it. */
  lemma NewWhole(mem: Mem, count: multiset<nat>, t: nat, mem': Mem, count': multiset<nat>, page: nat, path: seq<nat>, depth: nat)
    requires depth < 3 && |path| == 4 && WholeTables(mem, count, t, path, depth) && page !in count && page in count'
    requires page != t ==> Entries(mem', page) == PM.EmptyTable()
    ensures WholeTables(mem', count', page, path, depth + 1)
  {
  }

  lemma CowStepIs(m: Machine, t: nat, i: nat, page: nat, mem': Mem, count': multiset<nat>)
    requires i < |Entries(m.mem, t)| && Entries(m.mem, t)[i].frame in m.mem
    requires var e := Entries(m.mem, t)[i];
      && mem' == m.mem[page := CowCopy(m.mem[e.frame])][t := Table(Entries(m.mem, t)[i := e.(frame := page, rw := true, cow := false)])]
      && count' == m.count + multiset{page} - multiset{e.frame}
    ensures Machine(mem', count', m.spaces, m.held) == CowStep(m, t, i, page)
  {
    hide CowCopy;
  }

  lemma CowStepCount(m: Machine, t: nat, i: nat, page: nat)
    requires i < |Entries(m.mem, t)| && Entries(m.mem, t)[i].frame in m.mem
    ensures CowStep(m, t, i, page).count <= m.count + multiset{page}
  {
  }

  /** The step where there is no table yet. */
  lemma MapWalkNew(m: Machine, t: nat, path: seq<nat>, depth: nat, pages: seq<nat>, frame: nat, flags: Entry)
    requires depth < 3 && |path| == |pages| == 4 && path[depth] < |Entries(m.mem, t)| && !Entries(m.mem, t)[path[depth]].present
    ensures MapWalk(m, t, path, depth, pages, frame, flags) ==
            if pages[depth] == 0 then (Set(m, t, path[depth], NO_ENTRY, multiset{}, multiset{}), PM.NoMemory)
            else if PM.Large(flags, depth) then (AddTable(m, t, path[depth], pages[depth], flags), PM.MadeLarge(depth, pages[depth]))
            else MapWalk(AddTable(m, t, path[depth], pages[depth], flags), pages[depth], path, depth + 1, pages, frame, flags)
  {
    hide AddTable, Set;
  }

  /** Answers that are not asked for do not matter. */
  lemma {:induction false} MapWalkPages(m: Machine, t: nat, path: seq<nat>, depth: nat, pages: seq<nat>, pages': seq<nat>, frame: nat, flags: Entry)
    requires depth < |path| == |pages| == |pages'| == 4 && forall d | depth <= d < 4 :: pages[d] == pages'[d]
    ensures MapWalk(m, t, path, depth, pages, frame, flags) == MapWalk(m, t, path, depth, pages', frame, flags)
    decreases 4 - depth
  {
    var es := Entries(m.mem, t);
    var i := path[depth];
    if i < |es| && depth < 3 {
      if es[i].present {
        MapWalkPages(m, es[i].frame, path, depth + 1, pages, pages', frame, flags);
      } else if pages[depth] != 0 {
        MapWalkPages(AddTable(m, t, i, pages[depth], flags), pages[depth], path, depth + 1, pages, pages', frame, flags);
      }
    }
  }

  /** Clearing entries of the PML4T does not touch the tables below it. */
  lemma {:induction false} BelowRoot(m: Machine, a: nat, mem': Mem, i: nat)
    requires Inv(m) && a < |m.spaces| && OnlyAt(m.mem, mem', m.spaces[a])
    requires i < |UserHalf(m.mem, m.spaces[a])| && UserHalf(m.mem, m.spaces[a])[i].present
    ensures var f := UserHalf(m.mem, m.spaces[a])[i].frame;
      Reach(mem', Entries(mem', f), 3) == Reach(m.mem, Entries(m.mem, f), 3)
  {
    hide Reach, Child, Inv;
    RootAlone(m, a);
    var es := UserHalf(m.mem, m.spaces[a]);
    EntryInReach(m.mem, es, i, 4);
    ReachFrame(m.mem, mem', Entries(m.mem, es[i].frame), 3);
  }

  lemma UnmapIs(m: Machine, a: nat, mem': Mem, count': multiset<nat>)
    requires a < |m.spaces| && m.spaces[a] in m.mem && m.mem[m.spaces[a]].Table?
    requires OnlyAt(m.mem, mem', m.spaces[a])
    requires m.spaces[a] in mem' && mem'[m.spaces[a]] == Table(ClearEntries(m.mem[m.spaces[a]].entries))
    requires Released(m.count, Tree(m.mem, m.spaces[a]), count')
    ensures Machine(mem', count', m.spaces, m.held) == Unmap(m, a)
  {
    hide Tree, ClearEntries;
    var root := m.spaces[a];
    assert mem' == m.mem[root := mem'[root]];
    assert m.held + Tree(m.mem, root) - Tree(m.mem, root) == m.held;
  }

  lemma GivenBack(count: multiset<nat>, page: nat)
    ensures count + multiset{page} - multiset{page} == count
  {
  }

  lemma CloneIs(m: Machine, a: nat, root: nat, tlp: nat)
    requires a < |m.spaces| && root != 0 && tlp != 0
    ensures var m2 := Mark(Take(m, tlp, Table(seq(ENTRIES, _ => NO_ENTRY))), m.spaces[a]);
      var x := Tree(m2.mem, m.spaces[a]);
      var c, c' := Clone(m, a, root, tlp, false), Clone(m, a, root, tlp, true);
      && c == Machine(m2.mem, m.count + multiset{tlp} + x, m.spaces, c.held)
      && c' == Machine(m2.mem[root := Table(ClonedEntries(Entries(m2.mem, m.spaces[a]), tlp))],
                       m.count + multiset{tlp} + x + multiset{root}, m.spaces + [root], c'.held)
  {
    hide Tree, MarkEntries;
  }

  /** The reference pass adds exactly what the clone's PML4T will reach. */
  lemma {:induction false} CloneCounts(m: Machine, a: nat, root: nat, tlp: nat, count': multiset<nat>)
    requires Inv(m) && a < |m.spaces| && root !in m.count && tlp !in m.count && root != tlp
    requires var m2 := Mark(Take(m, tlp, Table(seq(ENTRIES, _ => NO_ENTRY))), m.spaces[a]);
      Referenced(m.count + multiset{root} + multiset{tlp}, Tree(m2.mem, m.spaces[a]), count')
    ensures var m2 := Mark(Take(m, tlp, Table(seq(ENTRIES, _ => NO_ENTRY))), m.spaces[a]);
      count' == m.count + multiset{tlp} + Tree(m2.mem, m.spaces[a]) + multiset{root}
  {
    hide Tree, GoodSpace, Sum, Trees, Mark;
    var c := Table(seq(ENTRIES, _ => NO_ENTRY));
    TakeInv(m, tlp, c);
    var m1 := Take(m, tlp, c);
    MarkHoldInv(m1, a);
    TreeInTrees(m1.mem, m1.spaces, a);
    var x := Tree(Mark(m1, m.spaces[a]).mem, m.spaces[a]);
    assert x <= m1.count;
  }

  /** One release pass. */
  ghost predicate Released(count: multiset<nat>, x: multiset<nat>, count': multiset<nat>)
  {
    count' == count - x
  }

  lemma ReleasedNothing(mem: Mem, es: seq<Entry>, count: multiset<nat>, level: nat)
    ensures Released(count, Reach(mem, es[..0], level), count)
  {
  }

  lemma ReleasedSkip(mem: Mem, e: Entry, level: nat, count: multiset<nat>)
    requires !Counted(e, level)
    ensures Released(count, Child(mem, e, level), count)
  {
  }

  lemma ReleasedChild(mem: Mem, e: Entry, level: nat, count: multiset<nat>, below: multiset<nat>, after: multiset<nat>)
    requires level > 0 && Counted(e, level)
    requires if level == 1 then below == count else Released(count, Reach(mem, Entries(mem, e.frame), level - 1), below)
    requires after == below - multiset{e.frame}
    ensures Released(count, Child(mem, e, level), after)
  {
    hide Reach;
    if level == 1 {
      ReachNothing(mem, Entries(mem, e.frame));
    }
  }

  lemma ReleasedStep(mem: Mem, es: seq<Entry>, i: nat, level: nat, count: multiset<nat>, before: multiset<nat>, after: multiset<nat>)
    requires i < |es| && level > 0
    requires Released(count, Reach(mem, es[..i], level), before)
    requires Released(before, Child(mem, es[i], level), after)
    ensures Released(count, Reach(mem, es[..i + 1], level), after)
  {
    hide Reach, Child;
    ReachSlice(mem, es, i, level);
  }

  /** One reference pass: x more references to every frame that had any. */
  ghost predicate Referenced(count: multiset<nat>, x: multiset<nat>, count': multiset<nat>)
  {
    forall f: nat :: count'[f] == if count[f] > 0 then count[f] + x[f] else 0
  }

  lemma ReferencedNothing(mem: Mem, es: seq<Entry>, count: multiset<nat>, level: nat)
    ensures Referenced(count, Reach(mem, es[..0], level), count)
  {
  }

  lemma ReferencedSkip(mem: Mem, e: Entry, level: nat, count: multiset<nat>)
    requires !Counted(e, level)
    ensures Referenced(count, Child(mem, e, level), count)
  {
  }

  lemma ReferencedChild(mem: Mem, e: Entry, level: nat, count: multiset<nat>, self: multiset<nat>, after: multiset<nat>)
    requires level > 0 && Counted(e, level)
    requires Referenced(count, multiset{e.frame}, self)
    requires if level == 1 then after == self else Referenced(self, Reach(mem, Entries(mem, e.frame), level - 1), after)
    ensures Referenced(count, Child(mem, e, level), after)
  {
    hide Reach;
    if level == 1 {
      ReachNothing(mem, Entries(mem, e.frame));
    }
  }

  lemma ReferencedStep(mem: Mem, es: seq<Entry>, i: nat, level: nat, count: multiset<nat>, before: multiset<nat>, after: multiset<nat>)
    requires i < |es| && level > 0
    requires Referenced(count, Reach(mem, es[..i], level), before)
    requires Referenced(before, Child(mem, es[i], level), after)
    ensures Referenced(count, Reach(mem, es[..i + 1], level), after)
  {
    hide Reach, Child;
    ReachSlice(mem, es, i, level);
  }
}
