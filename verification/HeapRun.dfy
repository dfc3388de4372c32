/**
 Whole runs of the kernel heap, seen as a map from the pointers handed out to
 the contents of their blocks.
 */
module HeapRun {
  import opened HeapLayout
  import opened KernelHeap

  type Blocks = map<nat, seq<Unit>>

  datatype Op = Malloc(size: nat) | Resize(p: nat, size: nat) | Release(p: nat) | Put(p: nat, i: nat, u: Unit)

  /** What the heap demands of its callers: pointers it has handed out, stores inside their blocks. */
  predicate Legal(live: Blocks, op: Op)
  {
    match op
    case Malloc(_) => true
    case Resize(p, _) => p == 0 || p in live
    case Release(p) => p == 0 || p in live
    case Put(p, i, _) => p in live && i < |live[p]|
  }

  /** What a caller may rely on: q is the pointer returned (0: no memory). */
  ghost predicate Outcome(live: Blocks, op: Op, q: nat, live': Blocks)
  {
    match op
    case Malloc(size) => Granted(live, {}, size, q, live')
    case Resize(p, size) =>
      && Granted(live, {p}, size, q, live')
      && (q != 0 && p in live && q in live' ==> Resized(live[p], live'[q], AlignUp(size)))
    case Release(p) => live' == live - {p}
    case Put(p, i, u) => p in live && i < |live[p]| && live' == live[p := live[p][i := u]]
  }

  ghost predicate Granted(live: Blocks, given: set<nat>, size: nat, q: nat, live': Blocks)
  {
    if q == 0 then live' == live
    else
      && q % 16 == 0 && (q in given || q !in live) && q in live'
      && live' == (live - given)[q := live'[q]]
      && AlignUp(size) <= 16 * |live'[q]| < AlignUp(size) + 64
      && (size <= WORD - 16 ==> 16 * |live'[q]| >= size)
  }

  /** What an operation does to the blocks, and answers: an allocation is at the first free block with
      room, and a block in use is resized in place exactly if there is room for that. */
  ghost predicate LayoutStep(base: nat, bs: seq<Block>, op: Op, q: nat, bs': seq<Block>)
  {
    match op
    case Malloc(size) =>
      var k := FirstFit(bs, AlignUp(size));
      TakeLayout(bs, AlignUp(size), bs') && q == if k == |bs| then 0 else End(base, bs[..k]) + 16
    case Resize(p, size) =>
      && ReallocLayout(base, bs, p, AlignUp(size), bs')
      && forall k: nat :: PointsTo(base, bs, p, k) && bs[k].used ==> ResizeAnswer(bs, k, AlignUp(size), p, q)
    case Release(_) => bs' == bs || exists k | 0 <= k < |bs| :: bs' == Freed(bs, k)
    case Put(_, _, _) => bs' == bs
  }

  /** Every operation of the heap has the outcome its caller may rely on, and memory is refused
      only if no free block is large enough. */
  method Perform(heap: Heap, op: Op) returns (q: nat)
    requires heap.Valid() && Legal(heap.Contents(), op)
    modifies heap
    ensures heap.Valid()
    ensures Outcome(old(heap.Contents()), op, q, heap.Contents())
    ensures q == 0 && (op.Malloc? || op.Resize?) ==> FirstFit(old(heap.blocks), AlignUp(op.size)) == |old(heap.blocks)|
    ensures LayoutStep(heap.base, old(heap.blocks), op, q, heap.blocks)
  {
    hide Tiles, Live, Taken, Freed, ReallocLayout;
    ghost var live := heap.Contents();
    NullNotLive(heap.mem, heap.base, heap.blocks);
    q := 0;
    match op
    case Malloc(size) =>
      q := heap.AllocLaid(size);
      Covers(size);
      assert live - {} == live;
    case Resize(p, size) =>
      heap.Known(p);
      q := heap.Realloc(p, size);
      Covers(size);
    case Release(p) =>
      heap.Known(p);
      var _ := heap.Free(p);
    case Put(p, i, u) =>
      heap.Store(p, i, u);
  }

  lemma Covers(size: nat)
    ensures size <= WORD - 16 ==> AlignUp(size) >= size
  {
    if size <= WORD - 16 {
      AlignUpCovers(size);
    }
  }

  /** A run: each operation is legal where it is made and has its outcome. */
  ghost predicate IsRun(lives: seq<Blocks>, ops: seq<Op>, results: seq<nat>)
  {
    && |lives| == |ops| + 1 && |results| == |ops|
    && forall n | 0 <= n < |ops| :: Legal(lives[n], ops[n]) && Outcome(lives[n], ops[n], results[n], lives[n + 1])
  }

  /** The operation is made on block p. */
  predicate Touches(op: Op, p: nat)
  {
    !op.Malloc? && op.p == p
  }

  lemma OutcomeElsewhere(live: Blocks, op: Op, q: nat, live': Blocks, p: nat)
    requires Outcome(live, op, q, live') && p in live && !Touches(op, p)
    ensures p in live' && live'[p] == live[p]
  {
  }

  /** Whatever is done to other blocks, a block keeps its address and its contents. */
  lemma {:induction false} Undisturbed(lives: seq<Blocks>, ops: seq<Op>, results: seq<nat>, p: nat, i: nat, j: nat)
    requires IsRun(lives, ops, results) && i <= j < |lives| && p in lives[i]
    requires forall n | i <= n < j :: !Touches(ops[n], p)
    ensures p in lives[j] && lives[j][p] == lives[i][p]
    decreases j - i
  {
    if i < j {
      assert Outcome(lives[i], ops[i], results[i], lives[i + 1]);
      OutcomeElsewhere(lives[i], ops[i], results[i], lives[i + 1], p);
      Undisturbed(lives, ops, results, p, i + 1, j);
    }
  }

  /** Resizing a block and resizing it again keeps the part that never was out of it. */
  lemma {:induction false} ResizedTwice(d: seq<Unit>, d1: seq<Unit>, d2: seq<Unit>, n1: nat, n2: nat)
    requires Resized(d, d1, n1) && Resized(d1, d2, n2)
    ensures forall i | 0 <= i < |d| && 16 * i < n1 && 16 * i < n2 :: d2[i] == d[i]
  {
    forall i | 0 <= i < |d| && 16 * i < n1 && 16 * i < n2 ensures d2[i] == d[i] {
      assert d1[i] == d[i];
    }
  }

  /** Live blocks are apart: between the data of two of them lie at least a tail and a header. */
  lemma {:induction false} LiveApart(mem: Mem, a: nat, bs: seq<Block>, p: nat, q: nat)
    requires Tiles(mem, a, bs) && p in Live(mem, a, bs) && q in Live(mem, a, bs) && p < q
    ensures p + 16 * |Live(mem, a, bs)[p]| + OVERHEAD <= q
    decreases |bs|
  {
    var next := a + OVERHEAD + bs[0].size;
    if q in Live(mem, next, bs[1..]) {
      LiveBounds(mem, next, bs[1..], q);
    } else {
      LiveBounds(mem, next, bs[1..], p);
    }
    if p in Live(mem, next, bs[1..]) {
      LiveBounds(mem, next, bs[1..], p);
      LiveApart(mem, next, bs[1..], p, q);
    }
  }

  /* ---------- fragmentation ---------- */

  /** No two free blocks are neighbours. */
  ghost predicate Coalesced(bs: seq<Block>)
  {
    forall i | 0 <= i < |bs| - 1 :: bs[i].used || bs[i + 1].used
  }

  /** kh_free, kh_alloc_aligned and growth in place leave no two free blocks side by side. */
  lemma {:induction false} FreeCoalesces(bs: seq<Block>, k: nat)
    requires Coalesced(bs) && k < |bs|
    ensures Coalesced(Freed(bs, k))
  {
  }

  lemma {:induction false} TakeCoalesces(bs: seq<Block>, k: nat, n: nat)
    requires Coalesced(bs) && k < |bs| && !bs[k].used
    ensures Coalesced(Taken(bs, k, n))
  {
  }

  lemma {:induction false} GrowCoalesces(bs: seq<Block>, k: nat, n: nat)
    requires Coalesced(bs) && k + 1 < |bs| && bs[k].used && !bs[k + 1].used
    ensures Coalesced(Grown(bs, k, n))
  {
  }

  /** Shrinking does not unite the rest with a free block after it: free blocks become
      neighbours exactly when a rest is cut off before a free block. */
  lemma {:induction false} ShrinkCoalesces(bs: seq<Block>, k: nat, n: nat)
    requires Coalesced(bs) && k < |bs| && bs[k].used
    ensures Coalesced(Shrunk(bs, k, n)) <==>
            !(bs[k].size >= n + OVERHEAD + MIN_SPLIT && k + 1 < |bs| && !bs[k + 1].used)
  {
    var bs' := Shrunk(bs, k, n);
    if bs[k].size >= n + OVERHEAD + MIN_SPLIT && k + 1 < |bs| && !bs[k + 1].used {
      assert !bs'[k + 1].used && !bs'[k + 2].used;
    }
  }

  /* ---------- runs of the heap ---------- */

  /** The pointers of the heap are multiples of 16, and live blocks are apart. */
  ghost predicate WellPlaced(live: Blocks)
  {
    && (forall p | p in live :: p % 16 == 0)
    && (forall p, q | p in live && q in live && p < q :: p + 16 * |live[p]| + OVERHEAD <= q)
  }

  lemma HeapWellPlaced(mem: Mem, base: nat, bs: seq<Block>)
    requires Tiles(mem, base, bs) && base % 16 == 0
    ensures WellPlaced(Live(mem, base, bs))
  {
    hide Tiles, Live, End;
    var live := Live(mem, base, bs);
    forall p | p in live ensures p % 16 == 0 {
      var k := LiveIndex(mem, base, bs, p);
      EndAligned(mem, base, bs, k);
    }
    forall p, q | p in live && q in live && p < q ensures p + 16 * |live[p]| + OVERHEAD <= q {
      LiveApart(mem, base, bs, p, q);
    }
  }

  /** Perform operations as long as they are legal: that is a run, from what the heap holds at the
      beginning to what it holds at the end, and all along it the live blocks are well placed. */
  method PerformAll(heap: Heap, ops: seq<Op>) returns (n: nat, results: seq<nat>, ghost lives: seq<Blocks>, ghost layouts: seq<seq<Block>>)
    requires heap.Valid()
    modifies heap
    ensures heap.Valid() && n <= |ops|
    ensures IsRun(lives, ops[..n], results)
    ensures lives[0] == old(heap.Contents()) && lives[n] == heap.Contents()
    ensures n < |ops| ==> !Legal(lives[n], ops[n])
    ensures forall i | 0 <= i <= n :: WellPlaced(lives[i])
    ensures Laid(heap.base, layouts, ops[..n], results) && layouts[0] == old(heap.blocks) && layouts[n] == heap.blocks
    ensures Coalesced(old(heap.blocks)) ==>
              ((forall i | 0 <= i <= n :: Coalesced(layouts[i])) <==> (forall i | 0 <= i < n :: !CutsBeforeFree(heap.base, layouts[i], ops[i])))
  {
    hide Tiles, Live, Outcome, Legal, WellPlaced, IsRun, LayoutStep, Coalesced, CutsBeforeFree;
    layouts := [heap.blocks];
    n, results := 0, [];
    lives := [heap.Contents()];
    RunNone(lives);
    HeapWellPlaced(heap.mem, heap.base, heap.blocks);
    var known := heap.Pointers();
    while n < |ops|
      invariant known == heap.Contents().Keys && |lives| == n + 1
      invariant heap.Valid() && n <= |ops| && IsRun(lives, ops[..n], results)
      invariant lives[0] == old(heap.Contents()) && lives[n] == heap.Contents()
      invariant forall i | 0 <= i <= n :: WellPlaced(lives[i])
      invariant Laid(heap.base, layouts, ops[..n], results) && layouts[0] == old(heap.blocks) && layouts[n] == heap.blocks
    {
      var legal := IsLegal(heap, known, ops[n]);
      if !legal {
        LaidCoalesced(heap.base, layouts, ops[..n], results);
        return;
      }
      var q := Perform(heap, ops[n]);
      KnownNext(lives[n], ops[n], q, heap.Contents());
      known := NextKnown(known, ops[n], q);
      HeapWellPlaced(heap.mem, heap.base, heap.blocks);
      RunSnoc(lives, ops[..n], results, ops[n], q, heap.Contents());
      assert ops[..n + 1] == ops[..n] + [ops[n]];
      lives := lives + [heap.Contents()];
      layouts := layouts + [heap.blocks];
      results := results + [q];
      n := n + 1;
    }
    LaidCoalesced(heap.base, layouts, ops[..n], results);
  }

  /** The layouts of a run. */
  ghost predicate Laid(base: nat, layouts: seq<seq<Block>>, ops: seq<Op>, results: seq<nat>)
  {
    && |layouts| == |ops| + 1 && |results| == |ops|
    && forall i | 0 <= i < |ops| :: LayoutStep(base, layouts[i], ops[i], results[i], layouts[i + 1])
  }

  /** The operation cuts a rest off a block before a free block. */
  ghost predicate CutsBeforeFree(base: nat, bs: seq<Block>, op: Op)
  {
    op.Resize? && exists k: nat :: PointsTo(base, bs, op.p, k) && bs[k].used && CutsAt(bs, k, AlignUp(op.size))
  }

  ghost predicate CutsAt(bs: seq<Block>, k: nat, n: nat)
    requires k < |bs|
  {
    bs[k].size >= n + OVERHEAD + MIN_SPLIT && k + 1 < |bs| && !bs[k + 1].used
  }

  lemma {:induction false} TakeLaid(bs: seq<Block>, n: nat, bs': seq<Block>)
    requires Coalesced(bs) && TakeLayout(bs, n, bs')
    ensures Coalesced(bs')
  {
    hide Coalesced, Taken;
    if FirstFit(bs, n) < |bs| {
      TakeCoalesces(bs, FirstFit(bs, n), n);
    }
  }

  lemma {:induction false} ResizeLaid(bs: seq<Block>, k: nat, n: nat, bs': seq<Block>)
    requires Coalesced(bs) && k < |bs| && bs[k].used && ResizeLayout(bs, k, n, bs')
    ensures Coalesced(bs') <==> !CutsAt(bs, k, n)
  {
    hide Coalesced, Taken, Freed, Grown, Shrunk;
    if n <= bs[k].size {
      ShrinkCoalesces(bs, k, n);
    } else if CanGrow(bs, k, n) {
      GrowCoalesces(bs, k, n);
    } else if FirstFit(bs, n) < |bs| {
      var i: nat :| MovedTo(bs, n, i, bs');
      TakeCoalesces(bs, FirstFit(bs, n), n);
      FreeCoalesces(Taken(bs, FirstFit(bs, n), n), i);
    }
  }

  /** One operation leaves free neighbours exactly if it is such a cut. */
  lemma {:induction false} StepLaid(base: nat, bs: seq<Block>, op: Op, q: nat, bs': seq<Block>)
    requires Coalesced(bs) && LayoutStep(base, bs, op, q, bs')
    ensures Coalesced(bs') <==> !CutsBeforeFree(base, bs, op)
  {
    hide Coalesced, Taken, Freed, CutsAt, ResizeLayout, TakeLayout;
    match op
    case Malloc(size) => TakeLaid(bs, AlignUp(size), bs');
    case Resize(p, size) => ReallocLaid(base, bs, p, AlignUp(size), bs');
    case Release(_) =>
      if bs' != bs {
        var k: nat :| k < |bs| && bs' == Freed(bs, k);
        FreeCoalesces(bs, k);
      }
    case Put(_, _, _) =>
  }

  lemma {:induction false} ReallocLaid(base: nat, bs: seq<Block>, p: nat, n: nat, bs': seq<Block>)
    requires Coalesced(bs) && ReallocLayout(base, bs, p, n, bs')
    ensures Coalesced(bs') <==> !exists k: nat :: PointsTo(base, bs, p, k) && bs[k].used && CutsAt(bs, k, n)
  {
    hide Coalesced, CutsAt, ResizeLayout, TakeLayout, End;
    if k: nat :| PointsTo(base, bs, p, k) && bs[k].used && ResizeLayout(bs, k, n, bs') {
      ResizeLaid(bs, k, n, bs');
      PointsOnly(base, bs, p, k);
    } else if bs' != bs {
      TakeLaid(bs, n, bs');
    }
  }

  /** Over a run no two free blocks ever are neighbours exactly if no operation is such a cut. */
  lemma {:induction false} LaidCoalesced(base: nat, layouts: seq<seq<Block>>, ops: seq<Op>, results: seq<nat>)
    requires Laid(base, layouts, ops, results)
    ensures Coalesced(layouts[0]) ==>
              ((forall i | 0 <= i <= |ops| :: Coalesced(layouts[i])) <==> (forall i | 0 <= i < |ops| :: !CutsBeforeFree(base, layouts[i], ops[i])))
  {
    hide Coalesced, CutsBeforeFree, LayoutStep;
    if Coalesced(layouts[0]) {
      if forall i | 0 <= i <= |ops| :: Coalesced(layouts[i]) {
        forall i | 0 <= i < |ops| ensures !CutsBeforeFree(base, layouts[i], ops[i]) {
          assert LayoutStep(base, layouts[i], ops[i], results[i], layouts[i + 1]) && Coalesced(layouts[i + 1]);
          StepLaid(base, layouts[i], ops[i], results[i], layouts[i + 1]);
        }
      }
      if forall i | 0 <= i < |ops| :: !CutsBeforeFree(base, layouts[i], ops[i]) {
        forall i | 0 <= i <= |ops| ensures Coalesced(layouts[i]) {
          LaidUpTo(base, layouts, ops, results, i);
        }
      }
    }
  }

  lemma {:induction false} LaidUpTo(base: nat, layouts: seq<seq<Block>>, ops: seq<Op>, results: seq<nat>, i: nat)
    requires Laid(base, layouts, ops, results) && Coalesced(layouts[0]) && i <= |ops|
    requires forall j | 0 <= j < |ops| :: !CutsBeforeFree(base, layouts[j], ops[j])
    ensures Coalesced(layouts[i])
    decreases i
  {
    hide Coalesced, CutsBeforeFree, LayoutStep;
    if i > 0 {
      LaidUpTo(base, layouts, ops, results, i - 1);
      StepLaid(base, layouts[i - 1], ops[i - 1], results[i - 1], layouts[i]);
    }
  }

  lemma RunNone(lives: seq<Blocks>)
    requires |lives| == 1
    ensures IsRun(lives, [], [])
  {
  }

  /** The pointers a caller knows after an operation. */
  function NextKnown(known: set<nat>, op: Op, q: nat): (known': set<nat>)
  {
    match op
    case Malloc(_) => if q == 0 then known else known + {q}
    case Resize(p, _) => if q == 0 then known else known - {p} + {q}
    case Release(p) => known - {p}
    case Put(_, _, _) => known
  }

  lemma KnownNext(live: Blocks, op: Op, q: nat, live': Blocks)
    requires Outcome(live, op, q, live')
    ensures live'.Keys == NextKnown(live.Keys, op, q)
  {
  }

  /** Whether an operation is legal can be told from the pointers known and the headers. */
  method IsLegal(heap: Heap, known: set<nat>, op: Op) returns (legal: bool)
    requires heap.Valid() && known == heap.Contents().Keys
    ensures legal == Legal(heap.Contents(), op)
  {
    match op {
      case Malloc(_) =>
        legal := true;
      case Resize(p, _) =>
        legal := p == 0 || p in known;
      case Release(p) =>
        legal := p == 0 || p in known;
      case Put(p, i, _) =>
        legal := false;
        if p in known {
          var size := heap.SizeOf(p);
          legal := 16 * i < size;
        }
    }
  }

  lemma RunSnoc(lives: seq<Blocks>, ops: seq<Op>, results: seq<nat>, op: Op, q: nat, live: Blocks)
    requires IsRun(lives, ops, results) && Legal(lives[|ops|], op) && Outcome(lives[|ops|], op, q, live)
    ensures IsRun(lives + [live], ops + [op], results + [q])
  {
    hide Legal, Outcome;
  }
}
