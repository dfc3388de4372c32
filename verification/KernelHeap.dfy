/**
 kh_init, kh_alloc_aligned at the default alignment, kh_realloc and kh_free
 (kernel/heap.c), proved to keep the heap tiled and to behave as a map from
 pointers to block contents.
 */
module KernelHeap {
  import opened HeapLayout

  const WORD: nat := 0x1_0000_0000_0000_0000   // size_t is 64 bits wide

  /** ALIGN_UP (x, KH_DEFAULT_ALIGN) in size_t arithmetic. */
  function AlignUp(x: nat): (n: nat)
    ensures n % 16 == 0 && n < WORD
  {
    (x + 15) / 16 % (WORD / 16) * 16
  }

  /** The rounded size covers the request, except that requests within 15 bytes of
      the end of the number range wrap around to an empty block. */
  lemma AlignUpCovers(x: nat)
    requires x < WORD
    ensures AlignUp(x) >= x <==> x <= WORD - 16
    ensures x > WORD - 16 ==> AlignUp(x) == 0
    ensures x <= WORD - 16 ==> AlignUp(x) < x + 16
  {
  }

  lemma AlignUpAligned(n: nat)
    requires n < WORD && n % 16 == 0
    ensures AlignUp(n) == n
  {
  }

  /** The first block the search accepts, or the number of blocks if there is none. */
  function FirstFit(bs: seq<Block>, n: nat): (k: nat)
    ensures k <= |bs|
    ensures k < |bs| ==> Fits(bs[k], n)
    ensures forall j | 0 <= j < k :: !Fits(bs[j], n)
  {
    if bs == [] || Fits(bs[0], n) then 0 else 1 + FirstFit(bs[1..], n)
  }

  /** No block is found exactly if every one that is free is empty or too small. */
  lemma NoneFits(bs: seq<Block>, n: nat)
    ensures FirstFit(bs, n) == |bs| <==> forall j | 0 <= j < |bs| :: bs[j].used || bs[j].size == 0 || bs[j].size < n
  {
  }

  lemma FirstFitIs(bs: seq<Block>, n: nat, k: nat)
    requires k <= |bs| && (k < |bs| ==> Fits(bs[k], n)) && forall j | 0 <= j < k :: !Fits(bs[j], n)
    ensures FirstFit(bs, n) == k
  {
  }

  /** Blocks k and k + 1 become one. */
  function MergeAt(bs: seq<Block>, k: nat): (bs': seq<Block>)
    requires k + 1 < |bs|
  {
    bs[..k] + [Merge(bs[k], bs[k + 1])] + bs[k + 2..]
  }

  /** Release block k and unite it with free neighbours. */
  function Freed(bs: seq<Block>, k: nat): (bs': seq<Block>)
    requires k < |bs|
  {
    var bs0 := bs[k := Block(bs[k].size, false)];
    var back := k > 0 && !bs[k - 1].used;
    var bs1 := if back then MergeAt(bs0, k - 1) else bs0;
    var j := if back then k - 1 else k;
    if j + 1 < |bs1| && !bs1[j + 1].used then MergeAt(bs1, j) else bs1
  }

  /** The blocks after kh_alloc_aligned has taken block k for n bytes. */
  function Taken(bs: seq<Block>, k: nat, n: nat): (bs': seq<Block>)
    requires k < |bs|
  {
    bs[..k] + Carve(Block(bs[k].size, true), n) + bs[k + 1..]
  }

  /** The blocks after kh_realloc has cut block k down to n bytes, or let it take over the one after it. */
  function Shrunk(bs: seq<Block>, k: nat, n: nat): (bs': seq<Block>)
    requires k < |bs|
  {
    bs[..k] + Carve(bs[k], n) + bs[k + 1..]
  }

  function Grown(bs: seq<Block>, k: nat, n: nat): (bs': seq<Block>)
    requires k + 1 < |bs|
  {
    bs[..k] + Carve(Block(bs[k].size + OVERHEAD + bs[k + 1].size, true), n) + bs[k + 2..]
  }

  /** The pointer p is that of block k. */
  ghost predicate PointsTo(base: nat, bs: seq<Block>, p: nat, k: nat)
  {
    k < |bs| && p == End(base, bs[..k]) + 16
  }

  /** The free block after block k makes it large enough for n bytes. */
  predicate CanGrow(bs: seq<Block>, k: nat, n: nat)
    requires k < |bs|
  {
    k + 1 < |bs| && !bs[k + 1].used && bs[k].size + OVERHEAD + bs[k + 1].size >= n
  }

  /** What kh_realloc of a block k in use, to n bytes, makes of the blocks: it is cut if it is large
      enough, takes over the next if that is enough, and else is released after the first free block
      with room has been taken, if there is one. */
  ghost predicate ResizeLayout(bs: seq<Block>, k: nat, n: nat, bs': seq<Block>)
    requires k < |bs|
  {
    if n <= bs[k].size then bs' == Shrunk(bs, k, n)
    else if CanGrow(bs, k, n) then bs' == Grown(bs, k, n)
    else if FirstFit(bs, n) == |bs| then bs' == bs
    else MoveLayout(bs, n, bs')
  }

  /** A block has been taken, and then one released. */
  ghost predicate MoveLayout(bs: seq<Block>, n: nat, bs': seq<Block>)
  {
    exists i: nat :: MovedTo(bs, n, i, bs')
  }

  ghost predicate MovedTo(bs: seq<Block>, n: nat, i: nat, bs': seq<Block>)
  {
    var j := FirstFit(bs, n);
    j < |bs| && i < |Taken(bs, j, n)| && bs' == Freed(Taken(bs, j, n), i)
  }

  /** The first free block with room has been taken, if there is one. */
  ghost predicate TakeLayout(bs: seq<Block>, n: nat, bs': seq<Block>)
  {
    bs' == if FirstFit(bs, n) == |bs| then bs else Taken(bs, FirstFit(bs, n), n)
  }

  /** The same for any pointer: for one that is not that of a block in use, a block is taken, or nothing is done. */
  ghost predicate ReallocLayout(base: nat, bs: seq<Block>, p: nat, n: nat, bs': seq<Block>)
  {
    || (exists k: nat :: PointsTo(base, bs, p, k) && bs[k].used && ResizeLayout(bs, k, n, bs'))
    || ((forall k: nat :: PointsTo(base, bs, p, k) ==> !bs[k].used) && (bs' == bs || TakeLayout(bs, n, bs')))
  }

  /** What kh_realloc answers for a block k in use, at p: p itself exactly if the block is or can be made
      large enough, and 0 exactly if neither is so and no free block has room. */
  ghost predicate ResizeAnswer(bs: seq<Block>, k: nat, n: nat, p: nat, q: nat)
    requires k < |bs|
  {
    && (q == p <==> n <= bs[k].size || CanGrow(bs, k, n))
    && (q == 0 <==> n > bs[k].size && !CanGrow(bs, k, n) && FirstFit(bs, n) == |bs|)
  }

  /** Block contents after a resize to n bytes: room enough, less than 64 bytes too much, and the
      common part kept. */
  ghost predicate Resized(d: seq<Unit>, d': seq<Unit>, n: nat)
  {
    && n <= 16 * |d'| < n + 64
    && forall i | 0 <= i < |d| && 16 * i < n :: d'[i] == d[i]
  }

  class Heap {
    const base: nat
    const end: nat
    var mem: Mem
    ghost var blocks: seq<Block>

    ghost predicate Valid()
      reads this
    {
      && base % 16 == 0 && 0 < base
      && Tiles(mem, base, blocks) && End(base, blocks) == end
    }

    /** p is the pointer to the data of some block, in use or not. */
    ghost predicate IsBlock(p: nat)
      reads this
    {
      exists k | 0 <= k < |blocks| :: p == End(base, blocks[..k]) + 16
    }

    /** What lies before p does not look like a header. */
    predicate BadPointer(p: nat)
      reads this
    {
      p != 0 && (p < 16 || At(mem, p - 16).lo != HEADER_MAGIC)
    }

    ghost function Contents(): (live: map<nat, seq<Unit>>)
      reads this
    {
      Live(mem, base, blocks)
    }

    /** A pointer that has been handed out is one the heap knows. */
    lemma Known(p: nat)
      requires Valid() && (p == 0 || p in Contents())
      ensures p == 0 || IsBlock(p)
      ensures !BadPointer(p)
    {
      if p != 0 {
        LiveBlock(mem, base, blocks, p);
      }
    }

    /** The size in the header of a live block. */
    method SizeOf(p: nat) returns (size: nat)
      requires Valid() && p in Contents()
      ensures |Contents()[p]| == size / 16 && size % 16 == 0
    {
      hide Tiles, Live, End;
      ghost var k := LiveIndex(mem, base, blocks, p);
      TileAt(mem, base, blocks, k);
      size := mem[p - 16].word;
    }

    /** The pointers to the blocks in use, found by walking the headers. */
    method Pointers() returns (ps: set<nat>)
      requires Valid()
      ensures ps == Contents().Keys
    {
      hide Tiles, Live, End;
      ps := {};
      var h := base;
      ghost var k := 0;
      WalkNone(mem, base, blocks);
      while h < end
        invariant k <= |blocks| && h == End(base, blocks[..k]) && ps == Live(mem, base, blocks[..k]).Keys
        decreases |blocks| - k
      {
        WalkOn(mem, base, blocks, k);
        TileAt(mem, base, blocks, k);
        if mem[h].hi % 2 == 1 {
          ps := ps + {h + 16};
        }
        h := h + OVERHEAD + mem[h].word;
        k := k + 1;
      }
      WalkDone(mem, base, blocks, k);
    }

    /** kh_init. */
    constructor (base: nat, size: nat)
      requires base % 16 == 0 && 0 < base && size % 16 == 0 && size >= OVERHEAD
      ensures Valid() && this.base == base && end == base + size
      ensures blocks == [Block(size - OVERHEAD, false)] && Contents() == map[]
    {
      this.base := base;
      this.end := base + size;
      mem := map[][base := Unit(HEADER_MAGIC, 0, size - OVERHEAD)][base + size - 16 := Unit(TAIL_MAGIC, 0, base)];
      blocks := [Block(size - OVERHEAD, false)];
      new;
      EndOne(base, blocks[0]);
      LiveOne(mem, base, blocks[0]);
      assert blocks[1..] == [];
    }

    /** kh_alloc_aligned (size, KH_DEFAULT_ALIGN). */
    method Alloc(size: nat) returns (p: nat)
      requires Valid()
      modifies this
      ensures Valid()
      ensures var n := AlignUp(size);
        var k := FirstFit(old(blocks), n);
        if k == |old(blocks)| then p == 0 && mem == old(mem) && blocks == old(blocks)
        else
          && p == End(base, old(blocks)[..k]) + 16
          && blocks == Taken(old(blocks), k, n)
      ensures p == 0 <==> forall j | 0 <= j < |old(blocks)| :: old(blocks)[j].used || old(blocks)[j].size == 0 || old(blocks)[j].size < AlignUp(size)
      ensures p != 0 ==>
        && p % 16 == 0 && p !in old(Contents()) && p in Contents()
        && Contents() == old(Contents())[p := Contents()[p]]
        && AlignUp(size) <= 16 * |Contents()[p]| < AlignUp(size) + 64
        && (size <= WORD - 16 ==> 16 * |Contents()[p]| >= size)
    {
      hide Tiles, Live, End, FirstFit, AlignUp, Carve;
      if size <= WORD - 16 {
        AlignUpCovers(size);
      }
      var n := AlignUp(size);
      var h, found;
      ghost var k;
      found, h, k := Search(n);
      NoneFits(blocks, n);
      p := 0;
      if found {
        Take(h, n, k);
        p := h + 16;
      }
    }

    /** The loop of kh_alloc_aligned: the first block that fits. */
    method Search(n: nat) returns (found: bool, h: nat, ghost k: nat)
      requires Valid()
      ensures k == FirstFit(blocks, n) && h == End(base, blocks[..k])
      ensures found <==> k < |blocks|
    {
      hide Tiles, Live, End;
      h, k := base, 0;
      WalkNone(mem, base, blocks);
      while true
        invariant k <= |blocks| && h == End(base, blocks[..k])
        invariant forall j | 0 <= j < k :: !Fits(blocks[j], n)
        decreases |blocks| - k
      {
        if h >= end {
          if k < |blocks| { EndBefore(base, blocks, k); }
          FirstFitIs(blocks, n, k);
          return false, h, k;
        }
        WalkOn(mem, base, blocks, k);
        TileAt(mem, base, blocks, k);
        if mem[h].lo != HEADER_MAGIC {
          assert false;   // EUCLEAN is never reported
        }
        var t := h + mem[h].word + 16;
        if mem[t].lo != TAIL_MAGIC || mem[t].word != h {
          assert false;
        }
        if mem[h].hi % 2 == 0 {
          if h + 16 < t && t - (h + 16) >= n {
            FirstFitIs(blocks, n, k);
            return true, h, k;
          }
        }
        h := t + 16;
        k := k + 1;
      }
    }

    /** The end of kh_alloc_aligned: cut the block at h if worth it, and mark it. */
    method Take(h: nat, n: nat, ghost k: nat)
      requires Valid() && k < |blocks| && h == End(base, blocks[..k]) && Fits(blocks[k], n) && n % 16 == 0
      modifies this
      ensures Valid()
      ensures blocks == old(blocks)[..k] + Carve(Block(old(blocks)[k].size, true), n) + old(blocks)[k + 1..]
      ensures var p := h + 16;
        && p % 16 == 0 && p !in old(Contents()) && p in Contents()
        && Contents() == old(Contents())[p := Contents()[p]]
        && n <= 16 * |Contents()[p]| < n + 64
    {
      ghost var m0, bs := mem, blocks;
      hide Tiles, Live, End;
      TileAt(mem, base, blocks, k);
      var size := mem[h].word;
      if size >= n + OVERHEAD + MIN_SPLIT {
        Cut(h, n, size);
      }
      mem := mem[h := Unit(mem[h].lo, 1, mem[h].word)];
      assert mem == CarveMem(m0, h, n, size);
      blocks := bs[..k] + Carve(Block(size, true), n) + bs[k + 1..];
      TakeLemma(m0, base, bs, k, n);
      EndAligned(m0, base, bs, k);
    }

    /** The block at h, which has room for `size` bytes, becomes two: one of n bytes, with the same
        flag and the first n bytes of the data, and a free one of the rest. Memory outside of
        them is not touched. */
    method Cut(h: nat, n: nat, size: nat)
      requires h in mem && mem[h].lo == HEADER_MAGIC && mem[h].hi <= 1 && size >= n + OVERHEAD + MIN_SPLIT
      requires n % 16 == 0 && size % 16 == 0
      requires h + 16 + size in mem && mem[h + 16 + size].lo == TAIL_MAGIC && mem[h + 16 + size].hi == 0
      modifies `mem
      ensures Tiles(mem, h, [Block(n, old(mem)[h].hi == 1), Block(size - n - OVERHEAD, false)])
      ensures AgreeOutside(old(mem), mem, h, h + OVERHEAD + size)
      ensures Data(mem, h + 16, n) == Data(old(mem), h + 16, size)[..n / 16]
      ensures mem == CutMem(old(mem), h, n, size, old(mem)[h].hi == 1)
    {
      hide Tiles, AgreeOutside, Data, Live;
      CutTiles(mem, h, n, size, mem[h].hi == 1);
      var tail := h + 16 + size;
      var newTail := h + 16 + n;
      mem := mem[newTail := Unit(TAIL_MAGIC, 0, h)];
      var newHeader := newTail + 16;
      mem := mem[newHeader := Unit(HEADER_MAGIC, 0, size - n - OVERHEAD)];
      mem := mem[tail := Unit(mem[tail].lo, mem[tail].hi, newHeader)];
      mem := mem[h := Unit(mem[h].lo, mem[h].hi, n)];
    }

    /** kh_realloc. What is not a pointer to a block is refused if that can be seen; for a block that is
        not in use a new one is allocated. */
    method Realloc(p: nat, size: nat) returns (q: nat)
      requires Valid() && (p == 0 || BadPointer(p) || IsBlock(p))
      modifies this
      ensures Valid()
      ensures q == 0 ==> Contents() == old(Contents())
      ensures q == 0 ==> old(BadPointer(p)) || FirstFit(old(blocks), AlignUp(size)) == |old(blocks)|
      ensures old(BadPointer(p)) ==> q == 0
      ensures q != 0 ==>
        && q % 16 == 0 && q in Contents() && (q == p || q !in old(Contents()))
        && Contents() == (old(Contents()) - {p})[q := Contents()[q]]
        && AlignUp(size) <= 16 * |Contents()[q]| < AlignUp(size) + 64
        && (p in old(Contents()) ==> Resized(old(Contents())[p], Contents()[q], AlignUp(size)))
      ensures ReallocLayout(base, old(blocks), p, AlignUp(size), blocks)
      ensures forall k: nat :: PointsTo(base, old(blocks), p, k) && old(blocks)[k].used ==> ResizeAnswer(old(blocks), k, AlignUp(size), p, q)
    {
      hide Tiles, Live, End, ResizeLayout, TakeLayout, PointsTo, ResizeAnswer;
      NullNotLive(mem, base, blocks);
      NotInUse(mem, base, blocks, p);
      if p == 0 {
        q := AllocLaid(size);
        return;
      }
      var n := AlignUp(size);
      if p < 16 || At(mem, p - 16).lo != HEADER_MAGIC {
        return 0;   // EFAULT
      }
      ghost var k: nat :| k < |blocks| && p == End(base, blocks[..k]) + 16;
      var h := p - 16;
      TileAt(mem, base, blocks, k);
      BlockLive(mem, base, blocks, k);
      PointsOnly(base, blocks, p, k);
      if mem[h].hi % 2 == 0 {
        AlignUpAligned(n);
        q := AllocLaid(n);
        return;
      }
      q := ResizeBlock(p, n, k);
    }

    /** kh_alloc_aligned, as the blocks see it. */
    method AllocLaid(size: nat) returns (p: nat)
      requires Valid()
      modifies this
      ensures Valid()
      ensures TakeLayout(old(blocks), AlignUp(size), blocks)
      ensures var k := FirstFit(old(blocks), AlignUp(size));
        p == if k == |old(blocks)| then 0 else End(base, old(blocks)[..k]) + 16
      ensures p == 0 ==> mem == old(mem) && blocks == old(blocks) && FirstFit(blocks, AlignUp(size)) == |blocks|
      ensures p != 0 ==>
        && p % 16 == 0 && p !in old(Contents()) && p in Contents()
        && Contents() == old(Contents())[p := Contents()[p]]
        && AlignUp(size) <= 16 * |Contents()[p]| < AlignUp(size) + 64
    {
      hide Tiles, Live, End, Taken;
      p := Alloc(size);
    }

    /** kh_realloc for a block in use, of n bytes. */
    method ResizeBlock(p: nat, n: nat, ghost k: nat) returns (q: nat)
      requires Valid() && k < |blocks| && blocks[k].used && p == End(base, blocks[..k]) + 16
      requires n % 16 == 0 && n < WORD
      requires p in Contents() && Contents()[p] == Data(mem, p, blocks[k].size)
      modifies this
      ensures Valid()
      ensures q == 0 ==> Contents() == old(Contents()) && FirstFit(old(blocks), n) == |old(blocks)|
      ensures q != 0 ==>
        && q % 16 == 0 && q in Contents() && (q == p || q !in old(Contents()))
        && Contents() == (old(Contents()) - {p})[q := Contents()[q]]
        && Resized(old(Contents())[p], Contents()[q], n)
      ensures ResizeLayout(old(blocks), k, n, blocks)
      ensures ResizeAnswer(old(blocks), k, n, p, q)
    {
      hide Tiles, Live, End, Grown, Shrunk, MoveLayout;
      NullNotLive(mem, base, blocks);
      var h := p - 16;
      TileAt(mem, base, blocks, k);
      if n > mem[h].word {
        var grown := Grow(h, n, k);
        if grown {
          q := p;
        } else {
          q := Move(p, n);
        }
      } else {
        Shrink(h, n, k);
        q := p;
      }
    }

    /** Give the block at h room for n bytes by taking over the free block after it, if that is enough. */
    method Grow(h: nat, n: nat, ghost k: nat) returns (grown: bool)
      requires Valid() && k < |blocks| && blocks[k].used && h == End(base, blocks[..k])
      requires n % 16 == 0 && n > blocks[k].size
      requires h + 16 in Contents() && Contents()[h + 16] == Data(mem, h + 16, blocks[k].size)
      modifies this
      ensures Valid()
      ensures grown <==> CanGrow(old(blocks), k, n)
      ensures !grown ==> mem == old(mem) && blocks == old(blocks)
      ensures grown ==>
        && blocks == Grown(old(blocks), k, n)
        && (h + 16) % 16 == 0 && h + 16 in Contents()
        && Contents() == old(Contents())[h + 16 := Contents()[h + 16]]
        && Resized(old(Contents())[h + 16], Contents()[h + 16], n)
    {
      hide Tiles, Live, End;
      grown := false;
      TileAt(mem, base, blocks, k);
      var next := h + OVERHEAD + mem[h].word;
      if next < end {
        TileAt(mem, base, blocks, k + 1);
        var total := mem[h].word + OVERHEAD + mem[next].word;
        if mem[next].hi % 2 == 0 && total >= n {
          GrowLemma(mem, base, blocks, k, n);
          EndAligned(mem, base, blocks, k);
          ghost var m0 := mem;
          if total - n >= OVERHEAD + MIN_SPLIT {
            Cut(h, n, total);
          } else {
            var tail := next + 16 + mem[next].word;
            mem := mem[tail := Unit(mem[tail].lo, mem[tail].hi, h)];
            mem := mem[h := Unit(mem[h].lo, mem[h].hi, total)];
          }
          assert mem == CarveMem(m0, h, n, total);
          blocks := blocks[..k] + Carve(Block(total, true), n) + blocks[k + 2..];
          grown := true;
        }
      }
    }

    /** Give up what the block at h has beyond n bytes, if that makes a block of its own. */
    method Shrink(h: nat, n: nat, ghost k: nat)
      requires Valid() && k < |blocks| && blocks[k].used && h == End(base, blocks[..k])
      requires n % 16 == 0 && n <= blocks[k].size
      requires h + 16 in Contents() && Contents()[h + 16] == Data(mem, h + 16, blocks[k].size)
      modifies this
      ensures Valid() && blocks == Shrunk(old(blocks), k, n)
      ensures (h + 16) % 16 == 0 && h + 16 in Contents()
      ensures Contents() == old(Contents())[h + 16 := Contents()[h + 16]]
      ensures Resized(old(Contents())[h + 16], Contents()[h + 16], n)
    {
      hide Tiles, Live, End;
      TileAt(mem, base, blocks, k);
      ShrinkLemma(mem, base, blocks, k, n);
      EndAligned(mem, base, blocks, k);
      ghost var m0 := mem;
      var size := mem[h].word;
      if size - n >= OVERHEAD + MIN_SPLIT {
        Cut(h, n, size);
      }
      assert mem == CarveMem(m0, h, n, size);
      blocks := blocks[..k] + Carve(Block(size, true), n) + blocks[k + 1..];
    }

    /** Move the block at p to a new one of n bytes. */
    method Move(p: nat, n: nat) returns (q: nat)
      requires Valid() && p in Contents() && n % 16 == 0 && n < WORD && 16 * |Contents()[p]| < n
      modifies this
      ensures Valid()
      ensures q == 0 ==> Contents() == old(Contents()) && FirstFit(old(blocks), n) == |old(blocks)|
      ensures q != 0 ==>
        && q % 16 == 0 && q in Contents() && q !in old(Contents())
        && Contents() == (old(Contents()) - {p})[q := Contents()[q]]
        && Resized(old(Contents())[p], Contents()[q], n)
      ensures q == 0 <==> FirstFit(old(blocks), n) == |old(blocks)|
      ensures if q == 0 then blocks == old(blocks) else MoveLayout(old(blocks), n, blocks)
    {
      hide Tiles, Live, End, Taken, Freed, MoveLayout;
      ghost var live := Contents();
      ghost var d := live[p];
      AlignUpAligned(n);
      q := Alloc(n);
      if q == 0 { return; }
      ghost var k := LiveIndex(mem, base, blocks, p);
      TileAt(mem, base, blocks, k);
      var size := mem[p - 16].word;
      ghost var room := |Contents()[q]|;
      ghost var taken := blocks;
      var i := 0;
      while 16 * i < size
        invariant Valid() && q in Contents() && p in Contents() && Contents()[p] == d
        invariant Contents() == live[q := Contents()[q]]
        invariant |Contents()[q]| == room && i <= |d| == size / 16 && blocks == taken
        invariant forall j | 0 <= j < i :: Contents()[q][j] == d[j]
        decreases |d| - i
      {
        ReadUnit(mem, base, blocks, p, i);
        Store(q, i, At(mem, p + 16 * i));
        i := i + 1;
      }
      LiveBlock(mem, base, blocks, p);
      var ok := Free(p);
      MoveIs(old(blocks), n, taken, blocks);
    }

    /** A user of the heap stores one unit in its block. */
    method Store(p: nat, i: nat, u: Unit)
      requires Valid() && p in Contents() && i < |Contents()[p]|
      modifies `mem
      ensures Valid() && Contents() == old(Contents())[p := old(Contents())[p][i := u]]
      ensures mem == old(mem)[p + 16 * i := u]
    {
      StoreLemma(mem, base, blocks, p, i, u);
      mem := mem[p + 16 * i := u];
    }

    /** kh_free. */
    method Free(p: nat) returns (ok: bool)
      requires Valid() && (p == 0 || BadPointer(p) || IsBlock(p))
      modifies this
      ensures Valid() && ok == !old(BadPointer(p))
      ensures p == 0 || !ok ==> mem == old(mem) && blocks == old(blocks)
      ensures ok ==> Contents() == old(Contents()) - {p}
      ensures p != 0 && ok ==> exists k | 0 <= k < |old(blocks)| ::
                p == End(base, old(blocks)[..k]) + 16 && blocks == Freed(old(blocks), k)
    {
      hide Tiles, Live, End, MergeAt;
      ok := true;
      if p == 0 {
        NullNotLive(mem, base, blocks);
        return;
      }
      if p < 16 || At(mem, p - 16).lo != HEADER_MAGIC {
        return false;   // EFAULT
      }
      ghost var k: nat :| k < |blocks| && p == End(base, blocks[..k]) + 16;
      var h := p - 16;
      MarkFree(h, k);
      ghost var j;
      h, j := UniteBack(h, k);
      UniteForward(h, j);
      assert blocks == Freed(old(blocks), k);
    }

    method MarkFree(h: nat, ghost k: nat)
      requires Valid() && k < |blocks| && h == End(base, blocks[..k])
      modifies this
      ensures Valid() && blocks == old(blocks)[k := Block(old(blocks)[k].size, false)]
      ensures h == End(base, blocks[..k])
      ensures Contents() == old(Contents()) - {h + 16}
    {
      hide Tiles, Live, End;
      TileAt(mem, base, blocks, k);
      ClearLemma(mem, base, blocks, k);
      mem := mem[h := Unit(mem[h].lo, 0, mem[h].word)];
      blocks := blocks[k := Block(blocks[k].size, false)];
    }

    /** Unify the free block at h with a preceding free block. */
    method UniteBack(h: nat, ghost k: nat) returns (h': nat, ghost j: nat)
      requires Valid() && k < |blocks| && !blocks[k].used && h == End(base, blocks[..k])
      modifies this
      ensures Valid() && Contents() == old(Contents())
      ensures if k > 0 && !old(blocks)[k - 1].used then j == k - 1 && blocks == MergeAt(old(blocks), j)
              else j == k && blocks == old(blocks)
      ensures j < |blocks| && !blocks[j].used && h' == End(base, blocks[..j])
    {
      hide Tiles, Live, End;
      h', j := h, k;
      TileAt(mem, base, blocks, k);
      PrevTail(mem, base, blocks, k);
      if h >= base + 16 {
        TileAt(mem, base, blocks, k - 1);
        var prev := mem[h - 16].word;
        if mem[h].hi == mem[prev].hi {
          MergeLemma(mem, base, blocks, k - 1);
          ghost var m0 := mem;
          var tail := h + 16 + mem[h].word;
          var size := mem[prev].word + mem[h].word + OVERHEAD;
          mem := mem[prev := Unit(mem[prev].lo, mem[prev].hi, size)];
          mem := mem[tail := Unit(mem[tail].lo, mem[tail].hi, prev)];
          assert mem == JoinMem(m0, prev, size, false);
          h', j := prev, k - 1;
          blocks := MergeAt(blocks, j);
          assert blocks[..j] == old(blocks)[..j];
        }
      }
    }

    /** Unify the free block at h with a following free block. */
    method UniteForward(h: nat, ghost j: nat)
      requires Valid() && j < |blocks| && !blocks[j].used && h == End(base, blocks[..j])
      modifies this
      ensures Valid() && Contents() == old(Contents())
      ensures blocks == if j + 1 < |old(blocks)| && !old(blocks)[j + 1].used then MergeAt(old(blocks), j) else old(blocks)
    {
      hide Tiles, Live, End, MergeAt, BlockAt;
      EndBefore(base, blocks, j);
      HeaderAt(mem, base, blocks, j);
      if j + 1 < |blocks| {
        EndBefore(base, blocks, j + 1);
      }
      var next := h + OVERHEAD + mem[h].word;
      if next < end {
        HeaderAt(mem, base, blocks, j + 1);
        if mem[h].hi == mem[next].hi {
          MergeLemma(mem, base, blocks, j);
          ghost var m0 := mem;
          var tail := next + 16 + mem[next].word;
          var size := mem[h].word + OVERHEAD + mem[next].word;
          mem := mem[h := Unit(mem[h].lo, mem[h].hi, size)];
          mem := mem[tail := Unit(mem[tail].lo, mem[tail].hi, h)];
          assert mem == JoinMem(m0, h, size, false);
          blocks := MergeAt(blocks, j);
        }
      }
    }
  }

  /** What is where block k is, and where the next one begins. */
  lemma {:induction false} HeaderAt(mem: Mem, base: nat, bs: seq<Block>, k: nat)
    requires Tiles(mem, base, bs) && k <= |bs| && End(base, bs[..k]) < End(base, bs)
    ensures k < |bs|
    ensures var h := End(base, bs[..k]);
      && h in mem && mem[h] == Header(bs[k])
      && h + 16 + bs[k].size in mem && mem[h + 16 + bs[k].size] == Tail(h)
      && End(base, bs[..k + 1]) == h + OVERHEAD + bs[k].size
  {
    hide Tiles, Live, End;
    WalkOn(mem, base, bs, k);
    TileAt(mem, base, bs, k);
  }

  lemma {:induction false} EndBefore(base: nat, bs: seq<Block>, k: nat)
    requires k < |bs|
    ensures End(base, bs[..k]) < End(base, bs)
  {
    hide End;
    assert bs == bs[..k] + bs[k..];
    EndConcat(base, bs[..k], bs[k..]);
    EndLater(End(base, bs[..k]), bs[k..]);
  }

  lemma EndLater(a: nat, bs: seq<Block>)
    requires bs != []
    ensures End(a, bs) > a
  {
  }

  /** 0 is not a pointer into the heap. */
  lemma NullNotLive(mem: Mem, base: nat, bs: seq<Block>)
    ensures 0 !in Live(mem, base, bs)
  {
    if 0 in Live(mem, base, bs) {
      LiveBounds(mem, base, bs, 0);
    }
  }

  lemma {:induction false} StoreLemma(mem: Mem, base: nat, bs: seq<Block>, p: nat, i: nat, u: Unit)
    requires Tiles(mem, base, bs) && p in Live(mem, base, bs) && i < |Live(mem, base, bs)[p]|
    ensures var mem' := mem[p + 16 * i := u];
      && Tiles(mem', base, bs)
      && Live(mem', base, bs) == Live(mem, base, bs)[p := Live(mem, base, bs)[p][i := u]]
  {
    hide Tiles, Live;
    var k := LiveIndex(mem, base, bs, p);
    TileAt(mem, base, bs, k);
    var pre, b, post := bs[..k], bs[k], bs[k + 1..];
    var h := End(base, pre);
    var mem' := mem[p + 16 * i := u];
    EndOne(h, b);
    OneTile(mem', h, b);
    LiveOne(mem, h, b);
    LiveOne(mem', h, b);
    assert Data(mem', p, b.size) == Data(mem, p, b.size)[i := u];
    Relayout(mem, mem', base, pre, [b], [b], post);
    PointerApart(mem, base, pre, h + OVERHEAD + b.size, post, p);
  }

  lemma OneTile(mem: Mem, h: nat, b: Block)
    requires BlockAt(mem, h, b)
    ensures Tiles(mem, h, [b])
  {
    assert [b][1..] == [];
  }

  lemma WalkNone(mem: Mem, base: nat, bs: seq<Block>)
    ensures End(base, bs[..0]) == base && Live(mem, base, bs[..0]).Keys == {}
  {
  }

  /** One more block of the walk over the headers. */
  lemma {:induction false} WalkOn(mem: Mem, base: nat, bs: seq<Block>, k: nat)
    requires Tiles(mem, base, bs) && k <= |bs| && End(base, bs[..k]) < End(base, bs)
    ensures k < |bs| && End(base, bs[..k + 1]) == End(base, bs[..k]) + OVERHEAD + bs[k].size
    ensures Live(mem, base, bs[..k + 1]).Keys ==
            Live(mem, base, bs[..k]).Keys + if bs[k].used then {End(base, bs[..k]) + 16} else {}
  {
    hide Tiles, Live, End;
    assert bs[..|bs|] == bs;
    assert bs[..k + 1] == bs[..k] + [bs[k]];
    EndConcat(base, bs[..k], [bs[k]]);
    EndOne(End(base, bs[..k]), bs[k]);
    LiveConcat(mem, base, bs[..k], [bs[k]]);
    LiveOne(mem, End(base, bs[..k]), bs[k]);
  }

  lemma {:induction false} WalkDone(mem: Mem, base: nat, bs: seq<Block>, k: nat)
    requires k <= |bs| && End(base, bs[..k]) >= End(base, bs)
    ensures bs[..k] == bs
  {
    if k < |bs| {
      assert bs == bs[..k] + bs[k..];
      EndConcat(base, bs[..k], bs[k..]);
    }
  }

  /** A pointer that is not live, or has no header before it, is not that of a block in use. */
  lemma {:induction false} NotInUse(mem: Mem, base: nat, bs: seq<Block>, p: nat)
    requires Tiles(mem, base, bs)
    ensures p == 0 || p < 16 || At(mem, p - 16).lo != HEADER_MAGIC ==> forall k: nat :: PointsTo(base, bs, p, k) ==> !bs[k].used
  {
    hide Tiles, Live, End;
    if p == 0 || p < 16 || At(mem, p - 16).lo != HEADER_MAGIC {
      forall k: nat | PointsTo(base, bs, p, k) ensures !bs[k].used {
        TileAt(mem, base, bs, k);
      }
    }
  }

  lemma {:induction false} PointsOnly(base: nat, bs: seq<Block>, p: nat, k: nat)
    requires k < |bs| && p == End(base, bs[..k]) + 16
    ensures PointsTo(base, bs, p, k) && forall j: nat :: PointsTo(base, bs, p, j) ==> j == k
  {
    hide End;
    forall j: nat | PointsTo(base, bs, p, j) ensures j == k {
      if j < k {
        EndsApart(base, bs, j, k);
      } else if k < j {
        EndsApart(base, bs, k, j);
      }
    }
  }

  lemma {:induction false} EndsApart(base: nat, bs: seq<Block>, j: nat, k: nat)
    requires j < k <= |bs|
    ensures End(base, bs[..j]) < End(base, bs[..k])
  {
    hide End;
    EndBefore(base, bs[..k], j);
    assert bs[..k][..j] == bs[..j];
  }

  lemma MoveIs(bs: seq<Block>, n: nat, taken: seq<Block>, bs': seq<Block>)
    requires FirstFit(bs, n) < |bs| && taken == Taken(bs, FirstFit(bs, n), n)
    requires exists i | 0 <= i < |taken| :: bs' == Freed(taken, i)
    ensures MoveLayout(bs, n, bs')
  {
    hide Taken, Freed;
    var i: nat :| i < |taken| && bs' == Freed(taken, i);
    assert MovedTo(bs, n, i, bs');
  }

  /** The pointer of a block is live if the block is in use, with the data of the block. */
  lemma {:induction false} BlockLive(mem: Mem, base: nat, bs: seq<Block>, k: nat)
    requires Tiles(mem, base, bs) && k < |bs|
    ensures var p := End(base, bs[..k]) + 16;
      && (p in Live(mem, base, bs) <==> bs[k].used)
      && (bs[k].used ==> Live(mem, base, bs)[p] == Data(mem, p, bs[k].size))
  {
    hide Tiles, Live;
    TileAt(mem, base, bs, k);
    var pre, b, post := bs[..k], bs[k], bs[k + 1..];
    var h := End(base, pre);
    assert bs == pre + [b] + post;
    EndConcat(base, pre, [b]);
    EndOne(h, b);
    LiveConcat(mem, base, pre + [b], post);
    LiveConcat(mem, base, pre, [b]);
    LiveOne(mem, h, b);
    PointerApart(mem, base, pre, h + OVERHEAD + b.size, post, h + 16);
  }

  /** A live pointer is that of a block. */
  lemma LiveBlock(mem: Mem, base: nat, bs: seq<Block>, p: nat)
    requires Tiles(mem, base, bs) && p in Live(mem, base, bs)
    ensures exists k | 0 <= k < |bs| :: p == End(base, bs[..k]) + 16
    ensures p >= 16 && At(mem, p - 16).lo == HEADER_MAGIC
  {
    hide Tiles, Live, End;
    var k := LiveIndex(mem, base, bs, p);
    TileAt(mem, base, bs, k);
  }

  /** Clearing the flag of a block. */
  lemma {:induction false} ClearLemma(mem: Mem, base: nat, bs: seq<Block>, k: nat)
    requires Tiles(mem, base, bs) && k < |bs|
    ensures var h := End(base, bs[..k]);
      var mem' := mem[h := Unit(HEADER_MAGIC, 0, bs[k].size)];
      var bs' := bs[k := Block(bs[k].size, false)];
      && Tiles(mem', base, bs') && End(base, bs') == End(base, bs)
      && Live(mem', base, bs') == Live(mem, base, bs) - {h + 16}
      && bs'[..k] == bs[..k]
  {
    hide Tiles, Live;
    TileAt(mem, base, bs, k);
    var pre, b, post := bs[..k], bs[k], bs[k + 1..];
    var h := End(base, pre);
    var b' := Block(b.size, false);
    var mem' := mem[h := Header(b')];
    EndOne(h, b);
    EndOne(h, b');
    OneTile(mem', h, b');
    LiveOne(mem, h, b);
    LiveOne(mem', h, b');
    Relayout(mem, mem', base, pre, [b], [b'], post);
    PointerApart(mem, base, pre, h + OVERHEAD + b.size, post, h + 16);
    assert bs[k := b'] == pre + [b'] + post;
  }

  /** The unit before a block's header is the tail of the block before it. */
  lemma {:induction false} PrevTail(mem: Mem, base: nat, bs: seq<Block>, k: nat)
    requires Tiles(mem, base, bs) && k < |bs|
    ensures var h := End(base, bs[..k]);
      && (k == 0 <==> h == base) && (k > 0 ==> h >= base + OVERHEAD)
      && (k > 0 ==> At(mem, h - 16) == Tail(End(base, bs[..k - 1])))
  {
    if k > 0 {
      TileAt(mem, base, bs, k - 1);
    }
  }

  /** Uniting two free blocks. */
  lemma {:induction false} MergeLemma(mem: Mem, base: nat, bs: seq<Block>, k: nat)
    requires Tiles(mem, base, bs) && k + 1 < |bs| && !bs[k].used && !bs[k + 1].used
    ensures var h := End(base, bs[..k]);
      var mem' := JoinMem(mem, h, bs[k].size + OVERHEAD + bs[k + 1].size, false);
      var bs' := MergeAt(bs, k);
      && Tiles(mem', base, bs') && End(base, bs') == End(base, bs)
      && Live(mem', base, bs') == Live(mem, base, bs)
  {
    hide Tiles, Live, AgreeOutside;
    TileAt(mem, base, bs, k);
    TileAt(mem, base, bs, k + 1);
    var pre, x, y, post := bs[..k], bs[k], bs[k + 1], bs[k + 2..];
    var h := End(base, pre);
    var size := x.size + OVERHEAD + y.size;
    assert bs == pre + [x, y] + post;
    JoinTiles(mem, h, size, false);
    EndTwo(h, x, y);
    EndOne(h, Block(size, false));
    LiveTwo(mem, h, x, y);
    Relayout(mem, JoinMem(mem, h, size, false), base, pre, [x, y], [Block(size, false)], post);
  }

  lemma {:induction false} GrowLemma(mem: Mem, base: nat, bs: seq<Block>, k: nat, n: nat)
    requires Tiles(mem, base, bs) && k + 1 < |bs| && bs[k].used && !bs[k + 1].used && n % 16 == 0
    requires bs[k].size < n <= bs[k].size + OVERHEAD + bs[k + 1].size
    ensures var h := End(base, bs[..k]);
      var total := bs[k].size + OVERHEAD + bs[k + 1].size;
      var mem' := CarveMem(mem, h, n, total);
      var bs' := bs[..k] + Carve(Block(total, true), n) + bs[k + 2..];
      && Tiles(mem', base, bs') && End(base, bs') == End(base, bs)
      && h + 16 in Live(mem', base, bs')
      && Live(mem', base, bs') == Live(mem, base, bs)[h + 16 := Live(mem', base, bs')[h + 16]]
      && Resized(Data(mem, h + 16, bs[k].size), Live(mem', base, bs')[h + 16], n)
  {
    hide Tiles, Live, AgreeOutside, Carve, CarveMem, End, Data, Resized;
    TileAt(mem, base, bs, k);
    TileAt(mem, base, bs, k + 1);
    var pre, x, y, post := bs[..k], bs[k], bs[k + 1], bs[k + 2..];
    var h := End(base, pre);
    var total := x.size + OVERHEAD + y.size;
    assert bs == pre + [x, y] + post;
    CarveTiles(mem, h, n, total);
    EndTwo(h, x, y);
    LiveTwo(mem, h, x, y);
    Relayout(mem, CarveMem(mem, h, n, total), base, pre, [x, y], Carve(Block(total, true), n), post);
    PointerApart(mem, base, pre, h + OVERHEAD + total, post, h + 16);
    var d := Data(mem, h + 16, total)[..(if total >= n + OVERHEAD + MIN_SPLIT then n else total) / 16];
    MapPut(Live(mem, h + OVERHEAD + total, post), map[h + 16 := Data(mem, h + 16, x.size)], Live(mem, base, pre), h + 16, d);
    ResizedPrefix(mem, h + 16, x.size, total, n);
  }

  lemma ResizedPrefix(mem: Mem, p: nat, size: nat, total: nat, n: nat)
    requires n <= total && n % 16 == 0 && total % 16 == 0
    ensures Resized(Data(mem, p, size), Data(mem, p, total)[..(if total >= n + OVERHEAD + MIN_SPLIT then n else total) / 16], n)
  {
  }

  lemma {:induction false} ShrinkLemma(mem: Mem, base: nat, bs: seq<Block>, k: nat, n: nat)
    requires Tiles(mem, base, bs) && k < |bs| && bs[k].used && n <= bs[k].size && n % 16 == 0
    ensures var h := End(base, bs[..k]);
      var mem' := CarveMem(mem, h, n, bs[k].size);
      var bs' := bs[..k] + Carve(bs[k], n) + bs[k + 1..];
      && Tiles(mem', base, bs') && End(base, bs') == End(base, bs)
      && h + 16 in Live(mem', base, bs')
      && Live(mem', base, bs') == Live(mem, base, bs)[h + 16 := Live(mem', base, bs')[h + 16]]
      && Resized(Data(mem, h + 16, bs[k].size), Live(mem', base, bs')[h + 16], n)
  {
    hide Tiles, Live, AgreeOutside, Carve, CarveMem, End, Data, Resized;
    TileAt(mem, base, bs, k);
    var pre, b, post := bs[..k], bs[k], bs[k + 1..];
    var h := End(base, pre);
    CarveTiles(mem, h, n, b.size);
    EndOne(h, b);
    LiveOne(mem, h, b);
    Relayout(mem, CarveMem(mem, h, n, b.size), base, pre, [b], Carve(b, n), post);
    PointerApart(mem, base, pre, h + OVERHEAD + b.size, post, h + 16);
    var d := Data(mem, h + 16, b.size)[..(if b.size >= n + OVERHEAD + MIN_SPLIT then n else b.size) / 16];
    MapPut(Live(mem, h + OVERHEAD + b.size, post), map[h + 16 := Data(mem, h + 16, b.size)], Live(mem, base, pre), h + 16, d);
    ResizedPrefix(mem, h + 16, b.size, b.size, n);
  }

  /** What a block holds is what memory holds at its addresses. */
  lemma {:induction false} ReadUnit(mem: Mem, base: nat, bs: seq<Block>, p: nat, i: nat)
    requires p in Live(mem, base, bs) && i < |Live(mem, base, bs)[p]|
    ensures At(mem, p + 16 * i) == Live(mem, base, bs)[p][i]
  {
    hide Live;
    var k := LiveIndex(mem, base, bs, p);
  }

  lemma {:induction false} TakeLemma(mem: Mem, base: nat, bs: seq<Block>, k: nat, n: nat)
    requires Tiles(mem, base, bs) && k < |bs| && Fits(bs[k], n) && n % 16 == 0
    ensures var h := End(base, bs[..k]);
      var mem' := CarveMem(mem, h, n, bs[k].size);
      var bs' := bs[..k] + Carve(Block(bs[k].size, true), n) + bs[k + 1..];
      var p := h + 16;
      && Tiles(mem', base, bs') && End(base, bs') == End(base, bs)
      && p !in Live(mem, base, bs) && p in Live(mem', base, bs')
      && Live(mem', base, bs') == Live(mem, base, bs)[p := Live(mem', base, bs')[p]]
      && n <= 16 * |Live(mem', base, bs')[p]| < n + 64
  {
    hide Tiles, Live, AgreeOutside, Data;
    TileAt(mem, base, bs, k);
    var pre, b, post := bs[..k], bs[k], bs[k + 1..];
    var h := End(base, pre);
    CarveTiles(mem, h, n, b.size);
    EndOne(h, b);
    LiveOne(mem, h, b);
    Relayout(mem, CarveMem(mem, h, n, b.size), base, pre, [b], Carve(Block(b.size, true), n), post);
    PointerApart(mem, base, pre, h + OVERHEAD + b.size, post, h + 16);
    var d := Data(mem, h + 16, b.size)[..(if b.size >= n + OVERHEAD + MIN_SPLIT then n else b.size) / 16];
    MapPut(Live(mem, h + OVERHEAD + b.size, post), map[], Live(mem, base, pre), h + 16, d);
  }

  /** Changing the entry of p in the middle one of three maps. */
  lemma MapPut(x: map<nat, seq<Unit>>, y: map<nat, seq<Unit>>, z: map<nat, seq<Unit>>, p: nat, d: seq<Unit>)
    requires p !in x && p !in z && y.Keys <= {p}
    ensures x + map[p := d] + z == (x + y + z)[p := d]
    ensures p in x + y + z <==> p in y
  {
  }

  /** The pointer of a block is none of those of the blocks before and after it. */
  lemma PointerApart(mem: Mem, base: nat, pre: seq<Block>, e: nat, post: seq<Block>, p: nat)
    requires End(base, pre) + 16 == p && p < e
    ensures p !in Live(mem, base, pre) && p !in Live(mem, e, post)
  {
    if p in Live(mem, base, pre) {
      LiveBounds(mem, base, pre, p);
    }
    if p in Live(mem, e, post) {
      LiveBounds(mem, e, post, p);
    }
  }
}
