/**
 The kernel heap as raw memory (kernel/heap.c, include/pml/alloc.h): an area that
 is tiled by blocks, each a 16-byte header, its data and a 16-byte tail.

 Memory is a map from byte addresses to 16-byte units. A unit has no type of its
 own: the same unit may hold user data or be read as a header or a tail.
 */
module HeapLayout {

  const HEADER_MAGIC: nat := 0x07242005   // KH_HEADER_MAGIC
  const TAIL_MAGIC: nat := 0xdeadc0de     // KH_TAIL_MAGIC
  const MIN_SPLIT: nat := 32              // KH_MIN_BLOCK_SPLIT_SIZE
  const OVERHEAD: nat := 32               // header and tail

  /** Two 32-bit words and a 64-bit word. In a header these are magic, flags and size,
      in a tail magic, the reserved word and the address of the header. */
  datatype Unit = Unit(lo: nat, hi: nat, word: nat)

  type Mem = map<nat, Unit>

  function At(mem: Mem, x: nat): (u: Unit)
  {
    if x in mem then mem[x] else Unit(0, 0, 0)
  }

  /** A block of the heap; `used` is KH_FLAG_ALLOC. */
  datatype Block = Block(size: nat, used: bool)

  function Header(b: Block): (u: Unit)
  {
    Unit(HEADER_MAGIC, if b.used then 1 else 0, b.size)
  }

  function Tail(a: nat): (u: Unit)
  {
    Unit(TAIL_MAGIC, 0, a)
  }

  /** The header of block b is at address a, and its tail points back. */
  ghost predicate BlockAt(mem: Mem, a: nat, b: Block)
  {
    && b.size % 16 == 0
    && At(mem, a) == Header(b)
    && At(mem, a + 16 + b.size) == Tail(a)
  }

  /** Where the blocks bs end if they start at a. */
  function End(a: nat, bs: seq<Block>): (e: nat)
    ensures e >= a + OVERHEAD * |bs|
    decreases |bs|
  {
    if bs == [] then a else End(a + OVERHEAD + bs[0].size, bs[1..])
  }

  /** The memory from a on is exactly the blocks bs. */
  ghost predicate Tiles(mem: Mem, a: nat, bs: seq<Block>)
    decreases |bs|
  {
    bs != [] ==> BlockAt(mem, a, bs[0]) && Tiles(mem, a + OVERHEAD + bs[0].size, bs[1..])
  }

  function Data(mem: Mem, p: nat, size: nat): (d: seq<Unit>)
    ensures |d| == size / 16
  {
    seq(size / 16, i requires 0 <= i < size / 16 => At(mem, p + 16 * i))
  }

  /** What the heap holds for its users: each pointer handed out, with the contents of its block. */
  function Live(mem: Mem, a: nat, bs: seq<Block>): (live: map<nat, seq<Unit>>)
    decreases |bs|
  {
    if bs == [] then map[]
    else
      var rest := Live(mem, a + OVERHEAD + bs[0].size, bs[1..]);
      if bs[0].used then rest[a + 16 := Data(mem, a + 16, bs[0].size)] else rest
  }

  /* ---------- concatenation ---------- */

  lemma {:induction false} EndConcat(a: nat, xs: seq<Block>, ys: seq<Block>)
    ensures End(a, xs + ys) == End(End(a, xs), ys)
    decreases |xs|
  {
    if xs == [] {
      assert xs + ys == ys;
    } else {
      assert (xs + ys)[1..] == xs[1..] + ys;
      EndConcat(a + OVERHEAD + xs[0].size, xs[1..], ys);
    }
  }

  lemma {:induction false} TilesConcat(mem: Mem, a: nat, xs: seq<Block>, ys: seq<Block>)
    ensures Tiles(mem, a, xs + ys) <==> Tiles(mem, a, xs) && Tiles(mem, End(a, xs), ys)
    decreases |xs|
  {
    if xs == [] {
      assert xs + ys == ys;
    } else {
      assert (xs + ys)[1..] == xs[1..] + ys;
      TilesConcat(mem, a + OVERHEAD + xs[0].size, xs[1..], ys);
    }
  }

  lemma {:induction false} LiveConcat(mem: Mem, a: nat, xs: seq<Block>, ys: seq<Block>)
    ensures Live(mem, a, xs + ys) == Live(mem, End(a, xs), ys) + Live(mem, a, xs)
    decreases |xs|
  {
    if xs == [] {
      assert xs + ys == ys;
    } else {
      assert (xs + ys)[1..] == xs[1..] + ys;
      LiveConcat(mem, a + OVERHEAD + xs[0].size, xs[1..], ys);
    }
  }

  /* ---------- regions ---------- */

  /** The two memories agree outside the addresses from s up to e. */
  ghost predicate AgreeOutside(mem: Mem, mem': Mem, s: nat, e: nat)
  {
    forall x: nat | x < s || e <= x :: At(mem', x) == At(mem, x)
  }

  lemma {:induction false} FrameTiles(mem: Mem, mem': Mem, s: nat, e: nat, a: nat, bs: seq<Block>)
    requires AgreeOutside(mem, mem', s, e) && (End(a, bs) <= s || e <= a)
    ensures Tiles(mem', a, bs) <==> Tiles(mem, a, bs)
    ensures Live(mem', a, bs) == Live(mem, a, bs)
    decreases |bs|
  {
    if bs != [] {
      var next := a + OVERHEAD + bs[0].size;
      FrameTiles(mem, mem', s, e, next, bs[1..]);
      assert End(a, bs) == End(next, bs[1..]) >= next;
      assert Data(mem', a + 16, bs[0].size) == Data(mem, a + 16, bs[0].size);
    }
  }

  /** Pointers of a stretch of blocks lie inside it. */
  lemma {:induction false} LiveBounds(mem: Mem, a: nat, bs: seq<Block>, p: nat)
    requires p in Live(mem, a, bs)
    ensures a + 16 <= p && p + 16 * |Live(mem, a, bs)[p]| + 16 <= End(a, bs)
    decreases |bs|
  {
    var next := a + OVERHEAD + bs[0].size;
    if p in Live(mem, next, bs[1..]) {
      LiveBounds(mem, next, bs[1..], p);
    }
    assert End(a, bs) == End(next, bs[1..]) >= next;
  }

  /** A stretch of blocks may be laid out anew without touching its surroundings. */
  lemma {:induction false} Relayout(mem: Mem, mem': Mem, base: nat, pre: seq<Block>, mid: seq<Block>, mid': seq<Block>, post: seq<Block>)
    requires Tiles(mem, base, pre + mid + post)
    requires var s := End(base, pre);
      && AgreeOutside(mem, mem', s, End(s, mid))
      && Tiles(mem', s, mid') && End(s, mid') == End(s, mid)
    ensures Tiles(mem', base, pre + mid' + post)
    ensures End(base, pre + mid' + post) == End(base, pre + mid + post)
    ensures var s := End(base, pre);
      && Live(mem, base, pre + mid + post) == Live(mem, End(s, mid), post) + Live(mem, s, mid) + Live(mem, base, pre)
      && Live(mem', base, pre + mid' + post) == Live(mem, End(s, mid), post) + Live(mem', s, mid') + Live(mem, base, pre)
  {
    hide Tiles, Live, AgreeOutside;
    var s := End(base, pre);
    Parts(mem, base, pre, mid, post);
    Parts(mem', base, pre, mid', post);
    FrameTiles(mem, mem', s, End(s, mid), base, pre);
    FrameTiles(mem, mem', s, End(s, mid), End(s, mid), post);
  }

  lemma {:induction false} Parts(mem: Mem, base: nat, pre: seq<Block>, mid: seq<Block>, post: seq<Block>)
    ensures var s := End(base, pre);
      && End(base, pre + mid + post) == End(End(s, mid), post)
      && (Tiles(mem, base, pre + mid + post) <==> Tiles(mem, base, pre) && Tiles(mem, s, mid) && Tiles(mem, End(s, mid), post))
      && Live(mem, base, pre + mid + post) == Live(mem, End(s, mid), post) + Live(mem, s, mid) + Live(mem, base, pre)
  {
    hide Tiles, Live;
    EndConcat(base, pre + mid, post);
    EndConcat(base, pre, mid);
    TilesConcat(mem, base, pre + mid, post);
    TilesConcat(mem, base, pre, mid);
    LiveConcat(mem, base, pre + mid, post);
    LiveConcat(mem, base, pre, mid);
    var x, y, z := Live(mem, End(base, pre + mid), post), Live(mem, End(base, pre), mid), Live(mem, base, pre);
    assert x + (y + z) == x + y + z;
  }

  /* ---------- how the operations change the layout ---------- */

  /** Use n bytes of a block; what is left becomes a free block if it is worth a header and a tail. */
  function Carve(b: Block, n: nat): (bs: seq<Block>)
  {
    if b.size >= n + OVERHEAD + MIN_SPLIT then [Block(n, true), Block(b.size - n - OVERHEAD, false)]
    else [Block(b.size, true)]
  }

  function Merge(x: Block, y: Block): (b: Block)
  {
    Block(x.size + OVERHEAD + y.size, x.used)
  }

  /** The search of kh_alloc_aligned: a free block, not empty, with room for n bytes. */
  predicate Fits(b: Block, n: nat)
  {
    !b.used && b.size > 0 && b.size >= n
  }

  /* ---------- local effects on memory ---------- */

  /** Memory after the block at s, with room for `size` bytes, has been cut after n bytes. */
  function CutMem(mem: Mem, s: nat, n: nat, size: nat, used: bool): (mem': Mem)
    requires size >= n + OVERHEAD
  {
    mem[s + 16 + n := Tail(s)][s + 32 + n := Header(Block(size - n - OVERHEAD, false))]
       [s + 16 + size := Tail(s + 32 + n)][s := Header(Block(n, used))]
  }

  lemma CutTiles(mem: Mem, s: nat, n: nat, size: nat, used: bool)
    requires n % 16 == 0 && size % 16 == 0 && size >= n + OVERHEAD + MIN_SPLIT
    ensures var mem' := CutMem(mem, s, n, size, used);
      && Tiles(mem', s, [Block(n, used), Block(size - n - OVERHEAD, false)])
      && AgreeOutside(mem, mem', s, s + OVERHEAD + size)
      && Data(mem', s + 16, n) == Data(mem, s + 16, size)[..n / 16]
      && Live(mem', s, [Block(n, used), Block(size - n - OVERHEAD, false)])
         == if used then map[s + 16 := Data(mem', s + 16, n)] else map[]
  {
    var mem' := CutMem(mem, s, n, size, used);
    var x, y := Block(n, used), Block(size - n - OVERHEAD, false);
    assert BlockAt(mem', s, x);
    assert BlockAt(mem', s + OVERHEAD + n, y);
    assert [x, y][1..] == [y] && [y][1..] == [];
    assert Live(mem', s + OVERHEAD + n, [y]) == map[];
  }

  /** Memory after the block at s has been given room for `size` bytes, up to the tail that follows them. */
  function JoinMem(mem: Mem, s: nat, size: nat, used: bool): (mem': Mem)
  {
    mem[s + 16 + size := Tail(s)][s := Header(Block(size, used))]
  }

  lemma JoinTiles(mem: Mem, s: nat, size: nat, used: bool)
    requires size % 16 == 0
    ensures var mem' := JoinMem(mem, s, size, used);
      && Tiles(mem', s, [Block(size, used)])
      && AgreeOutside(mem, mem', s, s + OVERHEAD + size)
      && Data(mem', s + 16, size) == Data(mem, s + 16, size)
      && Live(mem', s, [Block(size, used)]) == if used then map[s + 16 := Data(mem, s + 16, size)] else map[]
  {
    var mem' := JoinMem(mem, s, size, used);
    assert [Block(size, used)][1..] == [];
    assert Data(mem', s + 16, size) == Data(mem, s + 16, size);
    assert Live(mem', s + OVERHEAD + size, []) == map[];
  }

  /** Memory after a block of `size` bytes has been carved for n. */
  function CarveMem(mem: Mem, s: nat, n: nat, size: nat): (mem': Mem)
    requires n <= size
  {
    if size >= n + OVERHEAD + MIN_SPLIT then CutMem(mem, s, n, size, true) else JoinMem(mem, s, size, true)
  }

  lemma CarveTiles(mem: Mem, s: nat, n: nat, size: nat)
    requires n % 16 == 0 && size % 16 == 0 && n <= size
    ensures var mem' := CarveMem(mem, s, n, size);
      var got := if size >= n + OVERHEAD + MIN_SPLIT then n else size;
      && Tiles(mem', s, Carve(Block(size, true), n))
      && End(s, Carve(Block(size, true), n)) == s + OVERHEAD + size
      && AgreeOutside(mem, mem', s, s + OVERHEAD + size)
      && Live(mem', s, Carve(Block(size, true), n)) == map[s + 16 := Data(mem, s + 16, size)[..got / 16]]
  {
    hide Tiles, Live, AgreeOutside, Data;
    if size >= n + OVERHEAD + MIN_SPLIT {
      CutTiles(mem, s, n, size, true);
      EndTwo(s, Block(n, true), Block(size - n - OVERHEAD, false));
    } else {
      JoinTiles(mem, s, size, true);
      EndOne(s, Block(size, true));
      assert Data(mem, s + 16, size)[..size / 16] == Data(mem, s + 16, size);
    }
  }

  lemma EndOne(s: nat, b: Block)
    ensures End(s, [b]) == s + OVERHEAD + b.size
  {
    assert [b][1..] == [];
  }

  lemma EndTwo(s: nat, x: Block, y: Block)
    ensures End(s, [x, y]) == s + OVERHEAD + x.size + OVERHEAD + y.size
  {
    assert [x, y][1..] == [y];
    EndOne(s + OVERHEAD + x.size, y);
  }

  lemma LiveOne(mem: Mem, s: nat, b: Block)
    ensures Live(mem, s, [b]) == if b.used then map[s + 16 := Data(mem, s + 16, b.size)] else map[]
  {
    assert [b][1..] == [];
  }

  lemma LiveTwo(mem: Mem, s: nat, x: Block, y: Block)
    requires !y.used
    ensures Live(mem, s, [x, y]) == if x.used then map[s + 16 := Data(mem, s + 16, x.size)] else map[]
  {
    assert [x, y][1..] == [y];
    LiveOne(mem, s + OVERHEAD + x.size, y);
  }

  /* ---------- single blocks in a tiling ---------- */

  /** A pointer handed out names one used block. */
  lemma {:induction false} LiveIndex(mem: Mem, a: nat, bs: seq<Block>, p: nat) returns (k: nat)
    requires p in Live(mem, a, bs)
    ensures k < |bs| && bs[k].used && p == End(a, bs[..k]) + 16
    ensures Live(mem, a, bs)[p] == Data(mem, p, bs[k].size)
    decreases |bs|
  {
    var next := a + OVERHEAD + bs[0].size;
    if p in Live(mem, next, bs[1..]) {
      var j := LiveIndex(mem, next, bs[1..], p);
      k := j + 1;
      assert bs[..k][1..] == bs[1..][..j];
      LiveBounds(mem, next, bs[1..], p);
    } else {
      k := 0;
    }
  }

  lemma {:induction false} EndAligned(mem: Mem, a: nat, bs: seq<Block>, k: nat)
    requires Tiles(mem, a, bs) && a % 16 == 0 && k <= |bs|
    ensures End(a, bs[..k]) % 16 == 0
    decreases |bs|
  {
    if k > 0 {
      assert bs[..k][1..] == bs[1..][..k - 1];
      EndAligned(mem, a + OVERHEAD + bs[0].size, bs[1..], k - 1);
    }
  }

  /** Block k in the middle of the others. */
  lemma {:induction false} TileAt(mem: Mem, a: nat, bs: seq<Block>, k: nat)
    requires k < |bs| && Tiles(mem, a, bs)
    ensures bs == bs[..k] + [bs[k]] + bs[k + 1..]
    ensures BlockAt(mem, End(a, bs[..k]), bs[k])
    ensures End(a, bs[..k + 1]) == End(a, bs[..k]) + OVERHEAD + bs[k].size
    ensures End(a, bs[..k + 1]) <= End(a, bs)
    ensures End(a, bs[..k + 1]) == End(a, bs) <==> k + 1 == |bs|
  {
    var pre, b, post := bs[..k], bs[k], bs[k + 1..];
    assert bs == pre + [b] + post && bs[..k + 1] == pre + [b];
    Parts(mem, a, pre, [b], post);
    EndConcat(a, pre, [b]);
    EndOne(End(a, pre), b);
    assert [b][0] == b;
  }
}
