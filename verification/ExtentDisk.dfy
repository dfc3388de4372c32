/**
 Where the nodes of an extent tree are stored (drivers/fs/ext2/extent.c): the root in the
 inode, every other node in the block that the index entry above it names.
 */
module ExtentDisk {
  import opened ExtentTree
  import opened ExtentSplit
  import opened ExtentRekey

  /** An entry as it is stored: struct ext3_extent or struct ext3_extent_index. */
  datatype Slot = Leaf(lblk: nat, len: nat, pblk: nat, uninit: bool) | Index(lblk: nat, pblk: nat)

  /** A node as it is stored: eh_depth and eh_max of its header, and its eh_entries entries. */
  datatype Buffer = Buffer(depth: nat, max: nat, slots: seq<Slot>)

  type Disk = map<nat, Buffer>

  function SlotOf(e: Ent): (s: Slot)
  {
    match e
    case Ext(lblk, len, pblk, uninit) => Leaf(lblk, len, pblk, uninit)
    case Kid(lblk, pblk, _) => Index(lblk, pblk)
  }

  function Slots(es: seq<Ent>): (ss: seq<Slot>)
    ensures |ss| == |es|
    ensures forall i | 0 <= i < |es| :: ss[i] == SlotOf(es[i])
  {
    seq(|es|, i requires 0 <= i < |es| => SlotOf(es[i]))
  }

  function Image(n: Node, h: nat): (b: Buffer)
  {
    Buffer(h, n.max, Slots(n.ents))
  }

  /* ---------- the blocks of a tree ---------- */

  /** A block and what it holds. */
  datatype Cell = Cell(blk: nat, buf: Buffer)

  /** The blocks of all nodes below a list of entries, in the order of the tree. */
  function Cells(es: seq<Ent>, h: nat): (cs: seq<Cell>)
    decreases h, |es|
  {
    if h == 0 || es == [] then [] else CellsOf(es[0], h) + Cells(es[1..], h)
  }

  function CellsOf(e: Ent, h: nat): (cs: seq<Cell>)
    requires h > 0
    decreases h, 0
  {
    if e.Kid? then [Cell(e.pblk, Image(e.node, h - 1))] + Cells(e.node.ents, h - 1) else []
  }

  lemma {:induction false} CellsConcat(xs: seq<Ent>, ys: seq<Ent>, h: nat)
    ensures Cells(xs + ys, h) == Cells(xs, h) + Cells(ys, h)
    decreases |xs|
  {
    if xs == [] {
      assert xs + ys == ys;
    } else if h > 0 {
      assert (xs + ys)[1..] == xs[1..] + ys;
      CellsConcat(xs[1..], ys, h);
    }
  }

  lemma CellsOne(e: Ent, h: nat)
    requires h > 0
    ensures Cells([e], h) == CellsOf(e, h)
  {
    hide CellsOf;
    assert [e][1..] == [];
  }

  lemma {:induction false} CellsCut(es: seq<Ent>, h: nat, i: nat)
    requires h > 0 && i < |es|
    ensures Cells(es, h) == Cells(es[..i], h) + CellsOf(es[i], h) + Cells(es[i + 1..], h)
  {
    hide Cells, CellsOf;
    assert es == es[..i] + [es[i]] + es[i + 1..];
    CellsConcat(es[..i] + [es[i]], es[i + 1..], h);
    CellsConcat(es[..i], [es[i]], h);
    CellsOne(es[i], h);
  }

  /* ---------- what is on disk ---------- */

  ghost predicate Holds(disk: Disk, cs: seq<Cell>)
  {
    forall i | 0 <= i < |cs| :: cs[i].blk in disk && disk[cs[i].blk] == cs[i].buf
  }

  ghost predicate Distinct(cs: seq<Cell>)
  {
    forall i, j | 0 <= i < j < |cs| :: cs[i].blk != cs[j].blk
  }

  /** The block is none of those. */
  ghost predicate Spare(blk: nat, cs: seq<Cell>)
  {
    forall i | 0 <= i < |cs| :: cs[i].blk != blk
  }

  /** The allocator gives each block once, and none that is in use. */
  ghost predicate Unused(free: seq<nat>, cs: seq<Cell>)
  {
    && (forall i, j | 0 <= i < j < |free| :: free[i] != free[j])
    && forall i | 0 <= i < |free| :: Spare(free[i], cs)
  }

  /** Every node below the root is in a block of its own, which the entry above it names. */
  ghost predicate Stored(root: Node, h: nat, disk: Disk, free: seq<nat>)
  {
    var cs := Cells(root.ents, h);
    Holds(disk, cs) && Distinct(cs) && Unused(free, cs)
  }

  lemma StoredLess(root: Node, h: nat, disk: Disk, blk: nat, free: seq<nat>)
    requires Stored(root, h, disk, [blk] + free)
    ensures Stored(root, h, disk, free)
  {
    hide Cells, Holds, Distinct, Spare;
    assert forall i | 0 <= i < |free| :: ([blk] + free)[i + 1] == free[i];
  }

  /** One cell is given other contents. */
  lemma ReplaceCell(disk: Disk, cs: seq<Cell>, i: nat, buf: Buffer, free: seq<nat>)
    requires Holds(disk, cs) && Distinct(cs) && Unused(free, cs) && i < |cs|
    ensures var cs' := cs[i := Cell(cs[i].blk, buf)];
      Holds(disk[cs[i].blk := buf], cs') && Distinct(cs') && Unused(free, cs')
  {
    var cs' := cs[i := Cell(cs[i].blk, buf)];
    forall k | 0 <= k < |free| ensures Spare(free[k], cs') {
      assert Spare(free[k], cs);
    }
  }

  /** A cell is added in a block that was not in use. */
  lemma InsertCell(disk: Disk, cs: seq<Cell>, i: nat, blk: nat, buf: Buffer, free: seq<nat>)
    requires Holds(disk, cs) && Distinct(cs) && Unused([blk] + free, cs) && i <= |cs|
    ensures var cs' := cs[..i] + [Cell(blk, buf)] + cs[i..];
      Holds(disk[blk := buf], cs') && Distinct(cs') && Unused(free, cs')
  {
    var cs' := cs[..i] + [Cell(blk, buf)] + cs[i..];
    assert ([blk] + free)[0] == blk;
    assert Spare(blk, cs);
    forall k | 0 <= k < |free| ensures Spare(free[k], cs') {
      assert ([blk] + free)[k + 1] == free[k];
      assert Spare(free[k], cs) && free[k] != blk;
    }
    forall i, j | 0 <= i < j < |free| ensures free[i] != free[j] {
      assert ([blk] + free)[i + 1] == free[i] && ([blk] + free)[j + 1] == free[j];
    }
    InsertDistinct(cs, i, Cell(blk, buf));
  }

  lemma InsertDistinct(cs: seq<Cell>, i: nat, c: Cell)
    requires Distinct(cs) && Spare(c.blk, cs) && i <= |cs|
    ensures Distinct(cs[..i] + [c] + cs[i..])
  {
    var cs' := cs[..i] + [c] + cs[i..];
    forall j, k | 0 <= j < k < |cs'| ensures cs'[j].blk != cs'[k].blk {
      var j', k' := if j > i then j - 1 else j, if k > i then k - 1 else k;
      assert j != i ==> cs'[j] == cs[j'];
      assert k != i ==> cs'[k] == cs[k'];
    }
  }

  /* ---------- one node rewritten ---------- */

  /** The block of the node at pos. */
  function BlockAt(n: Node, pos: seq<nat>): (blk: nat)
    requires IsPath(n, pos) && pos != []
    decreases |pos|
  {
    var e := n.ents[pos[0]];
    if |pos| == 1 then e.pblk else BlockAt(e.node, pos[1..])
  }

  /** The cells before that of the node at pos, and those behind all that is below it. */
  function Front(n: Node, h: nat, pos: seq<nat>): (cs: seq<Cell>)
    requires IsPath(n, pos) && |pos| <= h
    decreases |pos|
  {
    if pos == [] then []
    else
      var e := n.ents[pos[0]];
      Cells(n.ents[..pos[0]], h) +
      if |pos| == 1 then [] else [Cell(e.pblk, Image(e.node, h - 1))] + Front(e.node, h - 1, pos[1..])
  }

  function Back(n: Node, h: nat, pos: seq<nat>): (cs: seq<Cell>)
    requires IsPath(n, pos) && |pos| <= h
    decreases |pos|
  {
    if pos == [] then []
    else Back(n.ents[pos[0]].node, h - 1, pos[1..]) + Cells(n.ents[pos[0] + 1..], h)
  }

  /** The cell of node m, to be at pos. The root has none. */
  function Own(n: Node, h: nat, pos: seq<nat>, m: Node): (cs: seq<Cell>)
    requires IsPath(n, pos) && |pos| <= h
  {
    if pos == [] then [] else [Cell(BlockAt(n, pos), Image(m, h - |pos|))]
  }

  /** An index entry does not change when something below its node does. */
  lemma ImagePut(n: Node, h: nat, pos: seq<nat>, m: Node)
    requires IsPath(n, pos) && pos != []
    ensures Image(Put(n, pos, m), h) == Image(n, h)
  {
    assert Slots(Put(n, pos, m).ents) == Slots(n.ents);
  }

  /** Replacing a node replaces its cell and those below it. */
  lemma {:induction false} CellsPut(n: Node, h: nat, pos: seq<nat>, m: Node)
    requires IsPath(n, pos) && |pos| <= h
    ensures Cells(Put(n, pos, m).ents, h) == Front(n, h, pos) + Own(n, h, pos, m) + Cells(m.ents, h - |pos|) + Back(n, h, pos)
    decreases |pos|
  {
    hide Cells, Image;
    if pos == [] {
      assert [] + [] + Cells(m.ents, h) + [] == Cells(m.ents, h);
    } else if |pos| == 1 {
      CellsPutKid(n, h, pos[0], m);
      assert pos == [pos[0]];
    } else {
      var i := pos[0];
      var e := n.ents[i];
      CellsPut(e.node, h - 1, pos[1..], m);
      ImagePut(e.node, h - 1, pos[1..], m);
      CellsPutBelow(n, h, i, Put(e.node, pos[1..], m));
      hide Front, Back, Own;
      CellsPutSteps(n, h, pos, m);
      DeeperAssoc(Cells(n.ents[..i], h), [Cell(e.pblk, Image(e.node, h - 1))], Front(e.node, h - 1, pos[1..]),
                  Own(n, h, pos, m), Cells(m.ents, h - |pos|), Back(e.node, h - 1, pos[1..]), Cells(n.ents[i + 1..], h));
    }
  }

  /** A child replaced. */
  lemma {:induction false} CellsPutBelow(n: Node, h: nat, i: nat, m: Node)
    requires h > 0 && i < |n.ents| && n.ents[i].Kid?
    ensures Cells(n.ents[i := n.ents[i].(node := m)], h) ==
            Cells(n.ents[..i], h) + ([Cell(n.ents[i].pblk, Image(m, h - 1))] + Cells(m.ents, h - 1)) + Cells(n.ents[i + 1..], h)
  {
    hide Cells, Image;
    var es := n.ents[i := n.ents[i].(node := m)];
    CellsCut(es, h, i);
    assert es[..i] == n.ents[..i] && es[i + 1..] == n.ents[i + 1..];
  }

  lemma {:induction false} CellsPutKid(n: Node, h: nat, i: nat, m: Node)
    requires IsPath(n, [i]) && h > 0
    ensures Cells(Put(n, [i], m).ents, h) == Front(n, h, [i]) + Own(n, h, [i], m) + Cells(m.ents, h - 1) + Back(n, h, [i])
  {
    hide Cells, Image;
    assert [i][1..] == [];
    CellsPutBelow(n, h, i, m);
    KidAssoc(Cells(n.ents[..i], h), Own(n, h, [i], m), Cells(m.ents, h - 1), Cells(n.ents[i + 1..], h));
  }

  lemma CellsPutSteps(n: Node, h: nat, pos: seq<nat>, m: Node)
    requires IsPath(n, pos) && 1 < |pos| <= h
    ensures var i := pos[0];
      var e := n.ents[i];
      && Front(n, h, pos) == Cells(n.ents[..i], h) + ([Cell(e.pblk, Image(e.node, h - 1))] + Front(e.node, h - 1, pos[1..]))
      && Back(n, h, pos) == Back(e.node, h - 1, pos[1..]) + Cells(n.ents[i + 1..], h)
      && Own(n, h, pos, m) == Own(e.node, h - 1, pos[1..], m)
  {
    hide Cells, Image;
  }

  lemma DeeperAssoc(a: seq<Cell>, c: seq<Cell>, f: seq<Cell>, o: seq<Cell>, k: seq<Cell>, b: seq<Cell>, z: seq<Cell>)
    ensures a + (c + (f + o + k + b)) + z == a + (c + f) + o + k + (b + z)
  {
  }

  lemma KidAssoc(a: seq<Cell>, o: seq<Cell>, k: seq<Cell>, z: seq<Cell>)
    ensures a + (o + k) + z == a + [] + o + k + ([] + z)
  {
  }

  lemma CellsSub(n: Node, h: nat, pos: seq<nat>)
    requires IsPath(n, pos) && |pos| <= h
    ensures var m := Sub(n, pos);
      Cells(n.ents, h) == Front(n, h, pos) + Own(n, h, pos, m) + Cells(m.ents, h - |pos|) + Back(n, h, pos)
  {
    PutSub(n, pos);
    CellsPut(n, h, pos, Sub(n, pos));
  }

  /** What ext3_extent_update_path does when the node at pos has become m: it writes the block of
      the node, if that is not the root, which is in the inode. */
  function Written(disk: Disk, n: Node, h: nat, pos: seq<nat>, m: Node): (disk': Disk)
    requires IsPath(n, pos) && |pos| <= h
  {
    if pos == [] then disk else disk[BlockAt(n, pos) := Image(m, h - |pos|)]
  }

  /** Changing entries of a node without changing what is below it. */
  lemma {:induction false} PutStored(root: Node, h: nat, pos: seq<nat>, m: Node, disk: Disk, free: seq<nat>)
    requires Stored(root, h, disk, free) && IsPath(root, pos) && |pos| <= h
    requires Cells(m.ents, h - |pos|) == Cells(Sub(root, pos).ents, h - |pos|)
    ensures Stored(Put(root, pos, m), h, Written(disk, root, h, pos, m), free)
  {
    hide Cells, Image, Front, Back, Holds, Distinct, Unused, BlockAt;
    var n := Sub(root, pos);
    CellsSub(root, h, pos);
    CellsPut(root, h, pos, m);
    if pos != [] {
      var f, k, b := Front(root, h, pos), Cells(n.ents, h - |pos|), Back(root, h, pos);
      var c, c' := Cell(BlockAt(root, pos), Image(n, h - |pos|)), Cell(BlockAt(root, pos), Image(m, h - |pos|));
      ReplaceAt(f, c, c', k + b);
      assert f + [c] + k + b == f + [c] + (k + b) && f + [c'] + k + b == f + [c'] + (k + b);
      ReplaceCell(disk, f + [c] + (k + b), |f|, c'.buf, free);
    }
  }

  lemma ReplaceAt(f: seq<Cell>, c: Cell, c': Cell, b: seq<Cell>)
    ensures |f| < |f + [c] + b| && (f + [c] + b)[|f|] == c && (f + [c] + b)[|f| := c'] == f + [c'] + b
  {
  }

  /** Changing extents of a leaf. */
  lemma LeafStored(root: Node, h: nat, pos: seq<nat>, m: Node, disk: Disk, free: seq<nat>)
    requires Stored(root, h, disk, free) && IsPath(root, pos) && |pos| == h
    ensures Stored(Put(root, pos, m), h, Written(disk, root, h, pos, m), free)
  {
    hide Stored, Written;
    PutStored(root, h, pos, m, disk, free);
  }

  /** A node below the root is where the entry above it says. */
  lemma {:induction false} StoredAt(root: Node, h: nat, pos: seq<nat>, disk: Disk, free: seq<nat>)
    requires Stored(root, h, disk, free) && IsPath(root, pos) && 0 < |pos| <= h
    ensures BlockAt(root, pos) in disk && disk[BlockAt(root, pos)] == Image(Sub(root, pos), h - |pos|)
  {
    hide Cells, Image, Front, Back, Distinct, Unused, BlockAt;
    CellsSub(root, h, pos);
    var c := Cell(BlockAt(root, pos), Image(Sub(root, pos), h - |pos|));
    assert Cells(root.ents, h)[|Front(root, h, pos)|] == c;
  }

  lemma {:induction false} BlockSnoc(n: Node, pos: seq<nat>, i: nat)
    requires IsPath(n, pos) && i < |Sub(n, pos).ents| && Sub(n, pos).ents[i].Kid?
    ensures IsPath(n, pos + [i]) && BlockAt(n, pos + [i]) == Sub(n, pos).ents[i].pblk
    decreases |pos|
  {
    if pos != [] {
      assert (pos + [i])[1..] == pos[1..] + [i];
      BlockSnoc(n.ents[pos[0]].node, pos[1..], i);
    } else {
      assert (pos + [i])[1..] == [];
    }
  }

  lemma {:induction false} BlockPut(n: Node, pos: seq<nat>, m: Node)
    requires IsPath(n, pos) && pos != []
    ensures IsPath(Put(n, pos, m), pos) && BlockAt(Put(n, pos, m), pos) == BlockAt(n, pos)
    decreases |pos|
  {
    PutHi(n, pos, m, 0);
    if |pos| > 1 {
      BlockPut(n.ents[pos[0]].node, pos[1..], m);
    }
  }

  /** The blocks of the nodes on the way to the node at pos, and of that node. */
  function OnPath(n: Node, pos: seq<nat>): (blks: set<nat>)
    requires IsPath(n, pos)
    decreases |pos|
  {
    if pos == [] then {} else {n.ents[pos[0]].pblk} + OnPath(n.ents[pos[0]].node, pos[1..])
  }

  lemma {:induction false} OnPathSnoc(n: Node, pos: seq<nat>, i: nat)
    requires IsPath(n, pos) && i < |Sub(n, pos).ents| && Sub(n, pos).ents[i].Kid?
    ensures IsPath(n, pos + [i]) && OnPath(n, pos + [i]) == OnPath(n, pos) + {BlockAt(n, pos + [i])}
    decreases |pos|
  {
    BlockSnoc(n, pos, i);
    if pos != [] {
      assert (pos + [i])[1..] == pos[1..] + [i];
      OnPathSnoc(n.ents[pos[0]].node, pos[1..], i);
    } else {
      assert (pos + [i])[1..] == [];
    }
  }

  lemma {:induction false} BlockOnPath(n: Node, pos: seq<nat>)
    requires IsPath(n, pos) && pos != []
    ensures BlockAt(n, pos) in OnPath(n, pos)
    decreases |pos|
  {
    if |pos| > 1 {
      BlockOnPath(n.ents[pos[0]].node, pos[1..]);
    }
  }

  /** Blocks other than those hold what they held. */
  ghost predicate SameBut(disk: Disk, disk': Disk, blks: set<nat>)
  {
    forall x | x !in blks :: (x in disk <==> x in disk') && (x in disk ==> disk'[x] == disk[x])
  }

  lemma SameButSelf(disk: Disk, blks: set<nat>)
    ensures SameBut(disk, disk, blks)
  {
  }

  lemma SameButMore(disk: Disk, disk': Disk, blks: set<nat>, all: set<nat>)
    requires SameBut(disk, disk', blks) && blks <= all
    ensures SameBut(disk, disk', all)
  {
  }

  lemma SameButTrans(disk: Disk, disk1: Disk, disk2: Disk, blks: set<nat>, blks': set<nat>, all: set<nat>)
    requires SameBut(disk, disk1, blks) && SameBut(disk1, disk2, blks') && blks <= all && blks' <= all
    ensures SameBut(disk, disk2, all)
  {
  }

  /* ---------- splitting a node ---------- */

  /** The cells of the parent's children, after one of them has been split. */
  lemma {:induction false} SplitCells(p: Node, h: nat, i: nat, m: nat, blk: nat, cap: nat)
    requires h > 0 && i < |p.ents| && p.ents[i].Kid? && 0 < m <= |p.ents[i].node.ents|
    ensures var e := p.ents[i];
      var left, right := LeftPart(e.node, m), RightPart(e.node, m, cap);
      var a, k1, k2, z := Cells(p.ents[..i], h), Cells(left.ents, h - 1), Cells(right.ents, h - 1), Cells(p.ents[i + 1..], h);
      && Cells(p.ents, h) == a + [Cell(e.pblk, Image(e.node, h - 1))] + k1 + k2 + z
      && Cells(SplitKid(p, i, m, blk, cap).ents, h) ==
         a + [Cell(e.pblk, Image(left, h - 1))] + k1 + [Cell(blk, Image(right, h - 1))] + k2 + z
  {
    hide Cells, Image;
    var e := p.ents[i];
    var p' := SplitKid(p, i, m, blk, cap);
    var left, right := LeftPart(e.node, m), RightPart(e.node, m, cap);
    CellsCut(p.ents, h, i);
    assert e.node.ents == left.ents + right.ents;
    CellsConcat(left.ents, right.ents, h - 1);
    CellsCut(p'.ents, h, i);
    assert p'.ents[..i] == p.ents[..i];
    CellsCut(p'.ents[i + 1..], h, 0);
    assert p'.ents[i + 1..][1..] == p.ents[i + 1..];
    assert p'.ents[i + 1..][..0] == [];
    CellsNone(h);
  }

  lemma CellsNone(h: nat)
    ensures Cells([], h) == []
  {
  }

  /** The disk after a split: the last m entries in the new block, the others where they were, and
      one more index entry in the parent. */
  function SplitDisk(disk: Disk, root: Node, h: nat, pp: seq<nat>, pi: nat, m: nat, blk: nat, cap: nat): (disk': Disk)
    requires IsPath(root, pp) && |pp| < h && pi < |Sub(root, pp).ents| && Sub(root, pp).ents[pi].Kid?
    requires 0 < m <= |Sub(root, pp).ents[pi].node.ents|
  {
    var e := Sub(root, pp).ents[pi];
    var t := h - |pp| - 1;
    Written(disk[blk := Image(RightPart(e.node, m, cap), t)][e.pblk := Image(LeftPart(e.node, m), t)],
            root, h, pp, SplitKid(Sub(root, pp), pi, m, blk, cap))
  }

  /** A split leaves every node in its block. */
  lemma {:induction false} SplitStored(root: Node, h: nat, pp: seq<nat>, pi: nat, m: nat, blk: nat, cap: nat, disk: Disk, free: seq<nat>)
    requires Stored(root, h, disk, [blk] + free) && IsPath(root, pp) && |pp| < h
    requires pi < |Sub(root, pp).ents| && Sub(root, pp).ents[pi].Kid? && 0 < m <= |Sub(root, pp).ents[pi].node.ents|
    ensures Stored(Put(root, pp, SplitKid(Sub(root, pp), pi, m, blk, cap)), h, SplitDisk(disk, root, h, pp, pi, m, blk, cap), free)
  {
    hide Cells, Image, Front, Back, Holds, Distinct, Unused, BlockAt, SplitKid, LeftPart, RightPart;
    var p := Sub(root, pp);
    var p' := SplitKid(p, pi, m, blk, cap);
    var e := p.ents[pi];
    var t := h - |pp| - 1;
    var left, right := LeftPart(e.node, m), RightPart(e.node, m, cap);
    CellsSub(root, h, pp);
    CellsPut(root, h, pp, p');
    SplitCells(p, t + 1, pi, m, blk, cap);
    var f, o, o', b := Front(root, h, pp), Own(root, h, pp, p), Own(root, h, pp, p'), Back(root, h, pp);
    var a, k1, k2, z := Cells(p.ents[..pi], t + 1), Cells(left.ents, t), Cells(right.ents, t), Cells(p.ents[pi + 1..], t + 1);
    var c, l, r := Cell(e.pblk, Image(e.node, t)), Cell(e.pblk, Image(left, t)), Cell(blk, Image(right, t));
    SplitAssoc(f, o, a, c, k1, k2, z, b);
    AddHalf(disk, f + o + a, c, l, k1, r, k2 + z + b, free);
    var disk2 := disk[blk := r.buf][e.pblk := l.buf];
    SplitAssocNew(f, o, a, l, k1, r, k2, z, b);
    SplitAssocNew(f, o', a, l, k1, r, k2, z, b);
    if pp != [] {
      var rest := a + [l] + k1 + [r] + k2 + z + b;
      ReplaceAt(f, o[0], o'[0], rest);
      assert f + [o[0]] + rest == f + o + rest && f + [o'[0]] + rest == f + o' + rest;
      ReplaceCell(disk2, f + o + rest, |f|, o'[0].buf, free);
    }
  }

  lemma SplitAssoc(f: seq<Cell>, o: seq<Cell>, a: seq<Cell>, c: Cell, k1: seq<Cell>, k2: seq<Cell>, z: seq<Cell>, b: seq<Cell>)
    ensures f + o + (a + [c] + k1 + k2 + z) + b == f + o + a + [c] + k1 + (k2 + z + b)
  {
  }

  lemma SplitAssocNew(f: seq<Cell>, o: seq<Cell>, a: seq<Cell>, l: Cell, k1: seq<Cell>, r: Cell, k2: seq<Cell>, z: seq<Cell>, b: seq<Cell>)
    ensures f + o + a + [l] + k1 + [r] + (k2 + z + b) == f + o + (a + [l] + k1 + [r] + k2 + z + b)
    ensures f + o + (a + [l] + k1 + [r] + k2 + z) + b == f + o + (a + [l] + k1 + [r] + k2 + z + b)
  {
  }

  /** A cell is added, then another one is shortened. */
  lemma AddHalf(disk: Disk, x: seq<Cell>, c: Cell, l: Cell, k: seq<Cell>, r: Cell, y: seq<Cell>, free: seq<nat>)
    requires var cs := x + [c] + k + y;
      Holds(disk, cs) && Distinct(cs) && Unused([r.blk] + free, cs)
    requires l.blk == c.blk
    ensures var cs' := x + [l] + k + [r] + y;
      Holds(disk[r.blk := r.buf][l.blk := l.buf], cs') && Distinct(cs') && Unused(free, cs')
  {
    hide Holds, Distinct, Unused;
    var cs := x + [c] + k + y;
    InsertCell(disk, cs, |x| + 1 + |k|, r.blk, r.buf, free);
    var cs1 := x + [c] + (k + [r] + y);
    assert cs[..|x| + 1 + |k|] + [r] + cs[|x| + 1 + |k|..] == cs1;
    ReplaceAt(x, c, l, k + [r] + y);
    ReplaceCell(disk[r.blk := r.buf], cs1, |x|, l.buf, free);
    assert x + [l] + (k + [r] + y) == x + [l] + k + [r] + y;
  }

  /** The parts of a node n of height t: its last m entries are in a new block, the others where they were. */
  ghost predicate Divided(disk: Disk, n: Node, t: nat, own: nat, m: nat, blk: nat, cap: nat)
    requires m <= |n.ents|
  {
    && own in disk && disk[own] == Buffer(t, n.max, Slots(n.ents[..|n.ents| - m]))
    && blk in disk && disk[blk] == Buffer(t, cap, Slots(n.ents[|n.ents| - m..]))
  }

  /** A node p with an index entry added after the i-th. */
  function Indexed(p: Node, t: nat, i: nat, lblk: nat, blk: nat): (b: Buffer)
    requires i < |p.ents|
  {
    Buffer(t, p.max, Slots(p.ents[..i + 1]) + [Index(lblk, blk)] + Slots(p.ents[i + 1..]))
  }

  /** The node at pos as it is stored: the root in the inode, others in their blocks. */
  ghost predicate NodeIs(disk: Disk, root: Node, h: nat, pos: seq<nat>, b: Buffer)
    requires IsPath(root, pos)
  {
    if pos == [] then Image(root, h) == b else BlockAt(root, pos) in disk && disk[BlockAt(root, pos)] == b
  }

  /** What a split of entry pi of the node at pp writes: the last m entries of the child into block blk,
      the others back where they were, the index entry for blk after that for the child, and nothing else. */
  ghost predicate SplitOnDisk(disk: Disk, disk': Disk, root: Node, root': Node, h: nat, pp: seq<nat>, pi: int, m: nat, blk: nat, cap: nat)
  {
    && IsPath(root, pp) && IsPath(root', pp) && |pp| < h && 0 <= pi < |Sub(root, pp).ents| && Sub(root, pp).ents[pi].Kid?
    && var p, e := Sub(root, pp), Sub(root, pp).ents[pi];
       && 0 < m <= |e.node.ents|
       && Divided(disk', e.node, h - |pp| - 1, e.pblk, m, blk, cap)
       && NodeIs(disk', root', h, pp, Indexed(p, h - |pp|, pi, e.node.ents[|e.node.ents| - m].lblk, blk))
       && SameBut(disk, disk', {blk, e.pblk} + (if pp == [] then {} else {BlockAt(root, pp)}))
  }

  lemma {:induction false} SplitWrites(root: Node, h: nat, pp: seq<nat>, pi: nat, m: nat, blk: nat, cap: nat, disk: Disk, free: seq<nat>)
    requires Stored(root, h, disk, [blk] + free) && IsPath(root, pp) && |pp| < h
    requires pi < |Sub(root, pp).ents| && Sub(root, pp).ents[pi].Kid? && 0 < m <= |Sub(root, pp).ents[pi].node.ents|
    ensures SplitOnDisk(disk, SplitDisk(disk, root, h, pp, pi, m, blk, cap),
                        root, Put(root, pp, SplitKid(Sub(root, pp), pi, m, blk, cap)), h, pp, pi, m, blk, cap)
  {
    hide Cells, Stored, Put, BlockAt;
    var p := Sub(root, pp);
    var e := p.ents[pi];
    var p' := SplitKid(p, pi, m, blk, cap);
    PutHi(root, pp, p', 0);
    SplitApart(root, h, pp, pi, blk, disk, free);
    assert p'.ents[..pi + 1] == p.ents[..pi] + [p'.ents[pi]];
    assert Slots(p'.ents) == Slots(p.ents[..pi + 1]) + [Index(e.node.ents[|e.node.ents| - m].lblk, blk)] + Slots(p.ents[pi + 1..]);
    if pp != [] {
      BlockPut(root, pp, p');
    } else {
      PutRoot(root, p');
    }
  }

  lemma SplitSummary(disk: Disk, disk': Disk, root: Node, root': Node, h: nat, pp: seq<nat>, pi: int, m: nat, blk: nat, cap: nat)
    requires SplitOnDisk(disk, disk', root, root', h, pp, pi, m, blk, cap)
    ensures IsPath(root, pp) && 0 <= pi < |Sub(root, pp).ents| && Sub(root, pp).ents[pi].Kid?
    ensures var e := Sub(root, pp).ents[pi];
      && m <= |e.node.ents| && Divided(disk', e.node, h - |pp| - 1, e.pblk, m, blk, cap)
      && SameBut(disk, disk', {blk, e.pblk} + (if pp == [] then {} else {BlockAt(root, pp)}))
  {
    hide Divided, SameBut, NodeIs, BlockAt, IsPath, Sub;
  }

  /** The blocks of the two parts. */
  lemma {:induction false} SplitBlocks(root: Node, pp: seq<nat>, pi: nat, m: nat, blk: nat, cap: nat)
    requires IsPath(root, pp)
    requires pi < |Sub(root, pp).ents| && Sub(root, pp).ents[pi].Kid? && 0 < m <= |Sub(root, pp).ents[pi].node.ents|
    ensures var root' := Put(root, pp, SplitKid(Sub(root, pp), pi, m, blk, cap));
      && IsPath(root', pp + [pi]) && BlockAt(root', pp + [pi]) == Sub(root, pp).ents[pi].pblk
      && IsPath(root', pp + [pi + 1]) && BlockAt(root', pp + [pi + 1]) == blk
  {
    hide Put, BlockAt;
    var p' := SplitKid(Sub(root, pp), pi, m, blk, cap);
    PutHi(root, pp, p', 0);
    BlockSnoc(Put(root, pp, p'), pp, pi);
    BlockSnoc(Put(root, pp, p'), pp, pi + 1);
  }

  lemma PutRoot(root: Node, m: Node)
    ensures Put(root, [], m) == m
  {
  }

  /** The three blocks written are different. */
  lemma {:induction false} SplitApart(root: Node, h: nat, pp: seq<nat>, pi: nat, blk: nat, disk: Disk, free: seq<nat>)
    requires Stored(root, h, disk, [blk] + free) && IsPath(root, pp) && |pp| < h
    requires pi < |Sub(root, pp).ents| && Sub(root, pp).ents[pi].Kid?
    ensures blk != Sub(root, pp).ents[pi].pblk
    ensures pp != [] ==> BlockAt(root, pp) != blk && BlockAt(root, pp) != Sub(root, pp).ents[pi].pblk
  {
    hide Cells, Image, Front, Back, Holds, BlockAt;
    var p := Sub(root, pp);
    var cs := Cells(root.ents, h);
    CellsSub(root, h, pp);
    CellsCut(p.ents, h - |pp|, pi);
    var f, o, a := Front(root, h, pp), Own(root, h, pp, p), Cells(p.ents[..pi], h - |pp|);
    assert cs[|f + o + a|].blk == p.ents[pi].pblk;
    assert pp != [] ==> cs[|f|].blk == BlockAt(root, pp);
    assert ([blk] + free)[0] == blk && Spare(blk, cs);
  }

  lemma SlotParts(es: seq<Ent>, left: nat)
    requires left <= |es|
    ensures Slots(es)[..left] == Slots(es[..left]) && Slots(es)[left..] == Slots(es[left..])
  {
  }

  lemma GrowBlock(root: Node, blk: nat, cap: nat)
    requires 0 < |root.ents|
    ensures var root' := GrowRoot(root, blk, cap);
      && IsPath(root', [0]) && BlockAt(root', [0]) == blk
      && Slots(root'.ents) == [Index(root.ents[0].lblk, blk)] && root'.max == root.max
  {
    assert [0][1..] == [];
  }

  /** Growing the root puts its entries in the new block. */
  lemma {:induction false} GrowStored(root: Node, h: nat, blk: nat, cap: nat, disk: Disk, free: seq<nat>)
    requires Stored(root, h, disk, [blk] + free) && 0 < |root.ents|
    ensures Stored(GrowRoot(root, blk, cap), h + 1, disk[blk := Buffer(h, cap, Slots(root.ents))], free)
  {
    hide Holds, Distinct, Unused;
    var root' := GrowRoot(root, blk, cap);
    CellsOne(root'.ents[0], h + 1);
    hide Cells;
    var cs := Cells(root.ents, h);
    InsertCell(disk, cs, 0, blk, Image(Node(cap, root.ents), h), free);
    assert cs[..0] + [Cell(blk, Image(Node(cap, root.ents), h))] + cs[0..] == [Cell(blk, Image(Node(cap, root.ents), h))] + cs;
  }

  /* ---------- setting a key ---------- */

  lemma {:induction false} SetKeyIsPut(n: Node, pos: seq<nat>, d: nat, key: nat)
    requires IsPath(n, pos) && d < |pos|
    ensures IsPath(n, pos[..d]) && pos[d] < |Sub(n, pos[..d]).ents| && Sub(n, pos[..d]).ents[pos[d]].Kid?
    ensures SetKey(n, pos, d, key) == Put(n, pos[..d], KeySet(Sub(n, pos[..d]), pos[d], key))
    decreases d
  {
    if d > 0 {
      assert pos[..d][1..] == pos[1..][..d - 1];
      SetKeyIsPut(n.ents[pos[0]].node, pos[1..], d - 1, key);
    } else {
      assert pos[..0] == [];
    }
  }

  /** The node with the key of entry i replaced. */
  function KeySet(n: Node, i: nat, key: nat): (n': Node)
    requires i < |n.ents| && n.ents[i].Kid?
  {
    n.(ents := n.ents[i := n.ents[i].(lblk := key)])
  }

  lemma KeySetCells(n: Node, h: nat, i: nat, key: nat)
    requires i < |n.ents| && n.ents[i].Kid?
    ensures Cells(KeySet(n, i, key).ents, h) == Cells(n.ents, h)
  {
    if h > 0 {
      var n' := KeySet(n, i, key);
      CellsCut(n.ents, h, i);
      CellsCut(n'.ents, h, i);
      hide Cells;
      assert n'.ents[..i] == n.ents[..i] && n'.ents[i + 1..] == n.ents[i + 1..];
    }
  }

  lemma {:induction false} SetKeyStored(root: Node, h: nat, pos: seq<nat>, d: nat, key: nat, disk: Disk, free: seq<nat>)
    requires Stored(root, h, disk, free) && IsPath(root, pos) && d < |pos| <= h
    ensures IsPath(root, pos[..d])
    ensures IsPath(SetKey(root, pos, d, key), pos[..d])
    ensures Stored(SetKey(root, pos, d, key), h, Written(disk, root, h, pos[..d], Sub(SetKey(root, pos, d, key), pos[..d])), free)
  {
    hide Stored, Written, Cells;
    SetKeyIsPut(root, pos, d, key);
    var p' := KeySet(Sub(root, pos[..d]), pos[d], key);
    KeySetCells(Sub(root, pos[..d]), h - d, pos[d], key);
    PutHi(root, pos[..d], p', 0);
    PutStored(root, h, pos[..d], p', disk, free);
  }

  /* ---------- reading the tree back ---------- */

  /** What following the block numbers from a node's image finds. */
  function ReadNode(disk: Disk, buf: Buffer, h: nat): (n: Node)
    decreases h, |buf.slots| + 1
  {
    Node(buf.max, ReadSlots(disk, buf.slots, h))
  }

  function ReadSlots(disk: Disk, ss: seq<Slot>, h: nat): (es: seq<Ent>)
    decreases h, |ss|
  {
    if ss == [] then [] else [ReadSlot(disk, ss[0], h)] + ReadSlots(disk, ss[1..], h)
  }

  function ReadSlot(disk: Disk, s: Slot, h: nat): (e: Ent)
    decreases h, 0
  {
    match s
    case Leaf(lblk, len, pblk, uninit) => Ext(lblk, len, pblk, uninit)
    case Index(lblk, pblk) =>
      Kid(lblk, pblk, if h > 0 && pblk in disk then ReadNode(disk, disk[pblk], h - 1) else Node(0, []))
  }

  /** Entries are what their height says. */
  ghost predicate Shaped(es: seq<Ent>, h: nat)
    decreases h, |es|
  {
    forall i | 0 <= i < |es| :: es[i].Kid? == (h > 0) && (h > 0 ==> Shaped(es[i].node.ents, h - 1))
  }

  lemma {:induction false} WfShaped(n: Node, h: nat, lo: nat, hi: nat, cap: nat)
    requires Wf(n, h, lo, hi, cap)
    ensures Shaped(n.ents, h)
    decreases h
  {
    forall i | 0 <= i < |n.ents| ensures n.ents[i].Kid? == (h > 0) && (h > 0 ==> Shaped(n.ents[i].node.ents, h - 1)) {
      EntKey(n, h, lo, hi, cap, i);
      if h > 0 {
        WfShaped(n.ents[i].node, h - 1, n.ents[i].lblk, Bound(n.ents, i, hi), cap);
      }
    }
  }

  lemma ShapedRest(es: seq<Ent>, h: nat)
    requires Shaped(es, h) && es != []
    ensures Shaped(es[1..], h)
  {
  }

  lemma HoldsParts(disk: Disk, a: seq<Cell>, b: seq<Cell>)
    requires Holds(disk, a + b)
    ensures Holds(disk, a) && Holds(disk, b)
  {
    assert forall i | 0 <= i < |a| :: (a + b)[i] == a[i];
    assert forall i | 0 <= i < |b| :: (a + b)[|a| + i] == b[i];
  }

  /** The tree is what is found by following the block numbers stored in it. */
  lemma {:induction false} ReadBack(disk: Disk, es: seq<Ent>, h: nat)
    requires Shaped(es, h) && Holds(disk, Cells(es, h))
    ensures ReadSlots(disk, Slots(es), h) == es
    decreases h, |es|
  {
    if es != [] {
      var e, rest := es[0], es[1..];
      assert Slots(es)[1..] == Slots(rest);
      if h > 0 {
        HoldsParts(disk, CellsOf(e, h), Cells(rest, h));
        var c := Cell(e.pblk, Image(e.node, h - 1));
        HoldsParts(disk, [c], Cells(e.node.ents, h - 1));
        assert [c][0] == c;
        assert Shaped(e.node.ents, h - 1);
        ReadBack(disk, e.node.ents, h - 1);
        assert ReadNode(disk, c.buf, h - 1) == e.node;
      }
      assert ReadSlot(disk, SlotOf(e), h) == e;
      ShapedRest(es, h);
      ReadBack(disk, rest, h);
      assert es == [e] + rest;
    }
  }

  /** A stored tree can be read back from the root in the inode and the blocks. */
  lemma {:induction false} StoredReadBack(root: Node, h: nat, lo: nat, hi: nat, cap: nat, disk: Disk, free: seq<nat>)
    requires Stored(root, h, disk, free) && Wf(root, h, lo, hi, cap)
    ensures ReadNode(disk, Image(root, h), h) == root
  {
    hide Cells, Distinct, Unused, Holds, Wf, Slots;
    WfShaped(root, h, lo, hi, cap);
    ReadBack(disk, root.ents, h);
  }
}
