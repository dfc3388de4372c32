/**
 The extent handle: a cursor over an extent tree and the operations on it
 (drivers/fs/ext2/extent.c). The handle's path holds, for each level from the
 root down to the current one, which entry is current and how many are left.
 */
module ExtentHandle {
  import opened ExtentTree
  import opened ExtentSplit
  import opened ExtentSearch
  import opened ExtentRekey
  import opened ExtentDisk

  /** struct ext3_generic_extent_path; curr is the index of the current entry, -1 for none. */
  datatype Cursor = Cursor(curr: int, left: int, entries: nat, max: nat, endBlock: nat, visit: nat)

  /** struct ext3_generic_extent. */
  datatype Got = Got(lblk: nat, len: int, pblk: nat, leaf: bool, uninit: bool, second: bool)

  /** The errno of a failed call. */
  datatype Error = None | ESRCH | ENOENT | ENOTSUP | ENOSPC | EUCLEAN | EINVAL

  /** The indices of the current entries of the first levels of a path. */
  function PosOf(path: seq<Cursor>, level: nat): (pos: seq<nat>)
    requires level <= |path| && forall d | 0 <= d < level :: path[d].curr >= 0
    ensures |pos| == level
  {
    seq(level, d requires 0 <= d < level => path[d].curr)
  }

  /** The cursor describes the node, whose range ends at hi. */
  predicate Describes(c: Cursor, n: Node, hi: nat)
  {
    && c.entries == |n.ents| && c.max == n.max && c.endBlock == hi
    && -1 <= c.curr < c.entries && c.left == c.entries - 1 - c.curr
  }

  ghost predicate PathOk(root: Node, height: nat, end: nat, path: seq<Cursor>, level: nat)
  {
    && level <= height && |path| == height + 1
    && (forall d | 0 <= d < level :: path[d].curr >= 0)
    && IsPath(root, PosOf(path, level))
    && forall d | 0 <= d <= level ::
         && IsPath(root, PosOf(path, d))
         && Describes(path[d], Sub(root, PosOf(path, d)), Hi(root, PosOf(path, d), end))
  }

  ghost predicate WfRoot(root: Node, height: nat, end: nat, cap: nat)
  {
    && root.max < cap
    && if root.ents == [] then height == 0 && 2 <= root.max
       else Wf(root, height, root.ents[0].lblk, end, cap)
  }

  lemma WfRootIs(root: Node, height: nat, lo: nat, end: nat, cap: nat)
    requires Wf(root, height, lo, end, cap) && root.max < cap
    ensures WfRoot(root, height, end, cap) && root.ents != []
  {
  }

  lemma PosPrefix(path: seq<Cursor>, level: nat)
    requires 0 < level <= |path| && forall d | 0 <= d < level :: path[d].curr >= 0
    ensures PosOf(path, level) == PosOf(path, level - 1) + [path[level - 1].curr]
  {
  }

  /** Changing cursors from level on does not change the path to them. */
  lemma PosSame(path: seq<Cursor>, path': seq<Cursor>, level: nat)
    requires level <= |path| && level <= |path'|
    requires forall d | 0 <= d < level :: path[d].curr >= 0 && path'[d] == path[d]
    ensures PosOf(path', level) == PosOf(path, level)
  {
  }

  class Handle {
    const cap: nat      // entries that fit in a block
    const end: nat      // blocks of the file
    var root: Node
    var height: nat     // max_depth
    var level: nat
    var path: seq<Cursor>
    var free: seq<nat>  // blocks the allocator can give
    var disk: Disk      // the blocks of the file system

    ghost predicate Valid()
      reads this
    {
      && WfRoot(root, height, end, cap)
      && PathOk(root, height, end, path, level)
      && Stored(root, height, disk, free)
    }

    /** There is a current entry. */
    predicate Placed()
      reads this
    {
      level < |path| && path[level].curr >= 0
    }

    function Pos(): (pos: seq<nat>)
      requires Valid()
      reads this
      ensures |pos| == level && IsPath(root, pos)
    {
      PosOf(path, level)
    }

    function Here(): (n: Node)
      requires Valid()
      reads this
    {
      Sub(root, Pos())
    }

    function Curr(): (e: Ent)
      requires Valid() && Placed()
      reads this
    {
      Here().ents[path[level].curr]
    }

    /** The block of the current node, and that of the one above it if that is not the root. */
    function Block(): (blk: nat)
      requires Valid() && level > 0
      reads this
    {
      BlockAt(root, Pos())
    }

    ghost function Above(): (blks: set<nat>)
      requires Valid()
      reads this
    {
      if level <= 1 then {} else {BlockAt(root, PosOf(path, level - 1))}
    }

    /** The current node's block holds it. */
    lemma HereStored()
      requires Valid() && level > 0
      ensures Block() in disk && disk[Block()] == Image(Here(), height - level)
    {
      StoredAt(root, height, Pos(), disk, free);
    }

    /** The tail of ext3_extent_get: report the current entry. */
    method Report() returns (g: Got)
      requires Valid() && Placed()
      ensures g.lblk == Curr().lblk && g.pblk == Curr().pblk
      ensures g.len == LenOf(Curr(), height - level, Bound(Here().ents, path[level].curr, Hi(root, Pos(), end)))
      ensures g.leaf == (level == height) && g.second == (path[level].visit != 0)
      ensures g.uninit == (Curr().Ext? && Curr().uninit)
    {
      hide Stored, PathOk, WfRoot, IsPath, Sub, Hi, Lo, Wf;
      AtLevel();
      var n := Here();
      var c := path[level];
      var e := n.ents[c.curr];
      CurrShape();
      if level == height {
        g := Got(e.lblk, e.len, e.pblk, true, e.uninit, c.visit != 0);
      } else {
        var endBlock := if c.left > 0 then n.ents[c.curr + 1].lblk else c.endBlock;
        g := Got(e.lblk, endBlock - e.lblk, e.pblk, false, false, c.visit != 0);
      }
    }

    /** EXT2_EXTENT_CURRENT. */
    method Current() returns (err: Error, g: Got)
      requires Valid()
      ensures err == if Placed() then None else ENOENT
      ensures err == None ==>
        && g.lblk == Curr().lblk && g.pblk == Curr().pblk
        && g.len == LenOf(Curr(), height - level, Bound(Here().ents, path[level].curr, Hi(root, Pos(), end)))
        && g.leaf == (level == height) && g.second == (path[level].visit != 0)
        && g.uninit == (Curr().Ext? && Curr().uninit)
    {
      hide Stored, PathOk, WfRoot, IsPath, Sub, Hi, Lo, Wf;
      AtLevel();
      err, g := None, Got(0, 0, 0, false, false, false);
      if path[level].curr < 0 { return ENOENT, g; }
      g := Report();
    }

    /** The tree is what following the block numbers from the inode finds. */
    lemma ReadsBack()
      requires Valid()
      ensures ReadNode(disk, Image(root, height), height) == root
    {
      hide Stored, PathOk, Wf;
      if root.ents != [] {
        StoredReadBack(root, height, root.ents[0].lblk, end, cap, disk, free);
      }
    }

    lemma RootWf()
      requires Valid() && root.ents != []
      ensures Wf(root, height, root.ents[0].lblk, end, cap) && root.max < cap
    {
    }

    lemma EmptyRoom()
      requires Valid() && root.ents == []
      ensures level == 0 < |path| && path[0].entries < path[0].max
    {
      hide Stored;
      assert PosOf(path, 0) == [];
    }

    lemma EmptyFlat()
      requires Valid() && root.ents == []
      ensures Level(root, height, 0) == []
    {
    }

    lemma AtLevel()
      requires Valid()
      ensures level <= height < |path|
      ensures Describes(path[level], Here(), Hi(root, Pos(), end))
    {
      assert PosOf(path, level) == Pos();
    }

    /** The node at the current level, and the one above it. */
    lemma NodeHere()
      requires Valid() && Placed()
      ensures |Here().ents| == path[level].entries && Here().max == path[level].max >= 2
      ensures root.ents != []
    {
      AtLevel();
      RootNotEmpty(root, Pos(), path[level].curr);
      CurrShape();
    }

    lemma AboveLevel()
      requires Valid()
      ensures |path| == height + 1 && level <= height
      ensures forall d | 0 <= d < level :: path[d].curr >= 0
      ensures level == 0 ==> Pos() == [] && Here() == root
    {
    }

    lemma ParentHere()
      requires Valid() && level > 0
      ensures var pp, pi := PosOf(path, level - 1), path[level - 1].curr;
        && pi >= 0 && IsPath(root, pp) && Pos() == pp + [pi as nat]
        && pi < |Sub(root, pp).ents| && Sub(root, pp).ents[pi].Kid? && Sub(root, pp).ents[pi].node == Here()
        && |Sub(root, pp).ents| == path[level - 1].entries && Sub(root, pp).max == path[level - 1].max
        && path[level - 1].left == path[level - 1].entries - 1 - pi && path[level - 1].endBlock == Hi(root, pp, end)
    {
      PosPrefix(path, level);
      var pp, pi := PosOf(path, level - 1), path[level - 1].curr;
      assert Describes(path[level - 1], Sub(root, pp), Hi(root, pp, end));
      SubSnoc(root, pp, pi);
    }

    /** The current entry, in the list of its height. */
    lemma CurrPlace()
      requires Valid() && Placed()
      ensures root.ents != []
      ensures Index() == Place(root, height, Pos(), path[level].curr) < |Level(root, height, height - level)|
      ensures Level(root, height, height - level)[Index()] == Curr()
    {
      hide Stored, WfRoot, Sub, Hi, Lo, Wf, Before, Level;
      AtLevel();
      RootNotEmpty(root, Pos(), path[level].curr);
      RootWf();
      BoundAt(root, height, root.ents[0].lblk, end, cap, Pos(), path[level].curr);
    }

    /** Where the entry is found again, its parent is the entry that was current before. */
    lemma SameParent(pp: seq<nat>, pi: nat, i: nat)
      requires Valid() && Placed() && level > 0 && |pp| == level - 1
      requires IsPath(root, pp) && pi < |Sub(root, pp).ents| && Sub(root, pp).ents[pi].Kid?
      requires i < |Sub(root, pp).ents[pi].node.ents| && Sub(root, pp).ents[pi].node.ents[i].lblk == Curr().lblk
      ensures Here() == Sub(root, pp).ents[pi].node && PosOf(path, level - 1) == pp && path[level - 1].curr == pi
      ensures path[level - 1].entries == |Sub(root, pp).ents| && path[level - 1].max == Sub(root, pp).max
    {
      hide Stored, PathOk, WfRoot, IsPath, Sub, Hi, Lo, Wf, Before, Level, CoversAt, Ordered;
      AtLevel();
      AboveLevel();
      ParentHere();
      RootNotEmpty(root, Pos(), path[level].curr);
      RootWf();
      var qq, qi := PosOf(path, level - 1), path[level - 1].curr;
      var lo := root.ents[0].lblk;
      ParentCovers(root, height, lo, end, cap, pp, pi, i);
      ParentCovers(root, height, lo, end, cap, qq, qi, path[level].curr);
      var u := height - level + 1;
      LevelOrdered(root, height, u, lo, end, cap);
      CoversUnique(Level(root, height, u), u, lo, end, cap, Place(root, height, pp, pi), Place(root, height, qq, qi), Curr().lblk);
      PlaceUnique(root, height, lo, end, cap, pp, pi, qq, qi);
    }

    /** The node at level m, on the path, may be rewritten if its cursor is. */
    lemma PutPathOk(m: nat, p': Node, c': Cursor)
      requires Valid() && m <= level
      requires IsPath(root, PosOf(path, m))
      requires Describes(c', p', Hi(root, PosOf(path, m), end))
      ensures PathOk(Put(root, PosOf(path, m), p'), height, end, path[m := c'], m)
      ensures PosOf(path[m := c'], m) == PosOf(path, m)
    {
      hide Wf;
      var pp := PosOf(path, m);
      var path' := path[m := c'];
      var root' := Put(root, pp, p');
      PutHi(root, pp, p', end);
      forall d | 0 <= d <= m
        ensures PosOf(path', d) == PosOf(path, d)
        ensures IsPath(root', PosOf(path', d))
        ensures Describes(path'[d], Sub(root', PosOf(path', d)), Hi(root', PosOf(path', d), end))
      {
        PosSame(path, path', d);
        if d < m {
          assert PosOf(path, d) == pp[..d];
          PutPrefix(root, pp, p', d, end);
        }
      }
    }

    lemma GrowPathOk(blk: nat)
      requires Valid() && level == 0 && root.ents != []
      ensures PathOk(GrowRoot(root, blk, cap), height + 1, end, [Cursor(0, 0, 1, path[0].max, path[0].endBlock, 0)] + path, 0)
    {
      var path' := [Cursor(0, 0, 1, path[0].max, path[0].endBlock, 0)] + path;
      assert PosOf(path', 0) == [] == PosOf(path, 0);
    }

    /** Entries are extents at the leaves and children above. */
    lemma CurrShape()
      requires Valid() && Placed()
      ensures Curr().Ext? == (level == height)
      ensures Wf(Here(), height - level, Lo(root, Pos(), root.ents[0].lblk), Hi(root, Pos(), end), cap)
    {
      RootNotEmpty(root, Pos(), path[level].curr);
      WfSub(root, height, root.ents[0].lblk, end, cap, Pos());
      EntKey(Here(), height - level, Lo(root, Pos(), root.ents[0].lblk), Hi(root, Pos(), end), cap, path[level].curr);
    }

    /** EXT2_EXTENT_ROOT. */
    method Root() returns (err: Error)
      requires Valid()
      modifies `level, `path
      ensures Valid() && level == 0
      ensures err == (if root.ents == [] then ESRCH else None)
      ensures err == None ==> path[0].curr == 0 && path[0].visit == 0
    {
      assert PosOf(path, 0) == [];
      level := 0;
      var c := path[0];
      path := path[0 := c.(left := c.entries, curr := -1)];
      assert PosOf(path, 0) == [];
      if path[0].left <= 0 {
        return ESRCH;
      }
      err := NextSib();
    }

    /** EXT2_EXTENT_NEXT_SIB. */
    method NextSib() returns (err: Error)
      requires Valid()
      modifies `path
      ensures Valid()
      ensures err == (if old(path[level].curr) + 1 == |Here().ents| then ESRCH else None)
      ensures err == ESRCH ==> path == old(path)
      ensures err == None ==> Placed() && path == old(path)[level := Moved(old(path[level]), 1, 0)]
      ensures Pos() == old(Pos())
    {
      var c := path[level];
      if c.left <= 0 {
        return ESRCH;
      }
      MoveOk(path[level := Moved(c, 1, 0)]);
      path := path[level := Moved(c, 1, 0)];
      err := None;
    }

    /** EXT2_EXTENT_PREV_SIB. */
    method PrevSib() returns (err: Error)
      requires Valid()
      modifies `path
      ensures Valid()
      ensures err == (if old(path[level].curr) <= 0 then ESRCH else None)
      ensures err == ESRCH ==> path == old(path)
      ensures err == None ==>
                && Placed()
                && path == old(path)[level := Moved(old(path[level]), -1, if level < height then 1 else old(path[level].visit))]
      ensures Pos() == old(Pos())
    {
      var c := path[level];
      if c.curr < 0 || c.left + 1 >= c.entries {
        return ESRCH;
      }
      var c' := Moved(c, -1, if level < height then 1 else c.visit);
      MoveOk(path[level := c']);
      path := path[level := c'];
      err := None;
    }

    /** Only the cursor of the current level has moved. */
    lemma MoveOk(path': seq<Cursor>)
      requires Valid() && |path'| == |path|
      requires forall d | 0 <= d < level :: path'[d] == path[d]
      requires Describes(path'[level], Here(), Hi(root, Pos(), end))
      ensures PathOk(root, height, end, path', level)
      ensures PosOf(path', level) == Pos()
    {
      forall d | 0 <= d <= level ensures PosOf(path', d) == PosOf(path, d) {
        PosSame(path, path', d);
      }
    }

    /** Counting a visit does not move the cursor. */
    lemma MarkedOk(path0: seq<Cursor>)
      requires level <= height && |path| == |path0| && WfRoot(root, height, end, cap) && PathOk(root, height, end, path0, level)
      requires Stored(root, height, disk, free)
      requires path == path0[level := path0[level].(visit := path[level].visit)]
      ensures Valid() && Pos() == PosOf(path0, level)
    {
      forall d | 0 <= d <= level ensures PosOf(path, d) == PosOf(path0, d) {
        PosSame(path0, path, d);
      }
    }

    /** EXT2_EXTENT_UP. */
    method Up() returns (err: Error)
      requires Valid()
      modifies `level
      ensures Valid()
      ensures err == if old(level) == 0 then EINVAL else None
      ensures err == EINVAL ==> level == old(level)
      ensures err == None ==>
                && Placed() && level == old(level) - 1
                && old(Pos()) == Pos() + [path[level].curr]
    {
      if level <= 0 { return EINVAL; }
      PosPrefix(path, level);
      level := level - 1;
      err := None;
    }

    /** EXT2_EXTENT_DOWN. */
    method Down() returns (err: Error)
      requires Valid()
      modifies `level, `path
      ensures Valid()
      ensures err == if old(Placed()) && old(level) < height then None else EINVAL
      ensures err == EINVAL ==> level == old(level) && path == old(path)
      ensures err == None ==>
                && Placed() && level == old(level) + 1
                && Pos() == old(Pos()) + [old(path[level].curr)] && path[level].curr == 0 && path[level].visit == 0
                && forall d | 0 <= d < level :: path[d] == old(path[d])
    {
      hide Stored, PathOk, WfRoot, IsPath, Sub, Hi, Lo, Wf;
      AtLevel();
      if path[level].curr < 0 || level >= height { return EINVAL; }
      ChildHere();
      ChildStored();
      var c := path[level];
      var eh := disk[Curr().pblk];
      var endBlock := if c.left > 0 then Here().ents[c.curr + 1].lblk else c.endBlock;
      var c' := Cursor(0, |eh.slots| - 1, |eh.slots|, eh.max, endBlock, 0);
      DownOk(path[level + 1 := c']);
      path := path[level + 1 := c'];
      level := level + 1;
      err := None;
    }

    /** The node below the current entry. */
    lemma ChildHere()
      requires Valid() && Placed() && level < height
      ensures Curr().Kid? && |Curr().node.ents| > 0
      ensures var pos' := Pos() + [path[level].curr];
        && IsPath(root, pos') && Sub(root, pos') == Curr().node
        && Hi(root, pos', end) == Bound(Here().ents, path[level].curr, Hi(root, Pos(), end))
    {
      hide Stored, PathOk, WfRoot, IsPath, Sub, Hi, Lo;
      AtLevel();
      CurrShape();
      RootNotEmpty(root, Pos(), path[level].curr);
      RootWf();
      HiSnoc(root, Pos(), path[level].curr, end);
      WfSub(root, height, root.ents[0].lblk, end, cap, Pos() + [path[level].curr]);
    }

    lemma ChildStored()
      requires Valid() && Placed() && level < height && Curr().Kid?
      requires var pos' := Pos() + [path[level].curr]; IsPath(root, pos') && Sub(root, pos') == Curr().node
      ensures Curr().pblk in disk && disk[Curr().pblk] == Image(Curr().node, height - level - 1)
    {
      hide Stored, WfRoot, Sub, Hi, Lo, Wf;
      AtLevel();
      BlockSnoc(root, Pos(), path[level].curr);
      StoredAt(root, height, Pos() + [path[level].curr], disk, free);
    }

    lemma DownOk(path': seq<Cursor>)
      requires Valid() && Placed() && level < height && |path'| == |path| && Curr().Kid?
      requires forall d | 0 <= d <= level :: path'[d] == path[d]
      requires IsPath(root, Pos() + [path[level].curr])
      requires Describes(path'[level + 1], Curr().node, Hi(root, Pos() + [path[level].curr], end))
      requires Sub(root, Pos() + [path[level].curr]) == Curr().node
      ensures PathOk(root, height, end, path', level + 1)
      ensures PosOf(path', level + 1) == Pos() + [path[level].curr]
    {
      PosPrefix(path', level + 1);
      forall d | 0 <= d <= level ensures PosOf(path', d) == PosOf(path, d) {
        PosSame(path, path', d);
      }
    }

    /** The place of the current entry among all entries of its height. */
    ghost function Index(): (k: nat)
      requires Valid() && Placed()
      reads this
    {
      |Before(root, height, height - level, Pos())| + path[level].curr
    }

    /** Some entry of height t covers the block. */
    ghost predicate Covered(t: nat, block: nat)
      reads this
    {
      var s := Level(root, height, t);
      exists j | 0 <= j < |s| :: CoversAt(s, t, end, j, block)
    }

    /** ext3_extent_goto: the entry of height t that covers the block becomes current; ENOENT if there is none. */
    method Goto(t: nat, block: nat) returns (err: Error)
      requires Valid()
      modifies `level, `path
      ensures Valid()
      ensures root.ents == [] ==> err == ENOENT
      ensures root.ents != [] && t > height ==> err == ENOTSUP
      ensures root.ents != [] && t <= height ==>
                && err == (if Covered(t, block) then None else ENOENT)
                && (err == None ==>
                      && Placed() && level == height - t
                      && Index() < |Level(root, height, t)|
                      && Level(root, height, t)[Index()] == Curr()
                      && CoversAt(Level(root, height, t), t, end, Index(), block))
    {
      hide Stored;
      err := Root();
      if err == ESRCH { return ENOENT; }
      if t > height { return ENOTSUP; }
      var g := Report();
      OnlyBelowRoot(root, height, t, end, block);
      assert Pos() == [];
      while true
        invariant Valid() && Placed() && level + t <= height && root.ents != []
        invariant g.lblk == Curr().lblk
        invariant g.len == LenOf(Curr(), height - level, Bound(Here().ents, path[level].curr, Hi(root, Pos(), end)))
        invariant OnlyBelow(root, height, t, end, Pos(), block)
        invariant level + t < height ==> path[level].curr == 0 || Curr().lblk <= block
        invariant level + t == height ==> Passed(block, path[level].curr)
        decreases height - level, path[level].left
      {
        hide Stored, PathOk, WfRoot, OnlyBelow, IsPath, Sub, Hi;
        if level + t == height {
          var done;
          done, err, g := Scan(t, block, g);
          if done { return; }
        } else {
          g := Approach(t, block);
        }
      }
    }

    /** The lookup part of ext3_extent_bmap: the physical block, or 0 if the block is not mapped. */
    method Bmap(block: nat) returns (phys: nat, uninit: bool)
      requires Valid()
      modifies `level, `path
      ensures Valid()
      ensures (phys, uninit) == Lookup(Flat(root, height), block)
    {
      hide Stored, PathOk, WfRoot, IsPath, Sub, Hi, Lo, Wf, Before, Level, CoversAt, Lookup;
      phys, uninit := 0, false;
      var err := Goto(0, block);
      if err != None {
        if root.ents == [] { EmptyFlat(); }
        NotFound(Level(root, height, 0), end, block);
        return;
      }
      var g := Report();
      FoundHere(block);
      phys := g.pblk + (block - g.lblk);
      uninit := g.uninit;
    }

    lemma FoundHere(block: nat)
      requires Valid() && Placed() && level == height
      requires Index() < |Level(root, height, 0)| && Level(root, height, 0)[Index()] == Curr()
      requires CoversAt(Level(root, height, 0), 0, end, Index(), block)
      ensures Curr().Ext? && Curr().lblk <= block
      ensures Lookup(Level(root, height, 0), block) == (Curr().pblk + (block - Curr().lblk), Curr().uninit)
    {
      hide Stored, PathOk, WfRoot, IsPath, Sub, Hi, Lo, Wf, Before, Level, Lookup;
      AtLevel();
      RootNotEmpty(root, Pos(), path[level].curr);
      RootWf();
      CurrShape();
      LevelOrdered(root, height, 0, root.ents[0].lblk, end, cap);
      LookupFound(Level(root, height, 0), root.ents[0].lblk, end, cap, Index(), block);
    }

    /** ext3_extent_splitting_eof: nothing follows the current entry at any level. */
    method SplittingEof() returns (eof: bool)
      requires Valid()
      ensures eof == AtEof()
    {
      AtLevel();
      if level == 0 { return false; }
      var p := level;
      while p >= 0
        invariant -1 <= p <= level
        invariant forall d | p < d <= level :: path[d].left == 0
      {
        if path[p].left != 0 { return false; }
        p := p - 1;
      }
      eof := true;
    }

    /** The cursor is below the root, and nothing is left on any level. */
    ghost predicate AtEof()
      requires Valid()
      reads this
    {
      level > 0 && forall d | 0 <= d <= level :: path[d].left == 0
    }

    /** Nothing is left on the levels above exactly if each entry on the path is the last of its node. */
    lemma LeftAbove(l: nat)
      requires Valid() && l <= level
      ensures IsPath(root, PosOf(path, l))
      ensures (forall d | 0 <= d < l :: path[d].left == 0) <==> LastOnly(root, PosOf(path, l))
      decreases l
    {
      hide Stored, WfRoot, Sub, Hi;
      if l > 0 {
        LeftAbove(l - 1);
        PosPrefix(path, l);
        assert Describes(path[l - 1], Sub(root, PosOf(path, l - 1)), Hi(root, PosOf(path, l - 1), end));
        LastOnlySnoc(root, PosOf(path, l - 1), path[l - 1].curr);
      }
    }

    /** Nothing is left on any level exactly if the current entry is the last of its height. */
    lemma EofIs()
      requires Valid() && Placed()
      ensures AtEof() <==> level > 0 && Index() + 1 == |Level(root, height, height - level)|
    {
      hide Stored, PathOk, WfRoot, IsPath, Sub, Hi, Lo, Wf, Before, After, Level, LastOnly;
      AtLevel();
      RootNotEmpty(root, Pos(), path[level].curr);
      RootWf();
      LeftAbove(level);
      NoneAfter(root, height, height - level, root.ents[0].lblk, end, cap, Pos());
      LevelSub(root, height, height - level, Pos());
      LevelSelf(Here(), height - level);
      LeftHere();
    }

    lemma LeftHere()
      requires Valid()
      ensures (forall d | 0 <= d <= level :: path[d].left == 0) <==>
              (forall d | 0 <= d < level :: path[d].left == 0) && path[level].left == 0
    {
    }

    /** How many entries of the current node a split moves to the new one. */
    ghost function Moving(canExpand: bool): (m: nat)
      requires Valid()
      reads this
    {
      if canExpand && AtEof() then 1 else |Here().ents| / 2
    }

    /** The halves are as equal as can be, but at the end of the file, when the tree may grow, only one entry moves. */
    lemma MovingHalf(canExpand: bool)
      requires Valid()
      ensures var m, n := Moving(canExpand), |Here().ents|;
        if canExpand && AtEof() then m == 1 else m == n - m || m + 1 == n - m
    {
      hide Stored, PathOk, WfRoot, AtEof;
    }

    /** A block for a new node, if the allocator has one. */
    method AllocBlock() returns (err: Error, blk: nat)
      requires Stored(root, height, disk, free)
      modifies `free
      ensures Stored(root, height, disk, free)
      ensures err == (if old(free) == [] then ENOSPC else None)
      ensures err == ENOSPC ==> free == []
      ensures err == None ==> old(free) == [blk] + free
    {
      if free == [] {
        return ENOSPC, 0;
      }
      err, blk, free := None, free[0], free[1..];
      assert old(free) == [blk] + free;
      StoredLess(root, height, disk, blk, free);
    }

    /** The entries of all heights up to m are those of another tree. */
    ghost predicate KeepsLevels(root0: Node, height0: nat, m: nat)
      reads this
    {
      forall t: nat | t <= m :: Level(root, height, t) == Level(root0, height0, t)
    }

    /** How many blocks the split of a node at level l takes: one for each node that is divided, from it
        up as long as the parent is full, and one if the root is to be grown. */
    ghost function Blocks(l: nat): (n: nat)
      requires l <= |path|
      reads `path
    {
      1 + if l > 0 && path[l - 1].entries >= path[l - 1].max then Blocks(l - 1) else 0
    }

    /** ext3_extent_node_split: the entries of all heights up to that of the node stay what they
        are; the current entry stays current, in a node with room. */
    method NodeSplit(canExpand: bool) returns (err: Error)
      requires Valid() && Placed() && (level == 0 || |Here().ents| >= 2)
      modifies this
      ensures Valid()
      ensures KeepsLevels(old(root), old(height), old(height - level))
      ensures err == None || (err == ENOSPC && free == [])
      ensures err == None ==>
                && Placed() && height - level == old(height - level)
                && Index() == old(Index()) && Curr() == old(Curr())
                && path[level].entries < path[level].max
      ensures err == None && old(level) == 0 ==> old(free) != [] && disk == old(disk)[old(free)[0] := Buffer(old(height), cap, Slots(old(root).ents))]
      ensures err == None && old(level) > 0 ==> Parted(old(Here()), old(height - level), old(Block()), old(Moving(canExpand)), old(free))
      ensures SameBut(old(disk), disk, OnPath(old(root), old(Pos())) + Among(old(free))) && Among(free) <= Among(old(free))
      ensures err == None ==> level > 0 && (Block() in old(free) || (old(level) > 0 && Block() == old(Block())))
      ensures err == None <==> |old(free)| >= old(Blocks(level))
      ensures err == None ==> |free| + old(Blocks(level)) == |old(free)|
      decreases level, 2
    {
      hide Stored, PathOk, WfRoot, IsPath, Sub, Hi, Lo, Wf, Before, Level, BlockAt, OnPath, SameBut, Parted, Moving, Elders, Above, Block;
      AboveLevel();
      PathBlocks();
      if level == 0 {
        err := GrowTree();
        SameButMore(old(disk), disk, Among(old(free)), OnPath(old(root), old(Pos())) + Among(old(free)));
        return;
      }
      err := MakeRoom(canExpand);
      if err != None {
        SameButMore(old(disk), disk, Elders(old(root), old(Pos())) + Among(old(free)), OnPath(old(root), old(Pos())) + Among(old(free)));
        return;
      }
      ghost var disk1, free1, written := disk, free, {Block()} + Above() + Among(free);
      err := SplitHere(canExpand);
      if err == None {
        assert Block() in Among(free1) || Block() == old(Block());
        PartedMore(old(Here()), old(height - level), old(Block()), old(Moving(canExpand)), free1, old(free));
      }
      SameButTrans(old(disk), disk1, disk, Elders(old(root), old(Pos())) + Among(old(free)), written,
                   OnPath(old(root), old(Pos())) + Among(old(free)));
    }

    /** The first part of the split: see that the parent has room. */
    method MakeRoom(canExpand: bool) returns (err: Error)
      requires Valid() && Placed() && level > 0
      modifies this
      ensures Valid()
      ensures KeepsLevels(old(root), old(height), old(height - level))
      ensures err == None || (err == ENOSPC && free == [])
      ensures err == None ==>
                && Placed() && height - level == old(height - level) && level > 0
                && Index() == old(Index()) && Curr() == old(Curr()) && Here() == old(Here())
                && path[level - 1].entries < path[level - 1].max
      ensures SameBut(old(disk), disk, Elders(old(root), old(Pos())) + Among(old(free))) && Among(free) <= Among(old(free))
      ensures err == None ==>
                && Block() == old(Block()) && Moving(canExpand) == old(Moving(canExpand))
                && Above() <= old(Above()) + Among(old(free))
      ensures err == None <==> |old(free)| + 1 >= old(Blocks(level))
      ensures err == None ==> |free| + old(Blocks(level)) == |old(free)| + 1
      decreases level, 1
    {
      hide Stored, PathOk, WfRoot, IsPath, Sub, Hi, Lo, Wf, Before, Level, BlockAt, OnPath, SameBut, Moving, Elders, Above, Block;
      AboveLevel();
      SameButSelf(disk, Elders(root, Pos()) + Among(free));
      err := None;
      if path[level - 1].entries >= path[level - 1].max {
        err := SplitParent(canExpand);
      }
    }

    /** The blocks of the nodes above the one at pos. */
    ghost function Elders(n: Node, pos: seq<nat>): (blks: set<nat>)
      requires IsPath(n, pos)
    {
      if pos == [] then {} else PathPrefix(n, pos, |pos| - 1); OnPath(n, pos[..|pos| - 1])
    }

    /** The blocks of a list. */
    ghost function Among(blks: seq<nat>): (s: set<nat>)
    {
      set b | b in blks
    }

    /** The parts of node n, whose block is own, are in its block and in one of the given ones. */
    ghost predicate Parted(n: Node, t: nat, own: nat, m: nat, blks: seq<nat>)
      reads `disk
    {
      m <= |n.ents| && exists blk | blk in blks :: Divided(disk, n, t, own, m, blk, cap)
    }

    /** The blocks of the current node and of the one above it are on the path. */
    lemma PathBlocks()
      requires Valid()
      ensures level > 0 ==> OnPath(root, Pos()) == Elders(root, Pos()) + {Block()}
      ensures level == 0 ==> Elders(root, Pos()) == {}
      ensures Above() <= Elders(root, Pos())
    {
      hide Stored, PathOk, IsPath, WfRoot, Sub, Hi, Lo, Wf, BlockAt, OnPath;
      AboveLevel();
      if level > 0 {
        UpBlocks();
        ParentHere();
        var pp := PosOf(path, level - 1);
        OnPathSnoc(root, pp, path[level - 1].curr);
        if level > 1 {
          BlockOnPath(root, pp);
        }
      }
    }

    /** Make the entry at place k of height t current again. */
    method Regain(t: nat, ghost k: nat, block: nat) returns (err: Error)
      requires Valid() && root.ents != [] && t <= height
      requires k < |Level(root, height, t)| && Level(root, height, t)[k].lblk == block
      modifies `level, `path
      ensures Valid() && err == None
      ensures Placed() && level == height - t && Index() == k && Curr() == Level(root, height, t)[k]
    {
      hide Stored, PathOk, WfRoot, IsPath, Sub, Hi, Lo, Wf, Before, Level, CoversAt, Ordered;
      RootWf();
      LevelOrdered(root, height, t, root.ents[0].lblk, end, cap);
      SelfCovers(Level(root, height, t), t, root.ents[0].lblk, end, cap, k);
      err := Goto(t, block);
      CoversUnique(Level(root, height, t), t, root.ents[0].lblk, end, cap, k, Index(), block);
    }

    /** A full parent is split before, and the entry found again. */
    method SplitParent(canExpand: bool) returns (err: Error)
      requires Valid() && Placed() && level > 0 && path[level - 1].entries >= path[level - 1].max
      modifies this
      ensures Valid()
      ensures KeepsLevels(old(root), old(height), old(height - level))
      ensures err == None || (err == ENOSPC && free == [])
      ensures err == None ==>
                && Placed() && height - level == old(height - level) && level > 0
                && Index() == old(Index()) && Curr() == old(Curr()) && Here() == old(Here())
                && path[level - 1].entries < path[level - 1].max
      ensures SameBut(old(disk), disk, Elders(old(root), old(Pos())) + Among(old(free))) && Among(free) <= Among(old(free))
      ensures err == None ==>
                && Block() == old(Block()) && Moving(canExpand) == old(Moving(canExpand))
                && Above() <= old(Above()) + Among(old(free))
      ensures err == None <==> |old(free)| + 1 >= old(Blocks(level))
      ensures err == None ==> |free| + old(Blocks(level)) == |old(free)| + 1
      decreases level, 0
    {
      hide Stored, PathOk, WfRoot, IsPath, Sub, Hi, Lo, Wf, Before, Level, CoversAt, Ordered, BlockAt, OnPath, SameBut, Parted, AtEof, Elders;
      ghost var t, k, i, n := height - level, Index(), path[level].curr, Here();
      EofIs();
      UpBlocks();
      var origHeight := height - level;
      var origBlock := Curr().lblk;
      AtLevel();
      CurrPlace();
      ParentHere();
      err := Up();
      NodeHere();
      ghost var e := Curr();
      err := NodeSplit(canExpand);
      if err != None { return; }
      ghost var pp, pi := Pos(), path[level].curr;
      AtLevel();
      RootNotEmpty(root, pp, pi);
      RootWf();
      ParentCovers(root, height, root.ents[0].lblk, end, cap, pp, pi, i);
      err := Regain(origHeight, k, origBlock);
      SameParent(pp, pi, i);
      EofIs();
      UpBlocks();
    }

    /** The block of the current node is the one the entry above names. */
    lemma UpBlocks()
      requires Valid() && level > 0
      ensures var pp, pi := PosOf(path, level - 1), path[level - 1].curr;
        && pi >= 0 && IsPath(root, pp) && pi < |Sub(root, pp).ents|
        && Block() == Sub(root, pp).ents[pi].pblk
        && Elders(root, Pos()) == OnPath(root, pp)
        && (level > 1 ==> Above() == {BlockAt(root, pp)})
    {
      hide Stored, WfRoot, Hi, Lo, Wf, BlockAt, OnPath;
      ParentHere();
      var pp, pi := PosOf(path, level - 1), path[level - 1].curr;
      assert Pos()[..level - 1] == pp;
      BlockSnoc(root, pp, pi);
    }

    /** The tree is another one in which entry pi of the node at pp has been split, m of its child's
        entries going to a new node in block blk. */
    ghost predicate SplitOff(root0: Node, pp: seq<nat>, pi: int, m: nat, blk: nat)
      reads this
    {
      && IsPath(root0, pp) && 0 <= pi < |Sub(root0, pp).ents|
      && Sub(root0, pp).ents[pi].Kid? && 0 < m <= |Sub(root0, pp).ents[pi].node.ents|
      && root == Put(root0, pp, SplitKid(Sub(root0, pp), pi, m, blk, cap))
    }

    /** The last part of the split, of a node below the root. */
    method SplitHere(canExpand: bool) returns (err: Error)
      requires Valid() && Placed() && level > 0 && path[level - 1].entries < path[level - 1].max
      requires |Here().ents| >= 2
      modifies this
      ensures Valid()
      ensures err == None ==> old(free) != [] && height == old(height) && SplitOff(old(root), old(PosOf(path, level - 1)), old(path[level - 1].curr), old(Moving(canExpand)), old(free)[0])
      ensures err == None ==> SplitOnDisk(old(disk), disk, old(root), root, height, old(PosOf(path, level - 1)), old(path[level - 1].curr), old(Moving(canExpand)), old(free)[0], cap)
      ensures err == None ==> Parted(old(Here()), old(height - level), old(Block()), old(Moving(canExpand)), old(free))
      ensures err == None ==> level > 0 && (Block() == old(Block()) || Block() == old(free)[0])
      ensures SameBut(old(disk), disk, {old(Block())} + old(Above()) + Among(old(free))) && Among(free) <= Among(old(free))
      ensures err == None <==> old(free) != []
      ensures err == None ==> |free| + 1 == |old(free)|
      ensures KeepsLevels(old(root), old(height), old(height - level))
      ensures err == None || (err == ENOSPC && free == [])
      ensures err == None ==>
                && Placed() && height - level == old(height - level)
                && Index() == old(Index()) && Curr() == old(Curr())
                && path[level].entries < path[level].max
    {
      hide Stored, PathOk, WfRoot, IsPath, Sub, Hi, Lo, Wf, Before, Level, CoversAt, Ordered, SplitOff, BlockAt, SameBut, SplitOnDisk, Divided, Parted, Moving;
      SameButSelf(disk, {Block()} + Above() + Among(free));
      AboveLevel();
      var toCopy := ToCopy(canExpand);
      var blk;
      err, blk := AllocBlock();
      if err != None { return; }
      err := SplitInto(toCopy, blk);
      PartedMore(old(Here()), old(height - level), old(Block()), toCopy, [blk], old(free));
      SameButMore(old(disk), disk, {old(Block())} + old(Above()) + {blk}, {old(Block())} + old(Above()) + Among(old(free)));
    }

    /** The split itself, once there is a block for it. */
    method SplitInto(toCopy: nat, blk: nat) returns (err: Error)
      requires Valid() && Placed() && level > 0 && path[level - 1].entries < path[level - 1].max
      requires 0 < toCopy < |Here().ents| && Stored(root, height, disk, [blk] + free)
      modifies `root, `level, `path, `disk
      ensures Valid() && err == None && level > 0 && (Block() == old(Block()) || Block() == blk)
      ensures SplitOff(old(root), old(PosOf(path, level - 1)), old(path[level - 1].curr), toCopy, blk)
      ensures SplitOnDisk(old(disk), disk, old(root), root, height, old(PosOf(path, level - 1)), old(path[level - 1].curr), toCopy, blk, cap)
      ensures Parted(old(Here()), old(height - level), old(Block()), toCopy, [blk])
      ensures SameBut(old(disk), disk, {old(Block())} + old(Above()) + {blk})
      ensures KeepsLevels(old(root), old(height), old(height - level))
      ensures Placed() && height - level == old(height - level)
      ensures Index() == old(Index()) && Curr() == old(Curr()) && path[level].entries < path[level].max
    {
      hide Stored, PathOk, WfRoot, IsPath, Sub, Hi, Lo, Wf, Before, Level, CoversAt, Ordered, SplitKid, Put, BlockAt, SameBut, SplitOnDisk, Divided, Parted;
      ghost var k, i := Index(), path[level].curr;
      var origHeight := height - level;
      var origBlock := Curr().lblk;
      AtLevel();
      AboveLevel();
      CurrPlace();
      ParentHere();
      ghost var pp, pi := PosOf(path, level - 1), path[level - 1].curr;
      SplitUpdate(toCopy, blk, i);
      err := Regain(origHeight, k, origBlock);
      ghost var (pos', i') := Landing(pp, pi, old(|Here().ents|) - toCopy, i);
      LandedAt(pos', i');
    }

    method ToCopy(canExpand: bool) returns (toCopy: nat)
      requires Valid()
      ensures toCopy == Moving(canExpand) && (|Here().ents| >= 2 ==> 0 < toCopy < |Here().ents|)
    {
      hide Stored, PathOk, WfRoot, IsPath, Sub, Hi, Lo, Wf, AtEof;
      AtLevel();
      var noBalance := false;
      if canExpand {
        noBalance := SplittingEof();
      }
      toCopy := if noBalance then 1 else path[level].entries / 2;
    }

    /** What the writes of a split leave, in short. */
    lemma PartedBy(disk0: Disk, root0: Node, pp: seq<nat>, pi: int, m: nat, blk: nat, blks: seq<nat>, all: set<nat>)
      requires SplitOnDisk(disk0, disk, root0, root, height, pp, pi, m, blk, cap)
      requires blk in blks && IsPath(root0, pp) && 0 <= pi < |Sub(root0, pp).ents| && Sub(root0, pp).ents[pi].Kid?
      requires {blk, Sub(root0, pp).ents[pi].pblk} + (if pp == [] then {} else {BlockAt(root0, pp)}) <= all
      ensures var e := Sub(root0, pp).ents[pi];
        Parted(e.node, height - |pp| - 1, e.pblk, m, blks) && SameBut(disk0, disk, all)
    {
      hide SplitOnDisk, Divided, SameBut, BlockAt, IsPath, Sub;
      SplitSummary(disk0, disk, root0, root, height, pp, pi, m, blk, cap);
      SameButMore(disk0, disk, {blk, Sub(root0, pp).ents[pi].pblk} + (if pp == [] then {} else {BlockAt(root0, pp)}), all);
    }

    lemma PartedMore(n: Node, t: nat, own: nat, m: nat, blks: seq<nat>, blks': seq<nat>)
      requires Parted(n, t, own, m, blks) && Among(blks) <= Among(blks')
      ensures Parted(n, t, own, m, blks')
    {
      hide Divided;
      var blk :| blk in blks && Divided(disk, n, t, own, m, blk, cap);
      assert blk in Among(blks);
    }

    /** What ext3_extent_update_path writes when the node at pos has become m. */
    method UpdatePath(pos: seq<nat>, m: Node)
      requires IsPath(root, pos) && |pos| <= height
      modifies `disk
      ensures disk == Written(old(disk), root, height, pos, m)
    {
      if pos != [] {
        disk := disk[BlockAt(root, pos) := Image(m, height - |pos|)];
      }
    }

    /** The blocks a split writes: the new one, that of the node, and that of the parent. */
    method WriteSplit(toCopy: nat, blk: nat, pp: seq<nat>, pi: nat, p': Node)
      requires IsPath(root, pp) && |pp| < height && pi < |Sub(root, pp).ents| && Sub(root, pp).ents[pi].Kid?
      requires 0 < toCopy <= |Sub(root, pp).ents[pi].node.ents| && p' == SplitKid(Sub(root, pp), pi, toCopy, blk, cap)
      modifies `disk
      ensures disk == SplitDisk(old(disk), root, height, pp, pi, toCopy, blk, cap)
    {
      hide IsPath, Sub, SplitKid, Written;
      var e := Sub(root, pp).ents[pi];
      var eh := Image(e.node, height - |pp| - 1);
      var left := |eh.slots| - toCopy;
      SlotParts(e.node.ents, left);
      disk := disk[blk := Buffer(eh.depth, cap, eh.slots[left..])];
      disk := disk[e.pblk := Buffer(eh.depth, eh.max, eh.slots[..left])];
      UpdatePath(pp, p');
    }

    /** The cursor is where its place in the list says. */
    lemma LandedAt(pos': seq<nat>, i': nat)
      requires Valid() && Placed() && |pos'| == level && IsPath(root, pos') && i' < |Sub(root, pos').ents|
      requires Index() == Place(root, height, pos', i')
      ensures Pos() == pos' && path[level].curr == i' && path[level].entries == |Sub(root, pos').ents| && path[level].max == Sub(root, pos').max
    {
      hide Stored, PathOk, WfRoot, IsPath, Sub, Hi, Lo, Wf, Before, Level;
      AtLevel();
      RootNotEmpty(root, Pos(), path[level].curr);
      RootWf();
      PlaceUnique(root, height, root.ents[0].lblk, end, cap, Pos(), path[level].curr, pos', i');
    }

    /** The writes of a split: the new node, the shortened one, and the parent with one more entry, which becomes current. */
    method SplitUpdate(toCopy: nat, blk: nat, ghost i: nat)
      requires Valid() && Placed() && level > 0 && path[level - 1].entries < path[level - 1].max
      requires 0 < toCopy < |Here().ents| && i < |Here().ents|
      requires Stored(root, height, disk, [blk] + free)
      modifies `root, `level, `path, `disk
      ensures Parted(old(Here()), old(height - level), old(Block()), toCopy, [blk])
      ensures SameBut(old(disk), disk, {old(Block())} + old(Above()) + {blk})
      ensures SplitOnDisk(old(disk), disk, old(root), root, height, old(PosOf(path, level - 1)), old(path[level - 1].curr), toCopy, blk, cap)
      ensures Valid() && root.ents != [] && level == old(level) - 1
      ensures SplitOff(old(root), old(PosOf(path, level - 1)), old(path[level - 1].curr), toCopy, blk)
      ensures KeepsLevels(old(root), old(height), old(height - level))
      ensures var (pos', i') := Landing(old(PosOf(path, level - 1)), old(path[level - 1].curr), old(|Here().ents|) - toCopy, i);
        && |pos'| == old(level) && IsPath(root, pos') && i' < |Sub(root, pos').ents| < Sub(root, pos').max
        && Place(root, height, pos', i') == old(Place(root, height, Pos(), i))
        && pos' != [] && (BlockAt(root, pos') == old(Block()) || BlockAt(root, pos') == blk)
    {
      hide Stored, PathOk, WfRoot, IsPath, Sub, Hi, Lo, Wf, Before, Level, SplitKid, Put, BlockAt, SplitOnDisk, SplitDisk, Parted, SameBut;
      UpBlocks();
      AboveLevel();
      ParentHere();
      AtLevel();
      RootNotEmpty(root, Pos(), i);
      RootWf();
      var pp, pi := PosOf(path, level - 1), path[level - 1].curr;
      var p := Sub(root, pp);
      var p' := SplitKid(p, pi, toCopy, blk, cap);
      SplitKeeps(root, height, root.ents[0].lblk, end, cap, pp, pi, toCopy, blk, i);
      ghost var t := height - level;
      forall u: nat | u <= t ensures Level(Put(root, pp, p'), height, u) == Level(root, height, u) {
        SplitKeepsLevel(root, height, u, pp, pi, toCopy, blk, cap);
      }
      var c := path[level - 1];
      var c' := c.(curr := pi + 1, entries := c.entries + 1);
      SplitSize(p, pi, toCopy, blk, cap);
      PutPathOk(level - 1, p', c');
      WfRootIs(Put(root, pp, p'), height, root.ents[0].lblk, end, cap);
      SplitStored(root, height, pp, pi, toCopy, blk, cap, disk, free);
      SplitWrites(root, height, pp, pi, toCopy, blk, cap, disk, free);
      SplitBlocks(root, pp, pi, toCopy, blk, cap);
      WriteSplit(toCopy, blk, pp, pi, p');
      root := Put(root, pp, p');
      PartedBy(old(disk), old(root), pp, pi, toCopy, blk, [blk], {old(Block())} + old(Above()) + {blk});
      level := level - 1;
      path := path[level := c'];
    }

    /** The extent lies in the gap after the current one, or anywhere in an empty file. */
    ghost predicate FitsAfter(e: Ent)
      requires Valid() && level == height && (Placed() || root.ents == [])
      reads this
    {
      && e.Ext? && e.len > 0
      && if Placed() then
           && Curr().Ext? && Curr().lblk + Curr().len <= e.lblk
           && Index() < |Flat(root, height)| && e.lblk + e.len <= Bound(Flat(root, height), Index(), end)
         else e.lblk + e.len <= end
    }

    /** Why an insertion is refused: the node is full and may not be split, or there are not blocks
        enough for that; or the extent is too long. */
    ghost function Refusal(e: Ent, noSplit: bool): (err: Error)
      requires e.Ext? && level < |path|
      reads `path, `level, `free
    {
      if path[level].entries >= path[level].max && (noSplit || |free| < Blocks(level)) then ENOSPC
      else if TooLong(e) then EUCLEAN
      else None
    }

    /** ext3_extent_insert with EXT2_EXTENT_INSERT_AFTER, at the leaves: the extent, and nothing
        else, is added to the file's list, right after the one that was current. */
    method InsertAfter(e: Ent, noSplit: bool) returns (err: Error)
      requires Valid() && level == height && (Placed() || root.ents == [])
      requires FitsAfter(e)
      modifies this
      ensures Valid()
      ensures err != None ==> Flat(root, height) == old(Flat(root, height))
      ensures err == old(Refusal(e, noSplit))
      ensures err == None ==>
                && Placed() && level == height && Curr() == e
                && var k := old(if Placed() then Index() + 1 else 0);
                   && k <= |old(Flat(root, height))| && Index() == k
                   && Flat(root, height) == old(Flat(root, height))[..k] + [e] + old(Flat(root, height))[k..]
    {
      hide Stored, PathOk, WfRoot, IsPath, Sub, Hi, Lo, Wf, Before, Level;
      AtLevel();
      AboveLevel();
      if path[level].curr >= 0 {
        CurrPlace();
        if path[level].entries >= path[level].max {
          if noSplit { return ENOSPC; }
          NodeHere();
          err := NodeSplit(true);
          if err != None { return; }
        }
        if TooLong(e) {
          err := NextSib();
          return EUCLEAN;
        }
        InsertHere(e);
      } else {
        EmptyRoom();
        if TooLong(e) { return EUCLEAN; }
        InsertFirst(e);
      }
      err := None;
    }

    /** The end of the insertion, in a leaf with room. */
    method InsertHere(e: Ent)
      requires Valid() && level == height && Placed() && path[level].entries < path[level].max
      requires FitsAfter(e)
      modifies `root, `path, `disk
      ensures Valid() && Placed() && Curr() == e
      ensures Pos() == old(Pos()) && disk == if level == 0 then old(disk) else old(disk)[Block() := Image(Here(), 0)]
      ensures var k := old(Index()) + 1;
        && k <= |old(Flat(root, height))| && Index() == k
        && Flat(root, height) == old(Flat(root, height))[..k] + [e] + old(Flat(root, height))[k..]
    {
      hide Stored, PathOk, WfRoot, IsPath, Sub, Hi, Lo, Wf, Before, Level, Put;
      AtLevel();
      AboveLevel();
      CurrPlace();
      RootWf();
      ghost var lo := root.ents[0].lblk;
      var pos, i := Pos(), path[level].curr;
      var n := Here();
      var n' := InsertEnt(n, i + 1, e);
      BoundAt(root, height, lo, end, cap, pos, i);
      WfSub(root, height, lo, end, cap, pos);
      InsertWf(n, Lo(root, pos, lo), Hi(root, pos, end), cap, i, e);
      WfPut(root, height, lo, end, cap, pos, n');
      InsertFlat(root, height, pos, i + 1, e);
      LevelPut(root, height, 0, pos, n');
      PutKeepsMax(root, pos, n');
      WfRootIs(Put(root, pos, n'), height, lo, end, cap);
      var c := path[level];
      var c' := c.(curr := i + 1, entries := c.entries + 1);
      PutPathOk(level, n', c');
      LeafStored(root, height, pos, n', disk, free);
      if pos != [] { BlockPut(root, pos, n'); }
      UpdatePath(pos, n');
      root := Put(root, pos, n');
      path := path[level := c'];
    }

    /** The end of the insertion, in an empty file. */
    method InsertFirst(e: Ent)
      requires Valid() && level == height && root.ents == []
      requires FitsAfter(e)
      modifies `root, `path   // the root is in the inode
      ensures Valid() && Placed() && Curr() == e && Index() == 0
      ensures old(Flat(root, height)) == [] && Flat(root, height) == [e]
    {
      assert Pos() == [];
      root := root.(ents := [e]);
      path := path[0 := path[0].(curr := 0, left := 0, entries := 1)];
      assert PosOf(path, 0) == [];
      assert EntOk(e, 0, Bound(root.ents, 0, end), cap);
    }

    /** The extent lies in the gap before the current one. */
    ghost predicate FitsBefore(e: Ent)
      requires Valid() && level == height && Placed()
      reads this
    {
      && e.Ext? && e.len > 0 && e.lblk + e.len <= Curr().lblk
      && Index() <= |Flat(root, height)| && EndsBy(Flat(root, height)[..Index()], e.lblk)
    }

    /** An extent has been inserted before another: the keys above it may be too high. */
    ghost predicate Unfixed()
      reads this
    {
      && level == height && PathOk(root, height, end, path, level) && Placed()
      && Stored(root, height, disk, free)
      && KeysDue(root, PosOf(path, level), path[level].curr)
      && WfRoot(Rekey(root, PosOf(path, level)), height, end, cap)
    }

    /** ext3_extent_insert without EXT2_EXTENT_INSERT_AFTER, at the leaves: the extent, and nothing
        else, is added right before the one that was current. The keys are left to FixParents. */
    method InsertBefore(e: Ent, noSplit: bool) returns (err: Error)
      requires Valid() && level == height && Placed() && FitsBefore(e)
      modifies this
      ensures err != None ==> Valid() && Flat(root, height) == old(Flat(root, height))
      ensures err == old(Refusal(e, noSplit))
      ensures err == None ==>
                && Unfixed()
                && Sub(root, PosOf(path, level)).ents[path[level].curr] == e
                && var k := old(Index());
                   && k <= |old(Flat(root, height))| && Place(root, height, PosOf(path, level), path[level].curr) == k
                   && Flat(root, height) == old(Flat(root, height))[..k] + [e] + old(Flat(root, height))[k..]
    {
      hide Stored, PathOk, WfRoot, IsPath, Sub, Hi, Lo, Wf, Before, Level, KeysDue, Rekey;
      AtLevel();
      AboveLevel();
      if path[level].entries >= path[level].max {
        if noSplit { return ENOSPC; }
        NodeHere();
        err := NodeSplit(true);
        if err != None { return; }
      }
      if TooLong(e) { return EUCLEAN; }
      PutBefore(e);
      err := None;
    }

    /** The end of that insertion, in a leaf with room. */
    method PutBefore(e: Ent)
      requires Valid() && level == height && Placed() && path[level].entries < path[level].max && FitsBefore(e)
      modifies `root, `path, `disk
      ensures Unfixed() && Sub(root, PosOf(path, level)).ents[path[level].curr] == e
      ensures var k := old(Index());
        && k <= |old(Flat(root, height))| && Place(root, height, PosOf(path, level), path[level].curr) == k
        && Flat(root, height) == old(Flat(root, height))[..k] + [e] + old(Flat(root, height))[k..]
    {
      hide Stored, PathOk, WfRoot, IsPath, Sub, Hi, Lo, Wf, Before, Level, Put, KeysDue, Rekey;
      AtLevel();
      AboveLevel();
      CurrPlace();
      RootWf();
      ghost var lo := root.ents[0].lblk;
      var pos, i := Pos(), path[level].curr;
      var n' := InsertEnt(Here(), i, e);
      InsertedBefore(root, height, lo, end, cap, pos, i, e);
      InsertFlat(root, height, pos, i, e);
      LevelPut(root, height, 0, pos, n');
      var c := path[level];
      var c' := c.(left := c.left + 1, entries := c.entries + 1);
      PutPathOk(level, n', c');
      LeafStored(root, height, pos, n', disk, free);
      UpdatePath(pos, n');
      root := Put(root, pos, n');
      path := path[level := c'];
      WfRootIs(Rekey(root, pos), height, Rekey(root, pos).ents[0].lblk, end, cap);
    }

    /** ext3_extent_fix_parents: going up as long as the entry is the first of its node, lower
        the keys to it, then find it again. The tree is then well formed, with the same extents. */
    method FixParents() returns (err: Error)
      requires Unfixed()
      modifies `root, `level, `path, `disk
      ensures Valid() && err == None && Placed() && level == height
      ensures root == Rekey(old(root), old(PosOf(path, level)))
      ensures Flat(root, height) == old(Flat(root, height))
      ensures Curr() == old(Sub(root, PosOf(path, level)).ents[path[level].curr])
      ensures Index() == old(Place(root, height, PosOf(path, level), path[level].curr))
    {
      hide Stored, PathOk, WfRoot, IsPath, Sub, Hi, Lo, Wf, Before, Level, KeysDue, Rekey, SetKey, Climbing;
      ghost var root0 := root;
      PathFacts(root, height, end, path);
      var pos, i := PosOf(path, level), path[level].curr;
      var start := Sub(root, pos).ents[i].lblk;
      ClimbStart(root, height, end, path, pos, start);
      ghost var top := level;
      while level > 0 && path[level].left == path[level].entries - 1
        invariant top == level <= height && path == old(path)
        invariant Climbing(root, root0, height, end, path, pos, level, start) && Stored(root, height, disk, free)
      {
        ClimbStep(root, root0, height, end, path, pos, level, start);
        level := level - 1;
        top := level;
        if KeyAt(root, pos, level) == start {
          top := 0;
          break;
        }
        SetKeyStored(root, height, pos, level, start, disk, free);
        var root' := SetKey(root, pos, level, start);
        UpdatePath(pos[..level], Sub(root', pos[..level]));
        root := root';
      }
      ClimbEnd(root, root0, height, end, path, pos, top, start);
      PathShorter(root, height, end, path, level);
      err := FindAgain(root0, pos, i, start);
    }

    /** The end of ext3_extent_fix_parents. */
    method FindAgain(ghost root0: Node, ghost pos: seq<nat>, ghost i: nat, start: nat) returns (err: Error)
      requires Valid() && IsPath(root0, pos) && |pos| == height && root == Rekey(root0, pos)
      requires i < |Sub(root0, pos).ents| && Sub(root0, pos).ents[i].lblk == start
      modifies `level, `path
      ensures Valid() && err == None && Placed() && level == height
      ensures Flat(root, height) == Flat(root0, height)
      ensures Curr() == Sub(root0, pos).ents[i] && Index() == Place(root0, height, pos, i)
    {
      hide Stored, PathOk, WfRoot, IsPath, Sub, Hi, Lo, Wf, Before, Level, Rekey;
      RekeyPath(root0, pos);
      RekeyFlat(root0, height, pos);
      RootNotEmpty(root, pos, i);
      RootWf();
      BoundAt(root, height, root.ents[0].lblk, end, cap, pos, i);
      err := Regain(0, Place(root, height, pos, i), start);
    }

    /** Growing the root: its entries move one level down. */
    method GrowTree() returns (err: Error)
      requires Valid() && Placed() && level == 0
      modifies this
      ensures Valid()
      ensures err == None ==>
                && old(free) != [] && old(root).ents != []
                && height == old(height) + 1 && root == GrowRoot(old(root), old(free)[0], cap)
                && disk == old(disk)[old(free)[0] := Buffer(old(height), cap, Slots(old(root).ents))]
                && Image(root, height) == Buffer(height, old(root).max, [Slot.Index(old(root).ents[0].lblk, old(free)[0])])
      ensures SameBut(old(disk), disk, Among(old(free)))
      ensures err == None <==> old(free) != []
      ensures err == None ==> |free| + 1 == |old(free)|
      ensures Among(free) <= Among(old(free)) && (err == None ==> level > 0 && Block() == old(free)[0])
      ensures KeepsLevels(old(root), old(height), old(height))
      ensures err == None || (err == ENOSPC && free == [])
      ensures err == None ==>
                && Placed() && height - level == old(height)
                && Index() == old(Index()) && Curr() == old(Curr())
                && path[level].entries < path[level].max
    {
      hide Stored, PathOk, WfRoot, IsPath, Sub, Hi, Lo, Wf, Before, Level, CoversAt, Ordered, GrowRoot;
      ghost var k, i := Index(), path[level].curr;
      var origHeight := height;
      var origBlock := Curr().lblk;
      AtLevel();
      AboveLevel();
      CurrPlace();
      var blk;
      err, blk := AllocBlock();
      if err != None { return; }
      GrowUpdate(blk, i);
      GrowBlock(old(root), blk, cap);
      err := Regain(origHeight, k, origBlock);
      AtLevel();
      RootWf();
      PlaceUnique(root, height, root.ents[0].lblk, end, cap, Pos(), path[level].curr, [0], i);
    }

    method GrowUpdate(blk: nat, ghost i: nat)
      requires Valid() && level == 0 && i < |root.ents|
      requires Stored(root, height, disk, [blk] + free)
      modifies `root, `height, `path, `disk
      ensures disk == old(disk)[blk := Buffer(old(height), cap, Slots(old(root).ents))]
      ensures Valid() && root.ents != [] && height == old(height) + 1 && root == GrowRoot(old(root), blk, cap)
      ensures KeepsLevels(old(root), old(height), old(height))
      ensures IsPath(root, [0]) && i < |Sub(root, [0]).ents| < Sub(root, [0]).max
      ensures Place(root, height, [0], i) == i && old(Place(root, height, [], i)) == i
    {
      hide Stored, IsPath, Hi, Lo, Wf, Level, Before;
      RootWf();
      var c := path[0];
      GrowRootWf(root, height, root.ents[0].lblk, end, cap, blk);
      GrowPlaces(root, height, blk, cap);
      forall u: nat | u <= height ensures Level(GrowRoot(root, blk, cap), height + 1, u) == Level(root, height, u) {
        GrowRootLevel(root, height, u, blk, cap);
      }
      GrowPathOk(blk);
      NoneBefore(root, height);
      GrowStored(root, height, blk, cap, disk, free);
      disk := disk[blk := Buffer(height, cap, Slots(root.ents))];
      root := GrowRoot(root, blk, cap);
      height := height + 1;
      path := [Cursor(0, 0, 1, c.max, c.endBlock, 0)] + path;
    }

    /** The entries of the current node before the i-th one end before the block. */
    ghost predicate Passed(block: nat, i: int)
      requires Valid()
      reads this
    {
      var n := Here();
      forall j | 0 <= j < i && j < |n.ents| ::
        !Covers(n.ents[j], height - level, Bound(n.ents, j, Hi(root, Pos(), end)), block)
    }

    /** One round of the search above the height wanted: go on to the next sibling, or down. */
    method Approach(t: nat, block: nat) returns (g: Got)
      requires Valid() && Placed() && level + t < height && root.ents != []
      requires OnlyBelow(root, height, t, end, Pos(), block)
      requires path[level].curr == 0 || Curr().lblk <= block
      modifies `level, `path
      ensures Valid() && Placed() && level + t <= height
      ensures level > old(level) || (level == old(level) && path[level].left < old(path[level].left))
      ensures OnlyBelow(root, height, t, end, Pos(), block)
      ensures level == old(level) ==> Curr().lblk <= block
      ensures level > old(level) ==> path[level].curr == 0
      ensures g.lblk == Curr().lblk
      ensures g.len == LenOf(Curr(), height - level, Bound(Here().ents, path[level].curr, Hi(root, Pos(), end)))
    {
      hide Stored, PathOk, WfRoot, OnlyBelow, IsPath, Sub, Hi, Lo, Wf;
      AtLevel();
      RootWf();
      var err := NextSib();
      if err == None {
        g := Report();
        if block > g.lblk {
          return;
        }
        if block < g.lblk {
          err := PrevSib();
        } else {
          CurrShape();
          LaterKey(Here(), height - level, Lo(root, Pos(), root.ents[0].lblk), Hi(root, Pos(), end), cap, path[level].curr);
        }
      }
      CurrShape();
      StepDown(root, height, t, root.ents[0].lblk, end, cap, Pos(), path[level].curr, block);
      err := Down();
      g := Report();
    }

    /** One round of the search in a node of the height wanted. */
    method Scan(t: nat, block: nat, g: Got) returns (done: bool, err: Error, g': Got)
      requires Valid() && Placed() && level + t == height && root.ents != []
      requires g.lblk == Curr().lblk
      requires g.len == LenOf(Curr(), t, Bound(Here().ents, path[level].curr, Hi(root, Pos(), end)))
      requires OnlyBelow(root, height, t, end, Pos(), block)
      requires Passed(block, path[level].curr)
      modifies `path
      ensures Valid() && Placed()
      ensures done ==> err == if Covered(t, block) then None else ENOENT
      ensures done && err == None ==>
                && Index() < |Level(root, height, t)|
                && Level(root, height, t)[Index()] == Curr()
                && CoversAt(Level(root, height, t), t, end, Index(), block)
      ensures !done ==> path[level].left < old(path[level].left)
      ensures !done ==> OnlyBelow(root, height, t, end, Pos(), block) && Passed(block, path[level].curr)
      ensures !done ==> g'.lblk == Curr().lblk
      ensures !done ==> g'.len == LenOf(Curr(), t, Bound(Here().ents, path[level].curr, Hi(root, Pos(), end)))
    {
      hide Stored, PathOk, WfRoot, OnlyBelow, IsPath, Sub, Hi, Lo, Wf, Before, Level, CoversAt;
      AtLevel();
      RootWf();
      ghost var lo := root.ents[0].lblk;
      ghost var n, pos, i := Here(), Pos(), path[level].curr;
      done, err, g' := true, None, g;
      if g.lblk <= block < g.lblk + g.len {
        FoundAt(root, height, lo, end, cap, pos, i, block);
        return;
      }
      if block < g.lblk {
        CurrShape();
        LaterStart(n, t, Lo(root, pos, lo), Hi(root, pos, end), cap, i, block);
        NoneCovers(root, height, lo, end, cap, pos, block);
        err := PrevSib();
        err := ENOENT;
        return;
      }
      err := NextSib();
      if err == ESRCH {
        NoneCovers(root, height, lo, end, cap, pos, block);
        return true, ENOENT, g;
      }
      g' := Report();
      done := false;
    }
  }

  /* ---------- lowering the keys above an entry ---------- */

  /** The keys from `level` down are right. The one above them is, too, unless it names the
      node in which the entry to be reached is the first. */
  ghost predicate Climbing(root: Node, root0: Node, height: nat, end: nat, path: seq<Cursor>, pos: seq<nat>, level: nat, start: nat)
  {
    && PathOk(root, height, end, path, height) && pos == PosOf(path, height) && level <= height && path[height].curr >= 0
    && IsPath(root0, pos) && Sub(root, pos) == Sub(root0, pos) && Sub(root, pos).ents != []
    && Rekey(root, pos) == Rekey(root0, pos)
    && (forall d | 0 <= d < height && d != level - 1 :: Tight(root, pos, d))
    && (level > 0 ==> if path[level].curr > 0 then Tight(root, pos, level - 1) else FirstBelow(root, pos, level - 1) == start)
  }

  lemma PathFacts(root: Node, height: nat, end: nat, path: seq<Cursor>)
    requires PathOk(root, height, end, path, height) && path[height].curr >= 0
    ensures forall d | 0 <= d < height :: path[d].curr >= 0
    ensures IsPath(root, PosOf(path, height)) && path[height].curr < |Sub(root, PosOf(path, height)).ents|
  {
    assert Describes(path[height], Sub(root, PosOf(path, height)), Hi(root, PosOf(path, height), end));
  }

  lemma ClimbStart(root: Node, height: nat, end: nat, path: seq<Cursor>, pos: seq<nat>, start: nat)
    requires PathOk(root, height, end, path, height) && path[height].curr >= 0 && pos == PosOf(path, height)
    requires IsPath(root, pos) && KeysDue(root, pos, path[height].curr)
    requires path[height].curr < |Sub(root, pos).ents| && Sub(root, pos).ents[path[height].curr].lblk == start
    ensures Climbing(root, root, height, end, path, pos, height, start)
  {
    hide Stored, IsPath, Sub, Rekey, KeyAt, FirstBelow;
    if height > 0 {
      LastKey(root, pos, Sub(root, pos), height - 1);
    }
  }

  lemma {:induction false} SetKeyPathOk(root: Node, height: nat, end: nat, path: seq<Cursor>, pos: seq<nat>, d: nat, key: nat)
    requires PathOk(root, height, end, path, height) && pos == PosOf(path, height) && d < height
    ensures PathOk(SetKey(root, pos, d, key), height, end, path, height)
  {
    hide Stored, IsPath, Sub, Hi, SetKey;
    var root' := SetKey(root, pos, d, key);
    forall k | 0 <= k <= height
      ensures IsPath(root', PosOf(path, k))
      ensures Describes(path[k], Sub(root', PosOf(path, k)), Hi(root', PosOf(path, k), end))
    {
      assert PosOf(path, k) == pos[..k];
      SetKeyPath(root, pos, d, key, k, end);
      assert Describes(path[k], Sub(root, PosOf(path, k)), Hi(root, PosOf(path, k), end));
    }
  }

  /** One round: the key above the entry is lowered, or is right already. */
  lemma {:induction false} ClimbStep(root: Node, root0: Node, height: nat, end: nat, path: seq<Cursor>, pos: seq<nat>, level: nat, start: nat)
    requires Climbing(root, root0, height, end, path, pos, level, start)
    requires level > 0 && path[level].left == path[level].entries - 1
    ensures IsPath(root, pos) && level - 1 < |pos|
    ensures KeyAt(root, pos, level - 1) == start ==> Climbing(root, root0, height, end, path, pos, 0, start)
    ensures Climbing(SetKey(root, pos, level - 1, start), root0, height, end, path, pos, level - 1, start)
  {
    hide Stored, IsPath, Sub, Hi, SetKey, Rekey, KeyAt, FirstBelow;
    var l := level - 1;
    var root' := SetKey(root, pos, l, start);
    CursorFirst(root, height, end, path, level);
    SetKeyPathOk(root, height, end, path, pos, l, start);
    SetKeyPath(root, pos, l, start, height, end);
    assert pos[..height] == pos;
    RekeySetKey(root, pos, l, start);
    assert FirstBelow(root, pos, l) == start;
    forall d | 0 <= d < height && d != l - 1 ensures Tight(root', pos, d) {
      SetKeyAt(root, pos, l, start, d);
      assert d != l ==> Tight(root, pos, d);
    }
    if l > 0 {
      SetKeyAt(root, pos, l, start, l - 1);
      assert Tight(root, pos, l - 1) && pos[l] == path[l].curr;
    }
    if KeyAt(root, pos, l) == start {
      assert Tight(root, pos, l);
    }
  }

  lemma CursorFirst(root: Node, height: nat, end: nat, path: seq<Cursor>, level: nat)
    requires PathOk(root, height, end, path, height) && level <= height && path[level].left == path[level].entries - 1
    ensures path[level].curr == 0
  {
    assert Describes(path[level], Sub(root, PosOf(path, level)), Hi(root, PosOf(path, level), end));
  }

  /** At the end all keys are right. */
  lemma {:induction false} ClimbEnd(root: Node, root0: Node, height: nat, end: nat, path: seq<Cursor>, pos: seq<nat>, level: nat, start: nat)
    requires level <= height && Climbing(root, root0, height, end, path, pos, level, start)
    requires level == 0 || path[level].left != path[level].entries - 1
    ensures root == Rekey(root0, pos) && PathOk(root, height, end, path, height)
  {
    hide Stored, IsPath, Sub, Hi, Rekey, Tight;
    if level > 0 {
      assert Describes(path[level], Sub(root, PosOf(path, level)), Hi(root, PosOf(path, level), end));
      assert path[level].curr > 0 && Tight(root, pos, level - 1);
    }
    forall d | 0 <= d < |pos| ensures Tight(root, pos, d) {
      assert d != level - 1 ==> Tight(root, pos, d);
    }
    RekeyTight(root, pos);
  }

  lemma PathShorter(root: Node, height: nat, end: nat, path: seq<Cursor>, level: nat)
    requires PathOk(root, height, end, path, height) && level <= height
    ensures PathOk(root, height, end, path, level)
  {
  }

  /** Looking a block up in the list of extents. */
  function Lookup(s: seq<Ent>, block: nat): (r: (nat, bool))
  {
    if s == [] then (0, false)
    else if s[0].Ext? && s[0].lblk <= block < s[0].lblk + s[0].len then (s[0].pblk + (block - s[0].lblk), s[0].uninit)
    else Lookup(s[1..], block)
  }

  lemma {:induction false} LookupNone(s: seq<Ent>, block: nat)
    requires forall j | 0 <= j < |s| :: s[j].Ext? ==> !(s[j].lblk <= block < s[j].lblk + s[j].len)
    ensures Lookup(s, block) == (0, false)
    decreases |s|
  {
    if s != [] {
      LookupNone(s[1..], block);
    }
  }

  lemma {:induction false} LookupSome(s: seq<Ent>, block: nat, k: nat)
    requires k < |s| && s[k].Ext? && s[k].lblk <= block < s[k].lblk + s[k].len
    requires forall j | 0 <= j < k :: s[j].Ext? ==> !(s[j].lblk <= block < s[j].lblk + s[j].len)
    ensures Lookup(s, block) == (s[k].pblk + (block - s[k].lblk), s[k].uninit)
    decreases |s|
  {
    if k > 0 {
      LookupSome(s[1..], block, k - 1);
    }
  }

  lemma {:induction false} LookupFound(s: seq<Ent>, lo: nat, hi: nat, cap: nat, k: nat, block: nat)
    requires Ordered(s, 0, lo, hi, cap) && k < |s| && CoversAt(s, 0, hi, k, block)
    ensures Lookup(s, block) == (s[k].pblk + (block - s[k].lblk), s[k].uninit)
  {
    forall j | 0 <= j < k ensures s[j].Ext? ==> !(s[j].lblk <= block < s[j].lblk + s[j].len) {
      assert EntOk(s[j], 0, Bound(s, j, hi), cap);
      OrderedKeys(s, 0, lo, hi, cap, j, k);
    }
    assert EntOk(s[k], 0, Bound(s, k, hi), cap);
    LookupSome(s, block, k);
  }

  lemma {:induction false} NotFound(s: seq<Ent>, end: nat, block: nat)
    requires forall j | 0 <= j < |s| :: !CoversAt(s, 0, end, j, block)
    ensures Lookup(s, block) == (0, false)
  {
    forall j | 0 <= j < |s| ensures s[j].Ext? ==> !(s[j].lblk <= block < s[j].lblk + s[j].len) {
      assert !CoversAt(s, 0, end, j, block);
    }
    LookupNone(s, block);
  }

  lemma FoundAt(root: Node, h: nat, lo: nat, hi: nat, cap: nat, pos: seq<nat>, i: nat, block: nat)
    requires Wf(root, h, lo, hi, cap) && IsPath(root, pos) && |pos| <= h && i < |Sub(root, pos).ents|
    requires Covers(Sub(root, pos).ents[i], h - |pos|, Bound(Sub(root, pos).ents, i, Hi(root, pos, hi)), block)
    ensures var t := h - |pos|;
      var s := Level(root, h, t);
      var k := |Before(root, h, t, pos)| + i;
      && k < |s| && s[k] == Sub(root, pos).ents[i] && CoversAt(s, t, hi, k, block)
  {
    hide Level, Before, Wf, IsPath, Sub, Hi;
    BoundAt(root, h, lo, hi, cap, pos, i);
  }

  lemma LaterKey(n: Node, h: nat, lo: nat, hi: nat, cap: nat, i: nat)
    requires Wf(n, h, lo, hi, cap) && i < |n.ents|
    ensures i + 1 < |n.ents| ==> n.ents[i].lblk < n.ents[i + 1].lblk
  {
    EntKey(n, h, lo, hi, cap, i);
  }

  /** If the i-th key is above the block, no entry from there on covers it. */
  lemma LaterStart(n: Node, h: nat, lo: nat, hi: nat, cap: nat, i: nat, block: nat)
    requires Wf(n, h, lo, hi, cap) && i < |n.ents| && block < n.ents[i].lblk
    ensures forall j | i <= j < |n.ents| :: !Covers(n.ents[j], h, Bound(n.ents, j, hi), block)
  {
    hide Wf;
    forall j | i <= j < |n.ents| ensures !Covers(n.ents[j], h, Bound(n.ents, j, hi), block) {
      if i < j {
        WfKeys(n, h, lo, hi, cap, i, j);
      }
    }
  }

  lemma NoneBefore(root: Node, h: nat)
    ensures IsPath(root, []) && Before(root, h, h, []) == []
  {
  }

  /** EXT2_INIT_MAX_LEN and EXT2_UNINIT_MAX_LEN: what the length field of an extent can hold. */
  predicate TooLong(e: Ent)
    requires e.Ext?
  {
    e.len > if e.uninit then 32767 else 32768
  }

  /** ee_len, a 16-bit field, as ext3_extent_replace writes it and ext3_extent_get reads it. */
  function LenField(len: nat, uninit: bool): (field: nat)
  {
    (if uninit then len + 32768 else len) % 0x1_0000
  }

  function FieldLen(field: nat): (r: (int, bool))
  {
    if field > 32768 then (field - 32768, true) else (field, false)
  }

  /** An extent is refused exactly if its length would not be read back. */
  lemma LenReadBack(e: Ent)
    requires e.Ext? && e.len > 0
    ensures FieldLen(LenField(e.len, e.uninit)) == (e.len, e.uninit) <==> !TooLong(e)
  {
  }

  function Moved(c: Cursor, step: int, visit: nat): (c': Cursor)
  {
    c.(curr := c.curr + step, left := c.left - step, visit := visit)
  }

  lemma SubSnoc(root: Node, pp: seq<nat>, pi: nat)
    requires IsPath(root, pp) && IsPath(root, pp + [pi])
    ensures pi < |Sub(root, pp).ents| && Sub(root, pp).ents[pi].Kid? && Sub(root, pp + [pi]) == Sub(root, pp).ents[pi].node
    decreases |pp|
  {
    if pp != [] {
      assert (pp + [pi])[1..] == pp[1..] + [pi];
      SubSnoc(root.ents[pp[0]].node, pp[1..], pi);
    } else {
      assert (pp + [pi])[1..] == [];
    }
  }

  lemma RootNotEmpty(root: Node, pos: seq<nat>, i: int)
    requires IsPath(root, pos) && 0 <= i < |Sub(root, pos).ents|
    ensures root.ents != []
  {
  }
}
