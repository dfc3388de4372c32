/**
 What node splits, root growth and insertion do to the entries of an extent
 tree (drivers/fs/ext2/extent.c).
 */
module ExtentSplit {
  import opened ExtentTree
  import opened ExtentSearch

  /** The two halves of a split: m entries move to a new node, of the capacity of a block. */
  function LeftPart(n: Node, m: nat): (left: Node)
    requires m <= |n.ents|
  {
    n.(ents := n.ents[..|n.ents| - m])
  }

  function RightPart(n: Node, m: nat, cap: nat): (right: Node)
    requires m <= |n.ents|
  {
    Node(cap, n.ents[|n.ents| - m..])
  }

  /** The parent after its i-th child has been split; the new node is in block blk. */
  function SplitKid(p: Node, i: nat, m: nat, blk: nat, cap: nat): (p': Node)
    requires i < |p.ents| && p.ents[i].Kid? && 0 < m <= |p.ents[i].node.ents|
  {
    var e := p.ents[i];
    var right := RightPart(e.node, m, cap);
    p.(ents := p.ents[..i] + [e.(node := LeftPart(e.node, m)), Kid(right.ents[0].lblk, blk, right)] + p.ents[i + 1..])
  }

  /** The root after its entries have moved to a new node below it. */
  function GrowRoot(root: Node, blk: nat, cap: nat): (root': Node)
    requires 0 < |root.ents|
  {
    Node(root.max, [Kid(root.ents[0].lblk, blk, Node(cap, root.ents))])
  }

  function InsertEnt(n: Node, i: nat, e: Ent): (n': Node)
    requires i <= |n.ents|
  {
    n.(ents := n.ents[..i] + [e] + n.ents[i..])
  }

  /* ---------- entries are kept ---------- */

  lemma {:induction false} LevelHalves(n: Node, h: nat, t: nat, m: nat, cap: nat)
    requires t <= h && m <= |n.ents|
    ensures Level(n, h, t) == Level(LeftPart(n, m), h, t) + Level(RightPart(n, m, cap), h, t)
  {
    var a, b := n.ents[..|n.ents| - m], n.ents[|n.ents| - m..];
    assert n.ents == a + b;
    if t < h {
      hide Level, LevelOf;
      LevelIs(n, h, t);
      LevelIs(LeftPart(n, m), h, t);
      LevelIs(RightPart(n, m, cap), h, t);
      LevelsConcat(a, b, h, t);
      JoinConcat(Levels(a, h, t), Levels(b, h, t));
    }
  }

  lemma LevelIs(n: Node, h: nat, t: nat)
    requires t < h
    ensures Level(n, h, t) == Join(Levels(n.ents, h, t))
  {
  }

  /** Splitting a child keeps the entries of every height below the parent. */
  lemma {:induction false} SplitKidLevel(p: Node, h: nat, t: nat, i: nat, m: nat, blk: nat, cap: nat)
    requires t < h && i < |p.ents| && p.ents[i].Kid? && 0 < m <= |p.ents[i].node.ents|
    ensures Level(SplitKid(p, i, m, blk, cap), h, t) == Level(p, h, t)
  {
    hide Level, Levels, Join;
    var p' := SplitKid(p, i, m, blk, cap);
    var e := p.ents[i];
    LevelCut(p, h, t, i);
    LevelCut(p', h, t, i);
    LevelHalves(e.node, h - 1, t, m, cap);
    assert p'.ents[..i] == p.ents[..i];
    var rest := p.ents[i + 1..];
    assert p'.ents[i + 1..] == [p'.ents[i + 1]] + rest;
    LevelsCons(p'.ents[i + 1], rest, h, t);
    Regroup(Join(Levels(p.ents[..i], h, t)), LevelOf(p'.ents[i], h, t), LevelOf(p'.ents[i + 1], h, t), Join(Levels(rest, h, t)));
  }

  lemma LevelsCons(e: Ent, es: seq<Ent>, h: nat, t: nat)
    requires h > 0
    ensures Join(Levels([e] + es, h, t)) == LevelOf(e, h, t) + Join(Levels(es, h, t))
  {
    hide LevelOf;
    LevelsConcat([e], es, h, t);
    JoinConcat(Levels([e], h, t), Levels(es, h, t));
    assert Levels([e], h, t) == [LevelOf(e, h, t)];
    JoinOne(LevelOf(e, h, t));
  }

  lemma Regroup(a: seq<Ent>, b: seq<Ent>, c: seq<Ent>, d: seq<Ent>)
    ensures a + (b + c) + d == a + b + (c + d)
  {
  }

  lemma {:induction false} GrowRootLevel(root: Node, h: nat, t: nat, blk: nat, cap: nat)
    requires t <= h && 0 < |root.ents|
    ensures Level(GrowRoot(root, blk, cap), h + 1, t) == Level(root, h, t)
  {
    var e := GrowRoot(root, blk, cap).ents[0];
    LevelIs(GrowRoot(root, blk, cap), h + 1, t);
    assert Levels([e], h + 1, t) == [LevelOf(e, h + 1, t)];
    JoinOne(LevelOf(e, h + 1, t));
    if t < h {
      LevelIs(root, h, t);
      LevelIs(e.node, h, t);
    }
  }

  /* ---------- trees stay well formed ---------- */

  lemma {:induction false} HalvesWf(n: Node, h: nat, lo: nat, hi: nat, cap: nat, m: nat)
    requires Wf(n, h, lo, hi, cap) && 0 < m < |n.ents|
    ensures var mid := n.ents[|n.ents| - m].lblk;
      && lo < mid < hi
      && Wf(LeftPart(n, m), h, lo, mid, cap)
      && Wf(RightPart(n, m, cap), h, mid, hi, cap)
  {
    hide EntOk;
    var k := |n.ents| - m;
    var mid := n.ents[k].lblk;
    WfKeys(n, h, lo, hi, cap, 0, k);
    WfRange(n, h, lo, hi, cap, k);
    var left, right := LeftPart(n, m), RightPart(n, m, cap);
    forall j | 0 <= j < k ensures EntOk(left.ents[j], h, Bound(left.ents, j, mid), cap) {
      EntKey(n, h, lo, hi, cap, j);
    }
    forall j | 0 <= j < m ensures EntOk(right.ents[j], h, Bound(right.ents, j, hi), cap) {
      EntKey(n, h, lo, hi, cap, k + j);
    }
  }

  lemma {:induction false} SplitKidWf(p: Node, h: nat, lo: nat, hi: nat, cap: nat, i: nat, m: nat, blk: nat)
    requires Wf(p, h, lo, hi, cap) && h > 0 && i < |p.ents| < p.max
    requires p.ents[i].Kid? && 0 < m < |p.ents[i].node.ents|
    ensures Wf(SplitKid(p, i, m, blk, cap), h, lo, hi, cap)
  {
    hide EntOk;
    var p' := SplitKid(p, i, m, blk, cap);
    SplitKidEnts(p, h, lo, hi, cap, i, m, blk);
    forall j | 0 <= j < |p'.ents| ensures EntOk(p'.ents[j], h, Bound(p'.ents, j, hi), cap) {
      if j < i {
        EntKey(p, h, lo, hi, cap, j);
      } else if j > i + 1 {
        EntKey(p, h, lo, hi, cap, j - 1);
      }
    }
  }

  lemma {:induction false} SplitKidEnts(p: Node, h: nat, lo: nat, hi: nat, cap: nat, i: nat, m: nat, blk: nat)
    requires Wf(p, h, lo, hi, cap) && h > 0 && i < |p.ents|
    requires p.ents[i].Kid? && 0 < m < |p.ents[i].node.ents|
    ensures var p' := SplitKid(p, i, m, blk, cap);
      && |p'.ents| == |p.ents| + 1 && p'.ents[i].lblk == p.ents[i].lblk
      && EntOk(p'.ents[i], h, p'.ents[i + 1].lblk, cap)
      && EntOk(p'.ents[i + 1], h, Bound(p.ents, i, hi), cap)
  {
    hide Wf;
    EntKey(p, h, lo, hi, cap, i);
    HalvesWf(p.ents[i].node, h - 1, p.ents[i].lblk, Bound(p.ents, i, hi), cap, m);
  }

  lemma {:induction false} GrowRootWf(root: Node, h: nat, lo: nat, hi: nat, cap: nat, blk: nat)
    requires Wf(root, h, lo, hi, cap)
    ensures Wf(GrowRoot(root, blk, cap), h + 1, lo, hi, cap)
  {
    var e := GrowRoot(root, blk, cap).ents[0];
    WfRange(root, h, lo, hi, cap, 0);
    assert Wf(e.node, h, lo, hi, cap);
    assert EntOk(e, h + 1, hi, cap);
  }

  /** An extent that fits between its neighbours may be inserted after the i-th one. */
  lemma {:induction false} InsertWf(n: Node, lo: nat, hi: nat, cap: nat, i: nat, e: Ent)
    requires Wf(n, 0, lo, hi, cap) && i < |n.ents| < n.max
    requires e.Ext? && e.len > 0 && n.ents[i].lblk + n.ents[i].len <= e.lblk && e.lblk + e.len <= Bound(n.ents, i, hi)
    ensures Wf(InsertEnt(n, i + 1, e), 0, lo, hi, cap)
  {
    var n' := InsertEnt(n, i + 1, e);
    forall j | 0 <= j < |n'.ents| ensures EntOk(n'.ents[j], 0, Bound(n'.ents, j, hi), cap) {
      if j <= i {
        assert EntOk(n.ents[j], 0, Bound(n.ents, j, hi), cap);
      } else if j > i + 1 {
        assert EntOk(n.ents[j - 1], 0, Bound(n.ents, j - 1, hi), cap);
      }
    }
  }

  /** Inserting into a leaf inserts at one place of the file's list of extents. */
  lemma {:induction false} InsertFlat(root: Node, h: nat, pos: seq<nat>, i: nat, e: Ent)
    requires IsPath(root, pos) && |pos| == h && i <= |Sub(root, pos).ents|
    ensures var root' := Put(root, pos, InsertEnt(Sub(root, pos), i, e));
      var k := |Before(root, h, 0, pos)| + i;
      && k <= |Flat(root, h)|
      && Flat(root', h) == Flat(root, h)[..k] + [e] + Flat(root, h)[k..]
  {
    hide Level;
    var n := Sub(root, pos);
    LevelSub(root, h, 0, pos);
    LevelPut(root, h, 0, pos, InsertEnt(n, i, e));
    LevelLeaf(n);
    LevelLeaf(InsertEnt(n, i, e));
  }

  lemma LevelLeaf(n: Node)
    ensures Level(n, 0, 0) == n.ents
  {
  }

  /* ---------- where the entries of a split node are afterwards ---------- */

  lemma {:induction false} SplitPlaces(root: Node, h: nat, pp: seq<nat>, pi: nat, m: nat, blk: nat, cap: nat)
    requires IsPath(root, pp) && |pp| < h && pi < |Sub(root, pp).ents| && Sub(root, pp).ents[pi].Kid?
    requires 0 < m <= |Sub(root, pp).ents[pi].node.ents|
    requires IsPath(root, pp + [pi])
    ensures var p := Sub(root, pp);
      var n := p.ents[pi].node;
      var root' := Put(root, pp, SplitKid(p, pi, m, blk, cap));
      var t := h - |pp| - 1;
      && IsPath(root', pp + [pi]) && Sub(root', pp + [pi]) == LeftPart(n, m)
      && IsPath(root', pp + [pi + 1]) && Sub(root', pp + [pi + 1]) == RightPart(n, m, cap)
      && |Before(root', h, t, pp + [pi])| == |Before(root, h, t, pp + [pi])|
      && |Before(root', h, t, pp + [pi + 1])| == |Before(root, h, t, pp + [pi])| + |n.ents| - m
  {
    var p := Sub(root, pp);
    var n := p.ents[pi].node;
    var p' := SplitKid(p, pi, m, blk, cap);
    var root' := Put(root, pp, p');
    var t := h - |pp| - 1;
    LevelPut(root, h, t, pp, p');
    hide Level, Before, Levels, Join, Put;
    BeforeSnoc(root, h, t, pp, pi);
    BeforeSnoc(root', h, t, pp, pi);
    BeforeSnoc(root', h, t, pp, pi + 1);
    assert p'.ents[..pi] == p.ents[..pi];
    LevelsSnoc(p'.ents, h - |pp|, t, pi);
    LevelSelf(LeftPart(n, m), t);
  }

  lemma {:induction false} GrowPlaces(root: Node, h: nat, blk: nat, cap: nat)
    requires 0 < |root.ents|
    ensures var root' := GrowRoot(root, blk, cap);
      && IsPath(root', [0]) && Sub(root', [0]) == Node(cap, root.ents)
      && Before(root', h + 1, h, [0]) == []
  {
    var root' := GrowRoot(root, blk, cap);
    assert [0][1..] == [];
    LevelsNone(root'.ents, h + 1, h);
  }

  /** Where the i-th entry of the split node is: left of the cut or right of it. */
  function Landing(pp: seq<nat>, pi: nat, left: nat, i: nat): (r: (seq<nat>, nat))
  {
    if i < left then (pp + [pi], i) else (pp + [pi + 1], i - left)
  }

  /** A split keeps the tree well formed and every entry up to the node's height; each
      entry of the node keeps its place in the list, in a node that now has room. */
  lemma {:induction false} SplitKeeps(root: Node, h: nat, lo: nat, hi: nat, cap: nat, pp: seq<nat>, pi: nat, m: nat, blk: nat, i: nat)
    requires Wf(root, h, lo, hi, cap) && IsPath(root, pp) && |pp| < h
    requires pi < |Sub(root, pp).ents| < Sub(root, pp).max && Sub(root, pp).ents[pi].Kid? && IsPath(root, pp + [pi])
    requires 0 < m < |Sub(root, pp).ents[pi].node.ents| && i < |Sub(root, pp).ents[pi].node.ents|
    ensures var p := Sub(root, pp);
      var n := p.ents[pi].node;
      var root' := Put(root, pp, SplitKid(p, pi, m, blk, cap));
      var (pos', i') := Landing(pp, pi, |n.ents| - m, i);
      && Wf(root', h, lo, hi, cap) && root'.max == root.max
      && IsPath(root', pos') && i' < |Sub(root', pos').ents| < Sub(root', pos').max
      && Place(root', h, pos', i') == Place(root, h, pp + [pi], i)
  {
    hide Wf, Level, Before, Levels, Join, Lo, Hi, IsPath, Sub, Put, SplitKid;
    SplitWf(root, h, lo, hi, cap, pp, pi, m, blk);
    SplitMax(root, pp, pi, m, blk, cap);
    SplitPlaces(root, h, pp, pi, m, blk, cap);
  }

  lemma {:induction false} SplitWf(root: Node, h: nat, lo: nat, hi: nat, cap: nat, pp: seq<nat>, pi: nat, m: nat, blk: nat)
    requires Wf(root, h, lo, hi, cap) && IsPath(root, pp) && |pp| < h
    requires pi < |Sub(root, pp).ents| < Sub(root, pp).max && Sub(root, pp).ents[pi].Kid?
    requires 0 < m < |Sub(root, pp).ents[pi].node.ents|
    ensures Wf(Put(root, pp, SplitKid(Sub(root, pp), pi, m, blk, cap)), h, lo, hi, cap)
    ensures var n := Sub(root, pp).ents[pi].node; |n.ents| <= n.max <= cap
  {
    var p := Sub(root, pp);
    WfSub(root, h, lo, hi, cap, pp);
    var plo, phi := Lo(root, pp, lo), Hi(root, pp, hi);
    EntKey(p, h - |pp|, plo, phi, cap, pi);
    SplitKidWf(p, h - |pp|, plo, phi, cap, pi, m, blk);
    WfPut(root, h, lo, hi, cap, pp, SplitKid(p, pi, m, blk, cap));
  }

  lemma SplitSize(p: Node, i: nat, m: nat, blk: nat, cap: nat)
    requires i < |p.ents| && p.ents[i].Kid? && 0 < m <= |p.ents[i].node.ents|
    ensures |SplitKid(p, i, m, blk, cap).ents| == |p.ents| + 1 && SplitKid(p, i, m, blk, cap).max == p.max
  {
  }

  lemma SplitMax(root: Node, pp: seq<nat>, pi: nat, m: nat, blk: nat, cap: nat)
    requires IsPath(root, pp) && pi < |Sub(root, pp).ents| && Sub(root, pp).ents[pi].Kid?
    requires 0 < m <= |Sub(root, pp).ents[pi].node.ents|
    ensures Put(root, pp, SplitKid(Sub(root, pp), pi, m, blk, cap)).max == root.max
  {
  }

  lemma {:induction false} SplitKeepsLevel(root: Node, h: nat, t: nat, pp: seq<nat>, pi: nat, m: nat, blk: nat, cap: nat)
    requires IsPath(root, pp) && |pp| + t < h && pi < |Sub(root, pp).ents| && Sub(root, pp).ents[pi].Kid?
    requires 0 < m <= |Sub(root, pp).ents[pi].node.ents|
    ensures Level(Put(root, pp, SplitKid(Sub(root, pp), pi, m, blk, cap)), h, t) == Level(root, h, t)
  {
    hide Level, Before, After, Put;
    var p := Sub(root, pp);
    LevelSub(root, h, t, pp);
    LevelPut(root, h, t, pp, SplitKid(p, pi, m, blk, cap));
    SplitKidLevel(p, h - |pp|, t, pi, m, blk, cap);
  }

  /** The entry above an entry covers its key. */
  lemma {:induction false} ParentCovers(root: Node, h: nat, lo: nat, hi: nat, cap: nat, pp: seq<nat>, pi: nat, i: nat)
    requires Wf(root, h, lo, hi, cap) && IsPath(root, pp) && |pp| < h
    requires pi < |Sub(root, pp).ents| && Sub(root, pp).ents[pi].Kid? && i < |Sub(root, pp).ents[pi].node.ents|
    ensures Place(root, h, pp, pi) < |Level(root, h, h - |pp|)|
    ensures CoversAt(Level(root, h, h - |pp|), h - |pp|, hi, Place(root, h, pp, pi), Sub(root, pp).ents[pi].node.ents[i].lblk)
  {
    hide Wf, Level, Before, Lo, Hi, IsPath, Sub;
    KidRange(root, h, lo, hi, cap, pp, pi, i);
    BoundAt(root, h, lo, hi, cap, pp, pi);
  }

  /** The keys of a child lie in the range of the entry above it. */
  lemma {:induction false} KidRange(root: Node, h: nat, lo: nat, hi: nat, cap: nat, pp: seq<nat>, pi: nat, i: nat)
    requires Wf(root, h, lo, hi, cap) && IsPath(root, pp) && |pp| < h
    requires pi < |Sub(root, pp).ents| && Sub(root, pp).ents[pi].Kid? && i < |Sub(root, pp).ents[pi].node.ents|
    ensures var p := Sub(root, pp);
      p.ents[pi].lblk <= p.ents[pi].node.ents[i].lblk < Bound(p.ents, pi, Hi(root, pp, hi))
  {
    hide Wf;
    var p := Sub(root, pp);
    WfSub(root, h, lo, hi, cap, pp);
    var plo, phi := Lo(root, pp, lo), Hi(root, pp, hi);
    EntKey(p, h - |pp|, plo, phi, cap, pi);
    WfRange(p.ents[pi].node, h - |pp| - 1, p.ents[pi].lblk, Bound(p.ents, pi, phi), cap, i);
  }
}
