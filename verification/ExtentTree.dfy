/**
 The ext4 extent tree of an inode (drivers/fs/ext2/extent.c).

 A node is an array of entries with a capacity. What an entry is depends on the
 height of its node: at height 0 an extent, above that the key and the child
 node of an index. Nodes are never shared, so an index entry holds its child.
 */
module ExtentTree {

  datatype Ent =
    | Ext(lblk: nat, len: nat, pblk: nat, uninit: bool)
    | Kid(lblk: nat, pblk: nat, node: Node)

  datatype Node = Node(max: nat, ents: seq<Ent>)

  /* ---------- entries of one height, from left to right ---------- */

  function Join(ss: seq<seq<Ent>>): (s: seq<Ent>)
  {
    if ss == [] then [] else ss[0] + Join(ss[1..])
  }

  /** The entries at height t below and in a node of height h. */
  function Level(n: Node, h: nat, t: nat): (s: seq<Ent>)
    decreases h, 2
  {
    if h <= t then n.ents else Join(Levels(n.ents, h, t))
  }

  function Levels(es: seq<Ent>, h: nat, t: nat): (ss: seq<seq<Ent>>)
    requires h > 0
    ensures |ss| == |es|
    ensures forall i | 0 <= i < |es| :: ss[i] == LevelOf(es[i], h, t)
    decreases h, 1
  {
    seq(|es|, i requires 0 <= i < |es| => LevelOf(es[i], h, t))
  }

  function LevelOf(e: Ent, h: nat, t: nat): (s: seq<Ent>)
    requires h > 0
    decreases h, 0
  {
    if e.Kid? then Level(e.node, h - 1, t) else []
  }

  /** The extents of the file, in order. */
  function Flat(n: Node, h: nat): (s: seq<Ent>)
  {
    Level(n, h, 0)
  }

  lemma {:induction false} JoinConcat(xs: seq<seq<Ent>>, ys: seq<seq<Ent>>)
    ensures Join(xs + ys) == Join(xs) + Join(ys)
    decreases |xs|
  {
    if xs == [] {
      assert xs + ys == ys;
    } else {
      assert (xs + ys)[1..] == xs[1..] + ys;
      JoinConcat(xs[1..], ys);
    }
  }

  lemma JoinOne(s: seq<Ent>)
    ensures Join([s]) == s
  {
    assert [s][1..] == [];
  }

  lemma {:induction false} LevelsConcat(xs: seq<Ent>, ys: seq<Ent>, h: nat, t: nat)
    requires h > 0
    ensures Levels(xs + ys, h, t) == Levels(xs, h, t) + Levels(ys, h, t)
  {
  }

  /** The entries of one height, cut at the i-th entry of the node. */
  lemma {:induction false} LevelCut(n: Node, h: nat, t: nat, i: nat)
    requires t < h && i < |n.ents|
    ensures Level(n, h, t) ==
            Join(Levels(n.ents[..i], h, t)) + LevelOf(n.ents[i], h, t) + Join(Levels(n.ents[i + 1..], h, t))
  {
    hide LevelOf;
    var a, e, b := n.ents[..i], n.ents[i], n.ents[i + 1..];
    assert n.ents == a + [e] + b;
    LevelsConcat(a + [e], b, h, t);
    LevelsConcat(a, [e], h, t);
    JoinConcat(Levels(a + [e], h, t), Levels(b, h, t));
    JoinConcat(Levels(a, h, t), Levels([e], h, t));
    assert Levels([e], h, t) == [LevelOf(e, h, t)];
    JoinOne(LevelOf(e, h, t));
  }

  /* ---------- well-formed trees ---------- */

  /** Where the range of the i-th entry ends: at the key of the next one, or where the node's range ends. */
  function Bound(es: seq<Ent>, i: nat, hi: nat): (b: nat)
  {
    if i + 1 < |es| then es[i + 1].lblk else hi
  }

  /** Node n of height h covers the logical blocks from lo up to hi: keys increase, the
      first one is lo, children cover the ranges of their keys, extents do not overlap. */
  ghost predicate Wf(n: Node, h: nat, lo: nat, hi: nat, cap: nat)
    decreases h, 1
  {
    && 0 < |n.ents| <= n.max && 2 <= n.max <= cap
    && n.ents[0].lblk == lo
    && forall i | 0 <= i < |n.ents| :: EntOk(n.ents[i], h, Bound(n.ents, i, hi), cap)
  }

  ghost predicate EntOk(e: Ent, h: nat, bound: nat, cap: nat)
    decreases h, 0
  {
    if h == 0 then e.Ext? && e.len > 0 && e.lblk + e.len <= bound
    else e.Kid? && e.lblk < bound && Wf(e.node, h - 1, e.lblk, bound, cap)
  }

  /** The length ext3_extent_get reports: of the extent, or up to the next key. */
  function LenOf(e: Ent, h: nat, bound: nat): (len: int)
  {
    if h == 0 && e.Ext? then e.len else bound - e.lblk
  }

  predicate Covers(e: Ent, h: nat, bound: nat, block: nat)
  {
    e.lblk <= block < e.lblk + LenOf(e, h, bound)
  }

  lemma EntKey(n: Node, h: nat, lo: nat, hi: nat, cap: nat, i: nat)
    requires Wf(n, h, lo, hi, cap) && i < |n.ents|
    ensures n.ents[i].lblk < Bound(n.ents, i, hi)
    ensures EntOk(n.ents[i], h, Bound(n.ents, i, hi), cap)
  {
    assert EntOk(n.ents[i], h, Bound(n.ents, i, hi), cap);
  }

  lemma {:induction false} WfKeys(n: Node, h: nat, lo: nat, hi: nat, cap: nat, i: nat, j: nat)
    requires Wf(n, h, lo, hi, cap) && i < j < |n.ents|
    ensures n.ents[i].lblk < n.ents[j].lblk
    decreases j
  {
    hide Wf, EntOk;
    EntKey(n, h, lo, hi, cap, i);
    if i + 1 < j {
      WfKeys(n, h, lo, hi, cap, i, j - 1);
      EntKey(n, h, lo, hi, cap, j - 1);
    }
  }

  lemma {:induction false} WfRange(n: Node, h: nat, lo: nat, hi: nat, cap: nat, i: nat)
    requires Wf(n, h, lo, hi, cap) && i < |n.ents|
    ensures lo <= n.ents[i].lblk < Bound(n.ents, i, hi) <= hi
    decreases |n.ents| - i
  {
    hide EntOk;
    EntKey(n, h, lo, hi, cap, i);
    if i > 0 {
      WfKeys(n, h, lo, hi, cap, 0, i);
    }
    if i + 1 < |n.ents| {
      WfRange(n, h, lo, hi, cap, i + 1);
    }
  }

  /** The entries of a height are themselves in order: increasing keys, the first one lo,
      each range ending where the next key begins. */
  ghost predicate Ordered(s: seq<Ent>, t: nat, lo: nat, hi: nat, cap: nat)
  {
    && 0 < |s| && s[0].lblk == lo
    && forall j | 0 <= j < |s| :: EntOk(s[j], t, Bound(s, j, hi), cap) && s[j].lblk < Bound(s, j, hi)
  }

  lemma OrderedConcat(a: seq<Ent>, b: seq<Ent>, t: nat, lo: nat, mid: nat, hi: nat, cap: nat)
    requires Ordered(a, t, lo, mid, cap) && Ordered(b, t, mid, hi, cap)
    ensures Ordered(a + b, t, lo, hi, cap)
  {
    var s := a + b;
    forall j | 0 <= j < |s| ensures EntOk(s[j], t, Bound(s, j, hi), cap) && s[j].lblk < Bound(s, j, hi) {
      if j < |a| {
        assert Bound(s, j, hi) == Bound(a, j, mid);
      } else {
        assert Bound(s, j, hi) == Bound(b, j - |a|, hi);
      }
    }
  }

  lemma {:induction false} LevelOrdered(n: Node, h: nat, t: nat, lo: nat, hi: nat, cap: nat)
    requires Wf(n, h, lo, hi, cap) && t <= h
    ensures Ordered(Level(n, h, t), t, lo, hi, cap)
    decreases h, |n.ents| + 1
  {
    if t == h {
      forall j | 0 <= j < |n.ents| ensures n.ents[j].lblk < Bound(n.ents, j, hi) {
        WfRange(n, h, lo, hi, cap, j);
      }
    } else {
      LevelsOrdered(n, h, t, lo, hi, cap, |n.ents|);
      assert n.ents[..|n.ents|] == n.ents;
    }
  }

  lemma {:induction false} LevelsOrdered(n: Node, h: nat, t: nat, lo: nat, hi: nat, cap: nat, k: nat)
    requires Wf(n, h, lo, hi, cap) && t < h && 0 < k <= |n.ents|
    ensures Ordered(Join(Levels(n.ents[..k], h, t)), t, lo, Bound(n.ents, k - 1, hi), cap)
    decreases h, k
  {
    hide Ordered, Join, Levels;
    var e := n.ents[k - 1];
    EntKey(n, h, lo, hi, cap, k - 1);
    LevelOrdered(e.node, h - 1, t, e.lblk, Bound(n.ents, k - 1, hi), cap);
    LevelsSnoc(n.ents, h, t, k - 1);
    if k > 1 {
      LevelsOrdered(n, h, t, lo, hi, cap, k - 1);
      OrderedConcat(Join(Levels(n.ents[..k - 1], h, t)), LevelOf(e, h, t), t, lo, e.lblk, Bound(n.ents, k - 1, hi), cap);
    } else {
      LevelsNone(n.ents, h, t);
      assert [] + LevelOf(e, h, t) == LevelOf(e, h, t);
    }
  }

  lemma LevelsNone(es: seq<Ent>, h: nat, t: nat)
    requires h > 0
    ensures Join(Levels(es[..0], h, t)) == []
  {
    assert Levels(es[..0], h, t) == [];
  }

  lemma LevelsSnoc(es: seq<Ent>, h: nat, t: nat, i: nat)
    requires h > 0 && i < |es|
    ensures Join(Levels(es[..i + 1], h, t)) == Join(Levels(es[..i], h, t)) + LevelOf(es[i], h, t)
  {
    hide LevelOf;
    assert es[..i + 1] == es[..i] + [es[i]];
    LevelsConcat(es[..i], [es[i]], h, t);
    JoinConcat(Levels(es[..i], h, t), Levels([es[i]], h, t));
    assert Levels([es[i]], h, t) == [LevelOf(es[i], h, t)];
    JoinOne(LevelOf(es[i], h, t));
  }

  /* ---------- nodes by path ---------- */

  /** `pos` leads, index by index, from n through children. */
  predicate IsPath(n: Node, pos: seq<nat>)
    decreases |pos|
  {
    pos != [] ==> pos[0] < |n.ents| && n.ents[pos[0]].Kid? && IsPath(n.ents[pos[0]].node, pos[1..])
  }

  function Sub(n: Node, pos: seq<nat>): (m: Node)
    requires IsPath(n, pos)
    decreases |pos|
  {
    if pos == [] then n else Sub(n.ents[pos[0]].node, pos[1..])
  }

  /** The tree n with the node at pos replaced by m. */
  function Put(n: Node, pos: seq<nat>, m: Node): (n': Node)
    requires IsPath(n, pos)
    decreases |pos|
  {
    if pos == [] then m
    else
      var e := n.ents[pos[0]];
      n.(ents := n.ents[pos[0] := e.(node := Put(e.node, pos[1..], m))])
  }

  /** The entries of height t to the left, and to the right, of the node at pos. */
  function Before(n: Node, h: nat, t: nat, pos: seq<nat>): (s: seq<Ent>)
    requires IsPath(n, pos) && |pos| <= h
    decreases |pos|
  {
    if pos == [] then []
    else Join(Levels(n.ents[..pos[0]], h, t)) + Before(n.ents[pos[0]].node, h - 1, t, pos[1..])
  }

  function After(n: Node, h: nat, t: nat, pos: seq<nat>): (s: seq<Ent>)
    requires IsPath(n, pos) && |pos| <= h
    decreases |pos|
  {
    if pos == [] then []
    else After(n.ents[pos[0]].node, h - 1, t, pos[1..]) + Join(Levels(n.ents[pos[0] + 1..], h, t))
  }

  /** Replacing a node replaces its entries and leaves those around it alone. */
  lemma {:induction false} LevelPut(n: Node, h: nat, t: nat, pos: seq<nat>, m: Node)
    requires IsPath(n, pos) && |pos| + t <= h
    ensures IsPath(Put(n, pos, m), pos) && Sub(Put(n, pos, m), pos) == m
    ensures Level(Put(n, pos, m), h, t) == Before(n, h, t, pos) + Level(m, h - |pos|, t) + After(n, h, t, pos)
    ensures Before(Put(n, pos, m), h, t, pos) == Before(n, h, t, pos)
    decreases |pos|
  {
    if pos == [] {
      assert [] + Level(m, h, t) + [] == Level(m, h, t);
    } else {
      hide Level, Levels, Join, Sub;
      PutHi(n, pos, m, 0);
      var i := pos[0];
      var e := n.ents[i];
      var n' := Put(n, pos, m);
      LevelPut(e.node, h - 1, t, pos[1..], m);
      LevelCut(n', h, t, i);
      assert n'.ents[..i] == n.ents[..i] && n'.ents[i + 1..] == n.ents[i + 1..];
      PutAssoc(Join(Levels(n.ents[..i], h, t)), Before(e.node, h - 1, t, pos[1..]), Level(m, h - |pos|, t),
               After(e.node, h - 1, t, pos[1..]), Join(Levels(n.ents[i + 1..], h, t)));
    }
  }

  lemma PutAssoc(a: seq<Ent>, b: seq<Ent>, c: seq<Ent>, d: seq<Ent>, e: seq<Ent>)
    ensures a + (b + c + d) + e == (a + b) + c + (d + e)
  {
  }

  lemma {:induction false} PutSub(n: Node, pos: seq<nat>)
    requires IsPath(n, pos)
    ensures Put(n, pos, Sub(n, pos)) == n
    decreases |pos|
  {
    if pos != [] {
      PutSub(n.ents[pos[0]].node, pos[1..]);
    }
  }

  /** The entries of a height, cut at the node at pos. */
  lemma LevelSub(n: Node, h: nat, t: nat, pos: seq<nat>)
    requires IsPath(n, pos) && |pos| + t <= h
    ensures Level(n, h, t) == Before(n, h, t, pos) + Level(Sub(n, pos), h - |pos|, t) + After(n, h, t, pos)
  {
    PutSub(n, pos);
    LevelPut(n, h, t, pos, Sub(n, pos));
  }

  /** The range of blocks that the node at pos covers. */
  function Lo(n: Node, pos: seq<nat>, lo: nat): (r: nat)
    requires IsPath(n, pos)
    decreases |pos|
  {
    if pos == [] then lo else Lo(n.ents[pos[0]].node, pos[1..], n.ents[pos[0]].lblk)
  }

  function Hi(n: Node, pos: seq<nat>, hi: nat): (r: nat)
    requires IsPath(n, pos)
    decreases |pos|
  {
    if pos == [] then hi else Hi(n.ents[pos[0]].node, pos[1..], Bound(n.ents, pos[0], hi))
  }

  lemma {:induction false} WfSub(n: Node, h: nat, lo: nat, hi: nat, cap: nat, pos: seq<nat>)
    requires Wf(n, h, lo, hi, cap) && IsPath(n, pos) && |pos| <= h
    ensures Wf(Sub(n, pos), h - |pos|, Lo(n, pos, lo), Hi(n, pos, hi), cap)
    decreases |pos|
  {
    if pos != [] {
      EntKey(n, h, lo, hi, cap, pos[0]);
      hide Wf;
      var e := n.ents[pos[0]];
      WfSub(e.node, h - 1, e.lblk, Bound(n.ents, pos[0], hi), cap, pos[1..]);
    }
  }

  /** A node may be replaced by one that covers the same range. */
  lemma {:induction false} WfPut(n: Node, h: nat, lo: nat, hi: nat, cap: nat, pos: seq<nat>, m: Node)
    requires Wf(n, h, lo, hi, cap) && IsPath(n, pos) && |pos| <= h
    requires Wf(m, h - |pos|, Lo(n, pos, lo), Hi(n, pos, hi), cap)
    ensures Wf(Put(n, pos, m), h, lo, hi, cap)
    decreases |pos|
  {
    if pos != [] {
      var i := pos[0];
      var e := n.ents[i];
      EntKey(n, h, lo, hi, cap, i);
      hide Wf;
      WfPut(e.node, h - 1, e.lblk, Bound(n.ents, i, hi), cap, pos[1..], m);
      WfKid(n, h, lo, hi, cap, i, Put(e.node, pos[1..], m));
    }
  }

  /** A child may be replaced by one that covers the same range. */
  lemma {:induction false} WfKid(n: Node, h: nat, lo: nat, hi: nat, cap: nat, i: nat, kid: Node)
    requires Wf(n, h, lo, hi, cap) && h > 0 && i < |n.ents| && n.ents[i].Kid?
    requires Wf(kid, h - 1, n.ents[i].lblk, Bound(n.ents, i, hi), cap)
    ensures Wf(n.(ents := n.ents[i := n.ents[i].(node := kid)]), h, lo, hi, cap)
  {
    var n' := n.(ents := n.ents[i := n.ents[i].(node := kid)]);
    EntKey(n, h, lo, hi, cap, i);
    assert EntOk(n'.ents[i], h, Bound(n.ents, i, hi), cap);
    hide EntOk;
    forall j | 0 <= j < |n.ents| ensures EntOk(n'.ents[j], h, Bound(n'.ents, j, hi), cap) {
      EntKey(n, h, lo, hi, cap, j);
      assert Bound(n'.ents, j, hi) == Bound(n.ents, j, hi);
    }
  }

  /** Replacing a node changes nothing about the nodes above it but what hangs below them. */
  lemma {:induction false} PutPrefix(n: Node, pos: seq<nat>, m: Node, d: nat, hi: nat)
    requires IsPath(n, pos) && d < |pos|
    ensures IsPath(n, pos[..d]) && IsPath(Put(n, pos, m), pos[..d])
    ensures var x, y := Sub(n, pos[..d]), Sub(Put(n, pos, m), pos[..d]);
      && |y.ents| == |x.ents| && y.max == x.max
      && forall i | 0 <= i < |x.ents| :: y.ents[i].lblk == x.ents[i].lblk
    ensures Hi(Put(n, pos, m), pos[..d], hi) == Hi(n, pos[..d], hi)
    decreases |pos|
  {
    if d > 0 {
      var i := pos[0];
      var e := n.ents[i];
      assert pos[..d][1..] == pos[1..][..d - 1];
      PutPrefix(e.node, pos[1..], m, d - 1, Bound(n.ents, i, hi));
      var n' := Put(n, pos, m);
      assert Bound(n'.ents, i, hi) == Bound(n.ents, i, hi);
    } else {
      assert pos[..0] == [];
    }
  }

  /** The range of a replaced node is that of the node it replaces. */
  lemma {:induction false} PutHi(n: Node, pos: seq<nat>, m: Node, hi: nat)
    requires IsPath(n, pos)
    ensures IsPath(Put(n, pos, m), pos) && Sub(Put(n, pos, m), pos) == m
    ensures Hi(Put(n, pos, m), pos, hi) == Hi(n, pos, hi)
    decreases |pos|
  {
    if pos != [] {
      PutHi(n.ents[pos[0]].node, pos[1..], m, Bound(n.ents, pos[0], hi));
    }
  }
}
