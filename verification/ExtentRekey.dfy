/**
 An extent inserted before the first one of a leaf starts below the keys on the
 path to it. ext3_extent_fix_parents (drivers/fs/ext2/extent.c) lowers them.
 */
module ExtentRekey {
  import opened ExtentTree
  import opened ExtentSearch
  import opened ExtentSplit

  /** The tree with every key along the path set to the first key of the child it names. */
  function Rekey(n: Node, pos: seq<nat>): (n': Node)
    requires IsPath(n, pos)
    decreases |pos|
  {
    if pos == [] then n
    else
      var e := n.ents[pos[0]];
      var kid := Rekey(e.node, pos[1..]);
      n.(ents := n.ents[pos[0] := Kid(if kid.ents == [] then e.lblk else kid.ents[0].lblk, e.pblk, kid)])
  }

  /** The key at depth d of the path, and the tree with that key replaced. */
  function KeyAt(n: Node, pos: seq<nat>, d: nat): (key: nat)
    requires IsPath(n, pos) && d < |pos|
    decreases d
  {
    var e := n.ents[pos[0]];
    if d == 0 then e.lblk else KeyAt(e.node, pos[1..], d - 1)
  }

  /** The first key of the node it names; -1 if that is empty. */
  function FirstBelow(n: Node, pos: seq<nat>, d: nat): (key: int)
    requires IsPath(n, pos) && d < |pos|
    decreases d
  {
    var e := n.ents[pos[0]];
    if d > 0 then FirstBelow(e.node, pos[1..], d - 1)
    else if e.node.ents == [] then -1
    else e.node.ents[0].lblk
  }

  predicate Tight(n: Node, pos: seq<nat>, d: nat)
    requires IsPath(n, pos) && d < |pos|
  {
    KeyAt(n, pos, d) == FirstBelow(n, pos, d)
  }

  function SetKey(n: Node, pos: seq<nat>, d: nat, key: nat): (n': Node)
    requires IsPath(n, pos) && d < |pos|
    decreases d
  {
    var e := n.ents[pos[0]];
    n.(ents := n.ents[pos[0] := if d == 0 then e.(lblk := key) else e.(node := SetKey(e.node, pos[1..], d - 1, key))])
  }

  /* ---------- setting keys ---------- */

  /** The shape of the path does not depend on its keys. */
  lemma {:induction false} SetKeyPath(n: Node, pos: seq<nat>, d: nat, key: nat, k: nat, hi: nat)
    requires IsPath(n, pos) && d < |pos| && k <= |pos|
    ensures var n' := SetKey(n, pos, d, key);
      && IsPath(n', pos) && IsPath(n', pos[..k]) && IsPath(n, pos[..k])
      && |Sub(n', pos[..k]).ents| == |Sub(n, pos[..k]).ents| && Sub(n', pos[..k]).max == Sub(n, pos[..k]).max
      && Hi(n', pos[..k], hi) == Hi(n, pos[..k], hi)
      && (k == |pos| ==> Sub(n', pos[..k]) == Sub(n, pos[..k]))
    decreases |pos|
  {
    SetKeyIsPath(n, pos, d, key);
    if k > 0 {
      var e := n.ents[pos[0]];
      var n' := SetKey(n, pos, d, key);
      assert pos[..k][1..] == pos[1..][..k - 1];
      assert Bound(n'.ents, pos[0], hi) == Bound(n.ents, pos[0], hi);
      if d > 0 {
        SetKeyPath(e.node, pos[1..], d - 1, key, k - 1, Bound(n.ents, pos[0], hi));
      } else {
        PathPrefix(e.node, pos[1..], k - 1);
      }
    } else {
      assert pos[..0] == [];
    }
  }

  lemma {:induction false} SetKeyIsPath(n: Node, pos: seq<nat>, d: nat, key: nat)
    requires IsPath(n, pos) && d < |pos|
    ensures IsPath(SetKey(n, pos, d, key), pos)
    decreases |pos|
  {
    if d > 0 {
      SetKeyIsPath(n.ents[pos[0]].node, pos[1..], d - 1, key);
    }
  }

  lemma {:induction false} PathPrefix(n: Node, pos: seq<nat>, k: nat)
    requires IsPath(n, pos) && k <= |pos|
    ensures IsPath(n, pos[..k])
    decreases |pos|
  {
    if k > 0 {
      assert pos[..k][1..] == pos[1..][..k - 1];
      PathPrefix(n.ents[pos[0]].node, pos[1..], k - 1);
    }
  }

  /** Recomputing the keys forgets what they were. */
  lemma {:induction false} RekeySetKey(n: Node, pos: seq<nat>, d: nat, key: nat)
    requires IsPath(n, pos) && d < |pos| && Sub(n, pos).ents != []
    ensures IsPath(SetKey(n, pos, d, key), pos)
    ensures Rekey(SetKey(n, pos, d, key), pos) == Rekey(n, pos)
    decreases |pos|
  {
    var e := n.ents[pos[0]];
    SetKeyIsPath(n, pos, d, key);
    if d > 0 {
      RekeySetKey(e.node, pos[1..], d - 1, key);
    }
    RekeyNotEmpty(e.node, pos[1..]);
  }

  lemma {:induction false} RekeyNotEmpty(n: Node, pos: seq<nat>)
    requires IsPath(n, pos) && Sub(n, pos).ents != []
    ensures Rekey(n, pos).ents != []
  {
  }

  lemma {:induction false} RekeyTight(n: Node, pos: seq<nat>)
    requires IsPath(n, pos) && forall d | 0 <= d < |pos| :: Tight(n, pos, d)
    ensures Rekey(n, pos) == n
    decreases |pos|
  {
    if pos != [] {
      var e := n.ents[pos[0]];
      forall d | 0 <= d < |pos| - 1 ensures Tight(e.node, pos[1..], d) {
        assert Tight(n, pos, d + 1);
      }
      RekeyTight(e.node, pos[1..]);
      assert Tight(n, pos, 0);
    }
  }

  /** Setting a key changes that key, and the first key of its node if it is the first. */
  lemma {:induction false} SetKeyAt(n: Node, pos: seq<nat>, d: nat, key: nat, j: nat)
    requires IsPath(n, pos) && d < |pos| && j < |pos|
    ensures var n' := SetKey(n, pos, d, key);
      && IsPath(n', pos)
      && KeyAt(n', pos, j) == (if j == d then key else KeyAt(n, pos, j))
      && FirstBelow(n', pos, j) == if j + 1 == d && pos[d] == 0 then key else FirstBelow(n, pos, j)
    decreases |pos|
  {
    SetKeyIsPath(n, pos, d, key);
    var e := n.ents[pos[0]];
    if d > 0 && j > 0 {
      SetKeyAt(e.node, pos[1..], d - 1, key, j - 1);
    }
  }

  /** Replacing the node at the end of the path keeps the keys along it. */
  lemma {:induction false} PutKeyAt(n: Node, pos: seq<nat>, m: Node, j: nat)
    requires IsPath(n, pos) && j < |pos| && m.ents != []
    ensures var n' := Put(n, pos, m);
      && IsPath(n', pos)
      && KeyAt(n', pos, j) == KeyAt(n, pos, j)
      && FirstBelow(n', pos, j) == if j + 1 == |pos| then m.ents[0].lblk else FirstBelow(n, pos, j)
    decreases |pos|
  {
    PutHi(n, pos, m, 0);
    var e := n.ents[pos[0]];
    if j > 0 {
      PutKeyAt(e.node, pos[1..], m, j - 1);
    } else if |pos| > 1 {
      assert pos[1..] != [];
    }
  }

  lemma {:induction false} WfTight(n: Node, h: nat, lo: nat, hi: nat, cap: nat, pos: seq<nat>, d: nat)
    requires Wf(n, h, lo, hi, cap) && IsPath(n, pos) && d < |pos| <= h
    ensures Tight(n, pos, d)
    decreases |pos|
  {
    var e := n.ents[pos[0]];
    EntKey(n, h, lo, hi, cap, pos[0]);
    if d > 0 {
      WfTight(e.node, h - 1, e.lblk, Bound(n.ents, pos[0], hi), cap, pos[1..], d - 1);
    }
  }

  /* ---------- recomputing keys ---------- */

  lemma {:induction false} RekeyPath(n: Node, pos: seq<nat>)
    requires IsPath(n, pos)
    ensures IsPath(Rekey(n, pos), pos) && Sub(Rekey(n, pos), pos) == Sub(n, pos) && Rekey(n, pos).max == n.max
    decreases |pos|
  {
    if pos != [] {
      RekeyPath(n.ents[pos[0]].node, pos[1..]);
    }
  }

  /** Keys are not extents: the file's list stays what it is. */
  lemma {:induction false} RekeyFlat(n: Node, h: nat, pos: seq<nat>)
    requires IsPath(n, pos) && |pos| == h
    ensures Flat(Rekey(n, pos), h) == Flat(n, h)
    ensures IsPath(Rekey(n, pos), pos) && |Before(Rekey(n, pos), h, 0, pos)| == |Before(n, h, 0, pos)|
    decreases |pos|
  {
    RekeyPath(n, pos);
    if pos != [] {
      hide Join, Levels;
      var i, n' := pos[0], Rekey(n, pos);
      RekeyFlat(n.ents[i].node, h - 1, pos[1..]);
      LevelCut(n, h, 0, i);
      LevelCut(n', h, 0, i);
      assert n'.ents[..i] == n.ents[..i] && n'.ents[i + 1..] == n.ents[i + 1..];
    }
  }

  ghost predicate EndsBy(s: seq<Ent>, block: nat)
  {
    s != [] ==> s[|s| - 1].Ext? && s[|s| - 1].lblk + s[|s| - 1].len <= block
  }

  /** A subtree may end earlier, if its last extent does. */
  lemma {:induction false} WfShrink(n: Node, h: nat, lo: nat, hi: nat, hi': nat, cap: nat)
    requires Wf(n, h, lo, hi, cap) && EndsBy(Flat(n, h), hi')
    ensures Wf(n, h, lo, hi', cap) && lo < hi'
    decreases h
  {
    var last := |n.ents| - 1;
    var e := n.ents[last];
    EntKey(n, h, lo, hi, cap, last);
    if h > 0 {
      LevelOrdered(e.node, h - 1, 0, e.lblk, hi, cap);
      LastOf(n, h);
      WfShrink(e.node, h - 1, e.lblk, hi, hi', cap);
    }
    assert EntOk(e, h, hi', cap);
    forall i | 0 <= i < |n.ents| ensures EntOk(n.ents[i], h, Bound(n.ents, i, hi'), cap) {
      if i < last {
        EntKey(n, h, lo, hi, cap, i);
      }
    }
    if last > 0 {
      WfKeys(n, h, lo, hi, cap, 0, last);
    }
  }

  /** The last extent is that of the last child. */
  lemma LastOf(n: Node, h: nat)
    requires h > 0 && n.ents != [] && n.ents[|n.ents| - 1].Kid? && Flat(n.ents[|n.ents| - 1].node, h - 1) != []
    ensures var s, below := Flat(n, h), Flat(n.ents[|n.ents| - 1].node, h - 1);
      s != [] && s[|s| - 1] == below[|below| - 1]
  {
    hide Level, Join, Levels;
    var last := |n.ents| - 1;
    LevelsSnoc(n.ents, h, 0, last);
    LevelIs(n, h, 0);
    assert n.ents[..last + 1] == n.ents;
  }

  /** A leaf may be replaced by one that starts earlier, but not before the extents to its
      left end, if the keys above it are recomputed. */
  lemma {:induction false} RekeyWf(n: Node, h: nat, lo: nat, hi: nat, cap: nat, pos: seq<nat>, m: Node)
    requires Wf(n, h, lo, hi, cap) && IsPath(n, pos) && |pos| == h
    requires m.ents != [] && Wf(m, 0, m.ents[0].lblk, Hi(n, pos, hi), cap)
    requires EndsBy(Before(n, h, 0, pos), m.ents[0].lblk)
    ensures IsPath(Put(n, pos, m), pos)
    ensures var n' := Rekey(Put(n, pos, m), pos);
      && n'.ents != [] && Wf(n', h, n'.ents[0].lblk, hi, cap)
      && n'.ents[0].lblk == if Before(n, h, 0, pos) == [] then m.ents[0].lblk else lo
    decreases |pos|
  {
    hide Level, Levels, Join, Wf, Before, Put, Rekey;
    PutHi(n, pos, m, 0);
    RekeyPut(n, pos, m);
    BeforeIs(n, h, pos);
    if pos != [] {
      var i := pos[0];
      var e := n.ents[i];
      EntKey(n, h, lo, hi, cap, i);
      var left := Join(Levels(n.ents[..i], h, 0));
      EndsParts(left, Before(e.node, h - 1, 0, pos[1..]), m.ents[0].lblk);
      RekeyWf(e.node, h - 1, e.lblk, Bound(n.ents, i, hi), cap, pos[1..], m);
      RekeyNode(n, h, lo, hi, cap, i, Rekey(Put(e.node, pos[1..], m), pos[1..]));
      LeftNotEmpty(n, h, lo, hi, cap, i);
    }
  }

  lemma RekeyPut(n: Node, pos: seq<nat>, m: Node)
    requires IsPath(n, pos) && IsPath(Put(n, pos, m), pos)
    ensures pos == [] ==> Rekey(Put(n, pos, m), pos) == m
    ensures pos != [] ==>
      var e := n.ents[pos[0]];
      && IsPath(Put(e.node, pos[1..], m), pos[1..])
      && var kid := Rekey(Put(e.node, pos[1..], m), pos[1..]);
         kid.ents != [] ==> Rekey(Put(n, pos, m), pos) == n.(ents := n.ents[pos[0] := Kid(kid.ents[0].lblk, e.pblk, kid)])
  {
  }

  lemma BeforeIs(n: Node, h: nat, pos: seq<nat>)
    requires IsPath(n, pos) && |pos| <= h
    ensures Before(n, h, 0, pos) ==
            if pos == [] then []
            else Join(Levels(n.ents[..pos[0]], h, 0)) + Before(n.ents[pos[0]].node, h - 1, 0, pos[1..])
  {
  }

  lemma EndsParts(a: seq<Ent>, b: seq<Ent>, block: nat)
    requires EndsBy(a + b, block)
    ensures EndsBy(b, block) && (b == [] ==> EndsBy(a, block))
  {
    if b == [] {
      assert a + b == a;
    } else {
      assert (a + b)[|a + b| - 1] == b[|b| - 1];
    }
  }

  /** There are extents to the left of every child but the first. */
  lemma LeftNotEmpty(n: Node, h: nat, lo: nat, hi: nat, cap: nat, i: nat)
    requires Wf(n, h, lo, hi, cap) && h > 0 && i < |n.ents|
    ensures Join(Levels(n.ents[..i], h, 0)) == [] <==> i == 0
    ensures n.ents[0].lblk == lo
  {
    hide Level, Levels, Join;
    if i == 0 {
      LevelsNone(n.ents, h, 0);
    } else {
      EntKey(n, h, lo, hi, cap, i - 1);
      LevelsSnoc(n.ents, h, 0, i - 1);
      LevelOrdered(n.ents[i - 1].node, h - 1, 0, n.ents[i - 1].lblk, Bound(n.ents, i - 1, hi), cap);
    }
  }

  lemma {:induction false} RekeyNode(n: Node, h: nat, lo: nat, hi: nat, cap: nat, i: nat, kid: Node)
    requires Wf(n, h, lo, hi, cap) && h > 0 && i < |n.ents| && kid.ents != [] && n.ents[i].Kid?
    requires Wf(kid, h - 1, kid.ents[0].lblk, Bound(n.ents, i, hi), cap)
    requires kid.ents[0].lblk == n.ents[i].lblk || EndsBy(Join(Levels(n.ents[..i], h, 0)), kid.ents[0].lblk)
    ensures var n' := n.(ents := n.ents[i := Kid(kid.ents[0].lblk, n.ents[i].pblk, kid)]);
      Wf(n', h, if i == 0 then kid.ents[0].lblk else lo, hi, cap)
  {
    hide Level, Levels, Join;
    var key := kid.ents[0].lblk;
    var n' := n.(ents := n.ents[i := Kid(key, n.ents[i].pblk, kid)]);
    EntKey(n, h, lo, hi, cap, i);
    WfRange(kid, h - 1, key, Bound(n.ents, i, hi), cap, 0);
    assert EntOk(n'.ents[i], h, Bound(n.ents, i, hi), cap);
    if i > 0 && key != n.ents[i].lblk {
      ShrinkKid(n, h, lo, hi, cap, i - 1, key);
    }
    hide EntOk;
    forall j | 0 <= j < |n.ents| ensures EntOk(n'.ents[j], h, Bound(n'.ents, j, hi), cap) {
      EntKey(n, h, lo, hi, cap, j);
    }
  }

  lemma {:induction false} ShrinkKid(n: Node, h: nat, lo: nat, hi: nat, cap: nat, i: nat, key: nat)
    requires Wf(n, h, lo, hi, cap) && h > 0 && i < |n.ents|
    requires EndsBy(Join(Levels(n.ents[..i + 1], h, 0)), key)
    ensures EntOk(n.ents[i], h, key, cap)
  {
    hide Level, Levels, Join;
    var e := n.ents[i];
    EntKey(n, h, lo, hi, cap, i);
    LevelsSnoc(n.ents, h, 0, i);
    LevelOrdered(e.node, h - 1, 0, e.lblk, Bound(n.ents, i, hi), cap);
    WfShrink(e.node, h - 1, e.lblk, Bound(n.ents, i, hi), key, cap);
  }

  /* ---------- inserting before an entry ---------- */

  lemma {:induction false} InsertBeforeWf(n: Node, lo: nat, hi: nat, cap: nat, i: nat, e: Ent)
    requires Wf(n, 0, lo, hi, cap) && i < |n.ents| < n.max
    requires e.Ext? && e.len > 0 && e.lblk + e.len <= n.ents[i].lblk
    requires i > 0 ==> n.ents[i - 1].Ext? && n.ents[i - 1].lblk + n.ents[i - 1].len <= e.lblk
    ensures Wf(InsertEnt(n, i, e), 0, if i == 0 then e.lblk else lo, hi, cap)
  {
    var n' := InsertEnt(n, i, e);
    forall j | 0 <= j < |n'.ents| ensures EntOk(n'.ents[j], 0, Bound(n'.ents, j, hi), cap) {
      if j < i {
        assert EntOk(n.ents[j], 0, Bound(n.ents, j, hi), cap);
      } else if j > i {
        assert EntOk(n.ents[j - 1], 0, Bound(n.ents, j - 1, hi), cap);
      }
    }
  }

  /** What an extent inserted before the i-th one of the leaf at pos leaves to be done. */
  ghost predicate KeysDue(root: Node, pos: seq<nat>, i: nat)
    requires IsPath(root, pos)
  {
    forall d | 0 <= d < |pos| && (d + 1 < |pos| || i > 0) :: Tight(root, pos, d)
  }

  lemma {:induction false} InsertedBefore(root: Node, h: nat, lo: nat, hi: nat, cap: nat, pos: seq<nat>, i: nat, e: Ent)
    requires Wf(root, h, lo, hi, cap) && IsPath(root, pos) && |pos| == h && i < |Sub(root, pos).ents| < Sub(root, pos).max
    requires e.Ext? && e.len > 0 && e.lblk + e.len <= Sub(root, pos).ents[i].lblk
    requires Place(root, h, pos, i) <= |Flat(root, h)| && EndsBy(Flat(root, h)[..Place(root, h, pos, i)], e.lblk)
    ensures var root' := Put(root, pos, InsertEnt(Sub(root, pos), i, e));
      && IsPath(root', pos) && KeysDue(root', pos, i)
      && var fixed := Rekey(root', pos);
         fixed.ents != [] && Wf(fixed, h, fixed.ents[0].lblk, hi, cap) && fixed.max == root.max
  {
    hide Level, Before, Wf, Rekey, Put, Hi, Lo, Sub, IsPath, KeyAt, FirstBelow;
    var n := Sub(root, pos);
    var n' := InsertEnt(n, i, e);
    WfSub(root, h, lo, hi, cap, pos);
    LeftOf(root, h, pos, i, e.lblk);
    LeftEnt(n, lo, i, e.lblk);
    InsertBeforeWf(n, Lo(root, pos, lo), Hi(root, pos, hi), cap, i, e);
    PutHi(root, pos, n', 0);
    var root' := Put(root, pos, n');
    forall d | 0 <= d < |pos| && (d + 1 < |pos| || i > 0) ensures Tight(root', pos, d) {
      PutKeyAt(root, pos, n', d);
      WfTight(root, h, lo, hi, cap, pos, d);
      LastKey(root, pos, n', d);
    }
    RekeyPath(root', pos);
    PutKeepsMax(root, pos, n');
    if i == 0 {
      RekeyWf(root, h, lo, hi, cap, pos, n');
    } else {
      WfFirst(n, 0, Lo(root, pos, lo), Hi(root, pos, hi), cap);
      WfPut(root, h, lo, hi, cap, pos, n');
      RekeyTight(root', pos);
      WfFirst(root', h, lo, hi, cap);
    }
  }

  lemma WfFirst(n: Node, h: nat, lo: nat, hi: nat, cap: nat)
    requires Wf(n, h, lo, hi, cap)
    ensures n.ents != [] && n.ents[0].lblk == lo
  {
  }

  lemma PutKeepsMax(root: Node, pos: seq<nat>, m: Node)
    requires IsPath(root, pos) && m.max == Sub(root, pos).max
    ensures Put(root, pos, m).max == root.max
  {
  }

  /** The extents before an entry are those left of its leaf and those before it in the leaf. */
  lemma LeftOf(root: Node, h: nat, pos: seq<nat>, i: nat, block: nat)
    requires IsPath(root, pos) && |pos| == h && i < |Sub(root, pos).ents|
    requires Place(root, h, pos, i) <= |Flat(root, h)| && EndsBy(Flat(root, h)[..Place(root, h, pos, i)], block)
    ensures EndsBy(Sub(root, pos).ents[..i], block)
    ensures i == 0 ==> EndsBy(Before(root, h, 0, pos), block)
  {
    hide Level, Before, Sub, IsPath;
    LevelSub(root, h, 0, pos);
    LevelLeaf(Sub(root, pos));
    var b, n := Before(root, h, 0, pos), Sub(root, pos);
    assert Flat(root, h)[..|b| + i] == b + n.ents[..i];
    EndsParts(b, n.ents[..i], block);
  }

  lemma LeftEnt(n: Node, lo: nat, i: nat, block: nat)
    requires i <= |n.ents| && EndsBy(n.ents[..i], block)
    ensures i > 0 ==> n.ents[i - 1].Ext? && n.ents[i - 1].lblk + n.ents[i - 1].len <= block
  {
    if i > 0 {
      assert n.ents[..i][i - 1] == n.ents[i - 1];
    }
  }

  /** A leaf whose first entry stays keeps the first key of the path's end. */
  lemma {:induction false} LastKey(root: Node, pos: seq<nat>, n': Node, d: nat)
    requires IsPath(root, pos) && d < |pos| && Sub(root, pos).ents != [] && n'.ents != []
    ensures d + 1 == |pos| ==> FirstBelow(root, pos, d) == Sub(root, pos).ents[0].lblk
    decreases |pos|
  {
    if d > 0 {
      LastKey(root.ents[pos[0]].node, pos[1..], n', d - 1);
    }
  }
}
