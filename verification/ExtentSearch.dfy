/**
 Why following keys downwards finds the entry that covers a block: facts about
 positions in an extent tree and in the list of its entries of one height.
 */
module ExtentSearch {
  import opened ExtentTree

  /** Entry j of the list covers the block. */
  ghost predicate CoversAt(s: seq<Ent>, t: nat, hi: nat, j: nat, block: nat)
    requires j < |s|
  {
    Covers(s[j], t, Bound(s, j, hi), block)
  }

  lemma {:induction false} OrderedKeys(s: seq<Ent>, t: nat, lo: nat, hi: nat, cap: nat, i: nat, j: nat)
    requires Ordered(s, t, lo, hi, cap) && i < j < |s|
    ensures s[i].lblk < Bound(s, i, hi) <= s[j].lblk < hi
    decreases j - i, |s| - j
  {
    hide EntOk;
    if i + 1 < j {
      OrderedKeys(s, t, lo, hi, cap, i + 1, j);
    } else if j + 1 < |s| {
      OrderedKeys(s, t, lo, hi, cap, j, j + 1);
    }
  }

  /** At most one entry covers a block. */
  lemma {:induction false} CoversUnique(s: seq<Ent>, t: nat, lo: nat, hi: nat, cap: nat, i: nat, j: nat, block: nat)
    requires Ordered(s, t, lo, hi, cap) && i < |s| && j < |s|
    requires CoversAt(s, t, hi, i, block) && CoversAt(s, t, hi, j, block)
    ensures i == j
  {
    assert EntOk(s[i], t, Bound(s, i, hi), cap) && EntOk(s[j], t, Bound(s, j, hi), cap);
    if i < j {
      OrderedKeys(s, t, lo, hi, cap, i, j);
    } else if j < i {
      OrderedKeys(s, t, lo, hi, cap, j, i);
    }
  }

  /** What lies right of a node begins where the node's range ends. */
  lemma {:induction false} AfterFirst(n: Node, h: nat, t: nat, lo: nat, hi: nat, cap: nat, pos: seq<nat>)
    requires Wf(n, h, lo, hi, cap) && IsPath(n, pos) && |pos| + t <= h
    ensures var a := After(n, h, t, pos);
      if a == [] then Hi(n, pos, hi) == hi else a[0].lblk == Hi(n, pos, hi)
    decreases |pos|
  {
    if pos != [] {
      var i := pos[0];
      var e := n.ents[i];
      EntKey(n, h, lo, hi, cap, i);
      AfterFirst(e.node, h - 1, t, e.lblk, Bound(n.ents, i, hi), cap, pos[1..]);
      RestFirst(n, h, t, lo, hi, cap, i);
    }
  }

  lemma {:induction false} RestFirst(n: Node, h: nat, t: nat, lo: nat, hi: nat, cap: nat, i: nat)
    requires Wf(n, h, lo, hi, cap) && t < h && i < |n.ents|
    ensures var a := Join(Levels(n.ents[i + 1..], h, t));
      if i + 1 == |n.ents| then a == [] else a != [] && a[0].lblk == n.ents[i + 1].lblk
  {
    var es := n.ents[i + 1..];
    if es == [] {
      assert Levels(es, h, t) == [];
    } else {
      EntKey(n, h, lo, hi, cap, i + 1);
      LevelOrdered(es[0].node, h - 1, t, es[0].lblk, Bound(n.ents, i + 1, hi), cap);
    }
  }

  lemma {:induction false} KidFirst(n: Node, h: nat, t: nat, lo: nat, hi: nat, cap: nat, i: nat)
    requires Wf(n, h, lo, hi, cap) && t < h && i < |n.ents|
    ensures var a := LevelOf(n.ents[i], h, t); a != [] && a[0].lblk == n.ents[i].lblk
  {
    EntKey(n, h, lo, hi, cap, i);
    LevelOrdered(n.ents[i].node, h - 1, t, n.ents[i].lblk, Bound(n.ents, i, hi), cap);
  }

  /** An entry's range, in its node and in the list of its height, ends at the same block. */
  lemma {:induction false} BoundAt(root: Node, h: nat, lo: nat, hi: nat, cap: nat, pos: seq<nat>, i: nat)
    requires Wf(root, h, lo, hi, cap) && IsPath(root, pos) && |pos| <= h && i < |Sub(root, pos).ents|
    ensures var t := h - |pos|;
      var s := Level(root, h, t);
      var k := |Before(root, h, t, pos)| + i;
      && k < |s| && s[k] == Sub(root, pos).ents[i]
      && Bound(s, k, hi) == Bound(Sub(root, pos).ents, i, Hi(root, pos, hi))
  {
    hide Level, Before, After, Wf, IsPath, Sub, Hi;
    var t := h - |pos|;
    var n := Sub(root, pos);
    LevelSub(root, h, t, pos);
    AfterFirst(root, h, t, lo, hi, cap, pos);
    LevelSelf(n, t);
    var s, b, a := Level(root, h, t), Before(root, h, t, pos), After(root, h, t, pos);
    assert s == b + n.ents + a;
    var k := |b| + i;
    if i + 1 < |n.ents| {
      assert s[k + 1] == n.ents[i + 1];
    } else if a != [] {
      assert s[k + 1] == a[0];
    }
  }

  lemma LevelSelf(n: Node, t: nat)
    ensures Level(n, t, t) == n.ents
  {
  }

  /** Entries of height t that cover the block are all below the node at pos. */
  ghost predicate OnlyBelow(root: Node, h: nat, t: nat, hi: nat, pos: seq<nat>, block: nat)
    requires IsPath(root, pos) && |pos| + t <= h
  {
    var s := Level(root, h, t);
    var b := |Before(root, h, t, pos)|;
    forall j | 0 <= j < |s| && CoversAt(s, t, hi, j, block) :: b <= j < b + |Level(Sub(root, pos), h - |pos|, t)|
  }

  lemma BeforeSnoc(n: Node, h: nat, t: nat, pos: seq<nat>, i: nat)
    requires IsPath(n, pos) && |pos| + t < h && i < |Sub(n, pos).ents| && Sub(n, pos).ents[i].Kid?
    ensures IsPath(n, pos + [i]) && Sub(n, pos + [i]) == Sub(n, pos).ents[i].node
    ensures Before(n, h, t, pos + [i]) == Before(n, h, t, pos) + Join(Levels(Sub(n, pos).ents[..i], h - |pos|, t))
    decreases |pos|
  {
    if pos != [] {
      hide Levels, Join;
      assert (pos + [i])[1..] == pos[1..] + [i];
      BeforeSnoc(n.ents[pos[0]].node, h - 1, t, pos[1..], i);
    } else {
      assert (pos + [i])[1..] == [];
    }
  }

  lemma HiSnoc(n: Node, pos: seq<nat>, i: nat, hi: nat)
    requires IsPath(n, pos) && i < |Sub(n, pos).ents| && Sub(n, pos).ents[i].Kid?
    ensures IsPath(n, pos + [i]) && Sub(n, pos + [i]) == Sub(n, pos).ents[i].node
    ensures Hi(n, pos + [i], hi) == Bound(Sub(n, pos).ents, i, Hi(n, pos, hi))
    decreases |pos|
  {
    if pos != [] {
      assert (pos + [i])[1..] == pos[1..] + [i];
      HiSnoc(n.ents[pos[0]].node, pos[1..], i, Bound(n.ents, pos[0], hi));
    } else {
      assert (pos + [i])[1..] == [];
    }
  }

  /** The step down: at the last child whose key is not above the block, or at the first child. */
  lemma {:induction false} StepDown(root: Node, h: nat, t: nat, lo: nat, hi: nat, cap: nat, pos: seq<nat>, i: nat, block: nat)
    requires Wf(root, h, lo, hi, cap) && IsPath(root, pos) && |pos| + t < h
    requires OnlyBelow(root, h, t, hi, pos, block)
    requires i < |Sub(root, pos).ents| && Sub(root, pos).ents[i].Kid?
    requires i == 0 || Sub(root, pos).ents[i].lblk <= block
    requires i + 1 == |Sub(root, pos).ents| || block < Sub(root, pos).ents[i + 1].lblk
    ensures IsPath(root, pos + [i]) && OnlyBelow(root, h, t, hi, pos + [i], block)
  {
    hide Wf, EntOk, Level, Before, After, Levels, Join, Ordered, IsPath, Sub, Lo, Hi;
    var n := Sub(root, pos);
    var hh := h - |pos|;
    WfSub(root, h, lo, hi, cap, pos);
    var nlo, nhi := Lo(root, pos, lo), Hi(root, pos, hi);
    BeforeSnoc(root, h, t, pos, i);
    LevelSub(root, h, t, pos);
    LevelCut(n, hh, t, i);
    LevelOrdered(root, h, t, lo, hi, cap);
    KidFirst(n, hh, t, nlo, nhi, cap, i);
    RestFirst(n, hh, t, nlo, nhi, cap, i);
    LevelsNone(n.ents, hh, t);
    var s := Level(root, h, t);
    var b, a := Before(root, h, t, pos), After(root, h, t, pos);
    var left, mid, right := Join(Levels(n.ents[..i], hh, t)), LevelOf(n.ents[i], hh, t), Join(Levels(n.ents[i + 1..], hh, t));
    assert s == b + (left + mid + right) + a;
    Pinned(s, t, lo, hi, cap, b, left, mid, right, a, i == 0, i + 1 == |n.ents|, block);
  }

  /** The same, on lists: nothing left of `mid` reaches the block, nothing right of it starts so early. */
  lemma {:induction false} Pinned(s: seq<Ent>, t: nat, lo: nat, hi: nat, cap: nat,
                                  b: seq<Ent>, left: seq<Ent>, mid: seq<Ent>, right: seq<Ent>, a: seq<Ent>,
                                  first: bool, last: bool, block: nat)
    requires Ordered(s, t, lo, hi, cap) && s == b + (left + mid + right) + a
    requires forall j | 0 <= j < |s| && CoversAt(s, t, hi, j, block) :: |b| <= j < |b| + |left + mid + right|
    requires mid != [] && (if first then left == [] else mid[0].lblk <= block)
    requires if last then right == [] else right != [] && block < right[0].lblk
    ensures forall j | 0 <= j < |s| && CoversAt(s, t, hi, j, block) :: |b + left| <= j < |b + left| + |mid|
  {
    forall j | 0 <= j < |s| && CoversAt(s, t, hi, j, block) ensures |b + left| <= j < |b + left| + |mid| {
      assert EntOk(s[j], t, Bound(s, j, hi), cap);
      var m := |b + left|;
      if j < m {
        assert s[m] == mid[0];
        OrderedKeys(s, t, lo, hi, cap, j, m);
      } else if j >= m + |mid| {
        assert s[m + |mid|] == right[0];
        if m + |mid| < j {
          OrderedKeys(s, t, lo, hi, cap, m + |mid|, j);
        }
      }
    }
  }

  /** At the height searched: if no entry of the node covers the block, none in the tree does. */
  lemma {:induction false} NoneCovers(root: Node, h: nat, lo: nat, hi: nat, cap: nat, pos: seq<nat>, block: nat)
    requires Wf(root, h, lo, hi, cap) && IsPath(root, pos) && |pos| <= h
    requires OnlyBelow(root, h, h - |pos|, hi, pos, block)
    requires var n := Sub(root, pos);
      forall i | 0 <= i < |n.ents| :: !Covers(n.ents[i], h - |pos|, Bound(n.ents, i, Hi(root, pos, hi)), block)
    ensures var s, t := Level(root, h, h - |pos|), h - |pos|;
      forall j | 0 <= j < |s| :: !CoversAt(s, t, hi, j, block)
  {
    hide Level, Before, After, Wf, IsPath, Sub, Hi;
    var t := h - |pos|;
    var s := Level(root, h, t);
    LevelSelf(Sub(root, pos), t);
    forall j | 0 <= j < |s| ensures !CoversAt(s, t, hi, j, block) {
      var i := j - |Before(root, h, t, pos)|;
      if 0 <= i < |Sub(root, pos).ents| {
        BoundAt(root, h, lo, hi, cap, pos, i);
      }
    }
  }

  lemma OnlyBelowRoot(root: Node, h: nat, t: nat, hi: nat, block: nat)
    requires t <= h
    ensures OnlyBelow(root, h, t, hi, [], block)
  {
  }

  /* ---------- places in the list name places in the tree ---------- */

  /** The place, in the list of height t, of the i-th entry of the node at pos. */
  function Place(root: Node, h: nat, pos: seq<nat>, i: nat): (k: nat)
    requires IsPath(root, pos) && |pos| <= h
  {
    |Before(root, h, h - |pos|, pos)| + i
  }

  lemma {:induction false} PlaceRange(n: Node, h: nat, lo: nat, hi: nat, cap: nat, pos: seq<nat>, i: nat)
    requires Wf(n, h, lo, hi, cap) && IsPath(n, pos) && |pos| <= h && i < |Sub(n, pos).ents|
    ensures Place(n, h, pos, i) < |Level(n, h, h - |pos|)|
  {
    hide Level, Before, After, Wf, IsPath, Sub, Hi;
    BoundAt(n, h, lo, hi, cap, pos, i);
  }

  /** Different places in the tree are different places in the list. */
  lemma {:induction false} PlaceUnique(n: Node, h: nat, lo: nat, hi: nat, cap: nat, pos: seq<nat>, i: nat, pos': seq<nat>, i': nat)
    requires Wf(n, h, lo, hi, cap) && IsPath(n, pos) && IsPath(n, pos') && |pos| == |pos'| <= h
    requires i < |Sub(n, pos).ents| && i' < |Sub(n, pos').ents|
    requires Place(n, h, pos, i) == Place(n, h, pos', i')
    ensures pos == pos' && i == i'
    decreases |pos|
  {
    if pos != [] {
      var a, b := pos[0], pos'[0];
      if a == b {
        EntKey(n, h, lo, hi, cap, a);
        PlaceUnique(n.ents[a].node, h - 1, n.ents[a].lblk, Bound(n.ents, a, hi), cap, pos[1..], i, pos'[1..], i');
        assert pos == [a] + pos[1..] && pos' == [b] + pos'[1..];
      } else if a < b {
        PlaceOrder(n, h, lo, hi, cap, pos, i, pos', i');
      } else {
        PlaceOrder(n, h, lo, hi, cap, pos', i', pos, i);
      }
    }
  }

  lemma {:induction false} PlaceOrder(n: Node, h: nat, lo: nat, hi: nat, cap: nat, pos: seq<nat>, i: nat, pos': seq<nat>, i': nat)
    requires Wf(n, h, lo, hi, cap) && IsPath(n, pos) && IsPath(n, pos') && |pos| == |pos'| <= h
    requires i < |Sub(n, pos).ents| && i' < |Sub(n, pos').ents|
    requires pos != [] && pos[0] < pos'[0]
    ensures Place(n, h, pos, i) < Place(n, h, pos', i')
  {
    hide Level, Levels, Join, Wf;
    var a, b := pos[0], pos'[0];
    var t := h - |pos|;
    EntKey(n, h, lo, hi, cap, a);
    PlaceRange(n.ents[a].node, h - 1, n.ents[a].lblk, Bound(n.ents, a, hi), cap, pos[1..], i);
    LevelsSnoc(n.ents, h, t, a);
    JoinPrefix(n.ents, h, t, a + 1, b);
  }

  lemma {:induction false} JoinPrefix(es: seq<Ent>, h: nat, t: nat, a: nat, b: nat)
    requires h > 0 && a <= b <= |es|
    ensures |Join(Levels(es[..a], h, t))| <= |Join(Levels(es[..b], h, t))|
    decreases b - a
  {
    if a < b {
      LevelsSnoc(es, h, t, b - 1);
      JoinPrefix(es, h, t, a, b - 1);
    }
  }

  /** An entry covers its own key. */
  lemma SelfCovers(s: seq<Ent>, t: nat, lo: nat, hi: nat, cap: nat, k: nat)
    requires Ordered(s, t, lo, hi, cap) && k < |s|
    ensures CoversAt(s, t, hi, k, s[k].lblk)
  {
    assert EntOk(s[k], t, Bound(s, k, hi), cap);
  }

  /** Nothing follows the node at pos exactly if every entry on the way to it is the last of its node. */
  lemma {:induction false} NoneAfter(n: Node, h: nat, t: nat, lo: nat, hi: nat, cap: nat, pos: seq<nat>)
    requires Wf(n, h, lo, hi, cap) && IsPath(n, pos) && |pos| + t <= h
    ensures After(n, h, t, pos) == [] <==> LastOnly(n, pos)
    decreases |pos|
  {
    if pos != [] {
      hide Wf, Level, Levels, Join;
      var i := pos[0];
      EntKey(n, h, lo, hi, cap, i);
      NoneAfter(n.ents[i].node, h - 1, t, n.ents[i].lblk, Bound(n.ents, i, hi), cap, pos[1..]);
      if i + 1 < |n.ents| {
        EntKey(n, h, lo, hi, cap, i + 1);
        var e := n.ents[i + 1];
        LevelOrdered(e.node, h - 1, t, e.lblk, Bound(n.ents, i + 1, hi), cap);
        JoinCons(e, n.ents[i + 2..], h, t);
        assert n.ents[i + 1..] == [e] + n.ents[i + 2..];
      } else {
        assert n.ents[i + 1..] == n.ents[..0];
        LevelsNone(n.ents, h, t);
      }
    }
  }

  lemma JoinCons(e: Ent, es: seq<Ent>, h: nat, t: nat)
    requires h > 0
    ensures Join(Levels([e] + es, h, t)) == LevelOf(e, h, t) + Join(Levels(es, h, t))
  {
    hide LevelOf;
    assert Levels([e] + es, h, t)[1..] == Levels(es, h, t);
  }

  /** Every index of the path is that of a last entry. */
  predicate LastOnly(n: Node, pos: seq<nat>)
    requires IsPath(n, pos)
    decreases |pos|
  {
    pos != [] ==> pos[0] + 1 == |n.ents| && LastOnly(n.ents[pos[0]].node, pos[1..])
  }

  lemma {:induction false} LastOnlySnoc(n: Node, pos: seq<nat>, i: nat)
    requires IsPath(n, pos) && IsPath(n, pos + [i])
    ensures LastOnly(n, pos + [i]) <==> LastOnly(n, pos) && i + 1 == |Sub(n, pos).ents|
    decreases |pos|
  {
    if pos != [] {
      assert (pos + [i])[1..] == pos[1..] + [i];
      LastOnlySnoc(n.ents[pos[0]].node, pos[1..], i);
    } else {
      assert (pos + [i])[1..] == [];
    }
  }
}
