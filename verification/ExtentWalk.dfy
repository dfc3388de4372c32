/**
 Depth-first traversal of an extent tree with EXT2_EXTENT_NEXT
 (drivers/fs/ext2/extent.c), and what it visits.
 */
module ExtentWalk {
  import opened ExtentTree
  import opened ExtentDisk
  import opened ExtentHandle

  /** One answer of the traversal: an entry of some height, met before or after what lies below it. */
  datatype Visit = Visit(e: Ent, height: nat, second: bool)

  function WalkList(es: seq<Ent>, h: nat): (vs: seq<Visit>)
    decreases h, 1, |es|
  {
    if es == [] then [] else WalkEnt(es[0], h) + WalkList(es[1..], h)
  }

  function WalkEnt(e: Ent, h: nat): (vs: seq<Visit>)
    decreases h, 0
  {
    [Visit(e, h, false)] + Below(e, h)
  }

  /** What is visited after an entry and before its next sibling. */
  function Below(e: Ent, h: nat): (vs: seq<Visit>)
    decreases h, 0, 0
  {
    if h == 0 || !e.Kid? then [] else WalkList(e.node.ents, h - 1) + [Visit(e, h, true)]
  }

  /** What is still to be visited when the i-th entry of the node at pos is current. */
  function Rest(n: Node, h: nat, pos: seq<nat>, i: nat, seen: bool): (vs: seq<Visit>)
    requires IsPath(n, pos) && |pos| <= h && i < |Sub(n, pos).ents|
    decreases |pos|
  {
    if pos == [] then (if seen then [] else Below(n.ents[i], h)) + WalkList(n.ents[i + 1..], h)
    else
      var e := n.ents[pos[0]];
      Rest(e.node, h - 1, pos[1..], i, seen) + [Visit(e, h, true)] + WalkList(n.ents[pos[0] + 1..], h)
  }

  /* ---------- one move ---------- */

  /** Down to the first entry below an entry met for the first time. */
  lemma {:induction false} RestDown(n: Node, h: nat, pos: seq<nat>, i: nat)
    requires IsPath(n, pos) && |pos| < h && i < |Sub(n, pos).ents|
    requires Sub(n, pos).ents[i].Kid? && Sub(n, pos).ents[i].node.ents != []
    requires IsPath(n, pos + [i]) && Sub(n, pos + [i]) == Sub(n, pos).ents[i].node
    ensures var e := Sub(n, pos + [i]).ents[0];
      Rest(n, h, pos, i, false) == [Visit(e, h - |pos| - 1, false)] + Rest(n, h, pos + [i], 0, false)
    decreases |pos|
  {
    if pos == [] {
      assert (pos + [i])[1..] == [];
      var kid := n.ents[i];
      assert IsPath(kid.node, []) && Sub(kid.node, []) == kid.node;
      assert WalkList(kid.node.ents, h - 1) == WalkEnt(kid.node.ents[0], h - 1) + WalkList(kid.node.ents[1..], h - 1);
    } else {
      assert (pos + [i])[1..] == pos[1..] + [i];
      RestDown(n.ents[pos[0]].node, h - 1, pos[1..], i);
    }
  }

  /** On to the next sibling. */
  lemma {:induction false} RestNext(n: Node, h: nat, pos: seq<nat>, i: nat, seen: bool)
    requires IsPath(n, pos) && |pos| <= h && i + 1 < |Sub(n, pos).ents|
    requires seen || |pos| == h
    ensures Rest(n, h, pos, i, seen) == [Visit(Sub(n, pos).ents[i + 1], h - |pos|, false)] + Rest(n, h, pos, i + 1, false)
    decreases |pos|
  {
    if pos == [] {
      var e, rest := n.ents[i + 1], n.ents[i + 2..];
      assert n.ents[i + 1..] == [e] + rest && ([e] + rest)[1..] == rest && n.ents[i + 1 + 1..] == rest;
      assert Rest(n, h, pos, i, seen) == WalkList([e] + rest, h);
      assert WalkList([e] + rest, h) == WalkEnt(e, h) + WalkList(rest, h);
      assert Rest(n, h, pos, i + 1, false) == Below(e, h) + WalkList(rest, h);
    } else {
      RestNext(n.ents[pos[0]].node, h - 1, pos[1..], i, seen);
    }
  }

  /** Up, for a second visit, when nothing is left. */
  lemma {:induction false} RestUp(n: Node, h: nat, pos: seq<nat>, j: nat, i: nat, seen: bool)
    requires IsPath(n, pos) && |pos| < h && j < |Sub(n, pos).ents| && Sub(n, pos).ents[j].Kid?
    requires IsPath(n, pos + [j]) && Sub(n, pos + [j]) == Sub(n, pos).ents[j].node
    requires i + 1 == |Sub(n, pos + [j]).ents| && (seen || |pos| + 1 == h)
    ensures Rest(n, h, pos + [j], i, seen) == [Visit(Sub(n, pos).ents[j], h - |pos|, true)] + Rest(n, h, pos, j, true)
    decreases |pos|
  {
    if pos == [] {
      assert (pos + [j])[1..] == [];
      assert n.ents[j].node.ents[i + 1..] == [];
    } else {
      assert (pos + [j])[1..] == pos[1..] + [j];
      RestUp(n.ents[pos[0]].node, h - 1, pos[1..], j, i, seen);
    }
  }

  /* ---------- what a traversal visits ---------- */

  /** The entries of one height among the visits, first or second time. */
  function Select(vs: seq<Visit>, t: nat, second: bool): (es: seq<Ent>)
  {
    if vs == [] then []
    else (if vs[0].height == t && vs[0].second == second then [vs[0].e] else []) + Select(vs[1..], t, second)
  }

  lemma {:induction false} SelectConcat(xs: seq<Visit>, ys: seq<Visit>, t: nat, second: bool)
    ensures Select(xs + ys, t, second) == Select(xs, t, second) + Select(ys, t, second)
    decreases |xs|
  {
    if xs == [] {
      assert xs + ys == ys;
    } else {
      assert (xs + ys)[1..] == xs[1..] + ys;
      SelectConcat(xs[1..], ys, t, second);
    }
  }

  /** Every entry is met once, in order; every entry above the leaves once more, after all below it. */
  lemma {:induction false} WalkVisitsAll(n: Node, h: nat, lo: nat, hi: nat, cap: nat, t: nat)
    requires Wf(n, h, lo, hi, cap)
    ensures Select(WalkList(n.ents, h), t, false) == if t <= h then Level(n, h, t) else []
    ensures Select(WalkList(n.ents, h), t, true) == if 0 < t <= h then Level(n, h, t) else []
    decreases h, |n.ents| + 1
  {
    WalkListVisits(n, h, lo, hi, cap, t, 0);
    assert n.ents[0..] == n.ents;
  }

  /** The entries of height t in and below part of a node's list. */
  function PartLevel(es: seq<Ent>, h: nat, t: nat): (s: seq<Ent>)
  {
    if t > h then [] else if t == h then es else Join(Levels(es, h, t))
  }

  lemma {:induction false} WalkListVisits(n: Node, h: nat, lo: nat, hi: nat, cap: nat, t: nat, k: nat)
    requires Wf(n, h, lo, hi, cap) && k <= |n.ents|
    ensures Select(WalkList(n.ents[k..], h), t, false) == PartLevel(n.ents[k..], h, t)
    ensures Select(WalkList(n.ents[k..], h), t, true) == if t == 0 then [] else PartLevel(n.ents[k..], h, t)
    decreases h, |n.ents| - k
  {
    hide Wf, Level, Levels, Join;
    if k == |n.ents| {
      assert n.ents[k..] == [];
      PartNone(h, t);
    } else {
      var e := n.ents[k];
      assert n.ents[k..] == [e] + n.ents[k + 1..];
      WalkListVisits(n, h, lo, hi, cap, t, k + 1);
      EntKey(n, h, lo, hi, cap, k);
      WalkEntVisits(e, h, Bound(n.ents, k, hi), cap, t);
      PartCons(e, n.ents[k + 1..], h, t);
      SelectConcat(WalkEnt(e, h), WalkList(n.ents[k + 1..], h), t, false);
      SelectConcat(WalkEnt(e, h), WalkList(n.ents[k + 1..], h), t, true);
    }
  }

  lemma PartNone(h: nat, t: nat)
    ensures PartLevel([], h, t) == []
  {
    if t < h {
      assert Levels([], h, t) == [];
    }
  }

  lemma PartCons(e: Ent, es: seq<Ent>, h: nat, t: nat)
    ensures PartLevel([e] + es, h, t) == PartLevel([e], h, t) + PartLevel(es, h, t)
    ensures t < h ==> PartLevel([e], h, t) == LevelOf(e, h, t)
  {
    if t < h {
      hide LevelOf;
      LevelsConcat([e], es, h, t);
      JoinConcat(Levels([e], h, t), Levels(es, h, t));
      assert Levels([e], h, t) == [LevelOf(e, h, t)];
      JoinOne(LevelOf(e, h, t));
    }
  }

  lemma {:induction false} WalkEntVisits(e: Ent, h: nat, bound: nat, cap: nat, t: nat)
    requires EntOk(e, h, bound, cap)
    ensures Select(WalkEnt(e, h), t, false) == PartLevel([e], h, t)
    ensures Select(WalkEnt(e, h), t, true) == if t == 0 then [] else PartLevel([e], h, t)
    decreases h, 0
  {
    hide Wf, Level, Levels, Join;
    var first, last := [Visit(e, h, false)], [Visit(e, h, true)];
    SelectOne(e, h, false, t);
    SelectOne(e, h, true, t);
    PartCons(e, [], h, t);
    if h == 0 {
      assert WalkEnt(e, h) == first;
    } else {
      var mid := WalkList(e.node.ents, h - 1);
      WalkVisitsAll(e.node, h - 1, e.lblk, bound, cap, t);
      assert WalkEnt(e, h) == first + (mid + last);
      SelectConcat(first, mid + last, t, false);
      SelectConcat(mid, last, t, false);
      SelectConcat(first, mid + last, t, true);
      SelectConcat(mid, last, t, true);
    }
  }

  lemma SelectOne(e: Ent, h: nat, flag: bool, t: nat)
    ensures Select([Visit(e, h, flag)], t, true) == if flag && t == h then [e] else []
    ensures Select([Visit(e, h, flag)], t, false) == if !flag && t == h then [e] else []
  {
    assert [Visit(e, h, flag)][1..] == [];
  }

  /* ---------- the traversal ---------- */

  /** The handle is in the middle of a traversal: what is above the current entry has been met before. */
  ghost predicate Walking(h: Handle)
    reads h
  {
    && h.Valid() && h.Placed()
    && (forall d | 0 <= d < h.level :: h.path[d].visit > 0)
    && (h.level == h.height ==> h.path[h.level].visit == 0)
  }

  ghost function RestOf(h: Handle): (vs: seq<Visit>)
    requires Walking(h)
    reads h
  {
    Rest(h.root, h.height, h.Pos(), h.path[h.level].curr, h.path[h.level].visit > 0)
  }

  ghost function Current(h: Handle): (v: Visit)
    requires Walking(h)
    reads h
  {
    Visit(h.Curr(), h.height - h.level, h.path[h.level].visit > 0)
  }

  /** EXT2_EXTENT_NEXT: the next of the visits that remain, or ESRCH. */
  method Next(h: Handle) returns (err: Error)
    requires Walking(h)
    modifies h`level, h`path
    ensures Walking(h)
    ensures err == if old(RestOf(h)) == [] then ESRCH else None
    ensures err == None ==> old(RestOf(h)) == [Current(h)] + RestOf(h)
  {
    hide Stored, PathOk, WfRoot, IsPath, Sub, Rest, Wf, Hi, Lo;
    h.AtLevel();
    h.AboveLevel();
    h.CurrShape();
    var c := h.path[h.level];
    if h.level < h.height && c.visit == 0 {
      err := Enter(h);
    } else if c.left > 0 {
      RestNext(h.root, h.height, h.Pos(), c.curr, c.visit > 0);
      err := h.NextSib();
    } else if h.level > 0 {
      h.ParentHere();
      RestUp(h.root, h.height, PosOf(h.path, h.level - 1), h.path[h.level - 1].curr, c.curr, c.visit > 0);
      err := h.Up();
    } else {
      RestNone(h.root, h.height, c.curr, c.visit > 0);
      err := ESRCH;
    }
  }

  /** The first visit of an interior entry: the entries below it come next. */
  method Enter(h: Handle) returns (err: Error)
    requires Walking(h) && h.level < h.height && h.path[h.level].visit == 0
    modifies h`level, h`path
    ensures Walking(h) && err == None && old(RestOf(h)) == [Current(h)] + RestOf(h)
  {
    hide Stored, PathOk, WfRoot, IsPath, Sub, Rest, Wf, Hi, Lo;
    h.AtLevel();
    h.AboveLevel();
    h.CurrShape();
    h.ChildHere();
    var c := h.path[h.level];
    RestDown(h.root, h.height, h.Pos(), c.curr);
    h.path := h.path[h.level := c.(visit := c.visit + 1)];
    h.MarkedOk(old(h.path));
    err := h.Down();
  }

  lemma WalkNothing(h: nat)
    ensures WalkList([], h) == []
  {
  }

  lemma WalkStart(n: Node, h: nat)
    requires n.ents != []
    ensures IsPath(n, []) && Sub(n, []) == n
    ensures WalkList(n.ents, h) == [Visit(n.ents[0], h, false)] + Rest(n, h, [], 0, false)
  {
  }

  lemma RestNone(n: Node, h: nat, i: nat, seen: bool)
    requires i + 1 == |n.ents| && (seen || h == 0)
    ensures IsPath(n, []) && Rest(n, h, [], i, seen) == []
  {
    assert n.ents[i + 1..] == [];
  }

  /** A whole traversal, from EXT2_EXTENT_ROOT until ESRCH, visits exactly the walk of the tree. */
  method Traverse(h: Handle) returns (vs: seq<Visit>)
    requires h.Valid()
    modifies h`level, h`path
    ensures h.Valid()
    ensures vs == WalkList(h.root.ents, h.height)
  {
    hide Stored, PathOk, WfRoot, Rest, WalkList, Hi, Lo, Wf, IsPath, Sub;
    var err := h.Root();
    if err == ESRCH {
      WalkNothing(h.height);
      return [];
    }
    h.AboveLevel();
    WalkStart(h.root, h.height);
    vs := [Visit(h.Curr(), h.height - h.level, h.path[h.level].visit > 0)];
    assert h.Pos() == [];
    while true
      invariant Walking(h)
      invariant vs + RestOf(h) == WalkList(h.root.ents, h.height)
      decreases |RestOf(h)|
    {
      ghost var rest := RestOf(h);
      err := Next(h);
      if err == ESRCH {
        assert vs + [] == vs;
        return;
      }
      assert vs + [Current(h)] + RestOf(h) == vs + rest;
      vs := vs + [Visit(h.Curr(), h.height - h.level, h.path[h.level].visit > 0)];
    }
  }
}
