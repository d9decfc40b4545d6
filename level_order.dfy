/** The octree's levels defined breadth-first, independently of the
    walk, and the proof that the depth-first walk prints exactly the
    target level, brick by brick, in level order. */
module LevelOrder {
  import opened NodePool
  import opened OctreeLog
  import opened OctreeWalk

  /** The indices `n, n + 1, ..., n + k - 1`. */
  function Range(n: nat, k: nat): (r: seq<nat>)
    ensures |r| == k
  {
    seq(k, i => n + i)
  }

  /** The children of node `p`: the eight entries of its brick, counted
      from the start of the nodes, or none when its offset is 0. */
  function ChildIndices(nodes: Nodes, p: nat): seq<nat>
  {
    if p < |nodes| && nodes[p].next != 0 then Range(nodes[p].next, 8) else []
  }

  /** The children of the nodes `ps`, in order: the next level down. */
  function Expand(nodes: Nodes, ps: seq<nat>): seq<nat>
  {
    if ps == [] then [] else ChildIndices(nodes, ps[0]) + Expand(nodes, ps[1..])
  }

  /** The nodes `k` levels below the nodes `ps`. */
  function Below(nodes: Nodes, ps: seq<nat>, k: nat): seq<nat>
  {
    if k == 0 then ps else Expand(nodes, Below(nodes, ps, k - 1))
  }

  /** The nodes at depth `d`, level by level from the root. */
  function Level(nodes: Nodes, d: nat): seq<nat>
  {
    Below(nodes, [0], d)
  }

  /** What the walk prints for a node one level above the target. */
  function BrickOf(nodes: Nodes, p: nat): seq<Entry>
    requires InBounds(nodes)
  {
    if p < |nodes| && nodes[p].next != 0 then Brick(nodes, nodes[p].next) + [BrickSep] else []
  }

  /** The bricks of the nodes `ps`, in order. */
  function Bricks(nodes: Nodes, ps: seq<nat>): seq<Entry>
    requires InBounds(nodes)
  {
    if ps == [] then [] else BrickOf(nodes, ps[0]) + Bricks(nodes, ps[1..])
  }

  lemma {:induction false} ExpandAppend(nodes: Nodes, a: seq<nat>, b: seq<nat>)
    ensures Expand(nodes, a + b) == Expand(nodes, a) + Expand(nodes, b)
  {
    if a != [] {
      assert (a + b)[1..] == a[1..] + b;
      ExpandAppend(nodes, a[1..], b);
    } else {
      assert a + b == b;
    }
  }

  lemma {:induction false} BricksAppend(nodes: Nodes, a: seq<nat>, b: seq<nat>)
    requires InBounds(nodes)
    ensures Bricks(nodes, a + b) == Bricks(nodes, a) + Bricks(nodes, b)
  {
    if a != [] {
      assert (a + b)[1..] == a[1..] + b;
      BricksAppend(nodes, a[1..], b);
    } else {
      assert a + b == b;
    }
  }

  /** Descending commutes with concatenation. */
  lemma {:induction false} BelowAppend(nodes: Nodes, a: seq<nat>, b: seq<nat>, k: nat)
    ensures Below(nodes, a + b, k) == Below(nodes, a, k) + Below(nodes, b, k)
  {
    if k > 0 {
      calc {
        Below(nodes, a + b, k);
        Expand(nodes, Below(nodes, a + b, k - 1));
        == { BelowAppend(nodes, a, b, k - 1); }
        Expand(nodes, Below(nodes, a, k - 1) + Below(nodes, b, k - 1));
        == { ExpandAppend(nodes, Below(nodes, a, k - 1), Below(nodes, b, k - 1)); }
        Below(nodes, a, k) + Below(nodes, b, k);
      }
    }
  }

  /** Descending one level first and then `k - 1` is descending `k`. */
  lemma {:induction false} BelowExpand(nodes: Nodes, ps: seq<nat>, k: nat)
    requires 0 < k
    ensures Below(nodes, Expand(nodes, ps), k - 1) == Below(nodes, ps, k)
  {
    if k > 1 {
      BelowExpand(nodes, ps, k - 1);
    }
  }

  lemma {:induction false} BelowEmpty(nodes: Nodes, k: nat)
    ensures Below(nodes, [], k) == []
  {
    if k > 0 {
      BelowEmpty(nodes, k - 1);
    }
  }

  /** The walk of node `p` at depth `level`, `j + 1` levels above the
      target, prints the bricks of the nodes `j` levels below `p`, in
      order. */
  lemma {:induction false} WalkLevels(nodes: Nodes, p: nat, level: nat, maxLevel: nat, j: nat)
    requires p < |nodes| && InBounds(nodes)
    requires level + 1 + j == maxLevel
    ensures Walk(nodes, p, level, maxLevel) == Bricks(nodes, Below(nodes, [p], j))
    decreases j, 9
  {
    if j == 0 {
      assert Bricks(nodes, [p]) == BrickOf(nodes, p) + Bricks(nodes, []) by {
        assert [p][1..] == [];
      }
      WalkAboveTarget(nodes, p, level, maxLevel);
    } else if nodes[p].next == 0 {
      LeafLevels(nodes, p, level, maxLevel, j);
    } else {
      ChildrenLevels(nodes, nodes[p].next, level, maxLevel, j - 1, 8);
      InnerLevels(nodes, p, level, maxLevel, j);
    }
  }

  /** A node without children prints nothing above the target, and has
      no nodes below it. */
  lemma LeafLevels(nodes: Nodes, p: nat, level: nat, maxLevel: nat, j: nat)
    requires p < |nodes| && InBounds(nodes) && nodes[p].next == 0
    requires level + 1 + j == maxLevel && 0 < j
    ensures Walk(nodes, p, level, maxLevel) == Bricks(nodes, Below(nodes, [p], j))
  {
    assert Expand(nodes, [p]) == [] by {
      assert [p][1..] == [];
    }
    calc {
      Walk(nodes, p, level, maxLevel);
      == { LeafWalk(nodes, p, level, maxLevel); }
      Bricks(nodes, []);
      == { BelowEmpty(nodes, j - 1); }
      Bricks(nodes, Below(nodes, Expand(nodes, [p]), j - 1));
      == { BelowExpand(nodes, [p], j); }
      Bricks(nodes, Below(nodes, [p], j));
    }
  }

  /** Above the level that holds the target's parents, the walk of a node
      with children prints what the walks of its children print, which are
      the bricks `j - 1` levels below each of them. */
  lemma InnerLevels(nodes: Nodes, p: nat, level: nat, maxLevel: nat, j: nat)
    requires p < |nodes| && InBounds(nodes) && nodes[p].next != 0
    requires level + 1 + j == maxLevel && 0 < j
    requires Children(nodes, nodes[p].next, level, maxLevel, 8)
          == Bricks(nodes, Below(nodes, Range(nodes[p].next, 8), j - 1))
    ensures Walk(nodes, p, level, maxLevel) == Bricks(nodes, Below(nodes, [p], j))
  {
    var n := nodes[p].next;
    assert Expand(nodes, [p]) == Range(n, 8) by {
      assert [p][1..] == [];
    }
    calc {
      Walk(nodes, p, level, maxLevel);
      == { WalkInner(nodes, p, level, maxLevel); }
      Children(nodes, n, level, maxLevel, 8);
      Bricks(nodes, Below(nodes, Expand(nodes, [p]), j - 1));
      == { BelowExpand(nodes, [p], j); }
      Bricks(nodes, Below(nodes, [p], j));
    }
  }

  /** One level above the target the walk of a node prints its brick and
      a separator, or nothing when it has no children. */
  lemma WalkAboveTarget(nodes: Nodes, p: nat, level: nat, maxLevel: nat)
    requires p < |nodes| && InBounds(nodes)
    requires level + 1 == maxLevel
    ensures Walk(nodes, p, level, maxLevel) == BrickOf(nodes, p)
  {
    var n := nodes[p].next;
    if n == 0 {
      LeafWalk(nodes, p, level, maxLevel);
    } else {
      WalkInner(nodes, p, level, maxLevel);
      ChildrenAtTarget(nodes, n, level, maxLevel, 8);
      assert Brick(nodes, n)[..8] == Brick(nodes, n);
    }
  }

  /** The first `k` children of the brick at `n`, whose walks start `j + 1`
      levels above the target, print the bricks of the nodes `j` levels
      below them. */
  lemma {:induction false} ChildrenLevels(nodes: Nodes, n: nat, level: nat, maxLevel: nat, j: nat, k: nat)
    requires InBounds(nodes) && n + 8 <= |nodes| && k <= 8
    requires level + 2 + j == maxLevel
    ensures Children(nodes, n, level, maxLevel, k) == Bricks(nodes, Below(nodes, Range(n, k), j))
    decreases j + 1, k
  {
    if k == 0 {
      BelowEmpty(nodes, j);
    } else {
      var i := k - 1;
      ChildrenLevels(nodes, n, level, maxLevel, j, i);
      WalkLevels(nodes, n + i, level + 1, maxLevel, j);
      ChildrenLevelsStep(nodes, n, level, maxLevel, j, i);
    }
  }

  /** The step of `ChildrenLevels`: the next child appends the bricks
      below it. */
  lemma ChildrenLevelsStep(nodes: Nodes, n: nat, level: nat, maxLevel: nat, j: nat, i: nat)
    requires InBounds(nodes) && n + 8 <= |nodes| && i < 8
    requires level + 2 + j == maxLevel
    requires Children(nodes, n, level, maxLevel, i) == Bricks(nodes, Below(nodes, Range(n, i), j))
    requires Walk(nodes, n + i, level + 1, maxLevel) == Bricks(nodes, Below(nodes, [n + i], j))
    ensures Children(nodes, n, level, maxLevel, i + 1) == Bricks(nodes, Below(nodes, Range(n, i + 1), j))
  {
    calc {
      Children(nodes, n, level, maxLevel, i + 1);
      == { ChildrenStep(nodes, n, level, maxLevel, i); }
      Children(nodes, n, level, maxLevel, i) + Walk(nodes, n + i, level + 1, maxLevel);
      == { BricksNext(nodes, n, i, j); }
      Bricks(nodes, Below(nodes, Range(n, i + 1), j));
    }
  }

  /** The bricks `j` levels below the nodes `n .. n + i` are those below
      `n .. n + i - 1` followed by those below `n + i`. */
  lemma BricksNext(nodes: Nodes, n: nat, i: nat, j: nat)
    requires InBounds(nodes)
    ensures Bricks(nodes, Below(nodes, Range(n, i + 1), j))
         == Bricks(nodes, Below(nodes, Range(n, i), j)) + Bricks(nodes, Below(nodes, [n + i], j))
  {
    calc {
      Bricks(nodes, Below(nodes, Range(n, i + 1), j));
      == { assert Range(n, i + 1) == Range(n, i) + [n + i]; }
      Bricks(nodes, Below(nodes, Range(n, i) + [n + i], j));
      == { BelowAppend(nodes, Range(n, i), [n + i], j); }
      Bricks(nodes, Below(nodes, Range(n, i), j) + Below(nodes, [n + i], j));
      == { BricksAppend(nodes, Below(nodes, Range(n, i), j), Below(nodes, [n + i], j)); }
      Bricks(nodes, Below(nodes, Range(n, i), j)) + Bricks(nodes, Below(nodes, [n + i], j));
    }
  }

  /** For every target level L above 0 the walk from the root prints, in
      level order, the brick of each node at depth L - 1 that has
      children, each followed by one separator, and nothing else. */
  lemma WalkIsLevel(nodes: Nodes, maxLevel: nat)
    requires 0 < |nodes| && InBounds(nodes) && 0 < maxLevel
    ensures Walk(nodes, 0, 0, maxLevel) == Bricks(nodes, Level(nodes, maxLevel - 1))
  {
    WalkLevels(nodes, 0, 0, maxLevel, maxLevel - 1);
  }
  /** No record of a brick carries address 0: the first record carries
      the brick's offset, which is not 0, and the others carry none. */
  lemma {:induction false} BricksNoAddressZero(nodes: Nodes, ps: seq<nat>)
    requires InBounds(nodes)
    ensures forall e :: e in Bricks(nodes, ps) ==> !(e.Node? && e.addr == Some(0))
  {
    if ps != [] {
      BricksNoAddressZero(nodes, ps[1..]);
      var p := ps[0];
      if p < |nodes| && nodes[p].next != 0 {
        var n := nodes[p].next;
        forall i | 0 <= i < 8
          ensures !(Brick(nodes, n)[i].Node? && Brick(nodes, n)[i].addr == Some(0))
        {
          BrickAt(nodes, n, i);
        }
      }
    }
  }

  /** For every target level above 0 the root record is never written: a
      root without children writes nothing, otherwise the walk writes its
      children and, for level 1, one gap; and no record it writes carries
      address 0. */
  lemma NoRootRecordAbove(nodes: Nodes, maxLevel: nat)
    requires 0 < |nodes| && InBounds(nodes) && 0 < maxLevel
    ensures Walk(nodes, 0, 0, maxLevel) == if nodes[0].next == 0 then [] else
      Children(nodes, nodes[0].next, 0, maxLevel, 8) + (if maxLevel == 1 then [BrickSep] else [])
    ensures RootRecord(nodes) !in Walk(nodes, 0, 0, maxLevel)
    ensures forall e :: e in Walk(nodes, 0, 0, maxLevel) ==> !(e.Node? && e.addr == Some(0))
  {
    NoAddressZeroAbove(nodes, maxLevel);
    assert RootRecord(nodes).addr == Some(0);
  }

  lemma NoAddressZeroAbove(nodes: Nodes, maxLevel: nat)
    requires 0 < |nodes| && InBounds(nodes) && 0 < maxLevel
    ensures forall e :: e in Walk(nodes, 0, 0, maxLevel) ==> !(e.Node? && e.addr == Some(0))
  {
    WalkIsLevel(nodes, maxLevel);
    BricksNoAddressZero(nodes, Level(nodes, maxLevel - 1));
  }
}
