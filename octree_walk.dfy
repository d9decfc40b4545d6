/** The depth-first walk that prints the nodes of one octree level,
    brick by brick. */
module OctreeWalk {
  import opened NodeWord
  import opened NodePool
  import opened OctreeLog

  /** First termination measure: the levels left above the target. Once
      the walk is at or below the target level (only possible when the
      target is the root level) it descends until it meets leaves, and
      the second measure, the distance to the end of the nodes, takes over. */
  function Rank(level: nat, maxLevel: nat): nat
  {
    if level < maxLevel then maxLevel - level else 0
  }

  /** The root record: address 0 and tag reported as clear, whatever the
      root word holds. */
  function RootRecord(nodes: Nodes): Entry
    requires 0 < |nodes|
  {
    PrintNode(0, false, nodes[0].next, true)
  }

  /** What the walk writes for node `p` at depth `level` when the target
      depth is `maxLevel`. */
  function Walk(nodes: Nodes, p: nat, level: nat, maxLevel: nat): seq<Entry>
    requires p < |nodes| && InBounds(nodes)
    requires level < maxLevel || Forward(nodes)
    decreases Rank(level, maxLevel), if level < maxLevel then 0 else |nodes| - p, 9
  {
    var next := nodes[p].next;
    var head := if p == 0 && level == maxLevel then [RootRecord(nodes)] else [];
    if next == 0 then head
    else head + Children(nodes, next, level, maxLevel, 8)
              + (if level + 1 == maxLevel then [BrickSep] else [])
  }

  /** What the walk writes for the first `k` children of the brick at
      `n`, whose parent is at depth `level`. */
  function Children(nodes: Nodes, n: nat, level: nat, maxLevel: nat, k: nat): seq<Entry>
    requires InBounds(nodes) && n + 8 <= |nodes| && k <= 8
    requires level < maxLevel || Forward(nodes)
    decreases Rank(level, maxLevel), if level < maxLevel then 0 else |nodes| - n + 1, k
  {
    if k == 0 then []
    else
      var c := n + k - 1;
      Children(nodes, n, level, maxLevel, k - 1)
      + if level + 1 == maxLevel then [PrintNode(c, nodes[c].flagged, nodes[c].next, k == 1)]
        else Walk(nodes, c, level + 1, maxLevel)
  }

  /** The eight records of the brick at `n`: child `i` with its decoded
      tag and offset, only child 0 carrying its address. */
  function Brick(nodes: Nodes, n: nat): seq<Entry>
    requires n + 8 <= |nodes|
  {
    seq(8, i requires 0 <= i < 8 => PrintNode(n + i, nodes[n + i].flagged, nodes[n + i].next, i == 0))
  }

  /** A node with children writes its optional root record, its children
      and, at the target level, a separator. */
  lemma WalkInner(nodes: Nodes, p: nat, level: nat, maxLevel: nat)
    requires p < |nodes| && InBounds(nodes)
    requires level < maxLevel || Forward(nodes)
    requires nodes[p].next != 0
    ensures Walk(nodes, p, level, maxLevel)
         == (if p == 0 && level == maxLevel then [RootRecord(nodes)] else [])
            + Children(nodes, nodes[p].next, level, maxLevel, 8)
            + (if level + 1 == maxLevel then [BrickSep] else [])
  {
  }

  lemma AppendAssoc<T>(a: seq<T>, b: seq<T>, c: seq<T>)
    ensures a + b + c == a + (b + c)
  {
  }

  /** One more child of a brick at the target level adds its record. */
  lemma ChildrenRecordStep(nodes: Nodes, n: nat, level: nat, maxLevel: nat, k: nat)
    requires InBounds(nodes) && n + 8 <= |nodes| && k < 8
    requires level < maxLevel || Forward(nodes)
    requires level + 1 == maxLevel
    ensures Children(nodes, n, level, maxLevel, k + 1)
         == Children(nodes, n, level, maxLevel, k)
            + [PrintNode(n + k, nodes[n + k].flagged, nodes[n + k].next, k == 0)]
  {
  }

  /** One more child of a brick above the target level adds its subtree. */
  lemma ChildrenStep(nodes: Nodes, n: nat, level: nat, maxLevel: nat, k: nat)
    requires InBounds(nodes) && n + 8 <= |nodes| && k < 8
    requires level < maxLevel || Forward(nodes)
    requires level + 1 != maxLevel
    ensures Children(nodes, n, level, maxLevel, k + 1)
         == Children(nodes, n, level, maxLevel, k) + Walk(nodes, n + k, level + 1, maxLevel)
  {
  }

  /** At the target level the first `k` children of a brick are the
      first `k` records of `Brick`. */
  lemma {:induction false} ChildrenAtTarget(nodes: Nodes, n: nat, level: nat, maxLevel: nat, k: nat)
    requires InBounds(nodes) && n + 8 <= |nodes| && k <= 8
    requires level + 1 == maxLevel
    ensures Children(nodes, n, level, maxLevel, k) == Brick(nodes, n)[..k]
  {
    if k > 0 {
      ChildrenAtTarget(nodes, n, level, maxLevel, k - 1);
      assert Brick(nodes, n)[..k] == Brick(nodes, n)[..k - 1] + [Brick(nodes, n)[k - 1]];
    }
  }

  /** One level above the target, a node with children writes exactly its
      brick: eight records in child order, record `i` for nodes entry
      `next + i` with that entry's tag and offset, the address on record
      0 only, then one separator. */
  lemma TargetBrick(nodes: Nodes, p: nat, level: nat, maxLevel: nat)
    requires p < |nodes| && InBounds(nodes)
    requires level + 1 == maxLevel
    requires nodes[p].next != 0
    ensures var next := nodes[p].next;
      var out := Walk(nodes, p, level, maxLevel);
      |out| == 9 && out[8] == BrickSep &&
      (forall i :: 0 <= i < 8 ==>
        out[i] == Node(if i == 0 then Some(next) else None, nodes[next + i].flagged, nodes[next + i].next))
  {
    var next := nodes[p].next;
    ChildrenAtTarget(nodes, next, level, maxLevel, 8);
    assert Brick(nodes, next)[..8] == Brick(nodes, next);
    WalkInner(nodes, p, level, maxLevel);
    var out := Walk(nodes, p, level, maxLevel);
    assert out == Brick(nodes, next) + [BrickSep];
    forall i | 0 <= i < 8
      ensures out[i] == Node(if i == 0 then Some(next) else None, nodes[next + i].flagged, nodes[next + i].next)
    {
      BrickAt(nodes, next, i);
    }
  }

  lemma BrickAt(nodes: Nodes, n: nat, i: nat)
    requires n + 8 <= |nodes| && i < 8
    ensures Brick(nodes, n)[i]
         == Node(if i == 0 then Some(n) else None, nodes[n + i].flagged, nodes[n + i].next)
  {
    var e := PrintNode(n + i, nodes[n + i].flagged, nodes[n + i].next, i == 0);
    assert Brick(nodes, n)[i] == e;
    if i == 0 {
      assert e.addr == Some(n);
    } else {
      assert e.addr == None;
    }
  }

  /** A node whose offset is 0 writes nothing below itself: at most the
      root record. */
  lemma LeafWalk(nodes: Nodes, p: nat, level: nat, maxLevel: nat)
    requires p < |nodes| && InBounds(nodes)
    requires level < maxLevel || Forward(nodes)
    requires nodes[p].next == 0
    ensures Walk(nodes, p, level, maxLevel)
         == if p == 0 && level == maxLevel then [RootRecord(nodes)] else []
  {
  }

  /** At or below the target level the walk only descends: the root record
      is all it can write, and only for the root at the target. */
  lemma {:induction false} SilentBelowTarget(nodes: Nodes, p: nat, level: nat, maxLevel: nat)
    requires p < |nodes| && InBounds(nodes) && Forward(nodes)
    requires maxLevel <= level
    ensures Walk(nodes, p, level, maxLevel)
         == if p == 0 && level == maxLevel then [RootRecord(nodes)] else []
    decreases |nodes| - p, 9
  {
    var next := nodes[p].next;
    if next != 0 {
      ChildrenSilent(nodes, next, level, maxLevel, 8);
    }
  }

  lemma {:induction false} ChildrenSilent(nodes: Nodes, n: nat, level: nat, maxLevel: nat, k: nat)
    requires InBounds(nodes) && Forward(nodes) && n + 8 <= |nodes| && k <= 8
    requires maxLevel <= level
    ensures Children(nodes, n, level, maxLevel, k) == []
    decreases |nodes| - n + 1, k
  {
    if k > 0 {
      ChildrenSilent(nodes, n, level, maxLevel, k - 1);
      SilentBelowTarget(nodes, n + k - 1, level + 1, maxLevel);
    }
  }

  /** Target level 0 writes the root record alone: address 0, tag clear
      whatever bit 31 of the root holds, and the root's offset. */
  lemma RootLevel(nodes: Nodes)
    requires WellFormed(nodes)
    ensures Walk(nodes, 0, 0, 0) == [Node(Some(0), false, nodes[0].next)]
  {
    SilentBelowTarget(nodes, 0, 0, 0);
  }

  /** Before the loop over a brick nothing of it is written. */
  lemma NoChildrenWritten(start: seq<Entry>, nodes: Nodes, n: nat, level: nat, maxLevel: nat)
    requires InBounds(nodes) && n + 8 <= |nodes|
    requires level < maxLevel || Forward(nodes)
    ensures start == start + Children(nodes, n, level, maxLevel, 0)
  {
    AppendNil(start);
  }

  /** The loop step at the target level: writing child `i`'s record
      extends the log by one child. */
  lemma RecordWritten(start: seq<Entry>, before: seq<Entry>, after: seq<Entry>,
                      nodes: Nodes, n: nat, level: nat, maxLevel: nat, i: nat, flagged: bool, next: nat)
    requires InBounds(nodes) && n + 8 <= |nodes| && i < 8
    requires level + 1 == maxLevel
    requires before == start + Children(nodes, n, level, maxLevel, i)
    requires nodes[n + i] == NodeFields(flagged, next)
    requires after == before + [PrintNode(n + i, flagged, next, i == 0)]
    ensures after == start + Children(nodes, n, level, maxLevel, i + 1)
  {
    ChildrenRecordStep(nodes, n, level, maxLevel, i);
    AppendAssoc(start, Children(nodes, n, level, maxLevel, i), [PrintNode(n + i, flagged, next, i == 0)]);
  }

  /** The loop step above the target level: walking child `i` extends the
      log by one child. */
  lemma SubtreeWritten(start: seq<Entry>, before: seq<Entry>, after: seq<Entry>,
                       nodes: Nodes, n: nat, level: nat, maxLevel: nat, i: nat)
    requires InBounds(nodes) && n + 8 <= |nodes| && i < 8
    requires level < maxLevel || Forward(nodes)
    requires level + 1 != maxLevel
    requires before == start + Children(nodes, n, level, maxLevel, i)
    requires after == before + Walk(nodes, n + i, level + 1, maxLevel)
    ensures after == start + Children(nodes, n, level, maxLevel, i + 1)
  {
    ChildrenStep(nodes, n, level, maxLevel, i);
    AppendAssoc(start, Children(nodes, n, level, maxLevel, i), Walk(nodes, n + i, level + 1, maxLevel));
  }

  /** What `TraverseOctree` writes for a node without children adds up to
      its walk. */
  lemma LeafWritten(before: seq<Entry>, after: seq<Entry>, nodes: Nodes, p: nat, level: nat, maxLevel: nat)
    requires p < |nodes| && InBounds(nodes)
    requires level < maxLevel || Forward(nodes)
    requires nodes[p].next == 0
    requires after == if p == 0 && level == maxLevel then before + [RootRecord(nodes)] else before
    ensures after == before + Walk(nodes, p, level, maxLevel)
  {
    LeafWalk(nodes, p, level, maxLevel);
    if !(p == 0 && level == maxLevel) {
      AppendNil(before);
    }
  }

  /** What `TraverseOctree` writes for a node with children adds up to its
      walk: the optional root record, the brick's children, and the
      separator at the target level. */
  lemma InnerWritten(before: seq<Entry>, afterHead: seq<Entry>, afterBrick: seq<Entry>, after: seq<Entry>,
                     nodes: Nodes, p: nat, level: nat, maxLevel: nat)
    requires p < |nodes| && InBounds(nodes)
    requires level < maxLevel || Forward(nodes)
    requires nodes[p].next != 0
    requires afterHead == if p == 0 && level == maxLevel then before + [RootRecord(nodes)] else before
    requires afterBrick == afterHead + Children(nodes, nodes[p].next, level, maxLevel, 8)
    requires after == if level + 1 == maxLevel then afterBrick + [BrickSep] else afterBrick
    ensures after == before + Walk(nodes, p, level, maxLevel)
  {
    var head := if p == 0 && level == maxLevel then [RootRecord(nodes)] else [];
    var children := Children(nodes, nodes[p].next, level, maxLevel, 8);
    var tail := if level + 1 == maxLevel then [BrickSep] else [];
    if !(p == 0 && level == maxLevel) {
      AppendNil(before);
    }
    if level + 1 != maxLevel {
      AppendNil(afterBrick);
    }
    WalkInner(nodes, p, level, maxLevel);
    AppendAssoc4(before, head, children, tail);
  }

  lemma AppendNil<T>(a: seq<T>)
    ensures a + [] == a
  {
  }

  lemma AppendAssoc4<T>(a: seq<T>, b: seq<T>, c: seq<T>, d: seq<T>)
    ensures a + b + c + d == a + (b + c + d)
  {
  }

  /** Reads word `i` of the pool and splits it with the two masks. */
  method ReadNode(pool: Pool, i: nat) returns (flagged: bool, next: nat)
    requires i < |pool|
    ensures Decoded(pool)[i] == NodeFields(flagged, next)
  {
    flagged := Flagged(pool[i]);
    next := Offset(pool[i]);
  }

  /** Reads the words of the pool, decoding each one as it goes, and
      writes `Walk` of the decoded pool to the log. */
  method TraverseOctree(log: Log, pool: Pool, p: nat, level: nat, maxLevel: nat)
    requires p < |pool| && InBounds(Decoded(pool))
    requires level < maxLevel || Forward(Decoded(pool))
    modifies log
    ensures log.entries == old(log.entries) + Walk(Decoded(pool), p, level, maxLevel)
    decreases Rank(level, maxLevel), if level < maxLevel then 0 else |pool| - p
  {
    ghost var nodes := Decoded(pool);
    var _, next := ReadNode(pool, p);
    if p == 0 && level == maxLevel {
      log.Write(PrintNode(0, false, next, true));
    }
    ghost var afterHead := log.entries;
    if next == 0 {
      LeafWritten(old(log.entries), afterHead, nodes, p, level, maxLevel);
      return;
    }
    NoChildrenWritten(afterHead, nodes, next, level, maxLevel);
    for i := 0 to 8
      invariant log.entries == afterHead + Children(nodes, next, level, maxLevel, i)
    {
      var child := next + i;
      ghost var before := log.entries;
      if level + 1 == maxLevel {
        var childFlagged, childNext := ReadNode(pool, child);
        log.Write(PrintNode(child, childFlagged, childNext, i == 0));
        RecordWritten(afterHead, before, log.entries, nodes, next, level, maxLevel, i, childFlagged, childNext);
      } else {
        TraverseOctree(log, pool, child, level + 1, maxLevel);
        SubtreeWritten(afterHead, before, log.entries, nodes, next, level, maxLevel, i);
      }
    }
    ghost var afterBrick := log.entries;
    if level + 1 == maxLevel {
      log.Write(BrickSep);
    }
    InnerWritten(old(log.entries), afterHead, afterBrick, log.entries, nodes, p, level, maxLevel);
  }
}
