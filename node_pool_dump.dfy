/** The two node-pool dumps: the level-by-level driver of the walk and
    the flat listing of the first 100 pool words. */
module NodePoolDump {
  import opened NodeWord
  import opened NodePool
  import opened OctreeLog
  import opened OctreeWalk
  import opened LevelOrder

  /** `k` bare newlines. */
  function Newlines(k: nat): seq<Entry>
  {
    seq(k, _ => LineBreak)
  }

  /** The sections `ss` in order, each closed by eight newlines. */
  function Join(ss: seq<seq<Entry>>): seq<Entry>
  {
    if ss == [] then [] else Join(ss[..|ss| - 1]) + ss[|ss| - 1] + Newlines(8)
  }

  /** What level `d` of the octree looks like, stated breadth-first: the
      root record alone for the root level, and otherwise the brick of
      every node at depth `d - 1` that has children, in level order. */
  function LevelSection(nodes: Nodes, d: nat): seq<Entry>
    requires WellFormed(nodes)
  {
    if d == 0 then [RootRecord(nodes)] else Bricks(nodes, Level(nodes, d - 1))
  }

  /** Levels `0 .. n - 1`, from the root down. */
  function Levels(nodes: Nodes, n: nat): seq<seq<Entry>>
    requires n == 0 || WellFormed(nodes)
  {
    seq(n, d requires 0 <= d < n => LevelSection(nodes, d))
  }

  /** The whole level-by-level dump of an octree with `numLevels` levels. */
  function OctreeDump(nodes: Nodes, numLevels: nat): seq<Entry>
    requires numLevels == 0 || WellFormed(nodes)
  {
    [Header] + Join(Levels(nodes, numLevels)) + [LineBreak]
  }

  /** The walk from the root with target level `d` prints exactly level
      `d` of the octree. */
  lemma WalkIsSection(nodes: Nodes, d: nat)
    requires WellFormed(nodes)
    ensures Walk(nodes, 0, 0, d) == LevelSection(nodes, d)
  {
    if d == 0 {
      RootLevel(nodes);
    } else {
      WalkIsLevel(nodes, d);
    }
  }

  /** Eight single newlines written one after the other. */
  lemma EightBreaks(a: seq<Entry>)
    ensures a + [LineBreak] + [LineBreak] + [LineBreak] + [LineBreak]
              + [LineBreak] + [LineBreak] + [LineBreak] + [LineBreak] == a + Newlines(8)
  {
    assert [LineBreak] + [LineBreak] + [LineBreak] + [LineBreak]
         + [LineBreak] + [LineBreak] + [LineBreak] + [LineBreak] == Newlines(8);
  }

  /** One more level adds its section at the end. */
  lemma LevelsNext(nodes: Nodes, d: nat)
    requires WellFormed(nodes)
    ensures Join(Levels(nodes, d + 1)) == Join(Levels(nodes, d)) + LevelSection(nodes, d) + Newlines(8)
  {
    assert Levels(nodes, d + 1)[..d] == Levels(nodes, d);
  }

  /** The loop step of the driver: walking level `d` and writing eight
      newlines appends the section of level `d`. */
  lemma SectionWritten(start: seq<Entry>, before: seq<Entry>, afterWalk: seq<Entry>, after: seq<Entry>,
                       nodes: Nodes, d: nat)
    requires WellFormed(nodes)
    requires before == start + Join(Levels(nodes, d))
    requires afterWalk == before + Walk(nodes, 0, 0, d)
    requires after == afterWalk + [LineBreak] + [LineBreak] + [LineBreak] + [LineBreak]
                                + [LineBreak] + [LineBreak] + [LineBreak] + [LineBreak]
    ensures after == start + Join(Levels(nodes, d + 1))
  {
    WalkIsSection(nodes, d);
    EightBreaks(afterWalk);
    LevelsNext(nodes, d);
    AppendAssoc4(start, Join(Levels(nodes, d)), LevelSection(nodes, d), Newlines(8));
  }

  /** Writes the header, then for each level from the root down the walk of
      that level followed by eight newlines, then a final newline. With no
      levels it reads nothing from the pool. */
  method DebugNodePoolOctree(log: Log, pool: Pool, numLevels: nat)
    requires 0 < numLevels ==> WellFormed(Decoded(pool))
    modifies log
    ensures log.entries == old(log.entries) + OctreeDump(Decoded(pool), numLevels)
  {
    ghost var nodes := Decoded(pool);
    log.Write(Header);
    ghost var start := log.entries;
    for iLevel := 0 to numLevels
      invariant log.entries == start + Join(Levels(nodes, iLevel))
    {
      ghost var before := log.entries;
      TraverseOctree(log, pool, 0, 0, iLevel);
      ghost var afterWalk := log.entries;
      log.Write(LineBreak);
      log.Write(LineBreak);
      log.Write(LineBreak);
      log.Write(LineBreak);
      log.Write(LineBreak);
      log.Write(LineBreak);
      log.Write(LineBreak);
      log.Write(LineBreak);
      SectionWritten(start, before, afterWalk, log.entries, nodes, iLevel);
    }
    log.Write(LineBreak);
    AppendAssoc(old(log.entries), [Header], Join(Levels(nodes, numLevels)));
  }

  /** The number of bare newlines in `s`. */
  function Breaks(s: seq<Entry>): nat
  {
    if s == [] then 0 else (if s[0] == LineBreak then 1 else 0) + Breaks(s[1..])
  }

  lemma {:induction false} BreaksAppend(a: seq<Entry>, b: seq<Entry>)
    ensures Breaks(a + b) == Breaks(a) + Breaks(b)
  {
    if a != [] {
      assert (a + b)[1..] == a[1..] + b;
      BreaksAppend(a[1..], b);
    } else {
      assert a + b == b;
    }
  }

  lemma BreaksAppend3(a: seq<Entry>, b: seq<Entry>, c: seq<Entry>)
    ensures Breaks(a + b + c) == Breaks(a) + Breaks(b) + Breaks(c)
  {
    BreaksAppend(a, b);
    BreaksAppend(a + b, c);
  }

  lemma {:induction false} NoBreaks(s: seq<Entry>)
    requires forall i :: 0 <= i < |s| ==> s[i] != LineBreak
    ensures Breaks(s) == 0
  {
    if s != [] {
      NoBreaks(s[1..]);
    }
  }

  lemma {:induction false} BreaksNewlines(k: nat)
    ensures Breaks(Newlines(k)) == k
  {
    if k > 0 {
      assert Newlines(k) == Newlines(k - 1) + [LineBreak];
      BreaksAppend(Newlines(k - 1), [LineBreak]);
      BreaksNewlines(k - 1);
    }
  }

  /** Joining sections that hold no newline gives exactly eight newlines
      per section. */
  lemma {:induction false} JoinBreaks(ss: seq<seq<Entry>>)
    requires forall i :: 0 <= i < |ss| ==> Breaks(ss[i]) == 0
    ensures Breaks(Join(ss)) == 8 * |ss|
  {
    if ss != [] {
      var k := |ss| - 1;
      JoinBreaks(ss[..k]);
      BreaksAppend3(Join(ss[..k]), ss[k], Newlines(8));
      BreaksNewlines(8);
    }
  }

  /** Joining a prefix of the sections gives a prefix of the output. */
  lemma {:induction false} JoinPrefix(ss: seq<seq<Entry>>, m: nat)
    requires m <= |ss|
    ensures Join(ss[..m]) <= Join(ss)
    decreases |ss|
  {
    if m < |ss| {
      var k := |ss| - 1;
      assert ss[..k][..m] == ss[..m];
      JoinPrefix(ss[..k], m);
      AppendAssoc(Join(ss[..k]), ss[k], Newlines(8));
      PrefixOfAppend(Join(ss[..k]), ss[k] + Newlines(8));
    } else {
      assert ss[..m] == ss;
    }
  }

  lemma PrefixOfAppend<T>(a: seq<T>, b: seq<T>)
    ensures a <= a + b
  {
    assert (a + b)[..|a|] == a;
  }

  /** The bricks of a level hold records and separators only. */
  lemma {:induction false} BricksHaveNoBreaks(nodes: Nodes, ps: seq<nat>)
    requires InBounds(nodes)
    ensures Breaks(Bricks(nodes, ps)) == 0
  {
    if ps != [] {
      var p := ps[0];
      if p < |nodes| && nodes[p].next != 0 {
        var b := Brick(nodes, nodes[p].next);
        forall i | 0 <= i < |b|
          ensures b[i] != LineBreak
        {
          BrickAt(nodes, nodes[p].next, i);
        }
        NoBreaks(b);
        BreaksAppend(b, [BrickSep]);
        assert Breaks([BrickSep]) == 0;
      }
      BricksHaveNoBreaks(nodes, ps[1..]);
      BreaksAppend(BrickOf(nodes, p), Bricks(nodes, ps[1..]));
    }
  }

  /** No level section contains a bare newline. */
  lemma SectionHasNoBreaks(nodes: Nodes, d: nat)
    requires WellFormed(nodes)
    ensures Breaks(LevelSection(nodes, d)) == 0
  {
    if d == 0 {
      assert Breaks([RootRecord(nodes)]) == 0;
    } else {
      BricksHaveNoBreaks(nodes, Level(nodes, d - 1));
    }
  }

  /** The dump closes every level with eight newlines and ends with one
      more, and none of its other entries is a newline: the levels can be
      told apart in the output. */
  lemma DumpBreaks(nodes: Nodes, numLevels: nat)
    requires WellFormed(nodes)
    ensures Breaks(OctreeDump(nodes, numLevels)) == 8 * numLevels + 1
  {
    var ls := Levels(nodes, numLevels);
    forall i | 0 <= i < |ls|
      ensures Breaks(ls[i]) == 0
    {
      SectionHasNoBreaks(nodes, i);
    }
    JoinBreaks(ls);
    BreaksAppend3([Header], Join(ls), [LineBreak]);
    assert Breaks([Header]) == 0;
    assert Breaks([LineBreak]) == 1;
  }

  /** Dumping fewer levels prints a prefix of the sections: levels come
      out in increasing order and a deeper octree only adds sections at
      the end. */
  lemma SectionsPrefix(nodes: Nodes, m: nat, n: nat)
    requires WellFormed(nodes) && m <= n
    ensures Join(Levels(nodes, m)) <= Join(Levels(nodes, n))
  {
    assert Levels(nodes, n)[..m] == Levels(nodes, m);
    JoinPrefix(Levels(nodes, n), m);
  }


  /** The lines of the flat dump for pool indices `0 .. k - 1`. */
  function PoolEntries(nodes: Nodes, k: nat): seq<Entry>
    requires k <= |nodes|
  {
    seq(k, i requires 0 <= i < k => PoolEntry(i, nodes[i].flagged, nodes[i].next))
  }

  /** The number of pool words the flat dump lists, whatever the pool
      holds. */
  const FlatDumpSize: nat := 100

  /** The flat dump: the header, one line for each of the first 100 pool
      words, a final newline. */
  function FlatDump(nodes: Nodes): seq<Entry>
    requires FlatDumpSize <= |nodes|
  {
    [Header] + PoolEntries(nodes, FlatDumpSize) + [LineBreak]
  }

  /** Line `i + 1` of the flat dump is word `i` split with the two masks:
      its index, bit 31 and bits 0 to 29. */
  lemma FlatDumpLine(pool: Pool, i: nat)
    requires FlatDumpSize <= |pool| && i < FlatDumpSize
    ensures |FlatDump(Decoded(pool))| == FlatDumpSize + 2
    ensures FlatDump(Decoded(pool))[i + 1] == PoolEntry(i, Flagged(pool[i]), NextField(pool[i]) as nat)
  {
    var nodes := Decoded(pool);
    assert FlatDump(nodes)[i + 1] == PoolEntries(nodes, FlatDumpSize)[i];
  }

  /** The flat dump lists the first 100 words only: words past them, and
      how many there are, do not change it. */
  lemma FlatDumpIgnoresRest(nodes: Nodes, more: Nodes)
    requires FlatDumpSize <= |nodes|
    ensures FlatDump(nodes + more) == FlatDump(nodes)
  {
    assert PoolEntries(nodes + more, FlatDumpSize) == PoolEntries(nodes, FlatDumpSize);
  }

  /** Writes the header, one line per pool word `0 .. 99`, and a final
      newline. */
  method DebugNodePool(log: Log, pool: Pool)
    requires FlatDumpSize <= |pool|
    modifies log
    ensures log.entries == old(log.entries) + FlatDump(Decoded(pool))
  {
    ghost var nodes := Decoded(pool);
    log.Write(Header);
    ghost var start := log.entries;
    for i := 0 to FlatDumpSize
      invariant log.entries == start + PoolEntries(nodes, i)
    {
      var flagged, nextValue := ReadNode(pool, i);
      log.Write(PoolEntry(i, flagged, nextValue));
      assert PoolEntries(nodes, i + 1) == PoolEntries(nodes, i) + [PoolEntry(i, flagged, nextValue)];
    }
    log.Write(LineBreak);
    AppendAssoc(old(log.entries), [Header], PoolEntries(nodes, FlatDumpSize));
  }
  /** An octree with no levels dumps the header and one newline, whatever
      the pool holds. */
  lemma EmptyDump(nodes: Nodes)
    ensures OctreeDump(nodes, 0) == [Header, LineBreak]
  {
    assert Levels(nodes, 0) == [];
  }
}
