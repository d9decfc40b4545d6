# Octree node-pool debug reader

A model of the host-side debug reader of the sparse voxel octree in the
voxel cone tracing renderer's `OctreeVisPass`. The GPU keeps the octree in a
node pool. Each node's `next` word packs two fields:

- bit 31 is the "flagged" tag;
- bits 0–29 are the pool index of the node's child brick, where 0 means
  "no children";
- bit 30 is read by neither mask.

A brick is 8 consecutive nodes, and pool index 0 is the root. The reader
maps the pool, decodes words with the two masks and writes what it finds
to the debug log in two ways:

- `debugNodePool` lists the first 100 words, one line each.
- `debugNodePool_Octree` prints the octree level by level. For each level
  it runs the recursive `traverseOctree`, which descends from the root to
  the nodes one level above the target. It then prints the bricks of those
  nodes, with the address only on the first record of each brick and a
  gap after each brick. Eight newlines close each level.

The model is split into modules:

- `NodeWord` (node_word.dfy): the packed word and its two masks, on `bv32`.
  - `Encode` is an independent packing function that serves as the partner
    of the masks.
  - The round trips between them are proved, as is the fact that bit 30 is
    ignored.
- `NodePool` (node_pool.dfy): the pool as a `seq<bv32>` and its decoded
  view.
  - The decoded view is a sequence of `NodeFields(flagged, next)`.
  - `InBounds` asks that every child brick lie inside the pool. The code
    relies on this for the nodes it reaches but never checks it.
  - `Forward` asks that every child brick lie after its parent, which
    rules out cycles.
  - Both are stated for every word of the pool, reachable or not. See
    "## Left out".
- `OctreeLog` (octree_log.dfy): the log as a class whose `entries`
  sequence each `Write` extends.
  - The log holds abstract records instead of formatted text: a header, a
    node record with an optional address, a brick gap, a bare newline and
    a flat-dump line.
  - `PrintNode` is `printNode`. What it promises, the address on the first
    record of a brick only, is stated by `BrickAt` and `TargetBrick`.
- `OctreeWalk` (octree_walk.dfy):
  - `Walk` and `Children` state what `traverseOctree` writes, as functions
    of the decoded pool.
  - `TraverseOctree` is the recursive method with its 8-step loop. It
    reads the raw words and appends to the log. Its contract says the
    records it appends are exactly `Walk` of the decoded pool.
  - The pool is a value the method only reads: its `modifies` clause
    names only the log.
- `LevelOrder` (level_order.dfy): an independent breadth-first definition
  of the octree's levels.
  - `Level(nodes, d)` lists the nodes at depth `d` in level order.
  - The proof shows that the depth-first walk with target level `L > 0`
    prints, in order, the brick of every node at depth `L - 1` that has
    children.
- `NodePoolDump` (node_pool_dump.dfy): the two drivers.
  - `DebugNodePoolOctree` is proved to write the header, then for each
    level from the root down the breadth-first contents of that level
    followed by eight newlines, then one final newline.
  - `DebugNodePool` is proved to write the header, the 100 decoded pool
    lines and a newline.

When the target level is 0, `traverseOctree` runs with `level == maxLevel`
from the start. It never meets `level + 1 == maxLevel`, so it descends to
every leaf and prints nothing but the root record. Its termination
therefore rests on the part of the tree reachable from the root being
finite. The model asks for `Forward` instead, which is stronger. For the
other target levels the depth bound is enough, and `TraverseOctree` asks
for `Forward` only when `level >= maxLevel`.

## Model

| member | source | states |
|---|---|---|
| NodeWord.FlaggedIsHighHalf | VoxelConeTracing/src/VoxelConeTracing/Raycasting/OctreeVisPass.cpp:251 | the tag read with `1 << 31` is set exactly when the word is at least 2^31, i.e. bit 31 alone decides it |
| NodeWord.NextFieldBound | VoxelConeTracing/src/VoxelConeTracing/Raycasting/OctreeVisPass.cpp:250 | the offset read with `0x3FFFFFFF` is at most 2^30 - 1 |
| NodeWord.DecodeEncode | VoxelConeTracing/src/VoxelConeTracing/Raycasting/OctreeVisPass.cpp:250-251 | for every tag and every 30-bit offset, packing them and reading the word back with the two masks returns both unchanged |
| NodeWord.EncodeDecode | VoxelConeTracing/src/VoxelConeTracing/Raycasting/OctreeVisPass.cpp:250-251 | repacking the two fields read from any word gives back that word with bit 30 cleared: the masks lose bit 30 and nothing else |
| NodeWord.EncodeClearsBit30 | VoxelConeTracing/src/VoxelConeTracing/Raycasting/OctreeVisPass.cpp:250-251 | a word packed from a tag and a 30-bit offset has bit 30 clear |
| NodeWord.Bit30Ignored | VoxelConeTracing/src/VoxelConeTracing/Raycasting/OctreeVisPass.cpp:250-251 | flipping bit 30 of a word changes neither the tag nor the offset |
| NodePool.OffsetEncode | VoxelConeTracing/src/VoxelConeTracing/Raycasting/OctreeVisPass.cpp:211-212 | the tag and the child-brick pool index read back from a packed word are the ones packed into it |
| NodePool.OffsetIgnoresBit30 | VoxelConeTracing/src/VoxelConeTracing/Raycasting/OctreeVisPass.cpp:269-270 | flipping bit 30 changes neither the tag nor the child-brick index read from a word |
| NodePool.DecodedIgnoresBit30 | VoxelConeTracing/src/VoxelConeTracing/Raycasting/OctreeVisPass.cpp:219-221 | two pools that differ only in bit 30 of some words decode to the same nodes, so neither dump can show bit 30 |
| OctreeWalk.ReadNode | VoxelConeTracing/src/VoxelConeTracing/Raycasting/OctreeVisPass.cpp:269-270 | reading word `i` with the two masks gives the tag and the offset of node `i` of the decoded pool |
| OctreeWalk.TraverseOctree | VoxelConeTracing/src/VoxelConeTracing/Raycasting/OctreeVisPass.cpp:249-283 | the recursive walk appends to the log exactly `Walk` of the decoded pool and changes nothing else; with the lemmas below this is one record per node of the target level, brick by brick |
| OctreeWalk.LeafWalk | VoxelConeTracing/src/VoxelConeTracing/Raycasting/OctreeVisPass.cpp:259-261 | a node whose offset is 0 writes nothing for its subtree, only the root record when it is the root at the target level |
| OctreeWalk.ChildrenStep | VoxelConeTracing/src/VoxelConeTracing/Raycasting/OctreeVisPass.cpp:263-276 | above the target, the output for the first `k + 1` children of the brick at pool index `n` is that of the first `k` followed by the walk of pool index `n + k`, one level deeper |
| OctreeWalk.ChildrenRecordStep | VoxelConeTracing/src/VoxelConeTracing/Raycasting/OctreeVisPass.cpp:265-272 | one level above the target, the output for the first `k + 1` children is that of the first `k` followed by the record of pool index `n + k`, addressed only when `k == 0` |
| OctreeWalk.ChildrenAtTarget | VoxelConeTracing/src/VoxelConeTracing/Raycasting/OctreeVisPass.cpp:265-276 | one level above the target, the first `k` children write the first `k` records of the brick in child order |
| OctreeWalk.BrickAt | VoxelConeTracing/src/VoxelConeTracing/Raycasting/OctreeVisPass.cpp:229-236 | record `i` of a brick is node `n + i`'s tag and offset, with address `n` on record 0 and no address on records 1 to 7 |
| OctreeWalk.TargetBrick | VoxelConeTracing/src/VoxelConeTracing/Raycasting/OctreeVisPass.cpp:265-282 | one level above the target, a node with children at `next` writes exactly 9 entries: for `i` in 0..7 the record of pool index `next + i` with that node's decoded tag and offset, the address `next` on record 0 only, then one brick gap |
| OctreeWalk.SilentBelowTarget | VoxelConeTracing/src/VoxelConeTracing/Raycasting/OctreeVisPass.cpp:255-275 | at or below the target level the walk writes at most the root record, and that only for the root at the target level |
| OctreeWalk.RootLevel | VoxelConeTracing/src/VoxelConeTracing/Raycasting/OctreeVisPass.cpp:255-257 | target level 0 writes the single record address 0, tag false whatever bit 31 of the root holds, and the root's offset |
| LevelOrder.WalkAboveTarget | VoxelConeTracing/src/VoxelConeTracing/Raycasting/OctreeVisPass.cpp:263-282 | one level above the target, the walk of a node writes its brick and one gap, or nothing when its offset is 0 |
| LevelOrder.WalkLevels | VoxelConeTracing/src/VoxelConeTracing/Raycasting/OctreeVisPass.cpp:273-275 | the walk of node `p`, `j + 1` levels above the target, writes the bricks of the nodes `j` levels below `p` in level order: each recursive call goes exactly one level deeper |
| LevelOrder.ChildrenLevels | VoxelConeTracing/src/VoxelConeTracing/Raycasting/OctreeVisPass.cpp:265-276 | the first `k` children of a brick, walked `j + 1` levels above the target, write the bricks of the nodes `j` levels below pool indices `n .. n + k - 1` |
| LevelOrder.BricksNoAddressZero | VoxelConeTracing/src/VoxelConeTracing/Raycasting/OctreeVisPass.cpp:268-272 | no record in the bricks of any list of nodes carries address 0: record 0 of a brick carries the brick's offset, which is not 0, and the others carry none |
| LevelOrder.NoRootRecordAbove | VoxelConeTracing/src/VoxelConeTracing/Raycasting/OctreeVisPass.cpp:255-261 | for every target level above 0 the root record is not written, and no record written carries address 0; a root without children writes nothing, otherwise the walk writes its children and, for level 1, one gap |
| LevelOrder.NoAddressZeroAbove | VoxelConeTracing/src/VoxelConeTracing/Raycasting/OctreeVisPass.cpp:265-282 | for every target level above 0, no record the walk from the root writes carries address 0 |
| LevelOrder.WalkIsLevel | VoxelConeTracing/src/VoxelConeTracing/Raycasting/OctreeVisPass.cpp:249-283 | for every target level `L > 0`, the walk from the root writes the bricks of the nodes at depth `L - 1`, as listed breadth-first, and nothing else |
| NodePoolDump.WalkIsSection | VoxelConeTracing/src/VoxelConeTracing/Raycasting/OctreeVisPass.cpp:293 | the walk started by the driver for level `d` writes exactly the breadth-first contents of level `d` |
| NodePoolDump.SectionWritten | VoxelConeTracing/src/VoxelConeTracing/Raycasting/OctreeVisPass.cpp:293-301 | one driver iteration, the walk and eight newlines, appends the section of its level |
| NodePoolDump.LevelsNext | VoxelConeTracing/src/VoxelConeTracing/Raycasting/OctreeVisPass.cpp:291-302 | the sections of levels `0 .. d` are those of `0 .. d - 1` followed by level `d` and eight newlines |
| NodePoolDump.DebugNodePoolOctree | VoxelConeTracing/src/VoxelConeTracing/Raycasting/OctreeVisPass.cpp:285-306 | the driver appends the header, then for each level `0 .. numLevels - 1` in increasing order its breadth-first contents and eight newlines, then one newline; with no levels it demands nothing of the pool |
| NodePoolDump.EmptyDump | VoxelConeTracing/src/VoxelConeTracing/Raycasting/OctreeVisPass.cpp:291-304 | an octree with no levels dumps only the header and one newline, whatever the pool holds |
| NodePoolDump.SectionHasNoBreaks | VoxelConeTracing/src/VoxelConeTracing/Raycasting/OctreeVisPass.cpp:255-282 | no level's output contains a bare newline |
| NodePoolDump.DumpBreaks | VoxelConeTracing/src/VoxelConeTracing/Raycasting/OctreeVisPass.cpp:294-304 | the octree dump holds exactly `8 * numLevels + 1` bare newlines, so the level sections can be told apart |
| NodePoolDump.SectionsPrefix | VoxelConeTracing/src/VoxelConeTracing/Raycasting/OctreeVisPass.cpp:291-302 | the sections for fewer levels are a prefix of those for more: levels come out in increasing order |
| NodePoolDump.FlatDumpLine | VoxelConeTracing/src/VoxelConeTracing/Raycasting/OctreeVisPass.cpp:218-222 | the flat dump has 102 entries, and entry `i + 1`, for `i` below 100, is index `i` with bit 31 and bits 0 to 29 of word `i` |
| NodePoolDump.FlatDumpIgnoresRest | VoxelConeTracing/src/VoxelConeTracing/Raycasting/OctreeVisPass.cpp:218 | words past the first 100, and how many there are, do not change the flat dump |
| NodePoolDump.DebugNodePool | VoxelConeTracing/src/VoxelConeTracing/Raycasting/OctreeVisPass.cpp:210-226 | the flat dump appends the header, the decoded lines of pool words 0 to 99 in order, then one newline |

## Left out

- OctreeWalk.TraverseOctree: requires `n + 8 <= |pool|` for the nonzero
  offset `n` of EVERY word, reachable from the root or not. The C++ only
  needs this for the nodes it reaches (it reads a child brick only after
  reading its parent), so the model does not cover pools whose unreachable
  words hold out-of-range offsets. The rule is stated over the whole pool
  to keep the walk's termination and bounds proofs local to one node.
- OctreeWalk.TraverseOctree: at or below the target level it also requires
  every child brick of every word to lie after its parent (`Forward`). The
  C++ only needs the part of the tree reachable from the root to be finite
  (acyclic), so the model does not cover acyclic pools that place a brick
  before its parent; on a reachable cycle the C++ walk does not terminate.
- NodePoolDump.DebugNodePoolOctree: when `numLevels > 0` it requires a
  non-empty pool meeting both whole-pool rules above, which is stronger
  than the C++ needs, for the same reasons. With `numLevels == 0` it
  requires nothing.
- NodePoolDump.DebugNodePool: requires at least 100 words in the pool,
  because the loop reads 100 entries whatever the pool holds, and reading
  past the mapped buffer is undefined.
- The GL buffer binding and mapping (`bindBuffer`, `glMapBuffer`,
  `glUnmapBuffer`) are not modelled. The mapped buffer is the `pool`
  parameter.
- The `kore::Log` singleton and its printf-style formatting are not
  modelled. The log is a sequence of abstract records, and the tab,
  separator and number formatting of each line is not modelled.
- `printTabsForLevel` is left out: its body is commented out, so it writes
  nothing.
- The `OctreeVisPass` constructor and the other debug helpers
  (`debugNextFreeAC`, `debugVoxelIndexAC`, `debugVoxelFragmentList`,
  `debugIndirectCmdBuff`) are left out. They are engine set-up, or raw reads
  of a counter or buffer with nothing to state.
- `SNode` is not part of this model beyond its `next` word. Pool indices
  count whole nodes, as the C++ pointer arithmetic does.
- The number of levels is a parameter. The scene object that supplies it
  is not part of this model.
- `uint` wrap-around of `level + 1`, `next + iChild` and the loop counters
  is not modelled. Offsets are below 2^30 and depths are small, so none of
  these sums can wrap.
- The tag mask is written `1 << 31` on a signed `int` in the source. It is
  modelled as the intended value `0x80000000`, which is what that
  expression produces on the compilers the renderer targets.
