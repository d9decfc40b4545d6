/** The node pool as the host reads it back: a sequence of packed node
    words, index 0 being the root node. */
module NodePool {
  import opened NodeWord

  type Pool = seq<bv32>

  /** The child-brick offset of a node word as a pool index; 0 means "no
      children". */
  function Offset(w: bv32): nat
  {
    NextField(w) as nat
  }

  /** What the walk reads from a node word: its tag and the pool index of
      its child brick. */
  datatype NodeFields = NodeFields(flagged: bool, next: nat)

  function Decode(w: bv32): NodeFields
  {
    NodeFields(Flagged(w), Offset(w))
  }

  /** The node pool with every word decoded. */
  type Nodes = seq<NodeFields>

  function Decoded(pool: Pool): (nodes: Nodes)
    ensures |nodes| == |pool|
  {
    seq(|pool|, i requires 0 <= i < |pool| => Decode(pool[i]))
  }

  /** Every child brick lies inside the pool: the walk reads the eight
      words at `next .. next + 7` without checking them. Stated for every
      word, reachable from the root or not. */
  predicate InBounds(nodes: Nodes)
  {
    forall i :: 0 <= i < |nodes| ==> nodes[i].next == 0 || nodes[i].next + 8 <= |nodes|
  }

  /** Every child brick lies after its parent. This rules out cycles; it
      is stronger than the finiteness the walk needs, which only concerns
      the nodes reachable from the root. */
  predicate Forward(nodes: Nodes)
  {
    forall i :: 0 <= i < |nodes| ==> nodes[i].next == 0 || i < nodes[i].next
  }

  /** A non-empty pool whose bricks are all in bounds and placed after
      their parents. */
  predicate WellFormed(nodes: Nodes)
  {
    0 < |nodes| && InBounds(nodes) && Forward(nodes)
  }

  /** Packing a tag and an offset and reading the word back as a pool
      index recovers the offset. */
  lemma OffsetEncode(flagged: bool, next: bv32)
    requires next & !NextMask == 0
    ensures Flagged(Encode(flagged, next)) == flagged
    ensures Offset(Encode(flagged, next)) == next as nat
  {
    DecodeEncode(flagged, next);
  }

  /** Bit 30 changes neither the tag nor the pool index of the children. */
  lemma OffsetIgnoresBit30(w: bv32)
    ensures Flagged(w ^ Bit30) == Flagged(w)
    ensures Offset(w ^ Bit30) == Offset(w)
  {
    Bit30Ignored(w);
  }

  /** Two pools that differ at most in bit 30 of some words decode to the
      same nodes, so nothing the walk or the dumps write depends on it. */
  lemma DecodedIgnoresBit30(pool: Pool, other: Pool)
    requires |other| == |pool|
    requires forall i :: 0 <= i < |pool| ==> other[i] == pool[i] || other[i] == pool[i] ^ Bit30
    ensures Decoded(other) == Decoded(pool)
  {
    forall i | 0 <= i < |pool|
      ensures Decoded(other)[i] == Decoded(pool)[i]
    {
      OffsetIgnoresBit30(pool[i]);
    }
  }
}
