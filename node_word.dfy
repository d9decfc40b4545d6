/** Packed octree node words: bit 31 is the "flagged" tag, bits 0..29 the
    offset of the node's child brick in the node pool; bit 30 is unused. */
module NodeWord {

  /** Selects the child-brick offset, bits 0..29. */
  const NextMask: bv32 := 0x3FFF_FFFF
  /** Selects the tag, bit 31 (written `1 << 31` in the C++ renderer). */
  const TagMask: bv32 := 0x8000_0000
  /** The bit that neither mask selects. */
  const Bit30: bv32 := 0x4000_0000

  /** The tag bit of a node word, as a boolean. */
  predicate Flagged(w: bv32)
  {
    w & TagMask != 0
  }

  /** The 30-bit offset field of a node word. */
  function NextField(w: bv32): bv32
  {
    w & NextMask
  }

  /** Packs a tag and a 30-bit offset into a node word, leaving bit 30
      clear. */
  function Encode(flagged: bool, next: bv32): (w: bv32)
    requires next & !NextMask == 0
  {
    (if flagged then TagMask else 0) | next
  }

  /** Encoding never sets bit 30. */
  lemma EncodeClearsBit30(flagged: bool, next: bv32)
    requires next & !NextMask == 0
    ensures Encode(flagged, next) & Bit30 == 0
  {
  }

  /** The tag is set exactly when the word, read as unsigned, is at least 2^31. */
  lemma FlaggedIsHighHalf(w: bv32)
    ensures Flagged(w) <==> w >= TagMask
  {
  }

  /** The offset field never exceeds 2^30 - 1. */
  lemma NextFieldBound(w: bv32)
    ensures NextField(w) <= NextMask
  {
  }

  lemma FlaggedEncode(flagged: bool, next: bv32)
    requires next & !NextMask == 0
    ensures Flagged(Encode(flagged, next)) == flagged
  {
  }

  lemma NextFieldEncode(flagged: bool, next: bv32)
    requires next & !NextMask == 0
    ensures NextField(Encode(flagged, next)) == next
  {
    if flagged {
      assert Encode(flagged, next) == TagMask | next;
      assert (TagMask | next) & NextMask == next;
    } else {
      assert Encode(flagged, next) == next;
      assert next & NextMask == next;
    }
  }

  /** Decoding recovers what was packed. */
  lemma DecodeEncode(flagged: bool, next: bv32)
    requires next & !NextMask == 0
    ensures Flagged(Encode(flagged, next)) == flagged
    ensures NextField(Encode(flagged, next)) == next
  {
    FlaggedEncode(flagged, next);
    NextFieldEncode(flagged, next);
  }

  /** Packing the decoded fields gives back the word with bit 30 cleared:
      the two masks lose bit 30 and nothing else. */
  lemma EncodeDecode(w: bv32)
    ensures Encode(Flagged(w), NextField(w)) == w & !Bit30
  {
    if w & TagMask != 0 {
      assert Encode(true, w & NextMask) == TagMask | (w & NextMask);
      assert TagMask | (w & NextMask) == w & !Bit30;
    } else {
      assert Encode(false, w & NextMask) == w & NextMask;
      assert w & NextMask == w & !Bit30;
    }
  }

  lemma FlaggedIgnoresBit30(w: bv32)
    ensures Flagged(w ^ Bit30) == Flagged(w)
  {
  }

  lemma NextFieldIgnoresBit30(w: bv32)
    ensures NextField(w ^ Bit30) == NextField(w)
  {
  }

  /** Bit 30 affects neither decoded field. */
  lemma Bit30Ignored(w: bv32)
    ensures Flagged(w ^ Bit30) == Flagged(w)
    ensures NextField(w ^ Bit30) == NextField(w)
  {
    FlaggedIgnoresBit30(w);
    NextFieldIgnoresBit30(w);
  }
}
