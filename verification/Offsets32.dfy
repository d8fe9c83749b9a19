/** The position arithmetic of CryptFile in the 32-bit unsigned integers it is computed in. */
module Offsets32 {
  import opened CryptLayout

  const RANGE := 0x1_0000_0000

  /** The products and sums are 32 bits wide before they are widened. */
  function Pos32(l: Layout, k: nat): nat {
    l.SeqnumToPos(k) % RANGE
  }

  function Raw32(l: Layout, k: nat): nat {
    l.SeqnumToRaw(k) % RANGE
  }

  lemma {:induction false} RawChunkOf(l: Layout, k: nat, p: nat) returns (j: nat)
    requires l.Valid() && l.chunkMax > 0 && p < l.SeqnumToRaw(k)
    ensures j < k && l.SeqnumToRaw(j) <= p < l.SeqnumToRaw(j + 1)
  {
    NextChunk(l, k - 1);
    if p >= l.SeqnumToRaw(k - 1) {
      j := k - 1;
    } else {
      j := RawChunkOf(l, k - 1, p);
    }
  }

  /** A packed chunk is where it belongs exactly if it begins below 4 GiB; any later chunk is written over, and read
      from, the bytes of an earlier one. */
  lemma RawOffsetWraps(l: Layout, k: nat)
    requires l.Valid() && l.chunkMax > 0
    ensures Raw32(l, k) == l.SeqnumToRaw(k) <==> l.SeqnumToRaw(k) < 0x1_0000_0000
    ensures l.SeqnumToRaw(k) >= 0x1_0000_0000 ==>
      exists j: nat :: j < k && l.SeqnumToRaw(j) <= Raw32(l, k) < l.SeqnumToRaw(j + 1)
  {
    if l.SeqnumToRaw(k) >= RANGE {
      var j := RawChunkOf(l, k, Raw32(l, k));
    }
  }

  lemma {:induction false} PosChunkOf(l: Layout, k: nat, p: nat) returns (j: nat)
    requires l.Valid() && l.chunkMax > 0 && p < l.SeqnumToPos(k)
    ensures j < k && l.SeqnumToPos(j) <= p < l.SeqnumToPos(j + 1)
  {
    NextChunk(l, k - 1);
    if p >= l.SeqnumToPos(k - 1) {
      j := k - 1;
    } else {
      j := PosChunkOf(l, k - 1, p);
    }
  }

  /** The same in the plaintext: the position of a chunk at or past 4 GiB is taken for one inside an earlier chunk. */
  lemma PosWraps(l: Layout, k: nat)
    requires l.Valid() && l.chunkMax > 0
    ensures Pos32(l, k) == l.SeqnumToPos(k) <==> l.SeqnumToPos(k) < 0x1_0000_0000
    ensures l.SeqnumToPos(k) >= 0x1_0000_0000 ==>
      exists j: nat :: j < k && l.SeqnumToPos(j) <= Pos32(l, k) < l.SeqnumToPos(j + 1)
  {
    if l.SeqnumToPos(k) >= RANGE {
      var j := PosChunkOf(l, k, Pos32(l, k));
    }
  }

  /** Chunks of 64 KiB with their overhead: chunk 65536 begins where chunk 0 does. */
  lemma ChunkOverChunk()
    ensures Raw32(Layout(0, 0xFFE0, 0x20), 0x1_0000) == Raw32(Layout(0, 0xFFE0, 0x20), 0)
  {
  }
}
