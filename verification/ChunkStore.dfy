/** The state of an encrypted file seen as a value: the plaintext it stands for, the raw bytes, and the decrypted
    chunks held in memory. `Consistent` is the invariant that ties the three together; each lemma is one step of
    CryptFile that keeps it. */
module ChunkStore {
  import opened Wrappers
  import opened CryptLayout

  datatype Chunk = Chunk(
    seqnum: nat, dirty: bool, offset: nat, maxSize: nat, ciphertextSize: nat, content: seq<byte>)

  /** `data` are the raw bytes after the descriptor, of which the first `ct` are ciphertext; `last` is the number of
      the last chunk and `live` are the chunks in memory. */
  datatype Store = Store(
    l: Layout, c: Cipher, content: seq<byte>, data: seq<byte>, ct: nat, last: nat, live: map<nat, Chunk>)
  {
    ghost predicate Shape() {
      && l.Valid()
      && l.HasIndex(last)
      && l.SeqnumToPos(last) <= |content|
      && l.Fits(last, |content| - l.SeqnumToPos(last))
      && l.SeqnumToRaw(last) <= ct <= |data|
    }

    /** Number of raw bytes that chunk `k` occupies. */
    ghost function DiskSize(k: nat): nat
      requires Shape() && k <= last
    {
      if k < last then l.MaxPacked(k) else ct - l.SeqnumToRaw(last)
    }

    ghost function DiskBytes(k: nat): (r: seq<byte>)
      requires Shape() && k <= last
      ensures |r| == DiskSize(k)
    {
      DiskRange(this, k);
      data[l.SeqnumToRaw(k)..l.SeqnumToRaw(k) + DiskSize(k)]
    }

    ghost function Part(k: nat): (r: seq<byte>)
      requires Shape() && k <= last
      ensures l.Fits(k, |r|)
      ensures k < last ==> |r| == l.MaxPlain(k) && l.MaxPlain(k) != 0
      ensures k == last ==> |r| == |content| - l.SeqnumToPos(last)
    {
      if k < last then ChunkOrder(l, k, last); Slice(l, content, k) else Slice(l, content, k)
    }

    /** The raw bytes alone give back the slice of chunk `k`; a chunk that was never written has no raw bytes. */
    ghost predicate OnDisk(k: nat)
      requires Shape() && k <= last
    {
      if DiskBytes(k) == [] then Part(k) == []
      else c.unpack(DiskBytes(k), k) == Some(Part(k)) && DiskSize(k) == c.packedLen(|Part(k)|)
    }

    ghost predicate ChunkOk(k: nat)
      requires Shape() && k <= last && k in live
    {
      var ch := live[k];
      && ch.seqnum == k && ch.maxSize == l.MaxPlain(k)
      && ch.content == Part(k) && ch.ciphertextSize == DiskSize(k)
    }

    /** Chunk `k` is not lost: memory agrees with the plaintext, and so does the disk unless the chunk is dirty. */
    ghost predicate Good(k: nat)
      requires Shape() && k <= last
    {
      && (k in live ==> ChunkOk(k))
      && ((k in live && live[k].dirty) || OnDisk(k))
    }

    ghost predicate ConsistentBut(x: int)
      ensures ConsistentBut(x) ==> Shape()
    {
      && Shape()
      && (forall k :: k in live ==> k <= last)
      && (forall k: nat :: k <= last && k != x ==> Good(k))
    }

    ghost predicate Consistent() {
      ConsistentBut(-1)
    }

    ghost predicate Clean() {
      forall k :: k in live ==> !live[k].dirty
    }
  }

  lemma ChunkGood(s: Store, k: nat)
    requires s.Consistent() && (k <= s.last || k in s.live)
    ensures k <= s.last && s.Good(k)
  {
  }

  lemma DiskRange(s: Store, k: nat)
    requires s.Shape() && k <= s.last
    ensures s.l.SeqnumToRaw(k) + s.DiskSize(k) <= s.ct
    ensures k < s.last ==> s.l.SeqnumToRaw(k) + s.DiskSize(k) <= s.l.SeqnumToRaw(s.last)
  {
    if k < s.last {
      ChunkOrder(s.l, k, s.last);
    }
  }

  /** Raw bytes of two chunks are disjoint. */
  lemma DiskApart(s: Store, j: nat, k: nat)
    requires s.Shape() && j < k <= s.last
    ensures s.l.SeqnumToRaw(j) + s.DiskSize(j) <= s.l.SeqnumToRaw(k)
  {
    ChunkOrder(s.l, j, s.last);
    if k < s.last {
      ChunkOrder(s.l, k, s.last);
    }
    ChunkOrder(s.l, j, k);
  }

  // ---------- steps ----------

  ghost predicate IsPacked(s: Store, k: nat, packed: seq<byte>)
    requires s.Shape() && k <= s.last
  {
    && s.c.unpack(packed, k) == Some(s.Part(k))
    && |packed| == s.c.packedLen(|s.Part(k)|)
  }

  ghost function AfterFlush(s: Store, k: nat, packed: seq<byte>): Store
    requires s.Shape() && k <= s.last && k in s.live && s.ChunkOk(k)
  {
    DiskRange(s, k);
    s.(data := Splice(s.data, s.l.SeqnumToRaw(k), packed),
       ct := s.ct + |packed| - s.live[k].ciphertextSize,
       live := s.live[k := s.live[k].(dirty := false, ciphertextSize := |packed|)])
  }

  lemma FlushedShape(s: Store, k: nat, packed: seq<byte>)
    requires s.c.Lawful(s.l)
    requires s.Shape() && k <= s.last && k in s.live && s.ChunkOk(k) && IsPacked(s, k, packed)
    ensures var t := AfterFlush(s, k, packed);
      && t.Shape()
      && (k < s.last ==> t.ct == s.ct && |packed| == s.l.MaxPacked(k) == s.DiskSize(k))
      && (k == s.last ==> t.ct == s.l.SeqnumToRaw(k) + |packed|)
      && t.Part(k) == s.Part(k) && t.DiskBytes(k) == packed
  {
    DiskRange(s, k);
    var t := AfterFlush(s, k, packed);
    assert t.Shape();
    assert t.DiskSize(k) == |packed|;
  }

  lemma FlushedOther(s: Store, k: nat, packed: seq<byte>, j: nat)
    requires s.c.Lawful(s.l)
    requires s.Shape() && k <= s.last && k in s.live && s.ChunkOk(k) && IsPacked(s, k, packed)
    requires j <= s.last && j != k
    ensures var t := AfterFlush(s, k, packed);
      t.Shape() && t.DiskSize(j) == s.DiskSize(j) && t.DiskBytes(j) == s.DiskBytes(j) && t.Part(j) == s.Part(j)
  {
    FlushedShape(s, k, packed);
    DiskRange(s, j);
    DiskRange(s, k);
    var at, raw, size := s.l.SeqnumToRaw(k), s.l.SeqnumToRaw(j), s.DiskSize(j);
    assert raw + size <= at || at + |packed| <= raw by {
      if j < k {
        DiskApart(s, j, k);
      } else {
        DiskApart(s, k, j);
        assert |packed| == s.DiskSize(k);
      }
    }
    SpliceApart(s.data, at, packed, raw, raw + size);
  }

  /** Writing a packed chunk over its raw bytes keeps every chunk and cleans this one. */
  lemma Flushed(s: Store, k: nat, packed: seq<byte>)
    requires s.c.Lawful(s.l) && s.Consistent() && k in s.live && IsPacked(s, k, packed)
    ensures s.Good(k) && s.ChunkOk(k)
    ensures var t := AfterFlush(s, k, packed);
      && t.Consistent() && t.OnDisk(k)
      && (k < s.last ==> t.ct == s.ct && |packed| == s.l.MaxPacked(k))
      && (k == s.last ==> t.ct == s.l.SeqnumToRaw(k) + |packed|)
      && t.Part(t.last) == s.Part(s.last)
      && t.DiskSize(t.last) == if k == s.last then s.c.packedLen(|s.Part(s.last)|) else s.DiskSize(s.last)
  {
    assert s.Good(k);
    FlushedShape(s, k, packed);
    var t := AfterFlush(s, k, packed);
    assert t.Good(k);
    forall j: nat | j <= t.last && j != k ensures t.Good(j) {
      assert s.Good(j);
      FlushedOther(s, k, packed, j);
    }
  }

  /** A chunk read from the raw file agrees with the plaintext. */
  lemma Loaded(s: Store, ch: Chunk)
    requires s.Consistent() && ch.seqnum <= s.last && ch.seqnum !in s.live
    requires ch.maxSize == s.l.MaxPlain(ch.seqnum) && !ch.dirty
    requires ch.content == s.Part(ch.seqnum) && ch.ciphertextSize == s.DiskSize(ch.seqnum)
    ensures s.(live := s.live[ch.seqnum := ch]).Consistent()
  {
    var t := s.(live := s.live[ch.seqnum := ch]);
    forall j: nat | j <= t.last ensures t.Good(j) {
      assert s.Good(j);
      assert t.DiskBytes(j) == s.DiskBytes(j);
    }
  }

  /** Offsets are no part of the invariant. */
  lemma Moved(s: Store, k: nat, offset: nat)
    requires s.Consistent() && k in s.live
    ensures s.(live := s.live[k := s.live[k].(offset := offset)]).Consistent()
  {
    var t := s.(live := s.live[k := s.live[k].(offset := offset)]);
    forall j: nat | j <= t.last ensures t.Good(j) {
      assert s.Good(j);
      assert t.DiskBytes(j) == s.DiskBytes(j);
    }
  }

  lemma Dirtied(s: Store, k: nat)
    requires s.Consistent() && k in s.live
    ensures s.(live := s.live[k := s.live[k].(dirty := true)]).Consistent()
  {
    var t := s.(live := s.live[k := s.live[k].(dirty := true)]);
    forall j: nat | j <= t.last ensures t.Good(j) {
      assert s.Good(j);
      assert t.DiskBytes(j) == s.DiskBytes(j);
    }
  }

  /** Any chunk may be put in memory for `k` as long as it is not relied on. */
  lemma LoadedAny(s: Store, ch: Chunk)
    requires s.Consistent() && ch.seqnum <= s.last
    ensures s.(live := s.live[ch.seqnum := ch]).ConsistentBut(ch.seqnum)
  {
    var t := s.(live := s.live[ch.seqnum := ch]);
    forall j: nat | j <= t.last && j != ch.seqnum ensures t.Good(j) {
      assert s.Good(j);
      assert t.DiskBytes(j) == s.DiskBytes(j);
    }
  }

  /** The size CryptFile reads for a chunk, cut at the end of the ciphertext, is the chunk's own. */
  lemma ReadSize(s: Store, k: nat)
    requires s.c.Lawful(s.l) && s.Consistent() && k <= s.last && k !in s.live
    ensures var limit := if s.l.MaxPlain(0) == 0 then s.ct + s.l.extra else s.l.MaxPacked(k);
      var raw := s.l.SeqnumToRaw(k);
      (if raw + limit > s.ct then s.ct - raw else limit) == s.DiskSize(k)
  {
    assert s.Good(k);
    DiskRange(s, k);
    if k == s.last && s.l.MaxPlain(0) != 0 && s.DiskBytes(k) != [] {
      assert s.DiskSize(k) <= s.l.MaxPacked(k);
    }
  }

  /** When the last chunk is full and clean, an empty chunk may follow it. */
  lemma Advanced(s: Store)
    requires s.c.Lawful(s.l) && s.Consistent()
    requires s.last in s.live ==> !s.live[s.last].dirty
    requires s.l.MaxPlain(s.last) != 0 && |s.content| == s.l.SeqnumToPos(s.last) + s.l.MaxPlain(s.last)
    ensures var t := s.(last := s.last + 1);
      && t.Consistent() && t.Part(t.last) == [] && t.DiskSize(t.last) == 0 && t.last !in t.live
  {
    var t := s.(last := s.last + 1);
    NextChunk(s.l, s.last);
    assert s.Good(s.last);
    assert |s.Part(s.last)| == s.l.MaxPlain(s.last);
    assert s.DiskSize(s.last) == s.l.MaxPacked(s.last);
    assert t.Shape();
    forall j: nat | j <= t.last ensures t.Good(j) {
      if j <= s.last {
        assert s.Good(j);
        assert t.DiskBytes(j) == s.DiskBytes(j);
        assert t.Part(j) == s.Part(j);
      }
    }
  }

  /** Forgetting a chunk loses nothing exactly when the disk already has it. This is the question at every eviction,
      and whenever a file without a cache leaves a chunk. */
  lemma Dropped(s: Store, k: nat)
    requires s.Consistent() && k in s.live
    ensures k <= s.last
    ensures s.(live := s.live - {k}).Consistent() <==> s.OnDisk(k)
  {
    var t := s.(live := s.live - {k});
    assert t.DiskBytes(k) == s.DiskBytes(k);
    assert t.Consistent() ==> t.Good(k);
    if s.OnDisk(k) {
      forall j: nat | j <= t.last ensures t.Good(j) {
        assert s.Good(j);
        assert t.DiskBytes(j) == s.DiskBytes(j);
      }
    }
  }

  /** Forgetting clean chunks only. */
  lemma Cleared(s: Store)
    requires s.Consistent() && s.Clean()
    ensures s.(live := map[]).Consistent()
  {
    var t := s.(live := map[]);
    forall j: nat | j <= t.last ensures t.Good(j) {
      assert s.Good(j);
      assert t.DiskBytes(j) == s.DiskBytes(j);
    }
  }

  ghost function AfterWrite(s: Store, k: nat, o: nat, d: seq<byte>, ch: Chunk): Store
    requires s.l.SeqnumToPos(k) + o <= |s.content|
  {
    s.(content := Splice(s.content, s.l.SeqnumToPos(k) + o, d), live := s.live[k := ch])
  }

  lemma WrittenShape(s: Store, k: nat, o: nat, d: seq<byte>, ch: Chunk)
    requires s.Shape() && k <= s.last
    requires s.l.SeqnumToPos(k) + o <= |s.content| && s.l.Fits(k, o + |d|)
    ensures AfterWrite(s, k, o, d, ch).Shape()
  {
    if k < s.last {
      ChunkOrder(s.l, k, s.last);
    }
  }

  lemma WrittenOther(s: Store, k: nat, o: nat, d: seq<byte>, ch: Chunk, j: nat)
    requires s.Shape() && k <= s.last && j <= s.last && j != k && s.Good(j)
    requires s.l.SeqnumToPos(k) + o <= |s.content| && s.l.Fits(k, o + |d|)
    ensures var t := AfterWrite(s, k, o, d, ch); t.Shape() && t.Good(j)
  {
    WrittenShape(s, k, o, d, ch);
    var t := AfterWrite(s, k, o, d, ch);
    assert t.DiskBytes(j) == s.DiskBytes(j);
    if j < s.last {
      ChunkOrder(s.l, j, s.last);
    }
    SpliceOtherSlice(s.l, s.content, k, o, d, j);
    assert t.Part(j) == s.Part(j);
  }

  /** A write of `d` at offset `o` of chunk `k`, whose new content `ch` is dirty, whatever was in memory for `k`. */
  lemma Written(s: Store, k: nat, o: nat, d: seq<byte>, ch: Chunk)
    requires s.ConsistentBut(k) && k <= s.last
    requires s.l.SeqnumToPos(k) + o <= |s.content| && s.l.Fits(k, o + |d|)
    requires ch.seqnum == k && ch.dirty && ch.maxSize == s.l.MaxPlain(k) && ch.ciphertextSize == s.DiskSize(k)
    requires o <= |s.Part(k)| && ch.content == Splice(s.Part(k), o, d)
    ensures AfterWrite(s, k, o, d, ch).Consistent()
  {
    WrittenShape(s, k, o, d, ch);
    var t := AfterWrite(s, k, o, d, ch);
    SpliceSlice(s.l, s.content, k, o, d);
    assert t.Good(k);
    forall j: nat | j <= t.last && j != k ensures t.Good(j) {
      WrittenOther(s, k, o, d, ch, j);
    }
  }

  /** The chunk after `d` has been copied into it at its offset. */
  function Overwritten(ch: Chunk, d: seq<byte>): Chunk
    requires ch.offset <= |ch.content|
  {
    ch.(content := Splice(ch.content, ch.offset, d), offset := ch.offset + |d|, dirty := true)
  }

  /** The write step on the chunk in memory, which is either up to date or has been left unread because `d` replaces
      all of it. */
  lemma WriteStep(s: Store, t: Store, k: nat, d: seq<byte>, unread: bool)
    requires s.ConsistentBut(k) && k <= s.last && k in s.live && s.live[k].offset <= |s.live[k].content|
    requires s.l.SeqnumToPos(k) + s.live[k].offset <= |s.content| && s.l.Fits(k, s.live[k].offset + |d|)
    requires if unread then
        && s.live[k] == Chunk(k, false, 0, s.l.MaxPlain(k), s.DiskSize(k), []) && |d| == s.l.MaxPlain(k) != 0
      else s.Good(k)
    requires t == AfterWrite(s, k, s.live[k].offset, d, Overwritten(s.live[k], d))
    ensures t.Consistent()
    ensures |t.content| == |s.content| + if k == s.last && s.live[k].offset + |d| > |s.Part(k)|
                                         then s.live[k].offset + |d| - |s.Part(k)| else 0
  {
    var ch := s.live[k];
    assert Splice(ch.content, ch.offset, d) == Splice(s.Part(k), ch.offset, d);
    if k < s.last {
      ChunkOrder(s.l, k, s.last);
    }
    Written(s, k, ch.offset, d, Overwritten(ch, d));
  }

  lemma PartPiece(s: Store, k: nat, o: nat, n: nat)
    requires s.Shape() && k <= s.last && o + n <= |s.Part(k)|
    ensures var pos := s.l.SeqnumToPos(k) + o;
      pos + n <= |s.content| && s.Part(k)[o..o + n] == s.content[pos..pos + n]
  {
    if k < s.last {
      ChunkOrder(s.l, k, s.last);
    }
    var begin := s.l.SeqnumToPos(k);
    assert forall i :: 0 <= i < |s.Part(k)| ==> s.Part(k)[i] == s.content[begin + i];
  }

  lemma PartFits(s: Store, k: nat, n: nat)
    requires s.Shape() && k <= s.last && n <= |s.Part(k)|
    ensures s.l.Fits(k, n) && s.l.SeqnumToPos(k) + n <= |s.content|
  {
    if k < s.last {
      ChunkOrder(s.l, k, s.last);
    }
  }

  /** Offset of `pos` in its chunk never reaches past the chunk's slice. */
  lemma PosInPart(s: Store, pos: nat)
    requires s.Shape() && pos <= |s.content|
    ensures var k := s.l.PosToSeqnum(pos);
      && s.l.SeqnumToPos(k) <= pos
      && (k <= s.last ==> pos - s.l.SeqnumToPos(k) <= |s.Part(k)|)
      && (k > s.last ==> k == s.last + 1 && pos == |s.content| == s.l.SeqnumToPos(k)
                         && s.l.MaxPlain(s.last) != 0
                         && |s.content| == s.l.SeqnumToPos(s.last) + s.l.MaxPlain(s.last))
  {
    var k := s.l.PosToSeqnum(pos);
    PosInChunk(s.l, pos);
    if k > s.last {
      ChunkOrder(s.l, s.last, k);
      if k > s.last + 1 {
        ChunkOrder(s.l, s.last + 1, k);
        ChunkOrder(s.l, s.last, s.last + 1);
      }
    } else if k < s.last {
      ChunkOrder(s.l, k, s.last);
    }
  }

  /** With nothing dirty, memory can be dropped; what is left is how the file looks when it is opened. */
  lemma Rested(s: Store)
    requires s.c.Lawful(s.l) && s.Consistent() && s.Clean()
    ensures s.(live := map[], last := s.l.PosToSeqnum(|s.content|)).Consistent()
  {
    Cleared(s);
    var t := s.(live := map[]);
    if s.l.MaxPlain(s.last) == 0 || |s.content| < s.l.SeqnumToPos(s.last) + s.l.MaxPlain(s.last) {
      ChunkOfPos(s.l, s.last, |s.content|);
      assert t == s.(live := map[], last := s.last);
    } else {
      Advanced(t);
      NextChunk(s.l, s.last);
      ChunkOfPos(s.l, s.last + 1, |s.content|);
      assert t.(last := t.last + 1) == s.(live := map[], last := s.last + 1);
    }
  }

  /** Cutting the file at the beginning of chunk `k`. */
  lemma Cut(s: Store, k: nat, t: Store)
    requires s.Consistent() && s.live == map[] && k <= s.last && s.l.HasIndex(k)
    requires s.l.SeqnumToPos(k) <= |s.content| && s.l.SeqnumToRaw(k) <= s.ct
    requires t == Store(s.l, s.c, s.content[..s.l.SeqnumToPos(k)], s.data[..s.l.SeqnumToRaw(k)],
                        s.l.SeqnumToRaw(k), k, map[])
    ensures t.Consistent() && t.Part(k) == [] && t.DiskSize(k) == 0
  {
    assert t.Shape();
    assert t.DiskBytes(k) == [] && t.Part(k) == [];
    forall j: nat | j < k ensures t.Good(j) {
      assert s.Good(j);
      ChunkOrder(s.l, j, k);
      DiskRange(s, j);
      assert t.DiskSize(j) == s.DiskSize(j);
      PrefixSlice(s.data, s.l.SeqnumToRaw(j), s.l.SeqnumToRaw(j) + s.DiskSize(j), s.l.SeqnumToRaw(k));
      assert t.DiskBytes(j) == s.DiskBytes(j);
      assert t.Part(j) == s.Part(j);
    }
  }

  /** End of chunk `k` in the plaintext and in the raw file, and where the next chunk begins. */
  lemma ChunkEnds(s: Store, k: nat)
    requires s.Shape() && k <= s.last
    ensures s.l.SeqnumToPos(k) + |s.Part(k)| == if k < s.last then s.l.SeqnumToPos(k + 1) else |s.content|
    ensures s.l.SeqnumToRaw(k) + s.DiskSize(k) == if k < s.last then s.l.SeqnumToRaw(k + 1) else s.ct
    ensures s.l.SeqnumToPos(k) + |s.Part(k)| <= |s.content| && s.l.SeqnumToRaw(k) + s.DiskSize(k) <= s.ct
  {
    if k < s.last {
      ChunkOrder(s.l, k, s.last);
      NextChunk(s.l, k);
      DiskRange(s, k);
    }
  }

  /** Nothing written yet, or everything truncated away. */
  lemma EmptyStore(s: Store)
    requires s.l.Valid() && s.content == [] && s.ct == 0 && s.last == 0 && s.live == map[]
    ensures s.Consistent()
  {
    assert s.DiskBytes(0) == [] && s.Part(0) == [];
  }

  // ---------- the whole file, decrypted without CryptFile ----------

  /** Decrypts packed chunks one after another, cutting at the maximum packed size, as the container does. */
  ghost function Decode(l: Layout, c: Cipher, data: seq<byte>, k: nat): Option<seq<byte>>
    decreases |data|
  {
    if data == [] then Some([])
    else
      var n := if l.MaxPlain(k) != 0 && |data| > l.MaxPacked(k) then l.MaxPacked(k) else |data|;
      match c.unpack(data[..n], k)
      case None => None
      case Some(head) =>
        match Decode(l, c, data[n..], k + 1)
        case None => None
        case Some(tail) => Some(head + tail)
  }

  lemma DecodeStep(l: Layout, c: Cipher, data: seq<byte>, k: nat, n: nat, head: seq<byte>, tail: seq<byte>)
    requires 0 < n <= |data|
    requires n == if l.MaxPlain(k) != 0 && |data| > l.MaxPacked(k) then l.MaxPacked(k) else |data|
    requires c.unpack(data[..n], k) == Some(head) && Decode(l, c, data[n..], k + 1) == Some(tail)
    ensures Decode(l, c, data, k) == Some(head + tail)
  {
  }

  lemma DecodeLast(s: Store)
    requires s.c.Lawful(s.l) && s.Shape() && s.OnDisk(s.last)
    ensures var raw := s.l.SeqnumToRaw(s.last);
      Decode(s.l, s.c, s.data[raw..s.ct], s.last) == Some(s.content[s.l.SeqnumToPos(s.last)..])
  {
    var data, part := s.DiskBytes(s.last), s.Part(s.last);
    assert s.content[s.l.SeqnumToPos(s.last)..] == part;
    if data != [] {
      assert data[..|data|] == data && data[|data|..] == [];
      DecodeStep(s.l, s.c, data, s.last, |data|, part, []);
      assert part + [] == part;
    }
  }

  lemma DecodeNext(s: Store, k: nat)
    requires s.c.Lawful(s.l) && s.Shape() && k < s.last && s.OnDisk(k)
    ensures s.l.SeqnumToRaw(k) <= s.l.SeqnumToRaw(k + 1) <= s.ct
    ensures s.l.SeqnumToPos(k) <= s.l.SeqnumToPos(k + 1) <= |s.content|
    ensures Decode(s.l, s.c, s.data[s.l.SeqnumToRaw(k + 1)..s.ct], k + 1) == Some(s.content[s.l.SeqnumToPos(k + 1)..])
      ==> Decode(s.l, s.c, s.data[s.l.SeqnumToRaw(k)..s.ct], k) == Some(s.content[s.l.SeqnumToPos(k)..])
  {
    ChunkOrder(s.l, k, s.last);
    NextChunk(s.l, k);
    DiskRange(s, k);
    var raw, n := s.l.SeqnumToRaw(k), s.l.MaxPacked(k);
    var data, part := s.data[raw..s.ct], s.Part(k);
    var tail := s.content[s.l.SeqnumToPos(k + 1)..];
    assert data[..n] == s.DiskBytes(k);
    assert data[n..] == s.data[raw + n..s.ct];
    assert part != [] && n > 0;
    assert s.content[s.l.SeqnumToPos(k)..] == part + tail;
    if Decode(s.l, s.c, data[n..], k + 1) == Some(tail) {
      DecodeStep(s.l, s.c, data, k, n, part, tail);
    }
  }

  lemma {:induction false} DecodeFrom(s: Store, k: nat)
    requires s.c.Lawful(s.l) && s.Consistent() && s.Clean() && k <= s.last
    ensures s.l.SeqnumToPos(k) <= |s.content| && s.l.SeqnumToRaw(k) <= s.ct
    ensures Decode(s.l, s.c, s.data[s.l.SeqnumToRaw(k)..s.ct], k) == Some(s.content[s.l.SeqnumToPos(k)..])
    decreases s.last - k
  {
    assert s.Good(k) && s.OnDisk(k);
    if k == s.last {
      DecodeLast(s);
    } else {
      DecodeFrom(s, k + 1);
      DecodeNext(s, k);
    }
  }

  /** Durability: when no chunk is dirty, the ciphertext alone decrypts to the plaintext. */
  lemma StoredDecodes(s: Store)
    requires s.c.Lawful(s.l) && s.Consistent() && s.Clean()
    ensures Decode(s.l, s.c, s.data[..s.ct], 0) == Some(s.content)
  {
    DecodeFrom(s, 0);
    assert s.data[0..s.ct] == s.data[..s.ct];
    assert s.content[0..] == s.content;
  }
}
