/** CryptFile in a random-write mode with its cache disabled: one chunk in memory, which is written back only if it is
    the last chunk when it is left. */
module UncachedFiles {
  import opened Wrappers
  import opened CryptLayout
  import opened ChunkStore
  import opened PlainFiles
  import opened CryptFiles

  // ---------- leaving a chunk, as a question about the disk ----------

  /** The store with other raw bytes for chunk `k`. */
  ghost function OtherDisk(s: Store, k: nat, d: seq<byte>): Store
    requires s.Shape() && k <= s.last
  {
    DiskRange(s, k);
    s.(data := Splice(s.data, s.l.SeqnumToRaw(k), d))
  }

  /** What is left of a store whose only chunk in memory is `k`, after that chunk is left. */
  ghost function Left(s: Store, k: nat, nonce: nat): Store
    requires s.Shape() && k <= s.last && k in s.live && s.ChunkOk(k)
  {
    if s.live[k].dirty && k == s.last then AfterFlush(s, k, s.c.pack(s.live[k].content, k, nonce)).(live := map[])
    else s.(live := map[])
  }

  /** Leaving a chunk loses nothing whatever its raw bytes held, exactly when it is not dirty or is the last one. */
  lemma LeavingKeeps(s: Store, k: nat, nonce: nat)
    requires s.c.Lawful(s.l) && s.Consistent() && k in s.live && s.live.Keys == {k}
    ensures s.Good(k) && s.ChunkOk(k)
    ensures
      (forall d: seq<byte> :: |d| == s.DiskSize(k) && OtherDisk(s, k, d).Consistent() ==>
         Left(OtherDisk(s, k, d), k, nonce).Consistent())
      <==> !s.live[k].dirty || k == s.last
  {
    ChunkGood(s, k);
    if !s.live[k].dirty || k == s.last {
      forall d: seq<byte> | |d| == s.DiskSize(k) && OtherDisk(s, k, d).Consistent()
        ensures Left(OtherDisk(s, k, d), k, nonce).Consistent()
      {
        LeavingSafe(OtherDisk(s, k, d), k, nonce);
      }
    } else {
      LeavingUnsafe(s, k, nonce);
    }
  }

  lemma LeavingSafe(s: Store, k: nat, nonce: nat)
    requires s.c.Lawful(s.l) && s.Consistent() && k in s.live && s.live.Keys == {k}
    requires !s.live[k].dirty || k == s.last
    ensures s.ChunkOk(k) && Left(s, k, nonce).Consistent()
  {
    ChunkGood(s, k);
    if s.live[k].dirty {
      var packed := s.c.pack(s.live[k].content, k, nonce);
      Flushed(s, k, packed);
      Cleared(AfterFlush(s, k, packed));
    } else {
      Cleared(s);
    }
  }

  /** The raw bytes of another content of the same length are as good for a dirty chunk as any. */
  lemma LeavingUnsafe(s: Store, k: nat, nonce: nat)
    requires s.c.Lawful(s.l) && s.Consistent() && k in s.live && s.live.Keys == {k}
    requires s.live[k].dirty && k < s.last
    ensures s.ChunkOk(k)
    ensures exists d: seq<byte> :: |d| == s.DiskSize(k) && OtherDisk(s, k, d).Consistent()
              && !Left(OtherDisk(s, k, d), k, nonce).Consistent()
  {
    ChunkGood(s, k);
    var part := s.Part(k);
    var other := part[0 := if part[0] == 0 then 1 else 0];
    var d := s.c.pack(other, k, nonce);
    assert other[0] != part[0];
    assert s.l.Fits(k, |other|);
    assert s.c.unpack(d, k) == Some(other) && |d| == s.c.packedLen(s.l.MaxPlain(k)) == s.DiskSize(k);
    var t := OtherDisk(s, k, d);
    OtherDiskGood(s, k, d);
    var left := Left(t, k, nonce);
    assert left.DiskBytes(k) == t.DiskBytes(k) == d && left.Part(k) == part;
    assert !left.Good(k);
  }

  lemma OtherDiskGood(s: Store, k: nat, d: seq<byte>)
    requires s.Consistent() && k in s.live && s.live[k].dirty && k <= s.last && |d| == s.DiskSize(k)
    ensures var t := OtherDisk(s, k, d); t.Consistent() && t.DiskBytes(k) == d
  {
    DiskRange(s, k);
    var t := OtherDisk(s, k, d);
    var at := s.l.SeqnumToRaw(k);
    assert t.DiskBytes(k) == d;
    forall j: nat | j <= t.last ensures t.Good(j) {
      ChunkGood(s, j);
      if j != k {
        DiskRange(s, j);
        if j < k { DiskApart(s, j, k); } else { DiskApart(s, k, j); }
        SpliceApart(s.data, at, d, s.l.SeqnumToRaw(j), s.l.SeqnumToRaw(j) + s.DiskSize(j));
        assert t.DiskBytes(j) == s.DiskBytes(j) && t.Part(j) == s.Part(j);
      }
    }
  }

  // ---------- what a write over several chunks leaves ----------

  /** Where the bytes begin that a write from position `p` to chunk `k` leaves in a file whose last chunk was `e`. */
  function Begin(l: Layout, e: nat, p: nat, k: nat): nat {
    var q := l.SeqnumToPos(if k < e then k else e);
    if q > p then q else p
  }

  /** A write of `n` bytes from position `p` that covers all of a partly filled last chunk. */
  predicate SkipsTail(l: Layout, e: nat, size: nat, p: nat, n: nat) {
    p + n >= l.SeqnumToPos(e) + l.MaxPlain(e) && size > l.SeqnumToPos(e)
  }

  /** Where the write loop is: the chunk in memory, the last chunk, what the file shows and what it shows without the
      changes of the chunk, whether there are any, and by how much the size is wrong. */
  datatype Spot = Spot(k: nat, e: nat, content: seq<byte>, base: seq<byte>, dirty: bool, phantom: nat)

  /** What one round does: a full chunk is left, and then a piece of the rest is written at position `at`. */
  ghost predicate Round(l: Layout, a: Spot, full: bool, before: seq<byte>, at: nat, rest: seq<byte>, n: nat, z: Spot)
    requires at <= |before| && n <= |rest|
  {
    var k := if full then a.k + 1 else a.k;
    && z.k == k && z.e == (if k > a.e then k else a.e)
    && z.content == Splice(before, at, rest[..n]) && (k < z.e ==> |z.content| == |before|)
    && z.base == (if full then before else a.base)
    && z.phantom == a.phantom + if full && k == z.e && 0 != l.MaxPlain(k) <= |rest| && l.SeqnumToPos(k) < |before|
                                then |before| - l.SeqnumToPos(k) else 0
  }

  /** What is there after `d` has been written from position `p` at spot `a`: the bytes for the chunks that were left
      before the last one are lost, and so is what else was changed in the first of them. */
  ghost function Shown(l: Layout, a: Spot, other: seq<byte>, p: nat, d: seq<byte>, k: nat): seq<byte>
    requires Begin(l, a.e, p, k) <= p + |d| && Begin(l, a.e, p, k) <= |a.content| == |other|
  {
    var b := Begin(l, a.e, p, k);
    Splice(if a.k < k && a.k < a.e then other else a.content, b, d[b - p..])
  }

  /** The loop, on a write of `n` bytes, has written `d` from position `p` at spot `a` on and has got to `z`. */
  ghost predicate Progress(l: Layout, a: Spot, other: seq<byte>, p: nat, d: seq<byte>, n: nat, z: Spot) {
    && a.k <= z.k && a.k <= a.e && z.e == (if z.k > a.e then z.k else a.e)
    && Begin(l, a.e, p, z.k) <= p + |d| && Begin(l, a.e, p, z.k) <= |a.content| == |other|
    && z.content == Shown(l, a, other, p, d, z.k)
    && (z.k < a.e ==> z.base == other && |z.content| == |a.content|)
    && z.phantom == if a.k < a.e <= z.k && SkipsTail(l, a.e, |a.content|, p, n)
                    then |a.content| - l.SeqnumToPos(a.e) else 0
  }

  lemma ProgressStart(l: Layout, a: Spot, other: seq<byte>, p: nat, n: nat)
    requires a.k <= a.e && l.SeqnumToPos(a.k) <= p <= |a.content| == |other| && a.phantom == 0
    requires a.k < a.e ==> a.base == other
    ensures Progress(l, a, other, p, [], n, a)
  {
    hide Layout.SeqnumToPos, Layout.MaxPlain;
    assert Splice(a.content, p, []) == a.content;
  }

  lemma ShownMore(l: Layout, a: Spot, other: seq<byte>, p: nat, d: seq<byte>, k: nat, more: seq<byte>)
    requires Begin(l, a.e, p, k) <= p + |d| && Begin(l, a.e, p, k) <= |a.content| == |other|
    ensures p + |d| <= |Shown(l, a, other, p, d, k)|
    ensures Splice(Shown(l, a, other, p, d, k), p + |d|, more) == Shown(l, a, other, p, d + more, k)
  {
    hide Layout.SeqnumToPos, Layout.MaxPlain, Splice;
    var b := Begin(l, a.e, p, k);
    SpliceTwice(if a.k < k && a.k < a.e then other else a.content, b, d[b - p..], more);
    assert d[b - p..] + more == (d + more)[b - p..];
  }

  lemma ShownNext(l: Layout, a: Spot, other: seq<byte>, p: nat, d: seq<byte>, k: nat, more: seq<byte>)
    requires a.k <= k < a.e && p + |d| == l.SeqnumToPos(k + 1) <= |a.content| == |other|
    ensures Begin(l, a.e, p, k + 1) == p + |d|
    ensures Splice(other, p + |d|, more) == Shown(l, a, other, p, d + more, k + 1)
  {
    hide Layout.SeqnumToPos, Splice;
    assert (d + more)[|d|..] == more;
  }

  lemma ShownStays(l: Layout, a: Spot, other: seq<byte>, p: nat, d: seq<byte>, k: nat)
    requires a.k <= a.e <= k
    requires Begin(l, a.e, p, k) <= p + |d| && Begin(l, a.e, p, k) <= |a.content| == |other|
    ensures Begin(l, a.e, p, k + 1) == Begin(l, a.e, p, k)
    ensures Shown(l, a, other, p, d, k + 1) == Shown(l, a, other, p, d, k)
  {
    hide Layout.SeqnumToPos, Splice;
  }

  /** A round in the same chunk. */
  lemma ProgressHere(l: Layout, a: Spot, other: seq<byte>, p: nat, d: seq<byte>, n: nat, b: Spot,
                     rest: seq<byte>, m: nat, z: Spot)
    requires Progress(l, a, other, p, d, n, b) && m <= |rest| && p + |d| <= |b.content|
    requires Round(l, b, false, b.content, p + |d|, rest, m, z)
    ensures Progress(l, a, other, p, d + rest[..m], n, z)
  {
    hide Layout.SeqnumToPos, Layout.MaxPlain, Splice;
    ShownMore(l, a, other, p, d, b.k, rest[..m]);
  }

  /** A round that leaves a chunk before the last one of the beginning. */
  lemma ProgressLost(l: Layout, a: Spot, other: seq<byte>, p: nat, d: seq<byte>, n: nat, b: Spot,
                     rest: seq<byte>, m: nat, z: Spot)
    requires Progress(l, a, other, p, d, n, b) && m <= |rest| && |d| + |rest| == n && b.k < a.e
    requires p + |d| == l.SeqnumToPos(b.k + 1) <= |other| && l.MaxPlain(b.k + 1) != 0
    requires Round(l, b, true, other, p + |d|, rest, m, z)
    ensures Progress(l, a, other, p, d + rest[..m], n, z)
  {
    hide Layout.SeqnumToPos, Layout.MaxPlain, Splice, Shown, Begin;
    ShownNext(l, a, other, p, d, b.k, rest[..m]);
  }

  /** A round that leaves the last chunk. */
  lemma ProgressKept(l: Layout, a: Spot, other: seq<byte>, p: nat, d: seq<byte>, n: nat, b: Spot,
                     rest: seq<byte>, m: nat, z: Spot)
    requires Progress(l, a, other, p, d, n, b) && m <= |rest| && b.k >= a.e
    requires p + |d| == l.SeqnumToPos(b.k + 1) == |b.content|
    requires Round(l, b, true, b.content, p + |d|, rest, m, z)
    ensures Progress(l, a, other, p, d + rest[..m], n, z)
  {
    hide Layout.SeqnumToPos, Layout.MaxPlain, Splice, Shown, Begin;
    ShownStays(l, a, other, p, d, b.k);
    ShownMore(l, a, other, p, d, b.k + 1, rest[..m]);
  }

  lemma ProgressRound(l: Layout, a: Spot, other: seq<byte>, p: nat, d: seq<byte>, n: nat, b: Spot, full: bool,
                      rest: seq<byte>, m: nat, z: Spot)
    requires Progress(l, a, other, p, d, n, b) && m <= |rest| && |d| + |rest| == n
    requires !b.dirty ==> b.base == b.content
    requires full ==> p + |d| == l.SeqnumToPos(b.k + 1) && l.MaxPlain(b.k + 1) != 0
    requires full && b.k == b.e ==> p + |d| == |b.content|
    requires var before := if full && b.dirty && b.k != b.e then b.base else b.content;
      p + |d| <= |before| && Round(l, b, full, before, p + |d|, rest, m, z)
    ensures Progress(l, a, other, p, d + rest[..m], n, z)
  {
    hide Layout.SeqnumToPos, Layout.MaxPlain, Splice, Shown, SkipsTail;
    if !full {
      ProgressHere(l, a, other, p, d, n, b, rest, m, z);
    } else if b.k < a.e {
      ProgressLost(l, a, other, p, d, n, b, rest, m, z);
    } else {
      ProgressKept(l, a, other, p, d, n, b, rest, m, z);
    }
  }

  /** After the whole write: nothing is lost if no chunk, or only last ones, have been left. */
  lemma ProgressDone(l: Layout, a: Spot, other: seq<byte>, p: nat, d: seq<byte>, z: Spot)
    requires Progress(l, a, other, p, d, |d|, z) && l.SeqnumToPos(a.k) <= p <= |a.content|
    ensures var b := Begin(l, a.e, p, z.k);
      && (z.k == a.k || a.k == a.e ==> z.content == Splice(a.content, p, d))
      && (a.k < z.k && a.k < a.e ==> p <= b <= |other| && b <= p + |d| && z.content == Splice(other, b, d[b - p..]))
  {
    hide Layout.SeqnumToPos, Layout.MaxPlain;
    if z.k == a.k || a.k == a.e { assert d[0..] == d; }
  }

  // ---------- the file ----------

  class UncachedFile {
    const l: Layout
    const c: Cipher
    const file: PlainFile
    var cursor: nat
    var single: Chunk
    var size: nat
    var ciphertextSize: nat
    var eofSeqnum: nat
    var nonce: nat

    /** The plaintext as the file and the chunk in memory show it. */
    ghost var content: seq<byte>
    /** The plaintext without the changes of a chunk in memory that will not be written back. */
    ghost var base: seq<byte>
    /** By how much the size field exceeds the plaintext. */
    ghost var phantom: nat

    ghost function State(): Store
      reads this`single, this`ciphertextSize, this`eofSeqnum, this`content, file`data
    {
      Store(l, c, content, file.data, ciphertextSize, eofSeqnum, map[single.seqnum := single])
    }

    /** The file alone, standing for a plaintext. */
    ghost function AtRest(plain: seq<byte>): Store
      reads this`ciphertextSize, this`eofSeqnum, file`data
    {
      Store(l, c, plain, file.data, ciphertextSize, eofSeqnum, map[])
    }

    predicate WrittenBack()
      reads this`single, this`eofSeqnum
    {
      single.dirty && single.seqnum == eofSeqnum
    }

    ghost predicate Inv()
      reads this, file`data
      ensures Inv() ==>
        && c.Lawful(l) && State().Consistent() && size == |content| + phantom
        && cursor == l.SeqnumToPos(single.seqnum) + single.offset <= |content|
    {
      && c.Lawful(l) && State().Consistent() && size == |content| + phantom
      && cursor == l.SeqnumToPos(single.seqnum) + single.offset <= |content| && l.Fits(single.seqnum, single.offset)
      && (!single.dirty ==> base == content)
      && (!WrittenBack() ==> |base| == |content| && AtRest(base).Consistent())
    }

    ghost predicate Valid()
      reads this, file`data
    {
      Inv() && phantom == 0
    }

    /** No chunk is relied on: the file alone stands for the content. */
    ghost predicate Resting()
      reads this, file`data
    {
      c.Lawful(l) && AtRest(content).Consistent() && base == content && size == |content| + phantom
    }

    /** The chunk in memory has been left unread, because all of it is going to be overwritten. */
    ghost predicate Hole()
      reads this, file`data
    {
      && Resting() && single.seqnum <= eofSeqnum && l.SeqnumToPos(single.seqnum) == cursor <= |content|
      && l.MaxPlain(single.seqnum) != 0
      && var k := single.seqnum; single == Chunk(k, false, 0, l.MaxPlain(k), AtRest(content).DiskSize(k), [])
    }

    ghost predicate InvOrHole(skipped: bool)
      reads this, file`data
    {
      if skipped then Hole() else Inv()
    }

    /** An existing file, whose stored sizes and bytes stand for `plain`. */
    constructor Open(l: Layout, c: Cipher, file: PlainFile, ghost plain: seq<byte>)
      requires l.Valid() && c.Lawful(l) && StoredAs(l, c, file, plain)
      modifies file`position
      ensures Valid() && content == plain && cursor == 0 && !single.dirty && single.seqnum == 0
      ensures this.l == l && this.c == c && this.file == file && eofSeqnum == l.PosToSeqnum(|plain|)
    {
      this.l, this.c, this.file := l, c, file;
      size, ciphertextSize, nonce := file.plainSize, file.cipherSize, 0;
      eofSeqnum := l.PosToSeqnum(file.plainSize);
      content, base, phantom := plain, plain, 0;
      cursor, single := 0, Chunk(0, false, 0, 0, 0, []);
      new;
      ghost var skipped := ReadChunk(0, 0, false);
    }

    /** Reads and decrypts a chunk, unless all of it is going to be overwritten. */
    method ReadRawChunk(k: nat, overwrite: bool) returns (plain: seq<byte>, rawSize: nat)
      requires Resting() && k <= eofSeqnum
      modifies file`position
      ensures rawSize == AtRest(content).DiskSize(k)
      ensures plain == if overwrite && rawSize != 0 then [] else AtRest(content).Part(k)
    {
      hide Store.ConsistentBut;
      ghost var s := AtRest(content);
      ChunkGood(s, k);
      ReadSize(s, k);
      DiskRange(s, k);
      var raw := l.SeqnumToRaw(k);
      rawSize := if l.MaxPlain(0) == 0 then ciphertextSize + l.extra else l.MaxPacked(k);
      if raw + rawSize > ciphertextSize {
        rawSize := ciphertextSize - raw;
      }
      assert s.DiskBytes(k) == file.data[raw..raw + rawSize];
      plain := [];
      file.Seek(raw);
      if rawSize != 0 && !overwrite {
        var packed := file.Read(rawSize);
        plain := c.unpack(packed, k).value;
      }
    }

    /** Brings a chunk into memory. */
    method ReadChunk(k: nat, offset: nat, overwrite: bool) returns (ghost skipped: bool)
      requires Resting() && k <= eofSeqnum && cursor == l.SeqnumToPos(k) + offset <= |content| && l.Fits(k, offset)
      requires overwrite ==> offset == 0 && l.MaxPlain(k) != 0
      modifies this`single, file`position
      ensures InvOrHole(skipped) && single.seqnum == k && single.offset == offset && !single.dirty
      ensures single.maxSize == l.MaxPlain(k)
      ensures skipped <==> overwrite && AtRest(content).DiskSize(k) != 0
    {
      hide Store.ConsistentBut, Store.Part, Store.DiskSize;
      var plain, rawSize := ReadRawChunk(k, overwrite);
      single := Chunk(k, false, offset, l.MaxPlain(k), rawSize, plain);
      skipped := overwrite && rawSize != 0;
      if !skipped {
        ghost var s := AtRest(content);
        Loaded(s, single);
        assert State() == s.(live := s.live[k := single]);
      }
    }

    /** Packs the chunk in memory over its raw bytes. */
    method FlushChunk()
      requires Inv() && single.dirty
      modifies this`single, this`ciphertextSize, this`nonce, this`base, file`data, file`position
      ensures Resting()
    {
      hide Store.ConsistentBut;
      var k := single.seqnum;
      ghost var s := State();
      ChunkGood(s, k);
      var packed := c.pack(single.content, k, nonce);
      nonce := nonce + 1;
      Flushed(s, k, packed);
      Cleared(AfterFlush(s, k, packed));
      DiskRange(s, k);
      file.Seek(l.SeqnumToRaw(k));
      file.Write(packed);
      ciphertextSize := ciphertextSize + |packed| - single.ciphertextSize;
      single := single.(ciphertextSize := |packed|, dirty := false);
      base := content;
      assert AtRest(content) == AfterFlush(s, k, packed).(live := map[]);
    }

    /** Going to `pos` leaves a dirty chunk that is not the last one. */
    predicate Loses(pos: nat)
      reads this`single, this`eofSeqnum
    {
      single.dirty && single.seqnum != eofSeqnum && l.PosToSeqnum(pos) != single.seqnum
    }

    /** Leaves the chunk in memory. */
    method Leave()
      requires Inv()
      modifies this`single, this`ciphertextSize, this`nonce, this`base, this`content, file`data, file`position
      ensures Resting() && |content| == |old(content)|
      ensures content == if old(single.dirty && single.seqnum != eofSeqnum) then old(base) else old(content)
    {
      if single.dirty && single.seqnum == eofSeqnum {
        FlushChunk();
      }
      content := base;
    }

    /** Moves the cursor inside the chunk in memory. */
    method SeekInside(pos: nat)
      requires Inv() && pos <= |content| && l.PosToSeqnum(pos) == single.seqnum
      modifies this`cursor, this`single
      ensures Inv() && cursor == pos && single == old(single).(offset := single.offset)
    {
      hide Store.ConsistentBut;
      PosInChunk(l, pos);
      ghost var s := State();
      Moved(s, single.seqnum, pos - l.SeqnumToPos(single.seqnum));
      cursor := pos;
      single := single.(offset := pos - l.SeqnumToPos(single.seqnum));
      assert State() == s.(live := s.live[single.seqnum := s.live[single.seqnum].(offset := single.offset)]);
    }

    /** Moves the cursor. The changes of the chunk that is left are undone exactly when it is dirty and not the last one
        and a different one is gone to; what the file then shows is what the disk held all along. */
    method DoSeek(pos: nat, overwriteSize: nat) returns (ghost skipped: bool)
      requires Inv() && pos <= |content|
      modifies this`cursor, this`single, this`ciphertextSize, this`eofSeqnum, this`nonce, this`content, this`base,
               file`data, file`position
      ensures InvOrHole(skipped) && cursor == pos && single.seqnum == l.PosToSeqnum(pos)
      ensures eofSeqnum == if l.PosToSeqnum(pos) > old(eofSeqnum) then l.PosToSeqnum(pos) else old(eofSeqnum)
      ensures content == if old(Loses(pos)) then old(base) else old(content)
      ensures content == old(content) <==> !(old(Loses(pos)) && old(base) != old(content))
      ensures var k := l.PosToSeqnum(pos);
        && (k == old(single.seqnum) ==> !skipped && base == old(base))
        && (k != old(single.seqnum) ==>
              && base == content && !single.dirty && single.maxSize == l.MaxPlain(k)
              && |content| == |old(content)| && single.offset == pos - l.SeqnumToPos(k))
        && (skipped ==> single.offset == 0 && l.MaxPlain(k) != 0 && overwriteSize >= l.MaxPlain(k))
        && (k != old(single.seqnum) && pos == l.SeqnumToPos(k) < |content| && 0 != l.MaxPlain(k) <= overwriteSize ==>
              skipped)
    {
      hide UncachedFile.Inv, UncachedFile.Hole, UncachedFile.Resting, Store.ConsistentBut;
      var k := l.PosToSeqnum(pos);
      ChunkGood(State(), single.seqnum);
      if k == single.seqnum {
        SeekInside(pos);
        skipped := false;
      } else {
        Leave();
        skipped := Arrive(pos, overwriteSize);
      }
    }

    /** Brings the chunk of `pos` into memory, as a new last chunk if it is behind the last. */
    method Arrive(pos: nat, overwriteSize: nat) returns (ghost skipped: bool)
      requires Resting() && pos <= |content|
      modifies this`single, this`cursor, this`eofSeqnum, file`position
      ensures InvOrHole(skipped) && cursor == pos && !single.dirty
      ensures var k := l.PosToSeqnum(pos);
        && single.seqnum == k && single.maxSize == l.MaxPlain(k) && single.offset == pos - l.SeqnumToPos(k)
        && eofSeqnum == (if k > old(eofSeqnum) then k else old(eofSeqnum))
        && (skipped ==> single.offset == 0 && l.MaxPlain(k) != 0 && overwriteSize >= l.MaxPlain(k))
        && (pos == l.SeqnumToPos(k) < |content| && 0 != l.MaxPlain(k) <= overwriteSize ==> skipped)
    {
      hide Store.ConsistentBut;
      var k := l.PosToSeqnum(pos);
      NewLast(pos);
      ChunkGood(AtRest(content), k);
      cursor := pos;
      var offset := pos - l.SeqnumToPos(k);
      skipped := ReadChunk(k, offset, offset == 0 && l.MaxPlain(k) != 0 && overwriteSize >= l.MaxPlain(k));
    }

    /** Makes the chunk of a position the last one if it is behind it. */
    method NewLast(pos: nat)
      requires Resting() && pos <= |content|
      modifies this`eofSeqnum
      ensures var k := l.PosToSeqnum(pos);
        && Resting() && k <= eofSeqnum == (if k > old(eofSeqnum) then k else old(eofSeqnum))
        && l.SeqnumToPos(k) <= pos && l.Fits(k, pos - l.SeqnumToPos(k))
    {
      var k := l.PosToSeqnum(pos);
      ghost var s := AtRest(content);
      PosInPart(s, pos);
      PosInChunk(l, pos);
      if k > eofSeqnum {
        Advanced(s);
        eofSeqnum := k;
        assert AtRest(content) == s.(last := k);
      }
    }

    /** Copies a piece that fits into the chunk in memory. */
    method PutHere(d: seq<byte>)
      requires d != [] && single.offset <= |single.content| && cursor <= |content|
      requires cursor == l.SeqnumToPos(single.seqnum) + single.offset
      modifies this`single, this`size, this`cursor, this`content
      ensures var k, ch := single.seqnum, old(single);
        && single == Overwritten(ch, d) && cursor == old(cursor) + |d|
        && content == Splice(old(content), old(cursor), d)
        && size == old(size) +
             if k == eofSeqnum && ch.offset + |d| > |ch.content| then ch.offset + |d| - |ch.content| else 0
    {
      if single.seqnum == eofSeqnum && single.offset + |d| > |single.content| {
        size := size + (single.offset + |d| - |single.content|);
      }
      single := Overwritten(single, d);
      content := Splice(content, cursor, d);
      cursor := cursor + |d|;
    }

    /** Writes a piece that fits the chunk in memory. */
    method WriteHere(d: seq<byte>, ghost skipped: bool)
      requires InvOrHole(skipped) && d != [] && l.Fits(single.seqnum, single.offset + |d|)
      requires skipped ==> |d| == l.MaxPlain(single.seqnum)
      modifies this`single, this`size, this`cursor, this`content, this`phantom
      ensures Inv() && single.dirty && single.seqnum == old(single.seqnum) && cursor == old(cursor) + |d|
      ensures single.offset == old(single.offset) + |d| && single.maxSize == l.MaxPlain(single.seqnum)
      ensures old(cursor) <= |old(content)| && content == Splice(old(content), old(cursor), d)
      ensures single.seqnum != eofSeqnum ==> |content| == |old(content)|
      ensures phantom == old(phantom) + if skipped && single.seqnum == eofSeqnum
                                        then |old(content)| - l.SeqnumToPos(eofSeqnum) else 0
    {
      ghost var k, ch := single.seqnum, single;
      ghost var s := State();
      if skipped {
        LoadedAny(AtRest(content), single);
        assert s == AtRest(content).(live := map[][k := single]);
      } else {
        ChunkGood(s, k);
      }
      ChunkEnds(s, k);
      ghost var t := AfterWrite(s, k, ch.offset, d, Overwritten(ch, d));
      WriteStep(s, t, k, d, skipped);
      hide Store.ConsistentBut;
      phantom := phantom + if skipped && k == eofSeqnum then |content| - l.SeqnumToPos(eofSeqnum) else 0;
      PutHere(d);
      assert State() == t;
    }

    /** Where the write loop is. */
    ghost function Here(): Spot
      reads this`single, this`eofSeqnum, this`content, this`base, this`phantom
    {
      Spot(single.seqnum, eofSeqnum, content, base, single.dirty, phantom)
    }

    /** Goes on to the next chunk when the one in memory is full. */
    method LeaveFull(rest: nat) returns (ghost skipped: bool)
      requires Inv() && single.offset == single.maxSize == l.MaxPlain(single.seqnum) != 0
      modifies this`cursor, this`single, this`ciphertextSize, this`eofSeqnum, this`nonce, this`content, this`base,
               file`data, file`position
      ensures var k := old(single.seqnum) + 1;
        && InvOrHole(skipped) && cursor == old(cursor) == l.SeqnumToPos(k) && single.seqnum == k && single.offset == 0
        && single.maxSize == l.MaxPlain(k) != 0 && !single.dirty && base == content && |content| == |old(content)|
        && content == (if old(single.dirty && single.seqnum != eofSeqnum) then old(base) else old(content))
        && eofSeqnum == (if k > old(eofSeqnum) then k else old(eofSeqnum))
        && (skipped ==> rest >= l.MaxPlain(k))
        && (skipped && l.SeqnumToPos(k) < |content| <==> l.MaxPlain(k) <= rest && l.SeqnumToPos(k) < |content|)
    {
      hide Store.ConsistentBut;
      var k := single.seqnum + 1;
      ChunkIndex();
      NextChunk(l, single.seqnum);
      ChunkOfPos(l, k, l.SeqnumToPos(k));
      skipped := DoSeek(l.SeqnumToPos(k), rest);
    }

    /** A last chunk that is full ends the file; a chunk that is not dirty has not been changed. */
    lemma Fullness()
      requires Inv()
      ensures !single.dirty ==> base == content
      ensures single.seqnum == eofSeqnum && single.maxSize != 0 && single.maxSize == single.offset ==>
        cursor == |content|
    {
      ChunkGood(State(), single.seqnum);
      PartFits(State(), single.seqnum, |State().Part(single.seqnum)|);
    }

    lemma BaseSize()
      requires Inv() && single.seqnum < eofSeqnum
      ensures |base| == |content|
    {
    }

    lemma ChunkIndex()
      requires Inv()
      ensures l.Valid() && l.HasIndex(single.seqnum) && single.maxSize == l.MaxPlain(single.seqnum)
      ensures single.seqnum <= eofSeqnum && (single.seqnum == eofSeqnum || l.MaxPlain(single.seqnum) != 0)
    {
      ChunkGood(State(), single.seqnum);
      if single.seqnum < eofSeqnum { ChunkOrder(l, single.seqnum, eofSeqnum); }
    }

    /** Finds the chunk for the next piece and its size: at most one move to the next chunk. */
    method FindRoom(rest: nat) returns (n: nat, ghost skipped: bool)
      requires Inv() && rest > 0
      modifies this`cursor, this`single, this`ciphertextSize, this`eofSeqnum, this`nonce, this`content, this`base,
               file`data, file`position
      ensures InvOrHole(skipped) && 0 < n <= rest && cursor == old(cursor) <= |content|
      ensures cursor == l.SeqnumToPos(single.seqnum) + single.offset && l.Fits(single.seqnum, single.offset + n)
      ensures single.seqnum <= eofSeqnum && (skipped ==> n == l.MaxPlain(single.seqnum))
      ensures var full, k := old(single.maxSize != 0 && single.maxSize == single.offset), single.seqnum;
        && k == (if full then old(single.seqnum) + 1 else old(single.seqnum))
        && eofSeqnum == (if k > old(eofSeqnum) then k else old(eofSeqnum))
        && content == (if full && old(single.dirty && single.seqnum != eofSeqnum) then old(base) else old(content))
        && base == (if full then content else old(base))
        && (full ==> cursor == l.SeqnumToPos(k) && l.MaxPlain(k) != 0)
        && (skipped && l.SeqnumToPos(k) < |content| <==>
              full && 0 != l.MaxPlain(k) <= rest && l.SeqnumToPos(k) < |content|)
    {
      n, skipped := rest, false;
      ChunkIndex();
      if single.maxSize != 0 {
        if single.maxSize == single.offset {
          skipped := LeaveFull(n);
        }
        if n > single.maxSize - single.offset {
          n := single.maxSize - single.offset;
        }
      }
    }

    /** One round of the write loop: room is found, then one piece is written. */
    method WriteRound(rest: seq<byte>) returns (n: nat)
      requires Inv() && rest != []
      modifies this`cursor, this`single, this`ciphertextSize, this`eofSeqnum, this`nonce, this`content, this`base,
               this`size, this`phantom, file`data, file`position
      ensures Inv() && single.dirty && 0 < n <= |rest| && cursor == old(cursor) + n
      ensures l.SeqnumToPos(single.seqnum) < cursor && l.Fits(single.seqnum, cursor - l.SeqnumToPos(single.seqnum))
      ensures var full := old(single.maxSize != 0 && single.maxSize == single.offset);
        && single.seqnum == (if full then old(single.seqnum) + 1 else old(single.seqnum))
        && (full ==> old(cursor) == l.SeqnumToPos(single.seqnum) && l.MaxPlain(single.seqnum) != 0)
        && var before := if full && old(single.dirty && single.seqnum != eofSeqnum) then old(base) else old(content);
        && old(cursor) <= |before| && Round(l, old(Here()), full, before, old(cursor), rest, n, Here())
    {
      hide Store.ConsistentBut, Splice, UncachedFile.Inv, UncachedFile.Hole;
      ghost var skipped;
      n, skipped := FindRoom(|rest|);
      WriteHere(rest[..n], skipped);
    }

    /** Writes at the cursor. The size is wrong afterwards exactly when the write covers all of a partly filled last
        chunk that it does not begin in. All of the data is there if the write stays in its chunk or begins in the last
        one; otherwise what is before the chunk it ends in, or before the old last chunk, is what the disk held. */
    method WriteImpl(data: seq<byte>)
      requires Valid() && data != []
      modifies this`cursor, this`single, this`ciphertextSize, this`eofSeqnum, this`nonce, this`content, this`base,
               this`size, this`phantom, file`data, file`position
      ensures Inv() && cursor == old(cursor) + |data|
      ensures l.SeqnumToPos(single.seqnum) < cursor && l.Fits(single.seqnum, cursor - l.SeqnumToPos(single.seqnum))
      ensures size == |content| + phantom
      ensures var k0, e0, k := old(single.seqnum), old(eofSeqnum), single.seqnum;
        var b := Begin(l, e0, old(cursor), k);
        && k0 <= k && k0 <= e0
        && phantom == (if k0 < e0 <= k && SkipsTail(l, e0, |old(content)|, old(cursor), |data|)
                       then |old(content)| - l.SeqnumToPos(e0) else 0)
        && (k == k0 || k0 == e0 ==> content == Splice(old(content), old(cursor), data))
        && (k0 < k && k0 < e0 ==>
              && old(cursor) <= b <= |old(base)| && b <= cursor
              && content == Splice(old(base), b, data[b - old(cursor)..]))
    {
      hide UncachedFile.Inv, Store.ConsistentBut, Shown;
      ghost var a, p := Here(), cursor;
      if single.seqnum < eofSeqnum { BaseSize(); }
      ghost var other := if a.k < a.e then base else content;
      ChunkIndex();
      ProgressStart(l, a, other, p, |data|);
      var done := 0;
      while done < |data|
        invariant done <= |data| && Inv() && cursor == p + done
        invariant Progress(l, a, other, p, data[..done], |data|, Here())
        invariant done > 0 ==>
          l.SeqnumToPos(single.seqnum) < cursor && l.Fits(single.seqnum, cursor - l.SeqnumToPos(single.seqnum))
      {
        done := WriteOnce(data, done, a, other, p);
      }
      assert data[..|data|] == data;
      ProgressDone(l, a, other, p, data, Here());
    }

    /** One round of the write loop that began at spot `a`. */
    method WriteOnce(data: seq<byte>, done: nat, ghost a: Spot, ghost other: seq<byte>, ghost p: nat)
      returns (done': nat)
      requires Inv() && done < |data| && cursor == p + done
      requires Progress(l, a, other, p, data[..done], |data|, Here())
      modifies this`cursor, this`single, this`ciphertextSize, this`eofSeqnum, this`nonce, this`content, this`base,
               this`size, this`phantom, file`data, file`position
      ensures Inv() && done < done' <= |data| && cursor == p + done'
      ensures l.SeqnumToPos(single.seqnum) < cursor && l.Fits(single.seqnum, cursor - l.SeqnumToPos(single.seqnum))
      ensures Progress(l, a, other, p, data[..done'], |data|, Here())
    {
      hide Progress, Round, UncachedFile.Inv, Store.ConsistentBut;
      ghost var b, full := Here(), single.maxSize != 0 && single.maxSize == single.offset;
      Fullness();
      var n := WriteRound(data[done..]);
      ProgressRound(l, a, other, p, data[..done], |data|, b, full, data[done..], n, Here());
      TakeMore(data, done, n);
      done' := done + n;
    }

    /** Reads from the chunk in memory. */
    method ReadHere(n: nat) returns (d: seq<byte>)
      requires Valid() && cursor + n <= |content| && l.Fits(single.seqnum, single.offset + n)
      ensures d == content[cursor..cursor + n]
    {
      ghost var s, k := State(), single.seqnum;
      ChunkGood(s, k);
      if k < s.last { ChunkOrder(l, k, s.last); }
      PartPiece(s, k, single.offset, n);
      d := single.content[single.offset..single.offset + n];
    }
  }
}
