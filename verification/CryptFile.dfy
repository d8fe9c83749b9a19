/** CryptFile in its random-access modes: a decrypted view of a chunked, encrypted file with an LRU cache of
    decrypted chunks. The ghost field `content` is the plaintext the file stands for. */
module CryptFiles {
  import opened Wrappers
  import opened CryptLayout
  import opened ChunkStore
  import opened LruQueue
  import opened PlainFiles
  import opened WriteLoop
  import opened PlainSpec

  /** Error codes, and the exception of a failed assertion. */
  datatype Error =
    OK | InvalidSize | InvalidSeek | FileReadFailed | FileWriteFailed | FileNotOpen | Aborted | AssertionFailed

  /** What the pointer to the current chunk points to. */
  datatype Where = NoChunk | InCache(k: nat) | Single

  /** The stored sizes and the raw bytes of `file` stand for `plain`, with no help from memory. */
  ghost predicate StoredAs(l: Layout, c: Cipher, file: PlainFile, plain: seq<byte>)
    reads file
  {
    && file.plainSize == |plain|
    && l.Valid() && Store(l, c, plain, file.data, file.cipherSize, l.PosToSeqnum(|plain|), map[]).Consistent()
  }

  /** The raw file of a saved CryptFile decrypts to the plaintext by itself. */
  lemma StoredFileDecodes(l: Layout, c: Cipher, file: PlainFile, plain: seq<byte>)
    requires c.Lawful(l) && StoredAs(l, c, file, plain)
    ensures file.cipherSize <= |file.data| && file.plainSize == |plain|
    ensures Decode(l, c, file.data[..file.cipherSize], 0) == Some(plain)
  {
    StoredDecodes(Store(l, c, plain, file.data, file.cipherSize, l.PosToSeqnum(|plain|), map[]));
  }

  /** A file of six bytes in chunks of four, just opened: overwriting it with eight bytes from the beginning makes its
      size ten. */
  method CountedTwice(f: CryptFile, d: seq<byte>)
    requires f.Valid() && f.InSync() && f.l.firstMax == 0 && f.l.chunkMax == 4 && |f.content| == 6 && f.eofSeqnum == 1
    requires f.writable && f.seekCursor == 0 && f.Current().seqnum == 0 && f.queue == [0] && |d| == 8
    modifies f, f.file
    ensures f.content == d && f.Size() == 10
  {
    assert UseRange(f.queue, f.capacity, 1, 1) == [0];
    var done, err := f.Write(d);
  }

  class CryptFile {
    const l: Layout
    const c: Cipher
    const capacity: nat
    const maxProcessingSize: nat
    const writable: bool
    const useCache: bool
    const file: PlainFile

    var cursor: nat
    var seekCursor: nat
    var cache: map<nat, Chunk>
    var queue: seq<nat>
    var single: Chunk
    var current: Where
    var size: nat
    var ciphertextSize: nat
    var sizeDirty: bool
    var eofSeqnum: nat
    var nonce: nat

    /** The plaintext. */
    ghost var content: seq<byte>
    /** By how much the size field exceeds the plaintext; zero in every valid state. */
    ghost var phantom: nat
    /** The chunk that really is the last one; `eofSeqnum` in every valid state. */
    ghost var last: nat

    // ---------- invariant ----------

    /** The chunks in memory. */
    ghost function Live(): map<nat, Chunk>
      reads this`current, this`single, this`cache
    {
      if current.Single? then map[single.seqnum := single] else cache
    }

    ghost function State(): Store
      reads this`current, this`single, this`cache, this`content, this`ciphertextSize, this`last, file`data
    {
      Store(l, c, content, file.data, ciphertextSize, last, Live())
    }

    ghost predicate CurrentOk()
      reads this`current, this`single, this`cache
    {
      && (current.InCache? ==> current.k in cache && cache[current.k].seqnum == current.k)
      && (current.Single? ==> cache == map[] && !single.dirty)
    }

    function Current(): Chunk
      requires current != NoChunk && CurrentOk()
      reads this`current, this`single, this`cache
    {
      if current.Single? then single else cache[current.k]
    }

    ghost predicate QueueOk()
      reads this`queue, this`cache
    {
      && Tracks(queue, cache.Keys)
      && (capacity > 0 ==> |queue| <= capacity)
    }

    ghost predicate CursorOk()
      requires CurrentOk()
      reads this`current, this`single, this`cache, this`cursor, this`content
    {
      current != NoChunk ==>
        && cursor == l.SeqnumToPos(Current().seqnum) + Current().offset
        && l.Fits(Current().seqnum, Current().offset)
        && cursor <= |content|
    }

    /** The stored sizes are right unless they are marked dirty. */
    ghost predicate HeaderOk()
      requires State().Shape()
      reads this`current, this`single, this`cache, this`content, this`ciphertextSize, this`last, file`data,
            this`sizeDirty, this`size, file`plainSize, file`cipherSize
    {
      !sizeDirty ==>
        && file.plainSize == size && file.cipherSize == ciphertextSize
        && var diskSize, tail: nat := ciphertextSize - l.SeqnumToRaw(last), |content| - l.SeqnumToPos(last);
           diskSize == c.packedLen(tail) || (diskSize == 0 && tail == 0 && !DirtyAt(last))
    }

    ghost predicate DirtyAt(k: nat)
      reads this`current, this`single, this`cache
    {
      k in Live() && Live()[k].dirty
    }

    /** The whole invariant, except that chunk `x` in memory need not agree with the plaintext. */
    ghost predicate InvBut(x: int)
      reads this`current, this`single, this`cache, this`content, this`ciphertextSize, this`last, file`data,
            this`cursor, this`queue, this`size, this`phantom, this`sizeDirty, file`plainSize, file`cipherSize
      ensures InvBut(x) ==>
        && c.Lawful(l) && State().ConsistentBut(x) && CurrentOk() && CursorOk() && QueueOk()
        && size == |content| + phantom && (writable ==> useCache)
    {
      && c.Lawful(l)
      && State().ConsistentBut(x)
      && size == |content| + phantom
      && CurrentOk() && QueueOk() && CursorOk() && HeaderOk()
      && (writable ==> useCache) && (!useCache ==> cache == map[])
      && (DirtyAt(last) ==> current != NoChunk && Current().seqnum == last)
      && (!writable ==> State().Clean())
    }

    ghost predicate Inv()
      reads this`current, this`single, this`cache, this`content, this`ciphertextSize, this`last, file`data,
            this`cursor, this`queue, this`size, this`phantom, this`sizeDirty, file`plainSize, file`cipherSize
    {
      InvBut(-1)
    }

    /** States between two public calls on an open file. */
    ghost predicate Valid()
      reads this`current, this`single, this`cache, this`content, this`ciphertextSize, this`last, file`data,
            this`cursor, this`queue, this`size, this`phantom, this`eofSeqnum, this`sizeDirty, file`plainSize,
            file`cipherSize
    {
      Inv() && phantom == 0 && eofSeqnum == last && (if useCache then current.InCache? else current.Single?)
    }

    /** Everything is on disk. */
    ghost predicate Saved()
      requires State().Shape()
      reads this`current, this`single, this`cache, this`content, this`ciphertextSize, this`last, file`data,
            this`sizeDirty
    {
      State().Clean() && !sizeDirty
    }

    /** After an emptied file of several chunks has kept the number of its last chunk. */
    ghost predicate Stale()
      reads this`current, this`single, this`cache, this`content, this`ciphertextSize, this`last, file`data,
            this`cursor, this`queue, this`size, this`phantom, this`eofSeqnum, this`sizeDirty, file`plainSize,
            file`cipherSize
    {
      && Inv() && phantom == 0 && content == [] && last == 0 < eofSeqnum && current == InCache(0) && writable
      && l.HasIndex(eofSeqnum)
    }

    /** States between two public calls in which everything but writing works. */
    ghost predicate Usable()
      reads this`current, this`single, this`cache, this`content, this`ciphertextSize, this`last, file`data,
            this`cursor, this`queue, this`size, this`phantom, this`eofSeqnum, this`sizeDirty, file`plainSize,
            file`cipherSize
    {
      Valid() || Stale()
    }

    /** A stale file to whose first chunk bytes have been written, which its size does not count. */
    ghost predicate Stalled(bytes: seq<byte>)
      reads this`current, this`single, this`cache, this`content, this`last, this`cursor, this`size, this`eofSeqnum
    {
      && current == InCache(0) && 0 in cache && size == 0 == last < eofSeqnum && content == bytes && cursor == |bytes|
      && cache[0].seqnum == 0 && cache[0].maxSize == l.MaxPlain(0) != 0
      && cache[0].offset == |cache[0].content| == |bytes| <= l.MaxPlain(0)
    }

    lemma StaleStalled()
      requires Stale()
      ensures Stalled([])
    {
      ChunkGood(State(), 0);
    }

    /** What fits the first chunk. */
    ghost function FirstPart(d: seq<byte>): seq<byte> {
      if |d| <= l.MaxPlain(0) then d else d[..l.MaxPlain(0)]
    }

    /** How writing to a stale file ends: an assertion fails behind the first chunk's bytes, or the next chunk is past
        the end. */
    ghost function Failure(d: seq<byte>): Error {
      if |d| <= l.MaxPlain(0) then AssertionFailed else InvalidSeek
    }

    /** How a caller tells a stale file. */
    predicate LooksStale()
      reads this`size, this`eofSeqnum
    {
      size == 0 < eofSeqnum
    }

    lemma StaleLooks()
      requires Usable()
      ensures LooksStale() <==> Stale()
    {
      if Valid() && last > 0 { ChunkOrder(l, 0, last); }
    }

    // ---------- opening ----------

    /** A file just created: an empty first chunk has been packed and both sizes stored. */
    constructor Create(l: Layout, c: Cipher, capacity: nat, maxProcessingSize: nat, file: PlainFile)
      requires l.Valid() && c.Lawful(l) && file.data == []
      modifies file
      ensures Valid() && Saved() && content == [] && seekCursor == 0 && cursor == 0
      ensures this.l == l && this.c == c && this.capacity == capacity && this.file == file
      ensures writable && this.maxProcessingSize == maxProcessingSize
    {
      this.l, this.c, this.capacity, this.maxProcessingSize := l, c, capacity, maxProcessingSize;
      this.file, this.writable, this.useCache := file, true, true;
      cursor, seekCursor, cache, queue, current := 0, 0, map[], [], NoChunk;
      single := Chunk(0, false, 0, 0, 0, []);
      size, ciphertextSize, sizeDirty, eofSeqnum, nonce := 0, 0, true, 0, 0;
      content, phantom, last := [], 0, 0;
      new;
      EmptyStore(State());
      var err := WriteFirstChunk();
    }

    /** Packs the empty first chunk of a new file. */
    method WriteFirstChunk() returns (err: Error)
      requires Inv() && content == [] && phantom == 0 && last == 0 && eofSeqnum == 0
      requires current == NoChunk && cache == map[] && writable && sizeDirty
      modifies this`cursor, this`cache, this`single, this`current, this`queue, this`ciphertextSize, this`nonce,
               this`eofSeqnum, this`last, this`sizeDirty, file`data, file`position, file`plainSize, file`cipherSize
      ensures err == OK && Valid() && Saved() && content == [] && cursor == 0
    {
      hide CryptFile.QueueOk, CryptFile.InvBut, CryptFile.HeaderOk;
      ghost var skipped;
      err, skipped := DoSeek(0, 0, true);
      PackFirst();
    }

    method PackFirst()
      requires Inv() && writable && sizeDirty && current == InCache(0) && last == 0
      modifies this`cache, this`single, this`ciphertextSize, this`nonce, this`sizeDirty,
               file`data, file`position, file`plainSize, file`cipherSize
      ensures Inv() && cache.Keys == old(cache.Keys) && !DirtyAt(0) && !sizeDirty
    {
      MarkDirty(0);
      var err := FlushChunk(0);
      SaveSize();
    }

    /** An existing file, whose stored sizes and bytes stand for `plain`. */
    constructor Open(l: Layout, c: Cipher, capacity: nat, maxProcessingSize: nat, writable: bool, useCache: bool,
                     file: PlainFile, ghost plain: seq<byte>)
      requires l.Valid() && c.Lawful(l) && (writable ==> useCache)
      requires StoredAs(l, c, file, plain)
      modifies file
      ensures Valid() && content == plain && seekCursor == 0 && cursor == 0
      ensures this.l == l && this.c == c && this.capacity == capacity && this.file == file
      ensures this.writable == writable && this.useCache == useCache && this.maxProcessingSize == maxProcessingSize
      ensures queue == (if useCache then [0] else []) && Current().seqnum == 0 && eofSeqnum == l.PosToSeqnum(|plain|)
    {
      this.l, this.c, this.capacity, this.maxProcessingSize := l, c, capacity, maxProcessingSize;
      this.file, this.writable, this.useCache := file, writable, useCache;
      cursor, seekCursor, cache, queue, current := 0, 0, map[], [], NoChunk;
      single := Chunk(0, false, 0, 0, 0, []);
      size, ciphertextSize, sizeDirty, nonce := file.plainSize, file.cipherSize, false, 0;
      eofSeqnum := l.PosToSeqnum(file.plainSize);
      content, phantom, last := plain, 0, l.PosToSeqnum(file.plainSize);
      new;
      hide CryptFile.InvBut;
      assert State() == Store(l, c, plain, file.data, file.cipherSize, l.PosToSeqnum(|plain|), map[]);
      ChunkGood(State(), last);
      SeekStart();
    }

    /** Brings the first chunk of a file just opened into memory. */
    method SeekStart()
      requires Inv() && phantom == 0 && eofSeqnum == last && current == NoChunk && cache == map[]
      modifies this`cursor, this`cache, this`single, this`current, this`queue, this`ciphertextSize, this`nonce,
               this`eofSeqnum, this`last, file`data, file`position
      ensures Valid() && cursor == 0 && Current().seqnum == 0 && eofSeqnum == old(eofSeqnum)
      ensures queue == if useCache then Use(old(queue), capacity, 0) else old(queue)
    {
      hide CryptFile.InvBut, Store.ConsistentBut;
      ghost var skipped;
      var err;
      err, skipped := DoSeek(0, 0, true);
    }

    method MarkDirty(k: nat)
      requires Inv() && writable && sizeDirty && current == InCache(k) && (k == last)
      modifies this`cache, this`single
      ensures Inv() && DirtyAt(k) && cache.Keys == old(cache.Keys)
    {
      ghost var s := State();
      Dirtied(s, k);
      SetChunk(k, cache[k].(dirty := true));
      assert State() == s.(live := s.live[k := s.live[k].(dirty := true)]);
    }

    // ---------- raw chunks ----------

    method WriteSize()
      modifies file`plainSize, file`cipherSize, this`sizeDirty
      ensures !sizeDirty
      ensures old(sizeDirty) ==> file.plainSize == size && file.cipherSize == ciphertextSize
      ensures !old(sizeDirty) ==> unchanged(file)
    {
      if sizeDirty {
        file.WriteHeader(size, ciphertextSize);
        sizeDirty := false;
      }
    }

    /** Stores the sizes of a file whose last chunk is on disk. */
    method SaveSize()
      requires Inv() && !DirtyAt(last)
      modifies file`plainSize, file`cipherSize, this`sizeDirty
      ensures Inv() && !sizeDirty
    {
      ChunkGood(State(), last);
      WriteSize();
    }

    /** Positions the raw file at a chunk, after checking it against the known sizes. */
    method SeekRawChunk(k: nat) returns (err: Error)
      requires Inv() && k <= last
      modifies file`position
      ensures err == OK && file.position == l.SeqnumToRaw(k)
    {
      if |file.data| < ciphertextSize {
        return InvalidSize;
      }
      DiskRange(State(), k);
      var raw := l.SeqnumToRaw(k);
      if raw > ciphertextSize {
        return InvalidSeek;
      }
      file.Seek(raw);
      return OK;
    }

    /** Updates a chunk in memory, wherever it is held. */
    method SetChunk(k: nat, ch: Chunk)
      requires CurrentOk() && k in Live() && ch.seqnum == k
      requires current.Single? ==> single.seqnum == k && !ch.dirty
      modifies this`cache, this`single
      ensures Live() == old(Live())[k := ch] && cache.Keys == old(cache.Keys) && CurrentOk()
      ensures old(At(k)) ==> Current() == ch
    {
      if current.Single? {
        single := ch;
      } else {
        cache := cache[k := ch];
      }
    }

    /** Writes a packed chunk over its raw bytes and updates the chunk. */
    method PutPacked(k: nat, packed: seq<byte>)
      requires CurrentOk() && k in Live() && Live()[k].seqnum == k && State().Shape() && k <= last && State().ChunkOk(k)
      requires file.position == l.SeqnumToRaw(k) && ciphertextSize + |packed| >= Live()[k].ciphertextSize
      requires current.Single? ==> single.seqnum == k
      modifies this`cache, this`single, this`ciphertextSize, file`data, file`position
      ensures CurrentOk() && State() == AfterFlush(old(State()), k, packed) && cache.Keys == old(cache.Keys)
      ensures current != NoChunk ==>
        Current().seqnum == old(Current().seqnum) && Current().offset == old(Current().offset)
    {
      DiskRange(State(), k);
      var ch := if current.Single? then single else cache[k];
      file.Write(packed);
      ciphertextSize := ciphertextSize + |packed| - ch.ciphertextSize;
      SetChunk(k, ch.(ciphertextSize := |packed|, dirty := false));
    }

    /** The same, for a dirty chunk and its packed content. */
    method StorePacked(k: nat, packed: seq<byte>)
      requires Inv() && DirtyAt(k) && k <= last && IsPacked(State(), k, packed)
      requires file.position == l.SeqnumToRaw(k)
      modifies this`cache, this`single, this`ciphertextSize, file`data, file`position
      ensures Inv() && k in Live() && !Live()[k].dirty && State().OnDisk(k)
      ensures cache.Keys == old(cache.Keys)
      ensures Live() == old(Live())[k := Live()[k]]
    {
      hide Cipher.Lawful, Store.OnDisk, Store.ConsistentBut;
      ChunkGood(State(), k);
      Flushed(State(), k, packed);
      DiskRange(State(), k);
      PutPacked(k, packed);
    }

    /** Packs a dirty chunk over its raw bytes. */
    method FlushChunk(k: nat) returns (err: Error)
      requires Inv() && DirtyAt(k)
      modifies this`cache, this`single, this`ciphertextSize, this`nonce, file`data, file`position
      ensures err == OK && Inv()
      ensures cache.Keys == old(cache.Keys) && Live().Keys == old(Live().Keys)
      ensures forall j :: j in Live() && j != k ==> Live()[j] == old(Live())[j]
      ensures k <= last && !DirtyAt(k) && State().OnDisk(k)
    {
      var ch := if current.Single? then single else cache[k];
      var packed := c.pack(ch.content, k, nonce);
      assert k <= last && IsPacked(State(), k, packed) && packed != [] by {
        ChunkGood(State(), k);
      }
      nonce := nonce + 1;
      err := SeekRawChunk(k);
      if err == OK {
        StorePacked(k, packed);
      }
    }

    method FlushLastChunk() returns (err: Error)
      requires Inv() && (eofSeqnum == last || current == NoChunk)
      modifies this`cache, this`single, this`ciphertextSize, this`nonce, file`data, file`position
      ensures err == OK && Inv()
      ensures cache.Keys == old(cache.Keys) && Live().Keys == old(Live().Keys)
      ensures !DirtyAt(last)
      ensures !current.InCache? ==> ciphertextSize == old(ciphertextSize) && cache == old(cache)
    {
      if current != NoChunk && Current().dirty && Current().seqnum == eofSeqnum {
        err := FlushChunk(Current().seqnum);
      } else {
        err := OK;
      }
    }

    // ---------- moving between chunks ----------

    predicate At(k: nat)
      requires CurrentOk()
      reads this`current, this`single, this`cache
    {
      current != NoChunk && Current().seqnum == k
    }

    /** Leaves the current chunk, which must not need writing. */
    method Detach()
      requires Inv() && !DirtyAt(last)
      modifies this`current
      ensures Inv() && current == NoChunk
    {
      ghost var before := State();
      if current.Single? {
        var k := single.seqnum;
        ChunkGood(before, k);
        Dropped(before, k);
        assert before.live - {k} == map[];
        current := NoChunk;
        assert State() == before.(live := before.live - {k});
      } else {
        current := NoChunk;
        assert State() == before;
      }
    }

    /** Displaces the least recently used chunk of a full cache, writing it first if it is dirty. */
    method MakeRoom()
      requires Inv() && current == NoChunk
      modifies this`cache, this`single, this`queue, this`ciphertextSize, this`nonce, file`data, file`position
      ensures Inv()
      ensures queue == if capacity > 0 && |old(queue)| == capacity then old(queue)[1..] else old(queue)
      ensures forall j :: j in cache ==> j in old(cache)
    {
      hide Store.ConsistentBut;
      if queue != [] && |queue| == capacity {
        var k := queue[0];
        ChunkGood(State(), k);
        if cache[k].dirty {
          var err := FlushChunk(k);
        }
        Evict();
      }
    }

    method Evict()
      requires Inv() && current == NoChunk && queue != []
      requires queue[0] in cache && queue[0] <= last && State().OnDisk(queue[0])
      modifies this`cache, this`queue
      ensures Inv() && queue == old(queue)[1..] && cache == old(cache) - {old(queue[0])}
    {
      hide Store.ConsistentBut;
      var k := queue[0];
      ghost var before := State();
      Dropped(before, k);
      cache := cache - {k};
      queue := queue[1..];
      assert State() == before.(live := before.live - {k});
    }

    /** Reads and decrypts a chunk, unless all of it is going to be overwritten. */
    method ReadRawChunk(k: nat, overwrite: bool) returns (err: Error, plain: seq<byte>, rawSize: nat)
      requires Inv() && k <= last && k !in Live()
      modifies file`position
      ensures err == OK && rawSize == State().DiskSize(k)
      ensures plain == if overwrite && rawSize != 0 then [] else State().Part(k)
    {
      hide CryptFile.QueueOk;
      plain, rawSize := [], 0;
      err := SeekRawChunk(k);
      if err != OK {
        return;
      }
      ghost var s := State();
      ChunkGood(s, k);
      ReadSize(s, k);
      DiskRange(s, k);
      var raw := l.SeqnumToRaw(k);
      var chunkSize := if l.MaxPlain(0) == 0 then ciphertextSize + l.extra else l.MaxPacked(k);
      if raw + chunkSize > ciphertextSize {
        chunkSize := ciphertextSize - raw;
      }
      assert s.DiskBytes(k) == file.data[raw..raw + chunkSize];
      if chunkSize != 0 {
        if !overwrite {
          var packed := file.Read(chunkSize);
          if |packed| != chunkSize {
            err := FileReadFailed;
            return;
          }
          match c.unpack(packed, k) {
            case None => err := InvalidSize; return;
            case Some(p) => plain := p;
          }
        }
        rawSize := chunkSize;
      }
    }

    /** The chunk at `pos` is neither current nor cached and is going to be entirely overwritten. */
    ghost predicate WillSkip(pos: nat, overwriteSize: nat)
      requires CurrentOk() && l.Valid()
      reads this`current, this`single, this`cache
    {
      var k := l.PosToSeqnum(pos);
      && !At(k) && k !in cache
      && pos == l.SeqnumToPos(k) && l.MaxPlain(k) != 0 && overwriteSize >= l.MaxPlain(k)
    }

    /** The current chunk is `k`; if it was brought in without being read, it is empty and nothing else is wrong. */
    ghost predicate InvOrHole(k: nat, skipped: bool)
      reads this`current, this`single, this`cache, this`content, this`ciphertextSize, this`last, file`data,
            this`cursor, this`queue, this`size, this`phantom, this`sizeDirty, file`plainSize, file`cipherSize
      ensures InvOrHole(k, skipped) ==>
        && State().Shape() && CurrentOk() && CursorOk() && QueueOk() && At(k) && k in Live() && k <= last
    {
      && (if skipped then InvBut(k) else Inv()) && CurrentOk() && At(k) && k in Live() && k <= last
      && (skipped ==> Current() == Chunk(k, false, 0, l.MaxPlain(k), State().DiskSize(k), []))
    }

    /** Brings chunk `k` into memory and makes it current. */
    method LoadCurrent(k: nat, offset: nat, overwrite: bool, cached: bool) returns (err: Error)
      requires Inv() && current == NoChunk && k <= last && k !in cache && !DirtyAt(last)
      requires if cached then useCache else cache == map[]
      requires cached && capacity > 0 ==> |queue| < capacity
      requires l.SeqnumToPos(k) + offset == cursor <= |content| && l.Fits(k, offset)
      modifies this`cache, this`single, this`current, this`queue, file`position
      ensures err == OK && InvBut(if overwrite && State().DiskSize(k) != 0 then k else -1)
      ensures current == if cached then InCache(k) else Single
      ensures var s := State();
        Current() == Chunk(k, false, offset, l.MaxPlain(k), s.DiskSize(k),
                           if overwrite && s.DiskSize(k) != 0 then [] else s.Part(k))
      ensures cached ==> cache == old(cache)[k := Current()]
      ensures !cached ==> cache == map[]
      ensures queue == if cached then old(queue) + [k] else old(queue)
    {
      hide Store.Shape, Store.ConsistentBut;
      var plain, rawSize;
      err, plain, rawSize := ReadRawChunk(k, overwrite);
      if err != OK {
        return;
      }
      var ch := Chunk(k, false, offset, l.MaxPlain(k), rawSize, plain);
      ghost var before := State();
      LoadedAny(before, ch);
      if !(overwrite && rawSize != 0) {
        Loaded(before, ch);
      }
      Enter(k, ch, cached);
      assert State() == before.(live := before.live[k := ch]);
    }

    /** Puts a chunk that is not in memory there, as the current one. */
    method Enter(k: nat, ch: Chunk, cached: bool)
      requires current == NoChunk && QueueOk() && k !in cache && ch.seqnum == k
      requires if cached then capacity > 0 ==> |queue| < capacity else cache == map[] && !ch.dirty
      modifies this`cache, this`single, this`current, this`queue
      ensures current == if cached then InCache(k) else Single
      ensures CurrentOk() && QueueOk() && Live() == old(Live())[k := ch] && Current() == ch
      ensures cache == if cached then old(cache)[k := ch] else old(cache)
      ensures queue == if cached then old(queue) + [k] else old(queue)
    {
      if cached {
        PushKey(queue, cache.Keys, k);
        assert cache[k := ch].Keys == cache.Keys + {k};
        cache := cache[k := ch];
        queue := queue + [k];
        current := InCache(k);
      } else {
        single := ch;
        current := Single;
      }
    }

    /** Makes a chunk that is already in the cache current, as the most recently used one. */
    method TouchCurrent(k: nat, offset: nat)
      requires Inv() && current == NoChunk && k in cache && !DirtyAt(last)
      requires l.SeqnumToPos(k) + offset == cursor <= |content| && l.Fits(k, offset)
      modifies this`cache, this`current, this`queue
      ensures Inv() && current == InCache(k)
      ensures cache == old(cache)[k := old(cache)[k].(offset := offset)]
      ensures queue == Use(old(queue), capacity, k)
    {
      hide Store.Shape, Store.ConsistentBut, Store.Part, Slice, Tracks, Cipher.Lawful;
      ghost var before := State();
      ChunkGood(before, k);
      UseHit(queue, cache.Keys, capacity, k);
      TracksMember(queue, cache.Keys, k);
      var ch := cache[k].(maxSize := l.MaxPlain(k), offset := offset);
      assert cache[k := ch].Keys == cache.Keys;
      cache := cache[k := ch];
      queue := Without(queue, k) + [k];
      current := InCache(k);
      Moved(before, k, offset);
      assert State() == before.(live := before.live[k := before.live[k].(offset := offset)]);
    }

    /** Leaves the current chunk and starts a new last chunk if `k` is the one after it. */
    method LeaveFor(k: nat)
      requires Inv() && (eofSeqnum == last || (current == NoChunk && k <= last))
      requires current == NoChunk ==> !DirtyAt(last)
      requires k > last ==> k == last + 1 && l.MaxPlain(last) != 0
                            && |content| == l.SeqnumToPos(last) + l.MaxPlain(last)
      modifies this`cache, this`single, this`current, this`ciphertextSize, this`nonce, this`last,
               file`data, file`position
      ensures Inv() && current == NoChunk && !DirtyAt(last)
      ensures last == if k > old(last) then k else old(last)
      ensures cache.Keys == old(cache.Keys)
      ensures !old(current).InCache? ==> ciphertextSize == old(ciphertextSize)
    {
      hide Store.Shape, Store.ConsistentBut;
      var err := FlushLastChunk();
      Detach();
      if k > last { NewLast(); }
    }

    /** Starts a new last chunk, empty and not in memory. */
    ghost method NewLast()
      requires Inv() && current == NoChunk && !DirtyAt(last) && l.MaxPlain(last) != 0
      requires |content| == l.SeqnumToPos(last) + l.MaxPlain(last)
      modifies this`last
      ensures Inv() && last == old(last) + 1 && !DirtyAt(last)
    {
      ghost var before := State();
      Advanced(before);
      last := last + 1;
      assert State() == before.(last := before.last + 1);
    }

    /** Makes chunk `k` current, from the cache or from the disk. */
    method Arrive(k: nat, offset: nat, overwrite: bool, cached: bool) returns (err: Error, ghost skipped: bool)
      requires Inv() && current == NoChunk && !DirtyAt(last) && k <= last
      requires cached ==> useCache
      requires !cached ==> cache == map[]
      requires l.SeqnumToPos(k) + offset == cursor <= |content| && l.Fits(k, offset)
      requires overwrite ==> offset == 0
      modifies this`cache, this`single, this`current, this`queue, this`ciphertextSize, this`nonce,
               file`data, file`position
      ensures err == OK && InvOrHole(k, skipped) && At(k) && current == if cached then InCache(k) else Single
      ensures skipped ==> overwrite && k !in old(cache)
      ensures overwrite && k !in old(cache) && State().Part(k) != [] ==> skipped
      ensures queue == if cached then Use(old(queue), capacity, k) else old(queue)
      ensures !cached ==> cache == map[]
      ensures !cached ==> ciphertextSize == old(ciphertextSize)
    {
      hide CryptFile.HeaderOk, Store.ConsistentBut;
      skipped := false;
      TracksMember(queue, cache.Keys, k);
      if cached && k in cache {
        TouchCurrent(k, offset);
        err := OK;
      } else {
        if cached {
          MakeRoom();
        }
        ChunkGood(State(), k);
        assert !DirtyAt(last);
        err := LoadCurrent(k, offset, overwrite, cached);
        skipped := overwrite && State().DiskSize(k) != 0;
      }
    }

    /** Moves the cursor and the offset inside the current chunk. */
    method SetOffset(offset: nat)
      requires Inv() && current != NoChunk && l.Fits(Current().seqnum, offset)
      requires l.SeqnumToPos(Current().seqnum) + offset <= |content|
      modifies this`cursor, this`cache, this`single
      ensures Inv() && current != NoChunk && Current() == old(Current()).(offset := offset)
      ensures cursor == l.SeqnumToPos(Current().seqnum) + offset && cache.Keys == old(cache.Keys)
    {
      hide Store.ConsistentBut;
      var k := Current().seqnum;
      ghost var before := State();
      Moved(before, k, offset);
      cursor := l.SeqnumToPos(k) + offset;
      SetChunk(k, Current().(offset := offset));
      assert State() == before.(live := before.live[k := before.live[k].(offset := offset)]);
    }

    method SeekInside(pos: nat)
      requires Inv() && pos <= |content| && At(l.PosToSeqnum(pos))
      modifies this`cursor, this`cache, this`single
      ensures Inv() && cursor == pos && At(l.PosToSeqnum(pos)) && cache.Keys == old(cache.Keys)
    {
      hide CryptFile.InvBut;
      PosInChunk(l, pos);
      SetOffset(pos - l.SeqnumToPos(l.PosToSeqnum(pos)));
    }

    /** Makes the chunk of `pos`, which is not behind the last one, current. */
    method ArriveAt(pos: nat, overwriteSize: nat, cached: bool) returns (err: Error, ghost skipped: bool)
      requires Inv() && current == NoChunk && !DirtyAt(last) && l.PosToSeqnum(pos) <= last && pos <= |content|
      requires var k := l.PosToSeqnum(pos); l.SeqnumToPos(k) <= pos && l.Fits(k, pos - l.SeqnumToPos(k))
      requires if cached then useCache else cache == map[]
      modifies this`cursor, this`cache, this`single, this`current, this`queue, this`ciphertextSize, this`nonce,
               this`eofSeqnum, file`data, file`position
      ensures var k := l.PosToSeqnum(pos);
        var overwrite := pos == l.SeqnumToPos(k) && l.MaxPlain(k) != 0 && overwriteSize >= l.MaxPlain(k);
        && err == OK && InvOrHole(k, skipped) && At(k) && cursor == pos
        && current == (if cached then InCache(k) else Single)
        && eofSeqnum == (if k > old(eofSeqnum) then k else old(eofSeqnum))
        && (skipped ==> overwrite && k !in old(cache))
        && (overwrite && k !in old(cache) && State().Part(k) != [] ==> skipped)
        && queue == (if cached then Use(old(queue), capacity, k) else old(queue))
        && (!cached ==> cache == map[] && ciphertextSize == old(ciphertextSize))
    {
      hide CryptFile.InvOrHole, Store.ConsistentBut;
      var k := l.PosToSeqnum(pos);
      cursor := pos;
      var offset := pos - l.SeqnumToPos(k);
      var overwrite := offset == 0 && l.MaxPlain(k) != 0 && overwriteSize >= l.MaxPlain(k);
      err, skipped := Arrive(k, offset, overwrite, cached);
      if k > eofSeqnum {
        eofSeqnum := k;
      }
    }

    /** Makes the chunk of `pos`, which is not the current one, current. */
    method SwitchTo(pos: nat, overwriteSize: nat, cached: bool) returns (err: Error, ghost skipped: bool)
      requires Inv() && pos <= |content| && !At(l.PosToSeqnum(pos))
      requires eofSeqnum == last || (current == NoChunk && l.PosToSeqnum(pos) <= last < eofSeqnum)
      requires current == NoChunk ==> !DirtyAt(last)
      requires if cached then useCache && !current.Single? else cache == map[]
      modifies this`cursor, this`cache, this`single, this`current, this`queue, this`ciphertextSize, this`nonce,
               this`eofSeqnum, this`last, file`data, file`position
      ensures var k := l.PosToSeqnum(pos);
        && err == OK && InvOrHole(k, skipped) && At(k) && cursor == pos
        && last == (if k > old(last) then k else old(last))
        && eofSeqnum == (if k > old(eofSeqnum) then k else old(eofSeqnum))
        && (skipped ==> old(WillSkip(pos, overwriteSize)))
        && (old(WillSkip(pos, overwriteSize)) && State().Part(k) != [] ==> skipped)
        && queue == (if cached then Use(old(queue), capacity, k) else old(queue))
        && (if cached then !current.Single? else cache == map[])
        && (!cached && !old(current).InCache? ==> ciphertextSize == old(ciphertextSize))
    {
      hide Cipher.Lawful, CryptFile.HeaderOk, CryptFile.InvOrHole, Store.ConsistentBut;
      PosInPart(State(), pos);
      PosInChunk(l, pos);
      var k := l.PosToSeqnum(pos);
      LeaveFor(k);
      assert k in old(cache) <==> k in cache;
      err, skipped := ArriveAt(pos, overwriteSize, cached);
    }

    /** Moves the cursor to `pos`, which makes the chunk of `pos` current. */
    method DoSeek(pos: nat, overwriteSize: nat, withCache: bool) returns (err: Error, ghost skipped: bool)
      requires CurrentOk() && l.Valid()
      requires pos <= size ==>
        && Inv() && (phantom == 0 || pos <= |content|)
        && (eofSeqnum == last || (current == NoChunk && l.PosToSeqnum(pos) <= last < eofSeqnum)
            || (At(l.PosToSeqnum(pos)) && last <= eofSeqnum))
        && (current == NoChunk ==> !DirtyAt(last))
        && (!(withCache && useCache) ==> cache == map[])
        && (current.Single? ==> !(withCache && useCache))
      modifies this`cursor, this`cache, this`single, this`current, this`queue, this`ciphertextSize, this`nonce,
               this`eofSeqnum, this`last, file`data, file`position
      ensures err == if pos > size then InvalidSeek else OK
      ensures err != OK ==> unchanged(this) && unchanged(file)
      ensures err == OK ==>
        var k := l.PosToSeqnum(pos);
        && InvOrHole(k, skipped) && At(k) && cursor == pos
        && last == (if k > old(last) then k else old(last))
        && eofSeqnum == (if k > old(eofSeqnum) then k else old(eofSeqnum))
        && (skipped ==> old(WillSkip(pos, overwriteSize)))
        && (old(WillSkip(pos, overwriteSize)) && State().Part(k) != [] ==> skipped)
        && queue == (if withCache && useCache && !old(At(k)) then Use(old(queue), capacity, k) else old(queue))
        && (if withCache && useCache then !current.Single? else cache == map[])
        && (!(withCache && useCache) && !old(current).InCache? ==> ciphertextSize == old(ciphertextSize))
    {
      hide CryptFile.InvBut;
      skipped := false;
      if pos > size {
        return InvalidSeek, false;
      }
      PosInPart(State(), pos);
      if At(l.PosToSeqnum(pos)) {
        assert l.PosToSeqnum(pos) in Live();
        SeekInside(pos);
        err := OK;
      } else {
        err, skipped := SwitchTo(pos, overwriteSize, withCache && useCache);
      }
    }

    // ---------- writing ----------

    /** Copies `d` into the current chunk and moves the cursor behind it; the size grows with the last chunk. */
    method PutInChunk(k: nat, d: seq<byte>)
      requires CurrentOk() && At(k) && !current.Single? && Current().offset <= |Current().content|
      requires l.SeqnumToPos(k) + Current().offset == cursor <= |content|
      modifies this`cache, this`single, this`size, this`sizeDirty, this`cursor, this`content
      ensures CurrentOk() && At(k) && k in Live() && cache.Keys == old(cache.Keys)
      ensures var ch := old(Current());
        && State() == AfterWrite(old(State()), k, ch.offset, d, Overwritten(ch, d))
        && Current() == Overwritten(ch, d) && cursor == old(cursor) + |d|
        && var grow := if k == eofSeqnum && ch.offset + |d| > |ch.content| then ch.offset + |d| - |ch.content| else 0;
        size == old(size) + grow && sizeDirty == (old(sizeDirty) || grow > 0)
    {
      hide Splice;
      var ch := Current();
      if ch.seqnum == eofSeqnum && ch.offset + |d| > |ch.content| {
        size := size + (ch.offset + |d| - |ch.content|);
        sizeDirty := true;
      }
      content := Splice(content, cursor, d);
      cursor := cursor + |d|;
      SetChunk(k, Overwritten(ch, d));
    }

    /** Copies a piece that fits into the current chunk and keeps account of what the size counts twice. */
    method PutCounted(k: nat, d: seq<byte>, ghost skipped: bool)
      requires eofSeqnum == last ==> InvOrHole(k, skipped) && !current.Single?
      requires eofSeqnum != last ==> Stalled(content) && k == 0
      requires d != [] && l.Fits(k, Current().offset + |d|) && (skipped ==> |d| == l.MaxPlain(k))
      modifies this`cache, this`single, this`size, this`sizeDirty, this`cursor, this`content, this`phantom
      ensures old(Current().offset <= |Current().content|) && cursor == old(cursor) + |d|
      ensures CurrentOk() && At(k) && Current() == Overwritten(old(Current()), d)
      ensures Live() == old(Live())[k := Current()] && cache.Keys == old(cache.Keys)
      ensures old(cursor) <= |old(content)| && content == Splice(old(content), old(cursor), d)
      ensures k != eofSeqnum ==> size == old(size)
      ensures !sizeDirty ==> !old(sizeDirty) && size == old(size)
      ensures eofSeqnum == last ==>
        && State().Consistent() && size == |content| + phantom && (!sizeDirty ==> |content| == |old(content)|)
        && phantom == old(phantom) + if skipped && k == last then |old(content)| - l.SeqnumToPos(last) else 0
    {
      hide Store.Part, Cipher.Lawful, Splice, Store.OnDisk;
      ghost var s, ch := State(), Current();
      if eofSeqnum == last {
        if !skipped { ChunkGood(s, k); }
        assert s.ConsistentBut(k);
      }
      hide Store.ConsistentBut;
      assert ch.offset <= |ch.content|;
      if eofSeqnum == last {
        phantom := phantom + if skipped && k == last then |content| - l.SeqnumToPos(last) else 0;
      }
      PutInChunk(k, d);
      if eofSeqnum == last {
        WriteStep(s, State(), k, d, skipped);
      }
    }

    /** Writes a piece that fits the current chunk. */
    method WriteInChunk(k: nat, d: seq<byte>, ghost skipped: bool)
      requires eofSeqnum == last ==> InvOrHole(k, skipped) && !current.Single? && writable
      requires eofSeqnum != last ==> Stalled(content) && k == 0
      requires d != [] && l.Fits(k, Current().offset + |d|) && (skipped ==> |d| == l.MaxPlain(k))
      modifies this`cache, this`single, this`size, this`sizeDirty, this`cursor, this`content, this`phantom
      ensures old(cursor) <= |old(content)| && content == Splice(old(content), old(cursor), d)
      ensures eofSeqnum == last ==>
        && Inv() && At(k) && cursor == old(cursor) + |d| && cache.Keys == old(cache.Keys)
        && phantom == old(phantom) + if skipped && k == last then |old(content)| - l.SeqnumToPos(last) else 0
      ensures eofSeqnum != last ==>
        k in cache && cache[k] == Overwritten(old(cache[k]), d) && cursor == old(cursor) + |d| && size == old(size)
    {
      hide Store.ConsistentBut, Store.Part, Cipher.Lawful, Store.OnDisk;
      PutCounted(k, d, skipped);
    }

    /** Where the write loop is. */
    ghost function Here(): Place
      requires CurrentOk() && current != NoChunk
      reads this`current, this`single, this`cache, this`queue, this`last, this`phantom
    {
      Place(Current().seqnum, last, queue, phantom)
    }

    /** Goes on to the next chunk when the current one is full. */
    method LeaveFull(writeSize: nat) returns (err: Error, ghost skipped: bool)
      requires eofSeqnum == last ==> Inv() && writable && current.InCache?
      requires eofSeqnum != last ==> Stalled(content) && l.Valid()
      requires Current().maxSize != 0 && Current().maxSize == Current().offset
      modifies this`cursor, this`cache, this`single, this`current, this`queue, this`ciphertextSize, this`nonce,
               this`eofSeqnum, this`last, file`data, file`position
      ensures old(eofSeqnum != last) ==> err == InvalidSeek && unchanged(this) && unchanged(file)
      ensures old(eofSeqnum == last) ==> err == OK && current.InCache? && cursor == old(cursor) && eofSeqnum == last
      ensures old(eofSeqnum == last) ==>
        var k := old(Current().seqnum) + 1;
        && InvOrHole(k, skipped) && Current().offset == 0 && l.HasIndex(k) && l.MaxPlain(k) != 0
        && last == (if k > old(last) then k else old(last)) && queue == Use(old(queue), capacity, k)
        && (skipped ==> writeSize >= l.MaxPlain(k))
        && l.SeqnumToPos(k) <= |content|
        && (skipped && |content| > l.SeqnumToPos(k) <==>
            k !in old(cache) && writeSize >= l.MaxPlain(k) && |content| > l.SeqnumToPos(k))
    {
      hide Store.OnDisk, CryptFile.InvBut;
      var k := Current().seqnum;
      if eofSeqnum == last { ChunkGood(State(), k); }
      hide Use, Tracks;
      NextChunk(l, k);
      ChunkOfPos(l, k + 1, l.SeqnumToPos(k + 1));
      err, skipped := DoSeek(l.SeqnumToPos(k + 1), writeSize, true);
    }

    /** Finds the chunk for the next piece and its size: at most one move to the next chunk. */
    method FindRoom(rest: nat) returns (n: nat, err: Error, ghost skipped: bool)
      requires rest > 0
      requires eofSeqnum == last ==> Inv() && writable && current.InCache?
      requires eofSeqnum != last ==> Stalled(content) && l.Valid()
      modifies this`cursor, this`cache, this`single, this`current, this`queue, this`ciphertextSize, this`nonce,
               this`eofSeqnum, this`last, file`data, file`position
      ensures old(eofSeqnum != last) ==> unchanged(this) && unchanged(file) && (err == OK ==> !skipped)
      ensures old(eofSeqnum != last) ==> var room := l.MaxPlain(0) - cursor;
        && err == (if room == 0 then InvalidSeek else OK) && (room > 0 ==> n == if rest < room then rest else room)
      ensures old(eofSeqnum == last) ==> err == OK && current.InCache? && cursor == old(cursor) && eofSeqnum == last
      ensures old(eofSeqnum == last) ==>
        var k := current.k;
        && InvOrHole(k, skipped) && 0 < n <= rest && l.Fits(k, Current().offset + n)
        && (skipped ==> n == l.MaxPlain(k))
        && MovesTo(l, capacity, old(Here()), old(Current()), old(cache.Keys), |content|, rest,
                   Here().(phantom := phantom + if skipped && k == last then |content| - l.SeqnumToPos(last) else 0))
    {
      hide Layout.SeqnumToPos, Use, Tracks, CryptFile.InvBut, Store.OnDisk;
      n, skipped, err := rest, false, OK;
      var k := Current().seqnum;
      if eofSeqnum == last { ChunkGood(State(), k); }
      if Current().maxSize != 0 {
        if Current().maxSize == Current().offset {
          err, skipped := LeaveFull(n);
          if err != OK {
            return;
          }
          k := k + 1;
        }
        if n > l.MaxPlain(k) - Current().offset {
          n := l.MaxPlain(k) - Current().offset;
        }
      }
    }

    /** One round of the write loop: room is found, then one piece is written. */
    method WriteOnce(rest: seq<byte>) returns (n: nat, err: Error)
      requires rest != []
      requires eofSeqnum == last ==> Inv() && writable && current.InCache?
      requires eofSeqnum != last ==> Stalled(content) && l.Valid()
      modifies this`cursor, this`cache, this`single, this`current, this`queue, this`ciphertextSize, this`nonce,
               this`eofSeqnum, this`last, this`size, this`sizeDirty, this`content, this`phantom,
               file`data, file`position
      ensures old(eofSeqnum == last) ==>
        && err == OK && 0 < n <= |rest| && Inv() && current.InCache? && eofSeqnum == last
        && old(cursor) <= |old(content)| && content == Splice(old(content), old(cursor), rest[..n])
        && cursor == old(cursor) + n
        && MovesTo(l, capacity, old(Here()), old(Current()), old(cache.Keys), |old(content)|, |rest|, Here())
      ensures old(eofSeqnum != last) ==> eofSeqnum != last && var room := l.MaxPlain(0) - old(cursor);
        if room == 0 then err == InvalidSeek && Stalled(old(content))
        else err == OK && n == (if |rest| < room then |rest| else room) && Stalled(old(content) + rest[..n])
    {
      hide CryptFile.CursorOk, MovesTo, Splice, CryptFile.InvBut;
      ghost var skipped;
      n, err, skipped := FindRoom(|rest|);
      if err != OK {
        return;
      }
      if eofSeqnum != last {
        SpliceEnd(content, rest[..n]);
        SpliceEnd(Current().content, rest[..n]);
      }
      WriteInChunk(Current().seqnum, rest[..n], skipped);
    }

    /** The write that counts the old bytes of the last chunk twice. */
    ghost predicate SkipsTail(n: nat)
      requires CurrentOk() && current != NoChunk
      reads this`current, this`single, this`cache, this`queue, this`content, this`cursor, this`last, this`phantom
    {
      Skips(l, capacity, Here(), |content|, cursor, n)
    }

    /** One round of the write loop that began at `start`. */
    method WriteRound(data: seq<byte>, done: nat, ghost start: Place, ghost content0: seq<byte>, ghost cursor0: nat)
      returns (done': nat, err: Error)
      requires done < |data|
      requires eofSeqnum == last ==>
        && Inv() && writable && current.InCache?
        && cursor == cursor0 + done && cursor0 <= |content0| && content == Splice(content0, cursor0, data[..done])
        && l.SeqnumToPos(start.last) <= |content0|
        && Progress(l, capacity, start, |content0|, cursor0, |data|, Here())
      requires eofSeqnum != last ==> Stalled(data[..done]) && l.Valid()
      modifies this`cursor, this`cache, this`single, this`current, this`queue, this`ciphertextSize, this`nonce,
               this`eofSeqnum, this`last, this`size, this`sizeDirty, this`content, this`phantom,
               file`data, file`position
      ensures err == OK ==> done < done' <= |data|
      ensures old(eofSeqnum == last) ==>
        && err == OK && Inv() && current.InCache? && eofSeqnum == last
        && cursor == cursor0 + done' && content == Splice(content0, cursor0, data[..done'])
        && Progress(l, capacity, start, |content0|, cursor0, |data|, Here())
      ensures old(eofSeqnum != last) ==>
        && eofSeqnum != last && (err != OK ==> done' == 0)
        && if done == l.MaxPlain(0) then err == InvalidSeek && Stalled(data[..done])
           else err == OK && Stalled(data[..done'])
    {
      hide MovesTo, Splice, Tracks, Store.ConsistentBut, CryptFile.InvBut, Slice;
      ghost var before, ch, keys := Here(), Current(), cache.Keys;
      if eofSeqnum == last { ChunkGood(State(), ch.seqnum); }
      hide Progress, MovesTo;
      var n;
      n, err := WriteOnce(data[done..]);
      if err != OK {
        return 0, err;
      }
      if eofSeqnum == last {
        ProgressStep(l, capacity, start, |content0|, cursor0, |data|, before, ch, keys, done, Here());
        SpliceMore(content0, cursor0, data, done, n);
      } else {
        TakeMore(data, done, n);
      }
      done' := done + n;
    }

    /** Writes `data` at the cursor. In a stale file the size does not follow, which the assertion behind the loop
        notices unless the seek to the second chunk is refused before. */
    method WriteImpl(data: seq<byte>) returns (done: nat, err: Error)
      requires eofSeqnum == last ==> Inv() && writable && current.InCache?
      requires eofSeqnum != last ==> Stale() && data != []
      modifies this`cursor, this`cache, this`single, this`current, this`queue, this`ciphertextSize, this`nonce,
               this`eofSeqnum, this`last, this`size, this`sizeDirty, this`content, this`phantom,
               file`data, file`position
      ensures old(eofSeqnum == last) ==>
        && err == OK && done == |data|
        && Inv() && current.InCache? && eofSeqnum == last
        && old(cursor) <= |old(content)| && content == Splice(old(content), old(cursor), data)
        && cursor == old(cursor) + |data|
        && Here().phantom == old(phantom)
             + (if old(SkipsTail(|data|)) then |old(content)| - l.SeqnumToPos(old(last)) else 0)
        && (Here().last == Here().k || old(Here().last != Here().k))
      ensures old(eofSeqnum != last) ==>
        eofSeqnum != last && done == 0 && err == Failure(data) && Stalled(FirstPart(data))
    {
      hide CryptFile.InvBut;
      done, err := 0, OK;
      ghost var start, content0, cursor0 := Here(), content, cursor;
      if eofSeqnum == last {
        SpliceEnds(content0, cursor0, data);
        ProgressStart(l, capacity, start, |content0|, cursor0, |data|);
      } else {
        StaleStalled();
      }
      while done < |data|
        invariant 0 <= done <= |data| && err == OK
        invariant old(eofSeqnum == last) ==>
          && Inv() && current.InCache? && eofSeqnum == last
          && cursor == cursor0 + done && content == Splice(content0, cursor0, data[..done])
          && Progress(l, capacity, start, |content0|, cursor0, |data|, Here())
        invariant old(eofSeqnum != last) ==> eofSeqnum != last && Stalled(data[..done])
      {
        done, err := WriteRound(data, done, start, content0, cursor0);
        if err != OK {
          return;
        }
      }
      if cursor > size {
        return 0, AssertionFailed;
      }
      if eofSeqnum == last {
        ProgressDone(l, capacity, start, |content0|, cursor0, |data|, Here(), Current().offset);
      }
    }

    // ---------- reading ----------

    /** Hands out `n` bytes of the current chunk. */
    method ReadInChunk(n: nat) returns (d: seq<byte>)
      requires Inv() && current != NoChunk && Current().offset + n <= |Current().content|
      modifies this`cursor, this`cache, this`single
      ensures Inv() && current != NoChunk && cursor == old(cursor) + n <= |content|
      ensures d == content[old(cursor)..cursor] && cache.Keys == old(cache.Keys)
    {
      hide Slice, Layout.SeqnumToRaw, CryptFile.InvBut, Store.ConsistentBut;
      var ch := Current();
      ChunkGood(State(), ch.seqnum);
      PartPiece(State(), ch.seqnum, ch.offset, n);
      PartFits(State(), ch.seqnum, ch.offset + n);
      d := ch.content[ch.offset..ch.offset + n];
      SetOffset(ch.offset + n);
    }

    /** Finds bytes to read before the end of the file, after moving to the next chunk if the current one is used up. */
    method FindAvailable() returns (availableSpace: nat, err: Error)
      requires Valid() && cursor < |content|
      modifies this`cursor, this`cache, this`single, this`current, this`queue, this`ciphertextSize, this`nonce,
               this`eofSeqnum, this`last, file`data, file`position
      ensures err == OK && Valid() && cursor == old(cursor)
      ensures availableSpace > 0 && Current().offset + availableSpace == |Current().content|
    {
      hide CryptFile.InvBut;
      err := OK;
      ChunkGood(State(), Current().seqnum);
      availableSpace := |Current().content| - Current().offset;
      if availableSpace == 0 {
        ghost var skipped;
        err, skipped := DoSeek(cursor, 0, true);
        PosInChunk(l, cursor);
        ChunkGood(State(), Current().seqnum);
        availableSpace := |Current().content| - Current().offset;
      }
    }

    /** One round of the read loop. */
    method ReadOnce(limit: nat) returns (d: seq<byte>, err: Error)
      requires Valid() && limit > 0 && cursor < |content|
      modifies this`cursor, this`cache, this`single, this`current, this`queue, this`ciphertextSize, this`nonce,
               this`eofSeqnum, this`last, file`data, file`position
      ensures err == OK && Valid()
      ensures 0 < |d| <= limit && cursor == old(cursor) + |d| <= |content| && d == content[old(cursor)..cursor]
    {
      var availableSpace;
      availableSpace, err := FindAvailable();
      d := ReadInChunk(if limit > availableSpace then availableSpace else limit);
    }

    /** Reads up to `maxSize` bytes at the cursor; nothing when the position asked for is at or past the end. */
    method Read(maxSize: nat) returns (d: seq<byte>, err: Error)
      requires Usable()
      modifies this`cursor, this`seekCursor, this`cache, this`single, this`current, this`queue, this`ciphertextSize,
               this`nonce, this`eofSeqnum, this`last, file`data, file`position
      ensures err == OK && Usable() && (old(Valid()) ==> Valid())
      ensures d == if old(seekCursor) >= |content| then [] else Piece(content, old(cursor), maxSize)
      ensures cursor == old(cursor) + |d| && seekCursor == old(seekCursor) + |d|
    {
      hide Store.ConsistentBut;
      d, err := [], OK;
      if maxSize == 0 || seekCursor >= size {
        return;
      }
      ghost var start := cursor;
      while |d| < maxSize && cursor != size
        invariant Valid() && err == OK && |d| <= maxSize
        invariant cursor == start + |d| <= |content| && d == content[start..cursor]
        invariant seekCursor == old(seekCursor)
        decreases maxSize - |d|
      {
        ghost var at := cursor;
        var piece;
        piece, err := ReadOnce(maxSize - |d|);
        d := d + piece;
        SliceJoin(content, start, at, cursor);
      }
      seekCursor := seekCursor + |d|;
      assert d == Piece(content, start, maxSize);
    }

    // ---------- flushing ----------

    /** Writes all dirty chunks and the stored sizes. */
    method DoFlush() returns (err: Error)
      requires Inv() && (current.Single? ==> !writable)
      modifies this`cache, this`single, this`ciphertextSize, this`nonce, this`sizeDirty,
               file`data, file`position, file`plainSize, file`cipherSize
      ensures err == OK && Inv() && cache.Keys == old(cache.Keys)
      ensures State().Clean() && (writable ==> Saved())
    {
      hide Store.DiskBytes, Tracks, Store.ConsistentBut;
      err := OK;
      if !writable {
        return;
      }
      var todo := cache.Keys;
      while todo != {}
        invariant Inv() && err == OK && cache.Keys == old(cache.Keys) && todo <= cache.Keys
        invariant forall j :: j in cache && j !in todo ==> !cache[j].dirty
        decreases todo
      {
        var k :| k in todo;
        if cache[k].dirty {
          err := FlushChunk(k);
        }
        todo := todo - {k};
      }
      SaveSize();
    }

    method Flush() returns (err: Error)
      requires Usable()
      modifies this`cache, this`single, this`ciphertextSize, this`nonce, this`sizeDirty,
               file`data, file`position, file`plainSize, file`cipherSize
      ensures err == OK && Usable() && (old(Valid()) ==> Valid())
      ensures writable ==> Saved() && StoredAs(l, c, file, content)
    {
      err := DoFlush();
      if writable {
        Rested(State());
        assert State().(live := map[], last := l.PosToSeqnum(|content|))
            == Store(l, c, content, file.data, file.cipherSize, l.PosToSeqnum(|content|), map[]);
      }
    }

    // ---------- dropping the cache, truncating ----------

    /** Forgets every chunk in memory. */
    method DropCache()
      requires Inv() && State().Clean()
      modifies this`cache, this`queue, this`current
      ensures Inv() && current == NoChunk && cache == map[]
    {
      ghost var s := State();
      Cleared(s);
      cache, queue, current := map[], [], NoChunk;
      assert State() == s.(live := map[]);
    }

    method InvalidateCache() returns (err: Error)
      requires Usable()
      modifies this`cursor, this`cache, this`single, this`current, this`queue, this`ciphertextSize, this`nonce,
               this`eofSeqnum, this`last, this`sizeDirty,
               file`data, file`position, file`plainSize, file`cipherSize
      ensures err == OK && Usable() && (old(Valid()) ==> Valid()) && cursor == old(cursor)
    {
      hide Cipher.Lawful, CryptFile.QueueOk, Store.ConsistentBut;
      err := DoFlush();
      DropCache();
      ghost var skipped;
      err, skipped := DoSeek(cursor, 0, true);
    }

    /** DoSeek to a position inside the file, between public calls. */
    method Reseek(pos: nat) returns (err: Error)
      requires Usable() && pos <= |content|
      modifies this`cursor, this`cache, this`single, this`current, this`queue, this`ciphertextSize, this`nonce,
               this`eofSeqnum, this`last, file`data, file`position
      ensures err == OK && cursor == pos && (old(Valid()) ==> Valid()) && (old(Stale()) ==> Stale())
      ensures pos == |content| ==> Current().seqnum == last
    {
      hide CryptFile.InvBut;
      PosInPart(State(), pos);
      ghost var k0 := last;
      ghost var skipped;
      err, skipped := DoSeek(pos, 0, true);
      assert pos == |content| ==> l.PosToSeqnum(pos) >= k0 by {
        PosInChunk(l, pos);
        if pos == |content| && l.PosToSeqnum(pos) < k0 {
          ChunkOrder(l, l.PosToSeqnum(pos), k0);
        }
      }
    }

    /** Writes at the end of the file, where nothing can be skipped. */
    method AppendAtEnd(d: seq<byte>) returns (err: Error)
      requires Usable() && writable && cursor == |content| && Current().seqnum == last && d != []
      modifies this`cursor, this`cache, this`single, this`current, this`queue, this`ciphertextSize, this`nonce,
               this`eofSeqnum, this`last, this`size, this`sizeDirty, this`content, this`phantom,
               file`data, file`position
      ensures old(Valid()) ==>
        err == OK && Valid() && content == old(content) + d && cursor == |content| && Current().seqnum == last
      ensures old(Stale()) ==> err == Failure(d) && Stalled(FirstPart(d))
    {
      var written;
      written, err := WriteImpl(d);
    }

    /** The first zeros that are appended to reach size `n` from zero. */
    ghost function FirstZeros(n: nat): seq<byte> {
      Zeros(if maxProcessingSize < n then maxProcessingSize else n)
    }

    /** Appends zeros up to size `n`, leaving the cursor where it was; in a stale file the first of them fail. */
    method Extend(n: nat) returns (err: Error)
      requires Usable() && writable && n > size && maxProcessingSize > 0
      modifies this`cursor, this`cache, this`single, this`current, this`queue, this`ciphertextSize, this`nonce,
               this`eofSeqnum, this`last, this`size, this`sizeDirty, this`content, this`phantom,
               file`data, file`position
      ensures old(Valid()) ==>
        err == OK && Valid() && content == old(content) + Zeros(n - |old(content)|) && cursor == old(cursor)
      ensures old(Stale()) ==> err == Failure(FirstZeros(n)) && Stalled(FirstPart(FirstZeros(n)))
    {
      hide Layout.SeqnumToPos, CryptFile.InvBut, CryptFile.QueueOk, Store.ConsistentBut;
      var prevPos, appendSize, doneSize := cursor, n - size, 0;
      ghost var content0 := content;
      var writeSize := if maxProcessingSize < appendSize then maxProcessingSize else appendSize;
      var buffer := Zeros(writeSize);
      err := Reseek(size);
      while doneSize < appendSize
        invariant (old(Valid()) ==> Valid()) && (old(Stale()) ==> Stale() && doneSize == 0 && buffer == FirstZeros(n))
        invariant err == OK && 0 <= doneSize <= appendSize && (doneSize == 0 ==> writeSize == |buffer|)
        invariant content == content0 + Zeros(doneSize) && cursor == |content| && Current().seqnum == last
        invariant 0 < writeSize <= |buffer| || doneSize == appendSize
        invariant writeSize <= appendSize - doneSize && buffer == Zeros(|buffer|)
      {
        err := AppendAtEnd(buffer[..writeSize]);
        ZerosMore(content0, doneSize, buffer, writeSize);
        if err != OK {
          return;
        }
        doneSize := doneSize + writeSize;
        writeSize := if writeSize < appendSize - doneSize then writeSize else appendSize - doneSize;
      }
      err := Reseek(prevPos);
    }

    /** Truncation works on one chunk at a time, beside the cache, which is empty meanwhile. */
    ghost predicate Peeking(n: nat)
      reads this`current, this`single, this`cache, this`content, this`ciphertextSize, this`last, file`data,
            this`cursor, this`queue, this`size, this`phantom, this`sizeDirty, file`plainSize, file`cipherSize,
            this`eofSeqnum
    {
      && Inv() && phantom == 0 && eofSeqnum == last && writable && !current.InCache? && cache == map[]
      && n == |content|
    }

    /** The chunk in memory ends, in the plaintext and in the raw file, where the next one begins. */
    lemma Peeked(pos: nat, k: nat)
      requires Peeking(|content|) && current.Single? && single.seqnum == k <= last && cursor == pos <= |content|
      ensures l.SeqnumToPos(k) + single.offset == pos && single.offset <= |single.content|
      ensures single.content[..single.offset] == content[l.SeqnumToPos(k)..pos]
      ensures l.SeqnumToPos(k) + |single.content| == if k < last then l.SeqnumToPos(k + 1) else |content|
      ensures l.SeqnumToRaw(k) + single.ciphertextSize == if k < last then l.SeqnumToRaw(k + 1) else ciphertextSize
      ensures l.SeqnumToPos(k) + |single.content| <= |content|
      ensures l.SeqnumToRaw(k) + single.ciphertextSize <= ciphertextSize
      ensures k < last ==> l.PosToSeqnum(l.SeqnumToPos(k + 1)) == k + 1
    {
      ChunkGood(State(), k);
      ChunkEnds(State(), k);
      PartPiece(State(), k, 0, pos - l.SeqnumToPos(k));
      if k < last {
        ChunkOrder(l, k, last);
        NextChunk(l, k);
        ChunkOfPos(l, k + 1, l.SeqnumToPos(k + 1));
      }
    }

    /** Loads a chunk without the cache. */
    method Peek(pos: nat, ghost k: nat) returns (err: Error)
      requires Peeking(|content|) && pos <= |content| && k == l.PosToSeqnum(pos) <= last
      modifies this`cursor, this`cache, this`single, this`current, this`queue, this`ciphertextSize, this`nonce,
               this`eofSeqnum, this`last, file`data, file`position
      ensures err == OK && Peeking(|content|) && last == old(last) && ciphertextSize == old(ciphertextSize)
      ensures current.Single? && single.seqnum == k && l.HasIndex(k)
      ensures l.SeqnumToPos(k) + single.offset == pos && single.offset <= |single.content|
      ensures single.content[..single.offset] == content[l.SeqnumToPos(k)..pos]
      ensures l.SeqnumToPos(k) + |single.content| == if k < last then l.SeqnumToPos(k + 1) else |content|
      ensures l.SeqnumToRaw(k) + single.ciphertextSize == if k < last then l.SeqnumToRaw(k + 1) else ciphertextSize
      ensures l.SeqnumToPos(k) + |single.content| <= |content|
      ensures l.SeqnumToRaw(k) + single.ciphertextSize <= ciphertextSize
      ensures k < last ==> l.PosToSeqnum(l.SeqnumToPos(k + 1)) == k + 1
    {
      hide Store.ConsistentBut, CryptFile.InvBut;
      PosInChunk(l, pos);
      ghost var skipped;
      err, skipped := DoSeek(pos, 0, false);
      Peeked(pos, k);
    }

    /** The loop of truncation: visits the chunks from the one at `n` to the last and takes their sizes off the
        totals. What remains ends where the first of them begins. */
    method Subtract(n: nat) returns (err: Error, newSize: nat, newCipher: nat, newRaw: nat, k0: nat, head: seq<byte>)
      requires Peeking(|content|) && n < |content| && l.PosToSeqnum(n) <= last
      modifies this`cursor, this`cache, this`single, this`current, this`queue, this`ciphertextSize, this`nonce,
               this`eofSeqnum, this`last, file`data, file`position
      ensures err == OK && Peeking(|content|)
      ensures k0 == l.PosToSeqnum(n) <= last && l.HasIndex(k0)
      ensures newSize == l.SeqnumToPos(k0) <= n && newCipher == newRaw == l.SeqnumToRaw(k0) <= ciphertextSize
      ensures head == content[newSize..n]
    {
      hide Store.DiskSize, CryptFile.InvBut, Layout.SeqnumToPos;
      newRaw := if |file.data| > ciphertextSize then ciphertextSize else |file.data|;
      ghost var k := l.PosToSeqnum(n);
      err := Peek(n, k);
      newSize, newCipher, k0, head := size, ciphertextSize, single.seqnum, single.content[..single.offset];
      while true
        invariant err == OK && Peeking(|content|)
        invariant current.Single? && single.seqnum == k && k0 <= k <= last && last == old(last)
        invariant l.SeqnumToPos(k) + |single.content| == if k < last then l.SeqnumToPos(k + 1) else |content|
        invariant l.SeqnumToRaw(k) + single.ciphertextSize
               == if k < last then l.SeqnumToRaw(k + 1) else ciphertextSize
        invariant k < last ==> l.PosToSeqnum(l.SeqnumToPos(k + 1)) == k + 1
        invariant newSize + l.SeqnumToPos(k) == |content| + l.SeqnumToPos(k0)
        invariant newCipher + l.SeqnumToRaw(k) == ciphertextSize + l.SeqnumToRaw(k0) && newRaw == newCipher
        invariant l.SeqnumToPos(k) + |single.content| <= |content|
        invariant l.SeqnumToRaw(k) + single.ciphertextSize <= ciphertextSize
        invariant l.SeqnumToRaw(k0) <= ciphertextSize
        decreases last - k
      {
        newSize := newSize - |single.content|;
        newCipher := newCipher - single.ciphertextSize;
        if newRaw < single.ciphertextSize {
          err := InvalidSize;
          return;
        }
        newRaw := newRaw - single.ciphertextSize;
        if single.seqnum == eofSeqnum {
          break;
        }
        var pos := l.SeqnumToPos(single.seqnum + 1);
        k := k + 1;
        err := Peek(pos, k);
      }
    }

    /** Cuts the file at the beginning of chunk `k0`, where the sizes are the given ones. */
    method CutAt(k0: nat, newSize: nat, newCipher: nat, newRaw: nat)
      requires Peeking(|content|) && k0 <= last && l.HasIndex(k0)
      requires newSize == l.SeqnumToPos(k0) <= |content| && newCipher == newRaw == l.SeqnumToRaw(k0) <= ciphertextSize
      modifies this`current, this`content, this`size, this`ciphertextSize, this`last, this`eofSeqnum, this`sizeDirty,
               file`data, file`plainSize, file`cipherSize
      ensures Peeking(newSize) && current == NoChunk && content == old(content)[..newSize] && last == k0
    {
      ghost var s := State();
      Cleared(s);
      ghost var bare := s.(live := map[]);
      ghost var t := Store(l, c, content[..newSize], file.data[..newRaw], newRaw, k0, map[]);
      Cut(bare, k0, t);
      sizeDirty := true;
      size := newSize;
      ciphertextSize := newCipher;
      eofSeqnum := k0;
      content, last := content[..newSize], k0;
      WriteSize();
      current := NoChunk;
      file.Truncate(newRaw);
      assert State() == t;
    }

    /** Drops the chunks from that of position `n` on; `head` is what they held before `n`. */
    method DropTail(n: nat) returns (head: seq<byte>, err: Error)
      requires Valid() && writable && 0 < n < size
      modifies this`cursor, this`cache, this`single, this`current, this`queue, this`ciphertextSize, this`nonce,
               this`eofSeqnum, this`last, this`size, this`sizeDirty, this`content,
               file`data, file`position, file`plainSize, file`cipherSize
      ensures err == OK && Peeking(|content|) && current == NoChunk && !DirtyAt(last)
      ensures content + head == old(content)[..n]
    {
      hide CryptFile.QueueOk, CryptFile.InvBut, Store.ConsistentBut;
      ghost var content0 := content;
      err := DoFlush();
      DropCache();
      PosInPart(State(), n);
      var newSize, newCipher, newRaw, k0;
      err, newSize, newCipher, newRaw, k0, head := Subtract(n);
      CutAt(k0, newSize, newCipher, newRaw);
      SliceJoin(content0, 0, newSize, n);
    }

    /** Shortens the file to `n` bytes, none of which is the last one. */
    method Shrink(n: nat) returns (err: Error)
      requires Valid() && writable && 0 < n < size
      modifies this`cursor, this`cache, this`single, this`current, this`queue, this`ciphertextSize, this`nonce,
               this`eofSeqnum, this`last, this`size, this`sizeDirty, this`content, this`phantom,
               file`data, file`position, file`plainSize, file`cipherSize
      ensures err == OK && Valid()
      ensures content == old(content)[..n] && cursor == if old(cursor) < n then old(cursor) else n
    {
      var newPos := if cursor > n then n else cursor;
      var head;
      head, err := DropTail(n);
      err := SeekEnd();
      if head != [] {
        err := AppendAtEnd(head);
      }
      if size != n {
        err := Aborted;
        return;
      }
      err := Reseek(newPos);
    }

    /** After the cut: back to the cache, at the end of what remains. */
    method SeekEnd() returns (err: Error)
      requires Peeking(|content|) && current == NoChunk && !DirtyAt(last)
      modifies this`cursor, this`cache, this`single, this`current, this`queue, this`ciphertextSize, this`nonce,
               this`eofSeqnum, this`last, file`data, file`position
      ensures err == OK && Valid() && cursor == |content| && Current().seqnum == last
    {
      hide CryptFile.InvBut;
      PosInPart(State(), size);
      PosInChunk(l, size);
      ghost var k0 := last;
      if l.PosToSeqnum(size) < k0 {
        ChunkOrder(l, l.PosToSeqnum(size), k0);
      }
      ghost var skipped;
      err, skipped := DoSeek(size, 0, true);
    }

    /** Empties the file. The number of the last chunk is not reset. */
    method Clear() returns (err: Error)
      requires Valid() && writable && size != 0
      modifies this`cursor, this`cache, this`single, this`current, this`queue, this`ciphertextSize, this`nonce,
               this`eofSeqnum, this`last, this`size, this`sizeDirty, this`content, this`phantom,
               file`data, file`position, file`plainSize, file`cipherSize
      ensures err == OK && Inv() && content == [] && cursor == 0 && current == InCache(0)
      ensures last == 0 && phantom == 0 && eofSeqnum == old(eofSeqnum)
      ensures (Valid() <==> old(eofSeqnum) == 0) && Usable()
    {
      hide CryptFile.InvBut;
      Discard();
      ghost var skipped;
      err, skipped := DoSeek(0, 0, true);
    }

    method Discard()
      requires Valid() && writable
      modifies this`cache, this`current, this`queue, this`single, this`ciphertextSize, this`nonce, this`last, this`size,
               this`sizeDirty, this`content, this`phantom, file`data, file`position, file`plainSize, file`cipherSize
      ensures Inv() && content == [] && last == 0 && phantom == 0 && current == NoChunk && cache == map[]
    {
      var err := DoFlush();
      DropCache();
      ForgetContent();
    }

    method ForgetContent()
      requires Inv() && writable && current == NoChunk && cache == map[]
      modifies this`last, this`size, this`ciphertextSize, this`sizeDirty, this`content, this`phantom,
               file`plainSize, file`cipherSize
      ensures Inv() && content == [] && last == 0 && phantom == 0
    {
      size, ciphertextSize, sizeDirty := 0, 0, true;
      content, last, phantom := [], 0, 0;
      WriteSize();
      EmptyStore(State());
    }

    // ---------- the public operations ----------

    /** What a caller sees: the plaintext and the position. */
    ghost function View(): Plain
      reads this`content, this`seekCursor
    {
      Plain(content, seekCursor)
    }

    /** The cursor follows the position asked for, unless that is past the end. */
    ghost predicate InSync()
      reads this`cursor, this`seekCursor, this`size
    {
      seekCursor <= size ==> cursor == seekCursor
    }

    function Size(): nat
      reads this`size
    {
      size
    }

    /** Seeking to the place where the cursor already is does nothing, even if another position was asked for since. */
    method Seek(pos: nat) returns (err: Error)
      requires Usable() && InSync()
      modifies this`cursor, this`seekCursor, this`cache, this`single, this`current, this`queue, this`ciphertextSize,
               this`nonce, this`eofSeqnum, this`last, file`data, file`position
      ensures err == OK && Usable() && InSync() && (old(Valid()) ==> Valid()) && (old(Stale()) ==> Stale())
      ensures View() == Step(old(View()), writable, SeekTo(pos)).0
         <==> !(pos == old(cursor) && old(seekCursor) > old(size))
      ensures pos == old(cursor) ==> View() == old(View())
      ensures cursor == if pos <= size then pos else old(cursor)
    {
      hide CryptFile.InvBut;
      if pos == cursor {
        return OK;
      }
      seekCursor := pos;
      if pos > size {
        return OK;
      }
      err := Reseek(pos);
    }

    /** Fills the gap between the end and a position past it with zeros and moves there. */
    method FillGap() returns (err: Error)
      requires Usable() && writable && seekCursor > size && maxProcessingSize > 0
      modifies this`cursor, this`cache, this`single, this`current, this`queue, this`ciphertextSize,
               this`nonce, this`eofSeqnum, this`last, this`size, this`sizeDirty, this`content, this`phantom,
               file`data, file`position
      ensures old(Valid()) ==>
        && err == OK && Valid() && content == Resized(old(content), seekCursor) && cursor == seekCursor
        && forall n :: !SkipsTail(n)
      ensures old(Stale()) ==> err == Failure(FirstZeros(seekCursor)) && Stalled(FirstPart(FirstZeros(seekCursor)))
    {
      hide CryptFile.InvBut;
      var newSize := seekCursor;
      err := Extend(newSize);
      if err != OK {
        return;
      }
      err := Reseek(newSize);
    }

    /** Writing at the position, which is where the cursor is. */
    method WriteHere(data: seq<byte>) returns (done: nat, err: Error)
      requires Usable() && writable && cursor == seekCursor && data != []
      modifies this`cursor, this`seekCursor, this`cache, this`single, this`current, this`queue, this`ciphertextSize,
               this`nonce, this`eofSeqnum, this`last, this`size, this`sizeDirty, this`content, this`phantom,
               file`data, file`position
      ensures old(Valid()) ==>
        && err == OK && done == |data| && cursor == seekCursor == old(seekCursor) + |data|
        && old(seekCursor) <= |old(content)| && content == Splice(old(content), old(seekCursor), data)
        && (Valid() <==> !old(SkipsTail(|data|)))
        && size == |content| + if old(SkipsTail(|data|)) then old(size) - l.SeqnumToPos(old(eofSeqnum)) else 0
      ensures old(Stale()) ==>
        err == Failure(data) && done == 0 && seekCursor == old(seekCursor) && Stalled(FirstPart(data))
    {
      hide CryptFile.InvBut;
      done, err := WriteImpl(data);
      if err != OK {
        return;
      }
      seekCursor := seekCursor + done;
    }

    /** Writing at the position, after filling a gap with zeros if it is past the end. The size goes wrong exactly when
        the write skips reading a partial last chunk, or the file is stale: then the call fails and the position stays
        while part of the bytes are there. Growing that is refused is reported as one byte written. */
    method Write(data: seq<byte>) returns (done: nat, err: Error)
      requires Usable() && InSync()
      requires data != [] && writable && seekCursor > size ==> maxProcessingSize > 0
      modifies this`cursor, this`seekCursor, this`cache, this`single, this`current, this`queue, this`ciphertextSize,
               this`nonce, this`eofSeqnum, this`last, this`size, this`sizeDirty, this`content, this`phantom,
               file`data, file`position
      ensures Usable() <==>
        !(writable && data != [] && (old(LooksStale()) || old(seekCursor <= size && SkipsTail(|data|))))
      ensures old(Valid()) ==> (Valid() <==> Usable())
      ensures Usable() ==> InSync()
      ensures !(old(LooksStale()) && writable && data != []) ==>
        && View() == Step(old(View()), writable, WriteAll(data)).0
        && Step(old(View()), writable, WriteAll(data)).1 == (if err != OK then Refused else Written(done))
        && size == |content| + if Usable() then 0 else old(size) - l.SeqnumToPos(old(eofSeqnum))
      ensures old(LooksStale()) && writable && data != [] ==>
        var first := if seekCursor > 0 then FirstZeros(seekCursor) else data;
        && content == FirstPart(first) && cursor == |content| && size == 0 && seekCursor == old(seekCursor)
        && if seekCursor > 0 && Failure(first) == InvalidSeek then done == 1 && err == OK
           else done == 0 && err == Failure(first)
    {
      hide CryptFile.InvBut;
      if data == [] {
        return 0, OK;
      }
      if !writable {
        return 0, FileWriteFailed;
      }
      StaleLooks();
      if seekCursor > size {
        err := FillGap();
        if err == AssertionFailed {
          return 0, err;
        }
        if err != OK {
          return 1, OK;
        }
      }
      done, err := WriteHere(data);
    }

    /** Any size. Emptying a file of several chunks leaves it stale, so that growing it afterwards fails, and growing a
        file past a position that was beyond the end leaves the cursor behind that position. */
    method Truncate(n: nat) returns (err: Error)
      requires Usable() && InSync() && writable && (n > size ==> maxProcessingSize > 0)
      modifies this`cursor, this`cache, this`single, this`current, this`queue, this`ciphertextSize, this`nonce,
               this`eofSeqnum, this`last, this`size, this`sizeDirty, this`content, this`phantom,
               file`data, file`position, file`plainSize, file`cipherSize
      ensures err == OK <==> !(old(LooksStale()) && n > 0)
      ensures err == OK ==>
        && View() == Step(old(View()), writable, Resize(n)).0
        && cursor == (if old(cursor) < n then old(cursor) else n)
        && Usable() && (Valid() <==> !(n == 0 && old(eofSeqnum) > 0))
        && (InSync() <==> !(old(size) < seekCursor <= n))
      ensures err != OK ==>
        && err == Failure(FirstZeros(n)) && content == FirstPart(FirstZeros(n)) && cursor == |content| && size == 0
        && !Usable()
    {
      hide CryptFile.QueueOk, CryptFile.InvBut;
      StaleLooks();
      if n == size {
        return OK;
      }
      if n > size {
        err := Extend(n);
      } else if n == 0 {
        err := Clear();
      } else {
        err := Shrink(n);
      }
    }

    /** The calls that are followed: those that end, and truncation of a writable file. */
    predicate Followed(op: Op)
      reads this`size, this`seekCursor
    {
      match op
      case WriteAll(d) => d != [] && writable && seekCursor > size ==> maxProcessingSize > 0
      case Resize(n) => writable && (n > size ==> maxProcessingSize > 0)
      case _ => true
    }

    /** The calls that behave as on an ordinary file, told from the fields before the call. */
    predicate Sound(op: Op)
      requires CurrentOk() && current != NoChunk
      reads this`current, this`single, this`cache, this`queue, this`size, this`cursor, this`seekCursor, this`eofSeqnum
    {
      match op
      case SeekTo(p) => !(p == cursor && seekCursor > size)
      case WriteAll(d) =>
        || d == [] || !writable
        || (!LooksStale()
            && (seekCursor > size
                || !Skips(l, capacity, Place(Current().seqnum, eofSeqnum, queue, 0), size, cursor, |d|)))
      case Resize(n) => (LooksStale() ==> n == 0) && !(size < seekCursor <= n)
      case _ => true
    }

    method PerformRead(n: nat) returns (out: Out)
      requires Usable() && InSync()
      modifies this`cursor, this`seekCursor, this`cache, this`single, this`current, this`queue, this`ciphertextSize,
               this`nonce, this`eofSeqnum, this`last, file`data, file`position
      ensures Usable() && InSync() && (View(), out) == Step(old(View()), writable, ReadUpTo(n))
    {
      var d, err := Read(n);
      out := Data(d);
    }

    method PerformWrite(d: seq<byte>) returns (out: Out)
      requires Usable() && InSync() && Followed(WriteAll(d))
      modifies this`cursor, this`seekCursor, this`cache, this`single, this`current, this`queue, this`ciphertextSize,
               this`nonce, this`eofSeqnum, this`last, this`size, this`sizeDirty, this`content, this`phantom,
               file`data, file`position
      ensures old(Sound(WriteAll(d))) <==>
        Usable() && InSync() && (View(), out) == Step(old(View()), writable, WriteAll(d))
    {
      var done, err := Write(d);
      out := if err == OK then PlainSpec.Written(done) else Refused;
    }

    method PerformSeek(p: nat) returns (out: Out)
      requires Usable() && InSync()
      modifies this`cursor, this`seekCursor, this`cache, this`single, this`current, this`queue, this`ciphertextSize,
               this`nonce, this`eofSeqnum, this`last, file`data, file`position
      ensures old(Sound(SeekTo(p))) <==>
        Usable() && InSync() && (View(), out) == Step(old(View()), writable, SeekTo(p))
    {
      var err := Seek(p);
      out := Done;
    }

    method PerformResize(n: nat) returns (out: Out)
      requires Usable() && InSync() && Followed(Resize(n))
      modifies this`cursor, this`cache, this`single, this`current, this`queue, this`ciphertextSize, this`nonce,
               this`eofSeqnum, this`last, this`size, this`sizeDirty, this`content, this`phantom,
               file`data, file`position, file`plainSize, file`cipherSize
      ensures old(Sound(Resize(n))) <==>
        Usable() && InSync() && (View(), out) == Step(old(View()), writable, Resize(n))
    {
      var err := Truncate(n);
      out := Done;
    }

    /** One call does what it does on an ordinary file exactly if it is sound. */
    method Perform(op: Op) returns (out: Out)
      requires Usable() && InSync() && Followed(op)
      modifies this`cursor, this`seekCursor, this`cache, this`single, this`current, this`queue, this`ciphertextSize,
               this`nonce, this`eofSeqnum, this`last, this`size, this`sizeDirty, this`content, this`phantom,
               file`data, file`position, file`plainSize, file`cipherSize
      ensures old(Sound(op)) <==> Usable() && InSync() && (View(), out) == Step(old(View()), writable, op)
    {
      hide CryptFile.QueueOk, Cipher.Lawful;
      var err: Error;
      out := Done;
      match op {
        case SeekTo(p) => out := PerformSeek(p);
        case ReadUpTo(n) => out := PerformRead(n);
        case WriteAll(d) => out := PerformWrite(d);
        case Resize(n) => out := PerformResize(n);
        case FlushAll => err := Flush();
        case DropCache => err := InvalidateCache();
      }
    }

    /** Any run of calls, as long as each is sound where it is made, gives the results of the same run on an ordinary
        file. */
    method PerformAll(ops: seq<Op>) returns (outs: seq<Out>)
      requires Usable() && InSync()
      modifies this`cursor, this`seekCursor, this`cache, this`single, this`current, this`queue, this`ciphertextSize,
               this`nonce, this`eofSeqnum, this`last, this`size, this`sizeDirty, this`content, this`phantom,
               file`data, file`position, file`plainSize, file`cipherSize
      ensures Usable() && InSync() && |outs| <= |ops|
      ensures (View(), outs) == PlainSpec.Run(old(View()), writable, ops[..|outs|])
      ensures |outs| < |ops| ==> !Followed(ops[|outs|]) || !Sound(ops[|outs|])
    {
      hide Store.ConsistentBut;
      outs := [];
      while |outs| < |ops| && Followed(ops[|outs|]) && Sound(ops[|outs|])
        invariant |outs| <= |ops| && Usable() && InSync()
        invariant (View(), outs) == PlainSpec.Run(old(View()), writable, ops[..|outs|])
        decreases |ops| - |outs|
      {
        ghost var done := ops[..|outs| + 1];
        assert done[..|done| - 1] == ops[..|outs|];
        var out := Perform(ops[|outs|]);
        outs := outs + [out];
      }
    }
  }
}