/** What the write loop of CryptFile does to the order of the cache and to the last chunk, and when it goes wrong. */
module WriteLoop {
  import opened CryptLayout
  import opened ChunkStore
  import opened LruQueue

  /** Where the write loop is: current chunk, last chunk, cache order, and bytes counted twice so far. */
  datatype Place = Place(k: nat, last: nat, queue: seq<nat>, phantom: nat)

  /** How one round of the write loop moves from chunk `ch` with `rest` bytes to go. A partial last chunk that is not
      read is counted twice. */
  ghost predicate MovesTo(l: Layout, capacity: nat, a: Place, ch: Chunk, keys: set<nat>, size: nat, rest: nat,
                          b: Place)
  {
    if ch.maxSize == 0 || ch.maxSize != ch.offset then b == a
    else
      var k := a.k + 1;
      && b.k == k && b.last == (if k > a.last then k else a.last) && b.queue == Use(a.queue, capacity, k)
      && b.phantom == a.phantom + if k == a.last && k !in keys && rest >= l.MaxPlain(k) && size > l.SeqnumToPos(k)
                                  then size - l.SeqnumToPos(k) else 0
  }

  /** A write of `n` bytes from position `cursor` in chunk `a.k` covers all of a partly filled last chunk, starts in
      an earlier chunk, and the cache will not hold the last chunk when the write gets there. */
  predicate Skips(l: Layout, capacity: nat, a: Place, size: nat, cursor: nat, n: nat) {
    && a.k < a.last
    && cursor + n >= l.SeqnumToPos(a.last) + l.MaxPlain(a.last)
    && size > l.SeqnumToPos(a.last)
    && a.last !in UseRange(a.queue, capacity, a.k + 1, a.last)
  }

  /** The write loop that started at `a` on a file of `size` bytes has got to `b`. */
  ghost predicate Progress(l: Layout, capacity: nat, a: Place, size: nat, cursor: nat, n: nat, b: Place) {
    && a.k <= b.k && b.last == (if b.k > a.last then b.k else a.last)
    && b.queue == UseRange(a.queue, capacity, a.k + 1, b.k + 1)
    && b.phantom == a.phantom
         + if a.k < a.last <= b.k && Skips(l, capacity, a, size, cursor, n) then size - l.SeqnumToPos(a.last) else 0
  }

  lemma ProgressStart(l: Layout, capacity: nat, a: Place, size: nat, cursor: nat, n: nat)
    requires a.k <= a.last
    ensures Progress(l, capacity, a, size, cursor, n, a)
  {
  }

  lemma ProgressStep(l: Layout, capacity: nat, a: Place, size: nat, cursor: nat, n: nat,
                     b: Place, ch: Chunk, keys: set<nat>, done: nat, c: Place)
    requires l.Valid() && l.HasIndex(b.k) && l.SeqnumToPos(a.last) <= size && cursor <= size
    requires Progress(l, capacity, a, size, cursor, n, b) && Tracks(b.queue, keys) && done <= n
    requires ch.seqnum == b.k && ch.maxSize == l.MaxPlain(b.k)
    requires cursor + done == l.SeqnumToPos(b.k) + ch.offset
    requires MovesTo(l, capacity, b, ch, keys, if cursor + done > size then cursor + done else size, n - done, c)
    ensures Progress(l, capacity, a, size, cursor, n, c)
  {
    if ch.maxSize != 0 && ch.maxSize == ch.offset {
      NextChunk(l, b.k);
      TracksMember(b.queue, keys, b.k + 1);
      assert UseRange(a.queue, capacity, a.k + 1, c.k + 1) == Use(b.queue, capacity, c.k);
    }
  }

  /** After the whole write the bytes counted twice are exactly those of a skipped last chunk. */
  lemma ProgressDone(l: Layout, capacity: nat, a: Place, size: nat, cursor: nat, n: nat, b: Place, offset: nat)
    requires l.Valid() && l.HasIndex(b.k) && l.HasIndex(a.last) && l.Fits(b.k, offset)
    requires Progress(l, capacity, a, size, cursor, n, b) && cursor + n == l.SeqnumToPos(b.k) + offset
    ensures b.phantom == a.phantom
              + if Skips(l, capacity, a, size, cursor, n) then size - l.SeqnumToPos(a.last) else 0
    ensures a.k <= b.k && b.last == if b.k > a.last then b.k else a.last
  {
    if Skips(l, capacity, a, size, cursor, n) && b.k < a.last {
      ChunkOrder(l, b.k, a.last);
      assert false;
    }
  }
}
