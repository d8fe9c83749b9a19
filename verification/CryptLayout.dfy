/** How an encrypted file is cut into chunks: the position arithmetic of CryptFile, the slice of the plaintext that
    a chunk holds, and what a chunk cipher has to satisfy for that arithmetic to work. */
module CryptLayout {
  import opened Wrappers

  newtype byte = x: int | 0 <= x < 256

  /** Chunk sizes from the container descriptor. A zero `chunkMax` means chunks without a limit; a zero `firstMax`
      means that the first chunk is like the others. `extra` is what packing adds to a chunk at most. */
  datatype Layout = Layout(firstMax: nat, chunkMax: nat, extra: nat) {

    /** A limited first chunk followed by unlimited ones is not a layout the position arithmetic supports. */
    predicate Valid() {
      chunkMax > 0 || firstMax == 0
    }

    /** Largest plaintext of chunk `k`; zero stands for no limit. */
    function MaxPlain(k: nat): nat {
      if k == 0 && firstMax != 0 then firstMax else chunkMax
    }

    function MaxPacked(k: nat): nat {
      MaxPlain(k) + extra
    }

    function SeqnumToPos(k: nat): nat {
      if k == 0 then 0 else MaxPlain(0) + (k - 1) * MaxPlain(k)
    }

    /** Position of the packed chunk, relative to the end of the descriptor. */
    function SeqnumToRaw(k: nat): nat {
      if k == 0 then 0 else MaxPacked(0) + (k - 1) * MaxPacked(k)
    }

    function PosToSeqnum(pos: nat): nat {
      var first := if firstMax == 0 then chunkMax else firstMax;
      if pos < first || first == 0 then 0
      else if pos == first || chunkMax == 0 then 1
      else 1 + (pos - first) / chunkMax
    }

    ghost predicate Fits(k: nat, n: nat) {
      MaxPlain(k) == 0 || n <= MaxPlain(k)
    }

    /** Chunk `k` can be followed by another one only if its size is limited. */
    ghost predicate HasIndex(k: nat) {
      k == 0 || MaxPlain(0) != 0
    }
  }

  /** The part of plaintext `s` that belongs to chunk `k`. */
  ghost function Slice(l: Layout, s: seq<byte>, k: nat): (r: seq<byte>)
    requires l.SeqnumToPos(k) <= |s|
    ensures l.Fits(k, |r|)
  {
    var begin := l.SeqnumToPos(k);
    if l.MaxPlain(k) == 0 || begin + l.MaxPlain(k) > |s| then s[begin..] else s[begin..begin + l.MaxPlain(k)]
  }

  /** Overwrites `s` with `d` from position `p` on, growing it when `d` reaches past the end. */
  function Splice<T>(s: seq<T>, p: nat, d: seq<T>): (r: seq<T>)
    requires p <= |s|
    ensures |r| == if p + |d| < |s| then |s| else p + |d|
  {
    s[..p] + d + (if p + |d| < |s| then s[p + |d|..] else [])
  }

  /** Up to `n` elements of `s` from position `p` on. */
  function Piece<T>(s: seq<T>, p: nat, n: nat): (r: seq<T>)
    requires p <= |s|
    ensures |r| == if p + n <= |s| then n else |s| - p
  {
    s[p..if p + n <= |s| then p + n else |s|]
  }

  lemma SliceJoin<T>(s: seq<T>, i: nat, j: nat, k: nat)
    requires i <= j <= k <= |s|
    ensures s[i..j] + s[j..k] == s[i..k]
  {
  }

  lemma PrefixSlice<T>(s: seq<T>, i: nat, j: nat, n: nat)
    requires i <= j <= n <= |s|
    ensures s[..n][i..j] == s[i..j]
  {
  }

  lemma SpliceAt<T>(s: seq<T>, p: nat, d: seq<T>, i: nat)
    requires p <= |s|
    requires i < |Splice(s, p, d)|
    ensures Splice(s, p, d)[i] == if p <= i < p + |d| then d[i - p] else s[i]
  {
  }

  lemma PieceAt<T>(s: seq<T>, p: nat, n: nat, i: nat)
    requires p <= |s| && i < |Piece(s, p, n)|
    ensures p + i < |s| && i < n && Piece(s, p, n)[i] == s[p + i]
  {
  }

  /** A write leaves the bytes before and after it alone. */
  lemma SpliceApart<T>(s: seq<T>, p: nat, d: seq<T>, lo: nat, hi: nat)
    requires p <= |s| && lo <= hi <= |s|
    requires hi <= p || p + |d| <= lo
    ensures Splice(s, p, d)[lo..hi] == s[lo..hi]
  {
    forall i | lo <= i < hi ensures Splice(s, p, d)[i] == s[i] {
      SpliceAt(s, p, d, i);
    }
  }

  lemma TakeMore<T>(s: seq<T>, i: nat, n: nat)
    requires i + n <= |s|
    ensures s[..i] + s[i..][..n] == s[..i + n]
  {
  }

  lemma SpliceEnd<T>(s: seq<T>, d: seq<T>)
    ensures Splice(s, |s|, d) == s + d
  {
  }

  /** Two adjacent writes are one write of both pieces. */
  lemma SpliceTwice<T>(s: seq<T>, p: nat, d: seq<T>, e: seq<T>)
    requires p <= |s|
    ensures Splice(Splice(s, p, d), p + |d|, e) == Splice(s, p, d + e)
  {
    var once := Splice(s, p, d);
    var both := Splice(s, p, d + e);
    var twice := Splice(once, p + |d|, e);
    assert |twice| == |both|;
    forall i | 0 <= i < |both| ensures twice[i] == both[i] {
      SpliceAt(once, p + |d|, e, i);
      SpliceAt(s, p, d + e, i);
      if i < |once| {
        SpliceAt(s, p, d, i);
      }
    }
  }

  lemma SpliceEnds<T>(s: seq<T>, p: nat, d: seq<T>)
    requires p <= |s|
    ensures Splice(s, p, d[..0]) == s && Splice(s, p, d[..|d|]) == Splice(s, p, d)
  {
    assert d[..|d|] == d;
  }

  /** Writing `n` more elements of `d` behind the first `i`. */
  lemma SpliceMore<T>(s: seq<T>, p: nat, d: seq<T>, i: nat, n: nat)
    requires p <= |s| && i + n <= |d|
    ensures Splice(Splice(s, p, d[..i]), p + i, d[i..][..n]) == Splice(s, p, d[..i + n])
  {
    assert d[..i] + d[i..][..n] == d[..i + n];
    SpliceTwice(s, p, d[..i], d[i..][..n]);
  }

  // ---------- position arithmetic ----------

  /** On the fields of the descriptor: the first chunk has a size of its own if one is set, all others have the same,
      and each takes its overhead in the raw file. */
  lemma ChunkBegins(l: Layout, k: nat)
    requires l.Valid()
    ensures l.SeqnumToPos(0) == 0 && l.SeqnumToRaw(0) == 0
    ensures l.SeqnumToPos(k + 1) == (if l.firstMax != 0 then l.firstMax else l.chunkMax) + k * l.chunkMax
    ensures l.SeqnumToRaw(k + 1)
         == (if l.firstMax != 0 then l.firstMax else l.chunkMax) + l.extra + k * (l.chunkMax + l.extra)
  {
    if k > 0 {
      assert l.MaxPlain(k + 1) == l.chunkMax && l.MaxPacked(k + 1) == l.chunkMax + l.extra;
    }
  }

  lemma NextChunk(l: Layout, k: nat)
    requires l.Valid() && l.HasIndex(k) && l.MaxPlain(k) != 0
    ensures l.SeqnumToPos(k + 1) == l.SeqnumToPos(k) + l.MaxPlain(k)
    ensures l.SeqnumToRaw(k + 1) == l.SeqnumToRaw(k) + l.MaxPacked(k)
    ensures l.HasIndex(k + 1) && l.MaxPlain(k + 1) != 0
  {
    if k > 0 {
      assert l.MaxPlain(k + 1) == l.MaxPlain(k) == l.chunkMax;
      assert (k + 1 - 1) * l.MaxPlain(k) == (k - 1) * l.MaxPlain(k) + l.MaxPlain(k);
      assert (k + 1 - 1) * l.MaxPacked(k) == (k - 1) * l.MaxPacked(k) + l.MaxPacked(k);
    }
  }

  /** Chunks do not overlap, in the plaintext and in the raw file, and leave no gap. */
  lemma {:induction false} ChunkOrder(l: Layout, j: nat, k: nat)
    requires l.Valid() && l.HasIndex(k) && j < k
    ensures l.HasIndex(j) && l.MaxPlain(j) != 0
    ensures l.SeqnumToPos(j) + l.MaxPlain(j) <= l.SeqnumToPos(k)
    ensures l.SeqnumToRaw(j) + l.MaxPacked(j) <= l.SeqnumToRaw(k)
    ensures j + 1 == k ==> l.SeqnumToPos(j) + l.MaxPlain(j) == l.SeqnumToPos(k)
    ensures j + 1 == k ==> l.SeqnumToRaw(j) + l.MaxPacked(j) == l.SeqnumToRaw(k)
    decreases k
  {
    NextChunk(l, k - 1);
    if j < k - 1 {
      ChunkOrder(l, j, k - 1);
    }
  }

  /** The chunk found for a position contains it. */
  lemma PosInChunk(l: Layout, pos: nat)
    requires l.Valid()
    ensures var k := l.PosToSeqnum(pos);
      && l.HasIndex(k)
      && l.SeqnumToPos(k) <= pos
      && (l.MaxPlain(k) == 0 || pos < l.SeqnumToPos(k) + l.MaxPlain(k))
  {
    var first := l.MaxPlain(0);
    if pos > first && first != 0 {
      var q := (pos - first) / l.chunkMax;
      var k := 1 + q;
      assert l.PosToSeqnum(pos) == k;
      assert l.MaxPlain(k) == l.chunkMax;
      assert pos - first == q * l.chunkMax + (pos - first) % l.chunkMax;
      assert (k - 1) * l.MaxPlain(k) == q * l.chunkMax;
    }
  }

  /** It is the only one. */
  lemma ChunkOfPos(l: Layout, k: nat, pos: nat)
    requires l.Valid() && l.HasIndex(k)
    requires l.SeqnumToPos(k) <= pos
    requires l.MaxPlain(k) == 0 || pos < l.SeqnumToPos(k) + l.MaxPlain(k)
    ensures l.PosToSeqnum(pos) == k
  {
    PosInChunk(l, pos);
    var m := l.PosToSeqnum(pos);
    if m < k {
      ChunkOrder(l, m, k);
    } else if k < m {
      ChunkOrder(l, k, m);
    }
  }

  // ---------- slices ----------

  lemma SliceAt(l: Layout, s: seq<byte>, k: nat, i: nat)
    requires l.SeqnumToPos(k) <= |s| && i < |Slice(l, s, k)|
    ensures l.SeqnumToPos(k) + i < |s| && Slice(l, s, k)[i] == s[l.SeqnumToPos(k) + i]
  {
    hide Layout.SeqnumToPos;
  }

  /** A write inside chunk `k` changes the slice of chunk `k` by the same write, and no other slice. */
  lemma SpliceSlice(l: Layout, s: seq<byte>, k: nat, o: nat, d: seq<byte>)
    requires l.Valid() && l.HasIndex(k)
    requires l.SeqnumToPos(k) + o <= |s|
    requires l.Fits(k, o + |d|)
    ensures o <= |Slice(l, s, k)|
    ensures Slice(l, Splice(s, l.SeqnumToPos(k) + o, d), k) == Splice(Slice(l, s, k), o, d)
  {
    hide Layout.SeqnumToPos, Splice;
    var begin := l.SeqnumToPos(k);
    var t := Splice(s, begin + o, d);
    var left := Slice(l, t, k);
    var old' := Slice(l, s, k);
    var right := Splice(old', o, d);
    assert |left| == |right|;
    forall i | 0 <= i < |left| ensures left[i] == right[i] {
      hide Slice;
      SliceAt(l, t, k, i);
      if i < |old'| { SliceAt(l, s, k, i); }
      SpliceAt(s, begin + o, d, begin + i);
      SpliceAt(old', o, d, i);
    }
  }

  lemma SpliceOtherSlice(l: Layout, s: seq<byte>, k: nat, o: nat, d: seq<byte>, j: nat)
    requires l.Valid() && l.HasIndex(k) && l.HasIndex(j) && j != k
    requires l.SeqnumToPos(k) + o <= |s| && l.SeqnumToPos(j) <= |s|
    requires l.Fits(k, o + |d|)
    ensures Slice(l, Splice(s, l.SeqnumToPos(k) + o, d), j) == Slice(l, s, j)
  {
    var begin := l.SeqnumToPos(k);
    var t := Splice(s, begin + o, d);
    if j < k {
      ChunkOrder(l, j, k);
    } else {
      ChunkOrder(l, k, j);
    }
    var a, b := Slice(l, t, j), Slice(l, s, j);
    assert |a| == |b|;
    forall i | 0 <= i < |a| ensures a[i] == b[i] {
      SpliceAt(s, begin + o, d, l.SeqnumToPos(j) + i);
    }
  }

  // ---------- the chunk cipher ----------

  /** A chunk cipher. Packing is randomised in the source, so it gets a nonce as its last argument. */
  datatype Cipher = Cipher(
    pack: (seq<byte>, nat, nat) -> seq<byte>,
    unpack: (seq<byte>, nat) -> Option<seq<byte>>,
    packedLen: nat -> nat)
  {
    /** Unpacking inverts packing whatever the nonce, the packed length depends on the content length only, it is
        never zero (a packed chunk starts with its length), and full chunks reach the maximum packed length. */
    ghost predicate Lawful(l: Layout) {
      && (forall c: seq<byte>, k: nat, n: nat :: l.Fits(k, |c|) ==>
            unpack(pack(c, k, n), k) == Some(c) && |pack(c, k, n)| == packedLen(|c|))
      && (forall n: nat :: 0 < packedLen(n) <= n + l.extra)
      && (forall k: nat {:trigger packedLen(l.MaxPlain(k))} ::
            l.MaxPlain(k) != 0 ==> packedLen(l.MaxPlain(k)) == l.MaxPacked(k))
    }
  }
}
