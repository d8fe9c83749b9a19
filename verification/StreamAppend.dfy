/** Streaming append to an encrypted file: every write goes to the file at once, chunk by chunk, and the size of the
    content is not stored but computed from the size of the file. */
module StreamAppend {
  import opened Wrappers
  import opened CryptLayout

  /** A chunk of a stream is a prefix, which tells a nonce, and one byte for each byte of content, encrypted by its
      place in the chunk. */
  datatype StreamCipher = StreamCipher(
    prefix: (nat, nat) -> seq<byte>,
    encrypt: (nat, nat, nat, byte) -> byte,
    decrypt: (nat, seq<byte>, nat, byte) -> byte)
  {
    ghost predicate Lawful(l: Layout) {
      && (forall k: nat, n: nat :: |prefix(k, n)| == l.extra)
      && (forall k: nat, n: nat, i: nat, b: byte :: decrypt(k, prefix(k, n), i, encrypt(k, n, i, b)) == b)
    }

    function Encrypted(k: nat, n: nat, from: nat, data: seq<byte>): (r: seq<byte>)
      ensures |r| == |data|
    {
      seq(|data|, i requires 0 <= i < |data| => encrypt(k, n, from + i, data[i]))
    }

    function Packed(k: nat, n: nat, content: seq<byte>): seq<byte> {
      prefix(k, n) + Encrypted(k, n, 0, content)
    }
  }

  /** The nonce of each chunk. */
  type Nonces = nat -> nat

  ghost predicate Limited(l: Layout) {
    l.chunkMax > 0
  }

  /** The file of a content, from chunk k on. */
  ghost function FileFrom(l: Layout, c: StreamCipher, ns: Nonces, k: nat, s: seq<byte>): seq<byte>
    requires Limited(l)
    decreases |s|
  {
    if s == [] then []
    else if |s| <= l.MaxPlain(k) then c.Packed(k, ns(k), s)
    else c.Packed(k, ns(k), s[..l.MaxPlain(k)]) + FileFrom(l, c, ns, k + 1, s[l.MaxPlain(k)..])
  }

  /** Its length: the content and one prefix for each chunk begun. */
  ghost function LengthFrom(l: Layout, k: nat, n: nat): nat
    requires Limited(l)
    decreases n
  {
    if n == 0 then 0
    else if n <= l.MaxPlain(k) then l.extra + n
    else l.MaxPacked(k) + LengthFrom(l, k + 1, n - l.MaxPlain(k))
  }

  lemma {:induction false} FileLength(l: Layout, c: StreamCipher, ns: Nonces, k: nat, s: seq<byte>)
    requires Limited(l) && c.Lawful(l)
    ensures |FileFrom(l, c, ns, k, s)| == LengthFrom(l, k, |s|)
    decreases |s|
  {
    if |s| > l.MaxPlain(k) { FileLength(l, c, ns, k + 1, s[l.MaxPlain(k)..]); }
  }

  /** The content read from a file, chunk by chunk. */
  ghost function Contents(l: Layout, c: StreamCipher, k: nat, raw: seq<byte>): seq<byte>
    requires Limited(l)
    decreases |raw|
  {
    if |raw| < l.extra then []
    else if |raw| <= l.MaxPacked(k) then Unpacked(l, c, k, raw)
    else Unpacked(l, c, k, raw[..l.MaxPacked(k)]) + Contents(l, c, k + 1, raw[l.MaxPacked(k)..])
  }

  function Unpacked(l: Layout, c: StreamCipher, k: nat, raw: seq<byte>): seq<byte>
    requires l.extra <= |raw|
  {
    seq(|raw| - l.extra, i requires 0 <= i < |raw| - l.extra => c.decrypt(k, raw[..l.extra], i, raw[l.extra + i]))
  }

  lemma PackedSize(l: Layout, c: StreamCipher, k: nat, n: nat, s: seq<byte>)
    requires c.Lawful(l)
    ensures |c.Packed(k, n, s)| == l.extra + |s|
  {
  }

  lemma UnpackedAt(l: Layout, c: StreamCipher, k: nat, p: seq<byte>, e: seq<byte>)
    requires |p| == l.extra
    ensures var r := Unpacked(l, c, k, p + e);
      |r| == |e| && forall i :: 0 <= i < |e| ==> r[i] == c.decrypt(k, p, i, e[i])
  {
    assert (p + e)[..l.extra] == p;
  }

  lemma PackedRead(l: Layout, c: StreamCipher, k: nat, n: nat, s: seq<byte>)
    requires c.Lawful(l)
    ensures |c.Packed(k, n, s)| == l.extra + |s| && Unpacked(l, c, k, c.Packed(k, n, s)) == s
  {
    hide Unpacked;
    var p, e := c.prefix(k, n), c.Encrypted(k, n, 0, s);
    UnpackedAt(l, c, k, p, e);
    forall i | 0 <= i < |s| ensures c.decrypt(k, p, i, e[i]) == s[i] {
      assert e[i] == c.encrypt(k, n, 0 + i, s[i]);
    }
  }

  lemma FileOne(l: Layout, c: StreamCipher, ns: Nonces, k: nat, s: seq<byte>)
    requires Limited(l) && 0 < |s| <= l.MaxPlain(k)
    ensures FileFrom(l, c, ns, k, s) == c.Packed(k, ns(k), s)
  {
  }

  lemma FileCons(l: Layout, c: StreamCipher, ns: Nonces, k: nat, first: seq<byte>, rest: seq<byte>)
    requires Limited(l) && |first| == l.MaxPlain(k)
    ensures FileFrom(l, c, ns, k, first + rest) == c.Packed(k, ns(k), first) + FileFrom(l, c, ns, k + 1, rest)
  {
    var s := first + rest;
    assert s[..l.MaxPlain(k)] == first && s[l.MaxPlain(k)..] == rest;
    if rest == [] {
      assert s == first && c.Packed(k, ns(k), first) + [] == c.Packed(k, ns(k), first);
    }
  }

  lemma ContentsCons(l: Layout, c: StreamCipher, k: nat, n: nat, first: seq<byte>, more: seq<byte>)
    requires Limited(l) && c.Lawful(l) && |first| == l.MaxPlain(k) && more != []
    ensures Contents(l, c, k, c.Packed(k, n, first) + more) == first + Contents(l, c, k + 1, more)
  {
    PackedRead(l, c, k, n, first);
    var raw := c.Packed(k, n, first) + more;
    assert raw[l.MaxPacked(k)..] == more && raw[..l.MaxPacked(k)] == c.Packed(k, n, first);
  }

  lemma FileReadStep(l: Layout, c: StreamCipher, ns: Nonces, k: nat, first: seq<byte>, rest: seq<byte>)
    requires Limited(l) && c.Lawful(l) && |first| == l.MaxPlain(k) && rest != []
    requires Contents(l, c, k + 1, FileFrom(l, c, ns, k + 1, rest)) == rest
    ensures Contents(l, c, k, FileFrom(l, c, ns, k, first + rest)) == first + rest
  {
    FileCons(l, c, ns, k, first, rest);
    FileLength(l, c, ns, k + 1, rest);
    ContentsCons(l, c, k, ns(k), first, FileFrom(l, c, ns, k + 1, rest));
  }

  lemma FileReadLast(l: Layout, c: StreamCipher, ns: Nonces, k: nat, s: seq<byte>)
    requires Limited(l) && c.Lawful(l) && |s| <= l.MaxPlain(k)
    ensures Contents(l, c, k, FileFrom(l, c, ns, k, s)) == s
  {
    if s == [] {
      if l.extra == 0 { assert Unpacked(l, c, k, []) == []; }
    } else {
      PackedRead(l, c, k, ns(k), s);
    }
  }

  /** What is read from the file of a content is the content. */
  lemma {:induction false} FileRead(l: Layout, c: StreamCipher, ns: Nonces, k: nat, s: seq<byte>)
    requires Limited(l) && c.Lawful(l)
    ensures Contents(l, c, k, FileFrom(l, c, ns, k, s)) == s
    decreases |s|
  {
    hide FileFrom, Contents;
    if |s| <= l.MaxPlain(k) {
      FileReadLast(l, c, ns, k, s);
    } else {
      var first, rest := s[..l.MaxPlain(k)], s[l.MaxPlain(k)..];
      FileRead(l, c, ns, k + 1, rest);
      FileReadStep(l, c, ns, k, first, rest);
      assert s == first + rest;
    }
  }

  // ---------- the size computed on open ----------

  /** The size of the content from the size of the data, or None for a file that ends inside a prefix. */
  function OpenSize(l: Layout, ciphertextSize: nat): Option<nat>
    requires l.chunkMax > 0
  {
    if ciphertextSize == 0 then Some(0)
    else
      var first := l.MaxPlain(0);
      var prefix := l.MaxPacked(0) - first;
      if ciphertextSize < prefix then None
      else if ciphertextSize < l.MaxPacked(0) then Some(ciphertextSize - prefix)
      else
        var rest, packed := ciphertextSize - l.MaxPacked(0), l.MaxPacked(1);
        var rem := if rest % packed == 0 then prefix else rest % packed;
        if rem < prefix then None else Some(first + rest / packed * (packed - prefix) + rem - prefix)
  }

  lemma {:induction false} MultipleGrows(d: nat, q: nat, k: nat)
    requires q < k
    ensures d * k >= d * q + d
    decreases k
  {
    assert d * k == d * (k - 1) + d;
    if q < k - 1 { MultipleGrows(d, q, k - 1); }
  }

  lemma DivMod(q: nat, d: nat, r: nat)
    requires r < d
    ensures (q * d + r) / d == q && (q * d + r) % d == r
  {
    var x: int := q * d + r;
    var k, m := x / d, x % d;
    assert x == d * k + m;
    if k > q {
      MultipleGrows(d, q, k);
    } else if k < q {
      MultipleGrows(d, k, q);
    }
  }

  /** Chunks after the first: q full ones and the last. */
  lemma {:induction false} LengthAfter(l: Layout, k: nat, n: nat) returns (q: nat, r: nat)
    requires Limited(l) && k > 0
    ensures r < l.chunkMax && n == q * l.chunkMax + r
    ensures LengthFrom(l, k, n) == q * l.MaxPacked(1) + if r == 0 then 0 else l.extra + r
    decreases n
  {
    if n < l.chunkMax {
      q, r := 0, n;
    } else if n == l.chunkMax {
      q, r := 1, 0;
      assert 1 * l.MaxPacked(1) == l.extra + n;
    } else {
      var p: nat;
      p, r := LengthAfter(l, k + 1, n - l.chunkMax);
      q := p + 1;
      assert q * l.chunkMax == p * l.chunkMax + l.chunkMax;
      assert q * l.MaxPacked(1) == p * l.MaxPacked(1) + l.MaxPacked(1);
    }
  }

  lemma Distribute(q: nat, b: nat, e: nat)
    ensures q * (b + e) == q * b + q * e && (q + 1) * e == q * e + e && (q + 1) * b == q * b + b
    ensures e * q == q * e
  {
  }

  /** A product that proofs need not look into. */
  ghost function Times(q: nat, d: nat): nat {
    q * d
  }

  lemma TimesSmall(d: nat, q: nat)
    ensures Times(d, 0) == 0 && Times(d, 1) == d && Times(d, 1 + q) == d + Times(d, q)
  {
    Distribute(q, 0, d);
    Distribute(1 + q, 0, d);
  }

  lemma LengthBehind(l: Layout, m: nat)
    requires Limited(l)
    ensures LengthFrom(l, 1, m) == m + Times(l.extra, (m + l.chunkMax - 1) / l.chunkMax)
  {
    var q, r := LengthAfter(l, 1, m);
    assert l.MaxPacked(1) == l.chunkMax + l.extra;
    Distribute(q, l.chunkMax, l.extra);
    if r == 0 {
      DivMod(q, l.chunkMax, l.chunkMax - 1);
    } else {
      DivMod(q + 1, l.chunkMax, r - 1);
      Distribute(q + 1, l.chunkMax, l.extra);
    }
  }

  lemma LengthBegun(l: Layout, n: nat, behind: nat)
    requires Limited(l)
    requires n > l.MaxPlain(0) ==> behind == (n - l.MaxPlain(0) + l.chunkMax - 1) / l.chunkMax
    ensures LengthFrom(l, 0, n)
         == n + Times(l.extra, if n == 0 then 0 else if n <= l.MaxPlain(0) then 1 else 1 + behind)
  {
    hide Times;
    TimesSmall(l.extra, behind);
    if n > l.MaxPlain(0) {
      hide LengthFrom;
      LengthFirst(l, n - l.MaxPlain(0));
      LengthBehind(l, n - l.MaxPlain(0));
    }
  }

  /** On the fields: the content, and a prefix for the first chunk and for each chunk begun behind it. */
  lemma LengthIs(l: Layout, n: nat)
    requires Limited(l)
    ensures var first := if l.firstMax != 0 then l.firstMax else l.chunkMax;
      LengthFrom(l, 0, n) == n + l.extra *
        if n == 0 then 0 else if n <= first then 1 else 1 + (n - first + l.chunkMax - 1) / l.chunkMax
  {
    hide LengthFrom;
    var first := l.MaxPlain(0);
    var behind := if n > first then (n - first + l.chunkMax - 1) / l.chunkMax else 0;
    LengthBegun(l, n, behind);
  }

  /** Opening computes back the size of every content. */
  lemma OpenInvertsLength(l: Layout, n: nat)
    requires Limited(l)
    ensures OpenSize(l, LengthFrom(l, 0, n)) == Some(n)
  {
    if n > l.MaxPlain(0) {
      var q, r := LengthAfter(l, 1, n - l.MaxPlain(0));
      var rest := LengthFrom(l, 1, n - l.MaxPlain(0));
      if r == 0 {
        assert q > 0;
        DivMod(q, l.MaxPacked(1), 0);
      } else {
        DivMod(q, l.MaxPacked(1), l.extra + r);
      }
      assert l.MaxPacked(1) - l.extra == l.chunkMax;
    } else if n == l.MaxPlain(0) {
      DivMod(0, l.MaxPacked(1), 0);
      assert 0 * l.chunkMax == 0;
    }
  }

  lemma LengthOf(l: Layout, q: nat, r: nat)
    requires Limited(l) && r < l.chunkMax
    ensures LengthFrom(l, 1, Times(q, l.chunkMax) + r)
         == Times(q, l.MaxPacked(1)) + if r == 0 then 0 else l.extra + r
  {
    var p, s := LengthAfter(l, 1, q * l.chunkMax + r);
    DivMod(q, l.chunkMax, r);
    DivMod(p, l.chunkMax, s);
  }

  lemma Divided(m: nat, d: nat) returns (q: nat, r: nat)
    requires d > 0
    ensures m == Times(q, d) + r && r < d
  {
    q, r := m / d, m % d;
    assert m == d * q + r && d * q == q * d;
  }

  lemma OpenSizeAt(l: Layout, q: nat, rem: nat)
    requires Limited(l) && rem < l.MaxPacked(1)
    ensures OpenSize(l, l.MaxPacked(0) + Times(q, l.MaxPacked(1)) + rem) ==
      if 0 < rem < l.extra then None
      else Some(l.MaxPlain(0) + (Times(q, l.chunkMax) + if rem == 0 then 0 else rem - l.extra))
  {
    var m := l.MaxPacked(0) + q * l.MaxPacked(1) + rem;
    DivMod(q, l.MaxPacked(1), rem);
    assert m - l.MaxPacked(0) == q * l.MaxPacked(1) + rem;
    assert l.MaxPacked(1) - l.extra == l.chunkMax;
  }

  lemma LengthFirst(l: Layout, n: nat)
    requires Limited(l)
    ensures LengthFrom(l, 0, l.MaxPlain(0) + n) == l.MaxPacked(0) + LengthFrom(l, 1, n)
  {
  }

  lemma OpenSizeFits(l: Layout, q: nat, rem: nat)
    requires Limited(l) && rem < l.MaxPacked(1) && !(0 < rem < l.extra)
    ensures var m := l.MaxPacked(0) + Times(q, l.MaxPacked(1)) + rem;
      && OpenSize(l, m).Some?
      && var length := LengthFrom(l, 0, OpenSize(l, m).value); m == length || m == length + l.extra
  {
    var s := if rem == 0 then 0 else rem - l.extra;
    assert s < l.chunkMax;
    hide OpenSize, LengthFrom, Layout.MaxPacked, Layout.MaxPlain, Times;
    OpenSizeAt(l, q, rem);
    LengthFirst(l, Times(q, l.chunkMax) + s);
    LengthOf(l, q, s);
  }

  /** A size computed on opening is that of a content whose file is as long, or ends in one more prefix. */
  lemma OpenSizeMeans(l: Layout, m: nat)
    requires Limited(l) && OpenSize(l, m).Some?
    ensures var length := LengthFrom(l, 0, OpenSize(l, m).value); m == length || m == length + l.extra
  {
    if m >= l.MaxPacked(0) {
      hide OpenSize, LengthFrom, Times;
      var q, rem := Divided(m - l.MaxPacked(0), l.MaxPacked(1));
      OpenSizeAt(l, q, rem);
      OpenSizeFits(l, q, rem);
    }
  }

  /** On the fields: opening is refused exactly if the data ends inside a prefix. */
  lemma OpenRefused(l: Layout, m: nat)
    requires Limited(l)
    ensures var whole := (if l.firstMax != 0 then l.firstMax else l.chunkMax) + l.extra;
      OpenSize(l, m).None? <==> 0 < m < l.extra || (m > whole && 0 < (m - whole) % (l.chunkMax + l.extra) < l.extra)
  {
  }

  // ---------- writing ----------

  lemma FileSplitStep(l: Layout, c: StreamCipher, ns: Nonces, j: nat, k: nat, first: seq<byte>, more: seq<byte>,
                      s: seq<byte>)
    requires Limited(l) && c.Lawful(l) && |first| == l.MaxPlain(j)
    requires FileFrom(l, c, ns, j + 1, more + s) == FileFrom(l, c, ns, j + 1, more) + FileFrom(l, c, ns, k, s)
    ensures FileFrom(l, c, ns, j, first + more + s) == FileFrom(l, c, ns, j, first + more) + FileFrom(l, c, ns, k, s)
    ensures |FileFrom(l, c, ns, j, first + more)| == l.MaxPacked(j) + |FileFrom(l, c, ns, j + 1, more)|
  {
    hide FileFrom, StreamCipher.Packed, StreamCipher.Lawful;
    FileCons(l, c, ns, j, first, more);
    FileCons(l, c, ns, j, first, more + s);
    PackedSize(l, c, j, ns(j), first);
    assert first + more + s == first + (more + s);
  }

  /** Full chunks before chunk k and the rest make up the file. */
  lemma {:induction false} FileSplit(l: Layout, c: StreamCipher, ns: Nonces, j: nat, k: nat, before: seq<byte>,
                                     s: seq<byte>)
    requires Limited(l) && c.Lawful(l) && j <= k && l.SeqnumToPos(k) == l.SeqnumToPos(j) + |before|
    ensures FileFrom(l, c, ns, j, before + s) == FileFrom(l, c, ns, j, before) + FileFrom(l, c, ns, k, s)
    ensures |FileFrom(l, c, ns, j, before)| == l.SeqnumToRaw(k) - l.SeqnumToRaw(j)
    decreases k - j
  {
    if j == k {
      assert before + s == s;
    } else {
      hide FileFrom;
      NextChunk(l, j);
      if j + 1 < k { ChunkOrder(l, j + 1, k); }
      var first, more := before[..l.MaxPlain(j)], before[l.MaxPlain(j)..];
      FileSplit(l, c, ns, j + 1, k, more, s);
      FileSplitStep(l, c, ns, j, k, first, more, s);
      assert before == first + more;
    }
  }

  /** Full chunks before chunk k do not depend on the nonces from chunk k on. */
  lemma {:induction false} FileBefore(l: Layout, c: StreamCipher, ns: Nonces, ms: Nonces, j: nat, k: nat,
                                      before: seq<byte>)
    requires Limited(l) && j <= k && l.SeqnumToPos(k) == l.SeqnumToPos(j) + |before|
    requires forall i: nat :: i < k ==> ns(i) == ms(i)
    ensures FileFrom(l, c, ns, j, before) == FileFrom(l, c, ms, j, before)
    decreases k - j
  {
    if j < k {
      NextChunk(l, j);
      if j + 1 < k { ChunkOrder(l, j + 1, k); }
      var first, more := before[..l.MaxPlain(j)], before[l.MaxPlain(j)..];
      assert before == first + more;
      FileBefore(l, c, ns, ms, j + 1, k, more);
      FileCons(l, c, ns, j, first, more);
      FileCons(l, c, ms, j, first, more);
    }
  }

  function Grown(p: seq<byte>, d: seq<byte>, i: nat): seq<byte>
    requires i <= |d|
  {
    p + d[..i]
  }

  lemma NextCut(p: seq<byte>, d: seq<byte>, i: nat, j: nat)
    requires i <= j <= |d|
    ensures Grown(p, d, i) + d[i..j] == Grown(p, d, j)
    ensures Grown(p, d, 0) == p && Grown(p, d, |d|) == p + d
  {
    assert d[..|d|] == d;
  }

  lemma PackedAppend(c: StreamCipher, k: nat, n: nat, was: seq<byte>, data: seq<byte>)
    ensures c.Packed(k, n, was + data) == c.Packed(k, n, was) + c.Encrypted(k, n, |was|, data)
  {
    assert c.Encrypted(k, n, 0, was + data) == c.Encrypted(k, n, 0, was) + c.Encrypted(k, n, |was|, data);
  }

  /** The state of a file that is written: what is stored, what is known of it, the current chunk with the nonce it is
      encrypted with and, for the proof, everything written, the part of it in the chunks before the current one, and
      the nonces in the file. A chunk that was there when the file was opened has not been written yet, however long
      it is: its write cursor is zero. */
  datatype Held = Held(
    raw: seq<byte>, size: nat, ciphertextSize: nat, seqnum: nat, content: seq<byte>, chunkCiphertext: nat,
    streamWriteCursor: nat, nonce: nat, plain: seq<byte>, before: seq<byte>, nonces: Nonces)

  ghost predicate Consistent(l: Layout, c: StreamCipher, h: Held) {
    && Limited(l) && c.Lawful(l)
    && h.plain == h.before + h.content && |h.before| == l.SeqnumToPos(h.seqnum) && |h.content| <= l.MaxPlain(h.seqnum)
    && h.size == |h.plain|
    && h.raw == FileFrom(l, c, h.nonces, 0, h.plain) && h.ciphertextSize == |h.raw|
    && (h.streamWriteCursor > 0 ==> h.streamWriteCursor == |h.content| && h.nonce == h.nonces(h.seqnum))
    && h.chunkCiphertext == if h.content == [] then 0 else l.extra + |h.content|
  }

  /** The bytes to write for a chunk: what is new in it, or all of it behind a prefix if it has not been written. */
  function Bytes(c: StreamCipher, k: nat, n: nat, chunk: seq<byte>, from: nat): seq<byte>
    requires from <= |chunk|
  {
    if from == 0 then c.Packed(k, n, chunk) else c.Encrypted(k, n, from, chunk[from..])
  }

  function At(l: Layout, h: Held): nat {
    l.SeqnumToRaw(h.seqnum) + if h.streamWriteCursor == 0 then 0 else h.chunkCiphertext
  }

  function With(ns: Nonces, k: nat, n: nat): Nonces {
    j => if j == k then n else ns(j)
  }

  ghost function Appended(l: Layout, c: StreamCipher, h: Held, data: seq<byte>, n: nat): Held
    requires h.streamWriteCursor <= |h.content| + |data| && At(l, h) <= |h.raw|
  {
    var now := h.content + data;
    var grown := |data| + if h.content == [] then l.extra else 0;
    h.(raw := Splice(h.raw, At(l, h), Bytes(c, h.seqnum, n, now, h.streamWriteCursor)), size := h.size + |data|,
       ciphertextSize := h.ciphertextSize + grown, content := now, chunkCiphertext := h.chunkCiphertext + grown,
       streamWriteCursor := |now|, nonce := n, plain := h.plain + data, nonces := With(h.nonces, h.seqnum, n))
  }

  lemma SpliceTail(head: seq<byte>, tail: seq<byte>, d: seq<byte>)
    requires |d| >= |tail|
    ensures Splice(head + tail, |head|, d) == head + d
  {
    assert (head + tail)[..|head|] == head;
  }

  /** The file up to the current chunk, and what is written of that. */
  lemma HeldSplit(l: Layout, c: StreamCipher, h: Held)
    requires Consistent(l, c, h)
    ensures var head, k := FileFrom(l, c, h.nonces, 0, h.before), h.seqnum;
      && |head| == l.SeqnumToRaw(k)
      && h.raw == head + if h.content == [] then [] else c.Packed(k, h.nonces(k), h.content)
    ensures |h.raw| == l.SeqnumToRaw(h.seqnum) + h.chunkCiphertext
  {
    FileSplit(l, c, h.nonces, 0, h.seqnum, h.before, h.content);
    PackedSize(l, c, h.seqnum, h.nonces(h.seqnum), h.content);
  }

  /** What the piece does to the bytes of the file. */
  lemma PieceBytes(l: Layout, c: StreamCipher, h: Held, head: seq<byte>, data: seq<byte>, n: nat)
    requires c.Lawful(l) && |head| == l.SeqnumToRaw(h.seqnum) && data != []
    requires h.raw == head + if h.content == [] then [] else c.Packed(h.seqnum, h.nonces(h.seqnum), h.content)
    requires h.chunkCiphertext == if h.content == [] then 0 else l.extra + |h.content|
    requires h.streamWriteCursor > 0 ==> h.streamWriteCursor == |h.content| && n == h.nonces(h.seqnum)
    ensures At(l, h) <= |h.raw|
    ensures Splice(h.raw, At(l, h), Bytes(c, h.seqnum, n, h.content + data, h.streamWriteCursor))
         == head + c.Packed(h.seqnum, n, h.content + data)
    ensures |c.Packed(h.seqnum, n, h.content + data)|
         == h.chunkCiphertext + |data| + if h.content == [] then l.extra else 0
  {
    var k, was := h.seqnum, h.content;
    PackedSize(l, c, k, n, was + data);
    PackedSize(l, c, k, h.nonces(k), was);
    hide StreamCipher.Packed, StreamCipher.Lawful;
    if h.streamWriteCursor == 0 {
      SpliceTail(head, h.raw[|head|..], c.Packed(k, n, was + data));
      assert h.raw == head + h.raw[|head|..];
    } else {
      assert (was + data)[|was|..] == data;
      PackedAppend(c, k, n, was, data);
      SpliceEnd(h.raw, c.Encrypted(k, n, |was|, data));
      assert head + (c.Packed(k, n, was) + c.Encrypted(k, n, |was|, data)) == h.raw + c.Encrypted(k, n, |was|, data);
    }
  }

  /** The file of the longer content, with a nonce of its own for the current chunk. */
  lemma LongerFile(l: Layout, c: StreamCipher, h: Held, data: seq<byte>, n: nat)
    requires Consistent(l, c, h) && h.content + data != [] && |h.content| + |data| <= l.MaxPlain(h.seqnum)
    ensures FileFrom(l, c, With(h.nonces, h.seqnum, n), 0, h.plain + data)
         == FileFrom(l, c, h.nonces, 0, h.before) + c.Packed(h.seqnum, n, h.content + data)
  {
    hide FileFrom, StreamCipher.Packed, StreamCipher.Lawful;
    var k, ns := h.seqnum, With(h.nonces, h.seqnum, n);
    FileOne(l, c, ns, k, h.content + data);
    FileSplit(l, c, ns, 0, k, h.before, h.content + data);
    FileBefore(l, c, h.nonces, ns, 0, k, h.before);
    assert h.before + (h.content + data) == h.plain + data;
  }

  /** Appending to a chunk appends to the content of the file, also when the chunk is encrypted anew from its
      beginning. */
  lemma PieceAppends(l: Layout, c: StreamCipher, h: Held, data: seq<byte>, n: nat)
    requires Consistent(l, c, h) && data != [] && |h.content| + |data| <= l.MaxPlain(h.seqnum)
    requires h.streamWriteCursor > 0 ==> n == h.nonce
    ensures At(l, h) <= |h.raw| && Consistent(l, c, Appended(l, c, h, data, n))
  {
    hide FileFrom, StreamCipher.Packed, StreamCipher.Lawful, Bytes, Splice;
    HeldSplit(l, c, h);
    LongerFile(l, c, h, data, n);
    PieceBytes(l, c, h, FileFrom(l, c, h.nonces, 0, h.before), data, n);
    assert h.before + (h.content + data) == h.plain + data;
  }

  /** The chunk that is read when a file is opened to be continued. */
  lemma ReopenedChunk(l: Layout, c: StreamCipher, ns: Nonces, plain: seq<byte>)
    requires Limited(l) && c.Lawful(l)
    ensures var raw, k := FileFrom(l, c, ns, 0, plain), l.PosToSeqnum(|plain|);
      && OpenSize(l, |raw|) == Some(|plain|)
      && l.SeqnumToPos(k) <= |plain| && l.SeqnumToRaw(k) <= |raw| <= l.SeqnumToRaw(k) + l.MaxPacked(k)
      && var packed, rest := raw[l.SeqnumToRaw(k)..], plain[l.SeqnumToPos(k)..];
      && |rest| <= l.MaxPlain(k) && |packed| == (if rest == [] then 0 else l.extra + |rest|)
      && (packed != [] ==> l.extra <= |packed| && Unpacked(l, c, k, packed) == rest)
  {
    var raw, k := FileFrom(l, c, ns, 0, plain), l.PosToSeqnum(|plain|);
    FileLength(l, c, ns, 0, plain);
    OpenInvertsLength(l, |plain|);
    PosInChunk(l, |plain|);
    var before, rest := plain[..l.SeqnumToPos(k)], plain[l.SeqnumToPos(k)..];
    assert plain == before + rest;
    FileSplit(l, c, ns, 0, k, before, rest);
    assert raw[l.SeqnumToRaw(k)..] == FileFrom(l, c, ns, k, rest);
    PackedRead(l, c, k, ns(k), rest);
  }

  class StreamFile {
    const l: Layout
    const c: StreamCipher
    /** The file after the descriptor. */
    var raw: seq<byte>
    var size: nat
    var ciphertextSize: nat
    var seqnum: nat
    var content: seq<byte>
    var chunkCiphertext: nat
    var streamWriteCursor: nat
    /** The nonce of the encryptor at work, and the next one. */
    var nonce: nat
    var nextNonce: nat
    ghost var plain: seq<byte>
    ghost var before: seq<byte>
    ghost var nonces: Nonces

    ghost function State(): Held
      reads this
    {
      Held(raw, size, ciphertextSize, seqnum, content, chunkCiphertext, streamWriteCursor, nonce, plain, before, nonces)
    }

    ghost predicate Valid()
      reads this
    {
      Consistent(l, c, State())
    }

    /** A new file. */
    constructor (l: Layout, c: StreamCipher)
      requires Limited(l) && c.Lawful(l)
      ensures Valid() && plain == [] && this.l == l && this.c == c
    {
      this.l, this.c := l, c;
      raw, size, ciphertextSize := [], 0, 0;
      seqnum, content, chunkCiphertext, streamWriteCursor := 0, [], 0, 0;
      nonce, nextNonce := 0, 0;
      plain, before, nonces := [], [], k => 0;
    }

    /** An existing file, opened to be continued: its size is computed, and its last chunk read. */
    constructor Reopen(l: Layout, c: StreamCipher, raw: seq<byte>, nextNonce: nat, ghost ns: Nonces,
                       ghost plain: seq<byte>)
      requires Limited(l) && c.Lawful(l) && raw == FileFrom(l, c, ns, 0, plain)
      ensures Valid() && this.plain == plain && this.l == l && this.c == c
    {
      hide FileFrom, Unpacked, StreamCipher.Lawful;
      ReopenedChunk(l, c, ns, plain);
      this.l, this.c := l, c;
      var n := OpenSize(l, |raw|).value;
      var k := l.PosToSeqnum(n);
      var at, chunkSize := l.SeqnumToRaw(k), l.MaxPacked(k);
      if at + chunkSize > |raw| {
        chunkSize := |raw| - at;
      }
      assert raw[at..at + chunkSize] == raw[at..];
      this.raw, size, ciphertextSize := raw, n, |raw|;
      seqnum, chunkCiphertext, streamWriteCursor := k, chunkSize, 0;
      content := if chunkSize == 0 then [] else Unpacked(l, c, k, raw[at..at + chunkSize]);
      nonce, this.nextNonce := 0, nextNonce;
      this.plain, before, nonces := plain, plain[..l.SeqnumToPos(k)], ns;
    }

    method NextChunk()
      requires Valid() && |content| == l.MaxPlain(seqnum)
      modifies this
      ensures Valid() && plain == old(plain) && content == [] && seqnum == old(seqnum) + 1
    {
      CryptLayout.NextChunk(l, seqnum);
      before := plain;
      seqnum := seqnum + 1;
      content, chunkCiphertext, streamWriteCursor := [], 0, 0;
      assert before + content == plain;
    }

    /** Encrypts what is new in the current chunk, or all of it with a new nonce. */
    method EncryptPiece() returns (buffer: seq<byte>, streamSize: nat, begun: bool)
      requires streamWriteCursor <= |content|
      modifies this`nonce, this`nextNonce
      ensures buffer == Bytes(c, seqnum, nonce, content, streamWriteCursor)
      ensures streamSize == |content| - streamWriteCursor && begun == (streamWriteCursor == 0)
      ensures !begun ==> nonce == old(nonce)
    {
      streamSize, begun := |content| - streamWriteCursor, streamWriteCursor == 0;
      if begun {
        streamSize := |content|;
        nonce, nextNonce := nextNonce, nextNonce + 1;
        buffer := c.prefix(seqnum, nonce) + c.Encrypted(seqnum, nonce, 0, content);
      } else {
        buffer := c.Encrypted(seqnum, nonce, streamWriteCursor, content[streamWriteCursor..]);
      }
    }

    /** Appends what fits the current chunk. */
    method WritePiece(data: seq<byte>)
      requires Valid() && data != [] && |content| + |data| <= l.MaxPlain(seqnum)
      modifies this
      ensures Valid() && plain == old(plain) + data && seqnum == old(seqnum) && content == old(content) + data
    {
      hide FileFrom, Splice, Bytes;
      ghost var h := State();
      var oldChunkSize := |content|;
      content := content + data;
      size := size + |data|;
      var buffer, streamSize, begun := EncryptPiece();
      var prefixSize := if begun && oldChunkSize == 0 then |c.prefix(seqnum, nonce)| else 0;
      PieceAppends(l, c, h, data, nonce);
      Store(h, data, buffer, streamSize, |data| + prefixSize);
    }

    /** Writes the encrypted piece to the file: from the beginning of the chunk, or behind what is written of it. */
    method Store(ghost h: Held, ghost data: seq<byte>, buffer: seq<byte>, streamSize: nat, appendSize: nat)
      requires State() == h.(content := h.content + data, size := h.size + |data|, nonce := nonce)
      requires streamWriteCursor + streamSize == |content| && At(l, h) <= |raw|
      requires buffer == Bytes(c, seqnum, nonce, content, streamWriteCursor)
      requires appendSize == |data| + if h.content == [] then l.extra else 0
      modifies this`raw, this`ciphertextSize, this`chunkCiphertext, this`streamWriteCursor, this`plain, this`nonces
      ensures State() == Appended(l, c, h, data, nonce)
    {
      hide Splice, Bytes;
      var pos := l.SeqnumToRaw(seqnum);
      if streamWriteCursor != 0 {
        pos := pos + chunkCiphertext;
      }
      raw := Splice(raw, pos, buffer);
      ciphertextSize := ciphertextSize + appendSize;
      chunkCiphertext := chunkCiphertext + appendSize;
      streamWriteCursor := streamWriteCursor + streamSize;
      plain, nonces := plain + data, With(nonces, seqnum, nonce);
    }

    /** Appends as much of the data as fits, in the next chunk if the current one is full. */
    method WriteSome(data: seq<byte>) returns (n: nat)
      requires Valid() && data != []
      modifies this
      ensures Valid() && 0 < n <= |data| && plain == old(plain) + data[..n]
    {
      n := |data|;
      if |content| == l.MaxPlain(seqnum) {
        NextChunk();
      }
      if n > l.MaxPlain(seqnum) - |content| {
        n := l.MaxPlain(seqnum) - |content|;
      }
      WritePiece(data[..n]);
    }

    /** Appends data of any length: the file is that of all content so far, however it was cut into writes. */
    method Write(data: seq<byte>) returns (done: nat)
      requires Valid()
      modifies this
      ensures Valid() && done == |data| && plain == old(plain) + data
    {
      hide Consistent;
      done := 0;
      NextCut(plain, data, 0, |data|);
      while done < |data|
        invariant done <= |data| && Valid()
        invariant plain == Grown(old(plain), data, done)
      {
        var n := WriteSome(data[done..]);
        NextCut(old(plain), data, done, done + n);
        assert data[done..][..n] == data[done..done + n];
        done := done + n;
      }
    }

    /** The size that opening the file again would compute is the size of what was written, and what it would read is
        what was written. */
    method Reopened() returns (n: Option<nat>)
      requires Valid()
      ensures n == Some(size) && size == |plain| && Contents(l, c, 0, raw) == plain
    {
      FileLength(l, c, nonces, 0, plain);
      OpenInvertsLength(l, |plain|);
      FileRead(l, c, nonces, 0, plain);
      n := OpenSize(l, |raw|);
    }
  }

  /** Opening the file of a content and appending to it gives a file of the longer content. */
  method Continue(l: Layout, c: StreamCipher, raw: seq<byte>, nextNonce: nat, data: seq<byte>, ghost ns: Nonces,
                  ghost plain: seq<byte>) returns (raw': seq<byte>)
    requires Limited(l) && c.Lawful(l) && raw == FileFrom(l, c, ns, 0, plain)
    ensures Contents(l, c, 0, raw') == plain + data
    ensures exists ms: Nonces :: raw' == FileFrom(l, c, ms, 0, plain + data)
  {
    var f := new StreamFile.Reopen(l, c, raw, nextNonce, ns, plain);
    var done := f.Write(data);
    var n := f.Reopened();
    raw' := f.raw;
  }
}
