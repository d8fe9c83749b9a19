/** Runs from the beginning in which the code does not do what it promises. */
module Witnesses {
  import opened Wrappers
  import opened CryptLayout
  import opened PlainFiles
  import opened CryptFiles
  import opened UncachedFiles
  import opened ByteArrays
  import opened ConfigTrees
  import opened JsonEvents
  import opened JsonReader
  import opened SubscriptionTrie
  import opened EventDispatching

  // ---------- the encrypted file ----------

  /** A cipher as the file needs it exists for every layout with some overhead. */
  function Padding(l: Layout): Cipher {
    Cipher(
      (s: seq<byte>, k: nat, n: nat) => seq(l.extra, i => 0) + s,
      (p: seq<byte>, k: nat) => if |p| < l.extra then None else Some(p[l.extra..]),
      (n: nat) => n + l.extra)
  }

  lemma PaddingLawful(l: Layout)
    requires l.extra > 0
    ensures Padding(l).Lawful(l)
  {
    var c := Padding(l);
    forall s: seq<byte>, k: nat, n: nat | l.Fits(k, |s|)
      ensures c.unpack(c.pack(s, k, n), k) == Some(s) && |c.pack(s, k, n)| == c.packedLen(|s|)
    {
      assert (seq(l.extra, i => 0 as byte) + s)[l.extra..] == s;
    }
  }

  /** Seeking past the end and back to where the cursor is leaves the position past the end. */
  method SeekIgnored(l: Layout, c: Cipher, file: PlainFile) returns (f: CryptFile)
    requires l.Valid() && c.Lawful(l) && file.data == []
    modifies file
    ensures f.seekCursor == 10
  {
    f := new CryptFile.Create(l, c, 4, 1, file);
    var err := f.Seek(10);
    err := f.Seek(0);
  }

  /** Seeking past the end and growing the file over that position leaves the cursor where it was. */
  method CursorBehind(extra: nat, c: Cipher, file: PlainFile, six: seq<byte>) returns (f: CryptFile)
    requires c.Lawful(Layout(0, 4, extra)) && file.data == [] && |six| == 6
    modifies file
    ensures f.Size() == 20 && f.seekCursor == 10 && f.cursor == 6
  {
    hide CryptFile.InvBut;
    f := TwoChunks(Layout(0, 4, extra), c, file, six);
    var err := f.Seek(10);
    err := f.Truncate(20);
  }

  /** A file of six bytes in two chunks of four, opened again and overwritten with eight, has ten. */
  method SizeTooLarge(extra: nat, c: Cipher, file: PlainFile, six: seq<byte>, eight: seq<byte>) returns (f: CryptFile)
    requires c.Lawful(Layout(0, 4, extra)) && file.data == [] && |six| == 6 && |eight| == 8
    modifies file
    ensures f.content == eight && f.Size() == 10
  {
    var l := Layout(0, 4, extra);
    f := TwoChunks(l, c, file, six);
    var err := f.Flush();
    f := new CryptFile.Open(l, c, 4, 1, true, true, file, six);
    CountedTwice(f, eight);
  }

  method TwoChunks(l: Layout, c: Cipher, file: PlainFile, six: seq<byte>) returns (f: CryptFile)
    requires l.firstMax == 0 && l.chunkMax == 4 && c.Lawful(l) && file.data == [] && |six| == 6
    modifies file
    ensures fresh(f) && f.l == l && f.c == c && f.file == file && f.Valid() && f.InSync() && f.writable
    ensures f.content == six && f.seekCursor == 6 && f.eofSeqnum == 1 && f.maxProcessingSize == 8
  {
    f := new CryptFile.Create(l, c, 4, 8, file);
    var done, err := f.Write(six);
  }

  /** A file of two chunks that has been emptied. */
  method Emptied(extra: nat, c: Cipher, file: PlainFile, six: seq<byte>) returns (f: CryptFile)
    requires c.Lawful(Layout(0, 4, extra)) && file.data == [] && |six| == 6
    modifies file
    ensures fresh(f) && f.l == Layout(0, 4, extra) && f.file == file && f.Stale() && f.LooksStale() && f.InSync()
    ensures f.writable && f.seekCursor == 0 && f.maxProcessingSize == 8
  {
    f := TwoChunks(Layout(0, 4, extra), c, file, six);
    var err := f.Seek(0);
    err := f.Truncate(0);
    f.StaleLooks();
  }

  /** Writing to a file of two chunks that has been emptied fails with content and no size. */
  method SizeLost(extra: nat, c: Cipher, file: PlainFile, six: seq<byte>, d: seq<byte>)
    returns (f: CryptFile, err: Error)
    requires c.Lawful(Layout(0, 4, extra)) && file.data == [] && |six| == 6 && d != []
    modifies file
    ensures f.content == (if |d| <= 4 then d else d[..4]) && f.Size() == 0 && f.seekCursor == 0
    ensures err == if |d| <= 4 then AssertionFailed else InvalidSeek
  {
    hide CryptFile.InvBut;
    f := Emptied(extra, c, file, six);
    var done;
    done, err := f.Write(d);
  }

  /** Writing past its end is reported as one byte written, whatever was to be written. */
  method OneByteReported(extra: nat, c: Cipher, file: PlainFile, six: seq<byte>, d: seq<byte>)
    returns (f: CryptFile, done: nat, err: Error)
    requires c.Lawful(Layout(0, 4, extra)) && file.data == [] && |six| == 6 && d != []
    modifies file
    ensures done == 1 && err == OK && f.content == Zeros(8)[..4] && f.Size() == 0 && f.seekCursor == 20
  {
    hide CryptFile.InvBut;
    f := Emptied(extra, c, file, six);
    err := f.Seek(20);
    f.StaleLooks();
    done, err := f.Write(d);
  }

  /** With the cache disabled, a byte written to the first of two chunks is not there after a look at the second. */
  method WriteLost(extra: nat, c: Cipher, file: PlainFile, six: seq<byte>, b: byte) returns (d: seq<byte>)
    requires c.Lawful(Layout(0, 4, extra)) && file.data == [] && |six| == 6 && b != six[0]
    modifies file
    ensures d == [six[0]]
  {
    var l := Layout(0, 4, extra);
    var first := TwoChunks(l, c, file, six);
    var err := first.Flush();
    var f := new UncachedFile.Open(l, c, file, six);
    d := LookAway(f, b);
  }

  method LookAway(f: UncachedFile, b: byte) returns (d: seq<byte>)
    requires f.Valid() && f.l.firstMax == 0 && f.l.chunkMax == 4 && |f.content| == 6
    requires f.cursor == 0 && f.single.seqnum == 0 && f.single.offset == 0 && !f.single.dirty && f.eofSeqnum == 1
    modifies f, f.file
    ensures d == [old(f.content[0])]
  {
    f.WriteHere([b], false);
    ghost var skipped := f.DoSeek(4, 0);
    skipped := f.DoSeek(0, 0);
    d := f.ReadHere(1);
  }

  /** With the cache disabled, eight bytes over a file of six in chunks of four: the first four are the old ones and the
      size is ten. */
  method FirstHalfLost(extra: nat, c: Cipher, file: PlainFile, six: seq<byte>, eight: seq<byte>)
    returns (f: UncachedFile)
    requires c.Lawful(Layout(0, 4, extra)) && file.data == [] && |six| == 6 && |eight| == 8
    modifies file
    ensures f.content == six[..4] + eight[4..] && f.size == 10
  {
    var l := Layout(0, 4, extra);
    var first := TwoChunks(l, c, file, six);
    var err := first.Flush();
    f := new UncachedFile.Open(l, c, file, six);
    OverwriteBoth(f, eight);
  }

  method OverwriteBoth(f: UncachedFile, eight: seq<byte>)
    requires f.Valid() && f.l.firstMax == 0 && f.l.chunkMax == 4 && |f.content| == 6 && |eight| == 8
    requires f.cursor == 0 && f.single.seqnum == 0 && !f.single.dirty && f.eofSeqnum == 1
    modifies f, f.file
    ensures f.content == old(f.content[..4]) + eight[4..] && f.size == 10
  {
    assert f.base == f.content;
    f.WriteImpl(eight);
    assert f.single.seqnum == 1;
  }

  // ---------- the byte array ----------

  /** Taking the last byte of three and moving the array gives whatever the memory held. */
  method MovedAway(blockSize: nat -> nat, garbage: string) returns (b: ByteArray)
    requires (forall n: nat :: n <= blockSize(n)) && |garbage| == PREALLOCATED_SIZE
    ensures b.Valid() && b.Content() == [garbage[2]]
  {
    var a := new ByteArray(blockSize);
    a.Load("abc");
    a.Right(1);
    assert a.Content() == "c";
    b := new ByteArray.Move(a, garbage);
  }

  /** Taking the last byte of three and shrinking the array gives the first. */
  method ShrunkAway(blockSize: nat -> nat) returns (a: ByteArray)
    requires forall n: nat :: n <= blockSize(n)
    ensures a.Valid() && a.Content() == "a"
  {
    a := new ByteArray(blockSize);
    a.Load("abc");
    assert a.buf[..3] == "abc";
    a.Right(1);
    a.Shrink();
  }

  /** Taking the last byte of three and reserving two behind room for one gives the second. */
  method ClampedAway(blockSize: nat -> nat) returns (a: ByteArray)
    requires forall n: nat :: n <= blockSize(n)
    ensures a.Valid() && a.Content() == "b"
  {
    a := new ByteArray(blockSize);
    a.Load("abc");
    assert a.buf[..3] == "abc";
    a.Right(1);
    a.Reserve(2, false, 1, false, false);
  }

  // ---------- JSON ----------

  /** A string is loaded as what is before its zero character. */
  lemma CutAtZero()
    ensures JsonEvents.Load(ToJson(Leaf(String("a\0b")))) == Some(Leaf(String("a")))
  {
    var rest := "a\0b"[1..];
    assert rest[0] == '\0' && CString(rest) == [];
    assert CString("a\0b") == ['a'] + CString(rest) == "a";
    assert ToJson(Leaf(String("a\0b"))) == Value(String("a"));
  }

  /** The text [null] is refused. */
  lemma NullInArray()
    ensures JsonReader.Run(START, Events(Array([Null]))) == None
  {
    assert DistinctItems([Null]) by { assert [Null][1..] == []; }
    Accepts(Array([Null]));
    assert Null in [Null];
  }

  // ---------- the event dispatcher ----------

  /** A subscription to an event of any category is found twice by an event without a category. */
  method FoundTwice<H>(handler: H) returns (found: seq<Entry<H>>)
    ensures multiset(found)[Entry(1, handler)] == 2
  {
    var d := new EventDispatcher<H>();
    var key := EventKey("", "update", "", "", "", "");
    var id := d.Subscribe(handler, key);
    found := d.Matching(key);
    assert multiset(found)[Entry(id, handler)] > 0;
    UpdatePath(key);
  }

  lemma UpdatePath(key: EventKey)
    requires key == EventKey("", "update", "", "", "", "")
    ensures |Path(key.Selectors())| <= 6 && BothEmpty(Path(key.Selectors()), key.Selectors()) == 1
  {
    var k := key.Selectors();
    PathMeans(k);
    assert k[1] == "update" && forall i :: 2 <= i < 6 ==> k[i] == "";
    assert Path(k) == k[..2] && k[..2][1..] == ["update"];
    NoneEmpty(["update"], k[1..]);
  }
}
