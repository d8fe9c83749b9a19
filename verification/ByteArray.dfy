/** A byte buffer with room in front of its content, first inside the object and then in allocated blocks. */
module ByteArrays {

  const PREALLOCATED_SIZE: nat := 20

  /** What a move leaves in the buffer inside the new object: only as many bytes from its start as the content is long
      are copied, and the rest is whatever the memory held. */
  function MovedSmall(content: string, offset: nat, garbage: string): (r: string)
    requires offset + |content| <= |garbage|
  {
    seq(|content|, k requires 0 <= k < |content| => if offset + k < |content| then content[k] else garbage[offset + k])
  }

  lemma MovedIs(source: string, offset: nat, size: nat, garbage: string)
    requires offset + size <= |source| == |garbage|
    ensures (source[..size] + garbage[size..])[offset..offset + size]
         == MovedSmall(source[offset..offset + size], offset, garbage)
  {
  }

  method CopyBytes(from: array<char>, to: array<char>, n: nat)
    requires from != to && n <= from.Length && n <= to.Length
    modifies to
    ensures to[..] == from[..n] + old(to[n..]) && from[..] == old(from[..])
  {
    forall k | 0 <= k < n {
      to[k] := from[k];
    }
  }

  /** A small array survives a move, whatever the memory held, exactly when it has no room in front or no content. */
  lemma MoveKeeps(content: string, offset: nat)
    requires offset + |content| <= 20
    ensures (forall garbage: string :: |garbage| == 20 ==>
               MovedSmall(content, offset, garbage) == content)
       <==> offset == 0 || content == ""
  {
    if offset > 0 && content != "" {
      var last := |content| - 1;
      var other := if content[last] == 'a' then 'b' else 'a';
      var garbage := seq(20, k => other);
      assert MovedSmall(content, offset, garbage)[last] == other;
    }
  }

  /** The content after the room in front has been limited, in a buffer that stays or is replaced: only in a new buffer
      is it moved. */
  function Clamped(buffer: string, offset: nat, maxOffset: nat, size: nat, stays: bool): string
    requires offset + size <= |buffer|
  {
    if stays && offset > maxOffset then buffer[maxOffset..maxOffset + size] else buffer[offset..offset + size]
  }

  /** Limiting the room keeps the content, whatever the buffer holds, exactly when the buffer is replaced, or there is
      no more room than that, or no content. */
  lemma ClampKeeps(capacity: nat, offset: nat, maxOffset: nat, size: nat, stays: bool)
    requires offset + size <= capacity
    ensures (forall buffer: string :: |buffer| == capacity ==>
               Clamped(buffer, offset, maxOffset, size, stays) == buffer[offset..offset + size])
       <==> !stays || offset <= maxOffset || size == 0
  {
    if stays && offset > maxOffset && size > 0 {
      var buffer := seq(capacity, k => if k < offset then 'a' else 'b');
      assert Clamped(buffer, offset, maxOffset, size, stays)[0] == 'a' && buffer[offset..offset + size][0] == 'b';
    }
  }

  /** More of an array from one place extends less of it. */
  lemma SizeChanged(a: array<char>, offset: nat, m: nat, n: nat)
    requires offset + m <= a.Length && offset + n <= a.Length
    ensures n <= m ==> a[offset..offset + n] == a[offset..offset + m][..n]
    ensures n >= m ==> a[offset..offset + n][..m] == a[offset..offset + m]
  {
  }

  lemma TailOf(a: array<char>, offset: nat, m: nat, n: nat)
    requires n <= m && offset + m <= a.Length
    ensures a[offset..offset + m][n..] == a[offset + n..offset + m]
  {
  }

  /** Where the content goes in a buffer of another capacity. In reverse order the difference is taken from or added to
      the room in front, and at least the room to grow into is left; in direct order only a smaller buffer moves it. */
  function NewOffset(size: nat, capacity: nat, offset: nat, wanted: nat, newCapacity: nat, reverse: bool,
                     shiftRData: bool): (r: nat)
    requires offset + size <= capacity && size <= wanted <= newCapacity
    ensures r + size <= newCapacity
    ensures newCapacity == capacity || (!reverse && newCapacity > capacity) ==> r == offset
    ensures reverse && shiftRData && newCapacity > capacity ==> r >= wanted - size
  {
    if reverse then
      if newCapacity > capacity then
        var grown := newCapacity - capacity + offset;
        if shiftRData && wanted - size > grown then wanted - size else grown
      else if capacity - newCapacity >= offset then 0
      else offset - (capacity - newCapacity)
    else if newCapacity < capacity && capacity - newCapacity > capacity - size - offset then newCapacity - size
    else offset
  }

  datatype Op = Append(data: string) | Prepend(data: string) | Left(n: nat) | Right(n: nat) | Load(data: string)
    | Clear | Reset | Reserve(wanted: nat, reverse: bool) | CStr

  /** What an operation does to the content. */
  function Applied(s: string, op: Op): string {
    match op
    case Append(data) => s + data
    case Prepend(data) => data + s
    case Left(n) => if n >= |s| then s else s[..n]
    case Right(n) => if n >= |s| then s else s[|s| - n..]
    case Load(data) => data
    case Clear => ""
    case Reset => ""
    case Reserve(_, _) => s
    case CStr => s
  }

  function Run(s: string, ops: seq<Op>): string
    decreases ops
  {
    if ops == [] then s else Run(Applied(s, ops[0]), ops[1..])
  }

  lemma RunTwo(s: string, first: Op, second: Op)
    ensures Run(s, [first, second]) == Applied(Applied(s, first), second)
  {
    hide Applied;
    var ops := [first, second];
    assert ops[1..] == [second];
    assert Run(Applied(s, first), [second]) == Run(Applied(Applied(s, first), second), [second][1..]);
  }

  /** What is added at one end is cut off again there, and the two ends do not disturb each other. */
  lemma EndsApart(s: string, a: string, b: string)
    ensures Run(s, [Append(b), Prepend(a)]) == a + s + b == Run(s, [Prepend(a), Append(b)])
    ensures Run(s, [Prepend(a), Right(|s|)]) == s == Run(s, [Append(b), Left(|s|)])
  {
    hide Run;
    RunTwo(s, Append(b), Prepend(a));
    RunTwo(s, Prepend(a), Append(b));
    RunTwo(s, Prepend(a), Right(|s|));
    RunTwo(s, Append(b), Left(|s|));
    assert a + (s + b) == a + s + b;
  }

  class ByteArray {
    const preallocated: array<char>
    /** The size of the memory block that holds a number of bytes. */
    const blockSize: nat -> nat
    var buf: array<char>
    var size: nat
    var capacity: nat
    var offset: nat

    ghost predicate Valid()
      reads this
    {
      && preallocated.Length == PREALLOCATED_SIZE
      && (forall n: nat :: n <= blockSize(n))
      && buf.Length == capacity
      && capacity >= PREALLOCATED_SIZE
      && (buf == preallocated <==> capacity == PREALLOCATED_SIZE)
      && offset + size <= capacity
    }

    ghost function Content(): string
      reads this, buf
      requires Valid()
    {
      buf[offset..offset + size]
    }

    constructor (blockSize: nat -> nat)
      requires forall n: nat :: n <= blockSize(n)
      ensures Valid() && Content() == "" && fresh(buf) && fresh(preallocated)
      ensures capacity == 20 && offset == 0
    {
      this.blockSize := blockSize;
      var inside := new char[PREALLOCATED_SIZE];
      preallocated := inside;
      buf := inside;
      size, capacity, offset := 0, PREALLOCATED_SIZE, 0;
    }

    /** Takes the content of another array; garbage is what the memory of the new object held. */
    constructor Move(other: ByteArray, garbage: string)
      requires other.Valid() && |garbage| == PREALLOCATED_SIZE
      modifies other
      ensures Valid() && fresh(preallocated) && (fresh(buf) || buf == old(other.buf))
      ensures Content() == if old(other.capacity) > PREALLOCATED_SIZE then old(other.Content())
                           else MovedSmall(old(other.Content()), old(other.offset), garbage)
      ensures other.Valid() && other.Content() == ""
    {
      blockSize := other.blockSize;
      var inside := new char[PREALLOCATED_SIZE](k requires 0 <= k < PREALLOCATED_SIZE => garbage[k]);
      preallocated := inside;
      buf := if other.capacity > PREALLOCATED_SIZE then other.buf else inside;
      size, capacity, offset := other.size, other.capacity, other.offset;
      new;
      assert preallocated[..] == garbage;
      if other.capacity <= PREALLOCATED_SIZE {
        CopyBytes(other.preallocated, preallocated, size);
        MovedIs(other.preallocated[..], offset, size, garbage);
      }
      other.buf := other.preallocated;
      other.size, other.offset, other.capacity := 0, 0, PREALLOCATED_SIZE;
    }

    method Clear()
      requires Valid()
      modifies this
      ensures Valid() && Content() == "" && buf == old(buf) && offset == old(offset)
    {
      size := 0;
    }

    method Reset()
      requires Valid()
      modifies this
      ensures Valid() && Content() == "" && buf == preallocated && offset == 0
    {
      buf := preallocated;
      size, offset, capacity := 0, 0, PREALLOCATED_SIZE;
    }

    /** The buffer in use is also the one for a wanted size. */
    predicate Stays(wanted: nat, inUse: nat) {
      if wanted <= PREALLOCATED_SIZE then inUse == PREALLOCATED_SIZE else blockSize(wanted) == inUse
    }

    /** The buffer for a capacity: the one in use, the one inside the object, or a new block. */
    method NewBuffer(wanted: nat) returns (newBuf: array<char>)
      requires Valid()
      ensures fresh(newBuf) || newBuf == buf || newBuf == preallocated
      ensures newBuf == preallocated <==> newBuf.Length == PREALLOCATED_SIZE
      ensures wanted <= newBuf.Length && PREALLOCATED_SIZE <= newBuf.Length
      ensures newBuf != buf ==> newBuf.Length != capacity
      ensures newBuf == buf <==> Stays(wanted, capacity)
    {
      if wanted <= PREALLOCATED_SIZE {
        if capacity <= PREALLOCATED_SIZE {
          return buf;
        }
        return preallocated;
      }
      var newCapacity := blockSize(wanted);
      if newCapacity == capacity {
        return buf;
      }
      return new char[newCapacity];
    }

    /** The buffer for a capacity and where the content goes in it. */
    method NewPlace(total: nat, reverse: bool, clamp: bool, maxOffset: nat, shiftRData: bool)
      returns (newBuf: array<char>, newOffset: nat)
      requires Valid() && size <= total && (shiftRData ==> reverse && !clamp && total > capacity)
      ensures fresh(newBuf) || newBuf == buf || newBuf == preallocated
      ensures newBuf == preallocated <==> newBuf.Length == PREALLOCATED_SIZE
      ensures total <= newBuf.Length && PREALLOCATED_SIZE <= newBuf.Length
      ensures newBuf == buf <==> Stays(total, capacity)
      ensures newOffset + size <= newBuf.Length && (clamp ==> newOffset <= maxOffset)
      ensures !clamp && (newBuf == buf || (!reverse && total > capacity)) ==> newOffset == offset
      ensures clamp && newBuf == buf ==> newOffset == if offset > maxOffset then maxOffset else offset
      ensures shiftRData ==> newOffset >= total - size
    {
      newBuf := NewBuffer(total);
      newOffset := NewOffset(size, capacity, offset, total, newBuf.Length, reverse, shiftRData);
      if clamp && newOffset > maxOffset {
        newOffset := maxOffset;
      }
    }

    /** Goes over to a buffer, with the content behind the new offset and the room that is given up there. */
    method Adopt(newBuf: array<char>, newOffset: nat, room: nat)
      requires Valid() && room + newOffset + size <= newBuf.Length
      modifies this, newBuf
      ensures buf == newBuf && capacity == newBuf.Length && offset == newOffset && size == old(size)
      ensures newBuf != old(buf) ==> buf[offset + room..offset + room + size] == old(Content())
      ensures newBuf == old(buf) ==> buf[..] == old(buf[..])
    {
      if newBuf != buf {
        var oldBuf, from := buf, offset;
        forall k | 0 <= k < size {
          newBuf[newOffset + room + k] := oldBuf[from + k];
        }
      }
      buf, capacity, offset := newBuf, newBuf.Length, newOffset;
    }

    /** Goes over to the buffer for a capacity. */
    method Rebuffer(total: nat, reverse: bool, clamp: bool, maxOffset: nat, shiftRData: bool)
      requires Valid() && size <= total && (shiftRData ==> reverse && !clamp && total > capacity)
      modifies this, buf, preallocated
      ensures size == old(size) && total <= capacity
      ensures buf == preallocated || fresh(buf) || buf == old(buf)
      ensures buf == old(buf) <==> old(Stays(total, capacity))
      ensures buf == old(buf) ==> buf[..] == old(buf[..])
      ensures !shiftRData ==> var limit := if clamp then maxOffset else old(offset);
        && Valid() && (clamp ==> offset <= maxOffset)
        && Content() == Clamped(old(buf[..]), old(offset), limit, size, buf == old(buf))
        && (buf == old(buf) ==> offset == if old(offset) > limit then limit else old(offset))
        && (!clamp && !reverse && total > old(capacity) ==> offset == old(offset))
      ensures shiftRData ==>
        offset + total <= capacity && capacity == buf.Length > PREALLOCATED_SIZE && buf != preallocated
      ensures shiftRData ==> buf[offset + total - size..offset + total] == old(Content())
    {
      var newBuf, newOffset := NewPlace(total, reverse, clamp, maxOffset, shiftRData);
      var room := if shiftRData then total - size else 0;
      Adopt(newBuf, newOffset - room, room);
    }

    /** The capacity asked for: in direct order the room in front is added, as far as it is not limited. */
    function Total(wanted: nat, reverse: bool, limit: nat): nat
      reads this
    {
      if reverse then wanted else wanted + (if offset > limit then limit else offset)
    }

    /** Whether reserving keeps the buffer and looks at the offset. */
    predicate Keeps(wanted: nat, reverse: bool, limit: nat)
      reads this
    {
      var total := Total(wanted, reverse, limit);
      wanted >= size && total != capacity && Stays(total, capacity)
    }

    /** The largest offset allowed. */
    function Limit(maxOffset: nat, forceZeroOffset: bool): nat
      reads this
    {
      if forceZeroOffset || maxOffset != 0 then maxOffset else offset
    }

    /** Changes the capacity. In a new buffer the content is copied to the new offset. When the buffer stays, the offset
        may still be clamped, and what is then at the clamped offset becomes the content. With shiftRData, which only
        Rresize passes, the content is put at the end of the wanted size. */
    method Reserve(wanted: nat, reverse: bool, maxOffset: nat, shiftRData: bool, forceZeroOffset: bool)
      requires Valid()
      requires shiftRData ==> reverse && maxOffset == 0 && !forceZeroOffset && wanted > capacity
      modifies this, buf, preallocated
      ensures size == old(size)
      ensures buf == old(buf) || buf == preallocated || fresh(buf)
      ensures !shiftRData ==> Valid()
      ensures buf == old(buf) ==> buf[..] == old(buf[..])
      ensures !shiftRData ==> var limit := old(Limit(maxOffset, forceZeroOffset));
        && Content() == Clamped(old(buf[..]), old(offset), limit, size, old(Keeps(wanted, reverse, limit)))
        && (old(Keeps(wanted, reverse, limit)) ==> offset == if old(offset) > limit then limit else old(offset))
      ensures !shiftRData && maxOffset == 0 && !forceZeroOffset ==>
        Content() == old(Content()) && (buf == old(buf) ==> offset == old(offset))
      ensures !reverse && maxOffset == 0 && !forceZeroOffset && wanted + old(offset) > old(capacity) ==>
        offset == old(offset) && wanted + offset <= capacity
      ensures wanted == size && forceZeroOffset && maxOffset == 0 && !reverse ==> offset == 0
      ensures wanted == size && forceZeroOffset && maxOffset == 0 && !reverse ==>
        (buf == old(buf) <==> size == old(capacity) || Stays(size, old(capacity)))
      ensures shiftRData ==>
        offset + wanted <= capacity && capacity == buf.Length > PREALLOCATED_SIZE && buf != preallocated
      ensures shiftRData ==> buf[offset + wanted - size..offset + wanted] == old(Content())
    {
      if wanted < size { return; }
      var total := Total(wanted, reverse, Limit(maxOffset, forceZeroOffset));
      if total == capacity { return; }
      Rebuffer(total, reverse, forceZeroOffset || maxOffset != 0, maxOffset, shiftRData);
    }

    /** Truncates or extends at the end. */
    method Resize(newSize: nat)
      requires Valid()
      modifies this, buf, preallocated
      ensures Valid() && size == newSize
      ensures buf == old(buf) || buf == preallocated || fresh(buf)
      ensures newSize <= old(size) ==> Content() == old(Content())[..newSize]
      ensures newSize >= old(size) ==> Content()[..old(size)] == old(Content())
      ensures old(offset) + newSize <= old(capacity) ==>
        buf == old(buf) && capacity == old(capacity) && offset == old(offset)
    {
      if newSize > size {
        var diff := newSize - size;
        if diff > capacity - size - offset {
          Reserve(newSize, false, 0, false, false);
        }
      }
      SizeChanged(buf, offset, size, newSize);
      size := newSize;
    }

    /** Makes room in front for a larger size inside the buffer: takes it from the room there is or, if that is not
        enough, moves the content back; the old and the new place may overlap. */
    method MakeRoom(newSize: nat)
      requires Valid() && size < newSize <= capacity
      modifies this`offset, buf
      ensures offset + newSize <= capacity
      ensures buf[offset + (newSize - size)..offset + newSize] == old(Content())
    {
      var diff := newSize - size;
      if diff <= offset {
        offset := offset - diff;
      } else {
        Shift(diff);
        offset := 0;
      }
    }

    /** Copies the content inside the buffer. */
    method Shift(to: nat)
      requires Valid() && to + size <= capacity
      modifies buf
      ensures buf[to..to + size] == old(Content())
    {
      var from := offset;
      forall k | 0 <= k < size {
        buf[to + k] := buf[from + k];
      }
    }

    /** Extends at the beginning. */
    method GrowFront(newSize: nat)
      requires Valid() && newSize > size
      modifies this, buf, preallocated
      ensures Valid() && size == newSize
      ensures buf == old(buf) || buf == preallocated || fresh(buf)
      ensures Content()[newSize - old(size)..] == old(Content())
    {
      ghost var was := size;
      if newSize > capacity {
        Reserve(newSize, true, 0, true, false);
      } else {
        MakeRoom(newSize);
      }
      size := newSize;
      TailOf(buf, offset, newSize, newSize - was);
    }

    /** Truncates or extends at the beginning. */
    method Rresize(newSize: nat)
      requires Valid()
      modifies this, buf, preallocated
      ensures Valid() && size == newSize
      ensures buf == old(buf) || buf == preallocated || fresh(buf)
      ensures newSize <= old(size) ==> Content() == old(Content())[old(size) - newSize..]
      ensures newSize >= old(size) ==> Content()[newSize - old(size)..] == old(Content())
      ensures newSize <= old(size) ==>
        && buf == old(buf) && buf[..] == old(buf[..]) && capacity == old(capacity)
        && offset == old(offset) + (old(size) - newSize)
    {
      if newSize > size {
        GrowFront(newSize);
      } else if newSize < size {
        TailOf(buf, offset, size, size - newSize);
        offset := offset + (size - newSize);
        size := newSize;
      }
    }

    /** Overwrites the beginning or the end of the content. */
    method WriteAt(data: string, at: nat)
      requires Valid() && (at == offset || at + |data| == offset + size) && offset <= at && at + |data| <= offset + size
      modifies buf
      ensures at == offset ==> Content() == data + old(Content())[|data|..]
      ensures at + |data| == offset + size ==> Content() == old(Content())[..size - |data|] + data
    {
      forall k | 0 <= k < |data| {
        buf[at + k] := data[k];
      }
    }

    method Append(data: string)
      requires Valid()
      modifies this, buf, preallocated
      ensures Valid() && Content() == old(Content()) + data
      ensures buf == old(buf) || buf == preallocated || fresh(buf)
      ensures old(offset + size) + |data| <= old(capacity) ==>
        buf == old(buf) && capacity == old(capacity) && offset == old(offset)
    {
      var oldSize := size;
      Resize(oldSize + |data|);
      WriteAt(data, oldSize + offset);
    }

    method Prepend(data: string)
      requires Valid()
      modifies this, buf, preallocated
      ensures Valid() && Content() == data + old(Content())
      ensures buf == old(buf) || buf == preallocated || fresh(buf)
    {
      Rresize(size + |data|);
      WriteAt(data, offset);
    }

    method Load(data: string)
      requires Valid()
      modifies this, buf, preallocated
      ensures Valid() && Content() == data
      ensures buf == old(buf) || buf == preallocated || fresh(buf)
      ensures old(offset) + |data| <= old(capacity) ==>
        buf == old(buf) && capacity == old(capacity) && offset == old(offset)
    {
      Clear();
      Append(data);
    }

    /** The content with a zero behind it; an empty array has none. */
    method CStr() returns (r: bool)
      requires Valid()
      modifies this, buf, preallocated
      ensures Valid() && Content() == old(Content()) && r == (size > 0)
      ensures r ==> offset + size < capacity && buf[offset + size] == '\0'
      ensures buf == old(buf) || buf == preallocated || fresh(buf)
    {
      if size == 0 { return false; }
      if offset + size == capacity {
        Reserve(capacity + 1, false, 0, false, false);
      }
      ghost var kept := Content();
      buf[offset + size] := '\0';
      assert Content() == kept;
      return true;
    }

    method Right(newSize: nat)
      requires Valid()
      modifies this, buf, preallocated
      ensures Valid()
      ensures Content() == if newSize >= old(size) then old(Content()) else old(Content())[old(size) - newSize..]
      ensures buf == old(buf) && buf[..] == old(buf[..]) && capacity == old(capacity)
      ensures offset == old(offset) + if newSize >= old(size) then 0 else old(size) - newSize
    {
      if newSize >= size { return; }
      Rresize(newSize);
    }

    method Left(newSize: nat)
      requires Valid()
      modifies this, buf, preallocated
      ensures Valid() && Content() == if newSize >= old(size) then old(Content()) else old(Content())[..newSize]
      ensures buf == old(buf) || buf == preallocated || fresh(buf)
    {
      if newSize >= size { return; }
      Resize(newSize);
    }

    /** Shrinks the capacity to the content. A buffer that stays is not moved: its first bytes become the content, so
        that room in front loses the content. */
    method Shrink()
      requires Valid()
      modifies this, buf, preallocated
      ensures Valid() && size == old(size) && offset == 0
      ensures var stays := old(size != capacity && if size <= 20 then capacity == 20 else blockSize(size) == capacity);
        && (stays ==> buf[..] == old(buf[..]) && Content() == old(buf[..size]))
        && (!stays ==> Content() == old(Content()))
    {
      Reserve(size, false, 0, false, true);
    }

    /** Every run of operations does to the array what it does to a sequence. */
    method Perform(ops: seq<Op>)
      requires Valid()
      modifies this, buf, preallocated
      ensures Valid() && Content() == Run(old(Content()), ops)
      ensures buf == old(buf) || buf == preallocated || fresh(buf)
    {
      var i := 0;
      while i < |ops|
        invariant i <= |ops| && Valid()
        invariant buf == old(buf) || buf == preallocated || fresh(buf)
        invariant Run(Content(), ops[i..]) == Run(old(Content()), ops)
      {
        assert ops[i..][1..] == ops[i + 1..];
        PerformOne(ops[i]);
        i := i + 1;
      }
    }

    method PerformOne(op: Op)
      requires Valid()
      modifies this, buf, preallocated
      ensures Valid() && Content() == Applied(old(Content()), op)
      ensures buf == old(buf) || buf == preallocated || fresh(buf)
    {
      match op {
        case Append(data) => Append(data);
        case Prepend(data) => Prepend(data);
        case Left(n) => Left(n);
        case Right(n) => Right(n);
        case Load(data) => Load(data);
        case Clear => Clear();
        case Reset => Reset();
        case Reserve(n, reverse) => Reserve(n, reverse, 0, false, false);
        case CStr => var _ := CStr();
      }
    }
  }
}
