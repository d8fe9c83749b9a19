/** The raw file under an encrypted one: a header with the two stored sizes, and the bytes after the descriptor. */
module PlainFiles {
  import opened CryptLayout

  function Zeros(n: nat): (r: seq<byte>)
    ensures |r| == n && forall i :: 0 <= i < n ==> r[i] == 0
  {
    seq(n, i => 0)
  }

  lemma ZerosMore(s: seq<byte>, i: nat, zeros: seq<byte>, n: nat)
    requires n <= |zeros| && zeros == Zeros(|zeros|)
    ensures s + Zeros(i) + zeros[..n] == s + Zeros(i + n)
    ensures n == |zeros| ==> zeros[..n] == zeros
  {
    assert Zeros(i) + zeros[..n] == Zeros(i + n);
  }

  class PlainFile {
    var data: seq<byte>
    var position: nat
    var plainSize: nat
    var cipherSize: nat

    constructor ()
      ensures data == [] && position == 0 && plainSize == 0 && cipherSize == 0
    {
      data, position, plainSize, cipherSize := [], 0, 0, 0;
    }

    method Seek(pos: nat)
      modifies this`position
      ensures position == pos
    {
      position := pos;
    }

    /** Reads up to `n` bytes. */
    method Read(n: nat) returns (r: seq<byte>)
      modifies this`position
      ensures var p := old(position);
        r == if p >= |data| then [] else if p + n <= |data| then data[p..p + n] else data[p..]
    {
      var p := position;
      if p >= |data| {
        r := [];
      } else if p + n <= |data| {
        r := data[p..p + n];
      } else {
        r := data[p..];
      }
      position := if p >= |data| then |data| else p + |r|;
    }

    /** Writes past the end leave a hole of zeros. */
    method Write(d: seq<byte>)
      modifies this`data, this`position
      ensures data == (if old(position) <= |old(data)| then Splice(old(data), old(position), d)
                       else old(data) + Zeros(old(position) - |old(data)|) + d)
    {
      data := if position <= |data| then Splice(data, position, d) else data + Zeros(position - |data|) + d;
      position := position + |d|;
    }

    method Truncate(n: nat)
      modifies this`data
      ensures data == if n <= |old(data)| then old(data)[..n] else old(data) + Zeros(n - |old(data)|)
    {
      data := if n <= |data| then data[..n] else data + Zeros(n - |data|);
    }

    /** Stores both sizes in the header. */
    method WriteHeader(plain: nat, cipher: nat)
      modifies this`plainSize, this`cipherSize
      ensures plainSize == plain && cipherSize == cipher
    {
      plainSize, cipherSize := plain, cipher;
    }
  }
}
