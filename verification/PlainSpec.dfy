/** An ordinary file: bytes and one position. This is what an encrypted file should look like from outside. */
module PlainSpec {
  import opened CryptLayout
  import opened PlainFiles

  datatype Plain = Plain(bytes: seq<byte>, pos: nat)

  datatype Op =
    | SeekTo(p: nat)
    | ReadUpTo(n: nat)
    | WriteAll(d: seq<byte>)
    | Resize(n: nat)
    | FlushAll
    | DropCache

  datatype Out = Done | Data(d: seq<byte>) | Written(n: nat) | Refused

  /** `s` cut or padded with zeros to size `n`. */
  function Resized(s: seq<byte>, n: nat): (r: seq<byte>)
    ensures |r| == n
  {
    if n <= |s| then s[..n] else s + Zeros(n - |s|)
  }

  lemma ResizedAt(s: seq<byte>, n: nat, i: nat)
    requires i < n
    ensures Resized(s, n)[i] == if i < |s| then s[i] else 0
  {
  }

  /** Positions past the end read nothing; a write there fills the gap with zeros. Only a writable file changes. */
  function Step(f: Plain, writable: bool, op: Op): (Plain, Out) {
    match op
    case SeekTo(p) => (f.(pos := p), Done)
    case ReadUpTo(n) =>
      if f.pos >= |f.bytes| then (f, Data([]))
      else var d := Piece(f.bytes, f.pos, n); (f.(pos := f.pos + |d|), Data(d))
    case WriteAll(d) =>
      if d == [] then (f, Written(0))
      else if !writable then (f, Refused)
      else
        var base := if f.pos > |f.bytes| then Resized(f.bytes, f.pos) else f.bytes;
        (Plain(Splice(base, f.pos, d), f.pos + |d|), Written(|d|))
    case Resize(n) => if writable then (f.(bytes := Resized(f.bytes, n)), Done) else (f, Refused)
    case FlushAll => (f, Done)
    case DropCache => (f, Done)
  }

  function Run(f: Plain, writable: bool, ops: seq<Op>): (Plain, seq<Out>)
    decreases |ops|
  {
    if ops == [] then (f, [])
    else
      var (g, outs) := Run(f, writable, ops[..|ops| - 1]);
      var (h, out) := Step(g, writable, ops[|ops| - 1]);
      (h, outs + [out])
  }
}
