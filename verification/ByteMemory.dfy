/** Bytes, and writing over a stretch of them. */
module ByteMemory {

  type byte = b: int | 0 <= b < 256

  /** A sequence with `data` written over it from `start` on. */
  function Overwrite(s: seq<byte>, start: nat, data: seq<byte>): (r: seq<byte>)
    requires start + |data| <= |s|
    ensures |r| == |s|
  {
    s[..start] + data + s[start + |data|..]
  }

  function Repeat(b: byte, n: nat): (s: seq<byte>)
    ensures |s| == n && forall i :: 0 <= i < n ==> s[i] == b
  {
    seq(n, i => b)
  }
}
