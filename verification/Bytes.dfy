// Byte moves between two buffers.

module Bytes {

  /** The buffer after n bytes of src have been written at `to`; nothing when n is zero. */
  function Spliced(dst: seq<int>, to: nat, src: seq<int>, from: nat, n: nat): (r: seq<int>)
    requires n > 0 ==> from + n <= |src| && to + n <= |dst|
    ensures |r| == |dst|
    ensures forall k | 0 <= k < |dst| :: r[k] == if to <= k < to + n then src[from + (k - to)] else dst[k]
  {
    if n == 0 then dst else dst[..to] + src[from..from + n] + dst[to + n..]
  }

  method MoveBytes(src: array<int>, from: nat, dst: array<int>, to: nat, n: nat)
    requires src != dst && (n > 0 ==> from + n <= src.Length && to + n <= dst.Length)
    modifies dst
    ensures dst[..] == Spliced(old(dst[..]), to, src[..], from, n)
  {
    for i := 0 to n
      invariant dst[..] == Spliced(old(dst[..]), to, src[..], from, i)
    {
      dst[to + i] := src[from + i];
    }
  }
}
