/** A growable byte vector, appended to and patched in place. */
module Buffers {
  import opened Words

  /** Copies `src` into a mutable slice. */
  method CopyBytes(dst: array<byte>, at: nat, src: seq<byte>)
    requires at + |src| <= dst.Length
    modifies dst
    ensures dst[at..at + |src|] == src
    ensures forall i :: 0 <= i < dst.Length && !(at <= i < at + |src|) ==> dst[i] == old(dst[i])
  {
    for k := 0 to |src|
      invariant dst[at..at + k] == src[..k]
      invariant forall i :: 0 <= i < dst.Length && !(at <= i < at + k) ==> dst[i] == old(dst[i])
    {
      dst[at + k] := src[k];
      assert dst[at..at + k + 1] == src[..k] + [src[k]];
    }
  }

  class ByteVec {
    var bytes: seq<byte>

    constructor ()
      ensures bytes == []
    {
      bytes := [];
    }

    method Push(x: byte)
      modifies this
      ensures bytes == old(bytes) + [x]
    {
      bytes := bytes + [x];
    }

    method Pop()
      requires |bytes| > 0
      modifies this
      ensures bytes == old(bytes)[..|old(bytes)| - 1]
    {
      bytes := bytes[..|bytes| - 1];
    }

    method Extend(s: seq<byte>)
      modifies this
      ensures bytes == old(bytes) + s
    {
      bytes := bytes + s;
    }

    /** Grows by `n` copies of `fill`. */
    method Grow(n: nat, fill: byte)
      modifies this
      ensures bytes == old(bytes) + seq(n, i => fill)
    {
      bytes := bytes + seq(n, i => fill);
    }

    method Set(i: nat, x: byte)
      requires i < |bytes|
      modifies this
      ensures bytes == old(bytes)[i := x]
    {
      bytes := bytes[i := x];
    }

    method CopyAt(i: nat, s: seq<byte>)
      requires i + |s| <= |bytes|
      modifies this
      ensures bytes == old(bytes)[..i] + s + old(bytes)[i + |s|..]
    {
      bytes := bytes[..i] + s + bytes[i + |s|..];
    }
  }
}
