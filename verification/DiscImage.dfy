/** Slices of a disc image, and copies between byte buffers. */
module DiscImage {
  import opened Common

  datatype Ret = SUCCEEDED | FAILED | Error(code: int)

  /** What a disc reads at a position: bytes past the end of the image are zero. */
  function At(img: seq<byte>, pos: nat): byte {
    if pos < |img| then img[pos] else 0
  }

  /** The n bytes of the zero-extended image from off on. */
  function Slice(img: seq<byte>, off: nat, n: nat): (r: seq<byte>)
    ensures |r| == n && forall k :: 0 <= k < n ==> r[k] == At(img, off + k)
  {
    seq<byte>(n, k requires 0 <= k < n => At(img, off + k))
  }

  lemma SliceSplit(img: seq<byte>, off: nat, n: nat, m: nat)
    ensures Slice(img, off, n + m) == Slice(img, off, n) + Slice(img, off + n, m)
  {
  }

  lemma SliceSub(img: seq<byte>, off: nat, n: nat, i: nat, j: nat)
    requires i <= j <= n
    ensures Slice(img, off, n)[i..j] == Slice(img, off + i, j - i)
  {
  }

  lemma SliceInside(img: seq<byte>, off: nat, n: nat)
    requires off + n <= |img|
    ensures Slice(img, off, n) == img[off..off + n]
  {
  }

  function Zeros(n: nat): (r: seq<byte>)
    ensures |r| == n && forall k :: 0 <= k < n ==> r[k] == 0
  {
    seq<byte>(n, k => 0)
  }

  lemma SliceBeyond(img: seq<byte>, off: nat, n: nat)
    requires |img| <= off
    ensures Slice(img, off, n) == Zeros(n)
  {
  }

  /** The bytes of a buffer after n bytes d were stored at off. */
  function Stored(b: seq<byte>, off: nat, d: seq<byte>): (r: seq<byte>)
    requires off + |d| <= |b|
    ensures |r| == |b|
  {
    b[..off] + d + b[off + |d|..]
  }

  lemma StoredParts(b: seq<byte>, off: nat, d: seq<byte>)
    requires off + |d| <= |b|
    ensures Stored(b, off, d)[..off] == b[..off]
    ensures Stored(b, off, d)[off..off + |d|] == d
    ensures Stored(b, off, d)[off + |d|..] == b[off + |d|..]
    ensures Stored(b, off, d)[..off + |d|] == b[..off] + d
  {
  }

  /** memcpy, copy_to_process. */
  method Copy(dst: array<byte>, doff: nat, src: array<byte>, soff: nat, n: nat)
    requires dst != src && doff + n <= dst.Length && soff + n <= src.Length
    modifies dst
    ensures dst[..] == Stored(old(dst[..]), doff, old(src[soff..soff + n]))
  {
    forall i | doff <= i < doff + n {
      dst[i] := src[soff + (i - doff)];
    }
  }

  /** memset(dst + off, 0, n). */
  method Clear(dst: array<byte>, off: nat, n: nat)
    requires off + n <= dst.Length
    modifies dst
    ensures dst[..] == Stored(old(dst[..]), off, Zeros(n))
  {
    forall i | off <= i < off + n {
      dst[i] := 0;
    }
  }

  /** The part of a file from pos on that a read of n bytes returns. */
  function Available(file: seq<byte>, pos: nat, n: nat): (r: nat)
    ensures r <= n && (pos <= |file| ==> pos + r <= |file|) && (r > 0 ==> pos < |file|)
  {
    if pos >= |file| then 0 else if |file| - pos < n then |file| - pos else n
  }

  lemma Front(b: seq<byte>, d: seq<byte>)
    requires |d| <= |b|
    ensures Stored(b, 0, d)[..|d|] == Stored(b, 0, d)[0..|d|] == d
  {
  }

  lemma Whole(b: seq<byte>, d: seq<byte>)
    requires |d| == |b|
    ensures Stored(b, 0, d) == d
  {
  }
}
