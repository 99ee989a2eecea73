/** The parts of `Uint8Array` that the envelope code relies on: byte values,
    `slice` with its index clamping, and `set`, which copies one array into
    another at an offset. */
module TypedArrays {

  /** An element of a `Uint8Array`. */
  type byte = x: int | 0 <= x < 256

  function Min(a: int, b: int): int { if a <= b then a else b }

  function Max(a: int, b: int): int { if a <= b then b else a }

  /** `s.slice(start, end)` for non-negative arguments: both ends are clamped
      to the length, and an empty array results when `end` falls before
      `start`. */
  function Slice<T>(s: seq<T>, start: nat, end: nat): (r: seq<T>)
    ensures |r| == Max(0, Min(end, |s|) - Min(start, |s|))
    ensures forall i :: 0 <= i < |r| ==> r[i] == s[start + i]
  {
    var from := Min(start, |s|);
    var to := Max(from, Min(end, |s|));
    s[from..to]
  }

  /** `s.slice(start)`: the end defaults to the length. */
  function SliceFrom<T>(s: seq<T>, start: nat): (r: seq<T>)
    ensures |r| == Max(0, |s| - start)
    ensures start <= |s| ==> r == s[start..]
  {
    Slice(s, start, |s|)
  }

  /** `slice(0)` is a copy with the same contents. */
  lemma SliceFromZeroCopies<T>(s: seq<T>)
    ensures SliceFrom(s, 0) == s
  {
  }

  /** `new Uint8Array(n)`: n zero bytes. */
  function Zeros(n: nat): (r: seq<byte>)
    ensures |r| == n
    ensures forall i :: 0 <= i < n ==> r[i] == 0
  {
    seq(n, _ => 0)
  }

  /** `target.set(src, offset)`. The platform throws a RangeError when the
      source does not fit; every call in the envelope code fits, which is
      what the precondition records. */
  function SetAt(target: seq<byte>, src: seq<byte>, offset: nat): (r: seq<byte>)
    requires offset + |src| <= |target|
    ensures |r| == |target|
    ensures forall i :: 0 <= i < |src| ==> r[offset + i] == src[i]
    ensures forall i :: 0 <= i < |target| && !(offset <= i < offset + |src|) ==> r[i] == target[i]
  {
    target[..offset] + src + target[offset + |src|..]
  }
}
