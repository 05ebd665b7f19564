/** memcpy and memmove into fixed buffers, and slices. */
module Memory {

  /** The source is a value taken before the call, so overlapping moves are memmove. */
  method MemCpy<T>(dst: array<T>, at: nat, src: seq<T>)
    requires at + |src| <= dst.Length
    modifies dst
    ensures dst[..] == old(dst[..])[..at] + src + old(dst[..])[at + |src|..]
  {
    forall i | 0 <= i < |src| {
      dst[at + i] := src[i];
    }
  }

  /** Slices of a concatenation: across the joint and behind it. */
  lemma SliceAcross<T>(a: seq<T>, b: seq<T>, i: nat, n: nat)
    requires i <= |a| <= i + n <= |a| + |b|
    ensures (a + b)[i..i + n] == a[i..] + b[..i + n - |a|]
  {
  }

  lemma SliceBehind<T>(a: seq<T>, b: seq<T>, i: nat, n: nat)
    requires i + n <= |b|
    ensures (a + b)[|a| + i..|a| + i + n] == b[i..i + n] && (a + b)[|a| + i..] == b[i..]
  {
  }

  /** A slice of a slice. */
  lemma SubSlice<T>(b: seq<T>, lo: nat, n: nat, i: nat, m: nat)
    requires lo + n <= |b| && i + m <= n
    ensures b[lo..lo + n][i..i + m] == b[lo + i..lo + i + m]
  {
    var x, y := b[lo..lo + n][i..i + m], b[lo + i..lo + i + m];
    forall k | 0 <= k < m ensures x[k] == y[k] { assert x[k] == b[lo..lo + n][i + k] == b[lo + (i + k)]; }
  }
}
