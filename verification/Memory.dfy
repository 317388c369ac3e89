/** memcpy. */
module Memory {
  import opened RingMath

  method MemCopy(dst: array<byte>, at: nat, src: seq<byte>)
    requires at + |src| <= dst.Length
    modifies dst
    ensures forall i :: 0 <= i < |src| ==> dst[at + i] == src[i]
    ensures forall i :: 0 <= i < dst.Length && !(at <= i < at + |src|) ==> dst[i] == old(dst[i])
    ensures dst[at..at + |src|] == src
  {
    var k := 0;
    while k < |src|
      invariant k <= |src|
      invariant forall i :: 0 <= i < k ==> dst[at + i] == src[i]
      invariant forall i :: 0 <= i < dst.Length && !(at <= i < at + k) ==> dst[i] == old(dst[i])
    {
      dst[at + k] := src[k];
      k := k + 1;
    }
  }

  /** A memcpy right behind `head`. */
  method MemAppend(dst: array<byte>, head: seq<byte>, src: seq<byte>)
    requires |head| + |src| <= dst.Length && dst[..|head|] == head
    modifies dst
    ensures dst[..|head| + |src|] == head + src
    ensures dst[|head| + |src|..] == old(dst[|head| + |src|..])
  {
    var at := |head|;
    MemCopy(dst, at, src);
    assert dst[..at] == old(dst[..at]);
    assert dst[..at + |src|] == dst[..at] + dst[at..at + |src|];
  }

  lemma SliceOfSlice<T>(a: seq<T>, lo: nat, n: nat, x: nat, m: nat)
    requires lo + n <= |a| && x + m <= n
    ensures a[lo..lo + n][x..x + m] == a[lo + x..lo + x + m]
  {
    var l, r := a[lo..lo + n][x..x + m], a[lo + x..lo + x + m];
    assert forall k :: 0 <= k < m ==> l[k] == r[k];
  }
}
