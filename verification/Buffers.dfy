/** Byte buffers written in place (Go's encoding/binary, JavaScript's DataView). */
module Buffers {
  import opened Bytes

  method PutLittleEndian(a: array<Byte>, at: nat, v: nat, n: nat)
    requires at + n <= a.Length
    modifies a
    ensures a[..] == old(a[..at]) + LeBytes(v, n) + old(a[at + n..])
  {
    var bs := LeBytes(v, n);
    forall k | 0 <= k < n {
      a[at + k] := bs[k];
    }
  }

  function GetLittleEndian(a: array<Byte>, at: nat, n: nat): (v: nat)
    requires at + n <= a.Length
    reads a
    ensures v < Pow256(n)
  {
    LeValueBound(a[at..at + n]);
    LeValue(a[at..at + n])
  }

  /** Reverses a buffer in place, from both ends. */
  method SwapEndian(a: array<Byte>, n: nat)
    requires n <= a.Length
    modifies a
    ensures a[..] == Reversed(old(a[..n])) + old(a[n..])
  {
    var i, j := 0, n - 1;
    while i < j
      invariant 0 <= i <= n && j == n - 1 - i && i <= j + 1
      invariant forall k :: 0 <= k < i ==> a[k] == old(a[n - 1 - k])
      invariant forall k :: j < k < n ==> a[k] == old(a[n - 1 - k])
      invariant forall k :: i <= k <= j ==> a[k] == old(a[k])
      invariant a[n..] == old(a[n..])
    {
      a[i], a[j] := a[j], a[i];
      i, j := i + 1, j - 1;
    }
  }
}
