/** Byte arrays that are filled piece by piece. */
module Buffers {
  import opened Bytes

  /** The first k bytes of d have been put at base; nothing else has changed. */
  ghost predicate Copied(s: seq<Byte>, before: seq<Byte>, base: nat, d: seq<Byte>, k: nat)
    requires k <= |d| && base + |d| <= |s|
  {
    && |s| == |before|
    && (forall j :: 0 <= j < k ==> s[base + j] == d[j])
    && forall j :: 0 <= j < |s| && !(base <= j < base + k) ==> s[j] == before[j]
  }

  lemma CopiedNext(s: seq<Byte>, before: seq<Byte>, base: nat, d: seq<Byte>, k: nat)
    requires k < |d| && base + |d| <= |s| && Copied(s, before, base, d, k)
    ensures Copied(s[base + k := d[k]], before, base, d, k + 1)
  {}

  /** Go's copy into a slice with room. */
  method CopyInto(a: array<Byte>, i: nat, d: seq<Byte>)
    requires i + |d| <= a.Length
    modifies a
    ensures Copied(a[..], old(a[..]), i, d, |d|)
    ensures a[i..i + |d|] == d
    ensures forall k :: 0 <= k < i || i + |d| <= k < a.Length ==> a[k] == old(a[k])
  {
    for j := 0 to |d|
      invariant Copied(a[..], old(a[..]), i, d, j)
    {
      CopiedNext(a[..], old(a[..]), i, d, j);
      a[i + j] := d[j];
    }
  }
}
