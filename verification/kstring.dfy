/** The copy loops of klibc. */
module KString {
  import opened Arithmetic

  /** Where word k of a forward copy comes from: an overlap from below repeats the first dst - src words. */
  function ForwardSource(dst: nat, src: nat, k: nat): nat {
    if src < dst then src + k % (dst - src) else src + k
  }

  /** memcpy within one array. */
  method Memcpy<T>(a: array<T>, dst: nat, src: nat, n: nat)
    requires dst + n <= a.Length && src + n <= a.Length
    modifies a
    ensures forall k :: 0 <= k < n ==> 0 <= ForwardSource(dst, src, k) < a.Length && a[dst + k] == old(a[ForwardSource(dst, src, k)])
    ensures forall j :: 0 <= j < a.Length && !(dst <= j < dst + n) ==> a[j] == old(a[j])
  {
    for i := 0 to n
      invariant forall k :: 0 <= k < i ==> 0 <= ForwardSource(dst, src, k) < a.Length && a[dst + k] == old(a[ForwardSource(dst, src, k)])
      invariant forall j :: 0 <= j < a.Length && !(dst <= j < dst + i) ==> a[j] == old(a[j])
    {
      SourceStep(dst, src, i);
      a[dst + i] := a[src + i];
    }
  }

  lemma SourceStep(dst: nat, src: nat, i: nat)
    ensures src <= ForwardSource(dst, src, i) <= src + i
    ensures src < dst && i >= dst - src ==> ForwardSource(dst, src, i) == ForwardSource(dst, src, i - (dst - src))
    ensures !(src < dst && i >= dst - src) ==> ForwardSource(dst, src, i) == src + i
  {
    if src < dst && i >= dst - src {
      ModStep(i, dst - src);
    }
  }

  /** A forward copy moves every word where it should exactly when the target does not start inside the source. */
  lemma ForwardCopyExact(dst: nat, src: nat, n: nat)
    ensures (forall k: nat :: k < n ==> ForwardSource(dst, src, k) == src + k) <==> !(src < dst < src + n)
  {
    if src < dst < src + n {
      assert ForwardSource(dst, src, dst - src) == src;
    } else if src < dst {
      forall k: nat | k < n
        ensures ForwardSource(dst, src, k) == src + k
      {
        ModUnique(k, dst - src, 0, k);
      }
    }
  }

  /** memmove: through a buffer, so right for every overlap. */
  method Memmove<T(0)>(a: array<T>, dst: nat, src: nat, n: nat)
    requires dst + n <= a.Length && src + n <= a.Length
    modifies a
    ensures forall j :: dst <= j < dst + n ==> a[j] == old(a[j - dst + src])
    ensures forall j :: 0 <= j < a.Length && !(dst <= j < dst + n) ==> a[j] == old(a[j])
  {
    var buf := new T[n];
    for i := 0 to n
      invariant forall k :: 0 <= k < i ==> buf[k] == a[src + k]
      invariant a[..] == old(a[..])
    {
      buf[i] := a[src + i];
    }
    for i := 0 to n
      invariant forall k :: 0 <= k < n ==> buf[k] == old(a[src + k])
      invariant forall j :: dst <= j < dst + i ==> a[j] == old(a[j - dst + src])
      invariant forall j :: 0 <= j < a.Length && !(dst <= j < dst + i) ==> a[j] == old(a[j])
    {
      a[dst + i] := buf[i];
    }
  }
}
