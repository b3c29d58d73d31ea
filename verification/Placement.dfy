/** The circular search for a free block, as a function of the set of allocated blocks. */
module Placement {
  import opened Types

  // The first block of [lo, hi) outside `bits`, or hi.
  function FreeFrom(bits: set<nat>, lo: nat, hi: nat): (r: nat)
    requires lo <= hi
    ensures lo <= r <= hi
    ensures r < hi ==> r !in bits
    ensures forall b :: lo <= b < r ==> b in bits
    decreases hi - lo
  {
    if lo == hi || lo !in bits then lo else FreeFrom(bits, lo + 1, hi)
  }

  // The search of the allocator: from `start` to the end, then from 0 up to `start`.
  function NextFree(n: nat, bits: set<nat>, start: nat): nat {
    if start > n then UINT32_MAX else
    var from := if start == n then 0 else start;
    var high := FreeFrom(bits, from, n);
    if high < n then high else
    var low := FreeFrom(bits, 0, from);
    if low < from then low else UINT32_MAX
  }

  // How far a cursor that only moves forward and wraps at n travels from a to b.
  function Dist(n: nat, a: nat, b: nat): int {
    if a <= b then b - a else b - a + n
  }

  // Declarative meaning of the search: the free block nearest to `start` going
  // forward, or UINT32_MAX when nothing is free.
  ghost predicate IsNextFree(n: nat, bits: set<nat>, start: nat, r: nat) {
    if r < n then
      r !in bits && forall b: nat :: b < n && Dist(n, start, b) < Dist(n, start, r) ==> b in bits
    else
      r == UINT32_MAX && forall b: nat :: b < n ==> b in bits
  }

  lemma NextFreeExact(n: nat, bits: set<nat>, start: nat, r: nat)
    requires 0 < n < UINT32_MAX && start <= n
    ensures r == NextFree(n, bits, start) <==> IsNextFree(n, bits, start, r)
  {
  }

  // A found block is a fixed point of the search, and a failed search fails from anywhere.
  lemma NextFreeIdempotent(n: nat, bits: set<nat>, start: nat, again: nat)
    requires 0 < n < UINT32_MAX && start <= n && again < n
    ensures NextFree(n, bits, start) != UINT32_MAX ==>
              NextFree(n, bits, NextFree(n, bits, start)) == NextFree(n, bits, start)
    ensures NextFree(n, bits, start) == UINT32_MAX ==> NextFree(n, bits, again) == UINT32_MAX
  {
  }

  // If every block at or past `len` is free, a search from at or below `len` never skips block `len`.
  lemma NextFreeDense(n: nat, bits: set<nat>, start: nat, len: nat)
    requires 0 < n < UINT32_MAX && start <= len <= n
    requires forall b: nat :: len <= b ==> b !in bits
    requires start < n
    ensures NextFree(n, bits, start) != UINT32_MAX ==> NextFree(n, bits, start) <= len
  {
    assert len !in bits;
    NextFreeExact(n, bits, start, NextFree(n, bits, start));
  }

  function Range(n: nat): (r: set<nat>)
    ensures forall b: nat :: b in r <==> b < n
    ensures |r| == n
  {
    if n == 0 then {} else Range(n - 1) + {n - 1}
  }

  lemma SubsetSize<T>(a: set<T>, b: set<T>)
    requires a <= b
    ensures |a| <= |b|
    ensures |a| == |b| <==> a == b
  {
    assert b == a + (b - a);
  }

  // The search fails exactly when n blocks are allocated.
  lemma NextFreeFull(n: nat, bits: set<nat>, start: nat)
    requires 0 < n < UINT32_MAX && start <= n
    requires bits <= Range(n)
    ensures NextFree(n, bits, start) == UINT32_MAX <==> |bits| == n
    ensures |bits| <= n
  {
    NextFreeExact(n, bits, start, NextFree(n, bits, start));
    SubsetSize(bits, Range(n));
  }
}
