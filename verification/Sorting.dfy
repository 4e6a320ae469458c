/** sort.Sort: an in-place sort by swaps, driven by a comparison only. The result is one of the orders the comparison
    allows; nothing is promised about elements that rank the same. */
module Sorting {

  predicate IsPermutation(perm: seq<nat>, n: nat) {
    && |perm| == n
    && (forall i :: 0 <= i < n ==> perm[i] < n)
    && forall i, j :: 0 <= i < j < n ==> perm[i] != perm[j]
  }

  /** `xs` is `ys` rearranged: position `i` of `xs` comes from position `perm[i]` of `ys`. */
  ghost predicate Rearranges<T>(perm: seq<nat>, xs: seq<T>, ys: seq<T>) {
    IsPermutation(perm, |ys|) && |xs| == |ys| && forall i :: 0 <= i < |xs| ==> xs[i] == ys[perm[i]]
  }

  ghost function Elements(perm: seq<nat>): set<nat> {
    set x | x in perm
  }

  lemma {:induction false} CountDistinct(perm: seq<nat>)
    requires forall i, j :: 0 <= i < j < |perm| ==> perm[i] != perm[j]
    ensures |Elements(perm)| == |perm|
  {
    if perm != [] {
      CountDistinct(perm[1..]);
      assert perm[0] !in Elements(perm[1..]);
      assert Elements(perm) == Elements(perm[1..]) + {perm[0]};
    }
  }

  lemma {:induction false} CountBelow(s: set<nat>, n: nat)
    requires forall x :: x in s ==> x < n
    ensures |s| <= n
  {
    if n == 0 {
      assert s == {};
    } else {
      CountBelow(s - {n - 1}, n - 1);
    }
  }

  /** A permutation reaches every position. */
  lemma Preimage(perm: seq<nat>, n: nat, i: nat) returns (j: nat)
    requires IsPermutation(perm, n) && i < n
    ensures j < n && perm[j] == i
  {
    if i !in perm {
      var values := Elements(perm);
      CountDistinct(perm);
      assert i !in values;
      assert |values + {i}| == n + 1;
      CountBelow(values + {i}, n);
    }
    j :| 0 <= j < n && perm[j] == i;
  }

  /** `less` ranks elements: no element precedes itself, and not preceding is transitive. */
  ghost predicate Ranks<T(!new)>(less: (T, T) -> bool) {
    && (forall x, y :: less(x, y) ==> !less(y, x))
    && forall x, y, z :: !less(y, x) && !less(z, y) ==> !less(z, x)
  }

  ghost predicate Sorted<T(!new)>(less: (T, T) -> bool, xs: seq<T>) {
    forall i, j :: 0 <= i < j < |xs| ==> !less(xs[j], xs[i])
  }

  /** Sorted but for position `j`, which may precede elements before it. */
  ghost predicate SortedBut<T(!new)>(less: (T, T) -> bool, xs: seq<T>, j: nat) {
    forall p, q :: 0 <= p < q < |xs| && q != j ==> !less(xs[q], xs[p])
  }

  method Swap<T>(a: array<T>, i: nat, j: nat)
    requires i < a.Length && j < a.Length
    modifies a
    ensures a[..] == old(a[..])[i := old(a[j])][j := old(a[i])]
  {
    a[i], a[j] := a[j], a[i];
  }

  lemma SwapRearranges<T>(perm: seq<nat>, xs: seq<T>, ys: seq<T>, i: nat, j: nat)
    requires Rearranges(perm, xs, ys) && i < |xs| && j < |xs|
    ensures Rearranges(perm[i := perm[j]][j := perm[i]], xs[i := xs[j]][j := xs[i]], ys)
  {
  }

  lemma SwapSortedBut<T(!new)>(less: (T, T) -> bool, xs: seq<T>, j: nat)
    requires Ranks(less) && 0 < j < |xs| && SortedBut(less, xs, j) && less(xs[j], xs[j - 1])
    ensures SortedBut(less, xs[j := xs[j - 1]][j - 1 := xs[j]], j - 1)
  {
  }

  lemma SettledSorted<T(!new)>(less: (T, T) -> bool, xs: seq<T>, j: nat)
    requires Ranks(less) && j < |xs| && SortedBut(less, xs, j) && (j > 0 ==> !less(xs[j], xs[j - 1]))
    ensures Sorted(less, xs)
  {
  }

  /** Moves the element at `i` back to its place among the sorted ones before it. */
  method Insert<T(!new)>(a: array<T>, less: (T, T) -> bool, i: nat, ghost ys: seq<T>, ghost perm: seq<nat>)
    returns (ghost perm': seq<nat>)
    requires Ranks(less) && i < a.Length && Sorted(less, a[..i]) && Rearranges(perm, a[..], ys)
    modifies a
    ensures Sorted(less, a[..i + 1]) && Rearranges(perm', a[..], ys)
  {
    perm' := perm;
    var j := i;
    while j > 0 && less(a[j], a[j - 1])
      invariant 0 <= j <= i
      invariant SortedBut(less, a[..i + 1], j)
      invariant Rearranges(perm', a[..], ys)
    {
      ghost var was := a[..];
      SwapRearranges(perm', was, ys, j, j - 1);
      SwapSortedBut(less, was[..i + 1], j);
      Swap(a, j, j - 1);
      assert a[..i + 1] == was[..i + 1][j := was[j - 1]][j - 1 := was[j]];
      perm' := perm'[j := perm'[j - 1]][j - 1 := perm'[j]];
      j := j - 1;
    }
    SettledSorted(less, a[..i + 1], j);
  }

  method Sort<T(!new)>(a: array<T>, less: (T, T) -> bool) returns (ghost perm: seq<nat>)
    requires Ranks(less)
    modifies a
    ensures Sorted(less, a[..]) && Rearranges(perm, a[..], old(a[..]))
  {
    perm := seq(a.Length, i => i);
    for i := 0 to a.Length
      invariant Sorted(less, a[..i]) && Rearranges(perm, a[..], old(a[..]))
    {
      perm := Insert(a, less, i, old(a[..]), perm);
    }
    assert a[..a.Length] == a[..];
  }
}
