/** `chonk` in `src/server.ts`: a list cut into consecutive slices of a fixed size. */
module Chunking {
  import opened Bytes

  /** All the slices, in order, joined back together. */
  function Concat<T>(slices: seq<seq<T>>): seq<T> {
    if |slices| == 0 then [] else Concat(slices[..|slices| - 1]) + slices[|slices| - 1]
  }

  /** `Math.ceil(n / size)` for a positive size. */
  function SliceCount(n: nat, size: nat): (c: nat)
    requires size > 0
    ensures c * size >= n && (c == 0 || (c - 1) * size < n)
  {
    var c := (n + size - 1) / size;
    assert c * size >= n;
    c
  }

  /** Slice `i` of `count` starts inside the list, and the next one `size` later. */
  lemma SliceStart(n: nat, size: nat, i: nat, lo: nat)
    requires size > 0 && i < SliceCount(n, size) && lo == i * size
    ensures lo < n && lo + size == (i + 1) * size
  {
    var c := SliceCount(n, size);
    assert i * size <= (c - 1) * size;
  }

  lemma AppendSlice<T>(arr: seq<T>, slices: seq<seq<T>>, lo: nat, hi: nat)
    requires lo <= hi && lo <= |arr| && Concat(slices) == arr[..lo]
    ensures Concat(slices + [arr[lo..Min(hi, |arr|)]]) == arr[..Min(hi, |arr|)]
  {
    var slice := arr[lo..Min(hi, |arr|)];
    assert (slices + [slice])[..|slices|] == slices;
    assert arr[..lo] + slice == arr[..Min(hi, |arr|)];
  }

  /**
   * `chonk(arr, size)`: slice `i` is `arr.slice(i * size, (i + 1) * size)`, for
   * `i` below `Math.ceil(arr.length / size)`.
   */
  method Chonk<T>(arr: seq<T>, size: nat) returns (slices: seq<seq<T>>)
    requires size > 0
    ensures |slices| == SliceCount(|arr|, size)
    ensures forall k | 0 <= k < |slices| :: 0 < |slices[k]| <= size
    ensures forall k | 0 <= k < |slices| - 1 :: |slices[k]| == size
    ensures Concat(slices) == arr
  {
    var count := SliceCount(|arr|, size);
    slices := [];
    var i: nat := 0;
    var lo: nat := 0;
    while i < count
      invariant i <= count && lo == i * size
      invariant |slices| == i
      invariant forall k | 0 <= k < i :: 0 < |slices[k]| <= size
      invariant forall k | 0 <= k < i - 1 :: |slices[k]| == size
      invariant i > 0 ==> |slices[i - 1]| == size || lo >= |arr|
      invariant Concat(slices) == arr[..Min(lo, |arr|)]
    {
      SliceStart(|arr|, size, i, lo);
      var hi := lo + size;
      var slice := arr[lo..Min(hi, |arr|)];
      AppendSlice(arr, slices, lo, hi);
      slices := slices + [slice];
      i := i + 1;
      lo := hi;
    }
    assert lo >= |arr|;
  }
}
