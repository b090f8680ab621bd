/** The part of Go's runtime that the slice tricks are written against: the
    slice header and the built-ins `make`, `copy` and `append`. */
module GoSlices {

  /** n copies of the zero value, as `make([]T, n)` fills a new slice. */
  function Zeros<T>(n: nat, zero: T): (r: seq<T>)
    ensures |r| == n
    ensures forall k :: 0 <= k < n ==> r[k] == zero
  {
    seq(n, _ => zero)
  }

  /** A Go slice `[]T`: a window of `len` elements starting at `off` in a
      backing array. Its capacity runs from `off` to the end of the array. */
  class Slice<T> {
    var arr: array<T>
    var off: nat
    var len: nat

    ghost predicate Valid()
      reads this
    {
      off + len <= arr.Length
    }

    /** cap(a) */
    function Cap(): (c: nat)
      reads this
      requires Valid()
    {
      arr.Length - off
    }

    /** The live elements a[0], ..., a[len(a)-1]. */
    function Contents(): (s: seq<T>)
      reads this, arr
      requires Valid()
    {
      arr[off..off + len]
    }

    /** `make([]T, length, capacity)`: a fresh, zero-filled backing array. */
    constructor Make(length: nat, capacity: nat, zero: T)
      requires length <= capacity
      ensures Valid() && fresh(arr) && off == 0
      ensures len == length && arr.Length == capacity
      ensures arr[..] == Zeros(capacity, zero)
    {
      arr := new T[capacity](_ => zero);
      off := 0;
      len := length;
    }

    /** The reslice `backing[from : from+length]`: a new header over an
        existing array, sharing its elements. */
    constructor Sub(backing: array<T>, from: nat, length: nat)
      requires from + length <= backing.Length
      ensures Valid() && arr == backing && off == from && len == length
    {
      arr := backing;
      off := from;
      len := length;
    }
  }

  /** The built-in `copy(dst, src)` where dst is the slice of dLen elements at
      dOff in `dst` and src the slice of sLen elements at sOff in `src`. It
      copies min(dLen, sLen) elements and behaves like memmove when the two
      overlap in the same array. */
  method CopyElems<T>(dst: array<T>, dOff: nat, dLen: nat, src: array<T>, sOff: nat, sLen: nat)
    returns (n: nat)
    requires dOff + dLen <= dst.Length && sOff + sLen <= src.Length
    modifies dst
    ensures n == if dLen <= sLen then dLen else sLen
    ensures dst[dOff..dOff + n] == old(src[sOff..sOff + n])
    ensures forall p :: 0 <= p < dst.Length && !(dOff <= p < dOff + n) ==> dst[p] == old(dst[p])
  {
    n := if dLen <= sLen then dLen else sLen;
    // all of the source is read before anything is written, as memmove does
    var moved := src[sOff..sOff + n];
    forall k | 0 <= k < n {
      dst[dOff + k] := moved[k];
    }
  }

  /** `copy(dst, src)` where src is a slice that cannot share `dst` (a
      variadic argument list, say), given by its contents. */
  method CopyFrom<T>(dst: array<T>, dOff: nat, dLen: nat, src: seq<T>) returns (n: nat)
    requires dOff + dLen <= dst.Length
    modifies dst
    ensures n == if dLen <= |src| then dLen else |src|
    ensures dst[dOff..dOff + n] == src[..n]
    ensures forall p :: 0 <= p < dst.Length && !(dOff <= p < dOff + n) ==> dst[p] == old(dst[p])
  {
    n := if dLen <= |src| then dLen else |src|;
    forall k | 0 <= k < n {
      dst[dOff + k] := src[k];
    }
  }

  /** `*a = append(*a, xs...)`. When the new length fits the capacity the
      elements are written after the live ones in the same backing array;
      otherwise a new array is allocated (Go's growth policy is not modelled:
      the new array is exactly as long as needed) and the old one is left
      as it was. */
  method Append<T>(a: Slice<T>, xs: seq<T>)
    requires a.Valid()
    modifies a, a.arr
    ensures a.Valid()
    ensures a.Contents() == old(a.Contents()) + xs
    ensures old(a.len) + |xs| <= old(a.Cap()) ==>
      a.arr == old(a.arr) && a.off == old(a.off) &&
      forall p :: 0 <= p < a.arr.Length && !(a.off + old(a.len) <= p < a.off + a.len) ==> a.arr[p] == old(a.arr[p])
    ensures old(a.len) + |xs| > old(a.Cap()) ==>
      fresh(a.arr) && a.off == 0 && a.arr.Length == a.len && old(a.arr)[..] == old(a.arr[..])
  {
    if a.len + |xs| <= a.Cap() {
      var base := a.off + a.len;
      forall k | 0 <= k < |xs| {
        a.arr[base + k] := xs[k];
      }
      a.len := a.len + |xs|;
      assert a.Contents() == old(a.Contents()) + xs by {
        assert forall k :: 0 <= k < a.len ==>
          a.Contents()[k] == (old(a.Contents()) + xs)[k];
      }
    } else {
      var s := a.Contents() + xs;
      a.arr := new T[|s|](k requires 0 <= k < |s| => s[k]);
      a.off := 0;
      a.len := |s|;
      assert a.arr[..] == s;
    }
  }
}
