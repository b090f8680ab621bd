/** The operations of package slicetricks. A `*[]T` argument is a
    GoSlices.Slice that the operation updates; `zero` is Go's zero value of
    T, which Dafny cannot name for a type parameter. */
module SliceTricks {
  import opened GoSlices
  import opened SeqSpec
  import opened Ordering

  /** Copy: a fresh slice, exactly as long as a, with a's elements. */
  method Copy<T>(a: Slice<T>, zero: T) returns (b: Slice<T>)
    requires a.Valid()
    ensures b.Valid() && fresh(b) && fresh(b.arr)
    ensures b.Contents() == a.Contents() && b.Cap() == a.len
  {
    b := new Slice.Make(a.len, a.len, zero);
    var _ := CopyElems(b.arr, 0, b.len, a.arr, a.off, a.len);
  }

  /** The loop that overwrites the backing array's slots from..to-1 with the
      zero value, so that they no longer hold on to removed elements. */
  method ClearSlots<T>(arr: array<T>, from: nat, to: nat, zero: T)
    requires from <= to <= arr.Length
    modifies arr
    ensures forall p :: from <= p < to ==> arr[p] == zero
    ensures forall p :: 0 <= p < arr.Length && !(from <= p < to) ==> arr[p] == old(arr[p])
  {
    var k := from;
    while k < to
      invariant from <= k <= to
      invariant forall p :: from <= p < k ==> arr[p] == zero
      invariant forall p :: 0 <= p < arr.Length && !(from <= p < k) ==> arr[p] == old(arr[p])
    {
      arr[k] := zero;
      k := k + 1;
    }
  }

  /** The copy of Cut, on snapshots a0 and a1 of the array before and after
      it: once a[end:] is moved down to a[start:], the first len - (end -
      start) slots of the window hold a[:start] ++ a[end:]. */
  lemma {:induction false} CutCopy<T>(a0: seq<T>, a1: seq<T>, off: nat, len: nat, start: nat, end: nat)
    requires start <= end <= len && off + len <= |a0| && |a1| == |a0|
    requires a1[off + start..off + start + (len - end)] == a0[off + end..off + len]
    requires forall p :: 0 <= p < |a1| && !(off + start <= p < off + start + (len - end)) ==> a1[p] == a0[p]
    ensures a1[off..off + len - (end - start)] == Removed(a0[off..off + len], start, end)
  {
    var s := a0[off..off + len];
    var r := Removed(s, start, end);
    RemovedAt(s, start, end);
    forall q | 0 <= q < len - (end - start)
      ensures a1[off + q] == r[q]
    {
      if start <= q {
        assert a1[off + start..off + start + (len - end)][q - start] == a0[off + end..off + len][q - start];
      }
    }
    assert a1[off..off + len - (end - start)] == r;
  }

  /** The work of Cut on the len slots from off in arr: copy(a[start:],
      a[end:]) moves the tail down, then the end - start slots it vacates
      are cleared. */
  method CutWindow<T>(arr: array<T>, off: nat, len: nat, start: nat, end: nat, zero: T)
    requires off + len <= arr.Length && start <= end <= len
    modifies arr
    ensures arr[off..off + len - (end - start)] == Removed(old(arr[off..off + len]), start, end)
    ensures forall p :: off + len - (end - start) <= p < off + len ==> arr[p] == zero
    ensures forall p :: 0 <= p < arr.Length && !(off <= p < off + len) ==> arr[p] == old(arr[p])
  {
    ghost var a0 := arr[..];
    var n := CopyElems(arr, off + start, len - start, arr, off + end, len - end);
    assert arr[..][off + start..off + start + n] == a0[off + end..off + len];
    CutCopy(a0, arr[..], off, len, start, end);
    var newLen := len - end + start;
    ghost var moved := arr[off..off + newLen];
    ClearSlots(arr, off + newLen, off + len, zero);
    assert arr[off..off + newLen] == moved;
    assert a0[off..off + len] == old(arr[off..off + len]);
  }

  /** Cut removes a[start:end], moving the rest down and clearing the slots
      it vacates at the end. */
  method Cut<T>(a: Slice<T>, start: nat, end: nat, zero: T)
    requires a.Valid() && start <= end <= a.len
    modifies a, a.arr
    ensures a.Valid() && a.arr == old(a.arr) && a.off == old(a.off)
    ensures a.Contents() == Removed(old(a.Contents()), start, end)
    ensures forall p :: a.off + a.len <= p < a.off + old(a.len) ==> a.arr[p] == zero
    ensures forall p :: 0 <= p < a.arr.Length && !(a.off <= p < a.off + old(a.len)) ==> a.arr[p] == old(a.arr[p])
  {
    CutWindow(a.arr, a.off, a.len, start, end, zero);
    a.len := a.len - (end - start);
  }

  /** The work of Delete on the len slots from off in arr: copy(a[i:],
      a[i+1:]) and then the last slot cleared. */
  method DeleteWindow<T>(arr: array<T>, off: nat, len: nat, i: nat, zero: T)
    requires off + len <= arr.Length && i < len
    modifies arr
    ensures arr[off..off + len - 1] == Removed(old(arr[off..off + len]), i, i + 1)
    ensures arr[off + len - 1] == zero
    ensures forall p :: 0 <= p < arr.Length && !(off <= p < off + len) ==> arr[p] == old(arr[p])
  {
    ghost var s := arr[off..off + len];
    var _ := CopyElems(arr, off + i, len - i, arr, off + i + 1, len - i - 1);
    ghost var moved := arr[off..off + len - 1];
    assert moved[..i] == s[..i];
    assert moved[i..] == s[i + 1..];
    assert moved == moved[..i] + moved[i..];
    arr[off + len - 1] := zero;
    assert arr[off..off + len - 1] == moved;
  }

  /** Delete removes a[i], moving the rest down and clearing the last slot. */
  method Delete<T>(a: Slice<T>, i: nat, zero: T)
    requires a.Valid() && i < a.len
    modifies a, a.arr
    ensures a.Valid() && a.arr == old(a.arr) && a.off == old(a.off)
    ensures a.Contents() == Removed(old(a.Contents()), i, i + 1)
    ensures a.arr[a.off + a.len] == zero
    ensures forall p :: 0 <= p < a.arr.Length && !(a.off <= p < a.off + old(a.len)) ==> a.arr[p] == old(a.arr[p])
  {
    DeleteWindow(a.arr, a.off, a.len, i, zero);
    a.len := a.len - 1;
  }

  /** Delete(a, i) and Cut(b, i, i+1), run on two slices over distinct
      arrays that hold the same elements, leave the same arrays and lengths:
      deleting index i is cutting the one-element range [i, i+1). */
  method DeleteIsCutOfOne<T>(a: Slice<T>, b: Slice<T>, i: nat, zero: T)
    requires a.Valid() && b.Valid() && a != b && a.arr != b.arr
    requires a.arr[..] == b.arr[..] && a.off == b.off && a.len == b.len && i < a.len
    modifies a, a.arr, b, b.arr
    ensures a.len == b.len && a.off == b.off && a.arr[..] == b.arr[..]
  {
    Delete(a, i, zero);
    Cut(b, i, i + 1, zero);
    forall p | 0 <= p < a.arr.Length
      ensures a.arr[p] == b.arr[p]
    {
      if a.off <= p < a.off + a.len {
        assert a.arr[p] == a.Contents()[p - a.off];
      }
    }
  }

  /** The work of DeleteUnordered on the len slots from off in arr: the
      last element is moved into slot i and its slot cleared. */
  method SwapRemoveWindow<T>(arr: array<T>, off: nat, len: nat, i: nat, zero: T)
    requires off + len <= arr.Length && i < len
    modifies arr
    ensures arr[off..off + len - 1] == SwapRemove(old(arr[off..off + len]), i)
    ensures arr[off + len - 1] == zero
    ensures forall p :: 0 <= p < arr.Length && !(off <= p < off + len) ==> arr[p] == old(arr[p])
  {
    ghost var s := arr[off..off + len];
    arr[off + i] := arr[off + len - 1];
    arr[off + len - 1] := zero;
    SwapRemoveAt(s, i);
    assert forall k :: 0 <= k < len - 1 ==> arr[off..off + len - 1][k] == SwapRemove(s, i)[k];
  }

  /** DeleteUnordered moves the last element into slot i, clears the last
      slot and shortens the slice by one. */
  method DeleteUnordered<T>(a: Slice<T>, i: nat, zero: T)
    requires a.Valid() && i < a.len
    modifies a, a.arr
    ensures a.Valid() && a.arr == old(a.arr) && a.off == old(a.off)
    ensures a.Contents() == SwapRemove(old(a.Contents()), i)
    ensures a.arr[a.off + a.len] == zero
    ensures forall p :: 0 <= p < a.arr.Length && !(a.off <= p < a.off + old(a.len)) ==> a.arr[p] == old(a.arr[p])
  {
    SwapRemoveWindow(a.arr, a.off, a.len, i, zero);
    a.len := a.len - 1;
  }

  /** Expand inserts n zero values at index i (before the element that was
      a[i]; the Go doc comment's "after the i'th element" is off by one). */
  method Expand<T>(a: Slice<T>, i: nat, n: nat, zero: T)
    requires a.Valid() && i <= a.len
    modifies a, a.arr
    ensures a.Valid()
    ensures a.Contents() == Inserted(old(a.Contents()), i, Zeros(n, zero))
    ensures old(a.len) + n <= old(a.Cap()) ==>
      a.arr == old(a.arr) && a.off == old(a.off) &&
      forall p :: 0 <= p < a.arr.Length && !(a.off + i <= p < a.off + a.len) ==> a.arr[p] == old(a.arr[p])
    ensures old(a.len) + n > old(a.Cap()) ==>
      fresh(a.arr) && a.off == 0 && old(a.arr)[..] == old(a.arr[..])
  {
    var s := a.Contents();
    var tail := Zeros(n, zero) + s[i..];
    a.len := i;
    assert a.Contents() == s[..i];
    Append(a, tail);
    assert a.Contents() == s[..i] + tail;
  }

  /** Extend appends n zero values. */
  method Extend<T>(a: Slice<T>, n: nat, zero: T)
    requires a.Valid()
    modifies a, a.arr
    ensures a.Valid()
    ensures a.Contents() == old(a.Contents()) + Zeros(n, zero)
    ensures old(a.len) + n <= old(a.Cap()) ==>
      a.arr == old(a.arr) && a.off == old(a.off) &&
      forall p :: 0 <= p < a.arr.Length && !(a.off + old(a.len) <= p < a.off + a.len) ==> a.arr[p] == old(a.arr[p])
    ensures old(a.len) + n > old(a.Cap()) ==>
      fresh(a.arr) && a.off == 0 && old(a.arr)[..] == old(a.arr[..])
  {
    Append(a, Zeros(n, zero));
  }

  /** The compaction loop of Filter on the len slots from off in arr: each
      element that keep accepts is written to slot n, and n is returned.
      Slots outside the first n are left as they were. */
  method FilterWindow<T>(arr: array<T>, off: nat, len: nat, keep: T -> bool) returns (n: nat)
    requires off + len <= arr.Length
    modifies arr
    ensures n <= len
    ensures arr[off..off + n] == Filtered(old(arr[off..off + len]), keep)
    ensures forall p :: 0 <= p < arr.Length && !(off <= p < off + n) ==> arr[p] == old(arr[p])
  {
    ghost var s := arr[off..off + len];
    n := 0;
    var idx := 0;
    while idx < len
      invariant n <= idx <= len
      invariant arr[off..off + n] == Filtered(s[..idx], keep)
      invariant forall p :: 0 <= p < arr.Length && !(off <= p < off + n) ==> arr[p] == old(arr[p])
    {
      var x := arr[off + idx];
      assert x == s[idx];
      FilteredPrefixStep(s, idx, keep);
      if keep(x) {
        ghost var kept := arr[off..off + n];
        arr[off + n] := x;
        assert arr[off..off + n + 1] == kept + [x];
        n := n + 1;
      }
      idx := idx + 1;
    }
    assert s[..len] == s;
  }

  /** Filter keeps, in order, the elements for which keep holds, compacting
      them to the front. The slots after the new length are not cleared. */
  method Filter<T>(a: Slice<T>, keep: T -> bool)
    requires a.Valid()
    modifies a, a.arr
    ensures a.Valid() && a.arr == old(a.arr) && a.off == old(a.off)
    ensures a.Contents() == Filtered(old(a.Contents()), keep)
    ensures forall p :: 0 <= p < a.arr.Length && !(a.off <= p < a.off + a.len) ==> a.arr[p] == old(a.arr[p])
  {
    a.len := FilterWindow(a.arr, a.off, a.len, keep);
  }

  /** The shift at the heart of Insert: copy(a[i+1:], a[i:]) followed by
      a[i] = elem, on the len slots from off in arr. The last slot's old
      value is overwritten. */
  method ShiftIn<T>(arr: array<T>, off: nat, len: nat, i: nat, elem: T)
    requires off + len <= arr.Length && i < len
    modifies arr
    ensures arr[off..off + len] == Inserted(old(arr[off..off + len - 1]), i, [elem])
    ensures forall p :: 0 <= p < arr.Length && !(off + i <= p < off + len) ==> arr[p] == old(arr[p])
  {
    var _ := CopyElems(arr, off + i + 1, len - i - 1, arr, off + i, len - i);
    arr[off + i] := elem;
    assert arr[off..off + len] == arr[off..off + i] + [elem] + arr[off + i + 1..off + len];
  }

  /** Insert puts elem at index i, growing the slice by one through append. */
  method Insert<T>(a: Slice<T>, i: nat, elem: T, zero: T)
    requires a.Valid() && i <= a.len
    modifies a, a.arr
    ensures a.Valid()
    ensures a.Contents() == Inserted(old(a.Contents()), i, [elem])
    ensures old(a.len) < old(a.Cap()) ==>
      a.arr == old(a.arr) && a.off == old(a.off) &&
      forall p :: 0 <= p < a.arr.Length && !(a.off + i <= p < a.off + a.len) ==> a.arr[p] == old(a.arr[p])
    ensures old(a.len) >= old(a.Cap()) ==>
      fresh(a.arr) && a.off == 0 && old(a.arr)[..] == old(a.arr[..])
  {
    ghost var s := a.Contents();
    Append(a, [zero]);
    assert a.arr[a.off..a.off + a.len - 1] == s by {
      assert a.Contents() == s + [zero];
    }
    ShiftIn(a.arr, a.off, a.len, i, elem);
  }

  /** The slice InsertMany's in-place branch leaves, as written. With
      `backing` the array from a[0] up to cap(a), line 83 moves only
      min(len - i, k + 1) of the elements from a[i] on (k = |elems|), and
      the last slots of the new length keep what the array held there. */
  ghost function ShiftedInsertAsWritten<T>(backing: seq<T>, len: nat, i: nat, elems: seq<T>): (r: seq<T>)
    requires i <= len && len + |elems| <= |backing| && i + |elems| + 1 <= |backing|
    ensures |r| == len + |elems|
  {
    var k := |elems|;
    var m := if len - i <= k + 1 then len - i else k + 1;
    backing[..i] + elems + backing[i..i + m] + backing[i + k + m..len + k]
  }

  /** Position by position: elems at i..i+k-1, then the m moved elements,
      then whatever the backing array held from i + k + m on. */
  lemma ShiftedInsertAt<T>(backing: seq<T>, len: nat, i: nat, elems: seq<T>, q: nat)
    requires i <= len && len + |elems| <= |backing| && i + |elems| + 1 <= |backing|
    requires q < len + |elems|
    ensures var k := |elems|;
      var m := if len - i <= k + 1 then len - i else k + 1;
      ShiftedInsertAsWritten(backing, len, i, elems)[q] ==
        if q < i then backing[q]
        else if q < i + k then elems[q - i]
        else if q < i + k + m then backing[q - k]
        else backing[q]
  {
  }

  /** When at most k + 1 elements follow index i, the as-written in-place
      branch does insert elems at i. */
  lemma ShiftedInsertAgrees<T>(backing: seq<T>, len: nat, i: nat, elems: seq<T>)
    requires i <= len && len + |elems| <= |backing| && i + |elems| + 1 <= |backing|
    requires len - i <= |elems| + 1
    ensures ShiftedInsertAsWritten(backing, len, i, elems) == backing[..i] + elems + backing[i..len]
  {
    assert backing[i + |elems| + len - i..len + |elems|] == [];
  }

  /** Six elements with spare capacity and one element inserted at 0: the
      as-written branch loses the element 2 and exposes a stale slot. */
  lemma ShiftedInsertLosesTail()
    ensures ShiftedInsertAsWritten([0, 1, 2, 3, 4, 5, 0], 6, 0, [9]) == [9, 0, 1, 3, 4, 5, 0]
    ensures ShiftedInsertAsWritten([0, 1, 2, 3, 4, 5, 0], 6, 0, [9]) != [9] + [0, 1, 2, 3, 4, 5]
  {
    var b := [0, 1, 2, 3, 4, 5, 0];
    assert b[..0] == [] && b[0..2] == [0, 1] && b[3..7] == [3, 4, 5, 0];
    assert ([9, 0, 1, 3, 4, 5, 0])[3] != ([9] + [0, 1, 2, 3, 4, 5])[3];
  }

  /** The two copies of InsertMany's in-place branch, on snapshots of the
      backing array: a1 is a0 after copy(a[i+k:], a[i:i+k+1]) moved m
      elements, a2 is a1 after copy(a[i:], elems). */
  lemma {:induction false} TwoCopies<T>(a0: seq<T>, a1: seq<T>, a2: seq<T>, off: nat, len: nat, i: nat, elems: seq<T>, m: nat)
    requires i <= len && off + len + |elems| <= |a0| && off + i + |elems| + 1 <= |a0|
    requires |a1| == |a0| && |a2| == |a0|
    requires m == if len - i <= |elems| + 1 then len - i else |elems| + 1
    requires a1[off + i + |elems|..off + i + |elems| + m] == a0[off + i..off + i + m]
    requires forall p :: 0 <= p < |a1| && !(off + i + |elems| <= p < off + i + |elems| + m) ==> a1[p] == a0[p]
    requires a2[off + i..off + i + |elems|] == elems
    requires forall p :: 0 <= p < |a2| && !(off + i <= p < off + i + |elems|) ==> a2[p] == a1[p]
    ensures a2[off..off + len + |elems|] == ShiftedInsertAsWritten(a0[off..], len, i, elems)
    ensures forall p :: 0 <= p < |a2| && !(off + i <= p < off + len + |elems|) ==> a2[p] == a0[p]
  {
    var k := |elems|;
    var n := len + k;
    var r := ShiftedInsertAsWritten(a0[off..], len, i, elems);
    forall q | 0 <= q < n
      ensures a2[off + q] == r[q]
    {
      ShiftedInsertAt(a0[off..], len, i, elems, q);
      if i <= q < i + k {
        assert a2[off + i..off + i + k][q - i] == elems[q - i];
      } else if i + k <= q < i + k + m {
        assert a1[off + i + k..off + i + k + m][q - i - k] == a0[off + i..off + i + m][q - i - k];
      }
    }
    assert a2[off..off + n] == r;
  }

  /** InsertMany's in-place branch on the len + k slots from off in arr
      (k = |elems|), as written: copy(a[i+k:], a[i:i+k+1]) and then
      copy(a[i:], elems). The first copy reads up to slot i + k, which must
      exist. */
  method ShiftManyAsWritten<T>(arr: array<T>, off: nat, len: nat, i: nat, elems: seq<T>)
    requires i <= len && off + len + |elems| <= arr.Length && off + i + |elems| + 1 <= arr.Length
    modifies arr
    ensures arr[off..off + len + |elems|] == ShiftedInsertAsWritten(old(arr[off..]), len, i, elems)
    ensures forall p :: 0 <= p < arr.Length && !(off + i <= p < off + len + |elems|) ==> arr[p] == old(arr[p])
  {
    ghost var a0 := arr[..];
    var k := |elems|;
    var n := len + k;
    var m := CopyElems(arr, off + i + k, n - i - k, arr, off + i, k + 1);
    ghost var a1 := arr[..];
    var copied := CopyFrom(arr, off + i, n - i, elems);
    TwoCopies(a0, a1, arr[..], off, len, i, elems, m);
    assert a0[off..] == old(arr[off..]);
  }

  /** The two copies of the in-place branch of InsertMany, when the first
      moves all of a[i:] up by k = |elems|, on snapshots a0, a1 and a2 of
      the array before, between and after them. */
  lemma {:induction false} ShiftedCopies<T>(a0: seq<T>, a1: seq<T>, a2: seq<T>, off: nat, len: nat, i: nat, elems: seq<T>)
    requires i <= len && off + len + |elems| <= |a0| && |a1| == |a0| && |a2| == |a0|
    requires a1[off + i + |elems|..off + len + |elems|] == a0[off + i..off + len]
    requires forall p :: 0 <= p < |a1| && !(off + i + |elems| <= p < off + len + |elems|) ==> a1[p] == a0[p]
    requires a2[off + i..off + i + |elems|] == elems
    requires forall p :: 0 <= p < |a2| && !(off + i <= p < off + i + |elems|) ==> a2[p] == a1[p]
    ensures a2[off..off + len + |elems|] == Inserted(a0[off..off + len], i, elems)
    ensures forall p :: 0 <= p < |a2| && !(off + i <= p < off + len + |elems|) ==> a2[p] == a0[p]
  {
    var k := |elems|;
    var n := len + k;
    var s := a0[off..off + len];
    var r := Inserted(s, i, elems);
    InsertedAt(s, i, elems);
    forall q | 0 <= q < n
      ensures a2[off + q] == r[q]
    {
      if i <= q < i + k {
        assert a2[off + i..off + i + k][q - i] == elems[q - i];
      } else if i + k <= q {
        assert a1[off + i + k..off + n][q - i - k] == a0[off + i..off + len][q - i - k];
      }
    }
    assert a2[off..off + n] == r;
  }

  /** InsertMany's in-place branch with the first copy reading all of a[i:],
      as evidently intended. */
  method ShiftMany<T>(arr: array<T>, off: nat, len: nat, i: nat, elems: seq<T>)
    requires i <= len && off + len + |elems| <= arr.Length
    modifies arr
    ensures arr[off..off + len + |elems|] == Inserted(old(arr[off..off + len]), i, elems)
    ensures forall p :: 0 <= p < arr.Length && !(off + i <= p < off + len + |elems|) ==> arr[p] == old(arr[p])
  {
    ghost var a0 := arr[..];
    var k := |elems|;
    var n := len + k;
    var m := CopyElems(arr, off + i + k, n - i - k, arr, off + i, n - i);
    ghost var a1 := arr[..];
    var copied := CopyFrom(arr, off + i, n - i, elems);
    assert elems[..copied] == elems;
    ShiftedCopies(a0, a1, arr[..], off, len, i, elems);
    assert a0[off..off + len] == old(arr[off..off + len]);
  }

  /** The three copies of InsertMany's reallocating branch, on snapshots
      d1, d2 and d3 of the new array after each of them. */
  lemma {:induction false} ThreeCopies<T>(s: seq<T>, d1: seq<T>, d2: seq<T>, d3: seq<T>, i: nat, elems: seq<T>)
    requires i <= |s| && |d1| == |s| + |elems| && |d2| == |d1| && |d3| == |d1|
    requires d1[..i] == s[..i]
    requires d2[i..i + |elems|] == elems
    requires forall p :: 0 <= p < |d2| && !(i <= p < i + |elems|) ==> d2[p] == d1[p]
    requires d3[i + |elems|..] == s[i..]
    requires forall p :: 0 <= p < |d3| && !(i + |elems| <= p < |d3|) ==> d3[p] == d2[p]
    ensures d3 == Inserted(s, i, elems)
  {
    var k := |elems|;
    var r := Inserted(s, i, elems);
    InsertedAt(s, i, elems);
    forall q | 0 <= q < |d3|
      ensures d3[q] == r[q]
    {
      if q < i {
        assert d1[..i][q] == s[..i][q];
      } else if q < i + k {
        assert d2[i..i + k][q - i] == elems[q - i];
      } else {
        assert d3[i + k..][q - i - k] == s[i..][q - i - k];
      }
    }
  }

  /** InsertMany's reallocating branch: the three copies into a new array
      dst of exactly len + k elements. */
  method FillInserted<T>(dst: array<T>, src: array<T>, off: nat, len: nat, i: nat, elems: seq<T>)
    requires dst != src && i <= len && off + len <= src.Length && dst.Length == len + |elems|
    modifies dst
    ensures dst[..] == Inserted(src[off..off + len], i, elems)
  {
    var k := |elems|;
    var n := len + k;
    ghost var s := src[off..off + len];
    var copied := CopyElems(dst, 0, n, src, off, i);
    assert dst[..i] == s[..i] by {
      assert dst[0..i] == src[off..off + i];
    }
    ghost var d1 := dst[..];
    copied := CopyFrom(dst, i, n - i, elems);
    assert dst[i..i + k] == elems by {
      assert elems[..k] == elems;
    }
    ghost var d2 := dst[..];
    copied := CopyElems(dst, i + k, n - i - k, src, off + i, len - i);
    assert dst[i + k..] == s[i..] by {
      assert dst[i + k..] == dst[i + k..n];
    }
    ThreeCopies(s, d1, d2, dst[..], i, elems);
  }

  /** InsertMany as written. With enough capacity it grows the slice in
      place (ShiftManyAsWritten), which panics unless i + k + 1 <= cap(a);
      otherwise it builds a new array of exactly len + k elements. */
  method InsertMany<T>(a: Slice<T>, i: nat, elems: seq<T>, zero: T)
    requires a.Valid() && i <= a.len
    requires a.len + |elems| <= a.Cap() ==> i + |elems| + 1 <= a.Cap()
    modifies a, a.arr
    ensures a.Valid()
    ensures old(a.len) + |elems| <= old(a.Cap()) ==>
      a.arr == old(a.arr) && a.off == old(a.off) &&
      a.Contents() == ShiftedInsertAsWritten(old(a.arr[a.off..]), old(a.len), i, elems) &&
      forall p :: 0 <= p < a.arr.Length && !(a.off + i <= p < a.off + a.len) ==> a.arr[p] == old(a.arr[p])
    ensures old(a.len) + |elems| > old(a.Cap()) ==>
      fresh(a.arr) && a.off == 0 && a.arr.Length == a.len &&
      a.Contents() == Inserted(old(a.Contents()), i, elems) && old(a.arr)[..] == old(a.arr[..])
  {
    var n := a.len + |elems|;
    if n <= a.Cap() {
      var len := a.len;
      a.len := n;
      ShiftManyAsWritten(a.arr, a.off, len, i, elems);
    } else {
      var s2 := new Slice.Make(n, n, zero);
      FillInserted(s2.arr, a.arr, a.off, a.len, i, elems);
      a.arr, a.off, a.len := s2.arr, s2.off, s2.len;
    }
  }

  /** InsertMany with the in-place shift copying from a[i:], as evidently
      intended: both branches insert elems at i. */
  method InsertManyFixed<T>(a: Slice<T>, i: nat, elems: seq<T>, zero: T)
    requires a.Valid() && i <= a.len
    modifies a, a.arr
    ensures a.Valid()
    ensures a.Contents() == Inserted(old(a.Contents()), i, elems)
    ensures old(a.len) + |elems| <= old(a.Cap()) ==>
      a.arr == old(a.arr) && a.off == old(a.off) &&
      forall p :: 0 <= p < a.arr.Length && !(a.off + i <= p < a.off + a.len) ==> a.arr[p] == old(a.arr[p])
    ensures old(a.len) + |elems| > old(a.Cap()) ==>
      fresh(a.arr) && a.off == 0 && a.arr.Length == a.len && old(a.arr)[..] == old(a.arr[..])
  {
    var n := a.len + |elems|;
    if n <= a.Cap() {
      var len := a.len;
      a.len := n;
      ShiftMany(a.arr, a.off, len, i, elems);
    } else {
      var s2 := new Slice.Make(n, n, zero);
      FillInserted(s2.arr, a.arr, a.off, a.len, i, elems);
      a.arr, a.off, a.len := s2.arr, s2.off, s2.len;
    }
  }

  /** Push appends elem. */
  method Push<T>(a: Slice<T>, elem: T)
    requires a.Valid()
    modifies a, a.arr
    ensures a.Valid()
    ensures a.Contents() == old(a.Contents()) + [elem]
    ensures old(a.len) < old(a.Cap()) ==>
      a.arr == old(a.arr) && a.off == old(a.off) &&
      forall p :: 0 <= p < a.arr.Length && p != a.off + old(a.len) ==> a.arr[p] == old(a.arr[p])
    ensures old(a.len) >= old(a.Cap()) ==>
      fresh(a.arr) && a.off == 0 && old(a.arr)[..] == old(a.arr[..])
  {
    Append(a, [elem]);
  }

  /** PushFront prepends elem; append([]T{elem}, a...) always yields a new
      backing array. */
  method PushFront<T>(a: Slice<T>, elem: T)
    requires a.Valid()
    modifies a
    ensures a.Valid() && fresh(a.arr) && a.off == 0
    ensures a.Contents() == [elem] + old(a.Contents())
  {
    var front := new Slice.Make(1, 1, elem);
    Append(front, a.Contents());
    a.arr, a.off, a.len := front.arr, front.off, front.len;
  }

  /** Pop removes and returns the last element. */
  method Pop<T>(a: Slice<T>) returns (x: T)
    requires a.Valid() && a.len > 0
    modifies a
    ensures a.Valid() && a.arr == old(a.arr) && a.off == old(a.off)
    ensures x == old(a.Contents()[a.len - 1])
    ensures a.Contents() == old(a.Contents()[..a.len - 1])
  {
    x := a.arr[a.off + a.len - 1];
    a.len := a.len - 1;
  }

  /** PopFront removes and returns the first element by moving the start of
      the slice one slot up the same array. */
  method PopFront<T>(a: Slice<T>) returns (x: T)
    requires a.Valid() && a.len > 0
    modifies a
    ensures a.Valid() && a.arr == old(a.arr) && a.off == old(a.off) + 1
    ensures x == old(a.Contents()[0])
    ensures a.Contents() == old(a.Contents()[1..])
  {
    x := a.arr[a.off];
    a.off, a.len := a.off + 1, a.len - 1;
  }

  /** Pop undoes Push. */
  method PushThenPop<T>(a: Slice<T>, elem: T) returns (x: T)
    requires a.Valid()
    modifies a, a.arr
    ensures a.Valid() && x == elem && a.Contents() == old(a.Contents())
  {
    Push(a, elem);
    x := Pop(a);
  }

  /** PopFront undoes PushFront. */
  method PushFrontThenPopFront<T>(a: Slice<T>, elem: T) returns (x: T)
    requires a.Valid()
    modifies a
    ensures a.Valid() && x == elem && a.Contents() == old(a.Contents())
  {
    PushFront(a, elem);
    x := PopFront(a);
  }

  /** Batches splits a into consecutive batches of batchSize elements, the
      last holding what is left. */
  method Batches<T>(a: seq<T>, batchSize: nat) returns (batches: seq<seq<T>>)
    requires |a| > 0 ==> batchSize >= 1
    ensures |a| == 0 ==> batches == []
    ensures |a| > 0 ==> batches == Chunks(a, batchSize)
    ensures Flatten(batches) == a
    ensures |a| > 0 ==> |batches| == (|a| + batchSize - 1) / batchSize
    ensures forall k :: 0 <= k < |batches| - 1 ==> |batches[k]| == batchSize
    ensures |batches| > 0 ==> 1 <= |batches[|batches| - 1]| <= batchSize
  {
    if |a| == 0 {
      return [];
    }
    batches := [];
    var rest := a;
    while batchSize < |rest|
      invariant |rest| > 0
      invariant batches + Chunks(rest, batchSize) == Chunks(a, batchSize)
    {
      ghost var later := Chunks(rest[batchSize..], batchSize);
      assert Chunks(rest, batchSize) == [rest[..batchSize]] + later;
      assert batches + Chunks(rest, batchSize) == (batches + [rest[..batchSize]]) + later;
      batches, rest := batches + [rest[..batchSize]], rest[batchSize..];
    }
    assert Chunks(rest, batchSize) == [rest];
    batches := batches + [rest];
    ChunksFlatten(a, batchSize);
    ChunksShape(a, batchSize);
  }

  /** The loop of FilterZeroAllocNoGC: every element of the len slots from
      off in arr that keep accepts is appended to b, which starts empty at
      the same place in the same array. The appends never reallocate, as b
      stays no longer than the part of the window read so far. */
  method AppendKept<T>(b: Slice<T>, arr: array<T>, off: nat, len: nat, keep: T -> bool)
    requires b.Valid() && b.arr == arr && b.off == off && b.len == 0 && off + len <= arr.Length
    modifies b, arr
    ensures b.Valid() && b.arr == arr && b.off == off && b.len <= len
    ensures b.Contents() == Filtered(old(arr[off..off + len]), keep)
    ensures forall p :: 0 <= p < arr.Length && !(off <= p < off + b.len) ==> arr[p] == old(arr[p])
  {
    ghost var s := arr[off..off + len];
    var idx := 0;
    while idx < len
      invariant b.Valid() && b.arr == arr && b.off == off && b.len <= idx <= len
      invariant b.Contents() == Filtered(s[..idx], keep)
      invariant forall p :: 0 <= p < arr.Length && !(off <= p < off + b.len) ==> arr[p] == old(arr[p])
    {
      var x := arr[off + idx];
      assert x == s[idx];
      assert s[..idx + 1][..idx] == s[..idx];
      if keep(x) {
        Append(b, [x]);
      }
      idx := idx + 1;
    }
    assert s[..len] == s;
  }

  /** FilterZeroAllocNoGC: Filter written with b := a[:0] and append. The
      slots after the new length are not cleared. */
  method FilterZeroAllocNoGC<T>(a: Slice<T>, keep: T -> bool)
    requires a.Valid()
    modifies a, a.arr
    ensures a.Valid() && a.arr == old(a.arr) && a.off == old(a.off)
    ensures a.Contents() == Filtered(old(a.Contents()), keep)
    ensures forall p :: 0 <= p < a.arr.Length && !(a.off <= p < a.off + a.len) ==> a.arr[p] == old(a.arr[p])
  {
    var arr, off, len := a.arr, a.off, a.len;
    ghost var s := arr[off..off + len];
    var b := new Slice.Sub(arr, off, 0);
    AppendKept(b, arr, off, len, keep);
    assert b.Contents() == Filtered(s, keep);
    a.len := b.len;
  }

  /** FilterZeroAlloc: the compaction loop of FilterZeroAllocNoGC (the Go
      source repeats it verbatim) followed by clearing the slots between the
      new and the old length. */
  method FilterZeroAlloc<T>(a: Slice<T>, keep: T -> bool, zero: T)
    requires a.Valid()
    modifies a, a.arr
    ensures a.Valid() && a.arr == old(a.arr) && a.off == old(a.off)
    ensures a.Contents() == Filtered(old(a.Contents()), keep)
    ensures forall p :: a.off + a.len <= p < a.off + old(a.len) ==> a.arr[p] == zero
    ensures forall p :: 0 <= p < a.arr.Length && !(a.off <= p < a.off + old(a.len)) ==> a.arr[p] == old(a.arr[p])
  {
    var len := a.len;
    FilterZeroAllocNoGC(a, keep);
    ClearSlots(a.arr, a.off + a.len, a.off + len, zero);
  }

  /** The len slots from off in arr hold s reversed when each slot holds
      the element of s from the mirrored position. */
  lemma {:induction false} MirroredWindow<T>(arr: array<T>, off: nat, len: nat, s: seq<T>)
    requires off + len <= arr.Length && |s| == len
    requires forall p :: off <= p < off + len ==> arr[p] == s[off + len - 1 - p]
    ensures arr[off..off + len] == Reversed(s)
  {
    ReversedAt(s);
    forall k | 0 <= k < len
      ensures arr[off..off + len][k] == Reversed(s)[k]
    {
      assert arr[off..off + len][k] == arr[off + k];
    }
  }

  /** Reverse swaps a[i] and a[len-1-i] for i from len/2 - 1 down to 0:
      the middle part, between i and len-1-i, is already reversed. */
  method ReverseWindow<T>(arr: array<T>, off: nat, len: nat)
    requires off + len <= arr.Length
    modifies arr
    ensures arr[off..off + len] == Reversed(old(arr[off..off + len]))
    ensures forall p :: 0 <= p < arr.Length && !(off <= p < off + len) ==> arr[p] == old(arr[p])
  {
    ghost var s := arr[off..off + len];
    var i: int := len / 2 - 1;
    while i >= 0
      invariant -1 <= i <= len / 2 - 1
      invariant forall p :: off + i < p < off + len - 1 - i ==> arr[p] == s[off + len - 1 - p]
      invariant forall p :: off <= p < off + len && !(off + i < p < off + len - 1 - i) ==> arr[p] == s[p - off]
      invariant forall p :: 0 <= p < arr.Length && !(off <= p < off + len) ==> arr[p] == old(arr[p])
    {
      var opp := len - 1 - i;
      assert arr[off + i] == s[i] && arr[off + opp] == s[opp];
      arr[off + i], arr[off + opp] := arr[off + opp], arr[off + i];
      i := i - 1;
    }
    MirroredWindow(arr, off, len, s);
  }

  /** Reverse: the slice header is passed by value, so only the elements in
      the backing array change. */
  method Reverse<T>(a: Slice<T>)
    requires a.Valid()
    modifies a.arr
    ensures a.Contents() == Reversed(old(a.Contents()))
    ensures forall p :: 0 <= p < a.arr.Length && !(a.off <= p < a.off + a.len) ==> a.arr[p] == old(a.arr[p])
  {
    ReverseWindow(a.arr, a.off, a.len);
  }

  /** SlidingWindow lists every run of `size` consecutive elements of a, by
      increasing start; a slice no longer than size is its only window. */
  method SlidingWindow<T>(a: seq<T>, size: nat) returns (r: seq<seq<T>>)
    ensures |a| == 0 ==> r == []
    ensures 0 < |a| <= size ==> r == [a]
    ensures |a| > size ==> |r| == |a| - size + 1
    ensures |a| > size ==> forall k :: 0 <= k < |r| ==> r[k] == a[k..k + size]
  {
    if |a| == 0 {
      return [];
    }
    if |a| <= size {
      return [a];
    }
    r := [];
    var i, j := 0, size;
    while j <= |a|
      invariant j == i + size && i <= |a| - size + 1
      invariant |r| == i
      invariant forall k :: 0 <= k < i ==> r[k] == a[k..k + size]
    {
      r := r + [a[i..j]];
      i, j := i + 1, j + 1;
    }
  }

  /** One pass of the compaction loop: a[i] is copied to a[j+1] unless it
      equals a[j], the last element kept. */
  method DedupStep<T(==)>(arr: array<T>, off: nat, len: nat, j: nat, i: nat, ghost s: seq<T>, ghost d: seq<T>)
    returns (j': nat, ghost d': seq<T>)
    requires off + len <= arr.Length && |s| == len && j < i < len && |d| == j + 1
    requires d == Dedup(s[..i])
    requires forall p :: off <= p <= off + j ==> arr[p] == d[p - off]
    requires forall p :: off + j < p < off + len ==> arr[p] == s[p - off]
    modifies arr
    ensures j <= j' < i + 1 && |d'| == j' + 1 && d' == Dedup(s[..i + 1])
    ensures forall p :: off <= p <= off + j' ==> arr[p] == d'[p - off]
    ensures forall p :: off + j' < p < off + len ==> arr[p] == s[p - off]
    ensures forall p :: 0 <= p < arr.Length && !(off <= p < off + i) ==> arr[p] == old(arr[p])
  {
    DedupPrefixStep(s, i);
    assert arr[off + j] == d[j] && arr[off + i] == s[i];
    if arr[off + j] == arr[off + i] {
      j', d' := j, d;
    } else {
      j' := j + 1;
      arr[off + j'] := arr[off + i];
      d' := d + [s[i]];
    }
  }

  /** The compaction loop of SortAndDeduplicate on the len slots from off
      in arr: j indexes the last element kept, i the element examined. It
      returns the new length j + 1. */
  method DedupInPlace<T(==)>(arr: array<T>, off: nat, len: nat) returns (n: nat)
    requires off + len <= arr.Length && len > 0
    modifies arr
    ensures 1 <= n <= len
    ensures arr[off..off + n] == Dedup(old(arr[off..off + len]))
    ensures forall p :: off + n <= p < off + len ==> arr[p] == old(arr[p])
    ensures forall p :: 0 <= p < arr.Length && !(off <= p < off + len) ==> arr[p] == old(arr[p])
  {
    ghost var s := arr[off..off + len];
    assert forall p :: off <= p < off + len ==> s[p - off] == old(arr[p]);
    var j, i := 0, 1;
    ghost var d := [s[0]];
    assert s[..1] == [s[0]];
    while i < len
      invariant 0 <= j < i <= len && |d| == j + 1
      invariant d == Dedup(s[..i])
      invariant forall p :: off <= p <= off + j ==> arr[p] == d[p - off]
      invariant forall p :: off + j < p < off + len ==> arr[p] == s[p - off]
      invariant forall p :: 0 <= p < arr.Length && !(off <= p < off + len) ==> arr[p] == old(arr[p])
    {
      j, d := DedupStep(arr, off, len, j, i, s, d);
      i := i + 1;
    }
    assert s[..len] == s;
    forall k | 0 <= k < j + 1
      ensures arr[off..off + j + 1][k] == d[k]
    {
      assert arr[off + k] == d[off + k - off];
    }
    assert arr[off..off + j + 1] == d;
    n := j + 1;
  }

  /** Writes sorted over the len slots from off in arr and compacts them to
      their deduplicated prefix, returning its length. */
  method DedupSortedWindow<T(==)>(arr: array<T>, off: nat, len: nat, sorted: seq<T>) returns (n: nat)
    requires off + len <= arr.Length && |sorted| == len && len > 0
    modifies arr
    ensures 1 <= n <= len
    ensures arr[off..off + n] == Dedup(sorted)
    ensures arr[off + n..off + len] == sorted[n..]
    ensures forall p :: 0 <= p < arr.Length && !(off <= p < off + len) ==> arr[p] == old(arr[p])
  {
    var _ := CopyFrom(arr, off, len, sorted);
    assert arr[off..off + len] == sorted by {
      assert sorted[..len] == sorted;
    }
    ghost var before := arr[..];
    n := DedupInPlace(arr, off, len);
    forall k | 0 <= k < len - n
      ensures arr[off + n..off + len][k] == sorted[n..][k]
    {
      assert arr[off + n + k] == before[off + n + k];
      assert before[off..off + len][n + k] == sorted[n + k];
    }
  }

  /** The slice a, whose elements are replaced by sorted, compacted to
      Dedup(sorted). The slots past the new length keep the sorted elements. */
  method DedupSorted<T(==)>(a: Slice<T>, sorted: seq<T>)
    requires a.Valid() && |sorted| == a.len > 0
    modifies a, a.arr
    ensures a.Valid() && a.arr == old(a.arr) && a.off == old(a.off) && 1 <= a.len <= old(a.len)
    ensures a.Contents() == Dedup(sorted)
    ensures a.arr[a.off + a.len..a.off + old(a.len)] == sorted[a.len..]
    ensures forall p :: 0 <= p < a.arr.Length && !(a.off <= p < a.off + old(a.len)) ==> a.arr[p] == old(a.arr[p])
  {
    a.len := DedupSortedWindow(a.arr, a.off, a.len, sorted);
  }

  /** SortAndDeduplicate sorts a (Sort stands in for sort.SliceStable) and
      then keeps the first of every run of equal neighbours. The slots past
      the new length still hold the sorted elements: they are not cleared.
      Line 207 reslices to a[:j+1] even for an empty slice, so a must not be
      empty. */
  method SortAndDeduplicate<T(==)>(a: Slice<T>, less: (T, T) -> bool)
    requires a.Valid() && a.len > 0
    modifies a, a.arr
    ensures a.Valid() && a.arr == old(a.arr) && a.off == old(a.off) && 1 <= a.len <= old(a.len)
    ensures a.Contents() == Dedup(Sort(old(a.Contents()), less))
    ensures a.arr[a.off + a.len..a.off + old(a.len)] == Sort(old(a.Contents()), less)[a.len..]
    ensures forall p :: 0 <= p < a.arr.Length && !(a.off <= p < a.off + old(a.len)) ==> a.arr[p] == old(a.arr[p])
  {
    var sorted := Sort(a.Contents(), less);
    DedupSorted(a, sorted);
  }
}
