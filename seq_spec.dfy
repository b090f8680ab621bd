/** Reference definitions, on plain sequences, of what each slice trick
    leaves in the slice, and the properties they have. */
module SeqSpec {

  /** a[:start] followed by a[end:]: what Cut leaves. */
  function Removed<T>(s: seq<T>, start: nat, end: nat): (r: seq<T>)
    requires start <= end <= |s|
    ensures |r| == |s| - (end - start)
  {
    s[..start] + s[end..]
  }

  /** What is left after a cut: the elements before start in place, those
      from end on moved down by end - start. */
  lemma RemovedAt<T>(s: seq<T>, start: nat, end: nat)
    requires start <= end <= |s|
    ensures forall k :: 0 <= k < start ==> Removed(s, start, end)[k] == s[k]
    ensures forall k :: start <= k < |s| - (end - start) ==> Removed(s, start, end)[k] == s[k + (end - start)]
  {
  }

  /** Cutting an empty range changes nothing. */
  lemma RemovedEmptyRange<T>(s: seq<T>, i: nat)
    requires i <= |s|
    ensures Removed(s, i, i) == s
  {
  }

  /** xs placed at index i of s: what Insert, InsertMany and Expand leave. */
  function Inserted<T>(s: seq<T>, i: nat, xs: seq<T>): (r: seq<T>)
    requires i <= |s|
    ensures |r| == |s| + |xs|
  {
    s[..i] + xs + s[i..]
  }

  /** Position by position: s before i, then xs, then the rest of s moved up
      by |xs|. */
  lemma InsertedAt<T>(s: seq<T>, i: nat, xs: seq<T>)
    requires i <= |s|
    ensures forall k :: 0 <= k < i ==> Inserted(s, i, xs)[k] == s[k]
    ensures forall k :: 0 <= k < |xs| ==> Inserted(s, i, xs)[i + k] == xs[k]
    ensures forall k :: i <= k < |s| ==> Inserted(s, i, xs)[k + |xs|] == s[k]
  {
  }

  /** Inserting at the end appends: Extend(a, n) is Expand(a, len(a), n). */
  lemma InsertedAtEnd<T>(s: seq<T>, xs: seq<T>)
    ensures Inserted(s, |s|, xs) == s + xs
  {
    assert s[..|s|] == s && s[|s|..] == [];
  }

  /** Inserting nothing changes nothing. */
  lemma InsertedNothing<T>(s: seq<T>, i: nat)
    requires i <= |s|
    ensures Inserted(s, i, []) == s
  {
    assert s[..i] + s[i..] == s;
  }

  /** What DeleteUnordered leaves: the last element moved into slot i. */
  function SwapRemove<T>(s: seq<T>, i: nat): (r: seq<T>)
    requires i < |s|
    ensures |r| == |s| - 1
  {
    if i == |s| - 1 then s[..i] else s[..i] + [s[|s| - 1]] + s[i + 1..|s| - 1]
  }

  /** Slot i holds the former last element; every other slot is unchanged. */
  lemma SwapRemoveAt<T>(s: seq<T>, i: nat)
    requires i < |s|
    ensures forall k :: 0 <= k < |s| - 1 ==> SwapRemove(s, i)[k] == if k == i then s[|s| - 1] else s[k]
  {
  }

  /** Removing without keeping the order removes the same elements as Delete. */
  lemma SwapRemoveIsPermutation<T>(s: seq<T>, i: nat)
    requires i < |s|
    ensures multiset(SwapRemove(s, i)) == multiset(s[..i] + s[i + 1..])
  {
    if i < |s| - 1 {
      var last := s[|s| - 1];
      var mid := s[i + 1..|s| - 1];
      assert s[i + 1..] == mid + [last];
      calc {
        multiset(SwapRemove(s, i));
        multiset(s[..i]) + multiset([last]) + multiset(mid);
        multiset(s[..i]) + multiset(mid + [last]);
        multiset(s[..i] + s[i + 1..]);
      }
    } else {
      assert s[i + 1..] == [];
      assert s[..i] + s[i + 1..] == s[..i];
    }
  }

  /** The elements of s in the opposite order. */
  function Reversed<T>(s: seq<T>): (r: seq<T>)
    ensures |r| == |s|
    decreases |s|
  {
    if |s| == 0 then [] else [s[|s| - 1]] + Reversed(s[..|s| - 1])
  }

  /** Position k of the reverse holds the element |s| - 1 - k of s. */
  lemma {:induction false} ReversedAt<T>(s: seq<T>)
    ensures forall k :: 0 <= k < |s| ==> Reversed(s)[k] == s[|s| - 1 - k]
    decreases |s|
  {
    if |s| > 0 {
      ReversedAt(s[..|s| - 1]);
    }
  }

  /** Reversing twice gives back the original. */
  lemma ReversedTwice<T>(s: seq<T>)
    ensures Reversed(Reversed(s)) == s
  {
    ReversedAt(s);
    ReversedAt(Reversed(s));
    assert forall k :: 0 <= k < |s| ==> Reversed(Reversed(s))[k] == s[k];
  }

  /** The elements of s for which keep holds, in their original order. */
  function Filtered<T>(s: seq<T>, keep: T -> bool): (r: seq<T>)
    ensures |r| <= |s|
    decreases |s|
  {
    if |s| == 0 then []
    else Filtered(s[..|s| - 1], keep) + (if keep(s[|s| - 1]) then [s[|s| - 1]] else [])
  }

  /** Extending the prefix by s[i] adds s[i] to the survivors exactly when
      keep accepts it. */
  lemma FilteredPrefixStep<T>(s: seq<T>, i: nat, keep: T -> bool)
    requires i < |s|
    ensures Filtered(s[..i + 1], keep) == Filtered(s[..i], keep) + (if keep(s[i]) then [s[i]] else [])
  {
    assert s[..i + 1][..i] == s[..i];
  }

  /** Only elements of s that satisfy keep survive. */
  lemma {:induction false} FilteredMembers<T>(s: seq<T>, keep: T -> bool)
    ensures forall x :: x in Filtered(s, keep) ==> x in s && keep(x)
    decreases |s|
  {
    if |s| > 0 {
      var p := s[..|s| - 1];
      FilteredMembers(p, keep);
      assert forall x :: x in p ==> x in s;
    }
  }

  /** Filtering distributes over concatenation, so the survivors of an earlier
      part come before those of a later part. */
  lemma {:induction false} FilterAppend<T>(s: seq<T>, t: seq<T>, keep: T -> bool)
    ensures Filtered(s + t, keep) == Filtered(s, keep) + Filtered(t, keep)
    decreases |t|
  {
    if |t| == 0 {
      assert s + t == s;
    } else {
      var t' := t[..|t| - 1];
      assert (s + t)[..|s + t| - 1] == s + t';
      FilterAppend(s, t', keep);
    }
  }

  /** Every element that satisfies keep survives. */
  lemma {:induction false} FilterKeepsMatches<T>(s: seq<T>, keep: T -> bool, x: T)
    requires x in s && keep(x)
    ensures x in Filtered(s, keep)
    decreases |s|
  {
    if s[|s| - 1] != x {
      assert x in s[..|s| - 1] by {
        var k :| 0 <= k < |s| && s[k] == x;
        assert s[..|s| - 1][k] == x;
      }
      FilterKeepsMatches(s[..|s| - 1], keep, x);
    }
  }

  /** A predicate that holds of every element keeps the whole sequence. */
  lemma {:induction false} FilterAll<T>(s: seq<T>, keep: T -> bool)
    requires forall k :: 0 <= k < |s| ==> keep(s[k])
    ensures Filtered(s, keep) == s
    decreases |s|
  {
    if |s| > 0 {
      FilterAll(s[..|s| - 1], keep);
      assert s[..|s| - 1] + [s[|s| - 1]] == s;
    }
  }

  /** A predicate that holds of no element keeps nothing. */
  lemma {:induction false} FilterNone<T>(s: seq<T>, keep: T -> bool)
    requires forall k :: 0 <= k < |s| ==> !keep(s[k])
    ensures Filtered(s, keep) == []
    decreases |s|
  {
    if |s| > 0 {
      FilterNone(s[..|s| - 1], keep);
    }
  }

  /** Filtering a second time changes nothing. */
  lemma {:induction false} FilterIdempotent<T>(s: seq<T>, keep: T -> bool)
    ensures Filtered(Filtered(s, keep), keep) == Filtered(s, keep)
  {
    var r := Filtered(s, keep);
    FilteredMembers(s, keep);
    forall k | 0 <= k < |r|
      ensures keep(r[k])
    {
      assert r[k] in r;
    }
    FilterAll(r, keep);
  }

  /** The concatenation of a sequence of sequences. */
  function Flatten<T>(ss: seq<seq<T>>): (r: seq<T>)
  {
    if ss == [] then [] else ss[0] + Flatten(ss[1..])
  }

  /** Consecutive pieces of `size` elements; the last piece holds the rest. */
  function Chunks<T>(s: seq<T>, size: nat): (r: seq<seq<T>>)
    requires size >= 1
    decreases |s|
  {
    if |s| == 0 then []
    else if |s| <= size then [s]
    else [s[..size]] + Chunks(s[size..], size)
  }

  /** The pieces put back together give the original sequence. */
  lemma {:induction false} ChunksFlatten<T>(s: seq<T>, size: nat)
    requires size >= 1
    ensures Flatten(Chunks(s, size)) == s
    decreases |s|
  {
    if |s| > size {
      var c := Chunks(s, size);
      assert c[1..] == Chunks(s[size..], size);
      ChunksFlatten(s[size..], size);
      assert s[..size] + s[size..] == s;
    } else if |s| > 0 {
      assert Flatten([s]) == s + Flatten([]);
    }
  }

  /** There are ceil(|s| / size) pieces; every piece but the last is full and
      the last holds between 1 and size elements. */
  lemma {:induction false} ChunksShape<T>(s: seq<T>, size: nat)
    requires size >= 1
    ensures |Chunks(s, size)| == (|s| + size - 1) / size
    ensures forall k :: 0 <= k < |Chunks(s, size)| - 1 ==> |Chunks(s, size)[k]| == size
    ensures |Chunks(s, size)| > 0 ==> 1 <= |Chunks(s, size)[|Chunks(s, size)| - 1]| <= size
    decreases |s|
  {
    var c := Chunks(s, size);
    if |s| > size {
      var rest := Chunks(s[size..], size);
      ChunksShape(s[size..], size);
      assert c == [s[..size]] + rest;
      DivShift(|s| - size + size - 1, size);
      forall k | 0 <= k < |c| - 1
        ensures |c[k]| == size
      {
        if k > 0 { assert c[k] == rest[k - 1]; }
      }
    } else if |s| > 0 {
      DivOfMulAdd(size, 1, |s| - 1);
    } else {
      DivOfMulAdd(size, 0, size - 1);
    }
  }

  /** (x + d) / d == x / d + 1 */
  lemma DivShift(x: nat, d: nat)
    requires d >= 1
    ensures (x + d) / d == x / d + 1
  {
    var q, r := x / d, x % d;
    assert x == d * q + r;
    assert x + d == d * (q + 1) + r;
    DivOfMulAdd(d, q + 1, r);
  }

  /** Division undoes multiplication when the remainder is below the divisor. */
  lemma DivOfMulAdd(d: nat, m: nat, r: nat)
    requires 0 <= r < d
    ensures (d * m + r) / d == m
  {
    var n := d * m + r;
    var q, r' := n / d, n % d;
    assert n == d * q + r';
    assert d * (q - m) == r - r';
    MulMagnitude(d, q - m);
  }

  /** A non-zero multiple of d is at least d away from zero. */
  lemma MulMagnitude(d: int, x: int)
    requires d >= 1
    ensures x >= 1 ==> d * x >= d
    ensures x <= -1 ==> d * x <= 0 - d
  {
  }
}
