/** Sorting by a caller-supplied comparator and removing adjacent duplicates:
    the two halves of SortAndDeduplicate, on plain sequences. */
module Ordering {

  /** less is irreflexive and transitive: the least a Go `less` must be. */
  ghost predicate StrictOrder<T(!new)>(less: (T, T) -> bool)
  {
    (forall x :: !less(x, x)) &&
    (forall x, y, z :: less(x, y) && less(y, z) ==> less(x, z))
  }

  /** Any two different values are ordered one way or the other. */
  ghost predicate Total<T(!new)>(less: (T, T) -> bool)
  {
    forall x, y :: x != y ==> less(x, y) || less(y, x)
  }

  /** No later element is less than an earlier one. */
  ghost predicate Sorted<T>(s: seq<T>, less: (T, T) -> bool)
  {
    forall i, j :: 0 <= i < j < |s| ==> !less(s[j], s[i])
  }

  /** x placed before the first element of s that it is less than, so after
      every element it ties with (this keeps the sort stable). */
  function InsertSorted<T>(x: T, s: seq<T>, less: (T, T) -> bool): (r: seq<T>)
    ensures |r| == |s| + 1
    ensures multiset(r) == multiset(s) + multiset{x}
    ensures forall y :: y in r ==> y == x || y in s
    decreases |s|
  {
    if |s| == 0 then [x]
    else if less(x, s[0]) then [x] + s
    else
      assert s == [s[0]] + s[1..];
      [s[0]] + InsertSorted(x, s[1..], less)
  }

  /** Insertion sort: the stand-in for Go's sort.SliceStable. */
  function Sort<T>(s: seq<T>, less: (T, T) -> bool): (r: seq<T>)
    ensures |r| == |s|
    ensures multiset(r) == multiset(s)
    decreases |s|
  {
    if |s| == 0 then []
    else
      assert s == s[..|s| - 1] + [s[|s| - 1]];
      InsertSorted(s[|s| - 1], Sort(s[..|s| - 1], less), less)
  }

  /** Inserting into a sorted sequence keeps it sorted. */
  lemma {:induction false} InsertSortedSorted<T(!new)>(x: T, s: seq<T>, less: (T, T) -> bool)
    requires StrictOrder(less) && Sorted(s, less)
    ensures Sorted(InsertSorted(x, s, less), less)
    decreases |s|
  {
    if |s| == 0 {
    } else if less(x, s[0]) {
      forall j | 0 <= j < |s|
        ensures !less(s[j], x)
      {
        var y, first := s[j], s[0];
        assert less(y, x) ==> less(y, first);
      }
      assert InsertSorted(x, s, less) == [x] + s;
    } else {
      var t := InsertSorted(x, s[1..], less);
      InsertSortedSorted(x, s[1..], less);
      forall j | 0 <= j < |t|
        ensures !less(t[j], s[0])
      {
        assert t[j] in t;
        if t[j] != x {
          var k :| 0 <= k < |s| - 1 && s[1..][k] == t[j];
          assert s[k + 1] == t[j];
        }
      }
      assert InsertSorted(x, s, less) == [s[0]] + t;
    }
  }

  /** The result of Sort is sorted and holds the same elements as its input. */
  lemma {:induction false} SortSorted<T(!new)>(s: seq<T>, less: (T, T) -> bool)
    requires StrictOrder(less)
    ensures Sorted(Sort(s, less), less)
    ensures multiset(Sort(s, less)) == multiset(s)
    decreases |s|
  {
    if |s| > 0 {
      SortSorted(s[..|s| - 1], less);
      InsertSortedSorted(s[|s| - 1], Sort(s[..|s| - 1], less), less);
    }
  }

  /** Keeps the first of every run of equal neighbours. */
  function Dedup<T(==)>(s: seq<T>): (r: seq<T>)
    requires |s| > 0
    ensures |r| >= 1 && r[0] == s[0] && r[|r| - 1] == s[|s| - 1]
    decreases |s|
  {
    if |s| == 1 then s
    else
      var d := Dedup(s[..|s| - 1]);
      if d[|d| - 1] == s[|s| - 1] then d else d + [s[|s| - 1]]
  }

  /** Extending the prefix by s[i]: the element is dropped when it repeats
      the last one kept and kept otherwise. */
  lemma DedupPrefixStep<T>(s: seq<T>, i: nat)
    requires 0 < i < |s|
    ensures Dedup(s[..i + 1]) ==
      if Dedup(s[..i])[|Dedup(s[..i])| - 1] == s[i] then Dedup(s[..i]) else Dedup(s[..i]) + [s[i]]
  {
    assert s[..i + 1][..i] == s[..i];
  }

  /** No two neighbours are equal. */
  ghost predicate NoAdjacentDuplicates<T>(s: seq<T>)
  {
    forall k :: 0 <= k < |s| - 1 ==> s[k] != s[k + 1]
  }

  /** Dedup leaves no equal neighbours, loses no value and adds none. */
  lemma {:induction false} DedupProperties<T>(s: seq<T>)
    requires |s| > 0
    ensures NoAdjacentDuplicates(Dedup(s))
    ensures forall x :: x in Dedup(s) ==> x in s
    ensures forall x :: x in s ==> x in Dedup(s)
    decreases |s|
  {
    if |s| > 1 {
      var p := s[..|s| - 1];
      DedupProperties(p);
      assert s == p + [s[|s| - 1]];
    }
  }

  /** Dedup keeps the order of what it keeps, so sorted input stays sorted. */
  lemma {:induction false} DedupSorted<T>(s: seq<T>, less: (T, T) -> bool)
    requires |s| > 0 && Sorted(s, less)
    ensures Sorted(Dedup(s), less)
    decreases |s|
  {
    if |s| > 1 {
      var p := s[..|s| - 1];
      var last := s[|s| - 1];
      var d := Dedup(p);
      assert Sorted(p, less);
      DedupSorted(p, less);
      DedupProperties(p);
      assert forall x :: x in d ==> x in p;
      forall i | 0 <= i < |d|
        ensures !less(last, d[i])
      {
        assert d[i] in d;
        var j :| 0 <= j < |p| && p[j] == d[i];
        assert s[j] == d[i];
      }
    }
  }

  /** Under a strict total order, a sorted sequence without equal neighbours
      is strictly increasing, so its elements are pairwise distinct. */
  lemma {:induction false} StrictlyIncreasing<T(!new)>(s: seq<T>, less: (T, T) -> bool)
    requires StrictOrder(less) && Total(less)
    requires Sorted(s, less) && NoAdjacentDuplicates(s)
    ensures forall i, j :: 0 <= i < j < |s| ==> less(s[i], s[j])
    ensures forall i, j :: 0 <= i < j < |s| ==> s[i] != s[j]
    decreases |s|
  {
    if |s| > 1 {
      var p := s[..|s| - 1];
      StrictlyIncreasing(p, less);
      var n := |s| - 1;
      assert less(s[n - 1], s[n]) by {
        assert s[n - 1] != s[n];
      }
      forall i | 0 <= i < n
        ensures less(s[i], s[n])
      {
        if i < n - 1 {
          assert less(p[i], p[n - 1]);
        }
      }
      forall i, j | 0 <= i < j < |s|
        ensures less(s[i], s[j])
      {
        if j < n {
          assert less(p[i], p[j]);
        }
      }
    }
  }

  /** What SortAndDeduplicate leaves: sorted, with no equal neighbours, the
      same values as the input, starting with the least of them; under a
      strict total order no value is left twice. */
  lemma {:induction false} SortDedupProperties<T(!new)>(s: seq<T>, less: (T, T) -> bool)
    requires StrictOrder(less) && |s| > 0
    ensures Sorted(Dedup(Sort(s, less)), less)
    ensures NoAdjacentDuplicates(Dedup(Sort(s, less)))
    ensures forall x :: x in Dedup(Sort(s, less)) <==> x in s
    ensures Dedup(Sort(s, less))[0] == Sort(s, less)[0]
    ensures forall x :: x in s ==> !less(x, Dedup(Sort(s, less))[0])
    ensures Total(less) ==> forall i, j :: 0 <= i < j < |Dedup(Sort(s, less))| ==>
      Dedup(Sort(s, less))[i] != Dedup(Sort(s, less))[j]
  {
    var sorted := Sort(s, less);
    SortSorted(s, less);
    DedupSorted(sorted, less);
    DedupProperties(sorted);
    forall x
      ensures x in sorted <==> x in s
    {
      assert x in sorted <==> x in multiset(sorted);
      assert x in s <==> x in multiset(s);
    }
    forall x | x in s
      ensures !less(x, sorted[0])
    {
      var k :| 0 <= k < |sorted| && sorted[k] == x;
      if k > 0 {
        assert !less(sorted[k], sorted[0]);
      }
    }
    if Total(less) {
      StrictlyIncreasing(Dedup(sorted), less);
    }
  }
}
