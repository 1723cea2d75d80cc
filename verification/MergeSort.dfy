/** LiveCache::mergeSort: lines ordered by last access. */
module MergeSort {
  import opened CacheArray

  ghost predicate Sorted(s: seq<Line>)
    reads s
  {
    forall i, j | 0 <= i < j < |s| :: s[i].order <= s[j].order
  }

  /** The merge of two sequences; on equal orders the first one's lines go first. */
  ghost function Merge(a: seq<Line>, b: seq<Line>): (r: seq<Line>)
    reads a, b
    ensures |r| == |a| + |b| && forall x | x in r :: x in a || x in b
  {
    if b == [] then a
    else if a != [] && a[0].order <= b[0].order then [a[0]] + Merge(a[1..], b)
    else [b[0]] + Merge(a, b[1..])
  }

  lemma {:induction false} MergeKeeps(a: seq<Line>, b: seq<Line>)
    ensures multiset(Merge(a, b)) == multiset(a) + multiset(b)
    decreases |a| + |b|
  {
    if b == [] {
    } else if a != [] && a[0].order <= b[0].order {
      MergeKeeps(a[1..], b);
      HeadAndTail(a);
    } else {
      MergeKeeps(a, b[1..]);
      HeadAndTail(b);
    }
  }

  lemma HeadAndTail(s: seq<Line>)
    requires s != []
    ensures multiset(s) == multiset([s[0]]) + multiset(s[1..])
  {
    assert s == [s[0]] + s[1..];
  }

  lemma {:induction false} MergeSorts(a: seq<Line>, b: seq<Line>)
    requires Sorted(a) && Sorted(b)
    ensures Sorted(Merge(a, b))
    decreases |a| + |b|
  {
    if b == [] {
    } else if a != [] && a[0].order <= b[0].order {
      MergeSorts(a[1..], b);
      Least(a[0], a[1..], b);
    } else {
      MergeSorts(a, b[1..]);
      Least(b[0], a, b[1..]);
    }
  }

  /** A line no later than all of both halves goes in front of their sorted merge. */
  lemma Least(x: Line, a: seq<Line>, b: seq<Line>)
    requires Sorted(Merge(a, b)) && (forall y | y in a :: x.order <= y.order) && forall y | y in b :: x.order <= y.order
    ensures Sorted([x] + Merge(a, b))
  {
    hide Merge;
    var r := Merge(a, b);
    forall i | 0 <= i < |r| ensures x.order <= r[i].order {
      assert r[i] in r;
    }
  }

  lemma MergeStep(a: seq<Line>, b: seq<Line>, m: nat, n: nat, first: bool)
    requires m <= |a| && n <= |b| && (if first then m < |a| else n < |b|)
    requires first <==> n == |b| || (m < |a| && a[m].order <= b[n].order)
    ensures Merge(a[m..], b[n..]) == if first then [a[m]] + Merge(a[m + 1..], b[n..]) else [b[n]] + Merge(a[m..], b[n + 1..])
  {
    if first {
      assert a[m..][1..] == a[m + 1..];
      assert a[m..] == [a[m]] + a[m + 1..];
    } else {
      assert b[n..][1..] == b[n + 1..];
    }
  }

  /** The merging loop. */
  method MergeInto(arr: array<Line>, arr1: array<Line>, arr2: array<Line>, ghost a: seq<Line>, ghost b: seq<Line>)
    requires arr.Length == arr1.Length + arr2.Length && arr != arr1 && arr != arr2
    requires Shows(arr1, a) && Shows(arr2, b)
    modifies arr
    ensures Shows(arr, Merge(a, b))
  {
    hide Merge;
    ghost var all := Merge(a, b);
    var m, n := 0, 0;
    assert a[0..] == a && b[0..] == b && all[0..] == all;
    for i := 0 to arr.Length
      invariant 0 <= m <= |a| && 0 <= n <= |b| && m + n == i
      invariant Shows(arr1, a) && Shows(arr2, b)
      invariant forall k | 0 <= k < i :: arr[k] == all[k]
      invariant all[i..] == Merge(a[m..], b[n..])
    {
      if n >= arr2.Length || (m < arr1.Length && arr1[m].order <= arr2[n].order) {
        MergeStep(a, b, m, n, true);
        NextOf(all, i, a[m], Merge(a[m + 1..], b[n..]));
        arr[i] := arr1[m];
        m := m + 1;
      } else {
        MergeStep(a, b, m, n, false);
        NextOf(all, i, b[n], Merge(a[m..], b[n + 1..]));
        arr[i] := arr2[n];
        n := n + 1;
      }
    }
  }

  lemma NextOf(s: seq<Line>, i: nat, x: Line, t: seq<Line>)
    requires i < |s| && s[i..] == [x] + t
    ensures s[i] == x && s[i + 1..] == t
  {
    assert s[i..][0] == x && s[i..][1..] == t;
  }

  ghost predicate Shows(arr: array<Line>, s: seq<Line>)
    reads arr
  {
    |s| == arr.Length && forall k | 0 <= k < |s| :: arr[k] == s[k]
  }

  /** Divide and conquer. */
  ghost function MergeSorted(s: seq<Line>): (r: seq<Line>)
    reads s
    ensures |r| == |s| && forall x | x in r :: x in s
  {
    if |s| < 2 then s
    else
      var a, b := MergeSorted(s[..|s| / 2]), MergeSorted(s[|s| / 2..]);
      assert (forall i | 0 <= i < |a| :: a[i] in s) by {
        forall i | 0 <= i < |a| ensures a[i] in s { assert a[i] in a && a[i] in s[..|s| / 2]; }
      }
      assert (forall i | 0 <= i < |b| :: b[i] in s) by {
        forall i | 0 <= i < |b| ensures b[i] in s { assert b[i] in b && b[i] in s[|s| / 2..]; }
      }
      Merge(a, b)
  }

  /** For every length the result is a sorted permutation. */
  lemma {:induction false} SortedPermutation(s: seq<Line>)
    ensures Sorted(MergeSorted(s)) && multiset(MergeSorted(s)) == multiset(s)
  {
    hide Merge;
    if |s| >= 2 {
      var a, b := s[..|s| / 2], s[|s| / 2..];
      SortedPermutation(a);
      SortedPermutation(b);
      MergeSorts(MergeSorted(a), MergeSorted(b));
      MergeKeeps(MergeSorted(a), MergeSorted(b));
      assert s == a + b;
    }
  }

  lemma TwoSorted(x: Line, y: Line)
    ensures MergeSorted([x, y]) == if x.order > y.order then [y, x] else [x, y]
  {
    assert [x, y][..1] == [x] && [x, y][1..] == [y];
    assert [x][1..] == [] && [y][1..] == [];
    assert Merge([x], []) == [x] && Merge([], [y]) == [y];
  }

  method SortLines(arr: array<Line>, ghost s: seq<Line>)
    requires Shows(arr, s)
    modifies arr
    ensures Shows(arr, MergeSorted(s))
    decreases arr.Length
  {
    hide Merge, MergeSorted;
    var len := arr.Length;
    if len < 2 {
      ShortSorted(s);
      return;
    }
    if len == 2 {
      assert s == [s[0], s[1]];
      TwoSorted(s[0], s[1]);
      if arr[0].order > arr[1].order {
        arr[0], arr[1] := arr[1], arr[0];
      }
      return;
    }
    var mid := len / 2;
    var arr1 := new Line[mid](i requires 0 <= i < mid <= arr.Length reads arr => arr[i]);
    var arr2 := new Line[len - mid](i requires 0 <= i < len - mid && 0 <= mid && len == arr.Length reads arr => arr[mid + i]);
    ghost var a, b := s[..mid], s[mid..];
    SortLines(arr1, a);
    SortLines(arr2, b);
    LongSorted(s);
    MergeInto(arr, arr1, arr2, MergeSorted(a), MergeSorted(b));
  }

  lemma ShortSorted(s: seq<Line>)
    requires |s| < 2
    ensures MergeSorted(s) == s
  {
  }

  lemma LongSorted(s: seq<Line>)
    requires |s| >= 2
    ensures MergeSorted(s) == Merge(MergeSorted(s[..|s| / 2]), MergeSorted(s[|s| / 2..]))
  {
    hide Merge;
  }
}
