/** `MedianFilterService.GetMedian` (Services/MedianFilterService.cs:126-142): the median of
    a list of channel values, after sorting it. */
module Median {
  import opened Messages

  predicate Sorted(s: seq<Byte>)
  {
    forall i, j :: 0 <= i < j < |s| ==> s[i] <= s[j]
  }

  /** `x` placed into sorted `s` before the first larger element. */
  function Insert(x: Byte, s: seq<Byte>): (r: seq<Byte>)
    requires Sorted(s)
    ensures Sorted(r) && multiset(r) == multiset(s) + multiset{x}
    ensures |r| == |s| + 1 && (r[0] == x || (|s| > 0 && r[0] == s[0]))
  {
    if |s| == 0 then [x]
    else if x <= s[0] then ConsSorted(x, s); [x] + s
    else
      SortedTail(s);
      var rest := Insert(x, s[1..]);
      assert s[0] <= rest[0];
      ConsSorted(s[0], rest);
      assert multiset([s[0]] + rest) == multiset{s[0]} + multiset(rest);
      [s[0]] + rest
  }

  /** A sorted sequence stays sorted with a head no larger than its first element. */
  lemma ConsSorted(h: Byte, s: seq<Byte>)
    requires Sorted(s) && (|s| == 0 || h <= s[0])
    ensures Sorted([h] + s)
  {
    var r := [h] + s;
    forall i, j | 0 <= i < j < |r| ensures r[i] <= r[j] {
      if i == 0 {
        assert r[j] == s[j - 1] && s[0] <= s[j - 1];
      } else {
        assert r[i] == s[i - 1] && r[j] == s[j - 1];
      }
    }
  }

  /** `List<byte>.Sort()`: the values in ascending order. */
  function Sort(values: seq<Byte>): (r: seq<Byte>)
    ensures Sorted(r) && multiset(r) == multiset(values)
  {
    if |values| == 0 then []
    else
      assert values == values[..|values| - 1] + [values[|values| - 1]];
      Insert(values[|values| - 1], Sort(values[..|values| - 1]))
  }

  /** 0 for no values; otherwise the middle of the sorted values, or for an even count
      the floor of the mean of the two middle ones. */
  function GetMedian(values: seq<Byte>): Byte
  {
    if |values| == 0 then 0
    else
      var sorted := Sort(values);
      var middle := |sorted| / 2;
      if |sorted| % 2 == 0 then (sorted[middle - 1] as int + sorted[middle] as int) / 2
      else sorted[middle]
  }

  /** The first element of a sorted sequence is its least. */
  lemma HeadIsLeast(a: seq<Byte>, v: Byte)
    requires Sorted(a) && v in multiset(a)
    ensures a[0] <= v
  {
    var i :| 0 <= i < |a| && a[i] == v;
  }

  /** A sorted sequence is determined by its elements. */
  lemma {:induction false} SortedUnique(a: seq<Byte>, b: seq<Byte>)
    requires Sorted(a) && Sorted(b) && multiset(a) == multiset(b)
    decreases |a|
    ensures a == b
  {
    if |a| > 0 || |b| > 0 {
      SortedHeadsAgree(a, b);
      SortedUnique(a[1..], b[1..]);
      assert a == [a[0]] + a[1..] && b == [b[0]] + b[1..];
    }
  }

  /** Two non-empty sorted sequences with the same elements start alike, and their
      tails are sorted with the same elements. */
  lemma SortedHeadsAgree(a: seq<Byte>, b: seq<Byte>)
    requires Sorted(a) && Sorted(b) && multiset(a) == multiset(b) && (|a| > 0 || |b| > 0)
    ensures |a| > 0 && |b| > 0 && a[0] == b[0]
    ensures Sorted(a[1..]) && Sorted(b[1..]) && multiset(a[1..]) == multiset(b[1..])
  {
    assert |b| == |a| by { assert |multiset(a)| == |multiset(b)|; }
    HeadIsLeast(b, a[0]);
    HeadIsLeast(a, b[0]);
    SortedTail(a);
    SortedTail(b);
  }

  /** Without its head a sorted sequence stays sorted and loses one copy of the head. */
  lemma SortedTail(a: seq<Byte>)
    requires Sorted(a) && |a| > 0
    ensures Sorted(a[1..]) && multiset(a[1..]) == multiset(a) - multiset{a[0]}
  {
    assert a == [a[0]] + a[1..];
  }

  /** The median depends only on the multiset of values, not on the order they were
      collected in. */
  lemma MedianIgnoresOrder(a: seq<Byte>, b: seq<Byte>)
    requires multiset(a) == multiset(b)
    ensures GetMedian(a) == GetMedian(b)
  {
    assert |a| == |b| by { assert |multiset(a)| == |multiset(b)|; }
    SortedUnique(Sort(a), Sort(b));
  }

  /** The median of a non-empty list lies between its least and its greatest value; for
      an odd count it is one of the values. */
  lemma MedianBounds(values: seq<Byte>)
    requires |values| > 0
    ensures exists i :: 0 <= i < |values| && values[i] <= GetMedian(values)
    ensures exists j :: 0 <= j < |values| && GetMedian(values) <= values[j]
    ensures |values| % 2 == 1 ==> GetMedian(values) in values
  {
    var sorted := Sort(values);
    var middle := |sorted| / 2;
    assert |sorted| == |values| by { assert |multiset(sorted)| == |multiset(values)|; }
    assert sorted[0] in multiset(values) && sorted[|sorted| - 1] in multiset(values);
    var i :| 0 <= i < |values| && values[i] == sorted[0];
    var j :| 0 <= j < |values| && values[j] == sorted[|sorted| - 1];
    assert sorted[0] <= sorted[middle] <= sorted[|sorted| - 1];
    if |sorted| % 2 == 0 {
      assert sorted[0] <= sorted[middle - 1];
    } else {
      assert sorted[middle] in multiset(values);
    }
  }

  /** The two branches on the sorted values: the middle element for an odd count, the
      floor-average of the two central ones for an even count. */
  lemma MedianOfSorted(values: seq<Byte>)
    requires Sorted(values) && |values| > 0
    ensures var n := |values|;
      && (n % 2 == 1 ==> GetMedian(values) == values[n / 2])
      && (n % 2 == 0 ==> GetMedian(values) == (values[n / 2 - 1] as int + values[n / 2] as int) / 2)
  {
    var sorted := Sort(values);
    SortedUnique(sorted, values);
    assert sorted == values;
  }
}
