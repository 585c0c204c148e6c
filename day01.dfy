/** Day 1: historian hysteria. Two columns of location ids are compared by
    pairing them in sorted order (part one) and by weighting every left id
    with its number of occurrences on the right (part two). */
module Day01 {
  import opened Common

  predicate Sorted(s: seq<nat>)
  {
    forall i, j :: 0 <= i < j < |s| ==> s[i] <= s[j]
  }

  /** A bound on every element of s and on x bounds every element of any
      arrangement of s with x added. */
  lemma BoundsArrangement(m: nat, x: nat, s: seq<nat>, r: seq<nat>)
    requires m <= x && (forall k :: 0 <= k < |s| ==> m <= s[k])
    requires multiset(r) == multiset(s) + multiset{x}
    ensures forall k :: 0 <= k < |r| ==> m <= r[k]
  {
    forall k | 0 <= k < |r| ensures m <= r[k] {
      assert r[k] in multiset(r);
      if r[k] != x {
        assert r[k] in multiset(s);
      }
    }
  }

  /** x placed before the first element of s that is at least x. */
  function Insert(x: nat, s: seq<nat>): (r: seq<nat>)
    requires Sorted(s)
    ensures Sorted(r) && multiset(r) == multiset(s) + multiset{x}
  {
    if |s| == 0 || x <= s[0] then [x] + s
    else
      var rest := Insert(x, s[1..]);
      assert s == [s[0]] + s[1..];
      BoundsArrangement(s[0], x, s[1..], rest);
      [s[0]] + rest
  }

  /** The column in ascending order: what `sort_unstable` leaves behind. */
  function SortColumn(s: seq<nat>): (r: seq<nat>)
    ensures Sorted(r) && multiset(r) == multiset(s)
  {
    if |s| == 0 then []
    else
      assert s == [s[0]] + s[1..];
      Insert(s[0], SortColumn(s[1..]))
  }

  /** The head of a sorted sequence is at most each of its elements. */
  lemma SortedHeadLeast(a: seq<nat>, x: nat)
    requires Sorted(a) && x in multiset(a)
    ensures |a| > 0 && a[0] <= x
  {
    var k :| 0 <= k < |a| && a[k] == x;
  }

  /** Two sorted arrangements of one multiset start alike and continue with
      sorted arrangements of one multiset. */
  lemma SameHead(a: seq<nat>, b: seq<nat>)
    requires Sorted(a) && Sorted(b) && multiset(a) == multiset(b) && |a| > 0
    ensures |b| > 0 && a[0] == b[0]
    ensures Sorted(a[1..]) && Sorted(b[1..]) && multiset(a[1..]) == multiset(b[1..])
  {
    assert a[0] in multiset(a);
    SortedHeadLeast(b, a[0]);
    assert b[0] in multiset(b);
    SortedHeadLeast(a, b[0]);
    assert a == [a[0]] + a[1..];
    assert b == [b[0]] + b[1..];
    assert multiset(a[1..]) == multiset(a) - multiset{a[0]};
    assert multiset(b[1..]) == multiset(b) - multiset{b[0]};
  }

  /** There is one sorted arrangement of a multiset of values, so an unstable
      sort gives the same column as any other sort. */
  lemma {:induction false} SortedUnique(a: seq<nat>, b: seq<nat>)
    requires Sorted(a) && Sorted(b) && multiset(a) == multiset(b)
    ensures a == b
    decreases |a|
  {
    if |a| == 0 {
      assert |multiset(b)| == 0;
    } else {
      SameHead(a, b);
      SortedUnique(a[1..], b[1..]);
      assert a == [a[0]] + a[1..];
      assert b == [b[0]] + b[1..];
    }
  }

  /** The sum of `abs_diff` over the pairs of `zip`, which stops at the end of
      the shorter column. */
  function Distance(left: seq<nat>, right: seq<nat>): nat
  {
    if |left| == 0 || |right| == 0 then 0
    else Abs(left[0] as int - right[0]) + Distance(left[1..], right[1..])
  }

  lemma {:induction false} DistanceZero(a: seq<nat>, b: seq<nat>)
    requires |a| == |b|
    ensures Distance(a, b) == 0 <==> a == b
    decreases |a|
  {
    if |a| > 0 {
      DistanceZero(a[1..], b[1..]);
      assert a == [a[0]] + a[1..];
      assert b == [b[0]] + b[1..];
    }
  }

  /** Part one: the distance between the sorted columns. For columns of equal
      length it is zero exactly when they hold the same ids, however often and
      in whatever order. */
  function PartOne(left: seq<nat>, right: seq<nat>): (d: nat)
    ensures |left| == |right| ==> (d == 0 <==> multiset(left) == multiset(right))
  {
    SortedDistanceZero(left, right);
    Distance(SortColumn(left), SortColumn(right))
  }

  lemma SortedDistanceZero(left: seq<nat>, right: seq<nat>)
    ensures |left| == |right| ==>
      (Distance(SortColumn(left), SortColumn(right)) == 0 <==> multiset(left) == multiset(right))
  {
    var l, r := SortColumn(left), SortColumn(right);
    if |left| == |right| {
      assert |l| == |r| by {
        assert |multiset(l)| == |left| && |multiset(r)| == |right|;
      }
      DistanceZero(l, r);
      if multiset(left) == multiset(right) {
        SortedUnique(l, r);
      }
    }
  }

  /** Reordering either column does not change the total distance. */
  lemma DistanceIgnoresOrder(left: seq<nat>, right: seq<nat>, left': seq<nat>, right': seq<nat>)
    requires multiset(left) == multiset(left') && multiset(right) == multiset(right')
    ensures PartOne(left, right) == PartOne(left', right')
  {
    SortedUnique(SortColumn(left), SortColumn(left'));
    SortedUnique(SortColumn(right), SortColumn(right'));
  }

  /** The frequency map of part two: every id of the column, with its number
      of occurrences. */
  method Frequencies(column: seq<nat>) returns (freq: map<nat, nat>)
    ensures forall x :: x in freq <==> x in column
    ensures forall x :: x in freq ==> freq[x] == multiset(column)[x]
  {
    freq := map[];
    for i := 0 to |column|
      invariant forall x :: x in freq <==> x in column[..i]
      invariant forall x :: x in freq ==> freq[x] == multiset(column[..i])[x]
    {
      var num := column[i];
      assert column[..i + 1] == column[..i] + [num];
      if num in freq {
        freq := freq[num := freq[num] + 1];
      } else {
        freq := freq[num := 1];
      }
    }
    assert column[..|column|] == column;
  }

  /** The sum over the left column of each id times its looked-up count, with
      0 for an id missing from the map. */
  function Score(left: seq<nat>, freq: map<nat, nat>): nat
  {
    if |left| == 0 then 0
    else
      var x := left[|left| - 1];
      Score(left[..|left| - 1], freq) + x * (if x in freq then freq[x] else 0)
  }

  /** The similarity: every left id weighted by its occurrences on the right. */
  function Similarity(left: seq<nat>, right: seq<nat>): nat
  {
    if |left| == 0 then 0
    else
      var x := left[|left| - 1];
      Similarity(left[..|left| - 1], right) + x * multiset(right)[x]
  }

  lemma {:induction false} ScoreIsSimilarity(left: seq<nat>, right: seq<nat>, freq: map<nat, nat>)
    requires forall x :: x in freq <==> x in right
    requires forall x :: x in freq ==> freq[x] == multiset(right)[x]
    ensures Score(left, freq) == Similarity(left, right)
    decreases |left|
  {
    if |left| > 0 {
      ScoreIsSimilarity(left[..|left| - 1], right, freq);
    }
  }

  method PartTwo(left: seq<nat>, right: seq<nat>) returns (score: nat)
    ensures score == Similarity(left, right)
  {
    var freq := Frequencies(right);
    score := Score(left, freq);
    ScoreIsSimilarity(left, right, freq);
  }

  lemma {:induction false} SimilarityAppendRight(left: seq<nat>, right: seq<nat>, y: nat)
    ensures Similarity(left, right + [y]) == Similarity(left, right) + y * multiset(left)[y]
    decreases |left|
  {
    if |left| > 0 {
      var front: seq<nat>, x: nat := left[..|left| - 1], left[|left| - 1];
      SimilarityAppendRight(front, right, y);
      assert left == front + [x];
      var c := multiset(right)[x];
      var n := multiset(front)[y];
      assert multiset(right + [y]) == multiset(right) + multiset{y};
      if x == y {
        assert multiset(right + [y])[x] == c + 1;
        assert multiset(left)[y] == n + 1;
        MulAddDistrib(c, 1, x);
        MulAddDistrib(n, 1, y);
        MulComm(x, c + 1);
        MulComm(y, n + 1);
        MulComm(x, c);
        MulComm(y, n);
      } else {
        assert multiset(right + [y])[x] == c;
        assert multiset(left)[y] == n;
      }
    }
  }

  /** The score counts every pair of equal ids, one from each column, with
      that id as its weight, so swapping the columns keeps it. */
  lemma {:induction false} SimilaritySymmetric(left: seq<nat>, right: seq<nat>)
    ensures Similarity(left, right) == Similarity(right, left)
    decreases |right|
  {
    if |right| == 0 {
      SimilarityNone(left, right);
    } else {
      var front: seq<nat>, y: nat := right[..|right| - 1], right[|right| - 1];
      SimilaritySymmetric(left, front);
      assert right == front + [y];
      SimilarityAppendRight(left, front, y);
    }
  }

  lemma {:induction false} SimilarityNone(left: seq<nat>, right: seq<nat>)
    requires |right| == 0
    ensures Similarity(left, right) == 0
    decreases |left|
  {
    if |left| > 0 {
      SimilarityNone(left[..|left| - 1], right);
    }
  }
}
