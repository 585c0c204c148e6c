/** Day 5: page-ordering rules `a|b` (page a must come before page b) and
    updates (lists of pages). Part one sums the middle page of every update
    no rule forbids; part two sorts every other update with the rules, in
    place, and sums their middle pages. */
module Day05 {
  import opened Common

  /** The rule set: the keys of the source's map. */
  type Rules = set<(nat, nat)>

  // ----- Order checks -----

  /** No pair of pages i < j appears with the rule (update[j], update[i]). */
  predicate InOrder(rules: Rules, update: seq<nat>)
  {
    forall i, j :: 0 <= i < j < |update| ==> (update[j], update[i]) !in rules
  }

  /** The pair loops of `part_one` and `part_two`, leaving at the first
      violated rule. */
  method CheckOrder(rules: Rules, update: seq<nat>) returns (ok: bool)
    ensures ok <==> InOrder(rules, update)
  {
    for i := 0 to |update|
      invariant forall k, l :: 0 <= k < i && k < l < |update| ==> (update[l], update[k]) !in rules
    {
      for j := i + 1 to |update|
        invariant forall l :: i < l < j ==> (update[l], update[i]) !in rules
      {
        if (update[j], update[i]) in rules {
          return false;
        }
      }
    }
    return true;
  }

  // ----- Part one -----

  /** The middle page; None for an empty update, where indexing panics. */
  function Middle(update: seq<nat>): (r: Option<nat>)
    ensures r.Some? <==> update != []
    ensures r.Some? ==> r.value in update
  {
    if update == [] then None else Some(update[|update| / 2])
  }

  /** The sum `part_one` reports over `updates`. */
  function SumInOrder(rules: Rules, updates: seq<seq<nat>>): Option<nat>
  {
    if updates == [] then Some(0)
    else
      var u := updates[|updates| - 1];
      match SumInOrder(rules, updates[..|updates| - 1])
      case None => None
      case Some(s) =>
        if !InOrder(rules, u) then Some(s)
        else
          match Middle(u)
          case None => None
          case Some(m) => Some(s + m)
  }

  method PartOne(rules: Rules, updates: seq<seq<nat>>) returns (r: Option<nat>)
    ensures r == SumInOrder(rules, updates)
  {
    var sum := 0;
    for k := 0 to |updates|
      invariant SumInOrder(rules, updates[..k]) == Some(sum)
    {
      var update := updates[k];
      assert updates[..k + 1][..k] == updates[..k];
      var ok := CheckOrder(rules, update);
      if !ok {
        continue;
      }
      if |update| == 0 {
        SumInOrderStaysNone(rules, updates, k + 1);
        return None;
      }
      sum := sum + update[|update| / 2];
    }
    assert updates[..|updates|] == updates;
    return Some(sum);
  }

  lemma {:induction false} SumInOrderStaysNone(rules: Rules, updates: seq<seq<nat>>, n: nat)
    requires n <= |updates| && SumInOrder(rules, updates[..n]).None?
    ensures SumInOrder(rules, updates).None?
    decreases |updates| - n
  {
    if n < |updates| {
      assert updates[..n + 1][..n] == updates[..n];
      SumInOrderStaysNone(rules, updates, n + 1);
    } else {
      assert updates[..n] == updates;
    }
  }

  // ----- Sorting with the rules -----

  /** No earlier page has a rule putting it before a later page: the rules'
      order, reversed. */
  ghost predicate RuleSorted(rules: Rules, s: seq<nat>)
  {
    forall k, l :: 0 <= k < l < |s| ==> (s[k], s[l]) !in rules
  }

  /** The pages an update holds. */
  ghost function Pages(s: seq<nat>): set<nat>
  {
    set x | x in s
  }

  /** The rules order the pages of `pages` strictly: never a page before
      itself, never both ways, transitive, and any two distinct pages are
      related. */
  ghost predicate StrictTotalOn(rules: Rules, pages: set<nat>)
  {
    (forall x :: x in pages ==> (x, x) !in rules) &&
    (forall x, y {:trigger x in pages, y in pages} :: x in pages && y in pages && (x, y) in rules ==> (y, x) !in rules) &&
    (forall x, y, z {:trigger x in pages, y in pages, z in pages} ::
       x in pages && y in pages && z in pages && (x, y) in rules && (y, z) in rules ==> (x, z) in rules) &&
    (forall x, y {:trigger x in pages, y in pages} :: x in pages && y in pages && x != y ==> (x, y) in rules || (y, x) in rules)
  }

  /** Not being before is transitive on totally ordered pages. */
  lemma NotBeforeTransitive(rules: Rules, pages: set<nat>, x: nat, y: nat, z: nat)
    requires StrictTotalOn(rules, pages) && x in pages && y in pages && z in pages
    requires (x, y) !in rules && (y, z) !in rules
    ensures (x, z) !in rules
  {
  }

  lemma StrictTotalOnSub(rules: Rules, pages: set<nat>, sub: set<nat>)
    requires StrictTotalOn(rules, pages) && sub <= pages
    ensures StrictTotalOn(rules, sub)
  {
  }

  /** A permutation holds the same pages. */
  lemma PermutationPages(s: seq<nat>, t: seq<nat>)
    requires multiset(s) == multiset(t)
    ensures Pages(s) == Pages(t)
  {
    forall x
      ensures x in Pages(s) <==> x in Pages(t)
    {
      assert x in s <==> x in multiset(s);
      assert x in t <==> x in multiset(t);
    }
  }

  lemma SegmentMember(s: seq<nat>, start: nat, end: nat, k: nat)
    requires start <= k <= end < |s|
    ensures s[k] in Pages(s[start..end + 1])
  {
    assert s[start..end + 1][k - start] == s[k];
  }

  /** s[start..=i] is sorted against the rules, page j aside. */
  ghost predicate SortedExcept(rules: Rules, s: seq<nat>, start: nat, i: nat, j: nat)
    requires i < |s|
  {
    forall k, l :: start <= k < l <= i && k != j && l != j ==> (s[k], s[l]) !in rules
  }

  /** Page j has no rule putting it before a page of s[j+1..=i]. */
  ghost predicate NotBeforeAfter(rules: Rules, s: seq<nat>, j: nat, i: nat)
    requires i < |s|
  {
    forall l :: j < l <= i ==> (s[j], s[l]) !in rules
  }

  /** One swap of the insertion loop keeps its two invariants, one place to
      the left. */
  lemma InsertSwap(rules: Rules, s: seq<nat>, start: nat, end: nat, i: nat, j: nat)
    requires start < j <= i <= end < |s|
    requires StrictTotalOn(rules, Pages(s[start..end + 1]))
    requires (s[j - 1], s[j]) in rules
    requires SortedExcept(rules, s, start, i, j) && NotBeforeAfter(rules, s, j, i)
    ensures SortedExcept(rules, s[j - 1 := s[j]][j := s[j - 1]], start, i, j - 1)
    ensures NotBeforeAfter(rules, s[j - 1 := s[j]][j := s[j - 1]], j - 1, i)
  {
    SegmentMember(s, start, end, j - 1);
    SegmentMember(s, start, end, j);
  }

  /** When the insertion loop stops, s[start..=i] is sorted. */
  lemma InsertExit(rules: Rules, s: seq<nat>, start: nat, end: nat, i: nat, j: nat)
    requires start <= j <= i <= end < |s|
    requires StrictTotalOn(rules, Pages(s[start..end + 1]))
    requires j == start || (s[j - 1], s[j]) !in rules
    requires SortedExcept(rules, s, start, i, j) && NotBeforeAfter(rules, s, j, i)
    ensures SortedPrefix(rules, s, start, i + 1)
  {
    forall k | start <= k < j
      ensures (s[k], s[j]) !in rules
    {
      if k < j - 1 {
        SegmentMember(s, start, end, k);
        SegmentMember(s, start, end, j - 1);
        SegmentMember(s, start, end, j);
        NotBeforeTransitive(rules, Pages(s[start..end + 1]), s[k], s[j - 1], s[j]);
      }
    }
  }

  /** s[start..i) is sorted against the rules. */
  ghost predicate SortedPrefix(rules: Rules, s: seq<nat>, start: nat, i: nat)
    requires i <= |s|
  {
    forall k, l :: start <= k < l < i ==> (s[k], s[l]) !in rules
  }

  /** The insertion sort `quicksort` falls back to on at most eleven pages:
      each page is swapped left while the rule (left neighbour, page) holds.
      When the rules order the segment's pages strictly and totally, the
      segment ends up sorted against the rules. */
  method InsertionSort(a: array<nat>, rules: Rules, start: nat, end: nat)
    requires start < end < a.Length
    modifies a
    ensures multiset(a[start..end + 1]) == multiset(old(a[start..end + 1]))
    ensures a[..start] == old(a[..start]) && a[end + 1..] == old(a[end + 1..])
    ensures StrictTotalOn(rules, Pages(old(a[start..end + 1]))) ==> RuleSorted(rules, a[start..end + 1])
  {
    ghost var pages := Pages(a[start..end + 1]);
    for i := start + 1 to end + 1
      invariant multiset(a[start..end + 1]) == multiset(old(a[start..end + 1]))
      invariant a[..start] == old(a[..start]) && a[end + 1..] == old(a[end + 1..])
      invariant Pages(a[start..end + 1]) == pages
      invariant StrictTotalOn(rules, pages) ==> SortedPrefix(rules, a[..], start, i)
    {
      InsertOne(a, rules, start, end, i);
      PermutationPages(a[start..end + 1], old(a[start..end + 1]));
    }
    if StrictTotalOn(rules, pages) {
      SortedFromIndices(rules, a[..], start, end);
    }
  }

  /** One pass of the insertion loop: page i is swapped left while the rule
      (left neighbour, page) holds, extending the sorted prefix by one. */
  method InsertOne(a: array<nat>, rules: Rules, start: nat, end: nat, i: nat)
    requires start < i <= end < a.Length
    modifies a
    ensures multiset(a[start..end + 1]) == multiset(old(a[start..end + 1]))
    ensures a[..start] == old(a[..start]) && a[end + 1..] == old(a[end + 1..])
    ensures StrictTotalOn(rules, Pages(old(a[start..end + 1]))) && SortedPrefix(rules, old(a[..]), start, i) ==>
              SortedPrefix(rules, a[..], start, i + 1)
  {
    ghost var total := StrictTotalOn(rules, Pages(a[start..end + 1])) && SortedPrefix(rules, a[..], start, i);
    var j := i;
    while j > start && (a[j - 1], a[j]) in rules
      invariant start <= j <= i
      invariant multiset(a[start..end + 1]) == multiset(old(a[start..end + 1]))
      invariant a[..start] == old(a[..start]) && a[end + 1..] == old(a[end + 1..])
      invariant total ==> StrictTotalOn(rules, Pages(a[start..end + 1]))
      invariant total ==> SortedExcept(rules, a[..], start, i, j) && NotBeforeAfter(rules, a[..], j, i)
    {
      ghost var s := a[..];
      if total {
        InsertSwap(rules, s, start, end, i, j);
      }
      SwapInSegment(a, start, end, j - 1, j);
      assert a[..] == s[j - 1 := s[j]][j := s[j - 1]];
      PermutationPages(a[start..end + 1], s[start..end + 1]);
      j := j - 1;
    }
    if total {
      InsertExit(rules, a[..], start, end, i, j);
    }
  }

  lemma SortedFromIndices(rules: Rules, s: seq<nat>, start: nat, end: nat)
    requires start <= end < |s|
    requires SortedPrefix(rules, s, start, end + 1)
    ensures RuleSorted(rules, s[start..end + 1])
  {
    var t := s[start..end + 1];
    forall k, l | 0 <= k < l < |t|
      ensures (t[k], t[l]) !in rules
    {
      assert t[k] == s[start + k] && t[l] == s[start + l];
    }
  }

  /** Swapping two cells of a[start..end] keeps the segment's multiset and
      everything outside it. */
  method SwapInSegment(a: array<nat>, start: nat, end: nat, x: nat, y: nat)
    requires start <= x <= end < a.Length && start <= y <= end
    modifies a
    ensures a[x] == old(a[y]) && a[y] == old(a[x])
    ensures forall k :: 0 <= k < a.Length && k != x && k != y ==> a[k] == old(a[k])
    ensures multiset(a[start..end + 1]) == multiset(old(a[start..end + 1]))
    ensures a[..start] == old(a[..start]) && a[end + 1..] == old(a[end + 1..])
  {
    ghost var before := a[..];
    a[x], a[y] := a[y], a[x];
    assert a[..] == before[x := before[y]][y := before[x]];
    SwapSlices(before, a[..], start, end, x, y);
  }

  lemma SwapSlices(s: seq<nat>, t: seq<nat>, start: nat, end: nat, x: nat, y: nat)
    requires start <= x <= end < |s| && start <= y <= end
    requires t == s[x := s[y]][y := s[x]]
    ensures multiset(t[start..end + 1]) == multiset(s[start..end + 1])
    ensures t[..start] == s[..start] && t[end + 1..] == s[end + 1..]
  {
    var seg := s[start..end + 1];
    assert t[start..end + 1] == seg[x - start := seg[y - start]][y - start := seg[x - start]];
  }

  /** The partition step of `quicksort`, pivot a[end]: pages with the rule
      (pivot, page) go to its left. Returns the pivot's final index. */
  method Partition(a: array<nat>, rules: Rules, start: nat, end: nat) returns (p: nat)
    requires start < end < a.Length
    modifies a
    ensures start <= p <= end
    ensures multiset(a[start..end + 1]) == multiset(old(a[start..end + 1]))
    ensures a[..start] == old(a[..start]) && a[end + 1..] == old(a[end + 1..])
    ensures forall k :: start <= k < p ==> (a[p], a[k]) in rules
    ensures forall k :: p < k <= end ==> (a[p], a[k]) !in rules
  {
    var pivot := a[end];
    p := start;
    for j := start to end
      invariant start <= p <= j
      invariant a[end] == pivot
      invariant multiset(a[start..end + 1]) == multiset(old(a[start..end + 1]))
      invariant a[..start] == old(a[..start]) && a[end + 1..] == old(a[end + 1..])
      invariant forall k :: start <= k < p ==> (pivot, a[k]) in rules
      invariant forall k :: p <= k < j ==> (pivot, a[k]) !in rules
    {
      if (pivot, a[j]) in rules {
        SwapInSegment(a, start, end, p, j);
        p := p + 1;
      }
    }
    SwapInSegment(a, start, end, p, end);
  }

  /** `quicksort` on a[start..=end]: it only swaps cells of that segment, so
      the segment is a permutation of what it was and the rest of the array
      is untouched; it returns at once when start >= end; and when the rules
      order the segment's pages strictly and totally, the segment ends up
      sorted against them. */
  method Quicksort(a: array<nat>, rules: Rules, start: nat, end: nat)
    requires end < a.Length
    modifies a
    ensures start < end ==> multiset(a[start..end + 1]) == multiset(old(a[start..end + 1]))
    ensures start < end ==> a[..start] == old(a[..start]) && a[end + 1..] == old(a[end + 1..])
    ensures start < end && StrictTotalOn(rules, Pages(old(a[start..end + 1]))) ==> RuleSorted(rules, a[start..end + 1])
    ensures start >= end ==> a[..] == old(a[..])
    decreases if start < end then end - start else 0, 2
  {
    if start >= end {
      return;
    }
    if end - start <= 10 {
      InsertionSort(a, rules, start, end);
    } else {
      PartitionAndSort(a, rules, start, end);
    }
  }

  /** The large-segment branch of `quicksort`: partition, then sort the
      pages left of the pivot and those right of it. */
  method PartitionAndSort(a: array<nat>, rules: Rules, start: nat, end: nat)
    requires start + 10 < end < a.Length
    modifies a
    ensures multiset(a[start..end + 1]) == multiset(old(a[start..end + 1]))
    ensures a[..start] == old(a[..start]) && a[end + 1..] == old(a[end + 1..])
    ensures StrictTotalOn(rules, Pages(old(a[start..end + 1]))) ==> RuleSorted(rules, a[start..end + 1])
    decreases end - start, 1
  {
    ghost var s0 := a[..];
    var p := Partition(a, rules, start, end);
    ghost var s1 := a[..];
    if p > 0 {
      QuicksortPart(a, rules, start, end, start, p - 1);
    }
    ghost var s2 := a[..];
    QuicksortPart(a, rules, start, end, p + 1, end);
    ghost var s3 := a[..];
    AfterRecursion(rules, s0, s1, s2, s3, start, end, p);
  }

  /** A recursive call of `quicksort` on the part a[lo..=hi] of
      a[start..=end]. */
  method QuicksortPart(a: array<nat>, rules: Rules, start: nat, end: nat, lo: nat, hi: nat)
    requires start < end < a.Length && start <= lo <= hi + 1 && hi <= end && (lo > start || hi < end)
    modifies a
    ensures multiset(a[lo..hi + 1]) == multiset(old(a[lo..hi + 1]))
    ensures a[..lo] == old(a[..lo]) && a[hi + 1..] == old(a[hi + 1..])
    ensures StrictTotalOn(rules, Pages(old(a[lo..hi + 1]))) ==> RuleSorted(rules, a[lo..hi + 1])
    decreases end - start, 0
  {
    Quicksort(a, rules, lo, hi);
  }

  /** After partitioning around a[p] and sorting both sides, the segment is
      a permutation of the original one and, for totally ordered pages,
      sorted. */
  lemma AfterRecursion(rules: Rules, s0: seq<nat>, s1: seq<nat>, s2: seq<nat>, s3: seq<nat>, start: nat, end: nat, p: nat)
    requires |s0| == |s1| == |s2| == |s3| && start <= p <= end < |s0|
    requires multiset(s1[start..end + 1]) == multiset(s0[start..end + 1])
    requires s1[..start] == s0[..start] && s1[end + 1..] == s0[end + 1..]
    requires forall k :: start <= k < p ==> (s1[p], s1[k]) in rules
    requires forall k :: p < k <= end ==> (s1[p], s1[k]) !in rules
    requires multiset(s2[start..p]) == multiset(s1[start..p])
    requires s2[..start] == s1[..start] && s2[p..] == s1[p..]
    requires StrictTotalOn(rules, Pages(s1[start..p])) ==> RuleSorted(rules, s2[start..p])
    requires multiset(s3[p + 1..end + 1]) == multiset(s2[p + 1..end + 1])
    requires s3[..p + 1] == s2[..p + 1] && s3[end + 1..] == s2[end + 1..]
    requires StrictTotalOn(rules, Pages(s2[p + 1..end + 1])) ==> RuleSorted(rules, s3[p + 1..end + 1])
    ensures multiset(s3[start..end + 1]) == multiset(s0[start..end + 1])
    ensures s3[..start] == s0[..start] && s3[end + 1..] == s0[end + 1..]
    ensures StrictTotalOn(rules, Pages(s0[start..end + 1])) ==> RuleSorted(rules, s3[start..end + 1])
  {
    RecursionFrames(s1, s2, s3, start, end, p);
    var seg1, seg3, m := s1[start..end + 1], s3[start..end + 1], p - start;
    assert seg1[..m] == s1[start..p] && seg1[m + 1..] == s1[p + 1..end + 1];
    assert seg3[..m] == s3[start..p] && seg3[m + 1..] == s3[p + 1..end + 1];
    PivotInSegment(rules, s1, seg1, start, end, p);
    SortedAfterPartition(rules, seg1, seg3, m);
    PermutationPages(seg1, s0[start..end + 1]);
  }

  /** The partition facts, counted from the start of the segment. */
  lemma PivotInSegment(rules: Rules, s: seq<nat>, seg: seq<nat>, start: nat, end: nat, p: nat)
    requires start <= p <= end < |s| && seg == s[start..end + 1]
    requires forall k :: start <= k < p ==> (s[p], s[k]) in rules
    requires forall k :: p < k <= end ==> (s[p], s[k]) !in rules
    ensures forall k :: 0 <= k < p - start ==> (seg[p - start], seg[k]) in rules
    ensures forall k :: p - start < k < |seg| ==> (seg[p - start], seg[k]) !in rules
  {
    forall k | 0 <= k < end + 1 - start
      ensures seg[k] == s[start + k]
    {
    }
  }

  /** What the two recursive calls leave alone. */
  lemma RecursionFrames(s1: seq<nat>, s2: seq<nat>, s3: seq<nat>, start: nat, end: nat, p: nat)
    requires |s1| == |s2| == |s3| && start <= p <= end < |s1|
    requires s2[..start] == s1[..start] && s2[p..] == s1[p..]
    requires s3[..p + 1] == s2[..p + 1] && s3[end + 1..] == s2[end + 1..]
    ensures s2[p + 1..end + 1] == s1[p + 1..end + 1]
    ensures s3[start..p] == s2[start..p]
    ensures s3[p] == s1[p]
    ensures s3[..start] == s1[..start] && s3[end + 1..] == s1[end + 1..]
  {
    forall k | p <= k < |s1|
      ensures s2[k] == s1[k]
    {
      assert s2[k] == s2[p..][k - p] && s1[k] == s1[p..][k - p];
    }
    forall k | 0 <= k < start
      ensures s2[k] == s1[k]
    {
      assert s2[k] == s2[..start][k] && s1[k] == s1[..start][k];
    }
    forall k | 0 <= k <= p
      ensures s3[k] == s2[k]
    {
      assert s3[k] == s3[..p + 1][k] && s2[k] == s2[..p + 1][k];
    }
    forall k | end < k < |s1|
      ensures s3[k] == s2[k]
    {
      assert s3[k] == s3[end + 1..][k - end - 1] && s2[k] == s2[end + 1..][k - end - 1];
    }
    assert s2[p + 1..end + 1] == s1[p + 1..end + 1];
    assert s3[start..p] == s2[start..p];
    assert s3[..start] == s1[..start];
    assert s3[end + 1..] == s1[end + 1..];
  }

  /** A segment partitioned around seg1[m], then each side permuted (and
      sorted, for totally ordered pages): the whole is a permutation of the
      segment and, for totally ordered pages, sorted. */
  lemma SortedAfterPartition(rules: Rules, seg1: seq<nat>, seg3: seq<nat>, m: nat)
    requires |seg1| == |seg3| && m < |seg1| && seg3[m] == seg1[m]
    requires multiset(seg3[..m]) == multiset(seg1[..m]) && multiset(seg3[m + 1..]) == multiset(seg1[m + 1..])
    requires forall k :: 0 <= k < m ==> (seg1[m], seg1[k]) in rules
    requires forall k :: m < k < |seg1| ==> (seg1[m], seg1[k]) !in rules
    requires StrictTotalOn(rules, Pages(seg1[..m])) ==> RuleSorted(rules, seg3[..m])
    requires StrictTotalOn(rules, Pages(seg1[m + 1..])) ==> RuleSorted(rules, seg3[m + 1..])
    ensures multiset(seg3) == multiset(seg1)
    ensures StrictTotalOn(rules, Pages(seg1)) ==> RuleSorted(rules, seg3)
  {
    assert seg1 == seg1[..m] + [seg1[m]] + seg1[m + 1..];
    assert seg3 == seg3[..m] + [seg3[m]] + seg3[m + 1..];
    if StrictTotalOn(rules, Pages(seg1)) {
      PermutationPages(seg3, seg1);
      StrictTotalOnSub(rules, Pages(seg1), Pages(seg1[..m]));
      StrictTotalOnSub(rules, Pages(seg1), Pages(seg1[m + 1..]));
      forall x | x in seg3[..m]
        ensures (seg3[m], x) in rules
      {
        assert x in multiset(seg1[..m]);
        var k :| 0 <= k < m && seg1[..m][k] == x;
      }
      forall x | x in seg3[m + 1..]
        ensures (seg3[m], x) !in rules
      {
        assert x in multiset(seg1[m + 1..]);
        var k :| 0 <= k < |seg1| - m - 1 && seg1[m + 1..][k] == x;
        assert seg1[m + 1 + k] == x;
      }
      CombineSorted(rules, seg3, m);
    }
  }

  /** A pivot with the pages it precedes on its left, the others on its
      right, and both sides sorted: the whole is sorted. */
  lemma CombineSorted(rules: Rules, s: seq<nat>, m: nat)
    requires m < |s| && StrictTotalOn(rules, Pages(s))
    requires RuleSorted(rules, s[..m]) && RuleSorted(rules, s[m + 1..])
    requires forall x :: x in s[..m] ==> (s[m], x) in rules
    requires forall x :: x in s[m + 1..] ==> (s[m], x) !in rules
    ensures RuleSorted(rules, s)
  {
    forall k, l | 0 <= k < l < |s|
      ensures (s[k], s[l]) !in rules
    {
      assert s[k] in Pages(s) && s[l] in Pages(s) && s[m] in Pages(s);
      if l < m {
        assert s[..m][k] == s[k] && s[..m][l] == s[l];
      } else if k > m {
        assert s[m + 1..][k - m - 1] == s[k] && s[m + 1..][l - m - 1] == s[l];
      } else if l == m {
        assert s[..m][k] == s[k];
      } else if k == m {
        assert s[m + 1..][l - m - 1] == s[l];
      } else {
        assert s[..m][k] == s[k];
        assert s[m + 1..][l - m - 1] == s[l];
      }
    }
  }

  // ----- Part two -----

  /** What part two leaves in place of `update`: an update already in order
      is untouched; any other is a permutation of itself, sorted against the
      rules when they order its pages strictly and totally. */
  ghost predicate Reordered(rules: Rules, update: seq<nat>, r: seq<nat>)
  {
    multiset(r) == multiset(update) &&
    (InOrder(rules, update) ==> r == update) &&
    (!InOrder(rules, update) && StrictTotalOn(rules, Pages(update)) ==> RuleSorted(rules, r))
  }

  /** The sum `part_two` reports: the middle page of every reordered update
      that broke a rule. */
  function MiddleSum(rules: Rules, updates: seq<seq<nat>>, reordered: seq<seq<nat>>): nat
    requires |updates| <= |reordered|
    requires forall k :: 0 <= k < |updates| ==> |reordered[k]| == |updates[k]|
  {
    if updates == [] then 0
    else
      var n := |updates| - 1;
      var u, r := updates[n], reordered[n];
      MiddleSum(rules, updates[..n], reordered) +
      (if InOrder(rules, u) then 0 else assert |u| >= 2 by { assert !InOrder(rules, u); } r[|r| / 2])
  }

  /** `part_two`: every update that breaks a rule is quicksorted in place
      and its middle page added. Returns the sum and the updates as the loop
      leaves them. */
  method PartTwo(rules: Rules, updates: seq<seq<nat>>) returns (sum: nat, reordered: seq<seq<nat>>)
    ensures |reordered| == |updates|
    ensures forall k :: 0 <= k < |updates| ==> Reordered(rules, updates[k], reordered[k])
    ensures forall k :: 0 <= k < |updates| ==> |reordered[k]| == |updates[k]|
    ensures sum == MiddleSum(rules, updates, reordered)
  {
    sum := 0;
    reordered := [];
    for k := 0 to |updates|
      invariant |reordered| == k
      invariant forall i :: 0 <= i < k ==> Reordered(rules, updates[i], reordered[i])
      invariant forall i :: 0 <= i < k ==> |reordered[i]| == |updates[i]|
      invariant sum == MiddleSum(rules, updates[..k], reordered)
    {
      var update := updates[k];
      assert updates[..k + 1][..k] == updates[..k];
      var ok, sorted := ReorderUpdate(rules, update);
      MiddleSumPrefix(rules, updates[..k], reordered, [sorted]);
      reordered := reordered + [sorted];
      if !ok {
        sum := sum + sorted[|sorted| / 2];
      }
    }
    assert updates[..|updates|] == updates;
  }

  /** One update of `part_two`: the order check, then quicksort on a copy
      when the update breaks a rule. */
  method ReorderUpdate(rules: Rules, update: seq<nat>) returns (ok: bool, sorted: seq<nat>)
    ensures ok <==> InOrder(rules, update)
    ensures |sorted| == |update| && Reordered(rules, update, sorted)
  {
    ok := CheckOrder(rules, update);
    sorted := update;
    if !ok {
      var a := new nat[|update|](i requires 0 <= i < |update| => update[i]);
      assert a[..] == update && a[0..|update|] == update;
      Quicksort(a, rules, 0, |update| - 1);
      assert a[0..|update|] == a[..];
      sorted := a[..];
    }
  }

  /** Reordered updates past the ones summed do not change the sum. */
  lemma {:induction false} MiddleSumPrefix(rules: Rules, updates: seq<seq<nat>>, reordered: seq<seq<nat>>, more: seq<seq<nat>>)
    requires |updates| <= |reordered|
    requires forall k :: 0 <= k < |updates| ==> |reordered[k]| == |updates[k]|
    ensures MiddleSum(rules, updates, reordered + more) == MiddleSum(rules, updates, reordered)
  {
    if updates != [] {
      var n := |updates| - 1;
      assert (reordered + more)[n] == reordered[n];
      MiddleSumPrefix(rules, updates[..n], reordered, more);
    }
  }

  /** For pages the rules order strictly and totally, there is only one
      sorted arrangement: whatever the pivots, part two's result is
      determined by the rules and the update. */
  lemma {:induction false} SortedUnique(rules: Rules, s: seq<nat>, t: seq<nat>)
    requires multiset(s) == multiset(t) && StrictTotalOn(rules, Pages(s))
    requires RuleSorted(rules, s) && RuleSorted(rules, t)
    ensures s == t
    decreases |s|
  {
    assert |s| == |multiset(s)| == |t|;
    if |s| > 0 {
      SortedSameFirst(rules, s, t);
      SameTails(s, t);
      assert Pages(s[1..]) <= Pages(s);
      StrictTotalOnSub(rules, Pages(s), Pages(s[1..]));
      SortedTail(rules, s);
      SortedTail(rules, t);
      SortedUnique(rules, s[1..], t[1..]);
      assert s == [s[0]] + s[1..] && t == [t[0]] + t[1..];
    }
  }

  lemma SameTails(s: seq<nat>, t: seq<nat>)
    requires |s| > 0 && |t| > 0 && s[0] == t[0] && multiset(s) == multiset(t)
    ensures multiset(s[1..]) == multiset(t[1..])
  {
    assert s == [s[0]] + s[1..] && t == [t[0]] + t[1..];
    assert multiset(s[1..]) == multiset(s) - multiset{s[0]};
    assert multiset(t[1..]) == multiset(t) - multiset{t[0]};
  }

  lemma SortedTail(rules: Rules, s: seq<nat>)
    requires |s| > 0 && RuleSorted(rules, s)
    ensures RuleSorted(rules, s[1..])
  {
    forall k, l | 0 <= k < l < |s| - 1
      ensures (s[1..][k], s[1..][l]) !in rules
    {
      assert s[1..][k] == s[k + 1] && s[1..][l] == s[l + 1];
    }
  }

  /** Two sorted arrangements of the same pages start with the same page:
      the one every other page is before. */
  lemma SortedSameFirst(rules: Rules, s: seq<nat>, t: seq<nat>)
    requires multiset(s) == multiset(t) && StrictTotalOn(rules, Pages(s))
    requires RuleSorted(rules, s) && RuleSorted(rules, t)
    requires |s| > 0 && |t| > 0
    ensures s[0] == t[0]
  {
    assert t[0] in multiset(s) && s[0] in multiset(t);
    var l :| 0 <= l < |s| && s[l] == t[0];
    var l2 :| 0 <= l2 < |t| && t[l2] == s[0];
    assert s[0] in Pages(s) && t[0] in Pages(s);
  }

  function Reverse(s: seq<nat>): (r: seq<nat>)
    ensures |r| == |s|
    ensures forall i :: 0 <= i < |s| ==> r[i] == s[|s| - 1 - i]
  {
    if s == [] then [] else Reverse(s[1..]) + [s[0]]
  }

  /** The rules' order is the reverse of the one quicksort produces: a
      sequence is sorted against the rules exactly when, read backwards, it
      breaks no rule. */
  lemma SortedIsReversedOrder(rules: Rules, s: seq<nat>)
    ensures RuleSorted(rules, s) <==> InOrder(rules, Reverse(s))
  {
    if RuleSorted(rules, s) {
      SortedReversedInOrder(rules, s);
    }
    if InOrder(rules, Reverse(s)) {
      InOrderReversedSorted(rules, s);
    }
  }

  lemma SortedReversedInOrder(rules: Rules, s: seq<nat>)
    requires RuleSorted(rules, s)
    ensures InOrder(rules, Reverse(s))
  {
    var r := Reverse(s);
    forall i, j | 0 <= i < j < |r|
      ensures (r[j], r[i]) !in rules
    {
      var k, l := |s| - 1 - j, |s| - 1 - i;
      assert r[j] == s[k] && r[i] == s[l] && k < l;
    }
  }

  lemma InOrderReversedSorted(rules: Rules, s: seq<nat>)
    requires InOrder(rules, Reverse(s))
    ensures RuleSorted(rules, s)
  {
    var r := Reverse(s);
    forall k, l | 0 <= k < l < |s|
      ensures (s[k], s[l]) !in rules
    {
      var i, j := |s| - 1 - l, |s| - 1 - k;
      assert r[i] == s[l] && r[j] == s[k] && i < j;
    }
  }

  /** For an odd number of pages both readings share their middle page,
      the one part two adds. */
  lemma ReversedMiddle(s: seq<nat>)
    requires |s| % 2 == 1
    ensures Reverse(s)[|s| / 2] == s[|s| / 2]
  {
    assert |s| - 1 - |s| / 2 == |s| / 2;
  }
}
