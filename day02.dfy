/** Day 2: red-nosed reports. A report is a list of levels; it is safe when
    the levels change gradually (by 1 to 3) and always in one direction. Part
    two tolerates one bad level. */
module Day02 {
  import opened Common

  /** The change from level i to level i + 1. */
  function Diff(levels: seq<nat>, i: nat): int
    requires i + 1 < |levels|
  {
    levels[i + 1] as int - levels[i] as int
  }

  /** Every adjacent difference has magnitude 1 to 3. */
  predicate Gradual(levels: seq<nat>)
  {
    forall i :: 0 <= i < |levels| - 1 ==> 1 <= Abs(Diff(levels, i)) <= 3
  }

  /** The levels strictly increase throughout or strictly decrease throughout. */
  predicate Monotone(levels: seq<nat>)
  {
    (forall i :: 0 <= i < |levels| - 1 ==> levels[i] < levels[i + 1]) ||
    (forall i :: 0 <= i < |levels| - 1 ==> levels[i] > levels[i + 1])
  }

  predicate Safe(levels: seq<nat>)
  {
    Gradual(levels) && Monotone(levels)
  }

  /** `is_valid_sequence` as written: it reads `nums[1]`, so a report with fewer
      than two levels panics (None); otherwise it compares every difference
      with the direction of the first one. */
  method IsValidSequence(nums: seq<nat>) returns (valid: Option<bool>)
    ensures valid.None? <==> |nums| < 2
    ensures valid.Some? ==> (valid.value <==> Safe(nums))
  {
    if |nums| < 2 {
      return None;
    }
    var firstDiff := Diff(nums, 0);
    if Abs(firstDiff) < 1 || Abs(firstDiff) > 3 {
      assert !Gradual(nums) by {
        assert 0 < |nums| - 1;
      }
      return Some(false);
    }
    var shouldIncrease := firstDiff > 0;
    for i := 1 to |nums| - 1
      invariant forall j :: 0 <= j < i ==>
        1 <= Abs(Diff(nums, j)) <= 3 && (Diff(nums, j) > 0) == shouldIncrease
    {
      var diff := Diff(nums, i);
      if Abs(diff) < 1 || Abs(diff) > 3 || (diff > 0) != shouldIncrease {
        assert !Safe(nums) by {
          if Gradual(nums) {
            assert (nums[1] > nums[0]) != (nums[i + 1] > nums[i]);
          }
        }
        return Some(false);
      }
    }
    if shouldIncrease {
      assert forall j :: 0 <= j < |nums| - 1 ==> nums[j] < nums[j + 1] by {
        forall j | 0 <= j < |nums| - 1 ensures nums[j] < nums[j + 1] {
          assert Diff(nums, j) > 0;
        }
      }
    } else {
      assert forall j :: 0 <= j < |nums| - 1 ==> nums[j] > nums[j + 1] by {
        forall j | 0 <= j < |nums| - 1 ensures nums[j] > nums[j + 1] {
          assert Diff(nums, j) < 0;
        }
      }
    }
    return Some(true);
  }

  /** The intended check: a report of fewer than two levels has no adjacent
      pair to break the rules, so it is safe. */
  method IsSafe(levels: seq<nat>) returns (safe: bool)
    ensures safe <==> Safe(levels)
  {
    if |levels| < 2 {
      return true;
    }
    var valid := IsValidSequence(levels);
    safe := valid.value;
  }

  /** The report without its level at index i. */
  function Remove(levels: seq<nat>, i: nat): (r: seq<nat>)
    requires i < |levels|
    ensures |r| == |levels| - 1
    ensures forall j :: 0 <= j < |r| ==> r[j] == if j < i then levels[j] else levels[j + 1]
  {
    levels[..i] + levels[i + 1..]
  }

  /** Safe as it is, or safe once one level is removed. */
  predicate Tolerable(levels: seq<nat>)
  {
    Safe(levels) || exists i :: 0 <= i < |levels| && Safe(Remove(levels, i))
  }

  /** The filter of part two: the report itself, then each single removal in
      turn (with the intended check). */
  method Dampened(levels: seq<nat>) returns (ok: bool)
    ensures ok <==> Tolerable(levels)
  {
    ok := IsSafe(levels);
    if ok {
      return;
    }
    for i := 0 to |levels|
      invariant forall j :: 0 <= j < i ==> !Safe(Remove(levels, j))
    {
      ok := IsSafe(Remove(levels, i));
      if ok {
        return;
      }
    }
  }

  /** The filter of part two as written: it panics on a report of fewer than
      two levels, and on an unsafe report of exactly two levels, whose first
      removal leaves a single level. */
  method DampenedAsWritten(levels: seq<nat>) returns (ok: Option<bool>)
    ensures ok.None? <==> |levels| < 2 || (|levels| == 2 && !Safe(levels))
    ensures ok.Some? ==> (ok.value <==> Tolerable(levels))
  {
    var valid := IsValidSequence(levels);
    if valid.None? || valid.value {
      return valid;
    }
    for i := 0 to |levels|
      invariant forall j :: 0 <= j < i ==> !Safe(Remove(levels, j))
      invariant i > 0 ==> |levels| > 2
    {
      valid := IsValidSequence(Remove(levels, i));
      if valid.None? || valid.value {
        return valid;
      }
    }
    return Some(false);
  }

  /** "1 10": unsafe, but dropping either level leaves a one-level report,
      which is safe; the filter as written panics on it instead. */
  lemma TwoLevelReport()
    ensures |[1, 10]| == 2 && !Safe([1, 10])
    ensures Tolerable([1, 10])
  {
    var r: seq<nat> := [1, 10];
    assert Abs(Diff(r, 0)) == 9;
    assert Remove(r, 0) == [10];
    assert Safe(Remove(r, 0));
  }

  /** The number of safe reports. */
  function SafeCount(reports: seq<seq<nat>>): nat
  {
    if |reports| == 0 then 0
    else SafeCount(reports[..|reports| - 1]) + (if Safe(reports[|reports| - 1]) then 1 else 0)
  }

  /** The number of tolerable reports. */
  function TolerableCount(reports: seq<seq<nat>>): nat
  {
    if |reports| == 0 then 0
    else TolerableCount(reports[..|reports| - 1]) + (if Tolerable(reports[|reports| - 1]) then 1 else 0)
  }

  /** Every report part one counts is counted by part two. */
  lemma {:induction false} SafeAtMostTolerable(reports: seq<seq<nat>>)
    ensures SafeCount(reports) <= TolerableCount(reports)
    decreases |reports|
  {
    if |reports| > 0 {
      SafeAtMostTolerable(reports[..|reports| - 1]);
    }
  }

  method PartOne(reports: seq<seq<nat>>) returns (count: nat)
    ensures count == SafeCount(reports)
  {
    count := 0;
    for r := 0 to |reports|
      invariant count == SafeCount(reports[..r])
    {
      var safe := IsSafe(reports[r]);
      assert reports[..r + 1][..r] == reports[..r];
      if safe {
        count := count + 1;
      }
    }
    assert reports[..|reports|] == reports;
  }

  method PartTwo(reports: seq<seq<nat>>) returns (count: nat)
    ensures count == TolerableCount(reports)
  {
    count := 0;
    for r := 0 to |reports|
      invariant count == TolerableCount(reports[..r])
    {
      var ok := Dampened(reports[r]);
      assert reports[..r + 1][..r] == reports[..r];
      if ok {
        count := count + 1;
      }
    }
    assert reports[..|reports|] == reports;
  }
}
