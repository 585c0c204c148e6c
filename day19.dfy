/** Day 19: linen layout. A design is a string of stripe colours; it can be
    made by laying towel patterns end to end. The solver counts, with a memo
    keyed by position, the ways to do so. */
module Day19 {

  /** The source recurses forever on an empty pattern (it never advances), so
      every pattern must have at least one stripe. */
  predicate NonEmptyPatterns(patterns: seq<string>)
  {
    forall k :: 0 <= k < |patterns| ==> |patterns[k]| > 0
  }

  /** The number of arrangements of design[i..]: one at the end of the design,
      otherwise the sum over the patterns that start design[i..] of the count
      after that pattern. A pattern listed twice counts twice. */
  function Count(design: string, patterns: seq<string>, i: nat): nat
    requires NonEmptyPatterns(patterns) && i <= |design|
    decreases |design| - i, |patterns| + 1
  {
    if i == |design| then 1 else Tries(design, patterns, i, |patterns|)
  }

  /** The contribution of the first k patterns at position i. */
  function Tries(design: string, patterns: seq<string>, i: nat, k: nat): nat
    requires NonEmptyPatterns(patterns) && i < |design| && k <= |patterns|
    decreases |design| - i, k
  {
    if k == 0 then 0
    else
      var p := patterns[k - 1];
      Tries(design, patterns, i, k - 1)
        + (if p <= design[i..] then Count(design, patterns, i + |p|) else 0)
  }

  /** The patterns named by ws, laid end to end. */
  function Join(patterns: seq<string>, ws: seq<nat>): string
    requires forall j :: 0 <= j < |ws| ==> ws[j] < |patterns|
  {
    if |ws| == 0 then [] else patterns[ws[0]] + Join(patterns, ws[1..])
  }

  /** ws is a choice of patterns that lays out design[i..] exactly. */
  predicate IsLayout(design: string, patterns: seq<string>, i: nat, ws: seq<nat>)
  {
    i <= |design| &&
    (forall j :: 0 <= j < |ws| ==> ws[j] < |patterns|) &&
    Join(patterns, ws) == design[i..]
  }

  /** Some pattern among the first k that starts design[i..] has a positive
      count after it whenever their contribution is positive. */
  lemma {:induction false} PositiveTry(design: string, patterns: seq<string>, i: nat, k: nat) returns (j: nat)
    requires NonEmptyPatterns(patterns) && i < |design| && k <= |patterns|
    requires Tries(design, patterns, i, k) > 0
    ensures j < k && patterns[j] <= design[i..]
    ensures Count(design, patterns, i + |patterns[j]|) > 0
    decreases k
  {
    var p := patterns[k - 1];
    if p <= design[i..] && Count(design, patterns, i + |p|) > 0 {
      j := k - 1;
    } else {
      j := PositiveTry(design, patterns, i, k - 1);
    }
  }

  /** A pattern among the first k that starts design[i..] contributes its
      whole count. */
  lemma {:induction false} TryContributes(design: string, patterns: seq<string>, i: nat, k: nat, j: nat)
    requires NonEmptyPatterns(patterns) && i < |design| && j < k <= |patterns|
    requires patterns[j] <= design[i..]
    ensures Tries(design, patterns, i, k) >= Count(design, patterns, i + |patterns[j]|)
    decreases k
  {
    if j < k - 1 {
      TryContributes(design, patterns, i, k - 1, j);
    }
  }

  /** A positive count comes with a layout. */
  lemma {:induction false} LayoutOf(design: string, patterns: seq<string>, i: nat) returns (ws: seq<nat>)
    requires NonEmptyPatterns(patterns) && i <= |design|
    requires Count(design, patterns, i) > 0
    ensures IsLayout(design, patterns, i, ws)
    decreases |design| - i
  {
    if i == |design| {
      ws := [];
    } else {
      var j := PositiveTry(design, patterns, i, |patterns|);
      var p := patterns[j];
      var rest := LayoutOf(design, patterns, i + |p|);
      ws := [j] + rest;
      assert ws[1..] == rest;
      assert design[i..] == p + design[i + |p|..];
    }
  }

  /** A layout makes the count positive. */
  lemma {:induction false} LayoutCounts(design: string, patterns: seq<string>, i: nat, ws: seq<nat>)
    requires NonEmptyPatterns(patterns) && IsLayout(design, patterns, i, ws)
    ensures Count(design, patterns, i) > 0
    decreases |ws|
  {
    if i < |design| {
      var j := ws[0];
      var p := patterns[j];
      var rest := Join(patterns, ws[1..]);
      assert design[i..] == p + rest;
      assert p <= design[i..];
      assert design[i + |p|..] == rest;
      LayoutCounts(design, patterns, i + |p|, ws[1..]);
      TryContributes(design, patterns, i, |patterns|, j);
    }
  }

  /** A design counts as possible exactly when some layout makes it. */
  lemma PositiveIffLayout(design: string, patterns: seq<string>)
    requires NonEmptyPatterns(patterns)
    ensures Count(design, patterns, 0) > 0 <==> exists ws :: IsLayout(design, patterns, 0, ws)
  {
    if Count(design, patterns, 0) > 0 {
      var ws := LayoutOf(design, patterns, 0);
    }
    if ws :| IsLayout(design, patterns, 0, ws) {
      LayoutCounts(design, patterns, 0, ws);
    }
  }

  /** Two copies of the same pattern give two arrangements of it. */
  lemma DuplicatePatternsCountTwice()
    ensures Count("w", ["w", "w"], 0) == 2
  {
    var d, ps := "w", ["w", "w"];
    assert Count(d, ps, 1) == 1;
    assert ps[0] <= d[0..];
    assert Tries(d, ps, 0, 1) == 1;
  }

  /** Every memo entry holds the count for its index. */
  predicate MemoValid(design: string, patterns: seq<string>, memo: map<nat, nat>)
    requires NonEmptyPatterns(patterns)
  {
    forall j :: j in memo ==> j <= |design| && memo[j] == Count(design, patterns, j)
  }

  /** `count_arrangements_memo`: the count at i, with the memo extended by the
      indices it solved and still holding only correct counts. */
  method CountMemo(design: string, i: nat, patterns: seq<string>, memo: map<nat, nat>)
    returns (count: nat, memo': map<nat, nat>)
    requires NonEmptyPatterns(patterns) && i <= |design|
    requires MemoValid(design, patterns, memo)
    ensures count == Count(design, patterns, i)
    ensures MemoValid(design, patterns, memo') && memo.Keys <= memo'.Keys
    decreases |design| - i
  {
    if i in memo {
      return memo[i], memo;
    }
    if i == |design| {
      return 1, memo;
    }
    var total := 0;
    var remaining := design[i..];
    memo' := memo;
    for k := 0 to |patterns|
      invariant total == Tries(design, patterns, i, k)
      invariant MemoValid(design, patterns, memo') && memo.Keys <= memo'.Keys
    {
      var pattern := patterns[k];
      if pattern <= remaining {
        var c;
        c, memo' := CountMemo(design, i + |pattern|, patterns, memo');
        total := total + c;
      }
    }
    memo' := memo'[i := total];
    count := total;
  }

  /** `count_arrangements`: starts from an empty memo. */
  method CountArrangements(design: string, patterns: seq<string>) returns (count: nat)
    requires NonEmptyPatterns(patterns)
    ensures count == Count(design, patterns, 0)
  {
    var memo;
    count, memo := CountMemo(design, 0, patterns, map[]);
  }

  /** How many of the designs have at least one arrangement. */
  function Possible(designs: seq<string>, patterns: seq<string>): nat
    requires NonEmptyPatterns(patterns)
  {
    if |designs| == 0 then 0
    else
      var last := designs[|designs| - 1];
      Possible(designs[..|designs| - 1], patterns) + (if Count(last, patterns, 0) > 0 then 1 else 0)
  }

  /** The arrangements of all designs together. */
  function Arrangements(designs: seq<string>, patterns: seq<string>): nat
    requires NonEmptyPatterns(patterns)
  {
    if |designs| == 0 then 0
    else Arrangements(designs[..|designs| - 1], patterns) + Count(designs[|designs| - 1], patterns, 0)
  }

  /** Every possible design has at least one arrangement, so part one never
      exceeds part two. */
  lemma {:induction false} PossibleAtMostArrangements(designs: seq<string>, patterns: seq<string>)
    requires NonEmptyPatterns(patterns)
    ensures Possible(designs, patterns) <= Arrangements(designs, patterns)
    decreases |designs|
  {
    if |designs| > 0 {
      PossibleAtMostArrangements(designs[..|designs| - 1], patterns);
    }
  }

  method PartOne(designs: seq<string>, patterns: seq<string>) returns (count: nat)
    requires NonEmptyPatterns(patterns)
    ensures count == Possible(designs, patterns)
  {
    count := 0;
    for d := 0 to |designs|
      invariant count == Possible(designs[..d], patterns)
    {
      var n := CountArrangements(designs[d], patterns);
      assert designs[..d + 1][..d] == designs[..d];
      if n > 0 {
        count := count + 1;
      }
    }
    assert designs[..|designs|] == designs;
  }

  method PartTwo(designs: seq<string>, patterns: seq<string>) returns (sum: nat)
    requires NonEmptyPatterns(patterns)
    ensures sum == Arrangements(designs, patterns)
  {
    sum := 0;
    for d := 0 to |designs|
      invariant sum == Arrangements(designs[..d], patterns)
    {
      var n := CountArrangements(designs[d], patterns);
      assert designs[..d + 1][..d] == designs[..d];
      sum := sum + n;
    }
    assert designs[..|designs|] == designs;
  }
}
