/** Day 11: plutonian pebbles. On every blink each stone is replaced by one or
    two stones following three rules; the simulation keeps a count per stone
    value instead of the list of stones. */
module Day11 {
  import opened Common

  type Digit = x: int | 0 <= x < 10

  /** `n.to_string()` as digits, most significant first. */
  function Decimal(n: nat): (ds: seq<Digit>)
    ensures |ds| > 0
  {
    if n < 10 then [n] else Decimal(n / 10) + [n % 10]
  }

  /** The number a digit string denotes. */
  function Value(ds: seq<Digit>): nat
  {
    if |ds| == 0 then 0 else Value(ds[..|ds| - 1]) * 10 + ds[|ds| - 1]
  }

  /** `trim_start_matches('0')`. */
  function TrimZeros(ds: seq<Digit>): (t: seq<Digit>)
    ensures |t| <= |ds|
  {
    if |ds| > 0 && ds[0] == 0 then TrimZeros(ds[1..]) else ds
  }

  /** `.parse().unwrap_or(0)` after trimming: the empty string fails to parse. */
  function ParseOrZero(ds: seq<Digit>): nat
  {
    var t := TrimZeros(ds);
    if |t| == 0 then 0 else Value(t)
  }

  /** `apply_rules`: 0 becomes 1; a number with an even count of digits splits
      into its two halves; anything else is multiplied by 2024. */
  function ApplyRules(n: nat): (r: seq<nat>)
    ensures 1 <= |r| <= 2
  {
    if n == 0 then [1]
    else
      var s := Decimal(n);
      if |s| % 2 == 0 then
        var mid := |s| / 2;
        [ParseOrZero(s[..mid]), ParseOrZero(s[mid..])]
      else [n * 2024]
  }

  lemma {:induction false} DecimalValue(n: nat)
    ensures Value(Decimal(n)) == n
  {
    if n >= 10 {
      DecimalValue(n / 10);
      var s := Decimal(n);
      assert s[..|s| - 1] == Decimal(n / 10);
    }
  }

  lemma {:induction false} ValueAppend(a: seq<Digit>, b: seq<Digit>)
    ensures Value(a + b) == Value(a) * Pow(10, |b|) + Value(b)
    decreases |b|
  {
    if |b| == 0 {
      assert a + b == a;
    } else {
      var c := a + b;
      var front := b[..|b| - 1];
      assert c[..|c| - 1] == a + front;
      ValueAppend(a, front);
      var p := Pow(10, |front|);
      var x, y := Value(a), Value(front);
      assert Value(c) == (x * p + y) * 10 + b[|b| - 1];
      MulAddDistrib(x * p, y, 10);
      MulAssocSwap(x, p, 10);
      assert Pow(10, |b|) == 10 * p;
    }
  }

  lemma {:induction false} ValueBound(ds: seq<Digit>)
    ensures Value(ds) < Pow(10, |ds|)
    decreases |ds|
  {
    if |ds| > 0 {
      ValueBound(ds[..|ds| - 1]);
    }
  }

  /** Leading zeros do not change the value. */
  lemma {:induction false} TrimZerosValue(ds: seq<Digit>)
    ensures ParseOrZero(ds) == Value(ds)
    decreases |ds|
  {
    if |ds| > 0 && ds[0] == 0 {
      TrimZerosValue(ds[1..]);
      ValueAppend([0], ds[1..]);
      assert [0] + ds[1..] == ds;
    }
  }

  /** Splitting the digits of n in halves of h digits gives the quotient and
      the remainder of n by 10^h, so leading zeros of the right half drop out
      and an all-zero half gives 0. */
  lemma SplitIsDivMod(n: nat)
    requires n > 0 && |Decimal(n)| % 2 == 0
    ensures var h := |Decimal(n)| / 2;
      ApplyRules(n) == [n / Pow(10, h), n % Pow(10, h)]
  {
    var s := Decimal(n);
    var h := |s| / 2;
    assert ApplyRules(n) == [ParseOrZero(s[..h]), ParseOrZero(s[h..])];
    DecimalValue(n);
    SplitDigits(s, h);
  }

  /** Cutting a digit string after its first h digits splits its value into
      quotient and remainder by a power of ten. */
  lemma SplitDigits(s: seq<Digit>, h: nat)
    requires h <= |s|
    ensures Value(s) / Pow(10, |s| - h) == ParseOrZero(s[..h])
    ensures Value(s) % Pow(10, |s| - h) == ParseOrZero(s[h..])
  {
    var left, right := s[..h], s[h..];
    assert left + right == s;
    ValueAppend(left, right);
    ValueBound(right);
    TrimZerosValue(left);
    TrimZerosValue(right);
    var l, r, m := Value(left), Value(right), Pow(10, |right|);
    assert Value(s) == l * m + r;
    MulComm(l, m);
    DivUnique(Value(s), m, l, r);
  }

  /** Every element of s replaced by the sequence f gives for it, in order. */
  function FlatMap(f: nat -> seq<nat>, s: seq<nat>): seq<nat>
  {
    if |s| == 0 then [] else FlatMap(f, s[..|s| - 1]) + f(s[|s| - 1])
  }

  /** One blink over the list of stones, in order: no stone disappears. */
  function Blink(stones: seq<nat>): (r: seq<nat>)
    ensures |r| >= |stones|
  {
    FlatMapLength(ApplyRules, stones);
    FlatMap(ApplyRules, stones)
  }

  lemma {:induction false} FlatMapLength(f: nat -> seq<nat>, s: seq<nat>)
    requires forall x :: |f(x)| >= 1
    ensures |FlatMap(f, s)| >= |s|
    decreases |s|
  {
    if |s| > 0 {
      FlatMapLength(f, s[..|s| - 1]);
    }
  }

  /** The stones after k blinks. */
  function StonesAfter(stones: seq<nat>, k: nat): seq<nat>
  {
    if k == 0 then stones else Blink(StonesAfter(stones, k - 1))
  }

  /** The number of stones never decreases from one blink to a later one. */
  lemma {:induction false} TotalsNeverDecrease(stones: seq<nat>, i: nat, j: nat)
    requires i <= j
    ensures |StonesAfter(stones, i)| <= |StonesAfter(stones, j)|
    decreases j
  {
    if i < j {
      TotalsNeverDecrease(stones, i, j - 1);
      assert StonesAfter(stones, j) == Blink(StonesAfter(stones, j - 1));
    }
  }

  lemma {:induction false} FlatMapAppend(f: nat -> seq<nat>, s: seq<nat>, t: seq<nat>)
    ensures FlatMap(f, s + t) == FlatMap(f, s) + FlatMap(f, t)
    decreases |t|
  {
    if |t| == 0 {
      assert s + t == s;
    } else {
      var u := s + t;
      var front := t[..|t| - 1];
      assert u[..|u| - 1] == s + front;
      assert u[|u| - 1] == t[|t| - 1];
      FlatMapAppend(f, s, front);
      assert FlatMap(f, u) == FlatMap(f, s + front) + f(t[|t| - 1]);
      assert FlatMap(f, t) == FlatMap(f, front) + f(t[|t| - 1]);
    }
  }

  lemma FlatMapSingle(f: nat -> seq<nat>, x: nat)
    ensures FlatMap(f, [x]) == f(x)
  {
    assert [x][..0] == [];
  }

  /** The multiset of the result depends only on the multiset of the input:
      the order in which the stones are visited does not matter. */
  lemma {:induction false} FlatMapPermutation(f: nat -> seq<nat>, s: seq<nat>, t: seq<nat>)
    requires multiset(s) == multiset(t)
    ensures multiset(FlatMap(f, s)) == multiset(FlatMap(f, t))
    decreases |s|
  {
    if |s| > 0 {
      var x := s[|s| - 1];
      var front := s[..|s| - 1];
      assert s == front + [x];
      assert x in multiset(t);
      var j :| 0 <= j < |t| && t[j] == x;
      var left, right := t[..j], t[j + 1..];
      assert t == left + [x] + right;
      RemoveOne(front, left, right, x, multiset(s));
      FlatMapPermutation(f, front, left + right);
      FlatMapAppend(f, left + [x], right);
      FlatMapAppend(f, left, [x]);
      FlatMapAppend(f, left, right);
      FlatMapSingle(f, x);
      assert FlatMap(f, s) == FlatMap(f, front) + f(x);
    }
  }

  lemma RemoveOne(front: seq<nat>, left: seq<nat>, right: seq<nat>, x: nat, m: multiset<nat>)
    requires multiset(front + [x]) == m && multiset(left + [x] + right) == m
    ensures multiset(front) == multiset(left + right)
  {
    assert multiset(front + [x]) == multiset(front) + multiset{x};
    assert multiset(left + [x] + right) == multiset(left) + multiset{x} + multiset(right);
    assert multiset(left + right) == multiset(left) + multiset(right);
    assert multiset(front) == m - multiset{x};
    assert multiset(left) + multiset(right) == m - multiset{x};
  }

  /** n copies of x. */
  function Repeat(x: nat, n: nat): (r: seq<nat>)
    ensures multiset(r) == multiset{}[x := n]
  {
    if n == 0 then [] else Repeat(x, n - 1) + [x]
  }

  /** Every element of xs, c times. */
  function Copies(xs: seq<nat>, c: nat): multiset<nat>
  {
    if |xs| == 0 then multiset{} else Copies(xs[..|xs| - 1], c)[xs[|xs| - 1] := Copies(xs[..|xs| - 1], c)[xs[|xs| - 1]] + c]
  }

  lemma {:induction false} CopiesSucc(xs: seq<nat>, c: nat)
    ensures Copies(xs, c) + multiset(xs) == Copies(xs, c + 1)
    decreases |xs|
  {
    if |xs| > 0 {
      var front := xs[..|xs| - 1];
      CopiesSucc(front, c);
      assert xs == front + [xs[|xs| - 1]];
    }
  }

  lemma {:induction false} CopiesZero(xs: seq<nat>)
    ensures Copies(xs, 0) == multiset{}
    decreases |xs|
  {
    if |xs| > 0 {
      CopiesZero(xs[..|xs| - 1]);
    }
  }

  /** c equal stones x give c copies of what x gives. */
  lemma {:induction false} FlatMapRepeat(f: nat -> seq<nat>, x: nat, c: nat)
    ensures multiset(FlatMap(f, Repeat(x, c))) == Copies(f(x), c)
    decreases c
  {
    if c == 0 {
      CopiesZero(f(x));
    } else {
      FlatMapRepeat(f, x, c - 1);
      var r := Repeat(x, c);
      assert r[..|r| - 1] == Repeat(x, c - 1);
      assert FlatMap(f, r) == FlatMap(f, Repeat(x, c - 1)) + f(x);
      CopiesSucc(f(x), c - 1);
    }
  }

  /** One blink of the count map: every stone value, with its count, adds that
      count to each value it turns into. The map's iteration order is a free
      choice here. */
  method BlinkCounts(counts: multiset<nat>, ghost stones: seq<nat>) returns (next: multiset<nat>)
    requires multiset(stones) == counts
    ensures next == multiset(Blink(stones))
  {
    next := multiset{};
    var rest := counts;
    ghost var done: seq<nat> := [];
    while rest != multiset{}
      invariant multiset(done) + rest == counts
      invariant next == multiset(FlatMap(ApplyRules, done))
      decreases |rest|
    {
      var stone :| stone in rest;
      var count := rest[stone];
      var out := ApplyRules(stone);
      next := AddCopies(next, out, count);
      ghost var more := Repeat(stone, count);
      FlatMapRepeat(ApplyRules, stone, count);
      FlatMapAppend(ApplyRules, done, more);
      TakeAll(rest, stone);
      rest := rest[stone := 0];
      done := done + more;
    }
    FlatMapPermutation(ApplyRules, done, stones);
  }

  /** Taking every copy of one element out of a multiset. */
  lemma TakeAll(rest: multiset<nat>, x: nat)
    requires x in rest
    ensures multiset(Repeat(x, rest[x])) + rest[x := 0] == rest
    ensures |rest[x := 0]| < |rest|
  {
    var gone := multiset(Repeat(x, rest[x]));
    assert gone + rest[x := 0] == rest;
    assert |gone| > 0 by {
      assert x in gone;
    }
  }

  /** `*new_stones.entry(n).or_insert(0) += count` for every n of out. */
  method AddCopies(counts: multiset<nat>, out: seq<nat>, count: nat) returns (next: multiset<nat>)
    ensures next == counts + Copies(out, count)
  {
    next := counts;
    for j := 0 to |out|
      invariant next == counts + Copies(out[..j], count)
    {
      assert out[..j + 1][..j] == out[..j];
      next := next[out[j] := next[out[j]] + count];
    }
    assert out[..|out|] == out;
  }

  /** `simulate_blinks`, starting from the count of each input value: the
      total is the number of stones after the given blinks. */
  method SimulateBlinks(stones: seq<nat>, blinks: nat) returns (total: nat)
    ensures total == |StonesAfter(stones, blinks)|
  {
    var counts := InitialCounts(stones);
    for b := 0 to blinks
      invariant counts == multiset(StonesAfter(stones, b))
    {
      counts := BlinkCounts(counts, StonesAfter(stones, b));
    }
    total := |counts|;
  }

  /** The initial count map with each input stone counted once per
      occurrence. */
  function InitialCounts(stones: seq<nat>): (counts: multiset<nat>)
    ensures |counts| == |stones|
    ensures forall x :: counts[x] == |set i | 0 <= i < |stones| && stones[i] == x|
  {
    CountOccurrences(stones);
    multiset(stones)
  }

  lemma {:induction false} CountOccurrences(stones: seq<nat>)
    ensures forall x :: multiset(stones)[x] == |set i | 0 <= i < |stones| && stones[i] == x|
    decreases |stones|
  {
    if |stones| > 0 {
      var front := stones[..|stones| - 1];
      CountOccurrences(front);
      assert stones == front + [stones[|stones| - 1]];
      forall x
        ensures multiset(stones)[x] == |set i | 0 <= i < |stones| && stones[i] == x|
      {
        var a := set i | 0 <= i < |front| && front[i] == x;
        var b := set i | 0 <= i < |stones| && stones[i] == x;
        if stones[|stones| - 1] == x {
          assert b == a + {|stones| - 1};
        } else {
          assert b == a;
        }
      }
    }
  }

  /** The initial count map as written: `(n, 1)` for every input stone,
      collected into a map, so a repeated value keeps count 1. */
  function InitialCountsAsWritten(stones: seq<nat>): (counts: multiset<nat>)
    ensures forall x :: counts[x] == (if x in stones then 1 else 0)
  {
    if |stones| == 0 then multiset{}
    else
      var front := InitialCountsAsWritten(stones[..|stones| - 1]);
      var x := stones[|stones| - 1];
      assert forall y :: y in stones <==> y in stones[..|stones| - 1] || y == x by {
        assert stones == stones[..|stones| - 1] + [x];
      }
      front[x := 1]
  }

  /** "0 0": two stones, but the map as written starts with a single one, so
      even without a blink the answer is 1 instead of 2. */
  lemma DuplicateStonesCollapse()
    ensures |InitialCountsAsWritten([0, 0])| == 1
    ensures |InitialCounts([0, 0])| == 2 == |StonesAfter([0, 0], 0)|
  {
    var m := InitialCountsAsWritten([0, 0]);
    assert m == multiset{0};
  }

  method PartOne(stones: seq<nat>) returns (total: nat)
    ensures total == |StonesAfter(stones, 25)|
  {
    total := SimulateBlinks(stones, 25);
  }

  method PartTwo(stones: seq<nat>) returns (total: nat)
    ensures total == |StonesAfter(stones, 75)|
  {
    total := SimulateBlinks(stones, 75);
  }
}
