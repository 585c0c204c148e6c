/** Day 13: claw machines. Button A moves the claw by (aX, aY) for 3 tokens,
    button B by (bX, bY) for 1 token; a prize at (tX, tY) is won by pressing
    A and B whole, non-negative numbers of times. The solver eliminates B by
    cross-multiplying and goes through an extended-Euclid helper. */
module Day13 {
  import opened Common

  /** d divides n (0 divides only 0). */
  predicate Divides(d: int, n: int)
  {
    if d == 0 then n == 0 else n % Abs(d) == 0
  }

  lemma DividesWitness(d: int, n: int) returns (k: int)
    requires d != 0 && Divides(d, n)
    ensures n == d * k
  {
    var m: int := Abs(d);
    assert n == m * (n / m);
    NegMul(m, n / m);
    k := if d > 0 then n / m else -(n / m);
  }

  lemma MultipleDivides(d: int, k: int)
    ensures Divides(d, d * k)
  {
    if d != 0 {
      var m: int := Abs(d);
      NegMul(m, k);
      DivUnique(d * k, m, if d > 0 then k else -k, 0);
    }
  }

  /** A common divisor of a and b divides every combination a * x + b * y. */
  lemma DividesLinear(g: int, a: int, b: int, x: int, y: int)
    requires Divides(g, a) && Divides(g, b)
    ensures Divides(g, a * x + b * y)
  {
    if g != 0 {
      var ka := DividesWitness(g, a);
      var kb := DividesWitness(g, b);
      assert a * x == g * (ka * x);
      assert b * y == g * (kb * y);
      assert a * x + b * y == g * (ka * x + kb * y);
      MultipleDivides(g, ka * x + kb * y);
    }
  }

  /** `extended_gcd`: the divisor g with Bezout coefficients x, y. Rust's `%`
      and `/` truncate toward zero. */
  function ExtendedGcd(a: int, b: int): (r: (int, int, int))
    ensures a * r.1 + b * r.2 == r.0
    decreases Abs(b)
  {
    if b == 0 then (a, 1, 0)
    else
      TruncRemSmall(a, b);
      var (g, x1, y1) := ExtendedGcd(b, TruncRem(a, b));
      BezoutStep(a, b, TruncDiv(a, b), TruncRem(a, b), g, x1, y1);
      (g, y1, x1 - TruncDiv(a, b) * y1)
  }

  lemma BezoutStep(a: int, b: int, q: int, r: int, g: int, x1: int, y1: int)
    requires a == b * q + r && b * x1 + r * y1 == g
    ensures a * y1 + b * (x1 - q * y1) == g
  {
    assert a * y1 == (b * q) * y1 + r * y1;
    assert b * (x1 - q * y1) == b * x1 - (b * q) * y1;
  }

  /** The g of `extended_gcd` divides both arguments. */
  lemma {:induction false} GcdDivides(a: int, b: int)
    ensures Divides(ExtendedGcd(a, b).0, a) && Divides(ExtendedGcd(a, b).0, b)
    decreases Abs(b)
  {
    var g := ExtendedGcd(a, b).0;
    if b == 0 {
      MultipleDivides(a, 1);
      MultipleDivides(a, 0);
    } else {
      TruncRemSmall(a, b);
      GcdDivides(b, TruncRem(a, b));
      DividesLinear(g, b, TruncRem(a, b), TruncDiv(a, b), 1);
    }
  }

  /** Every common divisor of a and b divides g: g is a greatest common divisor. */
  lemma CommonDivisorDividesGcd(a: int, b: int, d: int)
    requires Divides(d, a) && Divides(d, b)
    ensures Divides(d, ExtendedGcd(a, b).0)
  {
    var (g, x, y) := ExtendedGcd(a, b);
    DividesLinear(d, a, b, x, y);
  }

  /** g is zero exactly when both arguments are: the `c % gcd` of
      `find_particular_solution` divides by zero only then. */
  lemma GcdZero(a: int, b: int)
    ensures ExtendedGcd(a, b).0 == 0 <==> a == 0 && b == 0
  {
    GcdDivides(a, b);
  }

  /** Rust's `c % g == 0` is divisibility. */
  lemma TruncRemZero(c: int, g: int)
    requires g != 0
    ensures TruncRem(c, g) == 0 <==> Divides(g, c)
  {
    TruncRemSmall(c, g);
    if TruncRem(c, g) == 0 {
      MultipleDivides(g, TruncDiv(c, g));
    }
    if Divides(g, c) {
      var k := DividesWitness(g, c);
      TruncDivExact(g, k);
    }
  }

  /** `find_particular_solution`: integers x, y with a * x + b * y = c, or
      None when the divisor does not divide c. Both zero is the division by
      zero of `c % gcd`, which the source does not survive. */
  function FindParticular(a: int, b: int, c: int): (r: Option<(int, int)>)
    requires a != 0 || b != 0
    ensures r.Some? ==> a * r.value.0 + b * r.value.1 == c
    ensures r.None? <==> !Divides(ExtendedGcd(a, b).0, c)
  {
    var (g, x0, y0) := ExtendedGcd(a, b);
    GcdZero(a, b);
    TruncRemZero(c, g);
    if TruncRem(c, g) != 0 then None
    else
      var f := TruncDiv(c, g);
      ScaleSolution(a, b, x0, y0, g, f, c);
      Some((x0 * f, y0 * f))
  }

  lemma ScaleSolution(a: int, b: int, x0: int, y0: int, g: int, f: int, c: int)
    requires g != 0 && a * x0 + b * y0 == g && c == g * f + TruncRem(c, g) && TruncRem(c, g) == 0
    ensures a * (x0 * f) + b * (y0 * f) == c
  {
    assert a * (x0 * f) + b * (y0 * f) == (a * x0 + b * y0) * f;
  }

  /** Whenever some integers solve a * x + b * y = c, the search finds a
      solution: None means there is none. */
  lemma ParticularComplete(a: int, b: int, c: int, x: int, y: int)
    requires a != 0 || b != 0
    requires a * x + b * y == c
    ensures FindParticular(a, b, c).Some?
  {
    var g := ExtendedGcd(a, b).0;
    GcdDivides(a, b);
    DividesLinear(g, a, b, x, y);
  }

  /** What `find_solution_v2` arrives at for one machine. */
  datatype Outcome = Panic | NoPrize | Prize(a: int, b: int)

  /** `find_solution_v2`: A from the eliminated equation through the
      b = 0 case of the particular solution, B by substituting back, then the
      check that both are non-negative and both equations hold. Panic for the
      two divisions by zero: a zero determinant, or bX = 0 once A is found. */
  function Solve(aX: int, aY: int, bX: int, bY: int, tX: int, tY: int): (r: Outcome)
    ensures r.Prize? ==> r.a >= 0 && r.b >= 0
    ensures r.Prize? ==> aX * r.a + bX * r.b == tX && aY * r.a + bY * r.b == tY
    ensures r.Panic? <==> aX * bY - aY * bX == 0 || (bX == 0 && Divides(aX * bY - aY * bX, tX * bY - tY * bX))
  {
    var det := aX * bY - aY * bX;
    var target := tX * bY - tY * bX;
    if det == 0 then Panic
    else
      match FindParticular(det, 0, target)
      case None => NoPrize
      case Some((a, _)) =>
        if bX == 0 then Panic
        else
          var b := TruncDiv(tX - aX * a, bX);
          if a >= 0 && b >= 0 && aX * a + bX * b == tX && aY * a + bY * b == tY then Prize(a, b)
          else NoPrize
  }

  /** Eliminating B: any solution satisfies det * A = tX * bY - tY * bX. */
  lemma Eliminate(aX: int, aY: int, bX: int, bY: int, tX: int, tY: int, a: int, b: int)
    requires aX * a + bX * b == tX && aY * a + bY * b == tY
    ensures (aX * bY - aY * bX) * a == tX * bY - tY * bX
  {
    assert tX * bY == (aX * a) * bY + (bX * b) * bY;
    assert tY * bX == (aY * a) * bX + (bY * b) * bX;
    assert (bX * b) * bY == (bY * b) * bX;
  }

  /** With a non-zero determinant and bX, a machine that some non-negative
      presses win is solved, with exactly those presses. */
  lemma SolveComplete(aX: int, aY: int, bX: int, bY: int, tX: int, tY: int, a: int, b: int)
    requires aX * bY - aY * bX != 0 && bX != 0
    requires a >= 0 && b >= 0 && aX * a + bX * b == tX && aY * a + bY * b == tY
    ensures Solve(aX, aY, bX, bY, tX, tY) == Prize(a, b)
  {
    var det := aX * bY - aY * bX;
    var target := tX * bY - tY * bX;
    Eliminate(aX, aY, bX, bY, tX, tY, a, b);
    assert ExtendedGcd(det, 0) == (det, 1, 0);
    TruncDivExact(det, a);
    assert FindParticular(det, 0, target) == Some((a, 0));
    assert tX - aX * a == bX * b;
    TruncDivExact(bX, b);
  }

  /** A machine has at most one winning pair of non-negative presses when
      its determinant and bX are non-zero. */
  lemma PressesUnique(aX: int, aY: int, bX: int, bY: int, tX: int, tY: int, a: int, b: int, a': int, b': int)
    requires aX * bY - aY * bX != 0 && bX != 0
    requires a >= 0 && b >= 0 && aX * a + bX * b == tX && aY * a + bY * b == tY
    requires a' >= 0 && b' >= 0 && aX * a' + bX * b' == tX && aY * a' + bY * b' == tY
    ensures a == a' && b == b'
  {
    SolveComplete(aX, aY, bX, bY, tX, tY, a, b);
    SolveComplete(aX, aY, bX, bY, tX, tY, a', b');
  }

  datatype Machine = Machine(aX: int, aY: int, bX: int, bY: int, tX: int, tY: int)

  /** The tokens one machine adds to the total with the prize moved by
      `offset` on both axes: 3A + B if it is won, 0 if not, None on a panic. */
  function Tokens(m: Machine, offset: int): (r: Option<int>)
    ensures r.Some? ==> r.value >= 0
  {
    match Solve(m.aX, m.aY, m.bX, m.bY, m.tX + offset, m.tY + offset)
    case Panic => None
    case NoPrize => Some(0)
    case Prize(a, b) => Some(3 * a + b)
  }

  /** The total over the machines in order; None if one of them panics. */
  function Total(ms: seq<Machine>, offset: int): (r: Option<int>)
    ensures r.Some? ==> r.value >= 0
    ensures r.Some? <==> forall i :: 0 <= i < |ms| ==> Tokens(ms[i], offset).Some?
  {
    if ms == [] then Some(0)
    else
      match Total(ms[..|ms| - 1], offset)
      case None => None
      case Some(t) =>
        match Tokens(ms[|ms| - 1], offset)
        case None => None
        case Some(k) => Some(t + k)
  }

  /** Part two moves every prize by 10^13 on both axes. */
  const PrizeOffset: int := 10_000_000_000_000

  /** The loop of `part_one` (offset 0) and `part_two` (offset 10^13). */
  method TotalTokens(ms: seq<Machine>, offset: int) returns (total: Option<int>)
    ensures total == Total(ms, offset)
  {
    var sum := 0;
    for i := 0 to |ms|
      invariant Total(ms[..i], offset) == Some(sum)
    {
      assert ms[..i + 1][..i] == ms[..i];
      var t := Tokens(ms[i], offset);
      if t.None? {
        TotalStaysNone(ms, offset, i + 1);
        return None;
      }
      sum := sum + t.value;
    }
    assert ms[..|ms|] == ms;
    return Some(sum);
  }

  /** Once a machine panics, so does every longer run. */
  lemma {:induction false} TotalStaysNone(ms: seq<Machine>, offset: int, n: nat)
    requires 0 < n <= |ms| && Tokens(ms[n - 1], offset).None?
    ensures Total(ms, offset).None?
  {
    assert ms[n - 1] == ms[..n][n - 1];
  }

  method PartOne(ms: seq<Machine>) returns (total: Option<int>)
    ensures total == Total(ms, 0)
  {
    total := TotalTokens(ms, 0);
  }

  method PartTwo(ms: seq<Machine>) returns (total: Option<int>)
    ensures total == Total(ms, PrizeOffset)
  {
    total := TotalTokens(ms, PrizeOffset);
  }

  /** The first example machine: 80 presses of A and 40 of B, 280 tokens. */
  lemma ExampleMachine(m: Machine)
    requires m == Machine(94, 34, 22, 67, 8400, 5400)
    ensures Tokens(m, 0) == Some(280)
  {
    SolveComplete(94, 34, 22, 67, 8400, 5400, 80, 40);
  }
}
