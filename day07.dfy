/** Day 7: bridge calibration. An equation holds when the operands, combined
    strictly left to right with `+`, `*` and (in part two) decimal
    concatenation, can produce the target. `check` works backwards from the
    last operand, undoing one operator at a time. */
module Day07 {
  import opened Common

  /** The number of times the digit loop can strip a digit from n: its decimal
      length, and 0 for 0. */
  function NumDigits(n: nat): nat
  {
    if n == 0 then 0 else 1 + NumDigits(n / 10)
  }

  /** Decimal concatenation of v and c. */
  function Concat(v: nat, c: nat): nat
  {
    v * Pow(10, NumDigits(c)) + c
  }

  /** The digit-stripping loop of `check`, as a function: drops matching last
      digits of target and operand until the operand is used up, and yields
      what is left of the target when that is positive. */
  function StripSuffix(target: nat, operand: nat): Option<nat>
    decreases operand
  {
    if target > 0 && operand > 0 then
      if target % 10 != operand % 10 then None else StripSuffix(target / 10, operand / 10)
    else if operand == 0 && target > 0 then Some(target)
    else None
  }

  /** The digit loop in place: two counters, an early break on a mismatch. */
  method StripDigits(target: nat, operand: nat) returns (prefix: Option<nat>)
    ensures prefix == StripSuffix(target, operand)
  {
    var concatValue := operand;
    var targetValue := target;
    while targetValue > 0 && concatValue > 0
      invariant StripSuffix(targetValue, concatValue) == StripSuffix(target, operand)
    {
      if targetValue % 10 != concatValue % 10 {
        break;
      }
      targetValue := targetValue / 10;
      concatValue := concatValue / 10;
    }
    prefix := if concatValue == 0 && targetValue > 0 then Some(targetValue) else None;
  }

  /** The loop strips the operand exactly when the target is a positive
      prefix followed by the operand's digits. */
  lemma {:induction false} StripSuffixIsConcat(target: nat, operand: nat, prefix: nat)
    ensures StripSuffix(target, operand) == Some(prefix) <==>
      prefix > 0 && target == Concat(prefix, operand)
    decreases operand
  {
    if operand > 0 {
      var k := NumDigits(operand / 10);
      var scaled := prefix * Pow(10, k);
      MulNonNegative(prefix, Pow(10, k));
      assert Concat(prefix, operand) == 10 * scaled + operand by {
        MulLeftSwap(prefix, 10, Pow(10, k));
      }
      assert Concat(prefix, operand / 10) == scaled + operand / 10;
      if target > 0 && target % 10 == operand % 10 {
        StripSuffixIsConcat(target / 10, operand / 10, prefix);
        if target == 10 * scaled + operand {
          DivUnique(target, 10, scaled + operand / 10, operand % 10);
        }
      } else if target > 0 && target == 10 * scaled + operand {
        DivUnique(target, 10, scaled + operand / 10, operand % 10);
      }
    }
  }

  /** Every value the operands can produce, combining them left to right. */
  function Results(operands: seq<nat>, part1: bool): set<nat>
    requires |operands| > 0
  {
    if |operands| == 1 then {operands[0]}
    else
      var r := Results(operands[..|operands| - 1], part1);
      var c := operands[|operands| - 1];
      Sums(r, c) + Products(r, c) + (if part1 then {} else Concatenations(r, c))
  }

  function Sums(r: set<nat>, c: nat): set<nat>
  {
    set v | v in r :: v + c
  }

  function Products(r: set<nat>, c: nat): set<nat>
  {
    set v | v in r :: v * c
  }

  function Concatenations(r: set<nat>, c: nat): set<nat>
  {
    set v | v in r :: Concat(v, c)
  }

  predicate Positive(operands: seq<nat>, i: nat)
  {
    forall j :: 0 <= j <= i && j < |operands| ==> operands[j] > 0
  }

  /** `check` with the addition branch guarded against operand > target.
      Positive operands never combine to 0, so a zero target fails. */
  function Check(target: nat, operands: seq<nat>, i: nat, part1: bool): (r: bool)
    requires i < |operands| && Positive(operands, i)
    ensures r ==> target > 0
    decreases i
  {
    if i == 0 then target == operands[0]
    else
      var c := operands[i];
      (c <= target && Check(target - c, operands, i - 1, part1))
      || (target % c == 0 && Check(target / c, operands, i - 1, part1))
      || (!part1 && match StripSuffix(target, c)
                    case Some(p) => Check(p, operands, i - 1, part1)
                    case None => false)
  }

  /** `check` is exact: it succeeds precisely when some choice of operators
      produces the target. */
  lemma {:induction false} CheckIsExact(target: nat, operands: seq<nat>, i: nat, part1: bool)
    requires i < |operands| && Positive(operands, i)
    ensures Check(target, operands, i, part1) <==> target in Results(operands[..i + 1], part1)
    decreases i
  {
    if i > 0 {
      var c := operands[i];
      assert c > 0;
      var r := Results(operands[..i], part1);
      ResultsPositive(operands, i - 1, part1);
      var bySum := c <= target && target - c in r;
      var byProduct := target % c == 0 && target / c in r;
      var byConcat := !part1 && StripSuffix(target, c).Some? && StripSuffix(target, c).value in r;
      InResults(operands, i, part1, target, bySum, byProduct, byConcat);
      if c <= target {
        CheckIsExact(target - c, operands, i - 1, part1);
      }
      var q := Quotient(target, c);
      CheckIsExact(q, operands, i - 1, part1);
      if StripSuffix(target, c).Some? {
        CheckIsExact(StripSuffix(target, c).value, operands, i - 1, part1);
      }
    }
  }

  /** One step of `Results`, read backwards: the target is produced by the
      last operator exactly when the matching inverse lands among the values
      of the shorter prefix. */
  lemma InResults(operands: seq<nat>, i: nat, part1: bool, target: nat,
                  bySum: bool, byProduct: bool, byConcat: bool)
    requires 0 < i < |operands| && operands[i] > 0
    requires 0 !in Results(operands[..i], part1)
    requires var r, c := Results(operands[..i], part1), operands[i];
      && bySum == (c <= target && target - c in r)
      && byProduct == (target % c == 0 && target / c in r)
      && byConcat == (!part1 && StripSuffix(target, c).Some? && StripSuffix(target, c).value in r)
    ensures target in Results(operands[..i + 1], part1) <==> bySum || byProduct || byConcat
  {
    var c := operands[i];
    assert operands[..i + 1][..i] == operands[..i];
    var r := Results(operands[..i], part1);
    InSums(r, c, target);
    InProducts(r, c, target);
    InConcatenations(r, c, target);
  }

  lemma Quotient(a: nat, b: nat) returns (q: nat)
    requires b > 0
    ensures q == a / b
  {
    q := a / b;
  }

  lemma InSums(r: set<nat>, c: nat, target: nat)
    ensures target in Sums(r, c) <==> c <= target && target - c in r
  {
    if c <= target && target - c in r {
      assert target == (target - c) + c;
    }
  }

  lemma InProducts(r: set<nat>, c: nat, target: nat)
    requires c > 0
    ensures target in Products(r, c) <==> target % c == 0 && target / c in r
  {
    if target % c == 0 {
      DivUnique(target, c, target / c, 0);
      if target / c in r {
        assert target == (target / c) * c;
      }
    }
    if target in Products(r, c) {
      var v :| v in r && target == v * c;
      DivUnique(target, c, v, 0);
    }
  }

  lemma InConcatenations(r: set<nat>, c: nat, target: nat)
    requires 0 !in r
    ensures target in Concatenations(r, c) <==>
      StripSuffix(target, c).Some? && StripSuffix(target, c).value in r
  {
    if StripSuffix(target, c).Some? {
      StripSuffixIsConcat(target, c, StripSuffix(target, c).value);
    }
    if target in Concatenations(r, c) {
      var v :| v in r && target == Concat(v, c);
      StripSuffixIsConcat(target, c, v);
    }
  }

  lemma {:induction false} ResultsPositive(operands: seq<nat>, i: nat, part1: bool)
    requires i < |operands| && Positive(operands, i)
    ensures 0 !in Results(operands[..i + 1], part1)
    decreases i
  {
    if i > 0 {
      assert operands[..i + 1][..i] == operands[..i];
      ResultsPositive(operands, i - 1, part1);
      forall v | v in Results(operands[..i], part1)
        ensures v * operands[i] > 0 && Concat(v, operands[i]) > 0
      {
        MulNonZero(v, operands[i]);
        MulNonNegative(v, Pow(10, NumDigits(operands[i])));
      }
    }
  }

  /** Part two tries a superset of part one's operators. */
  lemma {:induction false} PartOneImpliesPartTwo(target: nat, operands: seq<nat>, i: nat)
    requires i < |operands| && Positive(operands, i)
    ensures Check(target, operands, i, true) ==> Check(target, operands, i, false)
    decreases i
  {
    if i > 0 {
      var c := operands[i];
      if c <= target {
        PartOneImpliesPartTwo(target - c, operands, i - 1);
      }
      if target % c == 0 {
        PartOneImpliesPartTwo(target / c, operands, i - 1);
      }
    }
  }

  /** `check` as written: the addition branch subtracts without a guard, which
      panics (None) on `u64` underflow in a checked build; a zero operand
      panics in `%`. A panic in a recursive call ends the whole check. */
  function CheckAsWritten(target: nat, operands: seq<nat>, i: nat, part1: bool): Option<bool>
    requires i < |operands|
    decreases i
  {
    if i == 0 then Some(target == operands[0])
    else
      var c := operands[i];
      if c > target then None
      else
        var add := CheckAsWritten(target - c, operands, i - 1, part1);
        if add != Some(false) then add
        else if c == 0 then None
        else
          var mul := if target % c == 0 then CheckAsWritten(target / c, operands, i - 1, part1)
                     else Some(false);
          if mul != Some(false) then mul
          else if part1 then Some(false)
          else match StripSuffix(target, c)
            case Some(p) => CheckAsWritten(p, operands, i - 1, part1)
            case None => Some(false)
  }

  /** Whenever the code as written does not panic, it agrees with the guarded
      check. */
  lemma {:induction false} AsWrittenAgrees(target: nat, operands: seq<nat>, i: nat, part1: bool)
    requires i < |operands| && Positive(operands, i)
    ensures CheckAsWritten(target, operands, i, part1).Some? ==>
      CheckAsWritten(target, operands, i, part1).value == Check(target, operands, i, part1)
    decreases i
  {
    if i > 0 {
      var c := operands[i];
      if c <= target {
        AsWrittenAgrees(target - c, operands, i - 1, part1);
        if target % c == 0 {
          AsWrittenAgrees(target / c, operands, i - 1, part1);
        }
        if StripSuffix(target, c).Some? {
          AsWrittenAgrees(StripSuffix(target, c).value, operands, i - 1, part1);
        }
      }
    }
  }

  /** "1: 1 2": the first addition step computes 1 - 2 and panics, although
      the equation is simply false. */
  lemma UnderflowExample()
    ensures CheckAsWritten(1, [1, 2], 1, true) == None
    ensures !Check(1, [1, 2], 1, true) && !Check(1, [1, 2], 1, false)
  {
    assert StripSuffix(1, 2) == None;
  }

  /** One calibration line: the test value and its operands. */
  datatype Equation = Equation(target: nat, operands: seq<nat>)

  predicate ValidEquations(equations: seq<Equation>)
  {
    forall k :: 0 <= k < |equations| ==>
      |equations[k].operands| > 0 && Positive(equations[k].operands, |equations[k].operands| - 1)
  }

  /** The sum of all test values. */
  function TargetTotal(equations: seq<Equation>): nat
  {
    if |equations| == 0 then 0 else TargetTotal(equations[..|equations| - 1]) + equations[|equations| - 1].target
  }

  /** `process_input`: the sum of the test values of the equations that
      hold, so at most the sum of all test values, and exactly that when
      every equation holds. */
  function Calibration(equations: seq<Equation>, part1: bool): (r: nat)
    requires ValidEquations(equations)
    ensures r <= TargetTotal(equations)
    ensures (forall k :: 0 <= k < |equations| ==>
               Check(equations[k].target, equations[k].operands, |equations[k].operands| - 1, part1)) ==>
            r == TargetTotal(equations)
  {
    if |equations| == 0 then 0
    else
      var e := equations[|equations| - 1];
      Calibration(equations[..|equations| - 1], part1) +
      (if Check(e.target, e.operands, |e.operands| - 1, part1) then e.target else 0)
  }

  /** Part two's total is at least part one's. */
  lemma {:induction false} PartOneAtMostPartTwo(equations: seq<Equation>)
    requires ValidEquations(equations)
    ensures Calibration(equations, true) <= Calibration(equations, false)
  {
    if |equations| > 0 {
      var e := equations[|equations| - 1];
      PartOneAtMostPartTwo(equations[..|equations| - 1]);
      PartOneImpliesPartTwo(e.target, e.operands, |e.operands| - 1);
    }
  }

  /** The calibration counts exactly the equations some operator choice makes
      true. */
  lemma {:induction false} CalibrationCountsSolvable(equations: seq<Equation>, part1: bool)
    requires ValidEquations(equations)
    ensures Calibration(equations, part1) == SolvableSum(equations, part1)
  {
    if |equations| > 0 {
      var e := equations[|equations| - 1];
      CalibrationCountsSolvable(equations[..|equations| - 1], part1);
      CheckIsExact(e.target, e.operands, |e.operands| - 1, part1);
      assert e.operands[..|e.operands|] == e.operands;
    }
  }

  /** The reference total: test values reachable by some operator choice. */
  function SolvableSum(equations: seq<Equation>, part1: bool): nat
    requires forall k :: 0 <= k < |equations| ==> |equations[k].operands| > 0
  {
    if |equations| == 0 then 0
    else
      var e := equations[|equations| - 1];
      SolvableSum(equations[..|equations| - 1], part1) +
      (if e.target in Results(e.operands, part1) then e.target else 0)
  }
}
