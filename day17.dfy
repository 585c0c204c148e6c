/** Day 17: a three-register machine with eight opcodes (adv, bxl, bst, jnz,
    bxc, out, bdv, cdv). The registers hold signed 64-bit values, the
    instruction index `ip` is an unsigned word. */
module Day17 {
  import opened Common

  datatype Registers = Registers(a: int, b: int, c: int)

  /** The ways the machine panics. */
  datatype Fault =
    | MissingOperand               // the opcode is the last word of the program
    | InvalidCombo(operand: int)   // a combo operand outside 0..6
    | InvalidOpcode(opcode: int)   // an opcode outside 0..7
    | ShiftOverflow(amount: int)   // a shift amount outside 0..63

  datatype Status = Halted | Crashed(fault: Fault) | OutOfFuel

  datatype StepResult = Next(regs: Registers, ip: nat, out: seq<int>) | Fail(fault: Fault)

  datatype Outcome = Outcome(regs: Registers, ip: nat, output: seq<int>, status: Status)

  /** `as usize` of a negative 64-bit value adds 2^64. */
  const WordModulus: int := 0x1_0000_0000_0000_0000

  /** Value of a combo operand: a literal for 0..3, register A, B or C for 4, 5, 6;
      any other operand is a panic. */
  function Combo(r: Registers, operand: int): (v: Option<int>)
    ensures v.Some? <==> 0 <= operand <= 6
    ensures 0 <= operand <= 3 ==> v == Some(operand)
    ensures operand == 4 ==> v == Some(r.a)
    ensures operand == 5 ==> v == Some(r.b)
    ensures operand == 6 ==> v == Some(r.c)
  {
    match operand
    case 0 => Some(0)
    case 1 => Some(1)
    case 2 => Some(2)
    case 3 => Some(3)
    case 4 => Some(r.a)
    case 5 => Some(r.b)
    case 6 => Some(r.c)
    case _ => None
  }

  /** 2^63, the magnitude of the least signed 64-bit value. */
  const SignBit: int := 0x8000_0000_0000_0000

  lemma SignBitIsPower()
    ensures Pow(2, 63) == SignBit
  {
    PowTwo56();
    PowAdd(2, 56, 7);
    assert Pow(2, 7) == 128;
  }

  lemma PowTwo16()
    ensures Pow(2, 16) == 0x1_0000
  {
    assert Pow(2, 8) == 256;
    PowAdd(2, 8, 8);
  }

  lemma PowTwo32()
    ensures Pow(2, 32) == 0x1_0000_0000
  {
    PowTwo16();
    PowAdd(2, 16, 16);
  }

  lemma PowTwo48()
    ensures Pow(2, 48) == 0x1_0000_0000_0000
  {
    PowTwo32();
    PowTwo16();
    PowAdd(2, 32, 16);
  }

  lemma PowTwo56()
    ensures Pow(2, 56) == 0x100_0000_0000_0000
  {
    PowTwo48();
    assert Pow(2, 8) == 256;
    PowAdd(2, 48, 8);
  }


  /** `1 << k` on a signed 64-bit value: bit 63 is the sign bit. */
  function OneShiftedLeft(k: int): (r: int)
    requires 0 <= k < 64
    ensures r != 0
  {
    if k == 63 then -SignBit else Pow(2, k)
  }

  /** The jump target `operand as usize`: the operand modulo 2^64. */
  function JumpTarget(operand: int): nat
  {
    operand % WordModulus
  }

  /** One instruction at `ip`, which the loop has checked to be inside the program. */
  function Step(program: seq<int>, r: Registers, ip: nat): (s: StepResult)
    requires ip < |program|
    ensures s.Next? ==> |s.out| <= 1
    ensures s.Next? && s.ip != ip + 2 ==> program[ip] == 3 && r.a != 0
    ensures s.Next? && s.out != [] ==> program[ip] == 5
  {
    if ip + 1 >= |program| then Fail(MissingOperand)
    else
      var opcode, operand := program[ip], program[ip + 1];
      if opcode == 0 then
        match Combo(r, operand)
        case None => Fail(InvalidCombo(operand))
        case Some(k) =>
          if 0 <= k < 64 then Next(r.(a := r.a / Pow(2, k)), ip + 2, [])
          else Fail(ShiftOverflow(k))
      else if opcode == 1 then
        Next(r.(b := Xor(r.b, operand)), ip + 2, [])
      else if opcode == 2 then
        match Combo(r, operand)
        case None => Fail(InvalidCombo(operand))
        case Some(v) => Next(r.(b := TruncRem(v, 8)), ip + 2, [])
      else if opcode == 3 then
        if r.a != 0 then Next(r, JumpTarget(operand), []) else Next(r, ip + 2, [])
      else if opcode == 4 then
        Next(r.(b := Xor(r.b, r.c)), ip + 2, [])
      else if opcode == 5 then
        match Combo(r, operand)
        case None => Fail(InvalidCombo(operand))
        case Some(v) => Next(r, ip + 2, [TruncRem(v, 8)])
      else if opcode == 6 || opcode == 7 then
        match Combo(r, operand)
        case None => Fail(InvalidCombo(operand))
        case Some(k) =>
          if 0 <= k < 64 then
            var q := TruncDiv(r.a, OneShiftedLeft(k));
            Next(if opcode == 6 then r.(b := q) else r.(c := q), ip + 2, [])
          else Fail(ShiftOverflow(k))
      else Fail(InvalidOpcode(opcode))
  }

  /** The run loop: at most `fuel` instructions, appending to `out`. */
  function Exec(program: seq<int>, r: Registers, ip: nat, out: seq<int>, fuel: nat): Outcome
    decreases fuel
  {
    if ip >= |program| then Outcome(r, ip, out, Halted)
    else if fuel == 0 then Outcome(r, ip, out, OutOfFuel)
    else
      match Step(program, r, ip)
      case Fail(f) => Outcome(r, ip, out, Crashed(f))
      case Next(r', ip', o) => Exec(program, r', ip', out + o, fuel - 1)
  }

  class Computer {
    const registers: array<int>
    var ip: nat
    const program: seq<int>

    ghost predicate Valid()
      reads this
    {
      registers.Length == 3
    }

    function Regs(): Registers
      reads this, registers
      requires Valid()
    {
      Registers(registers[0], registers[1], registers[2])
    }

    constructor (program: seq<int>, a: int, b: int, c: int)
      ensures Valid() && fresh(registers)
      ensures Regs() == Registers(a, b, c)
      ensures ip == 0 && this.program == program
    {
      registers := new int[3] [a, b, c];
      ip := 0;
      this.program := program;
    }

    /** Executes until `ip` leaves the program, a panic, or `fuel`
        instructions have run. */
    method Run(fuel: nat) returns (output: seq<int>, status: Status)
      requires Valid()
      modifies this, registers
      ensures Valid()
      ensures Outcome(Regs(), ip, output, status)
              == Exec(program, old(Regs()), old(ip), [], fuel)
    {
      output := [];
      var remaining := fuel;
      while ip < |program| && remaining > 0
        invariant Valid()
        invariant Exec(program, Regs(), ip, output, remaining)
                  == Exec(program, old(Regs()), old(ip), [], fuel)
        decreases remaining
      {
        if ip + 1 >= |program| {
          status := Crashed(MissingOperand);
          return;
        }
        var opcode, operand := program[ip], program[ip + 1];
        ghost var step := Step(program, Regs(), ip);
        ghost var printed := output;
        if opcode == 0 {
          var power := Combo(Regs(), operand);
          if power.None? {
            status := Crashed(InvalidCombo(operand));
            return;
          }
          if !(0 <= power.value < 64) {
            status := Crashed(ShiftOverflow(power.value));
            return;
          }
          registers[0] := registers[0] / Pow(2, power.value);
        } else if opcode == 1 {
          registers[1] := Xor(registers[1], operand);
        } else if opcode == 2 {
          var v := Combo(Regs(), operand);
          if v.None? {
            status := Crashed(InvalidCombo(operand));
            return;
          }
          registers[1] := TruncRem(v.value, 8);
        } else if opcode == 3 {
          if registers[0] != 0 {
            ip := JumpTarget(operand);
            assert step == Next(Regs(), ip, []);
            assert output == printed + [];
            remaining := remaining - 1;
            continue;
          }
        } else if opcode == 4 {
          registers[1] := Xor(registers[1], registers[2]);
        } else if opcode == 5 {
          var v := Combo(Regs(), operand);
          if v.None? {
            status := Crashed(InvalidCombo(operand));
            return;
          }
          output := output + [TruncRem(v.value, 8)];
        } else if opcode == 6 || opcode == 7 {
          var power := Combo(Regs(), operand);
          if power.None? {
            status := Crashed(InvalidCombo(operand));
            return;
          }
          if !(0 <= power.value < 64) {
            status := Crashed(ShiftOverflow(power.value));
            return;
          }
          var q := TruncDiv(registers[0], OneShiftedLeft(power.value));
          if opcode == 6 {
            registers[1] := q;
          } else {
            registers[2] := q;
          }
        } else {
          status := Crashed(InvalidOpcode(opcode));
          return;
        }
        assert step == Next(Regs(), ip + 2, output[|printed|..]);
        assert output == printed + output[|printed|..];
        ip := ip + 2;
        remaining := remaining - 1;
      }
      status := if ip >= |program| then Halted else OutOfFuel;
    }
  }

  /** Part one: run the program with A from the input and B = C = 0. */
  method PartOne(program: seq<int>, a: int, fuel: nat) returns (output: seq<int>, status: Status)
    ensures var o := Exec(program, Registers(a, 0, 0), 0, [], fuel);
            output == o.output && status == o.status
  {
    var computer := new Computer(program, a, 0, 0);
    output, status := computer.Run(fuel);
  }

  /** The run stops with `Halted` exactly when `ip` has left the program,
      and what was printed before is never taken back. */
  lemma {:induction false} ExecHaltsPastEnd(program: seq<int>, r: Registers, ip: nat, out: seq<int>, fuel: nat)
    ensures var o := Exec(program, r, ip, out, fuel);
            (o.status == Halted <==> o.ip >= |program|) && out <= o.output
    decreases fuel
  {
    if ip < |program| && fuel > 0 {
      match Step(program, r, ip)
      case Fail(_) =>
      case Next(r', ip', o) => ExecHaltsPastEnd(program, r', ip', out + o, fuel - 1);
    }
  }

  /** A run that ended within `fuel` instructions ends the same way with more fuel. */
  lemma {:induction false} ExecFuelMonotone(program: seq<int>, r: Registers, ip: nat, out: seq<int>, fuel: nat, more: nat)
    requires fuel <= more
    requires Exec(program, r, ip, out, fuel).status != OutOfFuel
    ensures Exec(program, r, ip, out, more) == Exec(program, r, ip, out, fuel)
    decreases fuel
  {
    if ip < |program| {
      match Step(program, r, ip)
      case Fail(_) =>
      case Next(r', ip', o) => ExecFuelMonotone(program, r', ip', out + o, fuel - 1, more - 1);
    }
  }

  /** Every word of a well-formed program is a 3-bit number. */
  ghost predicate ThreeBit(program: seq<int>)
  {
    forall i :: 0 <= i < |program| ==> 0 <= program[i] < 8
  }

  /** All registers are non-negative signed 64-bit values. */
  ghost predicate NonNegativeWords(r: Registers)
  {
    0 <= r.a < SignBit && 0 <= r.b < SignBit && 0 <= r.c < SignBit
  }

  lemma DivideDecreases(a: int, d: int)
    requires a >= 0 && d >= 1
    ensures 0 <= a / d <= a
  {
  }

  /** On a 3-bit program, one instruction keeps the registers non-negative 64-bit
      words and prints only digits 0..7. */
  lemma StepKeepsNonNegative(program: seq<int>, r: Registers, ip: nat)
    requires ThreeBit(program) && NonNegativeWords(r) && ip < |program|
    ensures var s := Step(program, r, ip);
            s.Next? ==> NonNegativeWords(s.regs) && forall i :: 0 <= i < |s.out| ==> 0 <= s.out[i] < 8
  {
    if ip + 1 < |program| {
      var opcode, operand := program[ip], program[ip + 1];
      SignBitIsPower();
      if opcode == 0 {
        var k := Combo(r, operand);
        if k.Some? && 0 <= k.value < 64 {
          DivideDecreases(r.a, Pow(2, k.value));
        }
      } else if opcode == 1 {
        XorBounded(r.b, operand, 63);
      } else if opcode == 4 {
        XorBounded(r.b, r.c, 63);
      } else if opcode == 6 || opcode == 7 {
        var k := Combo(r, operand);
        if k.Some? && 0 <= k.value < 63 {
          DivideDecreases(r.a, Pow(2, k.value));
        }
      }
    }
  }

  /** On a 3-bit program started from non-negative registers, every printed
      value is an octal digit. */
  lemma {:induction false} ExecPrintsOctalDigits(program: seq<int>, r: Registers, ip: nat, out: seq<int>, fuel: nat)
    requires ThreeBit(program) && NonNegativeWords(r)
    requires forall i :: 0 <= i < |out| ==> 0 <= out[i] < 8
    ensures var o := Exec(program, r, ip, out, fuel);
            NonNegativeWords(o.regs) && forall i :: 0 <= i < |o.output| ==> 0 <= o.output[i] < 8
    decreases fuel
  {
    if ip < |program| && fuel > 0 {
      StepKeepsNonNegative(program, r, ip);
      match Step(program, r, ip)
      case Fail(_) =>
      case Next(r', ip', o) => ExecPrintsOctalDigits(program, r', ip', out + o, fuel - 1);
    }
  }

  /** For a non-negative A and a shift below 63, adv, bdv and cdv all compute
      A / 2^k and differ only in the register they write. */
  lemma DivisionInstructionsAgree(program: seq<int>, r: Registers, ip: nat)
    requires ip + 1 < |program| && program[ip] in {0, 6, 7}
    requires r.a >= 0
    requires Combo(r, program[ip + 1]).Some? && 0 <= Combo(r, program[ip + 1]).value < 63
    ensures var q := r.a / Pow(2, Combo(r, program[ip + 1]).value);
            Step(program, r, ip) ==
              Next(if program[ip] == 0 then r.(a := q) else if program[ip] == 6 then r.(b := q) else r.(c := q),
                   ip + 2, [])
  {
  }

  /** bxl with the same literal twice leaves B as it was. */
  lemma BxlTwiceRestores(program: seq<int>, r: Registers, ip: nat)
    requires ip + 3 < |program| && program[ip] == 1 && program[ip + 2] == 1
    requires program[ip + 1] == program[ip + 3]
    ensures Step(program, r, ip).Next?
    ensures var s := Step(program, r, ip);
            Step(program, s.regs, ip + 2) == Next(r, ip + 4, [])
  {
    XorInvolution(r.b, program[ip + 1]);
  }

  datatype Search = Found(a: int) | RunFailed(status: Status) | GaveUp

  /** The number whose octal digits, lowest first, are the factors. */
  function Octal(factors: seq<nat>): nat
  {
    if |factors| == 0 then 0
    else Octal(factors[..|factors| - 1]) + Pow(8, |factors| - 1) * factors[|factors| - 1]
  }

  /** Part two: A = sum of factor[i] * 8^i, bumping the highest factor whose
      output digit is wrong, until the program prints itself. */
  method FindSelfPrintingA(program: seq<int>, runFuel: nat, searchFuel: nat) returns (result: Search)
    ensures result.Found? ==>
              var o := Exec(program, Registers(result.a, 0, 0), 0, [], runFuel);
              result.a >= 0 && o.output == program && o.status == Halted
    ensures result.Found? ==> exists factors: seq<nat> :: |factors| == |program| && result.a == Octal(factors)
  {
    var factors: seq<nat> := seq(|program|, _ => 0);
    var attempts := 0;
    while attempts < searchFuel
      invariant |factors| == |program|
      decreases searchFuel - attempts
    {
      var initA := 0;
      var i := 0;
      while i < |factors|
        invariant 0 <= i <= |factors|
        invariant initA == Octal(factors[..i])
      {
        assert factors[..i + 1][..i] == factors[..i];
        initA := initA + Pow(8, i) * factors[i];
        i := i + 1;
      }
      assert factors[..i] == factors;
      var computer := new Computer(program, initA, 0, 0);
      var output, status := computer.Run(runFuel);
      if status != Halted {
        return RunFailed(status);
      }
      if output == program {
        return Found(initA);
      }
      var j := |program|;
      while j > 0
        invariant 0 <= j <= |program| && |factors| == |program|
      {
        j := j - 1;
        if |output| <= j || output[j] != program[j] {
          factors := factors[j := factors[j] + 1];
          break;
        }
      }
      attempts := attempts + 1;
    }
    return GaveUp;
  }

  /** One pass of the example loop `adv 3, out 4, jnz 0` on a non-negative A:
      A is divided by 8, its new low octal digit printed, and the loop repeats
      while A is not zero. */
  lemma ExampleLoopPass(p: seq<int>, a: int, out: seq<int>, fuel: nat)
    requires p == [0, 3, 5, 4, 3, 0] && a >= 0
    ensures Exec(p, Registers(a, 0, 0), 0, out, fuel + 3) ==
              Exec(p, Registers(a / 8, 0, 0), if a / 8 != 0 then 0 else 6, out + [(a / 8) % 8], fuel)
  {
    var r := Registers(a / 8, 0, 0);
    assert Pow(2, 3) == 8;
    assert out + [] == out;
    assert Step(p, Registers(a, 0, 0), 0) == Next(r, 2, []);
    assert Exec(p, Registers(a, 0, 0), 0, out, fuel + 3) == Exec(p, r, 2, out, fuel + 2);
    assert Step(p, r, 2) == Next(r, 4, [(a / 8) % 8]);
    assert Exec(p, r, 2, out, fuel + 2) == Exec(p, r, 4, out + [(a / 8) % 8], fuel + 1);
    assert JumpTarget(0) == 0;
    var printed := out + [(a / 8) % 8];
    assert printed + [] == printed;
    if a / 8 != 0 {
      assert Step(p, r, 4) == Next(r, 0, []);
    } else {
      assert Step(p, r, 4) == Next(r, 6, []);
    }
  }

  /** What the loop `adv 3, out 4, jnz 0` prints for A: the octal digits of
      A / 8, lowest first, ending with the 0 printed when A reaches zero. */
  function ShiftedOctalDigits(a: nat): (d: seq<int>)
    ensures |d| >= 1 && d[|d| - 1] == 0
    decreases a
  {
    if a / 8 == 0 then [0] else [(a / 8) % 8] + ShiftedOctalDigits(a / 8)
  }

  /** Number of passes of that loop for A. */
  function Passes(a: nat): nat
    decreases a
  {
    if a / 8 == 0 then 1 else 1 + Passes(a / 8)
  }

  /** The example loop halts after its passes and prints the shifted octal digits. */
  lemma {:induction false} ExampleLoopOutput(p: seq<int>, a: nat, out: seq<int>, fuel: nat)
    requires p == [0, 3, 5, 4, 3, 0] && fuel >= 3 * Passes(a)
    ensures var o := Exec(p, Registers(a, 0, 0), 0, out, fuel);
            o.output == out + ShiftedOctalDigits(a) && o.status == Halted
    decreases a
  {
    var r := Registers(a / 8, 0, 0);
    var printed := out + [(a / 8) % 8];
    ExampleLoopPass(p, a, out, fuel - 3);
    if a / 8 != 0 {
      assert fuel - 3 >= 3 * Passes(a / 8);
      ExampleLoopOutput(p, a / 8, printed, fuel - 3);
      assert printed + ShiftedOctalDigits(a / 8) == out + ShiftedOctalDigits(a);
    } else {
      assert Exec(p, r, 6, printed, fuel - 3) == Outcome(r, 6, printed, Halted);
      assert ShiftedOctalDigits(a) == [0];
    }
  }

  /** The self-printing example: A = 117440 makes `0,3,5,4,3,0` print itself
      within 18 instructions. */
  lemma SelfPrintingExample(p: seq<int>, a: nat, fuel: nat)
    requires p == [0, 3, 5, 4, 3, 0] && a == 117440 && fuel >= 18
    ensures var o := Exec(p, Registers(a, 0, 0), 0, [], fuel);
            o.output == p && o.status == Halted
  {
    ExampleDigits(a);
    ExampleLoopOutput(p, a, [], fuel);
  }

  /** 117440 is 0o345300: six passes, printing 0, 3, 5, 4, 3, 0. */
  lemma ExampleDigits(a: nat)
    requires a == 117440
    ensures Passes(a) == 6 && ShiftedOctalDigits(a) == [0, 3, 5, 4, 3, 0]
  {
    ExampleLowDigits(a / 512);
    assert a / 8 == 14680 && 14680 / 8 == 1835 && 1835 / 8 == 229;
  }

  lemma ExampleLowDigits(a: nat)
    requires a == 229
    ensures Passes(a) == 3 && ShiftedOctalDigits(a) == [4, 3, 0]
  {
    assert a / 8 == 28 && 28 / 8 == 3 && 3 / 8 == 0;
  }


}
