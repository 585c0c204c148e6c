/** Helpers shared by several days: an optional value, Rust's integer operators
    on signed values, powers, and bitwise exclusive-or on unbounded integers. */
module Common {

  datatype Option<T> = None | Some(value: T)

  /** `usize::MAX` on a 64-bit target. */
  const UsizeMax: int := 0xFFFF_FFFF_FFFF_FFFF

  /** An unsigned 8-bit value, as produced by `str::bytes`. */
  type Byte = x: int | 0 <= x < 256

  function Max(a: int, b: int): int
  {
    if a < b then b else a
  }

  function Abs(x: int): (r: nat)
    ensures r == x || r == -x
  {
    if x < 0 then -x else x
  }

  function Pow(base: int, exp: nat): (r: int)
    ensures base > 0 ==> r > 0
  {
    if exp == 0 then 1 else base * Pow(base, exp - 1)
  }

  lemma {:induction false} PowAdd(base: int, m: nat, n: nat)
    ensures Pow(base, m + n) == Pow(base, m) * Pow(base, n)
  {
    if n > 0 {
      PowAdd(base, m, n - 1);
      var x, y := Pow(base, m), Pow(base, n - 1);
      assert Pow(base, m + n) == base * (x * y);
      MulLeftSwap(base, x, y);
    }
  }

  lemma MulLeftSwap(a: int, b: int, c: int)
    ensures a * (b * c) == b * (a * c)
  {
  }

  lemma {:induction false} PowMonotone(base: int, m: nat, n: nat)
    requires base > 1 && m < n
    ensures Pow(base, m) < Pow(base, n)
  {
    if n == m + 1 {
    } else {
      PowMonotone(base, m, n - 1);
    }
  }

  /** Rust's `/` on signed integers: the quotient truncated toward zero. */
  function TruncDiv(a: int, b: int): (q: int)
    requires b != 0
    ensures b > 0 ==> q == (if a >= 0 then a / b else -((-a) / b))
  {
    var q := Abs(a) / Abs(b);
    if (a >= 0) == (b > 0) then q else -q
  }

  /** Rust's `%` on signed integers: the remainder takes the sign of the dividend. */
  function TruncRem(a: int, b: int): (r: int)
    requires b != 0
    ensures b > 0 ==> r == (if a >= 0 then a % b else -((-a) % b))
  {
    a - b * TruncDiv(a, b)
  }

  /** The truncated remainder is smaller than the divisor in magnitude, and
      quotient and remainder rebuild the dividend. */
  lemma TruncRemSmall(a: int, b: int)
    requires b != 0
    ensures Abs(TruncRem(a, b)) < Abs(b)
    ensures a == b * TruncDiv(a, b) + TruncRem(a, b)
  {
    var n: int, m: int := Abs(a), Abs(b);
    var q: int, r: int := n / m, n % m;
    assert n == m * q + r && 0 <= r < m;
    assert TruncDiv(a, b) == if (a >= 0) == (b > 0) then q else -q;
    NegMul(m, q);
    if a >= 0 && b > 0 {
      assert TruncRem(a, b) == r;
    } else if a >= 0 {
      assert b * TruncDiv(a, b) == (-m) * (-q) == m * q;
    } else if b > 0 {
      assert b * TruncDiv(a, b) == m * (-q) == -(m * q);
    } else {
      assert b * TruncDiv(a, b) == (-m) * q == -(m * q);
    }
  }

  lemma NegMul(x: int, y: int)
    ensures (-x) * y == -(x * y) && x * (-y) == -(x * y) && (-x) * (-y) == x * y
  {
  }

  lemma MulNonNegative(x: int, y: int)
    requires x >= 0 && y >= 0
    ensures x * y >= 0
  {
  }

  /** Dividing an exact multiple truncates nothing. */
  lemma TruncDivExact(d: int, k: int)
    requires d != 0
    ensures TruncDiv(d * k, d) == k && TruncRem(d * k, d) == 0
  {
    var n := d * k;
    NegMul(d, k);
    MulNonNegative(Abs(d), Abs(k));
    assert Abs(n) == Abs(d) * Abs(k);
    MulDivCancel(Abs(d), Abs(k));
    assert TruncDiv(n, d) == k by {
      if k != 0 {
        MulNonZero(Abs(d), Abs(k));
      }
    }
  }

  lemma MulNonZero(x: int, y: int)
    requires x > 0 && y > 0
    ensures x * y > 0
  {
    MulNonNegative(x, y - 1);
    assert x * y == x * (y - 1) + x;
  }

  lemma MulDivCancel(d: nat, k: nat)
    requires d > 0
    ensures (d * k) / d == k
  {
    DivUnique(d * k, d, k, 0);
  }

  /** Euclidean division has one quotient and remainder. */
  lemma DivUnique(n: int, d: int, q: int, r: int)
    requires d > 0 && n == d * q + r && 0 <= r < d
    ensures n / d == q && n % d == r
  {
    var q', r' := n / d, n % d;
    assert d * (q - q') == r' - r;
    SmallMultiple(d, q - q');
  }

  /** The only multiple of d strictly between -d and d is zero. */
  lemma SmallMultiple(d: int, x: int)
    requires d > 0 && -d < d * x < d
    ensures x == 0
  {
    if x > 0 {
      MulNonNegative(d, x - 1);
    } else if x < 0 {
      MulNonNegative(d, -x - 1);
    }
  }

  /** Bitwise exclusive-or of two integers in two's complement (negative numbers
      have infinitely many leading one bits), which is what Rust's `^` computes
      on signed and unsigned values that fit their type. */
  function Xor(a: int, b: int): int
    decreases Abs(a) + Abs(b)
  {
    if (a == 0 || a == -1) && (b == 0 || b == -1) then
      (if a == b then 0 else -1)
    else
      2 * Xor(a / 2, b / 2) + (if a % 2 == b % 2 then 0 else 1)
  }

  lemma {:induction false} XorNonNegative(a: int, b: int)
    requires a >= 0 && b >= 0
    ensures Xor(a, b) >= 0
    decreases a + b
  {
    if a == 0 && b == 0 {
    } else {
      XorNonNegative(a / 2, b / 2);
    }
  }

  /** Exclusive-or with the same value twice is the identity. */
  lemma {:induction false} XorInvolution(a: int, k: int)
    ensures Xor(Xor(a, k), k) == a
    decreases Abs(a) + Abs(k)
  {
    if (a == 0 || a == -1) && (k == 0 || k == -1) {
    } else {
      var x := Xor(a, k);
      assert x == 2 * Xor(a / 2, k / 2) + (if a % 2 == k % 2 then 0 else 1);
      assert x / 2 == Xor(a / 2, k / 2);
      assert x % 2 == (if a % 2 == k % 2 then 0 else 1);
      XorInvolution(a / 2, k / 2);
      if (x == 0 || x == -1) && (k == 0 || k == -1) {
        XorSmall(a, k);
      }
    }
  }

  lemma XorSmall(a: int, k: int)
    requires !((a == 0 || a == -1) && (k == 0 || k == -1))
    requires k == 0 || k == -1
    ensures Xor(a, k) != 0 && Xor(a, k) != -1
  {
    if k == 0 {
      XorZero(a);
    } else {
      XorMinusOne(a);
    }
  }

  lemma {:induction false} XorZero(a: int)
    ensures Xor(a, 0) == a
    decreases Abs(a)
  {
    if a != 0 && a != -1 {
      XorZero(a / 2);
    }
  }

  lemma {:induction false} XorMinusOne(a: int)
    ensures Xor(a, -1) == -a - 1
    decreases Abs(a)
  {
    if a != 0 && a != -1 {
      XorMinusOne(a / 2);
    }
  }

  /** Both operands below 2^n: so is their exclusive-or. */
  lemma {:induction false} XorBounded(a: int, b: int, n: nat)
    requires 0 <= a < Pow(2, n) && 0 <= b < Pow(2, n)
    ensures 0 <= Xor(a, b) < Pow(2, n)
    decreases n
  {
    XorNonNegative(a, b);
    if a == 0 && b == 0 {
    } else {
      assert n > 0;
      XorBounded(a / 2, b / 2, n - 1);
    }
  }

  /** The low n bits of an exclusive-or depend only on the low n bits of its
      operands. */
  lemma {:induction false} XorLowBits(a: nat, b: nat, n: nat)
    ensures Xor(a, b) % Pow(2, n) == Xor(a % Pow(2, n), b % Pow(2, n))
    decreases n
  {
    if n == 0 {
      assert Pow(2, n) == 1;
      assert Xor(0, 0) == 0;
    } else if a == 0 && b == 0 {
      assert Xor(0, 0) == 0;
    } else {
      var p := Pow(2, n - 1);
      var m := 2 * p;
      assert Pow(2, n) == m;
      var x := Xor(a / 2, b / 2);
      var c := if a % 2 == b % 2 then 0 else 1;
      assert Xor(a, b) == 2 * x + c;
      XorNonNegative(a / 2, b / 2);
      DoubleMod(x, c, p);
      var a', b' := a % m, b % m;
      HalfMod(a, p);
      HalfMod(b, p);
      XorLowBits(a / 2, b / 2, n - 1);
      assert x % p == Xor(a' / 2, b' / 2);
      XorUnfold(a', b');
      assert Xor(a', b') == 2 * (x % p) + c;
    }
  }

  lemma XorUnfold(a: nat, b: nat)
    ensures Xor(a, b) == 2 * Xor(a / 2, b / 2) + (if a % 2 == b % 2 then 0 else 1)
  {
  }

  lemma DoubleMod(x: nat, c: nat, p: nat)
    requires c < 2 && p > 0
    ensures (2 * x + c) % (2 * p) == 2 * (x % p) + c
  {
    var q, r := x / p, x % p;
    assert 2 * x + c == (2 * p) * q + (2 * r + c);
    DivUnique(2 * x + c, 2 * p, q, 2 * r + c);
  }

  /** Halving commutes with reduction modulo an even number 2p. */
  lemma HalfMod(a: nat, p: nat)
    requires p > 0
    ensures (a % (2 * p)) / 2 == (a / 2) % p
    ensures (a % (2 * p)) % 2 == a % 2
  {
    var q, r := a / (2 * p), a % (2 * p);
    assert a == 2 * (p * q + r / 2) + r % 2;
    DivUnique(a, 2, p * q + r / 2, r % 2);
    DivUnique(a / 2, p, q, r / 2);
  }

  /** Reduction modulo m commutes with multiplication by k. */
  lemma MulMod(s: nat, k: nat, m: nat)
    requires m > 0
    ensures (s * k) % m == ((s % m) * k) % m
  {
    var q, r := s / m, s % m;
    var q2, r2 := (r * k) / m, (r * k) % m;
    assert s * k == (m * q + r) * k == m * (q * k) + r * k;
    assert s * k == m * (q * k + q2) + r2;
    DivUnique(s * k, m, q * k + q2, r2);
  }

  lemma ModIdempotent(s: nat, m: nat)
    requires m > 0
    ensures (s % m) % m == s % m
  {
    DivUnique(s % m, m, 0, s % m);
  }

  lemma MulAddDistrib(x: int, y: int, k: int)
    ensures (x + y) * k == x * k + y * k
  {
  }

  lemma MulAssocSwap(x: int, y: int, k: int)
    ensures (x * y) * k == x * (k * y)
  {
  }

  lemma MulComm(x: int, y: int)
    ensures x * y == y * x
  {
  }

  lemma MulMonotone(k: int, a: int, b: int)
    requires k >= 0 && a <= b
    ensures k * a <= k * b
  {
    MulNonNegative(k, b - a);
    MulAddDistrib(b - a, a, k);
  }

  /** The row-major index of (row, col) in a grid of the given width. */
  function FlatIndex(row: int, col: int, width: int): int
  {
    row * width + col
  }

  lemma FlatIndexInGrid(row: int, col: int, width: int, height: int)
    requires 0 <= col < width && 0 <= row < height
    ensures 0 <= FlatIndex(row, col, width) < width * height
  {
    MulNonNegative(row, width);
    MulMonotone(width, row + 1, height);
    MulAddDistrib(row, 1, width);
    MulComm(width, row + 1);
    MulComm(width, height);
  }

  /** Different cells of a row-major grid have different indices. */
  lemma FlatIndexInjective(row1: int, col1: int, row2: int, col2: int, width: int)
    requires 0 <= col1 < width && 0 <= col2 < width
    requires FlatIndex(row1, col1, width) == FlatIndex(row2, col2, width)
    ensures row1 == row2 && col1 == col2
  {
    MulComm(row1, width);
    MulComm(row2, width);
    DivUnique(FlatIndex(row1, col1, width), width, row1, col1);
    DivUnique(FlatIndex(row2, col2, width), width, row2, col2);
  }
}
