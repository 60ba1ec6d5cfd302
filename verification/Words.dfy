// 32-bit words as the C of the simulator computes with them: wrapping sums, bits, shifts, division.
module Words {
  import opened Codec
  import opened Multiply

  function Wrap(x: int): int32 {
    AsInt(x % W)
  }

  function Plus(a: int32, b: int32): int32 {
    Wrap(a as int + b as int)
  }

  function Minus(a: int32, b: int32): int32 {
    Wrap(a as int - b as int)
  }

  /** `&`, `|`, `^` and the complement of `|`, bit by bit. */
  datatype Logic = Both | Either | Differ | Neither

  predicate Combined(l: Logic, a: bool, b: bool) {
    match l
    case Both => a && b
    case Either => a || b
    case Differ => a != b
    case Neither => !a && !b
  }

  function Bitwise(l: Logic, x: nat, y: nat, n: nat): (z: nat)
    ensures z < Pow2(n)
  {
    if n == 0 then 0
    else (if Combined(l, x % 2 == 1, y % 2 == 1) then 1 else 0) + 2 * Bitwise(l, x / 2, y / 2, n - 1)
  }

  function Logical(l: Logic, a: int32, b: int32): int32 {
    Pow2Bound(32);
    AsInt(Bitwise(l, Unsigned(a), Unsigned(b), 32))
  }

  predicate Bit(x: nat, k: nat) {
    x / Pow2(k) % 2 == 1
  }

  lemma HalfBit(x: nat, k: nat)
    requires k > 0
    ensures Bit(x, k) <==> Bit(x / 2, k - 1)
  {
    DivDiv(x, Pow2(k - 1));
  }

  lemma DivDiv(x: nat, p: nat)
    requires p > 0
    ensures x / (2 * p) == x / 2 / p
  {
    var h := x / 2;
    var q, r := h / p, h % p;
    assert h == q * p + r;
    assert x == q * (2 * p) + (2 * r + x % 2);
    QuotientIs(x, 2 * p, q, 2 * r + x % 2);
  }

  lemma QuotientIs(x: int, d: nat, q: int, r: nat)
    requires d > 0 && x == q * d + r && r < d
    ensures x / d == q
  {
    Times(x / d - q, d);
    assert x == x / d * d + x % d;
    assert (x / d - q) * d == x / d * d - q * d;
  }

  lemma Times(q: int, d: nat)
    requires d > 0
    ensures q >= 0 ==> q * d >= q
    ensures q > 0 ==> q * d >= d
    ensures q < 0 ==> q * d <= q && q * d <= 0 - d
  {
    if q > 0 {
      assert q * d == d + (q - 1) * d;
    } else if q < 0 {
      assert q * d == (q + 1) * d - d;
    }
  }

  /** Bit `k` of the result depends on the bits `k` of the operands only. */
  lemma {:induction false} BitwiseBit(l: Logic, x: nat, y: nat, n: nat, k: nat)
    requires k < n
    ensures Bit(Bitwise(l, x, y, n), k) <==> Combined(l, Bit(x, k), Bit(y, k))
  {
    var z := Bitwise(l, x, y, n);
    if k == 0 {
      assert Pow2(0) == 1;
    } else {
      HalfBit(x, k);
      HalfBit(y, k);
      HalfBit(z, k);
      assert z / 2 == Bitwise(l, x / 2, y / 2, n - 1);
      BitwiseBit(l, x / 2, y / 2, n - 1, k - 1);
    }
  }

  lemma SignBit(a: int32)
    ensures Bit(Unsigned(a), 31) <==> a < 0
  {
    Start(0, 0);
    Halved(32);
  }

  lemma LogicalSign(l: Logic, a: int32, b: int32)
    ensures Logical(l, a, b) < 0 <==> Combined(l, a < 0, b < 0)
  {
    BitwiseBit(l, Unsigned(a), Unsigned(b), 32, 31);
    SignBit(a);
    SignBit(b);
    SignBit(Logical(l, a, b));
    Pow2Bound(32);
  }

  /** The sign-bit tests of ADD, ADDI and SUB hold exactly if the true sum or difference is no int. */
  lemma AddTest(a: int32, b: int32)
    ensures var sum := Plus(a, b);
      (Logical(Differ, a, b) >= 0 && Logical(Differ, a, sum) < 0) <==> !(INT_MIN <= a + b <= INT_MAX)
  {
    LogicalSign(Differ, a, b);
    LogicalSign(Differ, a, Plus(a, b));
    hide Logical;
  }

  lemma SubTest(a: int32, b: int32)
    ensures var diff := Minus(a, b);
      (Logical(Differ, a, b) < 0 && Logical(Differ, a, diff) < 0) <==> !(INT_MIN <= a - b <= INT_MAX)
  {
    LogicalSign(Differ, a, b);
    LogicalSign(Differ, a, Minus(a, b));
    hide Logical;
  }

  function ShiftLeft(a: int32, n: nat): int32 {
    Wrap(Unsigned(a) * Pow2(n))
  }

  /** `>>` on an int. */
  function ShiftRight(a: int32, n: nat): int32 {
    Quotient(a, Pow2(n));
    a / Pow2(n)
  }

  lemma Quotient(a: int, d: nat)
    requires d > 0
    ensures a >= 0 ==> 0 <= a / d <= a
    ensures a < 0 ==> a <= a / d < 0
  {
    QuotientSign(a, d, a / d, a % d);
  }

  lemma QuotientSign(a: int, d: nat, q: int, r: nat)
    requires d > r && a == q * d + r
    ensures a >= 0 ==> 0 <= q <= a
    ensures a < 0 ==> a <= q < 0
  {
    Times(q, d);
    Times(q + 1, d);
    assert (q + 1) * d == q * d + d;
    QuotientFrom(a, d, q, r, q * d, (q + 1) * d);
  }

  lemma QuotientFrom(a: int, d: nat, q: int, r: nat, p: int, next: int)
    requires d > r && a == p + r && next == p + d
    requires q >= 0 ==> p >= q
    requires q < 0 ==> p <= 0 - d
    requires q + 1 < 0 ==> next <= q + 1
    ensures a >= 0 ==> 0 <= q <= a
    ensures a < 0 ==> a <= q < 0
  {
  }

  lemma Halves(a: nat, d: nat)
    requires d >= 2
    ensures 2 * (a / d) <= a
  {
    var q := a / d;
    assert a == q * d + a % d;
    assert q * d == q * 2 + q * (d - 2);
    if q > 0 && d > 2 {
      Times(q, d - 2);
    }
  }

  /** The shift that SRL and SRLV are for. */
  function LogicalShiftRight(a: int32, n: nat): int32 {
    Quotient(Unsigned(a), Pow2(n));
    AsInt(Unsigned(a) / Pow2(n))
  }

  /** They shift an int instead, which is the same exactly on nonnegative operands or by nothing. */
  lemma ShiftsAgree(a: int32, n: nat)
    ensures ShiftRight(a, n) == LogicalShiftRight(a, n) <==> a >= 0 || n == 0
  {
    ShiftSigns(a, n);
    if a >= 0 {
      assert Unsigned(a) == a;
      Quotient(a, Pow2(n));
    } else if n == 0 {
      assert Pow2(0) == 1;
    }
    hide ShiftRight, LogicalShiftRight;
  }

  lemma ShiftSigns(a: int32, n: nat)
    ensures a < 0 ==> ShiftRight(a, n) < 0
    ensures n > 0 ==> LogicalShiftRight(a, n) >= 0
  {
    Quotient(a, Pow2(n));
    if n > 0 {
      Halves(Unsigned(a), Pow2(n));
      Quotient(Unsigned(a), Pow2(n));
    }
  }

  /** C's division, which truncates. */
  function Div(a: int32, b: int32): int
    requires b != 0
  {
    var q := Abs(a) / Abs(b);
    if (a < 0) != (b < 0) then -q else q
  }

  function Mod(a: int32, b: int32): int
    requires b != 0
  {
    var r := Abs(a) % Abs(b);
    if a < 0 then -r else r
  }

  /** Quotient and remainder make up the dividend. */
  lemma Division(a: int32, b: int32)
    requires b != 0
    ensures a == Div(a, b) * b + Mod(a, b)
  {
    var x, y := Abs(a), Abs(b);
    NatDivision(x, y);
    Truncated(a, b, x / y, x % y);
  }

  lemma NatDivision(x: nat, y: nat)
    requires y > 0
    ensures x / y >= 0 && x % y >= 0 && x == x / y * y + x % y
  {
  }

  /** The remainder is smaller than the divisor and has the sign of the dividend. */
  lemma RemainderSmall(a: int32, b: int32)
    requires b != 0
    ensures INT_MIN <= Mod(a, b) <= INT_MAX
    ensures Abs(Mod(a, b) as int32) < Abs(b) && (Mod(a, b) == 0 || (Mod(a, b) < 0 <==> a < 0))
  {
  }

  /** The quotient is an int except when the most negative one is divided by -1. */
  lemma QuotientInt(a: int32, b: int32)
    requires b != 0
    ensures INT_MIN <= Div(a, b) <= INT_MAX <==> !(a == INT_MIN && b == -1)
  {
    var x, y := Abs(a), Abs(b);
    Quotient(x, y);
    if y >= 2 {
      Halves(x, y);
    } else {
      assert x / y == x;
    }
  }

  lemma Truncated(a: int, b: int, q: nat, r: nat)
    requires b != 0
    requires (if a < 0 then -a else a) == q * (if b < 0 then -b else b) + r
    ensures a == (if (a < 0) != (b < 0) then 0 - q else q) * b + if a < 0 then 0 - r else r
  {
    assert q * (-b) == -(q * b) && (0 - q) * b == -(q * b);
  }
}
