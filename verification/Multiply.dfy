// Mult: the R2000's multiplication, one bit of the multiplier at a time.
module Multiply {
  import opened Codec

  const W := 0x1_0000_0000

  /** `-x` in 32 bits: the most negative int is its own negation. */
  function Negated(x: int32): int32 {
    if x == INT_MIN then INT_MIN else -x
  }

  /** A double word. */
  function Double(hi: nat, lo: nat): (d: nat)
    requires hi < W && lo < W
  {
    hi * W + lo
  }

  function Product(x: nat, y: nat): (p: nat) {
    x * y
  }

  function Pow2(n: nat): (p: nat)
    ensures p > 0
  {
    if n == 0 then 1 else 2 * Pow2(n - 1)
  }

  lemma {:induction false} Pow2Bound(n: nat)
    requires n <= 32
    ensures Pow2(n) <= W
    decreases 32 - n
  {
    if n < 32 {
      Pow2Bound(n + 1);
    } else {
      assert Pow2(8) == 256;
      assert Pow2(16) == 256 * Pow2(8);
      assert Pow2(24) == 256 * Pow2(16);
      assert Pow2(32) == 256 * Pow2(24);
    }
  }

  /** Adding with the carry taken from the wrap-around of the low word. */
  lemma AddCarry(hi: nat, lo: nat, bHi: nat, bLo: nat)
    requires hi < W && lo < W && bHi < W && bLo < W && Double(hi, lo) + Double(bHi, bLo) < W * W
    ensures var l := (lo + bLo) % W; var c := if l < bLo then 1 else 0;
            hi + c + bHi < W && Double(hi + c + bHi, l) == Double(hi, lo) + Double(bHi, bLo)
  {
    var l := (lo + bLo) % W;
    var c := if l < bLo then 1 else 0;
    assert lo + bLo == c * W + l;
    assert (hi + c + bHi) * W + l < W * W;
  }

  /** Doubling, with the top bit of the low word carried into the high word. */
  lemma Doubled(bHi: nat, bLo: nat)
    requires bHi < W && bLo < W && 2 * Double(bHi, bLo) < W * W
    ensures var h := 2 * bHi % W + if bLo >= W / 2 then 1 else 0;
            h < W && Double(h, 2 * bLo % W) == 2 * Double(bHi, bLo)
  {
    var carry := if bLo >= W / 2 then 1 else 0;
    assert 2 * bLo == carry * W + 2 * bLo % W;
    assert (2 * bHi + carry) * W <= 2 * (bHi * W + bLo) < W * W;
    assert 2 * bHi + carry < W;
  }

  /** What one turn does to the sum and to what remains of the product. */
  lemma Turn(acc: nat, ra: nat, B: nat, P: nat)
    requires acc + Product(ra, B) == P
    ensures ra % 2 == 1 ==> acc + B + Product(ra / 2, 2 * B) == P && acc + B <= P
    ensures ra % 2 == 0 ==> acc + Product(ra / 2, 2 * B) == P
  {
    assert ra == 2 * (ra / 2) + ra % 2;
    assert (2 * (ra / 2)) * B == ra / 2 * (2 * B);
    assert ra % 2 == 1 ==> ra * B == (2 * (ra / 2)) * B + B;
  }

  lemma ProductBound(a: nat, b: nat)
    requires a < W && b <= W
    ensures Product(a, b) < W * W && Product(0, b) == 0 && Product(b, 1) == b
  {
    assert a * b <= a * W;
    assert a * W < W * W;
  }

  /** Shifting `a` as a signed int: its low bit is that of the unsigned remainder, and once the
      remainder is spent there is nothing left to add. */
  lemma Shifted(a: int, ra: nat, width: nat, negative: bool)
    requires ra < 2 * width && a == ra - if negative then 2 * width else 0
    ensures a % 2 == ra % 2 && ra / 2 < width && a / 2 == ra / 2 - if negative then width else 0
    ensures a == 0 || a == 1 ==> ra == a
  {
  }

  lemma Power(b: nat, n: nat)
    requires b < W && n < 32
    ensures 2 * Product(b, Pow2(n)) == Product(b, Pow2(n + 1)) < W * W
  {
    Pow2Bound(n + 1);
    ProductBound(b, Pow2(n + 1));
    assert 2 * (b * Pow2(n)) == b * (2 * Pow2(n));
  }

  lemma Start(a: nat, b: nat)
    requires a < W && b < W
    ensures Pow2(32) == W && Pow2(0) == 1 && Double(0, b) == Product(b, Pow2(0))
    ensures Double(0, 0) + Product(a, Double(0, b)) == Product(a, b) < W * W
  {
    assert Pow2(8) == 256 && Pow2(16) == 256 * Pow2(8) && Pow2(24) == 256 * Pow2(16) && Pow2(32) == 256 * Pow2(24);
    ProductBound(a, b);
  }

  lemma Halved(n: nat)
    requires n > 0
    ensures Pow2(n) == 2 * Pow2(n - 1)
  {
  }

  /** The loop: the product of two unsigned words, although `a` is shifted as a signed int and the loop
      stops early. */
  method MultiplyBits(a0: int32, b: int32) returns (hi: nat, lo: nat)
    ensures hi < W && lo < W && Double(hi, lo) == Product(Unsigned(a0), Unsigned(b))
  {
    var a: int := a0;
    var bLo: nat, bHi: nat := Unsigned(b), 0;
    lo, hi := 0, 0;
    ghost var P: nat, ra: nat := Product(Unsigned(a0), Unsigned(b)), Unsigned(a0);
    Start(Unsigned(a0), Unsigned(b));
    hide Double, Product, Pow2, Unsigned;
    var i := 0;
    while i < 32
      invariant 0 <= i <= 32 && hi < W && lo < W && bHi < W && bLo < W
      invariant Double(bHi, bLo) == Product(Unsigned(b), Pow2(i))
      invariant ra < Pow2(32 - i) && a == ra - if a0 < 0 then Pow2(32 - i) else 0
      invariant Double(hi, lo) + Product(ra, Double(bHi, bLo)) == P
    {
      ghost var B := Double(bHi, bLo);
      Turn(Double(hi, lo), ra, B, P);
      Halved(32 - i);
      Shifted(a, ra, Pow2(32 - i - 1), a0 < 0);
      Power(Unsigned(b), i);
      if a % 2 != 0 {
        AddCarry(hi, lo, bHi, bLo);
        lo := (lo + bLo) % W;
        hi := hi + (if lo < bLo then 1 else 0) + bHi;
        if a == 0 || a == 1 {
          ZeroProduct(2 * B);
          break;
        }
      }
      Doubled(bHi, bLo);
      bHi := 2 * bHi % W + if bLo >= W / 2 then 1 else 0;
      bLo := 2 * bLo % W;
      a := a / 2;
      ra := ra / 2;
      i := i + 1;
    }
    ZeroProduct(Double(bHi, bLo));
  }

  lemma ZeroProduct(b: nat)
    ensures Product(0, b) == 0
  {
  }

  /** The two's complement of a double word. */
  method Complement(h: nat, l: nat) returns (hi: nat, lo: nat)
    requires h < W && l < W && Double(h, l) > 0
    ensures hi < W && lo < W && Double(hi, lo) == W * W - Double(h, l)
  {
    hi, lo := W - 1 - h, W - 1 - l;
    lo := (lo + 1) % W;
    if lo == 0 {
      hi := (hi + 1) % W;
    }
  }

  /** Mult: the exact 64-bit product of all operands, signed or unsigned. */
  method Mult(a: int32, b: int32, signedArith: bool) returns (hi: int32, lo: int32)
    ensures signedArith ==> hi * W + Unsigned(lo) == a * b
    ensures !signedArith ==> Unsigned(hi) * W + Unsigned(lo) == Unsigned(a) * Unsigned(b)
  {
    if a == 0 || b == 0 {
      return 0, 0;
    }
    var negative, x, y := false, a, b;
    if signedArith {
      if x < 0 {
        negative, x := !negative, Negated(x);
      }
      if y < 0 {
        negative, y := !negative, Negated(y);
      }
      Magnitudes(a, b);
    }
    var h, l := MultiplyBits(x, y);
    if negative {
      h, l := Complement(h, l);
      NegativeWord(Product(Abs(a), Abs(b)), h, l);
    } else if signedArith {
      PositiveWord(Product(Abs(a), Abs(b)), h, l);
    }
    hi, lo := AsInt(h), AsInt(l);
  }

  function Abs(x: int): nat {
    if x < 0 then -x else x
  }

  lemma Magnitudes(a: int32, b: int32)
    requires a != 0 && b != 0
    ensures Unsigned(if a < 0 then Negated(a) else a) == Abs(a) && Unsigned(if b < 0 then Negated(b) else b) == Abs(b)
    ensures 0 < Product(Abs(a), Abs(b)) <= 0x4000_0000 * W
    ensures a * b == if (a < 0) != (b < 0) then -(Product(Abs(a), Abs(b)) as int) else Product(Abs(a), Abs(b)) as int
  {
    assert Abs(a) * Abs(b) <= Abs(a) * 0x8000_0000 <= 0x8000_0000 * 0x8000_0000;
  }

  lemma PositiveWord(p: nat, h: nat, l: nat)
    requires h < W && l < W && Double(h, l) == p <= 0x4000_0000 * W
    ensures AsInt(h) * W + Unsigned(AsInt(l)) == p
  {
  }

  lemma NegativeWord(p: nat, h: nat, l: nat)
    requires h < W && l < W && 0 < p <= 0x4000_0000 * W && Double(h, l) == W * W - p
    ensures AsInt(h) * W + Unsigned(AsInt(l)) == -(p as int)
  {
  }
}
