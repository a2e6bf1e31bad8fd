/**
 * The multiply and divide instructions (`src/emulator/cpu/instructions/op-m.ts`) as functions of
 * the operand registers. Division truncates toward zero as in the source, unlike Dafny's `/`.
 */
module OpM {
  import opened Bytes
  import opened Common

  function Remainder(x: nat, y: nat): nat
    requires y != 0
  {
    x % y
  }

  /** Remainder with the dividend's sign. */
  function TruncatedRemainder(a: int, b: int): int
    requires b != 0
  {
    var r: int := Remainder(Magnitude(a), Magnitude(b));
    if a < 0 then -r else r
  }

  predicate Overflows(a: int, b: int) { a == -TWO_TO_63 && b == -1 }

  function Mul(a: Xlen, b: Xlen): Xlen { ToBytes(8, LittleEndian(a) * LittleEndian(b)) }
  function Mulh(a: Xlen, b: Xlen): Xlen { ToBytes(8, Signed(a) * Signed(b) / TWO_TO_64) }
  function Mulhsu(a: Xlen, b: Xlen): Xlen { ToBytes(8, Signed(a) * LittleEndian(b) / TWO_TO_64) }
  function Mulhu(a: Xlen, b: Xlen): Xlen { ToBytes(8, LittleEndian(a) * LittleEndian(b) / TWO_TO_64) }

  function Div(a: Xlen, b: Xlen): Xlen {
    var x, y := Signed(a), Signed(b);
    ToBytes(8, if y == 0 then -1 else if Overflows(x, y) then x else Truncated(x, y))
  }

  function Rem(a: Xlen, b: Xlen): Xlen {
    var x, y := Signed(a), Signed(b);
    ToBytes(8, if y == 0 then x else if Overflows(x, y) then 0 else TruncatedRemainder(x, y))
  }

  function Divu(a: Xlen, b: Xlen): Xlen {
    ToBytes(8, if LittleEndian(b) == 0 then TWO_TO_64 - 1 else Quotient(LittleEndian(a), LittleEndian(b)))
  }

  function Remu(a: Xlen, b: Xlen): Xlen {
    ToBytes(8, if LittleEndian(b) == 0 then LittleEndian(a) else Remainder(LittleEndian(a), LittleEndian(b)))
  }

  // ---------- Values of packed results ----------

  lemma UnsignedOfPacked(v: int)
    requires 0 <= v < TWO_TO_64
    ensures LittleEndian(ToBytes(8, v)) == v
  {
    Pow2Constants();
    LittleEndianOfToBytes(8, v);
    ModUnique(v, TWO_TO_64, 0, v);
  }

  lemma SignedOfPacked(v: int)
    requires -TWO_TO_63 <= v < TWO_TO_63
    ensures Signed(ToBytes(8, v)) == v
  {
    Pow2Constants();
    LittleEndianOfToBytes(8, v);
    if v >= 0 {
      ModUnique(v, TWO_TO_64, 0, v);
    } else {
      ModUnique(v, TWO_TO_64, -1, v + TWO_TO_64);
    }
  }

  /** `Signed` and `LittleEndian` differ by a multiple of 2^64. */
  lemma SignedIsUnsignedLess(a: Xlen) returns (k: int)
    ensures Signed(a) == LittleEndian(a) - k * TWO_TO_64 && (k == 0 || k == 1)
  {
    k := if LittleEndian(a) >= TWO_TO_63 then 1 else 0;
  }

  lemma UnsignedRange(a: Xlen)
    ensures LittleEndian(a) < TWO_TO_64
  {
    Pow2Constants();
  }

  // ---------- Multiplication ----------

  /** A product's remainder modulo 2^64 does not depend on whether its factors were read as signed. */
  lemma LowHalf(x: int, y: int, j: int, k: int)
    ensures (x * y) % TWO_TO_64 == ((x - j * TWO_TO_64) * (y - k * TWO_TO_64)) % TWO_TO_64
  {
    var m, q, r := TWO_TO_64, x * y / TWO_TO_64, x * y % TWO_TO_64;
    var shift := j * y + k * x - j * k * m;
    assert (x - j * m) * (y - k * m) == x * y - shift * m by {
      assert (x - j * m) * (y - k * m) == x * (y - k * m) - (j * m) * (y - k * m);
      assert x * (y - k * m) == x * y - (k * x) * m;
      assert (j * m) * (y - k * m) == (j * y) * m - (j * k * m) * m;
      assert shift * m == (j * y) * m + (k * x) * m - (j * k * m) * m;
    }
    assert x * y == q * m + r;
    assert (q - shift) * m == q * m - shift * m;
    ModUnique((x - j * m) * (y - k * m), m, q - shift, r);
  }

  lemma ProductRange(x: int, y: int, lowX: int, highX: int, highY: nat)
    requires lowX <= x <= highX && 0 <= y <= highY && lowX <= 0 <= highX
    ensures lowX * highY <= x * y <= highX * highY
  {
    MulMonotone(x, highX, y);
    MulMonotone(lowX, x, y);
    MulMonotone(y, highY, highX);
    MulMonotone(y, highY, -lowX);
  }

  lemma SignedProductRange(x: int, y: int)
    requires -TWO_TO_63 <= x < TWO_TO_63 && -TWO_TO_63 <= y < TWO_TO_63
    ensures -TWO_TO_63 <= x * y / TWO_TO_64 < TWO_TO_63
  {
    if y >= 0 {
      ProductRange(x, y, -TWO_TO_63, TWO_TO_63, TWO_TO_63);
    } else {
      ProductRange(-x, -y, -TWO_TO_63, TWO_TO_63, TWO_TO_63);
      assert x * y == (-x) * (-y);
    }
  }

  lemma Halves(product: int, low: int, high: int)
    requires low == product % TWO_TO_64 && high == product / TWO_TO_64
    ensures high * TWO_TO_64 + low == product
  {
  }

  /** mulh and mul are the two halves of the signed 128-bit product. */
  lemma SignedProduct(a: Xlen, b: Xlen)
    ensures Signed(Mulh(a, b)) * TWO_TO_64 + LittleEndian(Mul(a, b)) == Signed(a) * Signed(b)
  {
    Pow2Constants();
    var x, y := Signed(a), Signed(b);
    var j := SignedIsUnsignedLess(a);
    var k := SignedIsUnsignedLess(b);
    LittleEndianOfToBytes(8, LittleEndian(a) * LittleEndian(b));
    LowHalf(LittleEndian(a), LittleEndian(b), j, k);
    SignedProductRange(x, y);
    SignedOfPacked(x * y / TWO_TO_64);
    Halves(x * y, LittleEndian(Mul(a, b)), Signed(Mulh(a, b)));
  }

  /** mulhsu and mul are the two halves of the product of a signed and an unsigned factor. */
  lemma MixedProduct(a: Xlen, b: Xlen)
    ensures Signed(Mulhsu(a, b)) * TWO_TO_64 + LittleEndian(Mul(a, b)) == Signed(a) * LittleEndian(b)
  {
    Pow2Constants();
    var x, y := Signed(a), LittleEndian(b);
    var j := SignedIsUnsignedLess(a);
    LittleEndianOfToBytes(8, LittleEndian(a) * LittleEndian(b));
    LowHalf(LittleEndian(a), y, j, 0);
    ProductRange(x, y, -TWO_TO_63, TWO_TO_63 - 1, TWO_TO_64 - 1);
    SignedOfPacked(x * y / TWO_TO_64);
    Halves(x * y, LittleEndian(Mul(a, b)), Signed(Mulhsu(a, b)));
  }

  /** mulhu and mul are the two halves of the unsigned product. */
  lemma UnsignedProduct(a: Xlen, b: Xlen)
    ensures LittleEndian(Mulhu(a, b)) * TWO_TO_64 + LittleEndian(Mul(a, b)) == LittleEndian(a) * LittleEndian(b)
  {
    Pow2Constants();
    var x, y := LittleEndian(a), LittleEndian(b);
    LittleEndianOfToBytes(8, x * y);
    ProductRange(x, y, 0, TWO_TO_64 - 1, TWO_TO_64 - 1);
    UnsignedOfPacked(x * y / TWO_TO_64);
    Halves(x * y, LittleEndian(Mul(a, b)), LittleEndian(Mulhu(a, b)));
  }

  // ---------- Division ----------

  lemma TruncatedDivision(a: int, b: int)
    requires b != 0
    ensures var q, r := Truncated(a, b), TruncatedRemainder(a, b);
            && q * b + r == a && Magnitude(r) < Magnitude(b) && (r > 0 ==> a > 0) && (r < 0 ==> a < 0)
            && Magnitude(q) <= Magnitude(a) && (Magnitude(b) > 1 ==> 2 * Magnitude(q) <= Magnitude(a))
  {
    hide Quotient, Remainder;
    var x, y := Magnitude(a), Magnitude(b);
    NaturalDivision(x, y);
    WithSigns(a, b, Quotient(x, y), Remainder(x, y));
  }

  lemma NaturalDivision(x: nat, y: nat)
    requires y != 0
    ensures x == Quotient(x, y) * y + Remainder(x, y) && Remainder(x, y) < y
    ensures Quotient(x, y) <= x && (y > 1 ==> 2 * Quotient(x, y) <= x)
  {
    MulMonotone(1, y, x / y);
    if y > 1 { MulMonotone(2, y, x / y); }
  }

  lemma WithSigns(a: int, b: int, q: int, r: int)
    requires Magnitude(a) == q * Magnitude(b) + r
    ensures (if (a < 0) == (b < 0) then q else -q) * b + (if a < 0 then -r else r) == a
  {
    var y: int := Magnitude(b);
    assert (-q) * y == -(q * y) && q * (-y) == -(q * y) && (-q) * (-y) == q * y;
  }

  /** Division by zero gives all ones and the dividend; the one overflow gives the dividend and zero. */
  lemma DivisionEdges(a: Xlen, b: Xlen)
    ensures Signed(b) == 0 ==> Signed(Div(a, b)) == -1 && Signed(Rem(a, b)) == Signed(a)
    ensures Overflows(Signed(a), Signed(b)) ==> Signed(Div(a, b)) == Signed(a) && Signed(Rem(a, b)) == 0
    ensures LittleEndian(b) == 0 ==>
            LittleEndian(Divu(a, b)) == TWO_TO_64 - 1 && LittleEndian(Remu(a, b)) == LittleEndian(a)
  {
    SignedOfPacked(-1);
    SignedOfPacked(0);
    SignedOfPacked(Signed(a));
    UnsignedRange(a);
    UnsignedOfPacked(TWO_TO_64 - 1);
    UnsignedOfPacked(LittleEndian(a));
  }

  /**
   * Everywhere else: dividend = quotient * divisor + remainder, with a remainder smaller than the divisor
   * and of the dividend's sign.
   */
  lemma SignedDivision(a: Xlen, b: Xlen)
    requires Signed(b) != 0 && !Overflows(Signed(a), Signed(b))
    ensures var x, y, q, r := Signed(a), Signed(b), Signed(Div(a, b)), Signed(Rem(a, b));
            q * y + r == x && Magnitude(r) < Magnitude(y) && (r > 0 ==> x > 0) && (r < 0 ==> x < 0)
  {
    var x, y := Signed(a), Signed(b);
    TruncatedDivision(x, y);
    QuotientFits(x, y);
    hide Truncated, TruncatedRemainder;
    SignedOfPacked(Truncated(x, y));
    SignedOfPacked(TruncatedRemainder(x, y));
  }

  lemma QuotientFits(x: int, y: int)
    requires -TWO_TO_63 <= x < TWO_TO_63 && y != 0 && !Overflows(x, y)
    ensures -TWO_TO_63 <= Truncated(x, y) < TWO_TO_63
  {
    TruncatedDivision(x, y);
  }

  lemma UnsignedDivision(a: Xlen, b: Xlen)
    requires LittleEndian(b) != 0
    ensures var x, y, q, r := LittleEndian(a), LittleEndian(b), LittleEndian(Divu(a, b)), LittleEndian(Remu(a, b));
            q * y + r == x && r < y
  {
    var x, y := LittleEndian(a), LittleEndian(b);
    UnsignedRange(a);
    UnsignedRange(b);
    hide Quotient, Remainder, LittleEndian, ToBytes;
    NaturalDivision(x, y);
    UnsignedOfPacked(Quotient(x, y));
    UnsignedOfPacked(Remainder(x, y));
  }

  /** In every case, zero divisors and overflow included, dividend = quotient * divisor + remainder modulo 2^64. */
  lemma DivisionIdentity(a: Xlen, b: Xlen)
    ensures (Signed(Div(a, b)) * Signed(b) + Signed(Rem(a, b)) - Signed(a)) % TWO_TO_64 == 0
    ensures (LittleEndian(Divu(a, b)) * LittleEndian(b) + LittleEndian(Remu(a, b)) - LittleEndian(a)) % TWO_TO_64 == 0
  {
    hide Div, Rem, Divu, Remu;
    DivisionEdges(a, b);
    if Overflows(Signed(a), Signed(b)) {
      assert Signed(a) * Signed(b) - Signed(a) == TWO_TO_64;
    } else if Signed(b) != 0 {
      SignedDivision(a, b);
    }
    if LittleEndian(b) != 0 {
      UnsignedDivision(a, b);
    }
  }
}
