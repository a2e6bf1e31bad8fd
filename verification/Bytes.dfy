/**
 * Little-endian byte arithmetic (`src/utils/bytes.ts`).
 *
 * `LittleEndian` and `ToBytes` give byte sequences their integer meaning and are mutually inverse;
 * the methods are the source's in-place loops over 8-byte arrays, each proved to be one operation
 * on those integers. Subtraction of bytes and `& 0xff` are Dafny's Euclidean `% 256`.
 */
module Bytes {
  type Byte = b: int | 0 <= b < 256
  type Xlen = s: seq<Byte> | |s| == 8 witness [0, 0, 0, 0, 0, 0, 0, 0]

  const TWO_TO_32: int := 0x1_0000_0000
  const TWO_TO_63: int := 0x8000_0000_0000_0000
  const TWO_TO_64: int := 0x1_0000_0000_0000_0000

  function Pow2(n: nat): (p: nat)
    ensures p > 0
  {
    if n == 0 then 1 else 2 * Pow2(n - 1)
  }

  lemma {:induction false} Pow2Add(a: nat, b: nat)
    ensures Pow2(a + b) == Pow2(a) * Pow2(b)
  {
    if a > 0 {
      Pow2Add(a - 1, b);
      assert Pow2(a + b) == 2 * Pow2(a - 1 + b);
      assert 2 * (Pow2(a - 1) * Pow2(b)) == (2 * Pow2(a - 1)) * Pow2(b);
    }
  }

  lemma Pow2Of8(n: nat)
    ensures Pow2(8 * (n + 1)) == 256 * Pow2(8 * n)
  {
    Pow2Add(8, 8 * n);
    assert Pow2(8) == 256;
  }

  lemma Pow2Next(n: nat)
    ensures Pow2(n + 1) == 2 * Pow2(n)
  {
  }

  lemma Pow2Doubles(n: nat, m: nat, p: nat)
    requires Pow2(n) == p && m == n + n
    ensures Pow2(m) == p * p
  {
    Pow2Add(n, n);
  }

  lemma Pow2Constants()
    ensures Pow2(8) == 256 && Pow2(32) == TWO_TO_32 && Pow2(63) == TWO_TO_63 && Pow2(64) == TWO_TO_64
  {
    assert Pow2(8) == 256;
    Pow2Doubles(8, 16, 256);
    Pow2Doubles(16, 32, 0x1_0000);
    Pow2Doubles(32, 64, TWO_TO_32);
    assert Pow2(64) == 2 * Pow2(63);
  }

  function LittleEndian(bytes: seq<Byte>): (value: nat)
    ensures value < Pow2(8 * |bytes|)
  {
    if bytes == [] then 0
    else
      Pow2Of8(|bytes| - 1);
      bytes[0] + 256 * LittleEndian(bytes[1..])
  }

  /** The low `n` bytes of `value`; a negative value contributes its two's complement. */
  function ToBytes(n: nat, value: int): (bytes: seq<Byte>)
    ensures |bytes| == n
  {
    if n == 0 then [] else [value % 256] + ToBytes(n - 1, value / 256)
  }

  function Signed(bytes: Xlen): (value: int)
    ensures -TWO_TO_63 <= value < TWO_TO_63 && (value - LittleEndian(bytes)) % TWO_TO_64 == 0
  {
    Pow2Constants();
    if LittleEndian(bytes) >= TWO_TO_63 then LittleEndian(bytes) - TWO_TO_64 else LittleEndian(bytes)
  }

  lemma {:induction false} LittleEndianAppend(low: seq<Byte>, high: seq<Byte>)
    ensures LittleEndian(low + high) == LittleEndian(low) + LittleEndian(high) * Pow2(8 * |low|)
  {
    if low == [] {
      assert low + high == high;
    } else {
      var h, m := LittleEndian(high), Pow2(8 * (|low| - 1));
      LittleEndianAppend(low[1..], high);
      assert (low + high)[1..] == low[1..] + high && (low + high)[0] == low[0];
      Pow2Of8(|low| - 1);
      MulAssoc(h, 256, m);
      assert Pow2(8 * |low|) == 256 * m;
    }
  }

  lemma MulAssoc(a: int, b: int, c: int)
    ensures a * (b * c) == b * (a * c)
  {
  }

  lemma MulMonotone(a: int, b: int, m: int)
    requires a <= b && m >= 0
    ensures a * m <= b * m
  {
  }

  lemma LittleEndianSnoc(s: seq<Byte>, i: nat)
    requires i < |s|
    ensures LittleEndian(s[..i + 1]) == LittleEndian(s[..i]) + s[i] * Pow2(8 * i)
  {
    LittleEndianAppend(s[..i], [s[i]]);
    assert s[..i + 1] == s[..i] + [s[i]];
    assert LittleEndian([s[i]]) == s[i];
  }

  lemma MulSmall(d: int, m: int)
    requires -m < d * m < m
    ensures d == 0
  {
    if d >= 1 {
      MulMonotone(1, d, m);
    } else if d <= -1 {
      MulMonotone(d, -1, m);
    }
  }

  /** Quotient and remainder are determined by `a == k * m + v` with `v` in range. */
  lemma ModUnique(a: int, m: int, k: int, v: int)
    requires m > 0 && a == k * m + v && 0 <= v < m
    ensures a % m == v && a / m == k
  {
    assert a == (a / m) * m + a % m;
    assert (a / m - k) * m == (a / m) * m - k * m;
    MulSmall(a / m - k, m);
  }

  lemma RemainderByBytes(value: int, m: int)
    requires m > 0
    ensures value % (256 * m) == value % 256 + 256 * ((value / 256) % m)
  {
    var high, q := value / 256, value / 256 / m;
    assert value == 256 * (q * m + high % m) + value % 256;
    assert 256 * (q * m) == q * (256 * m);
    ModUnique(value, 256 * m, q, value % 256 + 256 * (high % m));
  }

  lemma RemainderByBits(value: nat, m: nat)
    requires m > 0
    ensures value % (2 * m) == value % 2 + 2 * (value / 2 % m)
  {
    var high, q := value / 2, value / 2 / m;
    assert value == 2 * (q * m + high % m) + value % 2;
    assert 2 * (q * m) == q * (2 * m);
    ModUnique(value, 2 * m, q, value % 2 + 2 * (high % m));
  }

  lemma {:induction false} LittleEndianOfToBytes(n: nat, value: int)
    ensures LittleEndian(ToBytes(n, value)) == value % Pow2(8 * n)
  {
    if n > 0 {
      LittleEndianOfToBytes(n - 1, value / 256);
      Pow2Of8(n - 1);
      RemainderByBytes(value, Pow2(8 * (n - 1)));
      assert ToBytes(n, value)[1..] == ToBytes(n - 1, value / 256);
    }
  }

  lemma {:induction false} ToBytesOfLittleEndian(s: seq<Byte>)
    ensures ToBytes(|s|, LittleEndian(s)) == s
  {
    if s != [] {
      ToBytesOfLittleEndian(s[1..]);
      ModUnique(LittleEndian(s), 256, LittleEndian(s[1..]), s[0]);
    }
  }

  /** Byte sequences of one length are equal exactly when their values are. */
  lemma LittleEndianInjective(s: seq<Byte>, t: seq<Byte>)
    requires |s| == |t| && LittleEndian(s) == LittleEndian(t)
    ensures s == t
  {
    ToBytesOfLittleEndian(s);
    ToBytesOfLittleEndian(t);
  }

  /** Eight bytes with value `v` modulo 2^64 are the packing of `v`. */
  lemma IsPacking(s: seq<Byte>, v: int)
    requires |s| == 8 && LittleEndian(s) == v % TWO_TO_64
    ensures s == ToBytes(8, v)
  {
    Pow2Constants();
    LittleEndianOfToBytes(8, v);
    LittleEndianInjective(s, ToBytes(8, v));
  }

  lemma AddDigit(x: int, y: int, carryIn: int, digit: int, carryOut: int, place: int)
    requires digit + 256 * carryOut == x + y + carryIn
    ensures digit * place + carryOut * (256 * place) == x * place + y * place + carryIn * place
  {
    assert (digit + 256 * carryOut) * place == (x + y + carryIn) * place;
  }

  function Addend(v: int, negative: bool): int { if negative then -v else v }

  /** `d` is the sum of `x` and `y` up to byte `i`, with `carry` left over; a difference has a carry of 0 or -1. */
  ghost predicate Summed(d: seq<Byte>, x: seq<Byte>, y: seq<Byte>, negative: bool, carry: int, i: nat)
    requires |d| == |x| == |y| == 8 && i <= 8
  {
    LittleEndian(d[..i]) + carry * Pow2(8 * i) == LittleEndian(x[..i]) + Addend(LittleEndian(y[..i]), negative)
  }

  lemma NothingSummed(d: seq<Byte>, x: seq<Byte>, y: seq<Byte>, negative: bool)
    requires |d| == |x| == |y| == 8
    ensures Summed(d, x, y, negative, 0, 0)
  {
  }

  /** One more column: the digit and the carry out of it replace the carry into it. */
  lemma ColumnSummed(
      d: seq<Byte>, e: seq<Byte>, x: seq<Byte>, y: seq<Byte>, negative: bool, carry: int, after: int, i: nat)
    requires |d| == |e| == |x| == |y| == 8 && i < 8 && e[..i] == d[..i] && Summed(d, x, y, negative, carry, i)
    requires e[i] + 256 * after == x[i] + Addend(y[i], negative) + carry
    ensures Summed(e, x, y, negative, after, i + 1)
  {
    hide LittleEndian, Pow2;
    LittleEndianSnoc(e, i);
    LittleEndianSnoc(x, i);
    LittleEndianSnoc(y, i);
    Pow2Of8(i);
    var place := Pow2(8 * i);
    AddDigit(x[i], Addend(y[i], negative), carry, e[i], after, place);
    AddendDigit(LittleEndian(y[..i]), y[i], place, negative);
  }

  lemma AddendDigit(low: int, digit: int, place: int, negative: bool)
    ensures Addend(low + digit * place, negative) == Addend(low, negative) + Addend(digit, negative) * place
  {
  }

  lemma AllSummed(d: Xlen, x: Xlen, y: Xlen, negative: bool, carry: int)
    requires Summed(d, x, y, negative, carry, 8)
    ensures d == ToBytes(8, LittleEndian(x) + Addend(LittleEndian(y), negative))
  {
    assert d[..8] == d && x[..8] == x && y[..8] == y;
    hide LittleEndian, Pow2, ToBytes;
    WholeResult(d, LittleEndian(x) + Addend(LittleEndian(y), negative), carry);
  }

  lemma DigitOf(sum: nat)
    requires sum < 512
    ensures sum == sum % 256 + 256 * (sum / 256) && 0 <= sum / 256 <= 1
  {
  }

  lemma BorrowedDigit(difference: int, borrow: int)
    requires -256 <= difference < 256 && borrow == if difference < 0 then 1 else 0
    ensures difference % 256 == difference + 256 * borrow
  {
    ModUnique(difference, 256, -borrow, difference + 256 * borrow);
  }

  /** destination = source + addend mod 2^64; the destination may be either operand. */
  method AddBytes(destination: array<Byte>, source: array<Byte>, addend: array<Byte>)
    requires destination.Length == 8 && source.Length == 8 && addend.Length == 8
    modifies destination
    ensures destination[..] == ToBytes(8, LittleEndian(old(source[..])) + LittleEndian(old(addend[..])))
  {
    hide LittleEndian, ToBytes, Summed;
    ghost var x, y := source[..], addend[..];
    var carry: int := 0;
    NothingSummed(destination[..], x, y, false);
    for index := 0 to 8
      invariant 0 <= carry <= 1
      invariant forall k :: index <= k < 8 ==> source[k] == x[k] && addend[k] == y[k]
      invariant Summed(destination[..], x, y, false, carry, index)
    {
      ghost var before, carryIn: int := destination[..], carry;
      var sum: int := source[index] + addend[index] + carry;
      DigitOf(sum);
      destination[index] := sum % 256;
      assert destination[..index] == before[..index];
      carry := sum / 256;
      ColumnSummed(before, destination[..], x, y, false, carryIn, carry, index);
    }
    AllSummed(destination[..], x, y, false, carry);
  }

  /** destination = minuend - subtrahend mod 2^64; the destination may be either operand. */
  method SubtractBytes(destination: array<Byte>, minuend: array<Byte>, subtrahend: array<Byte>)
    requires destination.Length == 8 && minuend.Length == 8 && subtrahend.Length == 8
    modifies destination
    ensures destination[..] == ToBytes(8, LittleEndian(old(minuend[..])) - LittleEndian(old(subtrahend[..])))
  {
    hide LittleEndian, ToBytes, Summed;
    ghost var x, y := minuend[..], subtrahend[..];
    var borrow: int := 0;
    NothingSummed(destination[..], x, y, true);
    for index := 0 to 8
      invariant 0 <= borrow <= 1
      invariant forall k :: index <= k < 8 ==> minuend[k] == x[k] && subtrahend[k] == y[k]
      invariant Summed(destination[..], x, y, true, -borrow, index)
    {
      ghost var before, borrowIn: int := destination[..], borrow;
      var difference: int := minuend[index] - subtrahend[index] - borrow;
      destination[index] := difference % 256;
      assert destination[..index] == before[..index];
      borrow := if difference < 0 then 1 else 0;
      BorrowedDigit(difference, borrow);
      ColumnSummed(before, destination[..], x, y, true, -borrowIn, -borrow, index);
    }
    AllSummed(destination[..], x, y, true, -borrow);
  }

  /** Eight digits and the carry out of them are the packing of their total. */
  lemma WholeResult(d: Xlen, total: int, carry: int)
    requires LittleEndian(d) + carry * Pow2(8 * 8) == total
    ensures d == ToBytes(8, total)
  {
    Pow2Constants();
    ModUnique(total, TWO_TO_64, carry, LittleEndian(d));
    IsPacking(d, total);
  }

  function Sign(x: int): int { if x < 0 then -1 else if x == 0 then 0 else 1 }

  /** With equal tails, the first differing byte from the top decides the order. */
  lemma TopByteDecides(s: seq<Byte>, t: seq<Byte>, i: nat)
    requires |s| == |t| && i < |s| && s[i + 1..] == t[i + 1..] && s[i] < t[i]
    ensures LittleEndian(s) < LittleEndian(t)
  {
    LittleEndianAppend(s[..i + 1], s[i + 1..]);
    LittleEndianAppend(t[..i + 1], t[i + 1..]);
    assert s == s[..i + 1] + s[i + 1..] && t == t[..i + 1] + t[i + 1..];
    LowTopByteDecides(s, t, i);
  }

  lemma LowTopByteDecides(s: seq<Byte>, t: seq<Byte>, i: nat)
    requires |s| == |t| && i < |s| && s[i] < t[i]
    ensures LittleEndian(s[..i + 1]) < LittleEndian(t[..i + 1])
  {
    LittleEndianSnoc(s, i);
    LittleEndianSnoc(t, i);
    PlaceOrder(LittleEndian(s[..i]), s[i], LittleEndian(t[..i]), t[i], Pow2(8 * i));
  }

  lemma PlaceOrder(lowS: nat, x: nat, lowT: nat, y: nat, place: nat)
    requires lowS < place && x < y
    ensures lowS + x * place < lowT + y * place
  {
    MulMonotone(x + 1, y, place);
    assert (x + 1) * place == x * place + place;
  }

  /** Three-way comparison as unsigned integers. */
  method CompareUnsignedBytes(left: seq<Byte>, right: seq<Byte>) returns (order: int)
    requires |left| == 8 && |right| == 8
    ensures order == Sign(LittleEndian(left) - LittleEndian(right))
  {
    var index := 8;
    while index > 0
      invariant 0 <= index <= 8 && left[index..] == right[index..]
    {
      index := index - 1;
      if left[index] < right[index] {
        TopByteDecides(left, right, index);
        return -1;
      } else if left[index] > right[index] {
        TopByteDecides(right, left, index);
        return 1;
      }
      assert left[index..] == [left[index]] + left[index + 1..];
      assert right[index..] == [right[index]] + right[index + 1..];
    }
    assert left == left[0..] && right == right[0..];
    return 0;
  }

  /** The top bit is the sign. */
  lemma SignBit(s: Xlen)
    ensures s[7] >= 128 <==> LittleEndian(s) >= TWO_TO_63
  {
    Pow2Constants();
    Pow2Add(7, 56);
    assert Pow2(7) == 128;
    LittleEndianSnoc(s, 7);
    assert s[..8] == s;
    assert LittleEndian(s[..7]) < Pow2(56);
    hide LittleEndian, Pow2;
    if s[7] >= 128 {
      MulMonotone(128, s[7], Pow2(56));
    } else {
      MulMonotone(s[7], 127, Pow2(56));
    }
  }

  /** Three-way comparison as two's-complement integers. */
  method CompareSignedBytes(left: Xlen, right: Xlen) returns (order: int)
    ensures order == Sign(Signed(left) - Signed(right))
  {
    SignBit(left);
    SignBit(right);
    Pow2Constants();
    var leftNegative, rightNegative := left[7] >= 128, right[7] >= 128;
    if leftNegative != rightNegative {
      return if leftNegative then -1 else 1;
    }
    order := CompareUnsignedBytes(left, right);
  }

  /** Fill bytes `byteLength..7` from the sign of byte `byteLength - 1`. */
  method SignExtendBytes(destination: array<Byte>, byteLength: nat)
    requires destination.Length == 8 && 0 < byteLength <= 8
    modifies destination
    ensures destination[..] == SignExtended(old(destination[..])[..byteLength])
  {
    var signByte := if destination[byteLength - 1] >= 128 then 255 else 0;
    for index := byteLength to 8
      invariant forall k :: 0 <= k < byteLength ==> destination[k] == old(destination[k])
      invariant forall k :: byteLength <= k < index ==> destination[k] == signByte
    {
      destination[index] := signByte;
    }
  }

  function SignExtended(low: seq<Byte>): (s: Xlen)
    requires 0 < |low| <= 8
  {
    low + seq(8 - |low|, _ => if low[|low| - 1] >= 128 then 255 else 0)
  }

  function ZeroExtended(low: seq<Byte>): (s: Xlen)
    requires |low| <= 8
  {
    low + seq(8 - |low|, _ => 0)
  }
}
