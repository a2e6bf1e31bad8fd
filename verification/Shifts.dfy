/**
 * The three 64-bit shifts over little-endian bytes (`src/utils/bytes.ts`), each proved to be
 * multiplication or division of the integer by a power of two.
 *
 * A byte shift moves whole bytes; a bit shift of `b` splits each byte at `2^b` or `2^(8-b)`. The two
 * parts that the source combines with `|` share no bits, so they are added here.
 */
module Shifts {
  import opened Bytes

  lemma SplitByte(b: nat)
    requires b < 8
    ensures Pow2(b) * Pow2(8 - b) == 256 && Pow2(8 - b) <= 256
  {
    Pow2Add(b, 8 - b);
    assert Pow2(8) == 256;
    MulMonotone(1, Pow2(b), Pow2(8 - b));
  }

  lemma {:induction false} ZerosValue(n: nat)
    ensures LittleEndian(seq(n, _ => 0)) == 0
  {
    if n > 0 {
      ZerosValue(n - 1);
      assert seq(n, _ => 0)[1..] == seq(n - 1, _ => 0);
    }
  }

  /**
   * The parts of a byte above and below a split at `p`, and the byte moved up by a factor `q` without what
   * leaves it.
   */
  function High(x: Byte, p: nat): (r: nat)
    requires p > 0
    ensures r <= x
  {
    MulMonotone(1, p, x / p);
    x / p
  }

  function Low(x: Byte, p: nat): (r: nat)
    requires p > 0
    ensures r < p
  {
    x % p
  }

  function Raised(x: Byte, q: nat): (r: nat)
    ensures r < 256
  {
    MulMonotone(0, x, q);
    x * q % 256
  }

  // ---------- Left ----------

  /** What byte `k - 1` carries into byte `k`. */
  function CarryInto(s: seq<Byte>, k: nat, q: nat): nat
    requires k <= |s| && q > 0
  {
    if k == 0 then 0 else High(s[k - 1], q)
  }

  function LeftDigit(s: seq<Byte>, k: nat, b: nat): Byte
    requires k < |s| && b < 8
  {
    (s[k] * Pow2(b) + CarryInto(s, k, Pow2(8 - b))) % 256
  }

  /** `x * p + c` splits into a digit and the carry `x / q`, when `p * q` is the base. */
  lemma LeftSplit(x: Byte, c: nat, p: nat, q: nat)
    requires p * q == 256 && c < p && q > 0
    ensures x * p + c == (x * p + c) % 256 + 256 * High(x, q)
  {
    var h, l := x / q, x % q;
    assert x == h * q + l;
    assert x * p == h * 256 + l * p by {
      assert (h * q) * p == h * (p * q);
      assert (h * q + l) * p == (h * q) * p + l * p;
    }
    MulMonotone(l, q - 1, p);
    assert (q - 1) * p == 256 - p;
    ModUnique(x * p + c, 256, h, l * p + c);
  }

  lemma CarryIsSmall(x: Byte, p: nat, q: nat)
    requires p * q == 256 && q > 0
    ensures High(x, q) < p
  {
    assert x == (x / q) * q + x % q;
    if x / q >= p {
      MulMonotone(p, x / q, q);
    }
  }

  lemma LastLeftDigit(s: seq<Byte>, b: nat, k: nat)
    requires k < |s| && b < 8
    ensures s[k] * Pow2(b) + CarryInto(s, k, Pow2(8 - b)) == LeftDigit(s, k, b) + 256 * High(s[k], Pow2(8 - b))
    ensures CarryInto(s, k + 1, Pow2(8 - b)) == High(s[k], Pow2(8 - b))
  {
    hide Pow2, High;
    SplitByte(b);
    if k > 0 { CarryIsSmall(s[k - 1], Pow2(b), Pow2(8 - b)); }
    LeftSplit(s[k], CarryInto(s, k, Pow2(8 - b)), Pow2(b), Pow2(8 - b));
  }

  /** The first `n` digits of the shifted number, with the carry out of them. */
  lemma {:induction false} LeftDigitsValue(s: seq<Byte>, b: nat, n: nat)
    requires b < 8 && n <= |s|
    ensures var digits := seq(n, k requires 0 <= k < n => LeftDigit(s, k, b));
            LittleEndian(digits) + CarryInto(s, n, Pow2(8 - b)) * Pow2(8 * n) == LittleEndian(s[..n]) * Pow2(b)
  {
    var digits := seq(n, k requires 0 <= k < n => LeftDigit(s, k, b));
    if n == 0 {
      assert s[..0] == [] && LittleEndian([]) == 0;
    } else {
      hide LittleEndian, Pow2, High;
      var p, q, place := Pow2(b), Pow2(8 - b), Pow2(8 * (n - 1));
      var x, c := s[n - 1], CarryInto(s, n - 1, q);
      LeftDigitsValue(s, b, n - 1);
      assert digits[..n - 1] == seq(n - 1, k requires 0 <= k < n - 1 => LeftDigit(s, k, b));
      assert digits[..n] == digits;
      LittleEndianSnoc(digits, n - 1);
      LittleEndianSnoc(s, n - 1);
      Pow2Of8(n - 1);
      LastLeftDigit(s, b, n - 1);
      hide LeftDigit, CarryInto;
      LeftStep(LittleEndian(digits[..n - 1]), LittleEndian(s[..n - 1]), x, c, digits[n - 1], High(x, q), p, place);
    }
  }

  lemma LeftStep(low: int, value: int, x: int, c: int, digit: int, carry: int, p: int, place: int)
    requires low + c * place == value * p && x * p + c == digit + 256 * carry
    ensures low + digit * place + carry * (256 * place) == (value + x * place) * p
  {
    assert (x * p + c) * place == (digit + 256 * carry) * place;
    assert (value + x * place) * p == value * p + (x * p) * place;
    assert (256 * carry) * place == carry * (256 * place);
  }

  predicate IsLeftShift(d: seq<Byte>, s: seq<Byte>, bytes: nat, b: nat)
    requires |d| == 8 == |s| && b < 8
  {
    && (forall j :: 0 <= j < 8 && j < bytes ==> d[j] == 0)
    && (forall j :: bytes <= j < 8 ==> d[j] == LeftDigit(s, j - bytes, b))
  }

  lemma LeftShiftValue(d: Xlen, s: Xlen, bytes: nat, b: nat)
    requires b < 8 && bytes < 8 && IsLeftShift(d, s, bytes, b)
    ensures LittleEndian(d) == LittleEndian(s) * Pow2(8 * bytes + b) % TWO_TO_64
  {
    hide LittleEndian, LeftDigit, CarryInto, Pow2;
    var n := 8 - bytes;
    var digits := seq(n, k requires 0 <= k < n => LeftDigit(s, k, b));
    assert d == seq(bytes, _ => 0) + digits;
    ZerosValue(bytes);
    LittleEndianAppend(seq(bytes, _ => 0), digits);
    LeftDigitsValue(s, b, n);
    LittleEndianAppend(s[..n], s[n..]);
    assert s == s[..n] + s[n..];
    Pow2Add(8 * bytes, b);
    Pow2Add(8 * bytes, 8 * n);
    Pow2Constants();
    LeftWhole(LittleEndian(digits), CarryInto(s, n, Pow2(8 - b)), LittleEndian(s[..n]), LittleEndian(s[n..]),
              Pow2(b), Pow2(8 * n), Pow2(8 * bytes));
  }

  lemma LeftWhole(digits: nat, c: nat, low: nat, high: nat, p: nat, place: nat, bytePlace: nat)
    requires digits + c * place == low * p && bytePlace * place == TWO_TO_64 && digits * bytePlace < TWO_TO_64
    ensures digits * bytePlace == (low + high * place) * (bytePlace * p) % TWO_TO_64
  {
    var k := c + high * p;
    assert (low + high * place) * (bytePlace * p) == (low * p + (high * p) * place) * bytePlace;
    assert low * p + (high * p) * place == digits + k * place;
    assert (digits + k * place) * bytePlace == digits * bytePlace + k * (bytePlace * place);
    ModUnique((low + high * place) * (bytePlace * p), TWO_TO_64, k, digits * bytePlace);
  }

  /** Byte `sourceIndex` moved up by `bitShift` bits, with the bits its lower neighbour moves into it. */
  method LeftByte(source: array<Byte>, sourceIndex: nat, bitShift: nat) returns (value: Byte)
    requires source.Length == 8 && sourceIndex < 8 && bitShift < 8
    ensures value == LeftDigit(source[..], sourceIndex, bitShift)
  {
    hide Pow2;
    var wide := source[sourceIndex] * Pow2(bitShift);
    if bitShift != 0 && sourceIndex > 0 {
      wide := wide + source[sourceIndex - 1] / Pow2(8 - bitShift);
    }
    NoCarryWithoutBits(source[..], sourceIndex, bitShift);
    value := wide % 256;
  }

  /** What a shift reads: it clears its destination first, so a source that is the destination is read as zero. */
  function Cleared(s: Xlen, aliased: bool): Xlen { if aliased then [0, 0, 0, 0, 0, 0, 0, 0] else s }

  /** destination = source << (shiftAmount mod 64), modulo 2^64. */
  method ShiftLeftBytes(destination: array<Byte>, source: array<Byte>, shiftAmount: nat)
    requires destination.Length == 8 && source.Length == 8
    modifies destination
    ensures destination[..]
            == ToBytes(8, LittleEndian(Cleared(old(source[..]), destination == source)) * Pow2(shiftAmount % 64))
  {
    hide LeftDigit, LittleEndian, Pow2, ToBytes;
    var amount := shiftAmount % 64;
    var byteShift, bitShift := amount / 8, amount % 8;
    for j := 0 to 8
      invariant forall k :: 0 <= k < j ==> destination[k] == 0
      invariant destination != source ==> source[..] == old(source[..])
    {
      destination[j] := 0;
    }
    ghost var s := source[..];
    assert s == Cleared(old(source[..]), destination == source);
    var index := 7;
    while index >= byteShift
      invariant byteShift - 1 <= index <= 7
      invariant forall k :: 0 <= k <= index ==> destination[k] == 0
      invariant forall k :: index < k < 8 ==> destination[k] == LeftDigit(s, k - byteShift, bitShift)
      invariant source[..] == s
    {
      var value := LeftByte(source, index - byteShift, bitShift);
      if destination == source {
        ZeroDigit(index - byteShift, bitShift);
      }
      destination[index] := value;
      index := index - 1;
    }
    LeftShiftValue(destination[..], s, byteShift, bitShift);
    IsPacking(destination[..], LittleEndian(s) * Pow2(amount));
  }

  lemma ZeroDigit(k: nat, b: nat)
    requires k < 8 && b < 8
    ensures LeftDigit([0, 0, 0, 0, 0, 0, 0, 0], k, b) == 0 == RightDigit([0, 0, 0, 0, 0, 0, 0, 0], k, b)
  {
    hide Pow2;
  }

  lemma NoCarryWithoutBits(s: seq<Byte>, k: nat, b: nat)
    requires k < |s| && b < 8
    ensures b == 0 ==> CarryInto(s, k, Pow2(8 - b)) == 0
  {
    assert Pow2(8) == 256;
  }

  // ---------- Right, logical ----------

  /** The low bits of byte `k` that a right shift moves out of it. */
  function BitsBelow(s: seq<Byte>, k: nat, p: nat): nat
    requires p > 0
  {
    if k < |s| then Low(s[k], p) else 0
  }

  function RightDigit(s: seq<Byte>, k: nat, b: nat): int
    requires k < |s| && b < 8
  {
    High(s[k], Pow2(b)) + if b != 0 && k + 1 < |s| then Raised(s[k + 1], Pow2(8 - b)) else 0
  }

  lemma RightSplit(x: Byte, p: nat, q: nat)
    requires p * q == 256 && p > 0 && q > 0
    ensures Raised(x, q) == Low(x, p) * q && x == High(x, p) * p + Low(x, p) && High(x, p) < q
  {
    var h, l := x / p, x % p;
    assert x == h * p + l;
    assert x * q == h * 256 + l * q by {
      assert (h * p) * q == h * (p * q);
      assert (h * p + l) * q == (h * p) * q + l * q;
    }
    MulMonotone(l, p - 1, q);
    assert (p - 1) * q == 256 - q;
    ModUnique(x * q, 256, h, l * q);
    CarryIsSmall(x, q, p);
  }

  /** A byte's upper part and its neighbour's lower part share no bits of the result byte. */
  lemma PartsFit(upper: nat, bits: nat, p: nat, q: nat)
    requires upper < q && bits < p && p * q == 256
    ensures 0 <= upper + bits * q < 256
  {
    UpperPartFits(bits, p, q);
    MulMonotone(0, bits, q);
  }

  lemma FirstPower()
    ensures Pow2(0) == 1
  {
  }

  lemma NothingBelowOne(x: Byte)
    ensures Low(x, 1) == 0
  {
  }

  lemma RightDigitSplits(s: seq<Byte>, k: nat, b: nat)
    requires k < |s| && b < 8
    ensures 0 <= RightDigit(s, k, b) == High(s[k], Pow2(b)) + BitsBelow(s, k + 1, Pow2(b)) * Pow2(8 - b) < 256
    ensures s[k] == High(s[k], Pow2(b)) * Pow2(b) + BitsBelow(s, k, Pow2(b))
  {
    FirstPower();
    hide Pow2, High, Low, Raised;
    var p, q := Pow2(b), Pow2(8 - b);
    SplitByte(b);
    RightSplit(s[k], p, q);
    if k + 1 < |s| {
      RightSplit(s[k + 1], p, q);
      PartsFit(High(s[k], p), Low(s[k + 1], p), p, q);
      if b == 0 {
        NothingBelowOne(s[k + 1]);
      }
    } else {
      PartsFit(High(s[k], p), 0, p, q);
    }
  }

  lemma UpperPartFits(bits: nat, p: nat, q: nat)
    requires bits < p && p * q == 256
    ensures bits * q + q <= 256
  {
    MulMonotone(bits + 1, p, q);
    assert (bits + 1) * q == bits * q + q;
  }

  function RightDigits(s: seq<Byte>, b: nat, n: nat): (digits: seq<Byte>)
    requires b < 8 && n <= |s|
    ensures |digits| == n && forall k :: 0 <= k < n ==> digits[k] == RightDigit(s, k, b)
  {
    if n == 0 then []
    else
      RightDigitSplits(s, n - 1, b);
      RightDigits(s, b, n - 1) + [RightDigit(s, n - 1, b)]
  }

  /** Shifting back the first `n` digits gives the first `n` bytes, up to the bits moved across the two ends. */
  lemma {:induction false} RightDigitsValue(s: seq<Byte>, b: nat, n: nat)
    requires b < 8 && n <= |s|
    ensures LittleEndian(RightDigits(s, b, n)) * Pow2(b) + BitsBelow(s, 0, Pow2(b))
            == LittleEndian(s[..n]) + BitsBelow(s, n, Pow2(b)) * Pow2(8 * n)
  {
    if n == 0 {
      assert Pow2(8 * 0) == 1 && s[..0] == [];
    } else {
      hide LittleEndian, RightDigit, BitsBelow, Pow2;
      var p, q, place := Pow2(b), Pow2(8 - b), Pow2(8 * (n - 1));
      var digits := RightDigits(s, b, n);
      RightDigitsValue(s, b, n - 1);
      SplitByte(b);
      RightDigitSplits(s, n - 1, b);
      assert digits[..n] == digits && digits[..n - 1] == RightDigits(s, b, n - 1);
      LittleEndianSnoc(digits, n - 1);
      LittleEndianSnoc(s, n - 1);
      Pow2Of8(n - 1);
      RightStep(LittleEndian(digits[..n - 1]), LittleEndian(s[..n - 1]), BitsBelow(s, 0, p), BitsBelow(s, n - 1, p),
          BitsBelow(s, n, p),
                High(s[n - 1], p), digits[n - 1], s[n - 1], p, q, place);
    }
  }

  lemma RightStep(
    low: int, value: int, lost: int, bits: int, next: int, quotient: int, digit: int, x: int, p: int, q: int,
        place: int)
    requires low * p + lost == value + bits * place && digit == quotient + next * q && x == quotient * p + bits
    requires p * q == 256
    ensures (low + digit * place) * p + lost == value + x * place + next * (256 * place)
  {
    assert digit * p == quotient * p + next * (p * q) by {
      assert (quotient + next * q) * p == quotient * p + (next * q) * p;
      assert (next * q) * p == next * (p * q);
    }
    assert digit * p == x - bits + 256 * next;
    assert (low + digit * place) * p == low * p + (digit * p) * place;
    assert (x - bits + 256 * next) * place == x * place - bits * place + next * (256 * place);
  }

  predicate IsRightShift(d: seq<Byte>, s: seq<Byte>, bytes: nat, b: nat)
    requires |d| == 8 == |s| && b < 8
  {
    && (forall j :: 0 <= j < 8 - bytes ==> d[j] == RightDigit(s, j + bytes, b))
    && (forall j :: 0 <= j < 8 && j >= 8 - bytes ==> d[j] == 0)
  }

  lemma RightDigitOfTail(s: seq<Byte>, bytes: nat, k: nat, b: nat)
    requires bytes + k < |s| && b < 8
    ensures RightDigit(s[bytes..], k, b) == RightDigit(s, k + bytes, b)
  {
  }

  lemma RightShiftValue(d: Xlen, s: Xlen, bytes: nat, b: nat)
    requires b < 8 && bytes < 8 && IsRightShift(d, s, bytes, b)
    ensures LittleEndian(d) == LittleEndian(s) / Pow2(8 * bytes + b)
    ensures d[..8 - bytes] == RightDigits(s[bytes..], b, 8 - bytes)
  {
    var n, tail := 8 - bytes, s[bytes..];
    var digits := RightDigits(tail, b, n);
    forall k | 0 <= k < n ensures d[k] == digits[k] {
      RightDigitOfTail(s, bytes, k, b);
    }
    assert d == digits + seq(bytes, _ => 0);
    ZerosValue(bytes);
    LittleEndianAppend(digits, seq(bytes, _ => 0));
    RightDigitsValue(tail, b, n);
    assert tail[..n] == tail && BitsBelow(tail, n, Pow2(b)) == 0;
    LittleEndianAppend(s[..bytes], tail);
    assert s == s[..bytes] + tail;
    Pow2Add(8 * bytes, b);
    hide LittleEndian, RightDigits, BitsBelow, Pow2;
    RightWhole(LittleEndian(s), LittleEndian(s[..bytes]), LittleEndian(tail), LittleEndian(digits),
        BitsBelow(tail, 0, Pow2(b)),
               Pow2(b), Pow2(8 * bytes));
  }

  lemma RightWhole(value: nat, low: nat, tail: nat, digits: nat, lost: nat, p: nat, bytePlace: nat)
    requires digits * p + lost == tail && lost < p && low < bytePlace && value == low + tail * bytePlace
    ensures digits == value / (bytePlace * p)
  {
    assert (digits * p + lost) * bytePlace == digits * (bytePlace * p) + lost * bytePlace;
    MulMonotone(lost, p - 1, bytePlace);
    assert (p - 1) * bytePlace == bytePlace * p - bytePlace;
    ModUnique(value, bytePlace * p, digits, low + lost * bytePlace);
  }

  /** Byte `sourceIndex` moved down by `bitShift` bits, with the bits its upper neighbour moves into it. */
  method RightByte(source: array<Byte>, sourceIndex: nat, bitShift: nat) returns (value: Byte)
    requires source.Length == 8 && sourceIndex < 8 && bitShift < 8
    ensures value == RightDigit(source[..], sourceIndex, bitShift)
  {
    hide Pow2;
    RightDigitSplits(source[..], sourceIndex, bitShift);
    var wide := source[sourceIndex] / Pow2(bitShift);
    if bitShift != 0 && sourceIndex < 7 {
      wide := wide + source[sourceIndex + 1] * Pow2(8 - bitShift) % 256;
    }
    value := wide % 256;
  }

  /** The first `n` bytes are shifted, the rest is still clear. */
  ghost predicate IsPartlyShifted(d: seq<Byte>, s: seq<Byte>, bytes: nat, b: nat, n: int)
    requires |d| == |s| == 8 && bytes < 8 && b < 8 && n <= 8 - bytes
  {
    (forall k :: 0 <= k < n ==> d[k] == RightDigit(s, k + bytes, b)) && (forall k :: 0 <= k < 8 && n <= k ==> d[k] == 0)
  }

  lemma MoreShifted(d: seq<Byte>, e: seq<Byte>, s: seq<Byte>, bytes: nat, b: nat, n: nat)
    requires |d| == |e| == |s| == 8 && bytes < 8 && b < 8 && n < 8 - bytes && IsPartlyShifted(d, s, bytes, b, n)
    requires e == d[n := e[n]] && e[n] == RightDigit(s, n + bytes, b)
    ensures IsPartlyShifted(e, s, bytes, b, n + 1)
  {
    hide RightDigit;
  }

  lemma AllShifted(d: seq<Byte>, s: seq<Byte>, bytes: nat, b: nat)
    requires |d| == |s| == 8 && bytes < 8 && b < 8 && IsPartlyShifted(d, s, bytes, b, 8 - bytes)
    ensures IsRightShift(d, s, bytes, b)
  {
    hide RightDigit;
  }

  /** destination = source >> (shiftAmount mod 64), filling with zeros. */
  method ShiftRightLogicalBytes(destination: array<Byte>, source: array<Byte>, shiftAmount: nat)
    requires destination.Length == 8 && source.Length == 8
    modifies destination
    ensures var s, amount := Cleared(old(source[..]), destination == source), shiftAmount % 64;
            IsRightShift(destination[..], s, amount / 8, amount % 8)
                && LittleEndian(destination[..]) == LittleEndian(s) / Pow2(amount)
  {
    hide RightDigit, LittleEndian, Pow2, IsRightShift;
    var amount := shiftAmount % 64;
    var byteShift, bitShift := amount / 8, amount % 8;
    assert byteShift < 8 && 8 * byteShift + bitShift == amount;
    for j := 0 to 8
      invariant forall k :: 0 <= k < j ==> destination[k] == 0
      invariant destination != source ==> source[..] == old(source[..])
    {
      destination[j] := 0;
    }
    ghost var s := source[..];
    assert s == Cleared(old(source[..]), destination == source);
    assert IsPartlyShifted(destination[..], s, byteShift, bitShift, 0);
    assert destination == source ==> s == [0, 0, 0, 0, 0, 0, 0, 0];
    hide IsPartlyShifted, Cleared;
    for index := 0 to 8 - byteShift
      invariant IsPartlyShifted(destination[..], s, byteShift, bitShift, index) && source[..] == s
    {
      var value := RightByte(source, index + byteShift, bitShift);
      ghost var before := destination[..];
      destination[index] := value;
      assert destination[..] == before[index := value];
      MoreShifted(before, destination[..], s, byteShift, bitShift, index);
      if destination == source {
        ZeroDigit(index + byteShift, bitShift);
        assert before[index := 0] == before;
      }
    }
    AllShifted(destination[..], s, byteShift, bitShift);
    RightShiftValue(destination[..], s, byteShift, bitShift);
  }

  // ---------- Right, arithmetic ----------

  lemma {:induction false} OnesValue(n: nat)
    ensures LittleEndian(seq(n, _ => 255)) == Pow2(8 * n) - 1
  {
    if n > 0 {
      OnesValue(n - 1);
      Pow2Of8(n - 1);
      assert seq(n, _ => 255)[1..] == seq(n - 1, _ => 255);
    } else {
      assert Pow2(8 * 0) == 1;
    }
  }

  /** A number below `2^(64-a)` with ones above it stands for the same bits of a negative number. */
  lemma FillValue(d: Xlen, t: Xlen, bytes: nat, b: nat)
    requires b < 8 && bytes < 8 && (forall j :: 0 <= j < 7 - bytes ==> d[j] == t[j])
    requires (forall j :: 8 - bytes <= j < 8 ==> d[j] == 255 && t[j] == 0)
    requires d[7 - bytes] == t[7 - bytes] + 256 - Pow2(8 - b)
    ensures LittleEndian(d) == LittleEndian(t) + TWO_TO_64 - Pow2(8 - b) * Pow2(8 * (7 - bytes))
  {
    var top, n := 7 - bytes, 8 - bytes;
    hide LittleEndian, Pow2;
    assert d[..top] == t[..top];
    LittleEndianSnoc(d, top);
    LittleEndianSnoc(t, top);
    assert d == d[..n] + seq(bytes, _ => 255) && t == t[..n] + seq(bytes, _ => 0);
    LittleEndianAppend(d[..n], seq(bytes, _ => 255));
    LittleEndianAppend(t[..n], seq(bytes, _ => 0));
    OnesValue(bytes);
    ZerosValue(bytes);
    Pow2Of8(top);
    Pow2Add(8 * n, 8 * bytes);
    Pow2Constants();
    var place, ones, mask := Pow2(8 * top), Pow2(8 * bytes), Pow2(8 - b);
    FillArithmetic(place, ones, mask, t[top]);
  }

  lemma FillArithmetic(place: int, ones: int, mask: int, x: int)
    requires (256 * place) * ones == TWO_TO_64
    ensures (x + 256 - mask) * place + (ones - 1) * (256 * place) == x * place + TWO_TO_64 - mask * place
  {
    assert (ones - 1) * (256 * place) == (256 * place) * ones - 256 * place;
    assert (x + 256 - mask) * place == x * place + 256 * place - mask * place;
  }

  /** Floor division of `value - 2^64` by a divisor of `2^64`. */
  lemma NegativeQuotient(value: int, divisor: int, rest: int)
    requires divisor > 0 && divisor * rest == TWO_TO_64
    ensures (value - TWO_TO_64) / divisor == value / divisor - rest
  {
    var q := value / divisor;
    assert value == q * divisor + value % divisor;
    assert (q - rest) * divisor == q * divisor - divisor * rest;
    ModUnique(value - TWO_TO_64, divisor, q - rest, value % divisor);
  }

  /**
   * The value of the two's complement: `t` read as unsigned, less the top `amount` bits' weight when they
   * are filled with ones.
   */
  function Filled(t: nat, negative: bool, amount: nat): int
    requires amount < 64
  {
    if negative then t - Pow2(64 - amount) else t
  }

  /** Bytes from `first` on are ones, the others are those of `t`. */
  ghost predicate IsFilled(d: seq<Byte>, t: seq<Byte>, first: int, upTo: int)
    requires |d| == |t| == 8
  {
    (forall k :: 0 <= k < 8 && k < first ==> d[k] == t[k])
        && (forall k :: 0 <= k < 8 && first <= k < upTo ==> d[k] == 255)
  }

  /**
   * destination = floor(signed source / 2^(shiftAmount mod 64)); the sign is read before the destination is
   * cleared.
   */
  method ShiftRightArithmeticBytes(destination: array<Byte>, source: array<Byte>, shiftAmount: nat)
    requires destination.Length == 8 && source.Length == 8
    modifies destination
    ensures destination != source ==> destination[..] == ToBytes(8, Signed(old(source[..])) / Pow2(shiftAmount % 64))
    ensures destination == source ==> destination[..] == ToBytes(8, Filled(0, old(source[7]) >= 128, shiftAmount % 64))
  {
    hide LittleEndian, Pow2, ToBytes, RightDigit, Signed, IsFilled, Filled, Cleared, IsRightShift;
    var amount := shiftAmount % 64;
    var byteShift, bitShift := amount / 8, amount % 8;
    var negative := source[7] >= 128;
    ghost var s, aliased := source[..], destination == source;
    ShiftRightLogicalBytes(destination, source, amount);
    ghost var logical := destination[..];
    if negative {
      StartFilled(logical, 8 - byteShift);
      for index := 8 - byteShift to 8
        invariant IsFilled(destination[..], logical, 8 - byteShift, index)
      {
        ghost var before := destination[..];
        destination[index] := 255;
        MoreFilled(before, destination[..], logical, 8 - byteShift, index);
      }
      ghost var filled := destination[..];
      TopDigitIsSmall(filled, logical, Cleared(s, aliased), byteShift, bitShift);
      if bitShift != 0 {
        var topIndex := 7 - byteShift;
        destination[topIndex] := destination[topIndex] + 256 - Pow2(8 - bitShift);
      }
      TopFilled(filled, destination[..], logical, Cleared(s, aliased), byteShift, bitShift);
    }
    ResultOfFill(destination[..], logical, s, aliased, amount);
  }

  lemma StartFilled(d: seq<Byte>, first: int)
    requires |d| == 8
    ensures IsFilled(d, d, first, first)
  {
  }

  lemma MoreFilled(d: seq<Byte>, e: seq<Byte>, t: seq<Byte>, first: nat, index: nat)
    requires |d| == |t| == 8 && first <= index < 8 && IsFilled(d, t, first, index) && e == d[index := 255]
    ensures IsFilled(e, t, first, index + 1)
  {
  }

  lemma TopFilled(d: Xlen, e: Xlen, t: Xlen, s: Xlen, bytes: nat, b: nat)
    requires b < 8 && bytes < 8 && IsFilled(d, t, 8 - bytes, 8) && IsRightShift(t, s, bytes, b)
    requires d[7 - bytes] < Pow2(8 - b) <= 256
    requires e == if b == 0 then d else d[7 - bytes := d[7 - bytes] + 256 - Pow2(8 - b)]
    ensures LittleEndian(e) == LittleEndian(t) + TWO_TO_64 - Pow2(64 - (8 * bytes + b))
  {
    hide LittleEndian, Pow2, RightDigit;
    FullByte();
    Pow2Add(8 - b, 8 * (7 - bytes));
    assert 8 - b + 8 * (7 - bytes) == 64 - (8 * bytes + b);
    FillValue(e, t, bytes, b);
  }

  lemma FullByte()
    ensures Pow2(8) == 256
  {
  }

  lemma TopDigitIsSmall(d: Xlen, t: Xlen, s: Xlen, bytes: nat, b: nat)
    requires b < 8 && bytes < 8 && IsRightShift(t, s, bytes, b) && IsFilled(d, t, 8 - bytes, 8)
    ensures d[7 - bytes] < Pow2(8 - b) <= 256
  {
    SplitByte(b);
    RightSplit(s[7], Pow2(b), Pow2(8 - b));
    assert t[7 - bytes] == RightDigit(s, 7, b);
  }

  lemma ZeroBytes()
    ensures LittleEndian([0, 0, 0, 0, 0, 0, 0, 0]) == 0
  {
    ZerosValue(8);
    assert seq(8, _ => 0) == [0, 0, 0, 0, 0, 0, 0, 0];
  }

  lemma SignedBySign(s: Xlen)
    ensures Signed(s) == LittleEndian(s) - if s[7] >= 128 then TWO_TO_64 else 0
  {
    SignBit(s);
  }

  /**
   * A quotient of the unsigned value, less the weight of the filled bits, is the floored quotient of the
   * signed value.
   */
  lemma FloorBySign(value: nat, divisor: nat, rest: nat, negative: bool)
    requires divisor > 0 && divisor * rest == TWO_TO_64
    ensures (value - if negative then TWO_TO_64 else 0) / divisor == value / divisor - if negative then rest else 0
  {
    if negative {
      NegativeQuotient(value, divisor, rest);
    }
  }

  lemma PackedFill(d: Xlen, t: nat, rest: nat, negative: bool)
    requires LittleEndian(d) == t + if negative then TWO_TO_64 - rest else 0
    ensures d == ToBytes(8, t - if negative then rest else 0)
  {
    Pow2Constants();
    assert LittleEndian(d) < TWO_TO_64;
    hide LittleEndian, ToBytes, Pow2;
    ModUnique(t - if negative then rest else 0, TWO_TO_64, if negative then -1 else 0, LittleEndian(d));
    IsPacking(d, t - if negative then rest else 0);
  }

  lemma ZeroQuotient(divisor: nat)
    requires divisor > 0
    ensures 0 / divisor == 0
  {
  }

  /** Filled or not, the bytes are the floor of the signed quotient. */
  lemma ResultOfFill(d: Xlen, t: Xlen, s: Xlen, aliased: bool, amount: nat)
    requires amount < 64 && LittleEndian(t) == LittleEndian(Cleared(s, aliased)) / Pow2(amount)
    requires LittleEndian(d) == LittleEndian(t) + if s[7] >= 128 then TWO_TO_64 - Pow2(64 - amount) else 0
    ensures !aliased ==> d == ToBytes(8, Signed(s) / Pow2(amount))
    ensures aliased ==> d == ToBytes(8, Filled(0, s[7] >= 128, amount))
  {
    hide LittleEndian, Pow2, Signed, ToBytes;
    PackedFill(d, LittleEndian(t), Pow2(64 - amount), s[7] >= 128);
    if aliased {
      ZeroBytes();
      ZeroQuotient(Pow2(amount));
    } else {
      WholeWord(amount);
      SignedBySign(s);
      FloorBySign(LittleEndian(s), Pow2(amount), Pow2(64 - amount), s[7] >= 128);
    }
  }

  lemma WholeWord(amount: nat)
    requires amount < 64
    ensures Pow2(amount) * Pow2(64 - amount) == TWO_TO_64
  {
    Pow2Constants();
    Pow2Add(amount, 64 - amount);
  }
}
