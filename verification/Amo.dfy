/**
 * The values computed by AMOs (`src/emulator/cpu/instructions/amo.ts`).
 *
 * `Combine` follows the source: operands are widened to 64 bits, the 64-bit byte routine is
 * applied, and a 32-bit result is narrowed. The lemmas say what that amounts to: exact `8 * width`
 * bit arithmetic on the two memory-width operands, for both widths.
 */
module Amo {
  import opened Bytes

  datatype AmoOp = Swap | Add | Xor | And | Or | Min | Max | MinU | MaxU

  function AndByte(a: Byte, b: Byte): Byte { ((a as bv8) & (b as bv8)) as int }
  function OrByte(a: Byte, b: Byte): Byte { ((a as bv8) | (b as bv8)) as int }
  function XorByte(a: Byte, b: Byte): Byte { ((a as bv8) ^ (b as bv8)) as int }

  /** A byte as its bits. */
  function BitsOf(b: Byte): bv8 { b as bv8 }

  predicate IsOn(v: bv8, bit: bv8) { v & bit != 0 }

  lemma ThereAndBack(v: bv8)
    ensures (v as int) as bv8 == v
  {
  }

  lemma AndIsAnd(a: Byte, b: Byte)
    ensures BitsOf(AndByte(a, b)) == BitsOf(a) & BitsOf(b)
  {
    ThereAndBack((a as bv8) & (b as bv8));
  }

  lemma OrIsOr(a: Byte, b: Byte)
    ensures BitsOf(OrByte(a, b)) == BitsOf(a) | BitsOf(b)
  {
    ThereAndBack((a as bv8) | (b as bv8));
  }

  lemma XorIsXor(a: Byte, b: Byte)
    ensures BitsOf(XorByte(a, b)) == BitsOf(a) ^ BitsOf(b)
  {
    ThereAndBack((a as bv8) ^ (b as bv8));
  }

  lemma BitsOfOperators(a: bv8, b: bv8, bit: bv8)
    requires bit != 0 && bit & (bit - 1) == 0
    ensures IsOn(a & b, bit) <==> IsOn(a, bit) && IsOn(b, bit)
    ensures IsOn(a | b, bit) <==> IsOn(a, bit) || IsOn(b, bit)
    ensures IsOn(a ^ b, bit) <==> IsOn(a, bit) != IsOn(b, bit)
  {
  }

  /** Bit by bit: a result bit is set where both, either, or exactly one of the operands' bits are. */
  lemma BitsOfBytes(a: Byte, b: Byte, bit: bv8)
    requires bit != 0 && bit & (bit - 1) == 0
    ensures IsOn(BitsOf(AndByte(a, b)), bit) <==> IsOn(BitsOf(a), bit) && IsOn(BitsOf(b), bit)
    ensures IsOn(BitsOf(OrByte(a, b)), bit) <==> IsOn(BitsOf(a), bit) || IsOn(BitsOf(b), bit)
    ensures IsOn(BitsOf(XorByte(a, b)), bit) <==> IsOn(BitsOf(a), bit) != IsOn(BitsOf(b), bit)
  {
    hide IsOn, BitsOf, AndByte, OrByte, XorByte;
    AndIsAnd(a, b);
    OrIsOr(a, b);
    XorIsXor(a, b);
    BitsOfOperators(BitsOf(a), BitsOf(b), bit);
  }

  function MapBytes(f: (Byte, Byte) -> Byte, a: Xlen, b: Xlen): Xlen {
    seq(8, i requires 0 <= i < 8 => f(a[i], b[i]))
  }

  predicate IsWidth(width: nat) { width == 4 || width == 8 }

  function AsSigned(value: Xlen, width: nat): Xlen
    requires IsWidth(width)
  {
    if width == 4 then SignExtended(value[..4]) else value
  }

  function AsUnsigned(value: Xlen, width: nat): Xlen
    requires IsWidth(width)
  {
    if width == 4 then ZeroExtended(value[..4]) else value
  }

  function Narrow(value: Xlen, width: nat): Xlen
    requires IsWidth(width)
  {
    if width == 4 then ZeroExtended(value[..4]) else value
  }

  function Combine(op: AmoOp, oldValue: Xlen, source: Xlen, width: nat): Xlen
    requires IsWidth(width)
  {
    var l, r := AsSigned(oldValue, width), AsSigned(source, width);
    var lu, ru := AsUnsigned(oldValue, width), AsUnsigned(source, width);
    match op
    case Swap => source
    case Add => Narrow(ToBytes(8, LittleEndian(l) + LittleEndian(r)), width)
    case Xor => Narrow(MapBytes(XorByte, l, r), width)
    case And => Narrow(MapBytes(AndByte, l, r), width)
    case Or => Narrow(MapBytes(OrByte, l, r), width)
    case Min => Narrow(if Signed(l) <= Signed(r) then l else r, width)
    case Max => Narrow(if Signed(l) >= Signed(r) then l else r, width)
    case MinU => Narrow(if LittleEndian(lu) <= LittleEndian(ru) then lu else ru, width)
    case MaxU => Narrow(if LittleEndian(lu) >= LittleEndian(ru) then lu else ru, width)
  }

  /** Two's-complement value of a word of any width. */
  function SignedWord(word: seq<Byte>): int
    requires |word| > 0
  {
    if LittleEndian(word) >= Pow2(8 * |word| - 1) then LittleEndian(word) - Pow2(8 * |word|) else LittleEndian(word)
  }

  function MinOf(a: int, b: int): int { if a <= b then a else b }
  function MaxOf(a: int, b: int): int { if a >= b then a else b }

  lemma Upper(word: seq<Byte>, upper: seq<Byte>)
    requires |word| == 4 && |upper| == 4
    ensures LittleEndian(word + upper) == LittleEndian(word) + LittleEndian(upper) * TWO_TO_32
    ensures LittleEndian(word) < TWO_TO_32
  {
    Pow2Constants();
    LittleEndianAppend(word, upper);
  }

  lemma PrefixIsRemainder(s: Xlen)
    ensures LittleEndian(s[..4]) == LittleEndian(s) % TWO_TO_32
  {
    Upper(s[..4], s[4..]);
    assert s == s[..4] + s[4..];
    ModUnique(LittleEndian(s), TWO_TO_32, LittleEndian(s[4..]), LittleEndian(s[..4]));
  }

  lemma ZeroExtensionKeepsWord(word: seq<Byte>)
    requires |word| == 4
    ensures ZeroExtended(word)[..4] == word
    ensures LittleEndian(ZeroExtended(word)) == LittleEndian(word)
  {
    Upper(word, [0, 0, 0, 0]);
    assert ZeroExtended(word) == word + [0, 0, 0, 0];
    assert LittleEndian([0, 0, 0, 0]) == 0;
  }

  lemma FillerWords()
    ensures LittleEndian([0, 0, 0, 0]) == 0 && LittleEndian([255, 255, 255, 255]) == TWO_TO_32 - 1
  {
    assert LittleEndian([255]) == 255 && LittleEndian([255, 255]) == 0xffff
        && LittleEndian([255, 255, 255]) == 0xff_ffff;
  }

  lemma SignedByTop(word: seq<Byte>)
    requires |word| == 4
    ensures SignedWord(word) == LittleEndian(word) - if word[3] >= 128 then TWO_TO_32 else 0
  {
    Pow2Constants();
    WordSignBit(word);
    hide LittleEndian, Pow2;
  }

  lemma SignExtensionKeepsWord(word: seq<Byte>)
    requires |word| == 4
    ensures SignExtended(word)[..4] == word
    ensures Signed(SignExtended(word)) == SignedWord(word)
  {
    hide LittleEndian, Pow2, SignedWord;
    var upper: seq<Byte> := if word[3] >= 128 then [255, 255, 255, 255] else [0, 0, 0, 0];
    assert SignExtended(word) == word + upper;
    FillerWords();
    Upper(word, upper);
    SignedByTop(word);
  }

  lemma WordSignBit(word: seq<Byte>)
    requires |word| == 4
    ensures Pow2(31) == 0x8000_0000 && (word[3] >= 128 <==> LittleEndian(word) >= Pow2(31))
  {
    assert Pow2(24) == 0x100_0000 by { Pow2Add(8, 8); Pow2Add(16, 8); assert Pow2(8) == 256; }
    Pow2Add(24, 7);
    assert Pow2(7) == 128;
    LittleEndianSnoc(word, 3);
    assert word[..4] == word;
  }

  /** Only the low word of the old value reaches memory. */
  lemma CombineReadsOnlyTheWord(op: AmoOp, a: Xlen, b: Xlen, source: Xlen, width: nat)
    requires IsWidth(width) && a[..width] == b[..width]
    ensures Combine(op, a, source, width)[..width] == Combine(op, b, source, width)[..width]
  {
    if width == 8 {
      assert a == a[..8] && b == b[..8];
    }
  }

  /** `written` is the exact `8 * |m|`-bit result of the operation on the memory word `m` and operand word `x`. */
  ghost predicate Computes(op: AmoOp, m: seq<Byte>, x: seq<Byte>, written: seq<Byte>)
    requires |m| == |x| == |written| > 0
  {
    match op
    case Swap => written == x
    case Add => LittleEndian(written) == (LittleEndian(m) + LittleEndian(x)) % Pow2(8 * |m|)
    case Xor => forall i :: 0 <= i < |m| ==> written[i] == XorByte(m[i], x[i])
    case And => forall i :: 0 <= i < |m| ==> written[i] == AndByte(m[i], x[i])
    case Or => forall i :: 0 <= i < |m| ==> written[i] == OrByte(m[i], x[i])
    case Min => SignedWord(written) == MinOf(SignedWord(m), SignedWord(x))
    case Max => SignedWord(written) == MaxOf(SignedWord(m), SignedWord(x))
    case MinU => LittleEndian(written) == MinOf(LittleEndian(m), LittleEndian(x))
    case MaxU => LittleEndian(written) == MaxOf(LittleEndian(m), LittleEndian(x))
  }

  /** An AMO is exact arithmetic at its memory width, and the upper half of its inputs never matters. */
  lemma CombineComputes(op: AmoOp, oldValue: Xlen, source: Xlen, width: nat)
    requires IsWidth(width)
    ensures Computes(op, oldValue[..width], source[..width], Combine(op, oldValue, source, width)[..width])
  {
    if width == 4 {
      CombineComputes32(op, oldValue, source);
    } else {
      CombineComputes64(op, oldValue, source);
    }
  }

  lemma CombineComputes64(op: AmoOp, oldValue: Xlen, source: Xlen)
    ensures Computes(op, oldValue[..8], source[..8], Combine(op, oldValue, source, 8)[..8])
  {
    var result := Combine(op, oldValue, source, 8);
    WholeSlice(oldValue);
    WholeSlice(source);
    WholeSlice(result);
    SignedIsSignedWord(oldValue);
    SignedIsSignedWord(source);
    if op.Add? {
      LittleEndianOfToBytes(8, LittleEndian(oldValue) + LittleEndian(source));
    }
    hide ToBytes, LittleEndian, Pow2, SignedWord, Signed;
  }

  lemma WholeSlice(s: Xlen)
    ensures s[..8] == s
  {
  }

  lemma SignedIsSignedWord(s: Xlen)
    ensures SignedWord(s) == Signed(s)
  {
    Pow2Constants();
  }

  lemma CombineComputes32(op: AmoOp, oldValue: Xlen, source: Xlen)
    ensures Computes(op, oldValue[..4], source[..4], Combine(op, oldValue, source, 4)[..4])
  {
    var m, x := oldValue[..4], source[..4];
    SignExtensionKeepsWord(m);
    SignExtensionKeepsWord(x);
    ZeroExtensionKeepsWord(m);
    ZeroExtensionKeepsWord(x);
    match op
    case Add => AddNarrows(oldValue, source);
    case Swap =>
    case Xor => NarrowKeepsWord(MapBytes(XorByte, SignExtended(m), SignExtended(x)));
    case And => NarrowKeepsWord(MapBytes(AndByte, SignExtended(m), SignExtended(x)));
    case Or => NarrowKeepsWord(MapBytes(OrByte, SignExtended(m), SignExtended(x)));
    case Min => NarrowKeepsWord(SignExtended(m)); NarrowKeepsWord(SignExtended(x));
    case Max => NarrowKeepsWord(SignExtended(m)); NarrowKeepsWord(SignExtended(x));
    case MinU => NarrowKeepsWord(ZeroExtended(m)); NarrowKeepsWord(ZeroExtended(x));
    case MaxU => NarrowKeepsWord(ZeroExtended(m)); NarrowKeepsWord(ZeroExtended(x));
  }

  lemma NarrowKeepsWord(value: Xlen)
    ensures Narrow(value, 4)[..4] == value[..4]
  {
    ZeroExtensionKeepsWord(value[..4]);
  }

  lemma ModOfSum(l: nat, r: nat)
    ensures ((l + r) % TWO_TO_64) % TWO_TO_32 == (l % TWO_TO_32 + r % TWO_TO_32) % TWO_TO_32
  {
  }

  lemma SumNarrows(l: Xlen, r: Xlen, sum: Xlen)
    requires LittleEndian(sum) == (LittleEndian(l) + LittleEndian(r)) % TWO_TO_64
    ensures LittleEndian(sum[..4]) == (LittleEndian(l[..4]) + LittleEndian(r[..4])) % TWO_TO_32
  {
    PrefixIsRemainder(sum);
    PrefixIsRemainder(l);
    PrefixIsRemainder(r);
    ModOfSum(LittleEndian(l), LittleEndian(r));
  }

  lemma AddNarrows(oldValue: Xlen, source: Xlen)
    ensures Computes(Add, oldValue[..4], source[..4], Combine(Add, oldValue, source, 4)[..4])
  {
    hide ToBytes, LittleEndian, MapBytes, SignedWord, Signed;
    var l, r := SignExtended(oldValue[..4]), SignExtended(source[..4]);
    Pow2Constants();
    SignExtensionKeepsWord(oldValue[..4]);
    SignExtensionKeepsWord(source[..4]);
    LittleEndianOfToBytes(8, LittleEndian(l) + LittleEndian(r));
    SumNarrows(l, r, ToBytes(8, LittleEndian(l) + LittleEndian(r)));
    NarrowKeepsWord(ToBytes(8, LittleEndian(l) + LittleEndian(r)));
  }
}
