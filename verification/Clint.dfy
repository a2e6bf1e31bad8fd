/**
 * The CLINT timebase (`src/emulator/clint/time.ts`): `mtime` follows a host nanosecond clock through
 * an epoch that a guest store of `mtime` reseats, and two timer wires compare it with `mtimecmp` and
 * the `stimecmp` mirror. The host clock is a parameter, and so is what other workers do to the shared words
 * between the accesses of a loop that retries.
 */
module Clint {
  import opened Bytes
  import opened Common
  import IrqLevel

  const NS_PER_SECOND: nat := 1_000_000_000
  const TIMEBASE_HZ_MAX: nat := 0xffff_ffff
  const WORD: nat := 0x1_0000_0000_0000_0000

  type Uint64 = v: int | 0 <= v < 0x1_0000_0000_0000_0000

  predicate IsTimebase(hz: int) { 1 <= hz <= TIMEBASE_HZ_MAX }

  function AsUint64(v: int): Uint64 { v % WORD }

  function Nanoseconds(mtime: Uint64, hz: int): nat
    requires IsTimebase(hz)
  {
    MulMonotone(0, mtime, NS_PER_SECOND);
    mtime * NS_PER_SECOND / hz
  }

  /** The epoch a store of `mtime` at host time `now` sets. */
  function EpochFor(mtime: Uint64, now: Uint64, hz: int): Uint64
    requires IsTimebase(hz)
  {
    AsUint64(now - Nanoseconds(mtime, hz))
  }

  /** Ticks of the clock since the epoch; negative while the epoch lies ahead. */
  function Elapsed(epoch: Uint64, now: Uint64, hz: int): int
    requires IsTimebase(hz)
  {
    Truncated((now - epoch) * hz, NS_PER_SECOND)
  }

  function Ticks(epoch: Uint64, now: Uint64, hz: int): Uint64
    requires IsTimebase(hz)
  {
    AsUint64(Elapsed(epoch, now, hz))
  }

  // ---------- Reading back a stored mtime ----------

  function Floor(a: int): int { a / NS_PER_SECOND }
  function Ceiling(a: int): int { (a + NS_PER_SECOND - 1) / NS_PER_SECOND }

  /** What the conversion to nanoseconds rounds off. */
  function Rounding(mtime: Uint64, hz: int): nat
    requires IsTimebase(hz)
  {
    mtime * NS_PER_SECOND % hz
  }

  /** How often the epoch wrapped because the clock had run for less time than `mtime` stands for. */
  function Wraps(mtime: Uint64, now: Uint64, hz: int): int
    requires IsTimebase(hz)
  {
    (EpochFor(mtime, now, hz) - now + Nanoseconds(mtime, hz)) / WORD
  }

  /** The stored value, less the rounding. */
  function Reread(mtime: Uint64, hz: int): int
    requires IsTimebase(hz)
  {
    mtime - Ceiling(Rounding(mtime, hz))
  }

  lemma EpochWithWraps(mtime: Uint64, now: Uint64, hz: int)
    requires IsTimebase(hz)
    ensures EpochFor(mtime, now, hz) == now - Nanoseconds(mtime, hz) + Wraps(mtime, now, hz) * WORD
    ensures Wraps(mtime, now, hz) >= 0 && (now >= Nanoseconds(mtime, hz) ==> Wraps(mtime, now, hz) == 0)
  {
    var d := now - Nanoseconds(mtime, hz);
    assert d == (d / WORD) * WORD + d % WORD;
  }

  lemma MtimeSplits(mtime: Uint64, hz: int)
    requires IsTimebase(hz)
    ensures mtime * NS_PER_SECOND == Nanoseconds(mtime, hz) * hz + Rounding(mtime, hz) && Rounding(mtime, hz) < hz
  {
    var a := mtime * NS_PER_SECOND;
    assert a == (a / hz) * hz + a % hz;
  }

  lemma TruncatedBy(a: int)
    ensures Truncated(a, NS_PER_SECOND) == if a >= 0 then a / NS_PER_SECOND else -((-a) / NS_PER_SECOND)
  {
  }

  lemma ElapsedTicks(m: int, q: int, r: int, k: int, hz: int, elapsed: int)
    requires m * NS_PER_SECOND == q * hz + r && elapsed == q - k * WORD && hz > 0
    ensures Truncated(elapsed * hz, NS_PER_SECOND)
            == m - if elapsed >= 0 then Ceiling(r + WORD * (k * hz)) else Floor(r + WORD * (k * hz))
  {
    var x := r + WORD * (k * hz);
    TruncatedBy(elapsed * hz);
    assert elapsed * hz == m * NS_PER_SECOND - x by {
      assert (q - k * WORD) * hz == q * hz - (k * WORD) * hz;
      assert (k * WORD) * hz == WORD * (k * hz);
    }
    if elapsed >= 0 {
      MulMonotone(0, elapsed, hz);
    } else {
      MulMonotone(elapsed, -1, hz);
    }
  }

  /** How many whole words the ticks are off, in terms of `k * hz == whole * 10^9 + part`. */
  lemma OffsetParts(r: int, whole: int, part: int)
    requires 0 <= part < NS_PER_SECOND && r >= 0
    ensures Ceiling(r + WORD * (whole * NS_PER_SECOND + part)) == WORD * whole + Ceiling(r + WORD * part)
    ensures Floor(r + WORD * (whole * NS_PER_SECOND + part)) == WORD * whole + Floor(r + WORD * part)
    ensures part > 0 ==> 0 < Floor(r + WORD * part) - Ceiling(r) && Ceiling(r + WORD * part) - Ceiling(r) < WORD
    ensures Floor(r) <= Ceiling(r) <= Floor(r) + 1 && (Floor(r) == Ceiling(r) <==> r % NS_PER_SECOND == 0)
  {
    assert r + WORD * (whole * NS_PER_SECOND + part) == (r + WORD * part) + (WORD * whole) * NS_PER_SECOND;
  }

  lemma SameWord(m: int, offset: int, whole: int, expected: int)
    requires 0 <= m - expected < WORD
    ensures AsUint64(m - (WORD * whole + offset)) == m - expected <==> (offset - expected) % WORD == 0
  {
    var d := offset - expected;
    assert m - (WORD * whole + offset) == (m - expected) - d - WORD * whole;
    if d % WORD == 0 {
      ModUnique(m - (WORD * whole + offset), WORD, -(d / WORD) - whole, m - expected);
    } else if AsUint64(m - (WORD * whole + offset)) == m - expected {
      var v := m - (WORD * whole + offset);
      assert v == (v / WORD) * WORD + v % WORD;
      ModUnique(d, WORD, -whole - v / WORD, 0);
    }
  }

  /**
   * The stored value survives an immediate tick, up to rounding, exactly when the epoch's wraps are whole
   * ticks (and rounding is, if the epoch lies ahead).
   */
  predicate EpochIsFaithful(mtime: Uint64, now: Uint64, hz: int)
    requires IsTimebase(hz)
  {
    && Wraps(mtime, now, hz) * hz % NS_PER_SECOND == 0
    && (now < EpochFor(mtime, now, hz) ==> Rounding(mtime, hz) % NS_PER_SECOND == 0)
  }

  lemma RereadIsUint64(mtime: Uint64, hz: int)
    requires IsTimebase(hz)
    ensures 0 <= Reread(mtime, hz) <= mtime && mtime - Reread(mtime, hz) <= Ceiling(hz - 1)
    ensures Reread(mtime, hz) == mtime <==> Rounding(mtime, hz) == 0
  {
    MtimeSplits(mtime, hz);
    MulMonotone(0, Nanoseconds(mtime, hz), hz);
  }

  /**
   * Ticks that are off by `k` wraps of `hz` ticks' worth: the value is right, up to rounding, exactly when
   * that is whole ticks.
   */
  lemma WrapsDecide(m: Uint64, r: nat, x: nat, up: bool)
    requires 0 <= m - Ceiling(r) < WORD
    ensures var ticks := m - if up then Ceiling(r + WORD * x) else Floor(r + WORD * x);
            AsUint64(ticks) == m - Ceiling(r) <==> x % NS_PER_SECOND == 0 && (!up ==> r % NS_PER_SECOND == 0)
  {
    var whole, part := x / NS_PER_SECOND, x % NS_PER_SECOND;
    OffsetParts(r, whole, part);
    WordOffset(r, part, up);
    hide AsUint64, Ceiling, Floor;
    SameWord(m, if up then Ceiling(r + WORD * part) else Floor(r + WORD * part), whole, Ceiling(r));
  }

  /**
   * A tick in the instant of a store of `mtime` gives the stored value less the rounding if and only if the
   * epoch is faithful.
   */
  lemma TickAfterStore(mtime: Uint64, now: Uint64, hz: int)
    requires IsTimebase(hz)
    ensures Ticks(EpochFor(mtime, now, hz), now, hz) == Reread(mtime, hz) <==> EpochIsFaithful(mtime, now, hz)
  {
    var epoch, k, r := EpochFor(mtime, now, hz), Wraps(mtime, now, hz), Rounding(mtime, hz);
    EpochWithWraps(mtime, now, hz);
    MtimeSplits(mtime, hz);
    RereadIsUint64(mtime, hz);
    hide EpochFor, Wraps, Nanoseconds, Rounding, Truncated, AsUint64, Ceiling, Floor, IsTimebase;
    assert hz > 0 && now - epoch == Nanoseconds(mtime, hz) - k * WORD;
    ElapsedTicks(mtime, Nanoseconds(mtime, hz), r, k, hz, now - epoch);
    MulMonotone(0, k, hz);
    WrapsDecide(mtime, r, k * hz, now >= epoch);
  }

  /** A part of a tick never makes up a whole word; without one, only the direction of rounding is left. */
  lemma WordOffset(r: int, part: int, up: bool)
    requires 0 <= part < NS_PER_SECOND && r >= 0
    ensures var offset := if up then Ceiling(r + WORD * part) else Floor(r + WORD * part);
            (offset - Ceiling(r)) % WORD == 0 <==> part == 0 && (!up ==> r % NS_PER_SECOND == 0)
  {
    OffsetParts(r, 0, part);
    CeilingIsAbove(r + WORD * part);
    hide Ceiling, Floor;
    var offset := if up then Ceiling(r + WORD * part) else Floor(r + WORD * part);
    if part > 0 {
      SmallIsNotMultiple(offset - Ceiling(r));
    } else {
      assert WORD * part == 0;
    }
  }

  lemma CeilingIsAbove(a: int)
    ensures Floor(a) <= Ceiling(a)
  {
  }

  lemma SmallIsNotMultiple(d: int)
    requires 0 < d < WORD
    ensures d % WORD != 0
  {
  }

  /**
   * Once the clock has run for as long as the stored `mtime` stands for, the store is faithful, and exact
   * when the frequency divides 10^9.
   */
  lemma StoreIsFaithfulAfterEnoughTime(mtime: Uint64, now: Uint64, hz: int)
    requires IsTimebase(hz) && now >= Nanoseconds(mtime, hz)
    ensures Ticks(EpochFor(mtime, now, hz), now, hz) == Reread(mtime, hz)
    ensures NS_PER_SECOND % hz == 0 ==> Reread(mtime, hz) == mtime
  {
    EpochWithWraps(mtime, now, hz);
    TickAfterStore(mtime, now, hz);
    RereadIsUint64(mtime, hz);
    if NS_PER_SECOND % hz == 0 {
      DividingFrequencyRoundsNothing(mtime, hz);
    }
  }

  lemma DividingFrequencyRoundsNothing(mtime: Uint64, hz: int)
    requires IsTimebase(hz) && NS_PER_SECOND % hz == 0
    ensures Rounding(mtime, hz) == 0
  {
    var c := NS_PER_SECOND / hz;
    assert NS_PER_SECOND == c * hz;
    assert mtime * (c * hz) == (mtime * c) * hz;
    ModUnique(mtime * NS_PER_SECOND, hz, mtime * c, 0);
  }

  /** A frequency that is a multiple of 1 GHz is faithful at every host time. */
  lemma GigahertzIsFaithful(mtime: Uint64, now: Uint64, c: int)
    requires IsTimebase(c * NS_PER_SECOND)
    ensures EpochIsFaithful(mtime, now, c * NS_PER_SECOND)
  {
    var hz, k := c * NS_PER_SECOND, Wraps(mtime, now, c * NS_PER_SECOND);
    assert k * hz == (k * c) * NS_PER_SECOND;
    ModUnique(k * hz, NS_PER_SECOND, k * c, 0);
    MtimeSplits(mtime, hz);
    var q, r := Nanoseconds(mtime, hz), Rounding(mtime, hz);
    assert q * hz == (q * c) * NS_PER_SECOND;
    assert (mtime - q * c) * NS_PER_SECOND == r;
    ModUnique(r, NS_PER_SECOND, mtime - q * c, 0);
  }

  /**
   * A store ahead of the host clock is not: at 10 MHz, a guest that stores two hours when the host has run
   * for one reads another value.
   */
  lemma EarlyStoreIsLost()
    ensures var hz, hour := 10_000_000, 3600;
            var mtime, now := 2 * hour * hz, hour * NS_PER_SECOND;
            IsTimebase(hz) && !EpochIsFaithful(mtime, now, hz)
                && Ticks(EpochFor(mtime, now, hz), now, hz) != Reread(mtime, hz)
  {
    var mtime: Uint64, now: Uint64, hz := 72_000_000_000, 3_600_000_000_000, 10_000_000;
    assert Nanoseconds(mtime, hz) == 7_200_000_000_000;
    assert EpochFor(mtime, now, hz) == WORD - 3_600_000_000_000;
    assert Wraps(mtime, now, hz) == 1;
    hide Wraps, EpochFor, Ticks, Reread, Rounding, Nanoseconds;
    TickAfterStore(mtime, now, hz);
  }

  lemma TruncatedIsMonotone(a: int, b: int)
    requires a <= b
    ensures Truncated(a, NS_PER_SECOND) <= Truncated(b, NS_PER_SECOND)
  {
    TruncatedBy(a);
    TruncatedBy(b);
  }

  lemma WordsInOrder(a: int, b: int)
    requires a <= b < a + WORD
    ensures AsUint64(a) <= AsUint64(b) <==> a / WORD == b / WORD
  {
  }

  /** How often the tick count has gone through 64 bits; negative while the epoch lies ahead of the clock. */
  function Era(epoch: Uint64, now: Uint64, hz: int): int
    requires IsTimebase(hz)
  {
    Elapsed(epoch, now, hz) / WORD
  }

  /**
   * With one epoch, a later tick less than 2^64 ticks away is never below an earlier one if and only if no
   * 64-bit wrap lies between them.
   */
  lemma TicksAreMonotone(epoch: Uint64, earlier: Uint64, later: Uint64, hz: int)
    requires IsTimebase(hz) && earlier <= later && Elapsed(epoch, later, hz) - Elapsed(epoch, earlier, hz) < WORD
    ensures Elapsed(epoch, earlier, hz) <= Elapsed(epoch, later, hz)
    ensures Ticks(epoch, earlier, hz) <= Ticks(epoch, later, hz) <==> Era(epoch, earlier, hz) == Era(epoch, later, hz)
  {
    MulMonotone(earlier - epoch, later - epoch, hz);
    TruncatedIsMonotone((earlier - epoch) * hz, (later - epoch) * hz);
    hide Truncated, AsUint64;
    WordsInOrder(Elapsed(epoch, earlier, hz), Elapsed(epoch, later, hz));
  }

  /** In `s` seconds of host time a timebase of `hz` makes `s * hz` ticks. */
  lemma TicksPerSecond(epoch: Uint64, s: nat, hz: int)
    requires IsTimebase(hz) && epoch + s * 1_000_000_000 < WORD
    ensures Elapsed(epoch, epoch + s * 1_000_000_000, hz) == s * hz
    ensures 1 <= hz < 0x1_0000_0000
  {
    assert (s * 1_000_000_000) * hz == (s * hz) * NS_PER_SECOND;
    MulMonotone(0, s, hz);
    TruncatedBy((s * hz) * NS_PER_SECOND);
    ModUnique((s * hz) * NS_PER_SECOND, NS_PER_SECOND, s * hz, 0);
  }

  // ---------- The registers ----------

  datatype TimeRegister = Mtime | Mtimecmp

  /** Bytes of a register after a guest store: bytes past the register are dropped. */
  function Replaced(value: Uint64, byteOffset: nat, source: seq<Byte>): (bytes: Xlen) {
    var after: seq<Byte> := seq(8, i requires 0 <= i < 8 =>
      if byteOffset <= i < byteOffset + |source| then source[i - byteOffset] else ToBytes(8, value)[i]);
    after
  }

  lemma Uint64OfBytes(bytes: Xlen)
    ensures LittleEndian(bytes) < WORD
  {
    Pow2Constants();
  }

  function WordOf(bytes: Xlen): Uint64 {
    Uint64OfBytes(bytes);
    LittleEndian(bytes)
  }

  /** A guest store changes the bytes it covers and no others. */
  lemma StoredBytesReadBack(value: Uint64, byteOffset: nat, source: seq<Byte>, i: nat)
    requires i < 8
    ensures ToBytes(8, WordOf(Replaced(value, byteOffset, source)))[i]
            == if byteOffset <= i < byteOffset + |source| then source[i - byteOffset] else ToBytes(8, value)[i]
  {
    ToBytesOfLittleEndian(Replaced(value, byteOffset, source));
  }

  /** `(value >> 8k) & 0xff` */
  function ByteAt(value: nat, k: nat): Byte { value / Pow2(8 * k) % 256 }

  /** `(value & ~(0xff << 8k)) | (byte << 8k)` */
  function WithByte(value: nat, k: nat, byte: Byte): (r: nat) {
    var place := Pow2(8 * k);
    ByteIsWithin(value, k);
    value - ByteAt(value, k) * place + byte * place
  }

  lemma ByteIsWithin(value: nat, k: nat)
    ensures 0 <= ByteAt(value, k) * Pow2(8 * k) <= value
    ensures forall byte: Byte :: byte * Pow2(8 * k) >= 0
  {
    hide Pow2;
    var place := Pow2(8 * k);
    assert value == value / place * place + value % place;
    MulMonotone(value / place % 256, value / place, place);
  }

  lemma DivideTwice(value: nat, m: nat)
    requires m > 0
    ensures value / (256 * m) == value / 256 / m
  {
    var q, r := value / 256 / m, value / 256 % m;
    assert value / 256 == q * m + r;
    assert 256 * (q * m) == q * (256 * m);
    ModUnique(value, 256 * m, q, value % 256 + 256 * r);
  }

  lemma ByteOfTail(value: nat, k: nat)
    requires k > 0
    ensures ByteAt(value, k) == ByteAt(value / 256, k - 1)
  {
    hide Pow2;
    Pow2Of8(k - 1);
    DivideTwice(value, Pow2(8 * (k - 1)));
  }

  lemma FirstByte(value: nat)
    ensures ByteAt(value, 0) == value % 256
  {
    assert Pow2(8 * 0) == 1;
  }

  lemma {:induction false} ByteOfWord(n: nat, value: nat, k: nat)
    requires k < n
    ensures ToBytes(n, value)[k] == ByteAt(value, k)
  {
    hide ByteAt;
    if k == 0 {
      FirstByte(value);
    } else {
      ByteOfTail(value, k);
      ByteOfWord(n - 1, value / 256, k - 1);
    }
  }

  lemma NoQuotient(value: nat, m: nat)
    requires value < m
    ensures value / m == 0
  {
    ModUnique(value, m, 0, value);
  }

  lemma NoByteAbove(value: Uint64, k: nat)
    requires k >= 8
    ensures ByteAt(value, k) == 0
  {
    Pow2Constants();
    hide Pow2;
    Pow2Add(64, 8 * k - 64);
    assert 64 + (8 * k - 64) == 8 * k;
    MulMonotone(1, Pow2(8 * k - 64), WORD);
    NoQuotient(value, Pow2(8 * k));
  }

  lemma WithByteOfTail(value: nat, k: nat, byte: Byte)
    requires k > 0
    ensures WithByte(value, k, byte) == value % 256 + 256 * WithByte(value / 256, k - 1, byte)
  {
    ByteOfTail(value, k);
    Pow2Of8(k - 1);
    hide Pow2, ByteAt;
    MulAssoc(ByteAt(value, k), 256, Pow2(8 * (k - 1)));
    MulAssoc(byte, 256, Pow2(8 * (k - 1)));
  }

  lemma DigitAndTail(digit: Byte, tail: nat, n: nat)
    ensures ToBytes(n + 1, digit + 256 * tail) == [digit] + ToBytes(n, tail)
  {
    ModUnique(digit + 256 * tail, 256, tail, digit);
  }

  lemma FirstByteReplaced(value: nat, byte: Byte)
    ensures WithByte(value, 0, byte) == byte + 256 * (value / 256)
  {
    assert Pow2(8 * 0) == 1;
  }

  /** Masking a byte in replaces that byte, and one beyond the register does not reach it. */
  lemma {:induction false} WithByteReplaces(n: nat, value: nat, k: nat, byte: Byte)
    ensures ToBytes(n, WithByte(value, k, byte)) == if k < n then ToBytes(n, value)[k := byte] else ToBytes(n, value)
  {
    hide WithByte;
    if n > 0 {
      DigitAndTail(value % 256, value / 256, n - 1);
      if k == 0 {
        FirstByteReplaced(value, byte);
        DigitAndTail(byte, value / 256, n - 1);
      } else {
        WithByteOfTail(value, k, byte);
        DigitAndTail(value % 256, WithByte(value / 256, k - 1, byte), n - 1);
        WithByteReplaces(n - 1, value / 256, k - 1, byte);
      }
    }
  }

  lemma OneMoreReplaced(value: Uint64, byteOffset: nat, source: seq<Byte>, i: nat)
    requires i < |source|
    ensures var bytes, k := Replaced(value, byteOffset, source[..i]), byteOffset + i;
            Replaced(value, byteOffset, source[..i + 1]) == if k < 8 then bytes[k := source[i]] else bytes
  {
    hide ToBytes;
  }

  lemma LowWord(value: nat, bytes: Xlen)
    requires ToBytes(8, value) == bytes
    ensures AsUint64(value) == WordOf(bytes)
  {
    Pow2Constants();
    LittleEndianOfToBytes(8, value);
  }

  /** The registers that the timer wires compare. */
  datatype Inputs = Inputs(mtime: Uint64, mtimecmp: Uint64, stimecmp: Uint64)

  /** What the compared registers are after the first `k` of `rivals`, each the values that other workers leave. */
  function InputsAfter(start: Inputs, rivals: seq<Inputs>, k: nat): Inputs {
    if k == 0 || rivals == [] then start else rivals[(if k <= |rivals| then k else |rivals|) - 1]
  }

  const TIMER_WIRE_UPDATE_ATTEMPTS: nat := 4

  /** One of the attempts of a wire refresh sees the same registers before and after. */
  ghost predicate Settles(start: Inputs, rivals: seq<Inputs>) {
    exists k :: 0 <= k < TIMER_WIRE_UPDATE_ATTEMPTS
        && InputsAfter(start, rivals, k) == InputsAfter(start, rivals, k + 1)
  }

  /** What other workers leave in `mtime` before an attempt's exchange, and in the epoch before its check. */
  datatype Rival = Rival(mtime: Uint64, epochNs: Uint64)

  class Timebase {
    var mtime: Uint64
    var mtimecmp: Uint64
    var stimecmp: Uint64
    var epochNs: Uint64
    const hz: int
    var machineTimerWire: bool
    var supervisorTimerWire: bool
    /** Bits of the irq-level word that are set; other devices drive bits other than 5 and 7. */
    var irqLevel: set<nat>

    ghost function Compared(): Inputs
      reads this
    {
      Inputs(mtime, mtimecmp, stimecmp)
    }

    /** The wires and their published bits are the comparisons of `inputs`. */
    ghost predicate WiresShow(inputs: Inputs)
      reads this
    {
      && machineTimerWire == (inputs.mtime >= inputs.mtimecmp) == (IrqLevel.MTIP in irqLevel)
      && supervisorTimerWire == (inputs.mtime >= inputs.stimecmp) == (IrqLevel.STIP in irqLevel)
    }

    ghost predicate Valid()
      reads this
    {
      IsTimebase(hz) && WiresShow(Compared())
    }

    /** The bits of the level word that other devices drive. */
    ghost function OtherLevels(): set<nat>
      reads this
    {
      irqLevel - {IrqLevel.MTIP, IrqLevel.STIP}
    }

    /** `resetClintTimebase`. */
    constructor (timebaseHz: int, now: Uint64, level: set<nat>)
      requires IsTimebase(timebaseHz)
      ensures Valid() && hz == timebaseHz && mtime == 0 && mtimecmp == WORD - 1 && stimecmp == WORD - 1
      ensures epochNs == now
    {
      hz, mtime, mtimecmp, stimecmp, epochNs := timebaseHz, 0, WORD - 1, WORD - 1, now;
      machineTimerWire, supervisorTimerWire, irqLevel := false, false, level;
      new;
      var _ := UpdateTimerWires([]);
    }

    /**
     * `updateTimerWiresFromCompare`. `rivals[k]` are the registers as other workers leave them between the
     * reads and the check of attempt `k`; after the last of them the registers stay. A refresh that settles
     * leaves the wires fresh, and one that gives up leaves them as of its last attempt.
     */
    method UpdateTimerWires(rivals: seq<Inputs>) returns (settled: bool)
      requires IsTimebase(hz)
      modifies this`mtime, this`mtimecmp, this`stimecmp, this`machineTimerWire, this`supervisorTimerWire, this`irqLevel
      ensures settled <==> Settles(old(Compared()), rivals)
      ensures settled ==> Valid()
      ensures !settled ==> WiresShow(InputsAfter(old(Compared()), rivals, TIMER_WIRE_UPDATE_ATTEMPTS - 1))
      ensures rivals == [] ==> settled && Compared() == old(Compared())
      ensures OtherLevels() == old(OtherLevels())
    {
      ghost var start := Compared();
      for attempt := 0 to TIMER_WIRE_UPDATE_ATTEMPTS
        invariant Compared() == InputsAfter(start, rivals, attempt) && OtherLevels() == old(OtherLevels())
        invariant forall k :: 0 <= k < attempt ==> InputsAfter(start, rivals, k) != InputsAfter(start, rivals, k + 1)
        invariant attempt > 0 ==> WiresShow(InputsAfter(start, rivals, attempt - 1))
      {
        var seen := Inputs(mtime, mtimecmp, stimecmp);
        machineTimerWire := seen.mtime >= seen.mtimecmp;
        irqLevel := IrqLevel.Driven(irqLevel, IrqLevel.Drive(IrqLevel.MTIP, machineTimerWire));
        supervisorTimerWire := seen.mtime >= seen.stimecmp;
        irqLevel := IrqLevel.Driven(irqLevel, IrqLevel.Drive(IrqLevel.STIP, supervisorTimerWire));
        if attempt < |rivals| {
          mtime, mtimecmp, stimecmp := rivals[attempt].mtime, rivals[attempt].mtimecmp, rivals[attempt].stimecmp;
        }
        if mtime == seen.mtime && mtimecmp == seen.mtimecmp && stimecmp == seen.stimecmp {
          assert InputsAfter(start, rivals, attempt) == InputsAfter(start, rivals, attempt + 1);
          return true;
        }
      }
      return false;
    }

    /**
     * `tickClint`. The clock of attempt `k` is `clock(k)`, and `rivals[k]` interferes with it; the tick ends
     * when an attempt finds `mtime` unchanged at its exchange and the epoch unchanged after it.
     */
    method Tick(clock: nat -> Uint64, rivals: seq<Rival>) returns (attempts: nat)
      requires Valid()
      modifies this
      ensures Valid() && mtime == Ticks(epochNs, clock(attempts), hz)
      ensures attempts <= |rivals|
      ensures epochNs == old(epochNs) || exists k :: 0 <= k < |rivals| && epochNs == rivals[k].epochNs
      ensures rivals == [] ==> epochNs == old(epochNs)
      ensures (mtimecmp, stimecmp) == old((mtimecmp, stimecmp)) && OtherLevels() == old(OtherLevels())
    {
      attempts := 0;
      while true
        invariant IsTimebase(hz) && attempts <= |rivals|
        invariant epochNs == old(epochNs) || exists k :: 0 <= k < attempts && epochNs == rivals[k].epochNs
        invariant (mtimecmp, stimecmp, irqLevel) == old((mtimecmp, stimecmp, irqLevel))
        decreases |rivals| - attempts
      {
        var epoch := epochNs;
        var ticks := Ticks(epoch, clock(attempts), hz);
        var previous := mtime;
        var rivalled := attempts < |rivals|;
        if rivalled {
          mtime := rivals[attempts].mtime;
        }
        var exchanged := mtime == previous;
        if exchanged {
          mtime := ticks;
        }
        if rivalled {
          epochNs := rivals[attempts].epochNs;
        }
        if exchanged && epochNs == epoch {
          break;
        }
        attempts := attempts + 1;
      }
      var _ := UpdateTimerWires([]);
    }

    method SetStimecmpMirror(value: Uint64)
      requires Valid()
      modifies this`mtime, this`mtimecmp, this`stimecmp, this`machineTimerWire, this`supervisorTimerWire, this`irqLevel
      ensures Valid() && (mtime, mtimecmp, stimecmp) == (old(mtime), old(mtimecmp), value)
      ensures OtherLevels() == old(OtherLevels())
    {
      if value == stimecmp {
        return;
      }
      stimecmp := value;
      var _ := UpdateTimerWires([]);
    }

    /** The value a store exchanges for `previous`. */
    method MergedWord(previous: Uint64, byteOffset: nat, source: seq<Byte>) returns (next: Uint64)
      ensures next == WordOf(Replaced(previous, byteOffset, source))
    {
      if |source| == 8 && byteOffset == 0 {
        assert Replaced(previous, 0, source) == source;
        Uint64OfBytes(source);
        return LittleEndian(source);
      }
      var wide: nat := previous;
      assert ToBytes(8, wide) == Replaced(previous, byteOffset, source[..0]);
      hide ToBytes, LittleEndian, WithByte, Pow2, Replaced, AsUint64;
      for i := 0 to |source|
        invariant ToBytes(8, wide) == Replaced(previous, byteOffset, source[..i])
      {
        OneMoreReplaced(previous, byteOffset, source, i);
        WithByteReplaces(8, wide, byteOffset + i, source[i]);
        wide := WithByte(wide, byteOffset + i, source[i]);
      }
      assert source[..|source|] == source;
      LowWord(wide, Replaced(previous, byteOffset, source));
      next := AsUint64(wide);
    }

    method Exchange(register: TimeRegister, expected: Uint64, desired: Uint64) returns (found: Uint64)
      modifies this`mtime, this`mtimecmp
      ensures found == if register.Mtime? then old(mtime) else old(mtimecmp)
      ensures mtime == if register.Mtime? && found == expected then desired else old(mtime)
      ensures mtimecmp == if register.Mtimecmp? && found == expected then desired else old(mtimecmp)
    {
      if register.Mtime? {
        found := mtime;
        mtime := if found == expected then desired else found;
      } else {
        found := mtimecmp;
        mtimecmp := if found == expected then desired else found;
      }
    }

    /**
     * `storeClintTimeBytes`. `rivals[k]` is what other workers leave in the register before the exchange of
     * attempt `k`. The store applies to the value it replaces, so no byte that it does not cover is lost; a
     * store to `mtime` also reseats the epoch, so that ticks continue from the stored value.
     */
    method StoreTimeBytes(register: TimeRegister, byteOffset: nat, source: seq<Byte>, now: Uint64, rivals: seq<Uint64>)
        returns (replaced: Uint64)
      requires Valid()
      modifies this
      ensures Valid() && stimecmp == old(stimecmp) && OtherLevels() == old(OtherLevels())
      ensures replaced == (if register.Mtime? then old(mtime) else old(mtimecmp)) || replaced in rivals
      ensures rivals == [] ==> replaced == if register.Mtime? then old(mtime) else old(mtimecmp)
      ensures register.Mtime? ==> mtime == WordOf(Replaced(replaced, byteOffset, source)) && mtimecmp == old(mtimecmp)
                                  && epochNs == EpochFor(mtime, now, hz)
      ensures register.Mtimecmp? ==> mtimecmp == WordOf(Replaced(replaced, byteOffset, source)) && mtime == old(mtime)
                                     && epochNs == old(epochNs)
    {
      ghost var start := if register.Mtime? then mtime else mtimecmp;
      var attempts := 0;
      while true
        invariant IsTimebase(hz) && attempts <= |rivals|
        invariant register.Mtime? ==> mtime == start || mtime in rivals[..attempts]
        invariant register.Mtimecmp? ==> mtimecmp == start || mtimecmp in rivals[..attempts]
        invariant attempts == 0 ==> start == if register.Mtime? then mtime else mtimecmp
        invariant register.Mtime? ==> mtimecmp == old(mtimecmp)
        invariant register.Mtimecmp? ==> mtime == old(mtime)
        invariant (stimecmp, epochNs, irqLevel) == old((stimecmp, epochNs, irqLevel))
        decreases |rivals| - attempts
      {
        var previous := if register.Mtime? then mtime else mtimecmp;
        var next := MergedWord(previous, byteOffset, source);
        if attempts < |rivals| {
          if register.Mtime? {
            mtime := rivals[attempts];
          } else {
            mtimecmp := rivals[attempts];
          }
        }
        replaced := Exchange(register, previous, next);
        if replaced == previous {
          break;
        }
        attempts := attempts + 1;
      }
      if register.Mtime? {
        epochNs := EpochFor(mtime, now, hz);
      }
      var _ := UpdateTimerWires([]);
    }

    /**
     * `loadClintTimeBytes`: one read of the register, ticked first if it is `mtime`, then its bytes by
     * shift and mask.
     */
    method LoadTimeBytes(
        register: TimeRegister, byteOffset: nat, destination: array<Byte>, byteLength: nat, now: Uint64)
      requires Valid() && byteLength <= destination.Length
      modifies this, destination
      ensures Valid() && (mtimecmp, stimecmp, epochNs) == old((mtimecmp, stimecmp, epochNs))
      ensures mtime == if register.Mtime? then Ticks(epochNs, now, hz) else old(mtime)
      ensures var word := ToBytes(8, if register.Mtime? then mtime else mtimecmp);
              forall i :: 0 <= i < byteLength ==>
                  destination[i] == if byteOffset + i < 8 then word[byteOffset + i] else 0
      ensures forall i :: byteLength <= i < destination.Length ==> destination[i] == old(destination[i])
    {
      if register.Mtime? {
        var _ := Tick(_ => now, []);
      }
      var value := if register.Mtime? then mtime else mtimecmp;
      for i := 0 to byteLength
        invariant Valid() && (mtimecmp, stimecmp, epochNs) == old((mtimecmp, stimecmp, epochNs))
        invariant value == if register.Mtime? then mtime else mtimecmp
        invariant mtime == if register.Mtime? then Ticks(epochNs, now, hz) else old(mtime)
        invariant forall k :: 0 <= k < i ==>
                  destination[k] == if byteOffset + k < 8 then ToBytes(8, value)[byteOffset + k] else 0
        invariant forall k :: i <= k < destination.Length ==> destination[k] == old(destination[k])
      {
        if byteOffset + i < 8 {
          ByteOfWord(8, value, byteOffset + i);
        } else {
          NoByteAbove(value, byteOffset + i);
        }
        destination[i] := ByteAt(value, byteOffset + i);
      }
    }
  }

  /** Bit 7 of the level word is the machine timer and bit 5 the supervisor timer, each by its comparison. */
  lemma TimerBits(t: Timebase)
    requires t.Valid()
    ensures t.machineTimerWire == (7 in t.irqLevel) == (t.mtime >= t.mtimecmp)
    ensures t.supervisorTimerWire == (5 in t.irqLevel) == (t.mtime >= t.stimecmp)
  {
  }
}
