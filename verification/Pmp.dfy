/**
 * Physical memory protection (`src/emulator/cpu/pmp.ts`): 16 entries with a 4-byte grain, priority
 * matching, locking, and the naturally aligned power-of-two (NAPOT) encoding. RISC-V Privileged
 * Architecture 20211203, section 3.7.1.
 */
module Pmp {
  import opened Bytes
  import opened Common

  const ENTRY_COUNT: nat := 16
  const ADDRESS_LIMIT: nat := 0x40_0000_0000_0000  // 2^54: a pmpaddr holds address bits 55:2

  datatype Access = Load | Store | Amo | Fetch

  /** Half-open byte range. */
  datatype Span = Span(low: nat, high: nat)

  datatype Entries = Entries(cfg: seq<bv8>, addr: seq<nat>)

  predicate Shaped(e: Entries) { |e.cfg| == ENTRY_COUNT == |e.addr| }

  predicate Locked(cfg: bv8) { cfg & 0x80 != 0 }
  predicate IsOff(cfg: bv8) { cfg & 0x18 == 0x00 }
  predicate IsTor(cfg: bv8) { cfg & 0x18 == 0x08 }
  predicate IsNa4(cfg: bv8) { cfg & 0x18 == 0x10 }

  // ---------- Address matching ----------

  function TrailingOnesFrom(value: nat, count: nat): (ones: nat)
    ensures count <= ones && (count <= 64 ==> ones <= 64)
    decreases value
  {
    if value % 2 == 1 && count < 64 then TrailingOnesFrom(value / 2, count + 1) else count
  }

  method TrailingOnes(value: nat) returns (count: nat)
    ensures count == TrailingOnesFrom(value, 0)
  {
    count := 0;
    var bits := value;
    while bits % 2 == 1 && count < 64
      invariant TrailingOnesFrom(bits, count) == TrailingOnesFrom(value, 0)
    {
      count := count + 1;
      bits := bits / 2;
    }
  }

  function NapotSpan(addr: nat): Span {
    var ones := TrailingOnesFrom(addr, 0);
    if ones >= 64 then Span(0, TWO_TO_64)
    else
      NapotBaseIsNatural(addr, Pow2(ones + 1));
      var low := (addr - addr % Pow2(ones + 1)) * 4;
      Span(low, low + Pow2(ones + 3))
  }

  lemma NapotBaseIsNatural(addr: nat, m: nat)
    requires m > 0
    ensures addr - addr % m >= 0
  {
  }

  /** The bytes entry `i` matches. OFF and an empty TOR match nothing. */
  function EntryRange(e: Entries, i: nat): Option<Span>
    requires Shaped(e) && i < ENTRY_COUNT
  {
    var cfg, high := e.cfg[i], e.addr[i];
    if IsOff(cfg) then None
    else if IsTor(cfg) then
      var low := if i == 0 then 0 else e.addr[i - 1] * 4;
      if low < high * 4 then Some(Span(low, high * 4)) else None
    else if IsNa4(cfg) then Some(Span(high * 4, high * 4 + 4))
    else Some(NapotSpan(high))
  }

  lemma TrailingOnesStep(half: nat, count: nat)
    requires count <= 64
    ensures TrailingOnesFrom(2 * half, count) == count
    ensures TrailingOnesFrom(2 * half + 1, count) == if count < 64 then TrailingOnesFrom(half, count + 1) else count
  {
  }

  lemma DoubleOnes(q: nat, h: nat)
    ensures q * (2 * (2 * h)) + 2 * h - 1 == 2 * (q * (2 * h) + h - 1) + 1
  {
    assert q * (2 * (2 * h)) == 2 * (q * (2 * h));
  }

  lemma {:induction false} OnesBelowAZero(q: nat, j: nat, count: nat)
    requires count + j <= 64
    ensures TrailingOnesFrom(q * (2 * Pow2(j)) + Pow2(j) - 1, count) == count + j
    decreases j
  {
    if j == 0 {
      assert q * (2 * Pow2(0)) + Pow2(0) - 1 == 2 * q;
      TrailingOnesStep(q, count);
    } else {
      hide TrailingOnesFrom, Pow2;
      var h := Pow2(j - 1);
      Pow2Next(j - 1);
      DoubleOnes(q, h);
      assert q * (2 * Pow2(j)) + Pow2(j) - 1 == 2 * (q * (2 * h) + h - 1) + 1;
      OnesBelowAZero(q, j - 1, count + 1);
      TrailingOnesStep(q * (2 * h) + h - 1, count);
    }
  }

  /** The pmpaddr value for a region of 2^k bytes at `base`. */
  function NapotAddress(base: nat, k: nat): nat
    requires k >= 3
  {
    base / 4 + Pow2(k - 3) - 1
  }

  /**
   * Decoding inverts encoding for every naturally aligned power-of-two region of 8 bytes or more in the
   * 56-bit space.
   */
  lemma NapotRoundTrip(q: nat, k: nat)
    requires 3 <= k <= 56 && q * Pow2(k) + Pow2(k) <= 4 * ADDRESS_LIMIT
    ensures var base := q * Pow2(k);
            NapotAddress(base, k) < ADDRESS_LIMIT && NapotSpan(NapotAddress(base, k)) == Span(base, base + Pow2(k))
  {
    hide Pow2, TrailingOnesFrom, NapotSpan;
    var half := Pow2(k - 3);
    Pow2Next(k - 3);
    Pow2Next(k - 2);
    Pow2Next(k - 1);
    QuarterOf(q, 2 * half);
    var low := q * (2 * half);
    assert Pow2(k) == 8 * half && q * Pow2(k) == 4 * low;
    assert NapotAddress(q * Pow2(k), k) == low + half - 1;
    OnesBelowAZero(q, k - 3, 0);
    SpanOf(q * (2 * half) + half - 1, k - 3, q, half - 1, 2 * half);
  }

  lemma SpanOf(addr: nat, ones: nat, q: nat, r: nat, m: nat)
    requires TrailingOnesFrom(addr, 0) == ones < 64 && m == Pow2(ones + 1) && r < m && addr == q * m + r
    ensures NapotSpan(addr) == Span(4 * (q * m), 4 * (q * m) + 4 * m)
  {
    hide Pow2, TrailingOnesFrom;
    Pow2Next(ones + 1);
    Pow2Next(ones + 2);
    ModUnique(addr, m, q, r);
  }

  lemma QuarterOf(q: nat, m: nat)
    ensures q * (4 * m) == 4 * (q * m) && q * (4 * m) / 4 == q * m
  {
  }

  lemma {:induction false} OnesEndInZero(value: nat, count: nat)
    requires TrailingOnesFrom(value, count) < 64
    ensures var n := TrailingOnesFrom(value, count) - count;
            value % Pow2(n + 1) == Pow2(n) - 1
    decreases value
  {
    var n := TrailingOnesFrom(value, count) - count;
    if value % 2 == 1 {
      OnesEndInZero(value / 2, count + 1);
      RemainderByBits(value, Pow2(n));
    }
  }

  /** Every address decodes to a naturally aligned region of 8 bytes or more, and encoding that region gives it back. */
  lemma NapotDecodesAligned(addr: nat)
    requires TrailingOnesFrom(addr, 0) < 64
    ensures var k, span := TrailingOnesFrom(addr, 0) + 3, NapotSpan(addr);
            span.high == span.low + Pow2(k) && span.low % Pow2(k) == 0 && NapotAddress(span.low, k) == addr
  {
    var ones := TrailingOnesFrom(addr, 0);
    OnesEndInZero(addr, 0);
    hide Pow2, TrailingOnesFrom, NapotSpan;
    var half, m := Pow2(ones), Pow2(ones + 1);
    Pow2Next(ones);
    Pow2Next(ones + 1);
    Pow2Next(ones + 2);
    var q := QuotientOf(addr, m);
    SpanOf(addr, ones, q, half - 1, m);
    QuarterOf(q, m);
    MultipleOf(q, 4 * m);
  }

  lemma QuotientOf(addr: nat, m: nat) returns (q: nat)
    requires m > 0
    ensures addr == q * m + addr % m
  {
    q := addr / m;
  }

  lemma MultipleOf(q: nat, m: nat)
    requires m > 0
    ensures q * m % m == 0
  {
    ModUnique(q * m, m, q, 0);
  }

  // ---------- The check ----------

  predicate Overlaps(span: Span, start: nat, length: nat) { start + length > span.low && start < span.high }

  predicate Covers(span: Span, start: nat, length: nat) { span.low <= start && start + length <= span.high }

  predicate Grants(cfg: bv8, access: Access) {
    match access
    case Load => cfg & 0x01 != 0
    case Store => cfg & 0x02 != 0
    case Fetch => cfg & 0x04 != 0
    case Amo => cfg & 0x01 != 0 && cfg & 0x02 != 0
  }

  predicate Matches(e: Entries, i: nat, start: nat, length: nat)
    requires Shaped(e) && i < ENTRY_COUNT
  {
    EntryRange(e, i).Some? && Overlaps(EntryRange(e, i).value, start, length)
  }

  predicate NoneBelow(e: Entries, i: nat, start: nat, length: nat)
    requires Shaped(e) && i <= ENTRY_COUNT
  {
    forall j :: 0 <= j < i ==> !Matches(e, j, start, length)
  }

  predicate EntryAllows(e: Entries, i: nat, start: nat, length: nat, access: Access, machine: bool)
    requires Shaped(e) && i < ENTRY_COUNT && EntryRange(e, i).Some?
  {
    Covers(EntryRange(e, i).value, start, length) && ((machine && !Locked(e.cfg[i])) || Grants(e.cfg[i], access))
  }

  /** The lowest-numbered matching entry must cover every byte and permit; with no match, only machine mode passes. */
  predicate Allowed(e: Entries, start: nat, length: nat, access: Access, machine: bool)
    requires Shaped(e)
  {
    || (machine && NoneBelow(e, ENTRY_COUNT, start, length))
    || (exists i :: 0 <= i < ENTRY_COUNT && NoneBelow(e, i, start, length) && Matches(e, i, start, length)
                    && EntryAllows(e, i, start, length, access, machine))
  }

  /** `physicalMemoryAccessDenied`, given whether the access is checked as machine mode. */
  method AccessDenied(e: Entries, start: nat, length: nat, access: Access, machine: bool) returns (denied: bool)
    requires Shaped(e)
    ensures denied <==> !Allowed(e, start, length, access, machine)
  {
    var end := start + length;
    for entry := 0 to ENTRY_COUNT
      invariant NoneBelow(e, entry, start, length)
    {
      var range := EntryRange(e, entry);
      if range.None? || end <= range.value.low || start >= range.value.high {
        continue;
      }
      FirstMatchDecides(e, entry, start, length, access, machine);
      if start < range.value.low || end > range.value.high {
        return true;
      }
      if machine && !Locked(e.cfg[entry]) {
        return false;
      }
      return !Grants(e.cfg[entry], access);
    }
    return !machine;
  }

  lemma FirstMatchDecides(e: Entries, i: nat, start: nat, length: nat, access: Access, machine: bool)
    requires Shaped(e) && i < ENTRY_COUNT && NoneBelow(e, i, start, length) && Matches(e, i, start, length)
    ensures Allowed(e, start, length, access, machine) <==> EntryAllows(e, i, start, length, access, machine)
  {
    if Allowed(e, start, length, access, machine) {
      var k :| 0 <= k < ENTRY_COUNT && NoneBelow(e, k, start, length) && Matches(e, k, start, length)
               && EntryAllows(e, k, start, length, access, machine);
      assert k == i;
    }
  }

  /** Every nonempty part of an allowed access is allowed. */
  lemma PartsOfAllowedAreAllowed(
    e: Entries, start: nat, length: nat, partStart: nat, partLength: nat, access: Access, machine: bool)
    requires Shaped(e) && Allowed(e, start, length, access, machine)
    requires start <= partStart && partLength > 0 && partStart + partLength <= start + length
    ensures Allowed(e, partStart, partLength, access, machine)
  {
    forall j | 0 <= j < ENTRY_COUNT && !Matches(e, j, start, length) ensures !Matches(e, j, partStart, partLength) {
    }
    if !(machine && NoneBelow(e, ENTRY_COUNT, start, length)) {
      var i :| 0 <= i < ENTRY_COUNT && NoneBelow(e, i, start, length) && Matches(e, i, start, length)
               && EntryAllows(e, i, start, length, access, machine);
      assert NoneBelow(e, i, partStart, partLength) && Matches(e, i, partStart, partLength);
    }
  }

  /** An allowed AMO could have been a load and could have been a store. */
  lemma AmoNeedsBoth(e: Entries, start: nat, length: nat, machine: bool)
    requires Shaped(e)
    ensures Allowed(e, start, length, Amo, machine)
            <==> Allowed(e, start, length, Load, machine) && Allowed(e, start, length, Store, machine)
  {
    if i: nat :| i < ENTRY_COUNT && NoneBelow(e, i, start, length) && Matches(e, i, start, length) {
      FirstMatchDecides(e, i, start, length, Amo, machine);
      FirstMatchDecides(e, i, start, length, Load, machine);
      FirstMatchDecides(e, i, start, length, Store, machine);
    }
  }

  /**
   * Configuration bytes by bits: 0x18 chooses how an address is matched, 1, 2 and 4 are read, write and
   * execute, and 0x80 binds machine mode too.
   */
  lemma RangeByBits(e: Entries, i: nat)
    requires Shaped(e) && i < 16
    ensures e.cfg[i] & 0x18 == 0x00 ==> EntryRange(e, i) == None
    ensures e.cfg[i] & 0x18 == 0x08 ==>
              var low := if i == 0 then 0 else 4 * e.addr[i - 1];
              EntryRange(e, i) == if low < 4 * e.addr[i] then Some(Span(low, 4 * e.addr[i])) else None
    ensures e.cfg[i] & 0x18 == 0x10 ==> EntryRange(e, i) == Some(Span(4 * e.addr[i], 4 * e.addr[i] + 4))
    ensures e.cfg[i] & 0x18 == 0x18 ==> EntryRange(e, i) == Some(NapotSpan(e.addr[i]))
  {
  }

  predicate Holds(span: Span, x: int) { span.low <= x < span.high }

  /** Some byte of the access lies in the range of entry `i`. */
  ghost predicate Meets(e: Entries, i: nat, start: nat, length: nat)
    requires Shaped(e) && i < 16
  {
    EntryRange(e, i).Some? && exists x :: start <= x < start + length && Holds(EntryRange(e, i).value, x)
  }

  /** Every byte of the access does. */
  ghost predicate Contains(e: Entries, i: nat, start: nat, length: nat)
    requires Shaped(e) && i < 16
  {
    EntryRange(e, i).Some? && forall x :: start <= x < start + length ==> Holds(EntryRange(e, i).value, x)
  }

  /** Entry `i` is the lowest-numbered one that meets the access. */
  ghost predicate IsFirst(e: Entries, i: nat, start: nat, length: nat)
    requires Shaped(e) && i < 16
  {
    Meets(e, i, start, length) && forall j :: 0 <= j < i ==> !Meets(e, j, start, length)
  }

  lemma {:induction false} RangesAreNotEmpty(e: Entries, i: nat)
    requires Shaped(e) && i < 16 && EntryRange(e, i).Some?
    ensures EntryRange(e, i).value.low < EntryRange(e, i).value.high
  {
  }

  lemma MatchesIsMeets(e: Entries, i: nat, start: nat, length: nat)
    requires Shaped(e) && i < 16 && length > 0
    ensures Matches(e, i, start, length) <==> Meets(e, i, start, length)
  {
    if Matches(e, i, start, length) {
      RangesAreNotEmpty(e, i);
      var low := EntryRange(e, i).value.low;
      var x := if start <= low then low else start;
      assert start <= x < start + length && Holds(EntryRange(e, i).value, x);
    }
  }

  lemma CoversIsContains(e: Entries, i: nat, start: nat, length: nat)
    requires Shaped(e) && i < 16 && length > 0 && EntryRange(e, i).Some?
    ensures Covers(EntryRange(e, i).value, start, length) <==> Contains(e, i, start, length)
  {
    if Contains(e, i, start, length) {
      assert Holds(EntryRange(e, i).value, start) && Holds(EntryRange(e, i).value, start + length - 1);
    }
  }

  lemma FirstDecides(e: Entries, i: nat, start: nat, length: nat, access: Access, machine: bool)
    requires Shaped(e) && i < 16 && length > 0 && IsFirst(e, i, start, length)
    ensures EntryRange(e, i).Some?
    ensures Allowed(e, start, length, access, machine)
            <==> Contains(e, i, start, length) && ((machine && !Locked(e.cfg[i])) || Grants(e.cfg[i], access))
  {
    forall j | 0 <= j <= i ensures Matches(e, j, start, length) <==> Meets(e, j, start, length) {
      MatchesIsMeets(e, j, start, length);
    }
    FirstMatchDecides(e, i, start, length, access, machine);
    CoversIsContains(e, i, start, length);
  }

  /**
   * A nonempty access is decided by the lowest entry that any of its bytes meets: all its bytes must be in that
   * entry's range, and then an unlocked entry lets machine mode pass, and otherwise its bits 1, 2 and 4 permit
   * load, store and fetch.
   */
  lemma PermissionByBits(e: Entries, i: nat, start: nat, length: nat, machine: bool)
    requires Shaped(e) && i < 16 && length > 0 && IsFirst(e, i, start, length)
    ensures !Contains(e, i, start, length) ==> forall access :: !Allowed(e, start, length, access, machine)
    ensures Contains(e, i, start, length) && machine && e.cfg[i] & 0x80 == 0 ==>
              forall access :: Allowed(e, start, length, access, machine)
    ensures Contains(e, i, start, length) && !(machine && e.cfg[i] & 0x80 == 0) ==>
              && (Allowed(e, start, length, Load, machine) <==> e.cfg[i] & 1 != 0)
              && (Allowed(e, start, length, Store, machine) <==> e.cfg[i] & 2 != 0)
              && (Allowed(e, start, length, Fetch, machine) <==> e.cfg[i] & 4 != 0)
              && (Allowed(e, start, length, Amo, machine) <==> e.cfg[i] & 1 != 0 && e.cfg[i] & 2 != 0)
  {
    forall access: Access
      ensures Allowed(e, start, length, access, machine)
              <==> Contains(e, i, start, length) && ((machine && !Locked(e.cfg[i])) || Grants(e.cfg[i], access))
    {
      FirstDecides(e, i, start, length, access, machine);
    }
    hide Allowed, IsFirst, Contains;
  }

  /** A nonempty access that meets no entry is for machine mode only. */
  lemma UnmatchedAccess(e: Entries, start: nat, length: nat, access: Access, machine: bool)
    requires Shaped(e) && length > 0 && forall i :: 0 <= i < 16 ==> !Meets(e, i, start, length)
    ensures Allowed(e, start, length, access, machine) <==> machine
  {
    forall i | 0 <= i < 16 ensures !Matches(e, i, start, length) {
      MatchesIsMeets(e, i, start, length);
    }
  }

  /**
   * A configuration byte is writable unless its bit 7 is set; an address, unless its own entry is locked or the
   * next one is locked and TOR. Addresses keep 54 bits.
   */
  lemma WritesByBits(e: Entries, w: Write)
    requires Shaped(e) && IsWrite(w)
    ensures var t := AfterWrite(e, w);
            match w
            case Cfg(first, incoming) =>
              && t.addr == e.addr
              && forall i :: 0 <= i < 16 ==>
                   t.cfg[i] == if first <= i < first + 8 && e.cfg[i] & 0x80 == 0 then LegalizedCfg(incoming[i - first])
                       else e.cfg[i]
            case Addr(i, value) =>
              && t.cfg == e.cfg
              && t.addr == if e.cfg[i] & 0x80 == 0 && !(i < 15 && e.cfg[i + 1] & 0x98 == 0x88)
                           then e.addr[i := value % 0x40_0000_0000_0000] else e.addr
  {
    if w.Addr? && w.i < 15 {
      LockedTor(e.cfg[w.i + 1]);
    }
  }

  lemma LockedTor(cfg: bv8)
    ensures Locked(cfg) && IsTor(cfg) <==> cfg & 0x98 == 0x88
  {
  }

  // ---------- CSR writes ----------

  /** Reserved bits are dropped, and W without R does not stick. */
  function LegalizedCfg(incoming: bv8): (cfg: bv8)
    ensures cfg & 0x60 == 0 && cfg & 0x9d == incoming & 0x9d
    ensures cfg & 0x02 != 0 <==> incoming & 0x02 != 0 && incoming & 0x01 != 0
  {
    var next := incoming & !0x60;
    if next & 0x02 != 0 && next & 0x01 == 0 then next & !0x02 else next
  }

  /** `legalizePmpCfg`: byte by byte, a locked byte stays as it was. */
  method LegalizeCfg(previous: seq<bv8>, incoming: seq<bv8>) returns (next: seq<bv8>)
    requires |previous| == 8 == |incoming|
    ensures |next| == 8
    ensures forall k :: 0 <= k < 8 ==> next[k] == if Locked(previous[k]) then previous[k] else LegalizedCfg(incoming[k])
  {
    next := [];
    for k := 0 to 8
      invariant |next| == k
      invariant forall j :: 0 <= j < k ==>
                next[j] == if Locked(previous[j]) then previous[j] else LegalizedCfg(incoming[j])
    {
      next := next + [if Locked(previous[k]) then previous[k] else LegalizedCfg(incoming[k])];
    }
  }

  /** A guest write of pmpcfg0 (`first` 0) or pmpcfg2 (`first` 8), or of one pmpaddr. */
  datatype Write = Cfg(first: nat, incoming: seq<bv8>) | Addr(i: nat, value: nat)

  predicate IsWrite(w: Write) {
    match w
    case Cfg(first, incoming) => (first == 0 || first == 8) && |incoming| == 8
    case Addr(i, _) => i < ENTRY_COUNT
  }

  predicate AddressWriteIgnored(e: Entries, i: nat)
    requires Shaped(e) && i < ENTRY_COUNT
  {
    Locked(e.cfg[i]) || (i + 1 < ENTRY_COUNT && Locked(e.cfg[i + 1]) && IsTor(e.cfg[i + 1]))
  }

  function AfterWrite(e: Entries, w: Write): (after: Entries)
    requires Shaped(e) && IsWrite(w)
    ensures Shaped(after)
  {
    match w
    case Cfg(first, incoming) =>
      e.(cfg := seq(ENTRY_COUNT, i requires 0 <= i < ENTRY_COUNT =>
        if first <= i < first + 8 && !Locked(e.cfg[i]) then LegalizedCfg(incoming[i - first]) else e.cfg[i]))
    case Addr(i, value) =>
      if AddressWriteIgnored(e, i) then e else e.(addr := e.addr[i := value % ADDRESS_LIMIT])
  }

  ghost predicate Run(states: seq<Entries>, writes: seq<Write>) {
    && |states| == |writes| + 1
    && Shaped(states[0])
    && forall k :: 0 <= k < |writes| ==>
         IsWrite(writes[k]) && Shaped(states[k]) && states[k + 1] == AfterWrite(states[k], writes[k])
  }

  /** What the legalisers leave possible: no reserved bits, no write-only region, 54 address bits. */
  predicate Legal(e: Entries) {
    && Shaped(e)
    && (forall i :: 0 <= i < ENTRY_COUNT ==> e.cfg[i] & 0x60 == 0 && (e.cfg[i] & 0x02 != 0 ==> e.cfg[i] & 0x01 != 0))
    && (forall i :: 0 <= i < ENTRY_COUNT ==> e.addr[i] < ADDRESS_LIMIT)
  }

  lemma WriteKeepsLegal(e: Entries, w: Write)
    requires Legal(e) && IsWrite(w)
    ensures Legal(AfterWrite(e, w))
  {
  }

  /** What a locked entry fixes: its configuration, its address and the bytes it matches. */
  predicate SameEntry(a: Entries, b: Entries, i: nat)
    requires Shaped(a) && Shaped(b) && i < ENTRY_COUNT
  {
    a.cfg[i] == b.cfg[i] && a.addr[i] == b.addr[i] && EntryRange(a, i) == EntryRange(b, i)
  }

  lemma WriteKeepsLocked(e: Entries, w: Write, i: nat)
    requires Shaped(e) && IsWrite(w) && i < ENTRY_COUNT && Locked(e.cfg[i])
    ensures SameEntry(e, AfterWrite(e, w), i)
  {
  }

  /** No sequence of writes changes a locked entry, including a TOR entry whose low bound is its neighbour's address. */
  lemma {:induction false} LockedForever(states: seq<Entries>, writes: seq<Write>, n: nat, i: nat)
    requires Run(states, writes) && n < |states| && i < ENTRY_COUNT && Locked(states[0].cfg[i])
    ensures Shaped(states[n]) && SameEntry(states[0], states[n], i)
  {
    if n > 0 {
      LockedForever(states, writes, n - 1, i);
      WriteKeepsLocked(states[n - 1], writes[n - 1], i);
    }
  }

  /** Entries that agree on 0..k give one verdict on any access that matches one of those. */
  lemma SameVerdict(a: Entries, b: Entries, k: nat, start: nat, length: nat, access: Access, machine: bool)
    requires Shaped(a) && Shaped(b) && k < ENTRY_COUNT && forall j :: 0 <= j <= k ==> SameEntry(a, b, j)
    requires exists j :: 0 <= j <= k && Matches(a, j, start, length)
    ensures Allowed(a, start, length, access, machine) == Allowed(b, start, length, access, machine)
  {
    hide EntryRange, Allowed;
    forall j | 0 <= j <= k ensures Matches(a, j, start, length) == Matches(b, j, start, length) {
      assert SameEntry(a, b, j);
    }
    var j: nat :| j <= k && Matches(a, j, start, length);
    var i := FirstMatch(a, j, start, length);
    assert SameEntry(a, b, i) && NoneBelow(b, i, start, length) && Matches(b, i, start, length);
    FirstMatchDecides(a, i, start, length, access, machine);
    FirstMatchDecides(b, i, start, length, access, machine);
  }

  /** When entries 0..k are locked, the verdict on any access that matches one of them is final. */
  lemma VerdictIsFinal(
    states: seq<Entries>, writes: seq<Write>, n: nat, k: nat, start: nat, length: nat, access: Access, machine: bool)
    requires Run(states, writes) && n < |states| && k < ENTRY_COUNT
    requires forall j :: 0 <= j <= k ==> Locked(states[0].cfg[j])
    requires exists j :: 0 <= j <= k && Matches(states[0], j, start, length)
    ensures Shaped(states[n])
    ensures Allowed(states[0], start, length, access, machine) == Allowed(states[n], start, length, access, machine)
  {
    LockedForever(states, writes, n, 0);
    forall j | 0 <= j <= k ensures SameEntry(states[0], states[n], j) {
      LockedForever(states, writes, n, j);
    }
    SameVerdict(states[0], states[n], k, start, length, access, machine);
  }

  lemma {:induction false} FirstMatch(e: Entries, j: nat, start: nat, length: nat) returns (i: nat)
    requires Shaped(e) && j < ENTRY_COUNT && Matches(e, j, start, length)
    ensures i <= j && NoneBelow(e, i, start, length) && Matches(e, i, start, length)
  {
    if k: nat :| k < j && Matches(e, k, start, length) {
      i := FirstMatch(e, k, start, length);
    } else {
      i := j;
    }
  }
}
