/**
 * The PLIC in guest offsets, source numbers and bits (`src/emulator/plic/layout.ts:36-59`,
 * `src/emulator/plic/memory.ts`, `src/emulator/plic/gateway.ts`): what each byte of the window is, and what
 * levels, claims and completions do to it.
 */
module PlicBits {
  import opened Bytes
  import IrqLevel
  import opened Plic

  /** Bit `k` of a byte. */
  predicate IsOne(value: Byte, k: nat) { value / Pow2(k) % 2 == 1 }

  lemma HalfOfQuotient(value: nat, p: nat)
    requires p > 0
    ensures value / 2 / p == value / (2 * p)
  {
    var q, r := value / 2 / p, value / 2 % p;
    assert value / 2 == q * p + r;
    assert 2 * (q * p) == q * (2 * p);
    ModUnique(value, 2 * p, q, value % 2 + 2 * r);
  }

  lemma {:induction false} BitOfIsOne(value: nat, k: nat)
    ensures BitOf(value, k) <==> value / Pow2(k) % 2 == 1
  {
    if k == 0 {
      assert Pow2(0) == 1;
    } else {
      BitOfIsOne(value / 2, k - 1);
      HalfOfQuotient(value, Pow2(k - 1));
    }
  }

  // ---------- Stores ----------

  /** An enable byte written: the eight sources it covers follow its bits, source 0 stays off, and the others stay. */
  predicate EnablesFollow(before: Bits, after: Bits, b: nat, value: Byte) {
    forall s :: 0 <= s < 32 ==> after[s] == if s / 8 == b then s != 0 && IsOne(value, s % 8) else before[s]
  }

  /** Both gateways agree but for the named register. */
  predicate SameButPriority(g: Gateway, t: Gateway) { t == g.(priority := t.priority) }
  predicate SameButEnable(g: Gateway, t: Gateway) { t == g.(enable := t.enable) }
  predicate SameButThreshold(g: Gateway, t: Gateway) { t == g.(threshold := t.threshold) }

  lemma EnabledFollows(bits: Bits, b: nat, value: Byte)
    requires b < 4
    ensures EnablesFollow(bits, Enabled(bits, b, value), b, value)
  {
    forall s | 0 <= s < 32
      ensures Enabled(bits, b, value)[s] == if s / 8 == b then s != 0 && IsOne(value, s % 8) else bits[s]
    {
      BitOfIsOne(value, s % 8);
    }
  }

  /** Bytes 0 to 127 are the priorities of sources 0 to 31, four each; source 0 has none. */
  lemma StoreToPriority(g: Gateway, s: nat, b: nat, value: Byte)
    requires Sound(g) && s < 32 && b < 4
    ensures var t := StoreByte(g, 4 * s + b, value);
            SameButPriority(g, t) && t.priority == if s == 0 then g.priority
                else g.priority[s := g.priority[s][b := value]]
  {
    assert Locate(4 * s + b) == PriorityAt(s, b);
  }

  /** The pending words at 0x1000 cannot be written, and bytes that are no register are ignored. */
  lemma StoreToNothing(g: Gateway, offset: int, value: Byte)
    requires Sound(g)
    requires !(0 <= offset < 0x80) && !(0x2000 <= offset < 0x2004) && !(0x2080 <= offset < 0x2084)
    requires !(0x20_0000 <= offset < 0x20_0008) && !(0x20_1000 <= offset < 0x20_1008)
    ensures StoreByte(g, offset, value) == g
  {
  }

  /** Enable bits of machine mode are at 0x2000, those of supervisor mode at 0x2080. */
  lemma StoreToEnable(g: Gateway, b: nat, value: Byte)
    requires Sound(g) && b < 4
    ensures var t := StoreByte(g, 0x2000 + b, value);
            && SameButEnable(g, t) && t.enable.supervisor == g.enable.supervisor
            && EnablesFollow(g.enable.machine, t.enable.machine, b, value)
    ensures var t := StoreByte(g, 0x2080 + b, value);
            && SameButEnable(g, t) && t.enable.machine == g.enable.machine
            && EnablesFollow(g.enable.supervisor, t.enable.supervisor, b, value)
  {
    assert Locate(0x2000 + b) == EnableAt(Machine, b) && Locate(0x2080 + b) == EnableAt(Supervisor, b);
    EnabledFollows(g.enable.machine, b, value);
    EnabledFollows(g.enable.supervisor, b, value);
    hide EnablesFollow, Enabled, Locate, Sound;
  }

  /** The thresholds are at 0x200000 and 0x201000. */
  lemma StoreToThreshold(g: Gateway, b: nat, value: Byte)
    requires Sound(g) && b < 4
    ensures var t := StoreByte(g, 0x20_0000 + b, value);
            && SameButThreshold(g, t) && t.threshold.supervisor == g.threshold.supervisor
            && t.threshold.machine == g.threshold.machine[b := value]
    ensures var t := StoreByte(g, 0x20_1000 + b, value);
            && SameButThreshold(g, t) && t.threshold.machine == g.threshold.machine
            && t.threshold.supervisor == g.threshold.supervisor[b := value]
  {
    assert Locate(0x20_0000 + b) == ThresholdAt(Machine, b) && Locate(0x20_1000 + b) == ThresholdAt(Supervisor, b);
    hide Locate, Sound;
  }

  /**
   * What completing `source` by one context does: it is served no longer, and waits again if its level is
   * still high.
   */
  predicate Completed(g: Gateway, t: Gateway, c: Context, source: nat)
    requires source < 32
  {
    && t == g.(pending := t.pending, claimedBy := t.claimedBy)
    && t.claimedBy.machine == (if c.Machine? then g.claimedBy.machine[source := false] else g.claimedBy.machine)
    && t.claimedBy.supervisor
         == (if c.Machine? then g.claimedBy.supervisor else g.claimedBy.supervisor[source := false])
    && t.pending == g.pending[source := g.inputLevel[source]]
  }

  predicate Serves(g: Gateway, c: Context, source: nat)
    requires source < 32
  {
    if c.Machine? then g.claimedBy.machine[source] else g.claimedBy.supervisor[source]
  }

  /**
   * The low byte of the claim registers at 0x200004 and 0x201004 completes the source it names, if this
   * context serves it; their other bytes do nothing.
   */
  lemma StoreToClaim(g: Gateway, c: Context, b: nat, value: Byte)
    requires Sound(g) && b < 4
    ensures var t := StoreByte(g, (if c.Machine? then 0x20_0004 else 0x20_1004) + b, value);
            if b == 0 && 1 <= value <= 31 && Serves(g, c, value) then Completed(g, t, c, value) else t == g
  {
    assert Locate((if c.Machine? then 0x20_0004 else 0x20_1004) + b) == ClaimAt(c, b);
    hide Locate;
    if b == 0 && 1 <= value <= 31 && Serves(g, c, value) {
      assert !g.pending[value];
      assert g.pending[value := false] == g.pending;
    }
  }

  // ---------- Loads ----------

  /** Bit `k` of the byte is source `8b + k` of `bits`. */
  predicate Shows(value: nat, bits: Bits, b: nat)
    requires b < 4
  {
    value < 256 && forall k :: 0 <= k < 8 ==> (value / Pow2(k) % 2 == 1 <==> bits[8 * b + k])
  }

  lemma {:induction false} ByteShowsBits(bits: seq<bool>, k: nat)
    requires k < |bits| <= 8
    ensures BitOf(ByteOf(bits), k) == bits[k]
  {
    if k > 0 {
      ByteShowsBits(bits[1..], k - 1);
    }
  }

  lemma ByteShows(bits: Bits, b: nat)
    requires b < 4
    ensures Shows(ByteOf(bits[8 * b..8 * b + 8]), bits, b)
  {
    var eight := bits[8 * b..8 * b + 8];
    assert Pow2(8) == 256;
    forall k | 0 <= k < 8 ensures ByteOf(eight) / Pow2(k) % 2 == 1 <==> bits[8 * b + k] {
      ByteShowsBits(eight, k);
      BitOfIsOne(ByteOf(eight), k);
    }
  }

  /**
   * Each byte of the window shows its register: pending at 0x1000, the enables, the thresholds, the
   * priorities; anything else shows 0.
   */
  lemma LoadsShowRegisters(g: Gateway, b: nat, s: nat)
    requires Sound(g) && b < 4 && 1 <= s < 32
    ensures Shows(LoadedByte(g, 0x1000 + b), g.pending, b)
    ensures Shows(LoadedByte(g, 0x2000 + b), g.enable.machine, b)
    ensures Shows(LoadedByte(g, 0x2080 + b), g.enable.supervisor, b)
    ensures LoadedByte(g, 0x20_0000 + b) == g.threshold.machine[b]
    ensures LoadedByte(g, 0x20_1000 + b) == g.threshold.supervisor[b]
    ensures LoadedByte(g, 4 * s + b) == g.priority[s][b] && LoadedByte(g, b) == 0
  {
    assert Locate(0x1000 + b) == PendingAt(b) && Locate(4 * s + b) == PriorityAt(s, b) && Locate(b) == PriorityAt(0, b);
    assert Locate(0x2000 + b) == EnableAt(Machine, b) && Locate(0x2080 + b) == EnableAt(Supervisor, b);
    assert Locate(0x20_0000 + b) == ThresholdAt(Machine, b) && Locate(0x20_1000 + b) == ThresholdAt(Supervisor, b);
    ByteShows(g.pending, b);
    ByteShows(g.enable.machine, b);
    ByteShows(g.enable.supervisor, b);
    hide Locate, Shows, ByteOf, Sound;
  }

  /** The host slab: priorities, pending, the two enables and the two thresholds, four bytes each. */
  lemma HostLayout(s: nat, b: nat)
    requires s < 32 && b < 4
    ensures HostOffset(PriorityAt(s, b)) == 4 * s + b && HostOffset(PendingAt(b)) == 128 + b
    ensures HostOffset(EnableAt(Machine, b)) == 132 + b && HostOffset(EnableAt(Supervisor, b)) == 136 + b
    ensures HostOffset(ThresholdAt(Machine, b)) == 140 + b && HostOffset(ThresholdAt(Supervisor, b)) == 144 + b
  {
  }

  // ---------- Claims ----------

  /** The source asks for service, is let through to the context, and nobody serves it. */
  predicate Asks(g: Gateway, c: Context, s: nat)
    requires |g.priority| == 32 && s < 32
  {
    && s != 0 && g.inputLevel[s] && !g.claimedBy.machine[s] && !g.claimedBy.supervisor[s]
    && (if c.Machine? then g.enable.machine[s] else g.enable.supervisor[s])
    && LittleEndian(g.priority[s]) > LittleEndian(if c.Machine? then g.threshold.machine else g.threshold.supervisor)
  }

  lemma AskingIsClaimable(g: Gateway, c: Context, s: nat)
    requires Sound(g) && s < 32
    ensures Claimable(g, c, s) <==> Asks(g, c, s)
  {
  }

  /**
   * A claim serves the asking source of highest priority, the lowest-numbered among equals, and 0 exactly
   * if none asks.
   */
  lemma ClaimServesTheFirst(g: Gateway, c: Context)
    requires Sound(g)
    ensures var source := Selected(g, c);
            && (source == 0 <==> forall s :: 1 <= s < 32 ==> !Asks(g, c, s))
            && (source != 0 ==> Asks(g, c, source))
            && forall s :: 1 <= s < 32 && s != source && Asks(g, c, s) ==>
                 || LittleEndian(g.priority[source]) > LittleEndian(g.priority[s])
                 || (LittleEndian(g.priority[source]) == LittleEndian(g.priority[s]) && source < s)
  {
    BestIsFirst(g, c, MAX_SOURCE);
    forall s | 0 <= s < 32 ensures Claimable(g, c, s) <==> Asks(g, c, s) {
      AskingIsClaimable(g, c, s);
    }
    hide Claimable, Asks, Sound, Best;
  }

  /** Claiming takes that source off the waiting list and records the context; a claim of nothing changes nothing. */
  lemma ClaimRecordsTheContext(g: Gateway, c: Context)
    requires Sound(g)
    ensures var t, source := Claim(g, c), Selected(g, c);
            if source == 0 then t == g
            else
              && t == g.(pending := t.pending, claimedBy := t.claimedBy) && t.pending == g.pending[source := false]
              && t.claimedBy.machine
                   == (if c.Machine? then g.claimedBy.machine[source := true] else g.claimedBy.machine)
              && t.claimedBy.supervisor == if c.Machine? then g.claimedBy.supervisor
                   else g.claimedBy.supervisor[source := true]
  {
    hide Best;
  }

  /** A load of the low byte of a claim register claims; no other load changes anything. */
  lemma LoadsThatClaim(g: Gateway, offset: int)
    requires Sound(g)
    ensures offset == 0x20_0004 ==>
            LoadedByte(g, offset) == Selected(g, Machine) && AfterLoad(g, offset) == Claim(g, Machine)
    ensures offset == 0x20_1004 ==>
            LoadedByte(g, offset) == Selected(g, Supervisor) && AfterLoad(g, offset) == Claim(g, Supervisor)
    ensures offset != 0x20_0004 && offset != 0x20_1004 ==> AfterLoad(g, offset) == g
  {
    hide Claim, Selected;
  }

  /** A device's level: it is recorded, and the source waits exactly if it is high and not being served. */
  lemma LevelIsRecorded(g: Gateway, source: int, high: bool)
    requires Sound(g)
    ensures var t := SetLevel(g, source, high);
            if 1 <= source <= 31 then
              && t == g.(pending := t.pending, inputLevel := t.inputLevel)
                   && t.inputLevel == g.inputLevel[source := high]
              && t.pending == g.pending[source := high && !g.claimedBy.machine[source]
                   && !g.claimedBy.supervisor[source]]
            else t == g
  {
    if 1 <= source <= 31 && high && Claimed(g, source) {
      assert g.pending[source := false] == g.pending;
    }
  }

  // ---------- The wires ----------

  /**
   * The machine wire is bit 11 of the level word and the supervisor wire bit 9, and each says whether some
   * source asks.
   */
  lemma WiresSayWhoAsks(plic: Controller)
    requires plic.Valid()
    ensures |plic.priority| == 32
    ensures plic.wire.machine == (11 in plic.irqLevel) == exists s :: 1 <= s < 32 && Asks(plic.View(), Machine, s)
    ensures plic.wire.supervisor == (9 in plic.irqLevel) == exists s :: 1 <= s < 32 && Asks(plic.View(), Supervisor, s)
  {
    assert plic.WireIsFresh(Machine) && plic.WireIsFresh(Supervisor);
    ClaimServesTheFirst(plic.View(), Machine);
    ClaimServesTheFirst(plic.View(), Supervisor);
    hide Asks, Sound, Selected;
  }
}
