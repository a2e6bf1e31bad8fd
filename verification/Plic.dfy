/**
 * The platform interrupt controller (`src/emulator/plic/gateway.ts` and its neighbours): 31 level-triggered sources, a
 * machine and a supervisor context, claim and complete, and two output wires published into the
 * irq-level word (`src/emulator/irq-level.ts`, module `IrqLevel`).
 *
 * `Gateway` is the guest-visible and host-only state as a value. `Controller` is the source's
 * mutable form; it also holds the wires, which are derived state that no operation may leave stale.
 * Bit fields are sequences of 32 booleans indexed by source.
 */
module Plic {
  import opened Bytes
  import IrqLevel

  datatype Context = Machine | Supervisor

  datatype PerContext<T> = PerContext(machine: T, supervisor: T)
  {
    function Get(c: Context): T { if c.Machine? then machine else supervisor }
    function Set(c: Context, value: T): PerContext<T> {
      if c.Machine? then this.(machine := value) else this.(supervisor := value)
    }
  }

  type Word = w: seq<Byte> | |w| == 4 witness [0, 0, 0, 0]
  type Bits = b: seq<bool> | |b| == 32 witness seq(32, _ => false)

  const MAX_SOURCE: nat := 31
  const NONE: Bits := seq(32, _ => false)

  predicate IsValidSource(source: int) { 1 <= source <= MAX_SOURCE }

  datatype Gateway = Gateway(
    priority: seq<Word>, pending: Bits, enable: PerContext<Bits>,
    threshold: PerContext<Word>, claimedBy: PerContext<Bits>, inputLevel: Bits)

  /**
   * Pending is exactly "requested and not in service", and one context at most serves a source. Source 0
   * does not exist.
   */
  ghost predicate Sound(g: Gateway) {
    && |g.priority| == 32 && g.priority[0] == [0, 0, 0, 0]
    && !g.pending[0] && !g.enable.machine[0] && !g.enable.supervisor[0]
    && (forall s :: 0 <= s < 32 ==> g.pending[s] == (g.inputLevel[s] && !Claimed(g, s)))
    && (forall s :: 0 <= s < 32 ==> !(g.claimedBy.machine[s] && g.claimedBy.supervisor[s]))
  }

  predicate Claimed(g: Gateway, source: nat)
    requires source < 32
  {
    g.claimedBy.machine[source] || g.claimedBy.supervisor[source]
  }

  function Priority(g: Gateway, source: nat): nat
    requires |g.priority| == 32 && source < 32
  {
    LittleEndian(g.priority[source])
  }

  predicate Claimable(g: Gateway, c: Context, source: nat)
    requires |g.priority| == 32
  {
    IsValidSource(source) && g.pending[source] && g.enable.Get(c)[source]
        && Priority(g, source) > LittleEndian(g.threshold.Get(c))
  }

  /** `a` is served before `b`. */
  predicate Before(g: Gateway, a: nat, b: nat)
    requires |g.priority| == 32 && a < 32 && b < 32
  {
    Priority(g, a) > Priority(g, b) || (Priority(g, a) == Priority(g, b) && a < b)
  }

  /** The source to serve among 1..`n`, or 0. */
  function Best(g: Gateway, c: Context, n: nat): (best: nat)
    requires |g.priority| == 32 && n <= MAX_SOURCE
    ensures best <= n
  {
    if n == 0 then 0
    else
      var b := Best(g, c, n - 1);
      if Claimable(g, c, n) && (b == 0 || Priority(g, n) > Priority(g, b)) then n else b
  }

  lemma {:induction false} BestIsFirst(g: Gateway, c: Context, n: nat)
    requires |g.priority| == 32 && n <= MAX_SOURCE
    ensures var best := Best(g, c, n);
            && (best != 0 ==> Claimable(g, c, best))
            && (forall s :: 1 <= s <= n && Claimable(g, c, s) ==> best != 0 && (s == best || Before(g, best, s)))
  {
    if n > 0 {
      BestIsFirst(g, c, n - 1);
    }
  }

  function Selected(g: Gateway, c: Context): (source: nat)
    requires |g.priority| == 32
    ensures source <= MAX_SOURCE
  {
    Best(g, c, MAX_SOURCE)
  }

  /** Selection reads nothing but the pending bits, the priorities and the context's own registers. */
  lemma {:induction false} SelectionFrame(g: Gateway, h: Gateway, c: Context, n: nat)
    requires |g.priority| == |h.priority| == 32 && n <= MAX_SOURCE
    requires forall s :: 0 <= s < 32 ==> Claimable(g, c, s) == Claimable(h, c, s)
    requires forall s :: 0 <= s < 32 ==> Priority(g, s) == Priority(h, s)
    ensures Best(g, c, n) == Best(h, c, n)
  {
    if n > 0 {
      SelectionFrame(g, h, c, n - 1);
    }
  }

  // ---------- Transitions ----------

  function SetLevel(g: Gateway, source: int, high: bool): Gateway {
    if !IsValidSource(source) then g
    else
      var h := g.(inputLevel := g.inputLevel[source := high]);
      if !high then h.(pending := h.pending[source := false])
      else if !Claimed(h, source) then h.(pending := h.pending[source := true])
      else h
  }

  function Claim(g: Gateway, c: Context): Gateway
    requires |g.priority| == 32
  {
    var source := Selected(g, c);
    if source == 0 then g
    else g.(pending := g.pending[source := false], claimedBy := g.claimedBy.Set(c, g.claimedBy.Get(c)[source := true]))
  }

  function Complete(g: Gateway, c: Context, source: int): Gateway {
    if !IsValidSource(source) || !g.claimedBy.Get(c)[source] then g
    else
      var h := g.(claimedBy := g.claimedBy.Set(c, g.claimedBy.Get(c)[source := false]));
      if h.inputLevel[source] then h.(pending := h.pending[source := true]) else h
  }

  // ---------- The guest window ----------

  datatype Location =
    | PriorityAt(source: nat, byteOffset: nat)
    | PendingAt(byteOffset: nat)
    | EnableAt(context: Context, byteOffset: nat)
    | ThresholdAt(context: Context, byteOffset: nat)
    | ClaimAt(context: Context, byteOffset: nat)
    | Hole

  const GUEST_BYTE_LENGTH: int := 0x201008

  function Locate(offset: int): (location: Location)
    ensures location.Hole? || location.byteOffset < 4
    ensures location.PriorityAt? ==> location.source < 32
  {
    if offset < 0 || offset >= GUEST_BYTE_LENGTH then Hole
    else if offset < 128 then PriorityAt(offset / 4, offset % 4)
    else
      var register, byteOffset := offset - offset % 4, offset % 4;
      if register == 0x1000 then PendingAt(byteOffset)
      else if register == 0x2000 then EnableAt(Machine, byteOffset)
      else if register == 0x2080 then EnableAt(Supervisor, byteOffset)
      else if register == 0x200000 then ThresholdAt(Machine, byteOffset)
      else if register == 0x200004 then ClaimAt(Machine, byteOffset)
      else if register == 0x201000 then ThresholdAt(Supervisor, byteOffset)
      else if register == 0x201004 then ClaimAt(Supervisor, byteOffset)
      else Hole
  }

  /** Two guest bytes never share a register byte. */
  lemma LocateIsInjective(a: int, b: int)
    requires Locate(a) == Locate(b) && !Locate(a).Hole?
    ensures a == b
  {
  }

  /** Bytes of the host slab, by register; the claim register has none. */
  function HostOffset(location: Location): nat
    requires !location.Hole? && !location.ClaimAt?
  {
    match location
    case PriorityAt(source, b) => source * 4 + b
    case PendingAt(b) => 128 + b
    case EnableAt(c, b) => (if c.Machine? then 132 else 136) + b
    case ThresholdAt(c, b) => (if c.Machine? then 140 else 144) + b
  }

  /**
   * Register bytes stay apart in the host slab and below the host-only fields at 148 (claimed-by, levels,
   * wires, lock).
   */
  lemma HostBytesAreApart(a: int, b: int)
    requires var p := Locate(a); !p.Hole? && !p.ClaimAt?
    requires var q := Locate(b); !q.Hole? && !q.ClaimAt?
    ensures HostOffset(Locate(a)) < 148 && (HostOffset(Locate(a)) == HostOffset(Locate(b)) ==> a == b)
  {
  }

  predicate BitOf(value: nat, k: nat) { if k == 0 then value % 2 == 1 else BitOf(value / 2, k - 1) }

  /** The byte whose bit `k` is `bits[k]`, over `n` bits. */
  function ByteOf(bits: seq<bool>): (value: nat)
    requires |bits| <= 8
    ensures value < Pow2(|bits|)
  {
    if bits == [] then 0 else (if bits[0] then 1 else 0) + 2 * ByteOf(bits[1..])
  }

  /** An enable byte replaces eight enable bits; source 0 has none. */
  function Enabled(bits: Bits, byteOffset: nat, value: Byte): Bits
    requires byteOffset < 4
  {
    seq(32, s requires 0 <= s < 32 => if s / 8 == byteOffset then s != 0 && BitOf(value, s % 8) else bits[s])
  }

  function StoreByte(g: Gateway, offset: int, value: Byte): Gateway
    requires |g.priority| == 32
  {
    match Locate(offset)
    case PriorityAt(s, b) => if s == 0 then g else g.(priority := g.priority[s := g.priority[s][b := value]])
    case EnableAt(c, b) => g.(enable := g.enable.Set(c, Enabled(g.enable.Get(c), b, value)))
    case ThresholdAt(c, b) => g.(threshold := g.threshold.Set(c, g.threshold.Get(c)[b := value]))
    case ClaimAt(c, b) => if b != 0 then g else Complete(g, c, value)
    case _ => g
  }

  function AfterLoad(g: Gateway, offset: int): Gateway
    requires |g.priority| == 32
  {
    var at := Locate(offset);
    if at.ClaimAt? && at.byteOffset == 0 then Claim(g, at.context) else g
  }

  function LoadedByte(g: Gateway, offset: int): nat
    requires |g.priority| == 32
  {
    match Locate(offset)
    case PriorityAt(s, b) => if s == 0 then 0 else g.priority[s][b]
    case PendingAt(b) => ByteOf(g.pending[8 * b..8 * b + 8])
    case EnableAt(c, b) => ByteOf(g.enable.Get(c)[8 * b..8 * b + 8])
    case ThresholdAt(c, b) => g.threshold.Get(c)[b]
    case ClaimAt(c, b) => if b == 0 then Selected(g, c) else 0
    case Hole => 0
  }

  // ---------- Every transition keeps the gateway sound ----------

  lemma SetLevelKeepsSound(g: Gateway, source: int, high: bool)
    requires Sound(g)
    ensures Sound(SetLevel(g, source, high))
  {
  }

  /** Repeating the current level changes nothing. */
  lemma SameLevelIsNoChange(g: Gateway, source: nat)
    requires Sound(g) && IsValidSource(source)
    ensures SetLevel(g, source, g.inputLevel[source]) == g
  {
    assert g.inputLevel[source := g.inputLevel[source]] == g.inputLevel;
    assert g.pending[source := g.pending[source]] == g.pending;
  }

  lemma ClaimKeepsSound(g: Gateway, c: Context)
    requires Sound(g)
    ensures Sound(Claim(g, c))
  {
    BestIsFirst(g, c, MAX_SOURCE);
  }

  lemma CompleteKeepsSound(g: Gateway, c: Context, source: int)
    requires Sound(g)
    ensures Sound(Complete(g, c, source))
  {
  }

  lemma StoreKeepsSound(g: Gateway, offset: int, value: Byte)
    requires Sound(g)
    ensures Sound(StoreByte(g, offset, value))
  {
    var at := Locate(offset);
    if at.ClaimAt? {
      CompleteKeepsSound(g, at.context, value);
    }
  }

  lemma {:induction false} ByteOfBits(value: nat, n: nat)
    requires n <= 8
    ensures ByteOf(seq(n, i requires 0 <= i < n => BitOf(value, i))) == value % Pow2(n)
  {
    if n > 0 {
      var bits := seq(n, i requires 0 <= i < n => BitOf(value, i));
      ByteOfBits(value / 2, n - 1);
      assert bits[1..] == seq(n - 1, i requires 0 <= i < n - 1 => BitOf(value / 2, i));
      RemainderByBits(value, Pow2(n - 1));
    }
  }

  lemma EnableByteReadsBack(bits: Bits, b: nat, value: Byte)
    requires b < 4
    ensures ByteOf(Enabled(bits, b, value)[8 * b..8 * b + 8]) == if b == 0 then value - value % 2 else value
  {
    var written := Enabled(bits, b, value)[8 * b..8 * b + 8];
    var kept := if b == 0 then value - value % 2 else value;
    forall i | 0 <= i < 8 ensures written[i] == BitOf(kept, i) {
      assert (8 * b + i) / 8 == b && (8 * b + i) % 8 == i && kept / 2 == value / 2;
    }
    assert written == seq(8, i requires 0 <= i < 8 => BitOf(kept, i));
    ByteOfBits(kept, 8);
    assert Pow2(8) == 256;
  }

  /**
   * A register byte reads back as written, except that source 0 has no priority and no enable bit and
   * pending ignores stores.
   */
  lemma StoredByteReadsBack(g: Gateway, offset: int, value: Byte)
    requires Sound(g) && !Locate(offset).Hole? && !Locate(offset).ClaimAt?
    ensures var at, r := Locate(offset), LoadedByte(StoreByte(g, offset, value), offset);
            && (at.ThresholdAt? ==> r == value)
            && (at.PriorityAt? ==> r == if at.source == 0 then 0 else value)
            && (at.EnableAt? ==> r == if at.byteOffset == 0 then value - value % 2 else value)
            && (at.PendingAt? ==> r == LoadedByte(g, offset))
  {
    var at := Locate(offset);
    if at.EnableAt? {
      EnableByteReadsBack(g.enable.Get(at.context), at.byteOffset, value);
    }
  }

  lemma EnableBytesAreApart(bits: Bits, a: nat, b: nat, value: Byte)
    requires a < 4 && b < 4 && a != b
    ensures Enabled(bits, a, value)[8 * b..8 * b + 8] == bits[8 * b..8 * b + 8]
  {
    var after := Enabled(bits, a, value);
    forall s | 8 * b <= s < 8 * b + 8 ensures after[s] == bits[s] {
      assert s / 8 == b;
    }
  }

  /** A store to one register byte leaves every other register byte as it was. */
  lemma StoresAreIndependent(g: Gateway, a: int, b: int, value: Byte)
    requires Sound(g) && a != b && !Locate(a).Hole? && !Locate(a).ClaimAt? && !Locate(b).ClaimAt?
    ensures LoadedByte(StoreByte(g, a, value), b) == LoadedByte(g, b)
  {
    if Locate(a) == Locate(b) {
      LocateIsInjective(a, b);
    } else {
      hide Locate, ByteOf, BitOf, Enabled;
      match (Locate(a), Locate(b))
      case (EnableAt(c, i), EnableAt(d, j)) => if c == d { EnableBytesAreApart(g.enable.Get(c), i, j, value); }
      case _ =>
    }
  }

  // ---------- Runs ----------

  /** Device-driven levels, guest byte loads and guest byte stores, in any order. */
  datatype Event = Level(source: int, high: bool) | Load(offset: int) | Store(offset: int, value: Byte)

  function Step(g: Gateway, e: Event): Gateway
    requires |g.priority| == 32
  {
    match e
    case Level(source, high) => SetLevel(g, source, high)
    case Load(offset) => AfterLoad(g, offset)
    case Store(offset, value) => StoreByte(g, offset, value)
  }

  ghost predicate Run(states: seq<Gateway>, events: seq<Event>) {
    && |states| == |events| + 1 && Sound(states[0])
    && forall k :: 0 <= k < |events| ==> |states[k].priority| == 32 && states[k + 1] == Step(states[k], events[k])
  }

  lemma StepKeepsSound(g: Gateway, e: Event)
    requires Sound(g)
    ensures Sound(Step(g, e))
  {
    match e
    case Level(source, high) => SetLevelKeepsSound(g, source, high);
    case Load(offset) => if Locate(offset).ClaimAt? { ClaimKeepsSound(g, Locate(offset).context); }
    case Store(offset, value) => StoreKeepsSound(g, offset, value);
  }

  lemma {:induction false} EveryRunIsSound(states: seq<Gateway>, events: seq<Event>, n: nat)
    requires Run(states, events) && n < |states|
    ensures Sound(states[n])
  {
    if n > 0 {
      EveryRunIsSound(states, events, n - 1);
      StepKeepsSound(states[n - 1], events[n - 1]);
    }
  }

  /** The event hands `source` to context `c`. */
  predicate Delivers(g: Gateway, e: Event, c: Context, source: nat)
    requires |g.priority| == 32
  {
    e.Load? && Locate(e.offset) == ClaimAt(c, 0) && Selected(g, c) == source && source != 0
  }

  predicate Completes(e: Event, c: Context, source: nat) {
    e.Store? && Locate(e.offset) == ClaimAt(c, 0) && e.value == source
  }

  lemma ClaimIsHeld(g: Gateway, e: Event, c: Context, source: nat)
    requires Sound(g) && IsValidSource(source) && g.claimedBy.Get(c)[source]
    ensures Step(g, e).claimedBy.Get(c)[source] || Completes(e, c, source)
    ensures !Delivers(g, e, Machine, source) && !Delivers(g, e, Supervisor, source)
  {
    hide Locate, LittleEndian, Best, Enabled, BitOf;
    BestIsFirst(g, Machine, MAX_SOURCE);
    BestIsFirst(g, Supervisor, MAX_SOURCE);
  }

  lemma DeliveredIsClaimed(g: Gateway, e: Event, c: Context, source: nat)
    requires |g.priority| == 32 && Delivers(g, e, c, source)
    ensures Step(g, e).claimedBy.Get(c)[source]
  {
  }

  lemma {:induction false} ClaimIsHeldUntil(
      states: seq<Gateway>, events: seq<Event>, i: nat, j: nat, c: Context, source: nat)
    requires Run(states, events) && i < j < |states| && IsValidSource(source)
    requires Delivers(states[i], events[i], c, source)
    requires forall k :: i < k < j ==> !Completes(events[k], c, source)
    ensures states[j].claimedBy.Get(c)[source]
    decreases j
  {
    hide Step, Delivers, Completes, Sound;
    EveryRunIsSound(states, events, j - 1);
    if j - 1 > i {
      ClaimIsHeldUntil(states, events, i, j - 1, c, source);
      ClaimIsHeld(states[j - 1], events[j - 1], c, source);
    } else {
      DeliveredIsClaimed(states[i], events[i], c, source);
    }
  }

  /** A delivered source is not delivered again, to either context, before the context that got it completes it. */
  lemma NoRedeliveryBeforeCompletion(
    states: seq<Gateway>, events: seq<Event>, i: nat, j: nat, c: Context, d: Context, source: nat)
    requires Run(states, events) && i < j < |events|
    requires Delivers(states[i], events[i], c, source) && Delivers(states[j], events[j], d, source)
    ensures exists k :: i < k < j && Completes(events[k], c, source)
  {
    if forall k :: i < k < j ==> !Completes(events[k], c, source) {
      ClaimIsHeldUntil(states, events, i, j, c, source);
      EveryRunIsSound(states, events, j);
      ClaimIsHeld(states[j], events[j], c, source);
      assert false;
    }
  }

  // ---------- Draining ----------

  function Waiting(g: Gateway, c: Context): set<nat>
    requires |g.priority| == 32
  {
    set s | 1 <= s <= MAX_SOURCE && Claimable(g, c, s)
  }

  lemma ClaimTakesOne(g: Gateway, c: Context)
    requires |g.priority| == 32
    ensures Selected(g, c) != 0 ==> Selected(g, c) in Waiting(g, c)
    ensures Waiting(Claim(g, c), c) == Waiting(g, c) - {Selected(g, c)} && Claim(g, c).priority == g.priority
  {
    BestIsFirst(g, c, MAX_SOURCE);
  }

  /** The sources that consecutive claims by `c` return before the first 0. */
  function Drained(g: Gateway, c: Context): seq<nat>
    requires |g.priority| == 32
    decreases |Waiting(g, c)|
  {
    var source := Selected(g, c);
    if source == 0 then []
    else
      ClaimTakesOne(g, c);
      [source] + Drained(Claim(g, c), c)
  }

  /** Strictly in service order, so without repetition. */
  ghost predicate InServiceOrder(g: Gateway, sources: seq<nat>)
    requires |g.priority| == 32
  {
    && (forall i :: 0 <= i < |sources| ==> sources[i] < 32)
    && forall i, j :: 0 <= i < j < |sources| ==> Before(g, sources[i], sources[j])
  }

  lemma ServedFirst(g: Gateway, source: nat, rest: seq<nat>)
    requires |g.priority| == 32 && source < 32 && InServiceOrder(g, rest)
    requires forall s :: s in rest ==> Before(g, source, s)
    ensures InServiceOrder(g, [source] + rest)
  {
  }

  /** Claims return every waiting source, each once, by descending priority and then ascending id. */
  lemma {:induction false} DrainIsSorted(g: Gateway, c: Context)
    requires |g.priority| == 32
    ensures forall s :: s in Drained(g, c) <==> s in Waiting(g, c)
    ensures InServiceOrder(g, Drained(g, c))
    decreases |Waiting(g, c)|
  {
    var source, after := Selected(g, c), Claim(g, c);
    BestIsFirst(g, c, MAX_SOURCE);
    if source != 0 {
      ClaimTakesOne(g, c);
      DrainIsSorted(after, c);
      var rest := Drained(after, c);
      SameOrder(g, after, rest);
      forall s | s in rest ensures Before(g, source, s) {
        assert s in Waiting(g, c) - {source};
      }
      ServedFirst(g, source, rest);
    }
  }

  /** A raised source that no one serves is reached by draining any context that lets it through. */
  lemma RequestIsServed(g: Gateway, c: Context, source: nat)
    requires Sound(g) && IsValidSource(source) && g.inputLevel[source] && !Claimed(g, source)
    requires g.enable.Get(c)[source] && Priority(g, source) > LittleEndian(g.threshold.Get(c))
    ensures source in Drained(g, c)
  {
    DrainIsSorted(g, c);
  }

  lemma SameOrder(g: Gateway, h: Gateway, sources: seq<nat>)
    requires |g.priority| == 32 && g.priority == h.priority && InServiceOrder(h, sources)
    ensures InServiceOrder(g, sources)
  {
    forall i, j | 0 <= i < j < |sources| ensures Before(g, sources[i], sources[j]) {
      assert Before(h, sources[i], sources[j]);
    }
  }

  // ---------- The controller ----------

  /** Number of the context's bit in the irq-level word, which is modelled as the set of its one bits. */
  function LevelBit(c: Context): nat { if c.Machine? then IrqLevel.MEIP else IrqLevel.SEIP }

  /** The bits of the irq-level word that other devices drive. */
  function OtherLevels(level: set<nat>): set<nat> { level - {IrqLevel.MEIP, IrqLevel.SEIP} }

  class Controller {
    var priority: seq<Word>
    var pending: Bits
    var enable: PerContext<Bits>
    var threshold: PerContext<Word>
    var claimedBy: PerContext<Bits>
    var inputLevel: Bits
    var wire: PerContext<bool>
    var irqLevel: set<nat>

    ghost function View(): Gateway
      reads this
    {
      Gateway(priority, pending, enable, threshold, claimedBy, inputLevel)
    }

    /** The wire and the published level bit of `c` say whether a claim by `c` would return a source. */
    ghost predicate WireIsFresh(c: Context)
      reads this
    {
      |priority| == 32 && wire.Get(c) == (Selected(View(), c) != 0) && (LevelBit(c) in irqLevel) == wire.Get(c)
    }

    ghost predicate Valid()
      reads this
    {
      Sound(View()) && WireIsFresh(Machine) && WireIsFresh(Supervisor)
    }

    /** `initializePlic`; the level word is shared and arrives with other devices' bits. */
    constructor (level: set<nat>)
      ensures Valid() && OtherLevels(irqLevel) == OtherLevels(level)
      ensures View() == Gateway(seq(32, _ => [0, 0, 0, 0]), NONE, PerContext(NONE, NONE),
                                PerContext([0, 0, 0, 0], [0, 0, 0, 0]), PerContext(NONE, NONE), NONE)
    {
      priority, pending, inputLevel := seq(32, _ => [0, 0, 0, 0]), NONE, NONE;
      enable, claimedBy := PerContext(NONE, NONE), PerContext(NONE, NONE);
      threshold, wire, irqLevel := PerContext([0, 0, 0, 0], [0, 0, 0, 0]), PerContext(false, false), level;
      new;
      SetContextWire(Machine, false);
      SetContextWire(Supervisor, false);
      BestIsFirst(View(), Machine, MAX_SOURCE);
      BestIsFirst(View(), Supervisor, MAX_SOURCE);
    }

    /** `setPlicContextWire`, as the one step that `IrqLevel` shows it to be. */
    method SetContextWire(c: Context, pending: bool)
      modifies this`wire, this`irqLevel
      ensures wire == old(wire).Set(c, pending)
      ensures irqLevel == IrqLevel.Driven(old(irqLevel), IrqLevel.Drive(LevelBit(c), pending))
    {
      wire := wire.Set(c, pending);
      irqLevel := IrqLevel.Driven(irqLevel, IrqLevel.Drive(LevelBit(c), pending));
    }

    method SelectClaimableSource(c: Context) returns (bestSource: nat)
      requires |priority| == 32
      ensures bestSource == Selected(View(), c)
    {
      var bar := LittleEndian(threshold.Get(c));
      var bestPriority := 0;
      bestSource := 0;
      for source := 1 to MAX_SOURCE + 1
        invariant bestSource == Best(View(), c, source - 1)
        invariant bestSource != 0 ==> bestPriority == Priority(View(), bestSource)
      {
        if !pending[source] || !enable.Get(c)[source] {
          continue;
        }
        var p := LittleEndian(priority[source]);
        if p <= bar {
          continue;
        }
        if bestSource == 0 || p > bestPriority || (p == bestPriority && source < bestSource) {
          bestPriority, bestSource := p, source;
        }
      }
    }

    method RefreshContextWire(c: Context)
      requires |priority| == 32
      modifies this`wire, this`irqLevel
      ensures WireIsFresh(c) && OtherLevels(irqLevel) == OtherLevels(old(irqLevel))
      ensures forall d: Context :: d != c && old(WireIsFresh(d)) ==> WireIsFresh(d)
    {
      var source := SelectClaimableSource(c);
      SetContextWire(c, source != 0);
    }

    method RefreshAllContextWires()
      requires |priority| == 32
      modifies this`wire, this`irqLevel
      ensures WireIsFresh(Machine) && WireIsFresh(Supervisor) && OtherLevels(irqLevel) == OtherLevels(old(irqLevel))
    {
      RefreshContextWire(Machine);
      RefreshContextWire(Supervisor);
    }

    method SetSourcePending(source: int, high: bool)
      requires Valid()
      modifies this
      ensures Valid() && View() == SetLevel(old(View()), source, high)
      ensures OtherLevels(irqLevel) == OtherLevels(old(irqLevel))
    {
      if !IsValidSource(source) {
        return;
      }
      SetLevelKeepsSound(View(), source, high);
      inputLevel := inputLevel[source := high];
      if !high {
        pending := pending[source := false];
      } else if !(claimedBy.machine[source] || claimedBy.supervisor[source]) {
        pending := pending[source := true];
      }
      RefreshAllContextWires();
    }

    method ClaimSource(c: Context) returns (source: nat)
      requires Valid()
      modifies this
      ensures Valid() && View() == Claim(old(View()), c) && source == Selected(old(View()), c)
      ensures OtherLevels(irqLevel) == OtherLevels(old(irqLevel))
    {
      ClaimKeepsSound(View(), c);
      source := SelectClaimableSource(c);
      if source != 0 {
        pending := pending[source := false];
        claimedBy := claimedBy.Set(c, claimedBy.Get(c)[source := true]);
      }
      RefreshAllContextWires();
    }

    method CompleteSource(c: Context, source: int)
      requires Valid()
      modifies this
      ensures Valid() && View() == Complete(old(View()), c, source)
      ensures OtherLevels(irqLevel) == OtherLevels(old(irqLevel))
    {
      if !IsValidSource(source) || !claimedBy.Get(c)[source] {
        return;
      }
      CompleteKeepsSound(View(), c, source);
      claimedBy := claimedBy.Set(c, claimedBy.Get(c)[source := false]);
      if inputLevel[source] {
        pending := pending[source := true];
      }
      RefreshAllContextWires();
    }

    method LoadPlicByte(offset: int) returns (value: nat)
      requires Valid()
      modifies this
      ensures Valid() && View() == AfterLoad(old(View()), offset) && value == LoadedByte(old(View()), offset)
      ensures OtherLevels(irqLevel) == OtherLevels(old(irqLevel))
    {
      match Locate(offset)
      case Hole => value := 0;
      case ClaimAt(c, b) =>
        if b != 0 { return 0; }
        value := ClaimSource(c);
      case PriorityAt(s, b) => value := if s == 0 then 0 else priority[s][b];
      case PendingAt(b) => value := ByteOf(pending[8 * b..8 * b + 8]);
      case EnableAt(c, b) => value := ByteOf(enable.Get(c)[8 * b..8 * b + 8]);
      case ThresholdAt(c, b) => value := threshold.Get(c)[b];
    }

    /**
     * After a change to one context's own registers, refreshing its wire is enough: the other one cannot
     * have gone stale.
     */
    method RefreshAfterOwnChange(c: Context, ghost before: Gateway)
      requires |before.priority| == 32 && priority == before.priority && pending == before.pending
      requires forall d: Context :: d != c ==>
               View().enable.Get(d) == before.enable.Get(d) && View().threshold.Get(d) == before.threshold.Get(d)
      requires forall d: Context :: d != c ==>
                 wire.Get(d) == (Selected(before, d) != 0) && (LevelBit(d) in irqLevel) == wire.Get(d)
      modifies this`wire, this`irqLevel
      ensures WireIsFresh(Machine) && WireIsFresh(Supervisor) && OtherLevels(irqLevel) == OtherLevels(old(irqLevel))
    {
      SelectionFrame(before, View(), if c.Machine? then Supervisor else Machine, MAX_SOURCE);
      RefreshContextWire(c);
    }

    method StorePlicByte(offset: int, value: Byte)
      requires Valid()
      modifies this
      ensures Valid() && View() == StoreByte(old(View()), offset, value)
      ensures OtherLevels(irqLevel) == OtherLevels(old(irqLevel))
    {
      hide Enabled, LittleEndian, Best, BitOf, Locate;
      ghost var before := View();
      StoreKeepsSound(before, offset, value);
      match Locate(offset)
      case PriorityAt(s, b) =>
        if s == 0 { return; }
        priority := priority[s := priority[s][b := value]];
        RefreshAllContextWires();
      case EnableAt(c, b) =>
        enable := enable.Set(c, Enabled(enable.Get(c), b, value));
        RefreshAfterOwnChange(c, before);
      case ThresholdAt(c, b) =>
        threshold := threshold.Set(c, threshold.Get(c)[b := value]);
        RefreshAfterOwnChange(c, before);
      case ClaimAt(c, b) =>
        if b != 0 || !IsValidSource(value) { return; }
        CompleteSource(c, value);
      case _ =>
    }

    /** A guest load: one byte at a time, at addresses that wrap at 2^64. `base` is the window's guest address. */
    method LoadBytes(base: nat, address: nat, byteLength: nat) returns (destination: seq<nat>)
      requires Valid()
      modifies this
      ensures Valid() && OtherLevels(irqLevel) == OtherLevels(old(irqLevel))
      ensures View() == AfterLoads(old(View()), base, address, byteLength)
      ensures destination == LoadedBytes(old(View()), base, address, byteLength)
    {
      hide Sound, Locate, LoadedByte, AfterLoad;
      destination := [];
      var cursor: nat := address;
      for i := 0 to byteLength
        invariant Valid() && OtherLevels(irqLevel) == OtherLevels(old(irqLevel)) && |destination| == i
        invariant AfterLoads(View(), base, cursor, byteLength - i) == AfterLoads(old(View()), base, address, byteLength)
        invariant destination + LoadedBytes(View(), base, cursor, byteLength - i)
                  == LoadedBytes(old(View()), base, address, byteLength)
      {
        ghost var before, rest := View(), LoadedBytes(View(), base, cursor, byteLength - i);
        var value := LoadPlicByte(cursor - base);
        assert destination + rest == destination + [value] + rest[1..];
        destination := destination + [value];
        cursor := NextAddress(cursor);
      }
    }

    method StoreBytes(base: nat, address: nat, source: seq<Byte>)
      requires Valid()
      modifies this
      ensures Valid() && View() == Stored(old(View()), base, address, source)
      ensures OtherLevels(irqLevel) == OtherLevels(old(irqLevel))
    {
      var cursor: nat := address;
      for i := 0 to |source|
        invariant Valid() && OtherLevels(irqLevel) == OtherLevels(old(irqLevel))
        invariant Stored(View(), base, cursor, source[i..]) == Stored(old(View()), base, address, source)
      {
        StorePlicByte(cursor - base, source[i]);
        cursor := NextAddress(cursor);
      }
    }
  }

  function NextAddress(address: nat): nat { (address + 1) % TWO_TO_64 }

  lemma NextAddressInside(address: nat)
    requires address + 1 < TWO_TO_64
    ensures NextAddress(address) == address + 1
  {
  }

  function AfterLoads(g: Gateway, base: nat, address: nat, byteLength: nat): (after: Gateway)
    requires |g.priority| == 32
    ensures |after.priority| == 32
    decreases byteLength
  {
    if byteLength == 0 then g else AfterLoads(AfterLoad(g, address - base), base, NextAddress(address), byteLength - 1)
  }

  function LoadedBytes(g: Gateway, base: nat, address: nat, byteLength: nat): (bytes: seq<nat>)
    requires |g.priority| == 32
    ensures |bytes| == byteLength
    decreases byteLength
  {
    if byteLength == 0 then []
    else [LoadedByte(g, address - base)] + LoadedBytes(AfterLoad(g, address - base), base, NextAddress(address),
        byteLength - 1)
  }

  function Stored(g: Gateway, base: nat, address: nat, source: seq<Byte>): (after: Gateway)
    requires |g.priority| == 32
    ensures |after.priority| == 32
    decreases |source|
  {
    if source == [] then g else Stored(StoreByte(g, address - base, source[0]), base, NextAddress(address), source[1..])
  }

  function ClaimOffset(c: Context): int { if c.Machine? then 0x200004 else 0x201004 }

  lemma ClaimRegisterBytes(c: Context, k: nat)
    requires k < 4
    ensures Locate(ClaimOffset(c) + k) == ClaimAt(c, k)
  {
  }

  lemma UpperClaimByteDoesNothing(g: Gateway, c: Context, k: nat, value: Byte)
    requires |g.priority| == 32 && 1 <= k < 4
    ensures AfterLoad(g, ClaimOffset(c) + k) == g && LoadedByte(g, ClaimOffset(c) + k) == 0
    ensures StoreByte(g, ClaimOffset(c) + k, value) == g
  {
    ClaimRegisterBytes(c, k);
  }

  lemma {:induction false} UpperClaimBytesDoNothing(
      g: Gateway, base: nat, c: Context, k: nat, at: nat, source: seq<Byte>)
    requires |g.priority| == 32 && 1 <= k <= 4 && |source| == 4 - k
    requires k < 4 ==> at == base + ClaimOffset(c) + k && at < TWO_TO_64 + k - 3
    ensures AfterLoads(g, base, at, 4 - k) == g && LoadedBytes(g, base, at, 4 - k) == [0, 0, 0][..4 - k]
    ensures Stored(g, base, at, source) == g
    decreases 4 - k
  {
    if k < 4 {
      UpperClaimByteDoesNothing(g, c, k, source[0]);
      hide AfterLoad, LoadedByte, StoreByte, NextAddress;
      assert at - base == ClaimOffset(c) + k;
      if k < 3 {
        NextAddressInside(at);
      }
      UpperClaimBytesDoNothing(g, base, c, k + 1, NextAddress(at), source[1..]);
      assert [0] + [0, 0, 0][..4 - (k + 1)] == [0, 0, 0][..4 - k];
    }
  }

  /** An aligned `lw` of a claim register claims once and reads the claimed id as a 32-bit number. */
  lemma LoadWordClaimsOnce(g: Gateway, base: nat, c: Context)
    requires |g.priority| == 32 && base + GUEST_BYTE_LENGTH <= TWO_TO_64
    ensures AfterLoads(g, base, base + ClaimOffset(c), 4) == Claim(g, c)
    ensures LoadedBytes(g, base, base + ClaimOffset(c), 4) == [Selected(g, c), 0, 0, 0]
  {
    hide Locate, Complete, Selected, LittleEndian, NextAddress;
    ClaimRegisterBytes(c, 0);
    NextAddressInside(base + ClaimOffset(c));
    UpperClaimBytesDoNothing(Claim(g, c), base, c, 1, base + ClaimOffset(c) + 1, [0, 0, 0]);
    assert base + ClaimOffset(c) - base == ClaimOffset(c) + 0;
  }

  /** An aligned `sw` to a claim register completes the source named by its low byte, whatever the other bytes are. */
  lemma StoreWordCompletes(g: Gateway, base: nat, c: Context, word: Word)
    requires |g.priority| == 32 && base + GUEST_BYTE_LENGTH <= TWO_TO_64
    ensures Stored(g, base, base + ClaimOffset(c), word) == Complete(g, c, word[0])
  {
    hide Locate, LittleEndian, NextAddress;
    ClaimRegisterBytes(c, 0);
    NextAddressInside(base + ClaimOffset(c));
    UpperClaimBytesDoNothing(Complete(g, c, word[0]), base, c, 1, base + ClaimOffset(c) + 1, word[1..]);
    assert base + ClaimOffset(c) - base == ClaimOffset(c) + 0;
  }
}
