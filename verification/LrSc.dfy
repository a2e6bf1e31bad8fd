/**
 * Harts running LR, SC, AMOs and plain stores against one RAM, as interleaved steps
 * (`reservation.ts`, `ram.ts`, `memory.ts`, `cpu/instructions/amo.ts`).
 *
 * A step is one access to shared state: taking or giving back the monitor lock, one aligned atomic
 * access to RAM, one byte of a plain store, or one update of the slots (those happen only under the
 * lock, which `Locks` shows to be exclusive, so their loops are single steps here). The state
 * also records a history of what the harts did to memory; no step reads it.
 *
 * The result is `EveryRunIsSequential`: in every run, the history is a sequential execution in
 * which each LR and AMO returns the word memory held at that point, each AMO writes its exact
 * result, and each successful SC replaces the very word its hart's latest LR returned, with no
 * write to the 64-byte line and no other success of that hart in between.
 */
module LrSc {
  import opened Bytes
  import opened Amo
  import opened Ranges
  import opened Reservation

  datatype Instruction =
    | LoadReserved(address: nat, width: nat)
    | StoreConditional(address: nat, width: nat, value: Xlen)
    | PlainStore(address: nat, bytes: seq<Byte>)
    | AtomicOp(op: AmoOp, address: nat, width: nat, operand: Xlen)

  /** Where a hart is inside an instruction. `at` is the history index of the instruction's own event. */
  datatype Pc =
    | Idle
    | LrLocked(address: nat, width: nat)
    | LrLoaded(address: nat, width: nat, value: seq<Byte>)
    | LrArmed(value: seq<Byte>, at: nat)
    | ScLocked(address: nat, width: nat, source: Xlen)
    | ScRefused
    | ScTaken(address: nat, width: nat, source: Xlen)   // reservation matched; lock and SC flag kept
    | ScNested(address: nat, width: nat, source: Xlen)  // atomicRamStore re-entered the lock
    | ScWritten(address: nat, width: nat, at: nat)      // word stored, slots not yet invalidated
    | ScCleared(at: nat)
    | ScUnnested(at: nat)                               // inner section left, SC flag still set
    | StLocked(address: nat, bytes: seq<Byte>)
    | StWriting(address: nat, bytes: seq<Byte>, next: nat)
    | AmoRead(op: AmoOp, address: nat, width: nat, operand: Xlen, oldValue: Xlen)
    | AmoLocked(op: AmoOp, address: nat, width: nat, operand: Xlen, oldValue: Xlen)
    | AmoMissed(op: AmoOp, address: nat, width: nat, operand: Xlen, observed: Xlen)
    | AmoWritten(address: nat, width: nat, oldValue: Xlen, at: nat)
    | AmoCleared(width: nat, oldValue: Xlen, at: nat)

  datatype Hart = Hart(pc: Pc, depth: nat, scHeld: bool, rd: Xlen)

  datatype Event =
    | Reserved(hart: nat, address: nat, width: nat, value: seq<Byte>)
    | Conditional(hart: nat, address: nat, width: nat, replaced: seq<Byte>, written: seq<Byte>)
    | Stored(hart: nat, address: nat, written: seq<Byte>)
    | Swapped(hart: nat, address: nat, width: nat, op: AmoOp, operand: Xlen, replaced: seq<Byte>, written: seq<Byte>)
  {
    function Written(): seq<Byte> { if Reserved? then [] else written }

    predicate Touches(line: nat) { RangesOverlap(line, LINE_SIZE, address, |Written()|) }
  }

  /** RAM occupies guest addresses `[base, base + |memory|)` and host bytes from `hostBase`. */
  datatype State = State(
    base: nat, hostBase: nat, memory: seq<Byte>,
    lockWord: nat, slots: Slots, harts: seq<Hart>,
    history: seq<Event>, armedAt: seq<nat>, dirtyBase: nat, dirtySize: nat)
  {
    predicate InRam(address: nat, size: nat) { base <= address && address + size <= base + |memory| }

    /** The access an atomic performs rather than faults on. */
    predicate Atomic(address: nat, width: nat) {
      && IsWidth(width) && InRam(address, width)
      && address % width == 0 && (hostBase + address - base) % width == 0
    }

    function Word(address: nat, width: nat): (word: seq<Byte>)
      requires InRam(address, width)
      ensures |word| == width
    {
      memory[address - base..address - base + width]
    }

    function With(i: nat, h: Hart): State
      requires i < |harts|
    {
      this.(harts := harts[i := h])
    }

    /** Perform an event's write and append it to the history. */
    function Emit(e: Event): State
      requires InRam(e.address, |e.Written()|)
    {
      this.(memory := Effect(base, memory, e), history := history + [e])
    }
  }

  function Effect(base: nat, memory: seq<Byte>, e: Event): (after: seq<Byte>)
    ensures |after| == |memory|
  {
    if base <= e.address && e.address + |e.Written()| <= base + |memory|
    then memory[..e.address - base] + e.Written() + memory[e.address - base + |e.Written()|..]
    else memory
  }

  /** `atomicRamLoad`: a 32-bit word arrives sign-extended. */
  function Widened(word: seq<Byte>): Xlen
    requires |word| == 4 || |word| == 8
  {
    SignExtended(word)
  }

  datatype Step = Begin(i: nat, instruction: Instruction) | Advance(i: nat)

  /** An instruction that would trap (misaligned, outside RAM) leaves all of this state alone and is not a step. */
  predicate Enabled(s: State, step: Step) {
    && step.i < |s.harts|
    && var h := s.harts[step.i];
       match step
       case Begin(i, LoadReserved(a, w)) => h.pc.Idle? && s.Atomic(a, w) && s.lockWord == 0
       case Begin(i, StoreConditional(a, w, _)) => h.pc.Idle? && s.Atomic(a, w) && (i >= HART_COUNT || s.lockWord == 0)
       case Begin(i, PlainStore(_, _)) => h.pc.Idle? && s.lockWord == 0
       case Begin(i, AtomicOp(_, a, w, _)) => h.pc.Idle? && s.Atomic(a, w)
       case Advance(_) => !h.pc.Idle? && WellPlaced(s, h.pc) && (h.pc.AmoRead? ==> s.lockWord == 0)
  }

  /** The address an instruction in flight checked before it started. */
  predicate WellPlaced(s: State, pc: Pc) {
    match pc
    case LrLocked(a, w) => s.Atomic(a, w)
    case LrLoaded(a, w, v) => s.Atomic(a, w) && |v| == w
    case LrArmed(v, _) => |v| == 4 || |v| == 8
    case ScLocked(a, w, _) => s.Atomic(a, w)
    case ScTaken(a, w, _) => s.Atomic(a, w)
    case ScNested(a, w, _) => s.Atomic(a, w)
    case ScWritten(a, w, _) => s.Atomic(a, w)
    case StWriting(a, bytes, next) => next <= |bytes|
    case AmoRead(_, a, w, _, _) => s.Atomic(a, w)
    case AmoLocked(_, a, w, _, _) => s.Atomic(a, w)
    case AmoMissed(_, a, w, _, _) => s.Atomic(a, w)
    case AmoWritten(a, w, _, _) => s.Atomic(a, w)
    case AmoCleared(w, _, _) => IsWidth(w)
    case _ => true
  }

  const ZERO: Xlen := [0, 0, 0, 0, 0, 0, 0, 0]
  const ONE: Xlen := [1, 0, 0, 0, 0, 0, 0, 0]

  function Acquire(s: State, i: nat, pc: Pc): State
    requires i < |s.harts|
  {
    var h := s.harts[i];
    s.(lockWord := 1).With(i, h.(pc := pc, depth := h.depth + 1))
  }

  /** `releaseMonitorLock`: the word is cleared when the depth reaches 0. */
  function Release(s: State, i: nat, pc: Pc, rd: Xlen): State
    requires i < |s.harts|
  {
    var h := s.harts[i];
    s.(lockWord := if h.depth == 1 then 0 else s.lockWord).With(i, h.(
    pc := pc, depth := if h.depth > 0 then h.depth - 1 else 0, rd := rd))
  }

  function Goto(s: State, i: nat, pc: Pc): State
    requires i < |s.harts|
  {
    s.With(i, s.harts[i].(pc := pc))
  }

  function Start(s: State, i: nat, instruction: Instruction): State
    requires Enabled(s, Begin(i, instruction))
  {
    match instruction
    case LoadReserved(a, w) => Acquire(s, i, LrLocked(a, w))
    case StoreConditional(a, w, v) =>
      if i >= HART_COUNT then s.With(i, s.harts[i].(rd := ONE)) else Acquire(s, i, ScLocked(a, w, v))
    case PlainStore(a, bytes) => Acquire(s, i, StLocked(a, bytes))
    case AtomicOp(op, a, w, v) => Goto(s, i, AmoRead(op, a, w, v, Widened(s.Word(a, w))))
  }

  function AdvanceLr(s: State, i: nat): State
    requires Enabled(s, Advance(i)) && (s.harts[i].pc.LrLocked? || s.harts[i].pc.LrLoaded? || s.harts[i].pc.LrArmed?)
  {
    match s.harts[i].pc
    case LrLocked(a, w) => Goto(s, i, LrLoaded(a, w, s.Word(a, w)))
    case LrLoaded(a, w, v) =>
      var at := |s.history|;
      Goto(s, i, LrArmed(v, at)).(
      slots := Armed(s.slots, i, a, w),
      armedAt := if i < |s.armedAt| then s.armedAt[i := at] else s.armedAt,
      history := s.history + [Reserved(i, a, w, v)])
    case LrArmed(v, _) => Release(s, i, Idle, Widened(v))
  }

  predicate InSc(pc: Pc) {
    pc.ScLocked? || pc.ScRefused? || pc.ScTaken? || pc.ScNested? || pc.ScWritten? || pc.ScCleared? || pc.ScUnnested?
  }

  function AdvanceSc(s: State, i: nat): State
    requires Enabled(s, Advance(i)) && InSc(s.harts[i].pc)
  {
    var h := s.harts[i];
    match h.pc
    case ScLocked(a, w, v) =>
      if Matches(s.slots, i, a, w) then s.With(i, h.(pc := ScTaken(a, w, v), scHeld := true))
      else Goto(s, i, ScRefused).(slots := Cleared(s.slots, i))
    case ScRefused => Release(s, i, Idle, ONE)
    case ScTaken(a, w, v) => s.With(i, h.(pc := ScNested(a, w, v), depth := h.depth + 1))
    case ScNested(a, w, v) =>
      Goto(s.Emit(Conditional(i, a, w, s.Word(a, w), v[..w])), i, ScWritten(a, w, |s.history|)).(
      dirtyBase := a, dirtySize := w)
    case ScWritten(a, w, at) => Goto(s, i, ScCleared(at)).(slots := Invalidated(s.slots, a, w), dirtySize := 0)
    case ScCleared(at) => Release(s, i, ScUnnested(at), h.rd)
    case ScUnnested(_) => Release(s.With(i, h.(scHeld := false)), i, Idle, ZERO)
  }

  function AdvanceStore(s: State, i: nat): State
    requires Enabled(s, Advance(i)) && (s.harts[i].pc.StLocked? || s.harts[i].pc.StWriting?)
  {
    match s.harts[i].pc
    case StLocked(a, bytes) => Goto(s, i, StWriting(a, bytes, 0)).(slots := Invalidated(s.slots, a, |bytes|))
    case StWriting(a, bytes, k) =>
      if k == |bytes| then Release(s, i, Idle, s.harts[i].rd)
      else
        var t := if s.InRam(a + k, 1) then s.Emit(Stored(i, a + k, [bytes[k]])) else s;
        Goto(t, i, StWriting(a, bytes, k + 1))
  }

  predicate InAmo(pc: Pc) { pc.AmoRead? || pc.AmoLocked? || pc.AmoMissed? || pc.AmoWritten? || pc.AmoCleared? }

  function AdvanceAmo(s: State, i: nat): State
    requires Enabled(s, Advance(i)) && InAmo(s.harts[i].pc)
  {
    match s.harts[i].pc
    case AmoRead(op, a, w, v, oldValue) => Acquire(s, i, AmoLocked(op, a, w, v, oldValue))
    case AmoLocked(op, a, w, v, oldValue) =>
      var word := s.Word(a, w);
      if word == oldValue[..w] then
        var next := Combine(op, oldValue, v, w)[..w];
        Goto(s.Emit(Swapped(i, a, w, op, v, word, next)), i, AmoWritten(a, w, oldValue, |s.history|)).(
        dirtyBase := a, dirtySize := w)
      else Goto(s, i, AmoMissed(op, a, w, v, Widened(word)))
    case AmoMissed(op, a, w, v, observed) =>
      Release(s, i, AmoRead(op, a, w, v, observed), s.harts[i].rd)
    case AmoWritten(a, w, oldValue, at) =>
      Goto(s, i, AmoCleared(w, oldValue, at)).(slots := Invalidated(s.slots, a, w), dirtySize := 0)
    case AmoCleared(w, oldValue, _) => Release(s, i, Idle, if w == 4 then SignExtended(oldValue[..4]) else oldValue)
  }

  function Apply(s: State, step: Step): State
    requires Enabled(s, step)
  {
    match step
    case Begin(i, instruction) => Start(s, i, instruction)
    case Advance(i) =>
      var pc := s.harts[i].pc;
      if InSc(pc) then AdvanceSc(s, i)
      else if InAmo(pc) then AdvanceAmo(s, i)
      else if pc.StLocked? || pc.StWriting? then AdvanceStore(s, i)
      else AdvanceLr(s, i)
  }

  ghost predicate Init(s: State) {
    && s.lockWord == 0 && s.history == [] && s.dirtySize == 0 && |s.armedAt| == HART_COUNT
    && (forall i :: 0 <= i < |s.harts| ==> s.harts[i].pc.Idle? && s.harts[i].depth == 0 && !s.harts[i].scHeld)
    && (forall i :: 0 <= i < HART_COUNT ==> !s.slots[i].valid)
  }

  ghost predicate Run(states: seq<State>, steps: seq<Step>) {
    && |states| == |steps| + 1
    && Init(states[0])
    && forall k :: 0 <= k < |steps| ==> Enabled(states[k], steps[k]) && states[k + 1] == Apply(states[k], steps[k])
  }

  // ---------- What the history means ----------

  function Replay(base: nat, initial: seq<Byte>, history: seq<Event>): (memory: seq<Byte>)
    ensures |memory| == |initial|
  {
    if history == [] then initial
    else Effect(base, Replay(base, initial, history[..|history| - 1]), history[|history| - 1])
  }

  ghost predicate HeldAt(base: nat, memory: seq<Byte>, address: nat, word: seq<Byte>) {
    && base <= address && address + |word| <= base + |memory|
    && memory[address - base..address - base + |word|] == word
  }

  /** Since index `k`: no write to the line, no LR of this hart or to this line, and no successful SC of this hart. */
  ghost predicate Quiet(history: seq<Event>, k: nat, hart: nat, line: nat) {
    forall m :: k < m < |history| ==>
                  && !history[m].Touches(line)
                  && !(history[m].Reserved? && (history[m].hart == hart
                       || (history[m].hart < HART_COUNT && LineBase(history[m].address) == line)))
                  && !(history[m].Conditional? && history[m].hart == hart)
  }

  /** `e` obeys its instruction when performed on `memory` after the events `earlier`. */
  ghost predicate Lawful(base: nat, memory: seq<Byte>, earlier: seq<Event>, e: Event) {
    match e
    case Reserved(_, a, w, value) => |value| == w && HeldAt(base, memory, a, value)
    case Stored(_, a, written) => |written| == 1
    case Swapped(_, a, w, op, operand, replaced, written) =>
      && IsWidth(w) && |replaced| == w && HeldAt(base, memory, a, replaced)
      && written == Combine(op, Widened(replaced), operand, w)[..w]
    case Conditional(hart, a, w, replaced, written) =>
      && |replaced| == w == |written| && HeldAt(base, memory, a, replaced)
      && exists k :: 0 <= k < |earlier| && earlier[k] == Reserved(hart, a, w, replaced)
           && Quiet(earlier, k, hart, LineBase(a))
  }

  /** The history is a sequential execution from `initial` in which every event obeys its instruction. */
  ghost predicate Sequential(base: nat, initial: seq<Byte>, history: seq<Event>) {
    forall j :: 0 <= j < |history| ==> Lawful(base, Replay(base, initial, history[..j]), history[..j], history[j])
  }

  lemma SequentialAppend(base: nat, initial: seq<Byte>, history: seq<Event>, e: Event)
    requires Sequential(base, initial, history) && Lawful(base, Replay(base, initial, history), history, e)
    ensures Sequential(base, initial, history + [e])
    ensures Replay(base, initial, history + [e]) == Effect(base, Replay(base, initial, history), e)
  {
    var longer := history + [e];
    assert longer[..|history|] == history;
    forall j | 0 <= j < |longer| ensures Lawful(base, Replay(base, initial, longer[..j]), longer[..j], longer[j]) {
      if j < |history| {
        assert longer[..j] == history[..j];
      }
    }
  }

  // ---------- The invariant ----------

  predicate Holding(pc: Pc) { !pc.Idle? && !pc.AmoRead? }

  function DepthOf(pc: Pc): nat {
    if !Holding(pc) then 0 else if pc.ScNested? || pc.ScWritten? || pc.ScCleared? then 2 else 1
  }

  predicate FlagOf(pc: Pc) { pc.ScTaken? || pc.ScNested? || pc.ScWritten? || pc.ScCleared? || pc.ScUnnested? }

  ghost predicate LockInv(s: State) {
    && (forall i :: 0 <= i < |s.harts| ==>
         s.harts[i].depth == DepthOf(s.harts[i].pc) && s.harts[i].scHeld == FlagOf(s.harts[i].pc))
    && (forall i, j :: 0 <= i < |s.harts| && 0 <= j < |s.harts| && Holding(s.harts[i].pc) && Holding(s.harts[j].pc) ==>
         i == j)
    && s.lockWord == if exists i :: 0 <= i < |s.harts| && Holding(s.harts[i].pc) then 1 else 0
  }

  ghost predicate PcInv(s: State, i: nat)
    requires i < |s.harts|
  {
    var pc := s.harts[i].pc;
    && WellPlaced(s, pc)
    && (Holding(pc) && !pc.ScWritten? && !pc.AmoWritten? ==> s.dirtySize == 0)
    && match pc
       case LrLoaded(a, w, v) => v == s.Word(a, w)
       case LrArmed(v, at) => at < |s.history| && s.history[at].Reserved? && s.history[at].hart == i
           && s.history[at].value == v
       case ScLocked(_, _, _) => i < HART_COUNT
       case ScTaken(a, w, _) => Matches(s.slots, i, a, w)
       case ScNested(a, w, _) => Matches(s.slots, i, a, w)
       case ScWritten(a, w, at) =>
         && i < HART_COUNT && s.dirtyBase == a && s.dirtySize == w && LineBase(s.slots[i].address) == LineBase(a)
         && Succeeded(s, i, at)
       case ScRefused => i < HART_COUNT && !s.slots[i].valid
       case ScCleared(at) => i < HART_COUNT && !s.slots[i].valid && Succeeded(s, i, at)
       case ScUnnested(at) => i < HART_COUNT && !s.slots[i].valid && Succeeded(s, i, at)
       case StWriting(a, bytes, _) => forall h :: 0 <= h < HART_COUNT ==> !s.slots[h].Claims(a, |bytes|)
       case AmoWritten(a, w, oldValue, at) => s.dirtyBase == a && s.dirtySize == w && Reports(s, i, w, oldValue, at)
       case AmoCleared(w, oldValue, at) => Reports(s, i, w, oldValue, at)
       case _ => true
  }

  /** Event `at` is this hart's AMO and replaced exactly the word in `oldValue`. */
  ghost predicate Reports(s: State, i: nat, width: nat, oldValue: Xlen, at: nat) {
    && IsWidth(width) && at < |s.history| && s.history[at].Swapped? && s.history[at].hart == i
    && s.history[at].width == width && s.history[at].replaced == oldValue[..width]
  }

  /** Event `at` is this hart's successful SC. */
  ghost predicate Succeeded(s: State, i: nat, at: nat) {
    at < |s.history| && s.history[at].Conditional? && s.history[at].hart == i
  }

  /** What an armed slot guarantees. */
  ghost predicate SlotHolds(s: State, h: nat)
    requires h < HART_COUNT && |s.armedAt| == HART_COUNT
  {
    var slot := s.slots[h];
    && s.Atomic(slot.address, slot.width)
    && s.armedAt[h] < |s.history|
    && s.history[s.armedAt[h]] == Reserved(h, slot.address, slot.width, s.Word(slot.address, slot.width))
    && Quiet(s.history, s.armedAt[h], h, LineBase(slot.address))
  }

  ghost predicate SlotInv(s: State) {
    && |s.armedAt| == HART_COUNT
    && SingleOwner(s.slots)
    && forall h :: 0 <= h < HART_COUNT && s.slots[h].valid && !s.slots[h].Claims(s.dirtyBase, s.dirtySize) ==>
         SlotHolds(s, h)
  }

  ghost predicate PcsInv(s: State) {
    forall i :: 0 <= i < |s.harts| ==> PcInv(s, i)
  }

  ghost predicate Inv(s: State) {
    && LockInv(s) && PcsInv(s) && SlotInv(s)
    && (s.lockWord == 0 ==> s.dirtySize == 0)
  }

  // ---------- Every step keeps the invariant ----------

  lemma KeepLock(s: State, t: State, i: nat)
    requires LockInv(s) && i < |s.harts| == |t.harts| && t.harts == s.harts[i := t.harts[i]]
    requires t.harts[i].depth == DepthOf(t.harts[i].pc) && t.harts[i].scHeld == FlagOf(t.harts[i].pc)
    requires var before, after := Holding(s.harts[i].pc), Holding(t.harts[i].pc);
             && (before == after ==> t.lockWord == s.lockWord)
             && (!before && after ==> s.lockWord == 0 && t.lockWord == 1)
             && (before && !after ==> t.lockWord == 0)
    ensures LockInv(t)
  {
    assert forall j :: 0 <= j < |s.harts| && j != i ==> t.harts[j] == s.harts[j];
    if j :| 0 <= j < |s.harts| && j != i && Holding(s.harts[j].pc) {
      assert Holding(t.harts[j].pc);
    }
  }

  /** A hart without the lock has nothing that a lock holder's step could disturb. */
  lemma KeepPcs(s: State, t: State, i: nat)
    requires LockInv(s) && PcsInv(s) && i < |s.harts| == |t.harts| && t.harts == s.harts[i := t.harts[i]]
    requires t.base == s.base && t.hostBase == s.hostBase && |t.memory| == |s.memory|
    requires Holding(s.harts[i].pc) || s.lockWord == 0 || t == s.With(i, t.harts[i])
    requires PcInv(t, i)
    ensures PcsInv(t)
  {
    forall j | 0 <= j < |t.harts| && j != i ensures PcInv(t, j) {
      assert PcInv(s, j) && t.harts[j] == s.harts[j];
      assert t != s.With(i, t.harts[i]) ==> !Holding(s.harts[j].pc);
    }
  }

  predicate SameShared(s: State, t: State) {
    && t.base == s.base && t.hostBase == s.hostBase && t.memory == s.memory && t.slots == s.slots
    && t.history == s.history && t.armedAt == s.armedAt && t.dirtyBase == s.dirtyBase && t.dirtySize == s.dirtySize
  }

  lemma KeepSlots(s: State, t: State)
    requires SameShared(s, t) && SlotInv(s)
    ensures SlotInv(t)
  {
    forall h | 0 <= h < HART_COUNT && t.slots[h].valid && !t.slots[h].Claims(t.dirtyBase, t.dirtySize)
      ensures SlotHolds(t, h)
    {
      assert SlotHolds(s, h);
    }
  }

  /** Disarming slots, and at least those an unfinished write may have made stale, keeps every promise. */
  lemma KeepDisarmed(s: State, t: State)
    requires SlotInv(s) && SameShared(s, t.(slots := s.slots, dirtySize := s.dirtySize))
    requires t.dirtySize == 0
    requires forall h :: 0 <= h < HART_COUNT ==>
                           && t.slots[h].(valid := s.slots[h].valid) == s.slots[h]
                           && (t.slots[h].valid ==> s.slots[h].valid && !s.slots[h].Claims(s.dirtyBase, s.dirtySize))
    ensures SlotInv(t)
  {
    forall h | 0 <= h < HART_COUNT && t.slots[h].valid ensures SlotHolds(t, h) {
      assert SlotHolds(s, h);
    }
  }

  lemma AtomicStaysInLine(address: nat, width: nat)
    requires IsWidth(width) && address % width == 0
    ensures address + width <= LineBase(address) + LINE_SIZE
  {
    var q, r := address / 64, address % 64;
    assert address == 64 * q + r;
    if width == 4 {
      assert r % 4 == 0;
    } else {
      assert r % 8 == 0;
    }
  }

  lemma EffectElsewhere(base: nat, memory: seq<Byte>, e: Event, address: nat, width: nat)
    requires base <= address && address + width <= base + |memory|
    requires width == 0 || !RangesOverlap(address, width, e.address, |e.Written()|)
    ensures Effect(base, memory, e)[address - base..address - base + width]
            == memory[address - base..address - base + width]
  {
  }

  /** An event outside a slot's line leaves that slot's promise standing. */
  lemma EmitKeepsSlot(s: State, e: Event, h: nat)
    requires h < HART_COUNT && |s.armedAt| == HART_COUNT && SlotHolds(s, h)
    requires s.InRam(e.address, |e.Written()|)
    requires Quiet(s.history + [e], |s.history| - 1, h, LineBase(s.slots[h].address))
    ensures SlotHolds(s.Emit(e), h)
  {
    var t, slot := s.Emit(e), s.slots[h];
    AtomicStaysInLine(slot.address, slot.width);
    assert t.history[|s.history|] == e;
    assert !e.Touches(LineBase(slot.address));
    EffectElsewhere(s.base, s.memory, e, slot.address, slot.width);
  }

  lemma StartKeepsInv(s: State, i: nat, instruction: Instruction)
    requires Inv(s) && Enabled(s, Begin(i, instruction))
    ensures Inv(Start(s, i, instruction))
  {
    var t := Start(s, i, instruction);
    KeepLock(s, t, i);
    KeepPcs(s, t, i);
    KeepSlots(s, t);
  }

  lemma ArmKeepsInv(s: State, i: nat)
    requires Inv(s) && Enabled(s, Advance(i)) && s.harts[i].pc.LrLoaded?
    ensures Inv(AdvanceLr(s, i))
  {
    var t, pc := AdvanceLr(s, i), s.harts[i].pc;
    var e := Reserved(i, pc.address, pc.width, pc.value);
    assert PcInv(s, i);
    KeepLock(s, t, i);
    KeepPcs(s, t, i);
    assert s.Emit(e).memory == s.memory;
    ArmedKeepsSingleOwner(s.slots, i, pc.address, pc.width);
    forall h | 0 <= h < HART_COUNT && t.slots[h].valid ensures SlotHolds(t, h) {
      if h != i {
        EmitKeepsSlot(s, e, h);
        assert SlotHolds(s.Emit(e), h);
      }
    }
  }

  lemma LrKeepsInv(s: State, i: nat)
    requires Inv(s) && Enabled(s, Advance(i))
    requires s.harts[i].pc.LrLocked? || s.harts[i].pc.LrArmed?
    ensures Inv(AdvanceLr(s, i))
  {
    var t := AdvanceLr(s, i);
    assert PcInv(s, i);
    KeepLock(s, t, i);
    KeepPcs(s, t, i);
    KeepSlots(s, t);
  }

  /** The step at the heart of SC: the word it replaces is the one its hart's LR returned. */
  lemma ScWriteKeepsInv(s: State, i: nat)
    requires Inv(s) && Enabled(s, Advance(i)) && s.harts[i].pc.ScNested?
    ensures Inv(AdvanceSc(s, i))
  {
    var t, pc := AdvanceSc(s, i), s.harts[i].pc;
    var e := Conditional(i, pc.address, pc.width, s.Word(pc.address, pc.width), pc.source[..pc.width]);
    assert PcInv(s, i);
    assert SlotHolds(s, i);
    assert s.history[s.armedAt[i]] == Reserved(i, pc.address, pc.width, e.replaced);
    KeepLock(s, t, i);
    KeepPcs(s, t, i);
    AtomicStaysInLine(pc.address, pc.width);
    forall h | 0 <= h < HART_COUNT && t.slots[h].valid && !t.slots[h].Claims(t.dirtyBase, t.dirtySize)
      ensures SlotHolds(t, h)
    {
      assert h != i;
      EmitKeepsSlot(s, e, h);
      assert SlotHolds(s.Emit(e), h);
    }
  }

  lemma ScDisarmKeepsInv(s: State, i: nat)
    requires Inv(s) && Enabled(s, Advance(i))
    requires s.harts[i].pc.ScLocked? || s.harts[i].pc.ScWritten?
    ensures Inv(AdvanceSc(s, i))
  {
    var t, pc := AdvanceSc(s, i), s.harts[i].pc;
    assert PcInv(s, i);
    AtomicStaysInLine(pc.address, pc.width);
    KeepLock(s, t, i);
    KeepPcs(s, t, i);
    if t.slots == s.slots && t.dirtySize == s.dirtySize {
      KeepSlots(s, t);
    } else {
      KeepDisarmed(s, t);
    }
  }

  lemma ScKeepsInv(s: State, i: nat)
    requires Inv(s) && Enabled(s, Advance(i)) && InSc(s.harts[i].pc)
    requires !s.harts[i].pc.ScLocked? && !s.harts[i].pc.ScNested? && !s.harts[i].pc.ScWritten?
    ensures Inv(AdvanceSc(s, i))
  {
    var t := AdvanceSc(s, i);
    assert PcInv(s, i);
    KeepLock(s, t, i);
    KeepPcs(s, t, i);
    KeepSlots(s, t);
  }

  lemma StoreByteKeepsInv(s: State, i: nat)
    requires Inv(s) && Enabled(s, Advance(i)) && s.harts[i].pc.StWriting?
    requires var pc := s.harts[i].pc; pc.next < |pc.bytes| && s.InRam(pc.address + pc.next, 1)
    ensures Inv(AdvanceStore(s, i))
  {
    hide Combine, Effect;
    var t, pc := AdvanceStore(s, i), s.harts[i].pc;
    var e := Stored(i, pc.address + pc.next, [pc.bytes[pc.next]]);
    assert PcInv(s, i);
    KeepLock(s, t, i);
    KeepPcs(s, t, i);
    forall h | 0 <= h < HART_COUNT && t.slots[h].valid ensures SlotHolds(t, h) {
      assert !s.slots[h].Claims(pc.address, |pc.bytes|);
      EmitKeepsSlot(s, e, h);
      assert SlotHolds(s.Emit(e), h);
    }
  }

  lemma StoreKeepsInv(s: State, i: nat)
    requires Inv(s) && Enabled(s, Advance(i)) && (s.harts[i].pc.StLocked? || s.harts[i].pc.StWriting?)
    ensures Inv(AdvanceStore(s, i))
  {
    var t, pc := AdvanceStore(s, i), s.harts[i].pc;
    assert PcInv(s, i);
    if pc.StWriting? && pc.next < |pc.bytes| && s.InRam(pc.address + pc.next, 1) {
      StoreByteKeepsInv(s, i);
    } else {
      KeepLock(s, t, i);
      KeepPcs(s, t, i);
      if pc.StLocked? {
        KeepDisarmed(s, t);
      } else {
        KeepSlots(s, t);
      }
    }
  }

  lemma SwapKeepsInv(s: State, i: nat)
    requires Inv(s) && Enabled(s, Advance(i)) && s.harts[i].pc.AmoLocked?
    requires var pc := s.harts[i].pc; s.Word(pc.address, pc.width) == pc.oldValue[..pc.width]
    ensures Inv(AdvanceAmo(s, i))
  {
    var t, pc := AdvanceAmo(s, i), s.harts[i].pc;
    var word := s.Word(pc.address, pc.width);
    var e := Swapped(i, pc.address, pc.width, pc.op, pc.operand, word,
        Combine(pc.op, pc.oldValue, pc.operand, pc.width)[..pc.width]);
    assert PcInv(s, i);
    KeepLock(s, t, i);
    KeepPcs(s, t, i);
    forall h | 0 <= h < HART_COUNT && t.slots[h].valid && !t.slots[h].Claims(t.dirtyBase, t.dirtySize)
      ensures SlotHolds(t, h)
    {
      EmitKeepsSlot(s, e, h);
      assert SlotHolds(s.Emit(e), h);
    }
  }

  lemma AmoKeepsInv(s: State, i: nat)
    requires Inv(s) && Enabled(s, Advance(i)) && InAmo(s.harts[i].pc)
    ensures Inv(AdvanceAmo(s, i))
  {
    hide Combine, Widened, SlotInv;
    var t, pc := AdvanceAmo(s, i), s.harts[i].pc;
    assert PcInv(s, i);
    if pc.AmoLocked? && s.Word(pc.address, pc.width) == pc.oldValue[..pc.width] {
      SwapKeepsInv(s, i);
    } else {
      KeepLock(s, t, i);
      KeepPcs(s, t, i);
      if pc.AmoWritten? {
        KeepDisarmed(s, t);
      } else {
        KeepSlots(s, t);
      }
    }
  }

  lemma ApplyKeepsInv(s: State, step: Step)
    requires Inv(s) && Enabled(s, step)
    ensures Inv(Apply(s, step))
  {
    match step
    case Begin(i, instruction) => StartKeepsInv(s, i, instruction);
    case Advance(i) =>
      var pc := s.harts[i].pc;
      if pc.ScNested? {
        ScWriteKeepsInv(s, i);
      } else if pc.ScLocked? || pc.ScWritten? {
        ScDisarmKeepsInv(s, i);
      } else if InSc(pc) {
        ScKeepsInv(s, i);
      } else if InAmo(pc) {
        AmoKeepsInv(s, i);
      } else if pc.StLocked? || pc.StWriting? {
        StoreKeepsInv(s, i);
      } else if pc.LrLoaded? {
        ArmKeepsInv(s, i);
      } else {
        LrKeepsInv(s, i);
      }
  }

  lemma {:induction false} RunKeepsInv(states: seq<State>, steps: seq<Step>, n: nat)
    requires Run(states, steps) && n < |states|
    ensures Inv(states[n])
  {
    if n > 0 {
      RunKeepsInv(states, steps, n - 1);
      ApplyKeepsInv(states[n - 1], steps[n - 1]);
    }
  }

  // ---------- Runs are sequential ----------

  /** The event a step performs, if any. */
  function Performed(s: State, step: Step): seq<Event>
    requires Enabled(s, step)
  {
    if step.Begin? then [] else
    match s.harts[step.i].pc
    case LrLoaded(a, w, v) => [Reserved(step.i, a, w, v)]
    case ScNested(a, w, v) => [Conditional(step.i, a, w, s.Word(a, w), v[..w])]
    case StWriting(a, bytes, k) => if k < |bytes| && s.InRam(a + k, 1) then [Stored(step.i, a + k, [bytes[k]])] else []
    case AmoLocked(op, a, w, v, oldValue) =>
      if s.Word(a, w) == oldValue[..w]
      then [Swapped(step.i, a, w, op, v, s.Word(a, w), Combine(op, oldValue, v, w)[..w])] else []
    case _ => []
  }

  ghost predicate Follows(s: State, t: State, es: seq<Event>) {
    && t.base == s.base && t.history == s.history + es
    && t.memory == if es == [] then s.memory else Effect(s.base, s.memory, es[0])
  }

  lemma ScPerforms(s: State, i: nat)
    requires Enabled(s, Advance(i)) && InSc(s.harts[i].pc)
    ensures Follows(s, AdvanceSc(s, i), Performed(s, Advance(i)))
  {
  }

  lemma AmoPerforms(s: State, i: nat)
    requires Enabled(s, Advance(i)) && InAmo(s.harts[i].pc)
    ensures Follows(s, AdvanceAmo(s, i), Performed(s, Advance(i)))
  {
  }

  lemma StorePerforms(s: State, i: nat)
    requires Enabled(s, Advance(i)) && (s.harts[i].pc.StLocked? || s.harts[i].pc.StWriting?)
    ensures Follows(s, AdvanceStore(s, i), Performed(s, Advance(i)))
  {
  }

  lemma StartPerformsNothing(s: State, i: nat, instruction: Instruction)
    requires Enabled(s, Begin(i, instruction))
    ensures Follows(s, Start(s, i, instruction), [])
  {
  }

  lemma LrPerforms(s: State, i: nat)
    requires Enabled(s, Advance(i)) && (s.harts[i].pc.LrLocked? || s.harts[i].pc.LrLoaded? || s.harts[i].pc.LrArmed?)
    ensures Follows(s, AdvanceLr(s, i), Performed(s, Advance(i)))
  {
    if s.harts[i].pc.LrLoaded? {
      var e := Performed(s, Advance(i))[0];
      assert Effect(s.base, s.memory, e) == s.memory;
    }
  }

  lemma StepPerforms(s: State, step: Step)
    requires Enabled(s, step)
    ensures Follows(s, Apply(s, step), Performed(s, step))
  {
    var i, pc := step.i, s.harts[step.i].pc;
    if step.Begin? {
      StartPerformsNothing(s, i, step.instruction);
    } else if InSc(pc) {
      ScPerforms(s, i);
    } else if InAmo(pc) {
      AmoPerforms(s, i);
    } else if pc.StLocked? || pc.StWriting? {
      StorePerforms(s, i);
    } else {
      LrPerforms(s, i);
    }
  }

  lemma ScIsLawful(s: State, i: nat)
    requires Inv(s) && Enabled(s, Advance(i)) && s.harts[i].pc.ScNested?
    ensures Lawful(s.base, s.memory, s.history, Performed(s, Advance(i))[0])
  {
    assert PcInv(s, i);
    assert SlotHolds(s, i);
  }

  lemma PerformedIsLawful(s: State, step: Step)
    requires Inv(s) && Enabled(s, step) && Performed(s, step) != []
    ensures Lawful(s.base, s.memory, s.history, Performed(s, step)[0])
  {
    var pc := s.harts[step.i].pc;
    assert PcInv(s, step.i);
    if pc.ScNested? {
      ScIsLawful(s, step.i);
    } else if pc.AmoLocked? {
      CombineReadsOnlyTheWord(pc.op, pc.oldValue, Widened(s.Word(pc.address, pc.width)), pc.operand, pc.width);
    }
  }

  lemma StepStaysSequential(s: State, step: Step, initial: seq<Byte>)
    requires Inv(s) && Enabled(s, step) && s.memory == Replay(s.base, initial, s.history)
    requires Sequential(s.base, initial, s.history)
    ensures var t := Apply(s, step);
            t.base == s.base && t.memory == Replay(t.base, initial, t.history) && Sequential(t.base, initial, t.history)
  {
    hide Apply, Effect, Lawful, Sequential, Inv;
    StepPerforms(s, step);
    if Performed(s, step) != [] {
      PerformedIsLawful(s, step);
      SequentialAppend(s.base, initial, s.history, Performed(s, step)[0]);
      assert s.history + Performed(s, step) == s.history + [Performed(s, step)[0]];
    } else {
      assert s.history + [] == s.history;
    }
  }

  /**
   * Every run: memory is the replay of the history, and the history is sequential. In particular a
   * successful SC overwrites exactly the word returned by its hart's latest LR, its line was not
   * written in between, and two successes of one hart have an LR of that hart between them.
   */
  lemma {:induction false} EveryRunIsSequential(states: seq<State>, steps: seq<Step>, n: nat)
    requires Run(states, steps) && n < |states|
    ensures var s, initial := states[n], states[0].memory;
            && s.base == states[0].base
            && s.memory == Replay(s.base, initial, s.history)
            && Sequential(s.base, initial, s.history)
  {
    if n > 0 {
      hide Apply, Effect, Lawful, Sequential, Inv, Replay;
      EveryRunIsSequential(states, steps, n - 1);
      RunKeepsInv(states, steps, n - 1);
      StepStaysSequential(states[n - 1], steps[n - 1], states[0].memory);
    }
  }

  // ---------- Consequences ----------

  /** Between two successful SCs of one hart there is an LR of that hart. */
  lemma SuccessesNeedSeparateReservations(base: nat, initial: seq<Byte>, history: seq<Event>, i: nat, j: nat)
    requires Sequential(base, initial, history) && i < j < |history|
    requires history[i].Conditional? && history[j].Conditional? && history[i].hart == history[j].hart
    ensures exists k :: i < k < j && history[k].Reserved? && history[k].hart == history[j].hart
  {
    var e, earlier := history[j], history[..j];
    assert Lawful(base, Replay(base, initial, earlier), earlier, e);
    var k :| 0 <= k < |earlier| && earlier[k] == Reserved(e.hart, e.address, e.width, e.replaced)
             && Quiet(earlier, k, e.hart, LineBase(e.address));
    assert earlier[i] == history[i] && earlier[k] == history[k];
  }

  /** In every run, while nobody is inside a critical section, each valid slot's line is unwritten since its LR. */
  lemma ReservationsAreTrue(states: seq<State>, steps: seq<Step>, n: nat, h: nat)
    requires Run(states, steps) && n < |states| && h < HART_COUNT
    requires states[n].lockWord == 0 && states[n].slots[h].valid
    ensures |states[n].armedAt| == HART_COUNT && SlotHolds(states[n], h)
    ensures forall g :: 0 <= g < HART_COUNT && g != h && states[n].slots[g].valid
              ==> LineBase(states[n].slots[g].address) != LineBase(states[n].slots[h].address)
  {
    RunKeepsInv(states, steps, n);
  }

  /** In every run an SC that completes leaves its hart without a reservation, whether it stored or not. */
  lemma ScSpendsReservation(states: seq<State>, steps: seq<Step>, n: nat)
    requires Run(states, steps) && n < |steps| && steps[n].Advance? && steps[n].i < HART_COUNT
    requires InSc(states[n].harts[steps[n].i].pc) && states[n + 1].harts[steps[n].i].pc.Idle?
    ensures !states[n + 1].slots[steps[n].i].valid
  {
    RunKeepsInv(states, steps, n);
    assert PcInv(states[n], steps[n].i);
  }

  /**
   * In every run the value an instruction leaves in rd is the one its event records: the word an LR
   * loaded, the word an AMO replaced, and for SC 0 exactly when it stored.
   */
  lemma ResultsMatchHistory(states: seq<State>, steps: seq<Step>, n: nat)
    requires Run(states, steps) && n < |steps| && steps[n].Advance? && states[n + 1].harts[steps[n].i].pc.Idle?
    ensures var i, s := steps[n].i, states[n]; var pc, rd := s.harts[i].pc, states[n + 1].harts[i].rd;
            match pc
            case LrArmed(_, at) =>
              at < |s.history| && s.history[at].Reserved? && s.history[at].hart == i
              && (|s.history[at].value| == 4 || |s.history[at].value| == 8) && rd == Widened(s.history[at].value)
            case AmoCleared(w, _, at) =>
              at < |s.history| && s.history[at].Swapped? && s.history[at].hart == i
              && (|s.history[at].replaced| == 4 || |s.history[at].replaced| == 8)
                   && rd == Widened(s.history[at].replaced)
            case ScUnnested(at) => Succeeded(s, i, at) && rd == ZERO
            case ScRefused => rd == ONE
            case _ => rd == s.harts[i].rd
  {
    var i, s := steps[n].i, states[n];
    RunKeepsInv(states, steps, n);
    assert PcInv(s, i);
    if s.harts[i].pc.AmoCleared? && s.harts[i].pc.width == 8 {
      assert s.harts[i].pc.oldValue[..8] == s.harts[i].pc.oldValue;
    }
  }

  /** In every run the lock is given back with its instruction: an idle hart has depth 0 and no SC flag. */
  lemma LockIsBalanced(states: seq<State>, steps: seq<Step>, n: nat)
    requires Run(states, steps) && n < |states|
    ensures forall i :: 0 <= i < |states[n].harts| && states[n].harts[i].pc.Idle?
              ==> states[n].harts[i].depth == 0 && !states[n].harts[i].scHeld
    ensures (forall i :: 0 <= i < |states[n].harts| ==> states[n].harts[i].pc.Idle?) ==> states[n].lockWord == 0
  {
    RunKeepsInv(states, steps, n);
  }

  /** In every run, while some hart is inside an instruction, some hart can take its next step. */
  lemma SomeHartCanAdvance(states: seq<State>, steps: seq<Step>, n: nat, i: nat)
    requires Run(states, steps) && n < |states| && i < |states[n].harts| && !states[n].harts[i].pc.Idle?
    ensures exists j :: Enabled(states[n], Advance(j))
  {
    RunKeepsInv(states, steps, n);
    var s := states[n];
    if Enabled(s, Advance(i)) {
    } else {
      assert PcInv(s, i);
      var j :| 0 <= j < |s.harts| && Holding(s.harts[j].pc);
      assert PcInv(s, j);
      assert Enabled(s, Advance(j));
    }
  }
}
