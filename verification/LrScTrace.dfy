/**
 * What each instruction of `LrSc` did by the time it finished, in terms of its own operands
 * (`src/emulator/cpu/instructions/amo.ts`, `src/emulator/ram.ts`, `src/emulator/memory.ts`).
 *
 * `LrSc.EveryRunIsSequential` says that memory is the replay of the history. Here every event of a hart
 * is traced to the instruction it began: an SC stores its own operand, an AMO applies its own operation
 * and operand, a plain store writes its own bytes in order, each once, and rd is the literal result.
 */
module LrScTrace {
  import opened Bytes
  import opened Amo
  import opened Ranges
  import opened Reservation
  import opened LrSc

  /** Index of the latest instruction hart `i` began in the first `n` steps, or -1. */
  function LatestBegin(steps: seq<Step>, i: nat, n: nat): (b: int)
    requires n <= |steps|
    ensures -1 <= b < n && (b >= 0 ==> steps[b].Begin? && steps[b].i == i)
  {
    if n == 0 then -1
    else if steps[n - 1].Begin? && steps[n - 1].i == i then n - 1
    else LatestBegin(steps, i, n - 1)
  }

  /** The events of hart `i`, in order. */
  function EventsOf(history: seq<Event>, i: nat): seq<Event> {
    if history == [] then []
    else
      var rest, e := EventsOf(history[..|history| - 1], i), history[|history| - 1];
      if e.hart == i then rest + [e] else rest
  }

  /** What hart `i` did since the history was `m` events long. */
  function Since(s: State, i: nat, m: nat): seq<Event>
    requires m <= |s.history|
  {
    EventsOf(s.history[m..], i)
  }

  /** The stores a plain store of `bytes` at `a` makes by its first `k` bytes: one per byte in RAM, in order. */
  function ByteStores(base: nat, size: nat, i: nat, a: nat, bytes: seq<Byte>, k: nat): seq<Event>
    requires k <= |bytes|
  {
    if k == 0 then []
    else
      ByteStores(base, size, i, a, bytes, k - 1) +
      if base <= a + (k - 1) < base + size then [Stored(i, a + (k - 1), [bytes[k - 1]])] else []
  }

  /** A 4-byte word is sign-extended into a register, an 8-byte word fills it. */
  predicate Extends(rd: Xlen, word: seq<Byte>) {
    || (|word| == 8 && rd == word)
    || (|word| == 4 && rd == word + (if word[3] >= 128 then [255, 255, 255, 255] else [0, 0, 0, 0]))
  }

  predicate DidReserve(es: seq<Event>, i: nat, a: nat, w: nat) {
    |es| == 1 && es[0].Reserved? && es[0] == Reserved(i, a, w, es[0].value) && |es[0].value| == w
  }

  predicate DidStoreConditional(es: seq<Event>, i: nat, a: nat, w: nat, x: Xlen) {
    |es| == 1 && w <= 8 && es[0].Conditional? && es[0] == Conditional(i, a, w, es[0].replaced, x[..w])
  }

  predicate DidSwap(es: seq<Event>, i: nat, op: AmoOp, a: nat, w: nat, x: Xlen) {
    |es| == 1 && es[0].Swapped? && es[0] == Swapped(i, a, w, op, x, es[0].replaced, es[0].written)
        && |es[0].replaced| == w
  }

  /** What a finished instruction of hart `i` has done, and left in rd, which held `before`. */
  predicate Finished(instruction: Instruction, base: nat, size: nat, i: nat, es: seq<Event>, before: Xlen, rd: Xlen) {
    match instruction
    case LoadReserved(a, w) => DidReserve(es, i, a, w) && Extends(rd, es[0].value)
    case StoreConditional(a, w, x) =>
      || (es == [] && rd == [1, 0, 0, 0, 0, 0, 0, 0])
      || (DidStoreConditional(es, i, a, w, x) && rd == [0, 0, 0, 0, 0, 0, 0, 0])
    case PlainStore(a, bytes) => es == ByteStores(base, size, i, a, bytes, |bytes|) && rd == before
    case AtomicOp(op, a, w, x) => DidSwap(es, i, op, a, w, x) && Extends(rd, es[0].replaced)
  }

  // ---------- What an unfinished instruction has done ----------

  predicate ReserveInFlight(pc: Pc, i: nat, es: seq<Event>, a: nat, w: nat) {
    match pc
    case LrLocked(b, v) => b == a && v == w && es == []
    case LrLoaded(b, v, word) => b == a && v == w && |word| == w && es == []
    case LrArmed(word, _) => DidReserve(es, i, a, w) && es[0].value == word
    case _ => false
  }

  predicate ConditionalInFlight(pc: Pc, i: nat, es: seq<Event>, a: nat, w: nat, x: Xlen) {
    match pc
    case ScLocked(b, v, y) => b == a && v == w && y == x && es == []
    case ScTaken(b, v, y) => b == a && v == w && y == x && es == []
    case ScNested(b, v, y) => b == a && v == w && y == x && es == []
    case ScRefused => es == []
    case ScWritten(_, _, _) => DidStoreConditional(es, i, a, w, x)
    case ScCleared(_) => DidStoreConditional(es, i, a, w, x)
    case ScUnnested(_) => DidStoreConditional(es, i, a, w, x)
    case _ => false
  }

  predicate StoreInFlight(pc: Pc, base: nat, size: nat, i: nat, es: seq<Event>, a: nat, bytes: seq<Byte>) {
    match pc
    case StLocked(b, these) => b == a && these == bytes && es == []
    case StWriting(b, these, k) =>
      b == a && these == bytes && k <= |bytes| && es == ByteStores(base, size, i, a, bytes, k)
    case _ => false
  }

  predicate SwappedWord(es: seq<Event>, i: nat, op: AmoOp, a: nat, w: nat, x: Xlen, word: Xlen) {
    w <= 8 && DidSwap(es, i, op, a, w, x) && es[0].replaced == word[..w]
  }

  predicate SwapInFlight(pc: Pc, i: nat, es: seq<Event>, op: AmoOp, a: nat, w: nat, x: Xlen) {
    match pc
    case AmoRead(p, b, v, y, _) => p == op && b == a && v == w && y == x && es == []
    case AmoLocked(p, b, v, y, _) => p == op && b == a && v == w && y == x && es == []
    case AmoMissed(p, b, v, y, _) => p == op && b == a && v == w && y == x && es == []
    case AmoWritten(b, v, word, _) => b == a && v == w && SwappedWord(es, i, op, a, w, x, word)
    case AmoCleared(v, word, _) => v == w && SwappedWord(es, i, op, a, w, x, word)
    case _ => false
  }

  predicate HasWidth(instruction: Instruction) { instruction.PlainStore? || IsWidth(instruction.width) }

  /** Hart `h` with number `i` is inside `instruction`, or has finished it. */
  predicate Progress(instruction: Instruction, base: nat, size: nat, i: nat, es: seq<Event>, before: Xlen, h: Hart) {
    && HasWidth(instruction)
    && if h.pc.Idle? then Finished(instruction, base, size, i, es, before, h.rd)
       else
         && h.rd == before
         && match instruction
            case LoadReserved(a, w) => ReserveInFlight(h.pc, i, es, a, w)
            case StoreConditional(a, w, x) => ConditionalInFlight(h.pc, i, es, a, w, x)
            case PlainStore(a, bytes) => StoreInFlight(h.pc, base, size, i, es, a, bytes)
            case AtomicOp(op, a, w, x) => SwapInFlight(h.pc, i, es, op, a, w, x)
  }

  // ---------- Every step keeps it ----------

  lemma EventsOfAppend(history: seq<Event>, e: Event, i: nat)
    ensures EventsOf(history + [e], i) == EventsOf(history, i) + if e.hart == i then [e] else []
  {
    assert (history + [e])[..|history|] == history;
  }

  lemma SinceAppend(s: State, t: State, es: seq<Event>, i: nat, m: nat)
    requires m <= |s.history| && t.history == s.history + es && |es| <= 1
    ensures m <= |t.history|
    ensures Since(t, i, m) == Since(s, i, m) + if es != [] && es[0].hart == i then es else []
  {
    if es == [] {
      assert t.history == s.history;
    } else {
      EventsOfAppend(s.history[m..], es[0], i);
      assert t.history[m..] == s.history[m..] + [es[0]];
    }
  }

  /** Only hart `i` moves, and memory keeps its place and size. */
  predicate MovesOne(s: State, t: State, i: nat) {
    && t.base == s.base && |t.memory| == |s.memory|
    && |t.harts| == |s.harts| && forall j :: 0 <= j < |s.harts| && j != i ==> t.harts[j] == s.harts[j]
  }

  lemma StartMoves(s: State, i: nat, instruction: Instruction)
    requires Enabled(s, Begin(i, instruction))
    ensures MovesOne(s, Start(s, i, instruction), i)
  {
    hide Effect, Armed, Invalidated, Combine;
  }

  lemma LrMoves(s: State, i: nat)
    requires Enabled(s, Advance(i)) && (s.harts[i].pc.LrLocked? || s.harts[i].pc.LrLoaded? || s.harts[i].pc.LrArmed?)
    ensures MovesOne(s, AdvanceLr(s, i), i)
  {
    hide Effect, Armed, Invalidated, Combine;
  }

  lemma ScMoves(s: State, i: nat)
    requires Enabled(s, Advance(i)) && InSc(s.harts[i].pc)
    ensures MovesOne(s, AdvanceSc(s, i), i)
  {
    hide Effect, Armed, Invalidated, Combine;
  }

  lemma StoreMoves(s: State, i: nat)
    requires Enabled(s, Advance(i)) && (s.harts[i].pc.StLocked? || s.harts[i].pc.StWriting?)
    ensures MovesOne(s, AdvanceStore(s, i), i)
  {
    hide Effect, Armed, Invalidated, Combine;
  }

  lemma AmoMoves(s: State, i: nat)
    requires Enabled(s, Advance(i)) && InAmo(s.harts[i].pc)
    ensures MovesOne(s, AdvanceAmo(s, i), i)
  {
    hide Effect, Armed, Invalidated, Combine;
  }

  lemma StepMovesOneHart(s: State, step: Step)
    requires Enabled(s, step)
    ensures MovesOne(s, Apply(s, step), step.i)
  {
    hide MovesOne, Start, AdvanceLr, AdvanceSc, AdvanceStore, AdvanceAmo;
    var i, pc := step.i, s.harts[step.i].pc;
    if step.Begin? {
      StartMoves(s, i, step.instruction);
    } else if InSc(pc) {
      ScMoves(s, i);
    } else if InAmo(pc) {
      AmoMoves(s, i);
    } else if pc.StLocked? || pc.StWriting? {
      StoreMoves(s, i);
    } else {
      LrMoves(s, i);
    }
  }

  lemma OneEvent(s: State, step: Step)
    requires Enabled(s, step)
    ensures var es := Performed(s, step); |es| <= 1 && (es != [] ==> es[0].hart == step.i)
  {
    hide Combine;
  }

  /** A step records at most one event, and only of its own hart. */
  lemma StepRecords(s: State, step: Step)
    requires Enabled(s, step)
    ensures var t, es := Apply(s, step), Performed(s, step);
            && |es| <= 1 && (es != [] ==> es[0].hart == step.i) && t.history == s.history + es
            && t.base == s.base && |t.memory| == |s.memory|
            && |t.harts| == |s.harts| && forall j :: 0 <= j < |s.harts| && j != step.i ==> t.harts[j] == s.harts[j]
  {
    hide Enabled, Performed, Apply, Effect;
    StepPerforms(s, step);
    OneEvent(s, step);
    StepMovesOneHart(s, step);
  }

  lemma BeginProgresses(s: State, i: nat, instruction: Instruction)
    requires Enabled(s, Begin(i, instruction))
    ensures var h := Start(s, i, instruction).harts[i];
            Progress(instruction, s.base, |s.memory|, i, [], s.harts[i].rd, h)
  {
  }

  lemma ReserveProgresses(s: State, i: nat, instruction: Instruction, before: Xlen, es: seq<Event>)
    requires Enabled(s, Advance(i)) && instruction.LoadReserved? && !s.harts[i].pc.Idle?
    requires Progress(instruction, s.base, |s.memory|, i, es, before, s.harts[i])
    ensures Progress(instruction, s.base, |s.memory|, i, es + Performed(s, Advance(i)), before,
            Apply(s, Advance(i)).harts[i])
  {
    hide Armed;
  }

  lemma ConditionalProgresses(s: State, i: nat, instruction: Instruction, before: Xlen, es: seq<Event>)
    requires Enabled(s, Advance(i)) && instruction.StoreConditional? && !s.harts[i].pc.Idle?
    requires Progress(instruction, s.base, |s.memory|, i, es, before, s.harts[i])
    ensures Progress(instruction, s.base, |s.memory|, i, es + Performed(s, Advance(i)), before,
            Apply(s, Advance(i)).harts[i])
  {
    hide Invalidated, Effect;
  }

  lemma StoreProgresses(s: State, i: nat, instruction: Instruction, before: Xlen, es: seq<Event>)
    requires Enabled(s, Advance(i)) && instruction.PlainStore? && !s.harts[i].pc.Idle?
    requires Progress(instruction, s.base, |s.memory|, i, es, before, s.harts[i])
    ensures Progress(instruction, s.base, |s.memory|, i, es + Performed(s, Advance(i)), before,
            Apply(s, Advance(i)).harts[i])
  {
    hide Invalidated, Effect;
  }

  lemma SwapFinishes(word: Xlen, w: nat)
    requires IsWidth(w)
    ensures Extends(if w == 4 then SignExtended(word[..4]) else word, word[..w])
  {
    if w == 8 {
      assert word[..8] == word;
    } else {
      assert SignExtended(word[..4])[..4] == word[..4];
    }
  }

  lemma SwapExchanges(s: State, i: nat, instruction: Instruction, before: Xlen, es: seq<Event>)
    requires Enabled(s, Advance(i)) && instruction.AtomicOp? && s.harts[i].pc.AmoLocked?
    requires Progress(instruction, s.base, |s.memory|, i, es, before, s.harts[i])
    ensures Progress(instruction, s.base, |s.memory|, i, es + Performed(s, Advance(i)), before,
            AdvanceAmo(s, i).harts[i])
  {
    hide Effect, Combine, Widened, Extends;
  }

  lemma SwapProgresses(s: State, i: nat, instruction: Instruction, before: Xlen, es: seq<Event>)
    requires Enabled(s, Advance(i)) && instruction.AtomicOp? && !s.harts[i].pc.Idle?
    requires Progress(instruction, s.base, |s.memory|, i, es, before, s.harts[i])
    ensures Progress(instruction, s.base, |s.memory|, i, es + Performed(s, Advance(i)), before,
            Apply(s, Advance(i)).harts[i])
  {
    hide Invalidated, Effect, Combine, Widened, Extends, SignExtended;
    var pc := s.harts[i].pc;
    if pc.AmoLocked? {
      SwapExchanges(s, i, instruction, before, es);
    } else if pc.AmoCleared? {
      SwapFinishes(pc.oldValue, pc.width);
    }
  }

  lemma AdvanceProgresses(s: State, i: nat, instruction: Instruction, before: Xlen, es: seq<Event>)
    requires Enabled(s, Advance(i))
    requires Progress(instruction, s.base, |s.memory|, i, es, before, s.harts[i])
    ensures Progress(instruction, s.base, |s.memory|, i, es + Performed(s, Advance(i)), before,
            Apply(s, Advance(i)).harts[i])
  {
    hide Progress, Performed, Apply;
    match instruction
    case LoadReserved(_, _) => ReserveProgresses(s, i, instruction, before, es);
    case StoreConditional(_, _, _) => ConditionalProgresses(s, i, instruction, before, es);
    case PlainStore(_, _) => StoreProgresses(s, i, instruction, before, es);
    case AtomicOp(_, _, _, _) => SwapProgresses(s, i, instruction, before, es);
  }

  /** Hart `i` of state `n` is on its latest instruction, and did nothing before its first. */
  ghost predicate OnTrack(states: seq<State>, steps: seq<Step>, n: nat, i: nat)
    requires n < |states| && n <= |steps| && (forall k :: 0 <= k <= n ==> i < |states[k].harts|)
  {
    var b, s := LatestBegin(steps, i, n), states[n];
    if b < 0 then EventsOf(s.history, i) == [] && s.harts[i].pc.Idle?
    else
      var m := |states[b].history|;
      m <= |s.history|
      && Progress(steps[b].instruction, states[0].base, |states[0].memory|, i, Since(s, i, m), states[b].harts[i].rd,
           s.harts[i])
  }

  lemma StepKeepsShape(s: State, step: Step)
    requires Enabled(s, step)
    ensures var t := Apply(s, step); |t.harts| == |s.harts| && t.base == s.base && |t.memory| == |s.memory|
  {
    hide Performed;
    StepRecords(s, step);
  }

  lemma {:induction false} ShapeIsKept(states: seq<State>, steps: seq<Step>, n: nat)
    requires Run(states, steps) && n < |states|
    ensures |states[n].harts| == |states[0].harts|
    ensures states[n].base == states[0].base && |states[n].memory| == |states[0].memory|
  {
    if n > 0 {
      hide Apply, Enabled;
      ShapeIsKept(states, steps, n - 1);
      StepKeepsShape(states[n - 1], steps[n - 1]);
    }
  }

  lemma EmptyEvents(i: nat)
    ensures EventsOf([], i) == []
  {
  }

  lemma {:induction false} StaysOnTrack(states: seq<State>, steps: seq<Step>, n: nat, i: nat)
    requires Run(states, steps) && n < |states| && i < |states[0].harts|
    requires forall k :: 0 <= k <= n ==> i < |states[k].harts|
    ensures OnTrack(states, steps, n, i)
  {
    if n > 0 {
      StaysOnTrack(states, steps, n - 1, i);
      hide Apply, Enabled, OnTrack;
      if steps[n - 1].i != i {
        OtherStep(states, steps, n, i);
      } else if steps[n - 1].Begin? {
        BeginStep(states, steps, n, i);
      } else {
        AdvanceStep(states, steps, n, i);
      }
    }
  }

  lemma OtherStep(states: seq<State>, steps: seq<Step>, n: nat, i: nat)
    requires Run(states, steps) && 0 < n < |states| && i < |states[0].harts|
    requires forall k :: 0 <= k <= n ==> i < |states[k].harts|
    requires steps[n - 1].i != i && OnTrack(states, steps, n - 1, i)
    ensures OnTrack(states, steps, n, i)
  {
    hide Apply, Enabled, Performed, Progress, EventsOf;
    var s, t, b := states[n - 1], states[n], LatestBegin(steps, i, n - 1);
    StepRecords(s, steps[n - 1]);
    SinceAppend(s, t, Performed(s, steps[n - 1]), i, if b < 0 then 0 else |states[b].history|);
    assert s.history[0..] == s.history && t.history[0..] == t.history;
    assert LatestBegin(steps, i, n) == b && t.harts[i] == s.harts[i];
    if b >= 0 {
      assert Since(t, i, |states[b].history|) == Since(s, i, |states[b].history|);
    }
  }

  lemma BeginStep(states: seq<State>, steps: seq<Step>, n: nat, i: nat)
    requires Run(states, steps) && 0 < n < |states| && i < |states[0].harts|
    requires forall k :: 0 <= k <= n ==> i < |states[k].harts|
    requires steps[n - 1].Begin? && steps[n - 1].i == i
    ensures OnTrack(states, steps, n, i)
  {
    var s, t := states[n - 1], states[n];
    assert steps[n - 1] == Begin(i, steps[n - 1].instruction) && t == Apply(s, steps[n - 1]);
    assert t == Start(s, i, steps[n - 1].instruction) && Performed(s, steps[n - 1]) == [];
    hide Enabled, Progress, EventsOf, Start, Apply, Performed;
    ShapeIsKept(states, steps, n - 1);
    BeginProgresses(s, i, steps[n - 1].instruction);
    StepRecords(s, steps[n - 1]);
    EmptyEvents(i);
    assert LatestBegin(steps, i, n) == n - 1;
    assert t.history[|s.history|..] == [];
  }

  lemma AdvanceStep(states: seq<State>, steps: seq<Step>, n: nat, i: nat)
    requires Run(states, steps) && 0 < n < |states| && i < |states[0].harts|
    requires forall k :: 0 <= k <= n ==> i < |states[k].harts|
    requires steps[n - 1] == Advance(i) && OnTrack(states, steps, n - 1, i)
    ensures OnTrack(states, steps, n, i)
  {
    hide Apply, Performed, Progress, EventsOf;
    var s, t, b := states[n - 1], states[n], LatestBegin(steps, i, n - 1);
    assert b >= 0;
    hide Enabled;
    ShapeIsKept(states, steps, n - 1);
    StepRecords(s, Advance(i));
    var m := |states[b].history|;
    AdvanceProgresses(s, i, steps[b].instruction, states[b].harts[i].rd, Since(s, i, m));
    SinceAppend(s, t, Performed(s, Advance(i)), i, m);
    assert Since(t, i, m) == Since(s, i, m) + Performed(s, Advance(i));
  }

  /**
   * In every run, whenever a hart is between instructions, its latest one did exactly what it is for: an LR
   * read and reserved its address; an SC stored its operand and gave 0, or stored nothing and gave 1; a
   * plain store wrote its bytes that are in RAM, in order, each once; an AMO applied its operation to its
   * operand once. LR and AMO leave the sign-extended word in rd.
   */
  lemma EveryInstructionDoesItsWork(states: seq<State>, steps: seq<Step>, n: nat, i: nat)
    requires Run(states, steps) && n < |states| && i < |states[n].harts| && states[n].harts[i].pc.Idle?
    ensures var b, s := LatestBegin(steps, i, n), states[n];
            if b < 0 then EventsOf(s.history, i) == []
            else
              && |states[b].history| <= |s.history| && i < |states[b].harts|
              && Finished(steps[b].instruction, s.base, |s.memory|, i, Since(s, i, |states[b].history|),
                          states[b].harts[i].rd, s.harts[i].rd)
  {
    hide Apply, Enabled, Finished, EventsOf;
    forall k | 0 <= k <= n ensures i < |states[k].harts| {
      ShapeIsKept(states, steps, k);
      ShapeIsKept(states, steps, n);
    }
    StaysOnTrack(states, steps, n, i);
    ShapeIsKept(states, steps, n);
  }

  // ---------- An undisturbed reservation is honoured ----------

  /** The step may take hart `i`'s reservation of the line at `line` away. */
  predicate Disturbs(s: State, step: Step, i: nat, line: nat)
    requires Enabled(s, step)
  {
    step.Advance?
    && match s.harts[step.i].pc
       case LrLoaded(a, _, _) => step.i == i || LineBase(a) == line
       case ScLocked(_, _, _) => step.i == i
       case ScWritten(a, w, _) => RangesOverlap(line, LINE_SIZE, a, w)
       case AmoWritten(a, w, _, _) => RangesOverlap(line, LINE_SIZE, a, w)
       case StLocked(a, bytes) => RangesOverlap(line, LINE_SIZE, a, |bytes|)
       case _ => false
  }

  lemma UndisturbedSlotStays(s: State, step: Step, i: nat, a: nat, w: nat)
    requires Enabled(s, step) && i < HART_COUNT && s.slots[i] == Slot(true, w, a) && !Disturbs(s, step, i, LineBase(a))
    ensures Apply(s, step).slots[i] == Slot(true, w, a)
  {
    hide Effect, Combine;
  }

  lemma {:induction false} UndisturbedReservationStays(
    states: seq<State>, steps: seq<Step>, m: nat, n: nat, i: nat, a: nat, w: nat, word: seq<Byte>)
    requires Run(states, steps) && m < n < |states| && i < HART_COUNT && steps[m] == Advance(i)
    requires i < |states[m].harts| && states[m].harts[i].pc == LrLoaded(a, w, word)
    requires forall k :: m < k < n ==> !Disturbs(states[k], steps[k], i, LineBase(a))
    ensures states[n].slots[i] == Slot(true, w, a)
    decreases n
  {
    if m + 1 < n {
      UndisturbedReservationStays(states, steps, m, n - 1, i, a, w, word);
      UndisturbedSlotStays(states[n - 1], steps[n - 1], i, a, w);
    }
  }

  /**
   * In every run, an SC to the address and width of its hart's LR succeeds if since that LR no one wrote to
   * its line or reserved it and the hart made no other LR or SC.
   */
  lemma UndisturbedScSucceeds(
      states: seq<State>, steps: seq<Step>, m: nat, n: nat, i: nat, a: nat, w: nat, word: seq<Byte>, x: Xlen)
    requires Run(states, steps) && m < n < |steps| && i < HART_COUNT && steps[m] == Advance(i) && steps[n] == Advance(i)
    requires i < |states[m].harts| && states[m].harts[i].pc == LrLoaded(a, w, word)
    requires i < |states[n].harts| && states[n].harts[i].pc == ScLocked(a, w, x)
    requires forall k :: m < k < n ==> !Disturbs(states[k], steps[k], i, LineBase(a))
    ensures i < |states[n + 1].harts| && states[n + 1].harts[i].pc == ScTaken(a, w, x)
  {
    UndisturbedReservationStays(states, steps, m, n, i, a, w, word);
  }
}
