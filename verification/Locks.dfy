/**
 * The two re-entrant worker locks: the reservation monitor (`src/emulator/reservation.ts`) and
 * the PLIC gateway (`src/emulator/plic/gateway.ts`), as one protocol of interleaved steps.
 *
 * A lock is a shared word (0 free, 1 held) plus one private depth per worker. Each step below is
 * one access to a shared word: a compareExchange, an `Atomics.wait` (which compares and parks in
 * one action), a store of 0, or a `notify` of at most one parked worker. What a worker does with
 * the locks is the program of the call it is in; the order of the locks is proved, not assumed.
 */
module Locks {

  datatype Lock = Monitor | Gateway

  // ---------- What the callers do ----------

  /**
   * `Work` reads or writes what the lock protects: the slots and guest memory under the monitor, the PLIC's
   * registers and wires under the gateway. `Keep` is the flag a successful SC check sets, and `GiveKept` is
   * `releaseScMonitorIfHeld`.
   */
  datatype Action = Take(lock: Lock) | Work(lock: Lock) | Give(lock: Lock) | Keep | GiveKept

  /**
   * The calls that touch a lock; the counts and outcomes depend on addresses, memory and slots, and are
   * arbitrary here. A guest store enters the gateway once per PLIC or UART register byte, inside the
   * monitor; a guest load does without it; a device worker drives a PLIC source. An SC finds its
   * reservation valid (`taken`) and its address in RAM (`stored`), or not. An AMO retries its exchange.
   */
  datatype Call =
    | GuestStore(sections: nat)
    | GuestLoad(sections: nat)
    | DeviceLevel
    | LoadReserved
    | StoreConditional(taken: bool, stored: bool)
    | ReadModifyWrite(exchanges: nat)

  /** `withMonitorLock` or `withPlicGatewayLock` around code that takes no lock. */
  function Section(lock: Lock): seq<Action> { [Take(lock), Work(lock), Give(lock)] }

  function Sections(lock: Lock, n: nat): seq<Action> {
    if n == 0 then [] else Section(lock) + Sections(lock, n - 1)
  }

  function Program(call: Call): seq<Action> {
    match call
    case GuestStore(n) =>
      [Take(Monitor), Work(Monitor)] + (Sections(Gateway, n) + [Work(Monitor), Give(Monitor), GiveKept])
    case GuestLoad(n) => Sections(Gateway, n)
    case LoadReserved => Section(Monitor)
    case StoreConditional(taken, stored) =>
      var store := if stored then Section(Monitor) else [];
      var rest := if taken then [Keep] + store + [GiveKept] else [Work(Monitor), Give(Monitor)];
      [Take(Monitor), Work(Monitor)] + rest + [GiveKept]
    case ReadModifyWrite(n) => Sections(Monitor, n)
    case DeviceLevel => Section(Gateway)
  }

  /**
   * From these depths, `todo` never asks for the monitor under the gateway alone, works only on what is held,
   * gives only what is held, and ends with nothing held.
   */
  predicate Safe(todo: seq<Action>, monitor: nat, gateway: nat, kept: bool) {
    if todo == [] then monitor == 0 && gateway == 0 && !kept
    else
      var rest := todo[1..];
      match todo[0]
      case Take(lock) =>
        if lock == Monitor then (monitor > 0 || gateway == 0) && Safe(rest, monitor + 1, gateway, kept)
        else Safe(rest, monitor, gateway + 1, kept)
      case Work(lock) => (if lock == Monitor then monitor > 0 else gateway > 0) && Safe(rest, monitor, gateway, kept)
      case Give(lock) =>
        if lock == Monitor then monitor > 0 && Safe(rest, monitor - 1, gateway, kept)
        else gateway > 0 && Safe(rest, monitor, gateway - 1, kept)
      case Keep => !kept && Safe(rest, monitor, gateway, true)
      case GiveKept => if kept then monitor > 0 && Safe(rest, monitor - 1, gateway, false)
          else Safe(rest, monitor, gateway, kept)
  }

  lemma {:induction false} SectionsAreSafe(
      lock: Lock, n: nat, rest: seq<Action>, monitor: nat, gateway: nat, kept: bool)
    requires Safe(rest, monitor, gateway, kept) && (lock == Monitor ==> monitor > 0 || gateway == 0)
    ensures Safe(Sections(lock, n) + rest, monitor, gateway, kept)
  {
    if n == 0 {
      assert Sections(lock, n) + rest == rest;
    } else {
      var tail := Sections(lock, n - 1) + rest;
      SectionsAreSafe(lock, n - 1, rest, monitor, gateway, kept);
      var all := Sections(lock, n) + rest;
      assert all[0] == Take(lock) && all[1..][0] == Work(lock) && all[1..][1..][0] == Give(lock);
      assert all[1..][1..][1..] == tail;
    }
  }

  /** Every call the source makes takes the monitor before the gateway and returns both. */
  lemma ProgramIsSafe(call: Call)
    ensures Safe(Program(call), 0, 0, false)
  {
    var p := Program(call);
    match call
    case GuestStore(n) =>
      var end := [Work(Monitor), Give(Monitor), GiveKept];
      assert end[1..] == [Give(Monitor), GiveKept] && end[1..][1..] == [GiveKept];
      SectionsAreSafe(Gateway, n, end, 1, 0, false);
      assert p[1..][0] == Work(Monitor) && p[1..][1..] == Sections(Gateway, n) + end;
    case GuestLoad(n) =>
      SectionsAreSafe(Gateway, n, [], 0, 0, false);
      assert Sections(Gateway, n) + [] == p;
    case ReadModifyWrite(n) =>
      SectionsAreSafe(Monitor, n, [], 0, 0, false);
      assert Sections(Monitor, n) + [] == p;
    case LoadReserved =>
      SectionsAreSafe(Monitor, 1, [], 0, 0, false);
      assert Sections(Monitor, 1) == Section(Monitor) + Sections(Monitor, 0) && Sections(Monitor, 1) + [] == p;
    case DeviceLevel =>
      SectionsAreSafe(Gateway, 1, [], 0, 0, false);
      assert Sections(Gateway, 1) == Section(Gateway) + Sections(Gateway, 0) && Sections(Gateway, 1) + [] == p;
    case StoreConditional(taken, stored) =>
      assert Safe([GiveKept], 0, 0, false);
      assert p[1..][0] == Work(Monitor);
      if !taken {
        var end := [Work(Monitor), Give(Monitor), GiveKept];
        assert end[1..] == [Give(Monitor), GiveKept] && end[1..][1..] == [GiveKept];
        assert p[1..][1..] == end;
      } else {
        var end := [GiveKept, GiveKept];
        assert end[1..] == [GiveKept] && Safe(end, 1, 0, true);
        SectionsAreSafe(Monitor, if stored then 1 else 0, end, 1, 0, true);
        assert Sections(Monitor, 1) == Section(Monitor) + Sections(Monitor, 0);
        assert p[1..][1..][0] == Keep && p[1..][1..][1..] == Sections(Monitor, if stored then 1 else 0) + end;
      }
  }

  // ---------- The steps ----------

  /** Where a worker stands inside `acquire` or `release`; `Running` is anywhere else. */
  datatype Phase =
    | Running
    | Contending(lock: Lock)  // about to compareExchange(0, 1)
    | Missed(lock: Lock)      // the exchange saw 1; about to wait
    | Asleep(lock: Lock)      // parked on the word
    | Notifying(lock: Lock)   // stored 0; about to notify

  /** `todo` is what is left of the current call; `kept` is the worker's SC flag. */
  datatype Worker = Worker(phase: Phase, monitor: nat, gateway: nat, kept: bool, todo: seq<Action>) {
    function Depth(lock: Lock): nat {
      match lock
      case Monitor => monitor
      case Gateway => gateway
    }

    function WithDepth(lock: Lock, depth: nat): (w: Worker)
      ensures w.Depth(lock) == depth && w.phase == phase && w.kept == kept && w.todo == todo
      ensures forall other :: other != lock ==> w.Depth(other) == Depth(other)
    {
      match lock
      case Monitor => this.(monitor := depth)
      case Gateway => this.(gateway := depth)
    }

    predicate Holds(lock: Lock) { Depth(lock) > 0 }

    predicate Idle() { phase == Running && todo == [] }

    /** Inside `acquire`, without the lock. */
    predicate Wants(lock: Lock) {
      phase == Contending(lock) || phase == Missed(lock) || phase == Asleep(lock)
    }

    /** Awake and inside `acquire` or `release` of `lock`. */
    predicate Active(lock: Lock) {
      phase == Contending(lock) || phase == Missed(lock) || phase == Notifying(lock)
    }
  }

  datatype State = State(monitorWord: nat, gatewayWord: nat, workers: seq<Worker>) {
    function Word(lock: Lock): nat {
      match lock
      case Monitor => monitorWord
      case Gateway => gatewayWord
    }

    function WithWord(lock: Lock, word: nat): (s: State)
      ensures s.Word(lock) == word && s.workers == workers
      ensures forall other :: other != lock ==> s.Word(other) == Word(other)
    {
      match lock
      case Monitor => this.(monitorWord := word)
      case Gateway => this.(gatewayWord := word)
    }

    function With(i: nat, w: Worker): State
      requires i < |workers|
    {
      this.(workers := workers[i := w])
    }
  }

  datatype Step =
    | Begin(i: nat, call: Call)    // an idle worker makes a call
    | Act(i: nat)                  // the call's next action; a last release includes the store of 0
    | Exchange(i: nat)             // compareExchange(word, 0, 1)
    | Wait(i: nat)                 // Atomics.wait(word, 1)
    | Notify(i: nat, woken: nat)   // notify one worker; `woken` is a parked worker if there is one

  /** When a worker may take a step. */
  ghost predicate Enabled(s: State, step: Step) {
    && step.i < |s.workers|
    && var w := s.workers[step.i];
       match step
       case Begin(_, _) => w.Idle()
       case Act(_) => w.phase == Running && w.todo != []
       case Exchange(_) => w.phase.Contending?
       case Wait(_) => w.phase.Missed?
       case Notify(_, woken) =>
         && w.phase.Notifying?
         && ((exists j :: 0 <= j < |s.workers| && s.workers[j].phase == Asleep(w.phase.lock)) ==>
               woken < |s.workers| && s.workers[woken].phase == Asleep(w.phase.lock))
  }

  /** `acquire`: deeper if held, otherwise on to the exchange. */
  function Acquire(s: State, i: nat, w: Worker, lock: Lock): State
    requires i < |s.workers|
  {
    if w.Holds(lock) then s.With(i, w.WithDepth(lock, w.Depth(lock) + 1)) else s.With(i, w.(phase := Contending(lock)))
  }

  /** `release`: nothing if not held, otherwise one level up, and at level 0 the word is free. */
  function Release(s: State, i: nat, w: Worker, lock: Lock): State
    requires i < |s.workers|
  {
    if !w.Holds(lock) then s.With(i, w)
    else if w.Depth(lock) > 1 then s.With(i, w.WithDepth(lock, w.Depth(lock) - 1))
    else s.WithWord(lock, 0).With(i, w.WithDepth(lock, 0).(phase := Notifying(lock)))
  }

  function AfterAction(s: State, i: nat): State
    requires i < |s.workers| && s.workers[i].todo != []
  {
    var w := s.workers[i].(todo := s.workers[i].todo[1..]);
    match s.workers[i].todo[0]
    case Take(lock) => Acquire(s, i, w, lock)
    case Work(_) => s.With(i, w)
    case Give(lock) => Release(s, i, w, lock)
    case Keep => s.With(i, w.(kept := true))
    case GiveKept => if w.kept then Release(s, i, w.(kept := false), Monitor) else s.With(i, w)
  }

  ghost function Apply(s: State, step: Step): State
    requires Enabled(s, step)
  {
    var i := step.i;
    var w := s.workers[i];
    match step
    case Begin(_, call) => s.With(i, w.(todo := Program(call)))
    case Act(_) => AfterAction(s, i)
    case Exchange(_) =>
      var lock := w.phase.lock;
      if s.Word(lock) == 0 then s.WithWord(lock, 1).With(i, w.WithDepth(lock, 1).(phase := Running))
      else s.With(i, w.(phase := Missed(lock)))
    case Wait(_) =>
      var lock := w.phase.lock;
      s.With(i, w.(phase := if s.Word(lock) == 1 then Asleep(lock) else Contending(lock)))
    case Notify(_, woken) =>
      var lock := w.phase.lock;
      var t := s.With(i, w.(phase := Running));
      if woken < |s.workers| && s.workers[woken].phase == Asleep(lock)
      then t.With(woken, s.workers[woken].(phase := Contending(lock)))
      else t
  }

  ghost predicate Init(s: State) {
    && s.monitorWord == 0 && s.gatewayWord == 0
    && forall i :: 0 <= i < |s.workers| ==> s.workers[i] == Worker(Running, 0, 0, false, [])
  }

  /** A run: states linked by enabled steps, from a state with both locks free. */
  ghost predicate Run(states: seq<State>, steps: seq<Step>) {
    && |states| == |steps| + 1
    && Init(states[0])
    && forall k :: 0 <= k < |steps| ==> Enabled(states[k], steps[k]) && states[k + 1] == Apply(states[k], steps[k])
  }

  ghost predicate SomeoneHolds(s: State, lock: Lock) {
    exists i :: 0 <= i < |s.workers| && s.workers[i].Holds(lock)
  }

  ghost predicate SomeoneSleeps(s: State, lock: Lock) {
    exists i :: 0 <= i < |s.workers| && s.workers[i].phase == Asleep(lock)
  }

  ghost predicate SomeoneActive(s: State, lock: Lock) {
    exists i :: 0 <= i < |s.workers| && s.workers[i].Active(lock)
  }

  /** The word is 1 exactly when somebody holds the lock, and never two workers do. */
  ghost predicate Exclusive(s: State, lock: Lock) {
    && s.Word(lock) == (if SomeoneHolds(s, lock) then 1 else 0)
    && forall i, j :: 0 <= i < |s.workers| && 0 <= j < |s.workers| ==>
                        (s.workers[i].Holds(lock) && s.workers[j].Holds(lock) ==> i == j)
  }

  /** A parked worker will be looked at: the lock is held, or somebody is on the way to it or to notify. */
  ghost predicate NoLostWake(s: State, lock: Lock) {
    SomeoneSleeps(s, lock) ==> s.Word(lock) == 1 || SomeoneActive(s, lock)
  }

  /**
   * A worker inside acquire or release of a lock does not hold it, asks for the monitor only without
   * the gateway, and once it has what it wants the rest of its call is safe.
   */
  predicate Ordered(w: Worker) {
    match w.phase
    case Running => Safe(w.todo, w.monitor, w.gateway, w.kept)
    case Notifying(lock) => !w.Holds(lock) && Safe(w.todo, w.monitor, w.gateway, w.kept)
    case _ =>
      && !w.Holds(w.phase.lock) && (w.phase.lock == Monitor ==> !w.Holds(Gateway))
      && var got := w.WithDepth(w.phase.lock, 1); Safe(got.todo, got.monitor, got.gateway, got.kept)
  }

  ghost predicate Inv(s: State) {
    && (forall lock :: Exclusive(s, lock) && NoLostWake(s, lock))
    && forall i :: 0 <= i < |s.workers| ==> Ordered(s.workers[i])
  }

  /** A step changes no depth but its own worker's. */
  lemma OthersKeepDepth(s: State, step: Step, lock: Lock)
    requires Enabled(s, step)
    ensures |Apply(s, step).workers| == |s.workers|
    ensures forall j :: 0 <= j < |s.workers| && j != step.i ==>
                          Apply(s, step).workers[j].Holds(lock) == s.workers[j].Holds(lock)
  {
  }

  /** What a step does to a lock, seen from its own worker: nothing, take it while free, or give it up. */
  lemma StepOnLock(s: State, step: Step, lock: Lock)
    requires Inv(s) && Enabled(s, step)
    ensures var t := Apply(s, step); var before := s.workers[step.i].Holds(lock);
            var after := t.workers[step.i].Holds(lock);
            || (after == before && t.Word(lock) == s.Word(lock))
            || (!before && after && s.Word(lock) == 0 && t.Word(lock) == 1)
            || (before && !after && t.Word(lock) == 0 && t.workers[step.i].phase == Notifying(lock))
  {
    assert Ordered(s.workers[step.i]);
  }

  lemma ApplyKeepsExclusive(s: State, step: Step, lock: Lock)
    requires Inv(s) && Enabled(s, step)
    ensures Exclusive(Apply(s, step), lock)
  {
    var t := Apply(s, step);
    assert Exclusive(s, lock);
    OthersKeepDepth(s, step, lock);
    StepOnLock(s, step, lock);
    if SomeoneHolds(s, lock) {
      var h :| 0 <= h < |s.workers| && s.workers[h].Holds(lock);
      assert h != step.i ==> t.workers[h].Holds(lock);
    }
    assert t.workers[step.i].Holds(lock) ==> SomeoneHolds(t, lock);
  }

  /** Nobody falls asleep on a lock but the worker whose wait found it held. */
  lemma SleepersAreOld(s: State, step: Step, lock: Lock, z: nat)
    requires Enabled(s, step) && z < |s.workers|
    ensures |Apply(s, step).workers| == |s.workers|
    ensures Apply(s, step).workers[z].phase == Asleep(lock) ==>
              s.workers[z].phase == Asleep(lock) || Apply(s, step).Word(lock) == 1
  {
  }

  lemma OthersStayActive(s: State, step: Step, lock: Lock, a: nat)
    requires Enabled(s, step) && a < |s.workers| && a != step.i && s.workers[a].Active(lock)
    ensures Apply(s, step).workers[a].Active(lock)
  {
  }

  /** A step of an active worker takes the lock, sees it held, stays active, or wakes whoever sleeps. */
  lemma ActiveWorkerPassesOn(s: State, step: Step, lock: Lock)
    requires Enabled(s, step) && s.workers[step.i].Active(lock)
    ensures var t := Apply(s, step);
            t.Word(lock) == 1 || SomeoneActive(t, lock) || forall z :: 0 <= z < |s.workers| ==>
                s.workers[z].phase != Asleep(lock)
  {
    var t := Apply(s, step);
    if step.Notify? && step.woken < |s.workers| && s.workers[step.woken].phase == Asleep(lock) {
      assert t.workers[step.woken].Active(lock);
    } else if !step.Notify? {
      assert t.Word(lock) == 1 || t.workers[step.i].Active(lock);
    }
  }

  lemma ApplyKeepsWake(s: State, step: Step, lock: Lock)
    requires Inv(s) && Enabled(s, step)
    ensures NoLostWake(Apply(s, step), lock)
  {
    var t := Apply(s, step);
    assert NoLostWake(s, lock);
    StepOnLock(s, step, lock);
    hide Inv, Enabled, Apply;
    if SomeoneSleeps(t, lock) && t.Word(lock) != 1 && !SomeoneActive(t, lock) {
      var z :| 0 <= z < |t.workers| && t.workers[z].phase == Asleep(lock);
      OthersKeepDepth(s, step, lock);
      SleepersAreOld(s, step, lock, z);
      if s.workers[step.i].Active(lock) {
        ActiveWorkerPassesOn(s, step, lock);
      } else if SomeoneActive(s, lock) {
        var a :| 0 <= a < |s.workers| && s.workers[a].Active(lock);
        OthersStayActive(s, step, lock, a);
      }
    }
  }

  /** A worker that is not the one stepping stays as it is, or is woken. */
  lemma OthersStand(s: State, step: Step, j: nat)
    requires Enabled(s, step) && j < |s.workers| && j != step.i
    ensures |Apply(s, step).workers| == |s.workers|
    ensures var v, w := s.workers[j], Apply(s, step).workers[j];
            w == v || (step.Notify? && v.phase.Asleep? && w == v.(phase := Contending(v.phase.lock)))
  {
  }

  /** What `Safe` says about the next action. */
  lemma SafeHead(todo: seq<Action>, monitor: nat, gateway: nat, kept: bool)
    requires todo != [] && Safe(todo, monitor, gateway, kept)
    ensures var rest := todo[1..];
            match todo[0]
            case Take(Monitor) => (monitor > 0 || gateway == 0) && Safe(rest, monitor + 1, gateway, kept)
            case Take(Gateway) => Safe(rest, monitor, gateway + 1, kept)
            case Work(_) => Safe(rest, monitor, gateway, kept)
            case Give(Monitor) => monitor > 0 && Safe(rest, monitor - 1, gateway, kept)
            case Give(Gateway) => gateway > 0 && Safe(rest, monitor, gateway - 1, kept)
            case Keep => Safe(rest, monitor, gateway, true)
            case GiveKept =>
              if kept then monitor > 0 && Safe(rest, monitor - 1, gateway, false)
              else Safe(rest, monitor, gateway, false)
  {
  }

  lemma ActionKeepsOrdered(s: State, i: nat)
    requires i < |s.workers| && s.workers[i].phase == Running && s.workers[i].todo != [] && Ordered(s.workers[i])
    ensures |AfterAction(s, i).workers| == |s.workers| && Ordered(AfterAction(s, i).workers[i])
  {
    hide Safe;
    var w := s.workers[i];
    SafeHead(w.todo, w.monitor, w.gateway, w.kept);
  }

  lemma ApplyKeepsOrdered(s: State, step: Step, j: nat)
    requires Enabled(s, step) && j < |s.workers| && (forall i :: 0 <= i < |s.workers| ==> Ordered(s.workers[i]))
    ensures |Apply(s, step).workers| == |s.workers| && Ordered(Apply(s, step).workers[j])
  {
    assert Ordered(s.workers[j]);
    if j != step.i {
      OthersStand(s, step, j);
    } else {
      assert step.Begin? ==> s.workers[j].monitor == 0 && s.workers[j].gateway == 0 && !s.workers[j].kept;
      hide Safe, AfterAction;
      match step
      case Begin(_, call) => ProgramIsSafe(call);
      case Act(_) => ActionKeepsOrdered(s, j);
      case _ =>
    }
  }

  lemma ApplyKeepsInv(s: State, step: Step)
    requires Inv(s) && Enabled(s, step)
    ensures Inv(Apply(s, step))
  {
    var t := Apply(s, step);
    forall lock ensures Exclusive(t, lock) && NoLostWake(t, lock) {
      ApplyKeepsExclusive(s, step, lock);
      ApplyKeepsWake(s, step, lock);
    }
    forall j | 0 <= j < |t.workers| ensures Ordered(t.workers[j]) {
      OthersKeepDepth(s, step, Monitor);
      ApplyKeepsOrdered(s, step, j);
    }
  }

  lemma {:induction false} RunKeepsInv(states: seq<State>, steps: seq<Step>, k: nat)
    requires Run(states, steps) && k < |states|
    ensures Inv(states[k])
  {
    hide Inv, Apply, Enabled;
    if k > 0 {
      RunKeepsInv(states, steps, k - 1);
      ApplyKeepsInv(states[k - 1], steps[k - 1]);
    } else {
      InitIsInv(states[0]);
    }
  }

  lemma InitIsInv(s: State)
    requires Init(s)
    ensures Inv(s)
  {
    assert Safe([], 0, 0, false);
  }

  // ---------- What every run guarantees ----------

  /** In every run the lock word is 1 exactly while one worker has depth above zero. */
  lemma CriticalSectionsExclude(states: seq<State>, steps: seq<Step>, k: nat, lock: Lock)
    requires Run(states, steps) && k < |states|
    ensures states[k].Word(lock) == 1 <==> SomeoneHolds(states[k], lock)
    ensures var w := states[k].workers;
            forall i, j :: 0 <= i < |w| && 0 <= j < |w| && w[i].Holds(lock) && w[j].Holds(lock) ==> i == j
  {
    RunKeepsInv(states, steps, k);
    assert Exclusive(states[k], lock);
  }

  /** In every run, a worker that works on what a lock protects holds the lock, and no other worker does. */
  lemma WorkIsExclusive(states: seq<State>, steps: seq<Step>, k: nat, lock: Lock)
    requires Run(states, steps) && k < |steps| && steps[k].Act?
    requires states[k].workers[steps[k].i].todo[0] == Work(lock)
    ensures var w, i := states[k].workers, steps[k].i;
            w[i].Holds(lock) && forall j :: 0 <= j < |w| && j != i ==> !w[j].Holds(lock)
  {
    RunKeepsInv(states, steps, k);
    assert Ordered(states[k].workers[steps[k].i]);
    assert Exclusive(states[k], lock);
  }

  /** In every run, whoever sleeps on a lock has a holder, a contender or a notifier ahead of it. */
  lemma SleeperIsNeverForgotten(states: seq<State>, steps: seq<Step>, k: nat, lock: Lock)
    requires Run(states, steps) && k < |states| && SomeoneSleeps(states[k], lock)
    ensures SomeoneHolds(states[k], lock) || SomeoneActive(states[k], lock)
  {
    RunKeepsInv(states, steps, k);
    assert Exclusive(states[k], lock) && NoLostWake(states[k], lock);
  }

  /** In every run a worker that is waiting for the monitor does not hold the gateway. */
  lemma MonitorIsTakenFirst(states: seq<State>, steps: seq<Step>, k: nat, i: nat)
    requires Run(states, steps) && k < |states| && i < |states[k].workers| && states[k].workers[i].Wants(Monitor)
    ensures !states[k].workers[i].Holds(Gateway)
  {
    RunKeepsInv(states, steps, k);
    assert Ordered(states[k].workers[i]);
  }

  /** In every run a worker between calls holds neither lock and has no SC flag left. */
  lemma IdleWorkersHoldNothing(states: seq<State>, steps: seq<Step>, k: nat, i: nat)
    requires Run(states, steps) && k < |states| && i < |states[k].workers| && states[k].workers[i].Idle()
    ensures var w := states[k].workers[i]; !w.Holds(Monitor) && !w.Holds(Gateway) && !w.kept
  {
    RunKeepsInv(states, steps, k);
    assert Ordered(states[k].workers[i]);
  }

  /** `i` sleeps on a lock that `j` holds. */
  ghost predicate WaitsFor(s: State, i: nat, j: nat) {
    i < |s.workers| && j < |s.workers| && s.workers[i].phase.Asleep? && s.workers[j].Holds(s.workers[i].phase.lock)
  }

  /** A chain of workers, each asleep on a lock the next one holds. */
  ghost predicate WaitChain(s: State, chain: seq<nat>) {
    forall k :: 0 <= k < |chain| - 1 ==> WaitsFor(s, chain[k], chain[k + 1])
  }

  /** No wait cycle in any run: a chain of sleepers has at most two links, monitor then gateway. */
  lemma WaitChainsAreShort(states: seq<State>, steps: seq<Step>, k: nat, chain: seq<nat>)
    requires Run(states, steps) && k < |states| && WaitChain(states[k], chain)
    ensures |chain| <= 3
    ensures |chain| == 3 ==>
              && WaitsFor(states[k], chain[0], chain[1]) && WaitsFor(states[k], chain[1], chain[2])
              && states[k].workers[chain[0]].phase == Asleep(Monitor)
              && states[k].workers[chain[1]].phase == Asleep(Gateway)
              && !states[k].workers[chain[2]].phase.Asleep?
  {
    RunKeepsInv(states, steps, k);
    var s := states[k];
    assert forall i :: 0 <= i < |chain| - 1 ==> WaitsFor(s, chain[i], chain[i + 1]);
    hide Safe, Run;
    if |chain| >= 3 {
      assert WaitsFor(s, chain[0], chain[1]) && WaitsFor(s, chain[1], chain[2]);
      assert Ordered(s.workers[chain[1]]) && Ordered(s.workers[chain[2]]);
      assert s.workers[chain[1]].phase == Asleep(Gateway);
      assert |chain| > 3 ==> WaitsFor(s, chain[2], chain[3]);
    }
  }

  // ---------- Every call finishes ----------

  /** A step other than a new call can be taken. */
  ghost predicate CanMove(s: State) { exists step :: Enabled(s, step) && !step.Begin? }

  lemma AwakeCanMove(s: State, i: nat)
    requires i < |s.workers| && !s.workers[i].Idle() && !s.workers[i].phase.Asleep?
    ensures CanMove(s)
  {
    match s.workers[i].phase
    case Running => assert Enabled(s, Act(i));
    case Contending(_) => assert Enabled(s, Exchange(i));
    case Missed(_) => assert Enabled(s, Wait(i));
    case Notifying(lock) =>
      if exists j :: 0 <= j < |s.workers| && s.workers[j].phase == Asleep(lock) {
        var j :| 0 <= j < |s.workers| && s.workers[j].phase == Asleep(lock);
        assert Enabled(s, Notify(i, j));
      } else {
        assert Enabled(s, Notify(i, 0));
      }
  }

  /** Behind a sleeper stands an awake worker, directly or behind a holder that sleeps on the gateway. */
  lemma {:induction false} SleeperCanBeHelped(s: State, lock: Lock)
    requires Inv(s) && SomeoneSleeps(s, lock)
    ensures CanMove(s)
    decreases if lock == Monitor then 1 else 0
  {
    assert Exclusive(s, lock) && NoLostWake(s, lock);
    hide Enabled, CanMove;
    if SomeoneActive(s, lock) {
      var a :| 0 <= a < |s.workers| && s.workers[a].Active(lock);
      AwakeCanMove(s, a);
    } else {
      var h :| 0 <= h < |s.workers| && s.workers[h].Holds(lock);
      assert Ordered(s.workers[h]);
      if s.workers[h].phase.Asleep? {
        SleeperCanBeHelped(s, Gateway);
      } else {
        AwakeCanMove(s, h);
      }
    }
  }

  /** No deadlock in any run: while any call is unfinished, some worker inside a call can take its next step. */
  lemma SomeoneCanAlwaysMove(states: seq<State>, steps: seq<Step>, k: nat, i: nat)
    requires Run(states, steps) && k < |states| && i < |states[k].workers| && !states[k].workers[i].Idle()
    ensures CanMove(states[k])
  {
    var s := states[k];
    hide Enabled, CanMove;
    if s.workers[i].phase.Asleep? {
      RunKeepsInv(states, steps, k);
      SleeperCanBeHelped(s, s.workers[i].phase.lock);
    } else {
      AwakeCanMove(s, i);
    }
  }

  /** What is left of a worker's call; an unanswered request counts as half an action. */
  function Left(
      w: Worker): nat { 2 * |w.todo| + if w.phase.Contending? || w.phase.Missed? || w.phase.Asleep? then 1 else 0 }

  /** How many steps a worker can take before its call gets on, while the words stay as they are. */
  function Rank(s: State, w: Worker): (rank: nat)
    ensures rank <= 3
  {
    match w.phase
    case Running => 0
    case Contending(_) => 2
    case Missed(lock) => if s.Word(lock) == 1 then 1 else 3
    case Asleep(_) => 0
    case Notifying(_) => 3
  }

  function TotalLeft(
      workers: seq<Worker>): nat { if workers == [] then 0 else Left(workers[0]) + TotalLeft(workers[1..]) }

  function TotalRank(s: State, workers: seq<Worker>): (rank: nat)
    ensures rank <= 3 * |workers|
  {
    if workers == [] then 0 else Rank(s, workers[0]) + TotalRank(s, workers[1..])
  }

  function Measure(s: State): nat { (3 * |s.workers| + 1) * TotalLeft(s.workers) + TotalRank(s, s.workers) }

  lemma {:induction false} TotalLeftOfUpdate(workers: seq<Worker>, i: nat, w: Worker)
    requires i < |workers|
    ensures TotalLeft(workers[i := w]) == TotalLeft(workers) - Left(workers[i]) + Left(w)
  {
    if i == 0 {
      assert workers[0 := w][1..] == workers[1..];
    } else {
      assert workers[i := w][1..] == workers[1..][i - 1 := w];
      TotalLeftOfUpdate(workers[1..], i - 1, w);
    }
  }

  lemma {:induction false} TotalRankOfUpdate(s: State, workers: seq<Worker>, i: nat, w: Worker)
    requires i < |workers|
    ensures TotalRank(s, workers[i := w]) == TotalRank(s, workers) - Rank(s, workers[i]) + Rank(s, w)
  {
    if i == 0 {
      assert workers[0 := w][1..] == workers[1..];
    } else {
      assert workers[i := w][1..] == workers[1..][i - 1 := w];
      TotalRankOfUpdate(s, workers[1..], i - 1, w);
    }
  }

  lemma {:induction false} RankReadsWords(s: State, t: State, workers: seq<Worker>)
    requires s.monitorWord == t.monitorWord && s.gatewayWord == t.gatewayWord
    ensures TotalRank(s, workers) == TotalRank(t, workers)
  {
    if workers != [] {
      assert forall lock :: s.Word(lock) == t.Word(lock);
      RankReadsWords(s, t, workers[1..]);
    }
  }

  lemma Distributes(a: nat, b: nat, c: nat)
    ensures a * (b + c) == a * b + a * c
  {
  }

  lemma LeftDecides(weight: nat, left: nat, less: nat, rank: nat, most: nat)
    requires less < left && most < weight
    ensures weight * less + most < weight * left + rank
  {
    Distributes(weight, less + 1, left - less - 1);
    Distributes(weight, less, 1);
    assert weight * (left - less - 1) >= 0;
  }

  lemma ActionUsesOne(s: State, i: nat)
    requires i < |s.workers| && s.workers[i].phase == Running && s.workers[i].todo != []
    ensures |AfterAction(s, i).workers| == |s.workers| && TotalLeft(AfterAction(s, i).workers) < TotalLeft(s.workers)
  {
    var t := AfterAction(s, i);
    assert t.workers == s.workers[i := t.workers[i]];
    TotalLeftOfUpdate(s.workers, i, t.workers[i]);
  }

  lemma ExchangeCounts(s: State, step: Step)
    requires Inv(s) && Enabled(s, step) && step.Exchange?
    ensures Measure(Apply(s, step)) < Measure(s)
  {
    var t, i := Apply(s, step), step.i;
    var lock := s.workers[i].phase.lock;
    assert Exclusive(s, lock);
    assert t.workers == s.workers[i := t.workers[i]];
    TotalLeftOfUpdate(s.workers, i, t.workers[i]);
    if s.Word(lock) == 0 {
      LeftDecides(3 * |s.workers| + 1, TotalLeft(s.workers), TotalLeft(t.workers), TotalRank(s, s.workers),
          TotalRank(t, t.workers));
    } else {
      RankReadsWords(s, t, t.workers);
      TotalRankOfUpdate(s, s.workers, i, t.workers[i]);
    }
  }

  lemma WaitCounts(s: State, step: Step)
    requires Enabled(s, step) && step.Wait?
    ensures Measure(Apply(s, step)) < Measure(s)
  {
    var t, i := Apply(s, step), step.i;
    assert t.workers == s.workers[i := t.workers[i]];
    TotalLeftOfUpdate(s.workers, i, t.workers[i]);
    RankReadsWords(s, t, t.workers);
    TotalRankOfUpdate(s, s.workers, i, t.workers[i]);
  }

  lemma NotifyCounts(s: State, step: Step)
    requires Enabled(s, step) && step.Notify?
    ensures Measure(Apply(s, step)) < Measure(s)
  {
    var t, i, j := Apply(s, step), step.i, step.woken;
    var lock := s.workers[i].phase.lock;
    var stopped := s.workers[i := s.workers[i].(phase := Running)];
    TotalLeftOfUpdate(s.workers, i, stopped[i]);
    TotalRankOfUpdate(s, s.workers, i, stopped[i]);
    if j < |s.workers| && s.workers[j].phase == Asleep(lock) {
      TotalLeftOfUpdate(stopped, j, t.workers[j]);
      TotalRankOfUpdate(s, stopped, j, t.workers[j]);
    }
    RankReadsWords(s, t, t.workers);
  }

  lemma StepCounts(s: State, step: Step)
    requires Inv(s) && Enabled(s, step) && !step.Begin?
    ensures Measure(Apply(s, step)) < Measure(s)
  {
    match step
    case Act(i) =>
      var t := AfterAction(s, i);
      ActionUsesOne(s, i);
      LeftDecides(3 * |s.workers| + 1, TotalLeft(s.workers), TotalLeft(t.workers), TotalRank(s, s.workers),
          TotalRank(t, t.workers));
    case Exchange(_) => ExchangeCounts(s, step);
    case Wait(_) => WaitCounts(s, step);
    case Notify(_, _) => NotifyCounts(s, step);
  }

  lemma {:induction false} StepsAreCounted(states: seq<State>, steps: seq<Step>, k: nat, n: nat)
    requires Run(states, steps) && k <= n < |states| && forall j :: k <= j < n ==> !steps[j].Begin?
    ensures n - k + Measure(states[n]) <= Measure(states[k])
    decreases n
  {
    hide Inv, Apply, Enabled, Measure;
    if k < n {
      StepsAreCounted(states, steps, k, n - 1);
      RunKeepsInv(states, steps, n - 1);
      StepCounts(states[n - 1], steps[n - 1]);
    }
  }

  /**
   * Every call finishes, under any scheduler: from any state of a run only boundedly many steps can follow
   * without a new call, and when none is left to take every worker is idle and both locks are free.
   */
  lemma EveryCallFinishes(states: seq<State>, steps: seq<Step>, k: nat, n: nat)
    requires Run(states, steps) && k <= n < |states| && forall j :: k <= j < n ==> !steps[j].Begin?
    ensures n - k <= Measure(states[k])
    ensures CanMove(states[n]) || (states[n].monitorWord == 0 && states[n].gatewayWord == 0
                                   && forall i :: 0 <= i < |states[n].workers| ==> states[n].workers[i].Idle())
  {
    hide Inv, Enabled, CanMove, Measure, Apply;
    StepsAreCounted(states, steps, k, n);
    var s := states[n];
    if !CanMove(s) {
      forall i | 0 <= i < |s.workers|
        ensures s.workers[i].Idle() && !s.workers[i].Holds(Monitor) && !s.workers[i].Holds(Gateway)
      {
        if !s.workers[i].Idle() {
          SomeoneCanAlwaysMove(states, steps, n, i);
        }
        IdleWorkersHoldNothing(states, steps, n, i);
      }
      RunKeepsInv(states, steps, n);
      FreeWords(s);
    }
  }

  lemma FreeWords(s: State)
    requires Inv(s) && forall i :: 0 <= i < |s.workers| ==> !s.workers[i].Holds(Monitor) && !s.workers[i].Holds(Gateway)
    ensures s.monitorWord == 0 && s.gatewayWord == 0
  {
    assert Exclusive(s, Monitor) && Exclusive(s, Gateway);
  }
}
