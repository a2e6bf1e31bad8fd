/**
 * The published interrupt level word (`src/emulator/irq-level.ts`): every worker that drives a wire
 * stores the wire's byte and then sets or clears its bit of one shared word by a compareExchange loop.
 *
 * The word is the set of its one bits and the wire bytes are the set of the high wires. A run
 * interleaves the single accesses of any number of workers.
 */
module IrqLevel {
  const MSIP: nat := 3
  const STIP: nat := 5
  const MTIP: nat := 7
  const SEIP: nat := 9
  const MEIP: nat := 11

  datatype Drive = Drive(bit: nat, pending: bool)

  function Driven(level: set<nat>, d: Drive): set<nat> { if d.pending then level + {d.bit} else level - {d.bit} }

  function Replay(level: set<nat>, drives: seq<Drive>): set<nat> {
    if drives == [] then level else Driven(Replay(level, drives[..|drives| - 1]), drives[|drives| - 1])
  }

  // ---------- The steps of `setIrqWire` ----------

  datatype Phase =
    | Idle
    | Stored(drive: Drive)                       // the wire byte is written; about to load the word
    | Loaded(drive: Drive, previous: set<nat>)   // about to compareExchange

  datatype State = State(level: set<nat>, wires: set<nat>, workers: seq<Phase>)

  datatype Step = StoreWire(i: nat, drive: Drive) | Load(i: nat) | Exchange(i: nat)

  predicate Enabled(s: State, step: Step) {
    && step.i < |s.workers|
    && match step
       case StoreWire(i, _) => s.workers[i].Idle?
       case Load(i) => s.workers[i].Stored?
       case Exchange(i) => s.workers[i].Loaded?
  }

  /** The step is the exchange that completes its worker's call. */
  predicate Succeeds(s: State, step: Step)
    requires Enabled(s, step)
  {
    step.Exchange? && s.workers[step.i].previous == s.level
  }

  function Apply(s: State, step: Step): State
    requires Enabled(s, step)
  {
    var w := s.workers[step.i];
    match step
    case StoreWire(i, drive) => s.(wires := Driven(s.wires, drive), workers := s.workers[i := Stored(drive)])
    case Load(i) => s.(workers := s.workers[i := Loaded(w.drive, s.level)])
    case Exchange(i) =>
      if w.previous == s.level then s.(level := Driven(w.previous, w.drive), workers := s.workers[i := Idle])
      else s.(workers := s.workers[i := Loaded(w.drive, s.level)])
  }

  ghost predicate Run(states: seq<State>, steps: seq<Step>) {
    && |states| == |steps| + 1
    && states[0].level == states[0].wires && (forall i :: 0 <= i < |states[0].workers| ==> states[0].workers[i] == Idle)
    && forall k :: 0 <= k < |steps| ==> Enabled(states[k], steps[k]) && states[k + 1] == Apply(states[k], steps[k])
  }

  /** The drives completed in the first `n` steps, in order. */
  ghost function Completed(states: seq<State>, steps: seq<Step>, n: nat): seq<Drive>
    requires Run(states, steps) && n <= |steps|
  {
    if n == 0 then []
    else
      Completed(states, steps, n - 1) +
      if Succeeds(states[n - 1], steps[n - 1]) then [states[n - 1].workers[steps[n - 1].i].drive] else []
  }

  /**
   * In every run the word is what the completed drives make of it, each taking effect at once and on its
   * own bit only.
   */
  lemma {:induction false} EveryRunIsReplay(states: seq<State>, steps: seq<Step>, n: nat)
    requires Run(states, steps) && n <= |steps|
    ensures states[n].level == Replay(states[0].level, Completed(states, steps, n))
  {
    if n > 0 {
      EveryRunIsReplay(states, steps, n - 1);
      var s, before := states[n - 1], Completed(states, steps, n - 1);
      if Succeeds(s, steps[n - 1]) {
        var drive := s.workers[steps[n - 1].i].drive;
        assert (before + [drive])[..|before|] == before;
      } else {
        assert before + [] == before;
      }
    }
  }

  /** A bit of a replayed word is what the last drive of that bit said. */
  lemma {:induction false} LastDriveDecides(level: set<nat>, drives: seq<Drive>, k: nat)
    requires k < |drives| && forall j :: k < j < |drives| ==> drives[j].bit != drives[k].bit
    ensures drives[k].bit in Replay(level, drives) <==> drives[k].pending
    decreases |drives|
  {
    if k < |drives| - 1 {
      var rest := drives[..|drives| - 1];
      assert forall j :: k < j < |rest| ==> rest[j].bit != rest[k].bit;
      LastDriveDecides(level, rest, k);
    }
  }

  /** A bit that no drive names stays as it was. */
  lemma {:induction false} UndrivenBitStays(level: set<nat>, drives: seq<Drive>, bit: nat)
    requires forall j :: 0 <= j < |drives| ==> drives[j].bit != bit
    ensures bit in Replay(level, drives) <==> bit in level
  {
    if drives != [] {
      var rest := drives[..|drives| - 1];
      assert forall j :: 0 <= j < |rest| ==> rest[j].bit != bit;
      UndrivenBitStays(level, rest, bit);
    }
  }

  lemma {:induction false} UnchangedWithoutSuccess(states: seq<State>, steps: seq<Step>, m: nat, n: nat)
    requires Run(states, steps) && m <= n < |states| && forall k :: m <= k < n ==> !Succeeds(states[k], steps[k])
    ensures states[m].level == states[n].level
    decreases n
  {
    if m < n {
      UnchangedWithoutSuccess(states, steps, m, n - 1);
    }
  }

  /** An exchange that fails was overtaken: another worker completed a drive after the word was last read. */
  lemma FailureMeansProgress(states: seq<State>, steps: seq<Step>, m: nat, n: nat)
    requires Run(states, steps) && m < n < |steps| && steps[n].Exchange? && !Succeeds(states[n], steps[n])
    requires steps[m].i == steps[n].i && !steps[m].StoreWire? && !Succeeds(states[m], steps[m])
    requires states[n].workers[steps[n].i] == states[m + 1].workers[steps[n].i]
    ensures exists k :: m < k < n && Succeeds(states[k], steps[k])
  {
    assert states[m + 1].workers[steps[m].i].previous == states[m + 1].level;
    if forall k :: m + 1 <= k < n ==> !Succeeds(states[k], steps[k]) {
      UnchangedWithoutSuccess(states, steps, m + 1, n);
      assert false;
    }
  }

  // ---------- Wires and bits agree ----------

  predicate IsDriving(w: Phase, bit: nat) { !w.Idle? && w.drive.bit == bit }

  ghost predicate Busy(s: State, bit: nat) { exists i :: 0 <= i < |s.workers| && IsDriving(s.workers[i], bit) }

  /** The wire and the published bit are the same. */
  predicate Published(s: State, bit: nat) { bit in s.wires <==> bit in s.level }

  /** No two workers drive one bit at the same time. */
  ghost predicate OneDriverPerBit(s: State) {
    forall i, j :: 0 <= i < j < |s.workers| && !s.workers[i].Idle? && !s.workers[j].Idle? ==>
        s.workers[i].drive.bit != s.workers[j].drive.bit
  }

  /** The wire is what its driver wants, and without a driver it is published. */
  ghost predicate Agrees(s: State, bit: nat) {
    && (forall i :: 0 <= i < |s.workers| && IsDriving(s.workers[i], bit) ==>
         (bit in s.wires <==> s.workers[i].drive.pending))
    && (!Busy(s, bit) ==> Published(s, bit))
  }

  lemma StepKeepsAgreement(s: State, step: Step, bit: nat)
    requires Enabled(s, step) && Agrees(s, bit) && OneDriverPerBit(s) && OneDriverPerBit(Apply(s, step))
    ensures Agrees(Apply(s, step), bit)
  {
    var t := Apply(s, step);
    assert forall j :: 0 <= j < |s.workers| && j != step.i ==> t.workers[j] == s.workers[j];
    forall j | 0 <= j < |t.workers| && IsDriving(t.workers[j], bit)
      ensures bit in t.wires <==> t.workers[j].drive.pending
    {
      assert step.StoreWire? ==> t.workers[step.i] == Stored(step.drive);
    }
    if !Busy(t, bit) {
      if Busy(s, bit) {
        var i :| 0 <= i < |s.workers| && IsDriving(s.workers[i], bit);
        assert !IsDriving(t.workers[i], bit);
        assert i == step.i && Succeeds(s, step);
      } else {
        assert !IsDriving(t.workers[step.i], bit);
        assert !IsDriving(s.workers[step.i], bit);
      }
    }
  }

  /** When no two workers drive one bit at a time, every bit that nobody is driving shows its wire. */
  lemma WiresArePublished(states: seq<State>, steps: seq<Step>, n: nat, bit: nat)
    requires Run(states, steps) && n < |states| && !Busy(states[n], bit)
    requires forall k :: 0 <= k <= n ==> OneDriverPerBit(states[k])
    ensures Published(states[n], bit)
  {
    AgreementIsKept(states, steps, n, bit);
  }

  lemma {:induction false} AgreementIsKept(states: seq<State>, steps: seq<Step>, n: nat, bit: nat)
    requires Run(states, steps) && n < |states| && forall k :: 0 <= k <= n ==> OneDriverPerBit(states[k])
    ensures Agrees(states[n], bit)
  {
    if n > 0 {
      AgreementIsKept(states, steps, n - 1, bit);
      StepKeepsAgreement(states[n - 1], steps[n - 1], bit);
    }
  }

  // ---------- Which workers may share a bit ----------

  /** Worker `i` drives the bits of `owned[i]` only. */
  ghost predicate Respects(states: seq<State>, steps: seq<Step>, owned: seq<set<nat>>) {
    && Run(states, steps) && |states[0].workers| == |owned|
    && forall k :: 0 <= k < |steps| && steps[k].StoreWire? ==>
         steps[k].i < |owned| && steps[k].drive.bit in owned[steps[k].i]
  }

  ghost predicate Disjoint(owned: seq<set<nat>>) { forall i, j :: 0 <= i < j < |owned| ==> owned[i] !! owned[j] }

  ghost predicate AllPublished(s: State) { forall bit: nat :: !Busy(s, bit) ==> Published(s, bit) }

  ghost predicate DrivesOwned(s: State, owned: seq<set<nat>>) {
    |s.workers| == |owned| && forall i :: 0 <= i < |owned| && !s.workers[i].Idle? ==> s.workers[i].drive.bit in owned[i]
  }

  lemma {:induction false} OwnersDriveTheirOwn(states: seq<State>, steps: seq<Step>, owned: seq<set<nat>>, n: nat)
    requires Respects(states, steps, owned) && n < |states|
    ensures DrivesOwned(states[n], owned)
  {
    if n > 0 {
      OwnersDriveTheirOwn(states, steps, owned, n - 1);
    }
  }

  lemma OwnersDoNotMeet(s: State, owned: seq<set<nat>>)
    requires DrivesOwned(s, owned) && Disjoint(owned)
    ensures OneDriverPerBit(s)
  {
    forall i, j | 0 <= i < j < |s.workers| && !s.workers[i].Idle? && !s.workers[j].Idle?
      ensures s.workers[i].drive.bit != s.workers[j].drive.bit
    {
      assert owned[i] !! owned[j];
    }
  }

  /** Two workers that drive one bit: the one that wrote the wire first exchanges last. */
  lemma SharedBitGoesStale(
      owned: seq<set<nat>>, i: nat, j: nat, bit: nat) returns (states: seq<State>, steps: seq<Step>)
    requires i < j < |owned| && bit in owned[i] && bit in owned[j]
    ensures Respects(states, steps, owned) && !AllPublished(states[|steps|])
  {
    var high, low := Drive(bit, true), Drive(bit, false);
    steps := [StoreWire(i, high), StoreWire(j, low), Load(j), Exchange(j), Load(i), Exchange(i)];
    var s0 := State({}, {}, seq(|owned|, _ => Idle));
    var s1 := Apply(s0, steps[0]);
    var s2 := Apply(s1, steps[1]);
    var s3 := Apply(s2, steps[2]);
    var s4 := Apply(s3, steps[3]);
    var s5 := Apply(s4, steps[4]);
    var s6 := Apply(s5, steps[5]);
    states := [s0, s1, s2, s3, s4, s5, s6];
    assert s6.wires == {} && s6.level == {bit};
    assert forall k :: 0 <= k < |owned| ==> s6.workers[k] == Idle;
    assert !Busy(s6, bit) && !Published(s6, bit);
  }

  /**
   * Every run that respects an assignment of bits to workers keeps wires and bits together if and only if
   * no bit has two drivers.
   */
  lemma SharingDecides(owned: seq<set<nat>>)
    ensures (forall states, steps :: Respects(states, steps, owned) ==> AllPublished(states[|steps|]))
            <==> Disjoint(owned)
  {
    if Disjoint(owned) {
      forall states, steps | Respects(states, steps, owned) ensures AllPublished(states[|steps|]) {
        forall k | 0 <= k < |states| ensures OneDriverPerBit(states[k]) {
          OwnersDriveTheirOwn(states, steps, owned, k);
          OwnersDoNotMeet(states[k], owned);
        }
        forall bit: nat | !Busy(states[|steps|], bit) ensures Published(states[|steps|], bit) {
          WiresArePublished(states, steps, |steps|, bit);
        }
      }
    } else {
      var i, j :| 0 <= i < j < |owned| && !(owned[i] !! owned[j]);
      var bit :| bit in owned[i] && bit in owned[j];
      var states, steps := SharedBitGoesStale(owned, i, j, bit);
    }
  }

  // ---------- The loop ----------

  /** The batches of other workers' drives in `others`, one after the other. */
  function Flattened(others: seq<seq<Drive>>): seq<Drive> {
    if others == [] then [] else Flattened(others[..|others| - 1]) + others[|others| - 1]
  }

  lemma {:induction false} ReplayAppends(level: set<nat>, a: seq<Drive>, b: seq<Drive>)
    ensures Replay(level, a + b) == Replay(Replay(level, a), b)
    decreases |b|
  {
    if b == [] {
      assert a + b == a;
    } else {
      ReplayAppends(level, a, b[..|b| - 1]);
      assert (a + b)[..|a + b| - 1] == a + b[..|b| - 1];
    }
  }

  lemma OneMoreBatch(level: set<nat>, others: seq<seq<Drive>>, n: nat)
    requires n < |others|
    ensures Replay(level, Flattened(others[..n + 1])) == Replay(Replay(level, Flattened(others[..n])), others[n])
  {
    assert others[..n + 1][..n] == others[..n];
    ReplayAppends(level, Flattened(others[..n]), others[n]);
  }

  class LevelWord {
    var level: set<nat>
    var wires: set<nat>

    /**
     * `setIrqWire`. The drives of `others[k]` land before the exchange of round `k`; once no more land,
     * the exchange succeeds, and the whole call is one drive of its own bit at that point.
     */
    method SetIrqWire(drive: Drive, others: seq<seq<Drive>>) returns (rounds: nat)
      modifies this
      ensures wires == Driven(old(wires), drive)
      ensures rounds <= |others| && level == Driven(Replay(old(level), Flattened(others[..rounds])), drive)
    {
      wires := Driven(wires, drive);
      var previous := level;
      rounds := 0;
      while true
        invariant rounds <= |others| && wires == Driven(old(wires), drive)
        invariant level == Replay(old(level), Flattened(others[..rounds]))
        decreases |others| - rounds, if level == previous then 0 else 1
      {
        if rounds < |others| {
          OneMoreBatch(old(level), others, rounds);
          level := Replay(level, others[rounds]);
          rounds := rounds + 1;
        }
        var next := Driven(previous, drive);
        var current := level;
        if current == previous {
          level := next;
          return;
        }
        previous := current;
      }
    }
  }
}
