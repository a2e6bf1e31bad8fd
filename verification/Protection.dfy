/**
 * Which mode a memory access is checked in, and what physical memory protection then guarantees over
 * the runs of a hart (`src/emulator/cpu/pmp.ts`, `src/emulator/cpu/trap.ts`).
 */
module Protection {
  import opened Csr
  import Pmp
  import Trap

  /** `accessIsMachine`: MPRV lends the mode in MPP to loads, stores and AMOs, never to fetches. */
  predicate AccessIsMachine(h: Hart, access: Pmp.Access)
    requires Shaped(h)
  {
    if access != Pmp.Fetch && MprvSet(h.csr[MSTATUS]) then h.csr[MSTATUS] & MSTATUS_MPP == MSTATUS_MPP
        else h.privilege == MACHINE
  }

  predicate Permitted(h: Hart, start: nat, length: nat, access: Pmp.Access)
    requires Shaped(h)
  {
    Pmp.Allowed(h.pmp, start, length, access, AccessIsMachine(h, access))
  }

  /** The mode whose rights an access has. */
  function EffectiveMode(h: Hart, access: Pmp.Access): (mode: nat)
    requires Shaped(h)
  {
    if access.Fetch? || !MprvSet(h.csr[MSTATUS]) then h.privilege else Trap.PrivilegeFromMpp(h.csr[MSTATUS])
  }

  lemma MachineInMpp(mstatus: bv64)
    ensures Trap.PrivilegeFromMpp(mstatus) == MACHINE <==> mstatus & MSTATUS_MPP == MSTATUS_MPP
  {
  }

  /**
   * In a lawful hart the check asks whether the effective mode is machine mode, and lends rights in machine
   * mode only: no lower mode is ever checked as M.
   */
  lemma EffectiveModeIsLent(h: Hart, access: Pmp.Access)
    requires Lawful(h)
    ensures AccessIsMachine(h, access) <==> EffectiveMode(h, access) == MACHINE
    ensures EffectiveMode(h, access) <= h.privilege
    ensures (h.privilege != MACHINE ==> EffectiveMode(h, access) == h.privilege)
    ensures h.privilege != MACHINE ==> !AccessIsMachine(h, access)
  {
    assert MprvSet(h.csr[MSTATUS]) ==> h.privilege == MACHINE;
    LawfulIsShaped(h);
    MachineInMpp(h.csr[MSTATUS]);
    hide Lawful, MprvSet;
  }

  /** The entry that lets an access through for every mode. */
  predicate GrantedBy(e: Pmp.Entries, i: nat, start: nat, length: nat, access: Pmp.Access)
    requires Pmp.Shaped(e) && i < Pmp.ENTRY_COUNT
  {
    && Pmp.NoneBelow(e, i, start, length) && Pmp.Matches(e, i, start, length)
    && Pmp.Covers(Pmp.EntryRange(e, i).value, start, length) && Pmp.Grants(e.cfg[i], access)
  }

  /**
   * In every run, an access below machine mode passes if and only if the first entry it meets covers it and
   * grants it.
   */
  lemma LowerModesNeedAGrant(
    states: seq<Hart>, steps: seq<Trap.Step>, n: nat, start: nat, length: nat, access: Pmp.Access)
    requires Trap.Run(states, steps) && n < |states| && states[n].privilege < MACHINE
    ensures Shaped(states[n])
    ensures Permitted(states[n], start, length, access)
            <==> exists i :: 0 <= i < Pmp.ENTRY_COUNT && GrantedBy(states[n].pmp, i, start, length, access)
  {
    hide Lawful, Trap.Run, Pmp.NoneBelow, Pmp.Covers, Pmp.Grants, AccessIsMachine;
    Trap.EveryRunIsLawful(states, steps, n);
    var h := states[n];
    LawfulIsShaped(h);
    EffectiveModeIsLent(h, access);
    if Permitted(h, start, length, access) {
      var i :| 0 <= i < Pmp.ENTRY_COUNT && Pmp.NoneBelow(h.pmp, i, start, length)
          && Pmp.Matches(h.pmp, i, start, length)
               && Pmp.EntryAllows(h.pmp, i, start, length, access, false);
      assert GrantedBy(h.pmp, i, start, length, access);
    }
  }

  /**
   * When entries 0..k are locked, no run of the hart changes the verdict on an access that meets one of
   * them and is checked in the same mode.
   */
  lemma VerdictSurvivesRuns(
    states: seq<Hart>, steps: seq<Trap.Step>, n: nat, k: nat, start: nat, length: nat, access: Pmp.Access)
    requires Trap.Run(states, steps) && n < |states| && k < Pmp.ENTRY_COUNT && Shaped(states[0])
    requires forall j :: 0 <= j <= k ==> Pmp.Locked(states[0].pmp.cfg[j])
    requires exists j :: 0 <= j <= k && Pmp.Matches(states[0].pmp, j, start, length)
    ensures Shaped(states[n])
    ensures AccessIsMachine(states[0], access) == AccessIsMachine(states[n], access) ==>
              Permitted(states[0], start, length, access) == Permitted(states[n], start, length, access)
  {
    hide Trap.Run, Lawful, Pmp.Matches, Pmp.Locked, Pmp.Allowed, AccessIsMachine;
    Trap.RunKeepsLocked(states, steps, n, 0);
    forall j | 0 <= j <= k ensures Pmp.SameEntry(states[0].pmp, states[n].pmp, j) {
      Trap.RunKeepsLocked(states, steps, n, j);
    }
    Pmp.SameVerdict(states[0].pmp, states[n].pmp, k, start, length, access, AccessIsMachine(states[0], access));
  }
}
