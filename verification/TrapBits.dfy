/**
 * Traps, returns and interrupts in the register numbers, bit positions and codes of the RISC-V Privileged
 * Architecture 20211203 (sections 3.1.6, 3.1.8, 3.1.9 and 3.1.14). `Trap` names these things; here each
 * operation is characterised without the names, so that no two of them can be exchanged.
 */
module TrapBits {
  import opened Csr
  import opened Trap
  import Pmp

  // ---------- Interrupts ----------

  /** mip as a read shows it. */
  function PendingBits(h: Hart): bv64
    requires Shaped(h)
  {
    if h.plicSeip then h.csr[0x344] | 0x200 else h.csr[0x344]
  }

  /**
   * The interrupt at `bit` is pending, enabled, and open in the current mode: delegated ones below M, the
   * others unless M has MIE clear.
   */
  predicate Ready(h: Hart, bit: bv64)
    requires Shaped(h)
  {
    && PendingBits(h) & h.csr[0x304] & bit != 0
    && if h.csr[0x303] & bit != 0 then h.privilege == 0 || (h.privilege == 1 && h.csr[0x300] & 0x2 != 0)
       else h.privilege == 0 || h.privilege == 1 || h.csr[0x300] & 0x8 != 0
  }

  /** The trap for the interrupt at `bit`, to S exactly when it is delegated. */
  function Entered(h: Hart, bit: bv64, code: bv64): (Hart, bool)
    requires Shaped(h)
  {
    if h.csr[0x303] & bit != 0 then (EnterSupervisor(h, 0x8000_0000_0000_0000 | code, 0), true)
    else (EnterMachine(h, 0x8000_0000_0000_0000 | code, 0), true)
  }

  lemma BitInBoth(a: bv64, b: bv64, bit: bv64)
    requires bit == 0x800 || bit == 0x8 || bit == 0x80 || bit == 0x200 || bit == 0x2 || bit == 0x20
    ensures a & b & bit != 0 <==> Has(a, bit) && Has(b, bit)
  {
  }

  lemma IsTakeable(h: Hart, code: nat, bit: bv64)
    requires Shaped(h) && IsPrivilege(h.privilege) && code < 16 && Bit(code) == bit
    requires bit == 0x800 || bit == 0x8 || bit == 0x80 || bit == 0x200 || bit == 0x2 || bit == 0x20
    ensures Takeable(h, code) <==> Ready(h, bit)
    ensures Delegated(h, code) <==> h.csr[0x303] & bit != 0
  {
    BitInBoth(PendingBits(h), h.csr[0x304], bit);
    hide Bit;
  }

  lemma CodesAndBits()
    ensures Bit(11) == 0x800 && Bit(3) == 0x8 && Bit(7) == 0x80 && Bit(9) == 0x200 && Bit(1) == 0x2 && Bit(5) == 0x20
    ensures InterruptCause(11) == 0x8000_0000_0000_0000 | 11 && InterruptCause(3) == 0x8000_0000_0000_0000 | 3
    ensures InterruptCause(7) == 0x8000_0000_0000_0000 | 7 && InterruptCause(9) == 0x8000_0000_0000_0000 | 9
    ensures InterruptCause(1) == 0x8000_0000_0000_0000 | 1 && InterruptCause(5) == 0x8000_0000_0000_0000 | 5
  {
  }

  /**
   * MEI, MSI, MTI, SEI, SSI, STI: the first that is ready is taken, with its code as the cause, and if none
   * is the hart does not change.
   */
  lemma InterruptsInOrder(h: Hart)
    requires Lawful(h) && Shaped(h)
    ensures TakeInterrupt(h)
            == if Ready(h, 0x800) then Entered(h, 0x800, 11)
               else if Ready(h, 0x8) then Entered(h, 0x8, 3)
               else if Ready(h, 0x80) then Entered(h, 0x80, 7)
               else if Ready(h, 0x200) then Entered(h, 0x200, 9)
               else if Ready(h, 0x2) then Entered(h, 0x2, 1)
               else if Ready(h, 0x20) then Entered(h, 0x20, 5)
               else (h, false)
  {
    assert IsPrivilege(h.privilege);
    CodesAndBits();
    hide Lawful, Ready, Takeable, Delegated, InterruptCause, Bit, EnterMachine, EnterSupervisor;
    IsTakeable(h, 11, 0x800);
    IsTakeable(h, 3, 0x8);
    IsTakeable(h, 7, 0x80);
    IsTakeable(h, 9, 0x200);
    IsTakeable(h, 1, 0x2);
    IsTakeable(h, 5, 0x20);
    assert SelectFrom(h, 6) == 0;
    assert SelectFrom(h, 5) == if Takeable(h, 5) then 5 else 0;
    assert SelectFrom(h, 4) == if Takeable(h, 1) then 1 else SelectFrom(h, 5);
    assert SelectFrom(h, 3) == if Takeable(h, 9) then 9 else SelectFrom(h, 4);
    assert SelectFrom(h, 2) == if Takeable(h, 7) then 7 else SelectFrom(h, 3);
    assert SelectFrom(h, 1) == if Takeable(h, 3) then 3 else SelectFrom(h, 2);
    assert SelectFrom(h, 0) == if Takeable(h, 11) then 11 else SelectFrom(h, 1);
    hide SelectFrom;
  }

  lemma NothingReady(pending: bv64, mie: bv64, bit: bv64)
    requires pending & mie == 0
    ensures pending & mie & bit == 0
  {
  }

  /** Without an interrupt that is both pending and enabled the hart goes on as it is. */
  lemma DisabledInterruptsAreNotTaken(h: Hart)
    requires Lawful(h) && Shaped(h) && PendingBits(h) & h.csr[0x304] == 0
    ensures TakeInterrupt(h) == (h, false)
  {
    InterruptsInOrder(h);
    hide Lawful, TakeInterrupt, Entered;
    var p, e := PendingBits(h), h.csr[0x304];
    NothingReady(p, e, 0x800);
    NothingReady(p, e, 0x8);
    NothingReady(p, e, 0x80);
    NothingReady(p, e, 0x200);
    NothingReady(p, e, 0x2);
    NothingReady(p, e, 0x20);
  }

  // ---------- Exceptions ----------

  /** Bit `n` of `v`. */
  predicate IsSet(v: bv64, n: nat) { if n == 0 then v & 1 != 0 else IsSet(v >> 1, n - 1) }

  lemma {:induction false} BitIsSet(v: bv64, code: nat)
    requires code < 16
    ensures Has(v, Bit(code)) <==> IsSet(v, code)
  {
    if code > 0 {
      assert Has(v, Bit(code)) <==> Has(v >> 1, Bit(code - 1)) by { BitMoves(v, code); }
      BitIsSet(v >> 1, code - 1);
    }
  }

  lemma BitMoves(v: bv64, code: nat)
    requires 0 < code < 16
    ensures Has(v, Bit(code)) <==> Has(v >> 1, Bit(code - 1))
  {
  }

  /** An exception's cause is its code. */
  lemma CausesAreCodes()
    ensures Number(0) == 0 && Number(1) == 1 && Number(2) == 2 && Number(3) == 3 && Number(4) == 4 && Number(5) == 5
    ensures Number(6) == 6 && Number(7) == 7 && Number(8) == 8 && Number(9) == 9 && Number(10) == 10 && Number(11) == 11
    ensures Number(12) == 12 && Number(13) == 13 && Number(14) == 14 && Number(15) == 15
  {
  }

  /** An exception goes to S exactly from below M and if medeleg has the bit of its code. */
  lemma ExceptionsAreDelegated(h: Hart, code: nat, tval: bv64)
    requires Lawful(h) && Shaped(h) && code < 16
    ensures EnterTrap(h, code, tval)
            == if (h.privilege == 0 || h.privilege == 1)
                && IsSet(h.csr[0x302], code) then EnterSupervisor(h, Number(code), tval)
               else EnterMachine(h, Number(code), tval)
  {
    assert IsPrivilege(h.privilege);
    hide Lawful, EnterSupervisor, EnterMachine, Number, Bit, Has;
    BitIsSet(h.csr[0x302], code);
  }

  // ---------- The status stacks ----------

  /** The encoding of a mode in MPP. */
  function MppOf(mode: nat): bv64 { if mode == 3 then 0x1800 else if mode == 1 then 0x800 else 0 }

  /** Outside the masks of MPP, MPIE and MIE; of SPP, SPIE and SIE; and of those and MPRV. */
  const NOT_MACHINE: bv64 := 0xffff_ffff_ffff_e777
  const NOT_SUPERVISOR: bv64 := 0xffff_ffff_ffff_fedd
  const NOT_MACHINE_MPRV: bv64 := 0xffff_ffff_fffd_e777
  const NOT_SUPERVISOR_MPRV: bv64 := 0xffff_ffff_fffd_fedd

  /** On a trap to M: MIE clears, MPIE is the old MIE, MPP the old mode, and nothing else changes. */
  predicate PushedMachine(v: bv64, mode: nat, after: bv64) {
    && !Has(after, 0x8) && (Has(after, 0x80) <==> Has(v, 0x8)) && Masked(after, 0x1800) == MppOf(mode)
    && Masked(after, NOT_MACHINE) == Masked(v, NOT_MACHINE)
  }

  /** On a trap to S: SIE clears, SPIE is the old SIE, SPP says whether the old mode was S. */
  predicate PushedSupervisor(v: bv64, mode: nat, after: bv64) {
    && !Has(after, 0x2) && (Has(after, 0x20) <==> Has(v, 0x2)) && (Has(after, 0x100) <==> mode == 1)
    && Masked(after, NOT_SUPERVISOR) == Masked(v, NOT_SUPERVISOR)
  }

  /** On `mret`: MIE is the old MPIE, MPIE sets, MPP becomes U, and MPRV clears unless MPP was M. */
  predicate PoppedMachine(v: bv64, after: bv64) {
    && (Has(after, 0x8) <==> Has(v, 0x80)) && Has(after, 0x80) && !Has(after, 0x1800)
    && (Has(after, 0x2_0000) <==> Has(v, 0x2_0000) && Masked(v, 0x1800) == 0x1800)
    && Masked(after, NOT_MACHINE_MPRV) == Masked(v, NOT_MACHINE_MPRV)
  }

  /** On `sret`: SIE is the old SPIE, SPIE sets, SPP becomes U and MPRV clears. */
  predicate PoppedSupervisor(v: bv64, after: bv64) {
    && (Has(after, 0x2) <==> Has(v, 0x20)) && Has(after, 0x20) && !Has(after, 0x100) && !Has(after, 0x2_0000)
    && Masked(after, NOT_SUPERVISOR_MPRV) == Masked(v, NOT_SUPERVISOR_MPRV)
  }

  /** MPP is not the reserved encoding and both widths are 64 bits. */
  predicate WidthsAre64(v: bv64) { v & 0x1800 != 0x1000 && v & 0xf_0000_0000 == 0xa_0000_0000 }

  /** Legal values are not legalised further. */
  lemma LegalStays(v: bv64)
    requires WidthsAre64(v)
    ensures LegalMstatus(v) == v
  {
    MstatusFixed(v);
    hide LegalMstatus;
  }

  lemma KeepsOutside(v: bv64, mask: bv64, value: bool, rest: bv64)
    requires mask & rest == 0
    ensures Masked(Assigned(v, mask, value), rest) == Masked(v, rest)
  {
    AssignedKeepsOthers(v, mask, value, rest);
    hide Assigned;
  }

  lemma WithKeepsOutside(v: bv64, mask: bv64, rest: bv64)
    requires mask & rest == 0
    ensures Masked(With(v, mask), rest) == Masked(v, rest)
    ensures Masked(Without(v, mask), rest) == Masked(v, rest)
  {
    KeepsOutside(v, mask, true, rest);
    KeepsOutside(v, mask, false, rest);
    hide With, Without, Masked;
  }

  lemma MachineEntryRest(v: bv64, mode: nat)
    ensures Masked(MachineEntry(v, mode), NOT_MACHINE) == Masked(v, NOT_MACHINE)
  {
    var a := Assigned(v, MSTATUS_MPIE, Has(v, MSTATUS_MIE));
    var b := Without(a, MSTATUS_MIE);
    var c := Without(b, MSTATUS_MPP);
    assert MppBits(mode) & NOT_MACHINE == 0;
    KeepsOutside(v, MSTATUS_MPIE, Has(v, MSTATUS_MIE), NOT_MACHINE);
    WithKeepsOutside(a, MSTATUS_MIE, NOT_MACHINE);
    WithKeepsOutside(b, MSTATUS_MPP, NOT_MACHINE);
    WithKeepsOutside(c, MppBits(mode), NOT_MACHINE);
    hide With, Without, Assigned, Has, Masked, MppBits;
  }

  lemma MachineEntryBits(v: bv64, mode: nat)
    ensures !Has(MachineEntry(v, mode), 0x8)
    ensures Has(MachineEntry(v, mode), 0x80) <==> Has(v, 0x8)
  {
  }

  lemma MachineEntryMpp(v: bv64, mode: nat)
    ensures Masked(MachineEntry(v, mode), 0x1800) == MppOf(mode)
  {
  }

  /** A change outside the width fields that leaves MPP legal keeps a value legal. */
  lemma WidthsStay(v: bv64, after: bv64)
    requires WidthsAre64(v) && Masked(after, 0xf_0000_0000) == Masked(v, 0xf_0000_0000)
    requires Masked(after, 0x1800) != 0x1000
    ensures WidthsAre64(after)
  {
  }

  lemma PartOfMask(v: bv64, after: bv64, mask: bv64, part: bv64)
    requires Masked(after, mask) == Masked(v, mask) && mask & part == part
    ensures Masked(after, part) == Masked(v, part)
  {
    assert Masked(after, part) == Masked(Masked(after, mask), part) by { NestedMask(after, mask, part); }
    NestedMask(v, mask, part);
    hide Masked;
  }

  lemma NestedMask(v: bv64, mask: bv64, part: bv64)
    requires mask & part == part
    ensures Masked(v, part) == Masked(Masked(v, mask), part)
  {
    assert (v & mask) & part == v & (mask & part);
  }

  lemma MppIsLegal(mode: nat)
    ensures MppOf(mode) != 0x1000
  {
  }

  lemma MachineIsPushed(v: bv64, mode: nat)
    requires WidthsAre64(v)
    ensures PushedMachine(v, mode, LegalMstatus(MachineEntry(v, mode)))
  {
    var after := MachineEntry(v, mode);
    assert NOT_MACHINE & 0xf_0000_0000 == 0xf_0000_0000;
    hide MachineEntry, LegalMstatus, WidthsAre64, Has, Masked, MppOf;
    MachineEntryBits(v, mode);
    MachineEntryMpp(v, mode);
    MachineEntryRest(v, mode);
    MppIsLegal(mode);
    PartOfMask(v, after, NOT_MACHINE, 0xf_0000_0000);
    WidthsStay(v, after);
    LegalStays(after);
  }

  lemma SupervisorEntryRest(v: bv64, mode: nat)
    ensures Masked(SupervisorEntry(v, mode), NOT_SUPERVISOR) == Masked(v, NOT_SUPERVISOR)
  {
    hide With, Without, Assigned, Has, Masked;
    var a := Assigned(v, MSTATUS_SPIE, Has(v, MSTATUS_SIE));
    var b := Without(a, MSTATUS_SIE);
    KeepsOutside(v, MSTATUS_SPIE, Has(v, MSTATUS_SIE), NOT_SUPERVISOR);
    WithKeepsOutside(a, MSTATUS_SIE, NOT_SUPERVISOR);
    KeepsOutside(b, MSTATUS_SPP, mode == SUPERVISOR, NOT_SUPERVISOR);
  }

  lemma SupervisorEntryBits(v: bv64, mode: nat)
    ensures !Has(SupervisorEntry(v, mode), 0x2)
    ensures Has(SupervisorEntry(v, mode), 0x20) <==> Has(v, 0x2)
    ensures Has(SupervisorEntry(v, mode), 0x100) <==> mode == 1
  {
  }

  lemma LegalMpp(v: bv64, after: bv64)
    requires WidthsAre64(v) && Masked(after, 0x1800) == Masked(v, 0x1800)
    ensures Masked(after, 0x1800) != 0x1000
  {
  }

  lemma SupervisorIsPushed(v: bv64, mode: nat)
    requires WidthsAre64(v)
    ensures PushedSupervisor(v, mode, LegalMstatus(SupervisorEntry(v, mode)))
  {
    var after := SupervisorEntry(v, mode);
    assert NOT_SUPERVISOR & 0xf_0000_0000 == 0xf_0000_0000 && NOT_SUPERVISOR & 0x1800 == 0x1800;
    hide SupervisorEntry, LegalMstatus, WidthsAre64, Has, Masked;
    SupervisorEntryBits(v, mode);
    SupervisorEntryRest(v, mode);
    PartOfMask(v, after, NOT_SUPERVISOR, 0xf_0000_0000);
    PartOfMask(v, after, NOT_SUPERVISOR, 0x1800);
    LegalMpp(v, after);
    WidthsStay(v, after);
    LegalStays(after);
  }

  /** What `mret` makes of the stack, before it decides about MPRV. */
  function MachinePopped(v: bv64): bv64 {
    Without(With(Assigned(v, MSTATUS_MIE, Has(v, MSTATUS_MPIE)), MSTATUS_MPIE), MSTATUS_MPP)
  }

  lemma MachineExitIsOneOf(v: bv64)
    ensures MachineExit(v) == MachinePopped(v) || MachineExit(v) == Without(MachinePopped(v), MSTATUS_MPRV)
  {
    hide With, Without, Assigned, Has, PrivilegeFromMpp;
  }

  lemma MachinePoppedBits(v: bv64)
    ensures Has(MachinePopped(v), 0x8) <==> Has(v, 0x80)
    ensures Has(MachinePopped(v), 0x80) && !Has(MachinePopped(v), 0x1800)
  {
  }

  lemma WithoutMprv(v: bv64, bit: bv64)
    requires MSTATUS_MPRV & bit == 0
    ensures Has(Without(v, MSTATUS_MPRV), bit) == Has(v, bit)
  {
    AssignedOther(v, MSTATUS_MPRV, false, bit);
    hide Has, Without;
  }

  lemma MachineExitBits(v: bv64)
    ensures Has(MachineExit(v), 0x8) <==> Has(v, 0x80)
    ensures Has(MachineExit(v), 0x80) && !Has(MachineExit(v), 0x1800)
  {
    hide MachineExit, MachinePopped, Has, Without;
    MachineExitIsOneOf(v);
    MachinePoppedBits(v);
    WithoutMprv(MachinePopped(v), 0x8);
    WithoutMprv(MachinePopped(v), 0x80);
    WithoutMprv(MachinePopped(v), 0x1800);
  }

  lemma MachineExitMprv(v: bv64)
    ensures Has(MachineExit(v), 0x2_0000) <==> Has(v, 0x2_0000) && Masked(v, 0x1800) == 0x1800
  {
    if v & 0x1800 == 0x1800 {
      MachineExitToMachine(v);
    } else {
      MachineExitBelow(v);
    }
    hide MachineExit, PrivilegeFromMpp;
  }

  lemma MachinePoppedRest(v: bv64)
    ensures Masked(MachinePopped(v), NOT_MACHINE_MPRV) == Masked(v, NOT_MACHINE_MPRV)
  {
    hide With, Without, Assigned, Has, Masked;
    var a := Assigned(v, MSTATUS_MIE, Has(v, MSTATUS_MPIE));
    KeepsOutside(v, MSTATUS_MIE, Has(v, MSTATUS_MPIE), NOT_MACHINE_MPRV);
    WithKeepsOutside(a, MSTATUS_MPIE, NOT_MACHINE_MPRV);
    WithKeepsOutside(With(a, MSTATUS_MPIE), MSTATUS_MPP, NOT_MACHINE_MPRV);
  }

  lemma MachineExitRest(v: bv64)
    ensures Masked(MachineExit(v), NOT_MACHINE_MPRV) == Masked(v, NOT_MACHINE_MPRV)
  {
    hide Without, Masked, MachineExit, MachinePopped;
    MachineExitIsOneOf(v);
    MachinePoppedRest(v);
    WithKeepsOutside(MachinePopped(v), MSTATUS_MPRV, NOT_MACHINE_MPRV);
  }

  lemma NoMpp(after: bv64)
    requires !Has(after, 0x1800)
    ensures Masked(after, 0x1800) != 0x1000
  {
  }

  lemma MachineIsPopped(v: bv64)
    requires WidthsAre64(v)
    ensures PoppedMachine(v, LegalMstatus(MachineExit(v)))
  {
    var after := MachineExit(v);
    assert NOT_MACHINE_MPRV & 0xf_0000_0000 == 0xf_0000_0000;
    hide MachineExit, LegalMstatus, WidthsAre64, Has, Masked;
    MachineExitBits(v);
    MachineExitMprv(v);
    MachineExitRest(v);
    PartOfMask(v, after, NOT_MACHINE_MPRV, 0xf_0000_0000);
    NoMpp(after);
    WidthsStay(v, after);
    LegalStays(after);
  }

  lemma SupervisorExitRest(v: bv64)
    ensures Masked(SupervisorExit(v), NOT_SUPERVISOR_MPRV) == Masked(v, NOT_SUPERVISOR_MPRV)
  {
    hide With, Without, Assigned, Has, Masked;
    var a := Assigned(v, MSTATUS_SIE, Has(v, MSTATUS_SPIE));
    var b := With(a, MSTATUS_SPIE);
    var c := Without(b, MSTATUS_SPP);
    KeepsOutside(v, MSTATUS_SIE, Has(v, MSTATUS_SPIE), NOT_SUPERVISOR_MPRV);
    WithKeepsOutside(a, MSTATUS_SPIE, NOT_SUPERVISOR_MPRV);
    WithKeepsOutside(b, MSTATUS_SPP, NOT_SUPERVISOR_MPRV);
    WithKeepsOutside(c, MSTATUS_MPRV, NOT_SUPERVISOR_MPRV);
  }

  lemma SupervisorExitBits(v: bv64)
    ensures Has(SupervisorExit(v), 0x2) <==> Has(v, 0x20)
    ensures Has(SupervisorExit(v), 0x20) && !Has(SupervisorExit(v), 0x100) && !Has(SupervisorExit(v), 0x2_0000)
  {
  }

  lemma SupervisorIsPopped(v: bv64)
    requires WidthsAre64(v)
    ensures PoppedSupervisor(v, LegalMstatus(SupervisorExit(v)))
  {
    var after := SupervisorExit(v);
    assert NOT_SUPERVISOR_MPRV & 0xf_0000_0000 == 0xf_0000_0000 && NOT_SUPERVISOR_MPRV & 0x1800 == 0x1800;
    hide SupervisorExit, LegalMstatus, WidthsAre64, Has, Masked;
    SupervisorExitBits(v);
    SupervisorExitRest(v);
    PartOfMask(v, after, NOT_SUPERVISOR_MPRV, 0xf_0000_0000);
    PartOfMask(v, after, NOT_SUPERVISOR_MPRV, 0x1800);
    LegalMpp(v, after);
    WidthsStay(v, after);
    LegalStays(after);
  }

  lemma LawfulWidths(h: Hart)
    requires Lawful(h) && Shaped(h)
    ensures WidthsAre64(h.csr[0x300]) && IsPrivilege(h.privilege)
  {
  }

  /** Where a trap enters: BASE, or four bytes per code above it for an interrupt through a vectored xtvec. */
  predicate EntersAt(pc: bv64, xtvec: bv64, cause: bv64) {
    pc == (xtvec & 0xffff_ffff_ffff_fffc)
          + if xtvec & 0x3 == 1 && cause & 0x8000_0000_0000_0000 != 0 then (cause & 0xff) << 2 else 0
  }

  lemma HandlerAddress(xtvec: bv64, cause: bv64)
    ensures EntersAt(HandlerPc(xtvec, cause), xtvec, cause)
  {
  }

  /** The registers a trap writes; all others are as before. */
  predicate OnlyChanges(h: Hart, t: Hart, a: nat, b: nat, c: nat, d: nat)
    requires Shaped(h) && Shaped(t)
  {
    && t.gpr == h.gpr && t.pmp == h.pmp && t.plicSeip == h.plicSeip
    && forall i :: 0 <= i < 4096 && i != a && i != b && i != c && i != d ==> t.csr[i] == h.csr[i]
  }

  lemma UpdatesOnly(h: Hart, t: Hart, a: nat, b: nat, c: nat, d: nat, u: bv64, v: bv64, w: bv64, x: bv64)
    requires Shaped(h) && Shaped(t) && a < 4096 && b < 4096 && c < 4096 && d < 4096
    requires a != b && a != c && a != d && b != c && b != d && c != d
    requires t.csr == h.csr[b := v][c := w][d := x][a := u] && t.gpr == h.gpr && t.pmp == h.pmp
    requires t.plicSeip == h.plicSeip
    ensures t.csr[a] == u && t.csr[b] == v && t.csr[c] == w && t.csr[d] == x && OnlyChanges(h, t, a, b, c, d)
  {
  }

  lemma EvenPart(pc: bv64)
    ensures Without(pc, 0x1) == Masked(pc, 0xffff_ffff_ffff_fffe)
  {
  }

  /** A trap to M, register by register. */
  lemma MachineTrap(h: Hart, cause: bv64, tval: bv64)
    requires Lawful(h) && Shaped(h)
    ensures var t := EnterMachine(h, cause, tval);
            && t.privilege == 3 && EntersAt(t.pc, h.csr[0x305], cause)
            && t.csr[0x341] == Masked(h.pc, 0xffff_ffff_ffff_fffe) && t.csr[0x342] == cause && t.csr[0x343] == tval
            && PushedMachine(h.csr[0x300], h.privilege, t.csr[0x300]) && OnlyChanges(h, t, 0x300, 0x341, 0x342, 0x343)
  {
    LawfulWidths(h);
    hide Lawful, EnterMachine, LegalMstatus, MachineEntry, HandlerPc, Without, Masked, PushedMachine, EntersAt,
      WidthsAre64;
    hide OnlyChanges;
    EnterMachineEffect(h, cause, tval);
    UpdatesOnly(h, EnterMachine(h, cause, tval), 0x300, 0x341, 0x342, 0x343,
                LegalMstatus(MachineEntry(h.csr[0x300], h.privilege)), Without(h.pc, 0x1), cause, tval);
    MachineIsPushed(h.csr[0x300], h.privilege);
    HandlerAddress(h.csr[0x305], cause);
    EvenPart(h.pc);
  }

  /** A trap to S, register by register. */
  lemma SupervisorTrap(h: Hart, cause: bv64, tval: bv64)
    requires Lawful(h) && Shaped(h)
    ensures var t := EnterSupervisor(h, cause, tval);
            && t.privilege == 1 && EntersAt(t.pc, h.csr[0x105], cause)
            && t.csr[0x141] == Masked(h.pc, 0xffff_ffff_ffff_fffe) && t.csr[0x142] == cause && t.csr[0x143] == tval
            && PushedSupervisor(h.csr[0x300], h.privilege, t.csr[0x300])
                 && OnlyChanges(h, t, 0x300, 0x141, 0x142, 0x143)
  {
    LawfulWidths(h);
    hide Lawful, EnterSupervisor, LegalMstatus, SupervisorEntry, HandlerPc, Without, Masked, PushedSupervisor,
      EntersAt, WidthsAre64;
    hide OnlyChanges;
    EnterSupervisorEffect(h, cause, tval);
    UpdatesOnly(h, EnterSupervisor(h, cause, tval), 0x300, 0x141, 0x142, 0x143,
                LegalMstatus(SupervisorEntry(h.csr[0x300], h.privilege)), Without(h.pc, 0x1), cause, tval);
    SupervisorIsPushed(h.csr[0x300], h.privilege);
    HandlerAddress(h.csr[0x105], cause);
    EvenPart(h.pc);
  }

  lemma ModesOfStacks(v: bv64)
    ensures PrivilegeFromMpp(v) == if v & 0x1800 == 0x1800 then 3 else if v & 0x1800 == 0x800 then 1 else 0
    ensures PrivilegeFromSpp(v) == if v & 0x100 != 0 then 1 else 0
  {
  }

  /** `mret` in machine mode goes to mepc in the mode that MPP holds; elsewhere it is an illegal instruction. */
  lemma MachineReturn(h: Hart)
    requires Lawful(h) && Shaped(h)
    ensures h.privilege != 3 ==> Mret(h) == EnterTrap(h, 2, 0x3020_0073)
    ensures h.privilege == 3 ==>
              var t, mpp := Mret(h), h.csr[0x300] & 0x1800;
              && t.privilege == (if mpp == 0x1800 then 3 else if mpp == 0x800 then 1 else 0) && t.pc == h.csr[0x341]
              && PoppedMachine(h.csr[0x300], t.csr[0x300]) && OnlyChanges(h, t, 0x300, 0x300, 0x300, 0x300)
  {
    LawfulWidths(h);
    hide Lawful, EnterTrap, ReturnFromMachine, ReturnFromSupervisor, LegalMstatus, MachineExit, SupervisorExit,
      PrivilegeFromMpp,
      PrivilegeFromSpp, PoppedMachine, WidthsAre64;
    ReturnEffects(h);
    ModesOfStacks(h.csr[0x300]);
    MachineIsPopped(h.csr[0x300]);
  }

  /** `sret` goes to sepc in the mode that SPP holds, except from U, and from S under TSR. */
  lemma SupervisorReturn(h: Hart)
    requires Lawful(h) && Shaped(h)
    ensures var refused := h.privilege == 0 || (h.privilege == 1 && h.csr[0x300] & 0x40_0000 != 0);
            if refused then Sret(h) == EnterTrap(h, 2, 0x1020_0073)
            else
              var t := Sret(h);
              && t.privilege == (if h.csr[0x300] & 0x100 != 0 then 1 else 0) && t.pc == h.csr[0x141]
              && PoppedSupervisor(h.csr[0x300], t.csr[0x300]) && OnlyChanges(h, t, 0x300, 0x300, 0x300, 0x300)
  {
    LawfulWidths(h);
    hide Lawful, EnterTrap, ReturnFromMachine, ReturnFromSupervisor, LegalMstatus, MachineExit, SupervisorExit,
      PrivilegeFromMpp,
      PrivilegeFromSpp, PoppedSupervisor, WidthsAre64;
    ReturnEffects(h);
    ModesOfStacks(h.csr[0x300]);
    SupervisorIsPopped(h.csr[0x300]);
  }

  // ---------- The hart's loop ----------

  /** A CSR instruction that is not allowed is an illegal instruction (code 2), with its encoding as the value. */
  lemma IllegalAccessTraps(h: Hart, n: Instruction, word: bv64, mtime: bv64)
    requires Shaped(h) && WellFormed(n)
    ensures CsrStep(h, n, word, mtime)
            == if AccessAllowed(h, n.index, Writes(n)) then Executed(h, n, mtime) else EnterTrap(h, 2, word)
  {
    hide AccessAllowed, Executed, EnterTrap;
  }

  /**
   * One iteration: sample the devices; take an interrupt if one is ready; trap with code 0 on an odd PC;
   * trap with code 1 if the encoding may not be fetched or is not mapped; otherwise fetch.
   */
  lemma IterationInOrder(h: Hart, w: Surroundings)
    requires Lawful(h) && Shaped(h)
    ensures var s, (t, outcome) := Sample(h, w.wires), Iterate(h, w);
            && (TakeInterrupt(s).1 ==> t == TakeInterrupt(s).0 && outcome == TookInterrupt)
            && (!TakeInterrupt(s).1 && s.pc & 1 != 0 ==> t == EnterTrap(s, 0, s.pc) && outcome == MisalignedPc)
            && (!TakeInterrupt(s).1 && s.pc & 1 == 0 ==>
                  var fetchable := Pmp.Allowed(s.pmp, Value(s.pc, 64), w.length, Pmp.Fetch, s.privilege == 3)
                      && w.mapped;
                  if fetchable then t == s && outcome == Fetched
                      else t == EnterTrap(s, 1, s.pc) && outcome == FetchFault)
  {
    hide Lawful, Sample, TakeInterrupt, EnterTrap, Pmp.Allowed, Value;
  }

  /**
   * The bits of mip that a sample drives: MTIP 0x80, MSIP 0x8, MEIP 0x800, and STIP 0x20 under STCE; no
   * other bit and no other register changes.
   */
  lemma SampleInBits(h: Hart, w: Wires)
    requires Shaped(h)
    ensures var t := Sample(h, w);
            && Has(t.csr[0x344], 0x80) == w.mtip && Has(t.csr[0x344], 0x8) == w.msip
                 && Has(t.csr[0x344], 0x800) == w.meip
            && t.plicSeip == w.seip && t == h.(csr := h.csr[0x344 := t.csr[0x344]], plicSeip := w.seip)
            && (if h.csr[0x30a] & 0x8000_0000_0000_0000 != 0 then
                  && Has(t.csr[0x344], 0x20) == w.stip
                  && Masked(t.csr[0x344], 0xffff_ffff_ffff_f757) == Masked(h.csr[0x344], 0xffff_ffff_ffff_f757)
                else Masked(t.csr[0x344], 0xffff_ffff_ffff_f777) == Masked(h.csr[0x344], 0xffff_ffff_ffff_f777))
  {
    SampleRest(h, w);
    hide Has, Masked, SampledMip;
    SampleShowsTheWires(h, w);
  }

  lemma SampleRest(h: Hart, w: Wires)
    requires Shaped(h)
    ensures StceEnabled(h) ==>
            Masked(SampledMip(h, w), 0xffff_ffff_ffff_f757) == Masked(h.csr[0x344], 0xffff_ffff_ffff_f757)
    ensures !StceEnabled(h) ==>
            Masked(SampledMip(h, w), 0xffff_ffff_ffff_f777) == Masked(h.csr[0x344], 0xffff_ffff_ffff_f777)
  {
    hide Assigned, Masked, StceEnabled;
    var rest: bv64 := if StceEnabled(h) then 0xffff_ffff_ffff_f757 else 0xffff_ffff_ffff_f777;
    var a := Assigned(h.csr[0x344], 0x80, w.mtip);
    var b := Assigned(a, 0x8, w.msip);
    var c := if StceEnabled(h) then Assigned(b, 0x20, w.stip) else b;
    KeepsOutside(h.csr[0x344], 0x80, w.mtip, rest);
    KeepsOutside(a, 0x8, w.msip, rest);
    if StceEnabled(h) {
      KeepsOutside(b, 0x20, w.stip, rest);
    }
    KeepsOutside(c, 0x800, w.meip, rest);
  }

  // ---------- Runs and reset ----------

  /** Each step of a run is the operation it is named for. */
  lemma StepsByName(h: Hart, step: Step)
    requires Shaped(h) && IsStep(step)
    ensures var t := Apply(h, step);
            match step
            case Sampled(wires) => t == Sample(h, wires)
            case Interrupt => t == TakeInterrupt(h).0
            case Exception(code, tval) => t == EnterTrap(h, code, tval)
            case CsrAccess(n, word, mtime) =>
              t == if AccessAllowed(h, n.index, Writes(n)) then Executed(h, n, mtime) else EnterTrap(h, 2, word)
            case MachineReturn => t == Mret(h)
            case SupervisorReturn => t == Sret(h)
            case Other(rd, v, pc) => t == h.(pc := pc, gpr := if rd == 0 then h.gpr else h.gpr[rd := v])
  {
    hide AccessAllowed, Executed, EnterTrap, Sample, TakeInterrupt, Mret, Sret;
  }

  /**
   * A created hart: machine mode, every register 0 but mstatus (64-bit widths), misa (RV64ACIMSU) and
   * stimecmp (never), and PMP off.
   */
  lemma ResetByNumber(pc: bv64)
    ensures var h := Reset(pc);
            && h.pc == pc && h.privilege == 3 && !h.plicSeip
            && (forall r :: 0 <= r < 32 ==> h.gpr[r] == 0)
            && h.csr[0x300] == 0xa_0000_0000 && h.csr[0x301] == 0x8000_0000_0014_1105
                 && h.csr[0x14d] == 0xffff_ffff_ffff_ffff
            && (forall i :: 0 <= i < 4096 && i != 0x300 && i != 0x301 && i != 0x14d ==> h.csr[i] == 0)
            && forall i :: 0 <= i < 16 ==> h.pmp.cfg[i] == 0 && h.pmp.addr[i] == 0
  {
  }
}
