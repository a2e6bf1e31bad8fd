/**
 * Traps, returns and interrupts (`src/emulator/cpu/trap.ts`, `src/emulator/cpu/instructions/system.ts`)
 * and the order of steps in the hart's loop (`src/emulator/cpu/run.ts`). RISC-V Privileged
 * Architecture 20211203, sections 3.1.6 and 3.3.2.
 */
module Trap {
  import opened Csr
  import Pmp

  const ILLEGAL_INSTRUCTION: nat := 2
  const INTERRUPT: bv64 := 0x8000_0000_0000_0000

  /** MEI, MSI, MTI, SEI, SSI, STI: highest priority first. */
  const PRIORITY: seq<nat> := [11, 3, 7, 9, 1, 5]

  /** A one in position `code`. */
  function Bit(code: nat): bv64
    requires code < 16
  {
    match code
    case 0 => 0x1 case 1 => 0x2 case 2 => 0x4 case 3 => 0x8 case 4 => 0x10 case 5 => 0x20 case 6 => 0x40 case 7 => 0x80
    case 8 => 0x100 case 9 => 0x200 case 10 => 0x400 case 11 => 0x800 case 12 => 0x1000 case 13 => 0x2000
        case 14 => 0x4000
    case _ => 0x8000
  }

  /** An exception or interrupt code as a cause value. */
  function Number(code: nat): bv64
    requires code < 16
  {
    match code
    case 0 => 0 case 1 => 1 case 2 => 2 case 3 => 3 case 4 => 4 case 5 => 5 case 6 => 6 case 7 => 7
    case 8 => 8 case 9 => 9 case 10 => 10 case 11 => 11 case 12 => 12 case 13 => 13 case 14 => 14
    case _ => 15
  }

  function InterruptCause(code: nat): bv64
    requires code < 16
  {
    INTERRUPT | Number(code)
  }

  // ---------- The mstatus stacks ----------

  function MppBits(privilege: nat): bv64 {
    if privilege == MACHINE then MSTATUS_MPP else if privilege == SUPERVISOR then MPP_SUPERVISOR else 0
  }

  function PrivilegeFromMpp(mstatus: bv64): (privilege: nat)
    ensures IsPrivilege(privilege)
  {
    if mstatus & MSTATUS_MPP == MSTATUS_MPP then MACHINE else if mstatus & MSTATUS_MPP == MPP_SUPERVISOR then SUPERVISOR
        else USER
  }

  function PrivilegeFromSpp(mstatus: bv64): (privilege: nat)
    ensures privilege == USER || privilege == SUPERVISOR
  {
    if mstatus & MSTATUS_SPP != 0 then SUPERVISOR else USER
  }

  /** Sets or clears `mask`. */
  function Assigned(v: bv64, mask: bv64, value: bool): bv64 { if value then With(v, mask) else Without(v, mask) }

  /** Trap to M: MPIE takes MIE, MIE clears, MPP takes the mode. */
  function MachineEntry(v: bv64, privilege: nat): bv64 {
    With(Without(Without(Assigned(v, MSTATUS_MPIE, Has(v, MSTATUS_MIE)), MSTATUS_MIE), MSTATUS_MPP), MppBits(privilege))
  }

  /** Trap to S: SPIE takes SIE, SIE clears, SPP takes the mode. */
  function SupervisorEntry(v: bv64, privilege: nat): bv64 {
    Assigned(Without(Assigned(v, MSTATUS_SPIE, Has(v, MSTATUS_SIE)), MSTATUS_SIE), MSTATUS_SPP, privilege == SUPERVISOR)
  }

  /** `mret`: MIE takes MPIE, MPIE sets, MPP becomes U, and MPRV clears unless the new mode is M. */
  function MachineExit(v: bv64): bv64 {
    var popped := Without(With(Assigned(v, MSTATUS_MIE, Has(v, MSTATUS_MPIE)), MSTATUS_MPIE), MSTATUS_MPP);
    if PrivilegeFromMpp(v) == MACHINE then popped else Without(popped, MSTATUS_MPRV)
  }

  /** `sret`: SIE takes SPIE, SPIE sets, SPP becomes U, MPRV clears. */
  function SupervisorExit(v: bv64): bv64 {
    Without(Without(With(Assigned(v, MSTATUS_SIE, Has(v, MSTATUS_SPIE)), MSTATUS_SPIE), MSTATUS_SPP), MSTATUS_MPRV)
  }

  // ---------- Traps and returns ----------

  /** BASE, or BASE + 4 * code for an interrupt through a vectored xtvec. */
  function HandlerPc(xtvec: bv64, cause: bv64): bv64 {
    if xtvec & 0x3 == 0x1 && cause & INTERRUPT != 0 then (xtvec & !0x3) + ((cause & 0xff) << 2) else xtvec & !0x3
  }

  function EnterMachine(h: Hart, cause: bv64, tval: bv64): (t: Hart)
    requires Shaped(h)
    ensures Shaped(t)
  {
    var saved := Write(Write(Write(h, MEPC, h.pc), MCAUSE, cause), MTVAL, tval);
    var entered := Write(saved, MSTATUS, MachineEntry(saved.csr[MSTATUS], h.privilege));
    entered.(privilege := MACHINE, pc := HandlerPc(entered.csr[MTVEC], cause))
  }

  function EnterSupervisor(h: Hart, cause: bv64, tval: bv64): (t: Hart)
    requires Shaped(h)
    ensures Shaped(t)
  {
    var saved := Write(Write(Write(h, SEPC, h.pc), SCAUSE, cause), STVAL, tval);
    var entered := Write(saved, MSTATUS, SupervisorEntry(saved.csr[MSTATUS], h.privilege));
    entered.(privilege := SUPERVISOR, pc := HandlerPc(entered.csr[STVEC], cause))
  }

  predicate DelegatesException(h: Hart, code: nat)
    requires Shaped(h) && code < 16
  {
    h.privilege != MACHINE && Has(h.csr[MEDELEG], Bit(code))
  }

  /** A synchronous exception. */
  function EnterTrap(h: Hart, code: nat, tval: bv64): (t: Hart)
    requires Shaped(h) && code < 16
    ensures Shaped(t)
  {
    if DelegatesException(h, code) then EnterSupervisor(h, Number(code), tval) else EnterMachine(h, Number(code), tval)
  }

  function ReturnFromMachine(h: Hart): (t: Hart)
    requires Shaped(h)
    ensures Shaped(t)
  {
    var popped := Write(h, MSTATUS, MachineExit(h.csr[MSTATUS]));
    popped.(privilege := PrivilegeFromMpp(h.csr[MSTATUS]), pc := popped.csr[MEPC])
  }

  function ReturnFromSupervisor(h: Hart): (t: Hart)
    requires Shaped(h)
    ensures Shaped(t)
  {
    var popped := Write(h, MSTATUS, SupervisorExit(h.csr[MSTATUS]));
    popped.(privilege := PrivilegeFromSpp(h.csr[MSTATUS]), pc := popped.csr[SEPC])
  }

  function Mret(h: Hart): (t: Hart)
    requires Shaped(h)
    ensures Shaped(t)
  {
    if h.privilege != MACHINE then EnterTrap(h, ILLEGAL_INSTRUCTION, 0x30200073) else ReturnFromMachine(h)
  }

  function Sret(h: Hart): (t: Hart)
    requires Shaped(h)
    ensures Shaped(t)
  {
    if h.privilege < SUPERVISOR || (h.privilege == SUPERVISOR && h.csr[MSTATUS] & MSTATUS_TSR != 0)
    then EnterTrap(h, ILLEGAL_INSTRUCTION, 0x10200073)
    else ReturnFromSupervisor(h)
  }

  // ---------- Interrupts ----------

  predicate Delegated(h: Hart, code: nat)
    requires Shaped(h) && code < 16
  {
    Has(h.csr[MIDELEG], Bit(code))
  }

  /** `code` is pending, enabled, and let through by the mode it would be taken to. */
  predicate Takeable(h: Hart, code: nat)
    requires Shaped(h) && code < 16
  {
    && Has(ReadableMip(h), Bit(code)) && Has(h.csr[MIE], Bit(code))
    && if Delegated(h, code) then h.privilege != MACHINE
         && (h.privilege == SUPERVISOR ==> Has(h.csr[MSTATUS], MSTATUS_SIE))
       else h.privilege != MACHINE || Has(h.csr[MSTATUS], MSTATUS_MIE)
  }

  /** The first takeable interrupt in priority order from position `k`; 0 is none. */
  function SelectFrom(h: Hart, k: nat): (code: nat)
    requires Shaped(h) && k <= |PRIORITY|
    ensures code < 16
    decreases |PRIORITY| - k
  {
    if k == |PRIORITY| then 0 else if Takeable(h, PRIORITY[k]) then PRIORITY[k] else SelectFrom(h, k + 1)
  }

  /** `takeInterruptIfAny`; the second result says whether one was taken. */
  function TakeInterrupt(h: Hart): (r: (Hart, bool))
    requires Shaped(h)
    ensures Shaped(r.0)
  {
    var code := SelectFrom(h, 0);
    if code == 0 then (h, false)
    else if Delegated(h, code) then (EnterSupervisor(h, InterruptCause(code), 0), true)
    else (EnterMachine(h, InterruptCause(code), 0), true)
  }

  /** The device wires a hart samples before each instruction. */
  datatype Wires = Wires(mtip: bool, msip: bool, stip: bool, meip: bool, seip: bool)

  function SampledMip(h: Hart, w: Wires): bv64
    requires Shaped(h)
  {
    var timers := Assigned(Assigned(h.csr[MIP], 0x80, w.mtip), 0x8, w.msip);
    Assigned(if StceEnabled(h) then Assigned(timers, MIP_STIP, w.stip) else timers, 0x800, w.meip)
  }

  function Sample(h: Hart, w: Wires): (t: Hart)
    requires Shaped(h)
    ensures Shaped(t)
  {
    Put(h, MIP, SampledMip(h, w)).(plicSeip := w.seip)
  }

  // ---------- Lawfulness is kept ----------

  lemma MachineEntryKeepsMprv(v: bv64, privilege: nat)
    ensures MprvSet(MachineEntry(v, privilege)) == MprvSet(v)
  {
  }

  lemma SupervisorEntryKeepsMprv(v: bv64, privilege: nat)
    ensures MprvSet(SupervisorEntry(v, privilege)) == MprvSet(v)
  {
    var saved := Assigned(v, MSTATUS_SPIE, Has(v, MSTATUS_SIE));
    AssignedKeepsOthers(v, MSTATUS_SPIE, Has(v, MSTATUS_SIE), MSTATUS_MPRV);
    AssignedKeepsOthers(saved, MSTATUS_SIE, false, MSTATUS_MPRV);
    AssignedKeepsOthers(Without(saved, MSTATUS_SIE), MSTATUS_SPP, privilege == SUPERVISOR, MSTATUS_MPRV);
    hide With, Without, Has;
  }

  lemma AssignedKeepsOthers(v: bv64, mask: bv64, value: bool, bit: bv64)
    requires mask & bit == 0
    ensures Assigned(v, mask, value) & bit == v & bit
  {
  }

  lemma MachineExitToMachine(v: bv64)
    requires v & MSTATUS_MPP == MSTATUS_MPP
    ensures MprvSet(MachineExit(v)) == MprvSet(v) && PrivilegeFromMpp(v) == MACHINE
  {
  }

  lemma MachineExitBelow(v: bv64)
    requires v & MSTATUS_MPP != MSTATUS_MPP
    ensures !MprvSet(MachineExit(v)) && PrivilegeFromMpp(v) != MACHINE
  {
  }

  lemma SupervisorExitMprv(v: bv64)
    ensures !MprvSet(SupervisorExit(v))
  {
  }

  /** Writes of the trap registers reach their slots. */
  lemma TrapWrites(h: Hart, index: nat, v: bv64)
    requires Shaped(h)
    ensures index == MEPC || index == SEPC ==> Write(h, index, v) == Put(h, index, Without(v, 0x1))
    ensures index == MCAUSE || index == SCAUSE || index == MTVAL || index == STVAL ==>
            Write(h, index, v) == Put(h, index, v)
    ensures index == MSTATUS ==> Write(h, index, v) == Put(h, index, LegalMstatus(v))
  {
    hide LegalMstatus, Without, Masked, Merged, LegalXtvec, WrittenSip, WrittenMip, StceEnabled, PmpWrite;
  }

  /** What `EnterMachine` changes, slot by slot. */
  lemma EnterMachineEffect(h: Hart, cause: bv64, tval: bv64)
    requires Shaped(h)
    ensures var t, mstatus := EnterMachine(h, cause, tval), LegalMstatus(MachineEntry(h.csr[MSTATUS], h.privilege));
            && t.csr == h.csr[MEPC := Without(h.pc, 0x1)][MCAUSE := cause][MTVAL := tval][MSTATUS := mstatus]
            && t.privilege == MACHINE && t.pc == HandlerPc(h.csr[MTVEC], cause)
            && t.gpr == h.gpr && t.pmp == h.pmp && t.plicSeip == h.plicSeip
  {
    hide LegalMstatus, MachineEntry, Without, HandlerPc, Write;
    TrapWrites(h, MEPC, h.pc);
    var a := Write(h, MEPC, h.pc);
    TrapWrites(a, MCAUSE, cause);
    var b := Write(a, MCAUSE, cause);
    TrapWrites(b, MTVAL, tval);
    var c := Write(b, MTVAL, tval);
    TrapWrites(c, MSTATUS, MachineEntry(c.csr[MSTATUS], h.privilege));
  }

  lemma EnterSupervisorEffect(h: Hart, cause: bv64, tval: bv64)
    requires Shaped(h)
    ensures var t, mstatus := EnterSupervisor(h, cause, tval),
            LegalMstatus(SupervisorEntry(h.csr[MSTATUS], h.privilege));
            && t.csr == h.csr[SEPC := Without(h.pc, 0x1)][SCAUSE := cause][STVAL := tval][MSTATUS := mstatus]
            && t.privilege == SUPERVISOR && t.pc == HandlerPc(h.csr[STVEC], cause)
            && t.gpr == h.gpr && t.pmp == h.pmp && t.plicSeip == h.plicSeip
  {
    hide LegalMstatus, SupervisorEntry, Without, HandlerPc, Write;
    TrapWrites(h, SEPC, h.pc);
    var a := Write(h, SEPC, h.pc);
    TrapWrites(a, SCAUSE, cause);
    var b := Write(a, SCAUSE, cause);
    TrapWrites(b, STVAL, tval);
    var c := Write(b, STVAL, tval);
    TrapWrites(c, MSTATUS, SupervisorEntry(c.csr[MSTATUS], h.privilege));
  }

  lemma ReturnEffects(h: Hart)
    requires Shaped(h)
    ensures ReturnFromMachine(h) == Put(h, MSTATUS, LegalMstatus(MachineExit(h.csr[MSTATUS]))).(
                                    privilege := PrivilegeFromMpp(h.csr[MSTATUS]), pc := h.csr[MEPC])
    ensures ReturnFromSupervisor(h) == Put(h, MSTATUS, LegalMstatus(SupervisorExit(h.csr[MSTATUS]))).(
                                       privilege := PrivilegeFromSpp(h.csr[MSTATUS]), pc := h.csr[SEPC])
  {
    hide LegalMstatus, MachineExit, SupervisorExit, Without, Masked, Merged, LegalXtvec, WrittenSip, WrittenMip;
  }

  lemma LawfulInMode(h: Hart, privilege: nat, pc: bv64)
    requires Lawful(h) && IsPrivilege(privilege) && (MprvSet(h.csr[MSTATUS]) ==> privilege == MACHINE)
    ensures Lawful(h.(privilege := privilege, pc := pc))
  {
    hide LawfulMstatus, MprvSet, LawfulPending, LawfulMideleg, LawfulMedeleg, LawfulXtvec, LawfulXepc, LawfulMenvcfg,
      LawfulInhibit, LawfulCounteren, Pmp.Legal;
  }

  lemma WithoutLowBitIsLawful(v: bv64)
    ensures LawfulXepc(Without(v, 0x1))
  {
  }

  /** Saving PC, cause and value and replacing mstatus keeps a hart lawful. */
  lemma SavedIsLawful(h: Hart, epc: nat, cause: nat, tval: nat, c: bv64, v: bv64, mstatus: bv64)
    requires Lawful(h) && LawfulMstatus(mstatus) && (MprvSet(mstatus) ==> h.privilege == MACHINE)
    requires (epc, cause, tval) == (MEPC, MCAUSE, MTVAL) || (epc, cause, tval) == (SEPC, SCAUSE, STVAL)
    ensures Lawful(Put(Put(Put(Put(h, epc, Without(h.pc, 0x1)), cause, c), tval, v), MSTATUS, mstatus))
  {
    hide LawfulMstatus, MprvSet, LawfulXepc, Without, Lawful;
    LawfulIsShaped(h);
    WithoutLowBitIsLawful(h.pc);
    var a := Put(h, epc, Without(h.pc, 0x1));
    PutKeepsLawful(h, epc, Without(h.pc, 0x1));
    PutKeepsLawful(a, cause, c);
    PutKeepsLawful(Put(a, cause, c), tval, v);
    PutKeepsLawful(Put(Put(a, cause, c), tval, v), MSTATUS, mstatus);
  }

  lemma EnterMachineKeepsLawful(h: Hart, cause: bv64, tval: bv64)
    requires Lawful(h)
    ensures Lawful(EnterMachine(h, cause, tval))
  {
    assert MprvSet(h.csr[MSTATUS]) ==> h.privilege == MACHINE;
    hide LawfulMstatus, MprvSet, LawfulXepc, Without, Lawful, LegalMstatus, MachineEntry, EnterMachine, HandlerPc;
    LawfulIsShaped(h);
    var mstatus := LegalMstatus(MachineEntry(h.csr[MSTATUS], h.privilege));
    LegalMstatusIsLawful(MachineEntry(h.csr[MSTATUS], h.privilege));
    MachineEntryKeepsMprv(h.csr[MSTATUS], h.privilege);
    EnterMachineEffect(h, cause, tval);
    SavedIsLawful(h, MEPC, MCAUSE, MTVAL, cause, tval, mstatus);
    var saved := Put(Put(Put(Put(h, MEPC, Without(h.pc, 0x1)), MCAUSE, cause), MTVAL, tval), MSTATUS, mstatus);
    LawfulInMode(saved, MACHINE, HandlerPc(h.csr[MTVEC], cause));
    assert EnterMachine(h, cause, tval) == saved.(privilege := MACHINE, pc := HandlerPc(h.csr[MTVEC], cause));
  }

  lemma EnterSupervisorKeepsLawful(h: Hart, cause: bv64, tval: bv64)
    requires Lawful(h) && h.privilege != MACHINE
    ensures Lawful(EnterSupervisor(h, cause, tval))
  {
    assert MprvSet(h.csr[MSTATUS]) ==> h.privilege == MACHINE;
    hide LawfulMstatus, MprvSet, LawfulXepc, Without, Lawful, LegalMstatus, SupervisorEntry, EnterSupervisor, HandlerPc;
    LawfulIsShaped(h);
    var mstatus := LegalMstatus(SupervisorEntry(h.csr[MSTATUS], h.privilege));
    LegalMstatusIsLawful(SupervisorEntry(h.csr[MSTATUS], h.privilege));
    SupervisorEntryKeepsMprv(h.csr[MSTATUS], h.privilege);
    EnterSupervisorEffect(h, cause, tval);
    SavedIsLawful(h, SEPC, SCAUSE, STVAL, cause, tval, mstatus);
    var saved := Put(Put(Put(Put(h, SEPC, Without(h.pc, 0x1)), SCAUSE, cause), STVAL, tval), MSTATUS, mstatus);
    LawfulInMode(saved, SUPERVISOR, HandlerPc(h.csr[STVEC], cause));
    assert EnterSupervisor(h, cause, tval) == saved.(privilege := SUPERVISOR, pc := HandlerPc(h.csr[STVEC], cause));
  }

  lemma EnterTrapKeepsLawful(h: Hart, code: nat, tval: bv64)
    requires Lawful(h) && code < 16
    ensures Lawful(EnterTrap(h, code, tval)) && EnterTrap(h, code, tval).privilege >= h.privilege
  {
    assert IsPrivilege(h.privilege);
    hide Lawful, EnterMachine, EnterSupervisor, Bit, Number;
    LawfulIsShaped(h);
    EnterMachineEffect(h, Number(code), tval);
    EnterSupervisorEffect(h, Number(code), tval);
    if DelegatesException(h, code) {
      EnterSupervisorKeepsLawful(h, Number(code), tval);
    } else {
      EnterMachineKeepsLawful(h, Number(code), tval);
    }
  }

  /** Selection returns the first takeable code in priority order, and 0 only when there is none. */
  lemma {:induction false} SelectedIsFirst(h: Hart, k: nat)
    requires Shaped(h) && k <= |PRIORITY|
    ensures var code := SelectFrom(h, k);
            && (code == 0 ==> forall i :: k <= i < |PRIORITY| ==> !Takeable(h, PRIORITY[i]))
            && (code != 0 ==> exists i :: k <= i < |PRIORITY| && PRIORITY[i] == code && Takeable(h, code)
                                          && forall j :: k <= j < i ==> !Takeable(h, PRIORITY[j]))
    decreases |PRIORITY| - k
  {
    hide Takeable;
    if k < |PRIORITY| {
      SelectedIsFirst(h, k + 1);
      if Takeable(h, PRIORITY[k]) {
        assert PRIORITY[k] == SelectFrom(h, k);
      }
    }
  }

  lemma SelectedIsTakeable(h: Hart)
    requires Shaped(h)
    ensures SelectFrom(h, 0) != 0 ==> Takeable(h, SelectFrom(h, 0))
  {
    hide Takeable, SelectFrom;
    SelectedIsFirst(h, 0);
  }

  lemma DelegatedIsBelowMachine(h: Hart, code: nat)
    requires Shaped(h) && code < 16 && Takeable(h, code) && Delegated(h, code)
    ensures h.privilege != MACHINE
  {
  }

  lemma TakeInterruptKeepsLawful(h: Hart)
    requires Lawful(h)
    ensures Lawful(TakeInterrupt(h).0) && TakeInterrupt(h).0.privilege >= h.privilege
  {
    assert IsPrivilege(h.privilege);
    hide Lawful, EnterMachine, EnterSupervisor, InterruptCause, SelectFrom, Takeable, Delegated;
    LawfulIsShaped(h);
    var code := SelectFrom(h, 0);
    SelectedIsTakeable(h);
    if code != 0 && Delegated(h, code) {
      DelegatedIsBelowMachine(h, code);
    }
    var cause := InterruptCause(code);
    EnterMachineEffect(h, cause, 0);
    EnterSupervisorEffect(h, cause, 0);
    if code != 0 && Delegated(h, code) {
      EnterSupervisorKeepsLawful(h, cause, 0);
    } else if code != 0 {
      EnterMachineKeepsLawful(h, cause, 0);
    }
  }

  lemma ReturnFromMachineKeepsLawful(h: Hart)
    requires Lawful(h) && h.privilege == MACHINE
    ensures Lawful(ReturnFromMachine(h))
  {
    hide LawfulMstatus, MprvSet, Lawful, LegalMstatus, MachineExit, ReturnFromMachine, ReturnFromSupervisor,
      PrivilegeFromMpp;
    LawfulIsShaped(h);
    var v := h.csr[MSTATUS];
    ReturnEffects(h);
    LegalMstatusIsLawful(MachineExit(v));
    if v & MSTATUS_MPP == MSTATUS_MPP { MachineExitToMachine(v); } else { MachineExitBelow(v); }
    PutKeepsLawful(h, MSTATUS, LegalMstatus(MachineExit(v)));
    LawfulInMode(Put(h, MSTATUS, LegalMstatus(MachineExit(v))), PrivilegeFromMpp(v), h.csr[MEPC]);
  }

  lemma ReturnFromSupervisorKeepsLawful(h: Hart)
    requires Lawful(h)
    ensures Lawful(ReturnFromSupervisor(h))
  {
    hide LawfulMstatus, MprvSet, Lawful, LegalMstatus, SupervisorExit, ReturnFromMachine, ReturnFromSupervisor,
      PrivilegeFromSpp;
    LawfulIsShaped(h);
    var v := h.csr[MSTATUS];
    ReturnEffects(h);
    LegalMstatusIsLawful(SupervisorExit(v));
    SupervisorExitMprv(v);
    PutKeepsLawful(h, MSTATUS, LegalMstatus(SupervisorExit(v)));
    LawfulInMode(Put(h, MSTATUS, LegalMstatus(SupervisorExit(v))), PrivilegeFromSpp(v), h.csr[SEPC]);
  }

  lemma SampledMipIsLawful(h: Hart, w: Wires)
    requires Shaped(h) && LawfulPending(h.csr[MIP])
    ensures LawfulPending(SampledMip(h, w))
  {
    AssignedInMask(h.csr[MIP], 0x80, w.mtip);
    var a := Assigned(h.csr[MIP], 0x80, w.mtip);
    AssignedInMask(a, 0x8, w.msip);
    var b := Assigned(a, 0x8, w.msip);
    AssignedInMask(b, MIP_STIP, w.stip);
    AssignedInMask(b, 0x800, w.meip);
    AssignedInMask(Assigned(b, MIP_STIP, w.stip), 0x800, w.meip);
    hide LawfulPending, Assigned;
  }

  lemma AssignedInMask(v: bv64, mask: bv64, value: bool)
    requires LawfulPending(v) && mask & !MIE_MASK == 0
    ensures LawfulPending(Assigned(v, mask, value))
  {
  }

  lemma SampleKeepsLawful(h: Hart, w: Wires)
    requires Lawful(h)
    ensures Lawful(Sample(h, w))
  {
    assert LawfulPending(h.csr[MIP]) && h.gpr[0] == 0;
    hide Lawful, LawfulPending, SampledMip;
    LawfulIsShaped(h);
    SampledMipIsLawful(h, w);
    PutKeepsLawful(h, MIP, SampledMip(h, w));
    LawfulIgnoresPcAndGprs(Put(h, MIP, SampledMip(h, w)), Sample(h, w));
  }

  // ---------- Runs of a hart ----------

  /**
   * Everything that changes privileged state; `Other` is an instruction that only moves the PC and writes
   * one register.
   */
  datatype Step =
    | Sampled(wires: Wires)
    | Interrupt
    | Exception(code: nat, tval: bv64)
    | CsrAccess(n: Instruction, word: bv64, mtime: bv64)
    | MachineReturn
    | SupervisorReturn
    | Other(rd: nat, v: bv64, pc: bv64)

  predicate IsStep(step: Step) {
    match step
    case Exception(code, _) => code < 16
    case CsrAccess(n, _, _) => WellFormed(n)
    case Other(rd, _, _) => rd < 32
    case _ => true
  }

  /** A CSR instruction: an access that is not allowed traps as an illegal instruction. */
  function CsrStep(h: Hart, n: Instruction, word: bv64, mtime: bv64): (t: Hart)
    requires Shaped(h) && WellFormed(n)
    ensures Shaped(t)
  {
    if AccessAllowed(h, n.index, Writes(n)) then Executed(h, n, mtime) else EnterTrap(h, ILLEGAL_INSTRUCTION, word)
  }

  function Apply(h: Hart, step: Step): (t: Hart)
    requires Shaped(h) && IsStep(step)
    ensures Shaped(t)
  {
    match step
    case Sampled(wires) => Sample(h, wires)
    case Interrupt => TakeInterrupt(h).0
    case Exception(code, tval) => EnterTrap(h, code, tval)
    case CsrAccess(n, word, mtime) => CsrStep(h, n, word, mtime)
    case MachineReturn => Mret(h)
    case SupervisorReturn => Sret(h)
    case Other(rd, v, pc) => WithGpr(h, rd, v).(pc := pc)
  }

  /** `createRegisters`. */
  function Reset(pc: bv64): (h: Hart)
    ensures Shaped(h)
  {
    var zeros := seq(CSR_COUNT, _ => 0);
    Hart(pc, MACHINE, seq(32, _ => 0),
        zeros[MSTATUS := UXL_SXL_64][MISA := MISA_HARDWIRED][STIMECMP := 0xffff_ffff_ffff_ffff],
         Pmp.Entries(seq(Pmp.ENTRY_COUNT, _ => 0), seq(Pmp.ENTRY_COUNT, _ => 0)), false)
  }

  lemma ResetIsLawful(pc: bv64)
    ensures Lawful(Reset(pc))
  {
  }

  ghost predicate Run(states: seq<Hart>, steps: seq<Step>) {
    && |states| == |steps| + 1 && Lawful(states[0])
    && forall k :: 0 <= k < |steps| ==>
         Shaped(states[k]) && IsStep(steps[k]) && states[k + 1] == Apply(states[k], steps[k])
  }

  lemma ReturnsKeepLawful(h: Hart)
    requires Lawful(h)
    ensures Lawful(Mret(h)) && Lawful(Sret(h))
  {
    hide Lawful, EnterTrap, ReturnFromMachine, ReturnFromSupervisor;
    LawfulIsShaped(h);
    if h.privilege == MACHINE {
      ReturnFromMachineKeepsLawful(h);
    }
    ReturnFromSupervisorKeepsLawful(h);
    EnterTrapKeepsLawful(h, ILLEGAL_INSTRUCTION, 0x30200073);
    EnterTrapKeepsLawful(h, ILLEGAL_INSTRUCTION, 0x10200073);
  }

  lemma CsrStepKeepsLawful(h: Hart, n: Instruction, word: bv64, mtime: bv64)
    requires Lawful(h) && WellFormed(n)
    ensures Lawful(CsrStep(h, n, word, mtime))
  {
    hide Lawful, EnterTrap, Executed, AccessAllowed, Writes;
    LawfulIsShaped(h);
    if AccessAllowed(h, n.index, Writes(n)) {
      ExecutedKeepsLawful(h, n, mtime);
    } else {
      EnterTrapKeepsLawful(h, ILLEGAL_INSTRUCTION, word);
    }
  }

  lemma OtherKeepsLawful(h: Hart, rd: nat, v: bv64, pc: bv64)
    requires Lawful(h) && rd < 32
    ensures Lawful(WithGpr(h, rd, v).(pc := pc))
  {
    assert h.gpr[0] == 0;
    hide Lawful;
    LawfulIgnoresPcAndGprs(h, WithGpr(h, rd, v).(pc := pc));
  }

  lemma ApplyKeepsLawful(h: Hart, step: Step)
    requires Lawful(h) && IsStep(step)
    ensures Lawful(Apply(h, step))
  {
    hide Lawful, EnterTrap, TakeInterrupt, Sample, Mret, Sret, CsrStep, WithGpr;
    LawfulIsShaped(h);
    match step
    case Sampled(wires) => SampleKeepsLawful(h, wires);
    case Interrupt => TakeInterruptKeepsLawful(h);
    case Exception(code, tval) => EnterTrapKeepsLawful(h, code, tval);
    case CsrAccess(n, word, mtime) => CsrStepKeepsLawful(h, n, word, mtime);
    case MachineReturn => ReturnsKeepLawful(h);
    case SupervisorReturn => ReturnsKeepLawful(h);
    case Other(rd, v, pc) => OtherKeepsLawful(h, rd, v, pc);
  }

  /** Every state of every run is lawful. */
  lemma {:induction false} EveryRunIsLawful(states: seq<Hart>, steps: seq<Step>, n: nat)
    requires Run(states, steps) && n < |states|
    ensures Lawful(states[n])
  {
    hide Lawful, Apply;
    if n > 0 {
      EveryRunIsLawful(states, steps, n - 1);
      ApplyKeepsLawful(states[n - 1], steps[n - 1]);
    }
  }

  // ---------- PMP locks survive every run ----------

  lemma ApplyKeepsLocked(h: Hart, step: Step, i: nat)
    requires Shaped(h) && IsStep(step) && i < Pmp.ENTRY_COUNT && Pmp.Locked(h.pmp.cfg[i])
    ensures Pmp.SameEntry(h.pmp, Apply(h, step).pmp, i)
  {
    hide Pmp.SameEntry, Pmp.AfterWrite;
    match step
    case CsrAccess(n, word, mtime) => CsrStepKeepsLocked(h, n, word, mtime, i);
    case _ => OnlyCsrStepsTouchPmp(h, step); SameEntriesAreSame(h.pmp, i);
  }

  lemma SameEntriesAreSame(e: Pmp.Entries, i: nat)
    requires Pmp.Shaped(e) && i < Pmp.ENTRY_COUNT
    ensures Pmp.SameEntry(e, e, i)
  {
  }

  lemma TrapsKeepPmp(h: Hart, code: nat, tval: bv64)
    requires Shaped(h) && code < 16
    ensures EnterTrap(h, code, tval).pmp == h.pmp
  {
    hide EnterMachine, EnterSupervisor;
    EnterMachineEffect(h, Number(code), tval);
    EnterSupervisorEffect(h, Number(code), tval);
  }

  lemma InterruptKeepsPmp(h: Hart)
    requires Shaped(h)
    ensures TakeInterrupt(h).0.pmp == h.pmp
  {
    hide EnterMachine, EnterSupervisor, InterruptCause, SelectFrom, Delegated;
    EnterMachineEffect(h, InterruptCause(SelectFrom(h, 0)), 0);
    EnterSupervisorEffect(h, InterruptCause(SelectFrom(h, 0)), 0);
  }

  lemma OnlyCsrStepsTouchPmp(h: Hart, step: Step)
    requires Shaped(h) && IsStep(step) && !step.CsrAccess?
    ensures Apply(h, step).pmp == h.pmp
  {
    hide EnterTrap, TakeInterrupt, SampledMip, ReturnFromMachine, ReturnFromSupervisor;
    match step
    case Exception(code, tval) => TrapsKeepPmp(h, code, tval);
    case Interrupt => InterruptKeepsPmp(h);
    case MachineReturn => ReturnEffects(h); TrapsKeepPmp(h, ILLEGAL_INSTRUCTION, 0x30200073);
    case SupervisorReturn => ReturnEffects(h); TrapsKeepPmp(h, ILLEGAL_INSTRUCTION, 0x10200073);
    case _ =>
  }

  lemma CsrStepKeepsLocked(h: Hart, n: Instruction, word: bv64, mtime: bv64, i: nat)
    requires Shaped(h) && WellFormed(n) && i < Pmp.ENTRY_COUNT && Pmp.Locked(h.pmp.cfg[i])
    ensures Pmp.SameEntry(h.pmp, CsrStep(h, n, word, mtime).pmp, i)
  {
    hide Pmp.SameEntry, Pmp.AfterWrite, EnterTrap, AccessAllowed, Read, Stored, StceEnabled, Incoming;
    SameEntriesAreSame(h.pmp, i);
    TrapsKeepPmp(h, ILLEGAL_INSTRUCTION, word);
    if IsPmpCfg(n.index) || IsPmpAddr(n.index) {
      Pmp.WriteKeepsLocked(h.pmp,
          PmpWrite(n.index, Incoming(n.op, Read(h, n.index, mtime), OperandValue(h, n.operand))), i);
    }
  }

  /** A PMP entry that is locked at the start of a run protects the same bytes in the same way at its end. */
  lemma {:induction false} RunKeepsLocked(states: seq<Hart>, steps: seq<Step>, n: nat, i: nat)
    requires Run(states, steps) && n < |states| && i < Pmp.ENTRY_COUNT && Pmp.Locked(states[0].pmp.cfg[i])
    ensures Shaped(states[n]) && Pmp.SameEntry(states[0].pmp, states[n].pmp, i)
  {
    hide Lawful, Apply;
    LawfulIsShaped(states[0]);
    if n > 0 {
      RunKeepsLocked(states, steps, n - 1, i);
      ApplyKeepsLocked(states[n - 1], steps[n - 1], i);
    }
  }

  // ---------- Trap and return ----------

  lemma MachineEntrySavesMode(v: bv64, p: nat)
    requires IsPrivilege(p)
    ensures PrivilegeFromMpp(LegalMstatus(MachineEntry(v, p))) == p
  {
  }

  lemma MachineEntrySavesMie(v: bv64, p: nat)
    requires IsPrivilege(p)
    ensures LegalMstatus(MachineEntry(v, p)) & MSTATUS_MPIE != 0 <==> v & MSTATUS_MIE != 0
  {
  }

  lemma MachineExitRestoresMie(v: bv64)
    ensures LegalMstatus(MachineExit(v)) & MSTATUS_MIE != 0 <==> v & MSTATUS_MPIE != 0
  {
    if v & MSTATUS_MPP == MSTATUS_MPP {
      assert PrivilegeFromMpp(v) == MACHINE;
    } else {
      assert PrivilegeFromMpp(v) != MACHINE;
    }
  }

  lemma SupervisorEntrySavesMode(v: bv64, p: nat)
    requires p == USER || p == SUPERVISOR
    ensures PrivilegeFromSpp(LegalMstatus(SupervisorEntry(v, p))) == p
  {
  }

  lemma SupervisorEntrySavesSie(v: bv64, p: nat)
    ensures LegalMstatus(SupervisorEntry(v, p)) & MSTATUS_SPIE != 0 <==> v & MSTATUS_SIE != 0
  {
  }

  lemma SupervisorExitRestoresSie(v: bv64)
    ensures LegalMstatus(SupervisorExit(v)) & MSTATUS_SIE != 0 <==> v & MSTATUS_SPIE != 0
  {
  }

  predicate IsEven(pc: bv64) { pc & 0x1 == 0 }

  lemma EvenPcIsSavedWhole(pc: bv64)
    requires IsEven(pc)
    ensures Without(pc, 0x1) == pc
  {
  }

  predicate Mie(h: Hart)
    requires Shaped(h)
  {
    Has(h.csr[MSTATUS], MSTATUS_MIE)
  }

  predicate Sie(h: Hart)
    requires Shaped(h)
  {
    Has(h.csr[MSTATUS], MSTATUS_SIE)
  }

  /** The machine trap stack of `t`, as a handler must preserve it. */
  predicate SameMachineStack(t: Hart, u: Hart)
    requires Shaped(t) && Shaped(u)
  {
    && u.csr[MEPC] == t.csr[MEPC] && PrivilegeFromMpp(u.csr[MSTATUS]) == PrivilegeFromMpp(t.csr[MSTATUS])
    && (u.csr[MSTATUS] & MSTATUS_MPIE != 0 <==> t.csr[MSTATUS] & MSTATUS_MPIE != 0)
  }

  predicate SameSupervisorStack(t: Hart, u: Hart)
    requires Shaped(t) && Shaped(u)
  {
    && u.csr[SEPC] == t.csr[SEPC] && PrivilegeFromSpp(u.csr[MSTATUS]) == PrivilegeFromSpp(t.csr[MSTATUS])
    && (u.csr[MSTATUS] & MSTATUS_SPIE != 0 <==> t.csr[MSTATUS] & MSTATUS_SPIE != 0)
  }

  /** `mret` undoes a trap to M for whatever handler ran in between, if it left MEPC, MPP and MPIE as it found them. */
  lemma MachineReturnUndoesTrap(h: Hart, cause: bv64, tval: bv64, u: Hart)
    requires Lawful(h) && IsEven(h.pc) && Shaped(u) && SameMachineStack(EnterMachine(h, cause, tval), u)
    ensures var t := ReturnFromMachine(u); t.pc == h.pc && t.privilege == h.privilege && Mie(t) == Mie(h)
  {
    assert IsPrivilege(h.privilege);
    hide Lawful, EnterMachine, ReturnFromMachine, ReturnFromSupervisor, LegalMstatus, MachineEntry, MachineExit,
      PrivilegeFromMpp, Without,
      HandlerPc, IsEven;
    EnterMachineEffect(h, cause, tval);
    ReturnEffects(u);
    MachineEntrySavesMode(h.csr[MSTATUS], h.privilege);
    MachineEntrySavesMie(h.csr[MSTATUS], h.privilege);
    MachineExitRestoresMie(u.csr[MSTATUS]);
    EvenPcIsSavedWhole(h.pc);
  }

  lemma SupervisorReturnUndoesTrap(h: Hart, cause: bv64, tval: bv64, u: Hart)
    requires Lawful(h) && h.privilege != MACHINE && IsEven(h.pc) && Shaped(u)
    requires SameSupervisorStack(EnterSupervisor(h, cause, tval), u)
    ensures var t := ReturnFromSupervisor(u); t.pc == h.pc && t.privilege == h.privilege && Sie(t) == Sie(h)
  {
    assert IsPrivilege(h.privilege);
    hide Lawful, EnterSupervisor, ReturnFromMachine, ReturnFromSupervisor, LegalMstatus, SupervisorEntry,
      SupervisorExit, PrivilegeFromSpp,
      Without, HandlerPc, IsEven;
    EnterSupervisorEffect(h, cause, tval);
    ReturnEffects(u);
    SupervisorEntrySavesMode(h.csr[MSTATUS], h.privilege);
    SupervisorEntrySavesSie(h.csr[MSTATUS], h.privilege);
    SupervisorExitRestoresSie(u.csr[MSTATUS]);
    EvenPcIsSavedWhole(h.pc);
  }

  lemma MachineTripKeepsSupervisorBits(v: bv64, p: nat)
    requires LawfulMstatus(v)
    ensures var after := LegalMstatus(MachineExit(LegalMstatus(MachineEntry(v, p))));
            after & SSTATUS_MASK == v & SSTATUS_MASK
  {
  }

  /** What a trap to M and back leaves, slot by slot. */
  lemma MachineTripEffect(h: Hart, cause: bv64, tval: bv64)
    requires Shaped(h)
    ensures var t, mstatus := ReturnFromMachine(EnterMachine(h, cause, tval)),
            LegalMstatus(MachineEntry(h.csr[MSTATUS], h.privilege));
            && t.csr == h.csr[MEPC := Without(h.pc, 0x1)][MCAUSE := cause][MTVAL := tval]
                             [MSTATUS := LegalMstatus(MachineExit(mstatus))]
            && t.gpr == h.gpr && t.pmp == h.pmp && t.plicSeip == h.plicSeip
  {
    hide ReturnFromMachine, ReturnFromSupervisor, EnterMachine, LegalMstatus, MachineEntry, MachineExit,
      PrivilegeFromMpp, Without, HandlerPc;
    EnterMachineEffect(h, cause, tval);
    ReturnEffects(EnterMachine(h, cause, tval));
    var mstatus := LegalMstatus(MachineEntry(h.csr[MSTATUS], h.privilege));
    var saved := h.csr[MEPC := Without(h.pc, 0x1)][MCAUSE := cause][MTVAL := tval];
    assert saved[MSTATUS := mstatus][MSTATUS := LegalMstatus(MachineExit(mstatus))]
        == saved[MSTATUS := LegalMstatus(MachineExit(mstatus))];
  }

  /**
   * A trap to M and back leaves the supervisor's view of the hart as it was: its status bits and every
   * register below machine level.
   */
  lemma MachineTripIsInvisibleToSupervisor(h: Hart, cause: bv64, tval: bv64)
    requires Lawful(h) && IsEven(h.pc)
    ensures var t := ReturnFromMachine(EnterMachine(h, cause, tval));
            && t.pc == h.pc && t.privilege == h.privilege && t.gpr == h.gpr && t.pmp == h.pmp
                 && t.plicSeip == h.plicSeip
            && t.csr[MSTATUS] & SSTATUS_MASK == h.csr[MSTATUS] & SSTATUS_MASK
            && forall i :: 0 <= i < CSR_COUNT && i != MEPC && i != MCAUSE && i != MTVAL && i != MSTATUS ==>
                 t.csr[i] == h.csr[i]
  {
    LawfulIsShaped(h);
    assert LawfulMstatus(h.csr[MSTATUS]);
    hide Mie, Lawful, LawfulMstatus, ReturnFromMachine, EnterMachine, LegalMstatus, MachineEntry, MachineExit,
      PrivilegeFromMpp, Without, IsEven;
    MachineTripEffect(h, cause, tval);
    MachineReturnUndoesTrap(h, cause, tval, EnterMachine(h, cause, tval));
    MachineTripKeepsSupervisorBits(h.csr[MSTATUS], h.privilege);
  }

  lemma MachineEntryKeepsSupervisorStack(v: bv64, p: nat)
    ensures PrivilegeFromSpp(LegalMstatus(MachineEntry(v, p))) == PrivilegeFromSpp(v)
    ensures LegalMstatus(MachineEntry(v, p)) & MSTATUS_SPIE != 0 <==> v & MSTATUS_SPIE != 0
  {
  }

  lemma MachineExitKeepsSupervisorStack(v: bv64)
    ensures PrivilegeFromSpp(LegalMstatus(MachineExit(v))) == PrivilegeFromSpp(v)
    ensures LegalMstatus(MachineExit(v)) & MSTATUS_SPIE != 0 <==> v & MSTATUS_SPIE != 0
  {
  }

  /** Neither a trap to M nor its return touches the supervisor trap stack. */
  lemma MachineTrapsKeepSupervisorStack(h: Hart, cause: bv64, tval: bv64)
    requires Shaped(h)
    ensures SameSupervisorStack(h, EnterMachine(h, cause, tval)) && SameSupervisorStack(h, ReturnFromMachine(h))
  {
    hide LegalMstatus, MachineEntry, MachineExit, EnterMachine, ReturnFromMachine, ReturnFromSupervisor,
      PrivilegeFromSpp, PrivilegeFromMpp,
      Without, HandlerPc;
    EnterMachineEffect(h, cause, tval);
    ReturnEffects(h);
    MachineEntryKeepsSupervisorStack(h.csr[MSTATUS], h.privilege);
    MachineExitKeepsSupervisorStack(h.csr[MSTATUS]);
  }

  lemma SupervisorStacksCompose(s: Hart, t: Hart, u: Hart)
    requires Shaped(s) && Shaped(t) && Shaped(u) && SameSupervisorStack(s, t) && SameSupervisorStack(t, u)
    ensures SameSupervisorStack(s, u)
  {
    hide PrivilegeFromSpp;
  }

  /**
   * A trap to S, a trap to M inside its handler, `mret` and `sret`, for any supervisor handler `outer` that
   * preserves its own stack and any machine handler `inner` that preserves both: the first return is back
   * in the supervisor handler, and after the second PC, mode and SIE are where they were.
   */
  lemma NestedTrapsUnwind(
    h: Hart, cause: bv64, tval: bv64, outer: Hart, innerCause: bv64, innerTval: bv64, inner: Hart)
    requires Lawful(h) && h.privilege != MACHINE && IsEven(h.pc)
    requires Lawful(outer) && IsEven(outer.pc) && SameSupervisorStack(EnterSupervisor(h, cause, tval), outer)
    requires Shaped(inner) && SameMachineStack(EnterMachine(outer, innerCause, innerTval), inner)
    requires SameSupervisorStack(EnterMachine(outer, innerCause, innerTval), inner)
    ensures var back := ReturnFromMachine(inner);
            && back.pc == outer.pc && back.privilege == outer.privilege && Mie(back) == Mie(outer)
            && var t := ReturnFromSupervisor(back);
               t.pc == h.pc && t.privilege == h.privilege && Sie(t) == Sie(h)
  {
    hide Lawful, ReturnFromMachine, ReturnFromSupervisor, EnterMachine, EnterSupervisor, PrivilegeFromSpp, IsEven,
      SameSupervisorStack,
      SameMachineStack, Mie, Sie;
    LawfulIsShaped(h);
    LawfulIsShaped(outer);
    var entered, back := EnterMachine(outer, innerCause, innerTval), ReturnFromMachine(inner);
    MachineReturnUndoesTrap(outer, innerCause, innerTval, inner);
    MachineTrapsKeepSupervisorStack(outer, innerCause, innerTval);
    MachineTrapsKeepSupervisorStack(inner, innerCause, innerTval);
    SupervisorStacksCompose(EnterSupervisor(h, cause, tval), outer, entered);
    SupervisorStacksCompose(EnterSupervisor(h, cause, tval), entered, inner);
    SupervisorStacksCompose(EnterSupervisor(h, cause, tval), inner, back);
    SupervisorReturnUndoesTrap(h, cause, tval, back);
  }

  // ---------- The loop ----------

  /** How far one iteration of the hart's loop gets. */
  datatype Outcome = TookInterrupt | MisalignedPc | FetchFault | Fetched

  /** What an iteration meets: device wires, the length of the encoding at the PC and whether memory is mapped there. */
  datatype Surroundings = Surroundings(wires: Wires, length: nat, mapped: bool)

  /** Sample, take an interrupt, check the PC, check the fetch. */
  function Iterate(h: Hart, w: Surroundings): (r: (Hart, Outcome))
    requires Shaped(h)
    ensures Shaped(r.0)
  {
    var s := Sample(h, w.wires);
    var (t, taken) := TakeInterrupt(s);
    if taken then (t, TookInterrupt)
    else if !IsEven(s.pc) then (EnterTrap(s, 0, s.pc), MisalignedPc)
    else if !Pmp.Allowed(s.pmp, Value(s.pc, 64), w.length, Pmp.Fetch, s.privilege == MACHINE)
        || !w.mapped then (EnterTrap(s, 1, s.pc), FetchFault)
    else (s, Fetched)
  }

  /** Just after a trap: interrupts of the mode it went to are off and the handler address is even. */
  predicate JustTrapped(h: Hart)
    requires Shaped(h)
  {
    IsEven(h.pc) && ((h.privilege == MACHINE && !Mie(h)) || (h.privilege == SUPERVISOR && !Sie(h)))
  }

  lemma HandlerPcIsEven(xtvec: bv64, cause: bv64)
    ensures IsEven(HandlerPc(xtvec, cause))
  {
  }

  lemma MachineEntryMasksMie(v: bv64, p: nat)
    ensures LegalMstatus(MachineEntry(v, p)) & MSTATUS_MIE == 0
  {
  }

  lemma SupervisorEntryMasksSie(v: bv64, p: nat)
    ensures LegalMstatus(SupervisorEntry(v, p)) & MSTATUS_SIE == 0
  {
  }

  lemma TrapsMaskTheirMode(h: Hart, cause: bv64, tval: bv64)
    requires Shaped(h)
    ensures JustTrapped(EnterMachine(h, cause, tval)) && JustTrapped(EnterSupervisor(h, cause, tval))
    ensures EnterMachine(h, cause, tval).privilege == MACHINE && EnterSupervisor(h, cause, tval).privilege == SUPERVISOR
  {
    hide LegalMstatus, MachineEntry, SupervisorEntry, HandlerPc, IsEven, Without, EnterMachine, EnterSupervisor;
    EnterMachineEffect(h, cause, tval);
    EnterSupervisorEffect(h, cause, tval);
    HandlerPcIsEven(h.csr[MTVEC], cause);
    HandlerPcIsEven(h.csr[STVEC], cause);
    MachineEntryMasksMie(h.csr[MSTATUS], h.privilege);
    SupervisorEntryMasksSie(h.csr[MSTATUS], h.privilege);
  }

  lemma SampleKeepsJustTrapped(h: Hart, w: Wires)
    requires Shaped(h) && JustTrapped(h)
    ensures JustTrapped(Sample(h, w)) && Sample(h, w).privilege == h.privilege
  {
    hide SampledMip;
  }

  /** With interrupts masked in M nothing is taken; with them masked in S only what goes to M is. */
  lemma MaskedModesHold(h: Hart)
    requires Shaped(h) && JustTrapped(h)
    ensures var (t, taken) := TakeInterrupt(h);
            taken ==> h.privilege == SUPERVISOR && t.privilege == MACHINE && JustTrapped(t)
  {
    hide EnterMachine, EnterSupervisor, InterruptCause, SelectFrom, IsEven;
    var code := SelectFrom(h, 0);
    SelectedIsTakeable(h);
    TrapsMaskTheirMode(h, InterruptCause(code), 0);
  }

  /**
   * An iteration that stops before the fetch ends in a masked mode; from a masked S-mode only M remains,
   * and from a masked M-mode the fetch is reached.
   */
  lemma IterationAdvances(h: Hart, w: Surroundings)
    requires Shaped(h)
    ensures var (t, outcome) := Iterate(h, w);
            outcome.TookInterrupt? || outcome.MisalignedPc? ==>
              && JustTrapped(t)
              && (JustTrapped(h) ==> outcome.TookInterrupt? && h.privilege == SUPERVISOR && t.privilege == MACHINE)
  {
    hide EnterMachine, EnterSupervisor, InterruptCause, SelectFrom, IsEven, Sample, Pmp.Allowed, DelegatesException,
      Delegated;
    var s := Sample(h, w.wires);
    TrapsMaskTheirMode(s, InterruptCause(SelectFrom(s, 0)), 0);
    TrapsMaskTheirMode(s, Number(0), s.pc);
    if JustTrapped(h) {
      SampleKeepsJustTrapped(h, w.wires);
      MaskedModesHold(s);
    }
  }

  predicate ReachedFetch(outcome: Outcome) { outcome.FetchFault? || outcome.Fetched? }

  /**
   * Whatever the devices do, of any three consecutive iterations one reaches the fetch, so at most two
   * interrupts are taken in a row.
   */
  lemma ThreeIterationsReachTheFetch(h: Hart, w0: Surroundings, w1: Surroundings, w2: Surroundings)
    requires Shaped(h)
    ensures var first := Iterate(h, w0);
            var second := Iterate(first.0, w1);
            var third := Iterate(second.0, w2);
            ReachedFetch(first.1) || ReachedFetch(second.1) || ReachedFetch(third.1)
  {
    hide Iterate, JustTrapped;
    var a := Iterate(h, w0).0;
    IterationAdvances(h, w0);
    IterationAdvances(a, w1);
    IterationAdvances(Iterate(a, w1).0, w2);
  }

  // ---------- Where a trap lands and what a sample shows ----------

  lemma NumberIsSmall(code: nat)
    requires code < 16
    ensures Number(code) <= 0xf
  {
  }

  /** BASE, the trap vector without its mode bits. */
  function Base(xtvec: bv64): bv64 { xtvec & !0x3 }

  lemma SmallCauseIsException(n: bv64)
    requires n <= 0xf
    ensures n & INTERRUPT == 0
  {
  }

  lemma InterruptCauseParts(n: bv64)
    requires n <= 0xf
    ensures (INTERRUPT | n) & INTERRUPT != 0 && (INTERRUPT | n) & 0xff == n
  {
  }

  /** Exceptions go to BASE. */
  lemma ExceptionAddress(xtvec: bv64, code: nat)
    requires code < 16
    ensures HandlerPc(xtvec, Number(code)) == Base(xtvec)
  {
    NumberIsSmall(code);
    SmallCauseIsException(Number(code));
    hide Number;
  }

  lemma VectorSlot(xtvec: bv64, n: bv64)
    requires n <= 0xf
    ensures xtvec & 0x3 == 0x1 ==> HandlerPc(xtvec, INTERRUPT | n) == NextPc(Base(xtvec), n << 2)
    ensures xtvec & 0x3 != 0x1 ==> HandlerPc(xtvec, INTERRUPT | n) == Base(xtvec)
  {
    InterruptCauseParts(n);
  }

  /** An interrupt goes four bytes per code above BASE when the vector table is on, and to BASE otherwise. */
  lemma InterruptAddress(xtvec: bv64, code: nat)
    requires code < 16
    ensures xtvec & 0x3 == 0x1 ==> HandlerPc(xtvec, InterruptCause(code)) == NextPc(Base(xtvec), Number(code) << 2)
    ensures xtvec & 0x3 != 0x1 ==> HandlerPc(xtvec, InterruptCause(code)) == Base(xtvec)
  {
    NumberIsSmall(code);
    VectorSlot(xtvec, Number(code));
    hide Number, HandlerPc, NextPc, Base;
  }

  lemma AssignedBit(v: bv64, mask: bv64, value: bool)
    requires mask != 0
    ensures Has(Assigned(v, mask, value), mask) == value
  {
  }

  lemma AssignedOther(v: bv64, mask: bv64, value: bool, bit: bv64)
    requires mask & bit == 0
    ensures Has(Assigned(v, mask, value), bit) == Has(v, bit)
  {
    AssignedKeepsOthers(v, mask, value, bit);
  }

  lemma SampleKeepsOtherBits(h: Hart, w: Wires, bit: bv64)
    requires Shaped(h) && 0x80 & bit == 0 && 0x8 & bit == 0 && 0x20 & bit == 0 && 0x800 & bit == 0
    ensures Has(SampledMip(h, w), bit) == Has(h.csr[MIP], bit)
  {
    hide Has, Assigned, StceEnabled;
    var a := Assigned(h.csr[MIP], 0x80, w.mtip);
    var b := Assigned(a, 0x8, w.msip);
    AssignedOther(h.csr[MIP], 0x80, w.mtip, bit);
    AssignedOther(a, 0x8, w.msip, bit);
    AssignedOther(b, MIP_STIP, w.stip, bit);
    AssignedOther(b, 0x800, w.meip, bit);
    AssignedOther(Assigned(b, MIP_STIP, w.stip), 0x800, w.meip, bit);
  }

  lemma SampleShowsMachineTimers(h: Hart, w: Wires)
    requires Shaped(h)
    ensures Has(SampledMip(h, w), 0x80) == w.mtip && Has(SampledMip(h, w), 0x8) == w.msip
  {
    hide Has, Assigned, StceEnabled;
    var a := Assigned(h.csr[MIP], 0x80, w.mtip);
    var b := Assigned(a, 0x8, w.msip);
    AssignedBit(h.csr[MIP], 0x80, w.mtip);
    AssignedOther(a, 0x8, w.msip, 0x80);
    AssignedOther(b, MIP_STIP, w.stip, 0x80);
    AssignedOther(b, 0x800, w.meip, 0x80);
    AssignedOther(Assigned(b, MIP_STIP, w.stip), 0x800, w.meip, 0x80);
    AssignedBit(a, 0x8, w.msip);
    AssignedOther(b, MIP_STIP, w.stip, 0x8);
    AssignedOther(b, 0x800, w.meip, 0x8);
    AssignedOther(Assigned(b, MIP_STIP, w.stip), 0x800, w.meip, 0x8);
  }

  lemma SampleShowsOthers(h: Hart, w: Wires)
    requires Shaped(h)
    ensures Has(SampledMip(h, w), 0x800) == w.meip
    ensures Has(SampledMip(h, w), MIP_STIP) == if StceEnabled(h) then w.stip else Has(h.csr[MIP], MIP_STIP)
  {
    hide Has, Assigned, StceEnabled;
    var a := Assigned(h.csr[MIP], 0x80, w.mtip);
    var b := Assigned(a, 0x8, w.msip);
    var c := Assigned(b, MIP_STIP, w.stip);
    AssignedBit(b, 0x800, w.meip);
    AssignedBit(c, 0x800, w.meip);
    AssignedOther(h.csr[MIP], 0x80, w.mtip, MIP_STIP);
    AssignedOther(a, 0x8, w.msip, MIP_STIP);
    AssignedBit(b, MIP_STIP, w.stip);
    AssignedOther(b, 0x800, w.meip, MIP_STIP);
    AssignedOther(c, 0x800, w.meip, MIP_STIP);
  }

  /**
   * After a sample each hardware bit of mip is its wire, STIP is its wire only while STCE is on, and the
   * software bits are untouched.
   */
  lemma SampleShowsTheWires(h: Hart, w: Wires)
    requires Shaped(h)
    ensures var mip := Sample(h, w).csr[MIP];
            && Has(mip, 0x80) == w.mtip && Has(mip, 0x8) == w.msip && Has(mip, 0x800) == w.meip
            && Has(mip, MIP_STIP) == (if StceEnabled(h) then w.stip else Has(h.csr[MIP], MIP_STIP))
            && Has(mip, 0x2) == Has(h.csr[MIP], 0x2) && Has(mip, MIP_SEIP) == Has(h.csr[MIP], MIP_SEIP)
            && Sample(h, w).plicSeip == w.seip
  {
    hide Has, SampledMip, StceEnabled;
    SampleShowsMachineTimers(h, w);
    SampleShowsOthers(h, w);
    SampleKeepsOtherBits(h, w, 0x2);
    SampleKeepsOtherBits(h, w, MIP_SEIP);
  }
}
