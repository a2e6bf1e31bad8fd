/**
 * A hart's mutable register file and the operations that update it in place
 * (`src/emulator/cpu/registers.ts`, `src/emulator/cpu/trap.ts`, `src/emulator/cpu/instructions/system.ts`,
 * `src/emulator/cpu/run.ts`). Each method is proved equal to the function of `Csr` or `Trap` that
 * specifies it; what those functions guarantee is proved there.
 */
module Registers {
  import opened Csr
  import opened Trap
  import Pmp
  import Protection

  class RegisterFile {
    var programCounter: bv64
    var privilegeMode: nat
    const generalPurpose: array<bv64>
    const controlAndStatus: array<bv64>
    var pmp: Pmp.Entries
    var plicSupervisorExternalPending: bool

    ghost predicate Valid()
      reads this, generalPurpose, controlAndStatus
    {
      generalPurpose != controlAndStatus && generalPurpose.Length == 32 && controlAndStatus.Length == CSR_COUNT
          && Pmp.Shaped(pmp)
    }

    ghost function View(): (h: Hart)
      reads this, generalPurpose, controlAndStatus
      requires Valid()
      ensures Shaped(h)
    {
      Hart(programCounter, privilegeMode, generalPurpose[..], controlAndStatus[..], pmp, plicSupervisorExternalPending)
    }

    constructor (resetPc: bv64)
      ensures Valid() && View() == Reset(resetPc) && fresh(generalPurpose) && fresh(controlAndStatus)
    {
      programCounter, privilegeMode, plicSupervisorExternalPending := resetPc, MACHINE, false;
      generalPurpose := new bv64[32](_ => 0);
      controlAndStatus := new bv64[CSR_COUNT](_ => 0);
      pmp := Pmp.Entries(seq(Pmp.ENTRY_COUNT, _ => 0), seq(Pmp.ENTRY_COUNT, _ => 0));
      new;
      controlAndStatus[MSTATUS] := UXL_SXL_64;
      controlAndStatus[MISA] := MISA_HARDWIRED;
      controlAndStatus[STIMECMP] := 0xffff_ffff_ffff_ffff;
      hide Lawful;
      assert generalPurpose[..] == seq(32, _ => 0);
      assert controlAndStatus[..]
          == seq(CSR_COUNT, _ => 0)[MSTATUS := UXL_SXL_64][MISA := MISA_HARDWIRED][STIMECMP := 0xffff_ffff_ffff_ffff];
    }

    method Store(slot: nat, v: bv64)
      requires Valid() && slot < CSR_COUNT
      modifies controlAndStatus
      ensures Valid() && View() == Put(old(View()), slot, v)
    {
      controlAndStatus[slot] := v;
    }

    method WritePmp(index: nat, v: bv64)
      requires Valid() && (IsPmpCfg(index) || IsPmpAddr(index))
      modifies this`pmp
      ensures Valid() && View() == old(View()).(pmp := Pmp.AfterWrite(old(pmp), PmpWrite(index, v)))
    {
      hide UnpackedCfg, Value;
      if IsPmpCfg(index) {
        var first := if index == PMPCFG0 then 0 else 8;
        var incoming := UnpackedCfg(v);
        var next := Pmp.LegalizeCfg(pmp.cfg[first..first + 8], incoming);
        pmp := pmp.(cfg := pmp.cfg[..first] + next + pmp.cfg[first + 8..]);
        assert pmp.cfg == Pmp.AfterWrite(old(pmp), PmpWrite(index, v)).cfg;
      } else {
        var entry := index - PMPADDR0;
        if !Pmp.AddressWriteIgnored(pmp, entry) {
          pmp := pmp.(addr := pmp.addr[entry := Value(v, 64) % Pmp.ADDRESS_LIMIT]);
        }
      }
    }

    /** menvcfg: turning STCE off drops the STIP bit that the compare owned. */
    method WriteMenvcfg(v: bv64)
      requires Valid()
      modifies controlAndStatus
      ensures Valid() && View() == Write(old(View()), MENVCFG, v)
    {
      hide Masked, Without;
      var hadStce := controlAndStatus[MENVCFG] & MENVCFG_STCE != 0;
      Store(MENVCFG, Masked(v, MENVCFG_STCE));
      if hadStce && controlAndStatus[MENVCFG] & MENVCFG_STCE == 0 {
        Store(MIP, Without(controlAndStatus[MIP], MIP_STIP));
      }
    }

    /** `writeControlAndStatusRegister`, register by register. */
    method WriteCsr(index: nat, v: bv64)
      requires Valid() && index < CSR_COUNT
      modifies this`pmp, controlAndStatus
      ensures Valid() && View() == Write(old(View()), index, v)
    {
      hide LegalMstatus, LegalXtvec, Masked, Without, Merged, WrittenSip, WrittenMip, Pmp.AfterWrite, PmpWrite,
        StceEnabled;
      var file := controlAndStatus;
      ghost var h := View();
      if IsReadOnly(index) {
      } else if index == SSTATUS {
        Store(MSTATUS, LegalMstatus(Merged(file[MSTATUS], v, SSTATUS_MASK)));
      } else if index == SIE {
        Store(MIE, Merged(file[MIE], v, SIE_SIP_MASK));
      } else if index == SIP {
        StoreSip(v);
      } else if index == MSTATUS {
        Store(MSTATUS, LegalMstatus(v));
      } else if index == MISA {
        Store(MISA, MISA_HARDWIRED);
      } else if index == MIE {
        Store(MIE, Masked(v, MIE_MASK));
      } else if index == MIP {
        StoreMip(v);
      } else if index == MENVCFG {
        WriteMenvcfg(v);
      } else if index == MIDELEG {
        Store(MIDELEG, Masked(v, MIDELEG_MASK));
      } else if index == MEDELEG {
        Store(MEDELEG, Without(v, MEDELEG_ECALL_FROM_M));
      } else if index == MCOUNTEREN || index == SCOUNTEREN {
        Store(index, Masked(v, COUNTEREN_MASK));
      } else if index == MCOUNTINHIBIT {
        Store(MCOUNTINHIBIT, Masked(v, MCOUNTINHIBIT_MASK));
      } else if index == MTVEC || index == STVEC {
        Store(index, LegalXtvec(v));
      } else if index == MEPC || index == SEPC {
        Store(index, Without(v, 0x1));
      } else if IsPmpCfg(index) || IsPmpAddr(index) {
        WritePmp(index, v);
      } else {
        Store(index, v);
      }
    }

    /** sip: SSIP, and STIP while software owns it; a soft SEIP and everything outside the view stay. */
    method StoreSip(v: bv64)
      requires Valid()
      modifies controlAndStatus
      ensures Valid() && View() == Put(old(View()), MIP, WrittenSip(old(View()), v))
    {
      var mip := controlAndStatus[MIP];
      var stce := controlAndStatus[MENVCFG] & MENVCFG_STCE != 0;
      var keep := (mip & !SIE_SIP_MASK) | (mip & if stce then 0x8a8 else 0x888);
      keep := keep | (mip & MIP_SEIP);
      Store(MIP, keep | (v & if stce then 0x2 else 0x22));
    }

    method StoreMip(v: bv64)
      requires Valid()
      modifies controlAndStatus
      ensures Valid() && View() == Put(old(View()), MIP, WrittenMip(old(View()), v))
    {
      var stce := controlAndStatus[MENVCFG] & MENVCFG_STCE != 0;
      Store(MIP, (v & if stce then 0x202 else 0x222) | (controlAndStatus[MIP] & if stce then 0x8a8 else 0x888));
    }

    method WriteGpr(rd: nat, v: bv64)
      requires Valid() && rd < 32
      modifies generalPurpose
      ensures Valid() && View() == WithGpr(old(View()), rd, v)
    {
      if rd != 0 {
        generalPurpose[rd] := v;
      }
    }

    // ---------- Traps ----------

    /** MPIE takes MIE, MIE clears, MPP takes the mode. */
    static method PushMachineStack(saved: bv64, mode: nat) returns (mstatus: bv64)
      ensures mstatus == MachineEntry(saved, mode)
    {
      hide Has, With, Without, MppBits;
      if Has(saved, MSTATUS_MIE) {
        mstatus := With(saved, MSTATUS_MPIE);
      } else {
        mstatus := Without(saved, MSTATUS_MPIE);
      }
      mstatus := Without(mstatus, MSTATUS_MIE);
      mstatus := With(Without(mstatus, MSTATUS_MPP), MppBits(mode));
    }

    /** SPIE takes SIE, SIE clears, SPP takes the mode. */
    static method PushSupervisorStack(saved: bv64, mode: nat) returns (mstatus: bv64)
      ensures mstatus == SupervisorEntry(saved, mode)
    {
      hide Has, With, Without;
      if Has(saved, MSTATUS_SIE) {
        mstatus := With(saved, MSTATUS_SPIE);
      } else {
        mstatus := Without(saved, MSTATUS_SPIE);
      }
      mstatus := Without(mstatus, MSTATUS_SIE);
      if mode == SUPERVISOR {
        mstatus := With(mstatus, MSTATUS_SPP);
      } else {
        mstatus := Without(mstatus, MSTATUS_SPP);
      }
    }

    method EnterMachineTrap(cause: bv64, tval: bv64)
      requires Valid()
      modifies this, controlAndStatus
      ensures Valid() && View() == EnterMachine(old(View()), cause, tval)
    {
      hide Write, MachineEntry, HandlerPc;
      WriteCsr(MEPC, programCounter);
      WriteCsr(MCAUSE, cause);
      WriteCsr(MTVAL, tval);
      var mstatus := PushMachineStack(controlAndStatus[MSTATUS], privilegeMode);
      WriteCsr(MSTATUS, mstatus);
      privilegeMode := MACHINE;
      programCounter := HandlerPc(controlAndStatus[MTVEC], cause);
    }

    method EnterSupervisorTrap(cause: bv64, tval: bv64)
      requires Valid()
      modifies this, controlAndStatus
      ensures Valid() && View() == EnterSupervisor(old(View()), cause, tval)
    {
      hide Write, SupervisorEntry, HandlerPc;
      WriteCsr(SEPC, programCounter);
      WriteCsr(SCAUSE, cause);
      WriteCsr(STVAL, tval);
      var mstatus := PushSupervisorStack(controlAndStatus[MSTATUS], privilegeMode);
      WriteCsr(MSTATUS, mstatus);
      privilegeMode := SUPERVISOR;
      programCounter := HandlerPc(controlAndStatus[STVEC], cause);
    }

    method ShouldDelegate(code: nat) returns (delegate: bool)
      requires Valid() && code < 16
      ensures delegate == DelegatesException(View(), code)
    {
      hide Bit, Has;
      if privilegeMode == MACHINE {
        return false;
      }
      return Has(controlAndStatus[MEDELEG], Bit(code));
    }

    method IsDelegated(code: nat) returns (delegated: bool)
      requires Valid() && code < 16
      ensures delegated == Delegated(View(), code)
    {
      hide Bit, Has;
      return Has(controlAndStatus[MIDELEG], Bit(code));
    }

    method Trap(code: nat, tval: bv64)
      requires Valid() && code < 16
      modifies this, controlAndStatus
      ensures Valid() && View() == EnterTrap(old(View()), code, tval)
    {
      hide EnterMachine, EnterSupervisor, Number, Bit, DelegatesException;
      var delegate := ShouldDelegate(code);
      if delegate {
        EnterSupervisorTrap(Number(code), tval);
      } else {
        EnterMachineTrap(Number(code), tval);
      }
    }

    method MretInstruction()
      requires Valid()
      modifies this, controlAndStatus
      ensures Valid() && View() == Mret(old(View()))
    {
      hide Write, EnterTrap, MachineExit, PrivilegeFromMpp;
      if privilegeMode != MACHINE {
        Trap(ILLEGAL_INSTRUCTION, 0x30200073);
        return;
      }
      var previous := PrivilegeFromMpp(controlAndStatus[MSTATUS]);
      var mstatus := PopMachineStack(controlAndStatus[MSTATUS]);
      WriteCsr(MSTATUS, mstatus);
      privilegeMode := previous;
      programCounter := controlAndStatus[MEPC];
    }

    /** MIE takes MPIE, MPIE sets, MPP becomes U; MPRV clears unless the mode returned to is M. */
    static method PopMachineStack(saved: bv64) returns (mstatus: bv64)
      ensures mstatus == MachineExit(saved)
    {
      hide Has, With, Without, PrivilegeFromMpp;
      if Has(saved, MSTATUS_MPIE) {
        mstatus := With(saved, MSTATUS_MIE);
      } else {
        mstatus := Without(saved, MSTATUS_MIE);
      }
      mstatus := With(mstatus, MSTATUS_MPIE);
      mstatus := Without(mstatus, MSTATUS_MPP);
      if PrivilegeFromMpp(saved) != MACHINE {
        mstatus := Without(mstatus, MSTATUS_MPRV);
      }
    }

    /** SIE takes SPIE, SPIE sets, SPP becomes U and MPRV clears. */
    static method PopSupervisorStack(saved: bv64) returns (mstatus: bv64)
      ensures mstatus == SupervisorExit(saved)
    {
      hide Has, With, Without;
      if Has(saved, MSTATUS_SPIE) {
        mstatus := With(saved, MSTATUS_SIE);
      } else {
        mstatus := Without(saved, MSTATUS_SIE);
      }
      mstatus := With(mstatus, MSTATUS_SPIE);
      mstatus := Without(mstatus, MSTATUS_SPP);
      mstatus := Without(mstatus, MSTATUS_MPRV);
    }

    method SretInstruction()
      requires Valid()
      modifies this, controlAndStatus
      ensures Valid() && View() == Sret(old(View()))
    {
      hide Write, EnterTrap, SupervisorExit, PrivilegeFromSpp;
      if privilegeMode < SUPERVISOR || (privilegeMode == SUPERVISOR && controlAndStatus[MSTATUS] & MSTATUS_TSR != 0) {
        Trap(ILLEGAL_INSTRUCTION, 0x10200073);
        return;
      }
      var previous := PrivilegeFromSpp(controlAndStatus[MSTATUS]);
      var mstatus := PopSupervisorStack(controlAndStatus[MSTATUS]);
      WriteCsr(MSTATUS, mstatus);
      privilegeMode := previous;
      programCounter := controlAndStatus[SEPC];
    }

    // ---------- Interrupts ----------

    /** The first takeable interrupt in priority order, or 0. */
    method SelectTakeableInterrupt() returns (code: nat)
      requires Valid()
      ensures code < 16 && code == SelectFrom(View(), 0)
    {
      hide Takeable, Bit;
      for k := 0 to |PRIORITY|
        invariant SelectFrom(View(), 0) == SelectFrom(View(), k)
      {
        var takeable := InterruptIsTakeable(PRIORITY[k]);
        if takeable {
          return PRIORITY[k];
        }
      }
      return 0;
    }

    method InterruptIsTakeable(code: nat) returns (takeable: bool)
      requires Valid() && code < 16
      ensures takeable == Takeable(View(), code)
    {
      hide Bit, Has, With, Delegated;
      var mip := controlAndStatus[MIP];
      if plicSupervisorExternalPending {
        mip := With(mip, MIP_SEIP);
      }
      if !Has(mip, Bit(code)) || !Has(controlAndStatus[MIE], Bit(code)) {
        return false;
      }
      var delegated := IsDelegated(code);
      if delegated {
        return privilegeMode != MACHINE
            && (privilegeMode == SUPERVISOR ==> Has(controlAndStatus[MSTATUS], MSTATUS_SIE));
      }
      return privilegeMode != MACHINE || Has(controlAndStatus[MSTATUS], MSTATUS_MIE);
    }

    method TakeInterruptIfAny() returns (taken: bool)
      requires Valid()
      modifies this, controlAndStatus
      ensures Valid() && (View(), taken) == TakeInterrupt(old(View()))
    {
      hide EnterMachine, EnterSupervisor, InterruptCause, SelectFrom, Delegated;
      var code := SelectTakeableInterrupt();
      if code == 0 {
        return false;
      }
      var delegated := IsDelegated(code);
      if delegated {
        EnterSupervisorTrap(InterruptCause(code), 0);
      } else {
        EnterMachineTrap(InterruptCause(code), 0);
      }
      return true;
    }

    /** `sampleDevicePending`: STIP follows its wire only while STCE gives it to the compare. */
    method SampleDevicePending(w: Wires)
      requires Valid()
      modifies this`plicSupervisorExternalPending, controlAndStatus
      ensures Valid() && View() == Sample(old(View()), w)
    {
      hide Assigned;
      ghost var h := View();
      Store(MIP, Assigned(controlAndStatus[MIP], 0x80, w.mtip));
      Store(MIP, Assigned(controlAndStatus[MIP], 0x8, w.msip));
      if controlAndStatus[MENVCFG] & MENVCFG_STCE != 0 {
        Store(MIP, Assigned(controlAndStatus[MIP], MIP_STIP, w.stip));
      }
      Store(MIP, Assigned(controlAndStatus[MIP], 0x800, w.meip));
      plicSupervisorExternalPending := w.seip;
    }

    // ---------- CSR instructions and the loop ----------

    method OperandOf(operand: Operand) returns (x: bv64)
      requires Valid() && (operand.Register? ==> operand.i < 32)
      ensures x == OperandValue(View(), operand)
    {
      match operand
      case Register(i) => x := generalPurpose[i];
      case Immediate(v) => x := v;
    }

    /** Reads the CSR, writes it if the instruction does, then writes rd and moves on. */
    method ExecuteCsr(n: Instruction, mtime: bv64)
      requires Valid() && WellFormed(n)
      modifies this, generalPurpose, controlAndStatus
      ensures Valid() && View() == Executed(old(View()), n, mtime)
    {
      hide Write, Read, Incoming, Writes, OperandValue, NextPc;
      var previous := Read(ViewNow(), n.index, mtime);
      if Writes(n) {
        var x := OperandOf(n.operand);
        WriteCsr(n.index, Incoming(n.op, previous, x));
      }
      WriteGpr(n.rd, previous);
      programCounter := NextPc(programCounter, n.length);
    }

    method CsrInstruction(n: Instruction, word: bv64, mtime: bv64)
      requires Valid() && WellFormed(n)
      modifies this, generalPurpose, controlAndStatus
      ensures Valid() && View() == CsrStep(old(View()), n, word, mtime)
    {
      hide EnterTrap, Executed, AccessAllowed, Writes;
      if AccessAllowed(ViewNow(), n.index, Writes(n)) {
        ExecuteCsr(n, mtime);
      } else {
        Trap(ILLEGAL_INSTRUCTION, word);
      }
    }

    /** The register file as a value, for the read-only checks. */
    function ViewNow(): (h: Hart)
      reads this, generalPurpose, controlAndStatus
      requires Valid()
      ensures h == View()
    {
      Hart(programCounter, privilegeMode, generalPurpose[..], controlAndStatus[..], pmp, plicSupervisorExternalPending)
    }

    /** `accessIsMachine`. */
    method AccessIsMachine(access: Pmp.Access) returns (machine: bool)
      requires Valid()
      ensures machine == Protection.AccessIsMachine(View(), access)
    {
      if access != Pmp.Fetch && controlAndStatus[MSTATUS] & MSTATUS_MPRV != 0 {
        return controlAndStatus[MSTATUS] & MSTATUS_MPP == MSTATUS_MPP;
      }
      return privilegeMode == MACHINE;
    }

    method PhysicalMemoryAccessDenied(address: nat, byteLength: nat, access: Pmp.Access) returns (denied: bool)
      requires Valid()
      ensures denied <==> !Protection.Permitted(View(), address, byteLength, access)
    {
      hide Protection.AccessIsMachine, Pmp.Allowed;
      var machine := AccessIsMachine(access);
      denied := Pmp.AccessDenied(pmp, address, byteLength, access, machine);
    }

    /** One iteration of the loop up to the point where an instruction would execute. */
    method RunToFetch(w: Surroundings) returns (outcome: Outcome)
      requires Valid()
      modifies this, controlAndStatus
      ensures Valid() && (View(), outcome) == Iterate(old(View()), w)
    {
      hide EnterTrap, SelectFrom, EnterMachine, EnterSupervisor, Delegated, Sample, Pmp.Allowed, Value, IsEven;
      SampleDevicePending(w.wires);
      var taken := TakeInterruptIfAny();
      if taken {
        return TookInterrupt;
      }
      if !IsEven(programCounter) {
        Trap(0, programCounter);
        return MisalignedPc;
      }
      var denied := PhysicalMemoryAccessDenied(Value(programCounter, 64), w.length, Pmp.Fetch);
      if denied || !w.mapped {
        Trap(1, programCounter);
        return FetchFault;
      }
      return Fetched;
    }
  }
}
