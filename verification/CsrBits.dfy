/**
 * The CSR instructions in register numbers and bit masks (RISC-V Privileged Architecture 20211203, chapters
 * 2 to 4; `src/emulator/cpu/registers.ts`, `src/emulator/cpu/instructions/system.ts`): which registers each
 * mode reaches, what a read shows, what a write leaves, and what an instruction does with both.
 */
module CsrBits {
  import opened Csr
  import TrapBits

  // ---------- Who reaches what ----------

  predicate IsCounterNumber(index: nat) { index == 0xc00 || index == 0xc01 || index == 0xc02 }

  /** The counter's bit in mcounteren (`enables` 0x306) or scounteren (0x106). */
  predicate IsEnabledIn(h: Hart, enables: nat, index: nat)
    requires Shaped(h) && enables < 4096
  {
    || (index == 0xc00 && h.csr[enables] & 1 != 0) || (index == 0xc01 && h.csr[enables] & 2 != 0)
    || (index == 0xc02 && h.csr[enables] & 4 != 0)
  }

  /** sstatus, sie, stvec, scounteren, sscratch, sepc, scause, stval, sip. */
  predicate IsSupervisorNumber(index: nat) { index in {0x100, 0x104, 0x105, 0x106, 0x140, 0x141, 0x142, 0x143, 0x144} }

  /** mstatus to mcounteren, menvcfg, mcountinhibit, mscratch to mip, mcycle, minstret. */
  predicate IsMachineNumber(index: nat) {
    index in {0x300, 0x301, 0x302, 0x303, 0x304, 0x305, 0x306, 0x30a, 0x320, 0x340, 0x341, 0x342, 0x343, 0x344, 0xb00,
        0xb02}
  }

  predicate IsPmpNumber(index: nat) { index == 0x3a0 || index == 0x3a2 || 0x3b0 <= index <= 0x3bf }

  /** mvendorid, marchid, mimpid, mhartid. */
  predicate IsIdentityNumber(index: nat) { 0xf11 <= index <= 0xf14 }

  lemma Numbers(index: nat)
    ensures IsCounter(index) <==> IsCounterNumber(index)
    ensures IsReadOnly(index) <==> IsCounterNumber(index) || IsIdentityNumber(index)
    ensures IsImplemented(index) <==>
            || IsCounterNumber(index) || IsIdentityNumber(index) || IsPmpNumber(index) || IsMachineNumber(index)
            || IsSupervisorNumber(index) || index == 0x14d || index == 0x180
  {
  }

  lemma Levels(index: nat)
    ensures IsCounterNumber(index) ==> RequiredPrivilege(index) == 0
    ensures IsSupervisorNumber(index) || index == 0x14d || index == 0x180 ==> RequiredPrivilege(index) == 1
    ensures IsIdentityNumber(index) || IsPmpNumber(index) || IsMachineNumber(index) ==> RequiredPrivilege(index) == 3
  {
  }

  lemma Apart(index: nat)
    ensures IsCounterNumber(index) ==> !IsSupervisorNumber(index) && !IsMachineNumber(index) && !IsPmpNumber(index)
    ensures IsIdentityNumber(index) ==> !IsSupervisorNumber(index) && !IsMachineNumber(index) && !IsPmpNumber(index)
    ensures IsSupervisorNumber(index) ==> index != 0x14d && index != 0x180
    ensures IsCounterNumber(index) || IsIdentityNumber(index) ==> index != 0x14d && index != 0x180
  {
  }

  lemma CountersEnabled(h: Hart, index: nat)
    requires Shaped(h) && IsCounterNumber(index)
    ensures h.privilege == 0 ==>
            (CounterEnabled(h, index) <==> IsEnabledIn(h, 0x306, index) && IsEnabledIn(h, 0x106, index))
    ensures h.privilege == 1 ==> (CounterEnabled(h, index) <==> IsEnabledIn(h, 0x306, index))
    ensures h.privilege == 3 ==> CounterEnabled(h, index)
  {
  }

  lemma TimerEnabled(h: Hart)
    requires Shaped(h)
    ensures StceEnabled(h) <==> h.csr[0x30a] & 0x8000_0000_0000_0000 != 0
    ensures IsEnabledIn(h, 0x306, 0xc01) <==> h.csr[0x306] & 2 != 0
  {
  }

  /** The access table of each mode. */
  lemma AccessByMode(h: Hart, index: nat, writes: bool)
    requires Lawful(h) && Shaped(h)
    ensures h.privilege == 0 ==>
              (AccessAllowed(h, index, writes) <==>
               !writes && IsCounterNumber(index) && IsEnabledIn(h, 0x306, index) && IsEnabledIn(h, 0x106, index))
    ensures h.privilege == 1 ==>
              (AccessAllowed(h, index, writes) <==>
               || IsSupervisorNumber(index)
               || (!writes && IsCounterNumber(index) && IsEnabledIn(h, 0x306, index))
               || (index == 0x14d && h.csr[0x30a] & 0x8000_0000_0000_0000 != 0 && h.csr[0x306] & 2 != 0)
               || (index == 0x180 && h.csr[0x300] & 0x10_0000 == 0))
    ensures h.privilege == 3 ==>
              (AccessAllowed(h, index, writes) <==>
               || IsSupervisorNumber(index) || index == 0x14d || index == 0x180 || IsMachineNumber(index)
                   || IsPmpNumber(index)
               || (!writes && (IsCounterNumber(index) || IsIdentityNumber(index))))
  {
    hide Lawful, IsImplemented, IsReadOnly, IsCounter, RequiredPrivilege, CounterEnabled, StceEnabled,
      IsCounterNumber, IsEnabledIn,
      IsSupervisorNumber, IsMachineNumber, IsPmpNumber, IsIdentityNumber;
    Numbers(index);
    Levels(index);
    Apart(index);
    if IsCounterNumber(index) {
      CountersEnabled(h, index);
    }
    TimeIsCounter();
    CountersEnabled(h, 0xc01);
    TimerEnabled(h);
  }

  lemma TimeIsCounter()
    ensures IsCounterNumber(0xc01)
  {
  }

  // ---------- What a read shows ----------

  /** Registers without a slot of their own, by number; every other one outside PMP shows its slot. */
  lemma ReadByNumber(h: Hart, index: nat, mtime: bv64)
    requires Shaped(h) && index < 4096 && !IsPmpNumber(index)
    ensures var mip := if h.plicSeip then h.csr[0x344] | 0x200 else h.csr[0x344];
            Read(h, index, mtime)
            == if index == 0xc00 then h.csr[0xb00] else if index == 0xc01 then mtime
                else if index == 0xc02 then h.csr[0xb02]
               else if index == 0x100 then h.csr[0x300] & 0x3_000c_0122
               else if index == 0x104 then h.csr[0x304] & 0x222
               else if index == 0x144 then mip & 0x222
               else if index == 0x344 then mip
               else h.csr[index]
  {
  }

  // ---------- What a write leaves ----------

  /**
   * The value of a register after `v` is written to it; `before` is what it held, and `stce` whether STIP
   * belongs to the timer compare.
   */
  predicate Leaves(index: nat, before: bv64, stce: bool, v: bv64, after: bv64) {
    if index == 0x300 then
      && Masked(after, 0xffff_fff0_ffff_e7ff) == Masked(v, 0xffff_fff0_ffff_e7ff)
           && Masked(after, 0xf_0000_0000) == 0xa_0000_0000
      && Masked(after, 0x1800) == if Masked(v, 0x1800) == 0x1000 then 0 else Masked(v, 0x1800)
    else if index == 0x305 || index == 0x105 then
      && Masked(after, 0xffff_ffff_ffff_fffc) == Masked(v, 0xffff_ffff_ffff_fffc)
      && Masked(after, 0x3) == if Masked(v, 0x3) == 1 then 1 else 0
    else if index == 0x344 then
      && Masked(after, 0x202) == Masked(v, 0x202) && Masked(after, 0x888) == Masked(before, 0x888)
      && Masked(after, 0x20) == Masked(if stce then before else v, 0x20) && Masked(after, 0xffff_ffff_ffff_f555) == 0
    else if index == 0x301 then after == 0x8000_0000_0014_1105
    else after == Masked(v,
           if index == 0x304 then 0xaaa else if index == 0x303 then 0x222
               else if index == 0x302 then 0xffff_ffff_ffff_f7ff
           else if index == 0x306 || index == 0x106 then 0x7 else if index == 0x320 then 0x5
           else if index == 0x30a then 0x8000_0000_0000_0000
           else if index == 0x341 || index == 0x141 then 0xffff_ffff_ffff_fffe
           else 0xffff_ffff_ffff_ffff)
  }

  /** A register outside PMP whose number is that of its slot. */
  predicate HasOwnSlot(index: nat) {
    index == 0x14d || index == 0x180 || IsMachineNumber(index)
        || (IsSupervisorNumber(index) && index !in {0x100, 0x104, 0x144})
  }

  predicate Stce(h: Hart)
    requires Shaped(h)
  {
    h.csr[0x30a] & 0x8000_0000_0000_0000 != 0
  }

  lemma StatusRest(v: bv64)
    ensures Masked(LegalMstatus(v), 0xffff_fff0_ffff_e7ff) == Masked(v, 0xffff_fff0_ffff_e7ff)
  {
    hide Masked, With, Without;
    var rest: bv64, base := 0xffff_fff0_ffff_e7ff, if v & 0x1800 == 0x1000 then Without(v, 0x1800) else v;
    TrapBits.WithKeepsOutside(v, 0x1800, rest);
    TrapBits.WithKeepsOutside(base, 0xf_0000_0000, rest);
    TrapBits.WithKeepsOutside(Without(base, 0xf_0000_0000), 0xa_0000_0000, rest);
  }

  lemma StatusFields(v: bv64)
    ensures Masked(LegalMstatus(v), 0xf_0000_0000) == 0xa_0000_0000
    ensures Masked(LegalMstatus(v), 0x1800) == if Masked(v, 0x1800) == 0x1000 then 0 else Masked(v, 0x1800)
  {
  }

  lemma VectorParts(v: bv64)
    ensures Masked(LegalXtvec(v), 0xffff_ffff_ffff_fffc) == Masked(v, 0xffff_ffff_ffff_fffc)
    ensures Masked(LegalXtvec(v), 0x3) == if Masked(v, 0x3) == 1 then 1 else 0
  {
  }

  lemma PendingParts(h: Hart, v: bv64)
    requires Shaped(h)
    ensures Leaves(0x344, h.csr[0x344], Stce(h), v, WrittenMip(h, v))
  {
    PendingPartsOf(h.csr[0x344], v);
    hide Leaves;
  }

  lemma PendingPartsOf(before: bv64, v: bv64)
    ensures Leaves(0x344, before, true, v, (v & 0x202) | (before & 0x8a8))
    ensures Leaves(0x344, before, false, v, (v & 0x222) | (before & 0x888))
  {
  }

  lemma Masks(v: bv64)
    ensures Masked(v, 0xffff_ffff_ffff_ffff) == v && Without(v, 0x800) == Masked(v, 0xffff_ffff_ffff_f7ff)
    ensures Without(v, 0x1) == Masked(v, 0xffff_ffff_ffff_fffe)
  {
  }

  /** What a write stores, by number. */
  lemma StoredByNumber(h: Hart, index: nat, v: bv64)
    requires Shaped(h) && HasOwnSlot(index)
    ensures Leaves(index, h.csr[index], Stce(h), v, Stored(h, index, v))
  {
    hide Masked, Without, LegalMstatus, LegalXtvec, WrittenMip, WrittenSip, Merged;
    Masks(v);
    if index == 0x300 {
      StatusRest(v);
      StatusFields(v);
    } else if index == 0x305 || index == 0x105 {
      VectorParts(v);
    } else if index == 0x344 {
      PendingParts(h, v);
    }
  }

  /** The bits that `sip` passes on to mip. */
  lemma SipMaskByNumber(h: Hart)
    requires Shaped(h)
    ensures SipWritable(h) == if Stce(h) then 0x2 else 0x22
  {
  }

  // ---------- What an instruction does ----------

  /** The value a CSR instruction writes: its operand, or what it read with the operand's bits set or cleared. */
  function NewValue(op: Op, read: bv64, x: bv64): bv64 {
    match op
    case ReadWrite => x
    case ReadSet => read | x
    case ReadClear => read & !x
  }

  lemma WriteKeepsTheRest(h: Hart, index: nat, v: bv64)
    requires Shaped(h) && index < 4096
    ensures var t := Write(h, index, v);
            t.gpr == h.gpr && t.pc == h.pc && t.privilege == h.privilege && t.plicSeip == h.plicSeip
  {
    hide Stored, StceEnabled, Without, PmpWrite, Pmp.AfterWrite;
  }

  lemma NextIsSum(pc: bv64, length: bv64)
    ensures NextPc(pc, length) == pc + length
  {
  }

  lemma UpdateKeepsTheRest(h: Hart, n: Instruction, read: bv64)
    requires Shaped(h) && WellFormed(n)
    ensures var u := Updated(h, n, read);
            u.gpr == h.gpr && u.pc == h.pc && u.privilege == h.privilege && u.plicSeip == h.plicSeip
  {
    hide Write, Writes, Incoming, OperandValue;
    WriteKeepsTheRest(h, n.index, Incoming(n.op, read, OperandValue(h, n.operand)));
  }

  lemma RdAndPc(u: Hart, rd: nat, v: bv64, length: bv64)
    requires Shaped(u) && rd < 32 && u.gpr[0] == 0
    ensures var t := Advance(WithGpr(u, rd, v), length);
            && t.pc == NextPc(u.pc, length) && t.privilege == u.privilege && t.plicSeip == u.plicSeip
            && |t.gpr| == 32 && t.gpr[0] == 0 && forall r :: 1 <= r < 32 ==> t.gpr[r] == if r == rd then v else u.gpr[r]
  {
    hide NextPc;
  }

  /**
   * rd gets what the CSR showed before the write, x0 and every other register stay, and the PC moves past
   * the encoding.
   */
  lemma ReadsIntoRd(h: Hart, n: Instruction, mtime: bv64)
    requires Lawful(h) && Shaped(h) && WellFormed(n) && AccessAllowed(h, n.index, Writes(n))
    ensures var t, read := Executed(h, n, mtime), Read(h, n.index, mtime);
            && t.pc == h.pc + n.length && t.privilege == h.privilege && t.plicSeip == h.plicSeip
            && |t.gpr| == 32 && t.gpr[0] == 0
            && forall r :: 1 <= r < 32 ==> t.gpr[r] == if r == n.rd then read else h.gpr[r]
  {
    NextIsSum(h.pc, n.length);
    assert h.gpr[0] == 0;
    hide Lawful, Read, Updated, AccessAllowed, Writes, NextPc, Advance, WithGpr;
    var read := Read(h, n.index, mtime);
    UpdateKeepsTheRest(h, n, read);
    RdAndPc(Updated(h, n, read), n.rd, read, n.length);
  }

  /** `csrrs` and `csrrc` with x0 or a zero immediate write nothing; every other CSR instruction writes. */
  lemma WritesByOperand(n: Instruction)
    ensures Writes(n) <==> n.op == ReadWrite || (n.operand != Register(0) && n.operand != Immediate(0))
  {
  }

  lemma OperandByKind(h: Hart, n: Instruction, i: nat, v: bv64)
    requires Shaped(h) && WellFormed(n)
    ensures n.operand == Register(i) ==> i < 32 && OperandValue(h, n.operand) == h.gpr[i]
    ensures n.operand == Immediate(v) ==> OperandValue(h, n.operand) == v
  {
  }

  lemma IncomingIsNewValue(op: Op, read: bv64, x: bv64)
    ensures Incoming(op, read, x) == NewValue(op, read, x)
  {
  }

  lemma OwnSlotIsPlain(index: nat)
    requires HasOwnSlot(index)
    ensures index < 4096 && Slot(index) == index && !IsReadOnly(index) && !IsPmpCfg(index) && !IsPmpAddr(index)
    ensures index == MENVCFG <==> index == 0x30a
  {
  }

  lemma WriteReachesItsSlot(h: Hart, index: nat, v: bv64)
    requires Shaped(h) && HasOwnSlot(index)
    ensures Write(h, index, v).csr[index] == Stored(h, index, v) && Write(h, index, v).pmp == h.pmp
    ensures forall i :: 0 <= i < 4096 && i != index && !(index == 0x30a && i == 0x344) ==>
            Write(h, index, v).csr[i] == h.csr[i]
  {
    hide Stored, StceEnabled, Without, HasOwnSlot, Slot, IsReadOnly, IsPmpCfg, IsPmpAddr;
    OwnSlotIsPlain(index);
  }

  /**
   * An instruction that writes leaves in a register with its own slot what its legalisation makes of the new
   * value, and changes no other register, except that menvcfg may drop STIP from mip.
   */
  lemma WritesTheNewValue(h: Hart, n: Instruction, mtime: bv64)
    requires Lawful(h) && Shaped(h) && WellFormed(n) && Writes(n) && HasOwnSlot(n.index)
    ensures var t, x := Executed(h, n, mtime), OperandValue(h, n.operand);
            && Leaves(n.index, h.csr[n.index], Stce(h), NewValue(n.op, Read(h, n.index, mtime), x), t.csr[n.index])
            && t.pmp == h.pmp
            && forall i :: 0 <= i < 4096 && i != n.index && !(n.index == 0x30a && i == 0x344) ==> t.csr[i] == h.csr[i]
  {
    hide Lawful, Read, Write, Stored, Leaves, Incoming, NewValue, OperandValue, HasOwnSlot;
    var v := Incoming(n.op, Read(h, n.index, mtime), OperandValue(h, n.operand));
    IncomingIsNewValue(n.op, Read(h, n.index, mtime), OperandValue(h, n.operand));
    WriteReachesItsSlot(h, n.index, v);
    StoredByNumber(h, n.index, v);
  }

  /** An instruction that does not write changes no CSR. */
  lemma ReadsOnly(h: Hart, n: Instruction, mtime: bv64)
    requires Shaped(h) && WellFormed(n) && !Writes(n)
    ensures Executed(h, n, mtime).csr == h.csr && Executed(h, n, mtime).pmp == h.pmp
  {
    hide Read;
  }
}
