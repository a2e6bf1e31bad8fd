/**
 * The control and status registers of a hart (`src/emulator/cpu/registers.ts`): what a read
 * returns, what a write stores after legalisation, which accesses are legal, and the CSR
 * instructions (`src/emulator/cpu/instructions/system.ts`). RISC-V Privileged Architecture 20211203.
 *
 * The source's 8-byte masks are written as 64-bit constants. The PMP registers live in
 * `Pmp.Entries`; every other CSR is a slot of the 4096-slot file.
 */
module Csr {
  import Pmp

  const CYCLE: nat := 0xc00
  const TIME: nat := 0xc01
  const INSTRET: nat := 0xc02
  const SSTATUS: nat := 0x100
  const SIE: nat := 0x104
  const STVEC: nat := 0x105
  const SCOUNTEREN: nat := 0x106
  const SSCRATCH: nat := 0x140
  const SEPC: nat := 0x141
  const SCAUSE: nat := 0x142
  const STVAL: nat := 0x143
  const SIP: nat := 0x144
  const STIMECMP: nat := 0x14d
  const SATP: nat := 0x180
  const MSTATUS: nat := 0x300
  const MISA: nat := 0x301
  const MEDELEG: nat := 0x302
  const MIDELEG: nat := 0x303
  const MIE: nat := 0x304
  const MTVEC: nat := 0x305
  const MCOUNTEREN: nat := 0x306
  const MENVCFG: nat := 0x30a
  const MCOUNTINHIBIT: nat := 0x320
  const MSCRATCH: nat := 0x340
  const MEPC: nat := 0x341
  const MCAUSE: nat := 0x342
  const MTVAL: nat := 0x343
  const MIP: nat := 0x344
  const PMPCFG0: nat := 0x3a0
  const PMPCFG2: nat := 0x3a2
  const PMPADDR0: nat := 0x3b0
  const MCYCLE: nat := 0xb00
  const MINSTRET: nat := 0xb02
  const MVENDORID: nat := 0xf11
  const MHARTID: nat := 0xf14
  const CSR_COUNT: nat := 4096

  const USER: nat := 0
  const SUPERVISOR: nat := 1
  const MACHINE: nat := 3

  const MSTATUS_SIE: bv64 := 0x2
  const MSTATUS_MIE: bv64 := 0x8
  const MSTATUS_SPIE: bv64 := 0x20
  const MSTATUS_MPIE: bv64 := 0x80
  const MSTATUS_SPP: bv64 := 0x100
  const MSTATUS_MPP: bv64 := 0x1800
  const MPP_SUPERVISOR: bv64 := 0x800
  const MPP_RESERVED: bv64 := 0x1000
  const MSTATUS_MPRV: bv64 := 0x2_0000
  const MSTATUS_TVM: bv64 := 0x10_0000
  const MSTATUS_TSR: bv64 := 0x40_0000
  const UXL_SXL: bv64 := 0xf_0000_0000
  const UXL_SXL_64: bv64 := 0xa_0000_0000
  const MISA_HARDWIRED: bv64 := 0x8000_0000_0014_1105

  const SSTATUS_MASK: bv64 := 0x3_000c_0122
  const SIE_SIP_MASK: bv64 := 0x222
  const MIE_MASK: bv64 := 0xaaa
  const MIDELEG_MASK: bv64 := 0x222
  const MEDELEG_ECALL_FROM_M: bv64 := 0x800
  const MENVCFG_STCE: bv64 := 0x8000_0000_0000_0000
  const MIP_STIP: bv64 := 0x20
  const MIP_SEIP: bv64 := 0x200
  const COUNTEREN_MASK: bv64 := 0x7
  const MCOUNTINHIBIT_MASK: bv64 := 0x5

  datatype Hart = Hart(pc: bv64, privilege: nat, gpr: seq<bv64>, csr: seq<bv64>, pmp: Pmp.Entries, plicSeip: bool)

  predicate Shaped(h: Hart) { |h.gpr| == 32 && |h.csr| == CSR_COUNT && Pmp.Shaped(h.pmp) }

  // ---------- Which registers exist, and for whom ----------

  predicate IsIdentity(index: nat) { MVENDORID <= index <= MHARTID }
  predicate IsCounter(index: nat) { index == CYCLE || index == TIME || index == INSTRET }
  predicate IsPmpCfg(index: nat) { index == PMPCFG0 || index == PMPCFG2 }
  predicate IsPmpAddr(index: nat) { PMPADDR0 <= index < PMPADDR0 + Pmp.ENTRY_COUNT }

  predicate IsImplemented(index: nat) {
    || IsCounter(index) || IsIdentity(index) || IsPmpCfg(index) || IsPmpAddr(index)
    || index == SSTATUS || index == SIE || index == STVEC || index == SCOUNTEREN || index == SSCRATCH || index == SEPC
    || index == SCAUSE || index == STVAL || index == SIP || index == STIMECMP || index == SATP
    || index == MSTATUS || index == MISA || index == MEDELEG || index == MIDELEG || index == MIE || index == MTVEC
    || index == MCOUNTEREN || index == MCOUNTINHIBIT || index == MSCRATCH || index == MEPC || index == MCAUSE
    || index == MTVAL || index == MIP || index == MENVCFG || index == MCYCLE || index == MINSTRET
  }

  predicate IsReadOnly(index: nat) { IsIdentity(index) || IsCounter(index) }

  /** Address bits 9:8. */
  function RequiredPrivilege(index: nat): nat { index / 0x100 % 4 }

  function CounterEnableBit(index: nat): bv64 { if index == CYCLE then 0x1 else if index == TIME then 0x2 else 0x4 }

  predicate CounterEnabled(h: Hart, index: nat)
    requires Shaped(h)
  {
    && (h.privilege < MACHINE ==> h.csr[MCOUNTEREN] & CounterEnableBit(index) != 0)
    && (h.privilege == USER ==> h.csr[SCOUNTEREN] & CounterEnableBit(index) != 0)
  }

  predicate StceEnabled(h: Hart)
    requires Shaped(h)
  {
    h.csr[MENVCFG] & MENVCFG_STCE != 0
  }

  predicate AccessAllowed(h: Hart, index: nat, writes: bool)
    requires Shaped(h)
  {
    && IsImplemented(index)
    && h.privilege >= RequiredPrivilege(index)
    && (index == STIMECMP && h.privilege < MACHINE ==> StceEnabled(h) && CounterEnabled(h, TIME))
    && !(writes && IsReadOnly(index))
    && !(index == SATP && h.privilege == SUPERVISOR && h.csr[MSTATUS] & MSTATUS_TVM != 0)
    && (IsCounter(index) ==> CounterEnabled(h, index))
  }

  // ---------- Reads ----------

  predicate Has(v: bv64, mask: bv64) { v & mask != 0 }
  function Masked(v: bv64, mask: bv64): bv64 { v & mask }
  function With(v: bv64, mask: bv64): bv64 { v | mask }
  function Without(v: bv64, mask: bv64): bv64 { v & !mask }

  /** `v` under the mask, `old` elsewhere. */
  function Merged(previous: bv64, v: bv64, mask: bv64): bv64 { (previous & !mask) | (v & mask) }

  /** The mip slot with the PLIC supervisor wire added to SEIP. */
  function ReadableMip(h: Hart): bv64
    requires Shaped(h)
  {
    if h.plicSeip then With(h.csr[MIP], MIP_SEIP) else h.csr[MIP]
  }

  function PackedCfg(cfg: seq<bv8>, first: nat): bv64
    requires first + 8 <= |cfg|
  {
    Packed(cfg[first], cfg[first + 1], cfg[first + 2], cfg[first + 3], cfg[first + 4], cfg[first + 5], cfg[first + 6],
        cfg[first + 7])
  }

  function Packed(a: bv8, b: bv8, c: bv8, d: bv8, e: bv8, f: bv8, g: bv8, h: bv8): bv64 {
    (a as bv64) | ((b as bv64) << 8) | ((c as bv64) << 16) | ((d as bv64) << 24) | ((e as bv64) << 32)
        | ((f as bv64) << 40)
    | ((g as bv64) << 48) | ((h as bv64) << 56)
  }

  function UnpackedCfg(value: bv64): (bytes: seq<bv8>)
    ensures |bytes| == 8
  {
    [(value & 0xff) as bv8, ((value >> 8) & 0xff) as bv8, ((value >> 16) & 0xff) as bv8, ((value >> 24) & 0xff) as bv8,
     ((value >> 32) & 0xff) as bv8, ((value >> 40) & 0xff) as bv8, ((value >> 48) & 0xff) as bv8,
         ((value >> 56) & 0xff) as bv8]
  }

  /** The number whose `n` low bits are those of `v`, and the word whose `n` low bits are those of a number. */
  function Value(
      v: bv64, n: nat): nat { if n == 0 then 0 else (if v & 1 != 0 then 1 else 0) + 2 * Value(v >> 1, n - 1) }

  function Bits(value: nat, n: nat): bv64 {
    if n == 0 then 0 else (if value % 2 == 1 then 1 else 0) | (Bits(value / 2, n - 1) << 1)
  }

  /** `mtime` is what the CLINT shows for the `time` CSR. */
  function Read(h: Hart, index: nat, mtime: bv64): bv64
    requires Shaped(h) && index < CSR_COUNT
  {
    if index == TIME then mtime
    else if index == CYCLE then h.csr[MCYCLE]
    else if index == INSTRET then h.csr[MINSTRET]
    else if index == SSTATUS then Masked(h.csr[MSTATUS], SSTATUS_MASK)
    else if index == SIE then Masked(h.csr[MIE], SIE_SIP_MASK)
    else if index == SIP then Masked(ReadableMip(h), SIE_SIP_MASK)
    else if index == MIP then ReadableMip(h)
    else if index == PMPCFG0 then PackedCfg(h.pmp.cfg, 0)
    else if index == PMPCFG2 then PackedCfg(h.pmp.cfg, 8)
    else if IsPmpAddr(index) then Bits(h.pmp.addr[index - PMPADDR0], 64)
    else h.csr[index]
  }

  // ---------- Writes ----------

  /** MPP never holds the reserved encoding; UXL and SXL stay 64-bit. */
  function LegalMstatus(v: bv64): bv64 {
    With(Without(if v & MSTATUS_MPP == MPP_RESERVED then Without(v, MSTATUS_MPP) else v, UXL_SXL), UXL_SXL_64)
  }

  function LegalXtvec(v: bv64): bv64 { if v & 0x2 != 0 then v & !0x3 else v }

  function MipWritable(h: Hart): bv64
    requires Shaped(h)
  {
    if StceEnabled(h) then 0x202 else 0x222
  }

  function MipHardware(h: Hart): bv64
    requires Shaped(h)
  {
    if StceEnabled(h) then 0x8a8 else 0x888
  }

  function SipWritable(h: Hart): bv64
    requires Shaped(h)
  {
    if StceEnabled(h) then 0x2 else 0x22
  }

  function Put(h: Hart, index: nat, v: bv64): (t: Hart)
    requires Shaped(h) && index < CSR_COUNT
    ensures Shaped(t)
  {
    h.(csr := h.csr[index := v])
  }

  function WrittenSip(h: Hart, v: bv64): bv64
    requires Shaped(h)
  {
    var mip := h.csr[MIP];
    (((mip & !SIE_SIP_MASK) | (mip & MipHardware(h))) | (mip & MIP_SEIP)) | (v & SipWritable(h))
  }

  function WrittenMip(h: Hart, v: bv64): bv64
    requires Shaped(h)
  {
    (v & MipWritable(h)) | (h.csr[MIP] & MipHardware(h))
  }

  /** The supervisor registers that are views of machine registers share their slots. */
  function Slot(index: nat): (slot: nat)
    ensures index < CSR_COUNT ==> slot < CSR_COUNT
  {
    if index == SSTATUS then MSTATUS else if index == SIE then MIE else if index == SIP then MIP else index
  }

  /** What a write of `v` to a register outside PMP leaves in its slot. */
  function Stored(h: Hart, index: nat, v: bv64): bv64
    requires Shaped(h) && index < CSR_COUNT
  {
    if index == SSTATUS then LegalMstatus(Merged(h.csr[MSTATUS], v, SSTATUS_MASK))
    else if index == SIE then Merged(h.csr[MIE], v, SIE_SIP_MASK)
    else if index == SIP then WrittenSip(h, v)
    else if index == MSTATUS then LegalMstatus(v)
    else if index == MISA then MISA_HARDWIRED
    else if index == MIE then Masked(v, MIE_MASK)
    else if index == MIP then WrittenMip(h, v)
    else if index == MENVCFG then Masked(v, MENVCFG_STCE)
    else if index == MIDELEG then Masked(v, MIDELEG_MASK)
    else if index == MEDELEG then Without(v, MEDELEG_ECALL_FROM_M)
    else if index == MCOUNTEREN || index == SCOUNTEREN then Masked(v, COUNTEREN_MASK)
    else if index == MCOUNTINHIBIT then Masked(v, MCOUNTINHIBIT_MASK)
    else if index == MTVEC || index == STVEC then LegalXtvec(v)
    else if index == MEPC || index == SEPC then Without(v, 0x1)
    else v
  }

  /** A guest write of a PMP register, as one of `Pmp`'s writes. */
  function PmpWrite(index: nat, v: bv64): (w: Pmp.Write)
    requires IsPmpCfg(index) || IsPmpAddr(index)
    ensures Pmp.IsWrite(w)
  {
    if IsPmpCfg(index) then Pmp.Cfg(if index == PMPCFG0 then 0 else 8, UnpackedCfg(v))
    else Pmp.Addr(index - PMPADDR0, Value(v, 64))
  }

  /** Turning STCE off drops the STIP bit that the compare owned. */
  function Write(h: Hart, index: nat, v: bv64): (t: Hart)
    requires Shaped(h) && index < CSR_COUNT
    ensures Shaped(t)
  {
    if IsReadOnly(index) then h
    else if IsPmpCfg(index) || IsPmpAddr(index) then h.(pmp := Pmp.AfterWrite(h.pmp, PmpWrite(index, v)))
    else
      var t := Put(h, Slot(index), Stored(h, index, v));
      if index == MENVCFG && StceEnabled(h) && !StceEnabled(t) then Put(t, MIP, Without(t.csr[MIP], MIP_STIP)) else t
  }

  // ---------- Lawful states ----------

  predicate LawfulMstatus(v: bv64) { v & MSTATUS_MPP != MPP_RESERVED && v & UXL_SXL == UXL_SXL_64 }
  predicate MprvSet(v: bv64) { v & MSTATUS_MPRV != 0 }
  predicate LawfulPending(v: bv64) { v & !MIE_MASK == 0 }
  predicate LawfulMideleg(v: bv64) { v & !MIDELEG_MASK == 0 }
  predicate LawfulMedeleg(v: bv64) { v & MEDELEG_ECALL_FROM_M == 0 }
  predicate LawfulXtvec(v: bv64) { v & 0x3 == 0 || v & 0x3 == 1 }
  predicate LawfulXepc(v: bv64) { v & 0x1 == 0 }
  predicate LawfulMenvcfg(v: bv64) { v & !MENVCFG_STCE == 0 }
  predicate LawfulInhibit(v: bv64) { v & !MCOUNTINHIBIT_MASK == 0 }
  predicate LawfulCounteren(v: bv64) { v & !COUNTEREN_MASK == 0 }

  predicate IsPrivilege(p: nat) { p == USER || p == SUPERVISOR || p == MACHINE }

  /** What holds of a hart at every step: legal encodings everywhere, and MPRV set in machine mode only. */
  predicate Lawful(h: Hart) {
    && Shaped(h) && h.gpr[0] == 0 && IsPrivilege(h.privilege) && Pmp.Legal(h.pmp)
    && LawfulMstatus(h.csr[MSTATUS]) && (MprvSet(h.csr[MSTATUS]) ==> h.privilege == MACHINE)
    && LawfulPending(h.csr[MIE]) && LawfulPending(h.csr[MIP])
    && LawfulMideleg(h.csr[MIDELEG]) && LawfulMedeleg(h.csr[MEDELEG])
    && LawfulXtvec(h.csr[MTVEC]) && LawfulXtvec(h.csr[STVEC]) && LawfulXepc(h.csr[MEPC]) && LawfulXepc(h.csr[SEPC])
    && h.csr[MISA] == MISA_HARDWIRED && (forall i :: MVENDORID <= i <= MHARTID ==> h.csr[i] == 0)
    && LawfulMenvcfg(h.csr[MENVCFG]) && LawfulInhibit(h.csr[MCOUNTINHIBIT])
    && LawfulCounteren(h.csr[MCOUNTEREN]) && LawfulCounteren(h.csr[SCOUNTEREN])
  }

  /** The values a lawful hart may hold in a slot. */
  predicate Accepts(h: Hart, slot: nat, v: bv64) {
    && (slot == MSTATUS ==> LawfulMstatus(v) && (MprvSet(v) ==> h.privilege == MACHINE))
    && (slot == MIE || slot == MIP ==> LawfulPending(v))
    && (slot == MIDELEG ==> LawfulMideleg(v)) && (slot == MEDELEG ==> LawfulMedeleg(v))
    && (slot == MTVEC || slot == STVEC ==> LawfulXtvec(v)) && (slot == MEPC || slot == SEPC ==> LawfulXepc(v))
    && (slot == MISA ==> v == MISA_HARDWIRED) && !IsIdentity(slot)
    && (slot == MENVCFG ==> LawfulMenvcfg(v)) && (slot == MCOUNTINHIBIT ==> LawfulInhibit(v))
    && (slot == MCOUNTEREN || slot == SCOUNTEREN ==> LawfulCounteren(v))
  }

  lemma LegalMstatusIsLawful(v: bv64)
    ensures LawfulMstatus(LegalMstatus(v)) && MprvSet(LegalMstatus(v)) == MprvSet(v)
  {
  }

  lemma SstatusMergeKeepsMprv(mstatus: bv64, v: bv64)
    ensures MprvSet(Merged(mstatus, v, SSTATUS_MASK)) == MprvSet(mstatus)
  {
  }

  lemma MasksAreLawful(v: bv64)
    ensures LawfulPending(Masked(v, MIE_MASK)) && LawfulMideleg(Masked(v, MIDELEG_MASK))
    ensures LawfulMedeleg(Without(v, MEDELEG_ECALL_FROM_M)) && LawfulXtvec(LegalXtvec(v)) && LawfulXepc(Without(v, 0x1))
    ensures LawfulMenvcfg(Masked(v, MENVCFG_STCE)) && LawfulInhibit(Masked(v, MCOUNTINHIBIT_MASK))
    ensures LawfulCounteren(Masked(v, COUNTEREN_MASK))
  {
  }

  lemma WrittenMipStaysInMask(h: Hart, v: bv64)
    requires Shaped(h) && LawfulPending(h.csr[MIP]) && LawfulPending(h.csr[MIE])
    ensures LawfulPending(WrittenSip(h, v)) && LawfulPending(WrittenMip(h, v))
    ensures LawfulPending(Merged(h.csr[MIE], v, SIE_SIP_MASK)) && LawfulPending(Without(h.csr[MIP], MIP_STIP))
  {
  }

  lemma PutKeepsLawful(h: Hart, slot: nat, v: bv64)
    requires Lawful(h) && slot < CSR_COUNT && Accepts(h, slot, v)
    ensures Lawful(Put(h, slot, v))
  {
    hide LawfulMstatus, MprvSet, LawfulPending, LawfulMideleg, LawfulMedeleg, LawfulXtvec, LawfulXepc, LawfulMenvcfg,
      LawfulInhibit, LawfulCounteren, Pmp.Legal;
  }

  lemma StoredIsAccepted(h: Hart, index: nat, v: bv64)
    requires Lawful(h) && index < CSR_COUNT && !IsReadOnly(index) && (h.privilege < MACHINE ==> index != MSTATUS)
    ensures Accepts(h, Slot(index), Stored(h, index, v))
  {
    hide LawfulMstatus, MprvSet, LawfulPending, LawfulMideleg, LawfulMedeleg, LawfulXtvec, LawfulXepc, LawfulMenvcfg,
      LawfulInhibit, LawfulCounteren, Pmp.Legal, LegalMstatus, LegalXtvec, WrittenSip, WrittenMip, Masked, Without,
      Merged;
    LegalMstatusIsLawful(v);
    LegalMstatusIsLawful(Merged(h.csr[MSTATUS], v, SSTATUS_MASK));
    SstatusMergeKeepsMprv(h.csr[MSTATUS], v);
    WrittenMipStaysInMask(h, v);
    MasksAreLawful(v);
  }

  lemma WriteKeepsLawful(h: Hart, index: nat, v: bv64)
    requires Lawful(h) && IsImplemented(index)
    requires h.privilege < MACHINE ==> RequiredPrivilege(index) < MACHINE
    ensures Lawful(Write(h, index, v)) && Write(h, index, v).privilege == h.privilege
  {
    hide Stored, Accepts, LawfulMstatus, Without;
    if IsPmpCfg(index) || IsPmpAddr(index) {
      Pmp.WriteKeepsLegal(h.pmp, PmpWrite(index, v));
    } else if !IsReadOnly(index) {
      StoredIsAccepted(h, index, v);
      PutKeepsLawful(h, Slot(index), Stored(h, index, v));
      StipDropKeepsLawful(Put(h, Slot(index), Stored(h, index, v)));
    }
  }

  lemma StipDropKeepsLawful(h: Hart)
    requires Lawful(h)
    ensures Lawful(Put(h, MIP, Without(h.csr[MIP], MIP_STIP)))
  {
    WrittenMipStaysInMask(h, 0);
    PutKeepsLawful(h, MIP, Without(h.csr[MIP], MIP_STIP));
  }

  // ---------- The CSR instructions ----------

  datatype Op = ReadWrite | ReadSet | ReadClear
  datatype Operand = Register(i: nat) | Immediate(v: bv64)
  datatype Instruction = Instruction(op: Op, index: nat, rd: nat, operand: Operand, length: bv64)

  predicate WellFormed(
      n: Instruction) { n.index < CSR_COUNT && n.rd < 32 && (n.operand.Register? ==> n.operand.i < 32) }

  /** `csrrs`/`csrrc` with x0 or a zero immediate only read. */
  predicate Writes(n: Instruction) {
    n.op.ReadWrite? || (match n.operand case Register(i) => i != 0 case Immediate(v) => v != 0)
  }

  function OperandValue(h: Hart, operand: Operand): bv64
    requires Shaped(h) && (operand.Register? ==> operand.i < 32)
  {
    match operand case Register(i) => h.gpr[i] case Immediate(v) => v
  }

  function Incoming(op: Op, previous: bv64, x: bv64): bv64 {
    match op case ReadWrite => x case ReadSet => previous | x case ReadClear => previous & !x
  }

  function WithGpr(h: Hart, rd: nat, v: bv64): (t: Hart)
    requires Shaped(h) && rd < 32
    ensures Shaped(t)
  {
    if rd == 0 then h else h.(gpr := h.gpr[rd := v])
  }

  function NextPc(pc: bv64, length: bv64): bv64 { pc + length }

  function Advance(h: Hart, length: bv64): (t: Hart)
    requires Shaped(h)
    ensures Shaped(t)
  {
    h.(pc := NextPc(h.pc, length))
  }

  /** The register file after the instruction's write, if it has one. */
  function Updated(h: Hart, n: Instruction, previous: bv64): (t: Hart)
    requires Shaped(h) && WellFormed(n)
    ensures Shaped(t)
  {
    if Writes(n) then Write(h, n.index, Incoming(n.op, previous, OperandValue(h, n.operand))) else h
  }

  /** An allowed CSR instruction: rd gets what was read before the write. */
  function Executed(h: Hart, n: Instruction, mtime: bv64): (t: Hart)
    requires Shaped(h) && WellFormed(n)
    ensures Shaped(t)
  {
    var previous := Read(h, n.index, mtime);
    Advance(WithGpr(Updated(h, n, previous), n.rd, previous), n.length)
  }

  lemma LawfulIsShaped(h: Hart)
    requires Lawful(h)
    ensures Shaped(h)
  {
  }

  lemma ExecutedKeepsLawful(h: Hart, n: Instruction, mtime: bv64)
    requires Lawful(h) && WellFormed(n) && AccessAllowed(h, n.index, Writes(n))
    ensures Lawful(Executed(h, n, mtime)) && Executed(h, n, mtime).privilege == h.privilege
  {
    assert IsImplemented(n.index) && h.privilege >= RequiredPrivilege(n.index);
    hide Read, Write, Incoming, OperandValue, Lawful, AccessAllowed, IsImplemented;
    LawfulIsShaped(h);
    var previous := Read(h, n.index, mtime);
    WriteKeepsLawful(h, n.index, Incoming(n.op, previous, OperandValue(h, n.operand)));
    OtherFieldsDoNotMatter(Updated(h, n, previous), n.rd, previous, n.length);
  }

  lemma LawfulIgnoresPcAndGprs(h: Hart, t: Hart)
    requires Lawful(h) && Shaped(t) && t.csr == h.csr && t.pmp == h.pmp && t.privilege == h.privilege && t.gpr[0] == 0
    ensures Lawful(t)
  {
    hide LawfulMstatus, MprvSet, LawfulPending, LawfulMideleg, LawfulMedeleg, LawfulXtvec, LawfulXepc, LawfulMenvcfg,
      LawfulInhibit, LawfulCounteren, Pmp.Legal;
  }

  lemma OtherFieldsDoNotMatter(h: Hart, rd: nat, v: bv64, length: bv64)
    requires Lawful(h) && rd < 32
    ensures Lawful(Advance(WithGpr(h, rd, v), length))
  {
    assert h.gpr[0] == 0;
    hide Lawful;
    LawfulIgnoresPcAndGprs(h, Advance(WithGpr(h, rd, v), length));
  }

  /** No CSR can be written from user mode. */
  lemma UserCannotWrite(h: Hart, index: nat)
    requires Shaped(h) && h.privilege == USER
    ensures !AccessAllowed(h, index, true)
  {
  }

  /** Everything that belongs to machine mode: its own registers, PMP, and its fields of the shared ones. */
  ghost predicate SameMachineState(h: Hart, t: Hart)
    requires Shaped(h) && Shaped(t)
  {
    && t.pmp == h.pmp && t.privilege == h.privilege
    && (forall i :: 0 <= i < CSR_COUNT && RequiredPrivilege(i) == MACHINE && i != MSTATUS && i != MIE && i != MIP ==>
         t.csr[i] == h.csr[i])
    && Without(t.csr[MSTATUS], SSTATUS_MASK) == Without(h.csr[MSTATUS], SSTATUS_MASK)
    && Without(t.csr[MIE], SIE_SIP_MASK) == Without(h.csr[MIE], SIE_SIP_MASK)
    && Without(t.csr[MIP], SipWritable(h)) == Without(h.csr[MIP], SipWritable(h))
  }

  lemma MergedMpp(mstatus: bv64, v: bv64)
    requires LawfulMstatus(mstatus)
    ensures Merged(mstatus, v, SSTATUS_MASK) & MSTATUS_MPP != MPP_RESERVED
  {
  }

  lemma WidthsOnly(v: bv64)
    requires v & MSTATUS_MPP != MPP_RESERVED
    ensures LegalMstatus(v) == With(Without(v, UXL_SXL), UXL_SXL_64)
  {
    hide With, Without;
  }

  lemma MergedParts(mstatus: bv64, v: bv64, mask: bv64)
    ensures Merged(mstatus, v, mask) == With(Without(mstatus, mask), Masked(v, mask))
  {
  }

  lemma WithOutside(a: bv64, b: bv64, mask: bv64)
    requires Without(b, mask) == 0
    ensures Without(With(a, b), mask) == Without(a, mask)
  {
  }

  lemma NothingOutside(v: bv64, mask: bv64)
    ensures Without(Masked(v, mask), mask) == 0
  {
  }

  lemma OutsideTwice(v: bv64, mask: bv64)
    ensures Without(Without(v, mask), mask) == Without(v, mask)
  {
  }

  lemma MergedOutside(mstatus: bv64, v: bv64)
    ensures Without(Merged(mstatus, v, SSTATUS_MASK), SSTATUS_MASK) == Without(mstatus, SSTATUS_MASK)
  {
    hide With, Without, Masked, Merged;
    MergedParts(mstatus, v, SSTATUS_MASK);
    NothingOutside(v, SSTATUS_MASK);
    WithOutside(Without(mstatus, SSTATUS_MASK), Masked(v, SSTATUS_MASK), SSTATUS_MASK);
    OutsideTwice(mstatus, SSTATUS_MASK);
  }

  lemma WidthsOutside(x: bv64)
    ensures Without(With(Without(x, UXL_SXL), UXL_SXL_64), SSTATUS_MASK)
            == With(Without(Without(x, SSTATUS_MASK), UXL_SXL), Without(UXL_SXL_64, SSTATUS_MASK))
  {
  }

  lemma WidthsBack(mstatus: bv64)
    requires LawfulMstatus(mstatus)
    ensures With(Without(Without(mstatus, SSTATUS_MASK), UXL_SXL), Without(UXL_SXL_64, SSTATUS_MASK))
            == Without(mstatus, SSTATUS_MASK)
  {
  }

  lemma WidthsInMerged(mstatus: bv64, v: bv64)
    requires LawfulMstatus(mstatus)
    ensures Without(With(Without(Merged(mstatus, v, SSTATUS_MASK), UXL_SXL), UXL_SXL_64), SSTATUS_MASK)
            == Without(mstatus, SSTATUS_MASK)
  {
    hide With, Without, Merged, LawfulMstatus;
    MergedOutside(mstatus, v);
    WidthsOutside(Merged(mstatus, v, SSTATUS_MASK));
    WidthsBack(mstatus);
  }

  lemma SstatusWriteKeepsRest(mstatus: bv64, v: bv64)
    requires LawfulMstatus(mstatus)
    ensures Without(LegalMstatus(Merged(mstatus, v, SSTATUS_MASK)), SSTATUS_MASK) == Without(mstatus, SSTATUS_MASK)
  {
    MergedMpp(mstatus, v);
    WidthsInMerged(mstatus, v);
    hide LegalMstatus, Merged, LawfulMstatus, With, Without;
    WidthsOnly(Merged(mstatus, v, SSTATUS_MASK));
  }

  lemma SipWriteKeepsRest(h: Hart, v: bv64)
    requires Shaped(h) && LawfulPending(h.csr[MIP])
    ensures Without(WrittenSip(h, v), SipWritable(h)) == Without(h.csr[MIP], SipWritable(h))
    ensures Without(Merged(h.csr[MIE], v, SIE_SIP_MASK), SIE_SIP_MASK) == Without(h.csr[MIE], SIE_SIP_MASK)
  {
  }

  lemma PutKeepsMachineState(h: Hart, slot: nat, v: bv64)
    requires Shaped(h) && slot < CSR_COUNT
    requires || RequiredPrivilege(slot) < MACHINE
             || (slot == MSTATUS && Without(v, SSTATUS_MASK) == Without(h.csr[MSTATUS], SSTATUS_MASK))
             || (slot == MIE && Without(v, SIE_SIP_MASK) == Without(h.csr[MIE], SIE_SIP_MASK))
             || (slot == MIP && Without(v, SipWritable(h)) == Without(h.csr[MIP], SipWritable(h)))
    ensures SameMachineState(h, Put(h, slot, v))
  {
    hide Without, SipWritable;
  }

  lemma LowerWriteKeepsMachineState(h: Hart, index: nat, v: bv64)
    requires Lawful(h) && IsImplemented(index) && RequiredPrivilege(index) < MACHINE
    ensures SameMachineState(h, Write(h, index, v))
  {
    hide LawfulMstatus, LawfulPending, LawfulMideleg, LawfulMedeleg, LawfulXtvec, LawfulXepc, LawfulMenvcfg,
      LawfulInhibit,
      LawfulCounteren, MprvSet, Pmp.Legal, Pmp.AfterWrite, LegalMstatus, Merged, Without, WrittenSip, SipWritable,
      WrittenMip, Masked,
      LegalXtvec, StceEnabled;
    assert index != MENVCFG && !IsPmpCfg(index) && !IsPmpAddr(index);
    if IsReadOnly(index) {
    } else {
      SstatusWriteKeepsRest(h.csr[MSTATUS], v);
      SipWriteKeepsRest(h, v);
      hide SameMachineState;
      PutKeepsMachineState(h, Slot(index), Stored(h, index, v));
    }
  }

  /** A CSR instruction below machine mode changes nothing that belongs to machine mode, whatever it writes. */
  lemma LowerModesCannotTouchMachineState(h: Hart, n: Instruction, mtime: bv64)
    requires Lawful(h) && WellFormed(n) && h.privilege < MACHINE && AccessAllowed(h, n.index, Writes(n))
    ensures SameMachineState(h, Executed(h, n, mtime))
  {
    assert IsImplemented(n.index) && RequiredPrivilege(n.index) < MACHINE;
    hide Read, Write, Incoming, OperandValue, Without, SipWritable, Lawful, IsImplemented, AccessAllowed;
    LawfulIsShaped(h);
    if Writes(n) {
      LowerWriteKeepsMachineState(h, n.index, Incoming(n.op, Read(h, n.index, mtime), OperandValue(h, n.operand)));
    }
  }

  lemma SstatusBitsReadBack(mstatus: bv64, v: bv64)
    ensures Masked(LegalMstatus(Merged(mstatus, v, SSTATUS_MASK)), SSTATUS_MASK)
            == With(Masked(v, 0x000c_0122), 0x2_0000_0000)
  {
  }

  lemma SipBitsReadBack(h: Hart, v: bv64)
    requires Shaped(h) && LawfulPending(h.csr[MIP])
    ensures Masked(With(WrittenSip(h, v), MIP_SEIP), SIE_SIP_MASK)
            == Merged(Masked(With(h.csr[MIP], MIP_SEIP), SIE_SIP_MASK), v, SipWritable(h))
    ensures Masked(WrittenSip(h, v), SIE_SIP_MASK) == Merged(Masked(h.csr[MIP], SIE_SIP_MASK), v, SipWritable(h))
    ensures Masked(Merged(h.csr[MIE], v, SIE_SIP_MASK), SIE_SIP_MASK) == Masked(v, SIE_SIP_MASK)
  {
  }

  lemma SstatusReadsBack(h: Hart, v: bv64, mtime: bv64)
    requires Shaped(h)
    ensures Read(Write(h, SSTATUS, v), SSTATUS, mtime) == With(Masked(v, 0x000c_0122), 0x2_0000_0000)
  {
    hide LegalMstatus, Merged, With, Masked;
    SstatusBitsReadBack(h.csr[MSTATUS], v);
  }

  lemma SieAndSipReadBack(h: Hart, v: bv64, mtime: bv64)
    requires Shaped(h) && LawfulPending(h.csr[MIP])
    ensures Read(Write(h, SIE, v), SIE, mtime) == Masked(v, SIE_SIP_MASK)
    ensures Read(Write(h, SIP, v), SIP, mtime) == Merged(Read(h, SIP, mtime), v, SipWritable(h))
  {
    hide LawfulPending, Merged, With, WrittenSip, SipWritable, Masked;
    SipBitsReadBack(h, v);
  }

  /** Reading a supervisor view after writing it shows the written value in exactly the writable bits. */
  lemma ViewsReadBack(h: Hart, v: bv64, mtime: bv64)
    requires Lawful(h)
    ensures Read(Write(h, SSTATUS, v), SSTATUS, mtime) == With(Masked(v, 0x000c_0122), 0x2_0000_0000)
    ensures Read(Write(h, SIE, v), SIE, mtime) == Masked(v, SIE_SIP_MASK)
    ensures Read(Write(h, SIP, v), SIP, mtime) == Merged(Read(h, SIP, mtime), v, SipWritable(h))
  {
    hide Read, Write, LawfulPending, Merged, With, SipWritable, Masked;
    SstatusReadsBack(h, v, mtime);
    SieAndSipReadBack(h, v, mtime);
  }

  /** A pmpcfg register reads back as the bytes of its eight entries. */
  lemma PmpCfgReadsBack(cfg: seq<bv8>, first: nat)
    requires first + 8 <= |cfg|
    ensures UnpackedCfg(PackedCfg(cfg, first)) == cfg[first..first + 8]
  {
    hide Packed, UnpackedCfg;
    PackedBytes(cfg[first], cfg[first + 1], cfg[first + 2], cfg[first + 3], cfg[first + 4], cfg[first + 5],
        cfg[first + 6], cfg[first + 7]);
  }

  lemma PackedBytes(a: bv8, b: bv8, c: bv8, d: bv8, e: bv8, f: bv8, g: bv8, h: bv8)
    ensures UnpackedCfg(Packed(a, b, c, d, e, f, g, h)) == [a, b, c, d, e, f, g, h]
  {
  }

  lemma PendingFixed(v: bv64)
    requires LawfulPending(v)
    ensures Masked(v, MIE_MASK) == v
  {
  }

  lemma MidelegFixed(v: bv64)
    requires LawfulMideleg(v)
    ensures Masked(v, MIDELEG_MASK) == v
  {
  }

  lemma MenvcfgFixed(v: bv64)
    requires LawfulMenvcfg(v)
    ensures Masked(v, MENVCFG_STCE) == v
  {
  }

  lemma InhibitFixed(v: bv64)
    requires LawfulInhibit(v)
    ensures Masked(v, MCOUNTINHIBIT_MASK) == v
  {
  }

  lemma CounterenFixed(v: bv64)
    requires LawfulCounteren(v)
    ensures Masked(v, COUNTEREN_MASK) == v
  {
  }

  lemma WithoutFixed(v: bv64, mask: bv64)
    requires v & mask == 0
    ensures Without(v, mask) == v
  {
  }

  lemma MstatusFixed(v: bv64)
    requires LawfulMstatus(v)
    ensures LegalMstatus(v) == v
  {
  }

  lemma XtvecFixed(v: bv64)
    requires LawfulXtvec(v)
    ensures LegalXtvec(v) == v
  {
  }

  lemma MipFixed(v: bv64, mip: bv64, writable: bv64, hardware: bv64)
    requires writable | hardware == MIE_MASK && v & hardware == mip & hardware && LawfulPending(v)
    ensures (v & writable) | (mip & hardware) == v
  {
  }

  lemma SeipShown(v: bv64)
    requires Has(v, MIP_SEIP)
    ensures With(v, MIP_SEIP) == v
  {
  }

  lemma WrittenMipFixed(h: Hart, v: bv64)
    requires Shaped(h) && LawfulPending(v) && Masked(v, MipHardware(h)) == Masked(h.csr[MIP], MipHardware(h))
    ensures WrittenMip(h, v) == v
  {
    MipFixed(v, h.csr[MIP], MipWritable(h), MipHardware(h));
    hide StceEnabled;
  }

  /** What `Stored` may refuse of a value for mip: bits that devices drive. */
  predicate Stores(h: Hart, index: nat, v: bv64)
    requires Shaped(h)
  {
    Accepts(h, index, v) && (index == MIP ==> Masked(v, MipHardware(h)) == Masked(h.csr[MIP], MipHardware(h)))
  }

  lemma MedelegFixed(v: bv64)
    requires LawfulMedeleg(v)
    ensures Without(v, MEDELEG_ECALL_FROM_M) == v
  {
    WithoutFixed(v, MEDELEG_ECALL_FROM_M);
  }

  lemma XepcFixed(v: bv64)
    requires LawfulXepc(v)
    ensures Without(v, 0x1) == v
  {
    WithoutFixed(v, 0x1);
  }

  /** The legalisers leave lawful values alone. */
  lemma StoredIsFixed(h: Hart, index: nat, v: bv64)
    requires Shaped(h) && index < CSR_COUNT && Slot(index) == index && Stores(h, index, v)
    ensures Stored(h, index, v) == v
  {
    hide LawfulMstatus, MprvSet, LawfulPending, LawfulMideleg, LawfulMedeleg, LawfulXtvec, LawfulXepc, LawfulMenvcfg,
      LawfulInhibit, LawfulCounteren, LegalMstatus, LegalXtvec, WrittenSip, WrittenMip, Masked, Without, Merged,
      MipHardware;
    if index == MSTATUS { MstatusFixed(v); }
    else if index == MIE { PendingFixed(v); }
    else if index == MIP { WrittenMipFixed(h, v); }
    else if index == MENVCFG { MenvcfgFixed(v); }
    else if index == MIDELEG { MidelegFixed(v); }
    else if index == MEDELEG { MedelegFixed(v); }
    else if index == MCOUNTEREN || index == SCOUNTEREN { CounterenFixed(v); }
    else if index == MCOUNTINHIBIT { InhibitFixed(v); }
    else if index == MTVEC || index == STVEC { XtvecFixed(v); }
    else if index == MEPC || index == SEPC { XepcFixed(v); }
  }

  /** A register with a slot of its own shows its slot; mip adds the PLIC wire. */
  lemma OwnSlotIsShown(h: Hart, index: nat, mtime: bv64)
    requires Shaped(h) && index < CSR_COUNT && Slot(index) == index && !IsReadOnly(index) && !IsPmpCfg(index)
    requires !IsPmpAddr(index)
    ensures Read(h, index, mtime) == if index == MIP && h.plicSeip then With(h.csr[MIP], MIP_SEIP) else h.csr[index]
  {
    hide With, Masked, PackedCfg, Bits;
  }

  lemma OwnSlotIsWritten(h: Hart, index: nat, v: bv64)
    requires Shaped(h) && index < CSR_COUNT && Slot(index) == index && !IsReadOnly(index) && !IsPmpCfg(index)
    requires !IsPmpAddr(index)
    ensures Write(h, index, v).csr[index] == Stored(h, index, v) && Write(h, index, v).plicSeip == h.plicSeip
  {
    hide Stored, StceEnabled, Without;
  }

  /**
   * WARL: a value that is lawful in a register with a slot of its own is kept and read back unchanged. For
   * mip it must also agree with the device-driven bits, and the read adds the PLIC wire to SEIP.
   */
  lemma LawfulValuesStick(h: Hart, index: nat, v: bv64, mtime: bv64)
    requires Lawful(h) && IsImplemented(index) && !IsReadOnly(index) && !IsPmpCfg(index) && !IsPmpAddr(index)
    requires Slot(index) == index && Shaped(h) && Stores(h, index, v)
    ensures Read(Write(h, index, v), index, mtime) == if index == MIP && h.plicSeip then With(v, MIP_SEIP) else v
  {
    ImplementedIsInFile(index);
    hide Lawful, IsImplemented, Stores, Stored, Read, Write, With, IsPmpAddr, IsPmpCfg, IsReadOnly, Slot;
    StoredIsFixed(h, index, v);
    OwnSlotIsWritten(h, index, v);
    OwnSlotIsShown(Write(h, index, v), index, mtime);
  }

  lemma ImplementedIsInFile(index: nat)
    requires IsImplemented(index)
    ensures index < CSR_COUNT
  {
  }

  // ---------- PMP registers read back ----------

  function Push(m: bv64): bv64 { (m << 1) | 1 }

  /** `n` ones at the bottom. */
  function Ones(n: nat): bv64 { if n == 0 then 0 else Push(Ones(n - 1)) }

  lemma ShiftOnes(m: bv64)
    ensures Push(Push(Push(Push(Push(Push(Push(Push(m)))))))) == (m << 8) | 0xff
  {
  }

  lemma EightMoreOnes(n: nat)
    ensures Ones(n + 8) == (Ones(n) << 8) | 0xff
  {
    ShiftOnes(Ones(n));
    hide Push;
    assert Ones(n + 2) == Push(Push(Ones(n)));
    assert Ones(n + 4) == Push(Push(Ones(n + 2)));
    assert Ones(n + 6) == Push(Push(Ones(n + 4)));
    assert Ones(n + 8) == Push(Push(Ones(n + 6)));
  }

  lemma AllOnes()
    ensures Ones(64) == 0xffff_ffff_ffff_ffff
  {
    assert Ones(0) == 0;
    EightMoreOnes(0);
    EightMoreOnes(8);
    EightMoreOnes(16);
    EightMoreOnes(24);
    EightMoreOnes(32);
    EightMoreOnes(40);
    EightMoreOnes(48);
    EightMoreOnes(56);
    hide Ones;
  }

  /** No bit of `v` lies above the low `n`. */
  predicate FitsIn(v: bv64, n: nat) { v & !Ones(n) == 0 }

  lemma HalfUnderMask(v: bv64, m: bv64)
    requires v & !Push(m) == 0
    ensures (v >> 1) & !m == 0
  {
  }

  lemma HalfFits(v: bv64, n: nat)
    requires FitsIn(v, n + 1)
    ensures FitsIn(v >> 1, n)
  {
    HalfUnderMask(v, Ones(n));
    hide Push;
  }

  lemma Rejoined(v: bv64)
    ensures (if v & 1 != 0 then 1 else 0) | ((v >> 1) << 1) == v
  {
  }

  lemma ValueStep(v: bv64, n: nat)
    ensures var value := Value(v, n + 1); (value % 2 == 1) == (v & 1 != 0) && value / 2 == Value(v >> 1, n)
  {
  }

  lemma BitsStep(value: nat, v: bv64, n: nat)
    requires (value % 2 == 1) == (v & 1 != 0) && Bits(value / 2, n) == v >> 1
    ensures Bits(value, n + 1) == v
  {
    Rejoined(v);
  }

  lemma NothingFitsInNone(v: bv64)
    requires FitsIn(v, 0)
    ensures v == 0 == Bits(Value(v, 0), 0)
  {
  }

  lemma {:induction false} BitsOfValue(v: bv64, n: nat)
    requires FitsIn(v, n)
    ensures Bits(Value(v, n), n) == v
    decreases n
  {
    hide FitsIn, Bits, Value;
    if n > 0 {
      HalfFits(v, n - 1);
      BitsOfValue(v >> 1, n - 1);
      ValueStep(v, n - 1);
      BitsStep(Value(v, n), v, n - 1);
    } else {
      NothingFitsInNone(v);
    }
  }

  lemma WordFits(v: bv64)
    ensures FitsIn(v, 64)
  {
    AllOnes();
    hide Ones;
  }

  lemma BitsOfWord(v: bv64)
    ensures Bits(Value(v, 64), 64) == v
  {
    hide FitsIn, Bits, Value;
    WordFits(v);
    BitsOfValue(v, 64);
  }

  lemma UnpackedRejoins(v: bv64)
    ensures var b := UnpackedCfg(v); Packed(b[0], b[1], b[2], b[3], b[4], b[5], b[6], b[7]) == v
  {
  }

  lemma LegalCfgFixed(cfg: bv8)
    requires cfg & 0x60 == 0 && (cfg & 0x02 != 0 ==> cfg & 0x01 != 0)
    ensures Pmp.LegalizedCfg(cfg) == cfg
  {
  }

  /** A write of a PMP register that changes no locked entry and keeps to legal encodings. */
  predicate PmpAccepts(h: Hart, index: nat, v: bv64)
    requires Shaped(h) && (IsPmpCfg(index) || IsPmpAddr(index))
  {
    if IsPmpAddr(index) then Value(v, 64) < Pmp.ADDRESS_LIMIT && !Pmp.AddressWriteIgnored(h.pmp, index - PMPADDR0)
    else
      var first, bytes := if index == PMPCFG0 then 0 else 8, UnpackedCfg(v);
      forall k :: 0 <= k < 8 ==>
                    if Pmp.Locked(h.pmp.cfg[first + k]) then bytes[k] == h.pmp.cfg[first + k]
                    else bytes[k] & 0x60 == 0 && (bytes[k] & 0x02 != 0 ==> bytes[k] & 0x01 != 0)
  }

  lemma PmpAddressSticks(h: Hart, index: nat, v: bv64, mtime: bv64)
    requires Shaped(h) && IsPmpAddr(index) && PmpAccepts(h, index, v)
    ensures Read(Write(h, index, v), index, mtime) == v
  {
    hide Bits, Value, UnpackedCfg, Pmp.AddressWriteIgnored;
    BitsOfWord(v);
  }

  lemma PmpCfgWritten(h: Hart, index: nat, v: bv64)
    requires Shaped(h) && IsPmpCfg(index) && PmpAccepts(h, index, v)
    ensures var first, cfg := if index == PMPCFG0 then 0 else 8, Write(h, index, v).pmp.cfg;
            cfg[first..first + 8] == UnpackedCfg(v)
  {
    hide UnpackedCfg, Pmp.LegalizedCfg, Pmp.Locked;
    var first, bytes, cfg := if index == PMPCFG0 then 0 else 8, UnpackedCfg(v), Write(h, index, v).pmp.cfg;
    forall k | 0 <= k < 8 ensures cfg[first + k] == bytes[k] {
      if !Pmp.Locked(h.pmp.cfg[first + k]) {
        LegalCfgFixed(bytes[k]);
      }
    }
  }

  lemma PackedSlice(cfg: seq<bv8>, first: nat, v: bv64)
    requires first + 8 <= |cfg| && cfg[first..first + 8] == UnpackedCfg(v)
    ensures PackedCfg(cfg, first) == v
  {
    var b := cfg[first..first + 8];
    assert b[0] == cfg[first + 0] && b[1] == cfg[first + 1] && b[2] == cfg[first + 2] && b[3] == cfg[first + 3];
    assert b[4] == cfg[first + 4] && b[5] == cfg[first + 5] && b[6] == cfg[first + 6] && b[7] == cfg[first + 7];
    hide Packed, UnpackedCfg;
    UnpackedRejoins(v);
  }

  /** Such a value is kept and read back unchanged. */
  lemma PmpValuesStick(h: Hart, index: nat, v: bv64, mtime: bv64)
    requires Shaped(h) && (IsPmpCfg(index) || IsPmpAddr(index)) && PmpAccepts(h, index, v)
    ensures Read(Write(h, index, v), index, mtime) == v
  {
    if IsPmpAddr(index) {
      hide Read, Write, PmpAccepts;
      PmpAddressSticks(h, index, v, mtime);
    } else {
      hide Write, PmpAccepts, PackedCfg, UnpackedCfg;
      PmpCfgWritten(h, index, v);
      PackedSlice(Write(h, index, v).pmp.cfg, if index == PMPCFG0 then 0 else 8, v);
    }
  }

  /** Machine mode reaches every implemented register, and may write all but the read-only ones. */
  lemma MachineAccess(h: Hart, index: nat, writes: bool)
    requires Shaped(h) && h.privilege == MACHINE
    ensures AccessAllowed(h, index, writes) <==> IsImplemented(index) && !(writes && IsReadOnly(index))
  {
    hide IsImplemented;
  }

  /**
   * A counter is readable below machine mode exactly as the counter-enable registers of the modes above
   * allow, and never writable.
   */
  lemma CounterAccess(h: Hart, index: nat, writes: bool)
    requires Shaped(h) && IsCounter(index) && (h.privilege == USER || h.privilege == SUPERVISOR)
    ensures AccessAllowed(h, index, writes)
            <==> !writes && Has(h.csr[MCOUNTEREN], CounterEnableBit(index))
                 && (h.privilege == USER ==> Has(h.csr[SCOUNTEREN], CounterEnableBit(index)))
  {
  }
}
