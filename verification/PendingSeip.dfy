/**
 * The supervisor-external bit of mip. The repository's README says that a CSR write cannot change it;
 * `src/emulator/cpu/registers.ts:589-596,723-732` keeps a software bit beside the PLIC wire, shows the OR
 * of both, and stores what it is given. The law fails, and this module says exactly when it holds.
 */
module PendingSeip {
  import opened Csr
  import Trap

  /** The software bit, in the mip slot. */
  predicate SoftSeip(h: Hart)
    requires Shaped(h)
  {
    Has(h.csr[MIP], MIP_SEIP)
  }

  predicate KeepsSeip(h: Hart, n: Instruction, mtime: bv64)
    requires Shaped(h) && WellFormed(n)
  {
    SoftSeip(Executed(h, n, mtime)) == SoftSeip(h)
  }

  /** The instruction reaches the branch that stores mip. */
  predicate WritesMip(n: Instruction) { Writes(n) && n.index == MIP }

  /** The bit the instruction stores: its operand's, or that combined with the bit it reads, wire included. */
  predicate IncomingSeip(h: Hart, n: Instruction)
    requires Shaped(h) && WellFormed(n)
  {
    var read, x := SoftSeip(h) || h.plicSeip, Has(OperandValue(h, n.operand), MIP_SEIP);
    match n.op case ReadWrite => x case ReadSet => read || x case ReadClear => read && !x
  }

  // ---------- The bit through the masks ----------

  lemma SeipThroughMasks(mip: bv64, v: bv64, writable: bv64, hardware: bv64)
    requires Has(writable, MIP_SEIP) && !Has(hardware, MIP_SEIP)
    ensures Has((v & writable) | (mip & hardware), MIP_SEIP) == Has(v, MIP_SEIP)
  {
  }

  lemma SeipIsSoftware()
    ensures Has(0x202, MIP_SEIP) && Has(0x222, MIP_SEIP) && !Has(0x888, MIP_SEIP) && !Has(0x8a8, MIP_SEIP)
  {
  }

  /** What a sip write keeps, and what it takes. */
  function SipUnion(mip: bv64, hardware: bv64, taken: bv64): bv64 {
    (((mip & !SIE_SIP_MASK) | (mip & hardware)) | (mip & MIP_SEIP)) | taken
  }

  lemma SipKeepsSeip(mip: bv64, hardware: bv64, taken: bv64)
    requires !Has(taken, MIP_SEIP)
    ensures Has(SipUnion(mip, hardware, taken), MIP_SEIP) == Has(mip, MIP_SEIP)
  {
  }

  lemma SipBitsAreLower(v: bv64)
    ensures !Has(v & 0x2, MIP_SEIP) && !Has(v & 0x22, MIP_SEIP)
  {
  }

  lemma StipIsAnotherBit(mip: bv64)
    ensures Has(Without(mip, MIP_STIP), MIP_SEIP) == Has(mip, MIP_SEIP)
  {
  }

  lemma WireIsRead(mip: bv64)
    ensures Has(With(mip, MIP_SEIP), MIP_SEIP)
  {
  }

  lemma SeipOfUnion(read: bv64, x: bv64)
    ensures Has(read | x, MIP_SEIP) == (Has(read, MIP_SEIP) || Has(x, MIP_SEIP))
  {
  }

  lemma SeipOfDifference(read: bv64, x: bv64)
    ensures Has(read & !x, MIP_SEIP) == (Has(read, MIP_SEIP) && !Has(x, MIP_SEIP))
  {
  }

  lemma SeipOfIncoming(op: Op, read: bv64, x: bv64)
    ensures Has(Incoming(op, read, x), MIP_SEIP)
            == (match op case ReadWrite => Has(x, MIP_SEIP) case ReadSet => Has(read, MIP_SEIP) || Has(x, MIP_SEIP)
                         case ReadClear => Has(read, MIP_SEIP) && !Has(x, MIP_SEIP))
  {
    hide Has;
    match op
    case ReadWrite =>
    case ReadSet => SeipOfUnion(read, x);
    case ReadClear => SeipOfDifference(read, x);
  }

  lemma SeipOfWrittenMip(h: Hart, v: bv64)
    requires Shaped(h)
    ensures Has(WrittenMip(h, v), MIP_SEIP) == Has(v, MIP_SEIP)
  {
    hide Has, StceEnabled;
    SeipIsSoftware();
    SeipThroughMasks(h.csr[MIP], v, MipWritable(h), MipHardware(h));
  }

  lemma WrittenSipParts(h: Hart, v: bv64)
    requires Shaped(h)
    ensures WrittenSip(h, v) == SipUnion(h.csr[MIP], MipHardware(h), Masked(v, SipWritable(h)))
  {
    hide StceEnabled, MipHardware, SipWritable;
  }

  lemma SipBits(h: Hart, v: bv64)
    requires Shaped(h)
    ensures !Has(Masked(v, SipWritable(h)), MIP_SEIP)
  {
    hide Has, StceEnabled;
    SipBitsAreLower(v);
  }

  lemma SeipOfWrittenSip(h: Hart, v: bv64)
    requires Shaped(h)
    ensures Has(WrittenSip(h, v), MIP_SEIP) == SoftSeip(h)
  {
    hide Has, StceEnabled, WrittenSip, MipHardware, SipWritable, Masked, SipUnion;
    WrittenSipParts(h, v);
    SipBits(h, v);
    SipKeepsSeip(h.csr[MIP], MipHardware(h), Masked(v, SipWritable(h)));
  }

  /** A CSR write other than to mip leaves the bit alone, whichever register it is. */
  lemma SeipAfterWrite(h: Hart, index: nat, v: bv64)
    requires Shaped(h) && index < CSR_COUNT
    ensures SoftSeip(Write(h, index, v)) == if index == MIP then Has(v, MIP_SEIP) else SoftSeip(h)
  {
    hide Has, Without, LegalMstatus, Merged, Masked, LegalXtvec, WrittenMip, WrittenSip, StceEnabled, Pmp.AfterWrite,
      PmpWrite;
    SeipOfWrittenMip(h, v);
    SeipOfWrittenSip(h, v);
    StipIsAnotherBit(h.csr[MIP]);
  }

  lemma SeipOfRead(h: Hart)
    requires Shaped(h)
    ensures Has(ReadableMip(h), MIP_SEIP) == (SoftSeip(h) || h.plicSeip)
  {
    hide Has, With;
    WireIsRead(h.csr[MIP]);
  }

  /** The software bit after any CSR instruction that executes. */
  lemma SeipAfterInstruction(h: Hart, n: Instruction, mtime: bv64)
    requires Shaped(h) && WellFormed(n)
    ensures SoftSeip(Executed(h, n, mtime)) == if WritesMip(n) then IncomingSeip(h, n) else SoftSeip(h)
  {
    hide Has, Write, OperandValue, ReadableMip, Incoming;
    if Writes(n) {
      var v := Incoming(n.op, Read(h, n.index, mtime), OperandValue(h, n.operand));
      SeipAfterWrite(h, n.index, v);
      SeipOfRead(h);
      SeipOfIncoming(n.op, Read(h, n.index, mtime), OperandValue(h, n.operand));
    }
  }

  // ---------- When the law holds ----------

  /**
   * Per state: the bit is kept if and only if the instruction does not write mip, or writes the bit that is
   * already there.
   */
  lemma SeipIsKept(h: Hart, n: Instruction, mtime: bv64)
    requires Lawful(h) && WellFormed(n) && AccessAllowed(h, n.index, Writes(n))
    ensures KeepsSeip(h, n, mtime) <==> !WritesMip(n) || IncomingSeip(h, n) == SoftSeip(h)
  {
    LawfulIsShaped(h);
    hide Executed, IncomingSeip, SoftSeip, Lawful;
    SeipAfterInstruction(h, n, mtime);
  }

  /** A machine-mode hart out of reset, but for its registers, its software bit and its PLIC wire. */
  function Example(gpr: bv64, soft: bool, wire: bool): (h: Hart)
    ensures Shaped(h)
  {
    var r := Trap.Reset(0);
    r.(csr := r.csr[MIP := if soft then MIP_SEIP else 0], gpr := [0] + seq(31, _ => gpr), plicSeip := wire)
  }

  lemma SeipIsPending()
    ensures LawfulPending(MIP_SEIP) && LawfulPending(0) && Has(MIP_SEIP, MIP_SEIP) && !Has(0, MIP_SEIP)
  {
  }

  lemma ExampleIsLawful(gpr: bv64, soft: bool, wire: bool)
    ensures var h := Example(gpr, soft, wire);
            Lawful(h) && h.privilege == MACHINE && SoftSeip(h) == soft && h.gpr[0] == 0
                && (forall i :: 1 <= i < 32 ==> h.gpr[i] == gpr)
  {
    var r, mip := Trap.Reset(0), if soft then MIP_SEIP else 0;
    Trap.ResetIsLawful(0);
    SeipIsPending();
    hide Lawful, Trap.Reset, Has, LawfulPending;
    assert r.privilege == MACHINE by { ResetMode(); }
    LawfulIsShaped(r);
    PutKeepsLawful(r, MIP, mip);
    LawfulIgnoresPcAndGprs(Put(r, MIP, mip), Example(gpr, soft, wire));
  }

  lemma ResetMode()
    ensures Trap.Reset(0).privilege == MACHINE
  {
  }

  /** `csrrc x0, mip, x5` with x5 zero asks to clear nothing, and latches a raised PLIC wire into the software bit. */
  lemma ClearingNothingLatchesTheWire(mtime: bv64)
    ensures var h, n := Example(0, false, true), Instruction(ReadClear, MIP, 0, Register(5), 4);
            Lawful(h) && WellFormed(n) && AccessAllowed(h, MIP, Writes(n)) && !SoftSeip(h)
                && SoftSeip(Executed(h, n, mtime))
  {
    var h, n := Example(0, false, true), Instruction(ReadClear, MIP, 0, Register(5), 4);
    ExampleIsLawful(0, false, true);
    MachineAccess(h, MIP, Writes(n));
    SeipIsPending();
    hide Lawful, Has, Executed, Example, AccessAllowed;
    SeipAfterInstruction(h, n, mtime);
  }

  /** Whatever the operand is, some lawful hart that may execute a write of mip loses its bit to it. */
  lemma SomeHartLosesItsBit(n: Instruction, mtime: bv64) returns (h: Hart)
    requires WellFormed(n) && WritesMip(n)
    ensures Lawful(h) && Shaped(h) && AccessAllowed(h, n.index, Writes(n)) && !KeepsSeip(h, n, mtime)
  {
    var x := match n.operand case Immediate(v) => Has(v, MIP_SEIP) case Register(_) => false;
    var soft := match n.op case ReadWrite => !x case ReadSet => false case ReadClear => x;
    h := Example(0, soft, true);
    ExampleIsLawful(0, soft, true);
    MachineAccess(h, MIP, Writes(n));
    SeipIsPending();
    hide Lawful, Has, Executed, AccessAllowed;
    SeipAfterInstruction(h, n, mtime);
  }

  /** An instruction keeps the bit of every lawful hart that may execute it if and only if it does not write mip. */
  lemma SafeInstructions(n: Instruction, mtime: bv64)
    requires WellFormed(n)
    ensures (forall h: Hart :: Lawful(h) && Shaped(h) && AccessAllowed(h, n.index, Writes(n)) ==>
            KeepsSeip(h, n, mtime)) <==> !WritesMip(n)
  {
    hide Lawful, KeepsSeip, AccessAllowed;
    if WritesMip(n) {
      var h := SomeHartLosesItsBit(n, mtime);
    } else {
      forall h: Hart | Lawful(h) && Shaped(h) && AccessAllowed(h, n.index, Writes(n)) ensures KeepsSeip(h, n, mtime) {
        SeipIsKept(h, n, mtime);
      }
    }
  }

  // ---------- The bits for which the law does hold ----------

  const CLINT_AND_MEIP: bv64 := 0x888

  function MipUnion(mip: bv64, hardware: bv64, taken: bv64): bv64 { taken | (mip & hardware) }

  lemma KeptByMip(mip: bv64, hardware: bv64, taken: bv64, m: bv64)
    requires Masked(taken, m) == 0 && Masked(hardware, m) == m
    ensures Masked(MipUnion(mip, hardware, taken), m) == Masked(mip, m)
  {
  }

  lemma KeptBySip(mip: bv64, hardware: bv64, taken: bv64, m: bv64)
    requires Masked(taken, m) == 0 && Masked(hardware, m) == m
    ensures Masked(SipUnion(mip, hardware, taken), m) == Masked(mip, m)
  {
  }

  lemma NotTaken(v: bv64, writable: bv64, m: bv64)
    requires Masked(writable, m) == 0
    ensures Masked(Masked(v, writable), m) == 0
  {
  }

  lemma SameUnderMask(a: bv64, b: bv64, m: bv64)
    requires Masked(a, m) == Masked(b, m)
    ensures Has(a, m) == Has(b, m)
  {
  }

  /** `m` is the business of devices, not of CSR writes. */
  predicate IsDevices(h: Hart, m: bv64)
    requires Shaped(h)
  {
    Masked(MipHardware(h), m) == m && Masked(MipWritable(h), m) == 0 && Masked(SipWritable(h), m) == 0
  }

  lemma DeviceMasks(h: Hart)
    requires Shaped(h)
    ensures IsDevices(h, CLINT_AND_MEIP) && (StceEnabled(h) ==> IsDevices(h, MIP_STIP))
  {
    hide StceEnabled;
  }

  lemma WritesKeepDevices(h: Hart, v: bv64, m: bv64)
    requires Shaped(h) && IsDevices(h, m)
    ensures Masked(WrittenMip(h, v), m) == Masked(h.csr[MIP], m) == Masked(WrittenSip(h, v), m)
  {
    hide Masked, MipHardware, MipWritable, SipWritable, WrittenMip, WrittenSip, MipUnion, SipUnion;
    WrittenMipParts(h, v);
    WrittenSipParts(h, v);
    NotTaken(v, MipWritable(h), m);
    NotTaken(v, SipWritable(h), m);
    KeptByMip(h.csr[MIP], MipHardware(h), Masked(v, MipWritable(h)), m);
    KeptBySip(h.csr[MIP], MipHardware(h), Masked(v, SipWritable(h)), m);
  }

  lemma DeviceBitsWithoutStip(mip: bv64)
    ensures Masked(Without(mip, MIP_STIP), CLINT_AND_MEIP) == Masked(mip, CLINT_AND_MEIP)
  {
  }

  lemma WrittenMipParts(h: Hart, v: bv64)
    requires Shaped(h)
    ensures WrittenMip(h, v) == MipUnion(h.csr[MIP], MipHardware(h), Masked(v, MipWritable(h)))
  {
    hide StceEnabled, MipHardware, MipWritable;
  }

  lemma DeviceBitsOfWritten(h: Hart, v: bv64)
    requires Shaped(h)
    ensures Masked(WrittenMip(h, v), CLINT_AND_MEIP) == Masked(h.csr[MIP], CLINT_AND_MEIP)
            == Masked(WrittenSip(h, v), CLINT_AND_MEIP)
    ensures StceEnabled(h) ==>
            Has(WrittenMip(h, v), MIP_STIP) == Has(h.csr[MIP], MIP_STIP) == Has(WrittenSip(h, v), MIP_STIP)
  {
    hide Has, Masked, StceEnabled, WrittenMip, WrittenSip, IsDevices;
    DeviceMasks(h);
    WritesKeepDevices(h, v, CLINT_AND_MEIP);
    if StceEnabled(h) {
      WritesKeepDevices(h, v, MIP_STIP);
      SameUnderMask(WrittenMip(h, v), h.csr[MIP], MIP_STIP);
      SameUnderMask(WrittenSip(h, v), h.csr[MIP], MIP_STIP);
    }
  }

  lemma StceIsNotInMip(h: Hart, v: bv64)
    requires Shaped(h)
    ensures StceEnabled(Put(h, MIP, v)) == StceEnabled(h)
  {
  }

  lemma DeviceBitsAfterWrite(h: Hart, index: nat, v: bv64)
    requires Shaped(h) && index < CSR_COUNT
    ensures var t := Write(h, index, v);
            && Masked(t.csr[MIP], CLINT_AND_MEIP) == Masked(h.csr[MIP], CLINT_AND_MEIP)
            && (StceEnabled(h) && StceEnabled(t) ==> Has(t.csr[MIP], MIP_STIP) == Has(h.csr[MIP], MIP_STIP))
  {
    hide Has, Without, LegalMstatus, Merged, Masked, LegalXtvec, WrittenMip, WrittenSip, StceEnabled, Pmp.AfterWrite,
      PmpWrite;
    DeviceBitsOfWritten(h, v);
    DeviceBitsWithoutStip(h.csr[MIP]);
    StceIsNotInMip(Put(h, Slot(index), Stored(h, index, v)), Without(h.csr[MIP], MIP_STIP));
  }

  /** No CSR instruction changes MSIP, MTIP or MEIP, nor STIP while the compare owns it before and after. */
  lemma DeviceBitsAreKept(h: Hart, n: Instruction, mtime: bv64)
    requires Shaped(h) && WellFormed(n)
    ensures var t := Executed(h, n, mtime);
            && Masked(t.csr[MIP], CLINT_AND_MEIP) == Masked(h.csr[MIP], CLINT_AND_MEIP)
            && (StceEnabled(h) && StceEnabled(t) ==> Has(t.csr[MIP], MIP_STIP) == Has(h.csr[MIP], MIP_STIP))
  {
    hide Has, Masked, Write, OperandValue, Incoming, Read;
    if Writes(n) {
      DeviceBitsAfterWrite(h, n.index, Incoming(n.op, Read(h, n.index, mtime), OperandValue(h, n.operand)));
    }
  }
}
