/**
 * What a hart sees of its devices before each instruction (`src/emulator/cpu/sample-device-pending.ts`):
 * the CLINT timer wires, the PLIC context wires, and the publication of `stimecmp` that drives one of
 * them (`src/emulator/cpu/registers.ts:838-864`).
 */
module Sampling {
  import opened Bytes
  import opened Csr
  import Clint
  import Plic
  import Registers
  import Trap

  lemma {:induction false} ValueIsBelow(v: bv64, n: nat)
    ensures Value(v, n) < Pow2(n)
  {
    if n > 0 {
      ValueIsBelow(v >> 1, n - 1);
    }
  }

  /** A register as an unsigned number. */
  function Number(v: bv64): Clint.Uint64 {
    ValueIsBelow(v, 64);
    Pow2Constants();
    Value(v, 64)
  }

  /**
   * What the hart wants compared: its `stimecmp`, or a value that only the last tick reaches while the
   * extension is off.
   */
  function DesiredCompare(h: Hart): Clint.Uint64
    requires Shaped(h)
  {
    if StceEnabled(h) then Number(h.csr[STIMECMP]) else Clint.WORD - 1
  }

  class Sampler {
    const registers: Registers.RegisterFile
    const clint: Clint.Timebase
    const plic: Plic.Controller
    /** The compare value last sent to the CLINT. */
    var published: Clint.Uint64

    ghost predicate Valid()
      reads this, registers, registers.generalPurpose, registers.controlAndStatus, clint, plic
    {
      registers.Valid() && clint.Valid() && plic.Valid() && published == clint.stimecmp
    }

    constructor (file: Registers.RegisterFile, timebase: Clint.Timebase, controller: Plic.Controller)
      requires file.Valid() && timebase.Valid() && controller.Valid() && timebase.stimecmp == Clint.WORD - 1
      ensures Valid() && registers == file && clint == timebase && plic == controller
    {
      registers, clint, plic, published := file, timebase, controller, Clint.WORD - 1;
    }

    /** `publishSupervisorTimerCompare`: the CLINT is written only when the value has changed. */
    method PublishSupervisorTimerCompare()
      requires Valid()
      modifies this`published, clint
      ensures Valid() && clint.stimecmp == DesiredCompare(registers.View())
      ensures !StceEnabled(registers.View()) ==> clint.stimecmp == 0xffff_ffff_ffff_ffff
      ensures (clint.mtime, clint.mtimecmp, clint.machineTimerWire)
              == old((clint.mtime, clint.mtimecmp, clint.machineTimerWire))
    {
      hide Number;
      var desired := DesiredCompare(registers.ViewNow());
      if published == desired {
        return;
      }
      published := desired;
      clint.SetStimecmpMirror(desired);
    }

    /**
     * `sampleDevicePending`. The machine bits show the comparisons and the selection behind their wires, and
     * while STCE is on STIP shows the hart's own `stimecmp` against `mtime`, as of this sample.
     */
    method SampleDevicePending(msip: bool)
      requires Valid()
      modifies this`published, clint, registers`plicSupervisorExternalPending, registers.controlAndStatus
      ensures Valid() && clint.mtime == old(clint.mtime) && clint.mtimecmp == old(clint.mtimecmp)
      ensures registers.View() == Trap.Sample(old(registers.View()), Trap.Wires(
                                      clint.machineTimerWire, msip, clint.supervisorTimerWire, plic.wire.machine,
                                          plic.wire.supervisor))
      ensures var h := registers.View();
              && (Has(h.csr[MIP], 0x80) <==> clint.mtime >= clint.mtimecmp)
              && (Has(h.csr[MIP], 0x8) <==> msip)
              && (Has(h.csr[MIP], 0x800) <==> Plic.Selected(plic.View(), Plic.Machine) != 0)
              && (h.plicSeip <==> Plic.Selected(plic.View(), Plic.Supervisor) != 0)
              && (StceEnabled(h) ==> (Has(h.csr[MIP], MIP_STIP) <==> clint.mtime >= Number(h.csr[STIMECMP])))
    {
      hide Number, Trap.SampledMip, Has, Plic.Selected, Plic.Sound;
      ghost var before := registers.View();
      var mtip := clint.machineTimerWire;
      PublishSupervisorTimerCompare();
      assert plic.WireIsFresh(Plic.Machine) && plic.WireIsFresh(Plic.Supervisor);
      var w := Trap.Wires(mtip, msip, clint.supervisorTimerWire, plic.wire.machine, plic.wire.supervisor);
      registers.SampleDevicePending(w);
      Trap.SampleShowsTheWires(before, w);
      SampleKeepsCompare(before, w);
    }
  }

  lemma SampleKeepsCompare(h: Hart, w: Trap.Wires)
    requires Shaped(h)
    ensures var t := Trap.Sample(h, w); StceEnabled(t) == StceEnabled(h) && t.csr[STIMECMP] == h.csr[STIMECMP]
  {
    hide Trap.SampledMip;
  }
}
