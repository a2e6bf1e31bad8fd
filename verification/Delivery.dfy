/**
 * A keystroke's way to the hart, across the UART, the PLIC and the hart's interrupt selection
 * (`src/emulator/uart/registers.ts`, `src/emulator/plic/gateway.ts`, `src/emulator/cpu/trap.ts`).
 */
module Delivery {
  import opened Bytes
  import opened Csr
  import Plic
  import Trap
  import Uart

  const MEI: nat := 11

  /** Source 10 is let through to machine mode and not being served. */
  ghost predicate RoutesKeyboard(g: Plic.Gateway) {
    && Plic.Sound(g) && !Plic.Claimed(g, Uart.SOURCE) && g.enable.machine[Uart.SOURCE]
    && Plic.Priority(g, Uart.SOURCE) > LittleEndian(g.threshold.machine)
  }

  /** Machine external interrupts are enabled and not masked by the current mode. */
  predicate ListensForExternal(h: Hart)
    requires Shaped(h)
  {
    Has(h.csr[MIE], 0x800) && (h.privilege != MACHINE || Trap.Mie(h))
  }

  lemma ReceivedByteRaisesTheLevel(u: Uart.Uart, value: Byte)
    requires Uart.Shaped(u) && Uart.Erbfi(u.registers[1]) && |u.rx| < Uart.ROOM
    ensures Uart.Receive(u, value).irq && Uart.Receive(u, value).rx == u.rx + [value]
  {
  }

  lemma RaisedLevelIsWaiting(g: Plic.Gateway)
    requires RoutesKeyboard(g)
    ensures var raised := Plic.SetLevel(g, Uart.SOURCE, true);
            Plic.Sound(raised) && Uart.SOURCE in Plic.Drained(raised, Plic.Machine)
                && Plic.Selected(raised, Plic.Machine) != 0
  {
    var raised := Plic.SetLevel(g, Uart.SOURCE, true);
    Plic.SetLevelKeepsSound(g, Uart.SOURCE, true);
    Plic.RequestIsServed(raised, Plic.Machine, Uart.SOURCE);
  }

  lemma ExternalBitIsReadable(mip: bv64)
    ensures Has(With(mip, MIP_SEIP), 0x800) == Has(mip, 0x800)
  {
  }

  lemma ExternalIsNeverDelegated(mideleg: bv64)
    requires LawfulMideleg(mideleg)
    ensures !Has(mideleg, 0x800)
  {
  }

  /**
   * A raised machine-external wire is taken at the next sample, before every other interrupt, and always to
   * machine mode.
   */
  lemma ExternalWireIsTaken(h: Hart, w: Trap.Wires)
    requires Lawful(h) && ListensForExternal(h) && w.meip
    ensures var (t, taken) := Trap.TakeInterrupt(Trap.Sample(h, w));
            taken && t == Trap.EnterMachine(Trap.Sample(h, w), Trap.InterruptCause(MEI), 0)
  {
    assert Shaped(h) && LawfulMideleg(h.csr[MIDELEG]);
    hide Lawful, LawfulMideleg, Has, With, Trap.SampledMip, Trap.EnterMachine, Trap.EnterSupervisor,
      Trap.InterruptCause;
    var s := Trap.Sample(h, w);
    Trap.SampleShowsTheWires(h, w);
    ExternalBitIsReadable(s.csr[MIP]);
    ExternalIsNeverDelegated(h.csr[MIDELEG]);
    assert Trap.Takeable(s, MEI);
    assert Trap.PRIORITY[0] == MEI;
  }

  /**
   * A keystroke with ERBFI on, routed by the PLIC to a listening hart, traps it to machine mode with the
   * external interrupt cause at its next sample, and draining the claim register reaches source 10. `plic`
   * is the controller after `Uart.Device.PushReceive`, and the hart samples its machine wire.
   */
  lemma KeystrokeReachesTheHart(
    u: Uart.Uart, value: Byte, g: Plic.Gateway, plic: Plic.Controller, h: Hart, w: Trap.Wires)
    requires Uart.Shaped(u) && Uart.Erbfi(u.registers[1]) && |u.rx| < Uart.ROOM
    requires RoutesKeyboard(g) && Lawful(h) && ListensForExternal(h)
    requires plic.Valid() && plic.View() == Plic.SetLevel(g, Uart.SOURCE, Uart.Receive(u, value).irq)
    requires w.meip == plic.wire.machine
    ensures var (t, taken) := Trap.TakeInterrupt(Trap.Sample(h, w));
            && taken && t.privilege == MACHINE && t.csr[MCAUSE] == Trap.InterruptCause(MEI)
                 && t.csr[MEPC] == Without(h.pc, 0x1)
    ensures 10 in Plic.Drained(plic.View(), Plic.Machine)
  {
    WireShowsSelection(plic);
    hide Lawful, RoutesKeyboard, ListensForExternal, Trap.TakeInterrupt, Trap.Sample, Trap.InterruptCause, Without,
      Uart.Receive, Plic.SetLevel,
      Plic.Selected, Plic.Drained, plic.Valid, plic.View;
    ReceivedByteRaisesTheLevel(u, value);
    RaisedLevelIsWaiting(g);
    ExternalTrapEffect(h, w);
  }

  lemma ExternalTrapEffect(h: Hart, w: Trap.Wires)
    requires Lawful(h) && ListensForExternal(h) && w.meip
    ensures var (t, taken) := Trap.TakeInterrupt(Trap.Sample(h, w));
            taken && t.privilege == MACHINE && t.csr[MCAUSE] == Trap.InterruptCause(MEI)
                && t.csr[MEPC] == Without(h.pc, 0x1)
  {
    hide Lawful, ListensForExternal, Without, Trap.EnterMachine, Trap.InterruptCause, Trap.TakeInterrupt,
      Trap.SampledMip,
      Trap.MachineEntry, LegalMstatus, Trap.HandlerPc;
    LawfulIsShaped(h);
    ExternalWireIsTaken(h, w);
    Trap.EnterMachineEffect(Trap.Sample(h, w), Trap.InterruptCause(MEI), 0);
  }

  lemma WireShowsSelection(plic: Plic.Controller)
    requires plic.Valid()
    ensures |plic.priority| == 32 && plic.wire.machine == (Plic.Selected(plic.View(), Plic.Machine) != 0)
  {
    assert plic.WireIsFresh(Plic.Machine);
  }
}
