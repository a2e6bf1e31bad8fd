/**
 * The 16550 registers (`src/emulator/uart/registers.ts`) over the two rings of `UartRing`, and the
 * PLIC input they drive.
 *
 * `Uart` is the device as a value, with the rings as queues and `irq` for the level last sent to
 * PLIC source 10. `Device` is the source's mutable form: rings, register bytes and the controller.
 */
module Uart {
  import opened Bytes
  import UartRing
  import Plic

  const ROOM: nat := 15
  const SOURCE: nat := 10
  const NO_INTERRUPT: Byte := 1
  const THRE: Byte := 2
  const RDA: Byte := 4

  /** Host byte 2 holds the sticky THRE bit; guest accesses to offset 2 never reach it. */
  const STICKY: nat := 2

  datatype Uart = Uart(rx: seq<Byte>, tx: seq<Byte>, registers: seq<Byte>, irq: bool)

  predicate Shaped(u: Uart) { |u.registers| == 8 && |u.rx| <= ROOM && |u.tx| <= ROOM }

  predicate Erbfi(ier: Byte) { ier % 2 == 1 }
  predicate Etbei(ier: Byte) { ier / 2 % 2 == 1 }

  predicate Dlab(u: Uart)
    requires Shaped(u)
  {
    u.registers[3] >= 128
  }

  predicate Sticky(u: Uart)
    requires Shaped(u)
  {
    u.registers[STICKY] != 0
  }

  /** LSR: DR, THRE (there is room) and TEMT (nothing left to send). */
  function LineStatus(u: Uart): Byte {
    (if u.rx != [] then 0x01 else 0) + (if |u.tx| < ROOM then 0x20 else 0) + (if u.tx == [] then 0x40 else 0)
  }

  function Identity(u: Uart): Byte
    requires Shaped(u)
  {
    if Erbfi(u.registers[1]) && u.rx != [] then RDA
    else if Etbei(u.registers[1]) && Sticky(u) && |u.tx| < ROOM then THRE
    else NO_INTERRUPT
  }

  predicate Reports(u: Uart)
    requires Shaped(u)
  {
    Identity(u) != NO_INTERRUPT
  }

  function Refreshed(u: Uart): Uart
    requires Shaped(u)
  {
    u.(irq := Reports(u))
  }

  function WithSticky(u: Uart, value: bool): Uart
    requires Shaped(u)
  {
    u.(registers := u.registers[STICKY := if value then 1 else 0])
  }

  /** Keyboard input; dropped when the ring is full. */
  function Receive(u: Uart, value: Byte): Uart
    requires Shaped(u)
  {
    if |u.rx| == ROOM then u else Refreshed(u.(rx := u.rx + [value]))
  }

  /** The terminal takes a byte; the full-to-room edge arms the sticky bit. */
  function Transmit(u: Uart): Uart
    requires Shaped(u)
  {
    if u.tx == [] then u
    else
      var t := u.(tx := u.tx[1..]);
      Refreshed(if |u.tx| == ROOM && Etbei(u.registers[1]) then WithSticky(t, true) else t)
  }

  function Loaded(u: Uart, r: nat): Byte
    requires Shaped(u) && r < 8
  {
    if r == 0 && !Dlab(u) then (if u.rx == [] then 0 else u.rx[0])
    else if r == 2 then Identity(u)
    else if r == 5 then LineStatus(u)
    else u.registers[r]
  }

  function AfterLoad(u: Uart, r: nat): Uart
    requires Shaped(u) && r < 8
  {
    if r == 0 && !Dlab(u) then Refreshed(if u.rx == [] then u else u.(rx := u.rx[1..]))
    else if r == 2 && Identity(u) == THRE then Refreshed(WithSticky(u, false))
    else u
  }

  function Stored(u: Uart, r: nat, value: Byte): Uart
    requires Shaped(u) && r < 8
  {
    if r == 0 && !Dlab(u) then
      var t := WithSticky(u, false);
      Refreshed(if |u.tx| == ROOM then t else t.(tx := u.tx + [value]))
    else if r == 2 || r == 5 then u
    else
      var t := u.(registers := u.registers[r := value]);
      if r == 1 && !Dlab(u) then Refreshed(if Etbei(value) && |u.tx| < ROOM then WithSticky(t, true) else t)
      else t
  }

  datatype Event = Received(value: Byte) | Transmitted | Load(r: nat) | Store(r: nat, value: Byte)

  predicate IsEvent(e: Event) { (e.Load? || e.Store?) ==> e.r < 8 }

  function Step(u: Uart, e: Event): Uart
    requires Shaped(u) && IsEvent(e)
  {
    match e
    case Received(value) => Receive(u, value)
    case Transmitted => Transmit(u)
    case Load(r) => AfterLoad(u, r)
    case Store(r, value) => Stored(u, r, value)
  }

  /** The PLIC sees an interrupt exactly when IIR reports one. */
  predicate Fresh(u: Uart)
    requires Shaped(u)
  {
    u.irq == Reports(u)
  }

  /** A pending THRE interrupt implies room, so IIR reports it as soon as RX allows. */
  predicate StickyMeansRoom(u: Uart)
    requires Shaped(u)
  {
    Sticky(u) ==> |u.tx| < ROOM
  }

  /** The store to offset 1 that reaches the IER byte through the divisor latch, without a refresh. */
  predicate WritesLatchOverIer(u: Uart, e: Event)
    requires Shaped(u)
  {
    e.Store? && e.r == 1 && Dlab(u)
  }

  lemma StepKeepsShape(u: Uart, e: Event)
    requires Shaped(u) && IsEvent(e) && StickyMeansRoom(u)
    ensures Shaped(Step(u, e)) && StickyMeansRoom(Step(u, e))
  {
  }

  lemma StepKeepsFresh(u: Uart, e: Event)
    requires Shaped(u) && IsEvent(e) && Fresh(u) && StickyMeansRoom(u) && !WritesLatchOverIer(u, e)
    ensures Shaped(Step(u, e)) && Fresh(Step(u, e))
  {
    StepKeepsShape(u, e);
  }

  /**
   * A latch store over IER leaves the PLIC input stale exactly when the IER bits it happens to write
   * select a different interrupt condition than the old ones.
   */
  lemma LatchStoreStaleness(u: Uart, value: Byte)
    requires Shaped(u) && Fresh(u) && StickyMeansRoom(u) && Dlab(u)
    ensures var ier, data, empty := u.registers[1], u.rx != [], Sticky(u);
            var before := (Erbfi(ier) && data) || (Etbei(ier) && empty);
            var after := (Erbfi(value) && data) || (Etbei(value) && empty);
            Fresh(Stored(u, 1, value)) <==> before == after
  {
  }

  /** A guest store is safe for every fresh state of the device exactly when it is not a latch store to offset 1. */
  lemma SafeStores(r: nat, value: Byte, dlab: bool)
    requires r < 8
    ensures (forall u: Uart :: Shaped(u) && StickyMeansRoom(u) && Fresh(u) && Dlab(u) == dlab ==>
            Fresh(Stored(u, r, value)))
            <==> !(r == 1 && dlab)
  {
    if r == 1 && dlab {
      var u := if Erbfi(value) then Uart([65], [], [0, 0, 0, 128, 0, 0, 0, 0], false)
          else Uart([65], [], [0, 1, 0, 128, 0, 0, 0, 0], true);
      assert u.registers[1] == (if Erbfi(value) then 0 else 1) && u.registers[2] == 0 && u.registers[3] == 128;
      assert Stored(u, 1, value).registers[1] == value;
      assert !Fresh(Stored(u, r, value));
    } else {
      forall u: Uart | Shaped(u) && StickyMeansRoom(u) && Fresh(u) && Dlab(u) == dlab
        ensures Fresh(Stored(u, r, value))
      {
        StepKeepsFresh(u, Store(r, value));
      }
    }
  }

  // ---------- The registers by number and bit ----------

  predicate IsOn(value: int, bit: nat)
    requires bit > 0
  {
    value / bit % 2 == 1
  }

  /**
   * What a load shows. RBR is the oldest byte. IIR is 4 for received data, else 2 for an armed transmitter with
   * room, else 1. LSR has bit 0x01 for received data, 0x20 for room and 0x40 for nothing left to send.
   */
  lemma LoadsByNumber(u: Uart, r: nat)
    requires Shaped(u) && r < 8
    ensures r == 0 && u.registers[3] < 128 ==> Loaded(u, r) == if u.rx == [] then 0 else u.rx[0]
    ensures r == 2 ==>
              Loaded(u, r) == if IsOn(u.registers[1], 1) && u.rx != [] then 4
                              else if IsOn(u.registers[1], 2) && u.registers[2] != 0 && |u.tx| < 15 then 2 else 1
    ensures r == 5 ==>
              var lsr := Loaded(u, r);
              && (IsOn(lsr, 0x01) <==> u.rx != []) && (IsOn(lsr, 0x20) <==> |u.tx| < 15)
                   && (IsOn(lsr, 0x40) <==> u.tx == [])
              && lsr % 0x20 < 2 && lsr < 0x80
    ensures r != 2 && r != 5 && !(r == 0 && u.registers[3] < 128) ==> Loaded(u, r) == u.registers[r]
  {
  }

  /** What a load changes: RBR takes the byte it shows, and IIR clears the condition it reports as 2. */
  lemma LoadsChange(u: Uart, r: nat)
    requires Shaped(u) && r < 8
    ensures var t := AfterLoad(u, r);
            && t.tx == u.tx && t.rx == (if r == 0 && u.registers[3] < 128 && u.rx != [] then u.rx[1..] else u.rx)
            && t.registers == (if r == 2 && Loaded(u, 2) == 2 then u.registers[2 := 0] else u.registers)
            && t.irq == if (r == 0 && u.registers[3] < 128) || (r == 2 && Loaded(u, 2) == 2) then Loaded(t, 2) != 1
                 else u.irq
  {
  }

  /**
   * What a store changes: THR sends the byte if there is room and disarms the transmitter; IER arms it if it
   * enables it while there is room; IIR and LSR ignore stores; every other byte is kept.
   */
  lemma StoresChange(u: Uart, r: nat, value: Byte)
    requires Shaped(u) && r < 8
    ensures var t, dlab := Stored(u, r, value), u.registers[3] >= 128;
            && t.rx == u.rx && t.tx == (if r == 0 && !dlab && |u.tx| < 15 then u.tx + [value] else u.tx)
            && t.registers == (if r == 0 && !dlab then u.registers[2 := 0]
                               else if r == 2 || r == 5 then u.registers
                               else if r == 1 && !dlab && IsOn(value, 2)
                                   && |u.tx| < 15 then u.registers[1 := value][2 := 1]
                               else u.registers[r := value])
            && t.irq == if r < 2 && !dlab then Loaded(t, 2) != 1 else u.irq
  {
  }

  /**
   * What the terminal changes: a key is kept if there is room, and taking a byte from a full ring arms an
   * enabled transmitter.
   */
  lemma TerminalChanges(u: Uart, key: Byte)
    requires Shaped(u)
    ensures |u.rx| == 15 ==> Receive(u, key) == u
    ensures |u.rx| < 15 ==> Receive(u, key) == u.(rx := u.rx + [key], irq := Receive(u, key).irq)
                            && Receive(u, key).irq == (Loaded(Receive(u, key), 2) != 1)
    ensures u.tx == [] ==> Transmit(u) == u
    ensures u.tx != [] ==>
              var t := Transmit(u);
              && t.rx == u.rx && t.tx == u.tx[1..] && t.irq == (Loaded(t, 2) != 1)
              && t.registers == if |u.tx| == 15 && IsOn(u.registers[1], 2) then u.registers[2 := 1] else u.registers
  {
  }

  // ---------- Runs ----------

  ghost predicate Run(states: seq<Uart>, events: seq<Event>) {
    && |states| == |events| + 1
    && states[0] == Uart([], [], [0, 0, 0, 0, 0, 0, 0, 0], false)
    && forall k :: 0 <= k < |events| ==>
         Shaped(states[k]) && IsEvent(events[k]) && states[k + 1] == Step(states[k], events[k])
  }

  /**
   * From reset: ERBFI on, a byte received, DLAB set, one divisor byte with bit 0 clear. IIR reports nothing
   * any more, and the PLIC input stays high.
   */
  lemma LatchStoreCanGoStale() returns (states: seq<Uart>, events: seq<Event>)
    ensures Run(states, events) && Shaped(states[|events|]) && states[|events|].irq && !Reports(states[|events|])
  {
    events := [Store(1, 1), Received(65), Store(3, 128), Store(1, 12)];
    var reset := Uart([], [], [0, 0, 0, 0, 0, 0, 0, 0], false);
    var enabled := Step(reset, events[0]);
    assert enabled == Uart([], [], [0, 1, 0, 0, 0, 0, 0, 0], false);
    var raised := Step(enabled, events[1]);
    assert raised == Uart([65], [], [0, 1, 0, 0, 0, 0, 0, 0], true);
    var latched := Step(raised, events[2]);
    assert latched == Uart([65], [], [0, 1, 0, 128, 0, 0, 0, 0], true);
    var stale := Step(latched, events[3]);
    assert stale == Uart([65], [], [0, 12, 0, 128, 0, 0, 0, 0], true);
    states := [reset, enabled, raised, latched, stale];
  }

  lemma {:induction false} StickyMeansRoomAlways(states: seq<Uart>, events: seq<Event>, n: nat)
    requires Run(states, events) && n < |states|
    ensures Shaped(states[n]) && StickyMeansRoom(states[n])
  {
    if n > 0 {
      StickyMeansRoomAlways(states, events, n - 1);
      StepKeepsShape(states[n - 1], events[n - 1]);
    }
  }

  /** Without latch stores over IER, the PLIC input follows IIR in every run. */
  lemma {:induction false} PlicFollowsIir(states: seq<Uart>, events: seq<Event>, n: nat)
    requires Run(states, events) && n < |states|
    requires forall k :: 0 <= k < n ==> !WritesLatchOverIer(states[k], events[k])
    ensures Shaped(states[n]) && Fresh(states[n])
  {
    if n > 0 {
      StickyMeansRoomAlways(states, events, n - 1);
      PlicFollowsIir(states, events, n - 1);
      StepKeepsFresh(states[n - 1], events[n - 1]);
    }
  }

  /** The events that can arm a THRE interrupt: room appears in a full ring, or the guest enables ETBEI. */
  predicate Arms(u: Uart, e: Event)
    requires Shaped(u)
  {
    || (e.Transmitted? && |u.tx| == ROOM && Etbei(u.registers[1]))
    || (e.Store? && e.r == 1 && !Dlab(u) && Etbei(e.value))
  }

  predicate ReadsThre(u: Uart, e: Event)
    requires Shaped(u)
  {
    e == Load(2) && Identity(u) == THRE
  }

  lemma {:induction false} StaysDisarmed(states: seq<Uart>, events: seq<Event>, i: nat, j: nat)
    requires Run(states, events) && i < j < |states| && ReadsThre(states[i], events[i])
    requires forall k :: i < k < j ==> !Arms(states[k], events[k])
    ensures Shaped(states[j]) && !Sticky(states[j])
    decreases j
  {
    StickyMeansRoomAlways(states, events, j);
    if j > i + 1 {
      StaysDisarmed(states, events, i, j - 1);
    }
  }

  /** IIR reports each THRE condition once: a second THRE identity needs a new arming event in between. */
  lemma ThreIsReportedOnce(states: seq<Uart>, events: seq<Event>, i: nat, j: nat)
    requires Run(states, events) && i < j < |events|
    requires ReadsThre(states[i], events[i]) && ReadsThre(states[j], events[j])
    ensures exists k :: i < k < j && Arms(states[k], events[k])
  {
    if forall k :: i < k < j ==> !Arms(states[k], events[k]) {
      StaysDisarmed(states, events, i, j);
      assert false;
    }
  }

  /** The byte an event puts into a ring, takes out of it, or neither. */
  function Taken(u: Uart, e: Event): seq<Byte>
    requires Shaped(u)
  {
    if e.Received? && |u.rx| < ROOM then [e.value] else []
  }

  function Read(u: Uart, e: Event): seq<Byte>
    requires Shaped(u)
  {
    if e == Load(0) && !Dlab(u) && u.rx != [] then [u.rx[0]] else []
  }

  function Sent(u: Uart, e: Event): seq<Byte>
    requires Shaped(u)
  {
    if e.Store? && e.r == 0 && !Dlab(u) && |u.tx| < ROOM then [e.value] else []
  }

  function Shown(u: Uart, e: Event): seq<Byte>
    requires Shaped(u)
  {
    if e.Transmitted? && u.tx != [] then [u.tx[0]] else []
  }

  function Total(f: (Uart, Event) --> seq<Byte>, states: seq<Uart>, events: seq<Event>, n: nat): seq<Byte>
    requires n <= |events| <= |states| && forall k :: 0 <= k < n ==> f.requires(states[k], events[k])
  {
    if n == 0 then [] else Total(f, states, events, n - 1) + f(states[n - 1], events[n - 1])
  }

  lemma StepMovesBytes(u: Uart, e: Event)
    requires Shaped(u) && IsEvent(e)
    ensures Read(u, e) + Step(u, e).rx == u.rx + Taken(u, e)
    ensures Shown(u, e) + Step(u, e).tx == u.tx + Sent(u, e)
  {
  }

  lemma Regroup(a: seq<Byte>, b: seq<Byte>, c: seq<Byte>, d: seq<Byte>, before: seq<Byte>, after: seq<Byte>)
    requires a == b + before && d + after == before + c
    ensures a + c == (b + d) + after
  {
    assert (b + before) + c == b + (before + c);
    assert (b + d) + after == b + (d + after);
  }

  /**
   * In every run the guest reads exactly the keyboard bytes taken in, and the terminal gets exactly the
   * bytes the guest sent, in order.
   */
  lemma {:induction false} BytesAreConserved(states: seq<Uart>, events: seq<Event>, n: nat)
    requires Run(states, events) && n < |states|
    ensures Total(Taken, states, events, n) == Total(Read, states, events, n) + states[n].rx
    ensures Total(Sent, states, events, n) == Total(Shown, states, events, n) + states[n].tx
  {
    if n > 0 {
      BytesAreConserved(states, events, n - 1);
      var u, e, t := states[n - 1], events[n - 1], states[n];
      StepMovesBytes(u, e);
      Regroup(Total(Taken, states, events, n - 1), Total(Read, states, events, n - 1), Taken(u, e), Read(u, e), u.rx,
          t.rx);
      Regroup(Total(Sent, states, events, n - 1), Total(Shown, states, events, n - 1), Sent(u, e), Shown(u, e), u.tx,
          t.tx);
    }
  }

  // ---------- The device ----------

  class Device {
    const rx: UartRing.Ring
    const tx: UartRing.Ring
    const registers: array<Byte>
    const plic: Plic.Controller

    ghost predicate Valid()
      reads this, rx, rx.data, tx, tx.data, registers, plic
    {
      && rx != tx && rx.data != tx.data && rx.data != registers && tx.data != registers
      && rx.Valid() && tx.Valid() && registers.Length == 8 && plic.Valid()
    }

    ghost function View(): Uart
      reads this, rx, rx.data, tx, tx.data, registers, plic
      requires Valid()
      ensures Shaped(View())
    {
      Uart(rx.Queue(), tx.Queue(), registers[..], plic.inputLevel[SOURCE])
    }

    constructor (controller: Plic.Controller)
      requires controller.Valid()
      ensures Valid() && plic == controller && fresh(rx) && fresh(tx) && fresh(registers) && fresh(rx.data)
      ensures fresh(tx.data)
      ensures View() == Uart([], [], [0, 0, 0, 0, 0, 0, 0, 0], controller.inputLevel[SOURCE])
    {
      rx := new UartRing.Ring();
      tx := new UartRing.Ring();
      registers := new Byte[8](_ => 0);
      plic := controller;
    }

    method ReadLineStatus() returns (lsr: Byte)
      requires Valid()
      ensures lsr == LineStatus(View())
    {
      UartRing.LengthTests(rx.data[..], rx.head, rx.tail);
      UartRing.LengthTests(tx.data[..], tx.head, tx.tail);
      lsr := 0;
      if UartRing.QueueLength(rx.head, rx.tail) > 0 {
        lsr := lsr + 0x01;
      }
      if !UartRing.QueueIsFull(tx.head, tx.tail) {
        lsr := lsr + 0x20;
      }
      if tx.head == tx.tail {
        lsr := lsr + 0x40;
      }
    }

    method ReadInterruptIdentity() returns (identity: Byte)
      requires Valid()
      ensures identity == Identity(View())
    {
      var ier := registers[1];
      var lsr := ReadLineStatus();
      if Erbfi(ier) && lsr % 2 == 1 {
        return RDA;
      }
      if Etbei(ier) && registers[STICKY] != 0 && lsr / 0x20 % 2 == 1 {
        return THRE;
      }
      return NO_INTERRUPT;
    }

    /** Sends the current condition to source 10 and leaves the controller's other inputs alone. */
    method RefreshUartIrq()
      requires Valid()
      modifies plic
      ensures Valid() && View() == Refreshed(old(View()))
      ensures plic.View() == Plic.SetLevel(old(plic.View()), SOURCE, View().irq)
    {
      var identity := ReadInterruptIdentity();
      plic.SetSourcePending(SOURCE, identity != NO_INTERRUPT);
    }

    method PushReceive(value: Byte) returns (accepted: bool)
      requires Valid()
      modifies rx, rx.data, plic
      ensures Valid() && rx.data == old(rx.data) && View() == Receive(old(View()), value)
      ensures accepted == (|old(View()).rx| < ROOM)
      ensures plic.View() == Plic.SetLevel(old(plic.View()), SOURCE, View().irq)
    {
      Plic.SameLevelIsNoChange(plic.View(), SOURCE);
      accepted := rx.Enqueue(value);
      if accepted {
        RefreshUartIrq();
      }
    }

    method PopTransmit() returns (found: bool, value: Byte)
      requires Valid()
      modifies tx, registers, plic
      ensures Valid() && View() == Transmit(old(View())) && found == (old(View()).tx != [])
      ensures found ==> value == old(View()).tx[0]
      ensures plic.View() == Plic.SetLevel(old(plic.View()), SOURCE, View().irq)
    {
      Plic.SameLevelIsNoChange(plic.View(), SOURCE);
      var threBefore, threAfter;
      found, value, threBefore, threAfter := tx.DequeueTransmit();
      if found {
        if !threBefore && threAfter && Etbei(registers[1]) {
          registers[STICKY] := 1;
        }
        RefreshUartIrq();
      }
    }

    method LoadRegister(r: nat) returns (value: Byte)
      requires Valid() && r < 8
      modifies rx, registers, plic
      ensures Valid() && rx.data == old(rx.data) && View() == AfterLoad(old(View()), r)
      ensures value == Loaded(old(View()), r)
      ensures plic.View() == Plic.SetLevel(old(plic.View()), SOURCE, View().irq)
    {
      Plic.SameLevelIsNoChange(plic.View(), SOURCE);
      if r == 0 && registers[3] < 128 {
        value := rx.PopReceive();
        RefreshUartIrq();
      } else if r == 2 {
        value := ReadInterruptIdentity();
        if value == THRE {
          registers[STICKY] := 0;
          RefreshUartIrq();
        }
      } else if r == 5 {
        value := ReadLineStatus();
      } else {
        value := registers[r];
      }
    }

    /** THR: THRE may still be set afterwards, but it must fall and rise before it interrupts again. */
    method StoreTransmitHolding(value: Byte)
      requires Valid() && !Dlab(View())
      modifies tx, tx.data, registers, plic
      ensures Valid() && tx.data == old(tx.data) && View() == Stored(old(View()), 0, value)
      ensures plic.View() == Plic.SetLevel(old(plic.View()), SOURCE, View().irq)
    {
      hide Identity;
      registers[STICKY] := 0;
      var _ := tx.PushTransmit(value);
      RefreshUartIrq();
    }

    /** IER with DLAB clear: enabling ETBEI while there is room arms the sticky bit. */
    method StoreInterruptEnable(value: Byte)
      requires Valid() && !Dlab(View())
      modifies registers, plic
      ensures Valid() && View() == Stored(old(View()), 1, value)
      ensures plic.View() == Plic.SetLevel(old(plic.View()), SOURCE, View().irq)
    {
      hide Identity;
      registers[1] := value;
      var lsr := ReadLineStatus();
      if Etbei(registers[1]) && lsr / 0x20 % 2 == 1 {
        registers[STICKY] := 1;
      }
      RefreshUartIrq();
    }

    method StoreRegister(r: nat, value: Byte)
      requires Valid() && r < 8
      modifies tx, tx.data, registers, plic
      ensures Valid() && tx.data == old(tx.data) && View() == Stored(old(View()), r, value)
      ensures plic.View() == Plic.SetLevel(old(plic.View()), SOURCE, View().irq)
    {
      Plic.SameLevelIsNoChange(plic.View(), SOURCE);
      hide Identity;
      var dlab := registers[3] >= 128;
      if r == 0 && !dlab {
        StoreTransmitHolding(value);
      } else if r == 1 && !dlab {
        StoreInterruptEnable(value);
      } else if r != 2 && r != 5 {
        registers[r] := value;
      }
    }
  }
}
