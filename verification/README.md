# A Dafny model of the RV64IMAC emulator

The emulator runs a RISC-V hart, a timer and a terminal as workers over one shared byte buffer. This
project models the parts of it where those workers meet, and the privileged machine they implement,
and proves what they are for. `dafny verify dfyconfig.toml` checks everything.

| module | models |
|---|---|
| `Locks` | the re-entrant monitor and gateway locks as interleaved compare-exchange, wait and notify steps of workers that run the source's calls |
| `Reservation`, `LrSc`, `LrScTrace`, `Amo` | LR/SC slots, the interleaving of LR, SC, AMO and plain stores of any number of harts, and the values AMOs compute |
| `UartRing`, `UartRingSteps`, `Uart` | the UART rings, their producer/consumer interleaving, and the 16550 registers above them |
| `Plic`, `PlicBits`, `IrqLevel` | the claim/complete gateway, its guest window and its output wires, and the level word into which all devices publish their wires |
| `Csr`, `CsrBits`, `PendingSeip`, `Trap`, `TrapBits`, `Registers` | control and status registers, traps, interrupts and the hart loop |
| `Pmp`, `Protection` | physical memory protection, and what it guarantees over the runs of a hart |
| `Sampling`, `Delivery` | what a hart sees of its devices, and a keystroke's way from the UART through the PLIC to the hart |
| `DeviceTree` | the flattened device tree and a reader for it |
| `DecodeCache`, `Bytes`, `Shifts`, `OpM`, `Clint`, `GuestMemory`, `Ranges` | the decode cache, 64-bit byte arithmetic, the timebase, and region packing and lookup |
| `Common` | definitions that several modules share |

Code that the source writes as expressions is modelled by functions. Code that changes state in place
is a class or a loop, and each such method is proved equal to a function on values (`ensures View() ==
F(old(View()))`); the lemmas about those functions say what the code guarantees. Interleavings are
state machines over single shared accesses, and their theorems range over every run. A state machine's
history is recorded beside its state; no step reads it. A loop that retries a compareExchange takes what
other workers do between its accesses as a parameter. The modules `CsrBits`, `TrapBits` and `PlicBits` state what
the operations do in register numbers, offsets, bits and codes, without the names the model gives them.

Conventions: little-endian byte arrays are `seq<Byte>` with `LittleEndian` as their value; CSRs are
`bv64` and the source's byte masks are 64-bit constants; PLIC bit fields are sequences of 32 booleans;
the irq-level word is the set of its one bits; host clock, wires of other devices, the decoded length
and the memory map's verdict at the PC are parameters.

## Where a law needs a condition

- UART: a store to offset 1 while DLAB is set writes the divisor latch, but the source keeps it in the
  IER byte and does not refresh the PLIC input. `Uart.LatchStoreCanGoStale` is a run from reset to a stale
  input, `Uart.LatchStoreStaleness` says for each state exactly when it happens, `Uart.SafeStores` that no
  other store can do it, and `Uart.PlicFollowsIir` that runs without such stores stay exact.
- CLINT: a store of `mtime` is kept through the next tick only if the reseated epoch is faithful.
  `Clint.TickAfterStore` gives the exact condition, `Clint.EarlyStoreIsLost` an input that fails it, and
  `Clint.StoreIsFaithfulAfterEnoughTime` and `Clint.GigahertzIsFaithful` the two families that meet it.
- Guest memory: a zero-length window accepted inside another one can hide part of it from the binary
  search. `GuestMemory.SpecsDecideResolution` is the exact condition on the specifications and
  `GuestMemory.AnEmptyWindowShadows` an instance that `createMemory` accepts.
- mip: the repository's README (lines 43 and 68) says that a CSR write cannot change mip.SEIP. The code
  keeps a software bit beside the PLIC wire, reads the OR of both and stores what it is given
  (`src/emulator/cpu/registers.ts:589-596,723-732`). `PendingSeip.ClearingNothingLatchesTheWire` is an
  instruction that breaks the law, `PendingSeip.SeipIsKept` says for each hart and instruction exactly when
  it holds, `PendingSeip.SafeInstructions` that writes of mip are the only unsafe instructions, and
  `PendingSeip.DeviceBitsAreKept` that the law does hold of the other device bits.
- irq-level: a wire byte and its bit of the level word agree, whenever nobody is driving them, for workers
  that never share a bit, and only for those: `IrqLevel.SharingDecides`. Bits with several drivers stay
  together while a lock keeps those apart (`IrqLevel.WiresArePublished`), as the gateway lock does for the
  PLIC; the two timer bits have no such lock.
- `csrrs` and `csrrc` skip their write when the source register is x0, not when its value is zero; the
  model follows `src/emulator/cpu/instructions/system.ts:253,285`.

## Model

| member | source | states |
|---|---|---|
| Locks.CriticalSectionsExclude | src/emulator/reservation.ts:112-142 | in every interleaving of any number of workers the lock word is 1 exactly when a worker has depth above 0, and never two do |
| Locks.WorkIsExclusive | src/emulator/memory.ts:383-398 | in every run, a worker that touches what a lock protects holds that lock, and no other worker does |
| Locks.SleeperIsNeverForgotten | src/emulator/plic/gateway.ts:78-104 | whenever a worker sleeps on a lock, the lock is held or an awake worker is contending for it or about to notify |
| Locks.ProgramIsSafe | src/emulator/memory.ts:383-452 | every call of the source (guest store and load, LR, SC, AMO, device level) takes the monitor before the gateway and gives back what it took |
| Locks.MonitorIsTakenFirst | src/emulator/memory.ts:386-395 | in every run a worker that waits for the monitor does not hold the gateway |
| Locks.IdleWorkersHoldNothing | src/emulator/reservation.ts:144-159 | in every run a worker between calls holds neither lock and has no SC flag left |
| Locks.WaitChainsAreShort | src/emulator/plic/gateway.ts:78-113 | in every run a chain of waiters has at most two links, monitor then gateway, so there is no wait cycle |
| Locks.SomeoneCanAlwaysMove | src/emulator/reservation.ts:112-142 | in every run, while any call is unfinished some worker inside a call can take its next step |
| Locks.EveryCallFinishes | src/emulator/reservation.ts:112-159 | from any state of a run only boundedly many steps can follow without a new call, whoever is scheduled, and when none is left every worker is idle and both locks are free |
| Reservation.ArmedKeepsSingleOwner | src/emulator/reservation.ts:190-219 | arming a slot leaves at most one valid slot for each 64-byte line |
| Reservation.InvalidatedExactly | src/emulator/reservation.ts:246-266 | after a write a slot is armed exactly when it was and no byte of its line was written |
| Reservation.ReservationMonitor.ReleaseScMonitorIfHeld | src/emulator/reservation.ts:144-150 | gives back exactly the depth a successful SC check kept, once |
| Reservation.ReservationMonitor.SetReservationLocked | src/emulator/reservation.ts:190-219 | the loop over slots arms the hart's slot, disarms others on the line, and ignores invalid hart ids |
| Reservation.ReservationMonitor.TryTakeReservation | src/emulator/reservation.ts:222-243 | succeeds exactly on a valid slot with this address and width and then keeps the lock one level deeper; otherwise clears the slot and leaves the lock as it was |
| Reservation.ReservationMonitor.InvalidateOverlappingReservationsLocked | src/emulator/reservation.ts:246-266 | the loop disarms exactly the slots whose line meets the written range |
| LrSc.EveryRunIsSequential | src/emulator/cpu/instructions/amo.ts:144-341 | every run's history is sequential: LR and AMO return the memory word at their point, an AMO writes its exact result, and a successful SC replaces the word of its hart's latest LR with no write to the line and no other success of that hart in between |
| LrScTrace.EveryInstructionDoesItsWork | src/emulator/cpu/instructions/amo.ts:144-373 | in every run each finished instruction did exactly its own work: an LR read and reserved its address; an SC stored its operand and left 0, or nothing and left 1; a plain store wrote its bytes in RAM in order, each once; an AMO applied its operation to its operand once; LR and AMO leave the sign-extended word |
| LrScTrace.UndisturbedScSucceeds | src/emulator/reservation.ts:222-243 | in every run an SC matching its LR succeeds if nobody wrote or reserved the line since and its hart made no other LR or SC |
| LrSc.SuccessesNeedSeparateReservations | src/emulator/cpu/instructions/amo.ts:210-296 | between two successful SCs of a hart there is an LR of that hart |
| LrSc.ReservationsAreTrue | src/emulator/reservation.ts:170-243 | outside critical sections a valid slot means no write has touched its line since its LR, and no other slot claims the line |
| LrSc.ScSpendsReservation | src/emulator/memory.ts:383-398 | after any completed SC the hart's slot is invalid |
| LrSc.ResultsMatchHistory | src/emulator/ram.ts:176-298 | the value left in rd is the one the history records: the loaded word, the replaced word, or 0 exactly for a stored SC |
| LrSc.LockIsBalanced | src/emulator/reservation.ts:127-159 | an idle hart holds no depth and no SC flag |
| LrSc.SomeHartCanAdvance | src/emulator/ram.ts:215-298 | while a hart is inside an instruction some hart can take its next step |
| Amo.CombineComputes | src/emulator/cpu/instructions/amo.ts:343-562 | for all nine operations the stored word is the exact 32- or 64-bit result, although the code works on extended 64-bit bytes |
| Amo.BitsOfBytes | src/utils/bytes.ts:58-102 | and, or and xor of bytes, bit by bit |
| Amo.CombineReadsOnlyTheWord | src/emulator/cpu/instructions/amo.ts:343-372 | the result depends on the low word of the old value only |
| UartRing.LengthTests | src/emulator/uart/queues.ts:89-93 | the full and empty tests agree with the number of queued bytes |
| UartRing.Ring.Enqueue | src/emulator/uart/queues.ts:142-151 | appends the byte unless 15 are queued, in place |
| UartRing.Ring.PushTransmit | src/emulator/uart/queues.ts:126-136 | the same, and publishes the nonempty level |
| UartRing.Ring.PopReceive | src/emulator/uart/queues.ts:114-123 | removes and returns the oldest byte, or 0 |
| UartRing.Ring.DequeueTransmit | src/emulator/uart/queues.ts:157-172 | removes the oldest byte, publishes the level, and reports room before and after |
| UartRingSteps.EveryRunIsFifo | src/emulator/uart/queues.ts:113-172 | in every interleaving of producer and consumer accesses the bytes offered to a ring with room are the delivered bytes, the contents and at most one byte on its way, in order, and at most 15 are in the ring |
| UartRingSteps.OfferedIsAccepted | src/emulator/uart/queues.ts:126-151 | every push accepts the byte its caller named |
| UartRingSteps.StepRefinesFifo | src/emulator/uart/queues.ts:113-172 | each single access is invisible or one step of a 15-byte FIFO |
| UartRingSteps.RefusalsAreJustified | src/emulator/uart/queues.ts:126-145 | a push is refused only on a ring that held 15 bytes, and a pop only on an empty one |
| UartRingSteps.RefusedPushesStop | src/emulator/uart/queues.ts:126-145 | a push returns without writing exactly when it is refused |
| Uart.StickyMeansRoomAlways | src/emulator/uart/registers.ts:73-100 | in every run a set sticky THRE bit implies the transmit ring is not full |
| Uart.PlicFollowsIir | src/emulator/uart/registers.ts:106-199 | in every run without latch stores over IER the level sent to source 10 is "IIR reports an interrupt" |
| Uart.LatchStoreStaleness | src/emulator/uart/registers.ts:191-198 | a latch store over IER leaves the PLIC input stale exactly when the bits it writes select another condition |
| Uart.LatchStoreCanGoStale | src/emulator/uart/registers.ts:191-198 | a run from reset that ends with a stale input |
| Uart.SafeStores | src/emulator/uart/registers.ts:181-199 | a store keeps every fresh device fresh if and only if it is not a store to offset 1 with DLAB set |
| Uart.ThreIsReportedOnce | src/emulator/uart/registers.ts:84-100 | between two IIR reads that report THRE the condition was armed again |
| Uart.BytesAreConserved | src/emulator/uart/registers.ts:130-199 | over every run the guest reads the received bytes and the terminal gets the sent ones, in order, none lost or repeated |
| Uart.LoadsByNumber | src/emulator/uart/registers.ts:106-174 | what a load of each register shows, by register number, IIR code and LSR bit |
| Uart.LoadsChange | src/emulator/uart/registers.ts:155-174 | what a load changes |
| Uart.StoresChange | src/emulator/uart/registers.ts:181-199 | what a store changes, by register number |
| Uart.TerminalChanges | src/emulator/uart/registers.ts:130-149 | what a key and a transmitted byte change |
| Uart.Device.ReadInterruptIdentity | src/emulator/uart/registers.ts:106-116 | computes IIR from IER, LSR and the sticky bit |
| Uart.Device.PushReceive | src/emulator/uart/registers.ts:130-136 | the mutable device and the PLIC's source 10 follow the specification; no other source changes |
| Uart.Device.PopTransmit | src/emulator/uart/registers.ts:141-149 | the same for the terminal's dequeue, with the rising-edge arming |
| Uart.Device.LoadRegister | src/emulator/uart/registers.ts:155-174 | the same for guest loads |
| Uart.Device.StoreRegister | src/emulator/uart/registers.ts:181-199 | the same for guest stores |
| IrqLevel.EveryRunIsReplay | src/emulator/irq-level.ts:61-81 | in every interleaving of any number of drivers the level word is what the completed calls make of it, each taking effect at once |
| IrqLevel.LastDriveDecides | src/emulator/irq-level.ts:61-81 | so a bit is what its last driver wanted |
| IrqLevel.UndrivenBitStays | src/emulator/irq-level.ts:61-81 | and a call changes no bit but its own |
| IrqLevel.FailureMeansProgress | src/emulator/irq-level.ts:70-80 | an exchange fails only if another call completed since the word was read |
| IrqLevel.WiresArePublished | src/emulator/irq-level.ts:57-81 | with one driver at a time for each bit, a bit that nobody is driving equals its wire |
| IrqLevel.SharingDecides | src/emulator/irq-level.ts:57-81 | an assignment of bits to workers keeps every such bit equal to its wire in every run if and only if no bit has two drivers |
| IrqLevel.LevelWord.SetIrqWire | src/emulator/irq-level.ts:61-81 | the compare-exchange loop, under any interference by other drivers, is one change of its own bit at its last round |
| Plic.BestIsFirst | src/emulator/plic/gateway.ts:125-157 | selection returns a claimable source before which no claimable source comes, by priority then id, and 0 only if there is none |
| PlicBits.ClaimServesTheFirst | src/emulator/plic/gateway.ts:125-197 | a claim serves the requested, unserved, enabled source above the threshold with the highest priority, the lowest id among equals, and 0 exactly if there is none |
| PlicBits.ClaimRecordsTheContext | src/emulator/plic/gateway.ts:188-197 | a claim takes the source off the waiting list and records the context |
| PlicBits.LevelIsRecorded | src/emulator/plic/gateway.ts:172-185 | a level is recorded, and the source waits exactly if it is high and not being served |
| PlicBits.WiresSayWhoAsks | src/emulator/plic/wires.ts:33-41 | the machine wire is bit 11 and the supervisor wire bit 9 of the level word, and each says whether some source asks |
| Plic.EveryRunIsSound | src/emulator/plic/gateway.ts:172-217 | after any levels, loads and stores: pending is level high and unclaimed, and no source is claimed by both contexts |
| Plic.NoRedeliveryBeforeCompletion | src/emulator/plic/gateway.ts:188-217 | a delivered source is not delivered again, to either context, before its context completes it |
| Plic.DrainIsSorted | src/emulator/plic/gateway.ts:188-197 | consecutive claims return every waiting source once, by descending priority then ascending id |
| Plic.RequestIsServed | src/emulator/plic/gateway.ts:172-197 | a raised, unclaimed source is reached by draining any context that lets it through |
| Plic.StoredByteReadsBack | src/emulator/plic/memory.ts:38-99 | register bytes read back as written, with source 0 reserved and pending read-only |
| Plic.StoresAreIndependent | src/emulator/plic/memory.ts:57-99 | a store changes no register byte but its own |
| Plic.LocateIsInjective | src/emulator/plic/layout.ts:127-157 | two guest offsets never name the same register byte |
| PlicBits.StoreToPriority | src/emulator/plic/memory.ts:57-74 | bytes 4s to 4s+3 of the window are the priority of source s |
| PlicBits.StoreToEnable | src/emulator/plic/memory.ts:75-83 | a byte at 0x2000+b or 0x2080+b sets sources 8b to 8b+7 of machine or supervisor mode to its bits, and nothing else |
| PlicBits.StoreToThreshold | src/emulator/plic/memory.ts:84-89 | 0x200000 and 0x201000 are the thresholds of machine and supervisor mode |
| PlicBits.StoreToClaim | src/emulator/plic/memory.ts:90-97 | 0x200004 and 0x201004 complete the source named by the low byte, if that context serves it |
| PlicBits.StoreToNothing | src/emulator/plic/memory.ts:57-99 | stores anywhere else, the pending words included, change nothing |
| PlicBits.LoadsShowRegisters | src/emulator/plic/memory.ts:38-54 | what each byte of the window shows, pending bits by source included |
| PlicBits.LoadsThatClaim | src/emulator/plic/memory.ts:38-54 | only loads at 0x200004 and 0x201004 change anything, and they claim |
| PlicBits.HostLayout | src/emulator/plic/layout.ts:110-124 | the host byte of each register |
| Plic.HostBytesAreApart | src/emulator/plic/layout.ts:110-124 | register bytes have separate host bytes, below the host-only fields |
| Plic.LoadWordClaimsOnce | src/emulator/plic/memory.ts:104-121 | a four-byte load of a claim register claims once and reads the id |
| Plic.StoreWordCompletes | src/emulator/plic/memory.ts:124-141 | a four-byte store to it completes the source in its low byte |
| Plic.Controller.constructor | src/emulator/plic/index.ts:42-48 | registers clear, wires low |
| Plic.Controller.SelectClaimableSource | src/emulator/plic/gateway.ts:125-157 | the scan computes the selection |
| Plic.Controller.SetSourcePending | src/emulator/plic/gateway.ts:172-185 | specified transition; both wires and level bits then equal "a claim would return a source" |
| Plic.Controller.ClaimSource | src/emulator/plic/gateway.ts:188-197 | the same for claims |
| Plic.Controller.CompleteSource | src/emulator/plic/gateway.ts:203-217 | the same for completion, ignored from the wrong context |
| Plic.Controller.LoadPlicByte | src/emulator/plic/memory.ts:38-54 | the same for guest byte loads |
| Plic.Controller.StorePlicByte | src/emulator/plic/memory.ts:57-99 | the same for guest byte stores, which refresh only the wires that can have changed |
| Plic.Controller.LoadBytes | src/emulator/plic/memory.ts:104-121 | the byte loop, with an address that wraps at 2^64 |
| Plic.Controller.StoreBytes | src/emulator/plic/memory.ts:124-141 | the byte loop for stores |
| Pmp.NapotRoundTrip | src/emulator/cpu/pmp.ts:125-163 | decoding inverts encoding for every naturally aligned power-of-two region of 8 bytes or more |
| Pmp.NapotDecodesAligned | src/emulator/cpu/pmp.ts:156-162 | every decoded region is naturally aligned, and encoding it gives the address back |
| Pmp.TrailingOnes | src/emulator/cpu/pmp.ts:125-133 | the loop counts the trailing ones |
| Pmp.AccessDenied | src/emulator/cpu/pmp.ts:196-225 | given the mode it is checked in, denies exactly what the rule "the lowest matching entry must cover every byte and permit" does not allow |
| Pmp.RangeByBits | src/emulator/cpu/pmp.ts:138-163 | bits 4:3 of a configuration byte choose between nothing, TOR, four bytes and NAPOT |
| Pmp.PermissionByBits | src/emulator/cpu/pmp.ts:165-225 | the lowest entry that any byte of the access meets must hold every byte; then bits 0, 1 and 2 of its configuration permit load, store and fetch, and without bit 7 machine mode passes |
| Pmp.UnmatchedAccess | src/emulator/cpu/pmp.ts:196-225 | an access that meets no entry is for machine mode only |
| Protection.EffectiveModeIsLent | src/emulator/cpu/pmp.ts:182-190 | in a lawful hart an access is checked as M exactly when its effective mode is M, and below machine mode none is |
| Protection.LowerModesNeedAGrant | src/emulator/cpu/pmp.ts:182-225 | in every run of a hart, an access below machine mode passes if and only if the first entry it meets covers and grants it |
| Protection.VerdictSurvivesRuns | src/emulator/cpu/pmp.ts:182-225 | once entries 0..k are locked, no run of the hart changes the verdict on an access that meets one of them, for one effective mode |
| Registers.RegisterFile.PhysicalMemoryAccessDenied | src/emulator/cpu/pmp.ts:182-225 | the check on the register file, effective mode included |
| Pmp.PartsOfAllowedAreAllowed | src/emulator/cpu/pmp.ts:196-225 | every nonempty part of an allowed access is allowed |
| Pmp.AmoNeedsBoth | src/emulator/cpu/pmp.ts:165-179 | an AMO is allowed exactly when the load and the store are |
| Pmp.LegalizedCfg | src/emulator/cpu/pmp.ts:75-81 | no reserved bits, no write without read, all other bits as written |
| Pmp.LegalizeCfg | src/emulator/cpu/pmp.ts:87-95 | locked bytes stay, the others are legalised |
| Pmp.WriteKeepsLegal | src/emulator/cpu/pmp.ts:75-120 | writes keep every entry legal and every address within 54 bits |
| Pmp.WritesByBits | src/emulator/cpu/pmp.ts:87-120 | exactly which configuration bytes and addresses a write changes, and to what |
| Pmp.LockedForever | src/emulator/cpu/pmp.ts:87-116 | no sequence of writes changes a locked entry's configuration, address or bytes, TOR neighbours included |
| Pmp.VerdictIsFinal | src/emulator/cpu/pmp.ts:196-225 | once entries 0..k are locked, the verdict on any access matching one of them never changes |
| Csr.WriteKeepsLawful | src/emulator/cpu/registers.ts:659-799 | a permitted write leaves every register in a legal encoding |
| Csr.LawfulValuesStick | src/emulator/cpu/registers.ts:659-799 | a legal value is stored and read back unchanged, in every register with a slot of its own, mip included up to its device bits |
| Csr.PmpValuesStick | src/emulator/cpu/registers.ts:784-795 | the same for PMP registers |
| Csr.LegalMstatusIsLawful | src/emulator/cpu/registers.ts:562-569 | MPP is never 10, UXL and SXL are 2, MPRV is as written |
| Csr.ViewsReadBack | src/emulator/cpu/registers.ts:598-708 | sstatus, sie and sip show the written value in exactly their writable bits |
| Csr.LowerModesCannotTouchMachineState | src/emulator/cpu/registers.ts:393-435 | below machine mode no CSR instruction changes anything that belongs to machine mode |
| Csr.UserCannotWrite | src/emulator/cpu/registers.ts:393-435 | no CSR can be written from user mode |
| Csr.MachineAccess | src/emulator/cpu/registers.ts:393-435 | machine mode reaches every implemented register and may write all but the read-only ones |
| Csr.CounterAccess | src/emulator/cpu/registers.ts:357-370 | counters are readable below machine mode exactly as the enable registers allow |
| CsrBits.AccessByMode | src/emulator/cpu/registers.ts:393-435 | the table of CSR numbers that each mode may read and write |
| CsrBits.ReadByNumber | src/emulator/cpu/registers.ts:598-626 | what a read of each CSR number shows |
| CsrBits.StoredByNumber | src/emulator/cpu/registers.ts:659-799 | what a write leaves in each register with its own slot, field by field |
| CsrBits.ReadsIntoRd | src/emulator/cpu/instructions/system.ts:222-393 | an allowed CSR instruction leaves in rd what the CSR showed before the write, keeps every other register, and moves past its encoding |
| CsrBits.WritesTheNewValue | src/emulator/cpu/instructions/system.ts:222-393 | and leaves in the CSR what its legalisation makes of the operand, or of the read value with the operand set or cleared, and changes no other CSR |
| CsrBits.ReadsOnly | src/emulator/cpu/instructions/system.ts:246-305 | `csrrs` and `csrrc` of nothing change no CSR |
| Csr.PmpCfgReadsBack | src/emulator/cpu/pmp.ts:97-100 | a pmpcfg register packs its eight entries without loss |
| PendingSeip.SeipAfterInstruction | src/emulator/cpu/registers.ts:589-596 | the software SEIP bit after any CSR instruction, PLIC wire included |
| PendingSeip.SeipIsKept | src/emulator/cpu/registers.ts:723-732 | an allowed instruction keeps the bit if and only if it does not write mip or writes the bit that is there |
| PendingSeip.SafeInstructions | src/emulator/cpu/registers.ts:723-732 | an instruction keeps the bit of every lawful hart if and only if it does not write mip |
| PendingSeip.ClearingNothingLatchesTheWire | src/emulator/cpu/registers.ts:589-596 | an instance: `csrrc` of nothing latches the PLIC wire |
| PendingSeip.DeviceBitsAreKept | src/emulator/cpu/registers.ts:699-732 | no CSR instruction changes MSIP, MTIP or MEIP, nor STIP while the compare owns it |
| Csr.ExecutedKeepsLawful | src/emulator/cpu/instructions/system.ts:222-393 | an allowed CSR instruction keeps the hart lawful and in its mode |
| Trap.EveryRunIsLawful | src/emulator/cpu/trap.ts:142-287 | in every run: mode U, S or M, legal encodings in every register, MPRV only in machine mode |
| TrapBits.StepsByName | src/emulator/cpu/trap.ts:274-287 | what each step of a run does |
| Trap.ResetIsLawful | src/emulator/cpu/registers.ts:489-516 | the reset state is lawful |
| TrapBits.ResetByNumber | src/emulator/cpu/registers.ts:489-516 | the reset value of every register, by number |
| Trap.EnterMachineEffect | src/emulator/cpu/trap.ts:237-251 | a trap to M records PC, cause and value, pushes the M stack, and changes nothing else |
| Trap.EnterSupervisorEffect | src/emulator/cpu/trap.ts:253-267 | a trap to S likewise |
| TrapBits.MachineTrap | src/emulator/cpu/trap.ts:142-157 | a trap to M, by register number and mstatus bit |
| TrapBits.SupervisorTrap | src/emulator/cpu/trap.ts:159-174 | a trap to S likewise |
| TrapBits.MachineReturn | src/emulator/cpu/trap.ts:176-193 | `mret` likewise, illegal outside machine mode |
| TrapBits.SupervisorReturn | src/emulator/cpu/trap.ts:195-211 | `sret` likewise, illegal in user mode and under TSR in supervisor mode |
| Trap.EnterTrapKeepsLawful | src/emulator/cpu/trap.ts:274-287 | an exception never enters a mode below the current one |
| Trap.TakeInterruptKeepsLawful | src/emulator/cpu/trap.ts:384-397 | neither does an interrupt |
| Trap.SelectedIsFirst | src/emulator/cpu/trap.ts:333-363 | selection returns the first takeable interrupt in priority order, and none only if there is none |
| TrapBits.InterruptsInOrder | src/emulator/cpu/trap.ts:333-397 | by mip, mie, mideleg and mstatus bits: which interrupt is taken, in the order MEI, MSI, MTI, SEI, SSI, STI, to which mode and with which cause, and when none is |
| TrapBits.DisabledInterruptsAreNotTaken | src/emulator/cpu/trap.ts:346-349 | with no bit common to mip and mie the hart is unchanged |
| TrapBits.ExceptionsAreDelegated | src/emulator/cpu/trap.ts:274-287 | an exception goes to S exactly from below M and if medeleg has its bit |
| Trap.ExceptionAddress | src/emulator/cpu/trap.ts:221-235 | exceptions enter at BASE |
| Trap.InterruptAddress | src/emulator/cpu/trap.ts:221-235 | interrupts enter at BASE, or four bytes per code above it when vectored |
| Trap.MachineReturnUndoesTrap | src/emulator/cpu/trap.ts:142-193 | `mret` restores mode, PC and MIE for any handler that preserved mepc, MPP and MPIE |
| Trap.SupervisorReturnUndoesTrap | src/emulator/cpu/trap.ts:159-211 | `sret` restores mode, PC and SIE likewise |
| Trap.MachineTripIsInvisibleToSupervisor | src/emulator/cpu/trap.ts:237-251 | a trap to M and back changes nothing but mepc, mcause, mtval and machine bits of mstatus |
| Trap.NestedTrapsUnwind | src/emulator/cpu/trap.ts:400-409 | trap to S, nested trap to M, `mret`, `sret`, with any handlers that preserve the stacks: PC, mode and MIE, then PC, mode and SIE, are restored |
| Trap.RunKeepsLocked | src/emulator/cpu/registers.ts:784-795 | over every run of a hart a locked PMP entry protects the same bytes in the same way |
| Trap.SampleShowsTheWires | src/emulator/cpu/sample-device-pending.ts:35-46 | a sample sets each hardware bit to its wire, STIP only under STCE, and leaves software bits alone |
| Trap.IterationAdvances | src/emulator/cpu/run.ts:107-117 | an iteration that stops before the fetch masks the mode it enters |
| TrapBits.IterationInOrder | src/emulator/cpu/run.ts:60-120 | one iteration: sample, interrupt, odd PC (code 0), unfetchable (code 1), fetch |
| TrapBits.SampleInBits | src/emulator/cpu/sample-device-pending.ts:35-46 | the bits of mip that a sample drives, and that it changes nothing else |
| TrapBits.IllegalAccessTraps | src/emulator/cpu/instructions/system.ts:222-240 | a CSR access that is not allowed is an illegal instruction, code 2 |
| Trap.ThreeIterationsReachTheFetch | src/emulator/cpu/run.ts:107-120 | whatever the devices do, one of any three consecutive iterations reaches the fetch |
| Registers.RegisterFile.constructor | src/emulator/cpu/registers.ts:489-516 | creates the reset state |
| Registers.RegisterFile.WriteCsr | src/emulator/cpu/registers.ts:659-799 | the register file follows the specified write for every index |
| Registers.RegisterFile.WritePmp | src/emulator/cpu/registers.ts:784-795 | the same for PMP registers |
| Registers.RegisterFile.EnterMachineTrap | src/emulator/cpu/trap.ts:237-251 | the same for traps to M, write by write |
| Registers.RegisterFile.EnterSupervisorTrap | src/emulator/cpu/trap.ts:253-267 | the same for traps to S |
| Registers.RegisterFile.MretInstruction | src/emulator/cpu/instructions/system.ts:109-119 | `mret`, illegal outside machine mode |
| Registers.RegisterFile.SretInstruction | src/emulator/cpu/instructions/system.ts:122-139 | `sret`, illegal in user mode and under TSR in supervisor mode |
| Registers.RegisterFile.SelectTakeableInterrupt | src/emulator/cpu/trap.ts:333-363 | the loop over priorities computes the selection |
| Registers.RegisterFile.TakeInterruptIfAny | src/emulator/cpu/trap.ts:384-397 | enters the selected interrupt's trap, or does nothing |
| Registers.RegisterFile.SampleDevicePending | src/emulator/cpu/registers.ts:854-889 | the five pending setters, given the wires |
| Sampling.Sampler.PublishSupervisorTimerCompare | src/emulator/cpu/registers.ts:838-847 | the CLINT compares what the hart wants compared, and is written only on a change |
| Sampling.Sampler.SampleDevicePending | src/emulator/cpu/sample-device-pending.ts:35-46 | after a sample MTIP, MEIP and the SEIP wire are the CLINT comparison and the PLIC selections, and under STCE STIP is `mtime >= stimecmp` |
| Registers.RegisterFile.CsrInstruction | src/emulator/cpu/instructions/system.ts:222-393 | the six CSR instructions, trapping on illegal access |
| Registers.RegisterFile.RunToFetch | src/emulator/cpu/run.ts:60-120 | the order sample, interrupt, alignment, fetch check |
| Delivery.RaisedLevelIsWaiting | src/emulator/plic/gateway.ts:172-197 | a raised UART source that machine mode lets through makes its wire high and is reached by draining claims |
| Delivery.ExternalWireIsTaken | src/emulator/cpu/trap.ts:333-397 | a raised machine-external wire is taken at the next sample, before every other interrupt and to machine mode |
| Delivery.KeystrokeReachesTheHart | src/emulator/uart/registers.ts:118-136 | a received byte with ERBFI on raises the wire of any valid controller it is routed by, traps a listening hart with the external interrupt cause, and the claims reach source 10 |
| DeviceTree.RoundTrip | src/fdt.ts:434-463 | reading a flattened tree gives the tree back, for every tree with NUL-free ASCII names under 4 GiB; the reader refuses any token off a 4-byte boundary |
| DeviceTree.FlattenedIsInjective | src/fdt.ts:434-463 | different trees have different blobs |
| DeviceTree.HeaderDescribesBlob | src/fdt.ts:440-462 | every header offset and size matches its block, and the size of the struct block is a multiple of 4 |
| DeviceTree.BlobInBytes | src/fdt.ts:434-463 | the blob starts with d00dfeed, reserves nothing, and its struct block at byte 56 ends with token 9 |
| DeviceTree.NodesInBytes | src/fdt.ts:414-432 | a node is token 1, name, properties, children and token 2; a property is token 3, length, name offset and value |
| DeviceTree.CellsAndText | src/fdt.ts:117-141 | cells are big-endian, text ends in NUL and padding is zeros |
| DeviceTree.TreeIsNamed | src/fdt.ts:383-432 | emitting never meets a property name without a string |
| DeviceTree.CollectNames | src/fdt.ts:383-393 | the loops collect each property name once, in tree order |
| DeviceTree.StringBlock | src/fdt.ts:395-412 | the loop lays out the strings and their offsets |
| DeviceTree.EmitNode | src/fdt.ts:414-432 | the recursive emission appends the node's bytes, failing only on a missing string |
| DeviceTree.Flatten | src/fdt.ts:434-463 | produces the specified blob for every tree |
| DeviceTree.ReadBackNode | src/fdt.test.ts:94-140 | the reader returns the node and the position after it |
| DeviceTree.PlacementIsHighest | src/fdt.ts:485-513 | `end` finds the highest aligned address that fits; a given address is taken exactly when it fits |
| Bytes.AddBytes | src/utils/bytes.ts:28-41 | addition modulo 2^64, also when the destination is a source |
| Bytes.SubtractBytes | src/utils/bytes.ts:43-56 | subtraction modulo 2^64 |
| Bytes.CompareUnsignedBytes | src/utils/bytes.ts:104-113 | order of the unsigned values |
| Bytes.CompareSignedBytes | src/utils/bytes.ts:116-123 | order of the signed values |
| Bytes.SignExtendBytes | src/utils/bytes.ts:284-290 | fills from the sign of the last byte |
| Bytes.LittleEndianOfToBytes | src/utils/bytes.ts:271-278 | packing then reading is reduction modulo the width |
| Bytes.ToBytesOfLittleEndian | src/utils/bytes.ts:212-218 | reading then packing is the identity |
| Shifts.ShiftLeftBytes | src/utils/bytes.ts:125-143 | multiplication by 2^k modulo 2^64; a source that is the destination is read as zero |
| Shifts.ShiftRightLogicalBytes | src/utils/bytes.ts:145-163 | division by 2^k, likewise |
| Shifts.ShiftRightArithmeticBytes | src/utils/bytes.ts:165-188 | floor division of the signed value by 2^k; a source that is the destination leaves only the fill of its sign |
| OpM.SignedProduct | src/emulator/cpu/instructions/op-m.ts:32-65 | mulh * 2^64 + mul is the signed product |
| OpM.MixedProduct | src/emulator/cpu/instructions/op-m.ts:68-83 | mulhsu likewise for a signed and an unsigned factor |
| OpM.UnsignedProduct | src/emulator/cpu/instructions/op-m.ts:86-101 | mulhu likewise for unsigned factors |
| OpM.DivisionIdentity | src/emulator/cpu/instructions/op-m.ts:104-187 | quotient * divisor + remainder is the dividend modulo 2^64 in every case, zero divisors and overflow included |
| OpM.SignedDivision | src/emulator/cpu/instructions/op-m.ts:104-169 | exact truncating division, with the remainder's size and sign |
| OpM.UnsignedDivision | src/emulator/cpu/instructions/op-m.ts:129-187 | exact unsigned division |
| OpM.DivisionEdges | src/emulator/cpu/instructions/op-m.ts:104-187 | the results for a zero divisor and for overflow |
| DecodeCache.KeyDeterminesDecoding | src/emulator/cpu/decode/index.ts:47-69 | equal keys mean equal thunk and length; compressed and 32-bit keys never collide |
| DecodeCache.DecodeByLowBits | src/emulator/cpu/decode/index.ts:47-56 | an encoding whose low bits are 11 is decoded from four bytes, any other from two |
| DecodeCache.CacheIsBounded | src/emulator/cpu/decode/index.ts:76-82 | the cache holds the 8192 most recent keys, or all if fewer |
| DecodeCache.RecencyIsByLastUse | src/emulator/cpu/decode/index.ts:64-86 | the recency list holds each used key once, in order of last use |
| DecodeCache.UsedIsMostRecent | src/emulator/cpu/decode/index.ts:70-84 | refresh, eviction and insertion keep the most recent 8192 keys in recency order |
| DecodeCache.Cache.DecodeWithCache | src/emulator/cpu/decode/index.ts:64-86 | returns what uncached decoding returns and keeps exactly those keys |
| Clint.TickAfterStore | src/emulator/clint/time.ts:152-177 | a tick after a store of mtime gives the stored value less the rounding if and only if the epoch is faithful |
| Clint.StoreIsFaithfulAfterEnoughTime | src/emulator/clint/time.ts:152-177 | which holds once the clock has run as long as mtime stands for, and is exact when the frequency divides 10^9 |
| Clint.GigahertzIsFaithful | src/emulator/clint/time.ts:152-177 | and holds at every host time for multiples of 1 GHz |
| Clint.EarlyStoreIsLost | src/emulator/clint/time.ts:152-154 | a store of two hours when the host has run for one, for which it fails |
| Clint.RereadIsUint64 | src/emulator/clint/time.ts:161-177 | the rounding never raises the value and lowers it by at most the ceiling of (hz - 1) / 10^9 |
| Clint.TicksAreMonotone | src/emulator/clint/time.ts:161-177 | with one epoch, behind or ahead of the clock, later ticks are not below earlier ones if and only if no 64-bit wrap lies between them |
| Clint.TicksPerSecond | src/emulator/clint/time.ts:161-166 | in s seconds of host time the timebase makes s times its frequency ticks |
| Clint.TimerBits | src/emulator/clint/wires.ts:42-66 | the machine timer is bit 7 of the level word and the supervisor timer bit 5, each by its comparison |
| Clint.StoredBytesReadBack | src/emulator/clint/time.ts:216-245 | a partial store changes the bytes it covers and no others |
| Clint.WithByteReplaces | src/emulator/clint/time.ts:228-237 | masking and shifting a byte in replaces that byte, and one past the register is dropped |
| Clint.Timebase.UpdateTimerWires | src/emulator/clint/time.ts:114-134 | under interference the refresh settles exactly when one of four attempts sees unchanged registers, and then the wires and level bits are the comparisons; otherwise they are those of its last attempt |
| Clint.Timebase.Tick | src/emulator/clint/time.ts:161-177 | under interference the finished tick leaves the clock in the epoch then in force, and fresh wires |
| Clint.Timebase.SetStimecmpMirror | src/emulator/clint/time.ts:142-149 | publishes the compare and refreshes the wires |
| Clint.Timebase.StoreTimeBytes | src/emulator/clint/time.ts:216-245 | under interference the store applies to the very value it replaces, and a store of mtime reseats the epoch |
| Clint.Timebase.LoadTimeBytes | src/emulator/clint/time.ts:195-209 | shift-and-mask load of one read of the register, mtime ticked first |
| GuestMemory.CreateMemory | src/emulator/memory.ts:132-205 | accepts exactly the acceptable specifications, reports the first fault otherwise, and builds packed slabs and an index sorted by base, equal bases in specification order |
| GuestMemory.SortByBase | src/emulator/memory.ts:198 | a stable sort by base |
| GuestMemory.AcceptableSpecs | src/emulator/memory.ts:146-180 | acceptable means: no negative length, no id twice, no byte in two windows |
| GuestMemory.BuiltIsWellPacked | src/emulator/memory.ts:167-196 | host slabs are 8-byte aligned, disjoint and inside the buffer |
| GuestMemory.BuiltIsWellIndexed | src/emulator/memory.ts:163-198 | the index lists every window once, by base, and windows are disjoint |
| GuestMemory.ResolveGuestAddress | src/emulator/memory.ts:211-239 | the binary search computes the resolution |
| GuestMemory.ResolutionIsRight | src/emulator/memory.ts:211-239 | resolution names the window that contains an address, for every address, if and only if no empty window shadows another |
| GuestMemory.NonemptyWindowsAreShadowFree | src/emulator/memory.ts:146-161 | windows of at least one byte meet that condition |
| GuestMemory.SpecsDecideResolution | src/emulator/memory.ts:132-239 | the memory made from accepted specifications resolves every address rightly if and only if none has an empty window inside another's and sorted after it |
| GuestMemory.AnEmptyWindowShadows | src/emulator/memory.ts:132-239 | two accepted specifications that do not meet it |
| GuestMemory.MappedMeansOneWindow | src/emulator/memory.ts:245-260 | an access is mapped exactly when one window holds all its bytes |
| GuestMemory.GuestAccessIsMapped | src/emulator/memory.ts:245-260 | the method computes that test |
| Ranges.OverlapMeansCommonPoint | src/utils/ranges.ts:28-29 | the overlap test is "the ranges share a point" |
| Ranges.FindOverlappingPair | src/utils/ranges.ts:35-54 | finds the first overlapping pair, and none exactly for disjoint ranges |
| Ranges.FindLastIndex | src/utils/binary-search.ts:23-39 | finds the last item of a partitioned sequence that satisfies the predicate |

## Left out

- Worker, stream and promise lifecycle, command line and terminal interface: input and output around the modelled state.
- Field extraction of `decode-32.ts` and `decode-c.ts` and the one-line instructions: finite encodings and immediate uses of the byte arithmetic. Decoding is a parameter of the cache.
- `wfi` and `waitUartTransmit`: no claim is made that a sleeping worker is always woken. The transmit producer's late publish can leave the level at 1 on an empty ring (`src/emulator/uart/queues.ts:133-134`).
- Retire counters, `ecall`/`ebreak` retirement and `sfence.vma`: single updates beside the modelled state; `ecall` and `ebreak` are exceptions of a run.
- Syscon: one request word.
- UART and CLINT guest windows: the loops that dispatch bytes to registers by offset are not modelled, the register operations are.
- Clint.Timebase.Tick: other workers change `mtime` and the epoch, but not the compared registers during the final wire refresh; that interference is the subject of UpdateTimerWires.
- Clint.Timebase.StoreTimeBytes: other workers change the stored register before the exchange, and nothing between the exchange and the reseat, where a tick of the old epoch can overwrite a stored `mtime` until the next tick.
- Clint.TicksAreMonotone: does not model concurrent ticks, where an older sample can win the compare-exchange.
- Reservation.ReservationMonitor.TryTakeReservation: the class is one worker's sequential view, with the lock free or its own; contention for the lock is in Locks and LrSc.
- Locks.ProgramIsSafe: a `Work` action stands for the accesses it covers, not for their data, and no call ends by an exception inside a section.
- LrSc.EveryRunIsSequential: plain loads are not events; memory ordering is sequentially consistent single accesses, as for `Atomics` on shared memory, and a plain store's bytes are separate accesses under the lock.
- UartRingSteps.EveryRunIsFifo: the index and data accesses are interleaved singly; the published level word is not part of it.
- Plic.Controller.StoreBytes: the gateway lock and the loop behind a wire are parameters of no method here; one controller operation is one critical section, which Locks shows to be exclusive, and one wire drive is one step, which IrqLevel shows it to be.
- Registers.RegisterFile.CsrInstruction: general-purpose registers and CSRs are 64-bit words rather than byte arrays, so aliasing of register buffers is not modelled.
- Registers.RegisterFile.RunToFetch: the encoding length and whether the PC is mapped are parameters; GuestMemory decides the latter.
- GuestMemory.CreateMemory: buffer allocation limits are not modelled, and the library sort is an insertion sort.
