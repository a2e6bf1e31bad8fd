/**
 * The LR/SC reservation slots (`src/emulator/reservation.ts`): one slot per hart, each claiming the
 * 64-byte line of the address it was armed for.
 *
 * The functions on `seq<Slot>` say what each operation does to all slots; the class is the source's
 * own loop form over the shared words, and its methods are proved equal to those functions. The
 * slots are touched only under the monitor lock, whose interleaving is the subject of `Locks`.
 */
module Reservation {
  import opened Ranges

  const LINE_SIZE: nat := 64
  const HART_COUNT: nat := 8

  datatype Slot = Slot(valid: bool, width: nat, address: nat) {
    /** This slot claims a line that meets `[base, base + size)`. */
    predicate Claims(base: int, size: int) {
      valid && RangesOverlap(LineBase(address), LINE_SIZE, base, size)
    }
  }

  type Slots = s: seq<Slot> | |s| == HART_COUNT witness seq(HART_COUNT, _ => Slot(false, 0, 0))

  /** `address & ~63`. */
  function LineBase(address: nat): (base: nat)
    ensures base <= address < base + LINE_SIZE && base % LINE_SIZE == 0
  {
    address - address % LINE_SIZE
  }

  function Cleared(slots: Slots, hart: nat): Slots
  {
    if hart < HART_COUNT then slots[hart := slots[hart].(valid := false)] else slots
  }

  function Armed(slots: Slots, hart: nat, address: nat, width: nat): Slots {
    if hart >= HART_COUNT then slots
    else seq(HART_COUNT, i requires 0 <= i < HART_COUNT =>
                           if i == hart then Slot(true, width, address)
                           else if slots[i].valid && LineBase(slots[i].address) == LineBase(address)
                           then slots[i].(valid := false)
                           else slots[i])
  }

  predicate Matches(slots: Slots, hart: nat, address: nat, width: nat) {
    hart < HART_COUNT && slots[hart] == Slot(true, width, address)
  }

  function Invalidated(slots: Slots, address: nat, size: int): Slots {
    seq(HART_COUNT, i requires 0 <= i < HART_COUNT =>
                      if slots[i].Claims(address, size) then slots[i].(valid := false) else slots[i])
  }

  /** No two valid slots claim one line. */
  ghost predicate SingleOwner(slots: Slots) {
    forall i, j :: 0 <= i < j < HART_COUNT && slots[i].valid && slots[j].valid
                   ==> LineBase(slots[i].address) != LineBase(slots[j].address)
  }

  lemma ArmedKeepsSingleOwner(slots: Slots, hart: nat, address: nat, width: nat)
    requires SingleOwner(slots)
    ensures SingleOwner(Armed(slots, hart, address, width))
  {
  }

  /** After a write, a slot is still armed exactly when it was and no byte of its line was written. */
  lemma InvalidatedExactly(slots: Slots, address: nat, size: int, hart: nat)
    requires hart < HART_COUNT
    ensures var line := NamedRange("line", LineBase(slots[hart].address), LINE_SIZE);
            var written := NamedRange("write", address, size);
            Invalidated(slots, address, size)[hart].valid <==>
            slots[hart].valid && !exists x :: line.Contains(x) && written.Contains(x)
  {
    OverlapMeansCommonPoint(NamedRange("line", LineBase(slots[hart].address), LINE_SIZE),
        NamedRange("write", address, size));
  }

  /** One worker's view of the monitor: the shared words plus its private depth and SC flag. */
  class ReservationMonitor {
    var lockWord: nat
    var valid: array<bool>
    var width: array<nat>
    var address: array<nat>
    var monitorLockDepth: nat
    var scMonitorHeld: bool

    ghost predicate Valid()
      reads this
    {
      && valid.Length == HART_COUNT && width.Length == HART_COUNT && address.Length == HART_COUNT
      && width != address
      && (monitorLockDepth > 0 ==> lockWord == 1)
      && (scMonitorHeld ==> monitorLockDepth > 0)
    }

    ghost function Slots(): Slots
      reads this, valid, width, address
      requires Valid()
    {
      seq(HART_COUNT, i requires 0 <= i < HART_COUNT reads this, valid, width, address requires Valid() =>
                        Slot(valid[i], width[i], address[i]))
    }

    constructor ()
      ensures Valid() && lockWord == 0 && monitorLockDepth == 0 && !scMonitorHeld
      ensures forall i :: 0 <= i < HART_COUNT ==> !Slots()[i].valid
      ensures fresh(valid) && fresh(width) && fresh(address)
    {
      lockWord, monitorLockDepth, scMonitorHeld := 0, 0, false;
      valid := new bool[HART_COUNT](_ => false);
      width := new nat[HART_COUNT](_ => 0);
      address := new nat[HART_COUNT](_ => 0);
    }

    /** Uncontended acquire; the retry and wait are steps of `Locks`. */
    method AcquireMonitorLock()
      requires Valid() && (monitorLockDepth > 0 || lockWord == 0)
      modifies this`lockWord, this`monitorLockDepth
      ensures Valid() && lockWord == 1 && monitorLockDepth == old(monitorLockDepth) + 1
    {
      if monitorLockDepth > 0 {
        monitorLockDepth := monitorLockDepth + 1;
        return;
      }
      lockWord := 1;
      monitorLockDepth := 1;
    }

    method ReleaseMonitorLock()
      requires Valid() && (scMonitorHeld ==> monitorLockDepth > 1)
      modifies this`lockWord, this`monitorLockDepth
      ensures Valid()
      ensures monitorLockDepth == if old(monitorLockDepth) > 0 then old(monitorLockDepth) - 1 else 0
      ensures lockWord == if old(monitorLockDepth) == 1 then 0 else old(lockWord)
    {
      if monitorLockDepth <= 0 {
        return;
      }
      monitorLockDepth := monitorLockDepth - 1;
      if monitorLockDepth > 0 {
        return;
      }
      lockWord := 0;
    }

    method ReleaseScMonitorIfHeld()
      requires Valid()
      modifies this`lockWord, this`monitorLockDepth, this`scMonitorHeld
      ensures Valid() && !scMonitorHeld
      ensures monitorLockDepth == if old(scMonitorHeld) then old(monitorLockDepth) - 1 else old(monitorLockDepth)
      ensures lockWord == if old(scMonitorHeld) && old(monitorLockDepth) == 1 then 0 else old(lockWord)
    {
      if !scMonitorHeld {
        return;
      }
      scMonitorHeld := false;
      ReleaseMonitorLock();
    }

    method ClearReservationLocked(hart: nat)
      requires Valid() && hart < HART_COUNT
      modifies valid
      ensures Valid() && Slots() == Cleared(old(Slots()), hart)
    {
      valid[hart] := false;
    }

    method SetReservationLocked(hart: nat, guestAddress: nat, byteLength: nat)
      requires Valid()
      modifies valid, width, address
      ensures Valid() && Slots() == Armed(old(Slots()), hart, guestAddress, byteLength)
    {
      if hart >= HART_COUNT {
        return;
      }
      ghost var before := Slots();
      for other := 0 to HART_COUNT
        invariant Valid() && width[..] == old(width[..]) && address[..] == old(address[..])
        invariant forall i :: other <= i < HART_COUNT ==> valid[i] == before[i].valid
        invariant forall i :: 0 <= i < other && i != hart ==>
                  valid[i] == Armed(before, hart, guestAddress, byteLength)[i].valid
      {
        if other != hart && valid[other] && LineBase(address[other]) == LineBase(guestAddress) {
          valid[other] := false;
        }
      }
      address[hart] := guestAddress;
      width[hart] := byteLength;
      valid[hart] := true;
    }

    /**
     * On a match the lock and the armed slot are both kept for the store, one level deeper than before;
     * otherwise the slot is cleared and the lock is as it was.
     */
    method TryTakeReservation(hart: nat, guestAddress: nat, byteLength: nat) returns (taken: bool)
      requires Valid() && (monitorLockDepth > 0 || lockWord == 0)
      modifies this`lockWord, this`monitorLockDepth, this`scMonitorHeld, valid
      ensures Valid() && taken == Matches(old(Slots()), hart, guestAddress, byteLength)
      ensures taken ==> Slots() == old(Slots()) && scMonitorHeld
      ensures taken ==> lockWord == 1 && monitorLockDepth == old(monitorLockDepth) + 1
      ensures !taken ==> Slots() == Cleared(old(Slots()), hart)
      ensures !taken ==> (lockWord, monitorLockDepth, scMonitorHeld) == old((lockWord, monitorLockDepth, scMonitorHeld))
    {
      if hart >= HART_COUNT {
        return false;
      }
      AcquireMonitorLock();
      if !(valid[hart] && width[hart] == byteLength && address[hart] == guestAddress) {
        ClearReservationLocked(hart);
        assert Slots() == Cleared(old(Slots()), hart);
        ReleaseMonitorLock();
        return false;
      }
      scMonitorHeld := true;
      return true;
    }

    method InvalidateOverlappingReservationsLocked(guestAddress: nat, byteLength: int)
      requires Valid()
      modifies valid
      ensures Valid() && Slots() == Invalidated(old(Slots()), guestAddress, byteLength)
    {
      ghost var before := Slots();
      if byteLength > 0 {
        for hart := 0 to HART_COUNT
          invariant Valid()
          invariant forall i :: hart <= i < HART_COUNT ==> valid[i] == before[i].valid
          invariant forall i :: 0 <= i < hart ==> valid[i] == Invalidated(before, guestAddress, byteLength)[i].valid
        {
          if valid[hart] && RangesOverlap(LineBase(address[hart]), LINE_SIZE, guestAddress, byteLength) {
            valid[hart] := false;
          }
        }
      }
    }
  }
}
