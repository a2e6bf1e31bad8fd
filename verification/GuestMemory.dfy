/**
 * Packing regions into one host buffer and resolving guest addresses (`src/emulator/memory.ts`,
 * `src/utils/alignment.ts`). Guest addresses are the integers of their little-endian bytes.
 */
module GuestMemory {
  import opened Ranges
  import opened Common

  /** A guest window, or a region that only the host sees. */
  datatype Window = HostOnly | Guest(base: nat, size: int)
  {
    predicate Contains(a: int) { Guest? && base <= a < base + size }
  }

  datatype Spec = Spec(id: string, hostByteLength: int, window: Window)
  datatype Region = Region(hostIndex: nat, hostByteLength: nat, window: Window)
  datatype Entry = Entry(base: nat, id: string)
  datatype Memory = Memory(byteLength: nat, regions: map<string, Region>, byBase: seq<Entry>)

  datatype Rejection = WindowsOverlap(a: string, b: string) | NegativeHost(id: string) | NegativeGuest(id: string)
      | Duplicate(id: string)
  datatype Outcome = Packed(memory: Memory) | Rejected(reason: Rejection)

  function AlignUp(value: nat): (r: nat)
    ensures value <= r < value + 8 && r % 8 == 0
  {
    value + 7 - (value + 7) % 8
  }

  /** Guest windows in specification order. */
  function Windows(specs: seq<Spec>): seq<NamedRange> {
    if specs == [] then []
    else if specs[0].window.HostOnly? then Windows(specs[1..])
    else [NamedRange(specs[0].id, specs[0].window.base, specs[0].window.size)] + Windows(specs[1..])
  }

  /** What packing rejects spec `i` for, if anything; the first fault in order is the one reported. */
  function Fault(specs: seq<Spec>, i: nat): Option<Rejection>
    requires i < |specs|
  {
    if specs[i].hostByteLength < 0 then Some(NegativeHost(specs[i].id))
    else if specs[i].window.Guest? && specs[i].window.size < 0 then Some(NegativeGuest(specs[i].id))
    else if exists j :: 0 <= j < i && specs[j].id == specs[i].id then Some(Duplicate(specs[i].id))
    else None
  }

  /** End of the packed buffer after the first `n` specs. */
  function PackedEnd(specs: seq<Spec>, n: nat): (end: nat)
    requires n <= |specs| && forall i :: 0 <= i < n ==> specs[i].hostByteLength >= 0
  {
    if n == 0 then 0 else AlignUp(PackedEnd(specs, n - 1)) + specs[n - 1].hostByteLength
  }

  predicate Sorted(entries: seq<Entry>) { forall i, j :: 0 <= i < j < |entries| ==> entries[i].base <= entries[j].base }

  /**
   * What every packed memory satisfies: aligned disjoint slabs inside the buffer, and the guest windows by
   * ascending base.
   */
  ghost predicate WellPacked(m: Memory) {
    && (forall id :: id in m.regions ==>
                       m.regions[id].hostIndex % 8 == 0
                           && m.regions[id].hostIndex + m.regions[id].hostByteLength <= m.byteLength)
    && (forall a, b :: a in m.regions && b in m.regions && a != b ==>
                         !RangesOverlap(m.regions[a].hostIndex, m.regions[a].hostByteLength, m.regions[b].hostIndex,
                             m.regions[b].hostByteLength))
  }

  ghost predicate WellIndexed(m: Memory) {
    && Sorted(m.byBase)
    && (forall i :: 0 <= i < |m.byBase| ==> Indexed(m, m.byBase[i]))
    && (forall i, j :: 0 <= i < j < |m.byBase| ==> m.byBase[i].id != m.byBase[j].id)
    && (forall id :: id in m.regions && m.regions[id].window.Guest? ==>
         Entry(m.regions[id].window.base, id) in m.byBase)
    && (forall a, b :: a in m.regions && b in m.regions && a != b ==>
         WindowsApart(m.regions[a].window, m.regions[b].window))
  }

  predicate Indexed(m: Memory, e: Entry) {
    e.id in m.regions && m.regions[e.id].window.Guest? && m.regions[e.id].window.base == e.base
        && m.regions[e.id].window.size >= 0
  }

  predicate WindowsApart(a: Window, b: Window) {
    a.Guest? && b.Guest? ==> !RangesOverlap(a.base, a.size, b.base, b.size)
  }

  // ---------- Resolution ----------

  datatype Resolved = Resolved(id: string, offset: nat)

  /** Index of the last entry whose base is at or below `a`, or -1. */
  function LastAtOrBelow(entries: seq<Entry>, a: nat): (i: int)
    ensures -1 <= i < |entries| && (i >= 0 ==> entries[i].base <= a) && forall j :: i < j < |entries| ==>
            entries[j].base > a
  {
    if entries == [] then -1
    else if entries[|entries| - 1].base <= a then |entries| - 1
    else LastAtOrBelow(entries[..|entries| - 1], a)
  }

  function Resolve(m: Memory, a: nat): Option<Resolved>
    requires WellIndexed(m)
  {
    var i := LastAtOrBelow(m.byBase, a);
    if i < 0 then None
    else
      var w := m.regions[m.byBase[i].id].window;
      if w.Contains(a) then Some(Resolved(m.byBase[i].id, a - w.base)) else None
  }

  /** `resolveGuestAddressToRegionAndOffset`, by binary search. */
  method ResolveGuestAddress(m: Memory, a: nat) returns (r: Option<Resolved>)
    requires WellIndexed(m)
    ensures r == Resolve(m, a)
  {
    var index := FindLastIndex(m.byBase, (e: Entry) => e.base <= a);
    ghost var last := LastAtOrBelow(m.byBase, a);
    assert index == last by {
      if index >= 0 { assert m.byBase[index].base <= a; }
      if last >= 0 { assert m.byBase[last].base <= a; }
    }
    if index < 0 {
      return None;
    }
    var id := m.byBase[index].id;
    var region := m.regions[id];
    if a < region.window.base || a >= region.window.base + region.window.size {
      return None;
    }
    return Some(Resolved(id, a - region.window.base));
  }

  /** The one region whose window contains `a`, and the offset into it. */
  ghost predicate Names(m: Memory, a: nat, r: Resolved) {
    r.id in m.regions && m.regions[r.id].window.Contains(a) && r.offset == a - m.regions[r.id].window.base
  }

  ghost predicate ResolvesRightly(m: Memory, a: nat)
    requires WellIndexed(m)
  {
    forall r: Resolved :: Resolve(m, a) == Some(r) <==> Names(m, a, r)
  }

  /** No empty window is sorted after a window that contains its base. */
  ghost predicate ShadowFree(m: Memory)
    requires WellIndexed(m)
  {
    forall i, j :: 0 <= i < j < |m.byBase| ==> !Shadows(m, i, j)
  }

  predicate Shadows(m: Memory, i: nat, j: nat)
    requires i < |m.byBase| && j < |m.byBase| && Indexed(m, m.byBase[i]) && Indexed(m, m.byBase[j])
  {
    m.regions[m.byBase[j].id].window.size == 0 && m.regions[m.byBase[i].id].window.Contains(m.byBase[j].base)
  }

  lemma EntryOf(m: Memory, id: string) returns (i: nat)
    requires WellIndexed(m) && id in m.regions && m.regions[id].window.Guest?
    ensures i < |m.byBase| && m.byBase[i] == Entry(m.regions[id].window.base, id)
  {
    i :| 0 <= i < |m.byBase| && m.byBase[i] == Entry(m.regions[id].window.base, id);
  }

  lemma UnshadowedIsFound(m: Memory, a: nat, r: Resolved)
    requires WellIndexed(m) && ShadowFree(m) && Names(m, a, r)
    ensures Resolve(m, a) == Some(r)
  {
    var i := EntryOf(m, r.id);
    var last := LastAtOrBelow(m.byBase, a);
    assert last >= i;
    assert last > i ==> m.byBase[i].id != m.byBase[last].id && m.byBase[i].base <= m.byBase[last].base;
    assert last > i ==> !Shadows(m, i, last);
    assert last > i ==> WindowsApart(m.regions[m.byBase[i].id].window, m.regions[m.byBase[last].id].window);
  }

  lemma ShadowedIsLost(m: Memory, i: nat, j: nat)
    requires WellIndexed(m) && i < j < |m.byBase| && Shadows(m, i, j)
    ensures !ResolvesRightly(m, m.byBase[j].base)
  {
    var a := m.byBase[j].base;
    var right := Resolved(m.byBase[i].id, a - m.byBase[i].base);
    assert Names(m, a, right);
    var last := LastAtOrBelow(m.byBase, a);
    assert last >= j && m.byBase[last].id != m.byBase[i].id;
    assert Resolve(m, a) != Some(right);
  }

  /**
   * Resolution finds, for every address, the window that contains it if and only if no empty window shadows
   * another.
   */
  lemma ResolutionIsRight(m: Memory)
    requires WellIndexed(m)
    ensures (forall a: nat :: ResolvesRightly(m, a)) <==> ShadowFree(m)
  {
    if ShadowFree(m) {
      forall a: nat ensures ResolvesRightly(m, a) {
        forall r: Resolved ensures Resolve(m, a) == Some(r) <==> Names(m, a, r) {
          if Names(m, a, r) {
            UnshadowedIsFound(m, a, r);
          }
        }
      }
    } else {
      var i, j :| 0 <= i < j < |m.byBase| && Shadows(m, i, j);
      ShadowedIsLost(m, i, j);
    }
  }

  /** Windows of at least one byte never shadow each other. */
  lemma NonemptyWindowsAreShadowFree(m: Memory)
    requires WellIndexed(m) && forall id :: id in m.regions && m.regions[id].window.Guest? ==>
             m.regions[id].window.size > 0
    ensures ShadowFree(m)
  {
  }

  predicate AccessIsMapped(m: Memory, a: nat, length: nat, resolved: Option<Resolved>) {
    resolved.Some? && resolved.value.id in m.regions && m.regions[resolved.value.id].window.Guest?
    && resolved.value.offset + length <= m.regions[resolved.value.id].window.size
  }

  method GuestAccessIsMapped(m: Memory, a: nat, length: nat) returns (mapped: bool)
    requires WellIndexed(m)
    ensures mapped == AccessIsMapped(m, a, length, Resolve(m, a))
  {
    var resolved := ResolveGuestAddress(m, a);
    if resolved.None? {
      return false;
    }
    var region := m.regions[resolved.value.id];
    return resolved.value.offset + length <= region.window.size;
  }

  ghost predicate HoldsAll(w: Window, a: nat, length: nat) {
    w.Contains(a) && forall x: int :: a <= x < a + length ==> w.Contains(x)
  }

  /**
   * An access is mapped exactly when one window holds all its bytes (an empty access, its address);
   * straddling two windows does not count.
   */
  lemma MappedMeansOneWindow(m: Memory, a: nat, length: nat)
    requires WellIndexed(m) && ShadowFree(m)
    ensures AccessIsMapped(m, a, length, Resolve(m, a))
            <==> exists id :: id in m.regions && HoldsAll(m.regions[id].window, a, length)
  {
    ResolutionIsRight(m);
    assert ResolvesRightly(m, a);
    var resolved := Resolve(m, a);
    if AccessIsMapped(m, a, length, resolved) {
      assert Names(m, a, resolved.value);
      assert HoldsAll(m.regions[resolved.value.id].window, a, length);
    }
    forall id | id in m.regions && HoldsAll(m.regions[id].window, a, length)
      ensures AccessIsMapped(m, a, length, resolved)
    {
      assert Names(m, a, Resolved(id, a - m.regions[id].window.base));
      if length > 0 {
        assert m.regions[id].window.Contains(a + (length - 1));
      }
    }
  }

  // ---------- Packing ----------

  /** Whether `createMemory` accepts the specs: no two windows overlap and no spec has a fault. */
  ghost predicate Acceptable(specs: seq<Spec>) {
    PairwiseDisjoint(Windows(specs)) && forall i :: 0 <= i < |specs| ==> Fault(specs, i).None?
  }

  /** In plain terms: no negative length, no id twice, and no byte in two windows. */
  lemma AcceptableSpecs(specs: seq<Spec>)
    ensures Acceptable(specs) <==>
            && (forall i :: 0 <= i < |specs| ==> specs[i].hostByteLength >= 0)
            && (forall i :: 0 <= i < |specs| && specs[i].window.Guest? ==> specs[i].window.size >= 0)
            && (forall i, j :: 0 <= i < j < |specs| ==> specs[i].id != specs[j].id)
            && PairwiseDisjoint(Windows(specs))
  {
    if Acceptable(specs) {
      forall i, j | 0 <= i < j < |specs| ensures specs[i].id != specs[j].id {
        assert Fault(specs, j).None?;
      }
      forall i | 0 <= i < |specs|
        ensures specs[i].hostByteLength >= 0 && (specs[i].window.Guest? ==> specs[i].window.size >= 0)
      {
        assert Fault(specs, i).None?;
      }
    }
  }

  function RegionOf(specs: seq<Spec>, i: nat): Region
    requires i < |specs| && forall j :: 0 <= j < i + 1 ==> specs[j].hostByteLength >= 0
  {
    Region(AlignUp(PackedEnd(specs, i)), specs[i].hostByteLength, specs[i].window)
  }

  predicate Lengths(
      specs: seq<Spec>, n: nat) { n <= |specs| && forall i :: 0 <= i < n ==> specs[i].hostByteLength >= 0 }

  ghost predicate IsId(specs: seq<Spec>, n: nat, id: string)
    requires n <= |specs|
  {
    exists i :: 0 <= i < n && specs[i].id == id
  }

  predicate IsEntry(spec: Spec, e: Entry) { spec.window.Guest? && e == Entry(spec.window.base, spec.id) }

  /** The map after the first `n` specs: one region for each id. */
  ghost predicate RegionsBuilt(regions: map<string, Region>, specs: seq<Spec>, n: nat)
    requires Lengths(specs, n)
  {
    && (forall id :: id in regions ==> IsId(specs, n, id))
    && (forall i :: 0 <= i < n ==> specs[i].id in regions && regions[specs[i].id] == RegionOf(specs, i))
  }

  ghost predicate UniqueIds(
      entries: seq<Entry>) { forall k, l :: 0 <= k < l < |entries| ==> entries[k].id != entries[l].id }

  /** The index after the first `n` specs: one entry for each window. */
  ghost predicate IndexBuilt(entries: seq<Entry>, specs: seq<Spec>, n: nat)
    requires n <= |specs|
  {
    && UniqueIds(entries)
    && (forall e :: e in entries <==> exists i :: 0 <= i < n && IsEntry(specs[i], e))
  }

  /** Before the sort, the index lists windows in the order of the specs. */
  ghost predicate InSpecOrder(entries: seq<Entry>, specs: seq<Spec>, n: nat)
    requires n <= |specs|
  {
    forall k, l, p, q :: 0 <= k < l < |entries| && 0 <= p < n && 0 <= q < n ==>
                           (IsEntry(specs[p], entries[k]) && IsEntry(specs[q], entries[l]) ==> p < q)
  }

  /** After it, windows of one base still are. */
  ghost predicate StableIndex(entries: seq<Entry>, specs: seq<Spec>) {
    forall k, l, p, q :: 0 <= k < l < |entries| && 0 <= p < |specs| && 0 <= q < |specs| ==>
                           (entries[k].base == entries[l].base
                            && IsEntry(specs[p], entries[k]) && IsEntry(specs[q], entries[l])
                            ==> p < q)
  }

  /** The memory built from the first `n` specs. */
  ghost predicate Built(m: Memory, specs: seq<Spec>, n: nat) {
    && Lengths(specs, n) && (forall i :: 0 <= i < n ==> Fault(specs, i).None?)
    && m.byteLength == PackedEnd(specs, n) && RegionsBuilt(m.regions, specs, n) && IndexBuilt(m.byBase, specs, n)
  }

  lemma {:induction false} PackedEndGrows(specs: seq<Spec>, i: nat, n: nat)
    requires i < n <= |specs| && forall j :: 0 <= j < n ==> specs[j].hostByteLength >= 0
    ensures AlignUp(PackedEnd(specs, i)) + specs[i].hostByteLength == PackedEnd(specs, i + 1) <= PackedEnd(specs, n)
    decreases n - i
  {
    if i + 1 < n {
      PackedEndGrows(specs, i + 1, n);
    }
  }

  lemma IdOf(specs: seq<Spec>, n: nat, id: string) returns (i: nat)
    requires n <= |specs| && IsId(specs, n, id)
    ensures i < n && specs[i].id == id
  {
    i :| 0 <= i < n && specs[i].id == id;
  }

  /** Slabs are 8-byte aligned, disjoint and inside the buffer. */
  lemma BuiltIsWellPacked(m: Memory, specs: seq<Spec>)
    requires Built(m, specs, |specs|)
    ensures WellPacked(m)
  {
    hide PackedEnd, AlignUp, Fault, IsId, IndexBuilt;
    forall id | id in m.regions
      ensures m.regions[id].hostIndex % 8 == 0 && m.regions[id].hostIndex + m.regions[id].hostByteLength <= m.byteLength
    {
      var i := IdOf(specs, |specs|, id);
      PackedEndGrows(specs, i, |specs|);
    }
    forall a, b | a in m.regions && b in m.regions && a != b
      ensures !RangesOverlap(m.regions[a].hostIndex, m.regions[a].hostByteLength, m.regions[b].hostIndex,
              m.regions[b].hostByteLength)
    {
      var i := IdOf(specs, |specs|, a);
      var j := IdOf(specs, |specs|, b);
      if i < j {
        SlabsInOrder(specs, i, j);
      } else {
        SlabsInOrder(specs, j, i);
      }
    }
  }

  lemma SlabsInOrder(specs: seq<Spec>, i: nat, j: nat)
    requires i < j < |specs| && forall k :: 0 <= k < |specs| ==> specs[k].hostByteLength >= 0
    ensures RegionOf(specs, i).hostIndex + RegionOf(specs, i).hostByteLength <= RegionOf(specs, j).hostIndex
  {
    PackedEndGrows(specs, i, j);
  }

  /** Position of spec `i`'s window among the windows. */
  function WindowIndex(specs: seq<Spec>, i: nat): (k: nat)
    requires i < |specs| && specs[i].window.Guest?
    ensures k < |Windows(specs)|
    ensures Windows(specs)[k] == NamedRange(specs[i].id, specs[i].window.base, specs[i].window.size)
  {
    if i == 0 then 0 else (if specs[0].window.Guest? then 1 else 0) + WindowIndex(specs[1..], i - 1)
  }

  lemma {:induction false} WindowIndexIncreases(specs: seq<Spec>, i: nat, j: nat)
    requires i < j < |specs| && specs[i].window.Guest? && specs[j].window.Guest?
    ensures WindowIndex(specs, i) < WindowIndex(specs, j)
  {
    if i > 0 {
      WindowIndexIncreases(specs[1..], i - 1, j - 1);
    }
  }

  lemma {:induction false} WindowsAreApart(specs: seq<Spec>, i: nat, j: nat)
    requires PairwiseDisjoint(Windows(specs)) && i < |specs| && j < |specs| && i != j
    ensures WindowsApart(specs[i].window, specs[j].window)
  {
    if specs[i].window.Guest? && specs[j].window.Guest? {
      if i < j {
        WindowIndexIncreases(specs, i, j);
      } else {
        WindowIndexIncreases(specs, j, i);
      }
      var a, b := Windows(specs)[WindowIndex(specs, i)], Windows(specs)[WindowIndex(specs, j)];
      assert !Overlap(a, b) && !Overlap(b, a);
    }
  }

  lemma BuiltIsWellIndexed(m: Memory, specs: seq<Spec>)
    requires Built(m, specs, |specs|) && PairwiseDisjoint(Windows(specs)) && Sorted(m.byBase)
    ensures WellIndexed(m)
  {
    hide PackedEnd, AlignUp, IsId;
    forall k | 0 <= k < |m.byBase| ensures Indexed(m, m.byBase[k]) {
      assert m.byBase[k] in m.byBase;
      var i :| 0 <= i < |specs| && IsEntry(specs[i], m.byBase[k]);
      assert Fault(specs, i).None?;
    }
    forall a, b | a in m.regions && b in m.regions && a != b
      ensures WindowsApart(m.regions[a].window, m.regions[b].window)
    {
      var i := IdOf(specs, |specs|, a);
      var j := IdOf(specs, |specs|, b);
      WindowsAreApart(specs, i, j);
    }
    forall id | id in m.regions && m.regions[id].window.Guest?
      ensures Entry(m.regions[id].window.base, id) in m.byBase
    {
      var i := IdOf(specs, |specs|, id);
      assert IsEntry(specs[i], Entry(m.regions[id].window.base, id));
    }
  }

  ghost predicate Before(entries: seq<Entry>, a: Entry, b: Entry) {
    exists i, j :: 0 <= i < j < |entries| && entries[i] == a && entries[j] == b
  }

  /** Entries of one base are in the order of `entries`. */
  ghost predicate KeepsOrder(sorted: seq<Entry>, entries: seq<Entry>) {
    forall k, l :: 0 <= k < l < |sorted| && sorted[k].base == sorted[l].base ==> Before(entries, sorted[k], sorted[l])
  }

  /** The library sort, by base and stable. */
  method SortByBase(entries: seq<Entry>) returns (sorted: seq<Entry>)
    ensures Sorted(sorted) && multiset(sorted) == multiset(entries) && KeepsOrder(sorted, entries)
  {
    sorted := [];
    for n := 0 to |entries|
      invariant Sorted(sorted) && multiset(sorted) == multiset(entries[..n]) && KeepsOrder(sorted, entries[..n])
    {
      var at := |sorted|;
      while at > 0 && sorted[at - 1].base > entries[n].base
        invariant 0 <= at <= |sorted|
        invariant forall k :: at <= k < |sorted| ==> sorted[k].base > entries[n].base
      {
        at := at - 1;
      }
      InsertedIsSorted(sorted, at, entries[n]);
      InsertedIsPermuted(sorted, at, entries[n]);
      InsertedKeepsOrder(sorted, entries[..n], at, entries[n]);
      assert entries[..n + 1] == entries[..n] + [entries[n]];
      sorted := sorted[..at] + [entries[n]] + sorted[at..];
    }
    assert entries[..|entries|] == entries;
  }

  lemma InsertedIsSorted(sorted: seq<Entry>, at: nat, e: Entry)
    requires Sorted(sorted) && at <= |sorted|
    requires at > 0 ==> sorted[at - 1].base <= e.base
    requires forall k :: at <= k < |sorted| ==> sorted[k].base > e.base
    ensures Sorted(sorted[..at] + [e] + sorted[at..])
  {
  }

  lemma InsertedIsPermuted(sorted: seq<Entry>, at: nat, e: Entry)
    requires at <= |sorted|
    ensures multiset(sorted[..at] + [e] + sorted[at..]) == multiset(sorted) + multiset{e}
  {
    assert sorted == sorted[..at] + sorted[at..];
  }

  lemma InsertedKeepsOrder(sorted: seq<Entry>, before: seq<Entry>, at: nat, e: Entry)
    requires KeepsOrder(sorted, before) && at <= |sorted| && multiset(sorted) == multiset(before)
    requires forall k :: at <= k < |sorted| ==> sorted[k].base > e.base
    ensures KeepsOrder(sorted[..at] + [e] + sorted[at..], before + [e])
  {
    var after, all := sorted[..at] + [e] + sorted[at..], before + [e];
    SameMembers(sorted, before);
    forall k, l | 0 <= k < l < |after| && after[k].base == after[l].base ensures Before(all, after[k], after[l]) {
      if l == at {
        assert after[k] == sorted[k] && sorted[k] in before;
        var i :| 0 <= i < |before| && before[i] == after[k];
        assert all[i] == after[k] && all[|before|] == after[l];
      } else {
        var p, q := if k < at then k else k - 1, if l < at then l else l - 1;
        assert k != at && after[k] == sorted[p] && after[l] == sorted[q];
        var i, j :| 0 <= i < j < |before| && before[i] == sorted[p] && before[j] == sorted[q];
        assert all[i] == before[i] && all[j] == before[j];
      }
    }
  }

  /** Reordering the index keeps what was built. */
  lemma ReorderedIsBuilt(m: Memory, specs: seq<Spec>, n: nat, sorted: seq<Entry>)
    requires Built(m, specs, n) && multiset(sorted) == multiset(m.byBase)
    ensures Built(m.(byBase := sorted), specs, n)
  {
    hide PackedEnd, AlignUp, IsId, RegionsBuilt, UniqueIds, IsEntry, Fault;
    SameMembers(sorted, m.byBase);
    ReorderedIsUnique(m.byBase, sorted);
  }

  lemma SameMembers(s: seq<Entry>, t: seq<Entry>)
    requires multiset(s) == multiset(t)
    ensures forall e :: e in s <==> e in t
  {
    forall e ensures e in s <==> e in t {
      assert e in s <==> e in multiset(s);
      assert e in t <==> e in multiset(t);
    }
  }

  lemma ReorderedIsUnique(s: seq<Entry>, t: seq<Entry>)
    requires UniqueIds(s) && multiset(s) == multiset(t)
    ensures UniqueIds(t)
  {
    SameMembers(s, t);
    forall k, l | 0 <= k < l < |t| ensures t[k].id != t[l].id {
      assert t[k] in t && t[l] in t;
      var i :| 0 <= i < |s| && s[i] == t[k];
      var j :| 0 <= j < |s| && s[j] == t[l];
      if t[k] == t[l] {
        TwiceInMultiset(t, k, l);
        OnceInDistinct(s, t[k]);
      }
    }
  }

  lemma TwiceInMultiset(s: seq<Entry>, k: nat, l: nat)
    requires k < l < |s| && s[k] == s[l]
    ensures multiset(s)[s[k]] >= 2
  {
    assert s == s[..l] + [s[l]] + s[l + 1..];
    assert s[..l][k] == s[k];
    assert multiset(s[..l])[s[k]] >= 1;
  }

  lemma {:induction false} OnceInDistinct(s: seq<Entry>, e: Entry)
    requires UniqueIds(s)
    ensures multiset(s)[e] <= 1
  {
    if s != [] {
      assert s == [s[0]] + s[1..];
      OnceInDistinct(s[1..], e);
      if s[0] == e {
        assert e !in s[1..];
      }
    }
  }

  /** The reason given: the first overlapping pair of windows in order, or else the first spec with a fault. */
  ghost predicate IsReportedReason(specs: seq<Spec>, reason: Rejection) {
    if PairwiseDisjoint(Windows(specs)) then
      exists i :: 0 <= i < |specs| && Fault(specs, i) == Some(reason) && forall j :: 0 <= j < i ==>
          Fault(specs, j).None?
    else
      exists i, j :: 0 <= i < j < |Windows(specs)| && IsFirstOverlap(Windows(specs), i, j)
                     && reason == WindowsOverlap(Windows(specs)[i].name, Windows(specs)[j].name)
  }

  ghost predicate IsFirstOverlap(windows: seq<NamedRange>, i: nat, j: nat)
    requires i < j < |windows|
  {
    && Overlap(windows[i], windows[j])
    && forall k, l :: 0 <= k < l < |windows| && (k < i || (k == i && l < j)) ==> !Overlap(windows[k], windows[l])
  }

  /** `createMemory`: overlap is checked first, then each spec in order. */
  method CreateMemory(specs: seq<Spec>) returns (outcome: Outcome)
    ensures outcome.Packed? <==> Acceptable(specs)
    ensures outcome.Packed? ==> WellPacked(outcome.memory) && IsPackedFrom(outcome.memory, specs)
    ensures outcome.Rejected? ==> IsReportedReason(specs, outcome.reason)
  {
    hide PackedEnd, AlignUp, IndexBuilt;
    var overlap := FindOverlappingPair(Windows(specs));
    if overlap.Pair? {
      ghost var w := Windows(specs);
      ghost var i, j :| 0 <= i < j < |w| && overlap == Pair(w[i], w[j]) && Overlap(w[i], w[j])
                        && forall k, l :: 0 <= k < l < |w| && (k < i || (k == i && l < j)) ==> !Overlap(w[k], w[l]);
      assert IsFirstOverlap(w, i, j);
      return Rejected(WindowsOverlap(overlap.a.name, overlap.b.name));
    }
    var m := Memory(0, map[], []);
    EmptyIsBuilt(specs);
    for i := 0 to |specs|
      invariant Built(m, specs, i) && InSpecOrder(m.byBase, specs, i)
    {
      var spec := specs[i];
      if spec.hostByteLength < 0 {
        assert Fault(specs, i) == Some(NegativeHost(spec.id));
        return Rejected(NegativeHost(spec.id));
      }
      if spec.window.Guest? && spec.window.size < 0 {
        assert Fault(specs, i) == Some(NegativeGuest(spec.id));
        return Rejected(NegativeGuest(spec.id));
      }
      if spec.id in m.regions {
        assert Fault(specs, i) == Some(Duplicate(spec.id));
        return Rejected(Duplicate(spec.id));
      }
      NextIsBuilt(m, specs, i);
      NextIsInOrder(m, specs, i);
      m := WithSpec(m, spec);
    }
    var sorted := SortByBase(m.byBase);
    ReorderedIsBuilt(m, specs, |specs|, sorted);
    StableSortIsStableIndex(m.byBase, sorted, specs);
    m := m.(byBase := sorted);
    BuiltIsWellPacked(m, specs);
    BuiltIsWellIndexed(m, specs);
    return Packed(m);
  }

  lemma NextIsInOrder(m: Memory, specs: seq<Spec>, i: nat)
    requires i < |specs| && Built(m, specs, i) && InSpecOrder(m.byBase, specs, i) && specs[i].id !in m.regions
    requires specs[i].hostByteLength >= 0
    ensures InSpecOrder(WithSpec(m, specs[i]).byBase, specs, i + 1)
  {
    hide PackedEnd, AlignUp, Fault, RegionOf, IsId;
    var after := WithSpec(m, specs[i]).byBase;
    assert forall r :: 0 <= r < i ==> specs[r].id in m.regions;
    forall k, l, p, q | 0 <= k < l < |after| && 0 <= p < i + 1 && 0 <= q < i + 1 && IsEntry(specs[p], after[k])
        && IsEntry(specs[q], after[l])
      ensures p < q
    {
      assert after[k] == m.byBase[k] && after[k] in m.byBase;
      var r :| 0 <= r < i && IsEntry(specs[r], after[k]);
      assert p != i;
      if l < |m.byBase| {
        assert after[l] == m.byBase[l] && after[l] in m.byBase;
        var t :| 0 <= t < i && IsEntry(specs[t], after[l]);
        assert q != i;
      }
    }
  }

  lemma StableSortIsStableIndex(entries: seq<Entry>, sorted: seq<Entry>, specs: seq<Spec>)
    requires InSpecOrder(entries, specs, |specs|) && KeepsOrder(sorted, entries)
    ensures StableIndex(sorted, specs)
  {
    forall k, l, p, q | 0 <= k < l < |sorted| && 0 <= p < |specs| && 0 <= q < |specs|
        && sorted[k].base == sorted[l].base
                        && IsEntry(specs[p], sorted[k]) && IsEntry(specs[q], sorted[l])
      ensures p < q
    {
      assert Before(entries, sorted[k], sorted[l]);
      var i, j :| 0 <= i < j < |entries| && entries[i] == sorted[k] && entries[j] == sorted[l];
      assert IsEntry(specs[p], entries[i]) && IsEntry(specs[q], entries[j]);
    }
  }

  function WithSpec(m: Memory, spec: Spec): Memory
    requires spec.hostByteLength >= 0
  {
    var hostIndex := AlignUp(m.byteLength);
    Memory(hostIndex + spec.hostByteLength, m.regions[spec.id := Region(hostIndex, spec.hostByteLength, spec.window)],
           if spec.window.Guest? then m.byBase + [Entry(spec.window.base, spec.id)] else m.byBase)
  }

  lemma NextIsBuilt(m: Memory, specs: seq<Spec>, i: nat)
    requires i < |specs| && Built(m, specs, i) && specs[i].hostByteLength >= 0 && specs[i].id !in m.regions
    requires specs[i].window.Guest? ==> specs[i].window.size >= 0
    ensures Built(WithSpec(m, specs[i]), specs, i + 1)
  {
    hide PackedEnd, AlignUp, Fault, RegionsBuilt, IndexBuilt, IsId, RegionOf, Lengths;
    NewIdIsNoFault(m, specs, i);
    OneMoreLength(specs, i);
    NextEnd(specs, i);
    NextRegions(m.regions, specs, i);
    NextIndex(m.byBase, specs, i);
    var t := WithSpec(m, specs[i]);
    assert RegionsBuilt(t.regions, specs, i + 1) && IndexBuilt(t.byBase, specs, i + 1)
        && t.byteLength == PackedEnd(specs, i + 1);
  }

  lemma NewIdIsNoFault(m: Memory, specs: seq<Spec>, i: nat)
    requires i < |specs| && Built(m, specs, i) && specs[i].hostByteLength >= 0 && specs[i].id !in m.regions
    requires specs[i].window.Guest? ==> specs[i].window.size >= 0
    ensures Fault(specs, i).None? && !IsId(specs, i, specs[i].id)
  {
    hide PackedEnd, AlignUp, IndexBuilt, RegionOf;
    forall j | 0 <= j < i ensures specs[j].id != specs[i].id {
      assert specs[j].id in m.regions;
    }
  }

  lemma NextEnd(specs: seq<Spec>, i: nat)
    requires i < |specs| && Lengths(specs, i + 1)
    ensures PackedEnd(specs, i + 1) == AlignUp(PackedEnd(specs, i)) + specs[i].hostByteLength
    ensures RegionOf(specs, i) == Region(AlignUp(PackedEnd(specs, i)), specs[i].hostByteLength, specs[i].window)
  {
  }

  lemma OneMoreLength(specs: seq<Spec>, i: nat)
    requires i < |specs| && Lengths(specs, i) && specs[i].hostByteLength >= 0
    ensures Lengths(specs, i + 1)
  {
  }

  lemma EmptyIsBuilt(specs: seq<Spec>)
    ensures Built(Memory(0, map[], []), specs, 0)
  {
  }

  lemma NextRegions(regions: map<string, Region>, specs: seq<Spec>, i: nat)
    requires i < |specs| && Lengths(specs, i + 1) && RegionsBuilt(regions, specs, i) && !IsId(specs, i, specs[i].id)
    ensures RegionsBuilt(regions[specs[i].id := RegionOf(specs, i)], specs, i + 1)
  {
    hide RegionOf;
    var after := regions[specs[i].id := RegionOf(specs, i)];
    forall id | id in after ensures IsId(specs, i + 1, id) {
      if id == specs[i].id {
        assert specs[i].id == id;
      } else {
        var k := IdOf(specs, i, id);
        assert specs[k].id == id;
      }
    }
    forall k | 0 <= k < i ensures specs[k].id != specs[i].id {
    }
  }

  lemma NextIndex(entries: seq<Entry>, specs: seq<Spec>, i: nat)
    requires i < |specs| && IndexBuilt(entries, specs, i) && !IsId(specs, i, specs[i].id)
    ensures specs[i].window.Guest? ==> IndexBuilt(entries + [Entry(specs[i].window.base, specs[i].id)], specs, i + 1)
    ensures specs[i].window.HostOnly? ==> IndexBuilt(entries, specs, i + 1)
  {
    forall e | e in entries ensures e.id != specs[i].id && exists k :: 0 <= k < i + 1 && IsEntry(specs[k], e) {
      var k :| 0 <= k < i && IsEntry(specs[k], e);
      assert specs[k].id != specs[i].id;
    }
    forall e, k | 0 <= k < i + 1 && IsEntry(specs[k], e) ensures e in entries || IsEntry(specs[i], e) {
    }
    if specs[i].window.Guest? {
      var last := Entry(specs[i].window.base, specs[i].id);
      assert IsEntry(specs[i], last);
      forall e | e in entries + [last] ensures exists k :: 0 <= k < i + 1 && IsEntry(specs[k], e) {
        assert e in entries || e == last;
      }
    }
  }

  // ---------- Resolution, in terms of the specifications ----------

  /** What `createMemory` returns for accepted specs: the index is determined, equal bases included. */
  ghost predicate IsPackedFrom(m: Memory, specs: seq<Spec>) {
    Built(m, specs, |specs|) && WellIndexed(m) && StableIndex(m.byBase, specs)
  }

  /** Spec `j` has an empty window inside that of spec `i`, and is sorted after it. */
  predicate SpecShadows(specs: seq<Spec>, i: nat, j: nat)
    requires i < |specs| && j < |specs|
  {
    var p, q := specs[i].window, specs[j].window;
    p.Guest? && q.Guest? && q.size == 0 && p.Contains(q.base) && (p.base < q.base || i < j)
  }

  ghost predicate SpecsShadowFree(
      specs: seq<Spec>) { forall i, j :: 0 <= i < |specs| && 0 <= j < |specs| ==> !SpecShadows(specs, i, j) }

  lemma SpecOf(m: Memory, specs: seq<Spec>, k: nat) returns (i: nat)
    requires IsPackedFrom(m, specs) && k < |m.byBase|
    ensures i < |specs| && IsEntry(specs[i], m.byBase[k]) && m.byBase[k].id in m.regions
    ensures m.regions[m.byBase[k].id].window == specs[i].window
  {
    hide PackedEnd, AlignUp, IsId, Fault;
    assert m.byBase[k] in m.byBase && Indexed(m, m.byBase[k]);
    i :| 0 <= i < |specs| && IsEntry(specs[i], m.byBase[k]);
  }

  lemma PositionOf(m: Memory, specs: seq<Spec>, i: nat) returns (k: nat)
    requires IsPackedFrom(m, specs) && i < |specs| && specs[i].window.Guest?
    ensures k < |m.byBase| && IsEntry(specs[i], m.byBase[k]) && m.byBase[k].id in m.regions
    ensures m.regions[m.byBase[k].id].window == specs[i].window
  {
    hide PackedEnd, AlignUp, IsId, Fault;
    assert IsEntry(specs[i], Entry(specs[i].window.base, specs[i].id));
    k :| 0 <= k < |m.byBase| && m.byBase[k] == Entry(specs[i].window.base, specs[i].id);
  }

  /** The index is sorted by base, then by the order of the specs. */
  lemma IndexOrder(m: Memory, specs: seq<Spec>, k: nat, l: nat, i: nat, j: nat)
    requires IsPackedFrom(m, specs) && k < l < |m.byBase| && i < |specs| && j < |specs|
    requires IsEntry(specs[i], m.byBase[k]) && IsEntry(specs[j], m.byBase[l])
    ensures specs[i].window.base < specs[j].window.base || (specs[i].window.base == specs[j].window.base && i < j)
  {
    hide Built;
  }

  lemma ShadowedBySpecs(m: Memory, specs: seq<Spec>, k: nat, l: nat)
    requires IsPackedFrom(m, specs) && k < l < |m.byBase| && Indexed(m, m.byBase[k]) && Indexed(m, m.byBase[l])
    requires Shadows(m, k, l)
    ensures !SpecsShadowFree(specs)
  {
    var i := SpecOf(m, specs, k);
    var j := SpecOf(m, specs, l);
    IndexOrder(m, specs, k, l, i, j);
    hide IsPackedFrom;
    assert SpecShadows(specs, i, j);
  }

  lemma SpecsShadowing(m: Memory, specs: seq<Spec>, i: nat, j: nat)
    requires IsPackedFrom(m, specs) && i < |specs| && j < |specs| && SpecShadows(specs, i, j)
    ensures WellIndexed(m) && !ShadowFree(m)
  {
    var k := PositionOf(m, specs, i);
    var l := PositionOf(m, specs, j);
    if l < k {
      IndexOrder(m, specs, l, k, j, i);
    }
    assert Indexed(m, m.byBase[k]) && Indexed(m, m.byBase[l]);
    hide IsPackedFrom, WellIndexed;
    assert k != l;
    assert Shadows(m, k, l);
  }

  lemma SomeShadow(m: Memory) returns (k: nat, l: nat)
    requires WellIndexed(m) && !ShadowFree(m)
    ensures k < l < |m.byBase| && Indexed(m, m.byBase[k]) && Indexed(m, m.byBase[l]) && Shadows(m, k, l)
  {
    k, l :| 0 <= k < l < |m.byBase| && Shadows(m, k, l);
  }

  lemma SomeSpecShadow(specs: seq<Spec>) returns (i: nat, j: nat)
    requires !SpecsShadowFree(specs)
    ensures i < |specs| && j < |specs| && SpecShadows(specs, i, j)
  {
    i, j :| 0 <= i < |specs| && 0 <= j < |specs| && SpecShadows(specs, i, j);
  }

  lemma ShadowsBySpecs(m: Memory, specs: seq<Spec>)
    requires IsPackedFrom(m, specs) && WellIndexed(m)
    ensures ShadowFree(m) <==> SpecsShadowFree(specs)
  {
    hide IsPackedFrom, ShadowFree, SpecsShadowFree, WellIndexed, SpecShadows, Shadows, Indexed;
    if !ShadowFree(m) {
      var k, l := SomeShadow(m);
      ShadowedBySpecs(m, specs, k, l);
    }
    if !SpecsShadowFree(specs) {
      var i, j := SomeSpecShadow(specs);
      SpecsShadowing(m, specs, i, j);
    }
  }

  /**
   * The memory made from accepted specs resolves every address rightly if and only if no spec has an empty
   * window inside another's and after it.
   */
  lemma SpecsDecideResolution(m: Memory, specs: seq<Spec>)
    requires IsPackedFrom(m, specs)
    ensures (forall a: nat :: ResolvesRightly(m, a)) <==> SpecsShadowFree(specs)
  {
    ResolutionIsRight(m);
    ShadowsBySpecs(m, specs);
  }

  function ShadowingSpecs(): seq<Spec> { [Spec("ram", 16, Guest(0, 16)), Spec("hole", 0, Guest(8, 0))] }

  /**
   * `createMemory` accepts an empty window at 8 inside a window of 16 bytes, and no memory made from the
   * two resolves every address.
   */
  lemma AnEmptyWindowShadows()
    ensures Acceptable(ShadowingSpecs())
    ensures forall m: Memory :: IsPackedFrom(m, ShadowingSpecs()) ==> exists a: nat :: !ResolvesRightly(m, a)
  {
    var specs := ShadowingSpecs();
    assert specs[0].id[0] != specs[1].id[0];
    assert specs[1..] == [specs[1]] && specs[1..][1..] == [];
    assert SpecShadows(specs, 0, 1);
    forall m: Memory | IsPackedFrom(m, specs) ensures exists a: nat :: !ResolvesRightly(m, a) {
      SpecsDecideResolution(m, specs);
    }
  }
}
