/** The range allocator object: two region arrays with their fill counts. Its methods are
    proved to perform the table functions and the steps of RangeModel. A table's capacity
    is the length of its array, as it always is in the program. */
module MemoryBlock {
  import opened Arithmetic
  import opened Options
  import opened Regions
  import opened RangeSearch
  import opened RangeModel
  import opened RegionArray
  import Setup = SetupModel

  /** `add_region_internal` on one table, given a spare slot. */
  method AddTo(a: array<Region>, n: nat, r: Region) returns (m: nat)
    requires n < a.Length && Ascending(a[..n])
    modifies a
    ensures m <= n + 1 && a[..m] == Add(old(a[..n]), r)
  {
    hide Ascending, LowerBound, Found, Splice, AddMerge, Absorb;
    ghost var t := a[..n];
    var found, x := BinarySearch(a, n, r.address);
    FoundMeans(t, r.address);
    if !found {
      m := AddAndMergeRegion(a, n, x, r);
    } else if r.size <= a[x].size {
      m := n;
    } else {
      m := Widen(a, n, x, r);
    }
  }

  /** An entry of the same start but smaller size grows, swallowing its successor if it
      reaches it. */
  method Widen(a: array<Region>, n: nat, x: nat, r: Region) returns (m: nat)
    requires x < n <= a.Length && Ascending(a[..n]) && a[x].address == r.address && a[x].size < r.size
    modifies a
    ensures m <= n
    ensures a[..m] == Absorb(old(a[..n]), x, if TouchesAfter(old(a[..n]), x + 1, r) then x + 2 else x + 1, r)
  {
    hide Ascending, Splice, Absorb;
    ghost var t := a[..n];
    WidenCases(t, x, r);
    if x + 1 < n && r.address + r.size >= a[x + 1].address {
      var mergedEnd := Max(r.address + r.size, a[x + 1].address + a[x + 1].size);
      a[x] := Region(a[x].address, mergedEnd - a[x].address);
      ghost var h := a[x];
      m := RemoveSlot(a, n, x + 1);
      SpliceSlots(t, x, x + 2, [h], a[..m]);
    } else {
      a[x] := Region(a[x].address, r.size);
      m := n;
      SpliceSlots(t, x, x + 1, [a[x]], a[..m]);
    }
  }

  /** Widening an entry of the same start, with and without its successor. */
  lemma WidenCases(t: Table, x: nat, r: Region)
    requires x < |t| && Ascending(t) && t[x].address == r.address && t[x].size < r.size
    ensures TouchesAfter(t, x + 1, r) ==>
      Absorb(t, x, x + 2, r) == Splice(t, x, x + 2, [Region(r.address, Max(r.End(), t[x + 1].End()) - r.address)])
    ensures Absorb(t, x, x + 1, r) == Splice(t, x, x + 1, [Region(r.address, r.size)])
  {
  }

  /** How `check_regions` answers. */
  datatype Verdict = Finalized | TablesTooBig | OutsideAllRegions | RegionTooSmall | BufferOverflow

  const MAX_REGIONS: nat := 120

  /** The sweep itself failed. */
  predicate Aborted(v: Verdict) {
    v == OutsideAllRegions || v == RegionTooSmall || v == BufferOverflow
  }

  /** The answer of the sweep as the code words it. */
  function VerdictOf(s: Sweep): Verdict {
    match s
    case Done(_) => Finalized
    case Outside(_) => OutsideAllRegions
    case TooSmall(_) => RegionTooSmall
    case Full(_) => BufferOverflow
  }

  /** The inner loop of `check_regions`. */
  method AdvanceIndex(a: array<Region>, n: nat, from: nat, address: nat) returns (i: nat)
    requires from <= n <= a.Length
    ensures i == Advance(a[..n], from, address)
  {
    i := from;
    while i < n && a[i].End() <= address
      invariant from <= i <= n
      invariant Advance(a[..n], from, address) == Advance(a[..n], i, address)
    {
      i := i + 1;
    }
  }

  /** One reserved entry of the sweep. */
  lemma SweepStep(t: Table, from: nat, rs: Table, j: nat, capacity: nat)
    requires from <= |t| && j < |rs|
    ensures var r, i := rs[j], Advance(t, from, rs[j].address);
      Subtract(t, from, rs[j..], capacity) ==
        if i == |t| then Outside(t)
        else if !Inside(r, t[i]) then TooSmall(t)
        else if SplitsAt(t[i], r) && |t| + 1 > capacity then Full(t)
        else Subtract(TakeOut(t, i, r), if SplitsAt(t[i], r) then i + 1 else i, rs[j + 1..], capacity)
  {
    hide TakeOut, Inside;
    assert rs[j..][0] == rs[j] && rs[j..][1..] == rs[j + 1..];
  }

  /** Taking r out of x leaves a piece on each side. */
  predicate SplitsAt(x: Region, r: Region) {
    x.address < r.address && r.End() < x.End()
  }

  /** The sweep of `check_regions`, in place on the free table. */
  method SubtractReserved(a: array<Region>, n: nat, reserved: array<Region>, count: nat)
    returns (v: Verdict, m: nat)
    requires a != reserved && n <= a.Length && count <= reserved.Length
    modifies a
    ensures m <= a.Length
    ensures var s := Subtract(old(a[..n]), 0, old(reserved[..count]), a.Length);
      v == VerdictOf(s) && a[..m] == s.left
  {
    hide TakeOut, Subtract, Advance;
    var regionIdx := 0;
    var j := 0;
    m := n;
    ghost var rs := reserved[..count];
    assert rs[0..] == rs;
    while j < count
      invariant j <= count && regionIdx <= m <= a.Length
      invariant reserved[..count] == rs
      invariant Subtract(a[..m], regionIdx, rs[j..], a.Length) == Subtract(old(a[..n]), 0, rs, a.Length)
    {
      var r := reserved[j];
      SweepStep(a[..m], regionIdx, rs, j, a.Length);
      regionIdx := AdvanceIndex(a, m, regionIdx, r.address);
      if regionIdx == m {
        return OutsideAllRegions, m;
      }
      if r.address < a[regionIdx].address || r.End() > a[regionIdx].End() {
        return RegionTooSmall, m;
      }
      var split := a[regionIdx].address != r.address && a[regionIdx].End() != r.End();
      if split && m + 1 > a.Length {
        return BufferOverflow, m;
      }
      m := SubtractAt(a, m, regionIdx, r);
      if split {
        regionIdx := regionIdx + 1;
      }
      j := j + 1;
    }
    assert rs[j..] == [];
    SweepDone(a[..m], regionIdx, a.Length);
    v := Finalized;
  }

  lemma SweepDone(t: Table, from: nat, capacity: nat)
    requires from <= |t|
    ensures Subtract(t, from, [], capacity) == Done(t)
  {
  }

  /** How `add_reserved_region_dynamic` answers. */
  datatype Reservation = AlreadyFinalized | NoPlace | TableFull | Reserved(address: nat)

  /** How `trim_for_boot` answers. */
  datatype TrimResult = NotAllocatable | AllocationFailed | Listed(list: seq<(nat, nat)>)

  class MemoryBlock {
    var regions: array<Region>
    var reservedRegions: array<Region>
    var regionSize: nat
    var reservedRegionSize: nat
    var allocatable: bool
    /** Where the tables were relocated to; None for the static tables. */
    var regionsAt: Option<nat>
    var reservedAt: Option<nat>
    ghost var live: set<Region>
    ghost var stores: set<Region>

    ghost predicate Shaped()
      reads this
    {
      regions != reservedRegions && regionSize <= regions.Length && reservedRegionSize <= reservedRegions.Length
    }

    ghost function FreeTable(): Table
      requires Shaped()
      reads this, regions
    {
      regions[..regionSize]
    }

    ghost function ReservedTable(): Table
      requires Shaped()
      reads this, reservedRegions
    {
      reservedRegions[..reservedRegionSize]
    }

    ghost function View(): State
      requires Shaped()
      reads this, regions, reservedRegions
    {
      State(FreeTable(), ReservedTable(), regions.Length, reservedRegions.Length, live, stores)
    }

    /** Relocated tables lie inside table storage, and not on top of each other. */
    ghost predicate Housed()
      reads this`regions, this`reservedRegions, this`regionsAt, this`reservedAt, this`stores
    {
      && (regionsAt.Some? ==> exists r :: r in stores && Inside(Slots(regionsAt.value, regions), r))
      && (reservedAt.Some? ==> exists r :: r in stores && Inside(Slots(reservedAt.value, reservedRegions), r))
      && (regionsAt.Some? && reservedAt.Some? ==>
            Apart(Slots(regionsAt.value, regions), Slots(reservedAt.value, reservedRegions)))
    }

    /** Once finalized, the allocator is in a state of the transition system. */
    ghost predicate Valid()
      reads this, regions, reservedRegions
    {
      Shaped() && Housed() && (allocatable ==> Inv(View()))
    }

    /** The memory of the current tables is never handed out: no live block overlaps it, and
        none of it is free. */
    lemma TablesApart(at: nat, a: array<Region>)
      requires Valid() && allocatable
      requires (regionsAt == Some(at) && a == regions) || (reservedAt == Some(at) && a == reservedRegions)
      ensures forall x :: x in live ==> Apart(x, Slots(at, a))
      ensures forall b :: In(Slots(at, a), b) ==> !Covers(FreeTable(), b)
    {
      var store :| store in stores && Inside(Slots(at, a), store);
      assert store in live + stores;
      forall x | x in live ensures Apart(x, Slots(at, a)) {
        assert x in live + stores && x != store;
      }
      forall b | In(Slots(at, a), b) ensures !Covers(FreeTable(), b) {
        assert In(store, b) && Held(live + stores, b);
        assert Covers(ReservedTable(), b);
      }
    }

    /** The tables before finalization. */
    ghost function SetupView(): Setup.State
      requires Shaped()
      reads this, regions, reservedRegions
    {
      Setup.State(FreeTable(), ReservedTable(), regions.Length, reservedRegions.Length)
    }

    constructor ()
      ensures Shaped() && !allocatable && fresh(regions) && fresh(reservedRegions)
      ensures FreeTable() == [] && ReservedTable() == []
      ensures regions.Length == 128 && reservedRegions.Length == 128
      ensures live == {} && stores == {} && Housed() && SetupView() == Setup.Init()
    {
      regions := new Region[STATIC_CAPACITY](_ => Region(0, 0));
      reservedRegions := new Region[STATIC_CAPACITY](_ => Region(0, 0));
      regionSize, reservedRegionSize := 0, 0;
      allocatable := false;
      regionsAt, reservedAt := None, None;
      live, stores := {}, {};
    }

    /** `add_region`: fails exactly when the table has no spare slot, even if the region
        would have been merged. */
    method AddRegion(r: Region) returns (ok: bool)
      requires Shaped() && Ascending(FreeTable())
      modifies this`regionSize, regions
      ensures Shaped() && ReservedTable() == old(ReservedTable())
      ensures ok == (old(regionSize) < regions.Length)
      ensures FreeTable() == if ok then Add(old(FreeTable()), r) else old(FreeTable())
      ensures old(Setup.Inv(SetupView())) ==> SetupView() == Setup.Step(old(SetupView()), Setup.AddRegion(r))
    {
      if regionSize + 1 > regions.Length {
        return false;
      }
      regionSize := AddTo(regions, regionSize, r);
      ok := true;
    }

    /** `add_reserved_region`. */
    method AddReservedRegion(r: Region) returns (ok: bool)
      requires Shaped() && Ascending(ReservedTable())
      modifies this`reservedRegionSize, reservedRegions
      ensures Shaped() && FreeTable() == old(FreeTable())
      ensures ok == (old(reservedRegionSize) < reservedRegions.Length)
      ensures ReservedTable() == if ok then Add(old(ReservedTable()), r) else old(ReservedTable())
      ensures old(Setup.Inv(SetupView())) ==> SetupView() == Setup.Step(old(SetupView()), Setup.AddReserved(r))
    {
      if reservedRegionSize + 1 > reservedRegions.Length {
        return false;
      }
      reservedRegionSize := AddTo(reservedRegions, reservedRegionSize, r);
      ok := true;
    }

    /** The inner loop of `add_reserved_region_dynamic` on one available region. Every
        retry shrinks the window. */
    method TryRegion(reg: Region, size: nat, align: nat, range: Bounds) returns (attempt: Attempt)
      requires Shaped() && Ascending(ReservedTable()) && size > 0 && align > 0
      ensures attempt == Try(ReservedTable(), reg.address, reg.End(), size, align, range)
    {
      hide Ascending, LowerBound, Found, AlignUp;
      var regAddr: nat, regEnd: nat := reg.address, reg.End();
      while true
        invariant Try(ReservedTable(), regAddr, regEnd, size, align, range)
               == Try(ReservedTable(), reg.address, reg.End(), size, align, range)
        decreases if regAddr <= regEnd then regEnd - regAddr + 1 else 0
      {
        var start;
        if range.Within? {
          if range.Hi() < regAddr {
            return Stop;
          }
          if regEnd < range.lo {
            return Skip;
          }
          start := AlignUp(Max(regAddr, range.lo), align);
          if start + size > range.Hi() {
            return Skip;
          }
        } else {
          start := AlignUp(regAddr, align);
        }
        if start + size > regEnd {
          return Skip;
        }
        var prevEnd, nextStart := Neighbours(start);
        if prevEnd > start || start + size > nextStart {
          regAddr := Max(regAddr, prevEnd);
          regEnd := Min(regEnd, nextStart);
          if regAddr >= regEnd {
            return Skip;
          }
        } else {
          return Hit(start);
        }
      }
    }

    /** The reservations around an address, found by binary search. */
    method Neighbours(start: nat) returns (prevEnd: nat, nextStart: nat)
      requires Shaped() && Ascending(ReservedTable())
      ensures prevEnd == PrevEnd(ReservedTable(), start) && nextStart == NextStart(ReservedTable(), start)
    {
      hide Ascending, LowerBound;
      var found, i := BinarySearch(reservedRegions, reservedRegionSize, start);
      if found {
        prevEnd := reservedRegions[i].End();
        nextStart := if i + 1 < reservedRegionSize then reservedRegions[i + 1].address else USIZE_MAX;
      } else {
        prevEnd := if i > 0 then reservedRegions[i - 1].End() else 0;
        nextStart := if i < reservedRegionSize then reservedRegions[i].address else USIZE_MAX;
      }
    }

    /** `add_reserved_region_dynamic`. */
    method AddReservedRegionDynamic(size: nat, align: Option<nat>, range: Bounds) returns (r: Reservation)
      requires Shaped() && Ascending(ReservedTable())
      modifies this`reservedRegionSize, reservedRegions
      ensures Shaped() && FreeTable() == old(FreeTable())
      ensures allocatable ==> r == AlreadyFinalized
      ensures !r.Reserved? ==> ReservedTable() == old(ReservedTable())
      ensures !allocatable && size == 0 ==> r == NoPlace
      ensures !allocatable && size > 0 ==>
        var found := Search(FreeTable(), old(ReservedTable()), size, Alignment(align), range);
        && (r == NoPlace <==> !found.Hit?)
        && (r == TableFull <==> found.Hit? && old(reservedRegionSize) == reservedRegions.Length)
        && (r.Reserved? ==>
              && found == Hit(r.address)
              && ReservedTable() == Add(old(ReservedTable()), Region(r.address, size)))
      ensures r.Reserved? && align.Some? && align.value > 0 ==> r.address % align.value == 0
      ensures r.Reserved? && range.Within? ==>
        range.lo <= r.address && r.address + size <= range.lo + range.size
      ensures !allocatable && old(Setup.Inv(SetupView())) ==>
        SetupView() == Setup.Step(old(SetupView()), Setup.AddDynamic(size, align, range))
    {
      if allocatable {
        return AlreadyFinalized;
      }
      if size == 0 {
        return NoPlace;
      }
      var alignment := Alignment(align);
      var attempt := FindPlace(size, alignment, range);
      if !attempt.Hit? {
        return NoPlace;
      }
      DynamicPlaced(FreeTable(), ReservedTable(), size, align, range);
      var ok := AddReservedRegion(Region(attempt.start, size));
      r := if ok then Reserved(attempt.start) else TableFull;
    }

    /** The outer loop of `add_reserved_region_dynamic`. */
    method FindPlace(size: nat, align: nat, range: Bounds) returns (attempt: Attempt)
      requires Shaped() && Ascending(ReservedTable()) && size > 0 && align > 0
      ensures attempt == Search(FreeTable(), ReservedTable(), size, align, range)
    {
      hide Ascending, Try;
      var i := 0;
      while i < regionSize
        invariant i <= regionSize
        invariant Search(FreeTable()[i..], ReservedTable(), size, align, range)
               == Search(FreeTable(), ReservedTable(), size, align, range)
      {
        attempt := TryRegion(regions[i], size, align, range);
        assert FreeTable()[i..][0] == regions[i] && FreeTable()[i..][1..] == FreeTable()[i + 1..];
        if !attempt.Skip? {
          return;
        }
        i := i + 1;
      }
      attempt := Skip;
    }

    ghost predicate GappedTables()
      requires Shaped()
      reads this, regions, reservedRegions
    {
      Gapped(FreeTable()) && Gapped(ReservedTable())
    }

    /** What finalization starts from: gapped tables in storage of at least the initial
        size, and nothing handed out yet. */
    ghost predicate Startable()
      requires Shaped()
      reads this, regions, reservedRegions
    {
      && GappedTables() && live == {} && stores == {}
      && regions.Length >= STATIC_CAPACITY && reservedRegions.Length >= STATIC_CAPACITY
    }

    /** `check_regions`: the reserved table is subtracted from the free table in place and
        then cleared. A failing sweep leaves what it has subtracted so far. */
    method CheckRegions() returns (v: Verdict)
      requires Shaped()
      modifies this, regions
      ensures Shaped() && live == old(live) && stores == old(stores)
      ensures regionsAt == old(regionsAt) && regions == old(regions)
      ensures reservedAt == if v == Finalized && old(reservedRegionSize) > 0 then None else old(reservedAt)
      ensures v == TablesTooBig <==> old(regionSize) > 120 || old(reservedRegionSize) > 120
      ensures v == TablesTooBig ==> FreeTable() == old(FreeTable())
      ensures old(regionSize) <= MAX_REGIONS && old(reservedRegionSize) <= MAX_REGIONS ==>
        var s := Subtract(old(FreeTable()), 0, old(ReservedTable()), regions.Length);
        v == VerdictOf(s) && FreeTable() == s.left
      ensures allocatable == (old(allocatable) || v == Finalized)
      ensures v == Finalized ==>
        ReservedTable() == [] && reservedRegions.Length >= Min(STATIC_CAPACITY, old(reservedRegions.Length))
      ensures v != Finalized ==> reservedRegions == old(reservedRegions) && ReservedTable() == old(ReservedTable())
      ensures Aborted(v) ==> old(reservedRegionSize) > 0
      ensures v == OutsideAllRegions && old(GappedTables()) ==>
        exists j :: NothingLeft(old(FreeTable()), old(ReservedTable()), j)
      ensures v == RegionTooSmall && old(GappedTables()) ==>
        exists j :: NotAll(old(FreeTable()), old(ReservedTable()), j)
      ensures v == BufferOverflow && old(GappedTables()) ==>
        regionSize == regions.Length && exists j :: InTheMiddle(old(FreeTable()), old(ReservedTable()), j)
      ensures Aborted(v) && old(GappedTables()) ==>
        (FreeTable() == old(FreeTable()) <==> Rejects(old(FreeTable()), 0, old(ReservedTable()[0]), regions.Length))
      ensures old(Housed()) ==> Housed()
      ensures v == Finalized && old(Startable() && Housed()) && regionSize < regions.Length ==> Valid()
    {
      hide Inv, Gapped, Subtract, Rejects, NothingLeft, NotAll, InTheMiddle;
      if regionSize > MAX_REGIONS || reservedRegionSize > MAX_REGIONS {
        return TablesTooBig;
      }
      if reservedRegionSize == 0 {
        allocatable := true;
        SweepDone(FreeTable(), 0, regions.Length);
        v := Finalized;
        FinalView(old(FreeTable()), old(ReservedTable()), old(Startable()));
        return;
      }
      v, regionSize := SubtractReserved(regions, regionSize, reservedRegions, reservedRegionSize);
      if v == Finalized {
        reservedRegions := new Region[STATIC_CAPACITY](_ => Region(0, 0));
        reservedRegionSize := 0;
        reservedAt := None;
        allocatable := true;
        FinalView(old(FreeTable()), old(ReservedTable()), old(Startable()));
      } else if old(GappedTables()) {
        FailureUndone(old(FreeTable()), ReservedTable(), regions.Length);
        SubtractErrors(old(FreeTable()), 0, ReservedTable(), regions.Length);
      }
    }

    /** Exact subtraction into a table with a spare slot is a state of the transition system. */
    lemma FinalView(available: Table, reserved: Table, startable: bool)
      requires Shaped() && ReservedTable() == []
      requires Subtract(available, 0, reserved, regions.Length) == Done(FreeTable())
      requires startable ==> Gapped(available) && Gapped(reserved) && live == {} && stores == {}
      requires startable ==> regions.Length >= STATIC_CAPACITY && reservedRegions.Length >= STATIC_CAPACITY
      ensures startable && regionSize < regions.Length ==> Inv(View())
    {
      hide Inv, Gapped, Subtract;
      if startable && regionSize < regions.Length {
        FinalizedInv(available, reserved, regions.Length, reservedRegions.Length);
        assert View() == State(FreeTable(), [], regions.Length, reservedRegions.Length, {}, {});
      }
    }

    /** `allocate_region_internal`: the first fit moves from the free to the reserved table. */
    method AllocateRegionInternal(size: nat, align: nat) returns (r: Option<nat>)
      requires Shaped() && align > 0 && Ascending(ReservedTable())
      requires regionSize < regions.Length && reservedRegionSize < reservedRegions.Length
      modifies this`regionSize, this`reservedRegionSize, regions, reservedRegions
      ensures Shaped()
      ensures match Take(old(View()), size, align)
        case None => r == None && FreeTable() == old(FreeTable()) && ReservedTable() == old(ReservedTable())
        case Some((block, free, reserved)) =>
          r == Some(block.address) && FreeTable() == free && ReservedTable() == reserved
    {
      hide Ascending, AlignUp, TakeOut, Insert;
      var i := 0;
      while i < regionSize
        invariant i <= regionSize
        invariant FirstFit(FreeTable()[i..], size, align) + i == FirstFit(FreeTable(), size, align)
      {
        assert FreeTable()[i..][0] == regions[i] && FreeTable()[i..][1..] == FreeTable()[i + 1..];
        var aligned := AlignUp(regions[i].address, align);
        if aligned + size <= regions[i].End() {
          regionSize := CarveAt(regions, regionSize, i, aligned, size);
          AddReservedAllocRecord(aligned, size);
          return Some(aligned);
        }
        i := i + 1;
      }
      r := None;
    }

    /** `add_reserved_alloc_record`. */
    method AddReservedAllocRecord(address: nat, size: nat)
      requires Shaped() && Ascending(ReservedTable()) && reservedRegionSize < reservedRegions.Length
      modifies this`reservedRegionSize, reservedRegions
      ensures Shaped() && FreeTable() == old(FreeTable())
      ensures ReservedTable() == Insert(old(ReservedTable()), Region(address, size))
    {
      hide Ascending, AddMerge;
      var _, x := BinarySearch(reservedRegions, reservedRegionSize, address);
      reservedRegionSize := AddAndMergeRegion(reservedRegions, reservedRegionSize, x, Region(address, size));
    }

    /** `add_free_region_merge`. */
    method AddFreeRegionMerge(address: nat, size: nat)
      requires Shaped() && Ascending(FreeTable()) && regionSize < regions.Length
      modifies this`regionSize, regions
      ensures Shaped() && ReservedTable() == old(ReservedTable())
      ensures FreeTable() == Insert(old(FreeTable()), Region(address, size))
    {
      hide Ascending, AddMerge;
      var _, x := BinarySearch(regions, regionSize, address);
      regionSize := AddAndMergeRegion(regions, regionSize, x, Region(address, size));
    }

    /** `overflow_wrapping`: both tables move into a block taken from the memory they
        describe. The doubled tables fill that block exactly, one behind the other. */
    method OverflowWrapping()
      requires Shaped() && Ascending(ReservedTable()) && Grow(View()).Some?
      requires regionSize < regions.Length && reservedRegionSize < reservedRegions.Length
      modifies this, regions, reservedRegions
      ensures Shaped() && Some(View()) == Grow(old(View())) && allocatable == old(allocatable)
      ensures fresh(regions) && fresh(reservedRegions)
      ensures Housed() && regionsAt.Some? && reservedAt.Some?
      ensures Region(regionsAt.value, StoreBytes(old(View()))) in stores && regionsAt.value % TABLE_ALIGN == 0
      ensures reservedAt.value == Slots(regionsAt.value, regions).End()
      ensures Slots(reservedAt.value, reservedRegions).End() == regionsAt.value + StoreBytes(old(View()))
    {
      hide Ascending, TakeOut, Insert, FirstFit;
      var allocateSize := (regions.Length + reservedRegions.Length) * 2 * REGION_BYTES;
      var newRegion := AllocateRegionInternal(allocateSize, TABLE_ALIGN);
      var newRegionsCapacity, newReservedCapacity := regions.Length * 2, reservedRegions.Length * 2;
      var newRegions := CopyTable(regions, regionSize, newRegionsCapacity);
      var newReserved := CopyTable(reservedRegions, reservedRegionSize, newReservedCapacity);
      regions, reservedRegions := newRegions, newReserved;
      regionsAt := newRegion;
      reservedAt := Some(newRegion.value + newRegionsCapacity * REGION_BYTES);
      stores := stores + {Region(newRegion.value, allocateSize)};
    }

    /** `ensure_overflow_headroom`. */
    method EnsureOverflowHeadroom()
      requires Valid() && allocatable && EnsureHeadroomFits()
      modifies this, regions, reservedRegions
      ensures Valid() && allocatable && Some(View()) == EnsureHeadroom(old(View())) && !Crowded(View())
      ensures regions == old(regions) <==>
        old(regionSize) + 10 <= old(regions.Length) && old(reservedRegionSize) + 10 <= old(reservedRegions.Length)
      ensures regions == old(regions) || fresh(regions)
      ensures reservedRegions == old(reservedRegions) || fresh(reservedRegions)
    {
      hide Inv, Ascending;
      InvFacts(View());
      HeadroomInv(View());
      if regionSize + HEADROOM > regions.Length || reservedRegionSize + HEADROOM > reservedRegions.Length {
        OverflowWrapping();
      }
    }

    /** Growing the tables, if it is due, finds memory: the program panics otherwise. */
    ghost predicate EnsureHeadroomFits()
      requires Valid() && allocatable
      reads this, regions, reservedRegions
    {
      InvFacts(View());
      EnsureHeadroom(View()).Some?
    }

    /** A call that does not panic has what growing the tables takes. */
    lemma Growing(size: nat, align: nat)
      requires Valid() && allocatable && align > 0 && !Alloc(View(), size, align).Panic?
      ensures EnsureHeadroomFits()
    {
    }

    lemma Returning(r: Region)
      requires Valid() && allocatable && r in live && Dealloc(View(), r).Some?
      ensures EnsureHeadroomFits()
    {
    }

    /** `allocate_region`: nothing before finalization. A request for 0 bytes is carried out
        like any other, but only nonempty blocks keep the tables gapped. */
    method AllocateRegion(size: nat, align: nat) returns (r: Option<nat>)
      requires Valid() && align > 0
      requires allocatable ==> EnsureHeadroomFits()
      modifies this, regions, reservedRegions
      ensures Shaped() && allocatable == old(allocatable)
      ensures Housed() && (size > 0 || !allocatable ==> Valid())
      ensures !allocatable ==> r == None && View() == old(View())
      ensures allocatable ==> match r
        case None => Alloc(old(View()), size, align) == Failed(View())
        case Some(a) => Alloc(old(View()), size, align) == Ok(View(), a)
      ensures regions == old(regions) || fresh(regions)
      ensures reservedRegions == old(reservedRegions) || fresh(reservedRegions)
    {
      hide Inv, Ascending, Take, EnsureHeadroom;
      if !allocatable {
        return None;
      }
      InvFacts(View());
      if size > 0 {
        AllocInv(View(), size, align);
      }
      EnsureOverflowHeadroom();
      InvFacts(View());
      r := AllocateRegionInternal(size, align);
      if r.Some? {
        live := live + {Region(r.value, size)};
      }
      TakeShape(old(View()), size, align);
    }

    /** `deallocate_region` of a live block: nothing before finalization or for size 0. */
    method DeallocateRegion(ptr: nat, size: nat)
      requires Valid()
      requires allocatable && size > 0 ==> Region(ptr, size) in live && EnsureHeadroomFits()
      modifies this, regions, reservedRegions
      ensures Valid() && allocatable == old(allocatable)
      ensures !allocatable || size == 0 ==> View() == old(View())
      ensures allocatable && size > 0 ==> Some(View()) == Dealloc(old(View()), Region(ptr, size))
      ensures regions == old(regions) || fresh(regions)
      ensures reservedRegions == old(reservedRegions) || fresh(reservedRegions)
    {
      hide Inv, Ascending, EnsureHeadroom, Insert, Remove, Dealloc, Housed;
      if !allocatable || size == 0 {
        return;
      }
      DeallocInv(View(), Region(ptr, size));
      DeallocSteps(View(), Region(ptr, size));
      EnsureOverflowHeadroom();
      InvGapped(View());
      reservedRegionSize := RemoveRecord(reservedRegions, reservedRegionSize, ptr, size);
      AddFreeRegionMerge(ptr, size);
      live := live - {Region(ptr, size)};
    }

    /** `trim_for_boot`, for any reserve; a reserve of 0 bytes leaves no usable table behind. */
    method TrimForBoot(reserveBytes: nat) returns (r: TrimResult)
      requires Valid()
      requires allocatable ==> EnsureHeadroomFits()
      modifies this, regions, reservedRegions
      ensures Shaped() && allocatable == old(allocatable)
      ensures Housed() && (reserveBytes > 0 || !r.Listed? ==> Valid())
      ensures r == NotAllocatable <==> !allocatable
      ensures !allocatable ==> View() == old(View())
      ensures allocatable ==> match r
        case NotAllocatable => false
        case AllocationFailed => Trim(old(View()), reserveBytes) == NoMemory(View())
        case Listed(list) =>
          && Trim(old(View()), reserveBytes).Ranges? && Trim(old(View()), reserveBytes).state == View()
          && Lists(list, Trim(old(View()), reserveBytes).ranges)
    {
      hide Inv, Ascending, EnsureHeadroom, Insert, Remove, Take;
      if !allocatable {
        return NotAllocatable;
      }
      InvFacts(View());
      TrimExact(View(), reserveBytes);
      HeadroomInv(View());
      EnsureOverflowHeadroom();
      InvFacts(View());
      TakeAscending(View(), reserveBytes);
      var allocate := AllocateRegionInternal(reserveBytes, 1);
      if allocate.None? {
        return AllocationFailed;
      }
      allocatable := false;
      var list := ListRegions(reservedRegions, reservedRegionSize);
      KeepOnly(allocate.value, reserveBytes);
      r := Listed(list);
    }

    /** The end of `trim_for_boot`: an empty table of the initial size takes up one range,
        which is struck off the reserved table. */
    method KeepOnly(address: nat, size: nat)
      requires Shaped() && Ascending(ReservedTable()) && reservedRegionSize < reservedRegions.Length
      modifies this, reservedRegions
      ensures old(Housed()) ==> Housed()
      ensures Shaped() && allocatable && live == old(live) && stores == old(stores)
      ensures fresh(regions) && reservedRegions == old(reservedRegions)
      ensures regions.Length == STATIC_CAPACITY && Ascending([])
      ensures FreeTable() == Insert([], Region(address, size))
      ensures ReservedTable() == Remove(old(ReservedTable()), address, size)
    {
      hide Ascending, Insert, Remove;
      AscendingNone();
      regions := new Region[STATIC_CAPACITY](_ => Region(0, 0));
      regionSize := 0;
      regionsAt := None;
      allocatable := true;
      reservedRegionSize := RemoveRecord(reservedRegions, reservedRegionSize, address, size);
      AddFreeRegionMerge(address, size);
    }
  }

  /** The memory that a table in it takes up. */
  function Slots(at: nat, a: array<Region>): Region {
    Region(at, a.Length * REGION_BYTES)
  }

  /** The address and the size of each entry, in order. */
  ghost predicate Lists(list: seq<(nat, nat)>, t: Table) {
    |list| == |t| && forall i :: 0 <= i < |t| ==> list[i].0 == t[i].address && list[i].1 == t[i].size
  }

  /** The loop of `trim_for_boot` that fills the returned vector. */
  method ListRegions(a: array<Region>, n: nat) returns (list: seq<(nat, nat)>)
    requires n <= a.Length
    ensures Lists(list, a[..n])
  {
    list := [];
    for i := 0 to n
      invariant Lists(list, a[..i])
    {
      assert a[..i + 1] == a[..i] + [a[i]];
      list := list + [(a[i].address, a[i].size)];
    }
  }

  lemma AscendingNone()
    ensures Ascending([])
  {
  }

  /** The block that is taken has the size that was asked for. */
  lemma TakeShape(s: State, size: nat, align: nat)
    requires Inv(s) && align > 0 && Ascending(s.reserved) && EnsureHeadroom(s).Some?
    ensures Ascending(EnsureHeadroom(s).value.reserved)
    ensures var taken := Take(EnsureHeadroom(s).value, size, align);
      taken.Some? ==> taken.value.0.size == size
  {
    HeadroomInv(s);
    InvFacts(EnsureHeadroom(s).value);
  }

  method CopyTable(a: array<Region>, n: nat, capacity: nat) returns (b: array<Region>)
    requires n <= a.Length && n <= capacity
    ensures fresh(b) && b.Length == capacity && b[..n] == a[..n]
  {
    b := new Region[capacity](_ => Region(0, 0));
    forall i | 0 <= i < n {
      b[i] := a[i];
    }
  }}
