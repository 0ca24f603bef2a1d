/** The range allocator after finalization as a transition system: free and reserved
    tables, their capacities, the blocks callers hold, and the blocks that hold the
    tables themselves once they have outgrown their static storage. */
module RangeModel {
  import opened Arithmetic
  import opened Regions
  import opened RangeSearch
  import opened Options

  /** Slots in the static tables, bytes in one slot, slots that must be spare before a
      table operation, and the alignment of relocated tables. */
  const STATIC_CAPACITY: nat := 128
  const REGION_BYTES: nat := 16
  const HEADROOM: nat := 10
  const TABLE_ALIGN: nat := 4096

  datatype State = State(free: Table, reserved: Table, freeCap: nat, reservedCap: nat,
                         live: set<Region>, stores: set<Region>)

  ghost predicate Held(blocks: set<Region>, b: int) {
    exists r :: r in blocks && In(r, b)
  }

  predicate Apart(x: Region, y: Region) {
    x.End() <= y.address || y.End() <= x.address
  }

  ghost predicate AllApart(blocks: set<Region>) {
    && (forall x :: x in blocks ==> x.size > 0)
    && (forall x, y :: x in blocks && y in blocks && x != y ==> Apart(x, y))
  }

  /** Both tables are sorted and strictly gapped and have a spare slot; no byte is in
      both; and the reserved bytes are exactly those of live blocks and table storage. */
  ghost predicate Inv(s: State) {
    && Gapped(s.free) && Gapped(s.reserved)
    && (forall b :: !(Covers(s.free, b) && Covers(s.reserved, b)))
    && |s.free| < s.freeCap && |s.reserved| < s.reservedCap
    && s.freeCap >= STATIC_CAPACITY && s.reservedCap >= STATIC_CAPACITY
    && s.live !! s.stores && AllApart(s.live + s.stores)
    && (forall b :: Covers(s.reserved, b) <==> Held(s.live + s.stores, b))
  }

  /** A byte of the memory under management. */
  ghost predicate Managed(s: State, b: int) {
    Covers(s.free, b) || Covers(s.reserved, b)
  }

  /** A finalization that succeeds and leaves a spare slot starts a run: the managed
      bytes are the available ones that are not reserved. */
  lemma FinalizedInv(available: Table, reserved: Table, capacity: nat, reservedCapacity: nat)
    requires Gapped(available) && Gapped(reserved)
    requires capacity >= STATIC_CAPACITY && reservedCapacity >= STATIC_CAPACITY
    requires Subtract(available, 0, reserved, capacity).Done?
    requires |Subtract(available, 0, reserved, capacity).left| < capacity
    ensures var s := State(Subtract(available, 0, reserved, capacity).left, [], capacity, reservedCapacity, {}, {});
      Inv(s) && forall b :: Managed(s, b) <==> Covers(available, b) && !Covers(reserved, b)
  {
    FinalizeExact(available, reserved, capacity);
  }

  // ----- table edits

  /** `add_and_merge_region` at the place the binary search gives. */
  function Insert(t: Table, r: Region): Table
    requires Ascending(t)
  {
    AddMerge(t, LowerBound(t, r.address), r)
  }

  /** Inserting a range disjoint from the table keeps it gapped. */
  lemma InsertExact(t: Table, r: Region)
    requires Gapped(t) && r.size > 0
    requires forall b :: In(r, b) ==> !Covers(t, b)
    ensures Ascending(t) && Gapped(Insert(t, r))
    ensures forall b :: Covers(Insert(t, r), b) <==> Covers(t, b) || In(r, b)
    ensures |Insert(t, r)| <= |t| + 1
  {
    GappedAscending(t);
    var x := LowerBound(t, r.address);
    if x < |t| {
      assert In(t[x], t[x].address) && Covers(t, t[x].address);
      assert r.End() <= t[x].address;
    }
    AddMergeGaps(t, x, r);
    AddMergeCovers(t, x, r);
  }

  /** `remove_reserved_alloc_record`. */
  function Remove(t: Table, address: nat, size: nat): Table {
    var k := LowerBound(t, address);
    if size == 0 then t
    else if Found(t, address) then
      if size < t[k].size then t[k := Region(address + size, t[k].size - size)] else t[..k] + t[k + 1..]
    else if k > 0 && Inside(Region(address, size), t[k - 1]) then TakeOut(t, k - 1, Region(address, size))
    else t
  }

  /** Removing a range that is wholly recorded removes exactly its bytes. */
  lemma RemoveExact(t: Table, r: Region)
    requires Gapped(t) && r.size > 0
    requires forall b :: In(r, b) ==> Covers(t, b)
    ensures Gapped(Remove(t, r.address, r.size))
    ensures forall b :: Covers(Remove(t, r.address, r.size), b) <==> Covers(t, b) && !In(r, b)
    ensures |Remove(t, r.address, r.size)| <= |t| + 1
  {
    var i := RunInOneRegion(t, r.address, r.size);
    TakeOutExact(t, i, r);
    var k := if t[i].address == r.address then i else i + 1;
    GappedAscending(t);
    assert i + 1 < |t| ==> t[i].End() < t[i + 1].address;
    LowerBoundUnique(t, r.address, k);
    assert Remove(t, r.address, r.size) == TakeOut(t, i, r);
  }

  /** A range that is not wholly recorded: one that starts where an entry does but reaches past it
      takes the entry with it, any other changes nothing. */
  lemma RemoveLoose(t: Table, address: nat, size: nat)
    requires Gapped(t)
    ensures size == 0 ==> Remove(t, address, size) == t
    ensures forall i :: 0 <= i < |t| && t[i].address == address && t[i].size < size ==>
      forall b :: Covers(Remove(t, address, size), b) <==> Covers(t, b) && !In(t[i], b)
    ensures (forall i :: 0 <= i < |t| ==> t[i].address != address && !Inside(Region(address, size), t[i])) ==>
      Remove(t, address, size) == t
  {
    hide Covers;
    var k := LowerBound(t, address);
    GappedAscending(t);
    forall i | 0 <= i < |t| && t[i].address == address && t[i].size < size
      ensures forall b :: Covers(Remove(t, address, size), b) <==> Covers(t, b) && !In(t[i], b)
    {
      LowerBoundUnique(t, address, i);
      TakeOutExact(t, i, t[i]);
      assert Cut(t[i], t[i]) == [];
      assert TakeOut(t, i, t[i]) == t[..i] + t[i + 1..];
    }
  }

  // ----- allocate_region_internal

  /** The first fit moved from free to reserved; None if there is none. */
  function Take(s: State, size: nat, align: nat): Option<(Region, Table, Table)>
    requires align > 0 && Ascending(s.reserved)
  {
    var i := FirstFit(s.free, size, align);
    if i == |s.free| then None else
      var r := Region(AlignUp(s.free[i].address, align), size);
      Some((r, TakeOut(s.free, i, r), Insert(s.reserved, r)))
  }

  lemma TakeExact(s: State, size: nat, align: nat)
    requires Inv(s) && size > 0 && align > 0
    ensures Ascending(s.reserved)
    ensures match Take(s, size, align)
      case None => forall a :: !FitsAt(s.free, a, size, align)
      case Some((r, free, reserved)) =>
        && r.size == size && r.address % align == 0
        && (forall a :: FitsAt(s.free, a, size, align) ==> r.address <= a)
        && (forall b :: In(r, b) ==> Covers(s.free, b))
        && Gapped(free) && Gapped(reserved)
        && |free| <= |s.free| + 1 && |reserved| <= |s.reserved| + 1
        && (forall b :: Covers(free, b) <==> Covers(s.free, b) && !In(r, b))
        && (forall b :: Covers(reserved, b) <==> Covers(s.reserved, b) || In(r, b))
  {
    GappedAscending(s.reserved);
    var i := FirstFit(s.free, size, align);
    FirstFitLowest(s.free, size, align);
    if i < |s.free| {
      var r := Region(AlignUp(s.free[i].address, align), size);
      TakeOutExact(s.free, i, r);
      InsertExact(s.reserved, r);
    }
  }

  // ----- requests for 0 bytes

  /** Recording an empty range keeps the gaps exactly if it touches a neighbour, which then
      absorbs it. */
  lemma ZeroInsert(t: Table, a: nat)
    requires Gapped(t)
    ensures Ascending(t)
    ensures var x, r := LowerBound(t, a), Region(a, 0);
      Gapped(Insert(t, r)) <==> TouchesBefore(t, x, r) || TouchesAfter(t, x, r)
  {
    hide Splice, HullEnd;
    GappedAscending(t);
    var x, r := LowerBound(t, a), Region(a, 0);
    if TouchesBefore(t, x, r) || TouchesAfter(t, x, r) {
      var lo, hi := if TouchesBefore(t, x, r) then x - 1 else x, if TouchesAfter(t, x, r) then x + 1 else x;
      SpliceGaps(t, lo, hi, Hull(t, lo, hi, r));
    } else {
      SpliceAt(t, x, x, r);
      HullNone(t, x, r);
    }
  }

  lemma HullNone(t: Table, x: nat, r: Region)
    requires x <= |t| && Ascending(t)
    ensures Hull(t, x, x, r) == r
  {
  }

  lemma SpliceAt(t: Table, lo: nat, hi: nat, h: Region)
    requires lo <= hi <= |t|
    ensures |Splice(t, lo, hi, [h])| > lo && Splice(t, lo, hi, [h])[lo] == h
  {
  }

  /** Taking an empty range out of an entry keeps the gaps exactly at its ends: between them
      the entry falls into two that touch. */
  lemma ZeroTakeOut(t: Table, i: nat, a: nat)
    requires Gapped(t) && i < |t| && t[i].address <= a <= t[i].End()
    ensures Gapped(TakeOut(t, i, Region(a, 0))) <==> a == t[i].address || a == t[i].End()
  {
    var r, s := Region(a, 0), TakeOut(t, i, Region(a, 0));
    CutNothing(t[i], a);
    if a == t[i].address || a == t[i].End() {
      assert s == t;
    } else {
      assert s[i] == Cut(t[i], r)[0] && s[i + 1] == Cut(t[i], r)[1];
      Touching(s, i);
    }
  }

  lemma CutNothing(x: Region, a: nat)
    requires x.size > 0 && x.address <= a <= x.End()
    ensures var c := Cut(x, Region(a, 0));
      if a == x.address || a == x.End() then c == [x] else |c| == 2 && c[0].End() == c[1].address
  {
  }

  lemma Touching(t: Table, i: nat)
    requires i + 1 < |t| && t[i].End() == t[i + 1].address
    ensures !Gapped(t)
  {
  }

  /** A request for 0 bytes leaves both tables gapped exactly when its place is at an end of
      its free entry and touches a reserved one. */
  lemma ZeroTake(s: State, align: nat)
    requires Inv(s) && align > 0
    ensures Ascending(s.reserved)
    ensures match Take(s, 0, align)
      case None => true
      case Some((r, free, reserved)) =>
        var i, x := FirstFit(s.free, 0, align), LowerBound(s.reserved, r.address);
        Gapped(free) && Gapped(reserved) <==>
          && (r.address == s.free[i].address || r.address == s.free[i].End())
          && (TouchesBefore(s.reserved, x, r) || TouchesAfter(s.reserved, x, r))
  {
    var i := FirstFit(s.free, 0, align);
    InvFacts(s);
    if i < |s.free| {
      var a := AlignUp(s.free[i].address, align);
      hide Insert, TakeOut, Gapped;
      ZeroTakeOut(s.free, i, a);
      ZeroInsert(s.reserved, a);
    }
  }

  /** A state in which a request for 0 bytes changes neither table. */
  lemma ZeroHarmless()
    ensures var held := Region(0, 100);
      var s := State([Region(100, 100)], [held], 128, 128, {held}, {});
      Inv(s) && Ascending(s.reserved) && Take(s, 0, 1) == Some((Region(100, 0), s.free, s.reserved))
  {
    hide Take, Insert, TakeOut;
    var free, held := [Region(100, 100)], Region(0, 100);
    CoversOne(held);
    CoversOne(free[0]);
    assert forall b :: Held({held}, b) <==> In(held, b);
    TakeAtFirst(State(free, [held], 128, 128, {held}, {}));
    assert LowerBound([held], 100) == 1;
    AbsorbedBefore(held, 100);
  }

  /** A state in which it leaves an empty entry in the reserved table. */
  lemma ZeroHarmful()
    ensures var s := State([Region(100, 100)], [], 128, 128, {}, {});
      Inv(s) && Ascending(s.reserved) && Take(s, 0, 1) == Some((Region(100, 0), s.free, [Region(100, 0)]))
      && !Gapped([Region(100, 0)])
  {
    hide Take, TakeOut;
    var free, r := [Region(100, 100)], Region(100, 0);
    CoversOne(free[0]);
    TakeAtFirst(State(free, [], 128, 128, {}, {}));
    assert Insert([], r) == [r];
    assert [r][0].size == 0;
  }

  lemma TakeAtFirst(s: State)
    requires s.free == [Region(100, 100)] && Ascending(s.reserved)
    ensures Take(s, 0, 1) == Some((Region(100, 0), s.free, Insert(s.reserved, Region(100, 0))))
  {
    hide Insert;
    CutNothing(s.free[0], 100);
    assert TakeOut(s.free, 0, Region(100, 0)) == s.free;
  }

  lemma AbsorbedBefore(x: Region, a: nat)
    requires x.size > 0 && a == x.End()
    ensures Ascending([x]) && Insert([x], Region(a, 0)) == [x]
  {
    assert LowerBound([x], a) == 1;
    assert HullEnd([x], 1, 1, a) == a;
    assert Hull([x], 0, 1, Region(a, 0)) == x;
  }

  /** Moving a range from free to reserved and recording who holds it keeps the invariant. */
  lemma MoveInv(s: State, t: State, r: Region)
    requires Inv(s) && r.size > 0
    requires forall b :: In(r, b) ==> Covers(s.free, b)
    requires Gapped(t.free) && Gapped(t.reserved)
    requires |t.free| < t.freeCap && |t.reserved| < t.reservedCap
    requires t.freeCap >= STATIC_CAPACITY && t.reservedCap >= STATIC_CAPACITY
    requires forall b :: Covers(t.free, b) <==> Covers(s.free, b) && !In(r, b)
    requires forall b :: Covers(t.reserved, b) <==> Covers(s.reserved, b) || In(r, b)
    requires t.live !! t.stores && t.live + t.stores == s.live + s.stores + {r}
    ensures Inv(t) && r !in s.live + s.stores
    ensures forall b :: Managed(t, b) <==> Managed(s, b)
  {
    var held := s.live + s.stores;
    HeldAdd(held, r);
    forall x | x in held ensures Apart(x, r) && x != r {
      var b := Max(x.address, r.address);
      assert In(x, b) ==> Held(held, b);
      assert !(In(x, b) && In(r, b));
      assert In(r, r.address) && Covers(s.free, r.address);
      assert x == r ==> Held(held, r.address);
    }
  }

  lemma HeldAdd(blocks: set<Region>, r: Region)
    ensures forall b :: Held(blocks + {r}, b) <==> Held(blocks, b) || In(r, b)
  {
  }

  // ----- overflow_wrapping and ensure_overflow_headroom

  predicate Crowded(s: State) {
    |s.free| + HEADROOM > s.freeCap || |s.reserved| + HEADROOM > s.reservedCap
  }

  /** Bytes for both tables at twice their capacity. */
  function StoreBytes(s: State): nat {
    (s.freeCap + s.reservedCap) * 2 * REGION_BYTES
  }

  /** Both tables move into one freshly allocated block; None stands for the panic when
      no memory is found. */
  function Grow(s: State): Option<State>
    requires Ascending(s.reserved)
  {
    match Take(s, StoreBytes(s), TABLE_ALIGN)
    case None => None
    case Some((r, free, reserved)) =>
      Some(State(free, reserved, s.freeCap * 2, s.reservedCap * 2, s.live, s.stores + {r}))
  }

  function EnsureHeadroom(s: State): Option<State>
    requires Ascending(s.reserved)
  {
    if Crowded(s) then Grow(s) else Some(s)
  }

  lemma GrowInv(s: State)
    requires Inv(s)
    ensures Ascending(s.reserved)
    ensures Grow(s).Some? ==>
      var t := Grow(s).value;
      && Inv(t) && !Crowded(t) && t.live == s.live && s.stores <= t.stores
      && (forall b :: Managed(t, b) <==> Managed(s, b))
  {
    hide Inv;
    InvFacts(s);
    TakeExact(s, StoreBytes(s), TABLE_ALIGN);
    match Take(s, StoreBytes(s), TABLE_ALIGN)
    case None =>
    case Some((r, free, reserved)) =>
      var t := Grow(s).value;
      assert t.live + t.stores == s.live + s.stores + {r};
      assert r !in s.live by { NotHeld(s, r); }
      MoveInv(s, t, r);
  }

  lemma InvFacts(s: State)
    requires Inv(s)
    ensures Ascending(s.reserved) && |s.free| < s.freeCap && |s.reserved| < s.reservedCap
    ensures s.freeCap >= STATIC_CAPACITY && s.reservedCap >= STATIC_CAPACITY
    ensures s.live !! s.stores
  {
  }

  lemma NotHeld(s: State, r: Region)
    requires Inv(s) && r.size > 0
    requires forall b :: In(r, b) ==> Covers(s.free, b)
    ensures r !in s.live + s.stores
  {
    assert In(r, r.address) && Covers(s.free, r.address);
    assert r in s.live + s.stores ==> Held(s.live + s.stores, r.address);
  }

  lemma HeadroomInv(s: State)
    requires Inv(s)
    ensures Ascending(s.reserved)
    ensures EnsureHeadroom(s).Some? ==>
      var t := EnsureHeadroom(s).value;
      && Inv(t) && !Crowded(t) && t.live == s.live && s.stores <= t.stores
      && (forall b :: Managed(t, b) <==> Managed(s, b))
  {
    hide Inv, Managed;
    InvFacts(s);
    GrowInv(s);
  }

  /** With ten spare slots in both tables nothing happens. Otherwise both tables double, into the
      lowest page-aligned place for all their slots of sixteen bytes, which is then no longer
      free; it panics exactly when there is no such place. */
  lemma HeadroomExact(s: State)
    requires Inv(s)
    ensures Ascending(s.reserved)
    ensures var h, bytes := EnsureHeadroom(s), 2 * 16 * (s.freeCap + s.reservedCap);
      if |s.free| + 10 <= s.freeCap && |s.reserved| + 10 <= s.reservedCap then h == Some(s)
      else
        && (h.None? <==> forall a :: !FitsAt(s.free, a, bytes, 4096))
        && (h.Some? ==>
              && h.value.freeCap == 2 * s.freeCap && h.value.reservedCap == 2 * s.reservedCap
              && h.value.live == s.live && exists a :: GrownTo(s, h.value, a, bytes))
  {
    hide Inv, FitsAt;
    InvFacts(s);
    TakeExact(s, StoreBytes(s), TABLE_ALIGN);
    if Crowded(s) {
      match Take(s, StoreBytes(s), TABLE_ALIGN)
      case None =>
      case Some((r, free, reserved)) =>
        FitsFrom(s.free, r.address, r.size, TABLE_ALIGN);
        assert GrownTo(s, Grow(s).value, r.address, StoreBytes(s));
    }
  }

  /** The tables have moved to the lowest place for them. */
  ghost predicate GrownTo(s: State, t: State, a: nat, bytes: nat) {
    && FitsAt(s.free, a, bytes, 4096) && (forall c :: FitsAt(s.free, c, bytes, 4096) ==> a <= c)
    && t.stores == s.stores + {Region(a, bytes)}
    && (forall b :: Covers(t.free, b) <==> Covers(s.free, b) && !In(Region(a, bytes), b))
    && (forall b :: Covers(t.reserved, b) <==> Covers(s.reserved, b) || In(Region(a, bytes), b))
  }

  // ----- allocate_region and deallocate_region

  datatype Outcome = Panic | Failed(state: State) | Ok(state: State, addr: nat)

  function Alloc(s: State, size: nat, align: nat): Outcome
    requires align > 0 && Inv(s)
  {
    InvFacts(s);
    match EnsureHeadroom(s)
    case None => Panic
    case Some(t) =>
      HeadroomInv(s);
      InvFacts(t);
      match Take(t, size, align)
      case None => Failed(t)
      case Some((r, free, reserved)) =>
        Ok(t.(free := free, reserved := reserved, live := t.live + {r}), r.address)
  }

  lemma AllocInv(s: State, size: nat, align: nat)
    requires Inv(s) && align > 0 && size > 0
    ensures match Alloc(s, size, align)
      case Panic => Crowded(s) && forall a :: !FitsAt(s.free, a, StoreBytes(s), TABLE_ALIGN)
      case Failed(t) =>
        && Inv(t) && (forall b :: Managed(t, b) <==> Managed(s, b)) && t.live == s.live && s.stores <= t.stores
        && forall a :: !FitsAt(t.free, a, size, align)
      case Ok(t, a) =>
        && Inv(t) && (forall b :: Managed(t, b) <==> Managed(s, b))
        && a % align == 0 && Region(a, size) !in s.live + s.stores
        && t.live == s.live + {Region(a, size)} && s.stores <= t.stores
        && (forall b :: In(Region(a, size), b) ==> Covers(s.free, b))
  {
    hide Inv, FitsAt;
    InvFacts(s);
    HeadroomInv(s);
    match EnsureHeadroom(s)
    case None => TakeExact(s, StoreBytes(s), TABLE_ALIGN);
    case Some(h) =>
      InvFacts(h);
      TakeExact(h, size, align);
      match Take(h, size, align)
      case None =>
      case Some((r, free, reserved)) =>
        NotHeld(h, r);
        var t := h.(free := free, reserved := reserved, live := h.live + {r});
        assert t.live + t.stores == h.live + h.stores + {r};
        MoveInv(h, t, r);
        HeadroomFree(s, r);
  }

  /** Once there is headroom, the answer is the lowest aligned place that is free, and it fails
      exactly when there is none; the place is no longer free and nothing else changes. */
  lemma AllocLowest(s: State, size: nat, align: nat)
    requires Inv(s) && align > 0 && size > 0
    ensures Ascending(s.reserved)
    ensures var h := EnsureHeadroom(s);
      match Alloc(s, size, align)
      case Panic => h.None?
      case Failed(t) => h == Some(t) && forall c :: !FitsAt(t.free, c, size, align)
      case Ok(t, a) =>
        && h.Some? && FitsAt(h.value.free, a, size, align)
        && (forall c :: FitsAt(h.value.free, c, size, align) ==> a <= c)
        && (forall b :: Covers(t.free, b) <==> Covers(h.value.free, b) && !In(Region(a, size), b))
        && (forall b :: Covers(t.reserved, b) <==> Covers(h.value.reserved, b) || In(Region(a, size), b))
        && t.freeCap == h.value.freeCap && t.reservedCap == h.value.reservedCap && t.stores == h.value.stores
  {
    hide Inv, FitsAt, EnsureHeadroom;
    InvFacts(s);
    HeadroomInv(s);
    match EnsureHeadroom(s)
    case None =>
    case Some(h) =>
      InvFacts(h);
      TakeExact(h, size, align);
      match Take(h, size, align)
      case None =>
      case Some((r, free, reserved)) => FitsFrom(h.free, r.address, r.size, align);
  }

  /** Address 0 is handed out exactly when all bytes asked for are free from 0 on, once there is
      headroom: it is always the lowest aligned address. */
  lemma ZeroExact(s: State, size: nat, align: nat)
    requires Inv(s) && size > 0 && align > 0
    ensures Alloc(s, size, align).Ok? && Alloc(s, size, align).addr == 0 <==>
      Ascending(s.reserved) && EnsureHeadroom(s).Some? && FitsAt(EnsureHeadroom(s).value.free, 0, size, align)
    ensures Alloc(s, size, align).Ok? && Alloc(s, size, align).addr == 0 ==> Managed(s, 0)
  {
    hide Inv, FitsAt;
    InvFacts(s);
    HeadroomInv(s);
    AllocInv(s, size, align);
    match EnsureHeadroom(s)
    case None =>
    case Some(h) =>
      InvFacts(h);
      TakeExact(h, size, align);
      FitsFrom(h.free, 0, size, align);
      if Alloc(s, size, align).Ok? {
        StartInside(Alloc(s, size, align).addr, size);
      }
  }

  lemma FitsFrom(t: Table, a: nat, size: nat, align: nat)
    requires align > 0
    ensures FitsAt(t, a, size, align) <==> a % align == 0 && forall b :: In(Region(a, size), b) ==> Covers(t, b)
  {
  }

  lemma StartInside(a: nat, size: nat)
    ensures size > 0 ==> In(Region(a, size), a)
  {
  }

  /** With headroom, some request is answered with address 0 exactly when byte 0 is free. */
  lemma ZeroPossible(s: State)
    requires Inv(s) && !Crowded(s)
    ensures (exists size: nat, align: nat ::
               size > 0 && align > 0 && Alloc(s, size, align).Ok? && Alloc(s, size, align).addr == 0)
        <==> Covers(s.free, 0)
  {
    hide Inv, Alloc;
    forall size: nat, align: nat | size > 0 && align > 0 && Alloc(s, size, align).Ok? && Alloc(s, size, align).addr == 0
      ensures Covers(s.free, 0)
    {
      ZeroExact(s, size, align);
    }
    if Covers(s.free, 0) {
      InvFacts(s);
      ZeroExact(s, 1, 1);
    }
  }

  /** What headroom leaves free was free before. */
  lemma HeadroomFree(s: State, r: Region)
    requires Inv(s) && r.size > 0
    requires Ascending(s.reserved) && EnsureHeadroom(s).Some?
    requires forall b :: In(r, b) ==> Covers(EnsureHeadroom(s).value.free, b)
    ensures forall b :: In(r, b) ==> Covers(s.free, b)
  {
    hide Inv;
    if Crowded(s) {
      InvFacts(s);
      TakeExact(s, StoreBytes(s), TABLE_ALIGN);
    }
  }

  /** Giving back a live block; None stands for the panic in table growth. */
  function Dealloc(s: State, r: Region): Option<State>
    requires Inv(s) && r in s.live
  {
    InvFacts(s);
    match EnsureHeadroom(s)
    case None => None
    case Some(t) =>
      HeadroomInv(s);
      InvGapped(t);
      Some(t.(free := Insert(t.free, r), reserved := Remove(t.reserved, r.address, r.size), live := t.live - {r}))
  }

  lemma InvGapped(s: State)
    requires Inv(s)
    ensures Ascending(s.free) && Ascending(s.reserved) && Gapped(s.free) && Gapped(s.reserved)
  {
  }

  lemma DeallocInv(s: State, r: Region)
    requires Inv(s) && r in s.live
    ensures Dealloc(s, r).Some? ==>
      var t := Dealloc(s, r).value;
      && Inv(t) && (forall b :: Managed(t, b) <==> Managed(s, b)) && t.live == s.live - {r} && s.stores <= t.stores
  {
    hide Inv;
    InvFacts(s);
    HeadroomInv(s);
    match EnsureHeadroom(s)
    case None =>
    case Some(h) => ReturnInv(h, r);
  }

  /** What `deallocate_region` does behind the headroom. */
  lemma DeallocSteps(s: State, r: Region)
    requires Inv(s) && r in s.live
    ensures Ascending(s.reserved)
    ensures match EnsureHeadroom(s)
      case None => Dealloc(s, r).None?
      case Some(h) =>
        && Ascending(h.free)
        && Dealloc(s, r) == Some(h.(free := Insert(h.free, r), reserved := Remove(h.reserved, r.address, r.size),
                                    live := h.live - {r}))
  {
    hide Inv, EnsureHeadroom, Insert, Remove;
    InvFacts(s);
    HeadroomInv(s);
    if EnsureHeadroom(s).Some? {
      InvGapped(EnsureHeadroom(s).value);
    }
  }

  /** Once there is headroom, exactly the bytes of the block are free again and no longer
      reserved; it panics exactly when there can be no headroom. */
  lemma DeallocExact(s: State, r: Region)
    requires Inv(s) && r in s.live
    ensures Ascending(s.reserved) && (Dealloc(s, r).None? <==> EnsureHeadroom(s).None?)
    ensures Dealloc(s, r).Some? ==>
      var t, h := Dealloc(s, r).value, EnsureHeadroom(s).value;
      && (forall b :: Covers(t.free, b) <==> Covers(h.free, b) || In(r, b))
      && (forall b :: Covers(t.reserved, b) <==> Covers(h.reserved, b) && !In(r, b))
      && t.freeCap == h.freeCap && t.reservedCap == h.reservedCap && t.stores == h.stores
  {
    hide Inv, EnsureHeadroom;
    InvFacts(s);
    HeadroomInv(s);
    match EnsureHeadroom(s)
    case None =>
    case Some(h) =>
      LiveReserved(h, r);
      InsertExact(h.free, r);
      RemoveExact(h.reserved, r);
  }

  lemma LiveReserved(s: State, r: Region)
    requires Inv(s) && r in s.live
    ensures r.size > 0 && Gapped(s.free) && Gapped(s.reserved)
    ensures forall b :: In(r, b) ==> Covers(s.reserved, b) && !Covers(s.free, b)
  {
    assert r in s.live + s.stores;
    forall b | In(r, b) ensures Covers(s.reserved, b) && !Covers(s.free, b) {
      assert Held(s.live + s.stores, b);
    }
  }

  lemma ReturnInv(h: State, r: Region)
    requires Inv(h) && !Crowded(h) && r in h.live
    ensures Ascending(h.free)
    ensures var t := h.(free := Insert(h.free, r), reserved := Remove(h.reserved, r.address, r.size),
                        live := h.live - {r});
      Inv(t) && forall b :: Managed(t, b) <==> Managed(h, b)
  {
    var held := h.live + h.stores;
    assert r in held;
    forall b | In(r, b) ensures Covers(h.reserved, b) && !Covers(h.free, b) {
      assert Held(held, b);
    }
    InsertExact(h.free, r);
    RemoveExact(h.reserved, r);
    var t := h.(free := Insert(h.free, r), reserved := Remove(h.reserved, r.address, r.size), live := h.live - {r});
    assert t.live + t.stores == held - {r};
    HeldRemove(held, r);
  }

  lemma HeldRemove(blocks: set<Region>, r: Region)
    requires AllApart(blocks) && r in blocks
    ensures AllApart(blocks - {r})
    ensures forall b :: Held(blocks - {r}, b) <==> Held(blocks, b) && !In(r, b)
  {
  }

  // ----- whole runs

  datatype Op = AllocOp(size: nat, align: nat) | DeallocOp(block: Region)

  ghost predicate Enabled(s: State, op: Op) {
    match op
    case AllocOp(size, align) => size > 0 && align > 0
    case DeallocOp(r) => r in s.live
  }

  /** One call; None if growing the tables panicked. */
  ghost function Step(s: State, op: Op): (r: Option<State>)
    requires Inv(s) && Enabled(s, op)
    ensures r.Some? ==> Inv(r.value)
  {
    hide Inv;
    match op
    case AllocOp(size, align) =>
      AllocInv(s, size, align);
      (match Alloc(s, size, align) case Panic => None case Failed(t) => Some(t) case Ok(t, _) => Some(t))
    case DeallocOp(r) =>
      DeallocInv(s, r);
      Dealloc(s, r)
  }

  /** The calls are made with what callers owe and none of them panics. */
  ghost predicate Legal(s: State, ops: seq<Op>)
    requires Inv(s)
    decreases |ops|
  {
    ops == [] || (Enabled(s, ops[0]) && Step(s, ops[0]).Some? && Legal(Step(s, ops[0]).value, ops[1..]))
  }

  ghost function Run(s: State, ops: seq<Op>): (r: State)
    requires Inv(s) && Legal(s, ops)
    ensures Inv(r)
    decreases |ops|
  {
    if ops == [] then s else Run(Step(s, ops[0]).value, ops[1..])
  }

  /** Over every run, including the steps in which the tables relocate, no managed byte
      appears or disappears, and table storage is never given up. */
  lemma {:induction false} Conservation(s: State, ops: seq<Op>)
    requires Inv(s) && Legal(s, ops)
    ensures Inv(Run(s, ops))
    ensures forall b :: Managed(Run(s, ops), b) <==> Managed(s, b)
    ensures s.stores <= Run(s, ops).stores
    decreases |ops|
  {
    hide Inv, Managed, Enabled;
    if ops != [] {
      StepConserves(s, ops[0]);
      Conservation(Step(s, ops[0]).value, ops[1..]);
    }
  }

  lemma StepConserves(s: State, op: Op)
    requires Inv(s) && Enabled(s, op) && Step(s, op).Some?
    ensures forall b :: Managed(Step(s, op).value, b) <==> Managed(s, b)
    ensures s.stores <= Step(s, op).value.stores
  {
    hide Inv, Managed;
    match op
    case AllocOp(size, align) => AllocInv(s, size, align);
    case DeallocOp(r) => DeallocInv(s, r);
  }

  /** Live blocks and table storage never overlap, and no free byte is inside either. */
  lemma HoldingsDisjoint(s: State, ops: seq<Op>, x: Region, y: Region)
    requires Inv(s) && Legal(s, ops)
    requires x in Run(s, ops).live && (y in Run(s, ops).live + Run(s, ops).stores && x != y)
    ensures Apart(x, y)
    ensures forall b :: In(x, b) ==> Managed(s, b) && !Covers(Run(s, ops).free, b)
  {
    var r := Run(s, ops);
    Conservation(s, ops);
    assert x in r.live + r.stores;
    forall b | In(x, b) ensures Managed(s, b) && !Covers(r.free, b) {
      assert Held(r.live + r.stores, b);
      assert Managed(r, b);
    }
  }

  // ----- trim_for_boot

  datatype Handoff = TrimPanic | NoMemory(state: State) | Ranges(state: State, ranges: Table)

  /** One block is set aside as the only free memory; everything reserved, that block
      included, is reported; the rest is let go. */
  function Trim(s: State, reserve: nat): Handoff
    requires Inv(s)
  {
    InvFacts(s);
    match EnsureHeadroom(s)
    case None => TrimPanic
    case Some(t) =>
      HeadroomInv(s);
      InvFacts(t);
      match Take(t, reserve, 1)
      case None => NoMemory(t)
      case Some((r, _, reserved)) =>
        Ranges(t.(free := Insert([], r), freeCap := STATIC_CAPACITY,
                  reserved := Remove(reserved, r.address, r.size)), reserved)
  }

  /** The ranges reported are exactly what is managed afterwards. The allocator can go on
      exactly if something was reserved for it. */
  lemma TrimExact(s: State, reserve: nat)
    requires Inv(s)
    ensures Trim(s, reserve).NoMemory? ==> Inv(Trim(s, reserve).state)
    ensures Trim(s, reserve).Ranges? ==>
      var t, ranges := Trim(s, reserve).state, Trim(s, reserve).ranges;
      && (Inv(t) <==> reserve > 0) && t.live == s.live
      && (forall b :: Covers(ranges, b) <==> Managed(t, b))
      && (forall b :: Managed(t, b) ==> Managed(s, b))
  {
    hide Inv;
    InvFacts(s);
    HeadroomInv(s);
    match EnsureHeadroom(s)
    case None =>
    case Some(h) =>
      InvFacts(h);
      if reserve > 0 {
        TakeExact(h, reserve, 1);
      } else {
        TakeNothing(h);
      }
      match Take(h, reserve, 1)
      case None =>
      case Some((r, free, reserved)) =>
        if reserve > 0 {
          TrimInv(h, r, free, reserved);
        } else {
          TrimNothing(h, r, reserved);
        }
  }

  /** The only free memory afterwards is one range of exactly the reserve asked for, the lowest
      there was; no memory is reported exactly when there was none. */
  lemma TrimPlace(s: State, reserve: nat)
    requires Inv(s) && reserve > 0
    ensures Ascending(s.reserved)
    ensures var h := EnsureHeadroom(s);
      match Trim(s, reserve)
      case TrimPanic => h.None?
      case NoMemory(t) => h == Some(t) && forall c :: !FitsAt(t.free, c, reserve, 1)
      case Ranges(t, _) =>
        && h.Some? && |t.free| == 1 && t.free[0].size == reserve && t.freeCap == 128
        && FitsAt(h.value.free, t.free[0].address, reserve, 1)
        && (forall c :: FitsAt(h.value.free, c, reserve, 1) ==> t.free[0].address <= c)
        && (forall b :: Covers(t.reserved, b) <==> Covers(h.value.reserved, b))
  {
    hide Inv, FitsAt, EnsureHeadroom;
    InvFacts(s);
    HeadroomInv(s);
    match EnsureHeadroom(s)
    case None =>
    case Some(h) =>
      InvFacts(h);
      TakeExact(h, reserve, 1);
      match Take(h, reserve, 1)
      case None =>
      case Some((r, free, reserved)) =>
        FitsFrom(h.free, r.address, r.size, 1);
        assert Insert([], r) == [r];
        RemoveExact(reserved, r);
        FreeNotReserved(h, r);
  }

  lemma FreeNotReserved(s: State, r: Region)
    requires Inv(s) && forall b :: In(r, b) ==> Covers(s.free, b)
    ensures forall b :: Covers(s.reserved, b) ==> !In(r, b)
  {
  }

  /** Setting 0 bytes aside records an empty range at the start of the first free entry. */
  lemma TakeNothing(s: State)
    requires Inv(s)
    ensures Ascending(s.reserved)
    ensures match Take(s, 0, 1)
      case None => true
      case Some((r, _, reserved)) =>
        && r.size == 0 && Ascending(reserved) && |reserved| <= |s.reserved| + 1
        && forall b :: Covers(reserved, b) <==> Covers(s.reserved, b)
  {
    InvFacts(s);
    var i := FirstFit(s.free, 0, 1);
    if i < |s.free| {
      var a := s.free[i].address;
      var x := LowerBound(s.reserved, a);
      assert In(s.free[i], a) && Covers(s.free, a);
      assert x < |s.reserved| ==> In(s.reserved[x], s.reserved[x].address);
      AddMergeCovers(s.reserved, x, Region(a, 0));
    }
  }

  lemma TrimNothing(h: State, r: Region, reserved: Table)
    requires Inv(h) && r.size == 0
    requires forall b :: Covers(reserved, b) <==> Covers(h.reserved, b)
    ensures Ascending([])
    ensures var t := h.(free := Insert([], r), freeCap := STATIC_CAPACITY,
                        reserved := Remove(reserved, r.address, 0));
      && !Inv(t)
      && (forall b :: Covers(reserved, b) <==> Managed(t, b))
      && (forall b :: Managed(t, b) ==> Managed(h, b))
  {
    var t := Insert([], r);
    assert t == [r] && t[0].size == 0;
    CoversOne(r);
  }

  /** Recording what was taken keeps the reserved table sorted and adds one entry at most. */
  lemma TakeAscending(s: State, size: nat)
    requires Inv(s)
    ensures Ascending(s.reserved)
    ensures match Take(s, size, 1)
      case None => true
      case Some((r, _, reserved)) => r.size == size && Ascending(reserved) && |reserved| <= |s.reserved| + 1
  {
    hide Inv, Take;
    if size > 0 {
      TakeExact(s, size, 1);
      if Take(s, size, 1).Some? {
        GappedAscending(Take(s, size, 1).value.2);
      }
    } else {
      TakeNothing(s);
    }
  }

  lemma TrimInv(h: State, r: Region, free: Table, reserved: Table)
    requires Inv(h) && !Crowded(h) && r.size > 0
    requires forall b :: In(r, b) ==> Covers(h.free, b)
    requires Gapped(reserved) && |reserved| <= |h.reserved| + 1
    requires forall b :: Covers(reserved, b) <==> Covers(h.reserved, b) || In(r, b)
    ensures var t := h.(free := Insert([], r), freeCap := STATIC_CAPACITY,
                        reserved := Remove(reserved, r.address, r.size));
      && Inv(t)
      && (forall b :: Covers(reserved, b) <==> Managed(t, b))
      && (forall b :: Managed(t, b) ==> Managed(h, b))
  {
    InsertExact([], r);
    RemoveExact(reserved, r);
    forall b | Covers(h.reserved, b) ensures !In(r, b) {
    }
  }

  /** The state a successful handoff leaves. */
  ghost function Trimmed(s: State, reserve: nat): (t: State)
    requires Inv(s) && reserve > 0 && Trim(s, reserve).Ranges?
    ensures Inv(t)
  {
    TrimExact(s, reserve);
    Trim(s, reserve).state
  }

  /** After the handoff, every block handed out in any later run lies inside the
      ranges that were reported. */
  lemma BootHandoff(s: State, reserve: nat, ops: seq<Op>, size: nat, align: nat)
    requires Inv(s) && reserve > 0 && size > 0 && align > 0
    requires Trim(s, reserve).Ranges? && Legal(Trimmed(s, reserve), ops)
    ensures match Alloc(Run(Trimmed(s, reserve), ops), size, align)
      case Ok(_, a) => forall b :: In(Region(a, size), b) ==> Covers(Trim(s, reserve).ranges, b)
      case _ => true
  {
    hide Inv, Run, Legal;
    TrimExact(s, reserve);
    Conservation(Trimmed(s, reserve), ops);
    AllocInv(Run(Trimmed(s, reserve), ops), size, align);
  }
}
