/** Table-level algorithms of the range allocator: finalization by a two-pointer sweep,
    first-fit search, and the search for a dynamic reservation. */
module RangeSearch {
  import opened Arithmetic
  import opened Options
  import opened Regions

  // ----- check_regions

  /** How the sweep ends, with the table as it is left behind. */
  datatype Sweep = Done(left: Table) | Outside(left: Table) | TooSmall(left: Table) | Full(left: Table)

  /** The inner loop: skip entries that end at or before an address. */
  function Advance(t: Table, i: nat, address: nat): (j: nat)
    requires i <= |t|
    ensures i <= j <= |t|
    ensures forall k :: i <= k < j ==> t[k].End() <= address
    ensures j < |t| ==> address < t[j].End()
    decreases |t| - i
  {
    if i < |t| && t[i].End() <= address then Advance(t, i + 1, address) else i
  }

  /** The sweep of `check_regions` over the reserved entries, in place on the free table. */
  function Subtract(t: Table, from: nat, reserved: Table, capacity: nat): Sweep
    requires from <= |t|
    decreases |reserved|
  {
    if reserved == [] then Done(t) else
      var r := reserved[0];
      var i := Advance(t, from, r.address);
      if i == |t| then Outside(t)
      else if !Inside(r, t[i]) then TooSmall(t)
      else
        var split := t[i].address < r.address && r.End() < t[i].End();
        if split && |t| + 1 > capacity then Full(t)
        else Subtract(TakeOut(t, i, r), if split then i + 1 else i, reserved[1..], capacity)
  }

  /** The sweep is exact set subtraction: it finishes only if every reserved byte was
      available, then the table covers exactly the rest; it stops at a region error only
      if some reserved byte was not available. */
  lemma {:induction false} SubtractExact(t: Table, from: nat, reserved: Table, capacity: nat)
    requires Gapped(t) && Gapped(reserved) && from <= |t|
    requires reserved != [] ==> forall i :: 0 <= i < from ==> t[i].End() <= reserved[0].address
    ensures match Subtract(t, from, reserved, capacity)
      case Done(left) =>
        && Gapped(left)
        && (forall b :: Covers(reserved, b) ==> Covers(t, b))
        && (forall b :: Covers(left, b) <==> Covers(t, b) && !Covers(reserved, b))
        && |left| <= Max(|t|, capacity)
      case Full(left) => |left| >= capacity
      case _ => exists b :: Covers(reserved, b) && !Covers(t, b)
    decreases |reserved|
  {
    hide In, TakeOut, Inside, Advance;
    if reserved != [] {
      var r, rest := reserved[0], reserved[1..];
      var i := Advance(t, from, r.address);
      HeadTail(reserved);
      if i == |t| || !Inside(r, t[i]) {
        var b := Escapes(t, i, r);
        assert Covers(reserved, b) && !Covers(t, b);
      } else {
        var split := t[i].address < r.address && r.End() < t[i].End();
        TakeOutExact(t, i, r);
        if !(split && |t| + 1 > capacity) {
          SweepFrom(t, i, r, rest);
          SubtractExact(TakeOut(t, i, r), if split then i + 1 else i, rest, capacity);
        }
      }
    }
  }

  lemma HeadTail(reserved: Table)
    requires Gapped(reserved) && reserved != []
    ensures Gapped(reserved[1..])
    ensures forall b :: Covers(reserved, b) <==> In(reserved[0], b) || Covers(reserved[1..], b)
    ensures forall b :: Covers(reserved[1..], b) ==> !In(reserved[0], b)
    ensures |reserved| > 1 ==> reserved[0].End() < reserved[1].address
  {
  }

  /** A reserved range that does not fit the entry it is compared with has a byte that
      no entry covers. */
  lemma Escapes(t: Table, i: nat, r: Region) returns (b: nat)
    requires Gapped(t) && i <= |t| && r.size > 0
    requires forall k :: 0 <= k < i ==> t[k].End() <= r.address
    requires i < |t| ==> r.address < t[i].End() && !Inside(r, t[i])
    ensures In(r, b) && !Covers(t, b)
  {
    if i < |t| && t[i].address <= r.address {
      b := t[i].End();
      EndNotCovered(t, i);
    } else {
      b := r.address;
      forall k | 0 <= k < |t| ensures !In(t[k], b) {
        assert i < k ==> t[i].End() < t[k].address;
      }
    }
  }

  /** Where the sweep continues: everything before it ends before the next reservation. */
  lemma SweepFrom(t: Table, i: nat, r: Region, rest: Table)
    requires Gapped(t) && i < |t| && Inside(r, t[i]) && r.size > 0
    requires rest != [] ==> r.End() < rest[0].address
    ensures var split := t[i].address < r.address && r.End() < t[i].End();
      && |TakeOut(t, i, r)| >= i
      && (split ==> |TakeOut(t, i, r)| == |t| + 1)
      && |TakeOut(t, i, r)| <= (if split then |t| + 1 else |t|)
      && (rest != [] ==> forall k :: 0 <= k < (if split then i + 1 else i) ==>
            TakeOut(t, i, r)[k].End() <= rest[0].address)
  {
  }

  /** `check_regions` without its table-size limits: what it makes of available and reserved. */
  lemma FinalizeExact(available: Table, reserved: Table, capacity: nat)
    requires Gapped(available) && Gapped(reserved)
    ensures var r := Subtract(available, 0, reserved, capacity);
      && (r.Done? ==> Gapped(r.left) && forall b :: Covers(r.left, b) <==> Covers(available, b) && !Covers(reserved, b))
      && (!r.Full? ==> (r.Done? <==> forall b :: Covers(reserved, b) ==> Covers(available, b)))
  {
    SubtractExact(available, 0, reserved, capacity);
  }

  // ----- which failure is which

  /** All entries before j are available. */
  ghost predicate Clear(t: Table, reserved: Table, j: nat) {
    j < |reserved| && forall i, b :: 0 <= i < j && In(reserved[i], b) ==> Covers(t, b)
  }

  /** Nothing is available from the start of entry j on. */
  ghost predicate NothingLeft(t: Table, reserved: Table, j: nat) {
    Clear(t, reserved, j) && forall b :: b >= reserved[j].address ==> !Covers(t, b)
  }

  /** Something is available from the start of entry j on, but not all of the entry. */
  ghost predicate NotAll(t: Table, reserved: Table, j: nat) {
    && Clear(t, reserved, j)
    && (exists b :: b >= reserved[j].address && Covers(t, b))
    && (exists b :: In(reserved[j], b) && !Covers(t, b))
  }

  /** Entry j is available, and so is a byte right before and right behind it. */
  ghost predicate InTheMiddle(t: Table, reserved: Table, j: nat) {
    && Clear(t, reserved, j) && (forall b :: In(reserved[j], b) ==> Covers(t, b))
    && Covers(t, reserved[j].address - 1) && Covers(t, reserved[j].End())
  }

  /** Each error says what is wrong with the first entry that cannot be subtracted. */
  lemma {:induction false} SubtractErrors(t: Table, from: nat, reserved: Table, capacity: nat)
    requires Gapped(t) && Gapped(reserved) && from <= |t|
    requires reserved != [] ==> forall i :: 0 <= i < from ==> t[i].End() <= reserved[0].address
    ensures match Subtract(t, from, reserved, capacity)
      case Done(_) => true
      case Outside(_) => exists j :: NothingLeft(t, reserved, j)
      case TooSmall(_) => exists j :: NotAll(t, reserved, j)
      case Full(left) => |left| >= capacity && exists j :: InTheMiddle(t, reserved, j)
    decreases |reserved|
  {
    hide TakeOut, NothingLeft, NotAll, InTheMiddle, Advance, Inside, In;
    if reserved != [] {
      var r, rest := reserved[0], reserved[1..];
      var i := Advance(t, from, r.address);
      HeadTail(reserved);
      if i == |t| || !Inside(r, t[i]) {
        FirstFails(t, i, reserved);
      } else {
        var split := t[i].address < r.address && r.End() < t[i].End();
        TakeOutExact(t, i, r);
        if split && |t| + 1 > capacity {
          FirstSplits(t, i, reserved);
        } else {
          SweepFrom(t, i, r, rest);
          var after := TakeOut(t, i, r);
          var n := if split then i + 1 else i;
          SubtractErrors(after, n, rest, capacity);
          StillBehind(t, after, reserved);
        }
      }
    }
  }

  lemma StillBehind(t: Table, after: Table, reserved: Table)
    requires Gapped(reserved) && reserved != []
    requires forall b :: Covers(after, b) <==> Covers(t, b) && !In(reserved[0], b)
    requires forall b :: In(reserved[0], b) ==> Covers(t, b)
    ensures (exists j :: NothingLeft(after, reserved[1..], j)) ==> exists j :: NothingLeft(t, reserved, j)
    ensures (exists j :: NotAll(after, reserved[1..], j)) ==> exists j :: NotAll(t, reserved, j)
    ensures (exists j :: InTheMiddle(after, reserved[1..], j)) ==> exists j :: InTheMiddle(t, reserved, j)
  {
    forall j: nat | j < |reserved| - 1
      ensures NothingLeft(after, reserved[1..], j) ==> NothingLeft(t, reserved, j + 1)
      ensures NotAll(after, reserved[1..], j) ==> NotAll(t, reserved, j + 1)
      ensures InTheMiddle(after, reserved[1..], j) ==> InTheMiddle(t, reserved, j + 1)
    {
      SameBehind(t, after, reserved, j);
    }
  }

  lemma FirstFails(t: Table, i: nat, reserved: Table)
    requires Gapped(t) && i <= |t| && reserved != [] && reserved[0].size > 0
    requires forall k :: 0 <= k < i ==> t[k].End() <= reserved[0].address
    requires i < |t| ==> reserved[0].address < t[i].End() && !Inside(reserved[0], t[i])
    ensures if i == |t| then NothingLeft(t, reserved, 0) else NotAll(t, reserved, 0)
  {
    var r := reserved[0];
    if i < |t| {
      var b := Escapes(t, i, r);
      var last := t[i].End() - 1;
      assert t[i].size > 0 && In(t[i], last);
      assert Covers(t, last) && last >= r.address;
      assert In(r, b) && !Covers(t, b);
    }
  }

  lemma FirstSplits(t: Table, i: nat, reserved: Table)
    requires Gapped(t) && i < |t| && reserved != []
    requires t[i].address < reserved[0].address && reserved[0].End() < t[i].End()
    ensures InTheMiddle(t, reserved, 0)
  {
    assert forall b :: In(t[i], b) ==> Covers(t, b);
  }

  /** Behind the first entry, taking it out changes nothing. */
  lemma SameBehind(t: Table, after: Table, reserved: Table, j: nat)
    requires Gapped(reserved) && reserved != [] && j < |reserved| - 1
    requires forall b :: Covers(after, b) <==> Covers(t, b) && !In(reserved[0], b)
    requires forall b :: In(reserved[0], b) ==> Covers(t, b)
    ensures NothingLeft(after, reserved[1..], j) ==> NothingLeft(t, reserved, j + 1)
    ensures NotAll(after, reserved[1..], j) ==> NotAll(t, reserved, j + 1)
    ensures InTheMiddle(after, reserved[1..], j) ==> InTheMiddle(t, reserved, j + 1)
  {
    var rest := reserved[1..];
    assert rest[j] == reserved[j + 1] && reserved[0].End() < reserved[j + 1].address;
    assert forall i :: 0 <= i < j ==> rest[i] == reserved[i + 1];
    if Clear(after, rest, j) {
      forall i, b | 0 <= i < j + 1 && In(reserved[i], b) ensures Covers(t, b) {
        if i > 0 {
          assert In(rest[i - 1], b);
        }
      }
    }
  }

  /** The sweep fails at this reserved entry. */
  predicate Rejects(t: Table, from: nat, r: Region, capacity: nat)
    requires from <= |t|
  {
    var i := Advance(t, from, r.address);
    || i == |t|
    || !Inside(r, t[i])
    || (t[i].address < r.address && r.End() < t[i].End() && |t| + 1 > capacity)
  }

  /** However the sweep ends, it leaves no byte that was not there. */
  lemma {:induction false} SubtractShrinks(t: Table, from: nat, reserved: Table, capacity: nat)
    requires Gapped(t) && Gapped(reserved) && from <= |t|
    ensures forall b :: Covers(Subtract(t, from, reserved, capacity).left, b) ==> Covers(t, b)
    decreases |reserved|
  {
    hide In, TakeOut, Inside, Advance;
    if reserved != [] {
      var r, rest := reserved[0], reserved[1..];
      var i := Advance(t, from, r.address);
      if i < |t| && Inside(r, t[i]) {
        HeadTail(reserved);
        SweepFrom(t, i, r, rest);
        TakeOutExact(t, i, r);
        var split := t[i].address < r.address && r.End() < t[i].End();
        if !(split && |t| + 1 > capacity) {
          SubtractShrinks(TakeOut(t, i, r), if split then i + 1 else i, rest, capacity);
        }
      }
    }
  }

  /** A failing sweep leaves the table as it was exactly when it fails at the first entry;
      otherwise the bytes of the entries before the failure are gone. */
  lemma FailureUndone(t: Table, reserved: Table, capacity: nat)
    requires Gapped(t) && Gapped(reserved) && !Subtract(t, 0, reserved, capacity).Done?
    ensures reserved != []
    ensures Subtract(t, 0, reserved, capacity).left == t <==> Rejects(t, 0, reserved[0], capacity)
  {
    hide In, TakeOut, Inside;
    var r, rest := reserved[0], reserved[1..];
    if !Rejects(t, 0, r, capacity) {
      var i := Advance(t, 0, r.address);
      var split := t[i].address < r.address && r.End() < t[i].End();
      HeadTail(reserved);
      SweepFrom(t, i, r, rest);
      TakeOutExact(t, i, r);
      SubtractShrinks(TakeOut(t, i, r), if split then i + 1 else i, rest, capacity);
      StartIn(r);
    }
  }

  lemma StartIn(r: Region)
    ensures r.size > 0 ==> In(r, r.address)
  {
  }

  /** A failing sweep that does change the table. */
  lemma FailureKept()
    ensures var t, reserved := [Region(0, 100)], [Region(10, 10), Region(200, 10)];
      Subtract(t, 0, reserved, 128) == Outside([Region(0, 10), Region(20, 80)])
  {
    var t, r := [Region(0, 100)], Region(10, 10);
    var reserved := [r, Region(200, 10)];
    var left := [Region(0, 10), Region(20, 80)];
    assert Advance(t, 0, 10) == 0;
    assert TakeOut(t, 0, r) == left;
    assert reserved[1..] == [Region(200, 10)];
    assert Advance(left, 2, 200) == 2;
    assert Advance(left, 1, 200) == 2;
    assert Subtract(left, 1, reserved[1..], 128) == Outside(left);
  }

  // ----- allocate_region_internal

  /** The first entry in which an aligned range of the size fits, or the table's length. */
  function FirstFit(t: Table, size: nat, align: nat): (i: nat)
    requires align > 0
    ensures i <= |t|
    ensures forall k :: 0 <= k < i ==> AlignUp(t[k].address, align) + size > t[k].End()
    ensures i < |t| ==> AlignUp(t[i].address, align) + size <= t[i].End()
  {
    if t == [] || AlignUp(t[0].address, align) + size <= t[0].End() then 0 else 1 + FirstFit(t[1..], size, align)
  }

  /** An aligned range consisting of covered bytes only. */
  ghost predicate FitsAt(t: Table, a: nat, size: nat, align: nat)
    requires align > 0
  {
    a % align == 0 && forall b :: a <= b < a + size ==> Covers(t, b)
  }

  /** First fit finds a range exactly when there is one, and then the lowest. */
  lemma FirstFitLowest(t: Table, size: nat, align: nat)
    requires Gapped(t) && size > 0 && align > 0
    ensures var i := FirstFit(t, size, align);
      && (i < |t| ==> FitsAt(t, AlignUp(t[i].address, align), size, align))
      && (forall a :: FitsAt(t, a, size, align) ==> i < |t| && AlignUp(t[i].address, align) <= a)
  {
    var i := FirstFit(t, size, align);
    if i < |t| {
      assert forall b :: AlignUp(t[i].address, align) <= b < AlignUp(t[i].address, align) + size ==> In(t[i], b);
    }
    forall a | FitsAt(t, a, size, align) ensures i < |t| && AlignUp(t[i].address, align) <= a {
      var k := RunInOneRegion(t, a, size);
      AlignUpLeast(t[k].address, align, a);
      assert i <= k;
      if i < k {
        assert t[i].End() < t[k].address;
      }
    }
  }

  // ----- add_reserved_region_dynamic

  /** A missing alignment is 1, and 0 is taken as 1. */
  function Alignment(align: Option<nat>): (a: nat)
    ensures a > 0
  {
    match align case None => 1 case Some(n) => Max(n, 1)
  }

  /** The end of the last reservation that starts at or before an address. */
  function PrevEnd(reserved: Table, start: nat): nat {
    var k := LowerBound(reserved, start);
    if Found(reserved, start) then reserved[k].End() else if k > 0 then reserved[k - 1].End() else 0
  }

  /** The start of the next reservation behind an address. */
  function NextStart(reserved: Table, start: nat): nat {
    var k := if Found(reserved, start) then LowerBound(reserved, start) + 1 else LowerBound(reserved, start);
    if k < |reserved| then reserved[k].address else USIZE_MAX
  }

  ghost predicate Free(reserved: Table, a: nat, size: nat) {
    forall b :: a <= b < a + size ==> !Covers(reserved, b)
  }

  /** On a gapped table, a range is free of reservations exactly when it lies between the
      two neighbours that the code looks at. */
  lemma NeighboursDecide(reserved: Table, a: nat, size: nat)
    requires Gapped(reserved) && size > 0 && a + size <= USIZE_MAX
    ensures Free(reserved, a, size) <==> PrevEnd(reserved, a) <= a && a + size <= NextStart(reserved, a)
  {
    var next := if Found(reserved, a) then LowerBound(reserved, a) + 1 else LowerBound(reserved, a);
    if PrevEnd(reserved, a) > a {
      assert In(reserved[next - 1], a);
      assert Covers(reserved, a);
    } else if a + size > NextStart(reserved, a) {
      assert a <= reserved[next].address < a + size && In(reserved[next], reserved[next].address);
      assert Covers(reserved, reserved[next].address);
    } else {
      forall b, i | a <= b < a + size && 0 <= i < |reserved| ensures !In(reserved[i], b) {
        assert i < next - 1 ==> reserved[i].End() < reserved[next - 1].address;
        assert next < i ==> reserved[next].End() < reserved[i].address;
      }
    }
  }

  datatype Bounds = Anywhere | Within(lo: nat, size: nat) {
    function Hi(): nat { if Anywhere? then USIZE_MAX else lo + size }
    function Lo(): nat { if Anywhere? then 0 else lo }
  }

  /** Outcome for one available region: a start address, go on to the next region,
      or give up altogether. */
  datatype Attempt = Hit(start: nat) | Skip | Stop

  /** The inner loop of `add_reserved_region_dynamic` on the window [addr, end). */
  function Try(reserved: Table, addr: nat, end: nat, size: nat, align: nat, range: Bounds): Attempt
    requires align > 0 && size > 0
    decreases if addr <= end then end - addr + 1 else 0
  {
    if range.Within? && range.Hi() < addr then Stop
    else if range.Within? && end < range.lo then Skip
    else
      var start := AlignUp(if range.Within? then Max(addr, range.lo) else addr, align);
      if range.Within? && start + size > range.Hi() then Skip
      else if start + size > end then Skip
      else if PrevEnd(reserved, start) > start || start + size > NextStart(reserved, start) then
        var addr', end' := Max(addr, PrevEnd(reserved, start)), Min(end, NextStart(reserved, start));
        if addr' >= end' then Skip else Try(reserved, addr', end', size, align, range)
      else Hit(start)
  }

  /** The first aligned address of the window, or, if that is reserved, the first one
      behind that reservation: the only address the loop can end up with. */
  function Candidate(reserved: Table, addr: nat, align: nat, range: Bounds): nat
    requires align > 0
  {
    var start := AlignUp(Max(addr, range.Lo()), align);
    if PrevEnd(reserved, start) > start then AlignUp(PrevEnd(reserved, start), align) else start
  }

  /** The candidate fits the window, the requested range, and the gap it lies in. */
  predicate Acceptable(reserved: Table, addr: nat, end: nat, size: nat, align: nat, range: Bounds)
    requires align > 0
  {
    var c := Candidate(reserved, addr, align, range);
    var start := AlignUp(Max(addr, range.Lo()), align);
    c + size <= end && c + size <= range.Hi() && c + size <= NextStart(reserved, start)
  }

  lemma {:induction false} LowerBoundUnique(t: Table, key: nat, k: nat)
    requires Ascending(t) && k <= |t|
    requires forall i :: 0 <= i < k ==> t[i].address < key
    requires k < |t| ==> t[k].address >= key
    ensures LowerBound(t, key) == k
  {
  }

  /** An address in the gap behind a reservation has the same neighbours. */
  lemma SameGap(reserved: Table, start: nat, again: nat)
    requires Gapped(reserved) && PrevEnd(reserved, start) > start
    requires PrevEnd(reserved, start) <= again < NextStart(reserved, start)
    ensures PrevEnd(reserved, again) == PrevEnd(reserved, start)
    ensures NextStart(reserved, again) == NextStart(reserved, start)
  {
    var k := if Found(reserved, start) then LowerBound(reserved, start) + 1 else LowerBound(reserved, start);
    GappedAscending(reserved);
    LowerBoundUnique(reserved, again, k);
  }

  lemma AlignUpBetween(x: nat, y: nat, m: nat)
    requires m > 0 && x <= y <= AlignUp(x, m)
    ensures AlignUp(y, m) == AlignUp(x, m)
  {
    AlignUpLeast(y, m, AlignUp(x, m));
    AlignUpLeast(x, m, AlignUp(y, m));
  }

  /** A first try inside a reservation leaves one more try, right behind it. */
  lemma RetryBehind(reserved: Table, addr: nat, end: nat, size: nat, align: nat, range: Bounds)
    requires Gapped(reserved) && align > 0 && size > 0 && end <= USIZE_MAX
    requires var start := AlignUp(Max(addr, range.Lo()), align);
      start + size <= end && start + size <= range.Hi() && PrevEnd(reserved, start) > start
    ensures var start := AlignUp(Max(addr, range.Lo()), align);
      var again := AlignUp(PrevEnd(reserved, start), align);
      Try(reserved, PrevEnd(reserved, start), Min(end, NextStart(reserved, start)), size, align, range) ==
        if again + size <= end && again + size <= range.Hi() && again + size <= NextStart(reserved, start)
        then Hit(again)
        else if range.Within? && range.Hi() < PrevEnd(reserved, start) then Stop else Skip
  {
    hide LowerBound, AlignUp, Found;
    var start := AlignUp(Max(addr, range.Lo()), align);
    var again := AlignUp(PrevEnd(reserved, start), align);
    PrevBeforeNext(reserved, start);
    if again + size <= NextStart(reserved, start) {
      SameGap(reserved, start, again);
    }
  }

  /** The loop succeeds exactly when its one candidate is acceptable. */
  lemma TryExact(reserved: Table, addr: nat, end: nat, size: nat, align: nat, range: Bounds)
    requires Gapped(reserved) && align > 0 && size > 0 && end <= USIZE_MAX
    ensures var attempt := Try(reserved, addr, end, size, align, range);
      && (attempt.Hit? <==> Acceptable(reserved, addr, end, size, align, range))
      && (attempt.Hit? ==> attempt.start == Candidate(reserved, addr, align, range))
  {
    hide LowerBound, AlignUp, Found, PrevEnd, NextStart;
    var start := AlignUp(Max(addr, range.Lo()), align);
    var prev, next := PrevEnd(reserved, start), NextStart(reserved, start);
    if start + size <= end && start + size <= range.Hi() {
      if prev > start {
        PrevBeforeNext(reserved, start);
        RetryBehind(reserved, addr, end, size, align, range);
      } else if start + size > next {
        AlignUpBetween(Max(addr, range.Lo()), Max(Max(addr, prev), range.Lo()), align);
      }
    }
  }

  lemma PrevBeforeNext(reserved: Table, start: nat)
    requires Gapped(reserved) && PrevEnd(reserved, start) > start
    ensures PrevEnd(reserved, start) < NextStart(reserved, start) || NextStart(reserved, start) == USIZE_MAX
  {
  }

  /** What a hit guarantees: aligned, inside the window and the requested range, and
      disjoint from every reservation. */
  lemma TrySound(reserved: Table, addr: nat, end: nat, size: nat, align: nat, range: Bounds)
    requires Gapped(reserved) && align > 0 && size > 0 && end <= USIZE_MAX
    ensures var attempt := Try(reserved, addr, end, size, align, range);
      attempt.Hit? ==>
        && attempt.start % align == 0
        && addr <= attempt.start && attempt.start + size <= end
        && range.Lo() <= attempt.start && attempt.start + size <= range.Hi()
        && Free(reserved, attempt.start, size)
  {
    TryExact(reserved, addr, end, size, align, range);
    if Acceptable(reserved, addr, end, size, align, range) {
      var c := Candidate(reserved, addr, align, range);
      var start := AlignUp(Max(addr, range.Lo()), align);
      if PrevEnd(reserved, start) > start {
        SameGap(reserved, start, c);
      }
      NeighboursDecide(reserved, c, size);
    }
  }

  /** The outer loop over the available regions. */
  function Search(available: Table, reserved: Table, size: nat, align: nat, range: Bounds): Attempt
    requires align > 0 && size > 0
  {
    if available == [] then Skip else
      var attempt := Try(reserved, available[0].address, available[0].End(), size, align, range);
      if attempt.Skip? then Search(available[1..], reserved, size, align, range) else attempt
  }

  /** The candidate of an available region is acceptable. */
  predicate Takes(r: Region, reserved: Table, size: nat, align: nat, range: Bounds)
    requires align > 0
  {
    Acceptable(reserved, r.address, r.End(), size, align, range)
  }

  /** The first available region whose candidate is acceptable, or the table's length. */
  function FirstTaker(available: Table, reserved: Table, size: nat, align: nat, range: Bounds): (i: nat)
    requires align > 0
    ensures i <= |available|
    ensures forall k :: 0 <= k < i ==> !Takes(available[k], reserved, size, align, range)
    ensures i < |available| ==> Takes(available[i], reserved, size, align, range)
  {
    hide Takes;
    if available == [] || Takes(available[0], reserved, size, align, range) then 0
    else 1 + FirstTaker(available[1..], reserved, size, align, range)
  }

  /** The search returns the candidate of the first available region whose candidate is
      acceptable, and nothing exactly when there is none: giving up early loses no region. */
  lemma {:induction false} SearchExact(available: Table, reserved: Table, size: nat, align: nat, range: Bounds)
    requires Gapped(available) && Gapped(reserved) && align > 0 && size > 0
    requires forall i :: 0 <= i < |available| ==> available[i].End() <= USIZE_MAX
    ensures var i := FirstTaker(available, reserved, size, align, range);
      var found := Search(available, reserved, size, align, range);
      && (found.Hit? <==> i < |available|)
      && (found.Hit? ==> found.start == Candidate(reserved, available[i].address, align, range))
    decreases |available|
  {
    hide Acceptable, Candidate, Try;
    if available != [] {
      var first := available[0];
      TryExact(reserved, first.address, first.End(), size, align, range);
      if Try(reserved, first.address, first.End(), size, align, range).Stop? {
        StopsBefore(reserved, first.address, first.End(), size, align, range);
        var i := FirstTaker(available, reserved, size, align, range);
        if 0 < i < |available| {
          assert first.End() < available[i].address;
          TooFar(reserved, available[i].address, available[i].End(), size, align, range);
        }
      } else {
        SearchExact(available[1..], reserved, size, align, range);
      }
    }
  }

  /** The loop over the available regions returns what one of them answered. */
  lemma {:induction false} SearchHits(available: Table, reserved: Table, size: nat, align: nat, range: Bounds)
    returns (i: nat)
    requires align > 0 && size > 0 && Search(available, reserved, size, align, range).Hit?
    ensures i < |available|
    ensures Try(reserved, available[i].address, available[i].End(), size, align, range)
         == Search(available, reserved, size, align, range)
    decreases |available|
  {
    hide Try;
    if Try(reserved, available[0].address, available[0].End(), size, align, range).Skip? {
      i := SearchHits(available[1..], reserved, size, align, range);
      i := i + 1;
    } else {
      i := 0;
    }
  }

  /** Any address the search returns is aligned, lies with the whole size inside one available
      region and inside the requested range, and is disjoint from all reservations. */
  lemma SearchSound(available: Table, reserved: Table, size: nat, align: nat, range: Bounds)
    requires Gapped(reserved) && align > 0 && size > 0
    requires forall i :: 0 <= i < |available| ==> available[i].End() <= USIZE_MAX
    ensures var found := Search(available, reserved, size, align, range);
      found.Hit? ==>
        && found.start % align == 0 && Free(reserved, found.start, size)
        && range.Lo() <= found.start && found.start + size <= range.Hi()
        && exists i :: 0 <= i < |available| && Inside(Region(found.start, size), available[i])
  {
    hide Try, Search, Free;
    if Search(available, reserved, size, align, range).Hit? {
      var i := SearchHits(available, reserved, size, align, range);
      TrySound(reserved, available[i].address, available[i].End(), size, align, range);
      assert Inside(Region(Search(available, reserved, size, align, range).start, size), available[i]);
    }
  }

  /** Whatever the tables are like, an address returned has the alignment asked for and lies,
      with the whole size, in the range asked for. */
  lemma {:induction false} TryPlaced(reserved: Table, addr: nat, end: nat, size: nat, align: nat, range: Bounds)
    requires align > 0 && size > 0
    ensures var attempt := Try(reserved, addr, end, size, align, range);
      attempt.Hit? ==>
        && attempt.start % align == 0
        && (range.Within? ==> range.lo <= attempt.start && attempt.start + size <= range.lo + range.size)
    decreases if addr <= end then end - addr + 1 else 0
  {
    hide PrevEnd, NextStart;
    var start := AlignUp(if range.Within? then Max(addr, range.lo) else addr, align);
    var prev, next := PrevEnd(reserved, start), NextStart(reserved, start);
    if start + size <= end && (prev > start || start + size > next) && Max(addr, prev) < Min(end, next) {
      TryPlaced(reserved, Max(addr, prev), Min(end, next), size, align, range);
    }
  }

  /** The same for the whole search, in the caller's terms. */
  lemma DynamicPlaced(available: Table, reserved: Table, size: nat, align: Option<nat>, range: Bounds)
    requires size > 0
    ensures var found := Search(available, reserved, size, Alignment(align), range);
      found.Hit? ==>
        && (align.Some? && align.value > 0 ==> found.start % align.value == 0)
        && (range.Within? ==> range.lo <= found.start && found.start + size <= range.lo + range.size)
  {
    hide Try, Search;
    var n := Alignment(align);
    if Search(available, reserved, size, n, range).Hit? {
      var i := SearchHits(available, reserved, size, n, range);
      TryPlaced(reserved, available[i].address, available[i].End(), size, n, range);
    }
  }

  /** a is the first address from x on that has the alignment asked for. */
  ghost predicate FirstFrom(a: nat, x: nat, align: Option<nat>) {
    match align
    case None => a == x
    case Some(n) => if n == 0 then a == x else a % n == 0 && x <= a < x + n
  }

  lemma FirstFromExact(a: nat, x: nat, align: Option<nat>)
    requires FirstFrom(a, x, align)
    ensures AlignUp(x, Alignment(align)) == a
  {
    MultiplesApart(a, AlignUp(x, Alignment(align)), Alignment(align));
  }

  /** Where the search begins in a region. */
  ghost function Begin(r: Region, range: Bounds): nat {
    match range
    case Anywhere => r.address
    case Within(lo, _) => if lo > r.address then lo else r.address
  }

  ghost predicate InRange(a: nat, size: nat, range: Bounds) {
    match range
    case Anywhere => true
    case Within(lo, len) => lo <= a && a + size <= lo + len
  }

  /** If the first aligned address of the first available region fits and is unreserved, it is
      the answer. */
  lemma FirstChoice(available: Table, reserved: Table, size: nat, align: Option<nat>, range: Bounds, a: nat)
    requires available != [] && Gapped(reserved) && size > 0 && available[0].End() <= USIZE_MAX
    requires FirstFrom(a, Begin(available[0], range), align)
    requires a + size <= available[0].End() && InRange(a, size, range) && Free(reserved, a, size)
    ensures Search(available, reserved, size, Alignment(align), range) == Hit(a)
  {
    hide AlignUp, PrevEnd, NextStart, Try;
    var r, n := available[0], Alignment(align);
    FirstFromExact(a, Begin(r, range), align);
    NeighboursDecide(reserved, a, size);
    TryExact(reserved, r.address, r.End(), size, n, range);
  }

  /** If it fits but a reservation holds it, and the first aligned address behind that
      reservation fits with nothing else reserved up to there, that is the answer. */
  lemma SecondChoice(available: Table, reserved: Table, size: nat, align: Option<nat>, range: Bounds,
                     a: nat, j: nat, b: nat)
    requires available != [] && Gapped(reserved) && size > 0 && available[0].End() <= USIZE_MAX
    requires FirstFrom(a, Begin(available[0], range), align)
    requires a + size <= available[0].End() && InRange(a, size, range)
    requires j < |reserved| && In(reserved[j], a) && FirstFrom(b, reserved[j].End(), align)
    requires b + size <= available[0].End() && InRange(b, size, range)
    requires Free(reserved, reserved[j].End(), b + size - reserved[j].End())
    ensures Search(available, reserved, size, Alignment(align), range) == Hit(b)
  {
    hide AlignUp, Try;
    var r, n := available[0], Alignment(align);
    FirstFromExact(a, Begin(r, range), align);
    FirstFromExact(b, reserved[j].End(), align);
    HeldBy(reserved, a, j);
    NextBehind(reserved, a, j, b + size);
    TryExact(reserved, r.address, r.End(), size, n, range);
  }

  /** The reservation that holds an address is the one found before it. */
  lemma HeldBy(reserved: Table, a: nat, j: nat)
    requires Gapped(reserved) && j < |reserved| && In(reserved[j], a)
    ensures PrevEnd(reserved, a) == reserved[j].End()
    ensures NextStart(reserved, a) == if j + 1 < |reserved| then reserved[j + 1].address else USIZE_MAX
  {
    GappedAscending(reserved);
    var k := if reserved[j].address == a then j else j + 1;
    LowerBoundUnique(reserved, a, k);
  }

  lemma NextBehind(reserved: Table, a: nat, j: nat, end: nat)
    requires Gapped(reserved) && j < |reserved| && In(reserved[j], a) && reserved[j].End() <= end <= USIZE_MAX
    requires Free(reserved, reserved[j].End(), end - reserved[j].End())
    ensures end <= NextStart(reserved, a)
  {
    HeldBy(reserved, a, j);
    if j + 1 < |reserved| && reserved[j + 1].address < end {
      assert In(reserved[j + 1], reserved[j + 1].address) && Covers(reserved, reserved[j + 1].address);
    }
  }

  lemma TooFar(reserved: Table, addr: nat, end: nat, size: nat, align: nat, range: Bounds)
    requires align > 0 && range.Within? && range.Hi() < addr
    ensures !Acceptable(reserved, addr, end, size, align, range)
  {
  }

  /** Giving up means the requested range ends inside or before the current region. */
  lemma {:induction false} StopsBefore(reserved: Table, addr: nat, end: nat, size: nat, align: nat, range: Bounds)
    requires align > 0 && size > 0
    ensures Try(reserved, addr, end, size, align, range).Stop? ==>
      range.Within? && (range.Hi() < addr || range.Hi() < end)
    decreases if addr <= end then end - addr + 1 else 0
  {
    var start := AlignUp(if range.Within? then Max(addr, range.lo) else addr, align);
    var prev, next := PrevEnd(reserved, start), NextStart(reserved, start);
    if start + size <= end && (prev > start || start + size > next) && Max(addr, prev) < Min(end, next) {
      StopsBefore(reserved, Max(addr, prev), Min(end, next), size, align, range);
    }
  }

  /** The search is not complete: only the gap that holds the first candidate, or the one
      right behind it, is ever tried. */
  lemma SearchIncomplete()
    ensures var available, reserved := [Region(0, 100)], [Region(10, 10)];
      && Search(available, reserved, 15, 1, Anywhere) == Skip
      && Free(reserved, 20, 15) && FitsAt(available, 20, 15, 1)
  {
  }
}
