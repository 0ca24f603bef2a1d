/** The range allocator before finalization: runs of the calls that fill its two tables. */
module SetupModel {
  import opened Arithmetic
  import opened Options
  import opened Regions
  import opened RangeSearch
  import R = RangeModel

  datatype State = State(free: Table, reserved: Table, freeCap: nat, reservedCap: nat)

  datatype Op =
    | AddRegion(region: Region)
    | AddReserved(region: Region)
    | AddDynamic(size: nat, align: Option<nat>, range: Bounds)

  /** Both tables are sorted by start address, and no available region ends behind the largest
      address. */
  ghost predicate Inv(s: State) {
    Ascending(s.free) && Ascending(s.reserved) && Bounded(s.free)
  }

  ghost predicate Bounded(t: Table) {
    forall i :: 0 <= i < |t| ==> t[i].End() <= USIZE_MAX
  }

  /** Callers name regions that end inside the address space. */
  predicate Enabled(op: Op) {
    op.AddRegion? ==> op.region.End() <= USIZE_MAX
  }

  /** Nothing is added to a table without a spare slot. */
  function Record(t: Table, capacity: nat, r: Region): Table
    requires Ascending(t)
  {
    if |t| < capacity then Add(t, r) else t
  }

  /** Where a dynamic reservation goes, if anywhere. */
  function Place(s: State, op: Op): Option<Region>
    requires op.AddDynamic?
  {
    if op.size == 0 then None
    else match Search(s.free, s.reserved, op.size, Alignment(op.align), op.range)
      case Hit(start) => Some(Region(start, op.size))
      case _ => None
  }

  ghost function Step(s: State, op: Op): State
    requires Inv(s)
  {
    match op
    case AddRegion(r) => s.(free := Record(s.free, s.freeCap, r))
    case AddReserved(r) => s.(reserved := Record(s.reserved, s.reservedCap, r))
    case AddDynamic(_, _, _) =>
      match Place(s, op)
      case None => s
      case Some(r) => s.(reserved := Record(s.reserved, s.reservedCap, r))
  }

  lemma AddBounded(t: Table, r: Region)
    requires Ascending(t) && Bounded(t) && r.End() <= USIZE_MAX
    ensures Bounded(Add(t, r))
  {
    hide Absorb, Bounded, Ascending;
    var k := LowerBound(t, r.address);
    if !Found(t, r.address) {
      AbsorbBounded(t, if TouchesBefore(t, k, r) then k - 1 else k, if TouchesAfter(t, k, r) then k + 1 else k, r);
    } else if r.size > t[k].size {
      AbsorbBounded(t, k, if TouchesAfter(t, k + 1, r) then k + 2 else k + 1, r);
    }
  }

  lemma AbsorbBounded(t: Table, lo: nat, hi: nat, r: Region)
    requires lo <= hi <= |t| && Ascending(t) && Bounded(t) && r.End() <= USIZE_MAX
    ensures Bounded(Absorb(t, lo, hi, r))
  {
  }

  lemma StepInv(s: State, op: Op)
    requires Inv(s) && Enabled(op)
    ensures Inv(Step(s, op))
  {
    hide Add, Search;
    match op
    case AddRegion(r) =>
      AddCovers(s.free, r);
      AddBounded(s.free, r);
    case AddReserved(r) => AddCovers(s.reserved, r);
    case AddDynamic(_, _, _) =>
      if Place(s, op).Some? {
        AddCovers(s.reserved, Place(s, op).value);
      }
  }

  // ----- whole runs

  ghost predicate Legal(ops: seq<Op>) {
    forall i :: 0 <= i < |ops| ==> Enabled(ops[i])
  }

  ghost function Run(s: State, ops: seq<Op>): (r: State)
    requires Inv(s) && Legal(ops)
    ensures Inv(r)
    decreases |ops|
  {
    if ops == [] then s else
      StepInv(s, ops[0]);
      Run(Step(s, ops[0]), ops[1..])
  }

  ghost function Init(): (s: State)
    ensures Inv(s)
  {
    State([], [], R.STATIC_CAPACITY, R.STATIC_CAPACITY)
  }

  /** The region that a call adds to the available ones, if there is a slot. */
  ghost function Gives(s: State, op: Op): Table {
    if op.AddRegion? && |s.free| < s.freeCap then [op.region] else []
  }

  /** The region that a call reserves, if there is a slot. */
  ghost function Reserves(s: State, op: Op): Table {
    if |s.reserved| >= s.reservedCap then []
    else match op
      case AddRegion(_) => []
      case AddReserved(r) => [r]
      case AddDynamic(_, _, _) => (match Place(s, op) case None => [] case Some(r) => [r])
  }

  /** What a run was given, and what it reserved, in the order of the calls. */
  ghost function Given(s: State, ops: seq<Op>): Table
    requires Inv(s) && Legal(ops)
    decreases |ops|
  {
    if ops == [] then [] else
      StepInv(s, ops[0]);
      Gives(s, ops[0]) + Given(Step(s, ops[0]), ops[1..])
  }

  ghost function Reserved(s: State, ops: seq<Op>): Table
    requires Inv(s) && Legal(ops)
    decreases |ops|
  {
    if ops == [] then [] else
      StepInv(s, ops[0]);
      Reserves(s, ops[0]) + Reserved(Step(s, ops[0]), ops[1..])
  }

  lemma StepCovers(s: State, op: Op)
    requires Inv(s) && Enabled(op)
    ensures forall b :: Covers(Step(s, op).free, b) <==> Covers(s.free, b) || Covers(Gives(s, op), b)
    ensures forall b :: Covers(Step(s, op).reserved, b) <==> Covers(s.reserved, b) || Covers(Reserves(s, op), b)
  {
    hide Add, Search, In;
    match op
    case AddRegion(r) =>
      AddCovers(s.free, r);
      CoversOne(r);
    case AddReserved(r) =>
      AddCovers(s.reserved, r);
      CoversOne(r);
    case AddDynamic(_, _, _) =>
      if Place(s, op).Some? {
        AddCovers(s.reserved, Place(s, op).value);
        CoversOne(Place(s, op).value);
      }
  }

  /** Over every run the start addresses strictly ascend, and each table covers exactly what it
      did before and the union of all that was added to it. */
  lemma {:induction false} RunCovers(s: State, ops: seq<Op>)
    requires Inv(s) && Legal(ops)
    ensures Ascending(Run(s, ops).free) && Ascending(Run(s, ops).reserved)
    ensures forall b :: Covers(Run(s, ops).free, b) <==> Covers(s.free, b) || Covers(Given(s, ops), b)
    ensures forall b :: Covers(Run(s, ops).reserved, b) <==> Covers(s.reserved, b) || Covers(Reserved(s, ops), b)
    decreases |ops|
  {
    hide Inv, Enabled, Step, Gives, Reserves, In, Covers;
    if ops == [] {
      CoversNone();
    } else {
      var t, rest := Step(s, ops[0]), ops[1..];
      StepInv(s, ops[0]);
      StepCovers(s, ops[0]);
      RunCovers(t, rest);
      CoversConcat(Gives(s, ops[0]), Given(t, rest));
      CoversConcat(Reserves(s, ops[0]), Reserved(t, rest));
    }
    InvSorted(Run(s, ops));
  }

  lemma CoversNone()
    ensures forall b :: !Covers([], b)
  {
  }

  lemma InvSorted(s: State)
    requires Inv(s)
    ensures Ascending(s.free) && Ascending(s.reserved)
  {
  }

  // ----- gaps

  /** A dynamic reservation has the size, alignment and range that were asked for, lies inside one
      available region, is disjoint from all earlier reservations, and always leaves the
      reserved table gapped. */
  lemma DynamicKeepsGaps(s: State, op: Op)
    requires Inv(s) && Gapped(s.reserved) && op.AddDynamic?
    ensures Gapped(Step(s, op).reserved)
    ensures Place(s, op).Some? ==>
      var r := Place(s, op).value;
      && r.size == op.size
      && (op.align.Some? && op.align.value > 0 ==> r.address % op.align.value == 0)
      && (op.range.Within? ==> op.range.lo <= r.address && r.address + r.size <= op.range.lo + op.range.size)
      && (exists i :: 0 <= i < |s.free| && Inside(r, s.free[i]))
      && (forall b :: In(r, b) ==> !Covers(s.reserved, b))
  {
    hide Add, Search, Covers;
    if Place(s, op).Some? {
      var r := Place(s, op).value;
      SearchSound(s.free, s.reserved, op.size, Alignment(op.align), op.range);
      DynamicPlaced(s.free, s.reserved, op.size, op.align, op.range);
      AddFree(s.reserved, r);
    }
  }

  /** A region free of reservations ends before the second entry behind its place. */
  lemma AddFree(t: Table, r: Region)
    requires Gapped(t) && r.size > 0 && Free(t, r.address, r.size)
    ensures Ascending(t) && Gapped(Add(t, r))
  {
    hide Add;
    AddKeepsGaps(t, r);
    var k := LowerBound(t, r.address);
    var second := if Found(t, r.address) then k + 2 else k + 1;
    if second < |t| {
      var next := second - 1;
      assert t[next].End() < t[second].address;
      assert In(t[next], t[next].address) && Covers(t, t[next].address);
      assert Found(t, r.address) ==> Covers(t, r.address) by { assert k < |t| ==> In(t[k], t[k].address); }
    }
  }

  /** The call adds a nonempty region that ends before the second entry behind its place, or
      finds no spare slot. Dynamic reservations are always of this kind. */
  ghost predicate Spaced(s: State, op: Op) {
    match op
    case AddRegion(r) => |s.free| < s.freeCap ==> r.size > 0 && EndsBeforeSecond(s.free, r)
    case AddReserved(r) => |s.reserved| < s.reservedCap ==> r.size > 0 && EndsBeforeSecond(s.reserved, r)
    case AddDynamic(_, _, _) => true
  }

  ghost predicate AllSpaced(s: State, ops: seq<Op>)
    requires Inv(s) && Legal(ops)
    decreases |ops|
  {
    ops == [] || (Spaced(s, ops[0]) && (StepInv(s, ops[0]); AllSpaced(Step(s, ops[0]), ops[1..])))
  }

  lemma StepGapped(s: State, op: Op)
    requires Inv(s) && Enabled(op) && Gapped(s.free) && Gapped(s.reserved) && Spaced(s, op)
    ensures Gapped(Step(s, op).free) && Gapped(Step(s, op).reserved)
  {
    hide Add, Search, Gapped;
    match op
    case AddRegion(r) =>
      if |s.free| < s.freeCap {
        AddKeepsGaps(s.free, r);
      }
    case AddReserved(r) =>
      if |s.reserved| < s.reservedCap {
        AddKeepsGaps(s.reserved, r);
      }
    case AddDynamic(_, _, _) => DynamicKeepsGaps(s, op);
  }

  lemma {:induction false} RunGapped(s: State, ops: seq<Op>)
    requires Inv(s) && Legal(ops) && Gapped(s.free) && Gapped(s.reserved) && AllSpaced(s, ops)
    ensures Gapped(Run(s, ops).free) && Gapped(Run(s, ops).reserved)
    decreases |ops|
  {
    hide Inv, Enabled, Step, Gapped, Spaced;
    if ops != [] {
      StepInv(s, ops[0]);
      StepGapped(s, ops[0]);
      RunGapped(Step(s, ops[0]), ops[1..]);
    }
  }

  /** From the first call to finalization: if all calls were spaced, finalization succeeds
      exactly when all that was reserved was given (unless the table is full), and the run
      that then starts manages exactly what was given and not reserved. */
  lemma SetupFinalizes(ops: seq<Op>)
    requires Legal(ops) && AllSpaced(Init(), ops)
    ensures var s := Run(Init(), ops);
      var r := Subtract(s.free, 0, s.reserved, R.STATIC_CAPACITY);
      && (!r.Full? ==> (r.Done? <==> Within(Reserved(Init(), ops), Given(Init(), ops))))
      && (r.Done? && |r.left| < R.STATIC_CAPACITY ==>
            var t := R.State(r.left, [], R.STATIC_CAPACITY, R.STATIC_CAPACITY, {}, {});
            && R.Inv(t)
            && forall b :: R.Managed(t, b) <==> Covers(Given(Init(), ops), b) && !Covers(Reserved(Init(), ops), b))
  {
    hide Run, Given, Reserved, AllSpaced, Subtract, Covers, Within, R.Inv, R.Managed;
    var s := Run(Init(), ops);
    CoversNone();
    GappedNone();
    RunCovers(Init(), ops);
    RunGapped(Init(), ops);
    FinalizeWithin(s.free, s.reserved, R.STATIC_CAPACITY);
    SameWithin(s.reserved, s.free, Reserved(Init(), ops), Given(Init(), ops));
    var r := Subtract(s.free, 0, s.reserved, R.STATIC_CAPACITY);
    if r.Done? && |r.left| < R.STATIC_CAPACITY {
      R.FinalizedInv(s.free, s.reserved, R.STATIC_CAPACITY, R.STATIC_CAPACITY);
    }
  }

  /** All bytes of a table are covered by another. */
  ghost predicate Within(a: Table, b: Table) {
    forall x :: Covers(a, x) ==> Covers(b, x)
  }

  lemma SameWithin(a: Table, b: Table, c: Table, d: Table)
    requires forall x :: Covers(a, x) <==> Covers(c, x)
    requires forall x :: Covers(b, x) <==> Covers(d, x)
    ensures Within(a, b) <==> Within(c, d)
  {
    if Within(a, b) {
      forall x | Covers(c, x) ensures Covers(d, x) {
        assert Covers(a, x);
      }
    }
    if Within(c, d) {
      forall x | Covers(a, x) ensures Covers(b, x) {
        assert Covers(c, x);
      }
    }
  }

  lemma FinalizeWithin(available: Table, reserved: Table, capacity: nat)
    requires Gapped(available) && Gapped(reserved)
    ensures var r := Subtract(available, 0, reserved, capacity);
      !r.Full? ==> (r.Done? <==> Within(reserved, available))
  {
    FinalizeExact(available, reserved, capacity);
  }

  lemma GappedNone()
    ensures Gapped([])
  {
  }
}
