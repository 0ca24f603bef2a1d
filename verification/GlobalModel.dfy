/** The global allocator: large requests go to the range allocator, the others to the
    buddy allocator, which draws its blocks of the largest size from the range allocator. */
module GlobalModel {
  import opened Arithmetic
  import opened Options
  import opened Regions
  import opened RangeSearch
  import B = BuddyModel
  import Blocks = BuddyBlocks
  import BuddyRuns
  import R = RangeModel

  /** `MAX_ALLOCATABLE_BYTES` of the buddy allocator. */
  function MaxBytes(s: State): nat
    requires |s.buddy.free| > 0
  {
    Blocks.Size(|s.buddy.free| - 1)
  }

  /** large: what callers hold from the range allocator; the rest is the two allocators' own. */
  datatype State = State(range: R.State, buddy: B.State, large: map<nat, B.Layout>)

  predicate IsLarge(s: State, layout: B.Layout)
    requires |s.buddy.free| > 0
  {
    Max(layout.size, layout.align) > MaxBytes(s)
  }

  /** Layouts as callers may pass them: nonzero size, alignment a power of two. */
  ghost predicate Proper(layout: B.Layout) {
    layout.size > 0 && exists k: nat :: layout.align == Pow2(k)
  }

  ghost predicate Inv(s: State) {
    && R.Inv(s.range) && B.Inv(s.buddy)
    && (forall t :: t in s.buddy.tops ==> Region(t, MaxBytes(s)) in s.range.live)
    && (forall p :: p in s.large ==>
          && Proper(s.large[p]) && IsLarge(s, s.large[p]) && p % s.large[p].align == 0
          && Region(p, s.large[p].size) in s.range.live && p !in s.buddy.tops)
    && (forall p :: p in s.buddy.live ==> Proper(s.buddy.live[p]) && !IsLarge(s, s.buddy.live[p]))
  }

  /** A finalized range allocator and an empty buddy allocator make an initial state. */
  lemma InitInv(range: R.State, levels: nat)
    requires R.Inv(range) && levels > 0
    ensures Inv(State(range, BuddyRuns.Init(levels), map[]))
  {
  }

  lemma SmallLevel(s: State, layout: B.Layout)
    requires |s.buddy.free| > 0 && !IsLarge(s, layout)
    ensures B.AllocLevel(layout) < |s.buddy.free|
  {
    B.LevelForLeast(Max(Max(layout.size, layout.align), Blocks.MIN_BYTES), |s.buddy.free| - 1);
  }

  lemma InvBasics(s: State)
    requires Inv(s)
    ensures R.Inv(s.range) && B.Inv(s.buddy) && |s.buddy.free| > 0
  {
  }

  // ----- alloc

  /** Panic: growing the tables found no memory. Undefined: the range allocator granted the
      block at address 0, which cannot be put on a list of non-null pointers. */
  datatype Outcome = Panic | Undefined | Null(state: State) | Ptr(state: State, addr: nat)

  ghost function Alloc(s: State, layout: B.Layout): Outcome
    requires Inv(s) && Proper(layout)
  {
    InvBasics(s);
    var max := MaxBytes(s);
    if IsLarge(s, layout) then
      match R.Alloc(s.range, layout.size, layout.align)
      case Panic => Panic
      case Failed(r) => Null(s.(range := r))
      case Ok(r, a) => Ptr(s.(range := r, large := s.large[a := layout]), a)
    else
      SmallLevel(s, layout);
      if B.FirstNonEmpty(s.buddy.free, B.AllocLevel(layout)) < |s.buddy.free| then
        var (b, res) := B.Alloc(s.buddy, layout, B.NoSource);
        Ptr(s.(buddy := b), res.addr)
      else match R.Alloc(s.range, max, max)
        case Panic => Panic
        case Failed(r) => Null(s.(range := r))
        case Ok(r, a) =>
          if a == 0 then Undefined else
            var (b, res) := B.Alloc(s.buddy, layout, B.Grant(a));
            Ptr(s.(range := r, buddy := b), res.addr)
  }

  /** What callers hold, from either allocator. */
  ghost function Live(s: State): map<nat, B.Layout> {
    s.large + s.buddy.live
  }

  /** The bytes set aside for a live block. */
  ghost function Footprint(s: State, p: nat): Region
    requires p in Live(s)
  {
    if p in s.buddy.live then Region(p, Blocks.Size(B.AllocLevel(s.buddy.live[p])))
    else Region(p, s.large[p].size)
  }

  /** Every byte of a buddy block lies in one donated block, which the range allocator
      counts as live. */
  lemma SmallInsideDonated(s: State, x: Blocks.Block, b: nat) returns (t: nat)
    requires Inv(s) && x in B.FreeSet(s.buddy.free) + B.Occupied(s.buddy) && Blocks.Holds(x, b)
    ensures t in s.buddy.tops && Region(t, MaxBytes(s)) in s.range.live && In(Region(t, MaxBytes(s)), b)
  {
    var all, top := B.FreeSet(s.buddy.free) + B.Occupied(s.buddy), |s.buddy.free| - 1;
    assert Blocks.Covered(all, b);
    var d :| d in Blocks.Donated(s.buddy.tops, top) && Blocks.Holds(d, b);
    t := d.addr;
  }

  /** No byte belongs to a buddy block and to a large block. */
  lemma LargeAvoidsBuddy(s: State, x: Blocks.Block, p: nat, b: nat)
    requires Inv(s) && x in B.FreeSet(s.buddy.free) + B.Occupied(s.buddy) && p in s.large
    requires Blocks.Holds(x, b)
    ensures !In(Region(p, s.large[p].size), b)
  {
    var t := SmallInsideDonated(s, x, b);
    var y, z := Region(t, MaxBytes(s)), Region(p, s.large[p].size);
    assert y in s.range.live + s.range.stores && z in s.range.live + s.range.stores && y != z;
  }

  lemma KeysApart(s: State, p: nat)
    requires Inv(s) && p in s.buddy.live
    ensures p !in s.large
  {
    var x := Blocks.Block(p, B.AllocLevel(s.buddy.live[p]));
    assert x in B.LiveSet(s.buddy.live);
    forall q | q in s.large ensures q != p {
      LargeAvoidsBuddy(s, x, q, p);
    }
  }

  lemma LiveIsReserved(s: State, p: nat)
    requires Inv(s) && p in Live(s)
    ensures Covers(s.range.reserved, p)
  {
    if p in s.buddy.live {
      var x := Blocks.Block(p, B.AllocLevel(s.buddy.live[p]));
      assert x in B.LiveSet(s.buddy.live);
      var t := SmallInsideDonated(s, x, p);
      assert Region(t, MaxBytes(s)) in s.range.live + s.range.stores;
      assert R.Held(s.range.live + s.range.stores, p);
    } else {
      assert Region(p, s.large[p].size) in s.range.live + s.range.stores;
      assert R.Held(s.range.live + s.range.stores, p);
    }
  }

  lemma TopsReserved(s: State, t: nat)
    requires Inv(s) && t in s.buddy.tops
    ensures Covers(s.range.reserved, t)
  {
  }

  lemma LargeAllocInv(s: State, layout: B.Layout)
    requires Inv(s) && Proper(layout) && |s.buddy.free| > 0 && IsLarge(s, layout)
    requires layout.align > 0
    ensures match R.Alloc(s.range, layout.size, layout.align)
      case Panic => true
      case Failed(r) => Inv(s.(range := r))
      case Ok(r, a) => Inv(s.(range := r, large := s.large[a := layout])) && a !in Live(s)
  {
    hide R.Inv, B.Inv, R.Alloc;
    R.AllocInv(s.range, layout.size, layout.align);
    match R.Alloc(s.range, layout.size, layout.align)
    case Panic =>
    case Failed(r) =>
    case Ok(r, a) =>
      FreshFromRange(s, a, layout.size);
  }

  /** An address that was free in the range allocator is held by nobody. */
  lemma FreshFromRange(s: State, a: nat, size: nat)
    requires Inv(s) && size > 0
    requires forall b :: In(Region(a, size), b) ==> Covers(s.range.free, b)
    ensures a !in Live(s) && a !in s.buddy.tops
  {
    assert In(Region(a, size), a);
    if a in Live(s) {
      LiveIsReserved(s, a);
    }
    if a in s.buddy.tops {
      TopsReserved(s, a);
    }
  }

  /** A block the range allocator hands out, unless it is at address 0, is fresh memory for
      the buddy allocator. */
  lemma GrantDonatable(s: State, r: R.State, a: nat)
    requires a > 0
    requires |s.buddy.free| > 0 && Inv(s) && R.Alloc(s.range, MaxBytes(s), MaxBytes(s)) == R.Ok(r, a)
    ensures B.Donatable(s.buddy, a, 1) && a !in s.large && a !in s.buddy.tops
  {
    hide R.Alloc, B.Inv;
    var max := MaxBytes(s);
    var x := Region(a, max);
    R.AllocInv(s.range, max, max);
    FreshFromRange(s, a, max);
    forall t | t in s.buddy.tops ensures R.Apart(Region(t, max), x) {
      assert Region(t, max) in r.live + r.stores && x in r.live + r.stores;
      assert Region(t, max) != x;
    }
  }

  lemma GrantAllocInv(s: State, layout: B.Layout, r: R.State, a: nat)
    requires Inv(s) && Proper(layout) && |s.buddy.free| > 0 && !IsLarge(s, layout)
    requires R.Alloc(s.range, MaxBytes(s), MaxBytes(s)) == R.Ok(r, a) && a > 0
    requires B.AllocLevel(layout) < |s.buddy.free|
    requires B.FirstNonEmpty(s.buddy.free, B.AllocLevel(layout)) == |s.buddy.free|
    ensures var (b, res) := B.Alloc(s.buddy, layout, B.Grant(a));
      && res.Ok? && b.live == s.buddy.live[res.addr := layout] && res.addr !in s.buddy.live
      && Inv(s.(range := r, buddy := b))
  {
    hide R.Alloc, R.Inv, B.Inv, B.AllocLevel;
    GrantDonatable(s, r, a);
    R.AllocInv(s.range, MaxBytes(s), MaxBytes(s));
    B.AllocInv(s.buddy, layout, B.Grant(a));
  }

  lemma ListAllocInv(s: State, layout: B.Layout)
    requires Inv(s) && Proper(layout) && |s.buddy.free| > 0 && !IsLarge(s, layout)
    requires B.AllocLevel(layout) < |s.buddy.free|
    requires B.FirstNonEmpty(s.buddy.free, B.AllocLevel(layout)) < |s.buddy.free|
    ensures var (b, res) := B.Alloc(s.buddy, layout, B.NoSource);
      && res.Ok? && b.live == s.buddy.live[res.addr := layout] && res.addr !in s.buddy.live
      && Inv(s.(buddy := b))
  {
    hide R.Inv, B.Inv, B.AllocLevel;
    B.AllocInv(s.buddy, layout, B.NoSource);
  }

  lemma AllocInv(s: State, layout: B.Layout)
    requires Inv(s) && Proper(layout)
    ensures match Alloc(s, layout)
      case Panic => true
      case Undefined => true
      case Null(t) => Inv(t) && Live(t) == Live(s)
      case Ptr(t, a) => Inv(t) && a !in Live(s) && Live(t) == Live(s)[a := layout]
  {
    hide Inv, R.Alloc, B.Alloc, B.AllocLevel, IsLarge, Live;
    InvBasics(s);
    if IsLarge(s, layout) {
      LargeAllocInv(s, layout);
      match R.Alloc(s.range, layout.size, layout.align)
      case Panic =>
      case Failed(r) => LiveSame(s, r);
      case Ok(r, a) => LiveLarge(s, s.(range := r, large := s.large[a := layout]), a, layout);
    } else {
      SmallLevel(s, layout);
      if B.FirstNonEmpty(s.buddy.free, B.AllocLevel(layout)) < |s.buddy.free| {
        ListAllocInv(s, layout);
        var (b, res) := B.Alloc(s.buddy, layout, B.NoSource);
        LiveSmall(s, s.(buddy := b), res.addr, layout);
      } else {
        match R.Alloc(s.range, MaxBytes(s), MaxBytes(s))
        case Panic =>
        case Failed(r) =>
          RangeFailInv(s, r);
          LiveSame(s, r);
        case Ok(r, a) =>
          if a > 0 {
            GrantAllocInv(s, layout, r, a);
            var (b, res) := B.Alloc(s.buddy, layout, B.Grant(a));
            LiveSmall(s, s.(range := r, buddy := b), res.addr, layout);
          }
      }
    }
  }

  lemma LiveSame(s: State, r: R.State)
    ensures Live(s.(range := r)) == Live(s)
  {
  }

  lemma LiveLarge(s: State, t: State, a: nat, layout: B.Layout)
    requires t.large == s.large[a := layout] && t.buddy == s.buddy && a !in Live(s)
    ensures Live(t) == Live(s)[a := layout]
  {
  }

  lemma LiveSmall(s: State, t: State, a: nat, layout: B.Layout)
    requires Inv(t) && t.large == s.large && t.buddy.live == s.buddy.live[a := layout] && a !in s.buddy.live
    ensures Live(t) == Live(s)[a := layout] && a !in Live(s)
  {
    hide Inv;
    KeysDisjoint(t);
  }

  lemma RangeFailInv(s: State, r: R.State)
    requires |s.buddy.free| > 0 && Inv(s) && R.Alloc(s.range, MaxBytes(s), MaxBytes(s)) == R.Failed(r)
    ensures Inv(s.(range := r))
  {
    hide R.Alloc, R.Inv, B.Inv;
    R.AllocInv(s.range, MaxBytes(s), MaxBytes(s));
  }

  lemma KeysDisjoint(s: State)
    requires Inv(s)
    ensures s.large.Keys !! s.buddy.live.Keys
  {
    forall p | p in s.buddy.live ensures p !in s.large {
      KeysApart(s, p);
    }
  }

  /** How the buddy allocator answers: a list or a granted block always serves. */
  lemma BuddyAnswers(b: B.State, layout: B.Layout, heap: B.Heap)
    requires B.AllocLevel(layout) < |b.free|
    ensures var empty := B.FirstNonEmpty(b.free, B.AllocLevel(layout)) == |b.free|;
      && (!empty || heap.Grant? ==> B.Alloc(b, layout, heap).1.Ok?)
      && (empty && heap == B.Exhausted ==> B.Alloc(b, layout, heap) == (b, B.HeapFailed))
  {
  }

  // ----- address 0

  /** The range allocator, given headroom, has its lowest place for a request at address 0. */
  ghost predicate ZeroServes(s: State, size: nat, align: nat)
    requires align > 0
  {
    Ascending(s.range.reserved) && R.EnsureHeadroom(s.range).Some? &&
    FitsAt(R.EnsureHeadroom(s.range).value.free, 0, size, align)
  }

  ghost predicate ListsServe(s: State, layout: B.Layout) {
    B.FirstNonEmpty(s.buddy.free, B.AllocLevel(layout)) < |s.buddy.free|
  }

  /** A successful large request is answered with the null pointer exactly when its place is
      at address 0, and a request for which the buddy allocator grows is undefined exactly when
      the block granted is; the buddy allocator itself never answers with null. */
  lemma NullExact(s: State, layout: B.Layout)
    requires Inv(s) && Proper(layout)
    ensures |s.buddy.free| > 0 && layout.align > 0
    ensures var r := Alloc(s, layout);
      if IsLarge(s, layout) then !r.Undefined? && (r.Ptr? && r.addr == 0 <==> ZeroServes(s, layout.size, layout.align))
      else
        && (r.Ptr? ==> r.addr > 0)
        && (r.Undefined? <==> !ListsServe(s, layout) && ZeroServes(s, MaxBytes(s), MaxBytes(s)))
  {
    hide Inv, R.Alloc, B.Alloc, B.AllocLevel, R.EnsureHeadroom, IsLarge;
    InvBasics(s);
    if IsLarge(s, layout) {
      R.ZeroExact(s.range, layout.size, layout.align);
    } else {
      SmallLevel(s, layout);
      AllocInv(s, layout);
      R.ZeroExact(s.range, MaxBytes(s), MaxBytes(s));
      SmallAnswer(s, layout);
      var r := Alloc(s, layout);
      if r.Ptr? {
        SmallNonNull(r.state, r.addr);
      }
    }
  }

  /** What a request served by the buddy allocator returns is one of its live blocks. */
  lemma SmallAnswer(s: State, layout: B.Layout)
    requires Inv(s) && Proper(layout) && |s.buddy.free| > 0 && !IsLarge(s, layout)
    ensures var r := Alloc(s, layout); r.Ptr? ==> Inv(r.state) && r.addr in r.state.buddy.live
  {
    hide Inv, R.Alloc, B.Alloc, B.AllocLevel;
    AllocInv(s, layout);
    SmallLevel(s, layout);
    InvBasics(s);
    if B.FirstNonEmpty(s.buddy.free, B.AllocLevel(layout)) < |s.buddy.free| {
      ListAllocInv(s, layout);
    } else {
      match R.Alloc(s.range, MaxBytes(s), MaxBytes(s))
      case Panic =>
      case Failed(r) =>
      case Ok(r, a) =>
        if a > 0 {
          GrantAllocInv(s, layout, r, a);
        }
    }
  }

  lemma SmallNonNull(s: State, p: nat)
    requires Inv(s) && p in s.buddy.live
    ensures p > 0
  {
    hide R.Inv, Proper, IsLarge;
    var x := Blocks.Block(p, B.AllocLevel(s.buddy.live[p]));
    assert x in B.LiveSet(s.buddy.live);
    B.OccupiedAligned(s.buddy.free, B.Occupied(s.buddy), s.buddy.tops, x);
  }

  /** An initial state that answers a request with null and counts the block as live. */
  lemma NullAnswer()
    ensures var range := R.State([Region(0, 4096)], [], 128, 128, {}, {});
      var s, layout := State(range, BuddyRuns.Init(1), map[]), B.Layout(16, 8);
      && Inv(s) && Proper(layout)
      && Alloc(s, layout).Ptr? && Alloc(s, layout).addr == 0 && 0 in Live(Alloc(s, layout).state)
  {
    hide B.Inv, R.Alloc;
    var range := R.State([Region(0, 4096)], [], 128, 128, {}, {});
    var s, layout := State(range, BuddyRuns.Init(1), map[]), B.Layout(16, 8);
    assert forall b :: In(range.free[0], b) ==> Covers(range.free, b);
    InitInv(range, 1);
    assert Pow2(3) == 8;
    assert R.EnsureHeadroom(range) == Some(range);
    assert FitsAt(range.free, 0, 16, 8);
    NullExact(s, layout);
    AllocInv(s, layout);
  }

  // ----- dealloc

  /** `dealloc` of a live pointer with its layout; None if table growth panicked. */
  ghost function Dealloc(s: State, ptr: nat): Option<State>
    requires Inv(s) && ptr in Live(s)
  {
    InvBasics(s);
    if ptr in s.buddy.live then Some(s.(buddy := B.Dealloc(s.buddy, ptr)))
    else match R.Dealloc(s.range, Region(ptr, s.large[ptr].size))
      case None => None
      case Some(r) => Some(s.(range := r, large := s.large - {ptr}))
  }

  /** The dispatch by layout agrees with who served the block. */
  lemma DispatchAgrees(s: State, ptr: nat)
    requires Inv(s) && ptr in Live(s)
    ensures |s.buddy.free| > 0 && (IsLarge(s, Live(s)[ptr]) <==> ptr !in s.buddy.live)
  {
  }

  lemma DeallocInv(s: State, ptr: nat)
    requires Inv(s) && ptr in Live(s)
    ensures match Dealloc(s, ptr)
      case None => true
      case Some(t) => Inv(t) && Live(t) == Live(s) - {ptr}
  {
    hide Inv, B.Dealloc, R.Dealloc;
    InvBasics(s);
    KeysDisjoint(s);
    if ptr in s.buddy.live {
      SmallDeallocInv(s, ptr);
    } else {
      LargeDeallocInv(s, ptr);
    }
  }

  lemma SmallDeallocInv(s: State, ptr: nat)
    requires Inv(s) && ptr in s.buddy.live && ptr !in s.large
    ensures var t := s.(buddy := B.Dealloc(s.buddy, ptr));
      Inv(t) && Live(t) == Live(s) - {ptr}
  {
    hide R.Inv, B.Inv, B.MergeUp, B.AllocLevel, Proper;
    B.DeallocInv(s.buddy, ptr);
  }

  lemma LargeDeallocInv(s: State, ptr: nat)
    requires Inv(s) && ptr in s.large && ptr !in s.buddy.live
    ensures (LargeLive(s, ptr); R.Dealloc(s.range, Region(ptr, s.large[ptr].size)).Some?) ==>
      (LargeLive(s, ptr);
       var t := s.(range := R.Dealloc(s.range, Region(ptr, s.large[ptr].size)).value, large := s.large - {ptr});
       Inv(t) && Live(t) == Live(s) - {ptr})
  {
    hide R.Inv, B.Inv, R.Dealloc, Proper;
    R.DeallocInv(s.range, Region(ptr, s.large[ptr].size));
    LargeDistinct(s, ptr);
  }

  lemma LargeLive(s: State, ptr: nat)
    requires Inv(s) && ptr in s.large
    ensures R.Inv(s.range) && Region(ptr, s.large[ptr].size) in s.range.live && s.large[ptr].size > 0
  {
  }

  /** Large blocks at different addresses are different regions, none of them donated. */
  lemma LargeDistinct(s: State, ptr: nat)
    requires Inv(s) && ptr in s.large
    ensures forall p :: p in s.large && p != ptr ==> Region(p, s.large[p].size) != Region(ptr, s.large[ptr].size)
    ensures forall t :: t in s.buddy.tops ==> Region(t, MaxBytes(s)) != Region(ptr, s.large[ptr].size)
  {
  }

  // ----- whole runs

  datatype Op = AllocOp(layout: B.Layout) | DeallocOp(ptr: nat)

  ghost predicate Enabled(s: State, op: Op) {
    match op
    case AllocOp(layout) => Proper(layout)
    case DeallocOp(ptr) => ptr in Live(s)
  }

  ghost function Step(s: State, op: Op): (r: Option<State>)
    requires Inv(s) && Enabled(s, op)
    ensures r.Some? ==> Inv(r.value)
  {
    hide Inv;
    match op
    case AllocOp(layout) =>
      AllocInv(s, layout);
      (match Alloc(s, layout)
       case Panic => None
       case Undefined => None
       case Null(t) => Some(t)
       case Ptr(t, _) => Some(t))
    case DeallocOp(ptr) =>
      DeallocInv(s, ptr);
      Dealloc(s, ptr)
  }

  ghost predicate Legal(s: State, ops: seq<Op>)
    requires Inv(s)
    decreases |ops|
  {
    ops == [] || (Enabled(s, ops[0]) && Step(s, ops[0]).Some? && Legal(Step(s, ops[0]).value, ops[1..]))
  }

  ghost function Run(s: State, ops: seq<Op>): (r: State)
    requires Inv(s) && Legal(s, ops)
    ensures Inv(r)
    decreases |ops|
  {
    if ops == [] then s else Run(Step(s, ops[0]).value, ops[1..])
  }

  lemma StepManaged(s: State, op: Op)
    requires Inv(s) && Enabled(s, op) && Step(s, op).Some?
    ensures forall b :: R.Managed(Step(s, op).value.range, b) <==> R.Managed(s.range, b)
  {
    hide R.Inv, R.Managed, R.Alloc, R.Dealloc, B.Inv, B.Alloc, B.Dealloc, B.AllocLevel;
    InvBasics(s);
    match op
    case AllocOp(layout) =>
      if IsLarge(s, layout) {
        R.AllocInv(s.range, layout.size, layout.align);
      } else {
        R.AllocInv(s.range, MaxBytes(s), MaxBytes(s));
      }
    case DeallocOp(ptr) =>
      if ptr !in s.buddy.live {
        LargeLive(s, ptr);
        R.DeallocInv(s.range, Region(ptr, s.large[ptr].size));
      }
  }

  /** The bytes under management never change. */
  lemma {:induction false} RunManaged(s: State, ops: seq<Op>)
    requires Inv(s) && Legal(s, ops)
    ensures forall b :: R.Managed(Run(s, ops).range, b) <==> R.Managed(s.range, b)
    decreases |ops|
  {
    hide Inv, R.Managed, Step, Enabled;
    if ops != [] {
      StepManaged(s, ops[0]);
      RunManaged(Step(s, ops[0]).value, ops[1..]);
    }
  }

  /** If byte 0 is not under management, no request in any run is undefined or answered with
      null although it succeeded. */
  lemma AllocNonNull(s: State, ops: seq<Op>, layout: B.Layout)
    requires Inv(s) && Legal(s, ops) && Proper(layout) && !R.Managed(s.range, 0)
    ensures var r := Alloc(Run(s, ops), layout); !r.Undefined? && (r.Ptr? ==> r.addr > 0)
  {
    hide Inv, R.Managed, Run, Legal, Alloc;
    RunManaged(s, ops);
    var t := Run(s, ops);
    NullExact(t, layout);
    NoZero(t, layout.size, layout.align);
    NoZero(t, MaxBytes(t), MaxBytes(t));
  }

  lemma NoZero(s: State, size: nat, align: nat)
    requires Inv(s) && !R.Managed(s.range, 0) && size > 0 && align > 0
    ensures !ZeroServes(s, size, align)
  {
    hide B.Inv, R.Inv, R.Managed, R.Alloc, R.EnsureHeadroom;
    R.ZeroExact(s.range, size, align);
  }

  /** Over any run, any two live blocks are disjoint, whichever allocators served them. */
  lemma LiveBlocksDisjoint(s: State, ops: seq<Op>, p: nat, q: nat, b: nat)
    requires Inv(s) && Legal(s, ops)
    requires p in Live(Run(s, ops)) && q in Live(Run(s, ops)) && p != q
    ensures !(In(Footprint(Run(s, ops), p), b) && In(Footprint(Run(s, ops), q), b))
  {
    hide Inv, Run, Legal;
    DisjointIn(Run(s, ops), p, q, b);
  }

  lemma DisjointIn(s: State, p: nat, q: nat, b: nat)
    requires Inv(s) && p in Live(s) && q in Live(s) && p != q
    ensures !(In(Footprint(s, p), b) && In(Footprint(s, q), b))
  {
    if p in s.buddy.live && q in s.buddy.live {
      SmallApart(s, p, q);
    } else if p in s.buddy.live {
      MixedApart(s, p, q, b);
    } else if q in s.buddy.live {
      MixedApart(s, q, p, b);
    } else {
      assert Footprint(s, p) in s.range.live + s.range.stores && Footprint(s, q) in s.range.live + s.range.stores;
      assert R.Apart(Footprint(s, p), Footprint(s, q));
    }
  }

  lemma SmallApart(s: State, p: nat, q: nat)
    requires Inv(s) && p in s.buddy.live && q in s.buddy.live && p != q
    ensures R.Apart(Footprint(s, p), Footprint(s, q))
  {
    var x := Blocks.Block(p, B.AllocLevel(s.buddy.live[p]));
    var y := Blocks.Block(q, B.AllocLevel(s.buddy.live[q]));
    assert x in B.LiveSet(s.buddy.live) && y in B.LiveSet(s.buddy.live);
    assert Blocks.Apart(x, y);
  }

  lemma MixedApart(s: State, p: nat, q: nat, b: nat)
    requires Inv(s) && p in s.buddy.live && q in s.large && q !in s.buddy.live
    ensures !(In(Footprint(s, p), b) && In(Footprint(s, q), b))
  {
    var x := Blocks.Block(p, B.AllocLevel(s.buddy.live[p]));
    assert x in B.LiveSet(s.buddy.live);
    if Blocks.Holds(x, b) {
      LargeAvoidsBuddy(s, x, q, b);
    }
  }

  /** Over any run, a live block starts at a multiple of its alignment and has room for
      its size. */
  lemma LiveBlocksAligned(s: State, ops: seq<Op>, p: nat)
    requires Inv(s) && Legal(s, ops) && p in Live(Run(s, ops))
    ensures var layout := Live(Run(s, ops))[p];
      && Footprint(Run(s, ops), p).size >= layout.size
      && layout.align > 0 && p % layout.align == 0
  {
    hide Inv, Run, Legal;
    AlignedIn(Run(s, ops), p);
  }

  lemma AlignedIn(s: State, p: nat)
    requires Inv(s) && p in Live(s)
    ensures Footprint(s, p).size >= Live(s)[p].size && Live(s)[p].align > 0 && p % Live(s)[p].align == 0
  {
    hide B.Inv, Blocks.Size, B.AllocLevel, R.Inv;
    if p in s.buddy.live {
      SmallPlaced(s, p);
      AlignedToPow2(p, B.AllocLevel(s.buddy.live[p]), s.buddy.live[p].align);
    }
  }

  lemma SmallPlaced(s: State, p: nat)
    requires Inv(s) && p in s.buddy.live
    ensures var layout := s.buddy.live[p]; var level := B.AllocLevel(layout);
      p % Blocks.Size(level) == 0 && layout.size <= Blocks.Size(level) && layout.align <= Blocks.Size(level)
  {
    hide R.Inv, Blocks.Size;
    var x := Blocks.Block(p, B.AllocLevel(s.buddy.live[p]));
    assert x in B.LiveSet(s.buddy.live);
    B.OccupiedAligned(s.buddy.free, B.Occupied(s.buddy), s.buddy.tops, x);
  }

  lemma AlignedToPow2(p: nat, level: nat, align: nat)
    requires p % Blocks.Size(level) == 0 && align <= Blocks.Size(level)
    requires exists k: nat :: align == Pow2(k)
    ensures align > 0 && p % align == 0
  {
    var k: nat :| align == Pow2(k);
    Blocks.Pow2Split(level);
    if k > level + 3 {
      Pow2Strict(level + 3, k);
    }
    DividesDown(p, level + 3, k);
  }

  lemma {:induction false} Pow2Strict(a: nat, b: nat)
    requires a < b
    ensures Pow2(a) < Pow2(b)
  {
    Pow2Monotone(a, b - 1);
  }

  /** A multiple of a power of two is a multiple of every smaller one. */
  lemma {:induction false} DividesDown(x: nat, n: nat, k: nat)
    requires x % Pow2(n) == 0 && k <= n
    ensures x % Pow2(k) == 0
    decreases n
  {
    if k < n {
      var h, q := Pow2(n - 1), x / Pow2(n);
      assert x == (2 * h) * q == h * (2 * q);
      DivModUnique(x, h, 2 * q, 0);
      DividesDown(x, n - 1, k);
    }
  }

  /** Over any run, all memory the buddy allocator holds is reserved in the range allocator. */
  lemma BuddyMemoryReserved(s: State, ops: seq<Op>, x: Blocks.Block, b: nat)
    requires Inv(s) && Legal(s, ops)
    requires x in B.FreeSet(Run(s, ops).buddy.free) + B.Occupied(Run(s, ops).buddy) && Blocks.Holds(x, b)
    ensures Covers(Run(s, ops).range.reserved, b) && !Covers(Run(s, ops).range.free, b)
  {
    var g := Run(s, ops);
    var t := SmallInsideDonated(g, x, b);
    assert Region(t, MaxBytes(g)) in g.range.live + g.range.stores;
    assert R.Held(g.range.live + g.range.stores, b);
  }

  // ----- who serves a request, and when it fails

  /** Requests above the largest buddy block, by size or alignment, leave the buddy allocator
      alone; all others leave the large blocks alone. */
  lemma AllocWhere(s: State, layout: B.Layout)
    requires Inv(s) && Proper(layout)
    ensures |s.buddy.free| > 0
    ensures var r, max := Alloc(s, layout), Blocks.Size(|s.buddy.free| - 1);
      if layout.size > max || layout.align > max then
        && (r.Null? ==> r.state.buddy == s.buddy && r.state.large == s.large)
        && (r.Ptr? ==> r.state.buddy == s.buddy && r.state.large == s.large[r.addr := layout])
      else
        && (r.Null? ==> r.state.buddy == s.buddy && r.state.large == s.large)
        && (r.Ptr? ==> r.state.large == s.large && r.addr in r.state.buddy.live)
  {
    hide Inv, R.Alloc, B.Alloc, B.AllocLevel, Blocks.Size;
    InvBasics(s);
    if !IsLarge(s, layout) {
      SmallAnswer(s, layout);
    }
  }

  /** What keeps a request from being served, in terms of free memory: for a large one, that the
      range allocator has no place for it; for the others, that no aligned run of the rounded
      size is free in the buddy allocator and the range allocator has no place for a block of
      the largest size. It panics when the range allocator is needed and cannot have headroom. */
  lemma FailureExact(s: State, layout: B.Layout)
    requires Inv(s) && Proper(layout)
    ensures |s.buddy.free| > 0 && layout.align > 0
    ensures var r, max := Alloc(s, layout), Blocks.Size(|s.buddy.free| - 1);
      if layout.size > max || layout.align > max then
        (r.Null? <==> NoPlace(s, layout.size, layout.align)) && (r.Panic? <==> R.EnsureHeadroom(s.range).None?)
      else
        && (r.Null? <==> NoRun(s, layout) && NoPlace(s, max, max))
        && (r.Panic? <==> NoRun(s, layout) && R.EnsureHeadroom(s.range).None?)
  {
    hide Inv, R.Alloc, R.EnsureHeadroom, B.Alloc, B.AllocLevel, Blocks.Size, BuddyRuns.FreeRun;
    InvBasics(s);
    if IsLarge(s, layout) {
      R.AllocLowest(s.range, layout.size, layout.align);
    } else {
      SmallLevel(s, layout);
      R.AllocLowest(s.range, MaxBytes(s), MaxBytes(s));
      BuddyRuns.NoMissedBlock(s.buddy, layout);
      NoRunNoList(s, layout);
    }
  }

  /** With headroom, the range allocator has no aligned place of the size. */
  ghost predicate NoPlace(s: State, size: nat, align: nat)
    requires align > 0
  {
    Ascending(s.range.reserved) && R.EnsureHeadroom(s.range).Some? &&
    forall c :: !FitsAt(R.EnsureHeadroom(s.range).value.free, c, size, align)
  }

  /** No naturally aligned run of the rounded size is entirely free in the buddy allocator. */
  ghost predicate NoRun(s: State, layout: B.Layout) {
    !exists x: Blocks.Block :: x.level == B.AllocLevel(layout) && BuddyRuns.FreeRun(s.buddy, x)
  }

  lemma NoRunNoList(s: State, layout: B.Layout)
    requires B.Inv(s.buddy) && |s.buddy.free| > 0 && B.AllocLevel(layout) < |s.buddy.free|
    ensures NoRun(s, layout) <==> !ListsServe(s, layout)
  {
    BuddyRuns.NoMissedBlock(s.buddy, layout);
  }

  // ----- nothing is lost between the two allocators

  /** The blocks that callers and the buddy allocator hold from the range allocator. */
  ghost function Holdings(s: State): set<Region>
    requires |s.buddy.free| > 0
  {
    (set t | t in s.buddy.tops :: Region(t, MaxBytes(s))) + (set p | p in s.large :: Region(p, s.large[p].size))
  }

  /** The range allocator holds nothing for anybody else. */
  ghost predicate NoLeak(s: State) {
    |s.buddy.free| > 0 && s.range.live == Holdings(s)
  }

  lemma AllocNoLeak(s: State, layout: B.Layout)
    requires Inv(s) && Proper(layout) && NoLeak(s)
    ensures match Alloc(s, layout)
      case Panic => true
      case Undefined => true
      case Null(t) => NoLeak(t)
      case Ptr(t, _) => NoLeak(t)
  {
    hide Inv, R.Alloc, B.Alloc, B.AllocLevel, Blocks.Size;
    InvBasics(s);
    if IsLarge(s, layout) {
      LargeAllocInv(s, layout);
      R.AllocInv(s.range, layout.size, layout.align);
      if R.Alloc(s.range, layout.size, layout.align).Ok? {
        var a := R.Alloc(s.range, layout.size, layout.align).addr;
        LargeKey(s, a);
        AddHolding(s, a, layout);
      }
    } else {
      SmallLevel(s, layout);
      R.AllocInv(s.range, MaxBytes(s), MaxBytes(s));
      B.AllocTops(s.buddy, layout, B.NoSource);
      if R.Alloc(s.range, MaxBytes(s), MaxBytes(s)).Ok? {
        var a := R.Alloc(s.range, MaxBytes(s), MaxBytes(s)).addr;
        B.AllocTops(s.buddy, layout, B.Grant(a));
        AddTop(s, a);
      }
    }
  }

  lemma AddTop(s: State, a: nat)
    requires |s.buddy.free| > 0
    ensures forall b: B.State, r: R.State :: |b.free| == |s.buddy.free| && b.tops == s.buddy.tops + {a} ==>
      Holdings(s.(range := r, buddy := b)) == Holdings(s) + {Region(a, MaxBytes(s))}
  {
    hide Blocks.Size;
  }

  lemma SameHoldings(s: State, b: B.State)
    requires |s.buddy.free| == |b.free| > 0 && b.tops == s.buddy.tops
    ensures Holdings(s.(buddy := b)) == Holdings(s)
  {
    hide Blocks.Size;
  }

  lemma LargeKey(s: State, p: nat)
    ensures p !in Live(s) ==> p !in s.large
  {
  }

  lemma AddHolding(s: State, a: nat, layout: B.Layout)
    requires |s.buddy.free| > 0 && a !in s.large
    ensures Holdings(s.(large := s.large[a := layout])) == Holdings(s) + {Region(a, layout.size)}
  {
    var t := s.(large := s.large[a := layout]);
    forall x | x in Holdings(s) + {Region(a, layout.size)} ensures x in Holdings(t) {
      if p :| p in s.large && x == Region(p, s.large[p].size) {
        assert p in t.large;
      } else if x == Region(a, layout.size) {
        assert a in t.large;
      }
    }
  }

  lemma RangeHoldings(s: State)
    requires |s.buddy.free| > 0
    ensures forall r: R.State :: Holdings(s.(range := r)) == Holdings(s)
  {
    hide Blocks.Size;
  }

  lemma DropHolding(s: State, p: nat)
    requires Inv(s) && |s.buddy.free| > 0 && p in s.large
    ensures Holdings(s.(large := s.large - {p})) == Holdings(s) - {Region(p, s.large[p].size)}
  {
    hide R.Inv, B.Inv, Proper;
    LargeDistinct(s, p);
    var t := s.(large := s.large - {p});
    forall x | x in Holdings(s) - {Region(p, s.large[p].size)} ensures x in Holdings(t) {
      if q :| q in s.large && x == Region(q, s.large[q].size) {
        assert q in t.large;
      }
    }
  }

  lemma DeallocNoLeak(s: State, ptr: nat)
    requires Inv(s) && ptr in Live(s) && NoLeak(s)
    ensures match Dealloc(s, ptr) case None => true case Some(t) => NoLeak(t)
  {
    hide Inv, R.Dealloc, B.Dealloc, Holdings, Blocks.Size;
    InvBasics(s);
    if ptr in s.buddy.live {
      B.DeallocTops(s.buddy, ptr);
      SameHoldings(s, B.Dealloc(s.buddy, ptr));
    } else {
      LargeLive(s, ptr);
      RangeHoldings(s.(large := s.large - {ptr}));
      R.DeallocInv(s.range, Region(ptr, s.large[ptr].size));
      DropHolding(s, ptr);
    }
  }

  /** Over every run from a freshly finalized state, what the range allocator has handed out is
      exactly the large blocks callers hold and the blocks donated to the buddy allocator. */
  lemma {:induction false} RunNoLeak(s: State, ops: seq<Op>)
    requires Inv(s) && Legal(s, ops) && NoLeak(s)
    ensures NoLeak(Run(s, ops))
    decreases |ops|
  {
    hide Inv, NoLeak, Alloc, Dealloc;
    if ops != [] {
      match ops[0] {
        case AllocOp(layout) => AllocNoLeak(s, layout);
        case DeallocOp(ptr) => DeallocNoLeak(s, ptr);
      }
      RunNoLeak(Step(s, ops[0]).value, ops[1..]);
    }
  }

  lemma InitNoLeak(range: R.State, levels: nat)
    requires R.Inv(range) && range.live == {} && levels > 0
    ensures NoLeak(State(range, BuddyRuns.Init(levels), map[]))
  {
  }

  // ----- boot handoff

  /** The range allocator is trimmed for boot; what callers hold stays as it is. */
  ghost function Trimmed(s: State, reserve: nat): (t: State)
    requires Inv(s) && reserve > 0 && R.Trim(s.range, reserve).Ranges?
    ensures Inv(t) && Live(t) == Live(s)
  {
    TrimmedInv(s, reserve);
    s.(range := R.Trimmed(s.range, reserve))
  }

  lemma TrimmedInv(s: State, reserve: nat)
    requires Inv(s) && reserve > 0 && R.Trim(s.range, reserve).Ranges?
    ensures Inv(s.(range := R.Trimmed(s.range, reserve)))
  {
    hide R.Inv, R.Trim, B.Inv, Proper;
    R.TrimExact(s.range, reserve);
  }

  lemma FootprintManaged(s: State, p: nat, b: nat)
    requires Inv(s) && p in Live(s) && In(Footprint(s, p), b)
    ensures R.Managed(s.range, b)
  {
    if p in s.buddy.live {
      var x := Blocks.Block(p, B.AllocLevel(s.buddy.live[p]));
      assert x in B.LiveSet(s.buddy.live);
      var t := SmallInsideDonated(s, x, b);
      assert Region(t, MaxBytes(s)) in s.range.live + s.range.stores;
    } else {
      assert Footprint(s, p) in s.range.live + s.range.stores;
    }
    assert R.Held(s.range.live + s.range.stores, b);
  }

  /** In every run after the handoff, every byte of every block callers hold, from before or
      after it and from either allocator, lies inside the ranges that were reported. */
  lemma HandoffCovers(s: State, reserve: nat, ops: seq<Op>, p: nat, b: nat)
    requires Inv(s) && reserve > 0 && R.Trim(s.range, reserve).Ranges?
    requires Legal(Trimmed(s, reserve), ops)
    requires p in Live(Run(Trimmed(s, reserve), ops)) && In(Footprint(Run(Trimmed(s, reserve), ops), p), b)
    ensures Covers(R.Trim(s.range, reserve).ranges, b)
  {
    hide Inv, R.Inv, R.Managed, R.Trim, Run, Legal, Footprint;
    var t := Trimmed(s, reserve);
    FootprintManaged(Run(t, ops), p, b);
    RunManaged(t, ops);
    InvBasics(s);
    R.TrimExact(s.range, reserve);
  }
}
