/** Whole runs of the buddy allocator: what every reachable state satisfies, when
    allocation fails, and what is left when everything has been returned. */
module BuddyRuns {
  import opened BuddyBlocks
  import opened BuddyModel
  import opened IntrusiveList

  datatype Op = SetMemory(ptr: nat, count: nat) | Alloc(layout: Layout, heap: Heap) | Dealloc(ptr: nat)

  /** `new`: empty lists, nothing donated. */
  ghost function Init(levels: nat): (s: State)
    requires levels > 0
    ensures Inv(s) && |s.free| == levels
  {
    var s := State(seq(levels, _ => []), map[], {}, {}, 0, 0);
    assert FreeSet(s.free) == {};
    assert Occupied(s) == {};
    EmptySum(s.free, levels);
    s
  }

  lemma {:induction false} EmptySum(free: seq<seq<nat>>, n: nat)
    requires n <= |free|
    requires forall l :: 0 <= l < n ==> free[l] == []
    ensures SumFree(free, n) == 0
  {
    if n > 0 {
      EmptySum(free, n - 1);
    }
  }

  /** What a caller owes: fresh aligned memory, requests that are answered, and only live
      pointers given back. */
  ghost predicate Enabled(s: State, op: Op) {
    && |s.free| > 0
    && match op
       case SetMemory(ptr, count) => Donatable(s, ptr, count)
       case Alloc(layout, heap) =>
         && Answered(|s.free|, layout, heap)
         && (heap.Grant? ==> Donatable(s, heap.addr, 1))
       case Dealloc(ptr) => ptr in s.live
  }

  ghost function Step(s: State, op: Op): (r: State)
    requires Inv(s) && Enabled(s, op)
    ensures Inv(r)
  {
    hide Inv;
    match op
    case SetMemory(ptr, count) => SetMemoryInv(s, ptr, count); BuddyModel.SetMemory(s, ptr, count)
    case Alloc(layout, heap) => AllocInv(s, layout, heap); BuddyModel.Alloc(s, layout, heap).0
    case Dealloc(ptr) => DeallocInv(s, ptr); BuddyModel.Dealloc(s, ptr)
  }

  ghost predicate Legal(s: State, ops: seq<Op>)
    requires Inv(s)
    decreases |ops|
  {
    ops == [] || (Enabled(s, ops[0]) && Legal(Step(s, ops[0]), ops[1..]))
  }

  ghost function Run(s: State, ops: seq<Op>): (r: State)
    requires Inv(s) && Legal(s, ops)
    ensures Inv(r)
    decreases |ops|
  {
    if ops == [] then s else Run(Step(s, ops[0]), ops[1..])
  }

  /** In every reachable state: free blocks are aligned to their size, disjoint from each
      other and from live blocks; two buddies below the top are never both free; and lists
      below the top ascend. */
  lemma ReachableState(levels: nat, ops: seq<Op>, l: nat, a: nat)
    requires levels > 0
    requires Legal(Init(levels), ops)
    requires l < |Run(Init(levels), ops).free|
    requires a in Run(Init(levels), ops).free[l]
    ensures var s := Run(Init(levels), ops);
      && a % Size(l) == 0 && a > 0
      && (forall k, c :: 0 <= k < |s.free| && c in s.free[k] && (k, c) != (l, a) ==> Apart(Block(a, l), Block(c, k)))
      && (forall p :: p in s.live ==> Apart(Block(a, l), Block(p, AllocLevel(s.live[p]))))
      && (l < |s.free| - 1 ==> BuddyAddr(Block(a, l)) !in s.free[l] && Ascending(s.free[l]))
  {
    var s := Run(Init(levels), ops);
    FreeBlockFacts(s, l, a);
  }

  /** In every reachable state the byte counters add up, whatever the layouts were: the
      total is what was donated, and it is split between the lists, the live blocks and
      what over-aligned layouts left behind. */
  lemma Accounting(levels: nat, ops: seq<Op>)
    requires levels > 0 && Legal(Init(levels), ops)
    ensures var s := Run(Init(levels), ops);
      && s.total == s.inUse + SumFree(s.free, |s.free|)
      && s.inUse == SumSizes(LiveSet(s.live)) + SumSizes(s.lost)
      && |s.free| > 0 && s.total == Size(|s.free| - 1) * |s.tops|
  {
    hide Run, Legal, Size, SumSizes, SumFree, Sound;
    RunTotal(Init(levels), ops);
    var s := Run(Init(levels), ops);
    SumUnion(LiveSet(s.live), s.lost);
    HasLists(s);
  }

  lemma HasLists(s: State)
    requires Inv(s)
    ensures |s.free| > 0
  {
  }

  ghost predicate TotalDonated(s: State) {
    |s.free| > 0 && s.total == Size(|s.free| - 1) * |s.tops|
  }

  lemma {:induction false} RunTotal(s: State, ops: seq<Op>)
    requires Inv(s) && Legal(s, ops) && TotalDonated(s)
    ensures TotalDonated(Run(s, ops))
    decreases |ops|
  {
    hide Inv, TotalDonated;
    if ops != [] {
      StepTotal(s, ops[0]);
      RunTotal(Step(s, ops[0]), ops[1..]);
    }
  }

  lemma StepTotal(s: State, op: Op)
    requires Inv(s) && Enabled(s, op) && TotalDonated(s)
    ensures TotalDonated(Step(s, op))
  {
    hide Inv, Size, Donatable, MergeUp;
    match op
    case SetMemory(ptr, count) => DonateTotal(s, ptr, count);
    case Alloc(layout, heap) =>
      if heap.Grant? {
        DonateOneTotal(s, heap.addr);
      }
    case Dealloc(ptr) =>
  }

  lemma DonateOneTotal(s: State, ptr: nat)
    requires TotalDonated(s) && Donatable(s, ptr, 1)
    ensures TotalDonated(DonateOne(s, ptr))
  {
  }

  lemma {:induction false} DonateTotal(s: State, ptr: nat, count: nat)
    requires |s.free| > 0 && TotalDonated(s) && Donatable(s, ptr, count)
    ensures TotalDonated(BuddyModel.SetMemory(s, ptr, count))
    decreases count
  {
    hide Size, Donatable;
    if count > 0 {
      DonatableNext(s, ptr, count);
      DonateOneTotal(s, ptr);
      DonateTotal(DonateOne(s, ptr), ptr + Size(|s.free| - 1), count - 1);
    }
  }

  lemma FreeBlockFacts(s: State, l: nat, a: nat)
    requires Inv(s) && l < |s.free| && a in s.free[l]
    ensures a % Size(l) == 0 && a > 0
    ensures forall k, c :: 0 <= k < |s.free| && c in s.free[k] && (k, c) != (l, a) ==> Apart(Block(a, l), Block(c, k))
    ensures forall p :: p in s.live ==> Apart(Block(a, l), Block(p, AllocLevel(s.live[p])))
    ensures l < |s.free| - 1 ==> BuddyAddr(Block(a, l)) !in s.free[l] && Ascending(s.free[l])
  {
    var x, all := Block(a, l), FreeSet(s.free) + Occupied(s);
    assert x in all;
    forall k, c | 0 <= k < |s.free| && c in s.free[k] && (k, c) != (l, a) ensures Apart(x, Block(c, k)) {
      assert Block(c, k) in all;
    }
    forall p | p in s.live ensures Apart(x, Block(p, AllocLevel(s.live[p]))) {
      assert Block(p, AllocLevel(s.live[p])) in LiveSet(s.live);
    }
    assert forall c: nat :: c in s.free[l] ==> Block(c, l) in FreeSet(s.free);
  }

  /** All bytes of an aligned block of a level are free. */
  ghost predicate FreeRun(s: State, x: Block) {
    Aligned(x) && forall b :: Holds(x, b) ==> Covered(FreeSet(s.free), b)
  }

  /** Without a heap source, `alloc` fails exactly when no naturally aligned run of the
      rounded size consists entirely of free bytes. */
  lemma NoMissedBlock(s: State, layout: Layout)
    requires Inv(s) && AllocLevel(layout) < |s.free|
    ensures BuddyModel.Alloc(s, layout, NoSource).1 == OutOfMemory <==>
            !exists x: Block :: x.level == AllocLevel(layout) && FreeRun(s, x)
  {
    var level := AllocLevel(layout);
    var i := FirstNonEmpty(s.free, level);
    if i < |s.free| {
      var x := Block(s.free[i][0], level);
      HeadRun(s, i, level);
      assert FreeRun(s, x);
    } else {
      FreePlaced(s);
      assert forall y :: y in FreeSet(s.free) ==> y.level < level;
      forall x: Block | x.level == level && FreeRun(s, x) ensures false {
        var y := WholeCover(FreeSet(s.free), x, |s.free| - 1);
      }
    }
  }

  lemma FreePlaced(s: State)
    requires Inv(s)
    ensures forall z :: z in FreeSet(s.free) ==> Aligned(z) && z.level <= |s.free| - 1
  {
  }

  lemma HeadRun(s: State, i: nat, level: nat)
    requires Inv(s) && level <= i < |s.free| && s.free[i] != []
    ensures FreeRun(s, Block(s.free[i][0], level))
  {
    var h := s.free[i][0];
    assert Block(h, i) in FreeSet(s.free);
    FreePlaced(s);
    SizeMonotone(level, i);
    AlignedBelow(h, i, level);
  }

  lemma {:induction false} AlignedBelow(h: nat, i: nat, level: nat)
    requires level <= i && Aligned(Block(h, i))
    ensures Aligned(Block(h, level))
    decreases i
  {
    if level < i {
      HalvesAligned(Block(h, i));
      AlignedBelow(h, i - 1, level);
    }
  }

  /** Every list below the top is empty and the top list is a permutation of the donated blocks. */
  ghost predicate Coalesced(s: State) {
    && |s.free| > 0
    && (forall l :: 0 <= l < |s.free| - 1 ==> s.free[l] == [])
    && multiset(s.free[|s.free| - 1]) == multiset(s.tops)
  }

  /** With nothing occupied, coalescing is complete. */
  lemma FullyCoalesced(s: State)
    requires Inv(s) && s.live == map[] && s.lost == {}
    ensures Coalesced(s) && s.inUse == 0
  {
    var top := |s.free| - 1;
    var blocks := FreeSet(s.free);
    assert Occupied(s) == {};
    assert blocks + {} == blocks;
    FreePlaced(s);
    forall a | a in s.tops ensures a in s.free[top] {
      DonatedBlockIsFree(s, a);
    }
    assert forall l: nat, a: nat :: l < |s.free| && a in s.free[l] ==> Block(a, l) in blocks;
    forall y | y in blocks ensures y.level == top && y.addr in s.tops {
      assert Holds(y, y.addr) && Covered(blocks, y.addr);
      var d :| d in Donated(s.tops, top) && Holds(d, y.addr);
      DonatedBlockIsFree(s, d.addr);
      assert d in blocks;
      assert !Apart(d, y);
    }
    forall l | 0 <= l < top ensures s.free[l] == [] {
      HasMember(s.free[l]);
    }
    forall a | a in s.free[top] ensures a in s.tops {
      assert Block(a, top) in blocks;
    }
    SameMembers(s.free[top], s.tops);
  }

  lemma HasMember(s: seq<nat>)
    ensures s != [] ==> exists a :: a in s
  {
    assert s != [] ==> s[0] in s;
  }

  lemma DonatedBlockIsFree(s: State, a: nat)
    requires Inv(s) && s.live == map[] && s.lost == {} && a in s.tops
    ensures a in s.free[|s.free| - 1]
  {
    var top := |s.free| - 1;
    var blocks, x := FreeSet(s.free), Block(a, top);
    assert Occupied(s) == {};
    assert blocks + {} == blocks;
    FreePlaced(s);
    forall b | Holds(x, b) ensures Covered(blocks, b) {
      assert x in Donated(s.tops, top);
      assert Covered(Donated(s.tops, top), b);
    }
    var y := WholeCover(blocks, x, top);
    assert y == x;
  }

  lemma {:induction false} SameMembers(s: seq<nat>, t: set<nat>)
    requires Distinct(s)
    requires forall a :: a in s <==> a in t
    ensures multiset(s) == multiset(t)
    decreases |s|
  {
    if s == [] {
      assert t == {};
    } else {
      assert s == [s[0]] + s[1..];
      assert forall a :: a in s <==> a == s[0] || a in s[1..];
      SameMembers(s[1..], t - {s[0]});
      assert t == t - {s[0]} + {s[0]};
    }
  }

  lemma {:induction false} SetMemoryKeeps(s: State, ptr: nat, count: nat)
    requires |s.free| > 0
    ensures BuddyModel.SetMemory(s, ptr, count).live == s.live
    ensures BuddyModel.SetMemory(s, ptr, count).lost == s.lost
    decreases count
  {
    if count > 0 {
      SetMemoryKeeps(DonateOne(s, ptr), ptr + Size(|s.free| - 1), count - 1);
    }
  }

  /** The size differences between what `alloc` took and `dealloc` gave back over a run. */
  ghost function Leak(s: State, ops: seq<Op>): nat
    requires Inv(s) && Legal(s, ops)
    decreases |ops|
  {
    if ops == [] then 0 else
      Leak(Step(s, ops[0]), ops[1..]) +
      if !ops[0].Dealloc? then 0 else
        var layout := s.live[ops[0].ptr];
        LevelsAgree(layout);
        SizeMonotone(DeallocLevel(layout), AllocLevel(layout));
        Size(AllocLevel(layout)) - Size(DeallocLevel(layout))
  }

  lemma {:induction false} LostGrows(s: State, ops: seq<Op>)
    requires Inv(s) && Legal(s, ops)
    ensures SumSizes(Run(s, ops).lost) == SumSizes(s.lost) + Leak(s, ops)
    decreases |ops|
  {
    hide Inv, SumSizes, Size;
    if ops != [] {
      var op := ops[0];
      match op {
        case SetMemory(ptr, count) => SetMemoryKeeps(s, ptr, count);
        case Alloc(layout, heap) => AllocInv(s, layout, heap);
        case Dealloc(ptr) => DeallocInv(s, ptr);
      }
      LostGrows(Step(s, op), ops[1..]);
    }
  }

  /** For arbitrary layouts, a run that ends with nothing live keeps out of the lists
      exactly the accumulated size differences. */
  lemma LeakIsExact(levels: nat, ops: seq<Op>)
    requires levels > 0
    requires Legal(Init(levels), ops)
    requires Run(Init(levels), ops).live == map[]
    ensures var s := Run(Init(levels), ops);
      s.total == SumFree(s.free, |s.free|) + Leak(Init(levels), ops)
  {
    LostGrows(Init(levels), ops);
    var s := Run(Init(levels), ops);
    assert Occupied(s) == s.lost;
  }

  /** Every block given back over a run has a layout no more aligned than its rounded size. */
  ghost predicate ReturnsPlain(s: State, ops: seq<Op>)
    requires Inv(s) && Legal(s, ops)
    decreases |ops|
  {
    ops == [] ||
    ((ops[0].Dealloc? ==> Plain(s.live[ops[0].ptr])) && ReturnsPlain(Step(s, ops[0]), ops[1..]))
  }

  lemma {:induction false} LeaksNothing(s: State, ops: seq<Op>)
    requires Inv(s) && Legal(s, ops)
    ensures Leak(s, ops) == 0 <==> ReturnsPlain(s, ops)
    decreases |ops|
  {
    hide Inv, Size, Plain;
    if ops != [] {
      LeaksNothing(Step(s, ops[0]), ops[1..]);
      if ops[0].Dealloc? {
        SizesAgree(s.live[ops[0].ptr]);
      }
    }
  }

  lemma SizesAgree(layout: Layout)
    ensures Size(DeallocLevel(layout)) <= Size(AllocLevel(layout))
    ensures Size(DeallocLevel(layout)) == Size(AllocLevel(layout)) <==> Plain(layout)
  {
    hide AllocLevel, DeallocLevel, Size, Plain;
    var small, big := DeallocLevel(layout), AllocLevel(layout);
    LevelsAgree(layout);
    SizeMonotone(small, big);
    if small < big {
      SizeMonotone(small, big - 1);
      SizeDouble(big - 1);
    }
  }

  /** A run that ends with nothing live ends fully coalesced exactly when no block it gave
      back was more aligned than its rounded size. Requests that were refused do not matter. */
  lemma FullCoalescing(levels: nat, ops: seq<Op>)
    requires levels > 0
    requires Legal(Init(levels), ops)
    requires Run(Init(levels), ops).live == map[]
    ensures Coalesced(Run(Init(levels), ops)) <==> Leak(Init(levels), ops) == 0
    ensures Coalesced(Run(Init(levels), ops)) <==> ReturnsPlain(Init(levels), ops)
  {
    hide Run, Legal, Leak, ReturnsPlain, Sound;
    var s := Run(Init(levels), ops);
    LeaksNothing(Init(levels), ops);
    LeakIsExact(levels, ops);
    Accounting(levels, ops);
    if Leak(Init(levels), ops) == 0 {
      LostGrows(Init(levels), ops);
      NothingLost(s.lost);
      FullyCoalesced(s);
    }
    if Coalesced(s) {
      TopListBytes(s);
    }
  }

  /** A set of blocks without bytes is empty. */
  lemma NothingLost(blocks: set<Block>)
    ensures SumSizes(blocks) == 0 ==> blocks == {}
  {
    if x :| x in blocks {
      SumRemove(blocks, x);
    }
  }

  lemma TopListBytes(s: State)
    requires Coalesced(s)
    ensures SumFree(s.free, |s.free|) == Size(|s.free| - 1) * |s.tops|
  {
    var top := |s.free| - 1;
    EmptySum(s.free, top);
    assert |multiset(s.free[top])| == |multiset(s.tops)|;
  }

  /** Eight bytes aligned to sixteen: taken as sixteen, given back as eight. */
  const OVER_ALIGNED := Layout(8, 16)

  lemma OverAlignedLevels()
    ensures Size(0) == 8 && Size(1) == 16
    ensures AllocLevel(OVER_ALIGNED) == 1 && DeallocLevel(OVER_ALIGNED) == 0
  {
    LevelForLeast(8, 0);
    LevelForLeast(16, 1);
  }

  lemma FirstStep()
    ensures Enabled(Init(2), SetMemory(16, 1))
    ensures var s := Step(Init(2), SetMemory(16, 1)); s.free == [[], [16]] && s.live == map[]
  {
    hide Inv, Size;
    OverAlignedLevels();
    var s := Init(2);
    assert s.free == [[], []];
    assert BuddyModel.SetMemory(s, 16, 1) == DonateOne(s, 16);
    var none: seq<nat> := [];
    assert none + [16] == [16];
    assert DonateOne(s, 16).free == s.free[1 := s.free[1] + [16]] == [none, [16]];
  }

  lemma SecondStep(s: State)
    requires Inv(s) && s.free == [[], [16]] && s.live == map[]
    ensures Enabled(s, Alloc(OVER_ALIGNED, NoSource))
    ensures Step(s, Alloc(OVER_ALIGNED, NoSource)).live == map[16 := OVER_ALIGNED]
  {
    hide Inv, Size, AllocLevel, TakeDown;
    OverAlignedLevels();
    assert FirstNonEmpty(s.free, 1) == 1;
  }

  lemma LastStep(s: State)
    requires Inv(s) && s.live == map[16 := OVER_ALIGNED]
    ensures Enabled(s, Dealloc(16)) && Legal(s, [Dealloc(16)])
    ensures Run(s, [Dealloc(16)]).live == map[] && Leak(s, [Dealloc(16)]) == 8
  {
    hide Inv, Size, AllocLevel, DeallocLevel, MergeUp, Leftover;
    OverAlignedLevels();
    DeallocReady(s, 16);
    var t := Step(s, Dealloc(16));
    assert t.live == map[];
    assert [Dealloc(16)][1..] == [];
    assert Legal(t, []) && Run(t, []) == t && Leak(t, []) == 0;
  }

  /** A run that is not coalesced at its end. */
  lemma OverAlignedLeaks()
    ensures var ops := [SetMemory(16, 1), Alloc(OVER_ALIGNED, NoSource), Dealloc(16)];
      && Legal(Init(2), ops) && Run(Init(2), ops).live == map[]
      && Leak(Init(2), ops) == 8 && !Coalesced(Run(Init(2), ops))
  {
    hide Inv, Step, Enabled, Coalesced;
    var ops := [SetMemory(16, 1), Alloc(OVER_ALIGNED, NoSource), Dealloc(16)];
    FirstStep();
    var s := Step(Init(2), ops[0]);
    SecondStep(s);
    LastStep(Step(s, ops[1]));
    assert ops[1..] == [ops[1], ops[2]] && ops[1..][1..] == [ops[2]];
    assert Legal(s, ops[1..]) && Leak(s, ops[1..]) == 8 && Run(s, ops[1..]).live == map[];
    FullCoalescing(2, ops);
  }
}
