/** The buddy allocator as a transition system over its free lists, with the live
    blocks and the bytes lost by over-aligned layouts kept beside them. */
module BuddyModel {
  import opened Arithmetic
  import opened BuddyBlocks
  import opened IntrusiveList

  datatype Layout = Layout(size: nat, align: nat)

  /** The level `alloc` serves a layout from. */
  function AllocLevel(layout: Layout): nat {
    LevelFor(Max(Max(layout.size, layout.align), MIN_BYTES))
  }

  /** The level `dealloc` returns it to: the alignment is not looked at. */
  function DeallocLevel(layout: Layout): nat {
    LevelFor(Max(layout.size, MIN_BYTES))
  }

  /** The two levels agree exactly for layouts no more aligned than their rounded size. */
  predicate Plain(layout: Layout) {
    layout.align <= Size(DeallocLevel(layout))
  }

  lemma LevelForLeast(bytes: nat, level: nat)
    requires bytes >= MIN_BYTES && bytes <= Size(level)
    ensures LevelFor(bytes) <= level
  {
    var k := LevelFor(bytes);
    if k > level {
      SizeMonotone(level, k - 1);
    }
  }

  /** Blocks of level l have 8 * 2^l bytes; `alloc` takes the smallest that hold the size and the
      alignment, `dealloc` returns the smallest that hold the size. */
  lemma LevelsExact(layout: Layout)
    ensures var l := AllocLevel(layout);
      && layout.size <= 8 * Pow2(l) && layout.align <= 8 * Pow2(l)
      && (l > 0 ==> 8 * Pow2(l - 1) < layout.size || 8 * Pow2(l - 1) < layout.align)
    ensures var l := DeallocLevel(layout);
      layout.size <= 8 * Pow2(l) && (l > 0 ==> 8 * Pow2(l - 1) < layout.size)
  {
    hide LevelFor;
    if AllocLevel(layout) > 0 {
      SizeMonotone(0, AllocLevel(layout) - 1);
    }
    if DeallocLevel(layout) > 0 {
      SizeMonotone(0, DeallocLevel(layout) - 1);
    }
  }

  lemma LevelsAgree(layout: Layout)
    ensures DeallocLevel(layout) <= AllocLevel(layout)
    ensures DeallocLevel(layout) == AllocLevel(layout) <==> Plain(layout)
  {
    var small, big := Max(layout.size, MIN_BYTES), Max(Max(layout.size, layout.align), MIN_BYTES);
    LevelForLeast(small, LevelFor(big));
    if Plain(layout) {
      LevelForLeast(big, LevelFor(small));
    }
  }

  /** free: the lists by level; live: what callers hold; lost: blocks cut off by
      over-aligned deallocations; tops: the donated blocks of the largest size. */
  datatype State = State(free: seq<seq<nat>>, live: map<nat, Layout>, lost: set<Block>,
                         tops: set<nat>, total: nat, inUse: nat)

  ghost function FreeSet(free: seq<seq<nat>>): set<Block> {
    set l: nat, a | l < |free| && a in free[l] :: Block(a, l)
  }

  ghost function LiveSet(live: map<nat, Layout>): set<Block> {
    set a | a in live :: Block(a, AllocLevel(live[a]))
  }

  ghost function Occupied(s: State): set<Block> {
    LiveSet(s.live) + s.lost
  }

  /** Free and occupied blocks tile the donated memory, no two buddies are both free,
      lists have no duplicates and those below the top are ascending. */
  ghost predicate Sound(free: seq<seq<nat>>, occ: set<Block>, tops: set<nat>) {
    && |free| > 0
    && Tiles(FreeSet(free) + occ, tops, |free| - 1)
    && FreeSet(free) !! occ
    && NoBuddies(FreeSet(free), |free| - 1)
    && (forall l :: 0 <= l < |free| ==> Distinct(free[l]))
    && (forall l :: 0 <= l < |free| - 1 ==> Ascending(free[l]))
  }

  /** Bytes held by the first n lists. */
  ghost function SumFree(free: seq<seq<nat>>, n: nat): nat
    requires n <= |free|
  {
    if n == 0 then 0 else SumFree(free, n - 1) + Size(n - 1) * |free[n - 1]|
  }

  ghost predicate Inv(s: State) {
    && Sound(s.free, Occupied(s), s.tops)
    && LiveSet(s.live) !! s.lost
    && s.inUse == SumSizes(Occupied(s))
    && s.total == s.inUse + SumFree(s.free, |s.free|)
  }

  // ----- list updates seen as set updates

  lemma FreeSetAdd(free: seq<seq<nat>>, l: nat, s: seq<nat>, a: nat)
    requires l < |free|
    requires forall x :: x in s <==> x in free[l] || x == a
    ensures FreeSet(free[l := s]) == FreeSet(free) + {Block(a, l)}
  {
  }

  lemma FreeSetRemove(free: seq<seq<nat>>, l: nat, s: seq<nat>, a: nat)
    requires l < |free|
    requires forall x :: x in s <==> x in free[l] && x != a
    ensures FreeSet(free[l := s]) == FreeSet(free) - {Block(a, l)}
  {
  }

  lemma {:induction false} SumFreeUpdate(free: seq<seq<nat>>, l: nat, s: seq<nat>, n: nat)
    requires l < |free| && n <= |free|
    ensures SumFree(free[l := s], n) ==
            SumFree(free, n) + if l < n then Size(l) * (|s| - |free[l]|) else 0
  {
    if n > 0 {
      SumFreeUpdate(free, l, s, n - 1);
      if l == n - 1 {
        MulSub(Size(l), |s|, |free[l]|);
      }
    }
  }

  // ----- set_memory

  /** One step of `set_memory`: a block of the largest size goes to the end of its list. */
  ghost function DonateOne(s: State, ptr: nat): (r: State)
    requires |s.free| > 0
    ensures |r.free| == |s.free|
  {
    var top := |s.free| - 1;
    s.(free := s.free[top := s.free[top] + [ptr]], tops := s.tops + {ptr}, total := s.total + Size(top))
  }

  ghost function SetMemory(s: State, ptr: nat, count: nat): (r: State)
    requires |s.free| > 0
    ensures |r.free| == |s.free|
    decreases count
  {
    if count == 0 then s else SetMemory(DonateOne(s, ptr), ptr + Size(|s.free| - 1), count - 1)
  }

  /** What `set_memory` demands: aligned memory, not null, not donated before. */
  ghost predicate Donatable(s: State, ptr: nat, count: nat)
    requires |s.free| > 0
  {
    var max := Size(|s.free| - 1);
    && ptr > 0 && ptr % max == 0
    && (forall d :: d in s.tops ==> d + max <= ptr || ptr + count * max <= d)
  }

  lemma DonateOneInv(s: State, ptr: nat)
    requires Inv(s) && Donatable(s, ptr, 1)
    ensures Inv(DonateOne(s, ptr))
  {
    hide Tiles, NoBuddies, SumFree, SumSizes;
    var top := |s.free| - 1;
    var r, x := DonateOne(s, ptr), Block(ptr, top);
    var before := FreeSet(s.free) + Occupied(s);
    FreeSetAdd(s.free, top, r.free[top], ptr);
    TilesAdd(before, s.tops, top, x);
    assert FreeSet(r.free) + Occupied(r) == before + {x};
    DonateLists(s.free, top, ptr);
    SumFreeUpdate(s.free, top, r.free[top], |s.free|);
    assert Size(top) * (|r.free[top]| - |s.free[top]|) == Size(top);
  }

  lemma DonateLists(free: seq<seq<nat>>, top: nat, ptr: nat)
    requires top == |free| - 1 && Block(ptr, top) !in FreeSet(free)
    requires forall l :: 0 <= l < |free| ==> Distinct(free[l])
    requires NoBuddies(FreeSet(free), top)
    ensures FreeSet(free[top := free[top] + [ptr]]) == FreeSet(free) + {Block(ptr, top)}
    ensures NoBuddies(FreeSet(free[top := free[top] + [ptr]]), top)
    ensures Distinct(free[top] + [ptr])
  {
  }

  /** A fresh top block extends the tiling. */
  lemma TilesAdd(blocks: set<Block>, tops: set<nat>, top: nat, x: Block)
    requires Tiles(blocks, tops, top)
    requires x.level == top && Aligned(x) && x.addr > 0
    requires forall d :: d in tops ==> Apart(Block(d, top), x)
    ensures Tiles(blocks + {x}, tops + {x.addr}, top) && x !in blocks
  {
    assert Donated(tops + {x.addr}, top) == Donated(tops, top) + {x};
    CoverAdd(blocks, x);
    CoverAdd(Donated(tops, top), x);
    forall y | y in blocks ensures Apart(x, y) {
      FreshApart(blocks, tops, top, x, y);
    }
  }

  lemma CoverAdd(blocks: set<Block>, x: Block)
    ensures forall b :: Covered(blocks + {x}, b) <==> Covered(blocks, b) || Holds(x, b)
  {
  }

  /** A fresh top block is disjoint from every block inside the earlier ones. */
  lemma FreshApart(blocks: set<Block>, tops: set<nat>, top: nat, x: Block, y: Block)
    requires Tiles(blocks, tops, top) && y in blocks
    requires x.level == top
    requires forall d :: d in tops ==> Apart(Block(d, top), x)
    ensures Apart(x, y)
  {
    var b := Max(x.addr, y.addr);
    if Holds(y, b) {
      assert Covered(blocks, b);
      var d :| d in Donated(tops, top) && Holds(d, b);
      assert Apart(Block(d.addr, top), x);
    }
  }

  lemma DonatableNext(s: State, ptr: nat, count: nat)
    requires |s.free| > 0 && count > 0 && Donatable(s, ptr, count)
    ensures Donatable(s, ptr, 1)
    ensures Donatable(DonateOne(s, ptr), ptr + Size(|s.free| - 1), count - 1)
    ensures SetMemory(s, ptr, count) == SetMemory(DonateOne(s, ptr), ptr + Size(|s.free| - 1), count - 1)
  {
    var max := Size(|s.free| - 1);
    MulAtLeast(max, count);
    assert count * max == max + (count - 1) * max;
    DivModUnique(ptr + max, max, ptr / max + 1, 0);
  }

  lemma {:induction false} SetMemoryInv(s: State, ptr: nat, count: nat)
    requires |s.free| > 0 && Inv(s) && Donatable(s, ptr, count)
    ensures Inv(SetMemory(s, ptr, count))
    decreases count
  {
    hide Inv, Size, Donatable;
    if count > 0 {
      DonatableNext(s, ptr, count);
      DonateOneInv(s, ptr);
      SetMemoryInv(DonateOne(s, ptr), ptr + Size(|s.free| - 1), count - 1);
    }
  }

  /** Exactly `count` blocks of the largest size, one behind the other, are donated and go to the
      end of the top list in that order. */
  lemma {:induction false} SetMemoryExact(s: State, ptr: nat, count: nat)
    requires |s.free| > 0
    ensures var r, top := SetMemory(s, ptr, count), |s.free| - 1;
      && r.free == s.free[top := s.free[top] + BlocksFrom(ptr, Size(top), count)]
      && (forall d :: d in r.tops <==> d in s.tops || d in BlocksFrom(ptr, Size(top), count))
      && r.live == s.live && r.lost == s.lost && r.inUse == s.inUse
    decreases count
  {
    hide Size;
    if count > 0 {
      var top := |s.free| - 1;
      var t := DonateOne(s, ptr);
      SetMemoryExact(t, ptr + Size(top), count - 1);
      var rest := BlocksFrom(ptr + Size(top), Size(top), count - 1);
      BlocksFromFirst(ptr, Size(top), count);
      assert s.free[top] + [ptr] + rest == s.free[top] + ([ptr] + rest);
    } else {
      assert s.free[|s.free| - 1] + [] == s.free[|s.free| - 1];
    }
  }

  function BlocksFrom(ptr: nat, size: nat, count: nat): (r: seq<nat>)
    ensures |r| == count && forall i :: 0 <= i < count ==> r[i] == ptr + i * size
  {
    seq(count, i requires 0 <= i < count => ptr + i * size)
  }

  lemma BlocksFromFirst(ptr: nat, size: nat, count: nat)
    requires count > 0
    ensures BlocksFrom(ptr, size, count) == [ptr] + BlocksFrom(ptr + size, size, count - 1)
  {
    var r, t := BlocksFrom(ptr, size, count), [ptr] + BlocksFrom(ptr + size, size, count - 1);
    forall i | 0 <= i < count ensures r[i] == t[i] {
      assert i * size == size + (i - 1) * size;
    }
  }

  // ----- alloc

  /** The search loop of `alloc`: the first nonempty list at or above a level. */
  function FirstNonEmpty(free: seq<seq<nat>>, level: nat): (r: nat)
    ensures level <= r && (level <= |free| ==> r <= |free|) && (level > |free| ==> r == level)
    ensures forall l :: level <= l < r && l < |free| ==> free[l] == []
    ensures r < |free| ==> free[r] != []
    decreases |free| - level
  {
    if level >= |free| || free[level] != [] then level else FirstNonEmpty(free, level + 1)
  }

  /** Splitting block h of level i down to `level`: each upper half becomes free. */
  ghost function TakeDown(free: seq<seq<nat>>, h: nat, i: nat, level: nat): (r: seq<seq<nat>>)
    requires level <= i < |free|
    ensures |r| == |free|
    decreases i
  {
    if i == level then free else
      TakeDown(free[i - 1 := [h + Size(i - 1)] + free[i - 1]], h, i - 1, level)
  }

  /** What the heap source answers when `alloc` finds no block. */
  datatype Heap = NoSource | Exhausted | Grant(addr: nat)

  ghost function TakeFrom(s: State, layout: Layout, i: nat): State
    requires AllocLevel(layout) <= i < |s.free| && s.free[i] != []
  {
    var h := s.free[i][0];
    s.(free := TakeDown(s.free[i := s.free[i][1..]], h, i, AllocLevel(layout)),
       live := s.live[h := layout],
       inUse := s.inUse + Size(AllocLevel(layout)))
  }

  /** Panic: the code indexes past its lists. */
  datatype AllocResult = Ok(addr: nat) | OutOfMemory | HeapFailed | Panic

  /** The part of `alloc` behind the search: it ends by popping from the list of the
      request's own level, which must exist. */
  ghost function TakeOrPanic(s: State, layout: Layout, i: nat): (State, AllocResult)
    requires AllocLevel(layout) < |s.free| ==> AllocLevel(layout) <= i < |s.free| && s.free[i] != []
  {
    if AllocLevel(layout) >= |s.free| then (s, Panic) else (TakeFrom(s, layout, i), Ok(s.free[i][0]))
  }

  ghost function Alloc(s: State, layout: Layout, heap: Heap): (State, AllocResult)
    requires |s.free| > 0
  {
    var i := FirstNonEmpty(s.free, AllocLevel(layout));
    if i != |s.free| then TakeOrPanic(s, layout, i)
    else match heap
      case NoSource => (s, OutOfMemory)
      case Exhausted => (s, HeapFailed)
      case Grant(a) => TakeOrPanic(DonateOne(s, a), layout, |s.free| - 1)
  }

  /** The requests `alloc` answers: up to the largest block, and one level above it when
      no block is granted. */
  predicate Answered(levels: nat, layout: Layout, heap: Heap) {
    AllocLevel(layout) <= levels && (heap.Grant? ==> AllocLevel(layout) < levels)
  }

  /** `alloc` indexes past its lists exactly for the other requests. */
  lemma PanicExact(s: State, layout: Layout, heap: Heap)
    requires |s.free| > 0
    ensures Alloc(s, layout, heap).1.Panic? <==> !Answered(|s.free|, layout, heap)
  {
    hide AllocLevel, TakeFrom;
  }

  /** Twice the largest block, asked of an allocator that is granted memory, is one of them. */
  lemma PanicReached(s: State, a: nat)
    requires |s.free| > 0
    ensures Alloc(s, Layout(2 * Size(|s.free| - 1), 1), Grant(a)).1.Panic?
  {
    var bytes, top := 2 * Size(|s.free| - 1), |s.free| - 1;
    if LevelFor(bytes) <= top {
      SizeMonotone(LevelFor(bytes), top);
    }
    PanicExact(s, Layout(bytes, 1), Grant(a));
  }

  lemma TakeHeadSound(free: seq<seq<nat>>, occ: set<Block>, tops: set<nat>, i: nat)
    requires Sound(free, occ, tops) && i < |free| && free[i] != []
    ensures Block(free[i][0], i) in FreeSet(free) && Block(free[i][0], i) !in occ
    ensures Sound(free[i := free[i][1..]], occ + {Block(free[i][0], i)}, tops)
  {
    hide Tiles, Size;
    var h, rest := free[i][0], free[i][1..];
    var x := Block(h, i);
    assert free[i] == [h] + rest;
    FreeSetRemove(free, i, rest, h);
    assert x in FreeSet(free);
    assert FreeSet(free[i := rest]) + (occ + {x}) == FreeSet(free) + occ;
  }

  lemma {:induction false} TakeDownSound(free: seq<seq<nat>>, occ: set<Block>, tops: set<nat>,
                                         h: nat, i: nat, level: nat)
    requires Sound(free, occ, tops) && level <= i < |free| && Block(h, i) in occ
    requires forall l :: level <= l < i ==> free[l] == []
    ensures Sound(TakeDown(free, h, i, level), occ - {Block(h, i)} + {Block(h, level)}, tops)
    decreases i
  {
    hide Tiles, NoBuddies, Size, FreeSet, Ascending, Distinct;
    if i == level {
      assert occ - {Block(h, i)} + {Block(h, i)} == occ;
    } else {
      SplitOffSound(free, occ, tops, h, i);
      var free' := free[i - 1 := [h + Size(i - 1)] + free[i - 1]];
      var occ' := occ - {Block(h, i)} + {Block(h, i - 1)};
      SplitTiles(FreeSet(free) + occ, Block(h, i), tops, |free| - 1);
      TakeDownSound(free', occ', tops, h, i - 1, level);
      assert occ' - {Block(h, i - 1)} == occ - {Block(h, i)};
    }
  }

  /** One split: the block keeps its lower half, the upper half becomes free. */
  lemma SplitOffSound(free: seq<seq<nat>>, occ: set<Block>, tops: set<nat>, h: nat, i: nat)
    requires Sound(free, occ, tops) && 0 < i < |free| && Block(h, i) in occ
    requires free[i - 1] == []
    ensures Sound(free[i - 1 := [h + Size(i - 1)] + free[i - 1]],
                  occ - {Block(h, i)} + {Block(h, i - 1)}, tops)
  {
    hide Tiles, NoBuddies, Size, FreeSet;
    var x := Block(h, i);
    var free' := free[i - 1 := [Upper(x).addr] + free[i - 1]];
    var occ' := occ - {x} + {Lower(x)};
    SplitTiles(FreeSet(free) + occ, x, tops, |free| - 1);
    OccupiedAligned(free, occ, tops, x);
    SplitOffBuddies(free, x);
    assert Upper(x) != Lower(x);
    assert FreeSet(free') + occ' == Halved(FreeSet(free) + occ, x);
  }

  lemma SplitOffBuddies(free: seq<seq<nat>>, x: Block)
    requires 0 < x.level < |free| && Aligned(x) && free[x.level - 1] == []
    requires NoBuddies(FreeSet(free), |free| - 1)
    ensures var free' := free[x.level - 1 := [Upper(x).addr] + free[x.level - 1]];
      && FreeSet(free') == FreeSet(free) + {Upper(x)}
      && NoBuddies(FreeSet(free'), |free| - 1)
  {
  }

  /** The head of a list is disjoint from everything occupied. */
  lemma HeadFresh(s: State, i: nat, level: nat)
    requires Inv(s) && level <= i < |s.free| && s.free[i] != []
    ensures s.free[i][0] !in s.live && Block(s.free[i][0], level) !in Occupied(s)
    ensures s.free[i][0] > 0
  {
    var x := Block(s.free[i][0], i);
    assert x in FreeSet(s.free) + Occupied(s);
    assert forall a :: a in s.live ==> Block(a, AllocLevel(s.live[a])) in LiveSet(s.live);
    forall z | z in Occupied(s) ensures z.addr != x.addr {
      assert z in FreeSet(s.free) + Occupied(s) && z != x;
      assert Apart(z, x);
    }
  }

  lemma OccupiedAligned(free: seq<seq<nat>>, occ: set<Block>, tops: set<nat>, x: Block)
    requires Sound(free, occ, tops) && x in occ
    ensures x.level < |free| && Aligned(x) && x.addr > 0 && x !in FreeSet(free)
  {
  }

  lemma TakeFromInv(s: State, layout: Layout, i: nat)
    requires Inv(s) && AllocLevel(layout) <= i < |s.free| && s.free[i] != []
    requires forall l :: AllocLevel(layout) <= l < i ==> s.free[l] == []
    ensures Inv(TakeFrom(s, layout, i))
    ensures s.free[i][0] !in s.live && s.free[i][0] % Size(AllocLevel(layout)) == 0
    ensures Occupied(TakeFrom(s, layout, i)) == Occupied(s) + {Block(s.free[i][0], AllocLevel(layout))}
    ensures Block(s.free[i][0], AllocLevel(layout)) !in Occupied(s)
  {
    hide Sound, Size, SumSizes, SumFree, TakeDown, FreeSet, LiveSet;
    var h, level := s.free[i][0], AllocLevel(layout);
    var r := TakeFrom(s, layout, i);
    var headless := s.free[i := s.free[i][1..]];
    var occ, x, y := Occupied(s), Block(h, i), Block(h, level);
    HeadFresh(s, i, level);
    TakeHeadSound(s.free, occ, s.tops, i);
    TakeDownSound(headless, occ + {x}, s.tops, h, i, level);
    assert occ + {x} - {x} + {y} == occ + {y};
    LiveAdd(s.live, h, layout);
    assert Occupied(r) == occ + {y};
    SumAdd(occ, y);
    OccupiedAligned(r.free, occ + {y}, s.tops, y);
    SumFreeUpdate(s.free, i, s.free[i][1..], |s.free|);
    assert Size(i) * (|s.free[i]| - 1 - |s.free[i]|) == 0 - Size(i);
    TakeDownSum(headless, h, i, level);
  }

  lemma LiveAdd(live: map<nat, Layout>, a: nat, layout: Layout)
    requires a !in live
    ensures LiveSet(live[a := layout]) == LiveSet(live) + {Block(a, AllocLevel(layout))}
  {
    var live' := live[a := layout];
    assert LiveSet(live) + {Block(a, AllocLevel(layout))} <= LiveSet(live') by {
      forall x | x in LiveSet(live) + {Block(a, AllocLevel(layout))} ensures x in LiveSet(live') {
        assert x.addr in live';
      }
    }
  }

  lemma {:induction false} TakeDownSum(free: seq<seq<nat>>, h: nat, i: nat, level: nat)
    requires level <= i < |free|
    ensures SumFree(TakeDown(free, h, i, level), |free|) == SumFree(free, |free|) + Size(i) - Size(level)
    decreases i
  {
    if i > level {
      var s := [h + Size(i - 1)] + free[i - 1];
      SumFreeUpdate(free, i - 1, s, |free|);
      assert Size(i - 1) * (|s| - |free[i - 1]|) == Size(i - 1);
      TakeDownSum(free[i - 1 := s], h, i - 1, level);
    }
  }

  lemma AllocInv(s: State, layout: Layout, heap: Heap)
    requires Inv(s) && |s.free| > 0
    requires heap.Grant? ==> Donatable(s, heap.addr, 1)
    ensures Inv(Alloc(s, layout, heap).0)
    ensures var (r, p) := Alloc(s, layout, heap);
      && (p.OutOfMemory? || p.HeapFailed? ==> r == s)
      && (p.Ok? ==> p.addr !in s.live && p.addr % Size(AllocLevel(layout)) == 0
                    && r.live == s.live[p.addr := layout])
      && (!p.Ok? ==> r.live == s.live)
      && r.lost == s.lost
  {
    hide Inv, Size, TakeDown, Donatable, AllocLevel;
    var i := FirstNonEmpty(s.free, AllocLevel(layout));
    if i < |s.free| {
      TakeFromInv(s, layout, i);
    } else if i == |s.free| && heap.Grant? {
      DonateOneInv(s, heap.addr);
      if AllocLevel(layout) < |s.free| {
        TakeFromInv(DonateOne(s, heap.addr), layout, |s.free| - 1);
      }
    }
  }

  /** A granted block is all that an allocation adds to the donated ones, and only if no list
      could serve. */
  lemma AllocTops(s: State, layout: Layout, heap: Heap)
    requires |s.free| > 0
    ensures var r, empty := Alloc(s, layout, heap).0, FirstNonEmpty(s.free, AllocLevel(layout)) == |s.free|;
      && |r.free| == |s.free|
      && r.tops == s.tops + if empty && heap.Grant? then {heap.addr} else {}
  {
    hide AllocLevel, Size;
  }

  // ----- dealloc

  function IndexOf(s: seq<nat>, a: nat): (k: nat)
    requires a in s
    ensures k < |s| && s[k] == a
  {
    if s[0] == a then 0 else 1 + IndexOf(s[1..], a)
  }

  /** The merge loop of `dealloc` from block ptr of a level. */
  ghost function MergeUp(free: seq<seq<nat>>, ptr: nat, level: nat): (r: seq<seq<nat>>)
    requires level < |free|
    requires Aligned(Block(ptr, level))
    ensures |r| == |free|
    decreases |free| - level
  {
    if level + 1 == |free| then free[level := free[level] + [ptr]]
    else
      var parent := Parent(Block(ptr, level));
      var buddy := BuddyAddr(Block(ptr, level));
      if buddy in free[level] then
        MergeUp(free[level := Without(free[level], IndexOf(free[level], buddy))], parent.addr, level + 1)
      else free[level := SortedInsert(free[level], ptr)]
  }

  lemma {:induction false} MergeUpSound(free: seq<seq<nat>>, occ: set<Block>, tops: set<nat>, ptr: nat, level: nat)
    requires Sound(free, occ, tops) && Block(ptr, level) in occ
    ensures level < |free| && Aligned(Block(ptr, level))
    ensures Sound(MergeUp(free, ptr, level), occ - {Block(ptr, level)}, tops)
    decreases |free| - level
  {
    hide Sound, BuddyAddr;
    var x := Block(ptr, level);
    OccupiedAligned(free, occ, tops, x);
    if level + 1 == |free| {
      ReturnTop(free, occ, tops, x);
    } else if BuddyAddr(x) in free[level] {
      var parent := Parent(x);
      var k := IndexOf(free[level], BuddyAddr(x));
      AbsorbSound(free, occ, tops, ptr, level);
      var occ' := occ - {x} + {parent};
      MergeUpSound(free[level := Without(free[level], k)], occ', tops, parent.addr, level + 1);
      assert occ' - {parent} == occ - {x};
    } else {
      ReturnSorted(free, occ, tops, x);
    }
  }

  lemma ReturnTop(free: seq<seq<nat>>, occ: set<Block>, tops: set<nat>, x: Block)
    requires Sound(free, occ, tops) && x in occ && x.level == |free| - 1
    ensures Sound(free[x.level := free[x.level] + [x.addr]], occ - {x}, tops)
  {
    var s := free[x.level] + [x.addr];
    OccupiedAligned(free, occ, tops, x);
    assert x.addr in free[x.level] ==> x in FreeSet(free);
    FreeSetAdd(free, x.level, s, x.addr);
    ReturnSound(free, free[x.level := s], occ, tops, x);
  }

  lemma ReturnSorted(free: seq<seq<nat>>, occ: set<Block>, tops: set<nat>, x: Block)
    requires Sound(free, occ, tops) && x in occ && x.level < |free| - 1
    requires BuddyAddr(x) !in free[x.level]
    ensures Sound(free[x.level := SortedInsert(free[x.level], x.addr)], occ - {x}, tops)
  {
    var s := SortedInsert(free[x.level], x.addr);
    OccupiedAligned(free, occ, tops, x);
    assert x.addr in free[x.level] ==> x in FreeSet(free);
    SortedInsertElements(free[x.level], x.addr);
    SortedInsertAscending(free[x.level], x.addr);
    FreeSetAdd(free, x.level, s, x.addr);
    ReturnSound(free, free[x.level := s], occ, tops, x);
  }

  /** One merge: the free buddy leaves its list and the pair becomes one occupied block. */
  lemma AbsorbSound(free: seq<seq<nat>>, occ: set<Block>, tops: set<nat>, ptr: nat, level: nat)
    requires Sound(free, occ, tops) && level + 1 < |free|
    requires Block(ptr, level) in occ && Aligned(Block(ptr, level))
    requires BuddyAddr(Block(ptr, level)) in free[level]
    ensures var parent := Parent(Block(ptr, level));
      && parent !in occ
      && Sound(free[level := Without(free[level], IndexOf(free[level], BuddyAddr(Block(ptr, level))))],
               occ - {Block(ptr, level)} + {parent}, tops)
  {
    hide Tiles, Size;
    var x, parent := Block(ptr, level), Parent(Block(ptr, level));
    var buddy := Block(BuddyAddr(x), level);
    var k := IndexOf(free[level], buddy.addr);
    var free' := free[level := Without(free[level], k)];
    WithoutElements(free[level], k);
    FreeSetRemove(free, level, Without(free[level], k), buddy.addr);
    assert buddy in FreeSet(free);
    assert {Lower(parent), Upper(parent)} == {x, buddy};
    MergeTiles(FreeSet(free) + occ, parent, tops, |free| - 1);
    assert FreeSet(free') + (occ - {x} + {parent})
        == FreeSet(free) + occ - {Lower(parent), Upper(parent)} + {parent};
  }

  /** An occupied block whose buddy is not free may be put on its list. */
  lemma ReturnSound(free: seq<seq<nat>>, free': seq<seq<nat>>, occ: set<Block>, tops: set<nat>, x: Block)
    requires Sound(free, occ, tops) && x in occ && |free'| == |free| && x.level < |free| && Aligned(x)
    requires FreeSet(free') == FreeSet(free) + {x}
    requires forall l :: 0 <= l < |free| && l != x.level ==> free'[l] == free[l]
    requires Distinct(free'[x.level])
    requires x.level < |free| - 1 ==> Ascending(free'[x.level]) && BuddyAddr(x) !in free[x.level]
    ensures Sound(free', occ - {x}, tops)
  {
    assert FreeSet(free') + (occ - {x}) == FreeSet(free) + occ;
    forall y, z | y in FreeSet(free') && z in FreeSet(free') && y.level < |free| - 1
      ensures !(z.level == y.level && z.addr == BuddyAddr(y))
    {
      assert y == x || y in FreeSet(free);
      assert z == x || z in FreeSet(free);
      assert Aligned(y) by { assert y in FreeSet(free') + (occ - {x}); }
      BuddySymmetric(y);
    }
  }

  lemma BuddySymmetric(y: Block)
    requires Aligned(y)
    ensures BuddyAddr(y) >= 0 && BuddyAddr(Block(BuddyAddr(y), y.level)) == y.addr
  {
    HalvesAligned(Parent(y));
  }

  /** What an over-aligned block leaves behind when only its front is returned. */
  ghost function Leftover(ptr: nat, big: nat, small: nat): set<Block>
    requires small <= big
    decreases big
  {
    if big == small then {} else Leftover(ptr, big - 1, small) + {Upper(Block(ptr, big))}
  }

  /** Halving an occupied block keeps everything occupied. */
  lemma HalveOccupied(free: seq<seq<nat>>, occ: set<Block>, tops: set<nat>, x: Block)
    requires Sound(free, occ, tops) && x in occ && x.level > 0
    ensures Sound(free, occ - {x} + {Lower(x), Upper(x)}, tops)
    ensures Lower(x) !in occ && Upper(x) !in occ
  {
    hide Tiles, NoBuddies, FreeSet, Ascending, Distinct;
    var occ' := occ - {x} + {Lower(x), Upper(x)};
    SplitTiles(FreeSet(free) + occ, x, tops, |free| - 1);
    assert FreeSet(free) + occ' == Halved(FreeSet(free) + occ, x);
  }

  lemma {:induction false} ShaveSound(free: seq<seq<nat>>, occ: set<Block>, tops: set<nat>,
                                      ptr: nat, big: nat, small: nat)
    requires Sound(free, occ, tops) && Block(ptr, big) in occ && small <= big
    ensures Sound(free, occ - {Block(ptr, big)} + {Block(ptr, small)} + Leftover(ptr, big, small), tops)
    ensures forall x :: x in Leftover(ptr, big, small) ==>
      x !in occ - {Block(ptr, big)} && ptr + Size(small) <= x.addr && x.addr + Size(x.level) <= ptr + Size(big)
    ensures SumSizes(Leftover(ptr, big, small)) == Size(big) - Size(small)
    ensures Block(ptr, small) !in occ - {Block(ptr, big)}
    decreases big
  {
    hide Sound, Size, SumSizes;
    var x := Block(ptr, big);
    if big == small {
      assert occ - {x} + {x} + {} == occ;
      assert SumSizes({}) == 0 by { NoSizes(); }
    } else {
      HalveOccupied(free, occ, tops, x);
      var occ' := occ - {x} + {Lower(x), Upper(x)};
      ShaveSound(free, occ', tops, ptr, big - 1, small);
      var low := Leftover(ptr, big - 1, small);
      assert occ' - {Lower(x)} == occ - {x} + {Upper(x)};
      assert occ - {x} + {Upper(x)} + {Block(ptr, small)} + low
          == occ - {x} + {Block(ptr, small)} + (low + {Upper(x)});
      SumAdd(low, Upper(x));
      SizeMonotone(small, big - 1);
      SizeDouble(big - 1);
    }
  }

  lemma NoSizes()
    ensures SumSizes({}) == 0
  {
  }

  ghost function Dealloc(s: State, ptr: nat): State
    requires Inv(s) && ptr in s.live
  {
    var layout := s.live[ptr];
    var big, small := AllocLevel(layout), DeallocLevel(layout);
    DeallocReady(s, ptr);
    s.(free := MergeUp(s.free, ptr, small),
       live := s.live - {ptr},
       lost := s.lost + Leftover(ptr, big, small),
       inUse := s.inUse - Size(small))
  }

  lemma DeallocReady(s: State, ptr: nat)
    requires Inv(s) && ptr in s.live
    ensures DeallocLevel(s.live[ptr]) <= AllocLevel(s.live[ptr]) < |s.free|
    ensures Aligned(Block(ptr, DeallocLevel(s.live[ptr])))
    ensures Size(DeallocLevel(s.live[ptr])) <= s.inUse
  {
    var big, small := AllocLevel(s.live[ptr]), DeallocLevel(s.live[ptr]);
    LevelsAgree(s.live[ptr]);
    assert Block(ptr, big) in LiveSet(s.live);
    ShaveSound(s.free, Occupied(s), s.tops, ptr, big, small);
    var shaved := Occupied(s) - {Block(ptr, big)} + {Block(ptr, small)} + Leftover(ptr, big, small);
    assert Block(ptr, small) in FreeSet(s.free) + shaved;
    SumRemove(Occupied(s), Block(ptr, big));
    SizeMonotone(small, big);
  }

  lemma DeallocInv(s: State, ptr: nat)
    requires Inv(s) && ptr in s.live
    ensures Inv(Dealloc(s, ptr))
    ensures SumSizes(Dealloc(s, ptr).lost) == SumSizes(s.lost)
              + Size(AllocLevel(s.live[ptr])) - Size(DeallocLevel(s.live[ptr]))
  {
    hide Sound, Size, SumSizes, SumFree, MergeUp, FreeSet, LiveSet;
    var layout := s.live[ptr];
    var big, small := AllocLevel(layout), DeallocLevel(layout);
    LevelsAgree(layout);
    var occ, x, y, rest := Occupied(s), Block(ptr, big), Block(ptr, small), Leftover(ptr, big, small);
    var r := Dealloc(s, ptr);
    LiveRemove(s.live, ptr);
    ShaveSound(s.free, occ, s.tops, ptr, big, small);
    var shaved := occ - {x} + {y} + rest;
    MergeUpSound(s.free, shaved, s.tops, ptr, small);
    assert shaved - {y} == occ - {x} + rest == Occupied(r);
    SumRemove(occ, x);
    SumUnion(occ - {x}, rest);
    SumUnion(s.lost, rest);
    MergeUpSum(s.free, ptr, small);
  }

  lemma DeallocTops(s: State, ptr: nat)
    requires Inv(s) && ptr in s.live
    ensures Dealloc(s, ptr).tops == s.tops && |Dealloc(s, ptr).free| == |s.free|
  {
    hide Sound, Size;
    DeallocReady(s, ptr);
  }

  lemma SizeDouble(level: nat)
    ensures Size(level + 1) == 2 * Size(level)
  {
  }

  lemma LiveRemove(live: map<nat, Layout>, a: nat)
    requires a in live
    ensures Block(a, AllocLevel(live[a])) in LiveSet(live)
    ensures LiveSet(live - {a}) == LiveSet(live) - {Block(a, AllocLevel(live[a]))}
  {
    forall x | x in LiveSet(live) - {Block(a, AllocLevel(live[a]))} ensures x in LiveSet(live - {a}) {
      assert x.addr in live - {a};
    }
  }

  lemma {:induction false} SumUnion(xs: set<Block>, ys: set<Block>)
    requires xs !! ys
    ensures SumSizes(xs + ys) == SumSizes(xs) + SumSizes(ys)
    decreases |ys|
  {
    if ys == {} {
      assert xs + ys == xs;
    } else {
      var y :| y in ys;
      SumUnion(xs, ys - {y});
      SumRemove(ys, y);
      SumRemove(xs + ys, y);
      assert xs + ys - {y} == xs + (ys - {y});
    }
  }

  /** One more or one less block on a list. */
  lemma ListGains(free: seq<seq<nat>>, l: nat, s: seq<nat>)
    requires l < |free|
    ensures |s| == |free[l]| + 1 ==> SumFree(free[l := s], |free|) == SumFree(free, |free|) + Size(l)
    ensures |s| + 1 == |free[l]| ==> SumFree(free[l := s], |free|) == SumFree(free, |free|) - Size(l)
  {
    hide Size, SumFree;
    SumFreeUpdate(free, l, s, |free|);
    assert Size(l) * 1 == Size(l) && Size(l) * (-1) == 0 - Size(l);
  }

  lemma {:induction false} MergeUpSum(free: seq<seq<nat>>, ptr: nat, level: nat)
    requires level < |free| && Aligned(Block(ptr, level))
    ensures SumFree(MergeUp(free, ptr, level), |free|) == SumFree(free, |free|) + Size(level)
    decreases |free| - level
  {
    hide Size, SumFree, BuddyAddr, Aligned;
    var list := free[level];
    SizeDouble(level);
    if level + 1 == |free| {
      ListGains(free, level, list + [ptr]);
    } else {
      var parent := Parent(Block(ptr, level));
      var buddy := BuddyAddr(Block(ptr, level));
      if buddy in list {
        var s := Without(list, IndexOf(list, buddy));
        ListGains(free, level, s);
        MergeUpSum(free[level := s], parent.addr, level + 1);
      } else {
        ListGains(free, level, SortedInsert(list, ptr));
      }
    }
  }
}
