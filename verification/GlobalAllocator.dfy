/** The global allocator object: both allocators behind one interface, after
    initialization. A null pointer is 0. */
module GlobalAllocator {
  import opened Arithmetic
  import opened Options
  import opened BuddyBlocks
  import opened Regions
  import B = BuddyModel
  import R = RangeModel
  import G = GlobalModel
  import MB = MemoryBlock
  import BA = BuddyAllocator

  class MemoryAllocator {
    const rangeList: MB.MemoryBlock
    const buddy: BA.BuddyAllocator
    ghost var large: map<nat, B.Layout>

    ghost function View(): G.State
      requires rangeList.Shaped()
      reads this, rangeList, rangeList.regions, rangeList.reservedRegions, buddy
    {
      G.State(rangeList.View(), buddy.View(), large)
    }

    /** Finalized, and the two allocators agree on who holds what. */
    ghost predicate Ready()
      reads this, rangeList, rangeList.regions, rangeList.reservedRegions, buddy, buddy.mem, buddy.freeList
    {
      && rangeList.Valid() && rangeList.allocatable && buddy.Valid()
      && G.Inv(View())
    }

    constructor (rangeList: MB.MemoryBlock, buddy: BA.BuddyAllocator)
      requires rangeList.Valid() && rangeList.allocatable && buddy.Valid()
      requires G.Inv(G.State(rangeList.View(), buddy.View(), map[]))
      ensures Ready() && this.rangeList == rangeList && this.buddy == buddy && large == map[]
    {
      this.rangeList := rangeList;
      this.buddy := buddy;
      large := map[];
    }

    /** `alloc_for_buddy_allocator`. */
    method AllocForBuddyAllocator(max: nat) returns (heap: B.Heap)
      requires rangeList.Valid() && rangeList.allocatable && max > 0 && rangeList.EnsureHeadroomFits()
      modifies rangeList, rangeList.regions, rangeList.reservedRegions
      ensures rangeList.Valid() && rangeList.allocatable
      ensures match heap
        case NoSource => false
        case Exhausted => R.Alloc(old(rangeList.View()), max, max) == R.Failed(rangeList.View())
        case Grant(a) => R.Alloc(old(rangeList.View()), max, max) == R.Ok(rangeList.View(), a)
    {
      hide R.Alloc, R.Inv;
      var r := rangeList.AllocateRegion(max, max);
      heap := match r case None => B.Exhausted case Some(a) => B.Grant(a);
    }

    /** The call does not end in a panic and no list of pointers is given a null. */
    ghost predicate Served(layout: B.Layout)
      requires Ready() && G.Proper(layout)
      reads this, rangeList, rangeList.regions, rangeList.reservedRegions, buddy, buddy.mem, buddy.freeList
    {
      !G.Alloc(View(), layout).Panic? && !G.Alloc(View(), layout).Undefined?
    }

    /** `alloc`. The null pointer stands for failure, and for a success at address 0. */
    method Alloc(layout: B.Layout) returns (ptr: nat)
      requires Ready() && G.Proper(layout) && Served(layout)
      modifies this, rangeList, rangeList.regions, rangeList.reservedRegions, buddy, buddy.mem, buddy.freeList
      ensures Ready()
      ensures Answers(G.Alloc(old(View()), layout), View(), ptr)
    {
      hide G.Inv, R.Alloc, B.Alloc, G.Alloc, R.Inv, B.Inv, Size;
      ghost var s := View();
      G.InvBasics(s);
      G.AllocInv(s, layout);
      buddy.ListCount();
      if Max(layout.size, layout.align) > Size(|buddy.freeList| - 1) {
        ptr := AllocLarge(layout);
      } else {
        ptr := AllocSmall(layout);
      }
    }

    /** The branch of `alloc` for requests above the largest buddy block. */
    method AllocLarge(layout: B.Layout) returns (ptr: nat)
      requires Ready() && G.Proper(layout) && Served(layout)
      requires |buddy.free| > 0 && G.IsLarge(View(), layout)
      modifies this, rangeList, rangeList.regions, rangeList.reservedRegions
      ensures rangeList.Valid() && rangeList.allocatable
      ensures Answers(G.Alloc(old(View()), layout), View(), ptr)
    {
      hide G.Inv, R.Alloc, R.Inv, B.Inv, Size;
      ghost var s := View();
      G.InvBasics(s);
      rangeList.Growing(layout.size, layout.align);
      var r := rangeList.AllocateRegion(layout.size, layout.align);
      match r {
        case None => ptr := 0;
        case Some(a) =>
          large := large[a := layout];
          ptr := a;
      }
    }

    /** The branch of `alloc` for the buddy allocator, which turns to the range allocator only
        when none of its lists can serve. */
    method AllocSmall(layout: B.Layout) returns (ptr: nat)
      requires Ready() && G.Proper(layout) && Served(layout)
      requires |buddy.free| > 0 && !G.IsLarge(View(), layout)
      modifies rangeList, rangeList.regions, rangeList.reservedRegions, buddy, buddy.mem, buddy.freeList
      ensures rangeList.Valid() && rangeList.allocatable && buddy.Valid()
      ensures Answers(G.Alloc(old(View()), layout), View(), ptr)
    {
      hide G.Inv, R.Alloc, B.Alloc, B.AllocLevel, R.Inv, B.Inv, Size, B.Donatable, G.Proper;
      hide BA.BuddyAllocator.Chained, BA.WritesFree;
      ghost var s := View();
      G.InvBasics(s);
      G.SmallLevel(s, layout);
      buddy.ListCount();
      var i := buddy.Search(B.AllocLevel(layout));
      if i < |buddy.freeList| {
        G.BuddyAnswers(s.buddy, layout, B.NoSource);
        var res := buddy.Alloc(layout, B.NoSource);
        ptr := res.addr;
      } else {
        ptr := AllocGrown(layout);
      }
    }

    /** The heap source's answer is the range allocator's. */
    method AllocGrown(layout: B.Layout) returns (ptr: nat)
      requires Ready() && G.Proper(layout) && Served(layout)
      requires |buddy.free| > 0 && !G.IsLarge(View(), layout) && !G.ListsServe(View(), layout)
      modifies rangeList, rangeList.regions, rangeList.reservedRegions, buddy, buddy.mem, buddy.freeList
      ensures rangeList.Valid() && rangeList.allocatable && buddy.Valid()
      ensures Answers(G.Alloc(old(View()), layout), View(), ptr)
    {
      hide G.Inv, R.Alloc, B.Alloc, B.AllocLevel, R.Inv, B.Inv, Size, B.Donatable, G.Proper;
      hide BA.BuddyAllocator.Chained, BA.WritesFree;
      ghost var s := View();
      G.InvBasics(s);
      G.SmallLevel(s, layout);
      buddy.ListCount();
      var max := Size(|buddy.freeList| - 1);
      rangeList.Growing(max, max);
      var heap := AllocForBuddyAllocator(max);
      if heap.Grant? {
        G.GrantDonatable(s, rangeList.View(), heap.addr);
      }
      G.BuddyAnswers(s.buddy, layout, heap);
      var res := buddy.Alloc(layout, heap);
      ptr := if res.Ok? then res.addr else 0;
    }

    /** `dealloc`, dispatched by layout. It panics only if the range allocator has to grow its
        tables for it and cannot. */
    method Dealloc(ptr: nat, layout: B.Layout)
      requires Ready()
      requires ptr in G.Live(View()) && G.Live(View())[ptr] == layout
      requires G.Dealloc(View(), ptr).Some?
      modifies this, rangeList, rangeList.regions, rangeList.reservedRegions, buddy, buddy.mem, buddy.freeList
      ensures Ready()
      ensures G.Dealloc(old(View()), ptr) == Some(View())
    {
      hide G.Inv, R.Dealloc, B.Dealloc, R.Inv, B.Inv, Size;
      ghost var s := View();
      G.InvBasics(s);
      G.DispatchAgrees(s, ptr);
      G.DeallocInv(s, ptr);
      buddy.ListCount();
      if Max(layout.size, layout.align) > Size(|buddy.freeList| - 1) {
        G.LargeLive(s, ptr);
        rangeList.Returning(Region(ptr, layout.size));
        rangeList.DeallocateRegion(ptr, layout.size);
        large := large - {ptr};
      } else {
        buddy.Dealloc(ptr, layout);
      }
    }
  }

  /** The pointer that is returned for an outcome, and the state it leaves. */
  ghost predicate Answers(o: G.Outcome, after: G.State, ptr: nat) {
    match o
    case Panic => false
    case Undefined => false
    case Null(t) => ptr == 0 && after == t
    case Ptr(t, a) => ptr == a && after == t
  }
}
