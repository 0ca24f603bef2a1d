/** The buddy allocator as the program holds it: an array of intrusive lists over raw
    memory. Each method is proved to perform the corresponding step of BuddyModel and
    to write next pointers into free memory only. */
module BuddyAllocator {
  import opened Arithmetic
  import opened BuddyBlocks
  import opened BuddyModel
  import opened BuddyRuns
  import opened IntrusiveList

  /** No address is on two lists. */
  ghost predicate NodesApart(free: seq<seq<nat>>) {
    forall k, l, a :: 0 <= k < |free| && 0 <= l < |free| && k != l && a in free[k] ==> a !in free[l]
  }

  ghost function AllNodes(free: seq<seq<nat>>): set<nat> {
    set l: nat, a | l < |free| && a in free[l] :: a
  }

  /** The only listed address inside [h, h + Size(i)) is h itself, on list i. */
  ghost predicate Alone(free: seq<seq<nat>>, h: nat, i: nat) {
    forall l, a :: 0 <= l < |free| && a in free[l] && h <= a < h + Size(i) ==> a == h && l == i
  }

  lemma NodesApartUpdate(free: seq<seq<nat>>, i: nat, s: seq<nat>, extra: set<nat>)
    requires NodesApart(free) && i < |free| && extra !! AllNodes(free)
    requires forall a :: a in s ==> a in free[i] || a in extra
    ensures NodesApart(free[i := s])
    ensures forall k, a :: 0 <= k < |free| && k != i && a in free[k] ==> a !in Nodes(free[i]) + extra
  {
  }

  /** All eight bytes of the word at w are free. */
  ghost predicate FreeWord(free: seq<seq<nat>>, w: nat) {
    forall b :: w <= b < w + MIN_BYTES ==> Covered(FreeSet(free), b)
  }

  ghost predicate Changed(before: map<nat, nat>, after: map<nat, nat>, w: nat) {
    !((w in before <==> w in after) && (w in before ==> before[w] == after[w]))
  }

  /** Every word written is a word of free memory. */
  ghost predicate WritesFree(before: map<nat, nat>, after: map<nat, nat>, free: seq<seq<nat>>) {
    forall w :: Changed(before, after, w) ==> FreeWord(free, w)
  }

  class BuddyAllocator {
    const mem: Memory
    const freeList: seq<IntrusiveLinkedList>
    var totalSize: nat
    var inUse: nat
    ghost var free: seq<seq<nat>>
    ghost var live: map<nat, Layout>
    ghost var lost: set<Block>
    ghost var tops: set<nat>

    ghost function View(): State
      reads this
    {
      State(free, live, lost, tops, totalSize, inUse)
    }

    /** The lists in memory spell out `free`. */
    ghost predicate Chained()
      reads this`free, mem, freeList
    {
      && |freeList| == |free| > 0
      && (forall i, j :: 0 <= i < j < |freeList| ==> freeList[i] != freeList[j])
      && (forall i :: 0 <= i < |freeList| ==>
            freeList[i].mem == mem && freeList[i].Valid() && freeList[i].contents == free[i])
      && NodesApart(free)
    }

    ghost predicate Valid()
      reads this, mem, freeList
    {
      Chained() && Inv(View())
    }

    /** `new`: one empty list for each level. */
    constructor (levels: nat, mem: Memory)
      requires levels > 0
      ensures Valid() && this.mem == mem && |freeList| == levels
      ensures View() == Init(levels)
      ensures fresh(freeList)
    {
      var lists: seq<IntrusiveLinkedList> := [];
      while |lists| < levels
        invariant |lists| <= levels && fresh(lists)
        invariant forall i, j :: 0 <= i < j < |lists| ==> lists[i] != lists[j]
        invariant forall i :: 0 <= i < |lists| ==>
          lists[i].mem == mem && lists[i].Valid() && lists[i].contents == []
      {
        var list := new IntrusiveLinkedList(mem);
        lists := lists + [list];
      }
      this.mem := mem;
      freeList := lists;
      totalSize, inUse := 0, 0;
      free, live, lost, tops := seq(levels, _ => []), map[], {}, {};
      new;
      assert View() == Init(levels);
    }

    /** When list i alone has changed, and only words of its own or unlisted ones were
        written, every other list is as before. */
    lemma Reframed(before: map<nat, nat>, was: seq<seq<nat>>, i: nat, extra: set<nat>)
      requires |freeList| == |was| && i < |was| && NodesApart(was) && extra !! AllNodes(was)
      requires forall k, l :: 0 <= k < l < |freeList| ==> freeList[k] != freeList[l]
      requires forall k :: 0 <= k < |freeList| ==> freeList[k].mem == mem
      requires freeList[i].Valid() && free == was[i := freeList[i].contents]
      requires forall a :: a in free[i] ==> a in was[i] || a in extra
      requires forall k :: 0 <= k < |freeList| && k != i ==>
        Linked(before, freeList[k].next, was[k]) && freeList[k].contents == was[k]
      requires OnlyAt(before, mem.words, Nodes(was[i]) + extra)
      ensures Chained()
    {
      NodesApartUpdate(was, i, free[i], extra);
      forall k | 0 <= k < |freeList| && k != i ensures freeList[k].Valid() {
        LinkedFrame(before, mem.words, Nodes(was[i]) + extra, freeList[k].next, free[k]);
      }
    }

    lemma ListCount()
      requires Chained()
      ensures |free| == |freeList| > 0
    {
    }

    lemma ListDistinct(i: nat)
      requires Chained() && i < |freeList|
      ensures |free| == |freeList| && Distinct(free[i])
    {
      LinkedAcyclic(mem.words, freeList[i].next, free[i]);
    }

    method PushAt(i: nat, ptr: nat)
      requires Chained() && i < |freeList|
      requires ptr != 0 && ptr !in AllNodes(free)
      modifies this`free, mem, freeList
      ensures Chained() && free == old(free)[i := [ptr] + old(free)[i]]
      ensures OnlyAt(old(mem.words), mem.words, {ptr})
    {
      freeList[i].Push(ptr);
      free := free[i := [ptr] + free[i]];
      Reframed(old(mem.words), old(free), i, {ptr});
    }

    method PushBackAt(i: nat, ptr: nat)
      requires Chained() && i < |freeList|
      requires ptr != 0 && ptr !in AllNodes(free)
      modifies this`free, mem, freeList
      ensures Chained() && free == old(free)[i := old(free)[i] + [ptr]]
      ensures OnlyAt(old(mem.words), mem.words, Nodes(old(free)[i]) + {ptr})
    {
      freeList[i].PushBack(ptr);
      free := free[i := free[i] + [ptr]];
      Reframed(old(mem.words), old(free), i, {ptr});
    }

    method PopAt(i: nat) returns (ptr: nat)
      requires Chained() && i < |freeList| && free[i] != []
      modifies this`free, freeList
      ensures Chained() && ptr == old(free)[i][0] && free == old(free)[i := old(free)[i][1..]]
    {
      var r := freeList[i].Pop();
      ptr := r.value;
      free := free[i := free[i][1..]];
      Reframed(old(mem.words), old(free), i, {});
    }

    method RemoveAt(i: nat, ptr: nat) returns (found: bool)
      requires Chained() && i < |freeList|
      modifies this`free, mem, freeList
      ensures Chained() && found == (ptr in old(free)[i])
      ensures free == if found then old(free)[i := Without(old(free)[i], IndexOf(old(free)[i], ptr))] else old(free)
      ensures OnlyAt(old(mem.words), mem.words, Nodes(old(free)[i]))
    {
      LinkedAcyclic(mem.words, freeList[i].next, free[i]);
      found := freeList[i].RemoveIf(ptr);
      free := free[i := freeList[i].contents];
      if found {
        WithoutElements(old(free)[i], IndexOf(old(free)[i], ptr));
      }
      Reframed(old(mem.words), old(free), i, {});
    }

    method AddSortedAt(i: nat, ptr: nat)
      requires Chained() && i < |freeList|
      requires ptr != 0 && ptr !in AllNodes(free)
      modifies this`free, mem, freeList
      ensures Chained() && free == old(free)[i := SortedInsert(old(free)[i], ptr)]
      ensures OnlyAt(old(mem.words), mem.words, Nodes(old(free)[i]) + {ptr})
    {
      freeList[i].AddWithSort(ptr);
      free := free[i := SortedInsert(free[i], ptr)];
      SortedInsertElements(old(free)[i], ptr);
      Reframed(old(mem.words), old(free), i, {ptr});
    }

    /** One iteration of `set_memory`, with the byte total t that the iterations so far
        account for. */
    method DonateBlock(ptr: nat, ghost t: nat)
      requires Chained() && Inv(View().(total := t)) && Donatable(View().(total := t), ptr, 1)
      modifies this`free, this`tops, mem, freeList
      ensures Chained() && totalSize == old(totalSize) && |free| == |freeList|
      ensures View().(total := t + Size(|freeList| - 1)) == DonateOne(old(View()).(total := t), ptr)
      ensures WritesFree(old(mem.words), mem.words, free)
      ensures FreeSet(old(free)) <= FreeSet(free)
    {
      hide Inv, Size, Donatable, Chained, WritesFree, OnlyAt, FreeSet, AllNodes;
      ListCount();
      FreshUnlisted(View().(total := t), ptr);
      PushBackAt(|freeList| - 1, ptr);
      AppendWrites(old(mem.words), mem.words, old(free), |freeList| - 1, ptr);
      tops := tops + {ptr};
    }

    /** The loop of `set_memory`. */
    method DonateBlocks(ptr: nat, count: nat, ghost t: nat)
      requires Chained() && Inv(View().(total := t)) && Donatable(View().(total := t), ptr, count)
      modifies this`free, this`tops, mem, freeList
      ensures Chained() && totalSize == old(totalSize)
      ensures var r := BuddyModel.SetMemory(old(View()).(total := t), ptr, count);
        View().(total := r.total) == r
      ensures WritesFree(old(mem.words), mem.words, free)
    {
      hide Inv, Size, WritesFree, Donatable, Chained, DonateOne, FreeSet;
      hide BuddyModel.SetMemory;
      ListCount();
      NoWrites(mem.words, free);
      var max := Size(|freeList| - 1);
      var p, n: nat := ptr, count;
      ghost var cur := View().(total := t);
      ghost var goal := BuddyModel.SetMemory(cur, ptr, count);
      while n > 0
        invariant Chained() && |free| == |freeList|
        invariant cur == View().(total := cur.total)
        invariant Inv(cur) && Donatable(cur, p, n) && BuddyModel.SetMemory(cur, p, n) == goal
        invariant WritesFree(old(mem.words), mem.words, free)
      {
        DonatableNext(cur, p, n);
        DonateOneInv(cur, p);
        label before:
        DonateBlock(p, cur.total);
        WritesFreeStep(old(mem.words), old@before(mem.words), mem.words, old@before(free), free);
        cur := DonateOne(cur, p);
        p := p + max;
        n := n - 1;
      }
      SetMemoryNone(cur, p);
    }

    /** `set_memory`: hands over `size` bytes at ptr, a multiple of the largest block. */
    method SetMemory(ptr: nat, size: nat)
      requires Valid()
      requires size % Size(|freeList| - 1) == 0
      requires Donatable(View(), ptr, size / Size(|freeList| - 1))
      modifies this, mem, freeList
      ensures Valid()
      ensures View() == BuddyModel.SetMemory(old(View()), ptr, size / Size(|freeList| - 1))
      ensures WritesFree(old(mem.words), mem.words, free)
    {
      hide Inv, Size, FreeWord, Donatable;
      var max := Size(|freeList| - 1);
      ghost var s := View();
      SetMemoryInv(s, ptr, size / max);
      SetMemoryTotal(s, ptr, size / max);
      totalSize := totalSize + size;
      assert View().(total := s.total) == s;
      DonateBlocks(ptr, size / max, s.total);
      assert View() == BuddyModel.SetMemory(s, ptr, size / max);
    }

    /** The body of the split loop: the head of list i becomes two heads of list i - 1. */
    method SplitOnce(i: nat)
      requires Chained() && 0 < i < |freeList| && free[i] != []
      requires free[i][0] > 0 && Alone(free, free[i][0], i)
      modifies this`free, mem, freeList
      ensures Chained() && free == SplitHead(old(free), i)
      ensures OnlyAt(old(mem.words), mem.words, {old(free)[i][0], old(free)[i][0] + Size(i - 1)})
    {
      hide Chained, Alone, AllNodes, Size;
      ListDistinct(i);
      AfterPop(free, i);
      var block := PopAt(i);
      var lowerLevelSize := Size(i - 1);
      PushAt(i - 1, block + lowerLevelSize);
      PushAt(i - 1, block);
    }

    /** The split loop of `alloc`, from list `from` down to list `level`. */
    method SplitDown(from: nat, level: nat)
      requires Chained() && level <= from < |freeList| && free[from] != []
      requires free[from][0] > 0 && Alone(free, free[from][0], from)
      modifies this`free, mem, freeList
      ensures Chained() && |free| == old(|free|)
      ensures free[level] != [] && free[level][0] == old(free)[from][0]
      ensures free[level := free[level][1..]]
           == TakeDown(old(free)[from := old(free)[from][1..]], old(free)[from][0], from, level)
      ensures WritesFree(old(mem.words), mem.words, old(free))
    {
      hide Chained, TakeDown, AllNodes, Alone, FreeWord, SplitHead;
      ListDistinct(from);
      ghost var h := free[from][0];
      var i := from;
      while level < i
        invariant level <= i <= from && Chained() && |free| == old(|free|)
        invariant free[i] != [] && free[i][0] == h && Alone(free, h, i)
        invariant TakeDown(free[i := free[i][1..]], h, i, level)
               == TakeDown(old(free)[from := old(free)[from][1..]], h, from, level)
        invariant WritesFree(old(mem.words), mem.words, old(free))
      {
        ListDistinct(i);
        SplitHeadStep(free, i, level);
        AfterPop(free, i);
        SplitWords(old(free), from, i);
        SplitOnce(i);
        i := i - 1;
      }
      TakeDownNone(free[level := free[level][1..]], h, level);
    }

    /** `alloc`. The heap source's answer is asked for only when no list can serve. Indexing
        past the lists is the answer Panic. */
    method Alloc(layout: Layout, heap: Heap) returns (r: AllocResult)
      requires Valid()
      requires heap.Grant? ==> Donatable(View(), heap.addr, 1)
      modifies this, mem, freeList
      ensures Valid()
      ensures (View(), r) == BuddyModel.Alloc(old(View()), layout, heap)
      ensures WritesFree(old(mem.words), mem.words, Pool(old(View()), layout, heap))
    {
      hide Inv, Size, WritesFree, Donatable, Chained, DonateOne, FreeSet, TakeFrom;
      ListCount();
      NoWrites(mem.words, free);
      AllocInv(View(), layout, heap);
      var freeLevel := Search(AllocLevel(layout));
      if freeLevel == |freeList| {
        match heap
        case NoSource => return OutOfMemory;
        case Exhausted => return HeapFailed;
        case Grant(addr) =>
          ExactDiv(Size(|freeList| - 1));
          SetMemoryOne(View(), addr);
          SetMemory(addr, Size(|freeList| - 1));
          freeLevel := |freeList| - 1;
      }
      if AllocLevel(layout) >= |freeList| {
        return Panic;
      }
      ghost var words, pool := mem.words, free;
      r := TakeAt(layout, freeLevel);
      WritesFreeStep(old(mem.words), words, mem.words, pool, pool);
    }

    /** The search loop of `alloc`. */
    method Search(level: nat) returns (freeLevel: nat)
      requires Chained()
      ensures |free| == |freeList| && freeLevel == FirstNonEmpty(free, level)
    {
      hide Chained;
      ListCount();
      freeLevel := level;
      while freeLevel < |freeList|
        invariant level <= freeLevel && (level <= |freeList| ==> freeLevel <= |freeList|)
        invariant FirstNonEmpty(free, level) == FirstNonEmpty(free, freeLevel)
      {
        var none := NoneAt(freeLevel);
        if !none {
          return;
        }
        freeLevel := freeLevel + 1;
      }
    }

    /** The part of `alloc` behind the search: split the head of a list, hand it out. */
    method TakeAt(layout: Layout, i: nat) returns (r: AllocResult)
      requires Valid() && AllocLevel(layout) <= i < |freeList| && free[i] != []
      requires forall l :: AllocLevel(layout) <= l < i ==> free[l] == []
      modifies this, mem, freeList
      ensures Valid()
      ensures View() == TakeFrom(old(View()), layout, i) && r == Ok(old(free)[i][0])
      ensures WritesFree(old(mem.words), mem.words, old(free))
    {
      hide Inv, Size, WritesFree, Chained, TakeDown, Alone;
      ListCount();
      TakeFromInv(View(), layout, i);
      HeadAlone(View(), i);
      var level := AllocLevel(layout);
      SplitDown(i, level);
      var ptr := PopAt(level);
      inUse := inUse + Size(level);
      live := live[ptr := layout];
      r := Ok(ptr);
    }

    method NoneAt(i: nat) returns (none: bool)
      requires Chained() && i < |freeList|
      ensures none == (free[i] == [])
    {
      none := freeList[i].IsNone();
    }

    /** The merge loop of `dealloc`. */
    method Merge(ptr: nat, level: nat)
      requires Chained() && level < |freeList|
      requires ptr > 0 && ptr !in AllNodes(free) && Aligned(Block(ptr, level))
      modifies this`free, mem, freeList
      ensures Chained() && free == MergeUp(old(free), ptr, level)
      ensures OnlyAt(old(mem.words), mem.words, AllNodes(old(free)) + {ptr})
    {
      hide Chained, AllNodes, Size, BuddyAddr, MergeUp;
      var p, l := ptr, level;
      ListCount();
      while l + 1 < |freeList|
        invariant Chained() && l < |freeList| == |free|
        invariant p > 0 && p !in AllNodes(free) && Aligned(Block(p, l))
        invariant p in AllNodes(old(free)) + {ptr} && AllNodes(free) <= AllNodes(old(free))
        invariant MergeUp(free, p, l) == MergeUp(old(free), ptr, level)
        invariant OnlyAt(old(mem.words), mem.words, AllNodes(old(free)) + {ptr})
        decreases |freeList| - l
      {
        ListDistinct(l);
        ListedFacts(l);
        MergeUpCases(free, p, l);
        var parent := Parent(Block(p, l));
        var buddy := BuddyAddr(Block(p, l));
        ghost var was := free;
        var found := RemoveAt(l, buddy);
        if found {
          RemoveUnlists(was, l, buddy);
          p := parent.addr;
          l := l + 1;
        } else {
          AddSortedAt(l, p);
          return;
        }
      }
      ListedFacts(l);
      MergeUpCases(free, p, l);
      PushBackAt(l, p);
    }

    lemma ListedFacts(i: nat)
      requires Chained() && i < |freeList|
      ensures |free| == |freeList| && NodesApart(free)
      ensures forall a :: a in free[i] ==> a > 0 && a in AllNodes(free)
    {
    }

    /** `dealloc`. Only words of free blocks and the first word of the freed block are written. */
    method Dealloc(ptr: nat, layout: Layout)
      requires Valid() && ptr in live && live[ptr] == layout
      modifies this, mem, freeList
      ensures Valid()
      ensures View() == BuddyModel.Dealloc(old(View()), ptr)
      ensures OnlyAt(old(mem.words), mem.words, AllNodes(old(free)) + {ptr})
    {
      hide Inv, Size, Chained, MergeUp, AllNodes;
      ListCount();
      DeallocInv(View(), ptr);
      DeallocReady(View(), ptr);
      LiveUnlisted(View(), ptr);
      var level := DeallocLevel(layout);
      inUse := inUse - Size(level);
      Merge(ptr, level);
      lost := lost + Leftover(ptr, AllocLevel(layout), level);
      live := live - {ptr};
    }
  }

  /** The free lists that serve an allocation: grown by the heap source's block if none could. */
  ghost function Pool(s: State, layout: Layout, heap: Heap): seq<seq<nat>>
    requires |s.free| > 0
  {
    if FirstNonEmpty(s.free, AllocLevel(layout)) == |s.free| && heap.Grant? then DonateOne(s, heap.addr).free
    else s.free
  }

  lemma SetMemoryOne(s: State, ptr: nat)
    requires |s.free| > 0
    ensures BuddyModel.SetMemory(s, ptr, 1) == DonateOne(s, ptr)
    ensures var r, top := DonateOne(s, ptr).free, |s.free| - 1;
      r[top] != [] && forall l :: 0 <= l < top ==> r[l] == s.free[l]
  {
  }

  lemma ExactDiv(n: nat)
    requires n > 0
    ensures n / n == 1 && n % n == 0
  {
  }

  lemma HeadAlone(s: State, i: nat)
    requires Inv(s) && i < |s.free| && s.free[i] != []
    ensures s.free[i][0] > 0 && Alone(s.free, s.free[i][0], i)
  {
    var x := Block(s.free[i][0], i);
    assert x in FreeSet(s.free) + Occupied(s);
    forall l: nat, a | l < |s.free| && a in s.free[l] && x.addr <= a < x.addr + Size(i)
      ensures a == x.addr && l == i
    {
      assert Block(a, l) in FreeSet(s.free) + Occupied(s);
      assert Block(a, l) != x ==> Apart(Block(a, l), x);
    }
  }

  /** A live block's address is on no list. */
  lemma LiveUnlisted(s: State, ptr: nat)
    requires Inv(s) && ptr in s.live
    ensures ptr > 0 && ptr !in AllNodes(s.free)
  {
    var x, all := Block(ptr, AllocLevel(s.live[ptr])), FreeSet(s.free) + Occupied(s);
    assert x in LiveSet(s.live);
    assert x in all;
    forall l: nat, a | l < |s.free| && a in s.free[l] ensures a != ptr {
      assert Block(a, l) in FreeSet(s.free) && Block(a, l) in all;
      assert x !in FreeSet(s.free);
      assert Apart(Block(a, l), x);
    }
  }

  lemma MergeUpCases(free: seq<seq<nat>>, p: nat, l: nat)
    requires l < |free| && Aligned(Block(p, l))
    ensures l + 1 == |free| ==> MergeUp(free, p, l) == free[l := free[l] + [p]]
    ensures l + 1 < |free| && BuddyAddr(Block(p, l)) in free[l] ==>
      MergeUp(free, p, l) ==
        MergeUp(free[l := Without(free[l], IndexOf(free[l], BuddyAddr(Block(p, l))))], Parent(Block(p, l)).addr, l + 1)
    ensures l + 1 < |free| && BuddyAddr(Block(p, l)) !in free[l] ==>
      MergeUp(free, p, l) == free[l := SortedInsert(free[l], p)]
  {
  }

  lemma RemoveUnlists(free: seq<seq<nat>>, l: nat, a: nat)
    requires l < |free| && NodesApart(free) && Distinct(free[l]) && a in free[l]
    ensures var r := free[l := Without(free[l], IndexOf(free[l], a))];
      AllNodes(r) <= AllNodes(free) && a !in AllNodes(r)
  {
    WithoutElements(free[l], IndexOf(free[l], a));
  }

  ghost function Popped(free: seq<seq<nat>>, i: nat): (r: seq<seq<nat>>)
    requires i < |free| && free[i] != []
    ensures |r| == |free|
    ensures r == free[i := free[i][1..]]
  {
    free[i := free[i][1..]]
  }

  ghost function HalfBack(free: seq<seq<nat>>, i: nat): (r: seq<seq<nat>>)
    requires 0 < i < |free| && free[i] != []
    ensures |r| == |free|
    ensures var p := Popped(free, i); r == p[i - 1 := [free[i][0] + Size(i - 1)] + p[i - 1]]
  {
    var p := Popped(free, i);
    p[i - 1 := [free[i][0] + Size(i - 1)] + p[i - 1]]
  }

  /** The lists after the head of list i was split into two heads of list i - 1. */
  ghost function SplitHead(free: seq<seq<nat>>, i: nat): (r: seq<seq<nat>>)
    requires 0 < i < |free| && free[i] != []
    ensures |r| == |free| && r[i - 1] != []
    ensures var p := HalfBack(free, i); r == p[i - 1 := [free[i][0]] + p[i - 1]]
  {
    var p := HalfBack(free, i);
    p[i - 1 := [free[i][0]] + p[i - 1]]
  }

  lemma SplitHeadStep(free: seq<seq<nat>>, i: nat, level: nat)
    requires level < i < |free| && free[i] != []
    ensures var h, r := free[i][0], SplitHead(free, i);
      && r[i - 1][0] == h
      && TakeDown(free[i := free[i][1..]], h, i, level) == TakeDown(r[i - 1 := r[i - 1][1..]], h, i - 1, level)
  {
    var h, r := free[i][0], SplitHead(free, i);
    assert r[i - 1 := r[i - 1][1..]] == free[i := free[i][1..]][i - 1 := [h + Size(i - 1)] + free[i - 1]];
  }

  lemma TakeDownNone(free: seq<seq<nat>>, h: nat, level: nat)
    requires level < |free|
    ensures TakeDown(free, h, level, level) == free
  {
  }

  /** With the lone head of list i gone, its whole block is unlisted. */
  lemma AfterPop(free: seq<seq<nat>>, i: nat)
    requires 0 < i < |free| && free[i] != [] && Distinct(free[i]) && Alone(free, free[i][0], i)
    ensures free[i][0] + Size(i - 1) !in AllNodes(Popped(free, i))
    ensures free[i][0] !in AllNodes(HalfBack(free, i))
    ensures Alone(SplitHead(free, i), free[i][0], i - 1)
  {
    var h, popped := free[i][0], Popped(free, i);
    assert Size(i) == 2 * Size(i - 1);
    forall l: nat, a | l < |free| && a in popped[l] ensures !(h <= a < h + Size(i)) {
      assert a in free[l];
    }
  }

  /** Both words written when splitting a block of level i off the head of list `from`
      lie inside that head. */
  lemma SplitWords(free: seq<seq<nat>>, from: nat, i: nat)
    requires 0 < i <= from < |free| && free[from] != []
    ensures FreeWord(free, free[from][0]) && FreeWord(free, free[from][0] + Size(i - 1))
  {
    var x := Block(free[from][0], from);
    assert x in FreeSet(free);
    SizeMonotone(i, from);
    assert forall b :: Holds(x, b) ==> Covered(FreeSet(free), b);
  }

  lemma SetMemoryNone(s: State, ptr: nat)
    requires |s.free| > 0
    ensures BuddyModel.SetMemory(s, ptr, 0) == s
  {
  }

  lemma {:induction false} SetMemoryTotal(s: State, ptr: nat, count: nat)
    requires |s.free| > 0
    ensures BuddyModel.SetMemory(s, ptr, count).total == s.total + count * Size(|s.free| - 1)
    decreases count
  {
    if count > 0 {
      SetMemoryTotal(DonateOne(s, ptr), ptr + Size(|s.free| - 1), count - 1);
    }
  }

  lemma FreshUnlisted(s: State, ptr: nat)
    requires Inv(s) && Donatable(s, ptr, 1)
    ensures ptr != 0 && ptr !in AllNodes(s.free)
  {
    var top := |s.free| - 1;
    forall l: nat | l < |s.free| ensures ptr !in s.free[l] {
      if ptr in s.free[l] {
        assert Block(ptr, l) in FreeSet(s.free) + Occupied(s);
        FreshApart(FreeSet(s.free) + Occupied(s), s.tops, top, Block(ptr, top), Block(ptr, l));
      }
    }
  }

  /** The word at a listed address is free: that is where next pointers live. */
  lemma ListedFreeWord(free: seq<seq<nat>>, l: nat, w: nat)
    requires l < |free| && w in free[l]
    ensures FreeWord(free, w)
  {
    forall b | w <= b < w + MIN_BYTES ensures Covered(FreeSet(free), b) {
      assert Block(w, l) in FreeSet(free) && Holds(Block(w, l), b);
    }
  }

  lemma MoreFreeWords(free: seq<seq<nat>>, more: seq<seq<nat>>)
    requires FreeSet(free) <= FreeSet(more)
    ensures forall w :: FreeWord(free, w) ==> FreeWord(more, w)
  {
    forall b | Covered(FreeSet(free), b) ensures Covered(FreeSet(more), b) {
      var x :| x in FreeSet(free) && Holds(x, b);
      assert x in FreeSet(more);
    }
  }

  lemma WritesFreeStep(w0: map<nat, nat>, w1: map<nat, nat>, w2: map<nat, nat>,
                       free: seq<seq<nat>>, more: seq<seq<nat>>)
    requires WritesFree(w0, w1, free) && WritesFree(w1, w2, more) && FreeSet(free) <= FreeSet(more)
    ensures WritesFree(w0, w2, more)
  {
    MoreFreeWords(free, more);
    assert forall w :: Changed(w0, w2, w) ==> Changed(w0, w1, w) || Changed(w1, w2, w);
  }

  lemma NoWrites(words: map<nat, nat>, free: seq<seq<nat>>)
    ensures WritesFree(words, words, free)
  {
  }

  lemma AppendWrites(before: map<nat, nat>, after: map<nat, nat>, free: seq<seq<nat>>, i: nat, ptr: nat)
    requires i < |free| && OnlyAt(before, after, Nodes(free[i]) + {ptr})
    ensures FreeSet(free) <= FreeSet(free[i := free[i] + [ptr]])
    ensures WritesFree(before, after, free[i := free[i] + [ptr]])
  {
    hide FreeWord, FreeSet;
    var free' := free[i := free[i] + [ptr]];
    FreeSetAdd(free, i, free'[i], ptr);
    forall w | Changed(before, after, w) ensures FreeWord(free', w) {
      assert w in Nodes(free[i]) + {ptr};
      ListedFreeWord(free', i, w);
    }
  }

  lemma LiveApart(s: State, p: nat)
    requires Inv(s) && p in s.live
    ensures forall y :: y in FreeSet(s.free) ==> Apart(Block(p, AllocLevel(s.live[p])), y)
    ensures forall q :: q in s.live && q != p ==>
      Apart(Block(p, AllocLevel(s.live[p])), Block(q, AllocLevel(s.live[q])))
  {
  }

  /** The words the methods write, words of free memory and the first word of the block
      being freed, never overlap a block that stays live. */
  lemma NoWriteInsideLive(s: State, p: nat, w: nat)
    requires Inv(s) && p in s.live
    requires w < p + Size(AllocLevel(s.live[p])) && p < w + MIN_BYTES
    ensures !FreeWord(s.free, w) && w !in AllNodes(s.free)
    ensures forall q :: q in s.live && q != p ==> w != q
  {
    hide Inv, AllocLevel;
    LiveApart(s, p);
    var x, b := Block(p, AllocLevel(s.live[p])), Max(p, w);
    assert Holds(x, b);
    assert w <= b < w + MIN_BYTES && !Covered(FreeSet(s.free), b);
    assert forall l: nat, a: nat :: l < |s.free| && a in s.free[l] ==> Block(a, l) in FreeSet(s.free);
    forall q | q in s.live && q != p ensures w != q {
      assert Apart(x, Block(q, AllocLevel(s.live[q])));
    }
  }
}
