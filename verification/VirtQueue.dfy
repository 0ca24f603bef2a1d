/** The driver's side of the virtqueue as the program holds it: index fields, ring arrays
    in memory shared with the device, and descriptors linked into an intrusive free list. */
module VirtQueue {
  import opened Arithmetic
  import opened Bits
  import opened Options
  import opened IntrusiveList
  import opened VirtQueueModel

  /** Bytes in one descriptor. */
  const DESC_BYTES: nat := 16

  /** The addresses of a list of descriptors. */
  function Addresses(base: nat, s: seq<nat>): (r: seq<nat>)
    ensures |r| == |s| && forall i :: 0 <= i < |s| ==> r[i] == base + s[i] * DESC_BYTES
  {
    seq(|s|, i requires 0 <= i < |s| => base + s[i] * DESC_BYTES)
  }

  class VirtQueue {
    const size: nat
    const descriptorPaddr: nat
    const freeList: IntrusiveLinkedList
    const availRing: array<nat>
    const usedRing: array<Used>
    /** The device's copy of the available index, and the index the device writes. */
    var sharedAvail: nat
    var sharedUsed: nat
    var availIdx: nat
    var usedIdx: nat
    ghost var submitted: seq<nat>
    ghost var fetched: seq<nat>
    ghost var completed: seq<Used>
    ghost var popped: seq<Used>
    ghost var free: seq<nat>
    ghost var held: set<nat>
    ghost var flying: set<nat>

    ghost function View(): State
      reads this, availRing, usedRing
    {
      State(size, availIdx, usedIdx, sharedUsed, availRing[..], usedRing[..],
            submitted, fetched, completed, popped, free, held, flying)
    }

    ghost predicate Valid()
      reads this, freeList, freeList.mem, availRing, usedRing
    {
      && descriptorPaddr > 0 && sharedAvail == availIdx
      && freeList.Valid() && freeList.contents == Addresses(descriptorPaddr, free)
      && Inv(View())
    }

    constructor (size: nat, descriptorPaddr: nat, mem: Memory)
      requires SizeOk(size) && descriptorPaddr > 0
      modifies mem
      ensures Valid() && View() == Init(size)
    {
      hide Counters, Rings, Owned;
      var list := LinkDescriptors(size, descriptorPaddr, mem);
      this.size := size;
      this.descriptorPaddr := descriptorPaddr;
      freeList := list;
      availRing := new nat[size](_ => 0);
      usedRing := new Used[size](_ => Used(0, 0));
      sharedAvail, sharedUsed, availIdx, usedIdx := 0, 0, 0, 0;
      submitted, fetched, completed, popped := [], [], [], [];
      free, held, flying := Descending(size), {}, {};
      new;
      assert View() == Init(size);
    }

    /** `allocate_descriptor`. */
    method AllocateDescriptor() returns (r: Option<nat>)
      requires Valid()
      modifies this`free, this`held, freeList
      ensures Valid()
      ensures (View(), match r case None => OutOfDescriptors case Some(d) => Descriptor(d))
           == Next(old(View()), Allocate)
      ensures r.None? <==> |old(held)| + |old(flying)| == size
      ensures r.Some? ==>
        r.value < size && r.value !in old(held) + old(flying) && held == old(held) + {r.value}
    {
      hide Counters, Rings, Owned, SizeOk, Linked, Addresses;
      StepInv(View(), Allocate);
      AllocateExact(View());
      AddressesTail(descriptorPaddr, free);
      var ptr := freeList.Pop();
      if ptr.None? {
        return None;
      }
      var idx := (ptr.value - descriptorPaddr) / DESC_BYTES;
      free := free[1..];
      held := held + {idx};
      r := Some(idx);
    }

    /** `set_available_ring`. */
    method SetAvailableRing(descIdx: nat) returns (ok: bool)
      requires Valid() && descIdx in held
      modifies this, availRing
      ensures Valid()
      ensures (View(), if ok then Quiet else Full) == Next(old(View()), Submit(descIdx))
      ensures ok && submitted == old(submitted) + [descIdx] && flying == old(flying) + {descIdx}
    {
      hide Counters, Rings, Owned, Linked, Addresses, And, SizeOk, Next, WrapSub, IntrusiveLinkedList.Valid;
      StepInv(View(), Submit(descIdx));
      SubmitNext(View(), descIdx);
      SubmitExact(View(), descIdx);
      var inFlight := WrapSub(availIdx, usedIdx);
      if inFlight >= size {
        return false;
      }
      MaskIsModulo(availIdx, size);
      var ringSlot := And(availIdx, size - 1);
      availRing[ringSlot] := descIdx;
      availIdx := (availIdx + 1) % INDEX;
      sharedAvail := availIdx;
      submitted := submitted + [descIdx];
      held := held - {descIdx};
      flying := flying + {descIdx};
      ok := true;
    }

    /** `pop_used`. */
    method PopUsed() returns (r: Reply)
      requires Valid()
      modifies this
      ensures Valid()
      ensures (View(), r) == Next(old(View()), Pop)
      ensures r == if |old(popped)| == |completed| then Nothing else Popped(completed[|old(popped)|])
    {
      hide Counters, Rings, Owned, Linked, Addresses, And, SizeOk;
      StepInv(View(), Pop);
      PopReply(View());
      var delta := WrapSub(sharedUsed, usedIdx);
      if delta == 0 {
        return Nothing;
      }
      if delta > size {
        return Corrupted;
      }
      MaskIsModulo(usedIdx, size);
      var elem := usedRing[And(usedIdx, size - 1)];
      usedIdx := (usedIdx + 1) % INDEX;
      popped := popped + [elem];
      flying := flying - {elem.id};
      held := held + {elem.id};
      r := Popped(elem);
    }

    /** `dequeue_used`. */
    method DequeueUsed(descIdx: nat)
      requires Valid() && descIdx in held
      modifies this`free, this`held, freeList, freeList.mem
      ensures Valid()
      ensures View() == Next(old(View()), Release(descIdx)).0
    {
      hide Counters, Rings, Owned, SizeOk, Linked, Addresses;
      StepInv(View(), Release(descIdx));
      AddressesCons(descriptorPaddr, descIdx, free);
      HeldNotFree(View(), descIdx);
      ListedAddress(descriptorPaddr, free, descIdx);
      freeList.Push(descriptorPaddr + descIdx * DESC_BYTES);
      free := [descIdx] + free;
      held := held - {descIdx};
    }
  }

  /** The loop of `new` that pushes every descriptor on the free list. */
  method LinkDescriptors(size: nat, base: nat, mem: Memory) returns (list: IntrusiveLinkedList)
    requires base > 0
    modifies mem
    ensures list.Valid() && list.mem == mem && fresh(list)
    ensures list.contents == Addresses(base, Descending(size))
    ensures |list.contents| == size && forall i :: 0 <= i < size ==> list.contents[i] == base + 16 * (size - 1 - i)
  {
    hide Linked;
    list := new IntrusiveLinkedList(mem);
    var i := 0;
    while i < size
      invariant i <= size && list.Valid() && list.mem == mem && fresh(list)
      invariant list.contents == Addresses(base, Descending(i))
    {
      ListedAddress(base, Descending(i), i);
      list.Push(base + i * DESC_BYTES);
      i := i + 1;
    }
  }

  lemma AddressesTail(base: nat, s: seq<nat>)
    ensures s == [] ==> Addresses(base, s) == []
    ensures s != [] ==>
      && Addresses(base, s) != [] && Addresses(base, s)[1..] == Addresses(base, s[1..])
      && (Addresses(base, s)[0] - base) / DESC_BYTES == s[0]
  {
  }

  lemma AddressesCons(base: nat, d: nat, s: seq<nat>)
    ensures Addresses(base, [d] + s) == [base + d * DESC_BYTES] + Addresses(base, s)
  {
  }

  lemma SubmitNext(s: State, head: nat)
    requires Inv(s) && head in s.held
    ensures Next(s, Submit(head)) ==
      if WrapSub(s.availIdx, s.usedIdx) >= s.size then (s, Full) else
      (s.(avail := s.avail[s.availIdx % s.size := head], availIdx := (s.availIdx + 1) % INDEX,
          submitted := s.submitted + [head], held := s.held - {head}, flying := s.flying + {head}), Quiet)
  {
  }

  lemma HeldNotFree(s: State, d: nat)
    requires Inv(s) && d in s.held
    ensures d !in s.free
  {
  }

  lemma ListedAddress(base: nat, s: seq<nat>, d: nat)
    ensures base + d * DESC_BYTES in Addresses(base, s) <==> d in s
  {
  }

  /** Masking an index with the size less one finds its slot. */
  lemma MaskIsModulo(x: nat, size: nat)
    requires SizeOk(size)
    ensures And(x, size - 1) == x % size
  {
    hide And, Pow2;
    PowerOfTwoSizes(size);
    var k: nat :| k <= 15 && size == Pow2(k);
    AndMask(x, k);
  }
}
