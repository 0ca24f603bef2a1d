/** Region tables as the program keeps them: the first n slots of an array, edited in
    place by shifting slots. Every edit is proved against its table function. */
module RegionArray {
  import opened Arithmetic
  import opened Regions
  import opened RangeSearch
  import opened RangeModel

  /** `copy_within`: slots lo..hi are moved, overlapping or not, to dst. */
  method CopyWithin(a: array<Region>, lo: nat, hi: nat, dst: nat)
    requires lo <= hi <= a.Length && dst + (hi - lo) <= a.Length
    modifies a
    ensures forall k :: 0 <= k < a.Length ==>
      a[k] == old(a[if dst <= k < dst + (hi - lo) then k - dst + lo else k])
  {
    forall k | 0 <= k < hi - lo {
      a[dst + k] := a[lo + k];
    }
  }

  /** `insert_region`. */
  method InsertRegion(a: array<Region>, n: nat, x: nat, r: Region) returns (m: nat)
    requires x <= n < a.Length
    modifies a
    ensures m == n + 1 && a[..m] == Splice(old(a[..n]), x, x, [r])
  {
    CopyWithin(a, x, n, x + 1);
    a[x] := r;
    m := n + 1;
    SpliceSlots(old(a[..n]), x, x, [r], a[..m]);
  }

  /** Shifting the tail down over slot x. */
  method RemoveSlot(a: array<Region>, n: nat, x: nat) returns (m: nat)
    requires x < n <= a.Length
    modifies a
    ensures m == n - 1 && a[..m] == Splice(old(a[..n]), x, x + 1, [])
    ensures forall k :: 0 <= k < m ==> a[k] == old(a[if k < x then k else k + 1])
  {
    CopyWithin(a, x + 1, n, x);
    m := n - 1;
    SpliceSlots(old(a[..n]), x, x + 1, [], a[..m]);
  }

  lemma SpliceSlots(t: Table, lo: nat, hi: nat, mid: Table, s: Table)
    requires lo <= hi <= |t| && |s| == |t| - (hi - lo) + |mid|
    requires forall k :: 0 <= k < lo ==> s[k] == t[k]
    requires forall k :: 0 <= k < |mid| ==> s[lo + k] == mid[k]
    requires forall k :: lo + |mid| <= k < |s| ==> s[k] == t[k - |mid| + (hi - lo)]
    ensures s == Splice(t, lo, hi, mid)
  {
  }

  /** `binary_search_by_key` on the start address. */
  method BinarySearch(a: array<Region>, n: nat, key: nat) returns (found: bool, k: nat)
    requires n <= a.Length && Ascending(a[..n])
    ensures k == LowerBound(a[..n], key) && found == Found(a[..n], key)
  {
    var lo, hi := 0, n;
    while lo < hi
      invariant lo <= hi <= n
      invariant forall i :: 0 <= i < lo ==> a[i].address < key
      invariant forall i :: hi <= i < n ==> a[i].address >= key
    {
      var mid := (lo + hi) / 2;
      assert a[..n][mid] == a[mid];
      assert forall i :: 0 <= i < n ==> a[..n][i] == a[i];
      if a[mid].address < key {
        lo := mid + 1;
      } else {
        hi := mid;
      }
    }
    k := lo;
    found := k < n && a[k].address == key;
    LowerBoundUnique(a[..n], key, k);
  }

  /** `add_and_merge_region`. */
  method AddAndMergeRegion(a: array<Region>, n: nat, x: nat, r: Region) returns (m: nat)
    requires x <= n < a.Length && Ascending(a[..n])
    requires x > 0 ==> a[x - 1].address <= r.address
    requires x < n ==> r.address <= a[x].address
    modifies a
    ensures m <= n + 1 && a[..m] == AddMerge(old(a[..n]), x, r)
  {
    hide Splice, AddMerge, Ascending;
    ghost var t := a[..n];
    var pre := x > 0 && r.address <= a[x - 1].End();
    var next := x < n && r.End() >= a[x].address;
    MergeCases(t, x, r);
    if !pre && !next {
      m := InsertRegion(a, n, x, r);
    } else if pre && !next {
      if r.End() > a[x - 1].End() {
        SetSlot(a, n, x - 1, Region(a[x - 1].address, r.End() - a[x - 1].address));
      } else {
        SetSlot(a, n, x - 1, a[x - 1]);
      }
      m := n;
    } else if !pre && next {
      SetSlot(a, n, x, Region(r.address, Max(a[x].End(), r.End()) - r.address));
      m := n;
    } else {
      var newEnd := Max(Max(a[x - 1].End(), r.End()), a[x].End());
      m := JoinSlots(a, n, x, Region(a[x - 1].address, newEnd - a[x - 1].address));
    }
  }

  method SetSlot(a: array<Region>, n: nat, x: nat, r: Region)
    requires x < n <= a.Length
    modifies a
    ensures a[..n] == Splice(old(a[..n]), x, x + 1, [r])
  {
    a[x] := r;
    SpliceSlots(old(a[..n]), x, x + 1, [r], a[..n]);
  }

  /** The two slots before and at x become one. */
  method JoinSlots(a: array<Region>, n: nat, x: nat, r: Region) returns (m: nat)
    requires 0 < x < n <= a.Length
    modifies a
    ensures m == n - 1 && a[..m] == Splice(old(a[..n]), x - 1, x + 1, [r])
  {
    hide Splice;
    a[x - 1] := r;
    m := RemoveSlot(a, n, x);
    SpliceSlots(old(a[..n]), x - 1, x + 1, [r], a[..m]);
  }

  /** The four overlap cases of the code give the same merged entry. */
  lemma MergeCases(t: Table, x: nat, r: Region)
    requires x <= |t| && Ascending(t)
    requires x > 0 ==> t[x - 1].address <= r.address
    requires x < |t| ==> r.address <= t[x].address
    ensures var pre, next := TouchesBefore(t, x, r), TouchesAfter(t, x, r);
      AddMerge(t, x, r) ==
        if !pre && !next then Splice(t, x, x, [r])
        else if pre && !next then
          Splice(t, x - 1, x, [Region(t[x - 1].address, Max(t[x - 1].End(), r.End()) - t[x - 1].address)])
        else if !pre && next then Splice(t, x, x + 1, [Region(r.address, Max(t[x].End(), r.End()) - r.address)])
        else Splice(t, x - 1, x + 1, [Region(t[x - 1].address,
               Max(Max(t[x - 1].End(), r.End()), t[x].End()) - t[x - 1].address)])
  {
    hide Splice, Ascending;
    var pre, next := TouchesBefore(t, x, r), TouchesAfter(t, x, r);
    assert HullEnd(t, x, x, r.End()) == r.End();
    if next {
      assert HullEnd(t, x + 1, x + 1, r.End()) == r.End();
      assert HullEnd(t, x, x + 1, r.End()) == Max(t[x].End(), r.End());
    }
  }

  /** What is left of an entry: a front piece unless the starts agree, a back piece
      unless the ends agree. */
  lemma CutPieces(x: Region, r: Region)
    requires Inside(r, x)
    ensures var c, starts, ends := Cut(x, r), x.address == r.address, x.End() == r.End();
      && |c| == (if starts then 0 else 1) + (if ends then 0 else 1)
      && (!starts ==> c[0] == Region(x.address, r.address - x.address))
      && (!ends ==> c[|c| - 1] == Region(r.End(), x.End() - r.End()))
  {
  }

  lemma TakeOutSlots(t: Table, i: nat, r: Region, s: Table)
    requires i < |t|
    requires var c := Cut(t[i], r);
      && |s| == |t| - 1 + |c|
      && (forall k :: 0 <= k < i ==> s[k] == t[k])
      && (forall k :: 0 <= k < |c| ==> s[i + k] == c[k])
      && (forall k :: i + |c| <= k < |s| ==> s[k] == t[k - |c| + 1])
    ensures s == TakeOut(t, i, r)
  {
  }

  /** An entry keeps what lies before r; what lies behind it gets a slot of its own. */
  method SplitMiddle(a: array<Region>, n: nat, i: nat, r: Region)
    requires i < n < a.Length && a[i].address < r.address && r.End() < a[i].End()
    modifies a
    ensures forall k :: 0 <= k < i ==> a[k] == old(a[k])
    ensures a[i] == Region(old(a[i]).address, r.address - old(a[i]).address)
    ensures a[i + 1] == Region(r.End(), old(a[i]).End() - r.End())
    ensures forall k :: i + 1 < k <= n ==> a[k] == old(a[k - 1])
  {
    var originalEnd := a[i].End();
    a[i] := Region(a[i].address, r.address - a[i].address);
    CopyWithin(a, i + 1, n, i + 2);
    a[i + 1] := Region(r.End(), originalEnd - r.End());
  }

  /** One subtraction step of `check_regions`: entry i loses the range r inside it. */
  method SubtractAt(a: array<Region>, n: nat, i: nat, r: Region) returns (m: nat)
    requires i < n <= a.Length && Inside(r, a[i])
    requires a[i].address < r.address && r.End() < a[i].End() ==> n < a.Length
    modifies a
    ensures m <= a.Length && a[..m] == TakeOut(old(a[..n]), i, r)
    ensures n - 1 <= m <= n + 1
    ensures old(a[i]).address != r.address && old(a[i]).End() != r.End() ==> m == n + 1
  {
    hide Splice, TakeOut, Cut;
    ghost var t := a[..n];
    CutPieces(a[i], r);
    var starts, ends := a[i].address == r.address, a[i].End() == r.End();
    if starts && ends {
      m := RemoveSlot(a, n, i);
      TakeOutSlots(t, i, r, a[..m]);
    } else if starts {
      a[i] := Region(a[i].address + r.size, a[i].size - r.size);
      m := n;
      TakeOutSlots(t, i, r, a[..m]);
    } else if ends {
      a[i] := Region(a[i].address, a[i].size - r.size);
      m := n;
      TakeOutSlots(t, i, r, a[..m]);
    } else {
      SplitMiddle(a, n, i, r);
      m := n + 1;
      TakeOutSlots(t, i, r, a[..m]);
    }
  }

  /** The part of an entry before the aligned address gets a slot of its own. */
  method SplitFront(a: array<Region>, n: nat, i: nat, aligned: nat)
    requires i < n < a.Length && a[i].address < aligned <= a[i].End()
    modifies a
    ensures forall k :: 0 <= k < i ==> a[k] == old(a[k])
    ensures a[i] == Region(old(a[i]).address, aligned - old(a[i]).address)
    ensures a[i + 1] == Region(aligned, old(a[i]).End() - aligned)
    ensures forall k :: i + 1 < k <= n ==> a[k] == old(a[k - 1])
  {
    var address, front := a[i].address, aligned - a[i].address;
    CopyWithin(a, i, n, i + 1);
    a[i] := Region(address, front);
    a[i + 1] := Region(aligned, a[i + 1].size - front);
  }

  /** The table edit of `allocate_region_internal` on the entry that was found to fit. */
  method CarveAt(a: array<Region>, n: nat, i: nat, aligned: nat, size: nat) returns (m: nat)
    requires i < n < a.Length && Inside(Region(aligned, size), a[i])
    modifies a
    ensures m <= n + 1 && a[..m] == TakeOut(old(a[..n]), i, Region(aligned, size))
  {
    hide Splice, TakeOut, Cut;
    ghost var t := a[..n];
    CutPieces(a[i], Region(aligned, size));
    var address, endAddr := a[i].address, a[i].End();
    if address != aligned {
      SplitFront(a, n, i, aligned);
      m := CarveStart(a, n + 1, i + 1, aligned + size, endAddr);
    } else {
      m := CarveStart(a, n, i, aligned + size, endAddr);
    }
    TakeOutSlots(t, i, Region(aligned, size), a[..m]);
  }

  /** The front of entry j up to newAddr is taken: the entry goes or shrinks. */
  method CarveStart(a: array<Region>, n: nat, j: nat, newAddr: nat, endAddr: nat) returns (m: nat)
    requires j < n <= a.Length && a[j].End() == endAddr && newAddr <= endAddr
    modifies a
    ensures m == if newAddr == endAddr then n - 1 else n
    ensures forall k :: 0 <= k < j ==> a[k] == old(a[k])
    ensures newAddr != endAddr ==> a[j] == Region(newAddr, endAddr - newAddr)
    ensures newAddr != endAddr ==> forall k :: j < k < n ==> a[k] == old(a[k])
    ensures newAddr == endAddr ==> forall k :: j <= k < m ==> a[k] == old(a[k + 1])
  {
    if newAddr == a[j].End() {
      m := RemoveSlot(a, n, j);
    } else {
      a[j] := Region(newAddr, endAddr - newAddr);
      m := n;
    }
  }

  /** `remove_reserved_alloc_record`. */
  method RemoveRecord(a: array<Region>, n: nat, address: nat, size: nat) returns (m: nat)
    requires n < a.Length && Ascending(a[..n])
    modifies a
    ensures m <= n + 1 && a[..m] == Remove(old(a[..n]), address, size)
  {
    hide Splice, TakeOut, Ascending, LowerBound, Found;
    if size == 0 {
      return n;
    }
    ghost var t := a[..n];
    var found, k := BinarySearch(a, n, address);
    FoundMeans(t, address);
    if found {
      if size < a[k].size {
        a[k] := Region(a[k].address + size, a[k].size - size);
        m := n;
      } else {
        m := RemoveSlot(a, n, k);
        SpliceEmpty(t, k);
      }
    } else if k > 0 && a[k - 1].address <= address && address + size <= a[k - 1].End() {
      CutLength(t, k - 1, Region(address, size));
      m := SubtractAt(a, n, k - 1, Region(address, size));
    } else {
      m := n;
    }
  }

  lemma FoundMeans(t: Table, key: nat)
    ensures Found(t, key) ==> LowerBound(t, key) < |t| && t[LowerBound(t, key)].address == key
  {
  }

  lemma SpliceEmpty(t: Table, k: nat)
    requires k < |t|
    ensures Splice(t, k, k + 1, []) == t[..k] + t[k + 1..]
  {
  }

  lemma CutLength(t: Table, i: nat, r: Region)
    requires i < |t|
    ensures |TakeOut(t, i, r)| <= |t| + 1
  {
  }
}
