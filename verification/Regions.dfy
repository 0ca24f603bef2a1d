/** Tables of memory regions: sorted sequences of half-open address ranges, the bytes
    they cover, and the table edits of the range allocator with what they do to those bytes. */
module Regions {
  import opened Arithmetic

  datatype Region = Region(address: nat, size: nat) {
    function End(): nat { address + size }
  }

  type Table = seq<Region>

  predicate In(r: Region, b: int) {
    r.address <= b < r.End()
  }

  ghost predicate Covers(t: Table, b: int) {
    exists i :: 0 <= i < |t| && In(t[i], b)
  }

  /** Start addresses strictly ascend. */
  ghost predicate Ascending(t: Table) {
    forall i, j :: 0 <= i < j < |t| ==> t[i].address < t[j].address
  }

  /** Entries are nonempty, sorted, and at least one uncovered byte lies between any two. */
  ghost predicate Gapped(t: Table) {
    && (forall i :: 0 <= i < |t| ==> t[i].size > 0)
    && (forall i, j :: 0 <= i < j < |t| ==> t[i].End() < t[j].address)
  }

  lemma GappedAscending(t: Table)
    requires Gapped(t)
    ensures Ascending(t)
  {
  }

  lemma CoversConcat(s: Table, t: Table)
    ensures forall b :: Covers(s + t, b) <==> Covers(s, b) || Covers(t, b)
  {
    forall b ensures Covers(s + t, b) <==> Covers(s, b) || Covers(t, b) {
      if Covers(s, b) {
        var i :| 0 <= i < |s| && In(s[i], b);
        assert In((s + t)[i], b);
      }
      if Covers(t, b) {
        var i :| 0 <= i < |t| && In(t[i], b);
        assert In((s + t)[|s| + i], b);
      }
    }
  }

  /** t with the entries lo..hi replaced. */
  function Splice(t: Table, lo: nat, hi: nat, mid: Table): Table
    requires lo <= hi <= |t|
  {
    t[..lo] + mid + t[hi..]
  }

  lemma SpliceCovers(t: Table, lo: nat, hi: nat, mid: Table)
    requires lo <= hi <= |t|
    ensures forall b :: Covers(Splice(t, lo, hi, mid), b) <==>
                        Covers(t[..lo], b) || Covers(mid, b) || Covers(t[hi..], b)
    ensures forall b :: Covers(t, b) <==> Covers(t[..lo], b) || Covers(t[lo..hi], b) || Covers(t[hi..], b)
  {
    CoversConcat(t[..lo], mid);
    CoversConcat(t[..lo] + mid, t[hi..]);
    CoversConcat(t[..lo], t[lo..hi]);
    CoversConcat(t[..lo] + t[lo..hi], t[hi..]);
    assert t == t[..lo] + t[lo..hi] + t[hi..];
  }

  /** Consecutive covered bytes of a gapped table lie in one entry. */
  lemma RunInOneRegion(t: Table, a: nat, n: nat) returns (i: nat)
    requires Gapped(t) && n > 0
    requires forall b :: a <= b < a + n ==> Covers(t, b)
    ensures i < |t| && t[i].address <= a && a + n <= t[i].End()
  {
    assert Covers(t, a);
    i :| i < |t| && In(t[i], a);
    EndNotCovered(t, i);
    assert !(a <= t[i].End() < a + n);
  }

  lemma EndNotCovered(t: Table, i: nat)
    requires Gapped(t) && i < |t|
    ensures !Covers(t, t[i].End())
  {
  }

  // ----- searching

  /** Where `binary_search_by_key` on a sorted table ends: the number of entries that
      start below the key. */
  function LowerBound(t: Table, key: nat): (k: nat)
    ensures k <= |t|
    ensures forall i :: 0 <= i < k ==> t[i].address < key
    ensures k < |t| ==> t[k].address >= key
  {
    if t == [] || t[0].address >= key then 0 else 1 + LowerBound(t[1..], key)
  }

  // ----- adding a region

  function HullEnd(t: Table, lo: nat, hi: nat, end: nat): (e: nat)
    requires lo <= hi <= |t|
    ensures end <= e
    ensures forall i :: lo <= i < hi ==> t[i].End() <= e
    ensures e == end || exists i :: lo <= i < hi && t[i].End() == e
    decreases hi - lo
  {
    if lo == hi then end else Max(t[lo].End(), HullEnd(t, lo + 1, hi, end))
  }

  /** Region r merged with the entries lo..hi. */
  function Hull(t: Table, lo: nat, hi: nat, r: Region): (h: Region)
    requires lo <= hi <= |t| && Ascending(t)
  {
    var address := if lo < hi then Min(t[lo].address, r.address) else r.address;
    Region(address, HullEnd(t, lo, hi, r.End()) - address)
  }

  ghost predicate Touches(x: Region, r: Region) {
    x.address <= r.End() && r.address <= x.End()
  }

  lemma HullExact(t: Table, lo: nat, hi: nat, r: Region)
    requires lo <= hi <= |t| && Ascending(t)
    requires forall i :: lo <= i < hi ==> Touches(t[i], r)
    ensures forall b :: In(Hull(t, lo, hi, r), b) <==> In(r, b) || Covers(t[lo..hi], b)
  {
  }

  function Absorb(t: Table, lo: nat, hi: nat, r: Region): Table
    requires lo <= hi <= |t| && Ascending(t)
  {
    Splice(t, lo, hi, [Hull(t, lo, hi, r)])
  }

  predicate TouchesBefore(t: Table, x: nat, r: Region)
    requires x <= |t|
  {
    x > 0 && r.address <= t[x - 1].End()
  }

  predicate TouchesAfter(t: Table, x: nat, r: Region)
    requires x <= |t|
  {
    x < |t| && r.End() >= t[x].address
  }

  /** `add_and_merge_region`: at most one neighbour on each side is merged. */
  function AddMerge(t: Table, x: nat, r: Region): Table
    requires x <= |t| && Ascending(t)
  {
    Absorb(t, if TouchesBefore(t, x, r) then x - 1 else x, if TouchesAfter(t, x, r) then x + 1 else x, r)
  }

  predicate Found(t: Table, key: nat) {
    var k := LowerBound(t, key);
    k < |t| && t[k].address == key
  }

  /** `add_region_internal`, given room in the table. */
  function Add(t: Table, r: Region): Table
    requires Ascending(t)
  {
    var k := LowerBound(t, r.address);
    if !Found(t, r.address) then AddMerge(t, k, r)
    else if r.size <= t[k].size then t
    else Absorb(t, k, if TouchesAfter(t, k + 1, r) then k + 2 else k + 1, r)
  }

  lemma AbsorbExact(t: Table, lo: nat, hi: nat, r: Region)
    requires lo <= hi <= |t| && Ascending(t)
    requires forall i :: lo <= i < hi ==> Touches(t[i], r)
    requires lo > 0 ==> t[lo - 1].address < r.address
    requires hi < |t| ==> r.address < t[hi].address
    ensures Ascending(Absorb(t, lo, hi, r))
    ensures forall b :: Covers(Absorb(t, lo, hi, r), b) <==> Covers(t, b) || In(r, b)
  {
    hide HullEnd;
    HullExact(t, lo, hi, r);
    SpliceCovers(t, lo, hi, [Hull(t, lo, hi, r)]);
    CoversOne(Hull(t, lo, hi, r));
    SpliceAscending(t, lo, hi, Hull(t, lo, hi, r));
  }

  lemma CoversOne(x: Region)
    ensures forall b :: Covers([x], b) <==> In(x, b)
  {
    forall b ensures Covers([x], b) <==> In(x, b) {
      assert [x][0] == x;
    }
  }

  lemma SpliceAscending(t: Table, lo: nat, hi: nat, h: Region)
    requires lo <= hi <= |t| && Ascending(t)
    requires lo > 0 ==> t[lo - 1].address < h.address
    requires hi < |t| ==> h.address < t[hi].address
    ensures Ascending(Splice(t, lo, hi, [h]))
  {
  }

  /** Adding covers exactly the old bytes and the new ones and keeps the starts ascending. */
  lemma AddCovers(t: Table, r: Region)
    requires Ascending(t)
    ensures Ascending(Add(t, r))
    ensures forall b :: Covers(Add(t, r), b) <==> Covers(t, b) || In(r, b)
  {
    var k := LowerBound(t, r.address);
    if !Found(t, r.address) {
      AddMergeCovers(t, k, r);
    } else if r.size <= t[k].size {
      assert forall b :: In(r, b) ==> In(t[k], b);
    } else {
      AbsorbExact(t, k, if TouchesAfter(t, k + 1, r) then k + 2 else k + 1, r);
    }
  }

  lemma AddMergeCovers(t: Table, x: nat, r: Region)
    requires x <= |t| && Ascending(t)
    requires x > 0 ==> t[x - 1].address < r.address
    requires x < |t| ==> r.address < t[x].address
    ensures Ascending(AddMerge(t, x, r))
    ensures forall b :: Covers(AddMerge(t, x, r), b) <==> Covers(t, b) || In(r, b)
  {
    AbsorbExact(t, if TouchesBefore(t, x, r) then x - 1 else x, if TouchesAfter(t, x, r) then x + 1 else x, r);
  }

  /** The region ends before the second entry behind the place it goes to. */
  predicate EndsBeforeSecond(t: Table, r: Region) {
    var k := LowerBound(t, r.address);
    var second := if Found(t, r.address) then k + 2 else k + 1;
    second < |t| ==> r.End() < t[second].address
  }

  /** Strict gaps survive exactly when the new region ends before the second follower:
      only one successor is ever merged. */
  lemma AddKeepsGaps(t: Table, r: Region)
    requires Gapped(t) && r.size > 0
    ensures Ascending(t)
    ensures Gapped(Add(t, r)) <==> EndsBeforeSecond(t, r)
  {
    GappedAscending(t);
    var k := LowerBound(t, r.address);
    if !Found(t, r.address) {
      AddMergeGaps(t, k, r);
    } else if r.size > t[k].size {
      AbsorbGaps(t, k, if TouchesAfter(t, k + 1, r) then k + 2 else k + 1, r);
    }
  }

  lemma AbsorbGaps(t: Table, lo: nat, hi: nat, r: Region)
    requires lo <= hi <= |t| && Gapped(t) && Ascending(t) && r.size > 0
    requires lo > 0 ==> t[lo - 1].End() < r.address
    ensures Gapped(Absorb(t, lo, hi, r)) <==> (hi < |t| ==> r.End() < t[hi].address)
  {
    SpliceGaps(t, lo, hi, Hull(t, lo, hi, r));
  }

  lemma SpliceGaps(t: Table, lo: nat, hi: nat, h: Region)
    requires lo <= hi <= |t| && Gapped(t) && h.size > 0
    requires lo > 0 ==> t[lo - 1].End() < h.address
    ensures Gapped(Splice(t, lo, hi, [h])) <==> (hi < |t| ==> h.End() < t[hi].address)
  {
    var s := Splice(t, lo, hi, [h]);
    assert s[lo] == h && (hi < |t| ==> s[lo + 1] == t[hi]);
    if hi < |t| ==> h.End() < t[hi].address {
      SpliceKeepsGaps(t, lo, hi, h);
    }
  }

  lemma SpliceKeepsGaps(t: Table, lo: nat, hi: nat, h: Region)
    requires lo <= hi <= |t| && Gapped(t) && h.size > 0
    requires lo > 0 ==> t[lo - 1].End() < h.address
    requires hi < |t| ==> h.End() < t[hi].address
    ensures Gapped(Splice(t, lo, hi, [h]))
  {
    GappedConcat(t[..lo], [h]);
    GappedConcat(t[..lo] + [h], t[hi..]);
  }

  lemma GappedConcat(s: Table, t: Table)
    requires Gapped(s) && Gapped(t)
    requires s != [] && t != [] ==> s[|s| - 1].End() < t[0].address
    ensures Gapped(s + t)
  {
    forall i, j | 0 <= i < |s| && 0 <= j < |t| ensures s[i].End() < t[j].address {
      assert i < |s| - 1 ==> s[i].End() < s[|s| - 1].address;
      assert 0 < j ==> t[0].End() < t[j].address;
    }
  }

  lemma AddMergeGaps(t: Table, x: nat, r: Region)
    requires x <= |t| && Gapped(t) && Ascending(t) && r.size > 0
    requires x > 0 ==> t[x - 1].address < r.address
    requires x < |t| ==> r.address < t[x].address
    ensures Gapped(AddMerge(t, x, r)) <==> (x + 1 < |t| ==> r.End() < t[x + 1].address)
  {
    AbsorbGaps(t, if TouchesBefore(t, x, r) then x - 1 else x, if TouchesAfter(t, x, r) then x + 1 else x, r);
  }

  /** A table on which adding does lose the gaps: the new region swallows two entries
      and only one of them is merged. */
  lemma AddCanOverlap()
    ensures var t := [Region(10, 2), Region(20, 2), Region(30, 2)];
      Gapped(t) && Ascending(t) && !Gapped(Add(t, Region(5, 40)))
  {
    var t := [Region(10, 2), Region(20, 2), Region(30, 2)];
    AddKeepsGaps(t, Region(5, 40));
  }

  // ----- taking a range out

  /** What is left of x when the range r inside it is taken out. */
  function Cut(x: Region, r: Region): Table {
    (if x.address < r.address then [Region(x.address, r.address - x.address)] else []) +
    (if r.End() < x.End() then [Region(r.End(), x.End() - r.End())] else [])
  }

  function TakeOut(t: Table, i: nat, r: Region): Table
    requires i < |t|
  {
    Splice(t, i, i + 1, Cut(t[i], r))
  }

  predicate Inside(r: Region, x: Region) {
    x.address <= r.address && r.End() <= x.End()
  }

  lemma CutExact(x: Region, r: Region)
    requires Inside(r, x)
    ensures forall b :: Covers(Cut(x, r), b) <==> In(x, b) && !In(r, b)
  {
    var c := Cut(x, r);
    forall b ensures Covers(c, b) <==> In(x, b) && !In(r, b) {
      if In(x, b) && b < r.address {
        assert In(c[0], b);
      } else if In(x, b) && r.End() <= b {
        assert In(c[|c| - 1], b);
      }
    }
  }

  /** Taking a nonempty range out of the entry that contains it removes exactly its bytes. */
  lemma TakeOutExact(t: Table, i: nat, r: Region)
    requires Gapped(t) && i < |t| && r.size > 0 && Inside(r, t[i])
    ensures Gapped(TakeOut(t, i, r))
    ensures forall b :: Covers(TakeOut(t, i, r), b) <==> Covers(t, b) && !In(r, b)
    ensures forall b :: In(r, b) ==> Covers(t, b)
  {
    CutExact(t[i], r);
    SpliceCovers(t, i, i + 1, Cut(t[i], r));
    assert t[i..i + 1] == [t[i]];
    assert forall b :: In(t[i], b) ==> !Covers(t[..i], b) && !Covers(t[i + 1..], b);
    CoversOne(t[i]);
    TakeOutGapped(t, i, r);
  }

  lemma TakeOutGapped(t: Table, i: nat, r: Region)
    requires Gapped(t) && i < |t| && r.size > 0 && Inside(r, t[i])
    ensures Gapped(TakeOut(t, i, r))
  {
  }
}
