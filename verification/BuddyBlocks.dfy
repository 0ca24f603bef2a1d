/** Geometry of naturally aligned power-of-two blocks: nesting, halving, buddies,
    and what it means for a set of blocks to tile the donated memory. */
module BuddyBlocks {
  import opened Arithmetic

  /** `MINIMUM_ALLOCATABLE_BYTES`: the size of one next pointer. */
  const MIN_BYTES: nat := 8

  /** `level2size`. */
  function Size(level: nat): (r: nat)
    ensures r >= MIN_BYTES
  {
    MIN_BYTES * Pow2(level)
  }

  /** `size2level_next_power`. */
  function LevelFor(bytes: nat): (level: nat)
    requires bytes >= MIN_BYTES
    ensures bytes <= Size(level)
    ensures level > 0 ==> Size(level - 1) < bytes
  {
    var k := CeilLog2(bytes);
    AtLeastThree(bytes);
    Pow2Split(k - 3);
    if k > 3 then Pow2Split(k - 4); k - 3 else 0
  }

  lemma {:induction false} AtLeastThree(bytes: nat)
    requires bytes >= MIN_BYTES
    ensures CeilLog2(bytes) >= 3
  {
  }

  lemma {:induction false} Pow2Split(n: nat)
    ensures Pow2(n + 3) == 8 * Pow2(n)
  {
    assert Pow2(n + 3) == 2 * Pow2(n + 2) == 4 * Pow2(n + 1);
  }

  lemma {:induction false} SizeMonotone(a: nat, b: nat)
    requires a <= b
    ensures Size(a) <= Size(b)
  {
    Pow2Monotone(a, b);
  }

  datatype Block = Block(addr: nat, level: nat)

  predicate Aligned(x: Block) {
    x.addr % Size(x.level) == 0
  }

  predicate Holds(x: Block, b: nat) {
    x.addr <= b < x.addr + Size(x.level)
  }

  predicate Apart(x: Block, y: Block) {
    x.addr + Size(x.level) <= y.addr || y.addr + Size(y.level) <= x.addr
  }

  predicate Inside(x: Block, y: Block) {
    y.addr <= x.addr && x.addr + Size(x.level) <= y.addr + Size(y.level)
  }

  function Lower(x: Block): Block
    requires x.level > 0
  {
    Block(x.addr, x.level - 1)
  }

  function Upper(x: Block): Block
    requires x.level > 0
  {
    Block(x.addr + Size(x.level - 1), x.level - 1)
  }

  /** The buddy address as `dealloc` computes it. */
  function BuddyAddr(x: Block): int {
    if x.addr % Size(x.level + 1) == 0 then x.addr + Size(x.level) else x.addr - Size(x.level)
  }

  lemma HalvesAligned(x: Block)
    requires x.level > 0 && Aligned(x)
    ensures Aligned(Lower(x)) && Aligned(Upper(x))
    ensures Upper(x).addr % Size(x.level) != 0
  {
    var h := Size(x.level - 1);
    var q := x.addr / Size(x.level);
    assert x.addr == 2 * h * q == h * (2 * q);
    DivModUnique(x.addr, h, 2 * q, 0);
    DivModUnique(x.addr + h, h, 2 * q + 1, 0);
    DivModUnique(x.addr + h, 2 * h, q, h);
  }

  lemma BuddyParity(x: Block)
    requires Aligned(x)
    ensures BuddyAddr(x) >= 0
    ensures Min(x.addr, BuddyAddr(x)) % Size(x.level + 1) == 0
  {
    var h := Size(x.level);
    var q := x.addr / h;
    assert x.addr == h * q;
    if q % 2 == 0 {
      assert x.addr == (2 * h) * (q / 2);
      DivModUnique(x.addr, 2 * h, q / 2, 0);
    } else {
      assert q == 2 * (q / 2) + 1;
      assert x.addr == (2 * h) * (q / 2) + h;
      DivModUnique(x.addr, 2 * h, q / 2, h);
      MulAtLeast(h, q);
      DivModUnique(x.addr - h, 2 * h, q / 2, 0);
    }
  }

  /** A block and its buddy are the two halves of this aligned block one level up. */
  function Parent(x: Block): (parent: Block)
    requires Aligned(x)
    ensures Aligned(parent) && parent.level == x.level + 1
    ensures BuddyAddr(x) >= 0
    ensures || (x == Lower(parent) && BuddyAddr(x) == Upper(parent).addr)
            || (x == Upper(parent) && BuddyAddr(x) == Lower(parent).addr)
  {
    BuddyParity(x);
    Block(Min(x.addr, BuddyAddr(x)), x.level + 1)
  }

  /** Aligned blocks are nested or disjoint. */
  lemma {:induction false} Nested(x: Block, y: Block, b: nat)
    requires Aligned(x) && Aligned(y) && x.level <= y.level
    requires Holds(x, b) && Holds(y, b)
    ensures Inside(x, y)
    decreases y.level - x.level
  {
    if x.level == y.level {
      MultiplesApart(x.addr, y.addr, Size(x.level));
    } else {
      Nested(Parent(x), y, b);
    }
  }

  ghost predicate Covered(blocks: set<Block>, b: nat) {
    exists x :: x in blocks && Holds(x, b)
  }

  ghost function Donated(tops: set<nat>, top: nat): set<Block> {
    set a | a in tops :: Block(a, top)
  }

  /** The blocks are aligned, pairwise disjoint, and cover exactly the donated
      top-level blocks, none of which sits at the null address. */
  ghost predicate Tiles(blocks: set<Block>, tops: set<nat>, top: nat) {
    && (forall x :: x in blocks ==> x.level <= top && Aligned(x) && x.addr > 0)
    && (forall x, y :: x in blocks && y in blocks && x != y ==> Apart(x, y))
    && (forall b :: Covered(blocks, b) <==> Covered(Donated(tops, top), b))
    && (forall a :: a in tops ==> Aligned(Block(a, top)))
  }

  ghost function Halved(blocks: set<Block>, x: Block): set<Block>
    requires x.level > 0
  {
    blocks - {x} + {Lower(x), Upper(x)}
  }

  lemma SplitTiles(blocks: set<Block>, x: Block, tops: set<nat>, top: nat)
    requires Tiles(blocks, tops, top) && x in blocks && x.level > 0
    ensures Tiles(Halved(blocks, x), tops, top)
    ensures Lower(x) !in blocks && Upper(x) !in blocks
  {
    HalvesAligned(x);
    SameCover(blocks, Halved(blocks, x), x);
  }

  /** Two buddies of a tiling may be replaced by the block they make up. */
  lemma MergeTiles(blocks: set<Block>, x: Block, tops: set<nat>, top: nat)
    requires x.level > 0 && Aligned(x) && x.level <= top
    requires Tiles(blocks, tops, top) && Lower(x) in blocks && Upper(x) in blocks
    ensures Tiles(blocks - {Lower(x), Upper(x)} + {x}, tops, top)
    ensures x !in blocks
  {
    var merged := blocks - {Lower(x), Upper(x)} + {x};
    forall b ensures Covered(merged, b) <==> Covered(blocks, b) {
      assert Holds(x, b) <==> Holds(Lower(x), b) || Holds(Upper(x), b);
      if Covered(blocks, b) {
        var y :| y in blocks && Holds(y, b);
        assert x in merged;
        assert y in merged || Holds(x, b);
      }
    }
    assert Apart(Lower(x), x) == false;
    forall y | y in blocks && y != Lower(x) && y != Upper(x) ensures Apart(x, y) {
      assert Apart(Lower(x), y) && Apart(Upper(x), y);
    }
  }

  lemma SameCover(blocks: set<Block>, halved: set<Block>, x: Block)
    requires x in blocks && x.level > 0 && halved == Halved(blocks, x)
    ensures forall b :: Covered(blocks, b) <==> Covered(halved, b)
  {
  }

  /** No block below the top level has its buddy in the set as well. */
  ghost predicate NoBuddies(blocks: set<Block>, top: nat) {
    forall x, y :: x in blocks && y in blocks && x.level < top ==>
      !(y.level == x.level && y.addr == BuddyAddr(x))
  }

  /** If every byte of an aligned block is covered by aligned disjoint blocks without
      buddy pairs, then one of those blocks contains it whole. */
  lemma {:induction false} WholeCover(free: set<Block>, x: Block, top: nat) returns (y: Block)
    requires forall z :: z in free ==> Aligned(z) && z.level <= top
    requires NoBuddies(free, top)
    requires Aligned(x) && x.level <= top
    requires forall b :: Holds(x, b) ==> Covered(free, b)
    ensures y in free && y.level >= x.level && Inside(x, y)
    decreases x.level
  {
    if x.level == 0 {
      assert Holds(x, x.addr);
      y :| y in free && Holds(y, x.addr);
      Nested(x, y, x.addr);
    } else {
      HalvesAligned(x);
      y := WholeCover(free, Lower(x), top);
      var z := WholeCover(free, Upper(x), top);
      assert y.level < x.level ==> y == Lower(x);
      assert z.level < x.level ==> z == Upper(x);
      assert BuddyAddr(Lower(x)) == Upper(x).addr;
      if y.level >= x.level {
        Nested(x, y, x.addr);
      } else if z.level >= x.level {
        Nested(x, z, Upper(x).addr);
        y := z;
      } else {
        assert false;
      }
    }
  }

  /** Bytes occupied by a set of blocks, counted with their sizes. */
  ghost function SumSizes(blocks: set<Block>): nat {
    if blocks == {} then 0 else
      var x :| x in blocks;
      Size(x.level) + SumSizes(blocks - {x})
  }

  lemma {:induction false} SumRemove(blocks: set<Block>, x: Block)
    requires x in blocks
    ensures SumSizes(blocks) == Size(x.level) + SumSizes(blocks - {x})
    decreases |blocks|
  {
    var y :| y in blocks && SumSizes(blocks) == Size(y.level) + SumSizes(blocks - {y});
    if y != x {
      SumRemove(blocks - {y}, x);
      SumRemove(blocks - {x}, y);
      assert blocks - {y} - {x} == blocks - {x} - {y};
    }
  }

  lemma SumAdd(blocks: set<Block>, x: Block)
    requires x !in blocks
    ensures SumSizes(blocks + {x}) == SumSizes(blocks) + Size(x.level)
  {
    SumRemove(blocks + {x}, x);
    assert blocks + {x} - {x} == blocks;
  }
}
