/** The FAT32 cluster chain and the file reader on top of it: an iterator with a windowed
    cache of the allocation table, and `read_at`, which turns a byte range of a file into
    whole-sector reads. */
module Fat32 {
  import opened Arithmetic
  import opened Options
  import opened ByteWords

  /** A block device: its contents, its block size, and which reads (first block, count)
      fail for reasons of the device's own. */
  datatype Disk = Disk(data: seq<Byte>, bs: nat, fails: (nat, nat) -> bool)

  predicate ReadOk(d: Disk, lba: nat, count: nat) {
    !d.fails(lba, count) && (lba + count) * d.bs <= |d.data|
  }

  /** The fields of the volume header that the reader uses. */
  datatype Volume = Volume(bps: nat, spc: nat, reserved: nat, numFats: nat, spf: nat, hidden: nat, clusters: nat)

  /** What opening a volume checks (sector and cluster sizes, device block size), and a
      table large enough for all clusters. */
  predicate Mounted(v: Volume, d: Disk) {
    && (v.bps == 512 || v.bps == 1024 || v.bps == 2048 || v.bps == 4096) && d.bs == v.bps
    && 0 < v.spc <= 128
    && (v.clusters + 2) * 4 <= v.spf * v.bps
  }

  predicate ValidCluster(v: Volume, c: nat) {
    2 <= c <= v.clusters + 1
  }

  /** The table has an entry for this number. */
  predicate InTable(v: Volume, c: nat) {
    2 <= c && c * 4 < v.spf * v.bps
  }

  lemma ValidInTable(v: Volume, d: Disk, c: nat)
    requires Mounted(v, d) && ValidCluster(v, c)
    ensures InTable(v, c)
  {
  }

  function FatLba(v: Volume): nat {
    v.hidden + v.reserved
  }

  /** A little-endian 32-bit word. */
  function Word(data: seq<Byte>, at: nat): nat
    requires at + 4 <= |data|
  {
    data[at] as nat + 0x100 * (data[at + 1] as nat)
      + 0x1_0000 * (data[at + 2] as nat) + 0x100_0000 * (data[at + 3] as nat)
  }

  /** The table entry of a cluster lies on the device. */
  predicate EntryReadable(v: Volume, d: Disk, c: nat) {
    FatLba(v) * v.bps + c * 4 + 4 <= |d.data|
  }

  /** The low 28 bits of the table entry of a cluster, read without any cache. */
  function Entry(v: Volume, d: Disk, c: nat): nat
    requires EntryReadable(v, d, c)
  {
    Word(d.data, FatLba(v) * v.bps + c * 4) % 0x1000_0000
  }

  datatype Link = End | Bad | To(cluster: nat)

  /** What an entry means. */
  function LinkOf(v: Volume, entry: nat): Link {
    if entry <= 1 || 0x0FFF_FFF0 <= entry <= 0x0FFF_FFF7 then Bad
    else if entry >= 0x0FFF_FFF8 then End
    else if entry > v.clusters + 1 then Bad
    else To(entry)
  }

  function Follow(v: Volume, d: Disk, c: nat): Link
    requires EntryReadable(v, d, c)
  {
    LinkOf(v, Entry(v, d, c))
  }

  /** The first block of a cluster's data. */
  function ClusterLba(v: Volume, c: nat): nat
    requires c >= 2
  {
    v.hidden + v.reserved + v.numFats * v.spf + (c - 2) * v.spc
  }

  /** IndexPanic is no error value of the program: it indexes past the window it has read. */
  datatype Error = DeviceError | CorruptChain | InvalidInput | TooBigBuffer | IncompleteRead | IndexPanic

  /** What the iterator yields. */
  datatype Item = Done | Fail(error: Error) | Lba(lba: nat)

  /** Sectors read into the cache at once. */
  const WINDOW: nat := 16

  /** The window that `next` reads around the sector of an entry: first sector, count. */
  function WindowFor(v: Volume, sector: nat): (nat, nat) {
    var start := if sector < WINDOW / 2 then 0 else sector - WINDOW / 2;
    var count := Min(WINDOW, v.spf);
    if start + count > v.spf then (v.spf - count, count) else (start, count)
  }

  /** The window contains the sector it was computed for. */
  lemma WindowContains(v: Volume, sector: nat)
    requires sector < v.spf
    ensures var (start, count) := WindowFor(v, sector);
      start <= sector < start + count && start + count <= v.spf
  {
  }

  datatype Cache = Cache(entries: seq<nat>, start: nat, count: nat)

  /** A cached window is a faithful copy of that part of the table. */
  ghost predicate Faithful(v: Volume, d: Disk, cache: Cache) {
    && cache.start + cache.count <= v.spf
    && (FatLba(v) + cache.start + cache.count) * v.bps <= |d.data|
    && |cache.entries| * 4 == cache.count * v.bps
    && (forall k :: 0 <= k < |cache.entries| ==>
          (FatLba(v) + cache.start) * v.bps + k * 4 + 4 <= |d.data|
          && cache.entries[k] == Word(d.data, (FatLba(v) + cache.start) * v.bps + k * 4))
  }

  predicate InSectors(v: Volume, start: nat, count: nat, c: nat) {
    start * v.bps <= c * 4 < (start + count) * v.bps
  }

  predicate InWindow(v: Volume, cache: Cache, c: nat) {
    InSectors(v, cache.start, cache.count, c)
  }

  // ----- the walk, with the window only to tell which reads it takes

  /** The cluster to be visited next, and the first sector and the number of sectors of the
      window at hand. */
  datatype Cursor = Cursor(next: Option<nat>, window: Option<(nat, nat)>)

  function StartOf(firstCluster: nat): Cursor {
    Cursor(if firstCluster == 0 then None else Some(firstCluster), None)
  }

  /** Why the next cluster cannot be visited: its window has to be read and the device
      fails, the table has no such entry, or the entry is corrupt. */
  function Obstacle(v: Volume, d: Disk, cur: Cursor): Option<Error>
    requires v.bps > 0 && cur.next.Some?
  {
    var c := cur.next.value;
    var (start, count) := WindowFor(v, c * 4 / v.bps);
    if cur.window.None? && !ReadOk(d, FatLba(v) + start, count) then Some(DeviceError)
    else if !InTable(v, c) then Some(IndexPanic)
    else if !EntryReadable(v, d, c) || Follow(v, d, c) == Bad then Some(CorruptChain)
    else None
  }

  /** Where the walk stands behind a cluster: its window is kept if it holds the next entry. */
  function Behind(v: Volume, d: Disk, cur: Cursor): Cursor
    requires v.bps > 0 && cur.next.Some? && Obstacle(v, d, cur) == None
  {
    match Follow(v, d, cur.next.value)
    case To(n) =>
      var w := if cur.window.Some? then cur.window.value else WindowFor(v, cur.next.value * 4 / v.bps);
      Cursor(Some(n), if InSectors(v, w.0, w.1, n) then Some(w) else None)
    case _ => Cursor(None, None)
  }

  /** The low 28 bits of the little-endian word at a position. */
  function LowBits(data: seq<Byte>, at: nat): nat
    requires at + 4 <= |data|
  {
    (data[at] as nat + 256 * data[at + 1] as nat + 65536 * data[at + 2] as nat + 16777216 * data[at + 3] as nat)
      % 0x1000_0000
  }

  /** Where the first table has the word of a cluster. */
  function TableByte(v: Volume, c: nat): nat {
    (v.hidden + v.reserved) * v.bps + 4 * c
  }

  /** The first block behind the tables and the clusters before c. */
  function DataBlock(v: Volume, c: nat): nat
    requires c >= 2
  {
    v.hidden + v.reserved + v.numFats * v.spf + (c - 2) * v.spc
  }

  /** What a visit of cluster c comes to, and where it leads, by the device's bytes. */
  ghost predicate Visited(v: Volume, d: Disk, c: nat, item: Item, next: Option<nat>)
    requires c >= 2
  {
    if 4 * c >= v.spf * v.bps then item == Fail(IndexPanic)
    else if TableByte(v, c) + 4 > |d.data| then false
    else
      var e := LowBits(d.data, TableByte(v, c));
      if 2 <= e < 0x0FFF_FFF0 && e <= v.clusters + 1 then item == Lba(DataBlock(v, c)) && next == Some(e)
      else if e >= 0x0FFF_FFF8 then item == Lba(DataBlock(v, c)) && next == None
      else item == Fail(CorruptChain) && next == Some(c)
  }

  lemma VisitInBytes(v: Volume, d: Disk, cur: Cursor)
    requires v.bps > 0 && cur.next.Some? && cur.next.value >= 2
    ensures var c, o := cur.next.value, Obstacle(v, d, cur);
      && (o == Some(DeviceError) ==> cur.window == None)
      && (o.Some? && o != Some(DeviceError) && EntryReadable(v, d, c) ==> Visited(v, d, c, Fail(o.value), cur.next))
      && (o == Some(IndexPanic) ==> Visited(v, d, c, Fail(IndexPanic), cur.next))
      && (o.None? ==> Visited(v, d, c, Lba(ClusterLba(v, c)), Behind(v, d, cur).next))
  {
    hide WindowFor, ReadOk, InSectors;
  }

  /** The window is sixteen sectors, or the whole table if that is smaller, eight of them in front
      of the sector as far as the table allows. */
  lemma WindowExact(v: Volume, sector: nat)
    ensures var (start, count) := WindowFor(v, sector);
      && count == (if v.spf < 16 then v.spf else 16)
      && start + count <= v.spf
      && (8 <= sector && sector - 8 + count <= v.spf ==> start == sector - 8)
      && (sector < 8 ==> start == 0)
      && (8 <= sector && sector - 8 + count > v.spf ==> start == v.spf - count)
  {
  }

  class FatIter {
    const volume: Volume
    const disk: Disk
    var nextCluster: Option<nat>
    var cache: Option<Cache>

    ghost predicate Valid()
      reads this
    {
      && Mounted(volume, disk)
      && (nextCluster.Some? ==> nextCluster.value >= 2)
      && (cache.Some? ==> Faithful(volume, disk, cache.value)
                          && nextCluster.Some? && InWindow(volume, cache.value, nextCluster.value))
    }

    function Here(): Cursor
      reads this
    {
      Cursor(nextCluster, if cache.None? then None else Some((cache.value.start, cache.value.count)))
    }

    constructor (volume: Volume, disk: Disk, firstCluster: nat)
      requires Mounted(volume, disk) && firstCluster != 1
      ensures Valid() && this.volume == volume && this.disk == disk
      ensures Here() == StartOf(firstCluster)
    {
      this.volume := volume;
      this.disk := disk;
      nextCluster := if firstCluster == 0 then None else Some(firstCluster);
      cache := None;
    }

    /** The cached iterator agrees with the uncached walk, entry by entry, errors included: the
        cache decides which sectors are read, never what is found. */
    method Next() returns (item: Item)
      requires Valid()
      modifies this
      ensures Valid()
      ensures old(nextCluster) == None ==> item == Done && Here() == old(Here())
      ensures old(nextCluster).Some? ==>
        match Obstacle(volume, disk, old(Here()))
        case Some(e) => item == Fail(e) && Here() == Cursor(old(nextCluster), None)
        case None =>
          item == Lba(ClusterLba(volume, old(nextCluster).value)) && Here() == Behind(volume, disk, old(Here()))
      ensures item == Fail(DeviceError) ==> old(nextCluster).Some? && old(cache) == None
      ensures old(nextCluster).Some? && item != Fail(DeviceError) ==>
        Visited(volume, disk, old(nextCluster).value, item, nextCluster)
    {
      hide Faithful, Entry, InSectors, WindowFor, ReadOk, Visited, ClusterLba;
      if nextCluster.None? {
        return Done;
      }
      var c := nextCluster.value;
      VisitInBytes(volume, disk, Here());
      var entryByte := c * 4;
      var fat := cache;
      cache := None;
      if fat.None? {
        var (start, count) := WindowFor(volume, entryByte / volume.bps);
        WindowInTable(volume, entryByte / volume.bps);
        if !ReadOk(disk, FatLba(volume) + start, count) {
          return Fail(DeviceError);
        }
        var entries := ReadWindow(volume, disk, start, count);
        fat := Some(Cache(entries, start, count));
        FreshWindow(volume, disk, fat.value, c);
      } else {
        WindowOfTable(volume, disk, fat.value, c);
      }
      var index := (entryByte - fat.value.start * volume.bps) / 4;
      if index >= |fat.value.entries| {
        return Fail(IndexPanic);
      }
      CachedEntry(volume, disk, fat.value, c);
      var current := fat.value.entries[index] % 0x1000_0000;
      match LinkOf(volume, current) {
        case Bad => return Fail(CorruptChain);
        case End => nextCluster := None;
        case To(n) =>
          nextCluster := Some(n);
          if InWindow(volume, fat.value, n) {
            cache := fat;
          }
      }
      item := Lba(ClusterLba(volume, c));
    }
  }

  /** Every window lies in the table, and one read for an entry behind it is its end. */
  lemma WindowInTable(v: Volume, sector: nat)
    ensures var (start, count) := WindowFor(v, sector);
      start + count <= v.spf && (sector >= v.spf ==> start + count == v.spf)
  {
  }

  /** A window read for an entry holds it if the table does; otherwise the entry's index is past
      the window. */
  lemma FreshWindow(v: Volume, d: Disk, cache: Cache, c: nat)
    requires Mounted(v, d) && Faithful(v, d, cache) && c >= 2
    requires (cache.start, cache.count) == WindowFor(v, c * 4 / v.bps)
    ensures if InTable(v, c) then InWindow(v, cache, c)
            else c * 4 >= cache.start * v.bps && (c * 4 - cache.start * v.bps) / 4 >= |cache.entries|
    ensures InTable(v, c) ==> 0 <= (c * 4 - cache.start * v.bps) / 4 < |cache.entries|
  {
    hide Word, Entry;
    if InTable(v, c) {
      EntrySector(v, d, c);
      WindowContains(v, c * 4 / v.bps);
      InFreshWindow(v, cache, c);
      CachedEntry(v, d, cache, c);
    } else {
      DivAtLeast(c * 4, v.bps, v.spf);
      WindowInTable(v, c * 4 / v.bps);
      WindowOffsets(0, cache.start, cache.count, v.bps);
    }
  }

  /** An entry in a window is in the table. */
  lemma WindowOfTable(v: Volume, d: Disk, cache: Cache, c: nat)
    requires Mounted(v, d) && Faithful(v, d, cache) && InWindow(v, cache, c) && c >= 2
    ensures InTable(v, c) && 0 <= (c * 4 - cache.start * v.bps) / 4 < |cache.entries|
  {
    hide Word, Entry;
    CachedEntry(v, d, cache, c);
    MulMono(cache.start + cache.count, v.spf, v.bps);
  }

  lemma DivAtLeast(x: nat, m: nat, n: nat)
    requires m > 0 && x >= n * m
    ensures x / m >= n
  {
    MulSub(m, x / m, n);
    MulAtLeast(m, x / m - n);
  }

  /** The sector of an entry of the table lies in the table. */
  lemma EntrySector(v: Volume, d: Disk, c: nat)
    requires Mounted(v, d) && InTable(v, c)
    ensures c * 4 / v.bps < v.spf
  {
    DivBelow(c * 4, v.bps, v.spf);
  }

  lemma DivBelow(x: nat, m: nat, n: nat)
    requires m > 0 && x < n * m
    ensures x / m < n
  {
  }

  lemma InFreshWindow(v: Volume, cache: Cache, c: nat)
    requires v.bps > 0 && cache.start <= c * 4 / v.bps < cache.start + cache.count
    ensures InWindow(v, cache, c)
  {
    var s := c * 4 / v.bps;
    assert s * v.bps <= c * 4 < (s + 1) * v.bps;
    MulMono(cache.start, s, v.bps);
    MulMono(s + 1, cache.start + cache.count, v.bps);
  }

  lemma MulMono(a: nat, b: nat, m: nat)
    requires a <= b
    ensures a * m <= b * m
  {
  }

  /** The cached word of an entry in the window is the entry on the device. */
  lemma CachedEntry(v: Volume, d: Disk, cache: Cache, c: nat)
    requires Mounted(v, d) && Faithful(v, d, cache) && InWindow(v, cache, c)
    ensures EntryReadable(v, d, c)
    ensures var k := (c * 4 - cache.start * v.bps) / 4;
      0 <= k < |cache.entries| && cache.entries[k] % 0x1000_0000 == Entry(v, d, c)
  {
    hide Word, Mounted;
    var k := (c * 4 - cache.start * v.bps) / 4;
    MountedWords(v, d, cache.start);
    WindowOffsets(FatLba(v), cache.start, cache.count, v.bps);
    assert k * 4 == c * 4 - cache.start * v.bps;
    assert k < |cache.entries|;
  }

  lemma WindowOffsets(fat: nat, start: nat, count: nat, bps: nat)
    ensures (start + count) * bps == start * bps + count * bps
    ensures (fat + start) * bps == fat * bps + start * bps
  {
  }

  lemma MountedWords(v: Volume, d: Disk, n: nat)
    requires Mounted(v, d)
    ensures (n * v.bps) % 4 == 0
  {
    SectorWords(n, v.bps);
  }

  lemma SectorWords(n: nat, bps: nat)
    requires bps == 512 || bps == 1024 || bps == 2048 || bps == 4096
    ensures (n * bps) % 4 == 0
  {
    DivModUnique(n * bps, 4, n * (bps / 4), 0);
  }

  /** Reading a window of the table as little-endian words. */
  method ReadWindow(v: Volume, d: Disk, start: nat, count: nat) returns (entries: seq<nat>)
    requires Mounted(v, d) && start + count <= v.spf && ReadOk(d, FatLba(v) + start, count)
    ensures Faithful(v, d, Cache(entries, start, count))
  {
    ghost var base := (FatLba(v) + start) * v.bps;
    SectorWords(count, v.bps);
    assert (FatLba(v) + start + count) * v.bps == base + count * v.bps;
    var bytes := d.data[(FatLba(v) + start) * v.bps..(FatLba(v) + start + count) * v.bps];
    entries := [];
    while |entries| < count * v.bps / 4
      invariant |entries| <= count * v.bps / 4
      invariant forall k :: 0 <= k < |entries| ==>
        base + k * 4 + 4 <= |d.data| && entries[k] == Word(d.data, base + k * 4)
    {
      entries := entries + [Word(bytes, |entries| * 4)];
    }
  }
}
