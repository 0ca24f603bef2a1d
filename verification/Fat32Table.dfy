/** Files laid out on a volume by an independent writer of the allocation table, and what
    reading them gives. */
module Fat32Table {
  import opened Arithmetic
  import opened Options
  import opened ByteWords
  import opened Fat32
  import opened Fat32Read

  /** A 32-bit number as bytes, least significant first. */
  function LittleEndian(x: nat): (r: seq<Byte>)
    requires x < 0x1_0000_0000
    ensures |r| == 4
  {
    [x % 256, x / 256 % 256, x / 65536 % 256, x / 16777216]
  }

  /** The table with the entry of cluster c set. */
  function SetEntry(table: seq<Byte>, c: nat, x: nat): (r: seq<Byte>)
    requires 4 * c + 4 <= |table| && x < 0x1_0000_0000
    ensures |r| == |table|
  {
    table[..4 * c] + LittleEndian(x) + table[4 * c + 4..]
  }

  /** Distinct clusters of a volume, none of which looks like a mark. */
  ghost predicate Clusters(v: Volume, cs: seq<nat>) {
    && (forall i :: 0 <= i < |cs| ==> 2 <= cs[i] <= v.clusters + 1 && cs[i] < 0x0FFF_FFF0)
    && (forall i, j :: 0 <= i < j < |cs| ==> cs[i] != cs[j])
  }

  /** Entries that end a chain: the low 28 bits are at least 0x0FFF_FFF8. */
  predicate EndMark(mark: nat) {
    mark % 0x1000_0000 >= 0x0FFF_FFF8
  }

  /** Entries that make a chain corrupt: free, reserved, bad, or not a cluster of the volume. */
  predicate BadMark(v: Volume, mark: nat) {
    var e := mark % 0x1000_0000;
    e == 0 || e == 1 || 0x0FFF_FFF0 <= e <= 0x0FFF_FFF7 || (v.clusters + 1 < e < 0x0FFF_FFF0)
  }

  /** The table with the chain written out: each cluster's entry names the next one, the last
      one's is a mark. */
  function WriteChain(table: seq<Byte>, cs: seq<nat>, mark: nat): (r: seq<Byte>)
    requires mark < 0x1_0000_0000
    requires forall i :: 0 <= i < |cs| ==> 4 * cs[i] + 4 <= |table| && cs[i] < 0x0FFF_FFF0
    ensures |r| == |table|
  {
    if cs == [] then table
    else SetEntry(WriteChain(table, cs[1..], mark), cs[0], if |cs| > 1 then cs[1] else mark)
  }

  /** What the entry of the i-th cluster must be. */
  function NextOf(cs: seq<nat>, i: nat, mark: nat): nat
    requires i < |cs|
  {
    if i + 1 < |cs| then cs[i + 1] else mark
  }

  lemma SetEntryAt(table: seq<Byte>, c: nat, x: nat)
    requires 4 * c + 4 <= |table| && x < 0x1_0000_0000
    ensures SetEntry(table, c, x)[4 * c..4 * c + 4] == LittleEndian(x)
    ensures forall e: nat :: e != c && 4 * e + 4 <= |table| ==>
      SetEntry(table, c, x)[4 * e..4 * e + 4] == table[4 * e..4 * e + 4]
  {
    hide LittleEndian;
    var r := SetEntry(table, c, x);
    forall e: nat | e != c && 4 * e + 4 <= |table| ensures r[4 * e..4 * e + 4] == table[4 * e..4 * e + 4] {
      assert e < c || c < e;
    }
  }

  lemma {:induction false} WrittenAt(v: Volume, table: seq<Byte>, cs: seq<nat>, mark: nat, i: nat)
    requires Clusters(v, cs) && i < |cs| && mark < 0x1_0000_0000
    requires forall k :: 0 <= k < |cs| ==> 4 * cs[k] + 4 <= |table|
    ensures WriteChain(table, cs, mark)[4 * cs[i]..4 * cs[i] + 4] == LittleEndian(NextOf(cs, i, mark))
    decreases i
  {
    hide SetEntry, LittleEndian;
    var rest := WriteChain(table, cs[1..], mark);
    SetEntryAt(rest, cs[0], if |cs| > 1 then cs[1] else mark);
    if i > 0 {
      WrittenAt(v, table, cs[1..], mark, i - 1);
      assert cs[i] != cs[0];
    }
  }

  /** The first table of the volume, with the chain written out, is on the device; so is the data
      of the clusters; and the device works. */
  ghost predicate LaidOut(v: Volume, d: Disk, table: seq<Byte>, cs: seq<nat>, mark: nat) {
    && Mounted(v, d) && cs != [] && Clusters(v, cs) && mark < 0x1_0000_0000
    && |table| == v.spf * v.bps && (v.hidden + v.reserved) * v.bps + |table| <= |d.data|
    && (forall i :: 0 <= i < |cs| ==> 4 * cs[i] + 4 <= |table|)
    && d.data[(v.hidden + v.reserved) * v.bps..(v.hidden + v.reserved) * v.bps + |table|]
       == WriteChain(table, cs, mark)
    && (forall i :: 0 <= i < |cs| ==> DataEnd(v, cs[i]) <= |d.data|)
    && (forall lba, count :: !d.fails(lba, count))
  }

  /** Where the data of a cluster ends on the device. */
  function DataEnd(v: Volume, c: nat): nat
    requires c >= 2
  {
    (v.hidden + v.reserved + v.numFats * v.spf + (c - 2) * v.spc + v.spc) * v.bps
  }

  lemma LowBitsOf(data: seq<Byte>, at: nat, x: nat)
    requires at + 4 <= |data| && x < 0x1_0000_0000 && data[at..at + 4] == LittleEndian(x)
    ensures LowBits(data, at) == x % 0x1000_0000
  {
    var s := data[at..at + 4];
    assert s[0] == data[at] && s[1] == data[at + 1] && s[2] == data[at + 2] && s[3] == data[at + 3];
    Digits(x);
  }

  lemma Digits(x: nat)
    requires x < 0x1_0000_0000
    ensures x == x % 256 + 256 * (x / 256 % 256) + 65536 * (x / 65536 % 256) + 16777216 * (x / 16777216)
  {
    var a, b := x / 256, x / 65536;
    assert x == 256 * a + x % 256;
    assert a / 256 == b && b / 256 == x / 16777216;
    assert a == 256 * b + a % 256;
    assert b == 256 * (b / 256) + b % 256;
  }

  /** A word inside a part of the data. */
  lemma WordInside(data: seq<Byte>, base: nat, part: seq<Byte>, at: nat)
    requires base + |part| <= |data| && data[base..base + |part|] == part && at + 4 <= |part|
    ensures data[base + at..base + at + 4] == part[at..at + 4]
  {
    var r, s := data[base + at..base + at + 4], part[at..at + 4];
    forall k | 0 <= k < 4 ensures r[k] == s[k] {
      assert r[k] == data[base + (at + k)] == data[base..base + |part|][at + k];
    }
  }

  /** The device has the written entry where the reader looks for it. */
  lemma EntryOnDevice(v: Volume, d: Disk, table: seq<Byte>, cs: seq<nat>, mark: nat, i: nat, base: nat)
    requires LaidOut(v, d, table, cs, mark) && i < |cs| && base == (v.hidden + v.reserved) * v.bps
    ensures base + 4 * cs[i] + 4 <= |d.data| && 4 * cs[i] + 4 <= v.spf * v.bps && 2 <= cs[i] <= v.clusters + 1
    ensures LowBits(d.data, base + 4 * cs[i]) == NextOf(cs, i, mark) % 0x1000_0000 && cs[i] < 0x0FFF_FFF0
  {
    hide LowBits, LittleEndian, WriteChain, Mounted;
    WrittenAt(v, table, cs, mark, i);
    WordInside(d.data, base, WriteChain(table, cs, mark), 4 * cs[i]);
    NextIsSmall(v, cs, i, mark);
    LowBitsOf(d.data, base + 4 * cs[i], NextOf(cs, i, mark));
  }

  lemma NextIsSmall(v: Volume, cs: seq<nat>, i: nat, mark: nat)
    requires Clusters(v, cs) && i < |cs| && mark < 0x1_0000_0000
    ensures NextOf(cs, i, mark) < 0x1_0000_0000
    ensures i + 1 < |cs| ==> 2 <= NextOf(cs, i, mark) <= v.clusters + 1 && NextOf(cs, i, mark) < 0x0FFF_FFF0
  {
  }

  /** The reader follows the written chain. */
  lemma FollowsWritten(v: Volume, d: Disk, table: seq<Byte>, cs: seq<nat>, mark: nat, i: nat)
    requires LaidOut(v, d, table, cs, mark) && i < |cs|
    ensures EntryReadable(v, d, cs[i]) && InTable(v, cs[i])
    ensures i + 1 < |cs| ==> Follow(v, d, cs[i]) == To(cs[i + 1])
    ensures i + 1 == |cs| && EndMark(mark) ==> Follow(v, d, cs[i]) == End
    ensures i + 1 == |cs| && BadMark(v, mark) ==> Follow(v, d, cs[i]) == Bad
  {
    hide LaidOut, Entry, LowBits, Mounted, Clusters, EntryReadable;
    var base := (v.hidden + v.reserved) * v.bps;
    EntryOnDevice(v, d, table, cs, mark, i, base);
    LaidOutParts(v, d, table, cs, mark);
    NextIsSmall(v, cs, i, mark);
    EntryIsLowBits(v, d, cs[i], base);
  }

  lemma EntryIsLowBits(v: Volume, d: Disk, c: nat, base: nat)
    requires base == (v.hidden + v.reserved) * v.bps && base + 4 * c + 4 <= |d.data|
    ensures EntryReadable(v, d, c) && Entry(v, d, c) == LowBits(d.data, base + 4 * c)
  {
  }

  lemma LaidOutParts(v: Volume, d: Disk, table: seq<Byte>, cs: seq<nat>, mark: nat)
    requires LaidOut(v, d, table, cs, mark)
    ensures Mounted(v, d) && cs != [] && Clusters(v, cs) && mark < 0x1_0000_0000
    ensures forall lba, count :: !d.fails(lba, count)
    ensures forall i :: 0 <= i < |cs| ==> cs[i] >= 2 && DataEnd(v, cs[i]) <= |d.data|
  {
    hide Mounted, WriteChain, DataEnd;
  }

  lemma WrittenHealthy(v: Volume, d: Disk, table: seq<Byte>, cs: seq<nat>, mark: nat, fileSize: nat)
    requires LaidOut(v, d, table, cs, mark) && EndMark(mark) && fileSize <= |cs| * (v.spc * v.bps)
    ensures cs != [] && Healthy(v, d, cs[0], cs, fileSize)
  {
    hide LaidOut, Mounted, Follow, EntryReadable, InTable, ClusterLba, DataEnd;
    LaidOutParts(v, d, table, cs, mark);
    forall i | 0 <= i < |cs|
      ensures InTable(v, cs[i]) && EntryReadable(v, d, cs[i])
      ensures i + 1 < |cs| ==> Follow(v, d, cs[i]) == To(cs[i + 1])
      ensures (ClusterLba(v, cs[i]) + v.spc) * v.bps == DataEnd(v, cs[i])
    {
      FollowsWritten(v, d, table, cs, mark, i);
      SameEndOfData(v, cs[i]);
    }
    WholeTable(v, d, table, cs, mark);
    FollowsWritten(v, d, table, cs, mark, |cs| - 1);
    assert fileSize <= |cs| * ClusterBytes(v);
  }

  lemma SameEndOfData(v: Volume, c: nat)
    requires c >= 2
    ensures (ClusterLba(v, c) + v.spc) * v.bps == DataEnd(v, c)
  {
  }

  lemma WholeTable(v: Volume, d: Disk, table: seq<Byte>, cs: seq<nat>, mark: nat)
    requires LaidOut(v, d, table, cs, mark)
    ensures (FatLba(v) + v.spf) * v.bps <= |d.data|
  {
    hide Mounted, WriteChain, Clusters, DataEnd;
    SumTimes(FatLba(v), v.spf, v.bps);
  }

  /** b is byte j of the file with these clusters: it lies in the cluster that j falls into, at
      the rest of j. */
  ghost predicate IsByteOf(v: Volume, d: Disk, cs: seq<nat>, j: nat, b: Byte) {
    && v.spc * v.bps > 0 && j / (v.spc * v.bps) < |cs| && cs[j / (v.spc * v.bps)] >= 2
    && var c := cs[j / (v.spc * v.bps)];
    && var at := (v.hidden + v.reserved + v.numFats * v.spf + (c - 2) * v.spc) * v.bps + j % (v.spc * v.bps);
    && at < |d.data| && b == d.data[at]
  }

  lemma ByteOnDevice(v: Volume, d: Disk, table: seq<Byte>, cs: seq<nat>, mark: nat, got: seq<nat>, j: nat, b: Byte)
    requires LaidOut(v, d, table, cs, mark) && EndMark(mark) && cs != []
    requires v.spc * v.bps > 0 && j < |cs| * (v.spc * v.bps)
    requires forall i :: 0 <= i < |cs| ==> cs[i] >= 2
    requires IsChain(v, d, cs[0], got) && IsFileByte(v, d, got, j, b)
    ensures IsByteOf(v, d, cs, j, b)
  {
    hide LaidOut, IsChain, Healthy, IsFileByte, IsByteOf;
    WrittenHealthy(v, d, table, cs, mark, 0);
    ChainPrefix(v, d, cs[0], cs, 0, got);
    SamePlace(v, d, cs, got, j, b);
  }

  lemma SamePlace(v: Volume, d: Disk, cs: seq<nat>, got: seq<nat>, j: nat, b: Byte)
    requires got <= cs && IsFileByte(v, d, got, j, b)
    ensures IsByteOf(v, d, cs, j, b)
  {
  }

  /** Reading back: every read inside the file succeeds and gives exactly its bytes, for every
      chain, every table around it and every place of the clusters. */
  method ReadBack(v: Volume, d: Disk, table: seq<Byte>, cs: seq<nat>, mark: nat,
                  fileSize: nat, offset: nat, buf: array<Byte>)
      returns (r: Result)
    requires LaidOut(v, d, table, cs, mark) && EndMark(mark) && v.spc * v.bps > 0
    requires offset + buf.Length <= fileSize <= |cs| * (v.spc * v.bps)
    modifies buf
    ensures r == Ok(buf.Length)
    ensures forall k :: 0 <= k < buf.Length ==>
      IsByteOf(v, d, cs, offset + k, buf[k])
  {
    hide LaidOut, Mounted, IsChain, IsFileByte, Healthy, Ends, IsByteOf, Clusters, PlanFor, DataEnd;
    LaidOutParts(v, d, table, cs, mark);
    WrittenHealthy(v, d, table, cs, mark, fileSize);
    HealthyReads(v, d, cs[0], cs, fileSize, offset, buf.Length);
    MountedFacts(v, d);
    ghost var got;
    r, got := ReadAt(v, d, cs[0], fileSize, offset, buf);
    assert Ends(v, d, cs[0], PlanFor(v, offset, buf.Length), ErrorOf(r));
    BytesOnDevice(v, d, table, cs, mark, got, offset, buf[..]);
  }

  lemma BytesOnDevice(v: Volume, d: Disk, table: seq<Byte>, cs: seq<nat>, mark: nat,
                      got: seq<nat>, offset: nat, data: seq<Byte>)
    requires LaidOut(v, d, table, cs, mark) && EndMark(mark) && cs != []
    requires v.spc * v.bps > 0 && offset + |data| <= |cs| * (v.spc * v.bps)
    requires forall i :: 0 <= i < |cs| ==> cs[i] >= 2
    requires IsChain(v, d, cs[0], got)
    requires forall k :: 0 <= k < |data| ==> IsFileByte(v, d, got, offset + k, data[k])
    ensures forall k :: 0 <= k < |data| ==>
      IsByteOf(v, d, cs, offset + k, data[k])
  {
    hide LaidOut, IsChain, IsFileByte, IsByteOf;
    forall k | 0 <= k < |data|
      ensures IsByteOf(v, d, cs, offset + k, data[k])
    {
      ByteOnDevice(v, d, table, cs, mark, got, offset + k, data[k]);
    }
  }

  lemma FirstCluster(v: Volume, cs: seq<nat>)
    requires Clusters(v, cs) && cs != []
    ensures forall i :: 0 <= i < |cs| ==> cs[i] >= 2
  {
  }

  // ----- the other endings

  /** Clusters that do not reach the end of what is wanted leave something wanted. */
  lemma StillWanted(v: Volume, plan: Plan, n: nat, offset: nat, len: nat)
    requires v.bps > 0 && v.spc > 0 && len > 0 && plan == PlanFor(v, offset, len)
    requires n * (v.spc * v.bps) < offset + len
    ensures SectorsBefore(v, plan, n) < plan.sectors
  {
    hide PlanFor;
    PlanExact(v, offset, len);
    var first := plan.startCluster * v.spc + plan.startSector;
    SumTimes(first, plan.sectors, v.bps);
    assert n * (v.spc * v.bps) == (n * v.spc) * v.bps by { SectorOffset(v, n, 0); }
    MulLess(n * v.spc, first + plan.sectors, v.bps);
    if n > plan.startCluster {
      SumTimes(n - plan.startCluster, plan.startCluster, v.spc);
    }
    assert plan.sectors > 0 by { SomeSectors(v, plan.startByte, len, plan.sectors); }
  }

  lemma SomeSectors(v: Volume, start: nat, len: nat, sectors: nat)
    requires start + len <= sectors * v.bps && len > 0
    ensures sectors > 0
  {
  }

  /** A chain that ends before the last byte wanted makes an incomplete read, however large the
      directory says the file is. */
  lemma ShortRead(v: Volume, d: Disk, table: seq<Byte>, cs: seq<nat>, mark: nat, offset: nat, len: nat)
    requires LaidOut(v, d, table, cs, mark) && EndMark(mark) && v.bps > 0 && v.spc > 0
    requires len > 0 && |cs| * (v.spc * v.bps) < offset + len
    ensures forall e :: Ends(v, d, cs[0], PlanFor(v, offset, len), e) ==> e == Some(IncompleteRead)
  {
    hide Mounted, WriteChain, EndsAt, PlanFor, Healthy, Clusters;
    FirstCluster(v, cs);
    WrittenHealthy(v, d, table, cs, mark, 0);
    var plan := PlanFor(v, offset, len);
    forall e | Ends(v, d, cs[0], plan, e) ensures e == Some(IncompleteRead) {
      var got :| EndsAt(v, d, cs[0], plan, got, e);
      ShortEnd(v, d, cs, offset, len, got, e);
    }
  }

  lemma ShortEnd(v: Volume, d: Disk, cs: seq<nat>, offset: nat, len: nat, got: seq<nat>, e: Option<Error>)
    requires Mounted(v, d) && v.bps > 0 && v.spc > 0 && cs != [] && cs[0] >= 2
    requires Healthy(v, d, cs[0], cs, 0)
    requires len > 0 && |cs| * (v.spc * v.bps) < offset + len
    requires EndsAt(v, d, cs[0], PlanFor(v, offset, len), got, e)
    ensures e == Some(IncompleteRead)
  {
    hide Mounted, Healthy, After, Obstacle, PlanFor, SectorsBefore, ClusterLba;
    var plan, n := PlanFor(v, offset, len), |got|;
    PlanExact(v, offset, len);
    HealthyAfter(v, d, cs[0], cs, 0, got);
    MulMono(n, |cs|, v.spc * v.bps);
    StillWanted(v, plan, n, offset, len);
    assert plan.startSector < v.spc ==> FirstSector(plan, n) + Chunk(v, plan, n) <= v.spc;
    if n < |cs| {
      HealthyPasses(v, d, cs[0], cs, 0, After(v, d, cs[0], got).value, n);
      HealthyCluster(v, d, cs[0], cs, 0, n);
    }
  }

  /** As far as the iterator gets, it goes through the written clusters; a bad mark keeps it from
      passing the last one. */
  lemma {:induction false} AfterWritten(v: Volume, d: Disk, table: seq<Byte>, cs: seq<nat>, mark: nat, got: seq<nat>)
    requires LaidOut(v, d, table, cs, mark) && BadMark(v, mark) && v.bps > 0 && cs != []
    requires After(v, d, cs[0], got).Some?
    ensures |got| < |cs| && got == cs[..|got|]
    ensures After(v, d, cs[0], got).value.next == Some(cs[|got|])
    decreases |got|
  {
    hide LaidOut, Follow, EntryReadable, WindowFor, ReadOk, InSectors, InTable, BadMark;
    LaidOutParts(v, d, table, cs, mark);
    if got != [] {
      var n := |got| - 1;
      AfterWritten(v, d, table, cs, mark, got[..n]);
      FollowsWritten(v, d, table, cs, mark, n);
      assert got == got[..n] + [got[n]];
    }
  }

  /** The wanted part of a written cluster can be read, and so can its entry. */
  lemma WrittenReadable(v: Volume, d: Disk, table: seq<Byte>, cs: seq<nat>, mark: nat, cur: Cursor, i: nat)
    requires LaidOut(v, d, table, cs, mark) && v.bps > 0 && i < |cs| && cur.next == Some(cs[i])
    ensures i + 1 < |cs| ==> Obstacle(v, d, cur) == None
    ensures i + 1 == |cs| && BadMark(v, mark) ==> Obstacle(v, d, cur) == Some(CorruptChain)
    ensures cs[i] >= 2 && forall f: nat, n: nat :: f + n <= v.spc ==> PartOk(d, ClusterLba(v, cs[i]), f, n)
  {
    hide LaidOut, Follow, EntryReadable, InTable, BadMark, Mounted, ReadOk, WindowFor, ClusterLba;
    LaidOutParts(v, d, table, cs, mark);
    FollowsWritten(v, d, table, cs, mark, i);
    WholeTable(v, d, table, cs, mark);
    HealthyWindow(v, d, cs[i]);
    SameEndOfData(v, cs[i]);
    PartsReadable(v, d, ClusterLba(v, cs[i]));
  }

  lemma PartsReadable(v: Volume, d: Disk, lba: nat)
    requires Mounted(v, d) && (lba + v.spc) * v.bps <= |d.data| && forall l, count :: !d.fails(l, count)
    ensures forall f: nat, n: nat :: f + n <= v.spc ==> PartOk(d, lba, f, n)
  {
    forall f: nat, n: nat | f + n <= v.spc ensures PartOk(d, lba, f, n) {
      MulMono(lba + f + n, lba + v.spc, v.bps);
    }
  }

  /** A chain whose last entry is corrupt makes every read that gets to that cluster fail as
      corrupt. */
  lemma CorruptRead(v: Volume, d: Disk, table: seq<Byte>, cs: seq<nat>, mark: nat, offset: nat, len: nat)
    requires LaidOut(v, d, table, cs, mark) && BadMark(v, mark) && v.bps > 0 && v.spc > 0
    requires len > 0 && (|cs| - 1) * (v.spc * v.bps) < offset + len
    ensures forall e :: Ends(v, d, cs[0], PlanFor(v, offset, len), e) ==> e == Some(CorruptChain)
  {
    hide LaidOut, EndsAt, PlanFor, BadMark;
    LaidOutParts(v, d, table, cs, mark);
    forall e | Ends(v, d, cs[0], PlanFor(v, offset, len), e) ensures e == Some(CorruptChain) {
      var got :| EndsAt(v, d, cs[0], PlanFor(v, offset, len), got, e);
      CorruptEnd(v, d, table, cs, mark, offset, len, got, e);
    }
  }

  lemma CorruptEnd(v: Volume, d: Disk, table: seq<Byte>, cs: seq<nat>, mark: nat, offset: nat, len: nat,
                   got: seq<nat>, e: Option<Error>)
    requires LaidOut(v, d, table, cs, mark) && BadMark(v, mark) && v.bps > 0 && v.spc > 0 && cs != []
    requires len > 0 && (|cs| - 1) * (v.spc * v.bps) < offset + len
    requires EndsAt(v, d, cs[0], PlanFor(v, offset, len), got, e)
    ensures e == Some(CorruptChain)
  {
    hide LaidOut, BadMark, After, Obstacle, PlanFor, SectorsBefore, ClusterLba;
    var plan, n := PlanFor(v, offset, len), |got|;
    PlanExact(v, offset, len);
    AfterWritten(v, d, table, cs, mark, got);
    WrittenReadable(v, d, table, cs, mark, After(v, d, cs[0], got).value, n);
    MulMono(n, |cs| - 1, v.spc * v.bps);
    StillWanted(v, plan, n, offset, len);
    assert FirstSector(plan, n) + Chunk(v, plan, n) <= v.spc;
  }

  /** On a device that does not work at all, every read of a nonempty file is a device error. */
  lemma DeadDevice(v: Volume, d: Disk, first: nat, plan: Plan)
    requires v.bps > 0 && first >= 2 && forall lba, count :: d.fails(lba, count)
    ensures forall e :: Ends(v, d, first, plan, e) ==> e == Some(DeviceError)
  {
    forall e | Ends(v, d, first, plan, e) ensures e == Some(DeviceError) {
      var got :| EndsAt(v, d, first, plan, got, e);
      if got != [] {
        AfterPrefix(v, d, first, got, 0);
      }
    }
  }
}
