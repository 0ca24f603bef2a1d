/** `read_at`: a byte range of a file, read cluster by cluster in whole sectors. */
module Fat32Read {
  import opened Arithmetic
  import opened Options
  import opened ByteWords
  import opened Fat32

  predicate Leads(v: Volume, d: Disk, a: nat, b: nat) {
    EntryReadable(v, d, a) && Follow(v, d, a) == To(b)
  }

  /** cs are the first clusters of the chain that starts at `first`. */
  ghost predicate IsChain(v: Volume, d: Disk, first: nat, cs: seq<nat>) {
    && (cs != [] ==> first != 0 && cs[0] == first)
    && (forall i :: 0 <= i < |cs| ==> InTable(v, cs[i]))
    && (forall i :: 0 <= i < |cs| - 1 ==> Leads(v, d, cs[i], cs[i + 1]))
  }

  /** Bytes in a cluster. */
  function ClusterBytes(v: Volume): nat {
    v.spc * v.bps
  }

  /** Bytes in a number of sectors. */
  function Bytes(v: Volume, sectors: nat): nat {
    sectors * v.bps
  }

  /** Where byte j of the concatenated clusters lies on the device. */
  function Place(v: Volume, cs: seq<nat>, j: nat): nat
    requires ClusterBytes(v) > 0 && j / ClusterBytes(v) < |cs| && cs[j / ClusterBytes(v)] >= 2
  {
    Bytes(v, ClusterLba(v, cs[j / ClusterBytes(v)])) + j % ClusterBytes(v)
  }

  /** b is byte j of the concatenated clusters. */
  ghost predicate IsFileByte(v: Volume, d: Disk, cs: seq<nat>, j: nat, b: Byte) {
    && ClusterBytes(v) > 0 && j / ClusterBytes(v) < |cs| && cs[j / ClusterBytes(v)] >= 2
    && Place(v, cs, j) < |d.data| && b == d.data[Place(v, cs, j)]
  }

  /** The clusters lie on the device. */
  predicate OnDevice(v: Volume, d: Disk, cs: seq<nat>) {
    forall i :: 0 <= i < |cs| ==> cs[i] >= 2 && ClusterLba(v, cs[i]) * v.bps + ClusterBytes(v) <= |d.data|
  }

  /** The data of the clusters, one behind the other. */
  function FileData(v: Volume, d: Disk, cs: seq<nat>): (r: seq<Byte>)
    requires OnDevice(v, d, cs)
    ensures |r| == |cs| * ClusterBytes(v)
  {
    if cs == [] then [] else
      var last := ClusterLba(v, cs[|cs| - 1]) * v.bps;
      FileData(v, d, cs[..|cs| - 1]) + d.data[last..last + ClusterBytes(v)]
  }

  lemma {:induction false} DataAt(v: Volume, d: Disk, cs: seq<nat>, i: nat, o: nat)
    requires OnDevice(v, d, cs) && i < |cs| && o < ClusterBytes(v)
    ensures i * ClusterBytes(v) + o < |cs| * ClusterBytes(v)
    ensures FileData(v, d, cs)[i * ClusterBytes(v) + o] == d.data[ClusterLba(v, cs[i]) * v.bps + o]
    decreases |cs|
  {
    hide ClusterLba, ClusterBytes;
    var n, bpc := |cs| - 1, ClusterBytes(v);
    SumTimes(n, 1, bpc);
    MulMono(i, n, bpc);
    if i < n {
      DataAt(v, d, cs[..n], i, o);
    }
  }

  /** Byte j of the file is byte j of the concatenated cluster data. */
  lemma FileByteIsConcat(v: Volume, d: Disk, cs: seq<nat>, j: nat, b: Byte)
    requires OnDevice(v, d, cs) && ClusterBytes(v) > 0
    ensures IsFileByte(v, d, cs, j, b) <==> j < |FileData(v, d, cs)| && FileData(v, d, cs)[j] == b
  {
    hide ClusterLba, ClusterBytes, FileData;
    var bpc := ClusterBytes(v);
    if j < |cs| * bpc {
      DivBelow(j, bpc, |cs|);
      DataAt(v, d, cs, j / bpc, j % bpc);
      assert j == (j / bpc) * bpc + j % bpc;
    } else {
      DivAtLeast(j, bpc, |cs|);
    }
  }

  /** Chains from the same start agree as far as both go. */
  lemma {:induction false} ChainsAgree(v: Volume, d: Disk, first: nat, cs: seq<nat>, ds: seq<nat>)
    requires IsChain(v, d, first, cs) && IsChain(v, d, first, ds) && |cs| <= |ds|
    ensures cs == ds[..|cs|]
    decreases |cs|
  {
    if cs != [] {
      var n := |cs| - 1;
      ChainsAgree(v, d, first, cs[..n], ds);
      assert cs == cs[..n] + [cs[n]];
      assert n > 0 ==> cs[..n][n - 1] == ds[..n][n - 1];
    }
  }

  /** Appending a cluster leaves the earlier bytes where they are. */
  lemma BytesKept(v: Volume, d: Disk, cs: seq<nat>, c: nat, j: nat, b: Byte)
    requires IsFileByte(v, d, cs, j, b)
    ensures IsFileByte(v, d, cs + [c], j, b)
  {
  }

  /** The bytes of a cluster's sectors are consecutive bytes of the file. */
  lemma SectorByte(v: Volume, d: Disk, cs: seq<nat>, f: nat, k: nat)
    requires cs != [] && cs[|cs| - 1] >= 2 && v.bps > 0
    requires Bytes(v, f) + k < ClusterBytes(v)
    requires Bytes(v, ClusterLba(v, cs[|cs| - 1]) + f) + k < |d.data|
    ensures IsFileByte(v, d, cs, Bytes(v, (|cs| - 1) * v.spc + f) + k,
                       d.data[Bytes(v, ClusterLba(v, cs[|cs| - 1]) + f) + k])
  {
    hide ClusterLba, ClusterBytes, Bytes;
    var i, bpc, o := |cs| - 1, ClusterBytes(v), Bytes(v, f) + k;
    var j := Bytes(v, i * v.spc + f) + k;
    SectorOffset(v, i, f);
    DivModUnique(j, bpc, i, o);
    BytesAdd(v, ClusterLba(v, cs[i]), f);
  }

  lemma SectorOffset(v: Volume, i: nat, f: nat)
    ensures Bytes(v, i * v.spc + f) == ClusterBytes(v) * i + Bytes(v, f)
  {
    Regroup(i, v.spc, f, v.bps);
  }

  lemma Regroup(i: nat, spc: nat, f: nat, bps: nat)
    ensures (i * spc + f) * bps == i * (spc * bps) + f * bps
  {
  }

  datatype Result = Ok(len: nat) | Err(error: Error)

  /** The blocks lba, lba + 1, ... of the device are in the buffer from block `at` on, and what
      comes before is as it was. */
  ghost predicate Loaded(v: Volume, d: Disk, lba: nat, count: nat, at: nat, was: seq<Byte>, now: seq<Byte>) {
    && Bytes(v, lba + count) <= |d.data| && Bytes(v, at + count) <= |now| == |was|
    && (forall b :: 0 <= b < Bytes(v, at) && b < |now| ==> now[b] == was[b])
    && (forall b :: Bytes(v, at) <= b < Bytes(v, at + count) ==>
          0 <= Bytes(v, lba) + (b - Bytes(v, at)) < |d.data| && b < |now|
          && now[b] == d.data[Bytes(v, lba) + (b - Bytes(v, at))])
  }

  /** Block device read of `count` blocks into tmp from a block position on. */
  method ReadBlocks(v: Volume, d: Disk, lba: nat, count: nat, tmp: array<Byte>, at: nat)
    requires d.bs == v.bps && ReadOk(d, lba, count) && Bytes(v, at + count) <= tmp.Length
    modifies tmp
    ensures Loaded(v, d, lba, count, at, old(tmp[..]), tmp[..])
  {
    hide Bytes, ReadOk;
    ReadOkBytes(v, d, lba, count);
    BytesAdd(v, at, count);
    BytesAdd(v, lba, count);
    var to, from := Bytes(v, at), Bytes(v, lba);
    forall k | 0 <= k < Bytes(v, count) {
      tmp[to + k] := d.data[from + k];
    }
  }

  lemma ReadOkBytes(v: Volume, d: Disk, lba: nat, count: nat)
    requires d.bs == v.bps && ReadOk(d, lba, count)
    ensures Bytes(v, lba + count) <= |d.data|
  {
  }

  /** The sector arithmetic of `read_at` for an offset and a length. */
  datatype Plan = Plan(startCluster: nat, startSector: nat, startByte: nat, sectors: nat)

  function PlanFor(v: Volume, offset: nat, len: nat): Plan
    requires v.bps > 0 && v.spc > 0
  {
    var bpc := ClusterBytes(v);
    var clusterOff := offset % bpc;
    Plan(offset / bpc, clusterOff / v.bps, clusterOff % v.bps, (clusterOff % v.bps + len + v.bps - 1) / v.bps)
  }

  /** The planned sectors start at the sector boundary at or below the offset and are just
      enough for the bytes wanted. */
  lemma PlanExact(v: Volume, offset: nat, len: nat)
    requires v.bps > 0 && v.spc > 0
    ensures var p := PlanFor(v, offset, len);
      && p.startSector < v.spc && p.startByte < v.bps
      && offset == (p.startCluster * v.spc + p.startSector) * v.bps + p.startByte
      && p.startByte + len <= p.sectors * v.bps < p.startByte + len + v.bps
  {
    var p, bpc := PlanFor(v, offset, len), ClusterBytes(v);
    var clusterOff := offset % bpc;
    DivBelow(clusterOff, v.bps, v.spc);
    Regroup(p.startCluster, v.spc, p.startSector, v.bps);
    assert p.sectors * v.bps == v.bps * ((p.startByte + len + v.bps - 1) / v.bps);
  }

  /** The first sector of the current cluster that is wanted. */
  function FirstSector(plan: Plan, i: nat): nat {
    if i == plan.startCluster then plan.startSector else 0
  }

  /** The planned sectors that lie before cluster i of the chain. */
  function SectorsBefore(v: Volume, plan: Plan, i: nat): (p: nat)
    ensures p <= plan.sectors
  {
    if i <= plan.startCluster then 0
    else Max(0, Min(plan.sectors, (i - plan.startCluster) * v.spc - plan.startSector))
  }

  /** The planned sectors that lie in cluster i. */
  function Chunk(v: Volume, plan: Plan, i: nat): nat {
    Max(0, Min(v.spc - FirstSector(plan, i), plan.sectors - SectorsBefore(v, plan, i)))
  }

  /** The loop does not stop before cluster i: there is still something to skip or to read. */
  predicate Wants(v: Volume, plan: Plan, i: nat) {
    i < plan.startCluster || SectorsBefore(v, plan, i) < plan.sectors
  }

  /** The state of the copying loop: cs were yielded, p of the planned sectors are in tmp. */
  ghost predicate Copied(v: Volume, d: Disk, plan: Plan, cs: seq<nat>, tmp: seq<Byte>, p: nat) {
    && p == SectorsBefore(v, plan, |cs|) && |tmp| == Bytes(v, plan.sectors)
    && (forall b :: 0 <= b < Bytes(v, p) && b < |tmp| ==>
          IsFileByte(v, d, cs, Bytes(v, plan.startCluster * v.spc + plan.startSector) + b, tmp[b]))
  }

  lemma SkipCluster(v: Volume, d: Disk, plan: Plan, cs: seq<nat>, c: nat, tmp: seq<Byte>, p: nat)
    requires Copied(v, d, plan, cs, tmp, p) && |cs| < plan.startCluster
    ensures p == 0 && Copied(v, d, plan, cs + [c], tmp, p)
  {
  }

  /** Where the sectors of the current cluster belong in the file. */
  lemma ChunkPosition(v: Volume, plan: Plan, i: nat, p: nat)
    requires i >= plan.startCluster && plan.startSector <= v.spc
    requires i == plan.startCluster ==> p == 0
    requires i > plan.startCluster ==> p == (i - plan.startCluster) * v.spc - plan.startSector
    ensures Bytes(v, plan.startCluster * v.spc + plan.startSector) + Bytes(v, p)
         == Bytes(v, i * v.spc + FirstSector(plan, i))
  {
  }

  lemma CopyCluster(v: Volume, d: Disk, plan: Plan, cs: seq<nat>, c: nat, tmp: seq<Byte>, after: seq<Byte>,
                    p: nat, n: nat)
    requires Copied(v, d, plan, cs, tmp, p) && |cs| >= plan.startCluster && p < plan.sectors
    requires v.bps > 0 && plan.startSector < v.spc && c >= 2
    requires n == Chunk(v, plan, |cs|)
    requires Loaded(v, d, ClusterLba(v, c) + FirstSector(plan, |cs|), n, p, tmp, after)
    ensures Copied(v, d, plan, cs + [c], after, p + n)
  {
    hide ClusterLba, IsFileByte, ClusterBytes, Bytes;
    var i, f := |cs|, FirstSector(plan, |cs|);
    var base := Bytes(v, plan.startCluster * v.spc + plan.startSector);
    NextChunk(v, plan, i);
    ChunkPosition(v, plan, i, p);
    ClusterEnd(v, f, n);
    BytesAdd(v, p, n);
    BytesAdd(v, ClusterLba(v, c) + f, n);
    BytesAdd(v, p + n, plan.sectors - (p + n));
    CopyBytes(v, d, cs, c, tmp, after, base, Bytes(v, p), Bytes(v, n), f);
  }

  lemma BytesAdd(v: Volume, a: nat, b: nat)
    ensures Bytes(v, a + b) == Bytes(v, a) + Bytes(v, b)
  {
  }

  lemma SumTimes(a: nat, b: nat, m: nat)
    ensures (a + b) * m == a * m + b * m
  {
  }

  /** Old bytes stay, new bytes continue the file. */
  lemma CopyBytes(v: Volume, d: Disk, cs: seq<nat>, c: nat, tmp: seq<Byte>, after: seq<Byte>,
                  base: nat, kept: nat, added: nat, f: nat)
    requires v.bps > 0 && c >= 2 && kept + added <= |tmp| == |after|
    requires forall b :: 0 <= b < kept ==> IsFileByte(v, d, cs, base + b, tmp[b]) && after[b] == tmp[b]
    requires Bytes(v, f) + added <= ClusterBytes(v)
    requires Bytes(v, ClusterLba(v, c) + f) + added <= |d.data|
    requires forall b :: kept <= b < kept + added ==>
      after[b] == d.data[Bytes(v, ClusterLba(v, c) + f) + (b - kept)]
    requires base + kept == Bytes(v, |cs| * v.spc + f)
    ensures forall b :: 0 <= b < kept + added ==> IsFileByte(v, d, cs + [c], base + b, after[b])
  {
    hide IsFileByte, ClusterLba, ClusterBytes, Bytes;
    forall b | 0 <= b < kept + added ensures IsFileByte(v, d, cs + [c], base + b, after[b]) {
      if b < kept {
        BytesKept(v, d, cs, c, base + b, after[b]);
      } else {
        SectorByte(v, d, cs + [c], f, b - kept);
      }
    }
  }

  lemma ClusterEnd(v: Volume, f: nat, n: nat)
    requires f + n <= v.spc
    ensures Bytes(v, f) + Bytes(v, n) <= ClusterBytes(v)
  {
  }

  lemma NextChunk(v: Volume, plan: Plan, i: nat)
    requires i >= plan.startCluster && SectorsBefore(v, plan, i) < plan.sectors && plan.startSector < v.spc
    ensures var p, n := SectorsBefore(v, plan, i), Chunk(v, plan, i);
      && (i == plan.startCluster ==> p == 0)
      && (i > plan.startCluster ==> p == (i - plan.startCluster) * v.spc - plan.startSector)
      && 0 < n && p + n == SectorsBefore(v, plan, i + 1)
      && n == Min(v.spc - FirstSector(plan, i), plan.sectors - p)
  {
    SumTimes(i - plan.startCluster, 1, v.spc);
    if i > plan.startCluster {
      MulMono(1, i - plan.startCluster, v.spc);
    }
  }

  // ----- what a read consults, and how it ends

  /** Where the iterator stands behind the clusters cs, if it gets that far. */
  function After(v: Volume, d: Disk, first: nat, cs: seq<nat>): Option<Cursor>
    requires v.bps > 0
    decreases |cs|
  {
    if cs == [] then Some(StartOf(first)) else
      var n := |cs| - 1;
      match After(v, d, first, cs[..n])
      case None => None
      case Some(cur) =>
        if cur.next == Some(cs[n]) && Obstacle(v, d, cur) == None then Some(Behind(v, d, cur)) else None
  }

  /** What the iterator visits is the file's chain. */
  lemma {:induction false} AfterChain(v: Volume, d: Disk, first: nat, cs: seq<nat>)
    requires v.bps > 0 && first != 1 && After(v, d, first, cs).Some?
    ensures IsChain(v, d, first, cs)
    ensures var cur := After(v, d, first, cs).value;
      && (cur.next.Some? ==>
            cur.next.value >= 2 && if cs == [] then cur.next.value == first else ValidCluster(v, cur.next.value))
      && (cur.next.Some? && InTable(v, cur.next.value) ==> IsChain(v, d, first, cs + [cur.next.value]))
      && (cur.next.None? ==>
            if cs == [] then first == 0
            else EntryReadable(v, d, cs[|cs| - 1]) && Follow(v, d, cs[|cs| - 1]) == End)
    decreases |cs|
  {
    hide Entry, EntryReadable, WindowFor, ReadOk, InSectors;
    if cs != [] {
      var n := |cs| - 1;
      AfterChain(v, d, first, cs[..n]);
      assert cs == cs[..n] + [cs[n]];
      var cur := After(v, d, first, cs).value;
      if cur.next.Some? {
        assert Leads(v, d, cs[n], cur.next.value);
      }
    }
  }

  /** The wanted sectors of every cluster visited can be read. */
  ghost predicate DataRead(v: Volume, d: Disk, plan: Plan, cs: seq<nat>) {
    forall k :: plan.startCluster <= k < |cs| ==> ChunkOk(v, d, plan, cs, k)
  }

  predicate ChunkOk(v: Volume, d: Disk, plan: Plan, cs: seq<nat>, k: nat)
    requires k < |cs|
  {
    cs[k] >= 2 && PartOk(d, ClusterLba(v, cs[k]), FirstSector(plan, k), Chunk(v, plan, k))
  }

  /** A read that visits exactly the clusters cs and then ends: without an error (None) when
      nothing more is wanted and the iterator, asked once more, has no obstacle, or when the
      chain ends and nothing is missing; as an incomplete read when the chain ends too early;
      with the obstacle of the next cluster (a device error, a corrupt chain, or an index past
      the table), or as a device error when its wanted sectors cannot be read. */
  ghost predicate EndsAt(v: Volume, d: Disk, first: nat, plan: Plan, cs: seq<nat>, e: Option<Error>)
    requires v.bps > 0
  {
    && After(v, d, first, cs).Some? && DataRead(v, d, plan, cs)
    && (forall k :: 0 <= k < |cs| ==> Wants(v, plan, k))
    && var cur := After(v, d, first, cs).value;
    if cur.next.None? then e == if SectorsBefore(v, plan, |cs|) == plan.sectors then None else Some(IncompleteRead)
    else if Obstacle(v, d, cur).Some? then e == Obstacle(v, d, cur)
    else if !Wants(v, plan, |cs|) then e == None
    else e == Some(DeviceError) && plan.startCluster <= |cs| && !ChunkOk(v, d, plan, cs + [cur.next.value], |cs|)
  }

  /** The read ends in this way. */
  ghost predicate Ends(v: Volume, d: Disk, first: nat, plan: Plan, e: Option<Error>)
    requires v.bps > 0
  {
    exists cs :: EndsAt(v, d, first, plan, cs, e)
  }

  lemma {:induction false} AfterPrefix(v: Volume, d: Disk, first: nat, cs: seq<nat>, k: nat)
    requires v.bps > 0 && k < |cs| && After(v, d, first, cs).Some?
    ensures var cur := After(v, d, first, cs[..k]);
      cur.Some? && cur.value.next == Some(cs[k]) && Obstacle(v, d, cur.value) == None
    decreases |cs|
  {
    hide Obstacle, Behind;
    if k < |cs| - 1 {
      AfterPrefix(v, d, first, cs[..|cs| - 1], k);
      assert cs[..|cs| - 1][..k] == cs[..k];
    }
  }

  /** A read that ends somewhere has not ended before. */
  lemma NoEarlierEnd(v: Volume, d: Disk, first: nat, plan: Plan, cs: seq<nat>, e: Option<Error>,
                     ds: seq<nat>, f: Option<Error>)
    requires v.bps > 0 && first != 1
    requires EndsAt(v, d, first, plan, cs, e) && EndsAt(v, d, first, plan, ds, f)
    ensures |ds| <= |cs|
  {
    hide Obstacle, After, Wants, ChunkOk, IsChain;
    if |cs| < |ds| {
      var n := |cs|;
      AfterChain(v, d, first, cs);
      AfterChain(v, d, first, ds);
      ChainsAgree(v, d, first, cs, ds);
      AfterPrefix(v, d, first, ds, n);
      assert Wants(v, plan, n);
      assert n >= plan.startCluster ==> ChunkOk(v, d, plan, ds, n);
      SameChunk(v, d, plan, cs + [ds[n]], ds, n);
    }
  }

  lemma SameChunk(v: Volume, d: Disk, plan: Plan, cs: seq<nat>, ds: seq<nat>, k: nat)
    requires k < |cs| && k < |ds| && cs[k] == ds[k]
    ensures ChunkOk(v, d, plan, cs, k) == ChunkOk(v, d, plan, ds, k)
  {
  }

  /** A read ends in one way only. */
  lemma EndsOnce(v: Volume, d: Disk, first: nat, plan: Plan, cs: seq<nat>, e: Option<Error>)
    requires v.bps > 0 && first != 1 && EndsAt(v, d, first, plan, cs, e)
    ensures forall f :: Ends(v, d, first, plan, f) <==> f == e
  {
    hide EndsAt;
    forall f | Ends(v, d, first, plan, f) ensures f == e {
      var ds :| EndsAt(v, d, first, plan, ds, f);
      NoEarlierEnd(v, d, first, plan, cs, e, ds, f);
      NoEarlierEnd(v, d, first, plan, ds, f, cs, e);
      SameEnd(v, d, first, plan, cs, e, ds, f);
    }
  }

  lemma SameEnd(v: Volume, d: Disk, first: nat, plan: Plan, cs: seq<nat>, e: Option<Error>,
                ds: seq<nat>, f: Option<Error>)
    requires v.bps > 0 && first != 1 && |cs| == |ds|
    requires EndsAt(v, d, first, plan, cs, e) && EndsAt(v, d, first, plan, ds, f)
    ensures e == f
  {
    hide Obstacle, After, Wants, ChunkOk, IsChain, SectorsBefore;
    AfterChain(v, d, first, cs);
    AfterChain(v, d, first, ds);
    ChainsAgree(v, d, first, cs, ds);
    assert ds[..|cs|] == ds;
  }

  /** A file whose chain ends properly, is long enough, and can be read everywhere. */
  ghost predicate Healthy(v: Volume, d: Disk, first: nat, chain: seq<nat>, fileSize: nat) {
    && IsChain(v, d, first, chain) && (chain == [] <==> first == 0)
    && (chain != [] ==> EntryReadable(v, d, chain[|chain| - 1]) && Follow(v, d, chain[|chain| - 1]) == End)
    && fileSize <= |chain| * ClusterBytes(v)
    && (forall lba, count :: !d.fails(lba, count))
    && (FatLba(v) + v.spf) * v.bps <= |d.data|
    && (forall i :: 0 <= i < |chain| ==> (ClusterLba(v, chain[i]) + v.spc) * v.bps <= |d.data|)
  }

  lemma ChainPrefix(v: Volume, d: Disk, first: nat, chain: seq<nat>, fileSize: nat, cs: seq<nat>)
    requires Healthy(v, d, first, chain, fileSize) && IsChain(v, d, first, cs)
    ensures cs <= chain
  {
    hide Follow, EntryReadable, InTable;
    var n := |chain|;
    assert 0 < n < |cs| ==> Leads(v, d, cs[n - 1], cs[n]);
    if |cs| <= n {
      ChainsAgree(v, d, first, cs, chain);
    } else {
      ChainsAgree(v, d, first, chain, cs);
    }
  }

  /** On a healthy file the iterator goes through the chain. */
  lemma HealthyAfter(v: Volume, d: Disk, first: nat, chain: seq<nat>, fileSize: nat, cs: seq<nat>)
    requires Mounted(v, d) && v.bps > 0 && first != 1
    requires Healthy(v, d, first, chain, fileSize) && After(v, d, first, cs).Some?
    ensures cs <= chain
    ensures After(v, d, first, cs).value.next == if |cs| == |chain| then None else Some(chain[|cs|])
  {
    hide Follow, EntryReadable, InTable, After, Mounted;
    AfterChain(v, d, first, cs);
    ChainPrefix(v, d, first, chain, fileSize, cs);
    var cur := After(v, d, first, cs).value;
    assert 0 < |cs| < |chain| ==> Leads(v, d, chain[|cs| - 1], chain[|cs|]);
    if cur.next.Some? {
      if cs != [] {
        ValidInTable(v, d, cur.next.value);
      }
      ChainPrefix(v, d, first, chain, fileSize, cs + [cur.next.value]);
      assert (cs + [cur.next.value])[|cs|] == chain[|cs|];
    }
  }

  lemma HealthyWindow(v: Volume, d: Disk, c: nat)
    requires Mounted(v, d) && InTable(v, c)
    requires (forall lba, count :: !d.fails(lba, count)) && (FatLba(v) + v.spf) * v.bps <= |d.data|
    ensures var (start, count) := WindowFor(v, c * 4 / v.bps); ReadOk(d, FatLba(v) + start, count)
  {
  }

  lemma HealthyCluster(v: Volume, d: Disk, first: nat, chain: seq<nat>, fileSize: nat, i: nat)
    requires Mounted(v, d) && Healthy(v, d, first, chain, fileSize) && i < |chain|
    ensures InTable(v, chain[i])
    ensures (forall lba, count :: !d.fails(lba, count)) && (FatLba(v) + v.spf) * v.bps <= |d.data|
    ensures forall f: nat, n: nat :: f + n <= v.spc ==> PartOk(d, ClusterLba(v, chain[i]), f, n)
  {
    hide Follow, EntryReadable, Leads, ClusterLba;
    var lba := ClusterLba(v, chain[i]);
    forall f: nat, n: nat | f + n <= v.spc ensures PartOk(d, lba, f, n) {
      MulMono(lba + f + n, lba + v.spc, v.bps);
    }
  }

  /** No cluster of a healthy chain is an obstacle. */
  lemma HealthyPasses(v: Volume, d: Disk, first: nat, chain: seq<nat>, fileSize: nat, cur: Cursor, i: nat)
    requires Mounted(v, d) && v.bps > 0 && Healthy(v, d, first, chain, fileSize)
    requires i < |chain| && cur.next == Some(chain[i])
    ensures Obstacle(v, d, cur) == None
  {
    hide InTable, WindowFor, ReadOk, Follow, EntryReadable, Mounted;
    HealthyCluster(v, d, first, chain, fileSize, i);
    HealthyWindow(v, d, chain[i]);
    assert i < |chain| - 1 ==> Leads(v, d, chain[i], chain[i + 1]);
  }

  /** All planned sectors lie in the clusters of a chain that is long enough. */
  lemma EnoughAtEnd(v: Volume, plan: Plan, n: nat, offset: nat, len: nat)
    requires v.bps > 0 && v.spc > 0 && plan == PlanFor(v, offset, len)
    requires offset + len <= n * ClusterBytes(v)
    ensures SectorsBefore(v, plan, n) == plan.sectors
  {
    hide PlanFor, ClusterBytes;
    PlanExact(v, offset, len);
    var first := plan.startCluster * v.spc + plan.startSector;
    ClusterSectors(v, n);
    SumTimes(first, plan.sectors, v.bps);
    SumTimes(n * v.spc, 1, v.bps);
    MulLess(first + plan.sectors, n * v.spc + 1, v.bps);
    if n > plan.startCluster {
      SumTimes(n - plan.startCluster, plan.startCluster, v.spc);
    } else {
      MulMono(n, plan.startCluster, v.spc);
    }
  }

  /** A read of a healthy file, within the file's size, ends without an error. */
  lemma HealthyEnds(v: Volume, d: Disk, first: nat, chain: seq<nat>, fileSize: nat,
                    offset: nat, len: nat, cs: seq<nat>, e: Option<Error>)
    requires Mounted(v, d) && v.bps > 0 && v.spc > 0 && first != 1
    requires Healthy(v, d, first, chain, fileSize) && offset + len <= fileSize
    requires EndsAt(v, d, first, PlanFor(v, offset, len), cs, e)
    ensures e == None
  {
    hide Mounted, Healthy, After, Obstacle, PlanFor, SectorsBefore, ClusterLba;
    var plan, n := PlanFor(v, offset, len), |cs|;
    PlanExact(v, offset, len);
    HealthyAfter(v, d, first, chain, fileSize, cs);
    HealthyLength(v, d, first, chain, fileSize);
    if n == |chain| {
      EnoughAtEnd(v, plan, n, offset, len);
    } else {
      HealthyPasses(v, d, first, chain, fileSize, After(v, d, first, cs).value, n);
      HealthyCluster(v, d, first, chain, fileSize, n);
      assert FirstSector(plan, n) + Chunk(v, plan, n) <= v.spc;
    }
  }

  lemma ClusterSectors(v: Volume, n: nat)
    ensures n * ClusterBytes(v) == (n * v.spc) * v.bps
  {
  }

  /** a * m < b * m means a < b. */
  lemma MulLess(a: nat, b: nat, m: nat)
    requires m > 0 && a * m < b * m
    ensures a < b
  {
  }

  lemma MountedFacts(v: Volume, d: Disk)
    requires Mounted(v, d)
    ensures d.bs == v.bps > 0 && v.spc > 0
  {
  }

  /** Sectors f, f + 1, ... of a cluster at lba can be read. */
  predicate PartOk(d: Disk, lba: nat, f: nat, n: nat) {
    ReadOk(d, lba + f, n)
  }

  lemma StartLoop(v: Volume, d: Disk, first: nat, plan: Plan, tmp: seq<Byte>)
    requires v.bps > 0 && |tmp| == Bytes(v, plan.sectors)
    ensures After(v, d, first, []) == Some(StartOf(first)) && DataRead(v, d, plan, [])
    ensures Copied(v, d, plan, [], tmp, 0)
  {
  }

  /** Visiting one more cluster. */
  lemma StepLoop(v: Volume, d: Disk, first: nat, plan: Plan, cs: seq<nat>, c: nat)
    requires v.bps > 0 && After(v, d, first, cs).Some? && DataRead(v, d, plan, cs)
    requires var cur := After(v, d, first, cs).value; cur.next == Some(c) && Obstacle(v, d, cur) == None
    requires |cs| >= plan.startCluster ==> ChunkOk(v, d, plan, cs + [c], |cs|)
    ensures After(v, d, first, cs + [c]) == Some(Behind(v, d, After(v, d, first, cs).value))
    ensures DataRead(v, d, plan, cs + [c])
  {
    hide Obstacle, Behind;
    assert (cs + [c])[..|cs|] == cs;
    forall k | plan.startCluster <= k < |cs| ensures ChunkOk(v, d, plan, cs + [c], k) {
      SameChunk(v, d, plan, cs, cs + [c], k);
    }
  }

  /** The loop of `read_at`: follows the chain until the planned sectors are in tmp. It ends
      on every chain, cyclic ones included. */
  method CopyChain(v: Volume, d: Disk, first: nat, plan: Plan, tmp: array<Byte>)
    returns (e: Option<Error>, ghost cs: seq<nat>, p: nat)
    requires Mounted(v, d) && v.bps > 0 && first != 1
    requires plan.startSector < v.spc && tmp.Length == Bytes(v, plan.sectors)
    modifies tmp
    ensures p == SectorsBefore(v, plan, |cs|) && e != Some(IncompleteRead)
    ensures EndsAt(v, d, first, plan, cs, if e == None && p < plan.sectors then Some(IncompleteRead) else e)
    ensures e == None ==> IsChain(v, d, first, cs) && Copied(v, d, plan, cs, tmp[..], p)
  {
    hide Mounted, IsChain, Obstacle, Behind, After, DataRead, Bytes, SectorsBefore, ClusterLba, IsFileByte, ChunkOk;
    var iter := new FatIter(v, d, first);
    var i := 0;
    cs, p := [], 0;
    StartLoop(v, d, first, plan, tmp[..]);
    while true
      invariant fresh(iter) && iter.volume == v && iter.disk == d && iter.Valid()
      invariant i == |cs| && After(v, d, first, cs) == Some(iter.Here()) && DataRead(v, d, plan, cs)
      invariant forall k :: 0 <= k < |cs| ==> Wants(v, plan, k)
      invariant Copied(v, d, plan, cs, tmp[..], p)
      decreases Max(0, plan.startCluster - i) + (plan.sectors - p)
    {
      AfterChain(v, d, first, cs);
      var item := iter.Next();
      if item == Done {
        return None, cs, p;
      }
      if item.Fail? {
        ObstacleKinds(v, d, After(v, d, first, cs).value);
        return Some(item.error), cs, p;
      }
      ghost var c := After(v, d, first, cs).value.next.value;
      if i < plan.startCluster {
        SkipCluster(v, d, plan, cs, c, tmp[..], p);
      } else {
        if p == plan.sectors {
          return None, cs, p;
        }
        var n := CopyOne(v, d, plan, i, item.lba, tmp, p, cs, c);
        if n == 0 {
          return Some(DeviceError), cs, p;
        }
        p := p + n;
      }
      StepLoop(v, d, first, plan, cs, c);
      cs := cs + [c];
      i := i + 1;
    }
  }

  lemma ObstacleKinds(v: Volume, d: Disk, cur: Cursor)
    requires v.bps > 0 && cur.next.Some?
    ensures Obstacle(v, d, cur) != Some(IncompleteRead)
  {
  }

  /** The wanted sectors of one cluster go to tmp; 0 if the device fails. */
  method CopyOne(v: Volume, d: Disk, plan: Plan, i: nat, lba: nat, tmp: array<Byte>, p: nat,
                 ghost cs: seq<nat>, ghost c: nat)
    returns (n: nat)
    requires Mounted(v, d) && v.bps > 0 && plan.startSector < v.spc && tmp.Length == Bytes(v, plan.sectors)
    requires i == |cs| >= plan.startCluster && p < plan.sectors && c >= 2 && lba == ClusterLba(v, c)
    requires Copied(v, d, plan, cs, tmp[..], p)
    modifies tmp
    ensures n > 0 <==> ChunkOk(v, d, plan, cs + [c], i)
    ensures n > 0 ==> Copied(v, d, plan, cs + [c], tmp[..], p + n)
  {
    hide Mounted, IsFileByte, ClusterLba, Bytes, ReadOk, Loaded, SectorsBefore;
    MountedFacts(v, d);
    NextChunk(v, plan, i);
    var f := FirstSector(plan, i);
    n := Min(v.spc - f, plan.sectors - p);
    if !PartOk(d, lba, f, n) {
      return 0;
    }
    BytesAdd(v, p + n, plan.sectors - (p + n));
    BytesAdd(v, p, n);
    ghost var was := tmp[..];
    ReadBlocks(v, d, lba + f, n, tmp, p);
    CopyCluster(v, d, plan, cs, c, was, tmp[..], p, n);
  }

  function ErrorOf(r: Result): Option<Error> {
    if r.Ok? then None else Some(r.error)
  }

  /** `read_at`: on success the buffer holds exactly the bytes [offset, offset + len) of the
      concatenated clusters of the file's chain. Success and each error come exactly when the
      walk, with the entries and sectors it consults, ends that way. */
  method ReadAt(v: Volume, d: Disk, first: nat, fileSize: nat, offset: nat, buf: array<Byte>)
    returns (r: Result, ghost cs: seq<nat>)
    requires Mounted(v, d) && first != 1
    modifies buf
    ensures offset > fileSize ==> r == Err(InvalidInput)
    ensures offset <= fileSize && buf.Length > fileSize - offset ==> r == Err(TooBigBuffer)
    ensures offset + buf.Length <= fileSize ==>
      forall e :: Ends(v, d, first, PlanFor(v, offset, buf.Length), e) <==> e == ErrorOf(r)
    ensures r.Ok? ==> r.len == buf.Length && IsChain(v, d, first, cs)
    ensures r.Ok? ==> forall k :: 0 <= k < buf.Length ==> IsFileByte(v, d, cs, offset + k, buf[k])
    ensures r.Err? ==> buf[..] == old(buf[..])
  {
    hide Mounted, Copied, IsChain, PlanFor, IsFileByte, EndsAt, Ends, SectorsBefore;
    cs := [];
    if offset > fileSize {
      return Err(InvalidInput), cs;
    }
    if buf.Length > fileSize - offset {
      return Err(TooBigBuffer), cs;
    }
    MountedFacts(v, d);
    var plan := PlanFor(v, offset, buf.Length);
    PlanExact(v, offset, buf.Length);
    var tmp := new Byte[plan.sectors * v.bps](_ => 0);
    var e, p;
    e, cs, p := CopyChain(v, d, first, plan, tmp);
    EndsOnce(v, d, first, plan, cs, if e == None && p < plan.sectors then Some(IncompleteRead) else e);
    if e.Some? {
      return Err(e.value), cs;
    }
    if p != plan.sectors {
      return Err(IncompleteRead), cs;
    }
    CopiedBytes(v, d, plan, cs, tmp[..]);
    forall k | 0 <= k < buf.Length {
      buf[k] := tmp[plan.startByte + k];
    }
    r := Ok(buf.Length);
  }

  /** Every read of a healthy file within its size ends without an error. */
  lemma HealthyReads(v: Volume, d: Disk, first: nat, chain: seq<nat>, fileSize: nat, offset: nat, len: nat)
    requires Mounted(v, d) && first != 1
    requires Healthy(v, d, first, chain, fileSize) && offset + len <= fileSize
    ensures forall e :: Ends(v, d, first, PlanFor(v, offset, len), e) ==> e == None
  {
    hide Mounted, Healthy, EndsAt, PlanFor;
    MountedFacts(v, d);
    var plan := PlanFor(v, offset, len);
    forall e | Ends(v, d, first, plan, e) ensures e == None {
      var cs :| EndsAt(v, d, first, plan, cs, e);
      HealthyEnds(v, d, first, chain, fileSize, offset, len, cs, e);
    }
  }

  lemma HealthyLength(v: Volume, d: Disk, first: nat, chain: seq<nat>, fileSize: nat)
    requires Healthy(v, d, first, chain, fileSize)
    ensures fileSize <= |chain| * ClusterBytes(v)
  {
  }

  lemma CopiedBytes(v: Volume, d: Disk, plan: Plan, cs: seq<nat>, tmp: seq<Byte>)
    requires Copied(v, d, plan, cs, tmp, plan.sectors)
    ensures |tmp| == plan.sectors * v.bps
    ensures forall b :: 0 <= b < |tmp| ==>
      IsFileByte(v, d, cs, (plan.startCluster * v.spc + plan.startSector) * v.bps + b, tmp[b])
  {
  }
}
