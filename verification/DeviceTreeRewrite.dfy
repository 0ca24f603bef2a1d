/** Rewriting a flattened device tree with more memory reservations: the blob's header,
    reservation block, structure block and strings block (sections 5.2 and 5.3 of the
    Devicetree Specification v0.4), as parsed and as produced. */
module DeviceTreeRewrite {
  import opened Arithmetic
  import opened Options
  import opened ByteWords

  const LONG: nat := 0x1_0000_0000_0000_0000
  const HEADER_BYTES: nat := 40
  const ENTRY_BYTES: nat := 16

  // Offsets of the header fields.
  const TOTAL_SIZE: nat := 4
  const OFF_STRUCT: nat := 8
  const OFF_STRINGS: nat := 12
  const OFF_RESERVE: nat := 16
  const SIZE_STRINGS: nat := 32
  const SIZE_STRUCT: nat := 36

  // ----- big-endian words

  function Put32(x: nat): (r: seq<Byte>)
    requires x < WORD
    ensures |r| == 4
  {
    [x / 0x100_0000, x / 0x1_0000 % 0x100, x / 0x100 % 0x100, x % 0x100]
  }

  lemma Get32Put32(x: nat)
    requires x < WORD
    ensures Get32(Put32(x), 0) == x
  {
    var a, b := x / 0x100, x / 0x1_0000;
    assert x == 0x100 * a + x % 0x100;
    assert a / 0x100 == b && b / 0x100 == x / 0x100_0000;
    assert a == 0x100 * b + a % 0x100;
    assert b == 0x100 * (b / 0x100) + b % 0x100;
  }

  lemma Put32Get32(m: seq<Byte>, at: nat)
    requires at + 4 <= |m|
    ensures Put32(Get32(m, at)) == m[at..at + 4]
  {
    hide Get32;
    GetDigits(m, at);
    var r, s := Put32(Get32(m, at)), m[at..at + 4];
    assert r[0] == s[0] && r[1] == s[1] && r[2] == s[2] && r[3] == s[3];
  }

  lemma GetDigits(m: seq<Byte>, at: nat)
    requires at + 4 <= |m|
    ensures var x := Get32(m, at);
      && x / 0x100_0000 == m[at] && x / 0x1_0000 % 0x100 == m[at + 1]
      && x / 0x100 % 0x100 == m[at + 2] && x % 0x100 == m[at + 3]
  {
    var a, b, c, e := m[at] as nat, m[at + 1] as nat, m[at + 2] as nat, m[at + 3] as nat;
    var x := Get32(m, at);
    DivModUnique(x, 0x100_0000, a, 0x1_0000 * b + 0x100 * c + e);
    DivModUnique(x, 0x1_0000, 0x100 * a + b, 0x100 * c + e);
    DivModUnique(x, 0x100, 0x1_0000 * a + 0x100 * b + c, e);
    DivModUnique(0x100 * a + b, 0x100, a, b);
    DivModUnique(0x1_0000 * a + 0x100 * b + c, 0x100, 0x100 * a + b, c);
  }

  function Get64(m: seq<Byte>, at: nat): (r: nat)
    requires at + 8 <= |m|
    ensures r < LONG
  {
    Get32(m, at) * WORD + Get32(m, at + 4)
  }

  function Put64(x: nat): (r: seq<Byte>)
    requires x < LONG
    ensures |r| == 8
  {
    Put32(x / WORD) + Put32(x % WORD)
  }

  /** The word at a position depends only on the four bytes there. */
  lemma Get32Slice(m: seq<Byte>, at: nat, s: seq<Byte>)
    requires at + 4 <= |m| && |s| == 4 && m[at..at + 4] == s
    ensures Get32(m, at) == Get32(s, 0)
  {
  }

  lemma Get64Put64(m: seq<Byte>, at: nat, x: nat)
    requires x < LONG && at + 8 <= |m| && m[at..at + 8] == Put64(x)
    ensures Get64(m, at) == x
  {
    hide Get32, Put32;
    assert m[at..at + 4] == m[at..at + 8][..4] == Put32(x / WORD);
    assert m[at + 4..at + 8] == m[at..at + 8][4..] == Put32(x % WORD);
    Get32Slice(m, at, Put32(x / WORD));
    Get32Slice(m, at + 4, Put32(x % WORD));
    Get32Put32(x / WORD);
    Get32Put32(x % WORD);
  }

  lemma Put64Get64(m: seq<Byte>, at: nat)
    requires at + 8 <= |m|
    ensures Put64(Get64(m, at)) == m[at..at + 8]
  {
    hide Get32, Put32;
    var x := Get64(m, at);
    DivModUnique(x, WORD, Get32(m, at), Get32(m, at + 4));
    Put32Get32(m, at);
    Put32Get32(m, at + 4);
    assert m[at..at + 8] == m[at..at + 4] + m[at + 4..at + 8];
  }

  // ----- the reservation block

  datatype Entry = Entry(address: nat, size: nat)

  ghost predicate Fits(e: Entry) {
    e.address < LONG && e.size < LONG
  }

  const TERMINATOR := Entry(0, 0)

  function GetEntry(m: seq<Byte>, at: nat): (e: Entry)
    requires at + ENTRY_BYTES <= |m|
    ensures Fits(e)
  {
    Entry(Get64(m, at), Get64(m, at + 8))
  }

  function PutEntry(e: Entry): (r: seq<Byte>)
    requires Fits(e)
    ensures |r| == ENTRY_BYTES
  {
    Put64(e.address) + Put64(e.size)
  }

  /** The entries before the terminator; None if the terminator is missing. */
  function ReadEntries(m: seq<Byte>, at: nat): (r: Option<seq<Entry>>)
    ensures r.Some? ==> forall i :: 0 <= i < |r.value| ==> Fits(r.value[i]) && r.value[i] != TERMINATOR
    ensures r.Some? ==> at + (|r.value| + 1) * ENTRY_BYTES <= |m|
    decreases |m| - at
  {
    if at + ENTRY_BYTES > |m| then None
    else if GetEntry(m, at) == TERMINATOR then Some([])
    else match ReadEntries(m, at + ENTRY_BYTES)
      case None => None
      case Some(rest) => Some([GetEntry(m, at)] + rest)
  }

  ghost predicate AllFit(es: seq<Entry>) {
    forall i :: 0 <= i < |es| ==> Fits(es[i])
  }

  function PutEntries(es: seq<Entry>): (r: seq<Byte>)
    requires AllFit(es)
    ensures |r| == |es| * ENTRY_BYTES
  {
    if es == [] then [] else PutEntry(es[0]) + PutEntries(es[1..])
  }

  lemma GetPutEntry(m: seq<Byte>, at: nat, e: Entry)
    requires Fits(e) && at + ENTRY_BYTES <= |m| && m[at..at + ENTRY_BYTES] == PutEntry(e)
    ensures GetEntry(m, at) == e
  {
    hide Get64, Put64;
    assert m[at..at + 8] == m[at..at + 16][..8] == Put64(e.address);
    assert m[at + 8..at + 16] == m[at..at + 16][8..] == Put64(e.size);
    Get64Put64(m, at, e.address);
    Get64Put64(m, at + 8, e.size);
  }

  lemma PutGetEntry(m: seq<Byte>, at: nat)
    requires at + ENTRY_BYTES <= |m|
    ensures PutEntry(GetEntry(m, at)) == m[at..at + ENTRY_BYTES]
  {
    hide Get64, Put64;
    Put64Get64(m, at);
    Put64Get64(m, at + 8);
    assert m[at..at + 16] == m[at..at + 8] + m[at + 8..at + 16];
  }

  /** The entries up to the first one that looks like the terminator. */
  function Before(es: seq<Entry>): (r: seq<Entry>)
    ensures |r| <= |es|
  {
    if es == [] || es[0] == TERMINATOR then [] else [es[0]] + Before(es[1..])
  }

  /** What is written is what is read, up to the first entry that looks like the terminator. */
  lemma {:induction false} ReadPutEntries(m: seq<Byte>, at: nat, es: seq<Entry>)
    requires AllFit(es)
    requires at + (|es| + 1) * ENTRY_BYTES <= |m|
    requires m[at..at + (|es| + 1) * ENTRY_BYTES] == PutEntries(es + [TERMINATOR])
    ensures ReadEntries(m, at) == Some(Before(es))
    decreases |es|
  {
    hide GetEntry, PutEntry;
    var all := es + [TERMINATOR];
    var end := at + |all| * ENTRY_BYTES;
    assert PutEntries(all) == PutEntry(all[0]) + PutEntries(all[1..]);
    assert m[at..at + ENTRY_BYTES] == m[at..end][..ENTRY_BYTES] == PutEntry(all[0]);
    GetPutEntry(m, at, all[0]);
    if es != [] && es[0] != TERMINATOR {
      assert all[1..] == es[1..] + [TERMINATOR];
      assert m[at + ENTRY_BYTES..end] == m[at..end][ENTRY_BYTES..] == PutEntries(all[1..]);
      ReadPutEntries(m, at + ENTRY_BYTES, es[1..]);
    }
  }

  lemma {:induction false} BeforeConcat(a: seq<Entry>, b: seq<Entry>)
    requires TERMINATOR !in a
    ensures Before(a + b) == a + Before(b)
  {
    if a == [] {
      assert a + b == b;
    } else {
      var all, rest := a + b, a[1..];
      assert a[0] != TERMINATOR;
      BeforeConcat(rest, b);
      assert all[0] == a[0] && all[1..] == rest + b;
      assert Before(all) == [a[0]] + Before(rest + b);
      Prepend(a[0], rest, Before(b));
      assert [a[0]] + rest == a;
    }
  }

  lemma Prepend(e: Entry, a: seq<Entry>, b: seq<Entry>)
    ensures [e] + (a + b) == ([e] + a) + b
  {
  }

  lemma Cancel(a: seq<Entry>, x: seq<Entry>, y: seq<Entry>)
    ensures a + x == a + y <==> x == y
  {
    assert x == (a + x)[|a|..] && y == (a + y)[|a|..];
  }

  lemma {:induction false} BeforeClean(es: seq<Entry>)
    ensures TERMINATOR !in Before(es) && Before(es) <= es
  {
    if es != [] && es[0] != TERMINATOR {
      var rest := es[1..];
      BeforeClean(rest);
      assert Before(es) == [es[0]] + Before(rest);
      assert es == [es[0]] + rest;
    }
  }

  lemma BeforeWhole(es: seq<Entry>)
    ensures Before(es) == es <==> TERMINATOR !in es
    ensures |Before(es)| == |es| <==> TERMINATOR !in es
  {
  }

  /** What is read spells the bytes it was read from. */
  lemma {:induction false} PutReadEntries(m: seq<Byte>, at: nat)
    requires ReadEntries(m, at).Some?
    ensures AllFit(ReadEntries(m, at).value)
    ensures var es := ReadEntries(m, at).value;
      PutEntries(es) == m[at..at + |es| * ENTRY_BYTES]
    decreases |m| - at
  {
    hide GetEntry, PutEntry;
    var es := ReadEntries(m, at).value;
    if es != [] {
      PutReadEntries(m, at + ENTRY_BYTES);
      PutGetEntry(m, at);
      var end := at + |es| * ENTRY_BYTES;
      assert m[at..end] == m[at..at + ENTRY_BYTES] + m[at + ENTRY_BYTES..end];
    }
  }

  lemma {:induction false} PutEntriesConcat(a: seq<Entry>, b: seq<Entry>)
    requires AllFit(a) && AllFit(b)
    ensures AllFit(a + b) && PutEntries(a + b) == PutEntries(a) + PutEntries(b)
    decreases |a|
  {
    hide PutEntry;
    if a == [] {
      assert a + b == b;
    } else {
      var all, rest := a + b, a[1..];
      PutEntriesConcat(rest, b);
      assert all[0] == a[0] && all[1..] == rest + b;
      assert PutEntries(all) == PutEntry(a[0]) + PutEntries(rest + b);
    }
  }

  // ----- the blob

  /** The reservation block can be read to its terminator. */
  predicate Terminated(m: seq<Byte>) {
    |m| >= HEADER_BYTES && ReadEntries(m, Get32(m, OFF_RESERVE)).Some?
  }

  /** The reservations that a reader of the blob sees. */
  function Reservations(m: seq<Byte>): (es: seq<Entry>)
    requires Terminated(m)
    ensures AllFit(es)
  {
    ReadEntries(m, Get32(m, OFF_RESERVE)).value
  }

  /** Each block the header names lies in the blob, behind the header. */
  predicate Readable(m: seq<Byte>) {
    && Terminated(m)
    && Get32(m, OFF_RESERVE) >= HEADER_BYTES
    && Get32(m, OFF_STRUCT) + Get32(m, SIZE_STRUCT) <= |m|
    && Get32(m, OFF_STRINGS) + Get32(m, SIZE_STRINGS) <= |m|
  }

  /** The bytes of the output with a number of new reservations: what lies before the
      reservations, and the three blocks one behind the other, the strings 4-aligned. */
  function NewSize(m: seq<Byte>, count: nat): nat
    requires Readable(m)
  {
    AlignUp(Get32(m, OFF_RESERVE) + (|Reservations(m)| + count + 1) * ENTRY_BYTES + Get32(m, SIZE_STRUCT), 4)
      + Get32(m, SIZE_STRINGS)
  }

  /** The total size in the header has room for that. */
  predicate Roomy(m: seq<Byte>)
    requires Readable(m)
  {
    NewSize(m, 0) <= Get32(m, TOTAL_SIZE)
  }

  /** The blocks lie in the order header, reservations, structure, strings. */
  predicate InOrder(m: seq<Byte>) {
    && Readable(m)
    && Get32(m, OFF_RESERVE) + (|Reservations(m)| + 1) * ENTRY_BYTES <= Get32(m, OFF_STRUCT)
    && Get32(m, OFF_STRUCT) + Get32(m, SIZE_STRUCT) <= Get32(m, OFF_STRINGS)
    && Get32(m, OFF_STRINGS) + Get32(m, SIZE_STRINGS) <= Get32(m, TOTAL_SIZE) <= |m|
  }

  /** Blobs in order with 4-aligned strings are roomy. */
  lemma InOrderRoomy(m: seq<Byte>)
    requires InOrder(m) && Get32(m, OFF_STRINGS) % 4 == 0
    ensures Roomy(m)
  {
    hide Get32, ReadEntries;
    var end := Get32(m, OFF_RESERVE) + (|Reservations(m)| + 1) * ENTRY_BYTES + Get32(m, SIZE_STRUCT);
    AlignUpLeast(end, 4, Get32(m, OFF_STRINGS));
  }

  /** Whole entries move an aligned address by their size. */
  lemma AlignUpShift(x: nat, k: nat)
    ensures AlignUp(x + k * ENTRY_BYTES, 4) == AlignUp(x, 4) + k * ENTRY_BYTES
  {
    var r := k * ENTRY_BYTES;
    DivModUnique(x + r, 4, x / 4 + 4 * k, x % 4);
  }

  /** head: the header and whatever lies between it and the reservations. */
  datatype Parts = Parts(head: seq<Byte>, entries: seq<Entry>, structure: seq<Byte>, strings: seq<Byte>)

  /** What the parser's getters and `find_memory_reservation_block` see in a blob. */
  ghost function Parse(m: seq<Byte>): Parts
    requires Readable(m)
  {
    var offStruct, offStrings := Get32(m, OFF_STRUCT), Get32(m, OFF_STRINGS);
    Parts(m[..Get32(m, OFF_RESERVE)], Reservations(m),
          m[offStruct..offStruct + Get32(m, SIZE_STRUCT)], m[offStrings..offStrings + Get32(m, SIZE_STRINGS)])
  }

  function PutField(head: seq<Byte>, field: nat, x: nat): (r: seq<Byte>)
    requires field + 4 <= |head| && x < WORD
    ensures |r| == |head|
  {
    head[..field] + Put32(x) + head[field + 4..]
  }

  lemma PutFieldGet(head: seq<Byte>, field: nat, x: nat, other: nat)
    requires field + 4 <= |head| && x < WORD && other + 4 <= |head|
    ensures Get32(PutField(head, field, x), field) == x
    ensures other + 4 <= field || field + 4 <= other ==> Get32(PutField(head, field, x), other) == Get32(head, other)
  {
    var r := PutField(head, field, x);
    assert r[field..field + 4] == Put32(x);
    Get32Slice(r, field, Put32(x));
    Get32Put32(x);
    if other + 4 <= field || field + 4 <= other {
      assert r[other..other + 4] == head[other..other + 4];
      Get32Slice(r, other, head[other..other + 4]);
      Get32Slice(head, other, head[other..other + 4]);
    }
  }

  function StructAt(p: Parts): nat {
    |p.head| + (|p.entries| + 1) * ENTRY_BYTES
  }

  function StructEnd(p: Parts): nat {
    StructAt(p) + |p.structure|
  }

  function StringsAt(p: Parts): nat {
    AlignUp(StructEnd(p), 4)
  }

  function BuiltSize(p: Parts): nat {
    StringsAt(p) + |p.strings|
  }

  /** Parts that make up a blob: the header knows the sizes. */
  ghost predicate ValidParts(p: Parts) {
    && |p.head| >= HEADER_BYTES
    && Get32(p.head, OFF_RESERVE) == |p.head|
    && Get32(p.head, SIZE_STRUCT) == |p.structure| && Get32(p.head, SIZE_STRINGS) == |p.strings|
    && AllFit(p.entries)
  }

  /** Bytes that fill the gap in front of the strings. */
  ghost predicate Pads(p: Parts, pad: seq<Byte>) {
    StructEnd(p) + |pad| == StringsAt(p)
  }

  /** The three header fields that the generator writes, cut to 32 bits. */
  ghost function FixedHead(p: Parts): (r: seq<Byte>)
    requires ValidParts(p)
    ensures |r| == |p.head|
  {
    PutField(PutField(PutField(p.head, OFF_STRUCT, StructAt(p) % WORD), OFF_STRINGS, StringsAt(p) % WORD),
             TOTAL_SIZE, BuiltSize(p) % WORD)
  }

  /** Everything behind the head of a built blob. */
  ghost function Blocks(p: Parts, pad: seq<Byte>): (r: seq<Byte>)
    requires ValidParts(p) && Pads(p, pad)
    ensures |p.head| + |r| == BuiltSize(p)
  {
    assert AllFit(p.entries + [TERMINATOR]);
    PutEntries(p.entries + [TERMINATOR]) + p.structure + pad + p.strings
  }

  lemma BlocksOf(p: Parts, pad: seq<Byte>)
    requires ValidParts(p) && Pads(p, pad)
    ensures AllFit(p.entries + [TERMINATOR])
    ensures p.head + PutEntries(p.entries + [TERMINATOR]) + p.structure + pad + p.strings == p.head + Blocks(p, pad)
  {
  }

  /** The blob the generator produces from its parts, one block behind the other. */
  ghost function Build(p: Parts, pad: seq<Byte>): (r: seq<Byte>)
    requires ValidParts(p) && Pads(p, pad)
    ensures |r| == BuiltSize(p)
  {
    FixedHead(p) + Blocks(p, pad)
  }

  lemma FixedFields(p: Parts)
    requires ValidParts(p)
    ensures var h := FixedHead(p);
      && Get32(h, OFF_STRUCT) == StructAt(p) % WORD && Get32(h, OFF_STRINGS) == StringsAt(p) % WORD
      && Get32(h, TOTAL_SIZE) == BuiltSize(p) % WORD
    ensures forall f :: 0 <= f && f + 4 <= |p.head| && (f + 4 <= TOTAL_SIZE || OFF_STRINGS + 4 <= f) ==>
      Get32(FixedHead(p), f) == Get32(p.head, f)
  {
    hide Get32, PutField, StructAt, StringsAt, BuiltSize;
    var at, strings, size := StructAt(p) % WORD, StringsAt(p) % WORD, BuiltSize(p) % WORD;
    var h1 := PutField(p.head, OFF_STRUCT, at);
    var h2 := PutField(h1, OFF_STRINGS, strings);
    PutFieldGet(p.head, OFF_STRUCT, at, OFF_STRUCT);
    PutFieldGet(h1, OFF_STRINGS, strings, OFF_STRUCT);
    PutFieldGet(h2, TOTAL_SIZE, size, OFF_STRUCT);
    PutFieldGet(h2, TOTAL_SIZE, size, OFF_STRINGS);
    forall f | 0 <= f && f + 4 <= |p.head| && (f + 4 <= TOTAL_SIZE || OFF_STRINGS + 4 <= f)
      ensures Get32(FixedHead(p), f) == Get32(p.head, f)
    {
      PutFieldGet(p.head, OFF_STRUCT, at, f);
      PutFieldGet(h1, OFF_STRINGS, strings, f);
      PutFieldGet(h2, TOTAL_SIZE, size, f);
    }
  }

  /** Fields of the header are read through the blob. */
  lemma HeadField(p: Parts, pad: seq<Byte>, f: nat)
    requires ValidParts(p) && Pads(p, pad) && f + 4 <= |p.head|
    ensures Get32(Build(p, pad), f) == Get32(FixedHead(p), f)
  {
  }

  /** Where the parts of a built blob lie. */
  lemma BuiltSlices(p: Parts, pad: seq<Byte>)
    requires ValidParts(p) && Pads(p, pad)
    ensures var b := Build(p, pad);
      && AllFit(p.entries + [TERMINATOR])
      && b[..|p.head|] == FixedHead(p)
      && b[|p.head|..StructAt(p)] == PutEntries(p.entries + [TERMINATOR])
      && b[StructAt(p)..StructEnd(p)] == p.structure
      && b[StringsAt(p)..BuiltSize(p)] == p.strings
  {
    hide Get32, FixedHead, PutEntries, AlignUp;
  }

  /** Parsing what was built gives the parts back, the entries up to a terminator. */
  lemma ParseBuild(p: Parts, pad: seq<Byte>)
    requires ValidParts(p) && Pads(p, pad) && BuiltSize(p) < WORD
    ensures InOrder(Build(p, pad)) && Get32(Build(p, pad), OFF_STRINGS) == StringsAt(p)
    ensures Parse(Build(p, pad)) == p.(head := FixedHead(p), entries := Before(p.entries))
  {
    hide Get32, FixedHead, PutEntries, ReadEntries, Build, AlignUp;
    var b := Build(p, pad);
    FixedFields(p);
    HeadField(p, pad, OFF_RESERVE);
    HeadField(p, pad, OFF_STRUCT);
    HeadField(p, pad, OFF_STRINGS);
    HeadField(p, pad, TOTAL_SIZE);
    HeadField(p, pad, SIZE_STRUCT);
    HeadField(p, pad, SIZE_STRINGS);
    BuiltSlices(p, pad);
    ReadPutEntries(b, |p.head|, p.entries);
  }

  // ----- the layout in terms of bytes

  /** The number that bytes spell, most significant first. */
  function BigEndian(s: seq<Byte>): nat {
    if s == [] then 0 else 256 * BigEndian(s[..|s| - 1]) + s[|s| - 1]
  }

  lemma FourBytes(m: seq<Byte>, at: nat)
    requires at + 4 <= |m|
    ensures BigEndian(m[at..at + 4]) == Get32(m, at)
  {
    var s := m[at..at + 4];
    assert s[..3][..2] == s[..2] && s[..3][..2][..1] == s[..1] && s[..1][..0] == [];
    assert BigEndian(s[..1]) == s[0];
    assert BigEndian(s[..2]) == 256 * BigEndian(s[..1]) + s[1] by { assert s[..2][..1] == s[..1]; }
    assert BigEndian(s[..3]) == 256 * BigEndian(s[..2]) + s[2];
  }

  lemma {:induction false} BigEndianConcat(a: seq<Byte>, b: seq<Byte>)
    requires |b| == 4
    ensures BigEndian(a + b) == 0x1_0000_0000 * BigEndian(a) + BigEndian(b)
  {
    hide Get32;
    var s := a + b;
    assert s[..|s| - 1] == a + b[..3] && (a + b[..3])[..|a| + 2] == a + b[..2];
    assert (a + b[..2])[..|a| + 1] == a + b[..1] && (a + b[..1])[..|a|] == a;
    assert b[..3][..2] == b[..2] && b[..2][..1] == b[..1] && b[..1][..0] == [];
    assert BigEndian(a + b[..1]) == 256 * BigEndian(a) + b[0];
    assert BigEndian(a + b[..2]) == 256 * BigEndian(a + b[..1]) + b[1];
    assert BigEndian(a + b[..3]) == 256 * BigEndian(a + b[..2]) + b[2];
    assert BigEndian(b[..1]) == b[0] && BigEndian(b[..2]) == 256 * BigEndian(b[..1]) + b[1];
    assert BigEndian(b[..3]) == 256 * BigEndian(b[..2]) + b[2];
  }

  lemma EightBytes(m: seq<Byte>, at: nat)
    requires at + 8 <= |m|
    ensures BigEndian(m[at..at + 8]) == Get64(m, at)
  {
    hide Get32;
    assert m[at..at + 8] == m[at..at + 4] + m[at + 4..at + 8];
    BigEndianConcat(m[at..at + 4], m[at + 4..at + 8]);
    FourBytes(m, at);
    FourBytes(m, at + 4);
  }

  /** Entry i spells its address and then its size, eight bytes each; they are not both zero,
      and those behind the last entry are. */
  lemma {:induction false} EntriesInBytes(m: seq<Byte>, at: nat, i: nat)
    requires ReadEntries(m, at).Some? && i <= |ReadEntries(m, at).value|
    ensures var es, p := ReadEntries(m, at).value, at + 16 * i;
      && p + 16 <= |m|
      && (if i < |es| then
            && es[i].address == BigEndian(m[p..p + 8]) && es[i].size == BigEndian(m[p + 8..p + 16])
            && (es[i].address != 0 || es[i].size != 0)
          else BigEndian(m[p..p + 8]) == 0 && BigEndian(m[p + 8..p + 16]) == 0)
    decreases i
  {
    hide Get64, BigEndian;
    if i > 0 {
      EntriesInBytes(m, at + ENTRY_BYTES, i - 1);
    } else {
      EightBytes(m, at);
      EightBytes(m, at + 8);
    }
  }

  /** Where the header says that the blocks are. */
  lemma HeaderLayout(m: seq<Byte>)
    requires Readable(m)
    ensures var reserve, structure, strings := BigEndian(m[16..20]), BigEndian(m[8..12]), BigEndian(m[12..16]);
      var sizeStrings, sizeStruct := BigEndian(m[32..36]), BigEndian(m[36..40]);
      && reserve <= |m| && structure + sizeStruct <= |m| && strings + sizeStrings <= |m|
      && Parse(m).head == m[..reserve]
      && ReadEntries(m, reserve) == Some(Parse(m).entries)
      && Parse(m).structure == m[structure..structure + sizeStruct]
      && Parse(m).strings == m[strings..strings + sizeStrings]
    ensures forall count: nat :: RequiredSize(m, count) == BigEndian(m[4..8]) + 16 * count
  {
    hide Get32, ReadEntries, BigEndian;
    FourBytes(m, 4);
    FourBytes(m, 8);
    FourBytes(m, 12);
    FourBytes(m, 16);
    FourBytes(m, 32);
    FourBytes(m, 36);
  }

  // ----- make_dtb

  /** `get_required_size`. */
  function RequiredSize(m: seq<Byte>, count: nat): nat
    requires |m| >= HEADER_BYTES
  {
    Get32(m, TOTAL_SIZE) + count * ENTRY_BYTES
  }

  /** A blob whose blocks can be read, and 64-bit values to add. */
  ghost predicate Addable(m: seq<Byte>, adds: seq<Entry>) {
    Readable(m) && AllFit(adds)
  }

  ghost function NewParts(m: seq<Byte>, adds: seq<Entry>): (p: Parts)
    requires Addable(m, adds)
    ensures ValidParts(p) && BuiltSize(p) == NewSize(m, |adds|)
  {
    hide ReadEntries;
    var before := Parse(m);
    PartsHead(m);
    before.(entries := before.entries + adds)
  }

  lemma PartsHead(m: seq<Byte>)
    requires Readable(m)
    ensures forall f :: 0 <= f && f + 4 <= |Parse(m).head| ==> Get32(Parse(m).head, f) == Get32(m, f)
    ensures AllFit(Parse(m).entries) && TERMINATOR !in Parse(m).entries
  {
  }

  /** The output stays within the required size exactly when the blob is roomy. */
  lemma FitsExactly(m: seq<Byte>, count: nat)
    requires Readable(m)
    ensures NewSize(m, count) <= RequiredSize(m, count) <==> Roomy(m)
  {
    hide Get32, ReadEntries;
    var x := Get32(m, OFF_RESERVE) + (|Reservations(m)| + 1) * ENTRY_BYTES + Get32(m, SIZE_STRUCT);
    AlignUpShift(x, count);
    assert x + count * ENTRY_BYTES
        == Get32(m, OFF_RESERVE) + (|Reservations(m)| + count + 1) * ENTRY_BYTES + Get32(m, SIZE_STRUCT);
  }

  /** Bytes that go in front of the strings of the new blob. */
  ghost predicate Fills(m: seq<Byte>, adds: seq<Entry>, pad: seq<Byte>) {
    Addable(m, adds) && Pads(NewParts(m, adds), pad)
  }

  ghost function Rewrite(m: seq<Byte>, adds: seq<Entry>, pad: seq<Byte>): seq<Byte>
    requires Fills(m, adds, pad)
  {
    Build(NewParts(m, adds), pad)
  }

  /** Parsing the rewritten blob gives the old reservations followed by the new ones, all of
      them exactly when no new one looks like the terminator; the same structure and strings
      blocks; and a header changed in three fields only. The blob is no longer than the
      size that was asked for exactly when the old one is roomy. */
  lemma RewriteRoundTrip(m: seq<Byte>, adds: seq<Entry>, pad: seq<Byte>)
    requires Fills(m, adds, pad) && NewSize(m, |adds|) < WORD
    ensures var r := Rewrite(m, adds, pad);
      && InOrder(r) && Roomy(r) && Get32(r, TOTAL_SIZE) == |r| == NewSize(m, |adds|)
      && (|r| <= RequiredSize(m, |adds|) <==> Roomy(m))
      && Parse(r).entries == Parse(m).entries + Before(adds)
      && (Parse(r).entries == Parse(m).entries + adds <==> TERMINATOR !in adds)
      && Parse(r).structure == Parse(m).structure && Parse(r).strings == Parse(m).strings
      && |Parse(r).head| == |Parse(m).head|
      && (forall f :: 0 <= f && f + 4 <= |Parse(m).head| && (f == 0 || 16 <= f) ==>
            Get32(Parse(r).head, f) == Get32(m, f))
  {
    hide Get32, FixedHead, ReadEntries, PutEntries, NewSize;
    var p := NewParts(m, adds);
    ParseBuild(p, pad);
    FixedFields(p);
    PartsHead(m);
    HeadField(p, pad, TOTAL_SIZE);
    FitsExactly(m, |adds|);
    InOrderRoomy(Rewrite(m, adds, pad));
    BeforeConcat(Parse(m).entries, adds);
    BeforeWhole(adds);
    Cancel(Parse(m).entries, Before(adds), adds);
  }

  /** The blocks of the rewritten blob follow each other, the strings at the next multiple of
      four, with all reservations counted. */
  lemma RewriteLayout(m: seq<Byte>, adds: seq<Entry>, pad: seq<Byte>)
    requires Fills(m, adds, pad) && NewSize(m, |adds|) < WORD
    ensures var r, before := Rewrite(m, adds, pad), Parse(m);
      var structure, strings := BigEndian(r[8..12]), BigEndian(r[12..16]);
      && BigEndian(r[4..8]) == |r| && BigEndian(r[16..20]) == |before.head|
      && structure == |before.head| + 16 * (|before.entries| + |adds| + 1)
      && strings % 4 == 0 && structure + |before.structure| <= strings < structure + |before.structure| + 4
      && |r| == strings + |before.strings|
      && BigEndian(r[36..40]) == |before.structure| && BigEndian(r[32..36]) == |before.strings|
  {
    hide Get32, ReadEntries, BigEndian, NewSize, PutField, Blocks, PutEntries;
    var r, p := Rewrite(m, adds, pad), NewParts(m, adds);
    NewPartsOf(m, adds);
    FixedFields(p);
    BytesOfBuilt(p, pad, 4);
    BytesOfBuilt(p, pad, 8);
    BytesOfBuilt(p, pad, 12);
    BytesOfBuilt(p, pad, 16);
    BytesOfBuilt(p, pad, 32);
    BytesOfBuilt(p, pad, 36);
  }

  lemma BytesOfBuilt(p: Parts, pad: seq<Byte>, f: nat)
    requires ValidParts(p) && Pads(p, pad) && f + 4 <= |p.head|
    ensures BigEndian(Build(p, pad)[f..f + 4]) == Get32(FixedHead(p), f)
  {
    hide Get32, BigEndian, FixedHead, Blocks, AlignUp;
    HeadField(p, pad, f);
    FourBytes(Build(p, pad), f);
  }

  /** A blob with the right magic number whose blocks can all be read, and whose output is eight
      bytes longer than the size that is asked for: the total size, 60, stops short of the
      strings block. */
  lemma WritesPast()
    ensures exists m :: Readable(m) && !Roomy(m) && RequiredSize(m, 0) == 60 && NewSize(m, 0) == 68
  {
    hide Get32, GetEntry, ReadEntries;
    var m := Overfull();
    SmallWord(m, TOTAL_SIZE);
    SmallWord(m, OFF_STRUCT);
    SmallWord(m, OFF_STRINGS);
    SmallWord(m, OFF_RESERVE);
    SmallWord(m, SIZE_STRINGS);
    SmallWord(m, SIZE_STRUCT);
    NoEntries(m, 40);
    assert Readable(m);
  }

  lemma NoEntries(m: seq<Byte>, at: nat)
    requires at + ENTRY_BYTES <= |m| && forall i :: at <= i < at + ENTRY_BYTES ==> m[i] == 0
    ensures ReadEntries(m, at) == Some([])
  {
  }

  /** The header names one empty reservation block at 40, eight bytes of structure at 56 and
      four of strings at 64; its magic number and versions are those the parser accepts. */
  function Overfull(): (m: seq<Byte>)
    ensures |m| == 68 && forall i :: 0 <= i < 68 ==> m[i] == OverfullByte(i)
  {
    seq(68, i => OverfullByte(i))
  }

  /** A word whose upper bytes are zero. */
  lemma SmallWord(m: seq<Byte>, at: nat)
    requires at + 4 <= |m| && m[at] == 0 && m[at + 1] == 0 && m[at + 2] == 0
    ensures Get32(m, at) == m[at + 3]
  {
  }

  function OverfullByte(i: int): Byte {
    match i
    case 0 => 0xd0
    case 1 => 0x0d
    case 2 => 0xfe
    case 3 => 0xed
    case 7 => 60
    case 11 => 56
    case 15 => 64
    case 19 => 40
    case 23 => 17
    case 27 => 16
    case 35 => 4
    case 39 => 8
    case _ => 0
  }

  /** An addition that looks like the terminator hides itself and everything behind it. */
  lemma TerminatorHides(m: seq<Byte>, e: Entry, pad: seq<Byte>)
    requires Fills(m, [TERMINATOR, e], pad) && NewSize(m, 2) < WORD
    ensures Readable(Rewrite(m, [TERMINATOR, e], pad))
    ensures Parse(Rewrite(m, [TERMINATOR, e], pad)).entries == Parse(m).entries
  {
    hide Get32, ReadEntries, Rewrite, NewSize, NewParts;
    RewriteRoundTrip(m, [TERMINATOR, e], pad);
    assert Before([TERMINATOR, e]) == [];
  }

  lemma FixTwice(head: seq<Byte>, a: nat, b: nat, c: nat, a': nat, b': nat, c': nat)
    requires |head| >= HEADER_BYTES && a < WORD && b < WORD && c < WORD && a' < WORD && b' < WORD && c' < WORD
    ensures var once := PutField(PutField(PutField(head, OFF_STRUCT, a), OFF_STRINGS, b), TOTAL_SIZE, c);
      PutField(PutField(PutField(once, OFF_STRUCT, a'), OFF_STRINGS, b'), TOTAL_SIZE, c')
      == PutField(PutField(PutField(head, OFF_STRUCT, a'), OFF_STRINGS, b'), TOTAL_SIZE, c')
  {
    hide Put32, PutField;
    var once := PutField(PutField(PutField(head, OFF_STRUCT, a), OFF_STRINGS, b), TOTAL_SIZE, c);
    var r := PutField(PutField(PutField(once, OFF_STRUCT, a'), OFF_STRINGS, b'), TOTAL_SIZE, c');
    var s := PutField(PutField(PutField(head, OFF_STRUCT, a'), OFF_STRINGS, b'), TOTAL_SIZE, c');
    forall k | 0 <= k < |head| ensures r[k] == s[k] {
      FixedByte(once, a', b', c', k);
      FixedByte(head, a', b', c', k);
      FixedByte(head, a, b, c, k);
    }
  }

  lemma FixedByte(head: seq<Byte>, a: nat, b: nat, c: nat, k: nat)
    requires |head| >= HEADER_BYTES && a < WORD && b < WORD && c < WORD && k < |head|
    ensures PutField(PutField(PutField(head, OFF_STRUCT, a), OFF_STRINGS, b), TOTAL_SIZE, c)[k] ==
      if 4 <= k < 8 then Put32(c)[k - 4] else if 8 <= k < 12 then Put32(a)[k - 8]
      else if 12 <= k < 16 then Put32(b)[k - 12] else head[k]
  {
  }

  /** Rewriting with a and then with b is rewriting with a followed by b, exactly when
      nothing in a looks like the terminator. The bytes in front of the strings, which the
      generator does not write, are compared as they were found the second time. */
  lemma RewriteTwice(m: seq<Byte>, a: seq<Entry>, b: seq<Entry>, first: seq<Byte>, pad: seq<Byte>)
    requires Fills(m, a, first) && Fills(m, a + b, pad) && NewSize(m, |a| + |b|) < WORD
    ensures Fills(Rewrite(m, a, first), b, pad)
    ensures Rewrite(Rewrite(m, a, first), b, pad) == Rewrite(m, a + b, pad) <==> TERMINATOR !in a
  {
    FillsTwice(m, a, b, first, pad);
    if TERMINATOR !in a {
      RewriteTwiceSame(m, a, b, first, pad);
    } else {
      RewriteTwiceShorter(m, a, b, first, pad);
    }
  }

  /** The gap in front of the strings does not depend on the number of entries. */
  lemma SamePads(p: Parts, q: Parts, pad: seq<Byte>)
    requires |p.head| == |q.head| && |p.structure| == |q.structure|
    ensures Pads(p, pad) <==> Pads(q, pad)
  {
    hide AlignUp;
    var x := |p.head| + |p.structure|;
    AlignUpShift(x, |p.entries| + 1);
    AlignUpShift(x, |q.entries| + 1);
  }

  lemma SmallerFirst(m: seq<Byte>, a: nat, b: nat)
    requires Readable(m)
    ensures NewSize(m, a) + b * ENTRY_BYTES == NewSize(m, a + b)
  {
    hide Get32, ReadEntries, AlignUp;
    var x := Get32(m, OFF_RESERVE) + (|Reservations(m)| + a + 1) * ENTRY_BYTES + Get32(m, SIZE_STRUCT);
    AlignUpShift(x, b);
    assert x + b * ENTRY_BYTES
        == Get32(m, OFF_RESERVE) + (|Reservations(m)| + (a + b) + 1) * ENTRY_BYTES + Get32(m, SIZE_STRUCT);
  }

  lemma FillsTwice(m: seq<Byte>, a: seq<Entry>, b: seq<Entry>, first: seq<Byte>, pad: seq<Byte>)
    requires Fills(m, a, first) && Fills(m, a + b, pad) && NewSize(m, |a| + |b|) < WORD
    ensures Fills(Rewrite(m, a, first), b, pad) && NewSize(m, |a|) < WORD
  {
    hide Get32, ReadEntries, PutEntries, Rewrite, NewSize, Pads;
    SmallerFirst(m, |a|, |b|);
    RewriteRoundTrip(m, a, first);
    assert AllFit(b) by {
      assert forall i :: 0 <= i < |b| ==> b[i] == (a + b)[|a| + i];
    }
    SamePads(NewParts(Rewrite(m, a, first), b), NewParts(m, a + b), pad);
  }

  /** An entry that looks like the terminator cuts off what comes behind it. */
  lemma RewriteTwiceShorter(m: seq<Byte>, a: seq<Entry>, b: seq<Entry>, first: seq<Byte>, pad: seq<Byte>)
    requires Fills(m, a, first) && Fills(m, a + b, pad) && NewSize(m, |a| + |b|) < WORD
    requires Fills(Rewrite(m, a, first), b, pad) && TERMINATOR in a
    ensures |Rewrite(Rewrite(m, a, first), b, pad)| < |Rewrite(m, a + b, pad)|
  {
    hide Get32, ReadEntries, PutEntries, PutField, Build, AlignUp, FixedHead, NewSize;
    SmallerFirst(m, |a|, |b|);
    RewriteRoundTrip(m, a, first);
    BeforeWhole(a);
    var p, q := NewParts(Rewrite(m, a, first), b), NewParts(m, a + b);
    FewerEntries(p, q);
  }

  lemma FewerEntries(p: Parts, q: Parts)
    requires |p.head| == |q.head| && p.structure == q.structure && p.strings == q.strings
    requires |p.entries| < |q.entries|
    ensures BuiltSize(p) < BuiltSize(q)
  {
    hide AlignUp;
    var x := |p.head| + |p.structure|;
    AlignUpShift(x, |p.entries| + 1);
    AlignUpShift(x, |q.entries| + 1);
  }

  lemma RewriteTwiceSame(m: seq<Byte>, a: seq<Entry>, b: seq<Entry>, first: seq<Byte>, pad: seq<Byte>)
    requires Fills(m, a, first) && Fills(m, a + b, pad) && NewSize(m, |a| + |b|) < WORD
    requires Fills(Rewrite(m, a, first), b, pad) && TERMINATOR !in a
    ensures Rewrite(Rewrite(m, a, first), b, pad) == Rewrite(m, a + b, pad)
  {
    hide Get32, ReadEntries, PutEntries, PutField, AlignUp, NewSize;
    SmallerFirst(m, |a|, |b|);
    var p, q := NewParts(m, a), NewParts(m, a + b);
    RewriteRoundTrip(m, a, first);
    ParseBuild(p, first);
    var twice := NewParts(Rewrite(m, a, first), b);
    assert twice.entries == q.entries;
    FixTwice(p.head, StructAt(p) % WORD, StringsAt(p) % WORD, BuiltSize(p) % WORD,
             StructAt(q) % WORD, StringsAt(q) % WORD, BuiltSize(q) % WORD);
  }

  // ----- the loops

  lemma ReadStep(m: seq<Byte>, at: nat)
    requires ReadEntries(m, at).Some?
    ensures at + ENTRY_BYTES <= |m|
    ensures var es := ReadEntries(m, at).value;
      if GetEntry(m, at) == TERMINATOR then es == []
      else es != [] && es[0] == GetEntry(m, at) && ReadEntries(m, at + ENTRY_BYTES) == Some(es[1..])
  {
  }

  /** The callback is handed the reservations in order, up to the first one it breaks at. */
  method FindMemoryReservationBlock(m: seq<Byte>, stop: Entry -> bool) returns (seen: seq<Entry>)
    requires Terminated(m)
    ensures seen <= Reservations(m)
    ensures forall i :: 0 <= i < |seen| - 1 ==> !stop(seen[i])
    ensures |seen| < |Reservations(m)| ==> seen != [] && stop(seen[|seen| - 1])
  {
    hide Get32, GetEntry, ReadEntries;
    var ptr := Get32(m, OFF_RESERVE);
    ghost var es := Reservations(m);
    seen := [];
    while true
      invariant seen <= es && ReadEntries(m, ptr) == Some(es[|seen|..])
      invariant forall i :: 0 <= i < |seen| ==> !stop(seen[i])
      decreases |m| - ptr
    {
      ReadStep(m, ptr);
      var e := GetEntry(m, ptr);
      if e == TERMINATOR {
        return;
      }
      assert e == es[|seen|] && es[|seen|..][1..] == es[|seen| + 1..];
      seen := seen + [e];
      if stop(e) {
        return;
      }
      ptr := ptr + ENTRY_BYTES;
    }
  }

  /** A buffer of which the front has been written and the rest has not. */
  ghost predicate Filled(now: seq<Byte>, front: seq<Byte>, was: seq<Byte>) {
    |front| <= |was| && now == front + was[|front|..]
  }

  /** Copies bytes right behind the part already written. */
  method Append(dtb: array<Byte>, at: nat, bytes: seq<Byte>, ghost front: seq<Byte>, ghost was: seq<Byte>)
    requires Filled(dtb[..], front, was) && |front| == at && at + |bytes| <= |was|
    modifies dtb
    ensures Filled(dtb[..], front + bytes, was)
  {
    for i := 0 to |bytes|
      invariant dtb[..] == front + bytes[..i] + was[at + i..]
    {
      dtb[at + i] := bytes[i];
    }
  }

  /** The old reservations are copied to the place they had. */
  method CopyEntries(m: seq<Byte>, dtb: array<Byte>, ghost was: seq<Byte>) returns (at: nat)
    requires Readable(m) && Filled(dtb[..], Parse(m).head, was)
    requires |Parse(m).head| + |Parse(m).entries| * ENTRY_BYTES <= |was|
    modifies dtb
    ensures AllFit(Parse(m).entries)
    ensures at == |Parse(m).head| + |Parse(m).entries| * ENTRY_BYTES
    ensures Filled(dtb[..], Parse(m).head + PutEntries(Parse(m).entries), was)
  {
    hide Get32, GetEntry, PutEntries, ReadEntries;
    at := Get32(m, OFF_RESERVE);
    ghost var start, es := at, Parse(m).entries;
    ghost var done := 0;
    ReadStep(m, at);
    while GetEntry(m, at) != TERMINATOR
      invariant done <= |es| && at == start + done * ENTRY_BYTES
      invariant ReadEntries(m, at) == Some(es[done..]) && at + ENTRY_BYTES <= |m|
      invariant Filled(dtb[..], m[..at], was)
      decreases |m| - at
    {
      ReadStep(m, at);
      assert es[done..][1..] == es[done + 1..];
      Append(dtb, at, m[at..at + ENTRY_BYTES], m[..at], was);
      assert m[..at] + m[at..at + ENTRY_BYTES] == m[..at + ENTRY_BYTES];
      at := at + ENTRY_BYTES;
      done := done + 1;
      ReadStep(m, at);
    }
    ReadStep(m, at);
    PutReadEntries(m, start);
    assert m[..at] == m[..start] + m[start..at];
  }

  /** The new reservations and the terminator behind them. */
  method AppendEntries(dtb: array<Byte>, start: nat, adds: seq<Entry>, ghost front: seq<Byte>, ghost was: seq<Byte>)
      returns (at: nat)
    requires AllFit(adds) && Filled(dtb[..], front, was) && |front| == start
    requires start + (|adds| + 1) * ENTRY_BYTES <= |was|
    modifies dtb
    ensures at == start + (|adds| + 1) * ENTRY_BYTES
    ensures AllFit(adds + [TERMINATOR]) && Filled(dtb[..], front + PutEntries(adds + [TERMINATOR]), was)
  {
    hide PutEntry;
    at := start;
    var all := adds + [TERMINATOR];
    for i := 0 to |all|
      invariant at == start + i * ENTRY_BYTES
      invariant Filled(dtb[..], front + PutEntries(all[..i]), was)
    {
      Append(dtb, at, PutEntry(all[i]), front + PutEntries(all[..i]), was);
      PutEntriesConcat(all[..i], [all[i]]);
      assert all[..i] + [all[i]] == all[..i + 1];
      assert PutEntries([all[i]]) == PutEntry(all[i]);
      assert front + PutEntries(all[..i]) + PutEntry(all[i]) == front + PutEntries(all[..i + 1]);
      at := at + ENTRY_BYTES;
    }
    assert all[..|all|] == all;
  }

  method WriteField(dtb: array<Byte>, field: nat, x: nat, ghost head: seq<Byte>, ghost rest: seq<Byte>)
    requires field + 4 <= |head| && x < WORD && dtb[..] == head + rest
    modifies dtb
    ensures dtb[..] == PutField(head, field, x) + rest
  {
    hide Put32;
    var bytes := Put32(x);
    dtb[field], dtb[field + 1], dtb[field + 2], dtb[field + 3] := bytes[0], bytes[1], bytes[2], bytes[3];
  }

  /** The parts of the new blob in terms of the old one. */
  lemma NewPartsOf(m: seq<Byte>, adds: seq<Entry>)
    requires Addable(m, adds)
    ensures var p, before := NewParts(m, adds), Parse(m);
      && p.head == before.head == m[..Get32(m, OFF_RESERVE)] && p.entries == before.entries + adds
      && Get32(m, SIZE_STRUCT) == |p.structure| && Get32(m, SIZE_STRINGS) == |p.strings|
      && p.structure == m[Get32(m, OFF_STRUCT)..Get32(m, OFF_STRUCT) + |p.structure|]
      && p.strings == m[Get32(m, OFF_STRINGS)..Get32(m, OFF_STRINGS) + |p.strings|]
      && StructAt(p) == |p.head| + |before.entries| * ENTRY_BYTES + (|adds| + 1) * ENTRY_BYTES
      && StructAt(p) + |p.structure| == StructEnd(p) <= StringsAt(p)
      && StringsAt(p) + |p.strings| == BuiltSize(p) == NewSize(m, |adds|)
  {
    hide Get32, ReadEntries;
  }

  /** The bytes of the buffer that are in the gap in front of the strings. */
  ghost function PadOf(p: Parts, was: seq<Byte>): (pad: seq<Byte>)
    requires BuiltSize(p) <= |was|
    ensures Pads(p, pad)
  {
    was[StructEnd(p)..StringsAt(p)]
  }

  /** The reservation block of the new blob, behind the copied head. */
  method WriteReservations(m: seq<Byte>, adds: seq<Entry>, dtb: array<Byte>, ghost was: seq<Byte>) returns (at: nat)
    requires Addable(m, adds) && dtb[..] == was && |was| >= NewSize(m, |adds|)
    modifies dtb
    ensures var p := NewParts(m, adds);
      && at == StructAt(p) && AllFit(p.entries + [TERMINATOR])
      && Filled(dtb[..], p.head + PutEntries(p.entries + [TERMINATOR]), was)
  {
    hide Get32, ReadEntries, PutEntries, NewParts, Filled, Parse, NewSize, AlignUp;
    ghost var before, p := Parse(m), NewParts(m, adds);
    NewPartsOf(m, adds);
    FilledNone(was);
    Append(dtb, 0, m[..Get32(m, OFF_RESERVE)], [], was);
    assert [] + before.head == before.head;
    at := CopyEntries(m, dtb, was);
    ghost var front := before.head + PutEntries(before.entries);
    at := AppendEntries(dtb, at, adds, front, was);
    PutEntriesConcat(before.entries, adds + [TERMINATOR]);
    assert before.entries + (adds + [TERMINATOR]) == p.entries + [TERMINATOR];
    assert front + PutEntries(adds + [TERMINATOR]) == p.head + PutEntries(p.entries + [TERMINATOR]);
  }

  lemma FilledNone(was: seq<Byte>)
    ensures Filled(was, [], was)
  {
  }

  /** What is left alone behind the front can be counted to it. */
  lemma FilledMore(now: seq<Byte>, front: seq<Byte>, to: nat, was: seq<Byte>)
    requires Filled(now, front, was) && |front| <= to <= |was|
    ensures Filled(now, front + was[|front|..to], was)
  {
  }

  /** The structure block, and where the strings go: at the next multiple of four. */
  method WriteStructure(m: seq<Byte>, adds: seq<Entry>, dtb: array<Byte>, ghost was: seq<Byte>)
      returns (structAt: nat, stringsAt: nat)
    requires Addable(m, adds) && dtb[..] == was && |was| >= NewSize(m, |adds|)
    modifies dtb
    ensures var p := NewParts(m, adds);
      && structAt == StructAt(p) && stringsAt == StringsAt(p) && AllFit(p.entries + [TERMINATOR])
      && Filled(dtb[..], p.head + PutEntries(p.entries + [TERMINATOR]) + p.structure + PadOf(p, was), was)
  {
    hide Get32, ReadEntries, PutEntries, NewParts, Filled, Parse, NewSize, AlignUp, Blocks;
    ghost var p := NewParts(m, adds);
    NewPartsOf(m, adds);
    structAt := WriteReservations(m, adds, dtb, was);
    ghost var front := p.head + PutEntries(p.entries + [TERMINATOR]);
    var from, size := Get32(m, OFF_STRUCT), Get32(m, SIZE_STRUCT);
    Append(dtb, structAt, m[from..from + size], front, was);
    stringsAt := AlignUp(structAt + size, 4);
    FilledMore(dtb[..], front + p.structure, stringsAt, was);
  }

  /** The structure and strings blocks. */
  method WriteBlocks(m: seq<Byte>, adds: seq<Entry>, dtb: array<Byte>, ghost was: seq<Byte>)
      returns (structAt: nat, stringsAt: nat)
    requires Addable(m, adds) && dtb[..] == was && |was| >= NewSize(m, |adds|)
    modifies dtb
    ensures var p := NewParts(m, adds);
      && structAt == StructAt(p) && stringsAt == StringsAt(p)
      && Filled(dtb[..], p.head + Blocks(p, PadOf(p, was)), was)
  {
    hide Get32, ReadEntries, PutEntries, NewParts, Filled, Parse, NewSize, Blocks, AlignUp;
    ghost var p := NewParts(m, adds);
    NewPartsOf(m, adds);
    structAt, stringsAt := WriteStructure(m, adds, dtb, was);
    var from, size := Get32(m, OFF_STRINGS), Get32(m, SIZE_STRINGS);
    ghost var front := p.head + PutEntries(p.entries + [TERMINATOR]) + p.structure + PadOf(p, was);
    Append(dtb, stringsAt, m[from..from + size], front, was);
    BlocksOf(p, PadOf(p, was));
  }

  /** How `make_dtb` ends. Overrun: it writes past the end of the buffer. */
  datatype Made = TooShort | Overrun | Written

  /** `make_dtb` reports an error exactly when the buffer is shorter than `get_required_size`, and
      then leaves it alone. It runs over the end of a buffer that is long enough for that but
      not for the output. Otherwise it writes the rewritten blob, leaves the gap in front of
      the strings as it was, and writes nothing behind the blob. */
  method MakeDtb(m: seq<Byte>, adds: seq<Entry>, dtb: array<Byte>) returns (r: Made)
    requires Addable(m, adds)
    modifies dtb
    ensures r.TooShort? <==> dtb.Length < RequiredSize(m, |adds|)
    ensures r.Overrun? <==> RequiredSize(m, |adds|) <= dtb.Length < NewSize(m, |adds|)
    ensures r.Written? ==>
      Filled(dtb[..], Rewrite(m, adds, PadOf(NewParts(m, adds), old(dtb[..]))), old(dtb[..]))
    ensures r.TooShort? ==> dtb[..] == old(dtb[..])
  {
    hide Get32, ReadEntries, NewParts, Filled, Parse, Build, Blocks, NewSize, AlignUp;
    if dtb.Length < RequiredSize(m, |adds|) {
      return TooShort;
    }
    if dtb.Length < NewSize(m, |adds|) {
      return Overrun;
    }
    ghost var was, p := dtb[..], NewParts(m, adds);
    var structAt, stringsAt := WriteBlocks(m, adds, dtb, was);
    NewPartsOf(m, adds);
    WriteHeader(dtb, structAt, stringsAt, stringsAt + Get32(m, SIZE_STRINGS), p, PadOf(p, was), was);
    return Written;
  }

  /** The three header fields, written last. */
  method WriteHeader(dtb: array<Byte>, structAt: nat, stringsAt: nat, total: nat,
                     ghost p: Parts, ghost pad: seq<Byte>, ghost was: seq<Byte>)
    requires ValidParts(p) && Pads(p, pad)
    requires structAt == StructAt(p) && stringsAt == StringsAt(p) && total == BuiltSize(p)
    requires Filled(dtb[..], p.head + Blocks(p, pad), was)
    modifies dtb
    ensures Filled(dtb[..], Build(p, pad), was)
  {
    hide Get32, Blocks, PutField, StructAt, StringsAt, BuiltSize;
    ghost var rest := Blocks(p, pad) + was[BuiltSize(p)..];
    assert dtb[..] == p.head + rest;
    WriteField(dtb, OFF_STRUCT, structAt % WORD, p.head, rest);
    ghost var h1 := PutField(p.head, OFF_STRUCT, structAt % WORD);
    WriteField(dtb, OFF_STRINGS, stringsAt % WORD, h1, rest);
    ghost var h2 := PutField(h1, OFF_STRINGS, stringsAt % WORD);
    WriteField(dtb, TOTAL_SIZE, total % WORD, h2, rest);
  }
}
