/** Trees written out as a structure block (section 5.4 of the Devicetree Specification v0.4),
    and what skipping and walking make of them. */
module DeviceTreeSerial {
  import opened Arithmetic
  import opened Options
  import opened ByteWords
  import opened DeviceTreeWalk

  /** A node and what is inside it, in order. */
  datatype Tree = Node(name: seq<Byte>, parts: seq<Tree>) | Property(nameOffset: nat, value: seq<Byte>) | Filler

  // ----- the serializer

  /** A 32-bit number, most significant byte first. */
  function Number(x: nat): (r: seq<Byte>)
    requires x < 0x1_0000_0000
    ensures |r| == 4
  {
    [x / 16777216, x / 65536 % 256, x / 256 % 256, x % 256]
  }

  /** Zero bytes that fill up n bytes to a multiple of four. */
  function Padding(n: nat): (r: seq<Byte>)
    ensures (n + |r|) % 4 == 0 && |r| < 4
  {
    seq((4 - n % 4) % 4, _ => 0)
  }

  /** Names have no zero bytes and numbers have 32 bits. */
  predicate Writable(t: Tree)
    decreases t, 1
  {
    match t
    case Node(name, parts) => 0 !in name && WritableParts(parts)
    case Property(offset, value) => offset < 0x1_0000_0000 && |value| < 0x1_0000_0000
    case Filler => true
  }

  predicate WritableParts(parts: seq<Tree>)
    decreases parts, 0
  {
    parts == [] || (Writable(parts[0]) && WritableParts(parts[1..]))
  }

  /** The begin token, the name with its terminator, and padding. */
  function Head(name: seq<Byte>): (r: seq<Byte>)
    ensures |r| >= 4 && |r| == 5 + |name| + |Padding(|name| + 1)|
  {
    [0, 0, 0, 1] + name + [0] + Padding(|name| + 1)
  }

  function Serialize(t: Tree): (r: seq<Byte>)
    requires Writable(t)
    ensures |r| >= 4
    decreases t, 1
  {
    match t
    case Node(name, parts) => Head(name) + SerializeParts(parts) + [0, 0, 0, 2]
    case Property(offset, value) => Record(offset, value)
    case Filler => [0, 0, 0, 4]
  }

  function SerializeParts(parts: seq<Tree>): seq<Byte>
    requires WritableParts(parts)
    decreases parts, 0
  {
    if parts == [] then [] else Serialize(parts[0]) + SerializeParts(parts[1..])
  }

  /** A property record: the token, the length, the offset of the name, and the padded value. */
  function Record(offset: nat, value: seq<Byte>): (r: seq<Byte>)
    requires offset < 0x1_0000_0000 && |value| < 0x1_0000_0000
    ensures |r| == 12 + |value| + |Padding(|value|)|
  {
    [0, 0, 0, 3] + Number(|value|) + Number(offset) + value + Padding(|value|)
  }

  // ----- what is read from it

  /** The bytes stand in the blob at a position. */
  ghost predicate Stands(m: seq<Byte>, p: nat, s: seq<Byte>) {
    p + |s| <= |m| && m[p..p + |s|] == s
  }

  lemma StandsConcat(m: seq<Byte>, p: nat, a: seq<Byte>, b: seq<Byte>)
    requires Stands(m, p, a + b)
    ensures Stands(m, p, a) && Stands(m, p + |a|, b)
  {
    var s := m[p..p + |a + b|];
    assert s[..|a|] == a && s[|a|..] == b;
    assert m[p..p + |a|] == s[..|a|];
    assert m[p + |a|..p + |a| + |b|] == s[|a|..];
  }

  /** The four tokens. */
  lemma TokenStands(d: Doc, p: nat, x: Byte)
    requires Stands(d.m, p, [0, 0, 0, x]) && 1 <= x <= 4
    ensures TokenAt(d, p) ==
      if x == 1 then BeginNode else if x == 2 then EndNode else if x == 3 then Prop else Nop
  {
    var s := d.m[p..p + 4];
    assert s[3] == d.m[p + 3];
    assert d.m[p..p + 3] == s[..3] == [0, 0, 0];
  }

  /** Every other word, and every word that reaches past the blob, is no token. */
  lemma NoOtherToken(d: Doc, p: nat)
    ensures TokenAt(d, p) != Other ==> exists x: Byte :: 1 <= x <= 4 && Stands(d.m, p, [0, 0, 0, x])
  {
    if TokenAt(d, p) != Other {
      var x := d.m[p + 3];
      assert d.m[p..p + 4] == d.m[p..p + 3] + [x];
      assert Stands(d.m, p, [0, 0, 0, x]);
    }
  }

  /** A name without a terminator in the blob, or that is not text, cannot be read. */
  lemma {:induction false} NoName(d: Doc, p: nat)
    ensures NameLength(d, p).None? <==> forall i :: p <= i < |d.m| ==> d.m[i] != 0
    ensures NameLength(d, p).Some? ==>
      var n := NameLength(d, p).value;
      d.m[p + n] == 0 && forall i :: p <= i < p + n ==> d.m[i] != 0
    decreases |d.m| - p
  {
    if p < |d.m| && d.m[p] != 0 {
      NoName(d, p + 1);
    }
  }

  lemma NotText(d: Doc, p: nat, n: nat)
    requires NameLength(d, p + 4) == Some(n)
    ensures AfterName(d, p).Some? <==> d.text(d.m[p + 4..p + 4 + n])
  {
  }

  lemma {:induction false} NameStands(d: Doc, p: nat, name: seq<Byte>)
    requires Stands(d.m, p, name + [0]) && 0 !in name
    ensures NameLength(d, p) == Some(|name|)
    decreases |name|
  {
    var s := d.m[p..p + |name| + 1];
    assert s == name + [0];
    assert d.m[p] == s[0];
    if name != [] {
      assert name[0] in name;
      assert name + [0] == [name[0]] + (name[1..] + [0]);
      StandsConcat(d.m, p, [name[0]], name[1..] + [0]);
      NameStands(d, p + 1, name[1..]);
    }
  }

  lemma PaddedLength(n: nat)
    ensures AlignUp(n, 4) == n + |Padding(n)|
  {
  }

  lemma HeadStands(d: Doc, p: nat, name: seq<Byte>)
    requires Stands(d.m, p, Head(name)) && 0 !in name && d.text(name)
    ensures TokenAt(d, p) == BeginNode && AfterName(d, p) == Some(p + |Head(name)|)
  {
    hide Padding, AlignUp, NameLength, TokenAt;
    var n := |name|;
    var pad := Padding(n + 1);
    assert Head(name) == [0, 0, 0, 1] + (name + [0] + pad);
    StandsConcat(d.m, p, [0, 0, 0, 1], name + [0] + pad);
    StandsConcat(d.m, p + 4, name + [0], pad);
    assert name + [0] + pad == name + ([0] + pad);
    StandsConcat(d.m, p + 4, name, [0] + pad);
    TokenStands(d, p, 1);
    NameStands(d, p + 4, name);
    PaddedLength(n + 1);
  }

  lemma NumberStands(m: seq<Byte>, p: nat, x: nat)
    requires x < 0x1_0000_0000 && Stands(m, p, Number(x))
    ensures Get32(m, p) == x
  {
    var s := m[p..p + 4];
    assert s[0] == m[p] && s[1] == m[p + 1] && s[2] == m[p + 2] && s[3] == m[p + 3];
    var a, b := x / 256, x / 65536;
    assert x == 256 * a + x % 256;
    assert a / 256 == b && b / 256 == x / 16777216;
    assert a == 256 * b + a % 256;
    assert b == 256 * (b / 256) + b % 256;
  }

  lemma RecordStands(d: Doc, p: nat, offset: nat, value: seq<Byte>)
    requires offset < 0x1_0000_0000 && |value| < 0x1_0000_0000 && Stands(d.m, p, Record(offset, value))
    ensures TokenAt(d, p) == Prop && AfterProp(d, p) == Some(p + |Record(offset, value)|)
  {
    hide Padding, AlignUp, Number, TokenAt, Get32;
    var rest := Number(offset) + value + Padding(|value|);
    assert Record(offset, value) == [0, 0, 0, 3] + (Number(|value|) + rest);
    StandsConcat(d.m, p, [0, 0, 0, 3], Number(|value|) + rest);
    StandsConcat(d.m, p + 4, Number(|value|), rest);
    TokenStands(d, p, 3);
    NumberStands(d.m, p + 4, |value|);
    PaddedLength(|value|);
  }

  // ----- the tree with its positions

  function Placed(t: Tree, p: nat): (r: Item)
    requires Writable(t)
    ensures t.Node? <==> r.ANode?
    ensures r.ANode? ==> r.at == p && r.end == p + |Serialize(t)|
    decreases t, 1
  {
    match t
    case Node(name, parts) => ANode(p, p + |Serialize(t)|, PlacedParts(parts, p + |Head(name)|))
    case Property(_, _) => AProp(p)
    case Filler => ANop
  }

  function PlacedParts(parts: seq<Tree>, p: nat): (r: seq<Item>)
    requires WritableParts(parts)
    ensures |r| == |parts|
    decreases parts, 0
  {
    if parts == [] then [] else [Placed(parts[0], p)] + PlacedParts(parts[1..], p + |Serialize(parts[0])|)
  }

  lemma PlacedTail(parts: seq<Tree>, p: nat)
    requires WritableParts(parts) && parts != []
    ensures PlacedParts(parts, p)[0] == Placed(parts[0], p)
    ensures PlacedParts(parts, p)[1..] == PlacedParts(parts[1..], p + |Serialize(parts[0])|)
  {
    hide Placed, Serialize;
  }

  /** All names in the tree are readable text. */
  predicate Texts(d: Doc, t: Tree)
    decreases t, 1
  {
    t.Node? ==> d.text(t.name) && TextsIn(d, t.parts)
  }

  predicate TextsIn(d: Doc, parts: seq<Tree>)
    decreases parts, 0
  {
    parts == [] || (Texts(d, parts[0]) && TextsIn(d, parts[1..]))
  }

  /** A node stands in the blob, with readable names. */
  ghost predicate Written(d: Doc, t: Tree, p: nat) {
    t.Node? && Writable(t) && Texts(d, t) && Stands(d.m, p, Serialize(t))
  }

  /** What the serializer writes is what the walk's tree spells. */
  lemma {:induction false} SpelledNode(d: Doc, t: Tree, p: nat)
    requires Written(d, t, p)
    ensures Spells(d, Placed(t, p))
    decreases t, 1
  {
    hide TokenAt, AfterName, AfterProp, Head, Stands, SpellsItems, PlacedParts, SerializeParts, Serialize;
    NodeStands(d, t, p);
    SpelledParts(d, t.parts, p + |Head(t.name)|);
  }

  /** The three pieces of a node. */
  lemma NodeStands(d: Doc, t: Tree, p: nat)
    requires Written(d, t, p)
    ensures WritableParts(t.parts) && TextsIn(d, t.parts)
    ensures var q := p + |Head(t.name)|;
      && TokenAt(d, p) == BeginNode && AfterName(d, p) == Some(q)
      && Stands(d.m, q, SerializeParts(t.parts))
      && |Serialize(t)| == |Head(t.name)| + |SerializeParts(t.parts)| + 4
      && TokenAt(d, q + |SerializeParts(t.parts)|) == EndNode
  {
    hide TokenAt, AfterName, Head, Stands, SerializeParts, TextsIn, WritableParts;
    var head, body, end := Head(t.name), SerializeParts(t.parts), [0, 0, 0, 2];
    assert Serialize(t) == head + (body + end);
    StandsConcat(d.m, p, head, body + end);
    StandsConcat(d.m, p + |head|, body, end);
    HeadStands(d, p, t.name);
    TokenStands(d, p + |head| + |body|, 2);
  }

  lemma {:induction false} SpelledParts(d: Doc, parts: seq<Tree>, p: nat)
    requires WritableParts(parts) && TextsIn(d, parts) && Stands(d.m, p, SerializeParts(parts))
    ensures SpellsItems(d, p, PlacedParts(parts, p), p + |SerializeParts(parts)|)
    decreases parts, 0
  {
    hide TokenAt, AfterName, AfterProp, Record, Stands, Spells, PlacedParts, Head;
    if parts != [] {
      var one := Serialize(parts[0]);
      StandsConcat(d.m, p, one, SerializeParts(parts[1..]));
      SpelledParts(d, parts[1..], p + |one|);
      PlacedTail(parts, p);
      match parts[0]
      case Node(_, _) => SpelledNode(d, parts[0], p);
      case Property(offset, value) => RecordStands(d, p, offset, value);
      case Filler => TokenStands(d, p, 4);
    } else {
      NothingPlaced(p);
    }
  }

  lemma NothingPlaced(p: nat)
    ensures PlacedParts([], p) == []
  {
  }

  /** Skipping a serialized tree ends exactly behind its bytes. */
  lemma SkipsSerialized(d: Doc, t: Tree, p: nat)
    requires Written(d, t, p)
    ensures SkipNode(d, p) == Some(p + |Serialize(t)|)
  {
    SpelledNode(d, t, p);
    SkipConsumes(d, Placed(t, p));
  }

  // ----- what a walk reports

  /** The positions of the properties in front of the first child. */
  function PropertiesAt(parts: seq<Tree>, p: nat): seq<nat>
    requires WritableParts(parts)
  {
    if parts == [] || parts[0].Node? then []
    else (if parts[0].Property? then [p] else []) + PropertiesAt(parts[1..], p + |Serialize(parts[0])|)
  }

  /** Some property in front of the children was found. */
  ghost predicate Matches(d: Doc, ps: seq<nat>) {
    exists i :: 0 <= i < |ps| && d.onProp(ps[i]).Parsed? && d.onProp(ps[i]).matched
  }

  /** The depth limit is the last property's. */
  function LimitOf(d: Doc, ps: seq<nat>, depth: Option<nat>): Option<nat> {
    if ps == [] then depth
    else match d.onProp(ps[|ps| - 1])
      case PropFails => depth
      case Parsed(_, limit) => limit
  }

  /** The nodes that match, each before those inside it, down to the depth limit. */
  ghost function Reports(d: Doc, t: Tree, p: nat, depth: Option<nat>): seq<nat>
    requires t.Node? && Writable(t)
    decreases t, 1
  {
    var ps := PropertiesAt(t.parts, p + |Head(t.name)|);
    (if Matches(d, ps) then [p] else []) + ReportsIn(d, t.parts, p + |Head(t.name)|, LimitOf(d, ps, depth))
  }

  ghost function ReportsIn(d: Doc, parts: seq<Tree>, p: nat, limit: Option<nat>): seq<nat>
    requires WritableParts(parts)
    decreases parts, 0
  {
    if parts == [] then []
    else
      (if !parts[0].Node? then []
       else match limit
         case None => Reports(d, parts[0], p, None)
         case Some(n) => if n == 0 then [] else Reports(d, parts[0], p, Some(n - 1)))
      + ReportsIn(d, parts[1..], p + |Serialize(parts[0])|, limit)
  }

  /** The properties in front of the children, of this node and of all nodes the walk visits, are
      accepted by the callback. */
  ghost predicate Parses(d: Doc, t: Tree, p: nat, depth: Option<nat>)
    requires t.Node? && Writable(t)
    decreases t, 1
  {
    var ps := PropertiesAt(t.parts, p + |Head(t.name)|);
    && Accepted(d, ps)
    && ParsesIn(d, t.parts, p + |Head(t.name)|, LimitOf(d, ps, depth))
  }

  ghost predicate ParsesIn(d: Doc, parts: seq<Tree>, p: nat, limit: Option<nat>)
    requires WritableParts(parts)
    decreases parts, 0
  {
    parts == [] ||
    ((parts[0].Node? && limit != Some(0) ==> Parses(d, parts[0], p, Deeper(limit)))
     && ParsesIn(d, parts[1..], p + |Serialize(parts[0])|, limit))
  }

  lemma PropertiesTail(parts: seq<Tree>, p: nat)
    requires WritableParts(parts)
    ensures var ps := PropertiesAt(parts, p);
      if parts == [] || parts[0].Node? then ps == []
      else
        var rest := PropertiesAt(parts[1..], p + |Serialize(parts[0])|);
        if parts[0].Property? then ps == [p] + rest else ps == rest
  {
  }

  /** All these properties are accepted. */
  ghost predicate Accepted(d: Doc, ps: seq<nat>) {
    forall i :: 0 <= i < |ps| ==> d.onProp(ps[i]).Parsed?
  }

  lemma AcceptedFirst(d: Doc, p: nat, rest: seq<nat>)
    ensures Accepted(d, [p] + rest) <==> d.onProp(p).Parsed? && Accepted(d, rest)
  {
    var ps := [p] + rest;
    assert ps[0] == p && forall i :: 0 <= i < |rest| ==> rest[i] == ps[i + 1];
  }

  lemma LimitFirst(d: Doc, p: nat, rest: seq<nat>, depth: Option<nat>)
    requires Accepted(d, [p] + rest) && d.onProp(p).Parsed?
    ensures LimitOf(d, [p] + rest, depth) == LimitOf(d, rest, d.onProp(p).depth)
  {
    assert rest != [] ==> ([p] + rest)[|rest|] == rest[|rest| - 1];
    assert forall i :: 0 <= i < |rest| ==> rest[i] == ([p] + rest)[i + 1];
  }

  /** Folding over the leading properties finds a match if there is one, and the last limit. */
  lemma {:induction false} FoldIs(d: Doc, parts: seq<Tree>, p: nat, depth: Option<nat>, matched: bool)
    requires WritableParts(parts) && Accepted(d, PropertiesAt(parts, p))
    ensures FoldProps(d, PlacedParts(parts, p), depth, matched) ==
      (LimitOf(d, PropertiesAt(parts, p), depth), matched || Matches(d, PropertiesAt(parts, p)))
    decreases parts
  {
    hide Serialize, PlacedParts, Matches, PropertiesAt, LimitOf, Accepted;
    PropertiesTail(parts, p);
    NothingMatches(d, depth);
    if parts == [] {
      NothingPlaced(p);
    } else {
      PlacedTail(parts, p);
      var q := p + |Serialize(parts[0])|;
      var rest := PropertiesAt(parts[1..], q);
      if parts[0].Property? {
        AcceptedFirst(d, p, rest);
        LimitFirst(d, p, rest, depth);
        MatchesFirst(d, p, rest);
        FoldIs(d, parts[1..], q, d.onProp(p).depth, matched || d.onProp(p).matched);
      } else if parts[0].Filler? {
        FoldIs(d, parts[1..], q, depth, matched);
      }
    }
  }

  lemma NothingMatches(d: Doc, depth: Option<nat>)
    ensures !Matches(d, []) && LimitOf(d, [], depth) == depth
  {
  }

  lemma MatchesFirst(d: Doc, p: nat, rest: seq<nat>)
    requires d.onProp(p).Parsed?
    ensures Matches(d, [p] + rest) <==> d.onProp(p).matched || Matches(d, rest)
  {
    var ps := [p] + rest;
    assert ps[0] == p;
    if Matches(d, rest) {
      var i :| 0 <= i < |rest| && d.onProp(rest[i]).Parsed? && d.onProp(rest[i]).matched;
      assert ps[i + 1] == rest[i];
    }
    if Matches(d, ps) {
      var i :| 0 <= i < |ps| && d.onProp(ps[i]).Parsed? && d.onProp(ps[i]).matched;
      assert i > 0 ==> ps[i] == rest[i - 1];
    }
  }

  lemma {:induction false} ReportsArePreorder(d: Doc, t: Tree, p: nat, depth: Option<nat>)
    requires t.Node? && Writable(t) && Parses(d, t, p, depth)
    ensures Preorder(d, Placed(t, p), depth) == Reports(d, t, p, depth)
    decreases t, 1
  {
    hide Serialize, Head, PropertiesAt, Matches, LimitOf, FoldProps, PlacedParts, ReportsIn, ParsesIn, PreorderItems;
    FoldIs(d, t.parts, p + |Head(t.name)|, depth, false);
    var ps := PropertiesAt(t.parts, p + |Head(t.name)|);
    ReportsInPreorder(d, t.parts, p + |Head(t.name)|, LimitOf(d, ps, depth));
  }

  lemma {:induction false} ReportsInPreorder(d: Doc, parts: seq<Tree>, p: nat, limit: Option<nat>)
    requires WritableParts(parts) && ParsesIn(d, parts, p, limit)
    ensures PreorderItems(d, PlacedParts(parts, p), limit) == ReportsIn(d, parts, p, limit)
    decreases parts, 0
  {
    hide Serialize, Placed, PlacedParts, Reports, Preorder, Parses;
    if parts == [] {
      NothingPlaced(p);
    } else {
      PlacedTail(parts, p);
      if parts[0].Node? && limit != Some(0) {
        ReportsArePreorder(d, parts[0], p, Deeper(limit));
      }
      ReportsInPreorder(d, parts[1..], p + |Serialize(parts[0])|, limit);
    }
  }

  // ----- a smooth walk parses everything on its way

  lemma {:induction false} LeadingParse(d: Doc, parts: seq<Tree>, p: nat)
    requires WritableParts(parts) && PropsParse(d, PlacedParts(parts, p))
    ensures Accepted(d, PropertiesAt(parts, p))
    decreases parts
  {
    hide Serialize, PlacedParts;
    if parts != [] && !parts[0].Node? {
      PlacedTail(parts, p);
      PropertiesTail(parts, p);
      LeadingParse(d, parts[1..], p + |Serialize(parts[0])|);
    }
  }

  lemma {:induction false} SmoothParses(d: Doc, t: Tree, p: nat, depth: Option<nat>)
    requires t.Node? && Writable(t) && Smooth(d, Placed(t, p), depth)
    ensures Parses(d, t, p, depth)
    decreases t, 2
  {
    hide Serialize, Head, PropertiesAt, Matches, LimitOf, FoldProps, PlacedParts, SmoothItems, DropProps, PropsParse;
    hide ParsesIn;
    var q := p + |Head(t.name)|;
    LeadingParse(d, t.parts, q);
    FoldIs(d, t.parts, q, depth, false);
    BehindLeading(d, t.parts, q, LimitOf(d, PropertiesAt(t.parts, q), depth));
  }

  /** Behind the leading properties. */
  lemma {:induction false} BehindLeading(d: Doc, parts: seq<Tree>, p: nat, limit: Option<nat>)
    requires WritableParts(parts) && SmoothItems(d, DropProps(PlacedParts(parts, p)), limit)
    ensures ParsesIn(d, parts, p, limit)
    decreases parts, 1
  {
    hide Serialize, PlacedParts, SmoothItems, Parses, DropProps;
    DropStep(PlacedParts(parts, p));
    if parts != [] {
      PlacedTail(parts, p);
      if parts[0].Node? {
        SmoothPartsParse(d, parts, p, limit);
      } else {
        BehindLeading(d, parts[1..], p + |Serialize(parts[0])|, limit);
      }
    }
  }

  lemma {:induction false} SmoothPartsParse(d: Doc, parts: seq<Tree>, p: nat, limit: Option<nat>)
    requires WritableParts(parts) && SmoothItems(d, PlacedParts(parts, p), limit)
    ensures ParsesIn(d, parts, p, limit)
    decreases parts, 0
  {
    hide Serialize, Placed, PlacedParts, Smooth, Parses;
    if parts != [] {
      PlacedTail(parts, p);
      if parts[0].Node? && limit != Some(0) {
        SmoothParses(d, parts[0], p, Deeper(limit));
      }
      SmoothPartsParse(d, parts[1..], p + |Serialize(parts[0])|, limit);
    }
  }

  /** A walk of a serialized tree that comes to the end ends exactly behind its bytes and has
      reported the matching nodes at their places, in preorder, within the depth limit. */
  lemma WalksSerialized(d: Doc, t: Tree, p: nat, depth: Option<nat>)
    requires Written(d, t, p) && WalkNode(d, p, depth).Ended?
    ensures WalkNode(d, p, depth) == Ended(p + |Serialize(t)|, Reports(d, t, p, depth))
  {
    hide Serialize, WalkNode, Spells, Smooth, Preorder, Reports, Stands;
    var item := Placed(t, p);
    SpelledNode(d, t, p);
    WalkReports(d, item, depth);
    WalkEnds(d, item, depth);
    SmoothParses(d, t, p, depth);
    ReportsArePreorder(d, t, p, depth);
  }

  // ----- a walk that nothing objects to

  /** Properties come before children, in every node. */
  predicate Tidy(t: Tree)
    decreases t, 1
  {
    t.Node? ==> TidyParts(t.parts, true)
  }

  predicate TidyParts(parts: seq<Tree>, leading: bool)
    decreases parts, 0
  {
    parts == [] ||
    ((parts[0].Property? ==> leading) && Tidy(parts[0]) && TidyParts(parts[1..], leading && !parts[0].Node?))
  }

  /** The callbacks accept every property and never stop the search. */
  ghost predicate Willing(d: Doc) {
    (forall q :: d.onProp(q).Parsed?) && (forall q :: d.onMatch(q) == GoOn)
  }

  lemma {:induction false} AllParse(d: Doc, parts: seq<Tree>, p: nat)
    requires WritableParts(parts) && Willing(d)
    ensures PropsParse(d, PlacedParts(parts, p))
    decreases parts
  {
    hide Serialize, PlacedParts;
    if parts == [] {
      NothingPlaced(p);
    } else {
      PlacedTail(parts, p);
      AllParse(d, parts[1..], p + |Serialize(parts[0])|);
    }
  }

  lemma {:induction false} TidySmooth(d: Doc, t: Tree, p: nat, depth: Option<nat>)
    requires t.Node? && Writable(t) && Tidy(t) && Willing(d)
    ensures Smooth(d, Placed(t, p), depth)
    decreases t, 2
  {
    hide Serialize, Head, FoldProps, PlacedParts, SmoothItems, DropProps, PropsParse;
    var q := p + |Head(t.name)|;
    AllParse(d, t.parts, q);
    TidyBehind(d, t.parts, q, FoldProps(d, PlacedParts(t.parts, q), depth, false).0);
  }

  lemma {:induction false} TidyBehind(d: Doc, parts: seq<Tree>, p: nat, limit: Option<nat>)
    requires WritableParts(parts) && TidyParts(parts, true) && Willing(d)
    ensures SmoothItems(d, DropProps(PlacedParts(parts, p)), limit)
    decreases parts, 1
  {
    hide Serialize, PlacedParts, Smooth, DropProps;
    DropStep(PlacedParts(parts, p));
    if parts == [] {
      NothingPlaced(p);
    } else {
      PlacedTail(parts, p);
      if parts[0].Node? {
        TidyRest(d, parts, p, limit, true);
      } else {
        TidyBehind(d, parts[1..], p + |Serialize(parts[0])|, limit);
      }
    }
  }

  lemma {:induction false} TidyRest(d: Doc, parts: seq<Tree>, p: nat, limit: Option<nat>, leading: bool)
    requires WritableParts(parts) && TidyParts(parts, leading) && Willing(d)
    requires leading ==> parts != [] && parts[0].Node?
    ensures SmoothItems(d, PlacedParts(parts, p), limit)
    decreases parts, 0
  {
    hide Serialize, PlacedParts, Smooth;
    if parts == [] {
      NothingPlaced(p);
    } else {
      PlacedTail(parts, p);
      if parts[0].Node? && limit != Some(0) {
        TidySmooth(d, parts[0], p, Deeper(limit));
      }
      TidyRest(d, parts[1..], p + |Serialize(parts[0])|, limit, false);
    }
  }

  /** With properties in front of children and willing callbacks, every serialized tree is walked
      to its end, and every matching node is reported. */
  lemma WalksThrough(d: Doc, t: Tree, p: nat, depth: Option<nat>)
    requires Written(d, t, p) && Tidy(t) && Willing(d)
    ensures WalkNode(d, p, depth) == Ended(p + |Serialize(t)|, Reports(d, t, p, depth))
  {
    hide Serialize, WalkNode, Spells, Smooth, Reports, Stands, Tidy, Willing;
    SpelledNode(d, t, p);
    TidySmooth(d, t, p, depth);
    WalkEnds(d, Placed(t, p), depth);
    WalksSerialized(d, t, p, depth);
  }

  /** No property comes behind a child. */
  predicate PropsLead(parts: seq<Tree>, leading: bool) {
    parts == [] ||
    ((parts[0].Property? ==> leading) && PropsLead(parts[1..], leading && !parts[0].Node?))
  }

  /** A node with a property behind a child is never walked to its end. */
  lemma PropsMustLead(d: Doc, t: Tree, p: nat, depth: Option<nat>)
    requires Written(d, t, p) && WalkNode(d, p, depth).Ended?
    ensures PropsLead(t.parts, true)
  {
    hide Serialize, WalkNode, Spells, Stands, Head, SmoothItems, FoldProps, DropProps, PropsLead;
    SpelledNode(d, t, p);
    WalkEnds(d, Placed(t, p), depth);
    LeadsBehind(d, t.parts, p + |Head(t.name)|,
                FoldProps(d, PlacedParts(t.parts, p + |Head(t.name)|), depth, false).0);
  }

  lemma {:induction false} LeadsBehind(d: Doc, parts: seq<Tree>, p: nat, limit: Option<nat>)
    requires WritableParts(parts) && SmoothItems(d, DropProps(PlacedParts(parts, p)), limit)
    ensures PropsLead(parts, true)
    decreases |parts|
  {
    hide Serialize, PlacedParts, SmoothItems, DropProps;
    DropStep(PlacedParts(parts, p));
    if parts != [] {
      PlacedTail(parts, p);
      if parts[0].Node? {
        LeadsRest(d, parts, p, limit, true);
      } else {
        LeadsBehind(d, parts[1..], p + |Serialize(parts[0])|, limit);
      }
    }
  }

  lemma {:induction false} LeadsRest(d: Doc, parts: seq<Tree>, p: nat, limit: Option<nat>, leading: bool)
    requires WritableParts(parts) && SmoothItems(d, PlacedParts(parts, p), limit)
    ensures PropsLead(parts, leading)
    decreases |parts|
  {
    hide Serialize, PlacedParts, Smooth;
    if parts != [] {
      PlacedTail(parts, p);
      KindPlaced(parts[0], p);
      LeadsRest(d, parts[1..], p + |Serialize(parts[0])|, limit, leading && !parts[0].Node?);
    }
  }

  lemma KindPlaced(t: Tree, p: nat)
    requires Writable(t)
    ensures Placed(t, p).AProp? <==> t.Property?
  {
  }
}
