/** The structure block of a flattened device tree (section 5.4 of the Devicetree
    Specification v0.4): the recursive walker, the iterative skipper, and the tree that
    both of them read. Positions are offsets into the blob. */
module DeviceTreeWalk {
  import opened Arithmetic
  import opened Options
  import opened ByteWords

  datatype PropReply = PropFails | Parsed(matched: bool, depth: Option<nat>)
  datatype MatchReply = MatchFails | GoOn | StopHere

  /** The blob, the check that a name is text, and the two callbacks of the walker. A
      position is visited at most once, so a callback with state of its own answers as a
      function of the position. The property callback consumes exactly one record. */
  datatype Doc = Doc(m: seq<Byte>, text: seq<Byte> -> bool,
                     onProp: nat -> PropReply, onMatch: nat -> MatchReply)

  datatype Token = BeginNode | EndNode | Prop | Nop | Other

  const TOKEN_BYTES: nat := 4

  /** The token at a position; reading past the blob counts as an unknown token. */
  function TokenAt(d: Doc, p: nat): Token {
    if p + 4 > |d.m| || d.m[p..p + 3] != [0, 0, 0] then Other
    else if d.m[p + 3] == 1 then BeginNode
    else if d.m[p + 3] == 2 then EndNode
    else if d.m[p + 3] == 3 then Prop
    else if d.m[p + 3] == 4 then Nop
    else Other
  }

  lemma TokenInBlob(d: Doc, p: nat)
    ensures TokenAt(d, p) != Other ==> p + 4 <= |d.m|
  {
  }

  /** The length of the nul-terminated string at a position, if it ends inside the blob. */
  function NameLength(d: Doc, p: nat): (r: Option<nat>)
    ensures r.Some? ==> p + r.value < |d.m|
    decreases |d.m| - p
  {
    if p >= |d.m| then None
    else if d.m[p] == 0 then Some(0)
    else match NameLength(d, p + 1) case None => None case Some(n) => Some(n + 1)
  }

  /** The position behind a node's token and padded name, if the name is readable text. */
  function AfterName(d: Doc, p: nat): (r: Option<nat>)
    ensures r.Some? ==> r.value > p
  {
    match NameLength(d, p + TOKEN_BYTES)
    case None => None
    case Some(n) =>
      if d.text(d.m[p + TOKEN_BYTES..p + TOKEN_BYTES + n]) then Some(p + TOKEN_BYTES + AlignUp(n + 1, 4)) else None
  }

  /** The position behind a property record: token, two words, padded value. */
  function AfterProp(d: Doc, p: nat): (r: Option<nat>)
    ensures r.Some? ==> r.value > p
  {
    if p + 12 > |d.m| then None else Some(p + 12 + AlignUp(Get32(d.m, p + 4), 4))
  }

  // ----- skip_node

  /** The loop of `skip_node` from a position with a nest count: where it ends. */
  function SkipFrom(d: Doc, p: nat, nest: nat): (r: Option<nat>)
    ensures r.Some? ==> r.value > p
    decreases |d.m| - p
  {
    TokenInBlob(d, p);
    match TokenAt(d, p)
    case Nop => SkipFrom(d, p + TOKEN_BYTES, nest)
    case BeginNode =>
      (match AfterName(d, p) case None => None case Some(q) => SkipFrom(d, q, nest + 1))
    case Prop =>
      (match AfterProp(d, p) case None => None case Some(q) => SkipFrom(d, q, nest))
    case EndNode =>
      if nest == 0 then None
      else if nest == 1 then Some(p + TOKEN_BYTES)
      else SkipFrom(d, p + TOKEN_BYTES, nest - 1)
    case Other => None
  }

  function SkipNode(d: Doc, p: nat): Option<nat> {
    if TokenAt(d, p) != BeginNode then None else SkipFrom(d, p, 0)
  }

  /** With k more open nodes, skipping goes on behind where it would have ended. */
  lemma {:induction false} SkipCompose(d: Doc, p: nat, n: nat, k: nat)
    requires n >= 1 && k >= 1 && SkipFrom(d, p, n).Some?
    ensures SkipFrom(d, p, n + k) == SkipFrom(d, SkipFrom(d, p, n).value, k)
    decreases |d.m| - p
  {
    hide TokenAt, AfterName, AfterProp;
    TokenInBlob(d, p);
    match TokenAt(d, p)
    case Nop => SkipCompose(d, p + TOKEN_BYTES, n, k);
    case BeginNode => SkipCompose(d, AfterName(d, p).value, n + 1, k);
    case Prop => SkipCompose(d, AfterProp(d, p).value, n, k);
    case EndNode =>
      if n > 1 {
        SkipCompose(d, p + TOKEN_BYTES, n - 1, k);
      }
    case Other =>
  }

  /** Leaving n + 1 open nodes leaves n of them on the way. */
  lemma {:induction false} SkipSplit(d: Doc, p: nat, n: nat)
    requires n >= 1 && SkipFrom(d, p, n + 1).Some?
    ensures SkipFrom(d, p, n).Some?
    decreases |d.m| - p
  {
    hide TokenAt, AfterName, AfterProp;
    TokenInBlob(d, p);
    match TokenAt(d, p)
    case Nop => SkipSplit(d, p + TOKEN_BYTES, n);
    case BeginNode => SkipSplit(d, AfterName(d, p).value, n + 1);
    case Prop => SkipSplit(d, AfterProp(d, p).value, n);
    case EndNode =>
      if n > 1 {
        SkipSplit(d, p + TOKEN_BYTES, n - 1);
      }
    case Other =>
  }

  /** Inside another node, a whole subtree is skipped without changing the nesting. */
  lemma SkipSubtree(d: Doc, p: nat, k: nat)
    requires k >= 1 && SkipNode(d, p).Some?
    ensures SkipFrom(d, p, k) == SkipFrom(d, SkipNode(d, p).value, k)
  {
    hide TokenAt, AfterName, AfterProp;
    var q := AfterName(d, p).value;
    SkipCompose(d, q, 1, k);
  }

  // ----- walk_struct

  /** What the walker comes to: the end of the node, a callback that stops the search, or
      an error; with the nodes reported on the way. */
  datatype Walk = Ended(pos: nat, reports: seq<nat>) | Stopped(reports: seq<nat>) | Failed

  function Report(reports: seq<nat>, w: Walk): Walk {
    match w
    case Ended(q, more) => Ended(q, reports + more)
    case Stopped(more) => Stopped(reports + more)
    case Failed => Failed
  }

  /** The property loop: position, depth limit and match flag behind the properties. */
  datatype Props = PropsEnd(pos: nat, depth: Option<nat>, matched: bool) | PropsFail

  function WalkProps(d: Doc, p: nat, depth: Option<nat>, matched: bool): (r: Props)
    ensures r.PropsEnd? ==> r.pos >= p && (TokenAt(d, r.pos).BeginNode? || TokenAt(d, r.pos).EndNode?)
    decreases |d.m| - p
  {
    TokenInBlob(d, p);
    match TokenAt(d, p)
    case Nop => WalkProps(d, p + TOKEN_BYTES, depth, matched)
    case Prop =>
      (match d.onProp(p)
       case PropFails => PropsFail
       case Parsed(hit, limit) =>
         match AfterProp(d, p) case None => PropsFail case Some(q) => WalkProps(d, q, limit, matched || hit))
    case BeginNode => PropsEnd(p, depth, matched)
    case EndNode => PropsEnd(p, depth, matched)
    case Other => PropsFail
  }

  function Deeper(depth: Option<nat>): Option<nat> {
    match depth case None => None case Some(n) => Some(if n == 0 then 0 else n - 1)
  }

  function WalkNode(d: Doc, p: nat, depth: Option<nat>): (w: Walk)
    ensures w.Ended? ==> w.pos > p
    decreases |d.m| - p, 1
  {
    TokenInBlob(d, p);
    if TokenAt(d, p) != BeginNode then Failed
    else match AfterName(d, p)
      case None => Failed
      case Some(q) =>
        match WalkProps(d, q, depth, false)
        case PropsFail => Failed
        case PropsEnd(r, limit, matched) =>
          if !matched then WalkChildren(d, r, limit)
          else match d.onMatch(p)
            case MatchFails => Failed
            case StopHere => Stopped([p])
            case GoOn => Report([p], WalkChildren(d, r, limit))
  }

  function WalkChildren(d: Doc, p: nat, depth: Option<nat>): (w: Walk)
    ensures w.Ended? ==> w.pos > p
    decreases |d.m| - p, 2
  {
    TokenInBlob(d, p);
    match TokenAt(d, p)
    case Nop => WalkChildren(d, p + TOKEN_BYTES, depth)
    case BeginNode =>
      if depth == Some(0) then
        (match SkipNode(d, p) case None => Failed case Some(q) => WalkChildren(d, q, depth))
      else
        (match WalkNode(d, p, Deeper(depth))
         case Ended(q, reports) => Report(reports, WalkChildren(d, q, depth))
         case Stopped(reports) => Stopped(reports)
         case Failed => Failed)
    case EndNode => Ended(p + TOKEN_BYTES, [])
    case Prop => Failed
    case Other => Failed
  }

  /** The property loop passes exactly what the skipper passes. */
  lemma {:induction false} PropsLikeSkip(d: Doc, p: nat, depth: Option<nat>, matched: bool)
    requires WalkProps(d, p, depth, matched).PropsEnd?
    ensures SkipFrom(d, p, 1) == SkipFrom(d, WalkProps(d, p, depth, matched).pos, 1)
    decreases |d.m| - p
  {
    TokenInBlob(d, p);
    match TokenAt(d, p)
    case Nop => PropsLikeSkip(d, p + TOKEN_BYTES, depth, matched);
    case Prop =>
      var reply := d.onProp(p);
      PropsLikeSkip(d, AfterProp(d, p).value, reply.depth, matched || reply.matched);
    case BeginNode =>
    case EndNode =>
    case Other =>
  }

  /** If the walker comes to the end of a node, the skipper ends at the same position. */
  lemma {:induction false} WalkAgreesWithSkip(d: Doc, p: nat, depth: Option<nat>)
    requires WalkNode(d, p, depth).Ended?
    ensures SkipNode(d, p) == Some(WalkNode(d, p, depth).pos)
    decreases |d.m| - p, 1
  {
    TokenInBlob(d, p);
    var q := AfterName(d, p).value;
    var props := WalkProps(d, q, depth, false);
    PropsLikeSkip(d, q, depth, false);
    ChildrenLikeSkip(d, props.pos, props.depth);
  }

  lemma {:induction false} ChildrenLikeSkip(d: Doc, p: nat, depth: Option<nat>)
    requires WalkChildren(d, p, depth).Ended?
    ensures SkipFrom(d, p, 1) == Some(WalkChildren(d, p, depth).pos)
    decreases |d.m| - p, 2
  {
    TokenInBlob(d, p);
    match TokenAt(d, p)
    case Nop => ChildrenLikeSkip(d, p + TOKEN_BYTES, depth);
    case BeginNode =>
      if depth != Some(0) {
        WalkAgreesWithSkip(d, p, Deeper(depth));
      }
      SkipSubtree(d, p, 1);
      ChildrenLikeSkip(d, SkipNode(d, p).value, depth);
    case EndNode =>
    case Prop =>
    case Other =>
  }

  // ----- the tree that is read

  /** What the structure block is made of; a node is a subtree with its start, its end and
      what is inside, in order. */
  datatype Item = ANop | AProp(at: nat) | ANode(at: nat, end: nat, items: seq<Item>)

  /** The tree is spelled out in the blob from its start to its end. */
  ghost predicate Spells(d: Doc, t: Item)
    decreases t, 1
  {
    && t.ANode?
    && TokenAt(d, t.at) == BeginNode && AfterName(d, t.at).Some? && t.end >= TOKEN_BYTES
    && SpellsItems(d, AfterName(d, t.at).value, t.items, t.end - TOKEN_BYTES)
    && TokenAt(d, t.end - TOKEN_BYTES) == EndNode
  }

  /** The items are spelled out from p to q. */
  ghost predicate SpellsItems(d: Doc, p: nat, items: seq<Item>, q: nat)
    decreases items, 0
  {
    if items == [] then p == q
    else match items[0]
      case ANop => TokenAt(d, p) == Nop && SpellsItems(d, p + TOKEN_BYTES, items[1..], q)
      case AProp(at) =>
        && at == p && TokenAt(d, p) == Prop && AfterProp(d, p).Some?
        && SpellsItems(d, AfterProp(d, p).value, items[1..], q)
      case ANode(at, end, _) => at == p && Spells(d, items[0]) && SpellsItems(d, end, items[1..], q)
  }

  /** The skipper consumes exactly the subtree that is spelled out. */
  lemma {:induction false} SkipConsumes(d: Doc, t: Item)
    requires Spells(d, t)
    ensures SkipNode(d, t.at) == Some(t.end)
    decreases t, 1
  {
    hide TokenAt, AfterName, AfterProp;
    SkipItems(d, AfterName(d, t.at).value, t.items, t.end - TOKEN_BYTES);
  }

  lemma {:induction false} SkipItems(d: Doc, p: nat, items: seq<Item>, q: nat)
    requires SpellsItems(d, p, items, q) && TokenAt(d, q) == EndNode
    ensures SkipFrom(d, p, 1) == Some(q + TOKEN_BYTES)
    decreases items, 0
  {
    hide TokenAt, AfterName, AfterProp;
    if items != [] {
      match items[0]
      case ANop => SkipItems(d, p + TOKEN_BYTES, items[1..], q);
      case AProp(at) => SkipItems(d, AfterProp(d, p).value, items[1..], q);
      case ANode(_, _, _) =>
        var t := items[0];
        SkipConsumes(d, t);
        SkipSubtree(d, p, 1);
        SkipItems(d, t.end, items[1..], q);
    }
  }

  /** Whatever the skipper accepts spells out a subtree. */
  lemma {:induction false} SkipReadsTree(d: Doc, p: nat) returns (t: Item)
    requires SkipNode(d, p).Some?
    ensures Spells(d, t) && t.at == p && Some(t.end) == SkipNode(d, p)
    decreases |d.m| - p, 1
  {
    hide TokenAt, AfterName, AfterProp;
    TokenInBlob(d, p);
    var q := AfterName(d, p).value;
    var items := SkipReadsItems(d, q);
    t := ANode(p, SkipNode(d, p).value, items);
  }

  lemma {:induction false} SkipReadsItems(d: Doc, p: nat) returns (items: seq<Item>)
    requires SkipFrom(d, p, 1).Some?
    ensures SkipFrom(d, p, 1).value >= TOKEN_BYTES
    ensures SpellsItems(d, p, items, SkipFrom(d, p, 1).value - TOKEN_BYTES)
    ensures TokenAt(d, SkipFrom(d, p, 1).value - TOKEN_BYTES) == EndNode
    decreases |d.m| - p, 2
  {
    hide TokenAt, AfterName, AfterProp;
    TokenInBlob(d, p);
    match TokenAt(d, p)
    case Nop =>
      var rest := SkipReadsItems(d, p + TOKEN_BYTES);
      items := [ANop] + rest;
    case Prop =>
      var rest := SkipReadsItems(d, AfterProp(d, p).value);
      items := [AProp(p)] + rest;
    case BeginNode =>
      SkipSplit(d, AfterName(d, p).value, 1);
      SkipSubtree(d, p, 1);
      var t := SkipReadsTree(d, p);
      var rest := SkipReadsItems(d, t.end);
      items := [t] + rest;
    case EndNode =>
      items := [];
    case Other =>
      items := [];
  }

  /** The skipper succeeds at a position exactly when a subtree is spelled out there. */
  lemma SkipExact(d: Doc, p: nat)
    ensures SkipNode(d, p).Some? <==> exists t :: Spells(d, t) && t.ANode? && t.at == p
  {
    if SkipNode(d, p).Some? {
      var t := SkipReadsTree(d, p);
      assert Spells(d, t) && t.ANode? && t.at == p;
    }
    forall t | Spells(d, t) && t.ANode? && t.at == p ensures SkipNode(d, p).Some? {
      SkipConsumes(d, t);
    }
  }

  // ----- the properties of a node

  /** The properties that lead the items are all accepted by the callback. */
  predicate PropsParse(d: Doc, items: seq<Item>) {
    items == [] || items[0].ANode? ||
    ((items[0].AProp? ==> d.onProp(items[0].at).Parsed?) && PropsParse(d, items[1..]))
  }

  /** The number of items that lead the first child. */
  function Leading(items: seq<Item>): (k: nat)
    ensures k <= |items|
  {
    if items == [] || items[0].ANode? then 0 else 1 + Leading(items[1..])
  }

  function DropProps(items: seq<Item>): seq<Item> {
    items[Leading(items)..]
  }

  lemma DropStep(items: seq<Item>)
    ensures DropProps(items) ==
      if items == [] || items[0].ANode? then items else DropProps(items[1..])
  {
    if items != [] && !items[0].ANode? {
      assert items[1..][Leading(items[1..])..] == items[Leading(items)..];
    }
  }

  /** Depth limit and match flag behind the properties that lead the items. */
  function FoldProps(d: Doc, items: seq<Item>, depth: Option<nat>, matched: bool): (Option<nat>, bool) {
    if items == [] || items[0].ANode? then (depth, matched)
    else if items[0].ANop? then FoldProps(d, items[1..], depth, matched)
    else match d.onProp(items[0].at)
      case PropFails => (depth, matched)
      case Parsed(hit, limit) => FoldProps(d, items[1..], limit, matched || hit)
  }

  /** The property loop gets through exactly when the callback accepts every leading property,
      and then stands before the children with the depth limit and flag these leave. */
  lemma PropsFold(d: Doc, p: nat, items: seq<Item>, q: nat, depth: Option<nat>, matched: bool)
    requires SpellsItems(d, p, items, q) && TokenAt(d, q) == EndNode
    ensures WalkProps(d, p, depth, matched).PropsEnd? <==> PropsParse(d, items)
    ensures var w := WalkProps(d, p, depth, matched);
      w.PropsEnd? ==>
        (w.depth, w.matched) == FoldProps(d, items, depth, matched) && SpellsItems(d, w.pos, DropProps(items), q)
  {
    hide TokenAt, SpellsItems, WalkProps, FoldProps, DropProps, PropsParse;
    PropsReach(d, p, items, q, depth, matched);
    if WalkProps(d, p, depth, matched).PropsEnd? {
      PropsLeave(d, p, items, q, depth, matched);
    }
  }

  lemma {:induction false} PropsReach(d: Doc, p: nat, items: seq<Item>, q: nat, depth: Option<nat>, matched: bool)
    requires SpellsItems(d, p, items, q) && TokenAt(d, q) == EndNode
    ensures WalkProps(d, p, depth, matched).PropsEnd? <==> PropsParse(d, items)
    decreases |items|
  {
    hide TokenAt, AfterName, AfterProp, Spells;
    if items != [] {
      match items[0]
      case ANop => PropsReach(d, p + TOKEN_BYTES, items[1..], q, depth, matched);
      case AProp(_) =>
        var reply := d.onProp(p);
        if reply.Parsed? {
          PropsReach(d, AfterProp(d, p).value, items[1..], q, reply.depth, matched || reply.matched);
        }
      case ANode(_, _, _) => StartsNode(d, items[0]);
    }
  }

  lemma {:induction false} PropsLeave(d: Doc, p: nat, items: seq<Item>, q: nat, depth: Option<nat>, matched: bool)
    requires SpellsItems(d, p, items, q) && TokenAt(d, q) == EndNode
    requires WalkProps(d, p, depth, matched).PropsEnd?
    ensures var w := WalkProps(d, p, depth, matched);
      (w.depth, w.matched) == FoldProps(d, items, depth, matched) && SpellsItems(d, w.pos, DropProps(items), q)
    decreases |items|
  {
    hide TokenAt, AfterName, AfterProp, Spells, DropProps;
    DropStep(items);
    if items != [] {
      match items[0]
      case ANop => PropsLeave(d, p + TOKEN_BYTES, items[1..], q, depth, matched);
      case AProp(_) =>
        var reply := d.onProp(p);
        PropsLeave(d, AfterProp(d, p).value, items[1..], q, reply.depth, matched || reply.matched);
      case ANode(_, _, _) => StartsNode(d, items[0]);
    }
  }

  lemma StartsNode(d: Doc, t: Item)
    requires Spells(d, t)
    ensures TokenAt(d, t.at) == BeginNode
  {
  }

  // ----- what is reported

  /** The nodes to report, in preorder: a node whose properties matched, then its children
      unless the depth limit is used up. */
  function Preorder(d: Doc, t: Item, depth: Option<nat>): seq<nat>
    requires t.ANode?
    decreases t, 1
  {
    var (limit, matched) := FoldProps(d, t.items, depth, false);
    (if matched then [t.at] else []) + PreorderItems(d, t.items, limit)
  }

  function PreorderItems(d: Doc, items: seq<Item>, depth: Option<nat>): seq<nat>
    decreases items, 0
  {
    if items == [] then []
    else
      (if items[0].ANode? && depth != Some(0) then Preorder(d, items[0], Deeper(depth)) else [])
      + PreorderItems(d, items[1..], depth)
  }

  lemma {:induction false} PreorderOfChildren(d: Doc, items: seq<Item>, depth: Option<nat>)
    ensures PreorderItems(d, items, depth) == PreorderItems(d, DropProps(items), depth)
    decreases |items|
  {
    hide DropProps;
    DropStep(items);
    if items != [] && !items[0].ANode? {
      PreorderOfChildren(d, items[1..], depth);
    }
  }

  lemma PreorderOf(d: Doc, t: Item, depth: Option<nat>)
    requires t.ANode?
    ensures var (limit, matched) := FoldProps(d, t.items, depth, false);
      Preorder(d, t, depth) == (if matched then [t.at] else []) + PreorderItems(d, t.items, limit)
  {
  }

  /** Strictly ascending positions in [lo, hi). */
  ghost predicate Ascends(r: seq<nat>, lo: nat, hi: nat) {
    && (forall i, j :: 0 <= i < j < |r| ==> r[i] < r[j])
    && (forall i :: 0 <= i < |r| ==> lo <= r[i] < hi)
  }

  lemma AscendsConcat(r: seq<nat>, s: seq<nat>, lo: nat, mid: nat, hi: nat)
    requires Ascends(r, lo, mid) && Ascends(s, mid, hi) && lo <= mid <= hi
    ensures Ascends(r + s, lo, hi)
  {
  }

  /** Reported positions ascend strictly inside the subtree: once each, in preorder. */
  lemma {:induction false} PreorderAscends(d: Doc, t: Item, depth: Option<nat>)
    requires Spells(d, t)
    ensures Ascends(Preorder(d, t, depth), t.at, t.end) && t.at < t.end
    decreases t, 1
  {
    hide TokenAt, AfterName, AfterProp, FoldProps;
    var (limit, matched) := FoldProps(d, t.items, depth, false);
    var q := AfterName(d, t.at).value;
    ItemsAscend(d, q, t.items, t.end - TOKEN_BYTES, limit);
    AscendsConcat(if matched then [t.at] else [], PreorderItems(d, t.items, limit), t.at, q, t.end);
  }

  lemma {:induction false} ItemsAscend(d: Doc, p: nat, items: seq<Item>, q: nat, depth: Option<nat>)
    requires SpellsItems(d, p, items, q)
    ensures Ascends(PreorderItems(d, items, depth), p, q) && p <= q
    decreases items, 0
  {
    hide TokenAt, AfterName, AfterProp;
    if items != [] {
      match items[0]
      case ANop => ItemsAscend(d, p + TOKEN_BYTES, items[1..], q, depth);
      case AProp(at) => ItemsAscend(d, AfterProp(d, p).value, items[1..], q, depth);
      case ANode(_, end, _) =>
        PreorderAscends(d, items[0], Deeper(depth));
        ItemsAscend(d, end, items[1..], q, depth);
        AscendsConcat(if depth == Some(0) then [] else Preorder(d, items[0], Deeper(depth)),
                      PreorderItems(d, items[1..], depth), p, end, q);
    }
  }

  /** A walk that comes to the end of a spelled-out subtree ends where the subtree ends and
      reports exactly its matching nodes within the depth limit, in preorder. */
  lemma {:induction false} WalkReports(d: Doc, t: Item, depth: Option<nat>)
    requires Spells(d, t) && WalkNode(d, t.at, depth).Ended?
    ensures WalkNode(d, t.at, depth) == Ended(t.end, Preorder(d, t, depth))
    decreases t, 1
  {
    hide TokenAt, AfterName, AfterProp, WalkChildren, WalkProps, FoldProps, PreorderItems, SpellsItems;
    var q := AfterName(d, t.at).value;
    PropsFold(d, q, t.items, t.end - TOKEN_BYTES, depth, false);
    var props := WalkProps(d, q, depth, false);
    PreorderOfChildren(d, t.items, props.depth);
    ChildItems(d, props.pos, DropProps(t.items), t.end - TOKEN_BYTES, props.depth);
  }

  lemma {:induction false} ChildItems(d: Doc, p: nat, items: seq<Item>, q: nat, depth: Option<nat>)
    requires SpellsItems(d, p, items, q) && TokenAt(d, q) == EndNode
    requires WalkChildren(d, p, depth).Ended?
    ensures WalkChildren(d, p, depth) == Ended(q + TOKEN_BYTES, PreorderItems(d, items, depth))
    decreases items, 0
  {
    hide TokenAt, AfterName, AfterProp;
    if items != [] {
      match items[0]
      case ANop => ChildItems(d, p + TOKEN_BYTES, items[1..], q, depth);
      case AProp(at) =>
      case ANode(_, _, _) =>
        var t := items[0];
        SkipConsumes(d, t);
        if depth != Some(0) {
          WalkReports(d, t, Deeper(depth));
        }
        ChildItems(d, t.end, items[1..], q, depth);
    }
  }

  // ----- a search that is stopped

  /** The search went on at every report but, if it was stopped, the last. */
  ghost predicate Answers(d: Doc, reports: seq<nat>, stopped: bool) {
    && (stopped ==> reports != [] && d.onMatch(reports[|reports| - 1]) == StopHere)
    && (forall i :: 0 <= i < |reports| - (if stopped then 1 else 0) ==> d.onMatch(reports[i]) == GoOn)
  }

  lemma {:induction false} NodeAnswers(d: Doc, p: nat, depth: Option<nat>)
    ensures var w := WalkNode(d, p, depth); w.Failed? || Answers(d, w.reports, w.Stopped?)
    decreases |d.m| - p, 1
  {
    hide TokenAt, AfterName, AfterProp;
    TokenInBlob(d, p);
    if TokenAt(d, p) == BeginNode && AfterName(d, p).Some? {
      var props := WalkProps(d, AfterName(d, p).value, depth, false);
      if props.PropsEnd? {
        ChildrenAnswer(d, props.pos, props.depth);
      }
    }
  }

  lemma {:induction false} ChildrenAnswer(d: Doc, p: nat, depth: Option<nat>)
    ensures var w := WalkChildren(d, p, depth); w.Failed? || Answers(d, w.reports, w.Stopped?)
    decreases |d.m| - p, 2
  {
    hide TokenAt, AfterName, AfterProp;
    TokenInBlob(d, p);
    match TokenAt(d, p)
    case Nop => ChildrenAnswer(d, p + TOKEN_BYTES, depth);
    case BeginNode =>
      if depth == Some(0) {
        if SkipNode(d, p).Some? {
          SkipAdvances(d, p);
          ChildrenAnswer(d, SkipNode(d, p).value, depth);
        }
      } else {
        NodeAnswers(d, p, Deeper(depth));
        var w := WalkNode(d, p, Deeper(depth));
        if w.Ended? {
          ChildrenAnswer(d, w.pos, depth);
        }
      }
    case EndNode =>
    case Prop =>
    case Other =>
  }

  /** A walk of a spelled-out subtree that a callback stops has reported the matching nodes
      in preorder up to and including the first one at which it was told to stop. */
  lemma WalkStops(d: Doc, t: Item, depth: Option<nat>)
    requires Spells(d, t) && WalkNode(d, t.at, depth).Stopped?
    ensures var r := WalkNode(d, t.at, depth).reports;
      && r <= Preorder(d, t, depth) && r != [] && d.onMatch(r[|r| - 1]) == StopHere
      && (forall i :: 0 <= i < |r| - 1 ==> d.onMatch(r[i]) == GoOn)
  {
    hide WalkNode, Preorder, SpellsItems;
    NodeAnswers(d, t.at, depth);
    StopsInPreorder(d, t, depth);
  }

  /** A node's walk is stopped by its own match or below it. */
  lemma StoppedAt(d: Doc, p: nat, depth: Option<nat>)
    requires WalkNode(d, p, depth).Stopped?
    ensures AfterName(d, p).Some? && WalkProps(d, AfterName(d, p).value, depth, false).PropsEnd?
    ensures var props := WalkProps(d, AfterName(d, p).value, depth, false);
      var below, r := WalkChildren(d, props.pos, props.depth), WalkNode(d, p, depth).reports;
      || (props.matched && r == [p])
      || (below.Stopped? && r == (if props.matched then [p] else []) + below.reports)
  {
    hide TokenAt, AfterName, WalkChildren, WalkProps;
  }

  lemma {:induction false} StopsInPreorder(d: Doc, t: Item, depth: Option<nat>)
    requires Spells(d, t) && WalkNode(d, t.at, depth).Stopped?
    ensures WalkNode(d, t.at, depth).reports <= Preorder(d, t, depth)
    decreases t, 2
  {
    hide TokenAt, AfterName, WalkNode, WalkChildren, WalkProps, FoldProps, Preorder, PreorderItems, SpellsItems;
    StoppedAt(d, t.at, depth);
    StopsBelow(d, t, depth);
    PreorderOf(d, t, depth);
    var props := WalkProps(d, AfterName(d, t.at).value, depth, false);
    var own: seq<nat> := if props.matched then [t.at] else [];
    var below := WalkChildren(d, props.pos, props.depth);
    JoinPrefix(own, WalkNode(d, t.at, depth).reports, if below.Stopped? then below.reports else [],
               PreorderItems(d, t.items, props.depth));
  }

  lemma {:induction false} StopsBelow(d: Doc, t: Item, depth: Option<nat>)
    requires Spells(d, t)
    requires AfterName(d, t.at).Some? && WalkProps(d, AfterName(d, t.at).value, depth, false).PropsEnd?
    ensures var props := WalkProps(d, AfterName(d, t.at).value, depth, false);
      var below := WalkChildren(d, props.pos, props.depth);
      && (props.depth, props.matched) == FoldProps(d, t.items, depth, false)
      && (below.Stopped? ==> below.reports <= PreorderItems(d, t.items, props.depth))
    decreases t, 1
  {
    hide TokenAt, AfterName, WalkNode, WalkChildren, WalkProps, FoldProps, Preorder, PreorderItems, SpellsItems;
    var q := AfterName(d, t.at).value;
    PropsFold(d, q, t.items, t.end - TOKEN_BYTES, depth, false);
    var props := WalkProps(d, q, depth, false);
    PreorderOfChildren(d, t.items, props.depth);
    if WalkChildren(d, props.pos, props.depth).Stopped? {
      ItemsStop(d, props.pos, DropProps(t.items), t.end - TOKEN_BYTES, props.depth);
    }
  }

  lemma JoinPrefix(own: seq<nat>, r: seq<nat>, below: seq<nat>, rest: seq<nat>)
    requires below <= rest && (r == own || r == own + below)
    ensures r <= own + rest
  {
  }

  lemma {:induction false} ItemsStop(d: Doc, p: nat, items: seq<Item>, q: nat, depth: Option<nat>)
    requires SpellsItems(d, p, items, q) && TokenAt(d, q) == EndNode
    requires WalkChildren(d, p, depth).Stopped?
    ensures WalkChildren(d, p, depth).reports <= PreorderItems(d, items, depth)
    decreases items, 0
  {
    hide TokenAt, AfterName, AfterProp;
    if items != [] {
      match items[0]
      case ANop => ItemsStop(d, p + TOKEN_BYTES, items[1..], q, depth);
      case AProp(at) =>
      case ANode(_, _, _) =>
        var t := items[0];
        SkipConsumes(d, t);
        if depth == Some(0) {
          ItemsStop(d, t.end, items[1..], q, depth);
        } else if WalkNode(d, p, Deeper(depth)).Stopped? {
          StopsInPreorder(d, t, Deeper(depth));
        } else {
          WalkReports(d, t, Deeper(depth));
          ItemsStop(d, t.end, items[1..], q, depth);
        }
    }
  }

  // ----- when the walk comes to the end

  /** The walk meets no objection: properties come first and parse, a matching node lets
      the search go on, and the same holds in every child within the depth limit. */
  predicate Smooth(d: Doc, t: Item, depth: Option<nat>)
    requires t.ANode?
    decreases t, 1
  {
    var (limit, matched) := FoldProps(d, t.items, depth, false);
    && PropsParse(d, t.items)
    && (matched ==> d.onMatch(t.at) == GoOn)
    && SmoothItems(d, DropProps(t.items), limit)
  }

  predicate SmoothItems(d: Doc, items: seq<Item>, depth: Option<nat>)
    decreases items, 0
  {
    items == [] ||
    (!items[0].AProp?
     && (items[0].ANode? && depth != Some(0) ==> Smooth(d, items[0], Deeper(depth)))
     && SmoothItems(d, items[1..], depth))
  }

  /** On a spelled-out subtree the walk comes to the end exactly when it meets no objection. */
  lemma {:induction false} WalkEnds(d: Doc, t: Item, depth: Option<nat>)
    requires Spells(d, t)
    ensures WalkNode(d, t.at, depth).Ended? <==> Smooth(d, t, depth)
    decreases t, 3
  {
    hide TokenAt, AfterName, AfterProp, WalkChildren, WalkProps, FoldProps, SmoothItems, PropsParse, SpellsItems;
    var q := AfterName(d, t.at).value;
    PropsFold(d, q, t.items, t.end - TOKEN_BYTES, depth, false);
    var props := WalkProps(d, q, depth, false);
    if props.PropsEnd? {
      ItemsEnd(d, props.pos, DropProps(t.items), t.end - TOKEN_BYTES, props.depth);
    }
  }

  lemma {:induction false} ItemsEnd(d: Doc, p: nat, items: seq<Item>, q: nat, depth: Option<nat>)
    requires SpellsItems(d, p, items, q) && TokenAt(d, q) == EndNode
    ensures WalkChildren(d, p, depth).Ended? <==> SmoothItems(d, items, depth)
    decreases items, 1
  {
    hide TokenAt, AfterName, AfterProp;
    if items != [] {
      match items[0]
      case ANop => ItemsEnd(d, p + TOKEN_BYTES, items[1..], q, depth);
      case AProp(at) =>
      case ANode(_, end, _) =>
        SkipConsumes(d, items[0]);
        ItemsEnd(d, end, items[1..], q, depth);
        if depth != Some(0) {
          WalkEnds(d, items[0], Deeper(depth));
          if WalkNode(d, p, Deeper(depth)).Ended? {
            WalkAgreesWithSkip(d, p, Deeper(depth));
          }
        }
    }
  }

  // ----- the loops of the program

  /** `skip_node`: one loop with a nest counter. */
  method SkipNodeLoop(d: Doc, start: nat) returns (r: Option<nat>)
    ensures r == SkipNode(d, start)
  {
    hide TokenAt, AfterName, AfterProp;
    if TokenAt(d, start) != BeginNode {
      return None;
    }
    var pointer, nest := start, 0;
    while true
      invariant 0 <= nest && (nest == 0 ==> TokenAt(d, pointer) == BeginNode)
      invariant SkipFrom(d, pointer, nest) == SkipNode(d, start)
      decreases |d.m| - pointer
    {
      TokenInBlob(d, pointer);
      match TokenAt(d, pointer) {
        case Nop =>
          pointer := pointer + TOKEN_BYTES;
        case BeginNode =>
          var after := AfterName(d, pointer);
          if after.None? {
            return None;
          }
          pointer := after.value;
          nest := nest + 1;
        case Prop =>
          var after := AfterProp(d, pointer);
          if after.None? {
            return None;
          }
          pointer := after.value;
        case EndNode =>
          pointer := pointer + TOKEN_BYTES;
          nest := nest - 1;
          if nest == 0 {
            return Some(pointer);
          }
        case Other =>
          return None;
      }
    }
  }

  /** `walk_struct`: a property loop, the match callback, then a loop over the children. */
  method WalkStruct(d: Doc, start: nat, limit: Option<nat>) returns (w: Walk)
    ensures w == WalkNode(d, start, limit)
    decreases |d.m| - start
  {
    hide TokenAt, AfterName, AfterProp;
    TokenInBlob(d, start);
    if TokenAt(d, start) != BeginNode {
      return Failed;
    }
    var after := AfterName(d, start);
    if after.None? {
      return Failed;
    }
    var props := PropertyLoop(d, after.value, limit);
    if props.PropsFail? {
      return Failed;
    }
    var reports: seq<nat> := [];
    if props.matched {
      match d.onMatch(start) {
        case MatchFails => return Failed;
        case StopHere => return Stopped([start]);
        case GoOn => reports := [start];
      }
    }
    var pointer := props.pos;
    ReportNothing(WalkChildren(d, pointer, props.depth));
    while true
      invariant start < pointer
      invariant Report(reports, WalkChildren(d, pointer, props.depth)) == WalkNode(d, start, limit)
      decreases |d.m| - pointer
    {
      TokenInBlob(d, pointer);
      match TokenAt(d, pointer) {
        case Nop =>
          pointer := pointer + TOKEN_BYTES;
        case BeginNode =>
          if props.depth == Some(0) {
            var skipped := SkipNodeLoop(d, pointer);
            if skipped.None? {
              return Failed;
            }
            SkipAdvances(d, pointer);
            pointer := skipped.value;
          } else {
            var child := WalkStruct(d, pointer, Deeper(props.depth));
            match child {
              case Ended(q, more) =>
                ReportTwice(reports, more, WalkChildren(d, q, props.depth));
                pointer := q;
                reports := reports + more;
              case Stopped(more) =>
                return Stopped(reports + more);
              case Failed =>
                return Failed;
            }
          }
        case EndNode =>
          return Ended(pointer + TOKEN_BYTES, reports);
        case Prop =>
          return Failed;
        case Other =>
          return Failed;
      }
    }
  }

  method PropertyLoop(d: Doc, start: nat, limit: Option<nat>) returns (r: Props)
    ensures r == WalkProps(d, start, limit, false)
  {
    hide TokenAt, AfterProp;
    var pointer, depth, matched := start, limit, false;
    while true
      invariant WalkProps(d, pointer, depth, matched) == WalkProps(d, start, limit, false)
      decreases |d.m| - pointer
    {
      TokenInBlob(d, pointer);
      match TokenAt(d, pointer) {
        case Nop =>
          pointer := pointer + TOKEN_BYTES;
        case Prop =>
          var reply := d.onProp(pointer);
          var after := AfterProp(d, pointer);
          if reply.PropFails? || after.None? {
            return PropsFail;
          }
          pointer := after.value;
          depth := reply.depth;
          matched := matched || reply.matched;
        case BeginNode =>
          return PropsEnd(pointer, depth, matched);
        case EndNode =>
          return PropsEnd(pointer, depth, matched);
        case Other =>
          return PropsFail;
      }
    }
  }

  lemma SkipAdvances(d: Doc, p: nat)
    ensures SkipNode(d, p).Some? ==> SkipNode(d, p).value > p
  {
  }

  lemma ReportNothing(w: Walk)
    ensures Report([], w) == w
  {
  }

  lemma ReportTwice(a: seq<nat>, b: seq<nat>, w: Walk)
    ensures Report(a, Report(b, w)) == Report(a + b, w)
  {
  }
}
