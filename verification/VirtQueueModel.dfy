/** The split virtqueue shared by a driver and a device: 16-bit wrapping indices and
    masked ring slots, refined against unbounded logs of what was submitted, fetched,
    completed and consumed (section 2.7 of VIRTIO 1.2). */
module VirtQueueModel {
  import opened Arithmetic

  const INDEX: nat := 0x1_0000

  datatype Used = Used(id: nat, len: nat)

  /** The words driver and device share or keep, then the logs: heads submitted by the
      driver, heads the device fetched, completions the device wrote, completions the
      driver popped; and who owns each descriptor: the free list, a client, or the queue. */
  datatype State = State(
    size: nat, availIdx: nat, usedIdx: nat, sharedUsed: nat, avail: seq<nat>, used: seq<Used>,
    submitted: seq<nat>, fetched: seq<nat>, completed: seq<Used>, popped: seq<Used>,
    free: seq<nat>, held: set<nat>, flying: set<nat>)

  predicate SizeOk(size: nat) {
    0 < size <= 0x8000 && INDEX % size == 0
  }

  /** The sizes covered are exactly the powers of two up to 32768. */
  lemma PowerOfTwoSizes(size: nat)
    ensures SizeOk(size) <==> exists k: nat :: k <= 15 && size == Pow2(k)
  {
    WordSizes();
    if SizeOk(size) {
      var k := DivisorIsPow2(size, 16);
      if k > 15 {
        Pow2Monotone(16, k);
      }
    }
    forall k: nat | k <= 15 && size == Pow2(k) ensures SizeOk(size) {
      Pow2Monotone(k, 15);
      Divides(k, 16);
    }
  }

  lemma {:induction false} DivisorIsPow2(d: nat, n: nat) returns (k: nat)
    requires d > 0 && Pow2(n) % d == 0
    ensures d == Pow2(k)
    decreases n
  {
    var q := Pow2(n) / d;
    assert Pow2(n) == d * q;
    if n == 0 {
      DivisorOfOne(d, q);
      k := 0;
    } else if d % 2 == 0 {
      var h := d / 2;
      assert 2 * Pow2(n - 1) == 2 * (h * q);
      DivModUnique(Pow2(n - 1), h, q, 0);
      k := DivisorIsPow2(h, n - 1);
      k := k + 1;
    } else {
      OddFactor(d, q, Pow2(n - 1));
      DivModUnique(Pow2(n - 1), d, q / 2, 0);
      k := DivisorIsPow2(d, n - 1);
    }
  }

  lemma DivisorOfOne(d: nat, q: nat)
    requires d * q == 1
    ensures d == 1
  {
    if d > 1 {
      assert q != 0;
      MulAtLeast(d, q);
    }
  }

  /** If an odd number times q is twice m, the factor two is in q. */
  lemma OddFactor(d: nat, q: nat, m: nat)
    requires d % 2 == 1 && d * q == 2 * m
    ensures m == d * (q / 2)
  {
    var e := d / 2;
    OddTimes(e, q);
    assert q == 2 * (m - e * q);
    EvenTimes(d, q / 2);
  }

  lemma OddTimes(e: nat, q: nat)
    ensures (2 * e + 1) * q == 2 * (e * q) + q
  {
  }

  lemma EvenTimes(d: nat, h: nat)
    ensures d * (2 * h) == 2 * (d * h)
  {
  }

  lemma {:induction false} Divides(k: nat, n: nat)
    requires k <= n
    ensures Pow2(n) % Pow2(k) == 0
    decreases n - k
  {
    if k == n {
      DivModUnique(Pow2(n), Pow2(n), 1, 0);
    } else {
      Divides(k, n - 1);
      var q := Pow2(n - 1) / Pow2(k);
      assert Pow2(n) == Pow2(k) * (2 * q);
      DivModUnique(Pow2(n), Pow2(k), 2 * q, 0);
    }
  }

  function Ids(s: seq<Used>): (r: seq<nat>)
    ensures |r| == |s|
  {
    seq(|s|, i requires 0 <= i < |s| => s[i].id)
  }

  function WrapSub(a: nat, b: nat): nat
    requires a < INDEX && b < INDEX
  {
    (a + INDEX - b) % INDEX
  }

  // ----- steps

  datatype Step =
    | Allocate
    | Submit(head: nat)
    | Pop
    | Release(desc: nat)
    | Fetch
    | Complete(done: Used)

  datatype Reply = Quiet | Full | Corrupted | Nothing | Popped(done: Used) | Descriptor(desc: nat) | OutOfDescriptors

  /** What clients owe (they pass only descriptors they hold) and what a conforming device
      does: it fetches while the index says there is more, and completes each head it
      fetched once. */
  ghost predicate Enabled(s: State, step: Step) {
    match step
    case Allocate => true
    case Submit(head) => head in s.held
    case Pop => true
    case Release(desc) => desc in s.held
    case Fetch => |s.fetched| % INDEX != s.availIdx
    case Complete(done) => done.id in multiset(s.fetched) - multiset(Ids(s.completed))
  }

  /** Well-formed enough for the steps to index the rings. */
  predicate Shaped(s: State) {
    SizeOk(s.size) && s.availIdx < INDEX && s.usedIdx < INDEX && s.sharedUsed < INDEX
    && |s.avail| == s.size && |s.used| == s.size
  }

  ghost function Next(s: State, step: Step): (State, Reply)
    requires Shaped(s) && Enabled(s, step)
  {
    match step
    case Allocate =>
      if s.free == [] then (s, OutOfDescriptors)
      else (s.(free := s.free[1..], held := s.held + {s.free[0]}), Descriptor(s.free[0]))
    case Submit(head) =>
      if WrapSub(s.availIdx, s.usedIdx) >= s.size then (s, Full)
      else (s.(avail := s.avail[s.availIdx % s.size := head], availIdx := (s.availIdx + 1) % INDEX,
               submitted := s.submitted + [head], held := s.held - {head}, flying := s.flying + {head}), Quiet)
    case Pop =>
      var delta := WrapSub(s.sharedUsed, s.usedIdx);
      if delta == 0 then (s, Nothing)
      else if delta > s.size then (s, Corrupted)
      else
        var done := s.used[s.usedIdx % s.size];
        (s.(usedIdx := (s.usedIdx + 1) % INDEX, popped := s.popped + [done],
            flying := s.flying - {done.id}, held := s.held + {done.id}), Popped(done))
    case Release(desc) => (s.(free := [desc] + s.free, held := s.held - {desc}), Quiet)
    case Fetch => (s.(fetched := s.fetched + [s.avail[|s.fetched| % s.size]]), Quiet)
    case Complete(done) =>
      (s.(used := s.used[|s.completed| % s.size := done], sharedUsed := (s.sharedUsed + 1) % INDEX,
          completed := s.completed + [done]), Quiet)
  }

  // ----- the invariant

  /** The wrapped indices stand for unbounded counts in the right order. */
  ghost predicate Counters(s: State) {
    && |s.popped| <= |s.completed| <= |s.fetched| <= |s.submitted| <= |s.popped| + s.size
    && s.availIdx == |s.submitted| % INDEX
    && s.usedIdx == |s.popped| % INDEX
    && s.sharedUsed == |s.completed| % INDEX
  }

  /** The rings still hold every entry that has not been consumed, the device fetched what
      was submitted, and the driver popped what was completed, in order. */
  ghost predicate Rings(s: State)
    requires Shaped(s)
  {
    && (forall k :: |s.popped| <= k < |s.submitted| ==> s.avail[k % s.size] == s.submitted[k])
    && (forall k :: |s.popped| <= k < |s.completed| ==> s.used[k % s.size] == s.completed[k])
    && s.fetched <= s.submitted
    && s.popped <= s.completed
  }

  /** Every descriptor is on the free list, held by a client, or in flight: exactly one. */
  ghost predicate Owned(s: State) {
    && (forall i, j :: 0 <= i < j < |s.free| ==> s.free[i] != s.free[j])
    && (forall d :: d in s.free ==> d !in s.held && d !in s.flying)
    && s.held !! s.flying
    && (forall d :: (d in s.free || d in s.held || d in s.flying) <==> 0 <= d < s.size)
    && multiset(s.submitted) == multiset(Ids(s.popped)) + multiset(s.flying)
    && multiset(Ids(s.completed)) <= multiset(s.fetched)
  }

  ghost predicate Inv(s: State) {
    Shaped(s) && Counters(s) && Rings(s) && Owned(s)
  }

  // ----- arithmetic of wrapped indices

  lemma WrapDifference(a: nat, b: nat)
    requires b <= a < b + INDEX
    ensures WrapSub(a % INDEX, b % INDEX) == a - b
  {
  }

  lemma WrapSucc(a: nat)
    ensures (a % INDEX + 1) % INDEX == (a + 1) % INDEX
  {
  }

  /** Masking the wrapped index finds the slot of the unbounded one. */
  lemma SlotOfWrapped(a: nat, size: nat)
    requires SizeOk(size)
    ensures (a % INDEX) % size == a % size
  {
    var m, q := INDEX / size, a / INDEX;
    var r := a % INDEX;
    assert a == INDEX * q + r && INDEX == size * m;
    assert a == size * (m * q + r / size) + r % size;
    DivModUnique(a, size, m * q + r / size, r % size);
  }

  /** Unbounded positions less than a ring apart have different slots. */
  lemma SlotsDiffer(j: nat, k: nat, size: nat)
    requires size > 0 && j < k < j + size
    ensures j % size != k % size
  {
    if j % size == k % size {
      MulSub(size, k / size, j / size);
      assert k - j == size * (k / size - j / size);
      MulAtLeast(size, k / size - j / size);
    }
  }

  // ----- every step keeps the invariant

  lemma AllocateInv(s: State)
    requires Inv(s)
    ensures Inv(Next(s, Allocate).0)
  {
  }

  lemma ReleaseInv(s: State, desc: nat)
    requires Inv(s) && desc in s.held
    ensures Inv(Next(s, Release(desc)).0)
  {
  }

  /** The queue cannot be full for a client that submits a descriptor it holds. */
  lemma NeverFull(s: State, head: nat)
    requires Inv(s) && head in s.held
    ensures |s.submitted| - |s.popped| == |s.flying| < s.size
    ensures WrapSub(s.availIdx, s.usedIdx) == |s.flying|
  {
    assert |multiset(s.submitted)| == |s.submitted|;
    assert |multiset(Ids(s.popped)) + multiset(s.flying)| == |s.popped| + |s.flying|;
    assert s.flying + {head} <= Below(s.size);
    BagCount(multiset(s.flying + {head}), multiset(Below(s.size)));
    WrapDifference(|s.submitted|, |s.popped|);
  }

  ghost function Below(n: nat): (r: set<nat>)
    ensures |r| == n && forall d :: d in r <==> 0 <= d < n
  {
    if n == 0 then {} else Below(n - 1) + {n - 1}
  }

  lemma SubmitInv(s: State, head: nat)
    requires Inv(s) && head in s.held
    ensures Inv(Next(s, Submit(head)).0)
  {
    hide Owned;
    SubmitCounters(s, head);
    SubmitRings(s, head);
    SubmitOwned(s, head);
  }

  lemma SubmitCounters(s: State, head: nat)
    requires Inv(s) && head in s.held
    ensures Shaped(Next(s, Submit(head)).0) && Counters(Next(s, Submit(head)).0)
  {
    NeverFull(s, head);
    WrapSucc(|s.submitted|);
  }

  lemma SubmitRings(s: State, head: nat)
    requires Inv(s) && head in s.held && Shaped(Next(s, Submit(head)).0)
    ensures Rings(Next(s, Submit(head)).0)
  {
    NeverFull(s, head);
    var n := |s.submitted|;
    SlotOfWrapped(n, s.size);
    forall k | |s.popped| <= k < n ensures k % s.size != n % s.size {
      SlotsDiffer(k, n, s.size);
    }
  }

  lemma SubmitOwned(s: State, head: nat)
    requires Inv(s) && head in s.held
    ensures Owned(Next(s, Submit(head)).0)
  {
  }

  /** Popping yields the next completion in device order; corruption is never reported. */
  lemma PopReply(s: State)
    requires Inv(s)
    ensures Next(s, Pop).1 ==
      if |s.popped| == |s.completed| then Nothing else Popped(s.completed[|s.popped|])
  {
    WrapDifference(|s.completed|, |s.popped|);
    SlotOfWrapped(|s.popped|, s.size);
  }

  /** The completion that is due names a head in flight. */
  lemma DueInFlight(s: State)
    requires Inv(s) && |s.popped| < |s.completed|
    ensures s.completed[|s.popped|].id in s.flying
  {
    hide Counters, Ids;
    var n, ids := |s.popped|, Ids(s.completed);
    IdsPrefix(s.popped, s.completed);
    PrefixBag(s.fetched, s.submitted);
    BagDue(multiset(s.submitted), ids, n, s.flying);
  }

  lemma IdsPrefix(a: seq<Used>, b: seq<Used>)
    requires a <= b
    ensures Ids(a) == Ids(b)[..|a|] && forall i :: 0 <= i < |b| ==> Ids(b)[i] == b[i].id
  {
  }

  /** If n of the ids account for all of a bag but a set, the next id is in that set. */
  lemma BagDue(bag: multiset<nat>, ids: seq<nat>, n: nat, rest: set<nat>)
    requires n < |ids| && multiset(ids) <= bag && bag == multiset(ids[..n]) + multiset(rest)
    ensures ids[n] in rest
  {
    assert ids == ids[..n] + [ids[n]] + ids[n + 1..];
    assert multiset(ids) == multiset(ids[..n]) + multiset{ids[n]} + multiset(ids[n + 1..]);
    assert multiset(ids)[ids[n]] >= multiset(ids[..n])[ids[n]] + 1;
  }

  lemma PrefixBag(a: seq<nat>, b: seq<nat>)
    requires a <= b
    ensures multiset(a) <= multiset(b)
  {
    assert b == a + b[|a|..];
  }

  lemma PopInv(s: State)
    requires Inv(s)
    ensures Inv(Next(s, Pop).0)
  {
    hide Owned, Rings, Counters;
    PopReply(s);
    PopShape(s);
    if |s.popped| < |s.completed| {
      DueInFlight(s);
      PopOwned(s);
    }
  }

  lemma PopShape(s: State)
    requires Inv(s)
    ensures Shaped(Next(s, Pop).0) && Counters(Next(s, Pop).0) && Rings(Next(s, Pop).0)
    ensures |s.popped| == |s.completed| ==> Next(s, Pop).0 == s
    ensures |s.popped| <= |s.completed|
  {
    hide Owned;
    PopReply(s);
    WrapSucc(|s.popped|);
    if |s.popped| < |s.completed| {
      assert s.completed[..|s.popped| + 1] == s.popped + [s.completed[|s.popped|]];
    }
  }

  lemma PopOwned(s: State)
    requires Inv(s) && |s.popped| < |s.completed| && s.completed[|s.popped|].id in s.flying
    ensures Owned(Next(s, Pop).0)
  {
    var t := Next(s, Pop).0;
    PopReply(s);
    var id := s.completed[|s.popped|].id;
    assert Ids(t.popped) == Ids(s.popped) + [id];
    assert multiset(s.flying) == multiset(t.flying) + multiset{id};
  }

  lemma FetchInv(s: State)
    requires Inv(s) && Enabled(s, Fetch)
    ensures Inv(Next(s, Fetch).0)
    ensures |s.fetched| < |s.submitted| && s.avail[|s.fetched| % s.size] == s.submitted[|s.fetched|]
  {
    hide Owned;
    FetchDue(s);
    FetchOwned(s);
    var t := Next(s, Fetch).0;
    assert t.fetched == s.fetched + [s.submitted[|s.fetched|]];
  }

  lemma FetchDue(s: State)
    requires Inv(s) && Enabled(s, Fetch)
    ensures |s.fetched| < |s.submitted|
  {
  }

  lemma FetchOwned(s: State)
    requires Inv(s) && Enabled(s, Fetch)
    ensures Owned(Next(s, Fetch).0)
  {
  }

  lemma CompleteInv(s: State, done: Used)
    requires Inv(s) && Enabled(s, Complete(done))
    ensures Inv(Next(s, Complete(done)).0)
  {
    hide Rings, Counters, Shaped;
    CompleteCounters(s, done);
    CompleteRings(s, done);
    CompleteOwned(s, done);
  }

  lemma CompleteOwned(s: State, done: Used)
    requires Inv(s) && Enabled(s, Complete(done))
    ensures Owned(Next(s, Complete(done)).0) && |s.completed| < |s.fetched|
  {
    hide Rings, Counters;
    var t := Next(s, Complete(done)).0;
    var n := |s.completed|;
    assert Ids(t.completed) == Ids(s.completed) + [done.id];
    assert multiset(Ids(t.completed)) == multiset(Ids(s.completed)) + multiset{done.id};
    assert multiset(Ids(t.completed)) <= multiset(s.fetched);
    assert |multiset(Ids(t.completed))| == n + 1 && |multiset(s.fetched)| == |s.fetched|;
    BagCount(multiset(Ids(t.completed)), multiset(s.fetched));
  }

  lemma CompleteCounters(s: State, done: Used)
    requires Inv(s) && Enabled(s, Complete(done))
    ensures Shaped(Next(s, Complete(done)).0) && Counters(Next(s, Complete(done)).0)
  {
    hide Owned, Rings;
    CompleteOwned(s, done);
    WrapSucc(|s.completed|);
  }

  lemma CompleteRings(s: State, done: Used)
    requires Inv(s) && Enabled(s, Complete(done)) && Shaped(Next(s, Complete(done)).0)
    ensures Rings(Next(s, Complete(done)).0)
  {
    hide Owned;
    CompleteOwned(s, done);
    var n := |s.completed|;
    forall k | |s.popped| <= k < n ensures k % s.size != n % s.size {
      SlotsDiffer(k, n, s.size);
    }
  }

  lemma BagCount(a: multiset<nat>, b: multiset<nat>)
    requires a <= b
    ensures |a| <= |b|
  {
    assert b == a + (b - a);
  }

  lemma StepInv(s: State, step: Step)
    requires Inv(s) && Enabled(s, step)
    ensures Inv(Next(s, step).0)
    ensures Next(s, step).1 != Corrupted && Next(s, step).1 != Full
  {
    match step
    case Allocate => AllocateInv(s);
    case Submit(head) =>
      SubmitInv(s, head);
      NeverFull(s, head);
    case Pop =>
      PopInv(s);
      PopReply(s);
    case Release(desc) => ReleaseInv(s, desc);
    case Fetch => FetchInv(s);
    case Complete(done) => CompleteInv(s, done);
  }

  // ----- what each call comes to

  /** A descriptor is handed out unless all of them are held or in flight; it was neither, and is
      held afterwards. */
  lemma AllocateExact(s: State)
    requires Inv(s)
    ensures var (t, r) := Next(s, Allocate);
      && (r == OutOfDescriptors <==> |s.held| + |s.flying| == s.size)
      && (r == OutOfDescriptors ==> t == s)
      && (r != OutOfDescriptors ==>
            && r.Descriptor? && r.desc < s.size && r.desc !in s.held && r.desc !in s.flying
            && t.held == s.held + {r.desc} && t.free == s.free[1..] && t.(free := s.free, held := s.held) == s)
  {
    var out := s.held + s.flying;
    assert |out| == |s.held| + |s.flying|;
    if s.free == [] {
      assert out == Below(s.size);
    } else {
      var d := s.free[0];
      assert d in s.free;
      assert out + {d} <= Below(s.size);
      BagCount(multiset(out + {d}), multiset(Below(s.size)));
    }
  }

  /** A descriptor that is submitted is taken, is the next the device will be given, and is in
      flight. */
  lemma SubmitExact(s: State, head: nat)
    requires Inv(s) && head in s.held
    ensures var (t, r) := Next(s, Submit(head));
      && r == Quiet && t.submitted == s.submitted + [head]
      && t.flying == s.flying + {head} && t.held == s.held - {head}
      && t.free == s.free && t.fetched == s.fetched && t.completed == s.completed && t.popped == s.popped
  {
    NeverFull(s, head);
  }

  /** A completion that is popped is the next one in device order; its descriptor goes back to
      the client. */
  lemma PopExact(s: State)
    requires Inv(s)
    ensures var (t, r) := Next(s, Pop);
      && (r == Nothing <==> |s.popped| == |s.completed|)
      && (r == Nothing ==> t == s)
      && (r != Nothing ==>
            && r == Popped(s.completed[|s.popped|]) && t.popped == s.popped + [r.done]
            && r.done.id in s.flying && t.flying == s.flying - {r.done.id} && t.held == s.held + {r.done.id}
            && t.free == s.free && t.submitted == s.submitted && t.completed == s.completed)
  {
    hide Owned;
    PopReply(s);
    if |s.popped| < |s.completed| {
      DueInFlight(s);
    }
  }

  /** A descriptor that is released is the next to be handed out, which undoes the release. */
  lemma ReleaseExact(s: State, desc: nat)
    requires Inv(s) && desc in s.held
    ensures var t := Next(s, Release(desc)).0;
      && t.held == s.held - {desc} && t.flying == s.flying
      && Next(t, Allocate) == (s, Descriptor(desc))
  {
    var t := Next(s, Release(desc)).0;
    assert t.free[1..] == s.free;
    assert t.held + {desc} == s.held;
  }

  /** The guards, whatever clients and device have done: n entries ahead of the used index, a ring
      of n >= size entries is full, and a device that is n > size completions ahead is broken. */
  lemma GuardsExact(s: State, n: nat)
    requires Shaped(s) && n < 65536
    ensures s.availIdx == (s.usedIdx + n) % 65536 ==>
      forall head :: head in s.held ==> (Next(s, Submit(head)).1 == Full <==> n >= s.size)
    ensures s.sharedUsed == (s.usedIdx + n) % 65536 ==>
      Next(s, Pop).1 ==
        if n == 0 then Nothing else if n > s.size then Corrupted else Popped(s.used[s.usedIdx % s.size])
  {
    hide WrapSub;
    WrapAhead(s.usedIdx, n);
  }

  lemma WrapAhead(u: nat, n: nat)
    requires u < 65536 && n < 65536
    ensures WrapSub((u + n) % 65536, u) == n
  {
    WrapDifference(u + n, u);
  }

  // ----- whole runs

  ghost predicate Legal(s: State, steps: seq<Step>)
    requires Inv(s)
    decreases |steps|
  {
    steps == [] || (Enabled(s, steps[0]) && (StepInv(s, steps[0]); Legal(Next(s, steps[0]).0, steps[1..])))
  }

  ghost function Run(s: State, steps: seq<Step>): (r: State)
    requires Inv(s) && Legal(s, steps)
    ensures Inv(r)
    decreases |steps|
  {
    if steps == [] then s else
      StepInv(s, steps[0]);
      Run(Next(s, steps[0]).0, steps[1..])
  }

  /** `new`: descriptors are pushed in ascending order, so the last one is on top. */
  ghost function Init(size: nat): (s: State)
    requires SizeOk(size)
    ensures Inv(s)
  {
    State(size, 0, 0, 0, seq(size, _ => 0), seq(size, _ => Used(0, 0)), [], [], [], [], Descending(size), {}, {})
  }

  function Descending(n: nat): (r: seq<nat>)
    ensures |r| == n && forall i :: 0 <= i < n ==> r[i] == n - 1 - i
    ensures forall d :: d in r <==> 0 <= d < n
  {
    if n == 0 then [] else [n - 1] + Descending(n - 1)
  }

  /** Over every interleaving of clients and device: the counters stay in order, the device
      fetches the heads in the order submitted, the driver pops the completions once each
      in device order, and a further step never reports corruption or a full queue. */
  lemma EveryRun(size: nat, steps: seq<Step>, step: Step)
    requires SizeOk(size) && Legal(Init(size), steps) && Enabled(Run(Init(size), steps), step)
    ensures var s := Run(Init(size), steps);
      && |s.popped| <= |s.completed| <= |s.fetched| <= |s.submitted| <= |s.popped| + s.size
      && s.fetched <= s.submitted && s.popped <= s.completed
      && Next(s, step).1 != Corrupted && Next(s, step).1 != Full
      && (step == Fetch ==> |s.fetched| < |s.submitted| && s.avail[|s.fetched| % s.size] == s.submitted[|s.fetched|])
      && (step == Pop && |s.popped| < |s.completed| ==> Next(s, step).1 == Popped(s.completed[|s.popped|]))
  {
    hide Owned;
    var s := Run(Init(size), steps);
    StepInv(s, step);
    PopReply(s);
    if step == Fetch {
      FetchInv(s);
    }
  }

  /** Over every interleaving, a client that asks for a descriptor gets one that is neither held
      nor in flight, unless all of them are. */
  lemma EveryAllocation(size: nat, steps: seq<Step>)
    requires SizeOk(size) && Legal(Init(size), steps)
    ensures var s := Run(Init(size), steps);
      var r := Next(s, Allocate).1;
      if |s.held| + |s.flying| == size then r == OutOfDescriptors
      else r.Descriptor? && r.desc < size && r.desc !in s.held && r.desc !in s.flying
             && r.desc in Next(s, Allocate).0.held
  {
    hide Owned, Rings, Counters, Next;
    RunSize(Init(size), steps);
    AllocateExact(Run(Init(size), steps));
  }

  /** Over every interleaving, each descriptor is free, held by a client or in flight, in
      exactly one place. */
  lemma EveryDescriptorOwnedOnce(size: nat, steps: seq<Step>, d: nat)
    requires SizeOk(size) && Legal(Init(size), steps) && d < size
    ensures var s := Run(Init(size), steps);
      multiset(s.free)[d] + (if d in s.held then 1 else 0) + (if d in s.flying then 1 else 0) == 1
  {
    var s := Run(Init(size), steps);
    RunSize(Init(size), steps);
    OnceInList(s.free, d);
  }

  lemma {:induction false} OnceInList(free: seq<nat>, d: nat)
    requires forall i, j :: 0 <= i < j < |free| ==> free[i] != free[j]
    ensures multiset(free)[d] == if d in free then 1 else 0
  {
    if free != [] {
      OnceInList(free[1..], d);
      assert free == [free[0]] + free[1..];
      assert forall i :: 0 <= i < |free[1..]| ==> free[1..][i] == free[i + 1];
    }
  }

  lemma {:induction false} RunSize(s: State, steps: seq<Step>)
    requires Inv(s) && Legal(s, steps)
    ensures Run(s, steps).size == s.size
    decreases |steps|
  {
    hide Counters, Rings, Owned;
    if steps != [] {
      StepInv(s, steps[0]);
      NextSize(s, steps[0]);
      RunSize(Next(s, steps[0]).0, steps[1..]);
    }
  }

  lemma NextSize(s: State, step: Step)
    requires Inv(s) && Enabled(s, step)
    ensures Next(s, step).0.size == s.size
  {
  }
}
