/** The reader-writer lock as an interleaving of atomic steps on one machine word: the
    low bits count read guards, the top bit is the writer flag. Loads may be stale by the
    time of the compare-and-exchange, which may also fail spuriously. */
module RwLock {
  import opened Arithmetic
  import opened Bits

  /** `WRITE_FLAG`: the top bit of a 64-bit word. */
  const FLAG: nat := 0x8000_0000_0000_0000
  const WORD: nat := 0x1_0000_0000_0000_0000

  /** Where an agent is: idle, holding a loaded word on the way to a guard, holding a read
      guard, waiting for readers to leave, or holding the write guard. */
  datatype Agent =
    | Idle
    | ReadSaw(word: nat)
    | Reading
    | WriteSaw(word: nat)
    | Draining
    | Writing

  datatype State = State(word: nat, agents: seq<Agent>)

  datatype Step =
    | LoadForRead(i: nat)
    | LoadForWrite(i: nat)
    | CasRead(i: nat, spurious: bool)
    | CasWrite(i: nat, spurious: bool)
    | Drain(i: nat)
    | DropRead(i: nat)
    | DropWrite(i: nat)

  function Init(n: nat): State {
    State(0, seq(n, _ => Idle))
  }

  predicate Enabled(s: State, step: Step) {
    step.i < |s.agents| &&
    match step
    case LoadForRead(i) => s.agents[i].Idle?
    case LoadForWrite(i) => s.agents[i].Idle?
    case CasRead(i, _) => s.agents[i].ReadSaw?
    case CasWrite(i, _) => s.agents[i].WriteSaw?
    case Drain(i) => s.agents[i].Draining?
    case DropRead(i) => s.agents[i].Reading?
    case DropWrite(i) => s.agents[i].Writing?
  }

  function Goes(s: State, i: nat, a: Agent, word: nat): State
    requires i < |s.agents|
  {
    State(word, s.agents[i := a])
  }

  /** One atomic step. A compare-and-exchange succeeds when the flag was clear in what was
      loaded and the word still has that value. */
  function Next(s: State, step: Step): State
    requires Enabled(s, step)
  {
    match step
    case LoadForRead(i) => Goes(s, i, ReadSaw(s.word), s.word)
    case LoadForWrite(i) => Goes(s, i, WriteSaw(s.word), s.word)
    case CasRead(i, spurious) =>
      var seen := s.agents[i].word;
      if And(seen, FLAG) == 0 && seen == s.word && !spurious then Goes(s, i, Reading, (seen + 1) % WORD)
      else Goes(s, i, Idle, s.word)
    case CasWrite(i, spurious) =>
      var seen := s.agents[i].word;
      if And(seen, FLAG) == 0 && seen == s.word && !spurious then Goes(s, i, Draining, Or(seen, FLAG))
      else Goes(s, i, Idle, s.word)
    case Drain(i) => if And(s.word, FLAG - 1) == 0 then Goes(s, i, Writing, s.word) else s
    case DropRead(i) => Goes(s, i, Idle, (s.word + WORD - 1) % WORD)
    case DropWrite(i) => Goes(s, i, Idle, And(s.word, FLAG - 1))
  }

  /** Testing, setting and clearing the top bit, as arithmetic on the word. */
  lemma FlagBits(w: nat)
    requires w < WORD
    ensures And(w, FLAG) == 0 <==> w < FLAG
    ensures w < FLAG ==> Or(w, FLAG) == w + FLAG
    ensures And(w, FLAG - 1) == w % FLAG
  {
    hide And, Or, Pow2;
    WordSizes();
    AndBit(w, 63);
    if w < FLAG {
      OrBit(w, 63);
    }
    AndMask(w, 63);
  }

  function Readers(agents: seq<Agent>): (n: nat)
    ensures n <= |agents|
  {
    if agents == [] then 0 else Readers(agents[1..]) + (if agents[0].Reading? then 1 else 0)
  }

  predicate Announced(a: Agent) {
    a.Draining? || a.Writing?
  }

  function Writers(agents: seq<Agent>): (n: nat)
    ensures n <= |agents|
  {
    if agents == [] then 0 else Writers(agents[1..]) + (if Announced(agents[0]) then 1 else 0)
  }

  /** The word is the number of read guards plus the flag of the one agent that may have
      announced itself, and a write guard excludes read guards. There are never more than
      2^63 read guards, and at that many nobody has announced itself: the full counter
      looks like the flag, so nobody else gets in. */
  ghost predicate Inv(s: State) {
    && s.word == Readers(s.agents) + (if Writers(s.agents) == 0 then 0 else FLAG)
    && Writers(s.agents) <= 1
    && Readers(s.agents) <= FLAG && (Readers(s.agents) == FLAG ==> Writers(s.agents) == 0)
    && (forall i :: 0 <= i < |s.agents| && s.agents[i].Writing? ==> Readers(s.agents) == 0)
  }

  lemma {:induction false} CountUpdate(agents: seq<Agent>, i: nat, a: Agent)
    requires i < |agents|
    ensures Readers(agents[i := a]) ==
      Readers(agents) - (if agents[i].Reading? then 1 else 0) + (if a.Reading? then 1 else 0)
    ensures Writers(agents[i := a]) ==
      Writers(agents) - (if Announced(agents[i]) then 1 else 0) + (if Announced(a) then 1 else 0)
    decreases |agents|
  {
    var after := agents[i := a];
    if i == 0 {
      assert after[1..] == agents[1..];
    } else {
      assert after[1..] == agents[1..][i - 1 := a];
      CountUpdate(agents[1..], i - 1, a);
    }
  }

  lemma {:induction false} CountsPositive(agents: seq<Agent>, i: nat)
    requires i < |agents|
    ensures agents[i].Reading? ==> Readers(agents) >= 1
    ensures Announced(agents[i]) ==> Writers(agents) >= 1
  {
    CountUpdate(agents, i, Idle);
  }

  /** Two announced agents are counted twice. */
  lemma {:induction false} TwoWriters(agents: seq<Agent>, i: nat, j: nat)
    requires i < |agents| && j < |agents| && i != j && Announced(agents[i]) && Announced(agents[j])
    ensures Writers(agents) >= 2
  {
    CountUpdate(agents, i, Idle);
    CountsPositive(agents[i := Idle], j);
  }

  lemma InitInv(n: nat)
    ensures Inv(Init(n))
  {
    NoneActive(Init(n).agents);
  }

  lemma {:induction false} NoneActive(agents: seq<Agent>)
    requires forall i :: 0 <= i < |agents| ==> agents[i].Idle?
    ensures Readers(agents) == 0 && Writers(agents) == 0
  {
    if agents != [] {
      NoneActive(agents[1..]);
    }
  }

  /** One step changes one agent, and the counts and the word accordingly. */
  lemma StepCounts(s: State, step: Step)
    requires Inv(s) && Enabled(s, step)
    ensures var t := Next(s, step);
      && |t.agents| == |s.agents| && t.agents == s.agents[step.i := t.agents[step.i]]
      && t.word == Readers(t.agents) + (if Writers(t.agents) == 0 then 0 else FLAG)
      && Writers(t.agents) <= 1
      && Readers(t.agents) <= FLAG && (Readers(t.agents) == FLAG ==> Writers(t.agents) == 0)
      && (Writers(s.agents) == 1 && Writers(t.agents) == 1 ==> Readers(t.agents) <= Readers(s.agents))
  {
    hide And, Or, Readers, Writers;
    FlagBits(s.word);
    var t, i := Next(s, step), step.i;
    CountUpdate(s.agents, i, t.agents[i]);
    CountsPositive(s.agents, i);
  }

  lemma StepExclusive(s: State, step: Step, j: nat)
    requires Inv(s) && Enabled(s, step)
    requires j < |Next(s, step).agents| && Next(s, step).agents[j].Writing?
    ensures Readers(Next(s, step).agents) == 0
  {
    hide And, Or, Readers, Writers;
    FlagBits(s.word);
    StepCounts(s, step);
    var t, i := Next(s, step), step.i;
    CountUpdate(s.agents, i, t.agents[i]);
    CountsPositive(s.agents, i);
    if j != i {
      CountsPositive(s.agents, j);
      if Announced(t.agents[i]) {
        TwoWriters(t.agents, i, j);
      }
    }
  }

  lemma StepInv(s: State, step: Step)
    requires Inv(s) && Enabled(s, step)
    ensures Inv(Next(s, step)) && |Next(s, step).agents| == |s.agents|
    ensures Writers(s.agents) == 1 && Writers(Next(s, step).agents) == 1 ==>
      Readers(Next(s, step).agents) <= Readers(s.agents)
  {
    hide Next, Readers, Writers;
    StepCounts(s, step);
    forall j | 0 <= j < |Next(s, step).agents| && Next(s, step).agents[j].Writing?
      ensures Readers(Next(s, step).agents) == 0
    {
      StepExclusive(s, step, j);
    }
  }

  // ----- whole runs

  ghost predicate Legal(s: State, steps: seq<Step>)
    decreases |steps|
  {
    steps == [] || (Enabled(s, steps[0]) && Legal(Next(s, steps[0]), steps[1..]))
  }

  ghost function Run(s: State, steps: seq<Step>): (r: State)
    requires Legal(s, steps)
    ensures |r.agents| == |s.agents|
    decreases |steps|
  {
    if steps == [] then s else Run(Next(s, steps[0]), steps[1..])
  }

  lemma {:induction false} RunInv(s: State, steps: seq<Step>)
    requires Inv(s) && Legal(s, steps)
    ensures Inv(Run(s, steps))
    decreases |steps|
  {
    hide Inv;
    if steps != [] {
      StepInv(s, steps[0]);
      RunInv(Next(s, steps[0]), steps[1..]);
    }
  }

  /** A write guard excludes every other guard. */
  ghost predicate Exclusive(s: State) {
    forall i, j :: 0 <= i < |s.agents| && 0 <= j < |s.agents| && i != j && s.agents[i].Writing? ==>
      !s.agents[j].Reading? && !s.agents[j].Writing?
  }

  /** The flag is set exactly when some agent is draining or writing. */
  ghost predicate FlagTells(s: State) {
    s.word >= FLAG <==> exists i :: 0 <= i < |s.agents| && Announced(s.agents[i])
  }

  /** In every reachable state, however many agents there are: a write guard excludes every
      other guard, at most one agent has announced itself, and the word is the number of
      read guards plus the flag of that agent. */
  lemma SafeRun(n: nat, steps: seq<Step>)
    requires Legal(Init(n), steps)
    ensures var s := Run(Init(n), steps);
      && Exclusive(s) && Writers(s.agents) <= 1 && Readers(s.agents) <= FLAG
      && s.word == Readers(s.agents) + (if Writers(s.agents) == 0 then 0 else FLAG) < WORD
      && ((forall i :: 0 <= i < |s.agents| ==> !s.agents[i].Reading? && !Announced(s.agents[i])) ==> s.word == 0)
  {
    InitInv(n);
    RunInv(Init(n), steps);
    var s := Run(Init(n), steps);
    InvExclusive(s);
    if forall i :: 0 <= i < |s.agents| ==> !s.agents[i].Reading? && !Announced(s.agents[i]) {
      NoGuards(s.agents);
    }
  }

  lemma {:induction false} NoGuards(agents: seq<Agent>)
    requires forall i :: 0 <= i < |agents| ==> !agents[i].Reading? && !Announced(agents[i])
    ensures Readers(agents) == 0 && Writers(agents) == 0
  {
    if agents != [] {
      NoGuards(agents[1..]);
    }
  }

  lemma InvExclusive(s: State)
    requires Inv(s)
    ensures Exclusive(s)
  {
    forall i, j | 0 <= i < |s.agents| && 0 <= j < |s.agents| && i != j && s.agents[i].Writing?
      ensures !s.agents[j].Reading? && !s.agents[j].Writing?
    {
      CountsPositive(s.agents, j);
      if s.agents[j].Writing? {
        TwoWriters(s.agents, i, j);
      }
    }
  }

  /** The flag tells the truth as long as the counter does not reach it. */
  lemma InvFlag(s: State)
    requires Inv(s)
    ensures FlagTells(s) <==> Readers(s.agents) < FLAG
  {
    if Writers(s.agents) >= 1 {
      var i := SomeWriter(s.agents);
    } else {
      forall i | 0 <= i < |s.agents| ensures !Announced(s.agents[i]) {
        CountsPositive(s.agents, i);
      }
    }
  }

  lemma {:induction false} SomeWriter(agents: seq<Agent>) returns (i: nat)
    requires Writers(agents) >= 1
    ensures i < |agents| && Announced(agents[i])
  {
    if Announced(agents[0]) {
      i := 0;
    } else {
      var k := SomeWriter(agents[1..]);
      i := k + 1;
    }
  }

  /** As long as a writer stays announced, the number of read guards never grows. */
  lemma {:induction false} ReadersNeverGrow(s: State, steps: seq<Step>)
    requires Inv(s) && Legal(s, steps) && Writers(s.agents) == 1
    requires StaysAnnounced(s, steps)
    ensures Readers(Run(s, steps).agents) <= Readers(s.agents)
    decreases |steps|
  {
    hide Inv;
    if steps != [] {
      StepInv(s, steps[0]);
      ReadersNeverGrow(Next(s, steps[0]), steps[1..]);
    }
  }

  ghost predicate StaysAnnounced(s: State, steps: seq<Step>)
    requires Legal(s, steps)
    decreases |steps|
  {
    steps == [] || (Writers(Next(s, steps[0]).agents) == 1 && StaysAnnounced(Next(s, steps[0]), steps[1..]))
  }

  // ----- who gets in

  /** In every reachable state, a writer whose compare-and-exchange goes through announces itself
      whatever the number of readers, as long as nobody else has and the counter is below the
      flag; it keeps no reader from finishing. */
  lemma WriterAnnounces(n: nat, steps: seq<Step>, i: nat)
    requires Legal(Init(n), steps) && i < |Run(Init(n), steps).agents|
    requires var s := Run(Init(n), steps); s.agents[i] == WriteSaw(s.word)
    ensures var s := Run(Init(n), steps); var t := Next(s, CasWrite(i, false));
      && (Announced(t.agents[i]) <==> Writers(s.agents) == 0 && Readers(s.agents) < 0x8000_0000_0000_0000)
      && (Announced(t.agents[i]) ==> t.word == s.word + 0x8000_0000_0000_0000)
      && (!Announced(t.agents[i]) ==> t.agents[i] == Idle && t.word == s.word)
      && Readers(t.agents) == Readers(s.agents)
  {
    hide And, Or, Run, Legal, Readers, Writers;
    InitInv(n);
    RunInv(Init(n), steps);
    var s := Run(Init(n), steps);
    var t := Next(s, CasWrite(i, false));
    FlagBits(s.word);
    CountUpdate(s.agents, i, t.agents[i]);
  }

  /** In every reachable state, a reader whose compare-and-exchange goes through takes a guard
      exactly when nobody has announced itself and the counter is below the flag. */
  lemma ReaderEnters(n: nat, steps: seq<Step>, i: nat)
    requires Legal(Init(n), steps) && i < |Run(Init(n), steps).agents|
    requires var s := Run(Init(n), steps); s.agents[i] == ReadSaw(s.word)
    ensures var s := Run(Init(n), steps); var t := Next(s, CasRead(i, false));
      && (t.agents[i].Reading? <==> Writers(s.agents) == 0 && Readers(s.agents) < 0x8000_0000_0000_0000)
      && (t.agents[i].Reading? ==> Readers(t.agents) == Readers(s.agents) + 1 && t.word == s.word + 1)
      && (!t.agents[i].Reading? ==> t.agents[i] == Idle && t.word == s.word)
  {
    hide And, Or, Run, Legal, Readers, Writers;
    InitInv(n);
    RunInv(Init(n), steps);
    var s := Run(Init(n), steps);
    var t := Next(s, CasRead(i, false));
    FlagBits(s.word);
    CountUpdate(s.agents, i, t.agents[i]);
  }

  /** In every reachable state, an announced writer gets its guard exactly when no read guard is
      held, and waits otherwise. */
  lemma DrainExact(n: nat, steps: seq<Step>, i: nat)
    requires Legal(Init(n), steps) && i < |Run(Init(n), steps).agents|
    requires Run(Init(n), steps).agents[i].Draining?
    ensures var s := Run(Init(n), steps); var t := Next(s, Drain(i));
      && t.word == s.word
      && t.agents == s.agents[i := if Readers(s.agents) == 0 then Writing else Draining]
  {
    hide And, Or, Run, Legal, Readers, Writers;
    InitInv(n);
    RunInv(Init(n), steps);
    var s := Run(Init(n), steps);
    FlagBits(s.word);
    CountsPositive(s.agents, i);
  }

  /** In every reachable state, dropping a guard gives up exactly that guard. */
  lemma DropExact(n: nat, steps: seq<Step>, i: nat)
    requires Legal(Init(n), steps) && i < |Run(Init(n), steps).agents|
    ensures var s := Run(Init(n), steps);
      && (s.agents[i].Reading? ==>
            var t := Next(s, DropRead(i));
            && t.agents == s.agents[i := Idle] && t.word + 1 == s.word
            && Readers(t.agents) + 1 == Readers(s.agents) && Writers(t.agents) == Writers(s.agents))
      && (s.agents[i].Writing? ==>
            var t := Next(s, DropWrite(i));
            && t.agents == s.agents[i := Idle] && t.word == 0
            && Readers(t.agents) == 0 && Writers(t.agents) == 0)
  {
    hide And, Or, Run, Legal, Readers, Writers;
    InitInv(n);
    RunInv(Init(n), steps);
    var s := Run(Init(n), steps);
    FlagBits(s.word);
    CountUpdate(s.agents, i, Idle);
    CountsPositive(s.agents, i);
  }

  /** Loading takes note of the current word; losing the race changes nothing else. */
  lemma LoadExact(s: State, i: nat)
    requires i < |s.agents|
    ensures s.agents[i].Idle? ==>
      && Next(s, LoadForRead(i)) == State(s.word, s.agents[i := ReadSaw(s.word)])
      && Next(s, LoadForWrite(i)) == State(s.word, s.agents[i := WriteSaw(s.word)])
    ensures s.agents[i].ReadSaw? ==>
      forall spurious :: spurious || s.agents[i].word != s.word ==>
        Next(s, CasRead(i, spurious)) == State(s.word, s.agents[i := Idle])
    ensures s.agents[i].WriteSaw? ==>
      forall spurious :: spurious || s.agents[i].word != s.word ==>
        Next(s, CasWrite(i, spurious)) == State(s.word, s.agents[i := Idle])
  {
    hide And, Or;
  }

  // ----- when the flag can be trusted

  /** k read guards held by the first k agents. */
  ghost function Crowd(n: nat, k: nat): State
    requires k <= n
  {
    State(k, seq(n, i => if i < k then Reading else Idle))
  }

  /** A run that lets the first k agents take read guards. */
  ghost function EnterAll(from: nat, k: nat): seq<Step>
    requires from <= k
    decreases k - from
  {
    if from == k then [] else [LoadForRead(from), CasRead(from, false)] + EnterAll(from + 1, k)
  }

  lemma {:induction false} CrowdReachable(n: nat, from: nat, k: nat)
    requires from <= k <= n && k <= FLAG
    ensures Legal(Crowd(n, from), EnterAll(from, k)) && Run(Crowd(n, from), EnterAll(from, k)) == Crowd(n, k)
    decreases k - from
  {
    hide And, Or;
    if from < k {
      FlagBits(from);
      var s, steps := Crowd(n, from), EnterAll(from, k);
      var s1 := Next(s, LoadForRead(from));
      var s2 := Next(s1, CasRead(from, false));
      assert s2 == Crowd(n, from + 1);
      assert steps[1..][0] == CasRead(from, false) && steps[1..][1..] == EnterAll(from + 1, k);
      CrowdReachable(n, from + 1, k);
    }
  }

  /** Over all interleavings the flag is set exactly while some agent drains or writes, if
      and only if there are fewer agents than the counter can tell apart from the flag. */
  lemma FlagBound(n: nat)
    ensures (forall steps :: Legal(Init(n), steps) ==> FlagTells(Run(Init(n), steps))) <==> n < FLAG
  {
    InitInv(n);
    if n < FLAG {
      forall steps | Legal(Init(n), steps) ensures FlagTells(Run(Init(n), steps)) {
        RunInv(Init(n), steps);
        InvFlag(Run(Init(n), steps));
      }
    } else {
      CrowdReachable(n, 0, FLAG);
      assert Crowd(n, 0) == Init(n);
      var s := Crowd(n, FLAG);
      assert s.word >= FLAG && forall i :: 0 <= i < |s.agents| ==> !Announced(s.agents[i]);
      assert !FlagTells(Run(Init(n), EnterAll(0, FLAG)));
    }
  }

  // ----- a writer gets through

  /** The first k agents hold read guards and the last one is in the state given. */
  ghost function Contended(k: nat, done: nat, last: Agent, word: nat): State
    requires done <= k
  {
    State(word, seq(k + 1, i => if i == k then last else if done <= i < k then Reading else Idle))
  }

  /** The read guards from `done` on are dropped one by one. */
  ghost function LeaveAll(done: nat, k: nat): (steps: seq<Step>)
    requires done <= k
    ensures |steps| == k - done
    decreases k - done
  {
    if done == k then [] else [DropRead(done)] + LeaveAll(done + 1, k)
  }

  lemma {:induction false} LegalConcat(s: State, a: seq<Step>, b: seq<Step>)
    requires Legal(s, a) && Legal(Run(s, a), b)
    ensures Legal(s, a + b) && Run(s, a + b) == Run(Run(s, a), b)
    decreases |a|
  {
    if a == [] {
      assert a + b == b;
    } else {
      LegalConcat(Next(s, a[0]), a[1..], b);
      assert (a + b)[0] == a[0] && (a + b)[1..] == a[1..] + b;
    }
  }

  lemma {:induction false} Leaves(k: nat, done: nat)
    requires done <= k < FLAG
    ensures Legal(Contended(k, done, Draining, FLAG + (k - done)), LeaveAll(done, k))
    ensures Run(Contended(k, done, Draining, FLAG + (k - done)), LeaveAll(done, k)) == Contended(k, k, Draining, FLAG)
    decreases k - done
  {
    hide And, Or;
    if done < k {
      var s, steps := Contended(k, done, Draining, FLAG + (k - done)), LeaveAll(done, k);
      var t := Next(s, steps[0]);
      assert t == Contended(k, done + 1, Draining, FLAG + (k - (done + 1)));
      assert steps[1..] == LeaveAll(done + 1, k);
      Leaves(k, done + 1);
    }
  }

  /** The run that takes k read guards and then announces a writer. */
  ghost function Announce(k: nat): seq<Step> {
    EnterAll(0, k) + [LoadForWrite(k), CasWrite(k, false)]
  }

  /** For any number k of readers below 2^63: a legal run announces a writer while all k read
      guards are held, and when they are dropped that writer gets its guard. */
  lemma WriterGetsThrough(k: nat)
    requires k < 0x8000_0000_0000_0000
    ensures Legal(Init(k + 1), Announce(k))
    ensures var s := Run(Init(k + 1), Announce(k));
      && (forall i :: 0 <= i < k ==> s.agents[i] == Reading) && s.agents[k] == Draining
      && Legal(s, LeaveAll(0, k) + [Drain(k)])
      && Run(s, LeaveAll(0, k) + [Drain(k)]).agents[k] == Writing
  {
    hide And, Or;
    var n := k + 1;
    CrowdReachable(n, 0, k);
    assert Crowd(n, 0) == Init(n);
    var crowd := Crowd(n, k);
    WriterEnters(k);
    LegalConcat(Init(n), EnterAll(0, k), [LoadForWrite(k), CasWrite(k, false)]);
    var s := Run(Init(n), Announce(k));
    Leaves(k, 0);
    DrainsLast(k);
    LegalConcat(s, LeaveAll(0, k), [Drain(k)]);
  }

  lemma WriterEnters(k: nat)
    requires k < FLAG
    ensures var steps := [LoadForWrite(k), CasWrite(k, false)];
      && Legal(Crowd(k + 1, k), steps)
      && Run(Crowd(k + 1, k), steps) == Contended(k, 0, Draining, FLAG + k)
  {
    hide And, Or;
    FlagBits(k);
    var steps := [LoadForWrite(k), CasWrite(k, false)];
    var s := Crowd(k + 1, k);
    var t := Next(s, steps[0]);
    var u := Next(t, CasWrite(k, false));
    assert u == Contended(k, 0, Draining, FLAG + k);
    assert steps[1..] == [CasWrite(k, false)] && steps[1..][1..] == [];
    assert Legal(u, []) && Run(u, []) == u;
    assert Legal(t, steps[1..]) && Run(t, steps[1..]) == u;
  }

  lemma DrainsLast(k: nat)
    requires k < FLAG
    ensures var s := Contended(k, k, Draining, FLAG);
      Legal(s, [Drain(k)]) && Run(s, [Drain(k)]).agents[k] == Writing
  {
    hide And, Or;
    FlagBits(FLAG);
    var s := Contended(k, k, Draining, FLAG);
    var t := Next(s, Drain(k));
    assert [Drain(k)][1..] == [];
    assert Legal(t, []) && Run(t, []) == t;
  }
}
