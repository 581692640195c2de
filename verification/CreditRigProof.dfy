/** Every interleaving of the credit rig keeps its books, quits no worker early, and comes to an end with every
    credit recorded. */
module CreditRigProof {
  import opened CreditRig

  // ---------------------------------------------------------------------------------------------
  // Pigeonhole
  // ---------------------------------------------------------------------------------------------

  lemma {:induction false} SubsetSize(a: set<nat>, b: set<nat>)
    requires a <= b
    ensures |a| <= |b| && (|a| == |b| ==> a == b)
    decreases b
  {
    if b != {} {
      var x :| x in b;
      SubsetSize(a - {x}, b - {x});
      assert x in a ==> a == (a - {x}) + {x};
      assert b == (b - {x}) + {x};
    }
  }

  function Members(q: seq<nat>): set<nat> {
    if q == [] then {} else Members(q[..|q| - 1]) + {q[|q| - 1]}
  }

  lemma {:induction false} DistinctSize(q: seq<nat>)
    ensures forall x :: x in Members(q) <==> x in q
    ensures Distinct(q) ==> |Members(q)| == |q|
  {
    if q != [] {
      var front, last := q[..|q| - 1], q[|q| - 1];
      DistinctSize(front);
      assert q == front + [last];
    }
  }

  function Below(n: nat): set<nat> {
    if n == 0 then {} else Below(n - 1) + {n - 1}
  }

  lemma {:induction false} BelowSize(n: nat)
    ensures |Below(n)| == n && forall w: nat :: w in Below(n) <==> w < n
  {
    if n > 0 { BelowSize(n - 1); }
  }

  /** `n` distinct identities below `n` are all of them, and fewer miss one. */
  lemma Pigeonhole(q: seq<nat>, n: nat)
    requires Distinct(q) && (forall i | 0 <= i < |q| :: q[i] < n) && |q| <= n
    ensures |q| == n <==> forall w: nat | w < n :: w in q
  {
    DistinctSize(q);
    BelowSize(n);
    SubsetSize(Members(q), Below(n));
    if forall w: nat | w < n :: w in q {
      assert Members(q) == Below(n);
    }
  }

  // ---------------------------------------------------------------------------------------------
  // Every step keeps the invariant
  // ---------------------------------------------------------------------------------------------

  lemma ShakenMeansAll(c: Config, s: State)
    requires c.Valid() && Roster(c, s) && Shaken(c, s)
    ensures forall w | 0 <= w < c.workers :: w in s.idents && s.workers[w].started
  {
    Pigeonhole(s.idents, c.workers);
  }

  lemma HandshakeTakesReady(c: Config, s: State, w: nat)
    requires c.Valid() && Roster(c, s) && Enabled(c, s, Handshake(w))
    ensures w !in s.idents && s.workers[w].started && s.workers[w].outbox == [Ready]
  {
    assert WorkerOk(c.count, Shaken(c, s), w in s.idents, s.workers[w]);
  }

  /** The worker that takes the step is in order afterwards. */
  lemma ActorKept(c: Config, s: State, step: Step)
    requires c.Valid() && Roster(c, s) && Enabled(c, s, step)
    ensures var t := Apply(c, s, step);
      WorkerOk(c.count, Shaken(c, t), step.w in t.idents, t.workers[step.w])
  {
    var w := step.w;
    assert WorkerOk(c.count, Shaken(c, s), w in s.idents, s.workers[w]);
    if Shaken(c, s) { ShakenMeansAll(c, s); }
    if step.Handshake? { HandshakeTakesReady(c, s, w); }
  }

  lemma RosterKept(c: Config, s: State, step: Step)
    requires c.Valid() && Roster(c, s) && Enabled(c, s, step)
    ensures Roster(c, Apply(c, s, step))
  {
    var t, w := Apply(c, s, step), step.w;
    ActorKept(c, s, step);
    if step.Handshake? { HandshakeTakesReady(c, s, w); }
    if step.Collect? { ShakenMeansAll(c, s); }
    forall i | 0 <= i < c.workers ensures WorkerOk(c.count, Shaken(c, t), i in t.idents, t.workers[i]) {
      assert WorkerOk(c.count, Shaken(c, s), i in s.idents, s.workers[i]);
    }
  }

  lemma ReadyHoldsNothing(k: Worker)
    ensures Holding(k.(started := true, outbox := k.outbox + [Ready])) == Holding(k)
    ensures k.outbox == [Ready] ==> Holding(k.(outbox := k.outbox[1..])) == Holding(k)
  {
    EchoesAppend(k.outbox, Ready);
    if k.outbox == [Ready] { EchoesPop(k.outbox); }
  }

  lemma EchoKeepsHolding(k: Worker, seen: nat, quit: bool)
    requires k.inbox != []
    ensures Holding(k.(inbox := k.inbox[1..], outbox := k.outbox + [Return(k.inbox[0])], seen := seen, quit := quit))
            == Holding(k)
  {
    EchoesAppend(k.outbox, Return(k.inbox[0]));
    assert k.inbox == [k.inbox[0]] + k.inbox[1..];
    assert multiset(k.inbox) == multiset{k.inbox[0]} + multiset(k.inbox[1..]);
  }

  lemma CollectMovesOne(k: Worker, lat: seq<Msg>)
    requires k.outbox != []
    ensures Holding(k.(outbox := k.outbox[1..])) + Recorded(lat + [k.outbox[0]]) == Holding(k) + Recorded(lat)
  {
    EchoesPop(k.outbox);
    EchoesAppend(lat, k.outbox[0]);
  }

  /** A step moves credits between one worker and the record; only a send adds one. */
  lemma Moves(c: Config, s: State, step: Step)
    requires c.Valid() && Roster(c, s) && Enabled(c, s, step)
    ensures var t, w := Apply(c, s, step), step.w;
      Holding(t.workers[w]) + Recorded(t.lat) ==
      Holding(s.workers[w]) + Recorded(s.lat) + (if step.Send? then multiset{s.next} else multiset{})
  {
    hide Echoes, AllReturns, Distinct, Recorded, WorkerOk;
    var k := s.workers[step.w];
    match step {
      case Start(_) => ReadyHoldsNothing(k);
      case Handshake(w) => HandshakeTakesReady(c, s, w); ReadyHoldsNothing(k);
      case Send(_) => assert multiset(k.inbox + [s.next]) == multiset(k.inbox) + multiset{s.next};
      case Echo(_) => EchoKeepsHolding(k, k.seen + 1, k.seen + 1 >= c.count);
      case Idle(_) =>
      case Collect(_) => CollectMovesOne(k, s.lat);
    }
  }

  /** Moving credits between a worker and the record, or adding new ones, moves the totals along. */
  lemma Balance(flight: multiset<nat>, flight': multiset<nat>, held: multiset<nat>, held': multiset<nat>,
                lat: multiset<nat>, lat': multiset<nat>, added: multiset<nat>)
    requires flight' + held == flight + held'
    requires held' + lat' == held + lat + added
    ensures flight' + lat' == flight + lat + added
  {
    forall x: nat ensures (flight' + lat')[x] == (flight + lat + added)[x] {
      assert (flight' + held)[x] == (flight + held')[x];
      assert (held' + lat')[x] == (held + lat + added)[x];
    }
  }

  lemma BooksBalance(s: State, t: State, w: nat, added: multiset<nat>)
    requires Books(s) && w < |s.workers| && w < |t.workers| && t.workers == s.workers[w := t.workers[w]]
    requires Holding(t.workers[w]) + Recorded(t.lat) == Holding(s.workers[w]) + Recorded(s.lat) + added
    requires t.workers[w].sent + s.next == s.workers[w].sent + t.next
    requires Issued(s.next) + added == Issued(t.next)
    ensures Books(t)
  {
    SumsUpdate(s.workers, w, t.workers[w]);
    FlightUpdate(s.workers, w, t.workers[w]);
    Balance(Flight(s.workers), Flight(t.workers), Holding(s.workers[w]), Holding(t.workers[w]),
            Recorded(s.lat), Recorded(t.lat), added);
  }

  lemma BooksKept(c: Config, s: State, step: Step)
    requires c.Valid() && Roster(c, s) && Books(s) && Enabled(c, s, step)
    ensures Books(Apply(c, s, step))
  {
    hide Holding, Recorded, Roster, Flight, SentTo, AllReturns;
    var t, w := Apply(c, s, step), step.w;
    Moves(c, s, step);
    if step.Send? {
      assert Issued(t.next) == Issued(s.next) + multiset{s.next};
      BooksBalance(s, t, w, multiset{s.next});
    } else {
      BooksBalance(s, t, w, multiset{});
    }
  }

  lemma ModSucc(m: nat, n: nat)
    requires n > 0
    ensures (m + 1) % n == if m % n + 1 == n then 0 else m % n + 1
  {
    var q, r := m / n, m % n;
    assert m + 1 == n * q + (r + 1);
    if r + 1 == n {
      assert m + 1 == n * (q + 1);
      MultipleMod(q + 1, 0, n);
    } else {
      MultipleMod(q, r + 1, n);
    }
  }

  lemma ProductGrows(n: nat, a: nat, b: nat)
    requires a <= b
    ensures n * a <= n * b
  {}

  lemma MultipleMod(q: nat, r: nat, n: nat)
    requires r < n
    ensures (n * q + r) % n == r
  {
    assert (n * q + r) / n == q by {
      var d := (n * q + r) / n;
      if d < q { ProductGrows(n, d + 1, q); }
      if d > q { ProductGrows(n, q + 1, d); }
    }
  }

  /** Rotating the deque moves the pointer one position on. */
  lemma RotateOnce(q: seq<nat>, r: nat)
    requires r < |q|
    ensures var targets := Rotated(q, r);
      targets[0] == q[r] && targets[1..] + [targets[0]] == Rotated(q, if r + 1 == |q| then 0 else r + 1)
  {}

  lemma SendKeepsRoundRobin(c: Config, s: State, w: nat)
    requires c.Valid() && Inv(c, s) && c.pattern.DealerRouter? && Enabled(c, s, Send(w))
    ensures RoundRobin(c, Apply(c, s, Send(w)))
  {
    var t, r := Apply(c, s, Send(w)), s.next % c.workers;
    ModSucc(s.next, c.workers);
    RotateOnce(s.idents, r);
    forall j | 0 <= j < |t.idents| ensures t.workers[t.idents[j]].sent == Turns(c.workers, t.next, j) {
      assert j != r ==> s.idents[j] != s.idents[r];
    }
  }

  lemma RoundRobinKept(c: Config, s: State, step: Step)
    requires c.Valid() && Inv(c, s) && Enabled(c, s, step)
    ensures var t := Apply(c, s, step); Shaken(c, t) && c.pattern.DealerRouter? ==> RoundRobin(c, t)
  {
    hide RoundRobin, Books, Roster;
    var t := Apply(c, s, step);
    if Shaken(c, t) && c.pattern.DealerRouter? {
      if step.Send? {
        SendKeepsRoundRobin(c, s, step.w);
      } else if step.Handshake? {
        LastHandshake(c, s, step.w);
      } else {
        OthersSendNothing(c, s, step);
      }
    }
  }

  /** The last announcement leaves every worker without a credit and the deque unrotated. */
  lemma LastHandshake(c: Config, s: State, w: nat)
    requires c.Valid() && Inv(c, s) && c.pattern.DealerRouter? && Enabled(c, s, Handshake(w))
    requires Shaken(c, Apply(c, s, Handshake(w)))
    ensures RoundRobin(c, Apply(c, s, Handshake(w)))
  {
    hide Books, AllReturns, Distinct;
    var t := Apply(c, s, Handshake(w));
    forall j | 0 <= j < |t.idents| ensures t.workers[t.idents[j]].sent == 0 {
      assert WorkerOk(c.count, Shaken(c, s), t.idents[j] in s.idents, s.workers[t.idents[j]]);
      HandshakeTakesReady(c, s, w);
    }
    assert s.next % c.workers == 0;
  }

  lemma OthersSendNothing(c: Config, s: State, step: Step)
    requires c.Valid() && Inv(c, s) && Enabled(c, s, step) && !step.Send? && !step.Handshake?
    requires Shaken(c, Apply(c, s, step)) && c.pattern.DealerRouter?
    ensures RoundRobin(c, Apply(c, s, step))
  {
    hide Books, AllReturns, Distinct, WorkerOk, Turns, Rotated;
    var t := Apply(c, s, step);
    assert forall j | 0 <= j < |t.idents| :: t.workers[t.idents[j]].sent == s.workers[s.idents[j]].sent;
  }

  /** After whole rounds every position has had the same number of turns. */
  lemma {:induction false} WholeRounds(n: nat, rounds: nat, k: nat, j: nat)
    requires j < n && k <= n
    ensures Turns(n, n * rounds + k, j) == rounds + if j < k then 1 else 0
    decreases rounds, k
  {
    if k > 0 {
      WholeRounds(n, rounds, k - 1, j);
      MultipleMod(rounds, k - 1, n);
    } else if rounds > 0 {
      WholeRounds(n, rounds - 1, n, j);
      assert n * (rounds - 1) + n == n * rounds;
    }
  }

  // ---------------------------------------------------------------------------------------------
  // Main results
  // ---------------------------------------------------------------------------------------------

  lemma {:induction false} IdleTallies(n: nat)
    ensures SentTo(seq(n, i => Fresh)) == 0 && Flight(seq(n, i => Fresh)) == multiset{}
    ensures Work(seq(n, i => Fresh)) == 3 * n
  {
    if n > 0 {
      IdleTallies(n - 1);
      assert seq(n, i => Fresh)[..n - 1] == seq(n - 1, i => Fresh);
    }
  }

  lemma InitInv(c: Config)
    requires c.Valid()
    ensures Inv(c, Init(c))
  {
    IdleTallies(c.workers);
  }

  lemma StepInv(c: Config, s: State, step: Step)
    requires c.Valid() && Inv(c, s) && Enabled(c, s, step)
    ensures Inv(c, Apply(c, s, step))
  {
    RosterKept(c, s, step);
    BooksKept(c, s, step);
    RoundRobinKept(c, s, step);
  }

  /** Every state of every run keeps the invariant. */
  lemma {:induction false} RunInv(c: Config, s: State, steps: seq<Step>, t: State)
    requires c.Valid() && Inv(c, s) && Run(c, s, steps, t)
    ensures Inv(c, t)
    decreases |steps|
  {
    if steps != [] {
      StepInv(c, s, steps[0]);
      RunInv(c, Apply(c, s, steps[0]), steps[1..], t);
    }
  }

  ghost predicate Reachable(c: Config, t: State)
    requires c.Valid()
  {
    exists steps :: Run(c, Init(c), steps, t)
  }

  lemma ReachableInv(c: Config, t: State)
    requires c.Valid() && Reachable(c, t)
    ensures Inv(c, t)
  {
    InitInv(c);
    var steps :| Run(c, Init(c), steps, t);
    RunInv(c, Init(c), steps, t);
  }

  /** After the handshake every worker is known under its own identity and no announcement is in flight. */
  lemma HandshakeIsComplete(c: Config, t: State)
    requires c.Valid() && Reachable(c, t) && Shaken(c, t)
    ensures |t.workers| == |t.idents| == c.workers && Distinct(t.idents)
    ensures forall w | 0 <= w < c.workers :: w in t.idents && AllReturns(t.workers[w].outbox)
    ensures AllReturns(t.lat)
  {
    ReachableInv(c, t);
    ShakenMeansAll(c, t);
  }

  /** Every credit sent so far is in exactly one place: a worker's queue, a return queue, or the record. */
  lemma EachCreditOnce(c: Config, t: State, id: nat)
    requires c.Valid() && Reachable(c, t)
    ensures (Flight(t.workers) + Recorded(t.lat))[id] == if id < t.next then 1 else 0
  {
    ReachableInv(c, t);
    IssuedOnce(t.next, id);
  }

  /** A worker that has quit has echoed everything it was sent, and nothing more will be sent to anyone. */
  lemma NoEarlyQuit(c: Config, t: State, w: nat)
    requires c.Valid() && c.count >= c.workers && Reachable(c, t) && w < |t.workers| && t.workers[w].quit
    ensures t.workers[w].inbox == [] && t.workers[w].seen == t.workers[w].sent == c.count == t.next == c.Total()
  {
    ReachableInv(c, t);
    QuitMeansDone(c, t, w);
  }

  lemma QuitMeansDone(c: Config, t: State, w: nat)
    requires c.Valid() && Inv(c, t) && w < |t.workers| && t.workers[w].quit
    ensures t.workers[w].inbox == [] && t.workers[w].seen == t.workers[w].sent == c.count == t.next == c.Total()
  {
    assert WorkerOk(c.count, Shaken(c, t), w in t.idents, t.workers[w]);
    SumsUpdate(t.workers, w, t.workers[w]);
    TotalFits(c);
  }

  lemma TotalFits(c: Config)
    requires c.Valid()
    ensures c.Total() <= c.count
    ensures c.Total() > 0 <==> c.count >= c.workers
  {
    assert c.count == c.Share() * c.workers + c.count % c.workers;
    if c.count >= c.workers {
      assert c.Share() >= 1;
      assert c.Share() * c.workers >= c.workers;
    } else {
      assert c.Share() == 0;
    }
  }

  /** Round robin is fair: when the blast is over each dealer has been sent exactly `count / workers` credits. */
  lemma FairShare(c: Config, t: State, w: nat)
    requires c.Valid() && c.pattern.DealerRouter? && Reachable(c, t) && Shaken(c, t)
    requires t.next == c.Total() && w < c.workers
    ensures w < |t.workers| && t.workers[w].sent == c.Share()
  {
    ReachableInv(c, t);
    var j := PositionOf(c, t, w);
    ShareOfTurns(c, j);
  }

  lemma PositionOf(c: Config, t: State, w: nat) returns (j: nat)
    requires c.Valid() && Inv(c, t) && Shaken(c, t) && c.pattern.DealerRouter? && w < c.workers
    ensures j < c.workers && w < |t.workers| && t.workers[w].sent == Turns(c.workers, t.next, j)
  {
    ShakenMeansAll(c, t);
    assert w in t.idents;
    j :| 0 <= j < |t.idents| && t.idents[j] == w;
  }

  lemma ShareOfTurns(c: Config, j: nat)
    requires c.Valid() && j < c.workers
    ensures Turns(c.workers, c.Total(), j) == c.Share()
  {
    WholeRounds(c.workers, c.Share(), 0, j);
    assert c.workers * c.Share() == c.Share() * c.workers;
  }

  // ---------------------------------------------------------------------------------------------
  // Progress
  // ---------------------------------------------------------------------------------------------

  /** What is left to do. */
  function Left(c: Config, s: State): int
    requires c.Valid()
  {
    3 * (c.Total() - s.next) + Work(s.workers)
  }

  lemma StepsDecrease(c: Config, s: State, step: Step)
    requires c.Valid() && Roster(c, s) && Enabled(c, s, step)
    ensures Left(c, Apply(c, s, step)) < Left(c, s)
  {
    var w := step.w;
    SumsUpdate(s.workers, w, Apply(c, s, step).workers[w]);
    assert WorkerOk(c.count, Shaken(c, s), w in s.idents, s.workers[w]);
  }

  /** No run is longer than three steps per credit and three per worker. */
  lemma {:induction false} RunsAreShort(c: Config, s: State, steps: seq<Step>, t: State)
    requires c.Valid() && Inv(c, s) && Run(c, s, steps, t)
    ensures |steps| <= Left(c, s)
    decreases |steps|
  {
    if steps == [] {
    } else {
      var next := Apply(c, s, steps[0]);
      StepInv(c, s, steps[0]);
      StepsDecrease(c, s, steps[0]);
      RunsAreShort(c, next, steps[1..], t);
    }
  }

  lemma RunLength(c: Config, steps: seq<Step>, t: State)
    requires c.Valid() && Run(c, Init(c), steps, t)
    ensures |steps| <= 3 * c.Total() + 3 * c.workers
  {
    InitInv(c);
    IdleTallies(c.workers);
    RunsAreShort(c, Init(c), steps, t);
  }

  ghost predicate Stuck(c: Config, s: State)
    requires c.Valid()
  {
    forall step :: !Enabled(c, s, step)
  }

  lemma {:induction false} FlightSomewhere(ws: seq<Worker>) returns (w: nat)
    requires Flight(ws) != multiset{}
    ensures w < |ws| && (ws[w].inbox != [] || ws[w].outbox != [])
  {
    w := |ws| - 1;
    if ws[w].inbox == [] && ws[w].outbox == [] {
      w := FlightSomewhere(ws[..|ws| - 1]);
    }
  }

  /** Not done means something can happen: there is no deadlock. */
  lemma NoDeadlock(c: Config, s: State) returns (step: Step)
    requires c.Valid() && c.count >= c.workers && Inv(c, s) && !s.done
    ensures Enabled(c, s, step)
  {
    if w: nat :| w < |s.workers| && !s.workers[w].started {
      step := Start(w);
    } else if !Shaken(c, s) {
      Pigeonhole(s.idents, c.workers);
      var w: nat :| w < c.workers && w !in s.idents;
      assert WorkerOk(c.count, Shaken(c, s), w in s.idents, s.workers[w]);
      step := Handshake(w);
    } else if s.next < c.Total() {
      step := SendIsEnabled(c, s);
    } else {
      step := DrainIsEnabled(c, s);
    }
  }

  lemma SendIsEnabled(c: Config, s: State) returns (step: Step)
    requires c.Valid() && Inv(c, s) && Shaken(c, s) && s.next < c.Total()
    ensures Enabled(c, s, step)
  {
    if c.pattern.DealerRouter? {
      RotateOnce(s.idents, s.next % c.workers);
      step := Send(s.targets[0]);
    } else {
      ShakenMeansAll(c, s);
      if s.workers[0].quit { QuitMeansDone(c, s, 0); }
      step := Send(0);
    }
  }

  lemma DrainIsEnabled(c: Config, s: State) returns (step: Step)
    requires c.Valid() && c.count >= c.workers && Inv(c, s) && Shaken(c, s) && s.next == c.Total() && !s.done
    ensures Enabled(c, s, step)
  {
    TotalFits(c);
    IssuedOnce(s.next, 0);
    RecordedSize(s.lat);
    assert Flight(s.workers) != multiset{};
    var w := FlightSomewhere(s.workers);
    ShakenMeansAll(c, s);
    if s.workers[w].outbox != [] {
      step := Collect(w);
    } else {
      if s.workers[w].quit { QuitMeansDone(c, s, w); }
      step := Echo(w);
    }
  }

  lemma {:induction false} RecordedSize(lat: seq<Msg>)
    requires AllReturns(lat)
    ensures |Recorded(lat)| == |lat|
  {
    if lat != [] { RecordedSize(lat[..|lat| - 1]); }
  }

  /** A finished rig has recorded the whole blast: each credit once, and nothing else. */
  lemma DoneMeansComplete(c: Config, s: State)
    requires c.Valid() && Inv(c, s) && s.done
    ensures |s.lat| == c.Total() == s.next
    ensures Recorded(s.lat) == Issued(c.Total()) && Flight(s.workers) == multiset{}
  {
    RecordedSize(s.lat);
    IssuedOnce(s.next, 0);
    assert |Flight(s.workers) + Recorded(s.lat)| == |Flight(s.workers)| + |Recorded(s.lat)|;
  }

  /** Wherever a run can go no further, the benchmark is done, provided each worker gets at least one credit. */
  lemma EveryRunFinishes(c: Config, t: State)
    requires c.Valid() && c.count >= c.workers && Reachable(c, t) && Stuck(c, t)
    ensures t.done && |t.lat| == c.Total() && Recorded(t.lat) == Issued(c.Total())
  {
    ReachableInv(c, t);
    if !t.done {
      var step := NoDeadlock(c, t);
      assert false;
    }
    DoneMeansComplete(c, t);
  }

  /** With fewer credits than workers the blast is empty and the producer waits for ever. */
  lemma TooFewCreditsNeverFinish(c: Config, t: State)
    requires c.Valid() && c.count < c.workers && Reachable(c, t)
    ensures !t.done
  {
    ReachableInv(c, t);
    TotalFits(c);
    if t.done { DoneMeansComplete(c, t); }
  }
}
