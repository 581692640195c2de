/** The open-loop credit benchmark as a step system: one producer, `n` workers, a queue each way per worker.
    Every interleaving of the processes is a sequence of steps. */
module CreditRig {

  /** ROUTER to DEALERs addresses each credit; PUSH to PULLs lets the socket pick a connected worker. */
  datatype Pattern = DealerRouter | PushPull

  datatype Config = Config(pattern: Pattern, workers: nat, count: nat) {
    predicate Valid() { workers > 0 }

    function Share(): nat requires Valid() { count / workers }

    /** The credits the producer sends; the workers are told `count`, their own quota being no smaller. */
    function Total(): nat requires Valid() { Share() * workers }
  }

  /** What a worker writes: its announcement, or the echo of a credit. */
  datatype Msg = Ready | Return(id: nat)

  /** `inbox` and `outbox` are the ordered connections; `sent` counts the credits addressed to this worker. */
  datatype Worker = Worker(started: bool, quit: bool, seen: nat, inbox: seq<nat>, outbox: seq<Msg>, sent: nat)

  /** `idents` are the announcements in the order collected; `targets` is the deque that is rotated. */
  datatype State = State(
    workers: seq<Worker>,
    idents: seq<nat>,
    targets: seq<nat>,
    next: nat,
    lat: seq<Msg>,
    done: bool)

  datatype Step =
    | Start(w: nat)
    | Handshake(w: nat)
    | Send(w: nat)
    | Echo(w: nat)
    | Idle(w: nat)
    | Collect(w: nat)

  const Fresh: Worker := Worker(false, false, 0, [], [], 0)

  function Init(c: Config): State {
    State(seq(c.workers, i => Fresh), [], [], 0, [], false)
  }

  predicate Shaken(c: Config, s: State) { |s.idents| >= c.workers }

  predicate Enabled(c: Config, s: State, step: Step)
    requires c.Valid()
  {
    && step.w < |s.workers|
    && var k := s.workers[step.w];
    match step
    case Start(_) => !k.started
    case Handshake(_) => !Shaken(c, s) && k.outbox != []
    case Send(w) =>
      && Shaken(c, s) && s.next < c.Total()
      && (if c.pattern.DealerRouter? then s.targets != [] && s.targets[0] == w else k.started && !k.quit)
    case Echo(_) => k.started && !k.quit && k.inbox != []
    case Idle(_) => k.started && !k.quit && c.count == 0
    case Collect(_) => Shaken(c, s) && !s.done && k.outbox != []
  }

  function Apply(c: Config, s: State, step: Step): State
    requires c.Valid() && Enabled(c, s, step)
  {
    var w, k := step.w, s.workers[step.w];
    match step
    case Start(_) => s.(workers := s.workers[w := k.(started := true, outbox := k.outbox + [Ready])])
    case Handshake(_) =>
      // Any message counts as an announcement here: the payload is not looked at.
      var idents := s.idents + [w];
      s.(workers := s.workers[w := k.(outbox := k.outbox[1..])],
         idents := idents,
         targets := if |idents| == c.workers then idents else s.targets)
    case Send(_) =>
      s.(workers := s.workers[w := k.(inbox := k.inbox + [s.next], sent := k.sent + 1)],
         targets := if c.pattern.DealerRouter? then s.targets[1..] + [s.targets[0]] else s.targets,
         next := s.next + 1)
    case Echo(_) =>
      s.(workers := s.workers[w := k.(inbox := k.inbox[1..],
                                      outbox := k.outbox + [Return(k.inbox[0])],
                                      seen := k.seen + 1,
                                      quit := k.seen + 1 >= c.count)])
    case Idle(_) => s.(workers := s.workers[w := k.(quit := true)])
    case Collect(_) =>
      s.(workers := s.workers[w := k.(outbox := k.outbox[1..])],
         lat := s.lat + [k.outbox[0]],
         done := |s.lat| + 1 >= c.Total())
  }

  /** Taking `steps` one after the other, each enabled when its turn comes, leads from `s` to `t`. */
  ghost predicate Run(c: Config, s: State, steps: seq<Step>, t: State)
    requires c.Valid()
    decreases |steps|
  {
    if steps == [] then s == t
    else Enabled(c, s, steps[0]) && Run(c, Apply(c, s, steps[0]), steps[1..], t)
  }

  // ---------------------------------------------------------------------------------------------
  // Tallies over the workers
  // ---------------------------------------------------------------------------------------------

  /** The credit a message returns, if it is one. */
  function Credit(m: Msg): multiset<nat> { if m.Return? then multiset{m.id} else multiset{} }

  function Echoes(outbox: seq<Msg>): multiset<nat> {
    if outbox == [] then multiset{} else Echoes(outbox[..|outbox| - 1]) + Credit(outbox[|outbox| - 1])
  }

  /** The credits a worker's two queues hold. */
  function Holding(k: Worker): multiset<nat> { multiset(k.inbox) + Echoes(k.outbox) }

  function Weight(k: Worker): nat {
    (if k.started then 0 else 2) + (if k.quit then 0 else 1) + 2 * |k.inbox| + |k.outbox|
  }

  /** The credits in flight. */
  function Flight(ws: seq<Worker>): multiset<nat> {
    if ws == [] then multiset{} else Flight(ws[..|ws| - 1]) + Holding(ws[|ws| - 1])
  }

  function SentTo(ws: seq<Worker>): nat {
    if ws == [] then 0 else SentTo(ws[..|ws| - 1]) + ws[|ws| - 1].sent
  }

  function Work(ws: seq<Worker>): nat {
    if ws == [] then 0 else Work(ws[..|ws| - 1]) + Weight(ws[|ws| - 1])
  }

  lemma Rearrange<T(!new)>(a: multiset<T>, b: multiset<T>, c: multiset<T>, d: multiset<T>, e: multiset<T>)
    requires a + b == c + d
    ensures a + e + b == c + e + d
  {
    forall x: T ensures (a + e + b)[x] == (c + e + d)[x] {
      assert (a + b)[x] == (c + d)[x];
    }
  }

  lemma {:induction false} FlightUpdate(ws: seq<Worker>, w: nat, k: Worker)
    requires w < |ws|
    ensures Flight(ws[w := k]) + Holding(ws[w]) == Flight(ws) + Holding(k)
  {
    var last := |ws| - 1;
    if w == last {
      assert ws[w := k][..last] == ws[..last];
      Rearrange(Flight(ws[..last]), multiset{}, Flight(ws[..last]), multiset{}, Holding(k) + Holding(ws[w]));
    } else {
      assert ws[w := k][..last] == ws[..last][w := k];
      FlightUpdate(ws[..last], w, k);
      Rearrange(Flight(ws[..last][w := k]), Holding(ws[w]), Flight(ws[..last]), Holding(k), Holding(ws[last]));
    }
  }

  lemma {:induction false} SumsUpdate(ws: seq<Worker>, w: nat, k: Worker)
    requires w < |ws|
    ensures SentTo(ws[w := k]) + ws[w].sent == SentTo(ws) + k.sent
    ensures Work(ws[w := k]) + Weight(ws[w]) == Work(ws) + Weight(k)
    ensures ws[w].sent <= SentTo(ws)
  {
    var last := |ws| - 1;
    if w == last {
      assert ws[w := k][..last] == ws[..last];
    } else {
      assert ws[w := k][..last] == ws[..last][w := k];
      SumsUpdate(ws[..last], w, k);
    }
  }

  lemma {:induction false} EchoesAppend(outbox: seq<Msg>, m: Msg)
    ensures Echoes(outbox + [m]) == Echoes(outbox) + Credit(m)
  {
    hide Credit;
    assert (outbox + [m])[..|outbox|] == outbox;
  }

  lemma {:induction false} EchoesPop(outbox: seq<Msg>)
    requires outbox != []
    ensures Echoes(outbox) == Credit(outbox[0]) + Echoes(outbox[1..])
  {
    hide Credit;
    if |outbox| > 1 {
      var front, last := outbox[..|outbox| - 1], outbox[|outbox| - 1];
      EchoesPop(front);
      assert outbox[1..] == front[1..] + [last];
      EchoesAppend(front[1..], last);
    }
  }

  /** The credits `0 .. n - 1`, each once. */
  function Issued(n: nat): multiset<nat> {
    if n == 0 then multiset{} else Issued(n - 1) + multiset{n - 1}
  }

  lemma {:induction false} IssuedOnce(n: nat, id: nat)
    ensures Issued(n)[id] == (if id < n then 1 else 0) && |Issued(n)| == n
  {
    if n > 0 { IssuedOnce(n - 1, id); }
  }

  // ---------------------------------------------------------------------------------------------
  // The invariant
  // ---------------------------------------------------------------------------------------------

  /** A started worker has written its announcement and then only echoes; `collected` says whether the producer
      has taken the announcement, `shaken` whether it has taken all of them. */
  predicate WorkerOk(count: nat, shaken: bool, collected: bool, k: Worker) {
    && k.seen + |k.inbox| == k.sent
    && (k.quit ==> k.seen >= count)
    && (!k.started ==> k == Fresh && !collected)
    && (k.started && !collected ==> k.outbox == [Ready])
    && (collected ==> AllReturns(k.outbox))
    && (!shaken ==> k.sent == 0 && (collected ==> k.outbox == []))
  }

  predicate AllReturns(q: seq<Msg>) { forall i | 0 <= i < |q| :: q[i].Return? }

  predicate Distinct(q: seq<nat>) { forall i, j | 0 <= i < j < |q| :: q[i] != q[j] }

  /** How many of the first `m` credits go to position `j` of the deque. */
  function Turns(n: nat, m: nat, j: nat): nat
    requires n > 0
  {
    if m == 0 then 0 else Turns(n, m - 1, j) + (if (m - 1) % n == j then 1 else 0)
  }

  function Rotated(q: seq<nat>, k: nat): seq<nat>
    requires k <= |q|
  {
    q[k..] + q[..k]
  }

  predicate RoundRobin(c: Config, s: State)
    requires c.Valid()
  {
    && |s.idents| == c.workers
    && s.targets == Rotated(s.idents, s.next % c.workers)
    && forall j | 0 <= j < |s.idents| ::
         s.idents[j] < |s.workers| && s.workers[s.idents[j]].sent == Turns(c.workers, s.next, j)
  }

  function Recorded(lat: seq<Msg>): multiset<nat> { Echoes(lat) }

  /** Who has announced itself, and what each worker has been up to. */
  ghost predicate Roster(c: Config, s: State)
    requires c.Valid()
  {
    && |s.workers| == c.workers
    && |s.idents| <= c.workers && Distinct(s.idents)
    && (forall i | 0 <= i < |s.idents| :: s.idents[i] < c.workers)
    && (forall w | 0 <= w < c.workers :: WorkerOk(c.count, Shaken(c, s), w in s.idents, s.workers[w]))
    && (!Shaken(c, s) ==> s.next == 0 && s.lat == [])
    && s.next <= c.Total()
    && AllReturns(s.lat)
    && (s.done <==> s.lat != [] && |s.lat| >= c.Total())
  }

  /** Conservation: every issued credit is in exactly one queue or in the record. */
  ghost predicate Books(s: State) {
    && SentTo(s.workers) == s.next
    && Flight(s.workers) + Recorded(s.lat) == Issued(s.next)
  }

  ghost predicate Inv(c: Config, s: State)
    requires c.Valid()
  {
    && Roster(c, s)
    && Books(s)
    && (Shaken(c, s) && c.pattern.DealerRouter? ==> RoundRobin(c, s))
  }
}
