/** Credits keep their order: in every worker's queues, and, addressed round robin, in the record. */
module CreditRigOrder {
  import opened CreditRig
  import opened CreditRigProof

  /** The credits that a return queue holds, in order. */
  function Ids(outbox: seq<Msg>): seq<nat> {
    if outbox == [] then [] else (if outbox[0].Return? then [outbox[0].id] else []) + Ids(outbox[1..])
  }

  /** The credits a worker holds, oldest first: those echoed and not collected, then those not echoed. */
  function Queue(k: Worker): seq<nat> { Ids(k.outbox) + k.inbox }

  predicate Increasing(q: seq<nat>) { forall i, j | 0 <= i < j < |q| :: q[i] < q[j] }

  predicate AllBelow(q: seq<nat>, n: nat) { forall i | 0 <= i < |q| :: q[i] < n }

  lemma {:induction false} IdsConcat(a: seq<Msg>, b: seq<Msg>)
    ensures Ids(a + b) == Ids(a) + Ids(b)
  {
    if a == [] {
      assert a + b == b;
    } else {
      hide Ids;
      assert (a + b)[1..] == a[1..] + b;
      IdsFirst(a);
      IdsFirst(a + b);
      IdsConcat(a[1..], b);
    }
  }

  lemma IdsFirst(q: seq<Msg>)
    requires q != []
    ensures Ids(q) == (if q[0].Return? then [q[0].id] else []) + Ids(q[1..])
  {}

  lemma IdsOfOne(m: Msg)
    ensures Ids([m]) == if m.Return? then [m.id] else []
  {
    assert [m][1..] == [];
  }

  /** Only sending and collecting change what a worker holds: at the end, and at the beginning. */
  lemma QueueStep(c: Config, s: State, step: Step, w: nat)
    requires c.Valid() && Inv(c, s) && Enabled(c, s, step) && w < |s.workers|
    ensures var t := Apply(c, s, step);
      var q, r := Queue(s.workers[w]), Queue(t.workers[w]);
      if w == step.w && step.Send? then r == q + [s.next]
      else if w == step.w && step.Collect? then q != [] && r == q[1..] && t.lat == s.lat + [Return(q[0])]
      else r == q
  {
    var k := s.workers[step.w];
    if w == step.w {
      if step.Handshake? { HandshakeTakesReady(c, s, w); }
      if step.Collect? { CollectsReturn(c, s, w); }
      hide Queue, Inv;
      match step {
        case Start(_) => StartStep(k);
        case Handshake(_) => HandshakeStep(k);
        case Send(_) => SendStep(k, s.next);
        case Echo(_) => EchoStep(k);
        case Idle(_) => IdleStep(k);
        case Collect(_) => CollectStep(k);
      }
    }
  }

  lemma CollectsReturn(c: Config, s: State, w: nat)
    requires c.Valid() && Inv(c, s) && Enabled(c, s, Collect(w))
    ensures s.workers[w].outbox[0].Return?
  {
    ShakenMeansAll(c, s);
    assert WorkerOk(c.count, Shaken(c, s), w in s.idents, s.workers[w]);
  }

  lemma HandshakeStep(k: Worker)
    requires k.outbox == [Ready]
    ensures Queue(k.(outbox := k.outbox[1..])) == Queue(k)
  {
    IdsOfOne(Ready);
    assert k.outbox[1..] == [] && Ids([]) == [];
  }

  lemma SendStep(k: Worker, id: nat)
    ensures Queue(k.(inbox := k.inbox + [id], sent := k.sent + 1)) == Queue(k) + [id]
  {}

  lemma IdleStep(k: Worker)
    ensures Queue(k.(quit := true)) == Queue(k)
  {}

  lemma CollectStep(k: Worker)
    requires k.outbox != [] && k.outbox[0].Return?
    ensures Queue(k) != [] && Queue(k)[0] == k.outbox[0].id && Queue(k.(outbox := k.outbox[1..])) == Queue(k)[1..]
  {
    IdsFirst(k.outbox);
  }

  lemma StartStep(k: Worker)
    ensures Queue(k.(started := true, outbox := k.outbox + [Ready])) == Queue(k)
  {
    IdsConcat(k.outbox, [Ready]);
    IdsOfOne(Ready);
  }

  lemma EchoStep(k: Worker)
    requires k.inbox != []
    ensures forall seen, quit ::
              Queue(k.(inbox := k.inbox[1..], outbox := k.outbox + [Return(k.inbox[0])], seen := seen, quit := quit)) ==
              Queue(k)
  {
    IdsConcat(k.outbox, [Return(k.inbox[0])]);
    IdsOfOne(Return(k.inbox[0]));
    assert Ids(k.outbox) + [k.inbox[0]] + k.inbox[1..] == Ids(k.outbox) + k.inbox;
  }

  // ---------------------------------------------------------------------------------------------
  // The queues are in order
  // ---------------------------------------------------------------------------------------------

  ghost predicate QueuesOk(s: State) {
    && (forall w | 0 <= w < |s.workers| :: Increasing(Queue(s.workers[w])) && AllBelow(Queue(s.workers[w]), s.next))
    && AllBelow(Ids(s.lat), s.next)
  }

  lemma QueuesKept(c: Config, s: State, step: Step)
    requires c.Valid() && Inv(c, s) && QueuesOk(s) && Enabled(c, s, step)
    ensures QueuesOk(Apply(c, s, step))
  {
    hide Inv, Queue;
    var t := Apply(c, s, step);
    forall w | 0 <= w < |t.workers|
      ensures Increasing(Queue(t.workers[w])) && AllBelow(Queue(t.workers[w]), t.next)
    {
      QueueStep(c, s, step, w);
    }
    if step.Collect? {
      QueueStep(c, s, step, step.w);
      var q := Queue(s.workers[step.w]);
      IdsConcat(s.lat, [Return(q[0])]);
      IdsOfOne(Return(q[0]));
    }
  }

  // ---------------------------------------------------------------------------------------------
  // With round robin, so is the record
  // ---------------------------------------------------------------------------------------------

  /** The workers in the order of their announcements; the credits of one are those of its place, modulo their number. */
  ghost predicate Lane(c: Config, s: State, j: nat)
    requires c.Valid() && Roster(c, s)
  {
    j < |s.idents| ==> InLane(c.workers, s.lat, Queue(s.workers[s.idents[j]]), j)
  }

  /** Two records of one worker are in the order in which they were sent. */
  predicate LatOk(n: nat, lat: seq<Msg>)
    requires n > 0
  {
    forall p, q | 0 <= p < q < |lat| && lat[p].Return? && lat[q].Return? ::
      lat[p].id % n == lat[q].id % n ==> lat[p].id < lat[q].id
  }

  ghost predicate OrderInv(c: Config, s: State)
    requires c.Valid()
  {
    && Inv(c, s) && QueuesOk(s)
    && (c.pattern.DealerRouter? ==> LatOk(c.workers, s.lat) && forall j | 0 <= j < c.workers :: Lane(c, s, j))
  }

  lemma LaneKept(c: Config, s: State, step: Step, j: nat)
    requires c.Valid() && OrderInv(c, s) && c.pattern.DealerRouter? && Enabled(c, s, step) && j < c.workers
    requires Roster(c, Apply(c, s, step))
    ensures Lane(c, Apply(c, s, step), j)
  {
    var t := Apply(c, s, step);
    if step.Handshake? || !Shaken(c, s) {
      QueuesEmpty(c, s, step, j);
    } else {
      match step {
        case Send(w) => SendLane(c, s, w, j);
        case Collect(w) => CollectLane(c, s, w, j);
        case _ => OtherLane(c, s, step, j);
      }
    }
  }

  lemma OtherLane(c: Config, s: State, step: Step, j: nat)
    requires c.Valid() && OrderInv(c, s) && c.pattern.DealerRouter? && Enabled(c, s, step) && j < c.workers
    requires Shaken(c, s) && !step.Send? && !step.Collect? && Roster(c, Apply(c, s, step))
    ensures Lane(c, Apply(c, s, step), j)
  {
    assert Lane(c, s, j);
    QueueStep(c, s, step, s.idents[j]);
    hide Queue, QueuesOk, WorkerOk, Books;
  }

  /** Until all have announced themselves nobody holds a credit. */
  lemma QueuesEmpty(c: Config, s: State, step: Step, j: nat)
    requires c.Valid() && Inv(c, s) && Enabled(c, s, step) && !Shaken(c, s) && Roster(c, Apply(c, s, step))
    ensures Lane(c, Apply(c, s, step), j)
  {
    var t := Apply(c, s, step);
    if j < |t.idents| {
      var w := t.idents[j];
      QueueStep(c, s, step, w);
      assert WorkerOk(c.count, Shaken(c, s), w in s.idents, s.workers[w]);
      IdsOfOne(Ready);
      assert Queue(s.workers[w]) == [];
    }
  }

  lemma SendLane(c: Config, s: State, w: nat, j: nat)
    requires c.Valid() && OrderInv(c, s) && c.pattern.DealerRouter? && Enabled(c, s, Send(w)) && j < c.workers
    requires Roster(c, Apply(c, s, Send(w)))
    ensures Lane(c, Apply(c, s, Send(w)), j)
  {
    var t := Apply(c, s, Send(w));
    var r := s.next % c.workers;
    assert w == s.idents[r] by { RotateOnce(s.idents, r); }
    assert Lane(c, s, j);
    QueueStep(c, s, Send(w), s.idents[j]);
    AllIds(s.lat, s.next);
    assert j != r ==> s.idents[j] != s.idents[r];
  }

  lemma {:induction false} AllIds(lat: seq<Msg>, n: nat)
    requires AllBelow(Ids(lat), n)
    ensures forall p | 0 <= p < |lat| && lat[p].Return? :: lat[p].id < n
  {
    if lat != [] {
      var rest := Ids(lat[1..]);
      assert lat[0].Return? ==> Ids(lat)[0] == lat[0].id && Ids(lat)[1..] == rest;
      forall i | 0 <= i < |rest| ensures rest[i] < n {
        if lat[0].Return? { assert rest[i] == Ids(lat)[i + 1]; } else { assert Ids(lat) == rest; }
      }
      AllIds(lat[1..], n);
      assert forall p | 0 < p < |lat| :: lat[p] == lat[1..][p - 1];
    }
  }

  /** The queue's credits have the residue, and all recorded ones of that residue are smaller. */
  predicate InLane(n: nat, lat: seq<Msg>, q: seq<nat>, j: nat)
    requires n > 0
  {
    && (forall i | 0 <= i < |q| :: q[i] % n == j)
    && (forall p, i | 0 <= p < |lat| && 0 <= i < |q| && lat[p].Return? :: lat[p].id % n == j ==> lat[p].id < q[i])
  }

  lemma FirstLeaves(n: nat, lat: seq<Msg>, q: seq<nat>, j: nat)
    requires n > 0 && q != [] && InLane(n, lat, q, j) && Increasing(q)
    ensures InLane(n, lat + [Return(q[0])], q[1..], j)
  {}

  lemma OtherLeaves(n: nat, lat: seq<Msg>, q: seq<nat>, j: nat, id: nat)
    requires n > 0 && InLane(n, lat, q, j) && id % n != j
    ensures InLane(n, lat + [Return(id)], q, j)
  {}

  /** The place of a collecting worker, and its oldest credit. */
  lemma CollectorAt(c: Config, s: State, w: nat) returns (i: nat)
    requires c.Valid() && OrderInv(c, s) && c.pattern.DealerRouter? && Enabled(c, s, Collect(w))
    ensures i < |s.idents| <= c.workers && s.idents[i] == w
    ensures InLane(c.workers, s.lat, Queue(s.workers[w]), i) && Increasing(Queue(s.workers[w]))
  {
    ShakenMeansAll(c, s);
    i :| 0 <= i < |s.idents| && s.idents[i] == w;
    assert Lane(c, s, i);
  }

  lemma CollectLane(c: Config, s: State, w: nat, j: nat)
    requires c.Valid() && OrderInv(c, s) && c.pattern.DealerRouter? && Enabled(c, s, Collect(w)) && j < c.workers
    requires Roster(c, Apply(c, s, Collect(w)))
    ensures Lane(c, Apply(c, s, Collect(w)), j)
  {
    assert Lane(c, s, j);
    if j < |s.idents| {
      var i := CollectorAt(c, s, w);
      assert i != j ==> s.idents[i] != s.idents[j];
      var v := s.idents[j];
      hide OrderInv;
      CollectedLane(c, s, w, i, v, j);
    }
  }

  lemma CollectedLane(c: Config, s: State, w: nat, i: nat, v: nat, j: nat)
    requires c.Valid() && Inv(c, s) && Enabled(c, s, Collect(w)) && v < |s.workers| && (v == w <==> i == j)
    requires InLane(c.workers, s.lat, Queue(s.workers[w]), i) && Increasing(Queue(s.workers[w]))
    requires InLane(c.workers, s.lat, Queue(s.workers[v]), j)
    ensures var t := Apply(c, s, Collect(w)); InLane(c.workers, t.lat, Queue(t.workers[v]), j)
  {
    hide Inv, Queue;
    QueueStep(c, s, Collect(w), w);
    QueueStep(c, s, Collect(w), v);
    var q := Queue(s.workers[w]);
    assert q[0] % c.workers == i;
    hide InLane;
    if i == j { FirstLeaves(c.workers, s.lat, q, j); } else { OtherLeaves(c.workers, s.lat, Queue(s.workers[v]), j, q[0]); }
  }

  lemma LatKept(c: Config, s: State, step: Step)
    requires c.Valid() && OrderInv(c, s) && c.pattern.DealerRouter? && Enabled(c, s, step)
    ensures LatOk(c.workers, Apply(c, s, step).lat)
  {
    if step.Collect? {
      var w := step.w;
      ShakenMeansAll(c, s);
      QueueStep(c, s, step, w);
      var i :| 0 <= i < |s.idents| && s.idents[i] == w;
      assert Lane(c, s, i);
      assert Queue(s.workers[w])[0] % c.workers == i;
    }
  }

  lemma OrderKept(c: Config, s: State, step: Step)
    requires c.Valid() && OrderInv(c, s) && Enabled(c, s, step)
    ensures OrderInv(c, Apply(c, s, step))
  {
    var t := Apply(c, s, step);
    StepInv(c, s, step);
    QueuesKept(c, s, step);
    if c.pattern.DealerRouter? {
      LatKept(c, s, step);
      forall j | 0 <= j < c.workers ensures Lane(c, t, j) { LaneKept(c, s, step, j); }
    }
  }

  lemma {:induction false} RunKeepsOrder(c: Config, s: State, steps: seq<Step>, t: State)
    requires c.Valid() && OrderInv(c, s) && Run(c, s, steps, t)
    ensures OrderInv(c, t)
    decreases |steps|
  {
    hide OrderInv;
    if steps != [] {
      OrderKept(c, s, steps[0]);
      RunKeepsOrder(c, Apply(c, s, steps[0]), steps[1..], t);
    }
  }

  lemma ReachableOrder(c: Config, t: State)
    requires c.Valid() && Reachable(c, t)
    ensures OrderInv(c, t)
  {
    InitInv(c);
    assert Queue(Fresh) == [];
    var steps :| Run(c, Init(c), steps, t);
    RunKeepsOrder(c, Init(c), steps, t);
  }

  /** A worker echoes its credits in the order in which they were sent, and none of those it holds is lost or doubled on
      the way. */
  lemma QueuesInOrder(c: Config, t: State, w: nat)
    requires c.Valid() && Reachable(c, t) && w < |t.workers|
    ensures Increasing(Queue(t.workers[w])) && AllBelow(Queue(t.workers[w]), t.next)
  {
    ReachableOrder(c, t);
  }

  /** Addressed round robin, the credits of one worker are recorded in the order in which they were sent. */
  lemma RecordInOrder(c: Config, t: State, p: nat, q: nat)
    requires c.Valid() && c.pattern.DealerRouter? && Reachable(c, t) && p < q < |t.lat|
    ensures t.lat[p].Return? && t.lat[q].Return?
    ensures t.lat[p].id % c.workers == t.lat[q].id % c.workers ==> t.lat[p].id < t.lat[q].id
  {
    ReachableOrder(c, t);
  }

  /** The workers that announce themselves, in order. */
  function Announced(steps: seq<Step>): seq<nat> {
    if steps == [] then []
    else (if steps[0].Handshake? then [steps[0].w] else []) + Announced(steps[1..])
  }

  lemma {:induction false} IdentsExactly(c: Config, s: State, steps: seq<Step>, t: State)
    requires c.Valid() && Run(c, s, steps, t)
    ensures t.idents == s.idents + Announced(steps)
    decreases |steps|
  {
    if steps != [] { IdentsExactly(c, Apply(c, s, steps[0]), steps[1..], t); }
  }

  /** Credit `id` goes to the worker that announced itself as number `id`, modulo their number. */
  lemma TurnsInOrder(c: Config, steps: seq<Step>, t: State, j: nat, id: nat)
    requires c.Valid() && c.pattern.DealerRouter? && Run(c, Init(c), steps, t) && j < |Announced(steps)|
    ensures Announced(steps)[j] < |t.workers|
    ensures id in Queue(t.workers[Announced(steps)[j]]) ==> id % c.workers == j
  {
    IdentsExactly(c, Init(c), steps, t);
    assert Reachable(c, t);
    ReachableOrder(c, t);
    assert t.idents == Announced(steps) && |t.idents| <= c.workers;
    assert Lane(c, t, j);
    hide Queue, Run;
    assert InLane(c.workers, t.lat, Queue(t.workers[t.idents[j]]), j);
  }

  // ---------------------------------------------------------------------------------------------
  // Quitting in time
  // ---------------------------------------------------------------------------------------------

  predicate QuitsInTime(count: nat, k: Worker) { k.seen >= count && k.seen > 0 ==> k.quit }

  lemma {:induction false} RunQuitsInTime(c: Config, s: State, steps: seq<Step>, t: State)
    requires c.Valid() && Run(c, s, steps, t)
    requires forall w | 0 <= w < |s.workers| :: QuitsInTime(c.count, s.workers[w])
    ensures forall w | 0 <= w < |t.workers| :: QuitsInTime(c.count, t.workers[w])
    decreases |steps|
  {
    if steps != [] { RunQuitsInTime(c, Apply(c, s, steps[0]), steps[1..], t); }
  }

  /** A worker has quit exactly when it has echoed the number it was told, given there is any. */
  lemma QuitExactly(c: Config, t: State, w: nat)
    requires c.Valid() && c.count > 0 && Reachable(c, t) && w < |t.workers|
    ensures t.workers[w].quit <==> t.workers[w].seen >= c.count
  {
    ReachableInv(c, t);
    assert WorkerOk(c.count, Shaken(c, t), w in t.idents, t.workers[w]);
    var steps :| Run(c, Init(c), steps, t);
    RunQuitsInTime(c, Init(c), steps, t);
  }
}
