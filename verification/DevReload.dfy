/** The dev-reload watcher: one scanner that bumps a generation under a condition variable, and any number of
    browser connections that wait for the generation to pass the value they sampled when they connected. */
module DevReload {

  type Snapshot = map<string, int>

  // ---------------------------------------------------------------------------------------------
  // The scanner on its own
  // ---------------------------------------------------------------------------------------------

  /** How many of the scans differ from the one before. */
  function Changes(known: Snapshot, scans: seq<Snapshot>): nat
    decreases |scans|
  {
    if scans == [] then 0 else (if scans[0] != known then 1 else 0) + Changes(scans[0], scans[1..])
  }

  class Watcher {
    var known: Snapshot
    var generation: nat

    constructor (initial: Snapshot)
      ensures known == initial && generation == 0
    {
      known := initial;
      generation := 0;
    }

    /** `_scan_ui_files_once`; `current` is what the directory walk found. */
    method ScanUiFilesOnce(current: Snapshot) returns (changed: bool)
      modifies this
      ensures changed <==> current != old(known)
      ensures known == current
      ensures generation == old(generation) + if changed then 1 else 0
    {
      if current == known {
        return false;
      }
      known := map[];
      known := known + current;
      generation := generation + 1;
      return true;
    }

    /** The polling loop, over the scans it will make. */
    method Watch(scans: seq<Snapshot>)
      modifies this
      ensures generation == old(generation) + Changes(old(known), scans)
    {
      for n := 0 to |scans|
        invariant generation + Changes(known, scans[n..]) == old(generation) + Changes(old(known), scans)
      {
        assert scans[n..][0] == scans[n] && scans[n..][1..] == scans[n + 1..];
        var _ := ScanUiFilesOnce(scans[n]);
      }
    }
  }

  // ---------------------------------------------------------------------------------------------
  // The protocol
  // ---------------------------------------------------------------------------------------------

  /** A connection: it has sampled the generation, holds the lock to test it, sleeps on the condition, has been
      notified, has been sent the reload, is being cancelled, or is over. */
  datatype Phase = Sampled | Holding | Asleep | Woken | Delivered | Leaving | Gone

  datatype Client = Client(phase: Phase, seen: nat)

  /** The scanner: between scans; with a change to publish; with the lock; generation raised; waiters notified. */
  datatype Stage = Between | Pending | Locked | Bumped | Notified

  datatype Holder = Nobody | Scanner | ByClient(i: nat)

  /** `changes` counts the scans that differed from the one before. */
  datatype State = State(
    generation: nat,
    lock: Holder,
    clients: seq<Client>,
    stage: Stage,
    known: Snapshot,
    changes: nat)

  datatype Step =
    | Connect
    | Acquire(i: nat)
    | Test(i: nat)
    | Spurious(i: nat)
    | Cancel(i: nat)
    | Leave(i: nat)
    | Scan(current: Snapshot)
    | TakeLock
    | Bump
    | NotifyAll
    | ReleaseLock

  function Init(initial: Snapshot): State { State(0, Nobody, [], Between, initial, 0) }

  predicate IsIn(s: State, i: nat, phases: set<Phase>) { i < |s.clients| && s.clients[i].phase in phases }

  predicate Enabled(s: State, step: Step) {
    match step
    case Connect => true
    case Acquire(i) => s.lock.Nobody? && IsIn(s, i, {Sampled, Woken})
    case Test(i) => IsIn(s, i, {Holding})
    case Spurious(i) => IsIn(s, i, {Asleep})
    case Cancel(i) => IsIn(s, i, {Sampled, Asleep, Woken})
    case Leave(i) => s.lock.Nobody? && IsIn(s, i, {Leaving})
    case Scan(_) => s.stage.Between?
    case TakeLock => s.stage.Pending? && s.lock.Nobody?
    case Bump => s.stage.Locked?
    case NotifyAll => s.stage.Bumped?
    case ReleaseLock => s.stage.Notified?
  }

  function Move(s: State, i: nat, phase: Phase): seq<Client>
    requires i < |s.clients|
  {
    s.clients[i := s.clients[i].(phase := phase)]
  }

  function Wake(k: Client): Client { if k.phase.Asleep? then k.(phase := Woken) else k }

  function Apply(s: State, step: Step): State
    requires Enabled(s, step)
  {
    match step
    case Connect => s.(clients := s.clients + [Client(Sampled, s.generation)])
    case Acquire(i) => s.(lock := ByClient(i), clients := Move(s, i, Holding))
    case Test(i) =>
      // Testing and going to sleep are one step: nothing is awaited between them.
      s.(lock := Nobody, clients := Move(s, i, if s.generation > s.clients[i].seen then Delivered else Asleep))
    case Spurious(i) => s.(clients := Move(s, i, Woken))
    case Cancel(i) => s.(clients := Move(s, i, Leaving))
    case Leave(i) => s.(clients := Move(s, i, Gone))
    case Scan(current) =>
      if current == s.known then s else s.(known := current, stage := Pending, changes := s.changes + 1)
    case TakeLock => s.(lock := Scanner, stage := Locked)
    case Bump => s.(generation := s.generation + 1, stage := Bumped)
    case NotifyAll =>
      s.(clients := seq(|s.clients|, i requires 0 <= i < |s.clients| => Wake(s.clients[i])), stage := Notified)
    case ReleaseLock => s.(lock := Nobody, stage := Between)
  }

  ghost predicate Run(s: State, steps: seq<Step>, t: State)
    decreases |steps|
  {
    if steps == [] then s == t
    else Enabled(s, steps[0]) && Run(Apply(s, steps[0]), steps[1..], t)
  }

  // ---------------------------------------------------------------------------------------------
  // The invariant
  // ---------------------------------------------------------------------------------------------

  predicate ClientOk(s: State, i: nat)
    requires i < |s.clients|
  {
    var k := s.clients[i];
    && k.seen <= s.generation
    && (k.phase.Holding? <==> s.lock == ByClient(i))
    && (k.phase.Asleep? && !s.stage.Bumped? ==> k.seen == s.generation)
    && (k.phase.Delivered? ==> k.seen < s.generation)
  }

  predicate Inv(s: State) {
    && (s.lock.Scanner? <==> s.stage in {Locked, Bumped, Notified})
    && (s.lock.ByClient? ==> s.lock.i < |s.clients|)
    && s.changes == s.generation + (if s.stage in {Pending, Locked} then 1 else 0)
    && forall i | 0 <= i < |s.clients| :: ClientOk(s, i)
  }

  lemma StepInv(s: State, step: Step)
    requires Inv(s) && Enabled(s, step)
    ensures Inv(Apply(s, step))
  {
    var t := Apply(s, step);
    if step.Test? { assert ClientOk(s, step.i); }
    forall i | 0 <= i < |t.clients| ensures ClientOk(t, i) {
      if i < |s.clients| { assert ClientOk(s, i); }
    }
  }

  lemma {:induction false} RunInv(s: State, steps: seq<Step>, t: State)
    requires Inv(s) && Run(s, steps, t)
    ensures Inv(t)
    decreases |steps|
  {
    if steps != [] {
      StepInv(s, steps[0]);
      RunInv(Apply(s, steps[0]), steps[1..], t);
    }
  }

  /** No lost wakeup: whenever the lock is free, a sleeping client that has not been notified has missed nothing. */
  lemma NoLostWakeup(initial: Snapshot, steps: seq<Step>, t: State, i: nat)
    requires Run(Init(initial), steps, t) && t.lock.Nobody?
    requires i < |t.clients| && t.clients[i].phase.Asleep?
    ensures t.clients[i].seen == t.generation
  {
    RunInv(Init(initial), steps, t);
    assert ClientOk(t, i);
  }

  /** A step neither forgets a client nor changes its sample, and the generation never goes back. */
  lemma {:induction false} SamplesAreKept(s: State, steps: seq<Step>, t: State)
    requires Run(s, steps, t)
    ensures |s.clients| <= |t.clients| && s.generation <= t.generation
    ensures forall i | 0 <= i < |s.clients| :: t.clients[i].seen == s.clients[i].seen
    decreases |steps|
  {
    if steps != [] { SamplesAreKept(Apply(s, steps[0]), steps[1..], t); }
  }

  /** A client that connected in state `s` and has been sent a reload by `t`: the generation has passed the value
      it had when the client connected. */
  lemma ReloadMeansChange(initial: Snapshot, before: seq<Step>, s: State, after: seq<Step>, t: State)
    requires Run(Init(initial), before, s) && Run(Apply(s, Connect), after, t)
    ensures |s.clients| < |t.clients|
    ensures t.clients[|s.clients|].phase.Delivered? ==> s.generation < t.generation
  {
    RunInv(Init(initial), before, s);
    StepInv(s, Connect);
    RunInv(Apply(s, Connect), after, t);
    SamplesAreKept(Apply(s, Connect), after, t);
    assert ClientOk(t, |s.clients|);
  }

  /** The scans made by a run. */
  function Scans(steps: seq<Step>): seq<Snapshot> {
    if steps == [] then []
    else (if steps[0].Scan? then [steps[0].current] else []) + Scans(steps[1..])
  }

  /** Between scans the generation is the number of scans that differed from the one before. */
  lemma {:induction false} ChangesAreCounted(s: State, steps: seq<Step>, t: State)
    requires Run(s, steps, t)
    ensures t.changes == s.changes + Changes(s.known, Scans(steps))
    decreases |steps|
  {
    if steps != [] {
      ChangesAreCounted(Apply(s, steps[0]), steps[1..], t);
      if steps[0].Scan? {
        assert Scans(steps)[0] == steps[0].current && Scans(steps)[1..] == Scans(steps[1..]);
      } else {
        assert Scans(steps) == Scans(steps[1..]);
      }
    }
  }

  lemma GenerationCountsChanges(initial: Snapshot, steps: seq<Step>, t: State)
    requires Run(Init(initial), steps, t) && t.stage.Between?
    ensures t.generation == Changes(initial, Scans(steps))
  {
    RunInv(Init(initial), steps, t);
    ChangesAreCounted(Init(initial), steps, t);
  }

  // ---------------------------------------------------------------------------------------------
  // Delivery
  // ---------------------------------------------------------------------------------------------

  /** The steps the program takes by itself; the others are its environment: connections, scans, cancellations. */
  predicate Internal(step: Step) {
    step.Acquire? || step.Test? || step.Leave? || step.TakeLock? || step.Bump? || step.NotifyAll? || step.ReleaseLock?
  }

  ghost predicate Settled(s: State) { forall step | Internal(step) :: !Enabled(s, step) }

  lemma HolderCanTest(s: State)
    requires Inv(s)
    ensures s.lock.ByClient? ==> Enabled(s, Test(s.lock.i))
  {
    if s.lock.ByClient? { assert ClientOk(s, s.lock.i); }
  }

  /** When the program has nothing more to do by itself, every change is published, and every connection either
      has had its reload, or is over, or sleeps without having missed a change. */
  lemma EveryChangeIsDelivered(initial: Snapshot, steps: seq<Step>, t: State)
    requires Run(Init(initial), steps, t) && Settled(t)
    ensures t.generation == t.changes == Changes(initial, Scans(steps))
    ensures forall i | 0 <= i < |t.clients| ::
              var k := t.clients[i]; k.phase in {Delivered, Gone} || (k.phase.Asleep? && k.seen == t.changes)
  {
    RunInv(Init(initial), steps, t);
    assert !Enabled(t, TakeLock) && !Enabled(t, Bump) && !Enabled(t, NotifyAll) && !Enabled(t, ReleaseLock);
    HolderCanTest(t);
    forall i | 0 <= i < |t.clients|
      ensures t.clients[i].phase in {Delivered, Gone} || (t.clients[i].phase.Asleep? && t.clients[i].seen == t.changes)
    {
      assert ClientOk(t, i) && !Enabled(t, Acquire(i)) && !Enabled(t, Test(i)) && !Enabled(t, Leave(i));
    }
    ChangesAreCounted(Init(initial), steps, t);
  }

  function StageLeft(stage: Stage): nat {
    match stage
    case Between => 0
    case Notified => 1
    case Bumped => 2
    case Locked => 3
    case Pending => 4
  }

  function ClientLeft(k: Client): nat {
    match k.phase
    case Sampled => 2
    case Woken => 2
    case Holding => 1
    case Leaving => 1
    case _ => 0
  }

  function ClientsLeft(clients: seq<Client>): nat {
    if clients == [] then 0 else ClientsLeft(clients[..|clients| - 1]) + ClientLeft(clients[|clients| - 1])
  }

  function Left(s: State): nat { StageLeft(s.stage) * (2 * |s.clients| + 1) + ClientsLeft(s.clients) }

  lemma {:induction false} ClientsLeftUpdate(clients: seq<Client>, i: nat, k: Client)
    requires i < |clients|
    ensures ClientsLeft(clients[i := k]) + ClientLeft(clients[i]) == ClientsLeft(clients) + ClientLeft(k)
  {
    var last := |clients| - 1;
    if i == last {
      assert clients[i := k][..last] == clients[..last];
    } else {
      assert clients[i := k][..last] == clients[..last][i := k];
      ClientsLeftUpdate(clients[..last], i, k);
    }
  }

  lemma {:induction false} ClientsLeftBound(clients: seq<Client>)
    ensures ClientsLeft(clients) <= 2 * |clients|
  {
    if clients != [] { ClientsLeftBound(clients[..|clients| - 1]); }
  }

  lemma InternalStepsDecrease(s: State, step: Step)
    requires Inv(s) && Internal(step) && Enabled(s, step)
    ensures Left(Apply(s, step)) < Left(s)
  {
    var t := Apply(s, step);
    if step.Acquire? || step.Test? || step.Leave? {
      ClientsLeftUpdate(s.clients, step.i, t.clients[step.i]);
      assert Left(t) == Left(s) + ClientLeft(t.clients[step.i]) - ClientLeft(s.clients[step.i]);
    } else {
      assert |t.clients| == |s.clients| && StageLeft(t.stage) + 1 == StageLeft(s.stage);
      ClientsLeftBound(t.clients);
      assert Left(s) == StageLeft(t.stage) * (2 * |s.clients| + 1) + (2 * |s.clients| + 1) + ClientsLeft(s.clients);
    }
  }

  /** Left to itself the program settles: there is a bound on the steps it can take. */
  lemma {:induction false} ProgramSettles(s: State, steps: seq<Step>, t: State)
    requires Inv(s) && Run(s, steps, t) && forall i | 0 <= i < |steps| :: Internal(steps[i])
    ensures |steps| <= Left(s)
    decreases |steps|
  {
    if steps != [] {
      StepInv(s, steps[0]);
      InternalStepsDecrease(s, steps[0]);
      forall i | 0 <= i < |steps[1..]| ensures Internal(steps[1..][i]) { assert steps[1..][i] == steps[i + 1]; }
      ProgramSettles(Apply(s, steps[0]), steps[1..], t);
    }
  }

  // ---------------------------------------------------------------------------------------------
  // What is always possible
  // ---------------------------------------------------------------------------------------------

  /** While the lock is free a waiting client can always be cancelled, and then leaves; nothing else changes. */
  lemma CanLeave(s: State, i: nat)
    requires s.lock.Nobody? && i < |s.clients| && s.clients[i].phase in {Sampled, Asleep, Woken}
    ensures Run(s, [Cancel(i), Leave(i)], s.(clients := s.clients[i := s.clients[i].(phase := Gone)]))
  {
    var left := Apply(s, Cancel(i));
    assert [Cancel(i), Leave(i)][1..] == [Leave(i)] && [Leave(i)][1..] == [];
    assert Apply(left, Leave(i)) == s.(clients := s.clients[i := s.clients[i].(phase := Gone)]);
    assert Run(left, [Leave(i)], Apply(left, Leave(i)));
  }

  /** A sleeping client that is up to date and wakes without being notified goes back to sleep, and nothing has changed. */
  lemma SpuriousWakeIsHarmless(s: State, i: nat)
    requires s.lock.Nobody? && i < |s.clients| && s.clients[i].phase.Asleep? && s.clients[i].seen == s.generation
    ensures Run(s, [Spurious(i), Acquire(i), Test(i)], s)
  {
    var a := Apply(s, Spurious(i));
    var b := Apply(a, Acquire(i));
    assert [Spurious(i), Acquire(i), Test(i)][1..] == [Acquire(i), Test(i)];
    assert [Acquire(i), Test(i)][1..] == [Test(i)] && [Test(i)][1..] == [];
    assert Apply(b, Test(i)) == s;
    assert Run(b, [Test(i)], s);
    assert Run(a, [Acquire(i), Test(i)], s);
  }

  /** A scan that finds a change raises the generation by one and wakes every sleeping client. */
  lemma ChangeIsPublished(s: State, current: Snapshot)
    requires s.lock.Nobody? && s.stage.Between? && current != s.known
    ensures var woken := seq(|s.clients|, i requires 0 <= i < |s.clients| =>
        if s.clients[i].phase.Asleep? then s.clients[i].(phase := Woken) else s.clients[i]);
      Run(s, [Scan(current), TakeLock, Bump, NotifyAll, ReleaseLock],
          s.(known := current, changes := s.changes + 1, generation := s.generation + 1, clients := woken))
  {
    var a := Apply(s, Scan(current));
    var b := Apply(a, TakeLock);
    var d := Apply(b, Bump);
    var e := Apply(d, NotifyAll);
    var f := Apply(e, ReleaseLock);
    assert e.clients == seq(|s.clients|, i requires 0 <= i < |s.clients| =>
        if s.clients[i].phase.Asleep? then s.clients[i].(phase := Woken) else s.clients[i]);
    assert f == s.(known := current, changes := s.changes + 1, generation := s.generation + 1, clients := e.clients);
    hide Run, Apply, Enabled;
    RunNothing(f);
    RunFirst(e, ReleaseLock, [], f);
    RunFirst(d, NotifyAll, [ReleaseLock], f);
    RunFirst(b, Bump, [NotifyAll, ReleaseLock], f);
    RunFirst(a, TakeLock, [Bump, NotifyAll, ReleaseLock], f);
    RunFirst(s, Scan(current), [TakeLock, Bump, NotifyAll, ReleaseLock], f);
    assert [ReleaseLock] + [] == [ReleaseLock] && [NotifyAll] + [ReleaseLock] == [NotifyAll, ReleaseLock];
    assert [Bump] + [NotifyAll, ReleaseLock] == [Bump, NotifyAll, ReleaseLock];
    assert [TakeLock] + [Bump, NotifyAll, ReleaseLock] == [TakeLock, Bump, NotifyAll, ReleaseLock];
    assert [Scan(current)] + [TakeLock, Bump, NotifyAll, ReleaseLock] ==
           [Scan(current), TakeLock, Bump, NotifyAll, ReleaseLock];
  }

  lemma RunNothing(s: State)
    ensures Run(s, [], s)
  {}

  lemma RunFirst(s: State, step: Step, rest: seq<Step>, t: State)
    requires Enabled(s, step) && Run(Apply(s, step), rest, t)
    ensures Run(s, [step] + rest, t)
  {
    assert ([step] + rest)[1..] == rest;
  }
}
