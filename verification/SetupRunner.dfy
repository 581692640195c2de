/** Running setup steps: what each run writes to the original stdout, and what it leaves of the descriptor table. */
module SetupRunner {
  import opened SetupOutput
  import opened Wrappers

  // ---------------------------------------------------------------------------------------------
  // Step bodies
  // ---------------------------------------------------------------------------------------------

  datatype Trace = Trace(texts: seq<Text>, error: Option<string>)

  /** What a body puts on the original stdout: every event, and its own text only while nothing captures it. */
  function Shown(acts: seq<Act>, step: string, captured: bool, json: bool): Trace {
    if acts == [] then Trace([], None)
    else
      var first := ShownByOne(acts[0], step, captured, json);
      if first.error.Some? then first
      else
        var rest := Shown(acts[1..], step, captured, json);
        Trace(first.texts + rest.texts, rest.error)
  }

  function ShownByOne(act: Act, step: string, captured: bool, json: bool): Trace {
    match act
    case Print(text) => Trace(if captured then [] else [Raw(text)], None)
    case Emit(line) => Trace([Line(Output(step, line))], None)
    case Capture(inner, body) => Shown(body, inner, captured || json, json)
    case Raise(error) => Trace([], Some(error))
  }

  /** The events among the texts, or the others. */
  function Select(texts: seq<Text>, events: bool): seq<Text> {
    if texts == [] then []
    else (if texts[0].Line? == events then [texts[0]] else []) + Select(texts[1..], events)
  }

  lemma {:induction false} SelectConcat(a: seq<Text>, b: seq<Text>, events: bool)
    ensures Select(a + b, events) == Select(a, events) + Select(b, events)
  {
    if a == [] {
      assert a + b == b;
    } else {
      assert (a + b)[1..] == a[1..] + b;
      SelectConcat(a[1..], b, events);
    }
  }

  /** What a body prints on the descriptor 1 it is given: its own text outside captures. */
  function Printed(acts: seq<Act>, json: bool): seq<Text> { Select(Shown(acts, "", false, json).texts, false) }

  /** The files other than stdout: no event has reached any of them; `current` has got `texts`; any other that is older
      than `next` has got nothing. */
  ghost predicate Elsewhere(before: seq<Write>, after: seq<Write>, stdout: File, current: File, next: File,
                            texts: seq<Text>)
  {
    forall f: File | f != stdout ::
      && Select(Reached(after, f), true) == Select(Reached(before, f), true)
      && (f == current ==> Reached(after, f) == Reached(before, f) + texts)
      && (f != current && f < next ==> Reached(after, f) == Reached(before, f))
  }

  lemma ElsewhereThen(a: seq<Write>, b: seq<Write>, c: seq<Write>, stdout: File, current: File, next: File, later: File,
                      texts: seq<Text>, more: seq<Text>)
    requires Elsewhere(a, b, stdout, current, next, texts) && Elsewhere(b, c, stdout, current, later, more)
    requires next <= later
    ensures Elsewhere(a, c, stdout, current, next, texts + more)
  {
    hide Reached, Select;
    assert Reached(a, current) + texts + more == Reached(a, current) + (texts + more);
  }

  /** The contract of emitting an event, seen from the other files. */
  lemma EventElsewhere(before: seq<Write>, after: seq<Write>, stdout: File, current: File, next: File)
    requires forall f: File | f != stdout :: Reached(after, f) == Reached(before, f)
    ensures Elsewhere(before, after, stdout, current, next, [])
  {}

  lemma EventThen(a: seq<Write>, b: seq<Write>, c: seq<Write>, stdout: File, current: File, next: File)
    requires Elsewhere(a, b, stdout, current, next, [])
    requires forall f: File | f != stdout :: Reached(c, f) == Reached(b, f)
    ensures Elsewhere(a, c, stdout, current, next, [])
  {}

  lemma NothingElsewhere(written: seq<Write>, stdout: File, current: File, next: File)
    ensures Elsewhere(written, written, stdout, current, next, [])
  {}

  lemma QuietThen(a: seq<Write>, b: seq<Write>, c: seq<Write>, stdout: File, current: File, next: File, later: File)
    requires Elsewhere(a, b, stdout, current, next, []) && Elsewhere(b, c, stdout, current, later, []) && next <= later
    ensures Elsewhere(a, c, stdout, current, next, [])
  {}

  /** Seen from outside, what a new file has got is got by no file. */
  lemma ElsewhereInside(before: seq<Write>, after: seq<Write>, stdout: File, current: File, next: File, inner: File,
                        later: File, texts: seq<Text>)
    requires Elsewhere(before, after, stdout, inner, later, texts) && current < next <= inner < later && inner != stdout
    ensures Elsewhere(before, after, stdout, current, next, [])
    ensures Reached(after, inner) == Reached(before, inner) + texts
  {
    hide Reached, Select;
    assert Reached(before, current) + [] == Reached(before, current);
  }

  lemma NothingPrinted(json: bool)
    ensures Printed([], json) == []
  {}

  /** A captured body prints nothing, an uncaptured one the same whatever it is called. */
  lemma {:induction false} PrintedAsShown(acts: seq<Act>, step: string, captured: bool, json: bool)
    ensures Select(Shown(acts, step, captured, json).texts, false) == if captured then [] else Printed(acts, json)
    decreases acts, 0
  {
    if acts != [] {
      PrintedAsShownByOne(acts[0], step, captured, json);
      PrintedAsShown(acts[1..], step, captured, json);
      SelectConcat(ShownByOne(acts[0], step, captured, json).texts, Shown(acts[1..], step, captured, json).texts, false);
      PrintedInOrder(acts, step, captured, json);
    }
  }

  lemma {:induction false} PrintedAsShownByOne(act: Act, step: string, captured: bool, json: bool)
    ensures Select(ShownByOne(act, step, captured, json).texts, false) ==
            if captured then [] else Select(ShownByOne(act, "", false, json).texts, false)
    decreases act, 1
  {
    if act.Capture? {
      PrintedAsShown(act.body, act.step, captured || json, json);
      PrintedAsShown(act.body, act.step, json, json);
    }
  }

  /** Printing on descriptor 1 is no event. */
  lemma PrintedThere(before: seq<Write>, after: seq<Write>, stdout: File, current: File, next: File, text: string)
    requires forall f :: Reached(after, f) == Reached(before, f) + if f == current then [Raw(text)] else []
    ensures Elsewhere(before, after, stdout, current, next, [Raw(text)])
  {
    forall f: File ensures Select(Reached(after, f), true) == Select(Reached(before, f), true) {
      SelectConcat(Reached(before, f), if f == current then [Raw(text)] else [], true);
    }
  }

  lemma PrintedInOrder(acts: seq<Act>, step: string, captured: bool, json: bool)
    requires acts != []
    ensures var first := ShownByOne(acts[0], "", false, json);
      && first.error == ShownByOne(acts[0], step, captured, json).error
      && Printed(acts, json) ==
         if first.error.Some? then Select(first.texts, false)
         else Select(first.texts, false) + Printed(acts[1..], json)
  {
    SameEndOfOne(acts[0], step, captured, "", false, json);
    SelectConcat(ShownByOne(acts[0], "", false, json).texts, Shown(acts[1..], "", false, json).texts, false);
  }

  /** Being captured changes what is shown, not how it ends. */
  lemma {:induction false} SameEnd(acts: seq<Act>, step: string, captured: bool, step': string, captured': bool, json: bool)
    ensures Shown(acts, step, captured, json).error == Shown(acts, step', captured', json).error
    decreases acts, 0
  {
    if acts != [] {
      SameEndOfOne(acts[0], step, captured, step', captured', json);
      SameEnd(acts[1..], step, captured, step', captured', json);
    }
  }

  lemma {:induction false} SameEndOfOne(act: Act, step: string, captured: bool, step': string, captured': bool, json: bool)
    ensures ShownByOne(act, step, captured, json).error == ShownByOne(act, step', captured', json).error
    decreases act, 1
  {
    if act.Capture? { SameEnd(act.body, act.step, captured || json, act.step, captured' || json, json); }
  }

  /** Running a body, with captures nested to any depth and exceptions anywhere: descriptors 1 and 2 name the same
      files afterwards, events have gone to the original stdout only, and captured text has not gone there. */
  method RunActs(p: Process, acts: seq<Act>, step: string, ghost stdout: File) returns (error: Option<string>)
    requires p.Sound(stdout)
    modifies p`fds, p`nextFile, p`written, p`pyOut, p`pyErr, p`realStdout
    ensures p.Sound(stdout)
    ensures Remembers(old(p.Core()), old(p.realStdout), p.Core(), p.realStdout, stdout)
    ensures !p.json ==> p.fds == old(p.fds) && p.realStdout == old(p.realStdout)
    ensures p.fds[1] == old(p.fds[1]) && p.fds[2] == old(p.fds[2])
    ensures p.nextFile >= old(p.nextFile)
    ensures Elsewhere(old(p.written), p.written, stdout, old(p.fds[1]), old(p.nextFile), Printed(acts, p.json))
    ensures var shown := Shown(acts, step, old(p.fds[1]) != stdout, p.json);
      Reached(p.written, stdout) == Reached(old(p.written), stdout) + shown.texts && error == shown.error
    decreases acts, 0
  {
    hide Elsewhere, Select, Reached, Printed, ShownByOne;
    ghost var before, current, next := p.written, p.fds[1], p.nextFile;
    if acts == [] {
      NothingElsewhere(before, stdout, current, next);
      NothingPrinted(p.json);
      return None;
    }
    PrintedInOrder(acts, step, current != stdout, p.json);
    ghost var first := Select(ShownByOne(acts[0], "", false, p.json).texts, false);
    error := RunOne(p, acts[0], step, stdout);
    if error.None? {
      ghost var between, later := p.written, p.nextFile;
      error := RunActs(p, acts[1..], step, stdout);
      ElsewhereThen(before, between, p.written, stdout, current, next, later, first, Printed(acts[1..], p.json));
    }
  }

  method RunOne(p: Process, act: Act, step: string, ghost stdout: File) returns (error: Option<string>)
    requires p.Sound(stdout)
    modifies p`fds, p`nextFile, p`written, p`pyOut, p`pyErr, p`realStdout
    ensures p.Sound(stdout)
    ensures Remembers(old(p.Core()), old(p.realStdout), p.Core(), p.realStdout, stdout)
    ensures !p.json ==> p.fds == old(p.fds) && p.realStdout == old(p.realStdout)
    ensures p.fds[1] == old(p.fds[1]) && p.fds[2] == old(p.fds[2])
    ensures p.nextFile >= old(p.nextFile)
    ensures Elsewhere(old(p.written), p.written, stdout, old(p.fds[1]), old(p.nextFile),
                      Select(ShownByOne(act, "", false, p.json).texts, false))
    ensures var shown := ShownByOne(act, step, old(p.fds[1]) != stdout, p.json);
      Reached(p.written, stdout) == Reached(old(p.written), stdout) + shown.texts && error == shown.error
    decreases act, 2
  {
    ghost var before, current, next := p.written, p.fds[1], p.nextFile;
    error := None;
    match act {
      case Print(text) =>
        p.WriteTo(1, Raw(text));
        PrintedThere(before, p.written, stdout, current, next, text);
      case Emit(line) => p.EmitEvent(Output(step, line), stdout);
      case Capture(inner, body) =>
        error := RunCapture(p, inner, body, stdout);
        PrintedAsShown(body, inner, p.json, p.json);
      case Raise(e) => error := Some(e);
    }
  }

  /** `with _StreamEmitter(step): body`.  What the body prints goes into the pipe that the capture makes. */
  method RunCapture(p: Process, step: string, body: seq<Act>, ghost stdout: File) returns (error: Option<string>)
    requires p.Sound(stdout)
    modifies p`fds, p`nextFile, p`written, p`pyOut, p`pyErr, p`realStdout
    ensures p.Sound(stdout)
    ensures Remembers(old(p.Core()), old(p.realStdout), p.Core(), p.realStdout, stdout)
    ensures !p.json ==> p.fds == old(p.fds) && p.realStdout == old(p.realStdout)
    ensures p.fds[1] == old(p.fds[1]) && p.fds[2] == old(p.fds[2])
    ensures p.nextFile >= old(p.nextFile)
    ensures Elsewhere(old(p.written), p.written, stdout, old(p.fds[1]), old(p.nextFile),
                      if p.json then [] else Printed(body, false))
    ensures p.json ==>
              Reached(p.written, old(p.nextFile)) == Reached(old(p.written), old(p.nextFile)) + Printed(body, true)
    ensures var shown := Shown(body, step, old(p.fds[1]) != stdout || p.json, p.json);
      Reached(p.written, stdout) == Reached(old(p.written), stdout) + shown.texts && error == shown.error
    decreases body, 1
  {
    hide Elsewhere, Select, Reached, Printed;
    ghost var before, current, next := p.written, p.fds[1], p.nextFile;
    var emitter := new StreamEmitter();
    emitter.Enter(p, stdout);
    ghost var inner, later := p.fds[1], p.nextFile;
    error := RunActs(p, body, step, stdout);
    emitter.Exit(p, stdout);
    if p.json {
      ElsewhereInside(before, p.written, stdout, current, next, inner, later, Printed(body, true));
    }
  }

  // ---------------------------------------------------------------------------------------------
  // The two runners
  // ---------------------------------------------------------------------------------------------

  /** A setup step; its function runs `body` and returns `detail`. */
  datatype SetupStep = SetupStep(name: string, skip: bool, skipReason: string, optional: bool, body: seq<Act>, detail: string)

  /** What one step writes to stdout, its entry in the result list, and whether processing goes on. */
  datatype Processed = Processed(texts: seq<Text>, result: StepResult, goOn: bool)

  function Process1(s: SetupStep, continueOnError: bool): Processed {
    if s.skip then
      Processed([Line(StepSkipped(s.name, s.skipReason))], StepResult(s.name, Skip, s.skipReason), true)
    else
      var shown := Shown(s.body, s.name, true, true);
      match shown.error
      case None =>
        var detail := if s.detail == "" then "done" else s.detail;
        Processed([Line(StepStarted(s.name))] + shown.texts + [Line(StepCompleted(s.name, detail))],
                  StepResult(s.name, Done, detail), true)
      case Some(e) =>
        Processed([Line(StepStarted(s.name))] + shown.texts + [Line(StepFailed(s.name, e))],
                  StepResult(s.name, Error, e), s.optional && continueOnError)
  }

  datatype Outcome = Outcome(texts: seq<Text>, results: seq<StepResult>)

  function Setup(steps: seq<SetupStep>, continueOnError: bool): Outcome {
    if steps == [] then Outcome([], [])
    else
      var first := Process1(steps[0], continueOnError);
      if !first.goOn then Outcome(first.texts, [first.result])
      else
        var rest := Setup(steps[1..], continueOnError);
        Outcome(first.texts + rest.texts, [first.result] + rest.results)
  }

  /** `_run_setup_steps_json`. */
  method RunSetupStepsJson(p: Process, steps: seq<SetupStep>, continueOnError: bool, ghost stdout: File)
    requires p.Sound(stdout) && p.json && !p.summaryEmitted
    modifies p
    ensures p.Sound(stdout) && p.json && p.streaming && p.summaryEmitted
    ensures p.fds[1] == old(p.fds[1]) && p.fds[2] == old(p.fds[2])
    ensures Elsewhere(old(p.written), p.written, stdout, old(p.fds[1]), old(p.nextFile), [])
    ensures var outcome := Setup(steps, continueOnError);
      && p.result == outcome.results
      && Reached(p.written, stdout) ==
         Reached(old(p.written), stdout) + outcome.texts + [Line(Summary(outcome.results))]
  {
    hide Select, Reached, Setup;
    ghost var before, current, next := p.written, p.fds[1], p.nextFile;
    p.streaming := true;
    var results := RunAll(p, steps, continueOnError, stdout);
    p.result := results;
    p.EmitSummary(stdout);
  }

  /** The loop over the steps. */
  method RunAll(p: Process, steps: seq<SetupStep>, continueOnError: bool, ghost stdout: File)
    returns (results: seq<StepResult>)
    requires p.Sound(stdout) && p.json
    modifies p`fds, p`nextFile, p`written, p`pyOut, p`pyErr, p`realStdout
    ensures p.Sound(stdout)
    ensures p.fds[1] == old(p.fds[1]) && p.fds[2] == old(p.fds[2])
    ensures Elsewhere(old(p.written), p.written, stdout, old(p.fds[1]), old(p.nextFile), [])
    ensures var outcome := Setup(steps, continueOnError);
      results == outcome.results && Reached(p.written, stdout) == Reached(old(p.written), stdout) + outcome.texts
  {
    hide Elsewhere, Select, Reached;
    ghost var start, current, next := p.written, p.fds[1], p.nextFile;
    NothingElsewhere(start, stdout, current, next);
    ghost var before := Reached(p.written, stdout);
    ghost var texts: seq<Text> := [];
    results := [];
    var i := 0;
    while i < |steps|
      invariant i <= |steps|
      invariant p.Sound(stdout)
      invariant p.fds[1] == old(p.fds[1]) && p.fds[2] == old(p.fds[2])
      invariant p.nextFile >= next && Elsewhere(start, p.written, stdout, current, next, [])
      invariant Reached(p.written, stdout) == before + texts
      invariant Setup(steps, continueOnError) == After(texts, results, Setup(steps[i..], continueOnError))
    {
      OneStepOn(steps, i, continueOnError, texts, results);
      ghost var done, between, later := Process1(steps[i], continueOnError), p.written, p.nextFile;
      var result, goOn := RunOneStep(p, steps[i], continueOnError, stdout);
      QuietThen(start, between, p.written, stdout, current, next, later);
      Assoc(before, texts, done.texts);
      texts := texts + done.texts;
      results := results + [result];
      if !goOn {
        NothingAfter(texts, results);
        return;
      }
      i := i + 1;
    }
    NothingAfter(texts, results);
  }

  lemma Assoc<T>(a: seq<T>, b: seq<T>, c: seq<T>)
    ensures a + b + c == a + (b + c)
  {}

  lemma NothingAfter(texts: seq<Text>, results: seq<StepResult>)
    ensures After(texts, results, Outcome([], [])) == Outcome(texts, results)
  {}

  function After(texts: seq<Text>, results: seq<StepResult>, rest: Outcome): Outcome {
    Outcome(texts + rest.texts, results + rest.results)
  }

  lemma OneStepOn(steps: seq<SetupStep>, i: nat, continueOnError: bool, texts: seq<Text>, results: seq<StepResult>)
    requires i < |steps|
    ensures var done := Process1(steps[i], continueOnError);
      After(texts, results, Setup(steps[i..], continueOnError)) ==
      After(texts + done.texts, results + [done.result],
            if done.goOn then Setup(steps[i + 1..], continueOnError) else Outcome([], []))
  {
    assert steps[i..][0] == steps[i] && steps[i..][1..] == steps[i + 1..];
  }

  /** The body of the loop. */
  method RunOneStep(p: Process, s: SetupStep, continueOnError: bool, ghost stdout: File)
    returns (result: StepResult, goOn: bool)
    requires p.Sound(stdout) && p.json
    modifies p`fds, p`nextFile, p`written, p`pyOut, p`pyErr, p`realStdout
    ensures p.Sound(stdout)
    ensures p.fds[1] == old(p.fds[1]) && p.fds[2] == old(p.fds[2])
    ensures p.nextFile >= old(p.nextFile)
    ensures Elsewhere(old(p.written), p.written, stdout, old(p.fds[1]), old(p.nextFile), [])
    ensures var done := Process1(s, continueOnError);
      && result == done.result && goOn == done.goOn
      && Reached(p.written, stdout) == Reached(old(p.written), stdout) + done.texts
  {
    hide Elsewhere, Select, Reached, Shown;
    ghost var start, current, next := p.written, p.fds[1], p.nextFile;
    if s.skip {
      p.EmitEvent(StepSkipped(s.name, s.skipReason), stdout);
      EventElsewhere(start, p.written, stdout, current, next);
      return StepResult(s.name, Skip, s.skipReason), true;
    }
    ghost var before, shown := Reached(p.written, stdout), Shown(s.body, s.name, true, true);
    p.EmitEvent(StepStarted(s.name), stdout);
    EventElsewhere(start, p.written, stdout, current, next);
    ghost var started := p.written;
    var error := RunCapture(p, s.name, s.body, stdout);
    QuietThen(start, started, p.written, stdout, current, next, next);
    ghost var ran := p.written;
    Assoc(before, [Line(StepStarted(s.name))], shown.texts);
    if error.None? {
      var detail := if s.detail == "" then "done" else s.detail;
      p.EmitEvent(StepCompleted(s.name, detail), stdout);
      EventThen(start, ran, p.written, stdout, current, next);
      Assoc(before, [Line(StepStarted(s.name))] + shown.texts, [Line(StepCompleted(s.name, detail))]);
      return StepResult(s.name, Done, detail), true;
    }
    p.EmitEvent(StepFailed(s.name, error.value), stdout);
    EventThen(start, ran, p.written, stdout, current, next);
    Assoc(before, [Line(StepStarted(s.name))] + shown.texts, [Line(StepFailed(s.name, error.value))]);
    return StepResult(s.name, Error, error.value), s.optional && continueOnError;
  }

  /** The interactive runner around one step: everything the step writes goes to the null device, which is opened
      for it, and the whole table is put back whether the step succeeds or raises. */
  method RunQuietly(p: Process, s: SetupStep) returns (error: Option<string>)
    requires 1 in p.fds && 2 in p.fds && !p.json && p.realStdout.None? && p.pyOut.None? && p.pyErr.None?
    requires forall fd | fd in p.fds :: p.fds[fd] < p.nextFile
    modifies p`fds, p`nextFile, p`written, p`pyOut, p`pyErr, p`realStdout
    ensures p.fds == old(p.fds) && p.realStdout.None? && p.pyOut.None? && p.pyErr.None?
    ensures forall fd | fd in p.fds :: p.fds[fd] < p.nextFile
    ensures p.nextFile > old(p.nextFile)
    ensures error == Shown(s.body, s.name, false, false).error
    ensures forall f: File | f < old(p.nextFile) :: Reached(p.written, f) == Reached(old(p.written), f)
    ensures Reached(p.written, old(p.nextFile)) ==
            Reached(old(p.written), old(p.nextFile)) + Shown(s.body, s.name, false, false).texts
  {
    hide Shown, Reached, Select;
    ghost var before := p.fds;
    var saved1, saved2 := Silence(p);
    error := RunActs(p, s.body, s.name, p.fds[1]);
    Unsilence(p, saved1, saved2);
    assert p.fds == before;
  }

  /** Save descriptors 1 and 2 and point them at the null device. */
  method Silence(p: Process) returns (saved1: nat, saved2: nat)
    requires 1 in p.fds && 2 in p.fds
    modifies p`fds, p`nextFile
    ensures p.nextFile == old(p.nextFile) + 1
    ensures saved1 !in old(p.fds) && saved2 !in old(p.fds) && saved1 != saved2
    ensures p.fds == old(p.fds)[saved1 := old(p.fds)[1]][saved2 := old(p.fds)[2]][1 := old(p.nextFile)][2 := old(p.nextFile)]
  {
    saved1 := p.Dup(1);
    saved2 := p.Dup(2);
    var devnull := p.OpenNull();
    p.Dup2(devnull, 1);
    p.Dup2(devnull, 2);
    p.Close(devnull);
  }

  /** The `finally` clause. */
  method Unsilence(p: Process, saved1: nat, saved2: nat)
    requires {saved1, saved2} <= p.fds.Keys - {1, 2}
    modifies p`fds
    ensures p.fds == old(p.fds)[1 := old(p.fds)[saved1]][2 := old(p.fds)[saved2]] - {saved1, saved2}
  {
    p.Dup2(saved1, 1);
    p.Dup2(saved2, 2);
    p.Close(saved1);
    p.Close(saved2);
  }

  /** The first step, if any, whose failure is not tolerated. */
  function FirstFatal(steps: seq<SetupStep>, continueOnError: bool): Option<string> {
    if steps == [] then None
    else
      var error := if steps[0].skip then None else Shown(steps[0].body, steps[0].name, false, false).error;
      if error.Some? && !(steps[0].optional && continueOnError) then error else FirstFatal(steps[1..], continueOnError)
  }

  /** `_run_setup_steps_inner`: success, tolerated failure or re-raise, the table is as it was. */
  method RunSetupStepsInner(p: Process, steps: seq<SetupStep>, continueOnError: bool) returns (raised: Option<string>)
    requires 1 in p.fds && 2 in p.fds && !p.json && p.realStdout.None? && p.pyOut.None? && p.pyErr.None?
    requires forall fd | fd in p.fds :: p.fds[fd] < p.nextFile
    modifies p`fds, p`nextFile, p`written, p`pyOut, p`pyErr, p`realStdout
    ensures p.fds == old(p.fds)
    ensures raised == FirstFatal(steps, continueOnError)
    ensures forall f: File | f < old(p.nextFile) :: Reached(p.written, f) == Reached(old(p.written), f)
  {
    hide Reached, Shown;
    for i := 0 to |steps|
      invariant p.fds == old(p.fds) && p.realStdout.None? && p.pyOut.None? && p.pyErr.None?
      invariant forall fd | fd in p.fds :: p.fds[fd] < p.nextFile
      invariant p.nextFile >= old(p.nextFile)
      invariant forall f: File | f < old(p.nextFile) :: Reached(p.written, f) == Reached(old(p.written), f)
      invariant FirstFatal(steps[i..], continueOnError) == FirstFatal(steps, continueOnError)
    {
      assert steps[i..][0] == steps[i] && steps[i..][1..] == steps[i + 1..];
      if !steps[i].skip {
        var error := RunQuietly(p, steps[i]);
        if error.Some? && !(steps[i].optional && continueOnError) {
          return error;
        }
      }
    }
    raised := None;
  }

  // ---------------------------------------------------------------------------------------------
  // The event stream
  // ---------------------------------------------------------------------------------------------

  /** The events of the runner itself, without those emitted by step bodies. */
  function Outer(texts: seq<Text>): seq<Event> {
    if texts == [] then []
    else (if texts[0].Line? && !texts[0].event.Output? then [texts[0].event] else []) + Outer(texts[1..])
  }

  /** What the stream must say about one entry of the result list. */
  function Announced(r: StepResult): seq<Event> {
    match r.status
    case Skip => [StepSkipped(r.step, r.detail)]
    case Done => [StepStarted(r.step), StepCompleted(r.step, r.detail)]
    case Error => [StepStarted(r.step), StepFailed(r.step, r.detail)]
  }

  function AllAnnounced(results: seq<StepResult>): seq<Event> {
    if results == [] then [] else Announced(results[0]) + AllAnnounced(results[1..])
  }

  lemma {:induction false} OuterConcat(a: seq<Text>, b: seq<Text>)
    ensures Outer(a + b) == Outer(a) + Outer(b)
  {
    if a == [] {
      assert a + b == b;
    } else {
      assert (a + b)[1..] == a[1..] + b;
      OuterConcat(a[1..], b);
    }
  }

  lemma {:induction false} BodiesAreInner(acts: seq<Act>, step: string, captured: bool, json: bool)
    ensures Outer(Shown(acts, step, captured, json).texts) == []
    decreases acts, 0
  {
    if acts != [] {
      BodyIsInner(acts[0], step, captured, json);
      BodiesAreInner(acts[1..], step, captured, json);
      OuterConcat(ShownByOne(acts[0], step, captured, json).texts, Shown(acts[1..], step, captured, json).texts);
    }
  }

  lemma {:induction false} BodyIsInner(act: Act, step: string, captured: bool, json: bool)
    ensures Outer(ShownByOne(act, step, captured, json).texts) == []
    decreases act, 1
  {
    if act.Capture? { BodiesAreInner(act.body, act.step, captured || json, json); }
  }

  lemma StepIsAnnounced(s: SetupStep, continueOnError: bool)
    ensures var done := Process1(s, continueOnError); Outer(done.texts) == Announced(done.result)
  {
    if !s.skip {
      var shown := Shown(s.body, s.name, true, true);
      var done := Process1(s, continueOnError);
      BodiesAreInner(s.body, s.name, true, true);
      OuterConcat([Line(StepStarted(s.name))], shown.texts);
      OuterConcat([Line(StepStarted(s.name))] + shown.texts, [done.texts[|done.texts| - 1]]);
    }
  }

  /** The stream mirrors the result list: for each processed step, in order, either "skipped", or "started" and then
      exactly one of "completed" and "failed", with the same labels and details. */
  lemma {:induction false} StreamMirrorsResults(steps: seq<SetupStep>, continueOnError: bool)
    ensures var outcome := Setup(steps, continueOnError);
      && Outer(outcome.texts) == AllAnnounced(outcome.results)
      && |outcome.results| <= |steps|
      && forall i | 0 <= i < |outcome.results| ::
           outcome.results[i] == Process1(steps[i], continueOnError).result && outcome.results[i].step == steps[i].name
  {
    if steps != [] {
      var first := Process1(steps[0], continueOnError);
      StepIsAnnounced(steps[0], continueOnError);
      StreamMirrorsResults(steps[1..], continueOnError);
      if first.goOn {
        OuterConcat(first.texts, Setup(steps[1..], continueOnError).texts);
        var all := Setup(steps, continueOnError);
        assert all.results[1..] == Setup(steps[1..], continueOnError).results;
        forall i | 0 < i < |all.results| ensures all.results[i] == Process1(steps[i], continueOnError).result {
          assert all.results[i] == all.results[1..][i - 1] && steps[i] == steps[1..][i - 1];
        }
      } else {
        assert AllAnnounced([first.result]) == Announced(first.result) + AllAnnounced([]) by {
          assert [first.result][1..] == [];
        }
      }
    }
  }

  /** A failure that ends the run: the step is not both optional and tolerated. */
  predicate Fatal(s: SetupStep, r: StepResult, continueOnError: bool) {
    r.status.Error? && !(s.optional && continueOnError)
  }

  /** Processing stops right after the first fatal failure, and only there. */
  lemma {:induction false} StopsAtFirstFatal(steps: seq<SetupStep>, continueOnError: bool)
    ensures var results := Setup(steps, continueOnError).results;
      && |results| <= |steps|
      && (forall i | 0 <= i < |results| - 1 :: !Fatal(steps[i], results[i], continueOnError))
      && (|results| < |steps| ==>
            results != [] && Fatal(steps[|results| - 1], results[|results| - 1], continueOnError))
      && ((exists i :: 0 <= i < |steps| && !Process1(steps[i], continueOnError).goOn) ==>
            results != [] && Fatal(steps[|results| - 1], results[|results| - 1], continueOnError))
  {
    if steps != [] {
      var results := Setup(steps, continueOnError).results;
      StopsAtFirstFatal(steps[1..], continueOnError);
      var first := Process1(steps[0], continueOnError);
      if first.goOn {
        var rest := Setup(steps[1..], continueOnError).results;
        assert results[1..] == rest;
        forall i | 0 <= i < |results| - 1 ensures !Fatal(steps[i], results[i], continueOnError) {
          if i > 0 { assert results[i] == rest[i - 1] && steps[i] == steps[1..][i - 1]; }
        }
        if i :| 0 <= i < |steps| && !Process1(steps[i], continueOnError).goOn {
          assert steps[1..][i - 1] == steps[i];
        }
        if rest != [] {
          assert results[|results| - 1] == rest[|rest| - 1] && steps[|results| - 1] == steps[1..][|rest| - 1];
        }
      }
    }
  }

  function Summaries(events: seq<Event>): nat {
    if events == [] then 0 else (if events[0].Summary? then 1 else 0) + Summaries(events[1..])
  }

  lemma {:induction false} NoSummaryInSteps(results: seq<StepResult>, tail: seq<Event>)
    ensures Summaries(AllAnnounced(results) + tail) == Summaries(tail)
  {
    if results == [] {
      assert AllAnnounced(results) + tail == tail;
    } else {
      var rest := AllAnnounced(results[1..]) + tail;
      NoSummaryInSteps(results[1..], tail);
      assert AllAnnounced(results) + tail == Announced(results[0]) + rest;
      if results[0].status.Skip? {
        assert (Announced(results[0]) + rest)[1..] == rest;
      } else {
        assert (Announced(results[0]) + rest)[1..][1..] == rest;
      }
    }
  }

  /** A whole `setup --json` run, exit handler included: the runner's events, then exactly one summary, all on stdout;
      no other file gets an event, and stderr gets nothing. */
  method RunProgram(steps: seq<SetupStep>, continueOnError: bool, stdout: File, stderr: File) returns (p: Process)
    ensures fresh(p) && 1 in p.fds && 2 in p.fds && p.fds[1] == stdout && p.fds[2] == stderr
    ensures var outcome, events := Setup(steps, continueOnError), Outer(Reached(p.written, stdout));
      && events == AllAnnounced(outcome.results) + [Summary(outcome.results)]
      && Summaries(events) == 1
    ensures forall f: File | f != stdout :: Select(Reached(p.written, f), true) == []
    ensures stderr != stdout ==> Reached(p.written, stderr) == []
  {
    p := new Process(stdout, stderr, true);
    ghost var before := p.written;
    RunSetupStepsJson(p, steps, continueOnError, stdout);
    ghost var after := p.written;
    p.AtExit(stdout);
    forall f: File | f != stdout ensures Select(Reached(p.written, f), true) == [] {
      assert Reached(p.written, f) == Reached(after, f);
    }
    ghost var outcome := Setup(steps, continueOnError);
    assert Reached(p.written, stdout) == outcome.texts + [Line(Summary(outcome.results))];
    WholeStream(steps, continueOnError);
  }

  lemma WholeStream(steps: seq<SetupStep>, continueOnError: bool)
    ensures var outcome := Setup(steps, continueOnError);
      var events := Outer(outcome.texts + [Line(Summary(outcome.results))]);
      events == AllAnnounced(outcome.results) + [Summary(outcome.results)] && Summaries(events) == 1
  {
    var outcome := Setup(steps, continueOnError);
    var summary := [Line(Summary(outcome.results))];
    StreamMirrorsResults(steps, continueOnError);
    OuterConcat(outcome.texts, summary);
    assert summary[1..] == [] && Outer(summary) == [Summary(outcome.results)];
    NoSummaryInSteps(outcome.results, [Summary(outcome.results)]);
    assert [Summary(outcome.results)][1..] == [];
  }
}
