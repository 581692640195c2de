/** What a setup run reports, from the acts of its steps: which steps failed, with which error, and what they showed. */
module SetupResults {
  import opened SetupOutput
  import opened SetupRunner
  import opened Wrappers

  // ---------------------------------------------------------------------------------------------
  // What a body does
  // ---------------------------------------------------------------------------------------------

  /** The first exception met in order, also inside captures. */
  function FirstRaise(acts: seq<Act>): Option<string> {
    if acts == [] then None
    else
      match acts[0]
      case Raise(error) => Some(error)
      case Capture(_, body) => if FirstRaise(body).Some? then FirstRaise(body) else FirstRaise(acts[1..])
      case _ => FirstRaise(acts[1..])
  }

  /** An act that is no capture, the label it runs under, and whether it is captured. */
  datatype Leaf = Leaf(act: Act, step: string, captured: bool)

  /** The acts of a body in order, those in captures included. */
  function Leaves(acts: seq<Act>, step: string, captured: bool, json: bool): seq<Leaf> {
    if acts == [] then []
    else
      match acts[0]
      case Capture(inner, body) => Leaves(body, inner, captured || json, json) + Leaves(acts[1..], step, captured, json)
      case act => [Leaf(act, step, captured)] + Leaves(acts[1..], step, captured, json)
  }

  /** The leaves before the first exception. */
  function BeforeRaise(leaves: seq<Leaf>): seq<Leaf> {
    if leaves == [] || leaves[0].act.Raise? then [] else [leaves[0]] + BeforeRaise(leaves[1..])
  }

  /** An event is shown as its line, a print as it is unless captured. */
  function TextsOf(leaves: seq<Leaf>): seq<Text> {
    if leaves == [] then []
    else
      (match leaves[0].act
       case Emit(line) => [Line(Output(leaves[0].step, line))]
       case Print(text) => if leaves[0].captured then [] else [Raw(text)]
       case _ => []) + TextsOf(leaves[1..])
  }

  predicate Raises(leaves: seq<Leaf>) { exists i | 0 <= i < |leaves| :: leaves[i].act.Raise? }

  lemma {:induction false} BeforeConcat(a: seq<Leaf>, b: seq<Leaf>)
    ensures BeforeRaise(a + b) == if Raises(a) then BeforeRaise(a) else a + BeforeRaise(b)
    ensures !Raises(a) ==> BeforeRaise(a) == a
  {
    if a == [] {
      assert a + b == b;
    } else {
      assert (a + b)[1..] == a[1..] + b;
      BeforeConcat(a[1..], b);
      assert Raises(a) <==> a[0].act.Raise? || Raises(a[1..]) by {
        if i :| 0 <= i < |a| && a[i].act.Raise? { assert i > 0 ==> a[1..][i - 1] == a[i]; }
      }
    }
  }

  lemma {:induction false} TextsConcat(a: seq<Leaf>, b: seq<Leaf>)
    ensures TextsOf(a + b) == TextsOf(a) + TextsOf(b)
  {
    if a == [] {
      assert a + b == b;
    } else {
      assert (a + b)[1..] == a[1..] + b;
      TextsConcat(a[1..], b);
    }
  }

  lemma RaisesConcat(a: seq<Leaf>, b: seq<Leaf>)
    ensures Raises(a + b) <==> Raises(a) || Raises(b)
  {
    if i :| 0 <= i < |a| && a[i].act.Raise? { assert (a + b)[i] == a[i]; }
    if i :| 0 <= i < |b| && b[i].act.Raise? { assert (a + b)[|a| + i] == b[i]; }
  }

  /** What a body shows is the text of its acts before the first exception, and it ends with that exception. */
  lemma {:induction false} ShownExactly(acts: seq<Act>, step: string, captured: bool, json: bool)
    ensures Shown(acts, step, captured, json).error == FirstRaise(acts)
    ensures FirstRaise(acts).Some? <==> Raises(Leaves(acts, step, captured, json))
    ensures Shown(acts, step, captured, json).texts == TextsOf(BeforeRaise(Leaves(acts, step, captured, json)))
  {
    if acts != [] {
      var rest := Leaves(acts[1..], step, captured, json);
      ShownExactly(acts[1..], step, captured, json);
      if acts[0].Capture? {
        var inner := Leaves(acts[0].body, acts[0].step, captured || json, json);
        ShownExactly(acts[0].body, acts[0].step, captured || json, json);
        LeavesThen(inner, rest);
      } else {
        OneLeaf(acts[0], step, captured, json);
        LeavesThen([Leaf(acts[0], step, captured)], rest);
      }
    }
  }

  lemma LeavesThen(a: seq<Leaf>, b: seq<Leaf>)
    ensures Raises(a + b) <==> Raises(a) || Raises(b)
    ensures TextsOf(BeforeRaise(a + b)) ==
            TextsOf(BeforeRaise(a)) + if Raises(a) then [] else TextsOf(BeforeRaise(b))
  {
    RaisesConcat(a, b);
    BeforeConcat(a, b);
    TextsConcat(a, BeforeRaise(b));
  }

  lemma OneLeaf(act: Act, step: string, captured: bool, json: bool)
    requires !act.Capture?
    ensures var leaf := [Leaf(act, step, captured)];
      && (Raises(leaf) <==> act.Raise?)
      && ShownByOne(act, step, captured, json).texts == TextsOf(BeforeRaise(leaf))
  {
    var leaf := [Leaf(act, step, captured)];
    assert leaf[0].act == act && leaf[1..] == [];
    if act.Raise? {
      assert BeforeRaise(leaf) == [];
    } else {
      assert BeforeRaise(leaf) == leaf;
      assert TextsOf([]) == [];
    }
  }

  // ---------------------------------------------------------------------------------------------
  // What a run reports
  // ---------------------------------------------------------------------------------------------

  /** The entry of a processed step: skipped with its reason, failed with the error its body raises, or done with its
      detail, "done" for want of one. */
  predicate IsReportOf(s: SetupStep, r: StepResult) {
    && r.step == s.name
    && (r.status.Skip? <==> s.skip) && (s.skip ==> r.detail == s.skipReason)
    && (r.status.Error? <==> !s.skip && FirstRaise(s.body).Some?)
    && (r.status.Done? <==> !s.skip && FirstRaise(s.body).None?)
    && (r.status.Error? ==> r.detail == FirstRaise(s.body).value)
    && (r.status.Done? ==> r.detail == if s.detail == "" then "done" else s.detail)
  }

  /** What the step puts on stdout: its announcements around what its body shows under capture. */
  function StepTexts(s: SetupStep): seq<Text> {
    if s.skip then [Line(StepSkipped(s.name, s.skipReason))]
    else
      [Line(StepStarted(s.name))] + TextsOf(BeforeRaise(Leaves(s.body, s.name, true, true))) +
      match FirstRaise(s.body)
      case Some(error) => [Line(StepFailed(s.name, error))]
      case None => [Line(StepCompleted(s.name, if s.detail == "" then "done" else s.detail))]
  }

  function AllTexts(steps: seq<SetupStep>): seq<Text> {
    if steps == [] then [] else StepTexts(steps[0]) + AllTexts(steps[1..])
  }

  lemma ProcessedExactly(s: SetupStep, continueOnError: bool)
    ensures var done := Process1(s, continueOnError);
      && IsReportOf(s, done.result) && done.texts == StepTexts(s)
      && (done.goOn <==> s.skip || FirstRaise(s.body).None? || (s.optional && continueOnError))
  {
    ShownExactly(s.body, s.name, true, true);
  }

  /** The step's failure ends the run. */
  predicate Ends(s: SetupStep, continueOnError: bool) {
    !s.skip && FirstRaise(s.body).Some? && !(s.optional && continueOnError)
  }

  /** A streaming run processes the steps up to and including the first that ends it, reports each by what its body does,
      and shows their texts in order. */
  lemma {:induction false} ResultsExactly(steps: seq<SetupStep>, continueOnError: bool)
    ensures var outcome := Setup(steps, continueOnError);
      var n := |outcome.results|;
      && n <= |steps|
      && (forall i | 0 <= i < n :: IsReportOf(steps[i], outcome.results[i]))
      && (forall i | 0 <= i < n - 1 :: !Ends(steps[i], continueOnError))
      && (n < |steps| ==> n > 0 && Ends(steps[n - 1], continueOnError))
      && outcome.texts == AllTexts(steps[..n])
  {
    hide IsReportOf, Ends, StepTexts, FirstRaise;
    var outcome := Setup(steps, continueOnError);
    if steps == [] {
      assert steps[..0] == [];
    } else {
      ProcessedExactly(steps[0], continueOnError);
      EndsExactly(steps[0], continueOnError);
      if Process1(steps[0], continueOnError).goOn {
        ResultsExactly(steps[1..], continueOnError);
        var rest := Setup(steps[1..], continueOnError);
        var n := |outcome.results|;
        assert outcome.results[1..] == rest.results;
        forall i | 0 <= i < n ensures IsReportOf(steps[i], outcome.results[i]) {
          if i > 0 { assert outcome.results[i] == rest.results[i - 1] && steps[i] == steps[1..][i - 1]; }
        }
        forall i | 0 <= i < n - 1 ensures !Ends(steps[i], continueOnError) {
          if i > 0 { assert steps[i] == steps[1..][i - 1]; }
        }
        if n < |steps| { assert steps[n - 1] == steps[1..][n - 2]; }
        assert steps[..n][1..] == steps[1..][..n - 1];
      } else {
        assert steps[..1] == [steps[0]] && [steps[0]][1..] == [];
      }
    }
  }

  lemma EndsExactly(s: SetupStep, continueOnError: bool)
    ensures Process1(s, continueOnError).goOn <==> !Ends(s, continueOnError)
  {
    ProcessedExactly(s, continueOnError);
  }

  /** The interactive runner raises the error of the first step that ends the run, if there is one. */
  lemma {:induction false} FirstFatalExactly(steps: seq<SetupStep>, continueOnError: bool, error: string)
    ensures FirstFatal(steps, continueOnError) == Some(error) <==>
            exists i | 0 <= i < |steps| ::
              && Ends(steps[i], continueOnError) && FirstRaise(steps[i].body) == Some(error)
              && forall j | 0 <= j < i :: !Ends(steps[j], continueOnError)
  {
    if steps != [] {
      ShownExactly(steps[0].body, steps[0].name, false, false);
      FirstFatalExactly(steps[1..], continueOnError, error);
      hide FirstRaise, Ends;
      assert forall i | 0 < i < |steps| :: steps[i] == steps[1..][i - 1];
      if i :| 0 <= i < |steps[1..]| && Ends(steps[1..][i], continueOnError) &&
              FirstRaise(steps[1..][i].body) == Some(error) &&
              forall j | 0 <= j < i :: !Ends(steps[1..][j], continueOnError) {
        forall j | 0 < j < i + 1 ensures !Ends(steps[j], continueOnError) { assert steps[j] == steps[1..][j - 1]; }
        assert steps[i + 1] == steps[1..][i];
      }
      if i :| 0 < i < |steps| && Ends(steps[i], continueOnError) && FirstRaise(steps[i].body) == Some(error) &&
              forall j | 0 <= j < i :: !Ends(steps[j], continueOnError) {
        forall j | 0 <= j < i - 1 ensures !Ends(steps[1..][j], continueOnError) { assert steps[1..][j] == steps[j + 1]; }
        assert steps[1..][i - 1] == steps[i];
      }
    }
  }
}
