/** Output redirection and the setup runner: a descriptor table, stream capture that nests, and a JSONL event log. */
module SetupOutput {
  import opened Wrappers

  type File = nat

  datatype Status = Skip | Done | Error

  datatype StepResult = StepResult(step: string, status: Status, detail: string)

  datatype Event =
    | StepSkipped(step: string, reason: string)
    | StepStarted(step: string)
    | StepCompleted(step: string, detail: string)
    | StepFailed(step: string, error: string)
    | Output(step: string, line: string)
    | Summary(results: seq<StepResult>)

  /** What is written to a file: one event as a line of JSON, or a program's own text. */
  datatype Text = Line(event: Event) | Raw(text: string)

  datatype Write = Write(file: File, text: Text)

  /** What is done while a step runs: text printed on descriptor 1, an event emitted (by nested code or by the
      thread that reads a captured stream), a nested capture, or an exception. */
  datatype Act = Print(text: string) | Emit(line: string) | Capture(step: string, body: seq<Act>) | Raise(error: string)

  /** What reached one file, in order. */
  function Reached(written: seq<Write>, f: File): seq<Text> {
    if written == [] then []
    else Reached(written[..|written| - 1], f) +
         if written[|written| - 1].file == f then [written[|written| - 1].text] else []
  }

  /** The lowest descriptor from `i` on that is not in use. */
  function LowestFree(fds: map<nat, File>, i: nat): (fd: nat)
    ensures fd !in fds && fd >= i
    decreases set k | k in fds && k >= i
  {
    if i !in fds then i
    else
      assert (set k | k in fds && k >= i) == (set k | k in fds && k >= i + 1) + {i};
      assert i !in (set k | k in fds && k >= i + 1);
      LowestFree(fds, i + 1)
  }

  class Process {
    /** The open descriptors. */
    var fds: map<nat, File>
    var nextFile: File
    var written: seq<Write>
    /** The descriptors owned by a redirected `sys.stdout` / `sys.stderr`; `None` for the interpreter's own. */
    var pyOut: Option<nat>
    var pyErr: Option<nat>
    // The fields of _OutputMode.
    var json: bool
    var streaming: bool
    var summaryEmitted: bool
    var result: seq<StepResult>
    var realStdout: Option<nat>

    constructor (stdout: File, stderr: File, json: bool)
      ensures Sound(stdout) && fds == map[1 := stdout, 2 := stderr] && written == [] && this.json == json
      ensures !streaming && !summaryEmitted && realStdout.None? && pyOut.None?
    {
      fds := map[1 := stdout, 2 := stderr];
      nextFile := stdout + stderr + 1;
      written := [];
      pyOut, pyErr := None, None;
      this.json, streaming, summaryEmitted, result, realStdout := json, false, false, [], None;
    }

    /** The descriptors other than those owned by redirected Python streams. */
    function Core(): map<nat, File>
      reads this
    {
      fds - PyStreams()
    }

    function PyStreams(): set<nat>
      reads this
    {
      (if pyOut.Some? then {pyOut.value} else {}) + (if pyErr.Some? then {pyErr.value} else {})
    }

    /** `stdout` is where the program's output went when it started, and where events go. */
    ghost predicate Sound(stdout: File)
      reads this
    {
      && 1 in fds && 2 in fds && stdout < nextFile
      && (forall fd | fd in fds :: fds[fd] < nextFile)
      && PyStreams() <= fds.Keys && 1 !in PyStreams() && 2 !in PyStreams()
      && (pyOut.Some? <==> pyErr.Some?) && (pyOut.Some? ==> pyOut.value != pyErr.value)
      && (realStdout.Some? ==>
            realStdout.value in Core() && fds[realStdout.value] == stdout && realStdout.value !in {1, 2})
      && (realStdout.None? ==> fds[1] == stdout && pyOut.None?)
    }

    // -------------------------------------------------------------------------------------------
    // System calls
    // -------------------------------------------------------------------------------------------

    method Dup(fd: nat) returns (copy: nat)
      requires fd in fds
      modifies this`fds
      ensures copy !in old(fds) && fds == old(fds)[copy := old(fds)[fd]]
    {
      copy := LowestFree(fds, 0);
      fds := fds[copy := fds[fd]];
    }

    method Dup2(fd: nat, target: nat)
      requires fd in fds
      modifies this`fds
      ensures fds == old(fds)[target := old(fds)[fd]]
    {
      fds := fds[target := fds[fd]];
    }

    method Close(fd: nat)
      modifies this`fds
      ensures fds == old(fds) - {fd}
    {
      fds := fds - {fd};
    }

    /** A new file behind two descriptors. */
    method Pipe() returns (r: nat, w: nat)
      modifies this`fds, this`nextFile
      ensures nextFile == old(nextFile) + 1 && r != w && r !in old(fds) && w !in old(fds)
      ensures fds == old(fds)[r := old(nextFile)][w := old(nextFile)]
    {
      r := LowestFree(fds, 0);
      fds := fds[r := nextFile];
      w := LowestFree(fds, 0);
      fds := fds[w := nextFile];
      nextFile := nextFile + 1;
    }

    method OpenNull() returns (fd: nat)
      modifies this`fds, this`nextFile
      ensures nextFile == old(nextFile) + 1 && fd !in old(fds) && fds == old(fds)[fd := old(nextFile)]
    {
      fd := LowestFree(fds, 0);
      fds := fds[fd := nextFile];
      nextFile := nextFile + 1;
    }

    /** `os.write`, or a Python-level write to the interpreter's own stdout. */
    method WriteTo(fd: nat, text: Text)
      requires fd in fds
      modifies this`written
      ensures forall f :: Reached(written, f) == Reached(old(written), f) + if f == fds[fd] then [text] else []
    {
      written := written + [Write(fds[fd], text)];
      assert written[..|written| - 1] == old(written);
    }

    /** Assigning `sys.stdout` and `sys.stderr` drops the previous wrappers, which closes their descriptors. */
    method SetStreams(out: Option<nat>, err: Option<nat>)
      modifies this`fds, this`pyOut, this`pyErr
      ensures pyOut == out && pyErr == err && fds == old(Core())
    {
      fds := Core();
      pyOut, pyErr := out, err;
    }

    // -------------------------------------------------------------------------------------------
    // Events
    // -------------------------------------------------------------------------------------------

    /** `emit_event`: to the remembered stdout if capturing has begun, else to `sys.stdout`. */
    method EmitEvent(event: Event, ghost stdout: File)
      requires Sound(stdout)
      modifies this`written
      ensures Sound(stdout)
      ensures Reached(written, stdout) == Reached(old(written), stdout) + [Line(event)]
      ensures forall f | f != stdout :: Reached(written, f) == Reached(old(written), f)
    {
      if realStdout.Some? {
        WriteTo(realStdout.value, Line(event));
      } else {
        WriteTo(1, Line(event));
      }
    }

    /** `emit_summary`: only the first call writes. */
    method EmitSummary(ghost stdout: File)
      requires Sound(stdout)
      modifies this`written, this`summaryEmitted
      ensures Sound(stdout) && summaryEmitted
      ensures Reached(written, stdout) ==
              Reached(old(written), stdout) + if old(summaryEmitted) then [] else [Line(Summary(result))]
      ensures forall f | f != stdout :: Reached(written, f) == Reached(old(written), f)
    {
      if summaryEmitted {
        return;
      }
      summaryEmitted := true;
      EmitEvent(Summary(result), stdout);
    }

    /** `emit`, called as the program exits. */
    method AtExit(ghost stdout: File)
      requires Sound(stdout) && fds[1] == stdout
      modifies this`written, this`summaryEmitted
      ensures Sound(stdout)
      ensures Reached(written, stdout) ==
              Reached(old(written), stdout) +
              if json && !(streaming && old(summaryEmitted)) then [Line(Summary(result))] else []
      ensures forall f | f != stdout :: Reached(written, f) == Reached(old(written), f)
    {
      if !json {
        return;
      }
      if streaming {
        EmitSummary(stdout);
        return;
      }
      WriteTo(1, Line(Summary(result)));
    }
  }

  // ---------------------------------------------------------------------------------------------
  // Capturing
  // ---------------------------------------------------------------------------------------------

  /** `_StreamEmitter`: a context manager that redirects descriptors 1 and 2 into pipes. */
  class StreamEmitter {
    var savedFd1: Option<nat>
    var savedFd2: Option<nat>
    var pipeFds: seq<nat>
    /** The core descriptors on entry, with the remembered stdout. */
    ghost var entry: map<nat, File>

    constructor ()
      ensures savedFd1.None? && savedFd2.None? && pipeFds == []
    {
      savedFd1, savedFd2, pipeFds, entry := None, None, [], map[];
    }

    /** The core descriptors while this emitter captures: those on entry but for 1 and 2, what these were, and the
        read ends. */
    ghost predicate Captures(core: map<nat, File>)
      reads this
    {
      && savedFd1.Some? && savedFd2.Some? && |pipeFds| == 2 && 1 in entry && 2 in entry
      && savedFd1.value !in entry && savedFd2.value !in entry && pipeFds[0] !in entry && pipeFds[1] !in entry
      && Own() <= core.Keys
      && core - Own() - {1, 2} == entry - {1, 2}
      && core[savedFd1.value] == entry[1] && core[savedFd2.value] == entry[2]
    }

    function Own(): set<nat>
      reads this
      requires savedFd1.Some? && savedFd2.Some? && |pipeFds| == 2
    {
      {savedFd1.value, savedFd2.value, pipeFds[0], pipeFds[1]}
    }

    /** One turn of the loop in `__enter__`. */
    method Redirect(p: Process, fd: nat) returns (r: nat)
      requires fd in p.fds
      modifies p`fds, p`nextFile
      ensures r !in old(p.fds) && p.nextFile == old(p.nextFile) + 1
      ensures p.fds == old(p.fds)[r := old(p.nextFile)][fd := old(p.nextFile)]
    {
      var w;
      r, w := p.Pipe();
      p.Dup2(w, fd);
      p.Close(w);
    }

    /** The first lines of `__enter__`: remember the real stdout once. */
    method RememberStdout(p: Process, ghost stdout: File)
      requires p.Sound(stdout)
      modifies p`fds, p`realStdout
      ensures p.Sound(stdout) && p.realStdout.Some?
      ensures Remembers(old(p.Core()), old(p.realStdout), p.Core(), p.realStdout, stdout)
    {
      if p.realStdout.None? {
        var fd := p.Dup(1);
        p.realStdout := Some(fd);
      }
    }

    /** The middle of `__enter__`: save both descriptors and put pipes in their place. */
    method SaveAndRedirect(p: Process)
      requires 1 in p.fds && 2 in p.fds
      modifies this, p`fds, p`nextFile
      ensures savedFd1.Some? && savedFd2.Some? && |pipeFds| == 2 && entry == old(entry)
      ensures Own() !! old(p.fds).Keys && p.nextFile == old(p.nextFile) + 2
      ensures p.fds == Redirected(old(p.fds), savedFd1.value, savedFd2.value, pipeFds, old(p.nextFile))
      ensures AllDifferent(savedFd1.value, savedFd2.value, pipeFds)
    {
      var s1 := p.Dup(1);
      var s2 := p.Dup(2);
      savedFd1, savedFd2 := Some(s1), Some(s2);
      var r1 := Redirect(p, 1);
      var r2 := Redirect(p, 2);
      pipeFds := [r1, r2];
    }

    /** `__enter__`. */
    method Enter(p: Process, ghost stdout: File)
      requires p.Sound(stdout) && savedFd1.None?
      modifies this, p`fds, p`nextFile, p`pyOut, p`pyErr, p`realStdout
      ensures p.Sound(stdout)
      ensures !p.json ==> savedFd1.None? && p.fds == old(p.fds) && p.PyStreams() == old(p.PyStreams()) &&
                          p.realStdout == old(p.realStdout) && p.nextFile == old(p.nextFile)
      ensures p.json ==> p.realStdout.Some? && Captures(p.Core()) && p.nextFile == old(p.nextFile) + 2
      ensures p.json ==> p.fds[1] == old(p.nextFile) && p.fds[2] == old(p.nextFile) + 1
      ensures p.json ==> p.pyOut.Some? && p.fds[p.pyOut.value] == p.fds[1] && p.fds[p.pyErr.value] == p.fds[2]
      ensures p.json ==> Remembers(old(p.Core()), old(p.realStdout), entry, p.realStdout, stdout)
      ensures p.json ==> p.realStdout.value in entry && entry[p.realStdout.value] == stdout
    {
      if !p.json {
        return;
      }
      RememberStdout(p, stdout);
      hide Redirected, AllDifferent, Remembers;
      entry := p.Core();
      ghost var before, streams, f := p.fds, p.PyStreams(), p.nextFile;
      SaveAndRedirect(p);
      RewirePython(p);
      RedirectedTable(before, streams, savedFd1.value, savedFd2.value, pipeFds, f);
    }

    /** The end of `__enter__`: `sys.stdout` and `sys.stderr` get descriptors of their own for the pipes. */
    method RewirePython(p: Process)
      requires 1 in p.fds && 2 in p.fds && p.PyStreams() <= p.fds.Keys
      modifies p`fds, p`pyOut, p`pyErr
      ensures p.pyOut.Some? && p.pyErr.Some? && p.pyOut.value != p.pyErr.value
      ensures p.PyStreams() !! old(p.fds).Keys
      ensures p.Core() == old(p.fds) - old(p.PyStreams())
      ensures p.fds == p.Core()[p.pyOut.value := old(p.fds)[1]][p.pyErr.value := old(p.fds)[2]]
    {
      ghost var before, streams := p.fds, p.PyStreams();
      var out := p.Dup(1);
      var err := p.Dup(2);
      p.SetStreams(Some(out), Some(err));
      assert p.Core() == before - streams;
    }

    /** The first lines of `__exit__`: the saved descriptors go back in place and are closed. */
    method RestoreDescriptors(p: Process)
      requires savedFd1.Some? && savedFd2.Some? && {savedFd1.value, savedFd2.value} <= p.fds.Keys - {1, 2}
      modifies this`savedFd1, this`savedFd2, p`fds
      ensures savedFd1.None? && savedFd2.None?
      ensures var s1, s2 := old(savedFd1.value), old(savedFd2.value);
        p.fds == old(p.fds)[1 := old(p.fds)[s1]][2 := old(p.fds)[s2]] - {s1, s2}
    {
      p.Dup2(savedFd1.value, 1);
      p.Dup2(savedFd2.value, 2);
      p.Close(savedFd1.value);
      p.Close(savedFd2.value);
      savedFd1, savedFd2 := None, None;
    }

    /** `__exit__`, also when the body raised; the read ends are closed by their threads, which it joins. */
    method Exit(p: Process, ghost stdout: File)
      requires p.Sound(stdout)
      requires savedFd1.Some? ==> Captures(p.Core())
      requires savedFd1.Some? ==> p.realStdout.Some? && p.realStdout.value in entry && entry[p.realStdout.value] == stdout
      modifies this, p`fds, p`pyOut, p`pyErr
      ensures p.Sound(stdout)
      ensures old(savedFd1).None? ==> p.fds == old(p.fds) && p.PyStreams() == old(p.PyStreams())
      ensures old(savedFd1).Some? ==> p.Core() == p.fds == old(entry)
      ensures savedFd1.None?
    {
      if savedFd1.None? {
        return;
      }
      ghost var before, streams, own := p.fds, p.PyStreams(), Own();
      RestoreDescriptors(p);
      p.SetStreams(None, None);
      p.Close(pipeFds[0]);
      p.Close(pipeFds[1]);
      RestoredTable(before, streams, own, entry);
      assert p.fds == before[1 := entry[1]][2 := entry[2]] - own - streams;
    }
  }

  predicate AllDifferent(s1: nat, s2: nat, pipes: seq<nat>) {
    |pipes| == 2 && s1 != s2 && s1 !in pipes && s2 !in pipes && pipes[0] != pipes[1]
  }

  /** Both descriptors saved, and one new pipe behind each. */
  function Redirected(before: map<nat, File>, s1: nat, s2: nat, pipes: seq<nat>, f: File): map<nat, File>
    requires 1 in before && 2 in before && |pipes| == 2
  {
    before[s1 := before[1]][s2 := before[2]][pipes[0] := f][1 := f][pipes[1] := f + 1][2 := f + 1]
  }

  lemma RedirectedTable(before: map<nat, File>, streams: set<nat>, s1: nat, s2: nat, pipes: seq<nat>, f: File)
    requires 1 in before && 2 in before && AllDifferent(s1, s2, pipes)
    requires {s1, s2, pipes[0], pipes[1]} !! before.Keys && streams <= before.Keys
    ensures var own, core := {s1, s2, pipes[0], pipes[1]}, Redirected(before, s1, s2, pipes, f) - streams;
      own <= core.Keys && core - own - {1, 2} == before - streams - {1, 2} &&
      core[s1] == before[1] && core[s2] == before[2]
  {}

  /** The table after `__exit__`. */
  lemma RestoredTable(before: map<nat, File>, streams: set<nat>, own: set<nat>, entry: map<nat, File>)
    requires 1 in entry && 2 in entry && own !! entry.Keys && 1 !in streams && 2 !in streams
    requires before - streams - own - {1, 2} == entry - {1, 2}
    ensures before[1 := entry[1]][2 := entry[2]] - own - streams == entry
  {
    var after := before[1 := entry[1]][2 := entry[2]] - own - streams;
    forall fd: nat ensures fd in after <==> fd in entry {
      assert fd in before - streams - own - {1, 2} <==> fd in entry - {1, 2};
    }
    forall fd | fd in entry ensures after[fd] == entry[fd] {
      if fd != 1 && fd != 2 { assert (before - streams - own - {1, 2})[fd] == (entry - {1, 2})[fd]; }
    }
  }

  /** The core descriptors before and after: the same, but that a descriptor for stdout may have been remembered. */
  ghost predicate Remembers(before: map<nat, File>, real': Option<nat>, after: map<nat, File>, real'': Option<nat>,
                            stdout: File)
  {
    if real'.Some? || real''.None? then after == before && real'' == real'
    else real''.value !in before && after == before[real''.value := stdout]
  }
}
