/**
  `runMatlabCode`: the two-tier execution protocol as a state machine
  TryFile -> TryEvalc -> Cleanup -> Done, run against a scripted session.
  The script fixes what each call into the file system or the engine does;
  the machine records every call it makes and which scratch files exist.
 */
module RunCode {
  import opened Json
  import opened Responses

  /** What creating the temporary `.m` file yields: its path, or an exception. */
  datatype Created = Created(path: string) | CreateFailed(fault: Fault)

  /** What `eng.evalc(code)` yields: the captured transcript, or an exception. */
  datatype Evalc = Transcript(text: string) | EvalcFailed(fault: Fault)

  /**
    The outcome of every external call one request can make: creating the
    file, `tmp.write(code)`, the flush and close when the `with` block exits
    (after the path has been recorded; it runs even when the write raised, and
    its exception then replaces the write's), `eng.run` on the file,
    `eng.evalc`, and whether `os.remove` raises `OSError`.
   */
  datatype Script = Script(
    create: Created,
    write: Option<Fault>,
    close: Option<Fault>,
    run: Option<Fault>,
    evalc: Evalc,
    removeFails: bool)

  /** One call into the file system or the engine. */
  datatype Call =
    | CreateTemp
    | WriteTemp(path: string)
    | CloseTemp(path: string)
    | RunFile(path: string)
    | EvalCapture(code: string)
    | Exists(path: string)
    | Remove(path: string)

  /**
    When the handler learns the scratch file's path (`temp_file_path`):
    after the code has been written into it, as the source does, or as soon
    as the file exists.
   */
  datatype Binding = AfterWrite | AtCreate

  datatype Phase = TryFile | TryEvalc | Cleanup(response: Response) | Done(response: Response)

  /**
    `bound` is `temp_file_path` (`None` while unset); `files` the scratch
    files that exist; `trace` the calls made so far, oldest first.
   */
  datatype State = State(phase: Phase, bound: Option<string>, files: set<string>, trace: seq<Call>)

  /** What one request leaves behind. */
  datatype Outcome = Outcome(response: Response, trace: seq<Call>, files: set<string>)

  function Rank(p: Phase): nat {
    match p
    case TryFile => 3
    case TryEvalc => 2
    case Cleanup(_) => 1
    case Done(_) => 0
  }

  /** The answer when file mode succeeds: it names the scratch file, not what the code printed. */
  function FileRunOutput(path: string): string {
    "Code executed successfully via temporary file (" + Basename(path) + ")."
  }

  /** The outer handlers for a fault that is not a MATLAB execution error: no `stage` key. */
  function FileTierError(f: Fault): Response
    requires !f.MatlabExecution?
  {
    match f
    case Engine(m) => Error("EngineError", None, "MATLAB Engine error: " + m)
    case OS(_, m) => Error("IOError", None, "File operation error: " + m)
    case Other(cls, m) => Error(cls, None, "An unexpected error occurred: " + m)
  }

  /** The answer of the `eng.evalc` fallback. */
  function EvalcResponse(e: Evalc): Response {
    match e
    case Transcript(t) => Output(t)
    case EvalcFailed(MatlabExecution(m)) =>
      Error("MatlabExecutionError", Some("evalc_fallback"),
            "MATLAB execution failed (tried temp file then evalc): " + m)
    case EvalcFailed(f) =>
      Error(ClassName(f), Some("evalc_fallback"),
            "Unexpected error during eng.evalc() fallback: " + f.msg)
  }

  /** An exception leaves the file tier: only a MATLAB execution error moves on to the fallback. */
  function Raise(f: Fault, s: State): (r: State)
    ensures r.phase.TryEvalc? <==> f.MatlabExecution?
    ensures r.bound == s.bound && r.files == s.files && r.trace == s.trace
  {
    if f.MatlabExecution? then s.(phase := TryEvalc)
    else s.(phase := Cleanup(FileTierError(f)))
  }

  /**
    The `try` block up to the fallback: create the file, write the code,
    record the path, close the file, run it. Ends at the fallback or at the
    cleanup, having only appended calls.
   */
  function FileTier(sc: Script, b: Binding, s: State): (r: State)
    requires s.phase.TryFile?
    ensures r.phase.TryEvalc? || r.phase.Cleanup?
    ensures |r.trace| > |s.trace| && r.trace[..|s.trace|] == s.trace
  {
    match sc.create
    case CreateFailed(f) => Raise(f, s.(trace := s.trace + [CreateTemp]))
    case Created(p) =>
      var files := s.files + {p};
      if sc.write.Some? then
        var bound := if b == AtCreate then Some(p) else s.bound;
        Raise(WithBlockFault(sc), State(TryFile, bound, files, s.trace + [CreateTemp, WriteTemp(p), CloseTemp(p)]))
      else if sc.close.Some? then
        Raise(sc.close.value, State(TryFile, Some(p), files, s.trace + [CreateTemp, WriteTemp(p), CloseTemp(p)]))
      else
        var st := State(TryFile, Some(p), files, s.trace + [CreateTemp, WriteTemp(p), CloseTemp(p), RunFile(p)]);
        if sc.run.Some? then Raise(sc.run.value, st)
        else st.(phase := Cleanup(Output(FileRunOutput(p))))
  }

  /** The `finally` block: remove the recorded scratch file if it still exists; the answer stands. */
  function Finish(sc: Script, s: State): (r: State)
    requires s.phase.Cleanup?
    ensures r.phase == Done(s.phase.response)
    ensures r.bound == s.bound
    ensures |r.trace| >= |s.trace| && r.trace[..|s.trace|] == s.trace
  {
    if s.bound.Some? && s.bound.value != "" then
      var p := s.bound.value;
      if p in s.files then
        var files := if sc.removeFails then s.files else s.files - {p};
        State(Done(s.phase.response), s.bound, files, s.trace + [Exists(p), Remove(p)])
      else State(Done(s.phase.response), s.bound, s.files, s.trace + [Exists(p)])
    else s.(phase := Done(s.phase.response))
  }

  /** One transition of the machine. */
  function Step(code: string, sc: Script, b: Binding, s: State): (r: State)
    requires !s.phase.Done?
    ensures Rank(r.phase) < Rank(s.phase)
    ensures |r.trace| >= |s.trace| && r.trace[..|s.trace|] == s.trace
  {
    match s.phase
    case TryFile => FileTier(sc, b, s)
    case TryEvalc =>
      State(Cleanup(EvalcResponse(sc.evalc)), s.bound, s.files, s.trace + [EvalCapture(code)])
    case Cleanup(_) => Finish(sc, s)
  }

  /** Runs the machine until it is done. */
  function Drive(code: string, sc: Script, b: Binding, s: State): (r: State)
    ensures r.phase.Done?
    ensures |r.trace| >= |s.trace| && r.trace[..|s.trace|] == s.trace
    decreases Rank(s.phase)
  {
    if s.phase.Done? then s else Drive(code, sc, b, Step(code, sc, b, s))
  }

  function Execute(code: string, sc: Script, b: Binding, files: set<string>): Outcome {
    var s := Drive(code, sc, b, State(TryFile, None, files, []));
    Outcome(s.phase.response, s.trace, s.files)
  }

  /**
    `runMatlabCode` with the scratch file's path recorded as soon as the file
    exists, so that the cleanup sees it on every exit path.
   */
  function RunMatlabCode(engineUp: bool, code: string, sc: Script, files: set<string>): (r: Outcome)
    ensures !engineUp ==> r.response == EngineUnavailable && r.trace == [] && r.files == files
    ensures EvalcCalls(r.trace) == if engineUp && FallsBack(sc) then [code] else []
  {
    if !engineUp then Outcome(EngineUnavailable, [], files)
    else
      FallbackIffExecutionError(code, sc, AtCreate, files);
      Execute(code, sc, AtCreate, files)
  }

  /**
    `runMatlabCode` as the source writes it: the path is recorded only after
    the write. It calls `eng.evalc` exactly when the corrected handler does
    and gives the same answer; only the cleanup's calls (`Exists`/`Remove`)
    and the scratch files left behind can differ.
   */
  function RunMatlabCodeAsWritten(engineUp: bool, code: string, sc: Script, files: set<string>): (r: Outcome)
    ensures !engineUp ==> r.response == EngineUnavailable && r.trace == [] && r.files == files
    ensures EvalcCalls(r.trace) == if engineUp && FallsBack(sc) then [code] else []
    ensures r.response == RunMatlabCode(engineUp, code, sc, files).response
  {
    if !engineUp then Outcome(EngineUnavailable, [], files)
    else
      FallbackIffExecutionError(code, sc, AfterWrite, files);
      AnswerOf(code, sc, AfterWrite, files);
      AnswerOf(code, sc, AtCreate, files);
      Execute(code, sc, AfterWrite, files)
  }

  /**
    What leaves the `with` block after `tmp.write` raised: its exit still
    closes the file, and an exception from that close replaces the write's.
   */
  function WithBlockFault(sc: Script): Fault
    requires sc.write.Some?
  {
    if sc.close.Some? then sc.close.value else sc.write.value
  }

  /** The exception, if any, that ends the file tier. */
  function FileTierFault(sc: Script): Option<Fault> {
    match sc.create
    case CreateFailed(f) => Some(f)
    case Created(_) =>
      if sc.write.Some? then Some(WithBlockFault(sc))
      else if sc.close.Some? then sc.close
      else sc.run
  }

  /** The file tier ended in a MATLAB execution error, so the fallback runs. */
  predicate FallsBack(sc: Script) {
    FileTierFault(sc).Some? && FileTierFault(sc).value.MatlabExecution?
  }

  /** The code handed to `eng.evalc`, call by call, oldest first. */
  function EvalcCalls(trace: seq<Call>): seq<string> {
    if |trace| == 0 then []
    else
      var last := trace[|trace| - 1];
      EvalcCalls(trace[..|trace| - 1]) + (if last.EvalCapture? then [last.code] else [])
  }

  lemma {:induction false} EvalcCallsAppend(t: seq<Call>, u: seq<Call>)
    ensures EvalcCalls(t + u) == EvalcCalls(t) + EvalcCalls(u)
    decreases |u|
  {
    if |u| > 0 {
      var u' := u[..|u| - 1];
      assert (t + u)[..|t + u| - 1] == t + u';
      EvalcCallsAppend(t, u');
    } else {
      assert t + u == t;
    }
  }

  /**
    What the `try` block and its `except` handlers produce, read the way the
    source nests them: the answer, the calls made, the scratch file created
    (if any) and the path the `finally` block will see.
   */
  datatype Attempt = Attempt(response: Response, calls: seq<Call>, created: Option<string>, bound: Option<string>)

  /** The `except` handlers: they answer, and call `eng.evalc` for a MATLAB execution error only; the file and path stand. */
  function Handle(code: string, sc: Script, f: Fault, calls: seq<Call>, created: Option<string>, bound: Option<string>): (a: Attempt)
    ensures a.created == created && a.bound == bound
  {
    if f.MatlabExecution? then Attempt(EvalcResponse(sc.evalc), calls + [EvalCapture(code)], created, bound)
    else Attempt(FileTierError(f), calls, created, bound)
  }

  /**
    The `try` block creates the scratch file exactly when creation succeeds.
    The path the `finally` block sees is that file's, and it is unset only
    when the path is recorded after the write and `tmp.write` raised: a
    failed flush or close comes after the path is recorded.
   */
  function TryBlock(code: string, sc: Script, b: Binding): (a: Attempt)
    ensures a.created == if sc.create.Created? then Some(sc.create.path) else None
    ensures a.bound == if b.AfterWrite? && sc.create.Created? && sc.write.Some? then None else a.created
  {
    match sc.create
    case CreateFailed(f) => Handle(code, sc, f, [CreateTemp], None, None)
    case Created(p) =>
      var bound := if b == AtCreate then Some(p) else None;
      var written := [CreateTemp, WriteTemp(p), CloseTemp(p)];
      if sc.write.Some? then Handle(code, sc, WithBlockFault(sc), written, Some(p), bound)
      else if sc.close.Some? then Handle(code, sc, sc.close.value, written, Some(p), Some(p))
      else if sc.run.Some? then Handle(code, sc, sc.run.value, written + [RunFile(p)], Some(p), Some(p))
      else Attempt(Output(FileRunOutput(p)), written + [RunFile(p)], Some(p), Some(p))
  }

  /** The `finally` block: remove the recorded scratch file if it still exists. */
  function Finally(a: Attempt, removeFails: bool, files: set<string>): (o: Outcome)
    ensures o.response == a.response
    ensures |o.trace| >= |a.calls| && o.trace[..|a.calls|] == a.calls
  {
    var present := if a.created.Some? then files + {a.created.value} else files;
    if a.bound.Some? && a.bound.value != "" then
      var p := a.bound.value;
      if p in present then
        Outcome(a.response, a.calls + [Exists(p), Remove(p)], if removeFails then present else present - {p})
      else Outcome(a.response, a.calls + [Exists(p)], present)
    else Outcome(a.response, a.calls, present)
  }

  /**
    The `finally` block adds at most the existence check and the removal of
    the recorded path, and nothing when no path was recorded. It deletes no
    file but that one, and deletes it exactly when it exists and `os.remove`
    succeeds, the removal then being the last call.
   */
  lemma FinallyOnlyCleansUp(a: Attempt, removeFails: bool, files: set<string>)
    ensures var o := Finally(a, removeFails, files);
      && |a.calls| <= |o.trace| <= |a.calls| + 2
      && (a.bound.None? || a.bound.value == "" ==> o.trace == a.calls)
      && (a.bound.Some? ==>
            forall i :: |a.calls| <= i < |o.trace| ==> o.trace[i] == Exists(a.bound.value) || o.trace[i] == Remove(a.bound.value))
    ensures var o := Finally(a, removeFails, files);
      var present := if a.created.Some? then files + {a.created.value} else files;
      && o.files <= present
      && (forall f :: f in present && f !in o.files ==> a.bound == Some(f))
      && (a.bound.Some? && a.bound.value != "" && a.bound.value in present ==>
            && (a.bound.value in o.files <==> removeFails)
            && |o.trace| == |a.calls| + 2
            && o.trace[|a.calls| + 1] == Remove(a.bound.value))
  {
    var o := Finally(a, removeFails, files);
    var present := if a.created.Some? then files + {a.created.value} else files;
    if a.bound.Some? && a.bound.value != "" {
      var p := a.bound.value;
      if p in present {
        assert o.trace == a.calls + [Exists(p), Remove(p)];
      } else {
        assert o.trace == a.calls + [Exists(p)];
      }
    }
  }

  /** The state machine computes exactly what the nested handlers compute. */
  lemma {:induction false} MachineMatchesHandlers(code: string, sc: Script, b: Binding, files: set<string>)
    ensures Execute(code, sc, b, files) == Finally(TryBlock(code, sc, b), sc.removeFails, files)
  {
    var s0 := State(TryFile, None, files, []);
    var s1 := Step(code, sc, b, s0);
    assert Drive(code, sc, b, s0) == Drive(code, sc, b, s1);
    FileTierStep(code, sc, b, files);
    var a := TryBlock(code, sc, b);
    FinallyOfCreated(a, sc.removeFails, files);
    if s1.phase.TryEvalc? {
      var s2 := Step(code, sc, b, s1);
      assert s2 == State(Cleanup(a.response), a.bound, s1.files, a.calls);
      assert Drive(code, sc, b, s1) == Drive(code, sc, b, s2);
      CleanupStep(code, sc, b, s2);
    } else {
      CleanupStep(code, sc, b, s1);
    }
  }

  /** The `finally` block sees the created file among the files that exist. */
  lemma FinallyOfCreated(a: Attempt, removeFails: bool, files: set<string>)
    ensures Finally(a, removeFails, files)
         == Finally(a.(created := None), removeFails, if a.created.Some? then files + {a.created.value} else files)
  {
  }

  /** The file-tier transition ends where the `try` block and its handlers do, short of the fallback call. */
  lemma FileTierStep(code: string, sc: Script, b: Binding, files: set<string>)
    ensures var s1 := Step(code, sc, b, State(TryFile, None, files, []));
      var a := TryBlock(code, sc, b);
      && s1.files == (if a.created.Some? then files + {a.created.value} else files)
      && s1.bound == a.bound
      && (if s1.phase.TryEvalc?
          then s1.trace + [EvalCapture(code)] == a.calls && a.response == EvalcResponse(sc.evalc)
          else s1.phase == Cleanup(a.response) && s1.trace == a.calls)
  {
    match sc.create
    case CreateFailed(f) =>
      assert [] + [CreateTemp] == [CreateTemp];
    case Created(p) =>
      assert [] + [CreateTemp, WriteTemp(p), CloseTemp(p)] == [CreateTemp, WriteTemp(p), CloseTemp(p)];
      assert [] + [CreateTemp, WriteTemp(p), CloseTemp(p), RunFile(p)]
          == [CreateTemp, WriteTemp(p), CloseTemp(p), RunFile(p)];
  }

  /** The cleanup transition is the `finally` block. */
  lemma CleanupStep(code: string, sc: Script, b: Binding, s: State)
    requires s.phase.Cleanup?
    ensures var d := Drive(code, sc, b, s);
      && d.phase == Done(s.phase.response)
      && Outcome(d.phase.response, d.trace, d.files)
         == Finally(Attempt(s.phase.response, s.trace, None, s.bound), sc.removeFails, s.files)
  {
    assert Drive(code, sc, b, s) == Step(code, sc, b, s);
  }

  /**
    The answer depends on the file tier's exception and the fallback alone:
    not on when the path is recorded, nor on the cleanup.
   */
  lemma AnswerOf(code: string, sc: Script, b: Binding, files: set<string>)
    ensures Execute(code, sc, b, files).response ==
      match FileTierFault(sc)
      case None => Output(FileRunOutput(sc.create.path))
      case Some(f) => if f.MatlabExecution? then EvalcResponse(sc.evalc) else FileTierError(f)
  {
    MachineMatchesHandlers(code, sc, b, files);
    TryBlockAnswer(code, sc, b);
  }

  lemma TryBlockAnswer(code: string, sc: Script, b: Binding)
    ensures TryBlock(code, sc, b).response ==
      match FileTierFault(sc)
      case None => Output(FileRunOutput(sc.create.path))
      case Some(f) => if f.MatlabExecution? then EvalcResponse(sc.evalc) else FileTierError(f)
  {
    match sc.create
    case CreateFailed(f) =>
    case Created(p) =>
      if sc.write.Some? {
        assert FileTierFault(sc) == Some(WithBlockFault(sc));
      } else if sc.close.Some? {
        assert FileTierFault(sc) == sc.close;
      } else {
        assert FileTierFault(sc) == sc.run;
      }
  }

  /** File mode succeeding answers with the file-mode message and never falls back. */
  lemma FileRunSucceeds(code: string, sc: Script, b: Binding, files: set<string>)
    requires sc.create.Created? && sc.write.None? && sc.close.None? && sc.run.None?
    ensures Execute(code, sc, b, files).response == Output(FileRunOutput(sc.create.path))
    ensures EvalcCalls(Execute(code, sc, b, files).trace) == []
  {
    AnswerOf(code, sc, b, files);
    FallbackIffExecutionError(code, sc, b, files);
  }

  /**
    `eng.evalc` is called if and only if the file tier ended in a MATLAB
    execution error, and then exactly once, on the submitted code.
   */
  lemma FallbackIffExecutionError(code: string, sc: Script, b: Binding, files: set<string>)
    ensures EvalcCalls(Execute(code, sc, b, files).trace) == if FallsBack(sc) then [code] else []
  {
    MachineMatchesHandlers(code, sc, b, files);
    var a := TryBlock(code, sc, b);
    CleanupCallsNoEvalc(a, sc.removeFails, files);
    TryBlockEvalcCalls(code, sc, b);
  }

  lemma TryBlockEvalcCalls(code: string, sc: Script, b: Binding)
    ensures EvalcCalls(TryBlock(code, sc, b).calls)
         == if FallsBack(sc) then [code] else []
  {
    match sc.create
    case CreateFailed(f) =>
      HandleEvalcCalls(code, sc, f, [CreateTemp], None, None);
    case Created(p) =>
      var bound := if b == AtCreate then Some(p) else None;
      var written := [CreateTemp, WriteTemp(p), CloseTemp(p)];
      if sc.write.Some? {
        HandleEvalcCalls(code, sc, WithBlockFault(sc), written, Some(p), bound);
      } else if sc.close.Some? {
        HandleEvalcCalls(code, sc, sc.close.value, written, Some(p), Some(p));
      } else if sc.run.Some? {
        HandleEvalcCalls(code, sc, sc.run.value, written + [RunFile(p)], Some(p), Some(p));
      } else {
        NoEvalcIn(written + [RunFile(p)]);
      }
  }

  /** A handler calls `eng.evalc` once, on the code, exactly for a MATLAB execution error. */
  lemma HandleEvalcCalls(code: string, sc: Script, f: Fault, calls: seq<Call>, created: Option<string>, bound: Option<string>)
    requires forall i :: 0 <= i < |calls| ==> !calls[i].EvalCapture?
    ensures EvalcCalls(Handle(code, sc, f, calls, created, bound).calls) == if f.MatlabExecution? then [code] else []
  {
    NoEvalcIn(calls);
    if f.MatlabExecution? {
      EvalcCallsAppend(calls, [EvalCapture(code)]);
    }
  }

  lemma {:induction false} NoEvalcIn(t: seq<Call>)
    requires forall i :: 0 <= i < |t| ==> !t[i].EvalCapture?
    ensures EvalcCalls(t) == []
  {
    if |t| > 0 {
      NoEvalcIn(t[..|t| - 1]);
    }
  }

  /** The `finally` block adds no call to `eng.evalc`. */
  lemma CleanupCallsNoEvalc(a: Attempt, removeFails: bool, files: set<string>)
    ensures EvalcCalls(Finally(a, removeFails, files).trace) == EvalcCalls(a.calls)
  {
    if a.bound.Some? && a.bound.value != "" {
      var p := a.bound.value;
      EvalcCallsAppend(a.calls, [Exists(p), Remove(p)]);
      EvalcCallsAppend(a.calls, [Exists(p)]);
      assert [Exists(p), Remove(p)][..1] == [Exists(p)];
    }
  }

  /**
    After a MATLAB execution error in file mode the answer is the fallback's:
    its transcript on success, otherwise an error at stage `evalc_fallback`
    named after the fallback's exception.
   */
  lemma FallbackAnswers(code: string, sc: Script, b: Binding, files: set<string>)
    requires FallsBack(sc)
    ensures var r := Execute(code, sc, b, files).response;
      sc.evalc.Transcript? ==> r == Output(sc.evalc.text)
    ensures var r := Execute(code, sc, b, files).response;
      sc.evalc.EvalcFailed? ==>
        && r.Error?
        && r.stage == Some("evalc_fallback")
        && r.errorType == ClassName(sc.evalc.fault)
  {
    AnswerOf(code, sc, b, files);
  }

  /**
    Any other exception in file mode (engine, I/O or anything else) is
    answered at once: an error without a `stage` key, typed `EngineError`,
    `IOError` or the exception's class name, and no fallback.
   */
  lemma OtherFaultsAnswerAtOnce(code: string, sc: Script, b: Binding, files: set<string>)
    requires FileTierFault(sc).Some? && !FileTierFault(sc).value.MatlabExecution?
    ensures var o := Execute(code, sc, b, files);
      && o.response.Error?
      && "stage" !in ToDict(o.response)
      && EvalcCalls(o.trace) == []
    ensures var r := Execute(code, sc, b, files).response;
      match FileTierFault(sc).value
      case Engine(_) => r.errorType == "EngineError"
      case OS(_, _) => r.errorType == "IOError"
      case Other(cls, _) => r.errorType == cls
      case MatlabExecution(_) => false
  {
    AnswerOf(code, sc, b, files);
    FallbackIffExecutionError(code, sc, b, files);
  }

  /**
    The scratch file is removed on every exit path: afterwards exactly the
    files that existed before remain, unless `os.remove` itself failed, and
    that failure never changes the answer.
   */
  lemma CleanupOnEveryPath(code: string, sc: Script, files: set<string>)
    requires sc.create.Created? ==> sc.create.path !in files && sc.create.path != ""
    ensures var o := RunMatlabCode(true, code, sc, files);
      o.files == if sc.create.Created? && sc.removeFails then files + {sc.create.path} else files
    ensures var o := RunMatlabCode(true, code, sc, files);
      sc.create.Created? ==> |o.trace| > 0 && o.trace[|o.trace| - 1] == Remove(sc.create.path)
    ensures RunMatlabCode(true, code, sc.(removeFails := !sc.removeFails), files).response
         == RunMatlabCode(true, code, sc, files).response
  {
    var sc' := sc.(removeFails := !sc.removeFails);
    assert RunMatlabCode(true, code, sc, files) == Execute(code, sc, AtCreate, files);
    assert RunMatlabCode(true, code, sc', files) == Execute(code, sc', AtCreate, files);
    MachineMatchesHandlers(code, sc, AtCreate, files);
    CleanupOfRecordedFile(TryBlock(code, sc, AtCreate), sc.removeFails, files);
    RemovalFailureKeepsAnswer(code, sc, AtCreate, files);
  }

  /** Whether `os.remove` fails never changes the answer, whichever way the path is recorded. */
  lemma RemovalFailureKeepsAnswer(code: string, sc: Script, b: Binding, files: set<string>)
    ensures Execute(code, sc.(removeFails := !sc.removeFails), b, files).response == Execute(code, sc, b, files).response
  {
    var sc' := sc.(removeFails := !sc.removeFails);
    AnswerOf(code, sc, b, files);
    AnswerOf(code, sc', b, files);
    assert FileTierFault(sc') == FileTierFault(sc);
  }

  /** When the path is recorded with the file, the `finally` block removes exactly that file. */
  lemma CleanupOfRecordedFile(a: Attempt, removeFails: bool, files: set<string>)
    requires a.bound == a.created
    requires a.created.Some? ==> a.created.value !in files && a.created.value != ""
    ensures var o := Finally(a, removeFails, files);
      o.files == if a.created.Some? && removeFails then files + {a.created.value} else files
    ensures var o := Finally(a, removeFails, files);
      a.created.Some? ==> |o.trace| > 0 && o.trace[|o.trace| - 1] == Remove(a.created.value)
  {
    FinallyOnlyCleansUp(a, removeFails, files);
  }

  /**
    As written, a failure while writing the code into the scratch file
    leaves the file behind: its path was never recorded, so the cleanup
    neither checks nor removes it.
   */
  lemma AsWrittenLeaksOnWriteFailure(code: string, sc: Script, files: set<string>)
    requires sc.create.Created? && sc.create.path !in files && sc.create.path != ""
    requires sc.write.Some?
    requires !sc.removeFails
    ensures var o := RunMatlabCodeAsWritten(true, code, sc, files);
      sc.create.path in o.files && Exists(sc.create.path) !in o.trace && Remove(sc.create.path) !in o.trace
    ensures sc.create.path !in RunMatlabCode(true, code, sc, files).files
  {
    assert RunMatlabCodeAsWritten(true, code, sc, files) == Execute(code, sc, AfterWrite, files);
    UnrecordedFileStays(code, sc, files);
    CleanupOnEveryPath(code, sc, files);
  }

  /** With the path recorded after the write, a failed `tmp.write` leaves a file the cleanup neither checks nor removes. */
  lemma UnrecordedFileStays(code: string, sc: Script, files: set<string>)
    requires sc.create.Created? && sc.write.Some?
    ensures var o := Execute(code, sc, AfterWrite, files);
      sc.create.path in o.files && Exists(sc.create.path) !in o.trace && Remove(sc.create.path) !in o.trace
  {
    var p := sc.create.path;
    MachineMatchesHandlers(code, sc, AfterWrite, files);
    var a := TryBlock(code, sc, AfterWrite);
    assert a.bound.None? && a.created == Some(p);
    FinallyOnlyCleansUp(a, sc.removeFails, files);
    var written := [CreateTemp, WriteTemp(p), CloseTemp(p)];
    assert a == Handle(code, sc, WithBlockFault(sc), written, Some(p), None);
    assert Exists(p) !in written + [EvalCapture(code)];
    assert Remove(p) !in written + [EvalCapture(code)];
  }

  /** On every other path the source and the corrected handler behave identically. */
  lemma AsWrittenAgreesOtherwise(engineUp: bool, code: string, sc: Script, files: set<string>)
    requires !(sc.create.Created? && sc.write.Some?)
    ensures RunMatlabCodeAsWritten(engineUp, code, sc, files) == RunMatlabCode(engineUp, code, sc, files)
  {
    MachineMatchesHandlers(code, sc, AtCreate, files);
    MachineMatchesHandlers(code, sc, AfterWrite, files);
  }
}
