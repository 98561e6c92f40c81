/**
  `getVariable`: validate the name, look it up in the engine workspace, fetch
  and marshal the value, check that it serialises, and shape the answer.
 */
module GetVariable {
  import opened Json
  import opened Marshal
  import opened Responses

  /** The `variable_name` argument: a string, or a value of another type. */
  datatype NameArg = Name(s: string) | NotAString(typeName: string)

  /**
    The engine workspace as the request finds it, and what touching it does:
    the exception the membership test raises, if any, and the one the read
    raises, if any.
   */
  datatype Workspace = Workspace(
    vars: map<string, NativeValue>,
    containsFault: Option<Fault>,
    fetchFault: Option<Fault>)

  /** One access to the workspace. */
  datatype Access = Contains(name: string) | Fetch(name: string)

  /** What one request leaves behind: the answer and the workspace accesses, oldest first. */
  datatype Lookup = Lookup(response: Response, accesses: seq<Access>)

  predicate WellFormedWorkspace(ws: Workspace) {
    forall n :: n in ws.vars ==> WellFormed(ws.vars[n])
  }

  /** The name of the value's Python type, as `type(value)` reports it. */
  function NativeTypeName(v: NativeValue): string {
    match v
    case PyStr(_) => "str"
    case PyInt(_) => "int"
    case PyFloat(_) => "float"
    case PyBool(_) => "bool"
    case PyNone => "NoneType"
    case MDouble(_, _) => "matlab.double"
    case MLogical(_, _) => "matlab.logical"
    case MChar(_) => "matlab.char"
    case Unsupported(typeName, _) => typeName
  }

  const InvalidName := Error("ValueError", None, "Invalid variable_name: must be a non-empty string.")

  function NotFoundSentence(name: string): string {
    "Variable '" + name + "' not found in MATLAB workspace."
  }

  /** `str(KeyError(m))` is the `repr` of its message. */
  function NotFoundMessage(name: string): string {
    Repr(NotFoundSentence(name))
  }

  function SerialisationFailed(name: string, v: NativeValue): Response {
    Error("TypeError", None,
          "Value for variable '" + name + "' could not be JSON serialized after conversion. Original MATLAB type: "
          + TypeRepr(NativeTypeName(v)))
  }

  /** The outer handlers for an exception from the workspace: engine errors, then anything else. */
  function WorkspaceError(f: Fault): (r: Response)
    ensures r.Error? && r.stage.None?
    ensures r.errorType == ClassName(f)
  {
    match f
    case Engine(m) => Error("EngineError", None, "MATLAB Engine error: " + m)
    case _ => Error(ClassName(f), None, "An unexpected error occurred: " + f.msg)
  }

  /** The name is a non-empty string, the variable exists and both accesses succeed. */
  predicate Fetchable(arg: NameArg, ws: Workspace) {
    && arg.Name? && arg.s != "" && arg.s in ws.vars
    && ws.containsFault.None? && ws.fetchFault.None?
  }

  /**
    `getVariable`. `dumpsOk` says whether `json.dumps` accepts a value (it
    raises `TypeError` when not).
    - An empty name, or one that is not a string, is refused with a
      `ValueError` before the workspace is touched.
    - A name the workspace lacks is a `KeyError` after the membership test
      alone: nothing is read or marshalled.
    - The answer is a success exactly when the value can be fetched and its
      marshalled form serialises, and it then carries that marshalled form;
      when only the serialisation fails, it is a `TypeError`.
    - Without an engine the answer is the `RuntimeError`, with no access.
    - A membership test or read that raises is answered by the outer
      handlers (`WorkspaceError`): the answer is typed with the exception's
      class name, and the accesses stop at the one that raised.
    - Every access names the requested variable, the membership test comes
      first and the read only after it, and no answer has a `stage` key.
   */
  function GetVariable(engineUp: bool, arg: NameArg, ws: Workspace, dumpsOk: JsonValue -> bool): (r: Lookup)
    requires WellFormedWorkspace(ws)
    ensures !engineUp ==> r.response == EngineUnavailable && r.accesses == []
    ensures engineUp && arg.Name? && arg.s != "" && ws.containsFault.Some? ==>
      && r.accesses == [Contains(arg.s)]
      && r.response == WorkspaceError(ws.containsFault.value)
    ensures engineUp && arg.Name? && arg.s != "" && ws.containsFault.None? && arg.s in ws.vars && ws.fetchFault.Some? ==>
      && r.accesses == [Contains(arg.s), Fetch(arg.s)]
      && r.response == WorkspaceError(ws.fetchFault.value)
    ensures engineUp && (!arg.Name? || arg.s == "") ==>
      r.accesses == [] && r.response.Error? && r.response.errorType == "ValueError"
    ensures engineUp && arg.Name? && arg.s != "" && arg.s !in ws.vars && ws.containsFault.None? ==>
      && r.accesses == [Contains(arg.s)]
      && r.response.Error?
      && r.response.errorType == "KeyError"
      && r.response.message == NotFoundMessage(arg.s)
    ensures r.response.Value? <==> engineUp && Fetchable(arg, ws) && dumpsOk(ToJson(ws.vars[arg.s]))
    ensures r.response.Value? ==> r.response == Value(arg.s, ToJson(ws.vars[arg.s]))
    ensures engineUp && Fetchable(arg, ws) && !dumpsOk(ToJson(ws.vars[arg.s])) ==>
      r.response.Error? && r.response.errorType == "TypeError"
    ensures r.accesses == [] || (arg.Name? && r.accesses[0] == Contains(arg.s))
    ensures |r.accesses| <= 2
    ensures |r.accesses| == 2 ==> r.accesses[1] == Fetch(arg.s) && arg.s in ws.vars
    ensures "stage" !in ToDict(r.response)
  {
    if !engineUp then Lookup(EngineUnavailable, [])
    else if !arg.Name? || arg.s == "" then Lookup(InvalidName, [])
    else
      var name := arg.s;
      if ws.containsFault.Some? then Lookup(WorkspaceError(ws.containsFault.value), [Contains(name)])
      else if name !in ws.vars then Lookup(Error("KeyError", None, NotFoundMessage(name)), [Contains(name)])
      else if ws.fetchFault.Some? then Lookup(WorkspaceError(ws.fetchFault.value), [Contains(name), Fetch(name)])
      else
        var v := ws.vars[name];
        var j := ToJson(v);
        if dumpsOk(j) then Lookup(Value(name, j), [Contains(name), Fetch(name)])
        else Lookup(SerialisationFailed(name, v), [Contains(name), Fetch(name)])
  }

  /**
    For a name without double quotes, backslashes, tabs or line breaks the
    `KeyError` message is the sentence wrapped in double quotes (it holds
    single quotes).
   */
  lemma PlainNotFoundMessage(name: string)
    requires Verbatim(name, '"')
    ensures NotFoundMessage(name) == ['"'] + NotFoundSentence(name) + ['"']
  {
    var pre, post := "Variable '", "' not found in MATLAB workspace.";
    var m := NotFoundSentence(name);
    assert m == pre + name + post;
    assert Verbatim(pre, '"') && Verbatim(post, '"');
    VerbatimConcat(pre, name);
    VerbatimConcat(pre + name, post);
    assert m[|pre| - 1] == '\'';
    DoubleQuotedRepr(m, |pre| - 1);
  }

  /** A string holding a single quote and nothing `repr` escapes is shown between double quotes. */
  lemma DoubleQuotedRepr(m: string, k: nat)
    requires k < |m| && m[k] == '\''
    requires Verbatim(m, '"')
    ensures Repr(m) == ['"'] + m + ['"']
  {
    assert '"' !in m by {
      forall i | 0 <= i < |m| ensures m[i] != '"' {
        assert !Escaped(m[i], '"');
      }
    }
  }

  lemma VerbatimConcat(a: string, b: string)
    requires Verbatim(a, '"') && Verbatim(b, '"')
    ensures Verbatim(a + b, '"')
  {
    forall i | 0 <= i < |a + b| ensures !Escaped((a + b)[i], '"') {
      if i >= |a| {
        assert (a + b)[i] == b[i - |a|];
      }
    }
  }
}
