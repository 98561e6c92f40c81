/**
  What the two tools return (the response dictionaries) and the exceptions the
  engine, the file system and the rest of Python can raise at them.
 */
module Responses {
  import opened Json

  /**
    An exception, reduced to what the handlers look at: its family and the
    text `str(e)` gives. `OS` is any `OSError` (which `IOError` names);
    `Other` is any other `Exception` subclass, with its class name (the
    handlers catch `Exception`, not `BaseException`).
   */
  datatype Fault =
    | MatlabExecution(msg: string)
    | Engine(msg: string)
    | OS(cls: string, msg: string)
    | Other(cls: string, msg: string)

  /** `e.__class__.__name__` */
  function ClassName(f: Fault): string {
    match f
    case MatlabExecution(_) => "MatlabExecutionError"
    case Engine(_) => "EngineError"
    case OS(cls, _) => cls
    case Other(cls, _) => cls
  }

  /**
    A tool's answer. `Output` and `Value` are the two `"status": "success"`
    shapes; `Error` carries `error_type`, the optional `stage` and `message`.
   */
  datatype Response =
    | Output(output: string)
    | Value(variable: string, value: JsonValue)
    | Error(errorType: string, stage: Option<string>, message: string)

  /** The response as the dictionary the tool returns. */
  function ToDict(r: Response): (d: map<string, JsonValue>)
    ensures "status" in d
    ensures "message" in d <==> r.Error?
    ensures d["status"] == JStr(if r.Error? then "error" else "success")
    ensures "stage" in d <==> r.Error? && r.stage.Some?
    ensures "error_type" in d <==> r.Error?
    ensures r.Error? ==> d["error_type"] == JStr(r.errorType) && d["message"] == JStr(r.message)
    ensures r.Error? ==> d.Keys <= {"status", "error_type", "stage", "message"}
    ensures r.Error? && r.stage.Some? ==> d["stage"] == JStr(r.stage.value)
    ensures r.Output? ==> d.Keys == {"status", "output"} && d["output"] == JStr(r.output)
    ensures r.Value? ==> d.Keys == {"status", "variable", "value"}
    ensures r.Value? ==> d["variable"] == JStr(r.variable) && d["value"] == r.value
  {
    match r
    case Output(o) => map["status" := JStr("success"), "output" := JStr(o)]
    case Value(name, v) => map["status" := JStr("success"), "variable" := JStr(name), "value" := v]
    case Error(t, stage, m) =>
      var base := map["status" := JStr("error"), "error_type" := JStr(t), "message" := JStr(m)];
      match stage
      case Some(s) => base["stage" := JStr(s)]
      case None => base
  }

  /** The answer both tools give when no engine is connected. */
  const EngineUnavailable := Error("RuntimeError", None, "MATLAB engine not available.")

  /**
    `os.path.basename` on a POSIX path: everything after the last `/`, that
    is, the longest suffix without a `/`.
   */
  function Basename(p: string): (b: string)
    ensures |b| <= |p| && p[|p| - |b|..] == b
    ensures '/' !in b
    ensures |b| < |p| ==> p[|p| - |b| - 1] == '/'
  {
    if |p| == 0 || p[|p| - 1] == '/' then ""
    else Basename(p[..|p| - 1]) + [p[|p| - 1]]
  }

  /**
    Python's `repr` of a string of printable characters: single quotes
    unless the text holds a single quote and no double quote, with the chosen
    quote, the backslash and the tab, newline and carriage return escaped.
   */
  function Repr(s: string): (r: string)
    ensures |r| >= |s| + 2 && r[0] == r[|r| - 1]
    ensures r[0] == '"' <==> '\'' in s && '"' !in s
    ensures r[0] == '"' || r[0] == '\''
    ensures Verbatim(s, r[0]) ==> r == [r[0]] + s + [r[0]]
  {
    var q := if '\'' in s && '"' !in s then '"' else '\'';
    [q] + Escape(s, q) + [q]
  }

  /** The characters `repr` escapes (within the printable model), given the chosen quote. */
  predicate Escaped(c: char, q: char) {
    c == q || c == '\\' || c == '\t' || c == '\n' || c == '\r'
  }

  predicate Verbatim(s: string, q: char) {
    forall i :: 0 <= i < |s| ==> !Escaped(s[i], q)
  }

  function Escape(s: string, q: char): (r: string)
    ensures |r| >= |s|
    ensures Verbatim(s, q) ==> r == s
  {
    if |s| == 0 then ""
    else
      var c := s[0];
      var e :=
        if c == q || c == '\\' then ['\\', c]
        else if c == '\t' then "\\t"
        else if c == '\n' then "\\n"
        else if c == '\r' then "\\r"
        else [c];
      e + Escape(s[1..], q)
  }
}
