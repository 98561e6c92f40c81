# MATLAB bridge: a Dafny model

This project models the execution bridge of the MATLAB MCP server
(`MatlabMCP-server-with-client/main.py`). The bridge has three parts.

- **The value marshaller** (`matlab_to_python`). It turns values returned by the
  MATLAB engine into JSON-safe Python values:
  - Python primitives pass through unchanged.
  - `matlab.double` and `matlab.logical` arrays are squeezed of their
    singleton dimensions. A 0-d result becomes a bare number or boolean.
    Anything else becomes a list, or nested lists, in row-major order.
  - `matlab.char` becomes a string.
  - Any other type becomes `str(data)`. If that call raises, it becomes the
    sentinel `Unserializable MATLAB Type: <class '...'>`.
- **The two-tier execution of `runMatlabCode`**. The code is written to a
  temporary `.m` file and run with `eng.run`. Only a `MatlabExecutionError`
  from that tier triggers a single `eng.evalc(code)` fallback. Engine errors,
  I/O errors and any other exception are answered at once. The `finally`
  block removes the temporary file, and a failed removal is swallowed.
  First-tier errors carry no `stage`. Fallback errors carry
  `stage: "evalc_fallback"`. `error_type` is always a Python class name. A
  file-mode success answers "Code executed successfully via temporary file
  (<name>).", not the code's output.
- **The variable read `getVariable`**. It validates the name before touching
  the engine. It then tests membership (a missing name is a `KeyError`),
  fetches and marshals the value, and checks that `json.dumps` accepts the
  result (it fails as `TypeError` otherwise). Exceptions become the error
  dictionary.

The engine, the file system and `json.dumps` are not called. They are inputs:

- A `RunCode.Script` fixes what each external call of one `runMatlabCode`
  request does: creating the file, `tmp.write`, the flush and close when the
  `with` block exits, `eng.run`, `eng.evalc` and `os.remove`.
- A `GetVariable.Workspace` holds the workspace as a map, plus the
  exceptions that the membership test and the read raise, if any.
- `dumpsOk` says whether `json.dumps` accepts a value.

`runMatlabCode` is an explicit state machine `TryFile -> TryEvalc -> Cleanup -> Done`
(`RunCode.Step`, driven by `RunCode.Drive`). It returns the response, the
trace of calls it made, and the set of scratch files left afterwards. This
makes "evalc was not called" and "the file was cleaned up" statements about
the result. `RunCode.MachineMatchesHandlers` proves that the machine computes
the same thing as a direct reading of the source's nested
`try`/`except`/`finally`.

Modules:

- `Json` (json.dfy): the JSON value model, flattening, and rectangular shapes.
- `Marshal` (marshal.dfy): native values, `squeeze`, nesting, and `ToJson`.
- `Responses` (responses.dfy): exceptions, the response dictionaries,
  `basename`, and `repr`.
- `RunCode` (run_code.dfy): `runMatlabCode`.
- `GetVariable` (get_variable.dfy): `getVariable`.

## Model

| member | source | states |
|---|---|---|
| Marshal.ToJson | MatlabMCP-server-with-client/main.py:53-75 | Total on well-formed values. A str/int/float/bool/None reads back as the same Python value. A double or logical array comes back with the squeezed shape, with its elements in source order. `matlab.char` becomes its text. Any other type becomes a string: its `str()` when that succeeds, otherwise the sentinel naming its type. |
| Marshal.Squeeze | MatlabMCP-server-with-client/main.py:60 | The squeezed shape has no dimension of length one. It keeps every other dimension and the element count. It is empty exactly when every dimension is one. |
| Marshal.NestShapeAndOrder | MatlabMCP-server-with-client/main.py:60-62 | Nesting flat elements (what `tolist` does) produces exactly the requested rectangular shape. Flattening the result gives back the elements in the same order. |
| Marshal.ScalarArrayUnwraps | MatlabMCP-server-with-client/main.py:59-66 | An array whose dimensions are all one holds exactly one element and marshals to that bare number or boolean, not to a list. |
| Marshal.MatrixRowMajor | MatlabMCP-server-with-client/main.py:59-62 | An m-by-n double matrix with neither dimension equal to one becomes a list of m lists, each holding the next n elements in row-major order. |
| Marshal.SqueezeSplits | MatlabMCP-server-with-client/main.py:60 | `squeeze` works one dimension at a time. Squeezing a concatenation squeezes each part in place, and (by `Marshal.SqueezeOne`) a single dimension is dropped exactly when it is one. The surviving dimensions therefore keep their order and their multiplicity. |
| Marshal.SqueezeFixedPoint | MatlabMCP-server-with-client/main.py:60 | `squeeze` leaves a shape unchanged exactly when none of its dimensions is one. Squeezing an already squeezed shape therefore changes nothing. |
| Responses.ToDict | MatlabMCP-server-with-client/main.py:101-220 | Every response has a status, which is "success" exactly for the two success shapes. A file-mode or fallback success has exactly the keys `status` and `output`. A variable read has exactly `status`, `variable` and `value`, holding the name and the value. An error has only `status`, `error_type`, `message` and possibly `stage`, and each holds the error's own text. A `stage` key is present exactly when the error names a stage. |
| Responses.Basename | MatlabMCP-server-with-client/main.py:114 | `os.path.basename` returns the longest suffix of the path that contains no `/`. |
| Responses.Repr | MatlabMCP-server-with-client/main.py:193-214 | `repr` of a string opens and closes with the same quote. It uses double quotes exactly when the text holds a single quote and no double quote, and single quotes otherwise. A text with nothing to escape appears verbatim between the quotes. |
| RunCode.Raise | MatlabMCP-server-with-client/main.py:116-148 | An exception that leaves the file tier leads to the fallback if and only if it is a `MatlabExecutionError`. Nothing else in the state changes. |
| RunCode.FileTier | MatlabMCP-server-with-client/main.py:107-112 | The file tier (create, write, record the path, close, run) ends either at the fallback or at the cleanup. It only appends calls to the trace. |
| RunCode.Finally | MatlabMCP-server-with-client/main.py:149-156 | The `finally` block never changes the answer and keeps the calls already made as a prefix of the trace. |
| RunCode.FinallyOnlyCleansUp | MatlabMCP-server-with-client/main.py:149-156 | The `finally` block appends at most two calls, each the existence check or the removal of the recorded path, and none when no path was recorded. It deletes no file but the recorded one. It deletes that file exactly when the file exists and `os.remove` succeeds, and the removal is then the last call. |
| RunCode.TryBlock | MatlabMCP-server-with-client/main.py:107-109 | The scratch file exists exactly when creation succeeds. The path the cleanup sees is that file's path. It is unset only when the path is recorded after the write and `tmp.write` itself raised. The flush and close at the end of the `with` block come after the path is recorded. When the write raised, a failing close replaces the write's exception. |
| RunCode.Step | MatlabMCP-server-with-client/main.py:103-156 | Each transition moves strictly forward through TryFile, TryEvalc, Cleanup and Done. It only appends to the call trace. |
| RunCode.Drive | MatlabMCP-server-with-client/main.py:103-156 | The machine always reaches Done. The calls already made stay a prefix of the final trace. |
| RunCode.MachineMatchesHandlers | MatlabMCP-server-with-client/main.py:103-156 | For every script and either binding of the path, the state machine gives the same response, call trace and file set as the nested try/except/finally of the source. |
| RunCode.AnswerOf | MatlabMCP-server-with-client/main.py:107-148 | The answer is set by the file tier's exception alone. No exception gives the file-mode message. A MATLAB execution error gives the fallback's answer. Any other exception gives the immediate error. The answer does not depend on when the path is recorded or on the cleanup. |
| RunCode.FileRunSucceeds | MatlabMCP-server-with-client/main.py:107-114 | With either binding of the path, when creating, writing, closing and running the file all succeed, the answer is "Code executed successfully via temporary file (<basename>)." and `eng.evalc` is never called. |
| RunCode.FallbackIffExecutionError | MatlabMCP-server-with-client/main.py:116-122 | With either binding of the path, `eng.evalc` is called if and only if the file tier ended in a `MatlabExecutionError`. It is then called exactly once, on the submitted code. |
| RunCode.FallbackAnswers | MatlabMCP-server-with-client/main.py:121-138 | With either binding of the path, after the fallback the answer is the evalc transcript on success. Otherwise it is an error with stage `evalc_fallback`, typed `MatlabExecutionError` or the other exception's class name. |
| RunCode.OtherFaultsAnswerAtOnce | MatlabMCP-server-with-client/main.py:140-148 | With either binding of the path, an engine, I/O or other exception in the file tier gives an error typed `EngineError`, `IOError` or the class name. The error has no `stage` key, and evalc is not called. |
| RunCode.CleanupOnEveryPath | MatlabMCP-server-with-client/main.py:149-156 | With the path recorded as soon as the file exists, every exit path ends by removing the scratch file, so exactly the files that existed before remain. The exception is a failed `os.remove`, and that failure never changes the answer. |
| RunCode.RemovalFailureKeepsAnswer | MatlabMCP-server-with-client/main.py:149-156 | With either binding of the path, whether `os.remove` raises never changes the answer, because the `finally` block swallows that `OSError`. |
| RunCode.RunMatlabCode | MatlabMCP-server-with-client/main.py:100-156 | The corrected handler. Without an engine it answers `RuntimeError` and touches nothing. Otherwise it calls `eng.evalc` exactly once, on the code, when the file tier ended in a `MatlabExecutionError`, and never in any other case. |
| RunCode.RunMatlabCodeAsWritten | MatlabMCP-server-with-client/main.py:100-156 | The handler as the source writes it, with the path recorded after `tmp.write`. It has the same engine check and the same rule for when `eng.evalc` is called. It gives the corrected handler's answer on every input, so only the cleanup's calls (`Exists`/`Remove`) and the scratch files left behind can differ. |
| RunCode.AsWrittenLeaksOnWriteFailure | MatlabMCP-server-with-client/main.py:103-109 | In the source as written, a failure while writing the code leaves the scratch file in place. The cleanup neither checks nor removes it, while the corrected handler does remove it. |
| RunCode.AsWrittenAgreesOtherwise | MatlabMCP-server-with-client/main.py:103-156 | On every path other than a failed `tmp.write`, the source as written and the corrected handler give identical outcomes. This includes a failed flush or close when the `with` block exits. |
| GetVariable.GetVariable | MatlabMCP-server-with-client/main.py:180-220 | Without an engine the answer is the `RuntimeError` one, with no workspace access. An empty or non-string name gives `ValueError` with no workspace access. If the membership test or the read raises, the answer is the outer handlers' error for that exception, typed with its class name, and the accesses stop at the one that raised. A missing name gives `KeyError` after the membership test alone. The answer is a success exactly when the value can be fetched and its marshalled form serialises, and it then carries that form. If only serialisation fails, the answer is `TypeError`. Accesses name the variable, membership comes first, and no answer has a stage. |
| GetVariable.WorkspaceError | MatlabMCP-server-with-client/main.py:215-220 | An exception raised at the workspace becomes an error, without a stage, typed with the exception's class name (`EngineError` for engine errors). |
| GetVariable.PlainNotFoundMessage | MatlabMCP-server-with-client/main.py:193-214 | For a name of printable characters without double quotes or backslashes, the `KeyError` message is the "Variable '...' not found" sentence wrapped in double quotes. `str` of a `KeyError` gives its message's `repr`, and this sentence always contains a single quote. |

## Findings

| source | as written | input that shows it | evidently intended | confidence | as-written member | corrected member |
|---|---|---|---|---|---|---|
| MatlabMCP-server-with-client/main.py:107-109 | `temp_file_path` is assigned only after `tmp.write(code)`. The file is opened with `delete=False`, so if `tmp.write` itself raises, the file exists but the `finally` block sees `None` and does not remove it. A failure in the flush or close at the end of the `with` block comes after the assignment, so that file is removed. | Code holding a lone surrogate such as `"\ud800"`: the UTF-8 write raises `UnicodeEncodeError`. Code larger than the write buffer on a full disk has the same effect, because `tmp.write` then flushes. The answer is an error, and the `.m` file stays in the temp directory. It stays even if the close at the end of the `with` block then fails too; only the answer changes, to the close's error. | The temporary file is deleted on every exit path, as the cleanup comment says. The path should be recorded as soon as the file is created. | medium-high; not executed | RunCode.AsWrittenLeaksOnWriteFailure | RunCode.CleanupOnEveryPath |

`RunCode.RunMatlabCode` is the corrected handler: it records the path when
the file is created. `RunCode.RunMatlabCodeAsWritten` follows the source.
`RunCode.AsWrittenAgreesOtherwise` shows the two differ only on the
failed-write path.

## Left out

- Engine discovery and connection at start-up (`find_matlab`, `connect_matlab`, `sys.exit`) is process set-up. Both tools still answer `RuntimeError` when no engine is connected (the `engineUp` parameter).
- Logging has no effect on any answer, so it is not modelled.
- `asyncio.to_thread` and `async`/`await` are left out. Every engine call is a synchronous scripted result.
- FastMCP tool registration, `mcp.run`, and all of `mcp_docker/server.py` are left out. The latter is a framework demo with no bridge logic.
- numpy internals are left out: `float()` of a 0-d array and the element conversion of `tolist`. Floats are opaque bit patterns, and only squeezing and element order are modelled.
- Complex-valued `matlab.double` arrays are not modelled.
- Marshal.ToJson requires well-formed arrays, with as many elements as their dimensions promise. The engine never produces anything else.
- The real behaviour of `str()` on arbitrary objects is an input: each unsupported value carries what `str()` returns, or that it raises.
- `json.dumps` is an input predicate, `dumpsOk`. It is applied to the marshalled value rather than to the `{"test_value": ...}` wrapper. Exceptions from `json.dumps` other than `TypeError` are not modelled.
- Exceptions are reduced to four families: MATLAB execution error, engine error, `OSError`, and any other `Exception` subclass. `Responses.Fault`'s `Other` stands only for `Exception` subclasses, because every catch-all in the source is `except Exception`. A `BaseException` outside `Exception` (`KeyboardInterrupt`, `SystemExit`, `asyncio.CancelledError` at an `await`) gets no answer at all: it propagates out of the tool after the `finally` block has run. That path is not modelled. An engine call that raises `KeyError` is not modelled either.
- Responses.Basename models the POSIX `os.path.basename` only. On Windows, `\` is a separator too.
- GetVariable.PlainNotFoundMessage and `Responses.Repr`: `repr` of a string escapes the quote, the backslash, tab, newline and carriage return. The model passes other non-printable characters (such as `\x07`, which Python writes as `\x07`) through unchanged. For a name holding one, the lemma and `Repr` describe the model's message, not Python's. They match Python only for names of printable characters.
- MATLAB code that deletes its own scratch file while it runs is not modelled. Scratch files change only through the bridge.
