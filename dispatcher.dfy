/**
 * One call of `run_keyword`: unwrap the arguments, capture the streams, call
 * the keyword, marshal its return value or classify its exception, release
 * the streams and assemble the result dictionary.
 */
module Dispatcher {
  import opened Wrappers
  import opened Values
  import opened Registry
  import opened Errors
  import opened Streams

  /** How a called keyword ended: it returned a value, or raised with these traceback entries. */
  datatype Outcome = Returned(value: Value) | Raised(exc: Exc, trace: seq<string>)

  /** What a called keyword did: what it wrote to stdout and stderr, and how it ended. */
  datatype Invocation = Invocation(out: string, err: string, outcome: Outcome)

  /**
   * The library's keywords, as they behave when called with native arguments.
   * The name is passed along with the keyword, so keywords with the same
   * signature can still behave differently.
   */
  type Behaviour = (string, Keyword, seq<Value>, map<string, Value>) -> Invocation

  /** The result dictionary of `run_keyword`, updated in place. */
  class ResultDict {
    var entries: map<string, Value>

    /** `result = {'status': status}`. */
    constructor (status: string)
      ensures entries == map["status" := Str(status)]
    {
      entries := map["status" := Str(status)];
    }

    /** `_add_to_result(result, key, value)`. */
    method Add(key: string, value: Value)
      modifies this
      ensures entries == AddedTo(old(entries), key, value)
    {
      if !IsEmptyText(value) {
        entries := entries[key := value];
      }
    }

    /** `result[key] = value`. */
    method Set(key: string, value: Value)
      modifies this
      ensures entries == old(entries)[key := value]
    {
      entries := entries[key := value];
    }
  }

  /** The dictionary after `_add_to_result(result, key, value)`. */
  function AddedTo(m: map<string, Value>, key: string, value: Value): map<string, Value> {
    if IsEmptyText(value) then m else m[key := value]
  }

  /** `_add_to_result` sets the key only when the value is not `''`, and changes no other key. */
  lemma AddedToFrame(m: map<string, Value>, key: string, value: Value)
    ensures var r := AddedTo(m, key, value);
      && (forall k :: k != key ==> (k in r <==> k in m))
      && (forall k :: k != key && k in m ==> r[k] == m[k])
      && (key in r <==> key in m || !IsEmptyText(value))
      && (!IsEmptyText(value) ==> r[key] == value)
      && (IsEmptyText(value) ==> r == m)
  {
  }

  /** The exception raised by calling `None`, which `_get_keyword` returns for an unknown name. */
  const NotCallable := Exc(TypeErrorType, Some("'NoneType' object is not callable"),
                           "'NoneType' object is not callable", map[])

  /** How the call ends: with a result dictionary, or with an exception escaping (`restored`: the streams were put back first). */
  datatype RunOutcome = Envelope(fields: map<string, Value>) | Propagated(exc: Exc, restored: bool)

  /** The arguments as the keyword receives them (`kwargs or {}`, then binary unwrapping). */
  function NativeArgs(args: seq<Value>, kwargs: Option<map<string, Value>>): (seq<Value>, map<string, Value>) {
    HandleBinaryArgs(args, kwargs.GetOr(map[]))
  }

  /** What the resolved keyword does, or `None` when the name does not resolve. */
  function Invoke(lib: Library, name: string, args: seq<Value>, kwargs: Option<map<string, Value>>,
                  call: Behaviour): Option<Invocation>
  {
    match GetKeyword(lib, name)
    case None => None
    case Some(k) =>
      var (a, kw) := NativeArgs(args, kwargs);
      Some(call(name, k, a, kw))
  }

  /** The fields of a failed call before the output is added. */
  function RuntimeFailureFields(m: Value, e: Exc, trace: seq<string>): map<string, Value> {
    var r := AddedTo(map["status" := Str("FAIL")], "error", m);
    var r := AddedTo(r, "traceback", Str(ErrorTraceback(trace)));
    var r := AddedTo(r, "continuable", Bool(ErrorAttribute(e, "CONTINUE")));
    AddedTo(r, "fatal", Bool(ErrorAttribute(e, "EXIT")))
  }

  /** The result dictionary once the captured output has been added. */
  function WithOutput(fields: map<string, Value>, out: string, err: string, nonCli: bool): map<string, Value> {
    AddedTo(fields, "output", CapturedOutput(out, err, nonCli))
  }

  /** `{'status': 'FAIL'}` with the error message added. */
  function ErrorFields(m: Value): map<string, Value> {
    AddedTo(map["status" := Str("FAIL")], "error", m)
  }

  /** `{'status': 'PASS'}` with the marshalled return value added. */
  function PassFields(w: Value): map<string, Value> {
    AddedTo(map["status" := Str("FAIL")], "return", w)["status" := Str("PASS")]
  }

  /** How the call ends once the `RuntimeError` `e` raised by the keyword is classified as `m`. */
  function RaisedClassified(m: ErrorMessage, e: Exc, trace: seq<string>, out: string, err: string, nonCli: bool): RunOutcome {
    match m
    case Reraise => Propagated(e, true)
    case Raises(failure) => Propagated(MarshalException(failure), false)
    case Message(t) => Envelope(WithOutput(RuntimeFailureFields(t, e, trace), out, err, nonCli))
  }

  /** How the call ends once the exception `e` raised by marshalling is classified as `m`. */
  function UnmarshalledClassified(m: ErrorMessage, e: Exc, out: string, err: string, nonCli: bool): RunOutcome {
    match m
    case Reraise => Propagated(e, true)
    case Raises(failure) => Propagated(MarshalException(failure), false)
    case Message(t) => Envelope(WithOutput(ErrorFields(t), out, err, nonCli))
  }

  /** How the call ends once the return value is marshalled as `r`. */
  function Marshalled(r: Result<Value>, out: string, err: string, nonCli: bool): RunOutcome {
    match r
    case Ok(w) => Envelope(WithOutput(PassFields(w), out, err, nonCli))
    case Fail(failure) =>
      var e := MarshalException(failure);
      UnmarshalledClassified(GetErrorMessage(e, nonCli), e, out, err, nonCli)
  }

  /** How the call ends once the keyword has raised `e`, having written `out` and `err`. */
  function RaisedSpec(e: Exc, trace: seq<string>, out: string, err: string, nonCli: bool): RunOutcome {
    if !IsRuntimeError(e.cls) then Propagated(e, false)
    else RaisedClassified(GetErrorMessage(e, nonCli), e, trace, out, err, nonCli)
  }

  /** How the call ends once the keyword has returned `v`, having written `out` and `err`. */
  function ReturnedSpec(v: Value, out: string, err: string, nonCli: bool): RunOutcome {
    Marshalled(HandleReturnValue(v, nonCli), out, err, nonCli)
  }

  /** How the call ends once the keyword has been called. */
  function CallSpec(inv: Invocation, nonCli: bool): RunOutcome {
    match inv.outcome
    case Raised(e, trace) => RaisedSpec(e, trace, inv.out, inv.err, nonCli)
    case Returned(v) => ReturnedSpec(v, inv.out, inv.err, nonCli)
  }

  /** The specification of `run_keyword`: the result dictionary or the escaping exception. */
  function RunSpec(lib: Library, name: string, args: seq<Value>, kwargs: Option<map<string, Value>>,
                   call: Behaviour, nonCli: bool): RunOutcome
  {
    match Invoke(lib, name, args, kwargs, call)
    case None => Propagated(NotCallable, false)
    case Some(inv) => CallSpec(inv, nonCli)
  }

  /** What the keyword wrote to stdout and stderr (nothing when the name does not resolve). */
  function Written(lib: Library, name: string, args: seq<Value>, kwargs: Option<map<string, Value>>,
                          call: Behaviour): (string, string)
  {
    match Invoke(lib, name, args, kwargs, call)
    case None => ("", "")
    case Some(inv) => (inv.out, inv.err)
  }

  /**
   * The state after a call that ends as `spec` says: either the result
   * dictionary is returned and the streams are restored and empty, or the
   * exception escapes, with the streams restored or still holding the
   * captured `out` and `err`.
   */
  predicate EndedAs(spec: RunOutcome, entries: map<string, Value>, raised: Option<Exc>,
                    intercepted: bool, stdout: string, stderr: string, out: string, err: string)
  {
    && (raised.None? <==> spec.Envelope?)
    && (spec.Envelope? ==> entries == spec.fields && !intercepted && stdout == "" && stderr == "")
    && (spec.Propagated? ==> raised == Some(spec.exc) && intercepted == !spec.restored)
    && (spec.Propagated? && !spec.restored ==> stdout == out && stderr == err)
    && (spec.Propagated? && spec.restored ==> stdout == "" && stderr == "")
  }

  /**
   * The adapter: `ldtp` is the wrapped library, `sys` the interpreter's
   * stream state, `nonCli` whether `sys.platform != 'cli'`.
   */
  class DynamicKeywords {
    const ldtp: Library
    const sys: StdStreams
    const nonCli: bool

    constructor (lib: Library, streams: StdStreams, nonCli: bool)
      ensures ldtp == lib && sys == streams && this.nonCli == nonCli
    {
      ldtp, sys, this.nonCli := lib, streams, nonCli;
    }

    /** `_get_error_message`, which restores the streams before re-raising a fatal exception. */
    method ErrorMessageOf(e: Exc) returns (m: ErrorMessage)
      requires sys.intercepted
      modifies sys
      ensures m == GetErrorMessage(e, nonCli)
      ensures sys.console == old(sys.console) && sys.consoleErr == old(sys.consoleErr)
      ensures m.Reraise? ==> !sys.intercepted && sys.stdout == "" && sys.stderr == ""
      ensures !m.Reraise? ==> sys.intercepted && sys.stdout == old(sys.stdout) && sys.stderr == old(sys.stderr)
    {
      m := GetErrorMessage(e, nonCli);
      if m.Reraise? {
        var _ := sys.Restore(nonCli);
      }
    }

    /** The tail of `run_keyword`: `_restore_std_streams` and adding its text as `output`. */
    method Finish(result: ResultDict)
      requires sys.intercepted
      modifies sys, result
      ensures result.entries == WithOutput(old(result.entries), old(sys.stdout), old(sys.stderr), nonCli)
      ensures !sys.intercepted && sys.stdout == "" && sys.stderr == ""
      ensures sys.console == old(sys.console) && sys.consoleErr == old(sys.consoleErr)
    {
      var output := sys.Restore(nonCli);
      result.Add("output", output);
    }

    /** The `except RuntimeError` branch of `run_keyword`, then its tail. */
    method CompleteRaised(e: Exc, trace: seq<string>, result: ResultDict) returns (raised: Option<Exc>)
      requires sys.intercepted && result.entries == map["status" := Str("FAIL")]
      modifies sys, result
      ensures EndedAs(RaisedSpec(e, trace, old(sys.stdout), old(sys.stderr), nonCli), result.entries, raised,
                      sys.intercepted, sys.stdout, sys.stderr, old(sys.stdout), old(sys.stderr))
      ensures sys.console == old(sys.console) && sys.consoleErr == old(sys.consoleErr)
    {
      if !IsRuntimeError(e.cls) {
        return Some(e);
      }
      var m := ErrorMessageOf(e);
      if m.Reraise? {
        return Some(e);
      }
      if m.Raises? {
        return Some(MarshalException(m.error));
      }
      result.Add("error", m.text);
      result.Add("traceback", Str(ErrorTraceback(trace)));
      result.Add("continuable", Bool(ErrorAttribute(e, "CONTINUE")));
      result.Add("fatal", Bool(ErrorAttribute(e, "EXIT")));
      Finish(result);
      raised := None;
    }

    /** The normal-return branch of `run_keyword` with its bare `except`, then its tail. */
    method CompleteReturned(v: Value, result: ResultDict) returns (raised: Option<Exc>)
      requires sys.intercepted && result.entries == map["status" := Str("FAIL")]
      modifies sys, result
      ensures EndedAs(ReturnedSpec(v, old(sys.stdout), old(sys.stderr), nonCli), result.entries, raised,
                      sys.intercepted, sys.stdout, sys.stderr, old(sys.stdout), old(sys.stderr))
      ensures sys.console == old(sys.console) && sys.consoleErr == old(sys.consoleErr)
    {
      var r := HandleReturnValue(v, nonCli);
      if r.Ok? {
        result.Add("return", r.value);
        result.Set("status", Str("PASS"));
      } else {
        var e := MarshalException(r.error);
        var m := ErrorMessageOf(e);
        if m.Reraise? {
          return Some(e);
        }
        if m.Raises? {
          return Some(MarshalException(m.error));
        }
        result.Add("error", m.text);
      }
      Finish(result);
      raised := None;
    }

    /** `run_keyword(name, args, kwargs)`; `raised` is the exception that escapes, if any. */
    method RunKeyword(name: string, args: seq<Value>, kwargs: Option<map<string, Value>>, call: Behaviour)
      returns (result: ResultDict, raised: Option<Exc>)
      modifies sys
      ensures fresh(result)
      ensures var (out, err) := Written(ldtp, name, args, kwargs, call);
        EndedAs(RunSpec(ldtp, name, args, kwargs, call, nonCli), result.entries, raised,
                sys.intercepted, sys.stdout, sys.stderr, out, err)
      ensures sys.console == old(sys.console) && sys.consoleErr == old(sys.consoleErr)
    {
      var (a, kw) := HandleBinaryArgs(args, kwargs.GetOr(map[]));
      result := new ResultDict("FAIL");
      sys.Intercept();
      var k := GetKeyword(ldtp, name);
      if k.None? {
        raised := Some(NotCallable);
        return;
      }
      var inv := call(name, k.value, a, kw);
      assert Invoke(ldtp, name, args, kwargs, call) == Some(inv);
      sys.WriteOut(inv.out);
      sys.WriteErr(inv.err);
      assert sys.stdout == inv.out && sys.stderr == inv.err;
      assert RunSpec(ldtp, name, args, kwargs, call, nonCli) == CallSpec(inv, nonCli);
      match inv.outcome {
        case Raised(e, trace) =>
          raised := CompleteRaised(e, trace, result);
        case Returned(v) =>
          raised := CompleteReturned(v, result);
      }
    }
  }

  // ----- lemmas about run_keyword -----

  /** The keys `_add_to_result(result, 'output', ...)` adds: none when nothing was written. */
  function OutputKey(out: string, err: string): set<string> {
    if out == "" && err == "" then {} else {"output"}
  }

  /** The keyword was found, returned normally, and its value marshalled. */
  predicate Succeeded(lib: Library, name: string, args: seq<Value>, kwargs: Option<map<string, Value>>,
                      call: Behaviour, nonCli: bool)
  {
    var inv := Invoke(lib, name, args, kwargs, call);
    && inv.Some? && inv.value.outcome.Returned?
    && HandleReturnValue(inv.value.outcome.value, nonCli).Ok?
  }

  /** The `output` entry holds the captured text exactly when something was written. */
  lemma OutputEntry(fields: map<string, Value>, out: string, err: string, nonCli: bool)
    requires "output" !in fields
    ensures var r := WithOutput(fields, out, err, nonCli);
      && r.Keys == fields.Keys + OutputKey(out, err)
      && (forall k :: k in fields ==> r[k] == fields[k])
      && ("output" in r <==> out != "" || err != "")
      && ("output" in r ==> r["output"] == CapturedOutput(out, err, nonCli))
  {
    CapturedOutputEmptyIff(out, err, nonCli);
  }

  /** With a non-empty message every field of a failure is present: the traceback has its header and the markers are booleans. */
  lemma RuntimeFailureKeys(m: Value, e: Exc, trace: seq<string>)
    requires !IsEmptyText(m)
    ensures var f := RuntimeFailureFields(m, e, trace);
      && f.Keys == {"status", "error", "traceback", "continuable", "fatal"}
      && f["status"] == Str("FAIL") && f["error"] == m
      && f["traceback"] == Str(ErrorTraceback(trace))
      && f["continuable"] == Bool(ErrorAttribute(e, "CONTINUE"))
      && f["fatal"] == Bool(ErrorAttribute(e, "EXIT"))
  {
    assert |ErrorTraceback(trace)| >= |TracebackHeader|;
  }

  /**
   * The `continuable` and `fatal` fields of a failure are `True` exactly when
   * the exception carries its `ROBOT_CONTINUE_ON_FAILURE` or
   * `ROBOT_EXIT_ON_FAILURE` marker with a true value; an unset marker is sent
   * as `False`.
   */
  lemma FailureMarkers(m: Value, e: Exc, trace: seq<string>)
    requires !IsEmptyText(m)
    ensures var f := RuntimeFailureFields(m, e, trace);
      && (f["continuable"] == Bool(true) <==>
            "ROBOT_CONTINUE_ON_FAILURE" in e.attrs && e.attrs["ROBOT_CONTINUE_ON_FAILURE"])
      && (f["fatal"] == Bool(true) <==>
            "ROBOT_EXIT_ON_FAILURE" in e.attrs && e.attrs["ROBOT_EXIT_ON_FAILURE"])
      && ("ROBOT_CONTINUE_ON_FAILURE" !in e.attrs ==> f["continuable"] == Bool(false))
      && ("ROBOT_EXIT_ON_FAILURE" !in e.attrs ==> f["fatal"] == Bool(false))
  {
    RuntimeFailureKeys(m, e, trace);
    MarkerAttributes(e);
  }

  /** A classified `RuntimeError` gives `FAIL` with every failure field, plus the output if any. */
  lemma RaisedFields(t: Value, e: Exc, trace: seq<string>, out: string, err: string, nonCli: bool)
    requires !IsEmptyText(t)
    ensures var spec := RaisedClassified(Message(t), e, trace, out, err, nonCli);
      && spec.Envelope?
      && spec.fields.Keys == {"status", "error", "traceback", "continuable", "fatal"} + OutputKey(out, err)
      && spec.fields["status"] == Str("FAIL")
      && spec.fields["error"] == t
      && spec.fields["traceback"] == Str(ErrorTraceback(trace))
      && spec.fields["continuable"] == Bool(ErrorAttribute(e, "CONTINUE"))
      && spec.fields["fatal"] == Bool(ErrorAttribute(e, "EXIT"))
  {
    RuntimeFailureKeys(t, e, trace);
    OutputEntry(RuntimeFailureFields(t, e, trace), out, err, nonCli);
  }

  /** A marshalling failure gives `FAIL` with only the message `Name: text` of its exception, plus the output if any. */
  lemma UnmarshalledFields(failure: MarshalError, out: string, err: string, nonCli: bool)
    ensures var spec := Marshalled(Fail(failure), out, err, nonCli);
      && spec.Envelope?
      && spec.fields.Keys == {"status", "error"} + OutputKey(out, err)
      && spec.fields["status"] == Str("FAIL")
      && spec.fields["error"] == Unicode(MarshalErrorName(failure) + ": " + MarshalText(failure))
  {
    MarshalFailureMessage(failure, nonCli);
    var t := Unicode(MarshalErrorName(failure) + ": " + MarshalText(failure));
    assert Marshalled(Fail(failure), out, err, nonCli) == Envelope(WithOutput(ErrorFields(t), out, err, nonCli));
    OutputEntry(ErrorFields(t), out, err, nonCli);
  }

  /** A marshalled value gives `PASS`, `return` unless the value is `''`, plus the output if any. */
  lemma PassedFields(w: Value, out: string, err: string, nonCli: bool)
    ensures var spec := Marshalled(Ok(w), out, err, nonCli);
      && spec.Envelope?
      && spec.fields.Keys == {"status"} + (if IsEmptyText(w) then {} else {"return"}) + OutputKey(out, err)
      && spec.fields["status"] == Str("PASS")
      && ("return" in spec.fields <==> !IsEmptyText(w))
      && ("return" in spec.fields ==> spec.fields["return"] == w)
  {
    OutputEntry(PassFields(w), out, err, nonCli);
  }

  /** Once the keyword resolves, the call ends as the invocation says. */
  lemma RunSpecInvoked(lib: Library, name: string, args: seq<Value>, kwargs: Option<map<string, Value>>,
                       call: Behaviour, nonCli: bool, inv: Invocation)
    requires Invoke(lib, name, args, kwargs, call) == Some(inv)
    ensures RunSpec(lib, name, args, kwargs, call, nonCli) == CallSpec(inv, nonCli)
  {
  }

  /** A dictionary built after the keyword raised says `FAIL`, whatever the message is. */
  lemma RaisedStatus(m: ErrorMessage, e: Exc, trace: seq<string>, out: string, err: string, nonCli: bool)
    requires RaisedClassified(m, e, trace, out, err, nonCli).Envelope?
    ensures var f := RaisedClassified(m, e, trace, out, err, nonCli).fields;
      "status" in f && f["status"] == Str("FAIL")
  {
    var f := RuntimeFailureFields(m.text, e, trace);
    assert "status" in f && f["status"] == Str("FAIL") by {
      var r := AddedTo(map["status" := Str("FAIL")], "error", m.text);
      assert r["status"] == Str("FAIL");
    }
    OutputEntry(f, out, err, nonCli);
  }

  /** A dictionary is returned that says `PASS` exactly when the keyword returned a value that could be marshalled, and `FAIL` otherwise. */
  lemma StatusReflectsOutcome(lib: Library, name: string, args: seq<Value>, kwargs: Option<map<string, Value>>,
                              call: Behaviour, nonCli: bool)
    requires RunSpec(lib, name, args, kwargs, call, nonCli).Envelope?
    ensures var f := RunSpec(lib, name, args, kwargs, call, nonCli).fields;
      && "status" in f
      && (f["status"] == Str("PASS") || f["status"] == Str("FAIL"))
      && (f["status"] == Str("PASS") <==> Succeeded(lib, name, args, kwargs, call, nonCli))
  {
    var inv := Invoke(lib, name, args, kwargs, call).value;
    match inv.outcome
    case Raised(e, trace) =>
      var m := GetErrorMessage(e, nonCli);
      assert RunSpec(lib, name, args, kwargs, call, nonCli) == RaisedClassified(m, e, trace, inv.out, inv.err, nonCli);
      RaisedStatus(m, e, trace, inv.out, inv.err, nonCli);
    case Returned(v) =>
      var r := HandleReturnValue(v, nonCli);
      assert RunSpec(lib, name, args, kwargs, call, nonCli) == Marshalled(r, inv.out, inv.err, nonCli);
      if r.Ok? {
        PassedFields(r.value, inv.out, inv.err, nonCli);
      } else {
        UnmarshalledFields(r.error, inv.out, inv.err, nonCli);
      }
  }

  /**
   * A `RuntimeError` (or subclass) raised by the keyword is never re-raised
   * as fatal; when its message passes the binary check the call fails with
   * the message, the traceback and both markers and no `return`; otherwise
   * the `ValueError` of the binary check escapes with the streams still captured.
   */
  lemma RuntimeErrorFails(lib: Library, name: string, args: seq<Value>, kwargs: Option<map<string, Value>>,
                          call: Behaviour, nonCli: bool, inv: Invocation, e: Exc, trace: seq<string>)
    requires Invoke(lib, name, args, kwargs, call) == Some(inv)
    requires inv.outcome == Raised(e, trace) && IsRuntimeError(e.cls) && Name(e.cls) != ""
    ensures !GetErrorMessage(e, nonCli).Reraise?
    ensures GetErrorMessage(e, nonCli).Raises? ==>
      RunSpec(lib, name, args, kwargs, call, nonCli) == Propagated(MarshalException(GetErrorMessage(e, nonCli).error), false)
    ensures GetErrorMessage(e, nonCli).Message? ==>
      var spec := RunSpec(lib, name, args, kwargs, call, nonCli);
      && spec.Envelope?
      && spec.fields.Keys == {"status", "error", "traceback", "continuable", "fatal"} + OutputKey(inv.out, inv.err)
      && spec.fields["status"] == Str("FAIL")
      && spec.fields["error"] == GetErrorMessage(e, nonCli).text
      && spec.fields["traceback"] == Str(ErrorTraceback(trace))
      && spec.fields["continuable"] == Bool(ErrorAttribute(e, "CONTINUE"))
      && spec.fields["fatal"] == Bool(ErrorAttribute(e, "EXIT"))
  {
    var m := GetErrorMessage(e, nonCli);
    assert RunSpec(lib, name, args, kwargs, call, nonCli) == RaisedClassified(m, e, trace, inv.out, inv.err, nonCli);
    if m.Message? {
      MessageNotEmpty(e, nonCli);
      RaisedFields(m.text, e, trace, inv.out, inv.err, nonCli);
    }
  }

  /**
   * A return value that cannot be marshalled does not escape: the call fails
   * with just the message of the exception marshalling raised (and the output,
   * if any): `ValueError` from the binary check, `UnicodeDecodeError` from
   * `unicode()` of a `Binary`, or `TypeError` from a `Binary` dict key.
   */
  lemma MarshalFailureFails(lib: Library, name: string, args: seq<Value>, kwargs: Option<map<string, Value>>,
                            call: Behaviour, nonCli: bool, inv: Invocation, v: Value)
    requires Invoke(lib, name, args, kwargs, call) == Some(inv)
    requires inv.outcome == Returned(v) && HandleReturnValue(v, nonCli).Fail?
    ensures var failure := HandleReturnValue(v, nonCli).error;
      var spec := RunSpec(lib, name, args, kwargs, call, nonCli);
      && spec.Envelope?
      && spec.fields.Keys == {"status", "error"} + OutputKey(inv.out, inv.err)
      && spec.fields["status"] == Str("FAIL")
      && spec.fields["error"] == Unicode(MarshalErrorName(failure) + ": " + MarshalText(failure))
  {
    var r := HandleReturnValue(v, nonCli);
    assert RunSpec(lib, name, args, kwargs, call, nonCli) == Marshalled(r, inv.out, inv.err, nonCli);
    UnmarshalledFields(r.error, inv.out, inv.err, nonCli);
  }

  /**
   * A marshalled return value passes: the dictionary holds `PASS`, the
   * wire-safe value under `return` unless it is `''`, and the output, if any.
   */
  lemma ReturnPasses(lib: Library, name: string, args: seq<Value>, kwargs: Option<map<string, Value>>,
                     call: Behaviour, nonCli: bool, inv: Invocation, v: Value)
    requires Invoke(lib, name, args, kwargs, call) == Some(inv)
    requires inv.outcome == Returned(v) && HandleReturnValue(v, nonCli).Ok?
    ensures var w := HandleReturnValue(v, nonCli).value;
      var spec := RunSpec(lib, name, args, kwargs, call, nonCli);
      && spec.Envelope?
      && spec.fields.Keys == {"status"} + (if IsEmptyText(w) then {} else {"return"}) + OutputKey(inv.out, inv.err)
      && spec.fields["status"] == Str("PASS")
      && ("return" in spec.fields ==> spec.fields["return"] == w && WireSafe(w, nonCli))
  {
    var r := HandleReturnValue(v, nonCli);
    assert RunSpec(lib, name, args, kwargs, call, nonCli) == Marshalled(r, inv.out, inv.err, nonCli);
    MarshalledIsWireSafe(v, nonCli);
    PassedFields(r.value, inv.out, inv.err, nonCli);
  }

  /**
   * Exceptions that are not `RuntimeError`s, `SystemExit` and `KeyboardInterrupt`
   * among them, and the `TypeError` of calling an unknown name, escape while
   * the streams are still captured.
   */
  lemma EscapesUnrestored(lib: Library, name: string, args: seq<Value>, kwargs: Option<map<string, Value>>,
                          call: Behaviour, nonCli: bool)
    ensures !IsFunctionOrMethod(lib, name) ==>
      RunSpec(lib, name, args, kwargs, call, nonCli) == Propagated(NotCallable, false)
    ensures var inv := Invoke(lib, name, args, kwargs, call);
      inv.Some? && inv.value.outcome.Raised? && !IsRuntimeError(inv.value.outcome.exc.cls) ==>
        RunSpec(lib, name, args, kwargs, call, nonCli) == Propagated(inv.value.outcome.exc, false)
  {
  }

  /** A library with the single function `add(a, b)`. */
  const Calculator := Library(["__doc__", "add"],
                              map["add" := Routine(Keyword(Function, Signature(["a", "b"], [], None, None), None))],
                              None, true)

  /** `add` adds two integers and writes nothing. */
  function Add(name: string, k: Keyword, a: seq<Value>, kw: map<string, Value>): Invocation {
    if |a| == 2 && a[0].Int? && a[1].Int? then Invocation("", "", Returned(Int(a[0].i + a[1].i)))
    else Invocation("", "", Raised(Exc(TypeErrorType, Some("add() takes exactly 2 arguments"), "", map[]), []))
  }

  /** `run_keyword('add', [2, 3])` gives `{'status': 'PASS', 'return': 5}`. */
  lemma AddPasses(nonCli: bool)
    ensures RunSpec(Calculator, "add", [Int(2), Int(3)], None, Add, nonCli)
      == Envelope(map["status" := Str("PASS"), "return" := Int(5)])
  {
    assert GetKeyword(Calculator, "add").Some?;
    assert NativeArgs([Int(2), Int(3)], None).0 == [Int(2), Int(3)];
    var inv := Invocation("", "", Returned(Int(5)));
    assert Invoke(Calculator, "add", [Int(2), Int(3)], None, Add) == Some(inv);
    RunSpecInvoked(Calculator, "add", [Int(2), Int(3)], None, Add, nonCli, inv);
    NumbersUnchanged(Int(5), nonCli);
    assert CallSpec(inv, nonCli) == Marshalled(Ok(Int(5)), "", "", nonCli);
    PassedFields(Int(5), "", "", nonCli);
  }

  /** `RuntimeError('boom')` marked `ROBOT_CONTINUE_ON_FAILURE`. */
  const BoomError := Exc(RuntimeErrorType, Some("boom"), "boom", map["ROBOT_CONTINUE_ON_FAILURE" := true])

  /** A traceback whose first entry is the adapter's own frame. */
  const BoomTrace := ["adapter frame", "keyword frame"]

  /** A keyword that raises `BoomError` and writes nothing. */
  function Boom(name: string, k: Keyword, a: seq<Value>, kw: map<string, Value>): Invocation {
    Invocation("", "", Raised(BoomError, BoomTrace))
  }

  /** `BoomError` is generic, so its message is the bare text. */
  lemma BoomMessage(nonCli: bool)
    ensures GetErrorMessage(BoomError, nonCli) == Message(Unicode("boom"))
  {
    PlainMessage(BoomError, "boom", nonCli);
  }

  /** The markers of `BoomError` and its traceback without the adapter's frame. */
  lemma BoomMarkers()
    ensures ErrorAttribute(BoomError, "CONTINUE") && !ErrorAttribute(BoomError, "EXIT")
    ensures ErrorTraceback(BoomTrace) == TracebackHeader + "keyword frame"
  {
    TracebackDropsFirst("adapter frame", ["keyword frame"]);
    assert Concat(["keyword frame"]) == "keyword frame";
    assert "ROBOT_" + "CONTINUE" + "_ON_FAILURE" == "ROBOT_CONTINUE_ON_FAILURE";
    assert "ROBOT_" + "EXIT" + "_ON_FAILURE" != "ROBOT_CONTINUE_ON_FAILURE";
  }

  /** The marked failure is continuable; `fatal` is present and false. */
  lemma ContinuableFailure(nonCli: bool)
    ensures var spec := RunSpec(Calculator, "add", [], None, Boom, nonCli);
      && spec.Envelope?
      && spec.fields.Keys == {"status", "error", "traceback", "continuable", "fatal"}
      && spec.fields["status"] == Str("FAIL")
      && spec.fields["error"] == Unicode("boom")
      && spec.fields["traceback"] == Str(TracebackHeader + "keyword frame")
      && spec.fields["continuable"] == Bool(true)
      && spec.fields["fatal"] == Bool(false)
  {
    BoomClassified(nonCli);
    BoomMarkers();
    RaisedFields(Unicode("boom"), BoomError, BoomTrace, "", "", nonCli);
  }

  /** Calling `Boom` as `add` ends as the classified `RuntimeError` with the message `boom` and no output. */
  lemma BoomClassified(nonCli: bool)
    ensures RunSpec(Calculator, "add", [], None, Boom, nonCli)
      == RaisedClassified(Message(Unicode("boom")), BoomError, BoomTrace, "", "", nonCli)
  {
    assert GetKeyword(Calculator, "add").Some?;
    var inv := Invocation("", "", Raised(BoomError, BoomTrace));
    assert Invoke(Calculator, "add", [], None, Boom) == Some(inv);
    RunSpecInvoked(Calculator, "add", [], None, Boom, nonCli, inv);
    BoomMessage(nonCli);
  }

  /** The signature `(a, b)` of an undocumented function. */
  const PairKeyword := Keyword(Function, Signature(["a", "b"], [], None, None), None)

  /** A library with two functions of the same signature, `add(a, b)` and `sub(a, b)`. */
  const Arithmetic := Library(["add", "sub"], map["add" := Routine(PairKeyword), "sub" := Routine(PairKeyword)],
                              None, true)

  /** `add` adds and `sub` subtracts two integers; neither writes anything. */
  function AddOrSub(name: string, k: Keyword, a: seq<Value>, kw: map<string, Value>): Invocation {
    if |a| == 2 && a[0].Int? && a[1].Int? then
      Invocation("", "", Returned(Int(if name == "sub" then a[0].i - a[1].i else a[0].i + a[1].i)))
    else Invocation("", "", Raised(Exc(TypeErrorType, Some("takes exactly 2 arguments"), "", map[]), []))
  }

  /** `run_keyword(name, [2, 3])` on the resolved keyword `name`, which returns `r` and writes nothing. */
  lemma PairReturns(name: string, r: int, nonCli: bool)
    requires name == "add" || name == "sub"
    requires r == (if name == "sub" then -1 else 5)
    ensures RunSpec(Arithmetic, name, [Int(2), Int(3)], None, AddOrSub, nonCli)
      == Envelope(map["status" := Str("PASS"), "return" := Int(r)])
  {
    assert GetKeyword(Arithmetic, name) == Some(PairKeyword);
    assert NativeArgs([Int(2), Int(3)], None).0 == [Int(2), Int(3)];
    var inv := Invocation("", "", Returned(Int(r)));
    assert Invoke(Arithmetic, name, [Int(2), Int(3)], None, AddOrSub) == Some(inv);
    RunSpecInvoked(Arithmetic, name, [Int(2), Int(3)], None, AddOrSub, nonCli, inv);
    NumbersUnchanged(Int(r), nonCli);
    assert CallSpec(inv, nonCli) == Marshalled(Ok(Int(r)), "", "", nonCli);
    PassedFields(Int(r), "", "", nonCli);
  }

  /**
   * Two keywords with the same signature are told apart by name: `add(2, 3)`
   * returns 5 and `sub(2, 3)` returns -1.
   */
  lemma SameSignatureDistinct(nonCli: bool)
    ensures RunSpec(Arithmetic, "add", [Int(2), Int(3)], None, AddOrSub, nonCli)
      == Envelope(map["status" := Str("PASS"), "return" := Int(5)])
    ensures RunSpec(Arithmetic, "sub", [Int(2), Int(3)], None, AddOrSub, nonCli)
      == Envelope(map["status" := Str("PASS"), "return" := Int(-1)])
  {
    PairReturns("add", 5, nonCli);
    PairReturns("sub", -1, nonCli);
  }
}
