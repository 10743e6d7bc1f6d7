/**
 * Classification of a raised exception: the error message, the traceback
 * text and the `ROBOT_*_ON_FAILURE` markers taken from the exception.
 */
module Errors {
  import opened Wrappers
  import opened Values
  import opened Reprs

  /** The class of an exception, as far as the adapter tells classes apart. */
  datatype ExcClass =
    | AssertionErrorType
    | RuntimeErrorType
    | ExceptionType
    | SystemExitType
    | KeyboardInterruptType
    | ValueErrorType
    | TypeErrorType
    | RuntimeErrorSubclass(name: string)  // e.g. NotImplementedError
    | OtherType(name: string)

  /** `exc_type.__name__`. */
  function Name(c: ExcClass): string {
    match c
    case AssertionErrorType => "AssertionError"
    case RuntimeErrorType => "RuntimeError"
    case ExceptionType => "Exception"
    case SystemExitType => "SystemExit"
    case KeyboardInterruptType => "KeyboardInterrupt"
    case ValueErrorType => "ValueError"
    case TypeErrorType => "TypeError"
    case RuntimeErrorSubclass(n) => n
    case OtherType(n) => n
  }

  /** Caught by `except RuntimeError`: the class itself or a subclass of it. */
  predicate IsRuntimeError(c: ExcClass) {
    c.RuntimeErrorType? || c.RuntimeErrorSubclass?
  }

  /** `exc_type in _fatal_exceptions`: exactly `SystemExit` or `KeyboardInterrupt`. */
  predicate IsFatal(c: ExcClass) {
    c.SystemExitType? || c.KeyboardInterruptType?
  }

  /** `exc_type in _generic_exceptions`: exactly `AssertionError`, `RuntimeError` or `Exception`. */
  predicate IsGeneric(c: ExcClass) {
    c.AssertionErrorType? || c.RuntimeErrorType? || c.ExceptionType?
  }

  /**
   * A raised exception. `text` is what `unicode(value)` gives, `None` when
   * that raises `UnicodeError`; `fallback` is then the space-joined byte
   * string of its arguments. `attrs` holds the truth value of every attribute
   * set on the exception value, such as `ROBOT_SUPPRESS_NAME`.
   */
  datatype Exc = Exc(cls: ExcClass, text: Option<string>, fallback: string, attrs: map<string, bool>)

  /** `getattr(value, attr, False)`, taken as a truth value. */
  predicate Attribute(e: Exc, attr: string) {
    attr in e.attrs && e.attrs[attr]
  }

  /** `_get_error_attribute(value, name)`: the `ROBOT_<name>_ON_FAILURE` marker, `False` when unset. */
  function ErrorAttribute(e: Exc, name: string): bool {
    Attribute(e, "ROBOT_" + name + "_ON_FAILURE")
  }

  /** The two markers `run_keyword` reads are the attributes `ROBOT_CONTINUE_ON_FAILURE` and `ROBOT_EXIT_ON_FAILURE`. */
  lemma MarkerAttributes(e: Exc)
    ensures ErrorAttribute(e, "CONTINUE") == Attribute(e, "ROBOT_CONTINUE_ON_FAILURE")
    ensures ErrorAttribute(e, "EXIT") == Attribute(e, "ROBOT_EXIT_ON_FAILURE")
  {
    assert "ROBOT_" + "CONTINUE" + "_ON_FAILURE" == "ROBOT_CONTINUE_ON_FAILURE";
    assert "ROBOT_" + "EXIT" + "_ON_FAILURE" == "ROBOT_EXIT_ON_FAILURE";
  }

  /** `_get_message_from_exception`: the exception's text after the binary check. */
  function MessageFromException(e: Exc, nonCli: bool): Result<Value> {
    HandleBinaryResult(if e.text.Some? then Unicode(e.text.value) else Str(e.fallback), nonCli)
  }

  /** What `_get_error_message` does: re-raise, raise from the binary check, or return a message. */
  datatype ErrorMessage = Reraise | Raises(error: MarshalError) | Message(text: Value)

  /** `'%s: %s' % (name, message)`; a `Binary` message is rendered by its bytes. */
  function Prefixed(name: string, m: Value): Value {
    match m
    case Unicode(u) => Unicode(name + ": " + u)
    case Binary(d) => Str(name + ": " + d)
    case _ => Str(name + ": " + (if m.Str? then m.s else Display(m)))
  }

  /**
   * `_get_error_message`: fatal exceptions are re-raised (the caller restores
   * the streams first); an empty message gives the bare class name; generic
   * classes and exceptions marked `ROBOT_SUPPRESS_NAME` give the bare message;
   * anything else gives `Name: message`.
   */
  function GetErrorMessage(e: Exc, nonCli: bool): ErrorMessage {
    if IsFatal(e.cls) then Reraise
    else match MessageFromException(e, nonCli)
      case Fail(err) => Raises(err)
      case Ok(m) =>
        if IsEmptyText(m) then Message(Str(Name(e.cls)))
        else if IsGeneric(e.cls) || Attribute(e, "ROBOT_SUPPRESS_NAME") then Message(m)
        else Message(Prefixed(Name(e.cls), m))
  }

  const TracebackHeader := "Traceback (most recent call last):\n"

  function Concat(parts: seq<string>): string {
    if parts == [] then "" else parts[0] + Concat(parts[1..])
  }

  /**
   * `_get_error_traceback`: the formatted entries of the traceback without the
   * first one (the adapter's own frame), under the standard header.
   */
  function ErrorTraceback(entries: seq<string>): string {
    TracebackHeader + Concat(if entries == [] then [] else entries[1..])
  }

  // ----- the ValueError raised by marshalling -----

  /**
   * The exception marshalling raises: the `ValueError("Cannot represent %r as
   * binary." % result)` of `_handle_binary_result`, the `UnicodeDecodeError`
   * of `unicode()` on a non-ASCII `Binary`, or the `TypeError` of `dict()`
   * given a `Binary` key.
   */
  function MarshalException(err: MarshalError): Exc {
    var msg := MarshalText(err);
    match err
    case CannotRepresentAsBinary(_) => Exc(ValueErrorType, Some(msg), msg, map[])
    case CannotDecode(_, _) => Exc(OtherType("UnicodeDecodeError"), Some(msg), msg, map[])
    case UnhashableKey => Exc(TypeErrorType, Some(msg), msg, map[])
  }

  /** The text of the exception marshalling raises. */
  function MarshalText(err: MarshalError): string {
    match err
    case CannotRepresentAsBinary(t) => "Cannot represent " + TextRepr(t, true) + " as binary."
    case CannotDecode(b, p) =>
      "'ascii' codec can't decode byte 0x" + Hex(b, 2) + " in position " + DigitsOf(p) + ": ordinal not in range(128)"
    case UnhashableKey => "unhashable instance"
  }

  // ----- lemmas -----

  /** The `ValueError` text is printable ASCII: `repr` escapes everything else. */
  lemma ReprTextPrintable(t: string)
    ensures Printable(MarshalText(CannotRepresentAsBinary(t)))
  {
    TextReprPrintable(t, true);
    PrintableConcat("Cannot represent ", TextRepr(t, true));
    PrintableConcat("Cannot represent " + TextRepr(t, true), " as binary.");
  }

  /** The `UnicodeDecodeError` text is printable ASCII: the byte is in hexadecimal, the position in decimal. */
  lemma DecodeTextPrintable(b: nat, p: nat)
    ensures Printable(MarshalText(CannotDecode(b, p)))
  {
    var h, n := Hex(b, 2), DigitsOf(p);
    var s1, s2, s3 := "'ascii' codec can't decode byte 0x", " in position ", ": ordinal not in range(128)";
    HexPrintable(b, 2);
    DigitsPrintable(p);
    assert Printable(s1) && Printable(s2) && Printable(s3);
    PrintableConcat(s1, h);
    PrintableConcat(s1 + h, s2);
    PrintableConcat(s1 + h + s2, n);
    PrintableConcat(s1 + h + s2 + n, s3);
  }

  /** The text of every exception marshalling raises is printable ASCII. */
  lemma MarshalTextPrintable(err: MarshalError)
    ensures Printable(MarshalText(err))
  {
    match err
    case CannotRepresentAsBinary(t) => ReprTextPrintable(t);
    case CannotDecode(b, p) => DecodeTextPrintable(b, p);
    case UnhashableKey =>
  }

  /** The text of the exception marshalling raises passes the binary check unchanged. */
  lemma MarshalTextPasses(err: MarshalError, nonCli: bool)
    ensures MessageFromException(MarshalException(err), nonCli) == Ok(Unicode(MarshalText(err)))
  {
    MarshalTextPrintable(err);
    PrintableTextUnchanged(Unicode(MarshalText(err)), nonCli);
  }

  /** The class name of the exception marshalling raises. */
  function MarshalErrorName(err: MarshalError): string {
    match err
    case CannotRepresentAsBinary(_) => "ValueError"
    case CannotDecode(_, _) => "UnicodeDecodeError"
    case UnhashableKey => "TypeError"
  }

  /**
   * The message of a marshalling failure is itself safe to send: classifying
   * it never re-raises and never raises again, and it reads `Name: text`, as in
   * `ValueError: Cannot represent ... as binary.`, for a class that is neither
   * fatal nor generic nor a `RuntimeError`.
   */
  lemma MarshalFailureMessage(err: MarshalError, nonCli: bool)
    ensures var e := MarshalException(err);
      && !IsRuntimeError(e.cls) && Name(e.cls) == MarshalErrorName(err)
      && GetErrorMessage(e, nonCli) == Message(Unicode(MarshalErrorName(err) + ": " + MarshalText(err)))
      && !IsEmptyText(GetErrorMessage(e, nonCli).text)
  {
    var e := MarshalException(err);
    MarshalTextPasses(err, nonCli);
    MarshalTextNotEmpty(err);
    assert e.cls in {ValueErrorType, TypeErrorType, OtherType("UnicodeDecodeError")} && e.attrs == map[];
    NamedMessage(e, MarshalText(err), nonCli);
  }

  /** The text of a marshalling exception is never empty. */
  lemma MarshalTextNotEmpty(err: MarshalError)
    ensures MarshalText(err) != ""
  {
    match err
    case CannotRepresentAsBinary(_) => assert MarshalText(err)[0] == 'C';
    case CannotDecode(_, _) => assert MarshalText(err)[0] == '\'';
    case UnhashableKey =>
  }

  /** A class that is neither fatal nor generic, without a suppressed name, prefixes its non-empty text with its name. */
  lemma NamedMessage(e: Exc, msg: string, nonCli: bool)
    requires !IsFatal(e.cls) && !IsGeneric(e.cls) && !Attribute(e, "ROBOT_SUPPRESS_NAME")
    requires msg != "" && MessageFromException(e, nonCli) == Ok(Unicode(msg))
    ensures GetErrorMessage(e, nonCli) == Message(Unicode(Name(e.cls) + ": " + msg))
  {
  }

  /**
   * The message for an exception whose text is plain (no control characters):
   * the bare class name if the text is empty, the bare text for generic classes
   * or a suppressed name, `Name: text` otherwise; fatal classes are re-raised.
   */
  lemma PlainMessage(e: Exc, t: string, nonCli: bool)
    requires e.text == Some(t)
    requires forall i :: 0 <= i < |t| ==> !IsControl(t[i])
    ensures IsFatal(e.cls) ==> GetErrorMessage(e, nonCli) == Reraise
    ensures !IsFatal(e.cls) && t == "" ==> GetErrorMessage(e, nonCli) == Message(Str(Name(e.cls)))
    ensures !IsFatal(e.cls) && t != "" && (IsGeneric(e.cls) || Attribute(e, "ROBOT_SUPPRESS_NAME")) ==>
      GetErrorMessage(e, nonCli) == Message(Unicode(t))
    ensures !IsFatal(e.cls) && t != "" && !IsGeneric(e.cls) && !Attribute(e, "ROBOT_SUPPRESS_NAME") ==>
      GetErrorMessage(e, nonCli) == Message(Unicode(Name(e.cls) + ": " + t))
  {
    assert !HasControl(t);
    assert MessageFromException(e, nonCli) == Ok(Unicode(t));
  }

  /**
   * A message holding a control character is wrapped as `Binary` by the
   * binary check: an ASCII one is then the bare `Binary`, or `Name: text` as a
   * byte string; a non-ASCII one raises the check's `ValueError`.
   */
  lemma BinaryMessage(e: Exc, t: string, nonCli: bool)
    requires e.text == Some(t) && HasControl(t) && !IsFatal(e.cls)
    ensures AsciiEncodable(t) && (IsGeneric(e.cls) || Attribute(e, "ROBOT_SUPPRESS_NAME")) ==>
      GetErrorMessage(e, nonCli) == Message(Binary(t))
    ensures AsciiEncodable(t) && !IsGeneric(e.cls) && !Attribute(e, "ROBOT_SUPPRESS_NAME") ==>
      GetErrorMessage(e, nonCli) == Message(Str(Name(e.cls) + ": " + t))
    ensures !AsciiEncodable(t) ==> GetErrorMessage(e, nonCli) == Raises(CannotRepresentAsBinary(t))
  {
    assert ContainsBinary(Unicode(t), nonCli);
    assert t != "";
  }

  /**
   * When `unicode()` of the exception fails, the message is its fallback byte
   * string: bare for a generic class or `ROBOT_SUPPRESS_NAME`, `Name: text` otherwise.
   */
  lemma FallbackMessage(e: Exc, nonCli: bool)
    requires e.text.None? && !IsFatal(e.cls) && e.fallback != ""
    requires !HasControl(e.fallback) && !(nonCli && HasHighByte(e.fallback))
    ensures IsGeneric(e.cls) || Attribute(e, "ROBOT_SUPPRESS_NAME") ==>
      GetErrorMessage(e, nonCli) == Message(Str(e.fallback))
    ensures !IsGeneric(e.cls) && !Attribute(e, "ROBOT_SUPPRESS_NAME") ==>
      GetErrorMessage(e, nonCli) == Message(Str(Name(e.cls) + ": " + e.fallback))
  {
    assert MessageFromException(e, nonCli) == Ok(Str(e.fallback));
  }

  /** A message is never the empty string when the class has a name. */
  lemma MessageNotEmpty(e: Exc, nonCli: bool)
    requires Name(e.cls) != ""
    requires GetErrorMessage(e, nonCli).Message?
    ensures !IsEmptyText(GetErrorMessage(e, nonCli).text)
  {
  }

  /** The traceback drops exactly the first entry and is never empty. */
  lemma TracebackDropsFirst(first: string, rest: seq<string>)
    ensures ErrorTraceback([first] + rest) == TracebackHeader + Concat(rest)
    ensures ErrorTraceback([]) == TracebackHeader
    ensures ErrorTraceback([first] + rest) != ""
  {
    assert ([first] + rest)[1..] == rest;
  }
}
