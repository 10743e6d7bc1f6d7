# LDTP dynamic keywords, modelled in Dafny

This project models `LDTPDynamicKeywords`, the adapter of LDTPLibrary. The adapter
exposes the public functions of the `ldtp` GUI-automation module as keywords for
the Robot Framework remote-library protocol. It has several parts:

- It lists the keyword names.
- It looks a keyword up.
- It derives argument specifications and fetches documentation.
- It runs a keyword with its output captured, and packs the outcome into a result
  dictionary for the wire: `status`, `return`, `error`, `traceback`, `continuable`,
  `fatal` and `output`.

The modules follow the parts of the class:

- `Reprs` covers the texts Python 2 gives to numbers and strings: decimal
  digits, hexadecimal escapes, and `repr` of a byte string or of unicode text,
  with its choice of quote and its escapes.
- `Values` covers the values that cross the wire and their marshalling:
  - `_handle_binary_arg`/`_handle_binary_args`;
  - the binary check `_contains_binary`/`_handle_binary_result`, whose two regular
    expressions become character-class predicates;
  - `_str`, with `str()` of a container rendered from the `repr` of its items;
  - the recursive `_handle_return_value`.

  `sys.platform != 'cli'` is the boolean parameter `nonCli`.
- `Registry` covers `get_keyword_names`, `_is_function_or_method`/`_get_keyword`,
  `get_keyword_arguments`/`_arguments_from_kw` and `get_keyword_documentation`.
  The wrapped module is a value: its `dir()` listing, a map from attribute name
  to attribute (function, method, or anything else), its docstring, and whether
  it is a module.
- `Errors` covers the exception record and how it is classified:
  `_get_error_message`, `_get_message_from_exception`, `_get_error_traceback`,
  `_get_error_attribute`, and the three exceptions marshalling can raise: the
  `ValueError` of the binary check, the `UnicodeDecodeError` of `unicode()` on a
  `Binary` holding a byte of 0x80 or more, and the `TypeError` of `dict()` given
  an unhashable `Binary` key.
- `Streams` covers the class `StdStreams`, which stands for `sys.stdout`/`sys.stderr`.
  Its methods are `_intercept_std_streams`, `_restore_std_streams` and `_log`.
  The text `_restore_std_streams` assembles is the function `CombineOutput`.
- `Dispatcher` covers `run_keyword`:
  - the class `ResultDict`, the result dictionary updated in place by
    `_add_to_result`;
  - the class `DynamicKeywords`, whose method `RunKeyword` is proved against the
    function `RunSpec`;
  - the lemmas about the dictionary a call produces.

  Calling a keyword is a parameter of type `Behaviour`: for each keyword name,
  the keyword it resolves to and each set of native arguments, it gives what the
  keyword writes to stdout and stderr and whether it returns a value or raises
  an exception. The name is part of the key, so two functions with the same
  signature, like `add(a, b)` and `sub(a, b)`, can behave differently
  (`Dispatcher.SameSignatureDistinct`).

The model follows the code where a reader might expect something else:

- Only `RuntimeError` and its subclasses are caught around the call. Any other
  exception escapes `run_keyword` with the streams still captured, because there
  is no `finally`. This includes `SystemExit`, `KeyboardInterrupt`, and the
  `TypeError` from calling the `None` that `_get_keyword` returns for an unknown
  name (`Dispatcher.EscapesUnrestored`).
- `_restore_std_streams` adds a newline after stdout only when stderr also
  captured something. Output `hello` with nothing on stderr stays `hello`
  (`Streams.HelloWithoutNewline`).
- `get_keyword_names` filters only on the leading `_`. A public constant is listed
  as a keyword even though it cannot be called (`Registry.PlainAttributeListed`).
- `continuable` and `fatal` are stored even when `False`, because `False != ''`
  (`Dispatcher.ContinuableFailure`).
- A `RuntimeError` subclass is never fatal, so the `except RuntimeError` branch
  never re-raises (`Dispatcher.RuntimeErrorFails`). The bare `except` around
  marshalling does hand `_get_error_message` whatever marshalling raised, and a
  `SystemExit` or `KeyboardInterrupt` raised there would be re-raised after the
  streams are restored (`Dispatcher.DynamicKeywords.ErrorMessageOf`). In this
  model marshalling raises only its three exceptions, none of them fatal
  (`Errors.MarshalFailureMessage`).
- A `Binary` holding a byte of 0x80 or more cannot be returned or used as a key:
  `unicode()` of it raises `UnicodeDecodeError` (`Values.NonAsciiBinaryRefused`).
  A mapping whose key `_str` turns into `Binary` cannot be returned either,
  because `Binary` is unhashable (`Values.ControlKeyRefused`). Nested in an
  iterable, the same mapping does not fail: the `TypeError` is caught at line
  175, and the whole iterable becomes `_str` of it, the escaped text
  `[{'\\x01': 1}]` (`Values.NestedUnhashableStringified`).
- `_str` of a container is the `repr` of its items, which escapes every control
  character and every byte of 0x80 or more. So a list key such as `['\x01']`
  becomes the plain text `['\\x01']` and is kept (`Values.ContainerKeyStringified`).

## Model

| member | source | states |
|---|---|---|
| Values.HasControl | src/LDTPLibrary/keywords/keywords.py:35 | the text holds a character of `[\x00-\x08\x0B\x0C\x0E-\x1F]` exactly when some position does |
| Values.HasHighByte | src/LDTPLibrary/keywords/keywords.py:36 | the text holds a character of `[\x80-\xff]` exactly when some position does |
| Values.HandleBinaryResult | src/LDTPLibrary/keywords/keywords.py:178-185 | when the check succeeds, its result compares equal to `''` exactly when the input text was empty |
| Values.ContainsBinary | src/LDTPLibrary/keywords/keywords.py:187-189 | defines `_contains_binary`: a control character anywhere, or a high byte in a byte string off `cli`; `Values.BinaryCheck` states what it decides |
| Values.BinaryCheck | src/LDTPLibrary/keywords/keywords.py:178-189 | text without a control character, and without a high byte in a byte string off `cli`, is returned unchanged; otherwise it becomes `Binary(str(text))`; it fails (`ValueError`) exactly for unicode text that is binary and not ASCII |
| Values.PrintableTextUnchanged | src/LDTPLibrary/keywords/keywords.py:178-189 | printable ASCII text passes the check unchanged on every platform |
| Values.BinaryRoundTrip | src/LDTPLibrary/keywords/keywords.py:178-185 | on a byte string the check never fails, and unwrapping its result as an argument gives the byte string back |
| Values.UnicodeRoundTrip | src/LDTPLibrary/keywords/keywords.py:178-185 | when the check accepts unicode text, unwrapping its result gives back the same characters |
| Values.BellIsWrapped | src/LDTPLibrary/keywords/keywords.py:178-189 | a byte string holding a BEL character is wrapped as `Binary` of the same bytes |
| Values.HandleBinaryArg | src/LDTPLibrary/keywords/keywords.py:94-97 | defines `_handle_binary_arg`: a `Binary` becomes its `.data`, anything else is returned as it is; `Values.BinaryRoundTrip` states its inverse |
| Values.HandleBinaryArgs | src/LDTPLibrary/keywords/keywords.py:89-92 | defines `_handle_binary_args` as `_handle_binary_arg` on every positional and keyword value; `Values.HandleBinaryArgsShape` states its shape |
| Values.HandleBinaryArgsShape | src/LDTPLibrary/keywords/keywords.py:89-97 | argument unwrapping keeps the number of positional arguments and the keyword names; it replaces each `Binary` by its `.data` and leaves every other value alone |
| Values.CollectOk | src/LDTPLibrary/keywords/keywords.py:173-174 | a list comprehension over results succeeds exactly when every element succeeds, and then yields the element values in order |
| Values.CollectPairsOk | src/LDTPLibrary/keywords/keywords.py:170-172 | the pair comprehension succeeds exactly when every key and every value succeeds, and then yields the pairs in order |
| Values.Insert | src/LDTPLibrary/keywords/keywords.py:171-172 | defines storing one pair in a dict: a key equal to a stored key replaces that entry's value, any other key is appended; `Values.InsertShape` states this |
| Values.DictOf | src/LDTPLibrary/keywords/keywords.py:171-172 | defines `dict(pairs)` as the pairs stored one after the other; `Values.DictOfEntries` states the resulting entries |
| Values.InsertShape | src/LDTPLibrary/keywords/keywords.py:171-172 | storing a key equal to the j-th stored key (the first such) replaces only that entry's value and keeps its key; a key equal to none is appended at the end |
| Values.InsertCovers | src/LDTPLibrary/keywords/keywords.py:171-172 | after storing a key the dictionary holds that key and every key it held before |
| Values.InsertDistinct | src/LDTPLibrary/keywords/keywords.py:171-172 | storing a key keeps the dictionary's keys pairwise different |
| Values.InsertLength | src/LDTPLibrary/keywords/keywords.py:171-172 | storing a key grows the dictionary by at most one entry |
| Values.InsertKeepsCovered | src/LDTPLibrary/keywords/keywords.py:171-172 | a key that has an equal key in the dictionary still has one after another key is stored |
| Values.DictOfDistinct | src/LDTPLibrary/keywords/keywords.py:171-172 | `dict(pairs)` has pairwise different keys |
| Values.DictOfCovers | src/LDTPLibrary/keywords/keywords.py:171-172 | every key of the pairs is a key of `dict(pairs)` |
| Values.DictOfEntries | src/LDTPLibrary/keywords/keywords.py:171-172 | every entry of `dict(pairs)` has the key of the first pair with an equal key and the value of the last such pair |
| Values.DictOfLength | src/LDTPLibrary/keywords/keywords.py:171-172 | `dict(pairs)` has no more entries than there are pairs |
| Values.ReprOf | src/LDTPLibrary/keywords/keywords.py:194-195 | defines `repr` of a value as `unicode()` of a container shows its items: `None`, decimal integers, `True`/`False`, quoted and escaped strings, bracketed lists and `{k: v}` mappings; `Values.ReprPrintable` states it is printable |
| Values.Display | src/LDTPLibrary/keywords/keywords.py:194-195 | defines `str()` of a non-text value: decimal integers, `True`/`False`, the bytes of a `Binary`, `repr` for a container, an object's own text; `Values.ContainerStringified` states what `_str` makes of it |
| Values.StrOf | src/LDTPLibrary/keywords/keywords.py:191-198 | defines `_str`: `None` gives `''`, text is kept, anything else is turned into text by `unicode()` (which fails on a `Binary` with a byte of 0x80 or more), and the result goes through the binary check; `Values.StrOfWireSafe` and `Values.BinaryStringified` state its properties |
| Values.BinaryStringified | src/LDTPLibrary/keywords/keywords.py:191-198 | `_str` of a `Binary` succeeds exactly when its bytes are ASCII, and then checks those characters as unicode text; otherwise it fails with `UnicodeDecodeError` at the first byte of 0x80 or more, naming that byte and its position |
| Values.StrOfExamples | src/LDTPLibrary/keywords/keywords.py:191-198 | `_str(None)` is `''`, `_str(1)` is `u'1'`, `_str(True)` is `u'True'` |
| Values.StrOfWireSafe | src/LDTPLibrary/keywords/keywords.py:191-198 | what `_str` returns is wire-safe: binary-free text or `Binary` |
| Values.ReprPrintable | src/LDTPLibrary/keywords/keywords.py:194-195 | the `repr` of a value whose floats and other objects render printably is printable ASCII, whatever its strings hold |
| Values.ContainerStringified | src/LDTPLibrary/keywords/keywords.py:191-198 | `_str` of a list or mapping fails exactly when its `repr` holds a byte of 0x80 or more; otherwise it is the binary check of that `repr` as unicode text, and when the leaves render printably it is exactly that text, printable |
| Values.HandleReturnValue | src/LDTPLibrary/keywords/keywords.py:165-176 | defines `_handle_return_value`: text through the binary check, numbers unchanged, mappings as `dict` of `_str` keys and marshalled values, iterables as lists of marshalled items, anything else as `_str`, and an iterable whose items raise `TypeError` as `_str` of the iterable; the lemmas below state its properties |
| Values.NumbersUnchanged | src/LDTPLibrary/keywords/keywords.py:168-169 | integers, booleans and floats are returned unchanged |
| Values.NonIterableStringified | src/LDTPLibrary/keywords/keywords.py:173-176 | a value that is neither text, a number, a mapping nor iterable is marshalled as `_str` of it, so `None` becomes `''` |
| Values.ListMarshalled | src/LDTPLibrary/keywords/keywords.py:173-176 | an iterable becomes a list exactly when every item is marshalled, and then has the same length with the marshalled items in order; when the first failing item fails with `TypeError`, the result is `_str` of the iterable; any other first failure is the iterable's failure; a non-list success is always `_str` of the iterable |
| Values.CollectFirstFailure | src/LDTPLibrary/keywords/keywords.py:173-174 | the list comprehension raises the exception of the first item that fails |
| Values.NestedUnhashableStringified | src/LDTPLibrary/keywords/keywords.py:173-176 | `[{'\x01': 1}]` is returned as the text `[{'\\x01': 1}]`: the nested mapping's `TypeError` is caught around the list |
| Values.ContainerKeyStringified | src/LDTPLibrary/keywords/keywords.py:170-172 | a mapping with the list key `['\x01']` is returned with the key turned into the text `['\\x01']` |
| Values.SinglePairMarshalled | src/LDTPLibrary/keywords/keywords.py:170-172 | a one-pair mapping whose key `_str` turns into a non-`Binary` key and whose value is unchanged becomes that one pair |
| Values.MappingOk | src/LDTPLibrary/keywords/keywords.py:170-172 | a mapping is marshalled exactly when `_str` accepts every key without turning it into `Binary`, and every value is marshalled |
| Values.BinaryKeyUnhashable | src/LDTPLibrary/keywords/keywords.py:170-172 | when every key and value converts but some key becomes `Binary`, the mapping fails with `TypeError: unhashable instance` |
| Values.ControlKeyRefused | src/LDTPLibrary/keywords/keywords.py:170-172 | `{'\x01': 1}` fails with `TypeError`, since its key becomes `Binary` |
| Values.NonAsciiBinaryRefused | src/LDTPLibrary/keywords/keywords.py:173-176 | a returned `Binary` holding the byte 0xE9 fails with `UnicodeDecodeError` at position 0 |
| Values.MappingMarshalled | src/LDTPLibrary/keywords/keywords.py:170-172 | a marshalled mapping has distinct keys, no more entries than the original, and an entry for `_str` of every original key; each entry's key is text and is `_str` of the first original key equal to it, and its value is the marshalled value of the last original key equal to it |
| Values.MarshalledIsWireSafe | src/LDTPLibrary/keywords/keywords.py:165-176 | whatever `_handle_return_value` returns is wire-safe throughout: numbers, binary-free text, `Binary`, and lists and mappings of wire-safe parts |
| Registry.GetKeywordNames | src/LDTPLibrary/keywords/keywords.py:47-50 | defines `get_keyword_names` as the `dir()` entries not starting with `_`, in order; `Registry.PublicNames` states it |
| Registry.PublicNames | src/LDTPLibrary/keywords/keywords.py:47-50 | a name is listed exactly when it is in `dir()` and does not start with `_` |
| Registry.GetKeyword | src/LDTPLibrary/keywords/keywords.py:129-133 | a keyword is found exactly when the attribute is a function or method, and it is that attribute |
| Registry.ArgumentsFromKw | src/LDTPLibrary/keywords/keywords.py:109-120 | the list rebuilt by slicing, `+=` and `append` equals the argument specification `ArgSpec`, whose shape `ArgSpecShape` states |
| Registry.GetKeywordArguments | src/LDTPLibrary/keywords/keywords.py:103-107 | a name that is not a function or method gives `[]`; otherwise the keyword's argument specification |
| Registry.GetKeywordDocumentation | src/LDTPLibrary/keywords/keywords.py:122-127 | `__intro__` gives the library's docstring or `''`; `__init__` of a module gives `''`; otherwise the keyword's docstring, or `''` when there is none or the name is not a keyword |
| Registry.PublicNamesAppend | src/LDTPLibrary/keywords/keywords.py:47-50 | the name filter distributes over concatenation, so `dir()`'s order is kept |
| Registry.KeywordNamesIgnoreKind | src/LDTPLibrary/keywords/keywords.py:47-50 | a name is a keyword name exactly when it is a public entry of `dir()`, whatever its attribute is |
| Registry.PlainAttributeListed | src/LDTPLibrary/keywords/keywords.py:47-50 | a public non-callable attribute is listed, and a private one is not |
| Registry.ArgSpec | src/LDTPLibrary/keywords/keywords.py:109-120 | defines the argument specification: the receiver dropped for a method, required names, `name=default` pairs, `*varargs`, `**kwargs`; `Registry.ArgSpecShape` states its shape |
| Registry.ArgSpecShape | src/LDTPLibrary/keywords/keywords.py:109-120 | the specification lists the required names, then `name=default` for the last `len(defaults)` parameters in order, then `*varargs`, then `**kwargs` |
| Registry.DefaultsShape | src/LDTPLibrary/keywords/keywords.py:113-115 | splitting off the last `len(defaults)` names and pairing them with the defaults keeps one entry per parameter: required names first, then `name=default` in order |
| Registry.MethodReceiverDropped | src/LDTPLibrary/keywords/keywords.py:111-115 | for a method `(self, window, timeout=5)` the specification is `["window", "timeout=5"]` |
| Errors.GetErrorMessage | src/LDTPLibrary/keywords/keywords.py:135-146 | defines `_get_error_message`: re-raise for fatal types, otherwise the bare name, the bare message, or `Name: message`; `Errors.PlainMessage` states each case |
| Errors.MessageFromException | src/LDTPLibrary/keywords/keywords.py:148-154 | defines `_get_message_from_exception`: `unicode(value)` or the joined arguments when that fails, through the binary check; `Errors.MarshalTextPasses` states it for marshalling failures |
| Errors.ErrorTraceback | src/LDTPLibrary/keywords/keywords.py:156-160 | defines `_get_error_traceback`: the header followed by every entry but the first; `Errors.TracebackDropsFirst` states it |
| Reprs.EscapePrintable | src/LDTPLibrary/keywords/keywords.py:184 | the escaped body of `%r` is printable ASCII, whatever the text holds |
| Reprs.TextReprPrintable | src/LDTPLibrary/keywords/keywords.py:184 | `repr` of any byte string or unicode text, quotes and prefix included, is printable ASCII |
| Reprs.DigitsPrintable | src/LDTPLibrary/keywords/keywords.py:194-195 | the decimal position in the `UnicodeDecodeError` text is printable |
| Reprs.IntTextPrintable | src/LDTPLibrary/keywords/keywords.py:194-195 | the decimal text of any integer, negative ones included, is printable |
| Reprs.JoinCommaPrintable | src/LDTPLibrary/keywords/keywords.py:194-195 | joining printable item texts with `, ` stays printable |
| Reprs.ControlByteRepr | src/LDTPLibrary/keywords/keywords.py:184 | `repr('\x01')` is `'\\x01'`: a control byte becomes a hexadecimal escape |
| Reprs.QuoteSwitched | src/LDTPLibrary/keywords/keywords.py:184 | `repr(u"it's")` is `u"it's"`: a single quote switches the quotes instead of being escaped |
| Errors.ReprTextPrintable | src/LDTPLibrary/keywords/keywords.py:184 | the text `Cannot represent %r as binary.` is printable ASCII |
| Errors.DecodeTextPrintable | src/LDTPLibrary/keywords/keywords.py:194-195 | the text `'ascii' codec can't decode byte 0x.. in position ..: ordinal not in range(128)` is printable ASCII |
| Errors.MarshalTextPrintable | src/LDTPLibrary/keywords/keywords.py:165-198 | the text of each of the three marshalling exceptions is printable ASCII |
| Errors.MarshalTextPasses | src/LDTPLibrary/keywords/keywords.py:148-154 | the text of every marshalling exception passes the binary check unchanged |
| Errors.MarshalFailureMessage | src/LDTPLibrary/keywords/keywords.py:135-154 | a marshalling exception (`ValueError`, `UnicodeDecodeError` or `TypeError`) is not a `RuntimeError`, classifying it never re-raises and never raises again, and it gives `Name: text`, which is not empty |
| Errors.PlainMessage | src/LDTPLibrary/keywords/keywords.py:135-146 | for a message that `unicode()` renders as text without control characters: fatal types re-raise; an empty message gives the bare type name; a generic type or `ROBOT_SUPPRESS_NAME` gives the bare message; anything else gives `Name: message` |
| Errors.BinaryMessage | src/LDTPLibrary/keywords/keywords.py:139-154 | a message with a control character becomes `Binary`: ASCII text gives the bare `Binary` for a generic type or `ROBOT_SUPPRESS_NAME` and the byte string `Name: text` otherwise; non-ASCII text raises the binary check's `ValueError` |
| Errors.FallbackMessage | src/LDTPLibrary/keywords/keywords.py:139-154 | when `unicode()` of the exception fails, the message is its fallback byte string, bare for a generic type or `ROBOT_SUPPRESS_NAME` and `Name: text` otherwise |
| Errors.MessageNotEmpty | src/LDTPLibrary/keywords/keywords.py:139-146 | a returned message is never `''` when the type has a name |
| Errors.TracebackDropsFirst | src/LDTPLibrary/keywords/keywords.py:156-160 | the traceback text is the header followed by every entry except the first, and is never empty |
| Errors.MarkerAttributes | src/LDTPLibrary/keywords/keywords.py:162-163 | the `CONTINUE` and `EXIT` markers are the truth of the attributes `ROBOT_CONTINUE_ON_FAILURE` and `ROBOT_EXIT_ON_FAILURE`, `False` when unset |
| Streams.StdStreams.Intercept | src/LDTPLibrary/keywords/keywords.py:200-202 | afterwards the streams are fresh empty buffers, and the process streams are untouched |
| Streams.StdStreams.WriteOut | src/LDTPLibrary/keywords/keywords.py:61-63 | what the keyword writes to stdout during the call goes to the capture buffer while intercepted, otherwise to the process stdout, with no newline added |
| Streams.StdStreams.WriteErr | src/LDTPLibrary/keywords/keywords.py:61-63 | what the keyword writes to stderr during the call goes to the capture buffer while intercepted, otherwise to the process stderr |
| Streams.StdStreams.Restore | src/LDTPLibrary/keywords/keywords.py:204-218 | the process streams are back, the buffers are gone, and the captured text is returned after it is combined and checked for binary content |
| Streams.LogLine | src/LDTPLibrary/keywords/keywords.py:220-222 | defines the logged line, `*LEVEL* msg` when a level is given; `Streams.StdStreams.Log` states where it goes |
| Streams.StdStreams.Log | src/LDTPLibrary/keywords/keywords.py:220-229 | the line, prefixed `*LEVEL*` when a level is given, goes to the current stdout, and also to the process stdout while intercepted |
| Streams.CombineOutput | src/LDTPLibrary/keywords/keywords.py:212-218 | defines the text `_restore_std_streams` assembles; `Streams.CombinedLayout`, `Streams.OneStreamUnchanged` and `Streams.CaptureEmptyIff` state it |
| Streams.CapturedOutput | src/LDTPLibrary/keywords/keywords.py:212-218 | defines the combined text after the binary check; `Streams.CapturedOutputEmptyIff` states when it is `''` |
| Streams.CombinedLayout | src/LDTPLibrary/keywords/keywords.py:212-218 | when both streams captured text, the result starts with stdout, a newline ends the stdout part, the rest is stderr itself when stderr starts with a level marker and `*INFO* ` followed by stderr otherwise, and the result ends with stderr |
| Streams.OneStreamUnchanged | src/LDTPLibrary/keywords/keywords.py:212-218 | when one stream captured nothing, the other's text is passed on unchanged |
| Streams.CaptureEmptyIff | src/LDTPLibrary/keywords/keywords.py:212-218 | the combined text is empty exactly when both streams captured nothing |
| Streams.HelloWithoutNewline | src/LDTPLibrary/keywords/keywords.py:212-218 | output `hello` with an empty stderr is returned as `hello`, without a newline |
| Streams.CapturedOutputEmptyIff | src/LDTPLibrary/keywords/keywords.py:204-218 | the captured text after the binary check equals `''` exactly when both streams captured nothing |
| Dispatcher.ResultDict.constructor | src/LDTPLibrary/keywords/keywords.py:59 | the dictionary starts as `{'status': status}` |
| Dispatcher.ResultDict.Add | src/LDTPLibrary/keywords/keywords.py:99-101 | the entries become `AddedTo` of the old entries |
| Dispatcher.ResultDict.Set | src/LDTPLibrary/keywords/keywords.py:85 | the key is set and nothing else changes |
| Dispatcher.AddedTo | src/LDTPLibrary/keywords/keywords.py:99-101 | defines `_add_to_result` on the dictionary's entries; `Dispatcher.AddedToFrame` states it |
| Dispatcher.AddedToFrame | src/LDTPLibrary/keywords/keywords.py:99-101 | `_add_to_result` sets the key exactly when the value is not `''`, to that value, and leaves every other key alone |
| Dispatcher.DynamicKeywords.ErrorMessageOf | src/LDTPLibrary/keywords/keywords.py:135-146 | returns the classification of the exception; on a re-raise the streams are restored first, otherwise they are left as they were |
| Dispatcher.DynamicKeywords.Finish | src/LDTPLibrary/keywords/keywords.py:86 | the streams are restored, and the captured text is added under `output` unless it is `''` |
| Dispatcher.DynamicKeywords.CompleteRaised | src/LDTPLibrary/keywords/keywords.py:64-75 | the state after the keyword raised matches `RaisedSpec` |
| Dispatcher.DynamicKeywords.CompleteReturned | src/LDTPLibrary/keywords/keywords.py:76-86 | the state after the keyword returned matches `ReturnedSpec` |
| Dispatcher.DynamicKeywords.RunKeyword | src/LDTPLibrary/keywords/keywords.py:57-87 | either the dictionary `RunSpec` gives is returned with the streams restored, or `RunSpec`'s exception escapes, with the streams restored or still holding what the keyword wrote; the process streams change only through restoration |
| Dispatcher.OutputEntry | src/LDTPLibrary/keywords/keywords.py:86 | `output` is added exactly when something was written, holds the captured text, and no other entry changes |
| Dispatcher.RunSpec | src/LDTPLibrary/keywords/keywords.py:57-87 | defines the outcome of `run_keyword` as a value: the result dictionary or the escaping exception, with the state of the streams; `Dispatcher.DynamicKeywords.RunKeyword` is proved against it |
| Dispatcher.RunSpecInvoked | src/LDTPLibrary/keywords/keywords.py:57-63 | once the name resolves, the call ends as the keyword's invocation on the unwrapped arguments says |
| Dispatcher.RaisedStatus | src/LDTPLibrary/keywords/keywords.py:64-75 | a dictionary built after a `RuntimeError` keeps `status='FAIL'`, whatever the message is |
| Dispatcher.RaisedFields | src/LDTPLibrary/keywords/keywords.py:64-75 | a `RuntimeError` with a non-empty message gives exactly `status='FAIL'`, the message, the traceback and both markers, plus `output` when something was written |
| Dispatcher.UnmarshalledFields | src/LDTPLibrary/keywords/keywords.py:80-83 | a marshalling failure gives exactly `status='FAIL'` and the message `Name: text` of its exception, plus `output` when something was written |
| Dispatcher.PassedFields | src/LDTPLibrary/keywords/keywords.py:77-85 | a marshalled value gives `status='PASS'`, with `return` present exactly when the value is not `''`, plus `output` when something was written |
| Dispatcher.StatusReflectsOutcome | src/LDTPLibrary/keywords/keywords.py:57-87 | every returned dictionary has `status` `PASS` or `FAIL`, and it is `PASS` exactly when the keyword was found, returned, and its value marshalled |
| Dispatcher.RuntimeFailureKeys | src/LDTPLibrary/keywords/keywords.py:64-75 | with a non-empty message a failure holds exactly `status`, `error`, `traceback`, `continuable` and `fatal`, with their values |
| Dispatcher.FailureMarkers | src/LDTPLibrary/keywords/keywords.py:64-75 | `continuable` and `fatal` are `True` exactly when the exception carries `ROBOT_CONTINUE_ON_FAILURE` or `ROBOT_EXIT_ON_FAILURE` with a true value, and `False` when the marker is unset |
| Dispatcher.RuntimeErrorFails | src/LDTPLibrary/keywords/keywords.py:62-75 | a `RuntimeError` is never re-raised as fatal; when its message fails the binary check, the `ValueError` escapes unrestored; otherwise the result holds exactly `status='FAIL'`, the message, the traceback and both markers, plus `output` when something was written |
| Dispatcher.MarshalFailureFails | src/LDTPLibrary/keywords/keywords.py:77-83 | a return value that cannot be marshalled gives exactly `status='FAIL'` and `error` holding `Name: text` of the exception marshalling raised, plus `output` when something was written |
| Dispatcher.ReturnPasses | src/LDTPLibrary/keywords/keywords.py:77-86 | a marshalled return value gives `status='PASS'`, `return` unless it is `''`, holding the wire-safe marshalled value, plus `output` when something was written |
| Dispatcher.EscapesUnrestored | src/LDTPLibrary/keywords/keywords.py:57-87 | an unknown name escapes with `TypeError: 'NoneType' object is not callable`, and a non-`RuntimeError` escapes as it is; in both cases the streams are not restored |
| Dispatcher.AddPasses | src/LDTPLibrary/keywords/keywords.py:57-87 | `run_keyword('add', [2, 3])` gives `{'status': 'PASS', 'return': 5}` |
| Dispatcher.BoomMessage | src/LDTPLibrary/keywords/keywords.py:143-145 | `RuntimeError('boom')` is generic, so its message is the bare `boom` |
| Dispatcher.BoomMarkers | src/LDTPLibrary/keywords/keywords.py:156-163 | its `CONTINUE` marker is true, its `EXIT` marker false, and its traceback text drops the adapter's frame |
| Dispatcher.PairReturns | src/LDTPLibrary/keywords/keywords.py:57-87 | in a library with `add(a, b)` and `sub(a, b)`, `run_keyword(name, [2, 3])` gives `PASS` with the value that keyword returns |
| Dispatcher.SameSignatureDistinct | src/LDTPLibrary/keywords/keywords.py:129-133 | the keyword `getattr` finds is told apart by name: `add(2, 3)` returns 5 and `sub(2, 3)` returns -1, though both have the signature `(a, b)` |
| Dispatcher.ContinuableFailure | src/LDTPLibrary/keywords/keywords.py:57-87 | a `RuntimeError` marked `ROBOT_CONTINUE_ON_FAILURE` gives `FAIL` with `continuable=True` and an explicit `fatal=False` |

## Left out

- Calling the keyword is the parameter `call`. The functions of `ldtp` are foreign GUI-automation code, so each call is only what it writes and how it ends.
- Python reflection is taken as given data: `dir()` order, `inspect.getargspec`, `inspect.getdoc`, `inspect.ismodule` and `traceback.extract_tb`/`format_list`. Defaults are their display texts, and each traceback entry is its formatted text.
- `unicode()` of a non-text value is `Display`, and `repr` is `ReprOf`. Strings, numbers, booleans, `None`, lists and mappings render as Python 2 renders them. Some renderings are not modelled, because they belong to the interpreter or to the returned object:
  - every iterable is a `List`, so tuples, sets and generators are shown with list brackets;
  - a mapping's items are shown in their given order, not in hash order;
  - the `L` suffix of a long is not shown;
  - a float has one given text for both `str` and `repr`;
  - the repr of a `Binary` leaves out its address;
  - any other object's `str` and `repr` are its given texts.
- Floats are opaque texts that are passed through. Floating-point arithmetic is not modelled.
- The `UnicodeError` fallback of `_get_message_from_exception` is the exception's given `fallback` text. Which exceptions fail `unicode()` is up to the interpreter.
- `str(unicode)` is modelled as Python 2's default ASCII codec.
- `level.upper()` in `_log` upper-cases ASCII letters only. Python's full Unicode case mapping is not modelled.
- `StringIO` buffers, `write`, `flush` and `close` are the string fields of `StdStreams`. What `getvalue` returns is taken as a byte string, so mixing unicode writes into the buffer is not modelled.
- Marshalling is a function on finite values. Code that runs while a returned iterable is iterated, such as a generator raising `SystemExit`, `KeyboardInterrupt` or `RuntimeError` at line 174, and asynchronous interrupts are not modelled. So the re-raise branch of `Dispatcher.UnmarshalledClassified` is never taken in the model.
- `unicode()` of values other than `Binary` never fails in the model, because such failures come from user-defined `__unicode__` methods.
- Bound-method arguments are modelled as a `Method` keyword whose first parameter is the receiver. Looking attributes up on a class instead of a module is not distinguished.
- Registry.GetKeywordNames requires every `dir()` entry to be non-empty. Python never lists an empty name there, so the `attr[0]` `IndexError` cannot happen.
- Streams.StdStreams.Restore requires the streams to be intercepted. Its callers always intercept first.
- `src/LDTPLibrary/__init__.py` is not part of this model. It only subclasses the adapter and sets version and scope constants.
- The unused `signal` import, `allow_reuse_address` and the XML-RPC transport are left out. They are not behaviour of the adapter.
- Concurrency is not modelled: one keyword runs at a time against one interpreter state.
