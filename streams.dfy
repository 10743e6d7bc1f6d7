/**
 * The process's standard streams while a keyword runs: interception into
 * in-memory buffers, restoration with the combined captured text, and `_log`.
 */
module Streams {
  import opened Values

  /** The level markers Robot Framework recognises at the start of a message. */
  const LevelMarkers: seq<string> := ["*TRACE*", "*DEBUG*", "*INFO*", "*HTML*", "*WARN*"]

  predicate StartsWith(t: string, prefix: string) {
    |prefix| <= |t| && t[..|prefix|] == prefix
  }

  predicate EndsWith(t: string, suffix: string) {
    |suffix| <= |t| && t[|t| - |suffix|..] == suffix
  }

  /** `t.startswith(('*TRACE*', '*DEBUG*', '*INFO*', '*HTML*', '*WARN*'))`. */
  predicate HasLevelMarker(t: string) {
    exists i :: 0 <= i < |LevelMarkers| && StartsWith(t, LevelMarkers[i])
  }

  /**
   * The text `_restore_std_streams` assembles: when both streams captured
   * something, stdout is newline-terminated and stderr is tagged `*INFO*`
   * unless it already starts with a level marker; otherwise the two are
   * joined unchanged.
   */
  function CombineOutput(out: string, err: string): string {
    if out != "" && err != "" then
      (if EndsWith(out, "\n") then out else out + "\n") +
      (if HasLevelMarker(err) then err else "*INFO* " + err)
    else out + err
  }

  /** The combined captured text after the binary check (which cannot fail on a byte string). */
  function CapturedOutput(out: string, err: string, nonCli: bool): Value {
    BinaryRoundTrip(CombineOutput(out, err), nonCli);
    HandleBinaryResult(Str(CombineOutput(out, err)), nonCli).value
  }

  function UpperChar(c: char): char {
    if 'a' <= c <= 'z' then (c as int - 32) as char else c
  }

  /** `level.upper()` on ASCII letters. */
  function Upper(t: string): string {
    if t == [] then "" else [UpperChar(t[0])] + Upper(t[1..])
  }

  /** The line `_log` writes: `*LEVEL* msg` when a level is given, then a newline. */
  function LogLine(msg: string, level: string): string {
    (if level != "" then "*" + Upper(level) + "* " + msg else msg) + "\n"
  }

  /**
   * The interpreter's `sys.stdout`/`sys.stderr`. While `intercepted`, they are
   * in-memory buffers holding `stdout` and `stderr`; otherwise they are the
   * process streams, whose contents so far are `console` and `consoleErr`.
   */
  class StdStreams {
    var intercepted: bool
    var stdout: string
    var stderr: string
    var console: string
    var consoleErr: string

    constructor ()
      ensures !intercepted && stdout == "" && stderr == "" && console == "" && consoleErr == ""
    {
      intercepted, stdout, stderr, console, consoleErr := false, "", "", "", "";
    }

    /** `_intercept_std_streams`: fresh empty buffers become `sys.stdout` and `sys.stderr`. */
    method Intercept()
      modifies this
      ensures intercepted && stdout == "" && stderr == ""
      ensures console == old(console) && consoleErr == old(consoleErr)
    {
      intercepted := true;
      stdout, stderr := "", "";
    }

    /** `sys.stdout.write(t)`. */
    method WriteOut(t: string)
      modifies this
      ensures intercepted == old(intercepted) && stderr == old(stderr) && consoleErr == old(consoleErr)
      ensures old(intercepted) ==> stdout == old(stdout) + t && console == old(console)
      ensures !old(intercepted) ==> console == old(console) + t && stdout == old(stdout)
    {
      if intercepted { stdout := stdout + t; } else { console := console + t; }
    }

    /** `sys.stderr.write(t)`. */
    method WriteErr(t: string)
      modifies this
      ensures intercepted == old(intercepted) && stdout == old(stdout) && console == old(console)
      ensures old(intercepted) ==> stderr == old(stderr) + t && consoleErr == old(consoleErr)
      ensures !old(intercepted) ==> consoleErr == old(consoleErr) + t && stderr == old(stderr)
    {
      if intercepted { stderr := stderr + t; } else { consoleErr := consoleErr + t; }
    }

    /**
     * `_restore_std_streams`: reads both buffers, puts the process streams
     * back, closes the buffers and returns the combined captured text.
     */
    method Restore(nonCli: bool) returns (output: Value)
      requires intercepted
      modifies this
      ensures !intercepted && stdout == "" && stderr == ""
      ensures console == old(console) && consoleErr == old(consoleErr)
      ensures output == CapturedOutput(old(stdout), old(stderr), nonCli)
    {
      var out, err := stdout, stderr;
      intercepted := false;
      stdout, stderr := "", "";
      var combined := out;
      if out != "" && err != "" {
        if !HasLevelMarker(err) {
          err := "*INFO* " + err;
        }
        if !EndsWith(combined, "\n") {
          combined := combined + "\n";
        }
      }
      BinaryRoundTrip(combined + err, nonCli);
      output := HandleBinaryResult(Str(combined + err), nonCli).value;
    }

    /**
     * `_log`: writes the line to whatever `sys.stdout` is, and also to the
     * process's standard output when that is not the same stream.
     */
    method Log(msg: string, level: string)
      modifies this
      ensures intercepted == old(intercepted) && stderr == old(stderr) && consoleErr == old(consoleErr)
      ensures old(intercepted) ==>
        stdout == old(stdout) + LogLine(msg, level) && console == old(console) + LogLine(msg, level)
      ensures !old(intercepted) ==> stdout == old(stdout) && console == old(console) + LogLine(msg, level)
    {
      var line := if level != "" then "*" + Upper(level) + "* " + msg else msg;
      WriteOut(line + "\n");
      if intercepted {
        console := console + line + "\n";
      }
    }
  }

  // ----- lemmas -----

  lemma StartsWithConcat(a: string, b: string)
    ensures StartsWith(a + b, a)
  {
    assert (a + b)[..|a|] == a;
  }

  lemma EndsWithConcat(a: string, b: string)
    ensures EndsWith(a + b, b)
  {
    assert (a + b)[|a + b| - |b|..] == b;
  }

  /** The stderr part always starts with a level marker: the one it had, or `*INFO*`. */
  lemma TaggedHasMarker(err: string)
    ensures HasLevelMarker(if HasLevelMarker(err) then err else "*INFO* " + err)
  {
    if !HasLevelMarker(err) {
      StartsWithConcat("*INFO*", " " + err);
      assert "*INFO* " + err == "*INFO*" + (" " + err);
      assert StartsWith("*INFO* " + err, LevelMarkers[2]);
    }
  }

  /** The stdout part always ends with a newline, at position `k - 1`. */
  lemma TerminatedEndsWithNewline(out: string)
    requires out != ""
    ensures var o := if EndsWith(out, "\n") then out else out + "\n";
      && |o| == (if EndsWith(out, "\n") then |out| else |out| + 1)
      && o[|o| - 1] == '\n'
      && StartsWith(o, out)
  {
    if EndsWith(out, "\n") {
      assert out[|out| - 1..] == "\n";
      assert out[|out| - 1] == '\n';
      assert out[..|out|] == out;
    } else {
      StartsWithConcat(out, "\n");
    }
  }

  /**
   * The layout of the captured text when both streams wrote something: it
   * begins with stdout, a newline closes the stdout part, and the rest is
   * stderr itself when it already starts with a level marker and stderr
   * tagged `*INFO* ` otherwise.
   */
  lemma CombinedLayout(out: string, err: string)
    requires out != "" && err != ""
    ensures var r := CombineOutput(out, err);
      var k := if EndsWith(out, "\n") then |out| else |out| + 1;
      && StartsWith(r, out)
      && k <= |r| && r[k - 1] == '\n'
      && HasLevelMarker(r[k..])
      && (HasLevelMarker(err) ==> r[k..] == err)
      && (!HasLevelMarker(err) ==> r[k..] == "*INFO* " + err)
      && EndsWith(r, err)
  {
    var o := if EndsWith(out, "\n") then out else out + "\n";
    var e := if HasLevelMarker(err) then err else "*INFO* " + err;
    var r := o + e;
    assert CombineOutput(out, err) == r;
    TerminatedEndsWithNewline(out);
    TaggedHasMarker(err);
    StartsWithConcat(o, e);
    assert r[..|out|] == o[..|out|];
    assert r[|o| - 1] == o[|o| - 1];
    assert r[|o|..] == e;
    if HasLevelMarker(err) {
      EndsWithConcat(o, err);
    } else {
      EndsWithConcat(o + "*INFO* ", err);
      assert r == (o + "*INFO* ") + err;
    }
  }

  /** When one stream stayed silent, the other's text is passed on unchanged. */
  lemma OneStreamUnchanged(out: string, err: string)
    requires out == "" || err == ""
    ensures CombineOutput(out, err) == out + err
  {
  }

  /** Nothing is captured exactly when neither stream wrote anything. */
  lemma CaptureEmptyIff(out: string, err: string)
    ensures CombineOutput(out, err) == "" <==> out == "" && err == ""
  {
  }

  /** A keyword that prints `hello` without a newline and nothing to stderr yields exactly `hello`. */
  lemma HelloWithoutNewline(nonCli: bool)
    ensures CapturedOutput("hello", "", nonCli) == Str("hello")
  {
    PrintableTextUnchanged(Str("hello"), nonCli);
  }

  /** The captured text, after the binary check, is empty exactly when neither stream was written to. */
  lemma CapturedOutputEmptyIff(out: string, err: string, nonCli: bool)
    ensures IsEmptyText(CapturedOutput(out, err, nonCli)) <==> out == "" && err == ""
  {
    CaptureEmptyIff(out, err);
  }
}
