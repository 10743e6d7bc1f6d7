/**
 * The text renderings Python 2 gives to numbers and strings: decimal digits,
 * hexadecimal escapes and `repr` of a byte string or of unicode text, with
 * the lemma that `repr` is always printable ASCII.
 */
module Reprs {

  /** Printable ASCII, 0x20..0x7E. */
  predicate Printable(t: string) {
    forall i :: 0 <= i < |t| ==> 0x20 <= t[i] as int <= 0x7E
  }

  function DigitsOf(n: nat): string
    decreases n
  {
    if n < 10 then ["0123456789"[n]] else DigitsOf(n / 10) + ["0123456789"[n % 10]]
  }

  /** `"%d" % i`. */
  function IntText(i: int): string {
    if i < 0 then "-" + DigitsOf(-i) else DigitsOf(i)
  }

  /** `", ".join(parts)`. */
  function JoinComma(parts: seq<string>): string {
    if parts == [] then ""
    else if |parts| == 1 then parts[0]
    else parts[0] + ", " + JoinComma(parts[1..])
  }

  function HexDigit(n: nat): char
    requires n < 16
  {
    "0123456789abcdef"[n]
  }

  /** `width` lower-case hexadecimal digits of `n` (modulo 16^width). */
  function Hex(n: nat, width: nat): string
    decreases width
  {
    if width == 0 then "" else Hex(n / 16, width - 1) + [HexDigit(n % 16)]
  }

  /**
   * The quote `repr` puts around text: a double quote when the text holds a
   * single quote and no double quote, a single quote otherwise.
   */
  function QuoteFor(t: string): char {
    if '\'' in t && '"' !in t then '"' else '\''
  }

  /** How `repr` shows one character inside quotes `q`. */
  function EscapeChar(c: char, q: char): string {
    var n := c as int;
    if c == '\\' || c == q then ['\\', c]
    else if c == '\t' then "\\t"
    else if c == '\n' then "\\n"
    else if c == '\r' then "\\r"
    else if 0x20 <= n < 0x7F then [c]
    else if n < 0x100 then "\\x" + Hex(n, 2)
    else if n < 0x10000 then "\\u" + Hex(n, 4)
    else "\\U" + Hex(n, 8)
  }

  function Escape(t: string, q: char): string {
    if t == [] then "" else EscapeChar(t[0], q) + Escape(t[1..], q)
  }

  /** `repr` of a byte string (`'...'`) or of unicode text (`u'...'`). */
  function TextRepr(t: string, isUnicode: bool): string {
    var q := QuoteFor(t);
    (if isUnicode then "u" else "") + [q] + Escape(t, q) + [q]
  }

  // ----- lemmas -----

  lemma PrintableConcat(a: string, b: string)
    requires Printable(a) && Printable(b)
    ensures Printable(a + b)
  {
    forall i | 0 <= i < |a + b| ensures 0x20 <= (a + b)[i] as int <= 0x7E {
      if i >= |a| { assert (a + b)[i] == b[i - |a|]; }
    }
  }

  lemma {:induction false} HexPrintable(n: nat, width: nat)
    ensures |Hex(n, width)| == width
    ensures Printable(Hex(n, width))
    decreases width
  {
    if width > 0 {
      HexPrintable(n / 16, width - 1);
      PrintableConcat(Hex(n / 16, width - 1), [HexDigit(n % 16)]);
    }
  }

  /** Decimal digits are printable. */
  lemma {:induction false} DigitsPrintable(n: nat)
    ensures Printable(DigitsOf(n))
    decreases n
  {
    if n >= 10 {
      DigitsPrintable(n / 10);
      PrintableConcat(DigitsOf(n / 10), ["0123456789"[n % 10]]);
    }
  }

  /** A decimal integer is printable. */
  lemma IntTextPrintable(i: int)
    ensures Printable(IntText(i))
  {
    if i < 0 {
      DigitsPrintable(-i);
      PrintableConcat("-", DigitsOf(-i));
    } else {
      DigitsPrintable(i);
    }
  }

  /** The escaped body of `repr` is printable ASCII, whatever the text holds. */
  lemma {:induction false} EscapePrintable(t: string, q: char)
    requires q == '\'' || q == '"'
    ensures Printable(Escape(t, q))
  {
    if t != [] {
      var c := t[0];
      var n := c as int;
      HexPrintable(n, 2);
      HexPrintable(n, 4);
      HexPrintable(n, 8);
      assert Printable(EscapeChar(c, q)) by {
        if c == '\\' || c == q || c == '\t' || c == '\n' || c == '\r' || 0x20 <= n < 0x7F {
        } else if n < 0x100 {
          PrintableConcat("\\x", Hex(n, 2));
        } else if n < 0x10000 {
          PrintableConcat("\\u", Hex(n, 4));
        } else {
          PrintableConcat("\\U", Hex(n, 8));
        }
      }
      EscapePrintable(t[1..], q);
      PrintableConcat(EscapeChar(c, q), Escape(t[1..], q));
    }
  }

  /** `repr` of any byte string or unicode text is printable ASCII. */
  lemma TextReprPrintable(t: string, isUnicode: bool)
    ensures Printable(TextRepr(t, isUnicode))
  {
    var q := QuoteFor(t);
    EscapePrintable(t, q);
    var u := if isUnicode then "u" else "";
    PrintableConcat(u, [q]);
    PrintableConcat(u + [q], Escape(t, q));
    PrintableConcat(u + [q] + Escape(t, q), [q]);
  }

  /** Joining printable parts with `", "` stays printable. */
  lemma {:induction false} JoinCommaPrintable(parts: seq<string>)
    requires forall i :: 0 <= i < |parts| ==> Printable(parts[i])
    ensures Printable(JoinComma(parts))
    decreases |parts|
  {
    if |parts| > 1 {
      JoinCommaPrintable(parts[1..]);
      PrintableConcat(parts[0], ", ");
      PrintableConcat(parts[0] + ", ", JoinComma(parts[1..]));
    }
  }

  /** `repr('\x01')` is `'\x01'`: a control byte is shown as a hexadecimal escape. */
  lemma ControlByteRepr()
    ensures TextRepr([1 as char], false) == "'\\x01'"
  {
    assert Hex(1, 2) == "01";
    assert EscapeChar(1 as char, '\'') == "\\x01";
    assert Escape([1 as char], '\'') == "\\x01";
  }

  /** `repr(u"it's")` is `u"it's"`: a single quote switches the quotes instead of being escaped. */
  lemma QuoteSwitched()
    ensures TextRepr("it's", true) == "u\"it's\""
  {
    assert QuoteFor("it's") == '"';
    assert Escape("it's", '"') == "it's";
  }
}
