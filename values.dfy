/**
 * Values that cross the remote-library boundary and their marshalling:
 * unwrapping inbound binary arguments, the binary-safety check on text,
 * `_str` and the recursive conversion of a keyword's return value.
 */
module Values {
  import opened Reprs

  /**
   * A Python 2 value. `Str` is a byte string and `Binary` the XML-RPC binary
   * wrapper; both hold one char per byte (code 0..255). `Unicode` is text.
   * `Float` is opaque and carries only its text. `Other` is any other object,
   * with the text `unicode()` gives for it and the text `repr()` gives.
   * `List` stands for every iterable that is not a string or a mapping,
   * `Mapping` lists the pairs in the order `items()` gives them.
   */
  datatype Value =
    | Null
    | Int(i: int)
    | Bool(b: bool)
    | Float(display: string)
    | Unicode(u: string)
    | Str(s: string)
    | Binary(data: string)
    | List(items: seq<Value>)
    | Mapping(pairs: seq<(Value, Value)>)
    | Other(display: string, reprText: string)
  {
    /** Python's `isinstance(v, basestring)`. */
    predicate IsText() { Unicode? || Str? }

    function Chars(): string
      requires IsText()
    {
      if Unicode? then u else s
    }
  }

  /** What marshalling a return value can raise. */
  datatype MarshalError =
    | CannotRepresentAsBinary(text: string)       // `ValueError`: text that needs wrapping is not ASCII
    | CannotDecode(byte: nat, position: nat)      // `UnicodeDecodeError`: `unicode()` of a non-ASCII `Binary`
    | UnhashableKey                               // `TypeError`: `dict()` given a `Binary` key

  datatype Result<+T> = Ok(value: T) | Fail(error: MarshalError)

  // ----- character classes replacing the two regular expressions -----

  /** The class `[\x00-\x08\x0B\x0C\x0E-\x1F]`: control characters other than tab, newline and carriage return. */
  predicate IsControl(c: char) {
    var n := c as int;
    n <= 0x08 || n == 0x0B || n == 0x0C || (0x0E <= n <= 0x1F)
  }

  /** The class `[\x80-\xff]`. */
  predicate IsHighByte(c: char) {
    0x80 <= c as int <= 0xFF
  }

  /** Python 2's default codec: `str(u)` succeeds exactly when every character is ASCII. */
  predicate AsciiEncodable(u: string) {
    forall i :: 0 <= i < |u| ==> u[i] as int < 0x80
  }

  /** `BINARY.search(t)` finds a match. */
  function HasControl(t: string): (r: bool)
    ensures r <==> exists i :: 0 <= i < |t| && IsControl(t[i])
  {
    if t == [] then false
    else if IsControl(t[0]) then true
    else
      var rest := HasControl(t[1..]);
      assert forall i :: 1 <= i < |t| ==> t[i] == t[1..][i - 1];
      rest
  }

  /** `NON_ASCII.search(t)` finds a match. */
  function HasHighByte(t: string): (r: bool)
    ensures r <==> exists i :: 0 <= i < |t| && IsHighByte(t[i])
  {
    if t == [] then false
    else if IsHighByte(t[0]) then true
    else
      var rest := HasHighByte(t[1..]);
      assert forall i :: 1 <= i < |t| ==> t[i] == t[1..][i - 1];
      rest
  }

  /**
   * `_contains_binary`: a control character anywhere, or, for a byte string
   * on a platform other than `cli` (`nonCli`), a byte of 0x80 or above.
   */
  predicate ContainsBinary(v: Value, nonCli: bool)
    requires v.IsText()
  {
    HasControl(v.Chars()) || (v.Str? && nonCli && HasHighByte(v.s))
  }

  /** `_handle_binary_result`: text that is not binary-safe is re-wrapped as `Binary(str(text))`. */
  function HandleBinaryResult(v: Value, nonCli: bool): (r: Result<Value>)
    requires v.IsText()
    ensures r.Ok? ==> (IsEmptyText(r.value) <==> v.Chars() == "")
  {
    if !ContainsBinary(v, nonCli) then Ok(v)
    else if v.Str? then Ok(Binary(v.s))
    else if AsciiEncodable(v.u) then Ok(Binary(v.u))
    else Fail(CannotRepresentAsBinary(v.u))
  }

  /** `_handle_binary_arg`: an inbound `Binary` is replaced by its `.data` byte string. */
  function HandleBinaryArg(v: Value): Value {
    if v.Binary? then Str(v.data) else v
  }

  /** `_handle_binary_args`: unwraps every positional and every keyword argument. */
  function HandleBinaryArgs(args: seq<Value>, kwargs: map<string, Value>): (seq<Value>, map<string, Value>) {
    (seq(|args|, i requires 0 <= i < |args| => HandleBinaryArg(args[i])),
     map k | k in kwargs :: HandleBinaryArg(kwargs[k]))
  }

  /**
   * `v == ''` in Python 2: an empty byte string, empty unicode text
   * (`u'' == ''`), or a `Binary` wrapper of no bytes (it compares by `.data`).
   */
  predicate IsEmptyText(v: Value) {
    (v.IsText() && v.Chars() == "") || v == Binary("")
  }

  // ----- unicode() of a non-text value -----

  /** The repr of a `Binary`, an old-style instance without `__repr__`; its address is left out. */
  const BinaryRepr := "<xmlrpclib.Binary instance>"

  /**
   * `repr(v)`, which renders the items of a container: strings are quoted and
   * escaped, containers are bracketed with their items' reprs.
   */
  function ReprOf(v: Value): string
    decreases v
  {
    match v
    case Null => "None"
    case Int(i) => IntText(i)
    case Bool(b) => if b then "True" else "False"
    case Float(d) => d
    case Unicode(u) => TextRepr(u, true)
    case Str(s) => TextRepr(s, false)
    case Binary(_) => BinaryRepr
    case List(items) =>
      "[" + JoinComma(seq(|items|, i requires 0 <= i < |items| => ReprOf(items[i]))) + "]"
    case Mapping(pairs) =>
      "{" + JoinComma(seq(|pairs|, i requires 0 <= i < |pairs| =>
                        ReprOf(pairs[i].0) + ": " + ReprOf(pairs[i].1))) + "}"
    case Other(_, r) => r
  }

  /**
   * `str(v)`: integers are decimal and booleans `True`/`False`, a `Binary`
   * gives its bytes, a container its repr, any other object its own text.
   */
  function Display(v: Value): string {
    match v
    case Null => "None"
    case Int(i) => IntText(i)
    case Bool(b) => if b then "True" else "False"
    case Float(d) => d
    case Unicode(u) => u
    case Str(s) => s
    case Binary(d) => d
    case List(_) => ReprOf(v)
    case Mapping(_) => ReprOf(v)
    case Other(d, _) => d
  }

  /** The position of the first character that is not ASCII, or `|t|` when there is none. */
  function FirstNonAscii(t: string): (r: nat)
    ensures r <= |t|
    ensures forall i :: 0 <= i < r ==> t[i] as int < 0x80
    ensures r < |t| ==> t[r] as int >= 0x80
  {
    if t == [] then 0
    else if t[0] as int >= 0x80 then 0
    else
      var r := 1 + FirstNonAscii(t[1..]);
      assert forall i :: 1 <= i < r ==> t[i] == t[1..][i - 1];
      r
  }

  /**
   * `_str(item)` with binary handling: `None` is `''`, other non-text goes
   * through `unicode()`. An object other than a number, a `Binary` or a
   * container gives its own text; for those `unicode()` decodes the text
   * `str()` gives with the ASCII codec and fails at the first byte 0x80 or above.
   */
  function StrOf(item: Value, nonCli: bool): Result<Value> {
    if item.Null? then Ok(Str(""))
    else if item.IsText() then HandleBinaryResult(item, nonCli)
    else if item.Other? then HandleBinaryResult(Unicode(item.display), nonCli)
    else
      var t := Display(item);
      var p := FirstNonAscii(t);
      if p < |t| then Fail(CannotDecode(t[p] as int, p))
      else HandleBinaryResult(Unicode(t), nonCli)
  }

  /** Some key of `ps` is a `Binary`, which cannot be hashed. */
  predicate HasBinaryKey(ps: seq<(Value, Value)>) {
    exists i :: 0 <= i < |ps| && ps[i].0.Binary?
  }

  // ----- building a dict from pairs -----

  /** Python 2 key equality on the texts `_str` produces: `u'a' == 'a'` when the bytes are ASCII. */
  predicate SameKey(a: Value, b: Value) {
    a == b ||
    (a.IsText() && b.IsText() && a.Chars() == b.Chars() && AsciiEncodable(a.Chars()))
  }

  /** `d[k] = v` on a dict held as a list of pairs: an equal key keeps its first spelling and takes the new value. */
  function Insert(d: seq<(Value, Value)>, k: Value, v: Value): seq<(Value, Value)> {
    if d == [] then [(k, v)]
    else if SameKey(d[0].0, k) then [(d[0].0, v)] + d[1..]
    else [d[0]] + Insert(d[1..], k, v)
  }

  /** `dict(pairs)`: the pairs inserted from first to last. */
  function DictOf(ps: seq<(Value, Value)>): seq<(Value, Value)> {
    if ps == [] then [] else Insert(DictOf(ps[..|ps| - 1]), ps[|ps| - 1].0, ps[|ps| - 1].1)
  }

  // ----- _handle_return_value -----

  /** The first failure among `rs`, or all their values. */
  function Collect(rs: seq<Result<Value>>): Result<seq<Value>> {
    if rs == [] then Ok([])
    else if rs[0].Fail? then Fail(rs[0].error)
    else match Collect(rs[1..])
      case Ok(vs) => Ok([rs[0].value] + vs)
      case Fail(e) => Fail(e)
  }

  /** As `Collect`, for (key, value) results; a key is converted before its value. */
  function CollectPairs(rs: seq<(Result<Value>, Result<Value>)>): Result<seq<(Value, Value)>> {
    if rs == [] then Ok([])
    else if rs[0].0.Fail? then Fail(rs[0].0.error)
    else if rs[0].1.Fail? then Fail(rs[0].1.error)
    else match CollectPairs(rs[1..])
      case Ok(ps) => Ok([(rs[0].0.value, rs[0].1.value)] + ps)
      case Fail(e) => Fail(e)
  }

  /**
   * `_handle_return_value`: text gets the binary check, numbers pass unchanged,
   * a mapping gets `_str` keys and recursively marshalled values (and `dict()`
   * refuses a key that `_str` wrapped as `Binary`), any other
   * iterable becomes a list of marshalled items, and what cannot be iterated
   * becomes `_str(ret)`. The `TypeError` handler around the list also catches
   * the `TypeError` of a mapping nested in it, and then gives `_str(ret)`.
   */
  function HandleReturnValue(v: Value, nonCli: bool): Result<Value>
    decreases v, 1
  {
    match v
    case Unicode(_) => HandleBinaryResult(v, nonCli)
    case Str(_) => HandleBinaryResult(v, nonCli)
    case Int(_) => Ok(v)
    case Bool(_) => Ok(v)
    case Float(_) => Ok(v)
    case Mapping(_) =>
      (match CollectPairs(PairResults(v, nonCli))
       case Ok(ps) => if HasBinaryKey(ps) then Fail(UnhashableKey) else Ok(Mapping(DictOf(ps)))
       case Fail(e) => Fail(e))
    case List(_) =>
      (match Collect(ItemResults(v, nonCli))
       case Ok(ws) => Ok(List(ws))
       case Fail(UnhashableKey) => StrOf(v, nonCli)
       case Fail(e) => Fail(e))
    case Null => StrOf(v, nonCli)
    case Binary(_) => StrOf(v, nonCli)
    case Other(_, _) => StrOf(v, nonCli)
  }

  /** `[(_str(key), _handle_return_value(value)) for key, value in ret.items()]`, before any failure is raised. */
  function PairResults(m: Value, nonCli: bool): (rs: seq<(Result<Value>, Result<Value>)>)
    requires m.Mapping?
    decreases m, 0
  {
    seq(|m.pairs|, i requires 0 <= i < |m.pairs| =>
        (StrOf(m.pairs[i].0, nonCli), HandleReturnValue(m.pairs[i].1, nonCli)))
  }

  /** `[_handle_return_value(item) for item in ret]`, before any failure is raised. */
  function ItemResults(l: Value, nonCli: bool): (rs: seq<Result<Value>>)
    requires l.List?
    decreases l, 0
  {
    seq(|l.items|, i requires 0 <= i < |l.items| => HandleReturnValue(l.items[i], nonCli))
  }

  // ----- what a marshalled value looks like on the wire -----

  /**
   * A value the XML-RPC layer can carry as it is: no `None`, no opaque object,
   * and every piece of text binary-safe (binary content is carried as `Binary`).
   */
  predicate WireSafe(w: Value, nonCli: bool)
    decreases w
  {
    match w
    case Null => false
    case Other(_, _) => false
    case Unicode(_) => !ContainsBinary(w, nonCli)
    case Str(_) => !ContainsBinary(w, nonCli)
    case List(items) => forall i :: 0 <= i < |items| ==> WireSafe(items[i], nonCli)
    case Mapping(pairs) =>
      forall i :: 0 <= i < |pairs| ==> WireSafe(pairs[i].0, nonCli) && WireSafe(pairs[i].1, nonCli)
    case Int(_) => true
    case Bool(_) => true
    case Float(_) => true
    case Binary(_) => true
  }

  /** Some pair of `ps` has key `k` (spelled exactly so). */
  predicate HasKey(ps: seq<(Value, Value)>, k: Value) {
    exists i :: 0 <= i < |ps| && ps[i].0 == k
  }

  /** `d` has a key equal to `key`. */
  predicate Covered(d: seq<(Value, Value)>, key: Value) {
    exists j :: 0 <= j < |d| && SameKey(d[j].0, key)
  }

  /** Every key of `ps` has an equal key in `d`. */
  predicate KeysCovered(ps: seq<(Value, Value)>, d: seq<(Value, Value)>) {
    forall i :: 0 <= i < |ps| ==> Covered(d, ps[i].0)
  }

  /** No two keys of `d` are equal as Python dict keys. */
  predicate DistinctKeys(d: seq<(Value, Value)>) {
    forall i, j :: 0 <= i < j < |d| ==> !SameKey(d[i].0, d[j].0)
  }

  /** The position of the first pair of `ps` whose key equals `key`, or `|ps|` when there is none. */
  function FirstIndex(ps: seq<(Value, Value)>, key: Value): (r: nat)
    ensures r <= |ps|
    ensures r < |ps| ==> SameKey(ps[r].0, key)
    ensures forall i :: 0 <= i < r ==> !SameKey(ps[i].0, key)
  {
    if ps == [] then 0
    else if SameKey(ps[0].0, key) then 0
    else
      var r := 1 + FirstIndex(ps[1..], key);
      assert forall i :: 1 <= i < r ==> ps[i] == ps[1..][i - 1];
      r
  }

  /** The position of the last pair of `ps` whose key equals `key`, or -1 when there is none. */
  function LastIndex(ps: seq<(Value, Value)>, key: Value): (r: int)
    ensures -1 <= r < |ps|
    ensures r >= 0 ==> SameKey(ps[r].0, key)
    ensures forall i :: r < i < |ps| ==> !SameKey(ps[i].0, key)
  {
    if ps == [] then -1
    else if SameKey(ps[|ps| - 1].0, key) then |ps| - 1
    else
      var r := LastIndex(ps[..|ps| - 1], key);
      assert forall i :: 0 <= i < |ps| - 1 ==> ps[i] == ps[..|ps| - 1][i];
      r
  }

  /**
   * The entry `p` of `dict(ps)` is as Python builds it: its key is spelled as
   * the first pair with an equal key, and its value is that of the last one.
   */
  predicate EntryOf(ps: seq<(Value, Value)>, p: (Value, Value)) {
    var f := FirstIndex(ps, p.0);
    var l := LastIndex(ps, p.0);
    f < |ps| && ps[f].0 == p.0 && 0 <= l && ps[l].1 == p.1
  }

  // ----- lemmas: the binary check and argument unwrapping -----

  /**
   * `_handle_binary_result` returns its input unchanged unless the text holds a
   * control character, or is a byte string with a byte 0x80..0xFF off `cli`;
   * otherwise it gives `Binary(str(text))`, and fails exactly for unicode text
   * that is not ASCII.
   */
  lemma BinaryCheck(v: Value, nonCli: bool)
    requires v.IsText()
    ensures var t := v.Chars();
      var binary := (exists i :: 0 <= i < |t| && IsControl(t[i])) ||
                    (v.Str? && nonCli && exists i :: 0 <= i < |t| && IsHighByte(t[i]));
      && (!binary ==> HandleBinaryResult(v, nonCli) == Ok(v))
      && (binary && (v.Str? || AsciiEncodable(t)) ==> HandleBinaryResult(v, nonCli) == Ok(Binary(t)))
      && (HandleBinaryResult(v, nonCli).Fail? <==> binary && v.Unicode? && !AsciiEncodable(t))
  {
  }

  /** Text made only of printable ASCII characters is marshalled unchanged, on every platform. */
  lemma PrintableTextUnchanged(v: Value, nonCli: bool)
    requires v.IsText()
    requires forall i :: 0 <= i < |v.Chars()| ==> 0x20 <= v.Chars()[i] as int <= 0x7E
    ensures HandleBinaryResult(v, nonCli) == Ok(v)
  {
    assert !HasControl(v.Chars());
    assert !HasHighByte(v.Chars());
  }

  /** Round trip: wrapping a byte string for the wire and unwrapping it as an argument gives it back. */
  lemma BinaryRoundTrip(s: string, nonCli: bool)
    ensures HandleBinaryResult(Str(s), nonCli).Ok?
    ensures HandleBinaryArg(HandleBinaryResult(Str(s), nonCli).value) == Str(s)
  {
  }

  /** Unicode text that survives the check comes back as a byte string with the same characters. */
  lemma UnicodeRoundTrip(u: string, nonCli: bool)
    requires HandleBinaryResult(Unicode(u), nonCli).Ok?
    ensures HandleBinaryArg(HandleBinaryResult(Unicode(u), nonCli).value).Chars() == u
  {
  }

  /** A byte string holding the bell character 0x07 is carried as `Binary` with the same bytes. */
  lemma BellIsWrapped(s: string, nonCli: bool)
    requires exists i :: 0 <= i < |s| && s[i] == 7 as char
    ensures HandleBinaryResult(Str(s), nonCli) == Ok(Binary(s))
  {
    var i :| 0 <= i < |s| && s[i] == 7 as char;
    assert IsControl(s[i]);
  }

  /**
   * `_handle_binary_args` keeps the number of positional arguments and the set
   * of keyword names, replaces each `Binary` by its data and leaves every other value alone.
   */
  lemma HandleBinaryArgsShape(args: seq<Value>, kwargs: map<string, Value>)
    ensures var (a, kw) := HandleBinaryArgs(args, kwargs);
      && |a| == |args| && kw.Keys == kwargs.Keys
      && (forall i :: 0 <= i < |args| ==>
            a[i] == (if args[i].Binary? then Str(args[i].data) else args[i]))
      && (forall k :: k in kwargs ==>
            kw[k] == (if kwargs[k].Binary? then Str(kwargs[k].data) else kwargs[k]))
  {
  }

  // ----- lemmas: collecting results -----

  /** `Collect` succeeds exactly when every result does, and then keeps their values in order. */
  lemma {:induction false} CollectOk(rs: seq<Result<Value>>)
    ensures Collect(rs).Ok? <==> forall i :: 0 <= i < |rs| ==> rs[i].Ok?
    ensures Collect(rs).Ok? ==>
      |Collect(rs).value| == |rs| &&
      forall i :: 0 <= i < |rs| ==> Collect(rs).value[i] == rs[i].value
  {
    if rs != [] && rs[0].Ok? {
      CollectOk(rs[1..]);
      assert forall i :: 1 <= i < |rs| ==> rs[i] == rs[1..][i - 1];
    }
  }

  /** `CollectPairs` succeeds exactly when every key and value does, and then keeps them pairwise in order. */
  lemma {:induction false} CollectPairsOk(rs: seq<(Result<Value>, Result<Value>)>)
    ensures CollectPairs(rs).Ok? <==> forall i :: 0 <= i < |rs| ==> rs[i].0.Ok? && rs[i].1.Ok?
    ensures CollectPairs(rs).Ok? ==>
      |CollectPairs(rs).value| == |rs| &&
      forall i :: 0 <= i < |rs| ==> CollectPairs(rs).value[i] == (rs[i].0.value, rs[i].1.value)
  {
    if rs != [] && rs[0].0.Ok? && rs[0].1.Ok? {
      CollectPairsOk(rs[1..]);
      assert forall i :: 1 <= i < |rs| ==> rs[i] == rs[1..][i - 1];
    }
  }

  // ----- lemmas: dict construction -----

  /**
   * `d[k] = v`: when `d` has no key equal to `k` the pair is appended;
   * otherwise the first equal key keeps its spelling and takes the value `v`,
   * and every other entry stays as it was.
   */
  lemma {:induction false} InsertShape(d: seq<(Value, Value)>, k: Value, v: Value)
    ensures var j := FirstIndex(d, k);
      && (j == |d| ==> Insert(d, k, v) == d + [(k, v)])
      && (j < |d| ==> Insert(d, k, v) == d[j := (d[j].0, v)])
  {
    if d != [] {
      if SameKey(d[0].0, k) {
        assert Insert(d, k, v) == d[0 := (d[0].0, v)];
      } else {
        var t := d[1..];
        InsertShape(t, k, v);
        var j := FirstIndex(t, k);
        assert FirstIndex(d, k) == j + 1;
        assert d == [d[0]] + t;
        if j == |t| {
          assert [d[0]] + (t + [(k, v)]) == d + [(k, v)];
        } else {
          assert [d[0]] + t[j := (t[j].0, v)] == d[j + 1 := (d[j + 1].0, v)];
        }
      }
    }
  }

  /** Python 2 key equality is symmetric and transitive. */
  lemma SameKeyEquivalence(a: Value, b: Value, c: Value)
    ensures SameKey(a, b) ==> SameKey(b, a)
    ensures SameKey(a, b) && SameKey(b, c) ==> SameKey(a, c)
  {
  }

  /** After `Insert` the dict has a key equal to the new one, and every old key is still spelled as before. */
  lemma {:induction false} InsertCovers(d: seq<(Value, Value)>, k: Value, v: Value)
    ensures exists j :: 0 <= j < |Insert(d, k, v)| && SameKey(Insert(d, k, v)[j].0, k)
    ensures forall i :: 0 <= i < |d| ==> HasKey(Insert(d, k, v), d[i].0)
  {
    var r := Insert(d, k, v);
    if d == [] {
      assert SameKey(r[0].0, k);
    } else if SameKey(d[0].0, k) {
      assert SameKey(r[0].0, k);
      forall i | 0 <= i < |d| ensures HasKey(r, d[i].0) {
        assert r[i].0 == d[i].0;
      }
    } else {
      InsertCovers(d[1..], k, v);
      var r' := Insert(d[1..], k, v);
      assert r == [d[0]] + r';
      var j :| 0 <= j < |r'| && SameKey(r'[j].0, k);
      assert r[j + 1] == r'[j];
      forall i | 0 <= i < |d| ensures HasKey(r, d[i].0) {
        if i == 0 {
          assert r[0].0 == d[0].0;
        } else {
          assert d[i] == d[1..][i - 1];
          var j' :| 0 <= j' < |r'| && r'[j'].0 == d[1..][i - 1].0;
          assert r[j' + 1] == r'[j'];
        }
      }
    }
  }

  /** The tail of a dict with distinct keys has distinct keys. */
  lemma TailDistinct(d: seq<(Value, Value)>)
    requires d != [] && DistinctKeys(d)
    ensures DistinctKeys(d[1..])
  {
    forall i, j | 0 <= i < j < |d[1..]| ensures !SameKey(d[1..][i].0, d[1..][j].0) {
      assert d[1..][i] == d[i + 1] && d[1..][j] == d[j + 1];
    }
  }

  /** A first key different from `k` stays different from every key after inserting `k` into the tail. */
  lemma HeadStaysDistinct(d: seq<(Value, Value)>, k: Value, v: Value)
    requires d != [] && DistinctKeys(d) && !SameKey(d[0].0, k)
    ensures forall p :: p in Insert(d[1..], k, v) ==> !SameKey(d[0].0, p.0)
  {
    var t := d[1..];
    InsertShape(t, k, v);
    forall p | p in Insert(t, k, v) ensures !SameKey(d[0].0, p.0) {
      var m :| 0 <= m < |Insert(t, k, v)| && Insert(t, k, v)[m] == p;
      if m < |t| {
        assert p.0 == t[m].0 == d[m + 1].0;
      }
    }
  }

  /** `Insert` keeps the keys of a dict pairwise distinct. */
  lemma {:induction false} InsertDistinct(d: seq<(Value, Value)>, k: Value, v: Value)
    requires DistinctKeys(d)
    ensures DistinctKeys(Insert(d, k, v))
  {
    var r := Insert(d, k, v);
    if d == [] {
    } else if SameKey(d[0].0, k) {
      assert forall i :: 0 <= i < |d| ==> r[i].0 == d[i].0;
    } else {
      var r' := Insert(d[1..], k, v);
      TailDistinct(d);
      InsertDistinct(d[1..], k, v);
      HeadStaysDistinct(d, k, v);
      assert r == [d[0]] + r';
      forall i, j | 0 <= i < j < |r| ensures !SameKey(r[i].0, r[j].0) {
        assert r[j] == r'[j - 1] && r'[j - 1] in r';
        if i > 0 {
          assert r[i] == r'[i - 1];
        }
      }
    }
  }

  /** `dict(pairs)` never holds two equal keys. */
  lemma {:induction false} DictOfDistinct(ps: seq<(Value, Value)>)
    ensures DistinctKeys(DictOf(ps))
  {
    if ps != [] {
      var n := |ps| - 1;
      DictOfDistinct(ps[..n]);
      InsertDistinct(DictOf(ps[..n]), ps[n].0, ps[n].1);
    }
  }

  /** A key that has an equal key in `d` still has one after `Insert`. */
  lemma InsertKeepsCovered(d: seq<(Value, Value)>, k: Value, v: Value, key: Value)
    requires Covered(d, key)
    ensures Covered(Insert(d, k, v), key)
  {
    var r := Insert(d, k, v);
    InsertCovers(d, k, v);
    var j :| 0 <= j < |d| && SameKey(d[j].0, key);
    assert HasKey(r, d[j].0);
    var j' :| 0 <= j' < |r| && r[j'].0 == d[j].0;
    assert SameKey(r[j'].0, key);
  }

  /** Every key of the input pairs has an equal key in `dict(pairs)`. */
  lemma {:induction false} DictOfCovers(ps: seq<(Value, Value)>)
    ensures KeysCovered(ps, DictOf(ps))
  {
    if ps != [] {
      var n := |ps| - 1;
      var front := ps[..n];
      var d := DictOf(front);
      DictOfCovers(front);
      InsertCovers(d, ps[n].0, ps[n].1);
      var r := DictOf(ps);
      assert r == Insert(d, ps[n].0, ps[n].1);
      forall i | 0 <= i < |ps| ensures Covered(r, ps[i].0) {
        if i < n {
          assert ps[i] == front[i];
          InsertKeepsCovered(d, ps[n].0, ps[n].1, ps[i].0);
        }
      }
    }
  }

  /** Appending a pair makes it the last occurrence of every key equal to its own. */
  lemma LastIndexAppend(front: seq<(Value, Value)>, q: (Value, Value), key: Value)
    ensures LastIndex(front + [q], key) == if SameKey(q.0, key) then |front| else LastIndex(front, key)
  {
    assert (front + [q])[..|front|] == front;
  }

  /** Appending a pair leaves the first occurrence of a key where it was, if there was one. */
  lemma FirstIndexAppend(front: seq<(Value, Value)>, q: (Value, Value), key: Value)
    requires FirstIndex(front, key) < |front|
    ensures FirstIndex(front + [q], key) == FirstIndex(front, key)
  {
    var f := FirstIndex(front, key);
    var g := FirstIndex(front + [q], key);
    assert (front + [q])[f] == front[f];
  }

  /** An entry whose key differs from the appended pair's is described as before. */
  lemma EntryKept(front: seq<(Value, Value)>, q: (Value, Value), p: (Value, Value))
    requires EntryOf(front, p) && !SameKey(q.0, p.0)
    ensures EntryOf(front + [q], p)
  {
    FirstIndexAppend(front, q, p.0);
    LastIndexAppend(front, q, p.0);
    var f := FirstIndex(front, p.0);
    var l := LastIndex(front, p.0);
    assert (front + [q])[f] == front[f] && (front + [q])[l] == front[l];
  }

  /** The entry whose key equals the appended pair's keeps its spelling and takes the new value. */
  lemma EntryUpdated(front: seq<(Value, Value)>, q: (Value, Value), key: Value)
    requires FirstIndex(front, key) < |front| && front[FirstIndex(front, key)].0 == key
    requires SameKey(q.0, key)
    ensures EntryOf(front + [q], (key, q.1))
  {
    FirstIndexAppend(front, q, key);
    LastIndexAppend(front, q, key);
    var f := FirstIndex(front, key);
    assert (front + [q])[f] == front[f];
  }

  /** A key equal to no earlier one is its own first and last occurrence. */
  lemma EntryAdded(front: seq<(Value, Value)>, q: (Value, Value))
    requires FirstIndex(front, q.0) == |front|
    ensures EntryOf(front + [q], q)
  {
    LastIndexAppend(front, q, q.0);
    var g := FirstIndex(front + [q], q.0);
    assert SameKey((front + [q])[|front|].0, q.0);
  }

  /** A key equal to none of `d`'s is equal to none of the pairs `d` covers. */
  lemma UncoveredIsNew(front: seq<(Value, Value)>, d: seq<(Value, Value)>, k: Value)
    requires KeysCovered(front, d) && FirstIndex(d, k) == |d|
    ensures FirstIndex(front, k) == |front|
  {
    forall i | 0 <= i < |front| ensures !SameKey(front[i].0, k) {
      if SameKey(front[i].0, k) {
        assert Covered(d, front[i].0);
        var m :| 0 <= m < |d| && SameKey(d[m].0, front[i].0);
        SameKeyEquivalence(d[m].0, front[i].0, k);
      }
    }
  }

  /** A key equal to none of `dict(front)`'s is equal to none of `front`'s. */
  lemma NewKeyIsNew(front: seq<(Value, Value)>, k: Value)
    requires FirstIndex(DictOf(front), k) == |DictOf(front)|
    ensures FirstIndex(front, k) == |front|
  {
    DictOfCovers(front);
    UncoveredIsNew(front, DictOf(front), k);
  }

  /**
   * `dict(pairs)` keeps, for each key, the spelling of the first pair with an
   * equal key and the value of the last one: later pairs overwrite earlier values.
   */
  lemma {:induction false} DictOfEntries(ps: seq<(Value, Value)>)
    ensures forall j :: 0 <= j < |DictOf(ps)| ==> EntryOf(ps, DictOf(ps)[j])
  {
    if ps != [] {
      var n := |ps| - 1;
      var front := ps[..n];
      var q := ps[n];
      assert ps == front + [q];
      var d := DictOf(front);
      DictOfEntries(front);
      InsertShape(d, q.0, q.1);
      var r := DictOf(ps);
      assert r == Insert(d, q.0, q.1);
      if FirstIndex(d, q.0) == |d| {
        NewKeyIsNew(front, q.0);
        AppendedEntries(front, d, q);
        assert r == d + [q];
      } else {
        DictOfDistinct(front);
        UpdatedEntries(front, d, q);
        var j0 := FirstIndex(d, q.0);
        assert r == d[j0 := (d[j0].0, q.1)];
      }
    }
  }

  /** Appending a pair with a new key to `dict(front)` describes `dict(front + [q])`. */
  lemma AppendedEntries(front: seq<(Value, Value)>, d: seq<(Value, Value)>, q: (Value, Value))
    requires forall j :: 0 <= j < |d| ==> EntryOf(front, d[j])
    requires FirstIndex(front, q.0) == |front| && FirstIndex(d, q.0) == |d|
    ensures EntryOf(front + [q], q)
    ensures forall j :: 0 <= j < |d| ==> EntryOf(front + [q], d[j])
  {
    EntryAdded(front, q);
    forall j | 0 <= j < |d| ensures EntryOf(front + [q], d[j]) {
      OtherKeyKept(front, d, q, j);
    }
  }

  /** An entry of `d` whose key is not equal to `q.0` is described as before once `q` is appended. */
  lemma OtherKeyKept(front: seq<(Value, Value)>, d: seq<(Value, Value)>, q: (Value, Value), j: nat)
    requires j < |d| && EntryOf(front, d[j]) && !SameKey(d[j].0, q.0)
    ensures EntryOf(front + [q], d[j])
  {
    SameKeyEquivalence(q.0, d[j].0, q.0);
    EntryKept(front, q, d[j]);
  }

  /** Overwriting the value of the key equal to `q.0` in `dict(front)` describes `dict(front + [q])`. */
  lemma UpdatedEntries(front: seq<(Value, Value)>, d: seq<(Value, Value)>, q: (Value, Value))
    requires forall j :: 0 <= j < |d| ==> EntryOf(front, d[j])
    requires DistinctKeys(d) && FirstIndex(d, q.0) < |d|
    ensures EntryOf(front + [q], (d[FirstIndex(d, q.0)].0, q.1))
    ensures forall j :: 0 <= j < |d| && j != FirstIndex(d, q.0) ==> EntryOf(front + [q], d[j])
  {
    var j0 := FirstIndex(d, q.0);
    SameKeyEquivalence(d[j0].0, q.0, q.0);
    EntryUpdated(front, q, d[j0].0);
    forall j | 0 <= j < |d| && j != j0 ensures EntryOf(front + [q], d[j]) {
      {
        if SameKey(d[j].0, q.0) {
          SameKeyEquivalence(d[j].0, q.0, d[j0].0);
          SameKeyEquivalence(d[j0].0, q.0, q.0);
          SameKeyEquivalence(d[j0].0, d[j].0, d[j].0);
          assert false;
        }
        OtherKeyKept(front, d, q, j);
      }
    }
  }

  /** `dict(pairs)` has at most as many entries as there are pairs. */
  lemma {:induction false} DictOfLength(ps: seq<(Value, Value)>)
    ensures |DictOf(ps)| <= |ps|
  {
    if ps != [] {
      var n := |ps| - 1;
      DictOfLength(ps[..n]);
      InsertLength(DictOf(ps[..n]), ps[n].0, ps[n].1);
    }
  }

  lemma {:induction false} InsertLength(d: seq<(Value, Value)>, k: Value, v: Value)
    ensures |Insert(d, k, v)| <= |d| + 1
  {
    if d != [] && !SameKey(d[0].0, k) {
      InsertLength(d[1..], k, v);
    }
  }

  // ----- lemmas: _str and _handle_return_value -----

  /** `_str`: `None` becomes the empty byte string; the integer 1 becomes the text "1". */
  lemma StrOfExamples(nonCli: bool)
    ensures StrOf(Null, nonCli) == Ok(Str(""))
    ensures StrOf(Int(1), nonCli) == Ok(Unicode("1"))
    ensures StrOf(Bool(true), nonCli) == Ok(Unicode("True"))
  {
    assert Display(Int(1)) == "1" by { assert DigitsOf(1) == "1"; }
    PrintableTextUnchanged(Unicode("1"), nonCli);
    assert Display(Bool(true)) == "True";
    PrintableTextUnchanged(Unicode("True"), nonCli);
  }

  /** Whatever the binary check lets through is safe to send. */
  lemma BinaryResultWireSafe(v: Value, nonCli: bool)
    requires v.IsText()
    ensures HandleBinaryResult(v, nonCli).Ok? ==> WireSafe(HandleBinaryResult(v, nonCli).value, nonCli)
  {
  }

  /** Whatever `_str` or the binary check produces is safe to send. */
  lemma StrOfWireSafe(item: Value, nonCli: bool)
    ensures StrOf(item, nonCli).Ok? ==> WireSafe(StrOf(item, nonCli).value, nonCli)
  {
    if item.Null? {
    } else if item.IsText() {
      BinaryResultWireSafe(item, nonCli);
    } else if item.Other? {
      BinaryResultWireSafe(Unicode(item.display), nonCli);
    } else {
      BinaryResultWireSafe(Unicode(Display(item)), nonCli);
    }
  }

  /** Integers, booleans and floats are returned unchanged. */
  lemma NumbersUnchanged(v: Value, nonCli: bool)
    requires v.Int? || v.Bool? || v.Float?
    ensures HandleReturnValue(v, nonCli) == Ok(v)
  {
  }

  /** What cannot be iterated is stringified: `None` becomes `''`. */
  lemma NonIterableStringified(v: Value, nonCli: bool)
    requires v.Null? || v.Other? || v.Binary?
    ensures HandleReturnValue(v, nonCli) == StrOf(v, nonCli)
    ensures v.Null? ==> HandleReturnValue(v, nonCli) == Ok(Str(""))
  {
  }

  /** `Collect` stops at the first failure. */
  lemma {:induction false} CollectFirstFailure(rs: seq<Result<Value>>, i: nat)
    requires i < |rs| && rs[i].Fail?
    requires forall j :: 0 <= j < i ==> rs[j].Ok?
    ensures Collect(rs) == Fail(rs[i].error)
    decreases i
  {
    if i > 0 {
      assert forall j :: 0 <= j < i - 1 ==> rs[1..][j] == rs[j + 1];
      CollectFirstFailure(rs[1..], i - 1);
    }
  }

  /**
   * An iterable becomes a list of the marshalled items, of the same length,
   * exactly when every item is marshalled. Otherwise the first item that
   * fails decides: its `TypeError` (an unhashable key in a nested mapping) is
   * caught and the iterable becomes `_str` of it; any other failure is raised.
   */
  lemma ListMarshalled(items: seq<Value>, nonCli: bool)
    ensures var r := HandleReturnValue(List(items), nonCli);
      && ((r.Ok? && r.value.List?) <==> forall i :: 0 <= i < |items| ==> HandleReturnValue(items[i], nonCli).Ok?)
      && (r.Ok? && !r.value.List? ==> r == StrOf(List(items), nonCli))
      && (r.Ok? && r.value.List? ==>
            && |r.value.items| == |items|
            && forall i :: 0 <= i < |items| ==> r.value.items[i] == HandleReturnValue(items[i], nonCli).value)
      && (forall i ::
            (0 <= i < |items| && HandleReturnValue(items[i], nonCli).Fail? &&
             (forall j :: 0 <= j < i ==> HandleReturnValue(items[j], nonCli).Ok?)) ==>
            r == (if HandleReturnValue(items[i], nonCli).error == UnhashableKey then StrOf(List(items), nonCli)
                  else Fail(HandleReturnValue(items[i], nonCli).error)))
  {
    var rs := ItemResults(List(items), nonCli);
    assert forall i :: 0 <= i < |items| ==> rs[i] == HandleReturnValue(items[i], nonCli);
    CollectOk(rs);
    forall i | 0 <= i < |items| && rs[i].Fail? && (forall j :: 0 <= j < i ==> rs[j].Ok?)
      ensures Collect(rs) == Fail(rs[i].error)
    {
      CollectFirstFailure(rs, i);
    }
  }

  /**
   * A mapping is marshalled exactly when `_str` accepts every key without
   * wrapping it as `Binary` and every value is marshalled.
   */
  lemma MappingOk(pairs: seq<(Value, Value)>, nonCli: bool)
    ensures HandleReturnValue(Mapping(pairs), nonCli).Ok? <==>
      forall i :: 0 <= i < |pairs| ==>
        StrOf(pairs[i].0, nonCli).Ok? && !StrOf(pairs[i].0, nonCli).value.Binary? &&
        HandleReturnValue(pairs[i].1, nonCli).Ok?
  {
    var rs := PairResults(Mapping(pairs), nonCli);
    assert forall i :: 0 <= i < |pairs| ==>
      rs[i] == (StrOf(pairs[i].0, nonCli), HandleReturnValue(pairs[i].1, nonCli));
    CollectPairsOk(rs);
    if CollectPairs(rs).Ok? {
      var ps := CollectPairs(rs).value;
      assert forall i :: 0 <= i < |pairs| ==> ps[i].0 == StrOf(pairs[i].0, nonCli).value;
    }
  }

  /**
   * When every key and value converts but some key comes out of `_str` as a
   * `Binary`, `dict()` raises `TypeError`: `Binary` instances are unhashable.
   */
  lemma BinaryKeyUnhashable(pairs: seq<(Value, Value)>, nonCli: bool, i: nat)
    requires forall j :: 0 <= j < |pairs| ==> StrOf(pairs[j].0, nonCli).Ok? && HandleReturnValue(pairs[j].1, nonCli).Ok?
    requires i < |pairs| && StrOf(pairs[i].0, nonCli).value.Binary?
    ensures HandleReturnValue(Mapping(pairs), nonCli) == Fail(UnhashableKey)
  {
    var rs := PairResults(Mapping(pairs), nonCli);
    assert forall j :: 0 <= j < |pairs| ==>
      rs[j] == (StrOf(pairs[j].0, nonCli), HandleReturnValue(pairs[j].1, nonCli));
    assert forall j :: 0 <= j < |rs| ==> rs[j].0.Ok? && rs[j].1.Ok?;
    CollectPairsOk(rs);
    var ps := CollectPairs(rs).value;
    assert ps[i] == (rs[i].0.value, rs[i].1.value);
    assert HasBinaryKey(ps);
  }

  /** `{'\x01': 1}` cannot be returned: its key becomes `Binary`, which `dict()` refuses. */
  lemma ControlKeyRefused(nonCli: bool)
    ensures HandleReturnValue(Mapping([(Str([1 as char]), Int(1))]), nonCli) == Fail(UnhashableKey)
  {
    assert IsControl(1 as char);
    assert StrOf(Str([1 as char]), nonCli) == Ok(Binary([1 as char]));
    BinaryKeyUnhashable([(Str([1 as char]), Int(1))], nonCli, 0);
  }

  /**
   * `_str` of a `Binary`: when every byte is ASCII it is the binary check of
   * the same text as unicode; otherwise it fails with `UnicodeDecodeError`
   * naming the first byte 0x80 or above and its position.
   */
  lemma BinaryStringified(d: string, nonCli: bool)
    ensures AsciiEncodable(d) ==> StrOf(Binary(d), nonCli) == HandleBinaryResult(Unicode(d), nonCli)
    ensures !AsciiEncodable(d) <==> StrOf(Binary(d), nonCli).Fail?
    ensures StrOf(Binary(d), nonCli).Fail? ==>
      var e := StrOf(Binary(d), nonCli).error;
      && e.CannotDecode? && e.position < |d| && e.byte == d[e.position] as int && e.byte >= 0x80
      && forall i :: 0 <= i < e.position ==> d[i] as int < 0x80
  {
    var p := FirstNonAscii(d);
    if AsciiEncodable(d) {
      assert p == |d|;
    } else {
      var i :| 0 <= i < |d| && d[i] as int >= 0x80;
      assert p < |d|;
      BinaryCheck(Unicode(d), nonCli);
    }
  }

  /** A returned `Binary` holding the byte 0xE9 makes `unicode()` fail at position 0. */
  lemma NonAsciiBinaryRefused(nonCli: bool)
    ensures HandleReturnValue(Binary([0xE9 as char]), nonCli) == Fail(CannotDecode(0xE9, 0))
  {
    assert FirstNonAscii([0xE9 as char]) == 0;
  }

  /** `_str(pairs[i][0])` succeeds and equals `key` as a dict key. */
  predicate KeyAt(pairs: seq<(Value, Value)>, i: int, key: Value, nonCli: bool)
    requires 0 <= i < |pairs|
  {
    StrOf(pairs[i].0, nonCli).Ok? && SameKey(StrOf(pairs[i].0, nonCli).value, key)
  }

  /** `k` is `_str` of the first original key equal to it. */
  predicate FirstSpelled(pairs: seq<(Value, Value)>, k: Value, nonCli: bool) {
    exists i :: 0 <= i < |pairs| && StrOf(pairs[i].0, nonCli) == Ok(k) &&
      forall i' :: 0 <= i' < i ==> !KeyAt(pairs, i', k, nonCli)
  }

  /** `p.1` is the marshalled value of the last original pair whose key is equal to `p.0`. */
  predicate LastValued(pairs: seq<(Value, Value)>, p: (Value, Value), nonCli: bool) {
    exists i :: 0 <= i < |pairs| && KeyAt(pairs, i, p.0, nonCli) && HandleReturnValue(pairs[i].1, nonCli) == Ok(p.1) &&
      forall i' :: i < i' < |pairs| ==> !KeyAt(pairs, i', p.0, nonCli)
  }

  /** An entry of `dict(ps)`, where `ps` are the converted `pairs`, read back in terms of `pairs`. */
  lemma EntryTranslated(pairs: seq<(Value, Value)>, ps: seq<(Value, Value)>, p: (Value, Value), nonCli: bool)
    requires |ps| == |pairs|
    requires forall i :: 0 <= i < |pairs| ==>
      StrOf(pairs[i].0, nonCli) == Ok(ps[i].0) && HandleReturnValue(pairs[i].1, nonCli) == Ok(ps[i].1)
    requires EntryOf(ps, p) && !HasBinaryKey(ps)
    ensures p.0.IsText() && FirstSpelled(pairs, p.0, nonCli) && LastValued(pairs, p, nonCli)
  {
    var f := FirstIndex(ps, p.0);
    var l := LastIndex(ps, p.0);
    assert forall i :: 0 <= i < |pairs| ==> (KeyAt(pairs, i, p.0, nonCli) <==> SameKey(ps[i].0, p.0));
    assert StrOf(pairs[f].0, nonCli) == Ok(p.0);
    assert !ps[f].0.Binary?;
    assert KeyAt(pairs, l, p.0, nonCli);
  }

  /**
   * A marshalled mapping has text keys, pairwise different, no more entries
   * than the original and an entry for `_str` of every original key. Each entry
   * is spelled as `_str` of the first original key equal to it and holds the
   * marshalled value of the last original pair with an equal key.
   */
  lemma MappingMarshalled(pairs: seq<(Value, Value)>, nonCli: bool)
    requires HandleReturnValue(Mapping(pairs), nonCli).Ok?
    ensures var r := HandleReturnValue(Mapping(pairs), nonCli).value;
      && r.Mapping?
      && DistinctKeys(r.pairs)
      && |r.pairs| <= |pairs|
      && (forall i :: 0 <= i < |pairs| ==> KeyRepresented(r.pairs, pairs[i].0, nonCli))
      && (forall j :: 0 <= j < |r.pairs| ==>
            r.pairs[j].0.IsText() && FirstSpelled(pairs, r.pairs[j].0, nonCli) && LastValued(pairs, r.pairs[j], nonCli))
  {
    var ps := ConvertedPairs(pairs, nonCli);
    var d := DictOf(ps);
    MappingKeys(pairs, ps, nonCli);
    forall j | 0 <= j < |d|
      ensures d[j].0.IsText() && FirstSpelled(pairs, d[j].0, nonCli) && LastValued(pairs, d[j], nonCli)
    {
      DictOfEntries(ps);
      EntryTranslated(pairs, ps, d[j], nonCli);
    }
  }

  /** The converted pairs of a mapping that marshals: `_str` of each key with the marshalled value. */
  lemma ConvertedPairs(pairs: seq<(Value, Value)>, nonCli: bool) returns (ps: seq<(Value, Value)>)
    requires HandleReturnValue(Mapping(pairs), nonCli).Ok?
    ensures |ps| == |pairs| && !HasBinaryKey(ps)
    ensures forall i :: 0 <= i < |pairs| ==>
      StrOf(pairs[i].0, nonCli) == Ok(ps[i].0) && HandleReturnValue(pairs[i].1, nonCli) == Ok(ps[i].1)
    ensures HandleReturnValue(Mapping(pairs), nonCli) == Ok(Mapping(DictOf(ps)))
  {
    var rs := PairResults(Mapping(pairs), nonCli);
    assert forall i :: 0 <= i < |pairs| ==>
      rs[i] == (StrOf(pairs[i].0, nonCli), HandleReturnValue(pairs[i].1, nonCli));
    CollectPairsOk(rs);
    ps := CollectPairs(rs).value;
  }

  /** The keys of `dict(ps)` for the converted pairs `ps` of `pairs`. */
  lemma MappingKeys(pairs: seq<(Value, Value)>, ps: seq<(Value, Value)>, nonCli: bool)
    requires |ps| == |pairs|
    requires forall i :: 0 <= i < |pairs| ==> StrOf(pairs[i].0, nonCli) == Ok(ps[i].0)
    ensures DistinctKeys(DictOf(ps)) && |DictOf(ps)| <= |pairs|
    ensures forall i :: 0 <= i < |pairs| ==> KeyRepresented(DictOf(ps), pairs[i].0, nonCli)
  {
    DictOfDistinct(ps);
    DictOfLength(ps);
    DictOfCovers(ps);
    forall i | 0 <= i < |pairs| ensures KeyRepresented(DictOf(ps), pairs[i].0, nonCli) {
      assert Covered(DictOf(ps), ps[i].0);
    }
  }

  /** `_str(k)` succeeds and the dict `d` holds a key equal to it. */
  predicate KeyRepresented(d: seq<(Value, Value)>, k: Value, nonCli: bool) {
    StrOf(k, nonCli).Ok? && exists j :: 0 <= j < |d| && SameKey(d[j].0, StrOf(k, nonCli).value)
  }

  /**
   * Marshalling never yields `None`, an opaque object or text that is not
   * binary-safe, at any depth of nesting.
   */
  lemma {:induction false} MarshalledIsWireSafe(v: Value, nonCli: bool)
    ensures HandleReturnValue(v, nonCli).Ok? ==> WireSafe(HandleReturnValue(v, nonCli).value, nonCli)
    decreases v
  {
    match v
    case List(items) =>
      forall i | 0 <= i < |items|
        ensures HandleReturnValue(items[i], nonCli).Ok? ==> WireSafe(HandleReturnValue(items[i], nonCli).value, nonCli)
      {
        MarshalledIsWireSafe(items[i], nonCli);
      }
      ListWireSafe(items, nonCli);
    case Mapping(pairs) =>
      if HandleReturnValue(v, nonCli).Ok? {
        forall i | 0 <= i < |pairs|
          ensures HandleReturnValue(pairs[i].1, nonCli).Ok? ==> WireSafe(HandleReturnValue(pairs[i].1, nonCli).value, nonCli)
          ensures StrOf(pairs[i].0, nonCli).Ok? ==> WireSafe(StrOf(pairs[i].0, nonCli).value, nonCli)
        {
          MarshalledIsWireSafe(pairs[i].1, nonCli);
          StrOfWireSafe(pairs[i].0, nonCli);
        }
        MappingWireSafe(pairs, nonCli);
      }
    case _ =>
  }

  /** A marshalled iterable is wire-safe when its marshalled items are. */
  lemma ListWireSafe(items: seq<Value>, nonCli: bool)
    requires forall i :: 0 <= i < |items| ==>
      HandleReturnValue(items[i], nonCli).Ok? ==> WireSafe(HandleReturnValue(items[i], nonCli).value, nonCli)
    ensures HandleReturnValue(List(items), nonCli).Ok? ==> WireSafe(HandleReturnValue(List(items), nonCli).value, nonCli)
  {
    ListMarshalled(items, nonCli);
    StrOfWireSafe(List(items), nonCli);
    var r := HandleReturnValue(List(items), nonCli);
    if r.Ok? && r.value.List? {
      assert forall i :: 0 <= i < |items| ==> r.value.items[i] == HandleReturnValue(items[i], nonCli).value;
    }
  }

  /** A marshalled mapping is wire-safe when the converted keys and values of its pairs are. */
  lemma MappingWireSafe(pairs: seq<(Value, Value)>, nonCli: bool)
    requires HandleReturnValue(Mapping(pairs), nonCli).Ok?
    requires forall i :: 0 <= i < |pairs| ==>
      (HandleReturnValue(pairs[i].1, nonCli).Ok? ==> WireSafe(HandleReturnValue(pairs[i].1, nonCli).value, nonCli)) &&
      (StrOf(pairs[i].0, nonCli).Ok? ==> WireSafe(StrOf(pairs[i].0, nonCli).value, nonCli))
    ensures WireSafe(HandleReturnValue(Mapping(pairs), nonCli).value, nonCli)
  {
    MappingMarshalled(pairs, nonCli);
    var r := HandleReturnValue(Mapping(pairs), nonCli).value;
    forall j | 0 <= j < |r.pairs|
      ensures WireSafe(r.pairs[j].0, nonCli) && WireSafe(r.pairs[j].1, nonCli)
    {
      var p := r.pairs[j];
      var i :| 0 <= i < |pairs| && StrOf(pairs[i].0, nonCli) == Ok(p.0);
      var i' :| 0 <= i' < |pairs| && HandleReturnValue(pairs[i'].1, nonCli) == Ok(p.1);
    }
  }

  // ----- lemmas: _str of a container -----

  /** Every float and every other object inside `v` has a printable repr. */
  predicate ReprLeavesPrintable(v: Value)
    decreases v
  {
    match v
    case Float(d) => Printable(d)
    case Other(_, r) => Printable(r)
    case List(items) => forall i :: 0 <= i < |items| ==> ReprLeavesPrintable(items[i])
    case Mapping(pairs) =>
      forall i :: 0 <= i < |pairs| ==> ReprLeavesPrintable(pairs[i].0) && ReprLeavesPrintable(pairs[i].1)
    case _ => true
  }

  /** The repr of a value is printable ASCII when its floats and other objects have printable reprs. */
  lemma {:induction false} ReprPrintable(v: Value)
    requires ReprLeavesPrintable(v)
    ensures Printable(ReprOf(v))
    decreases v
  {
    match v
    case Int(i) => IntTextPrintable(i);
    case Unicode(u) => TextReprPrintable(u, true);
    case Str(t) => TextReprPrintable(t, false);
    case List(items) =>
      var parts := seq(|items|, i requires 0 <= i < |items| => ReprOf(items[i]));
      forall i | 0 <= i < |items| ensures Printable(parts[i]) {
        ReprPrintable(items[i]);
      }
      JoinCommaPrintable(parts);
      PrintableConcat("[", JoinComma(parts));
      PrintableConcat("[" + JoinComma(parts), "]");
    case Mapping(pairs) =>
      var parts := seq(|pairs|, i requires 0 <= i < |pairs| => ReprOf(pairs[i].0) + ": " + ReprOf(pairs[i].1));
      forall i | 0 <= i < |pairs| ensures Printable(parts[i]) {
        ReprPrintable(pairs[i].0);
        ReprPrintable(pairs[i].1);
        PrintableConcat(ReprOf(pairs[i].0), ": ");
        PrintableConcat(ReprOf(pairs[i].0) + ": ", ReprOf(pairs[i].1));
      }
      JoinCommaPrintable(parts);
      PrintableConcat("{", JoinComma(parts));
      PrintableConcat("{" + JoinComma(parts), "}");
    case _ =>
  }

  /**
   * `_str` of a list or mapping is its repr, decoded as ASCII: it fails with
   * `UnicodeDecodeError` exactly when the repr holds a byte of 0x80 or more,
   * and a repr whose floats and other objects render printably comes back as
   * that unicode text, unchanged by the binary check.
   */
  lemma ContainerStringified(v: Value, nonCli: bool)
    requires v.List? || v.Mapping?
    ensures AsciiEncodable(ReprOf(v)) ==> StrOf(v, nonCli) == HandleBinaryResult(Unicode(ReprOf(v)), nonCli)
    ensures !AsciiEncodable(ReprOf(v)) <==> StrOf(v, nonCli).Fail?
    ensures ReprLeavesPrintable(v) ==> Printable(ReprOf(v)) && StrOf(v, nonCli) == Ok(Unicode(ReprOf(v)))
  {
    if ReprLeavesPrintable(v) {
      ReprPrintable(v);
      PrintableTextUnchanged(Unicode(ReprOf(v)), nonCli);
    }
  }

  /**
   * `[{'\x01': 1}]` is returned as the text `[{'\\x01': 1}]`: the nested
   * dict's `TypeError` is caught by the handler around the list.
   */
  lemma NestedUnhashableStringified(nonCli: bool)
    ensures HandleReturnValue(List([Mapping([(Str([1 as char]), Int(1))])]), nonCli)
      == Ok(Unicode("[{'\\x01': 1}]"))
  {
    var inner := Mapping([(Str([1 as char]), Int(1))]);
    ControlKeyRefused(nonCli);
    ListMarshalled([inner], nonCli);
    assert HandleReturnValue(List([inner]), nonCli) == StrOf(List([inner]), nonCli);
    NestedRepr();
    ContainerStringified(List([inner]), nonCli);
  }

  /** The repr of `[{'\x01': 1}]`, whose leaves all render printably. */
  lemma NestedRepr()
    ensures var v := List([Mapping([(Str([1 as char]), Int(1))])]);
      ReprLeavesPrintable(v) && ReprOf(v) == "[{'\\x01': 1}]"
  {
    var inner := Mapping([(Str([1 as char]), Int(1))]);
    ControlByteRepr();
    assert ReprOf(Str([1 as char])) == "'\\x01'";
    assert DigitsOf(1) == "1";
    assert ReprOf(Int(1)) == "1";
    var parts := seq(1, i requires 0 <= i < 1 => ReprOf(inner.pairs[i].0) + ": " + ReprOf(inner.pairs[i].1));
    assert |parts| == 1 && parts[0] == "'\\x01': 1";
    assert ReprOf(inner) == "{" + JoinComma(parts) + "}";
    var outer := seq(1, i requires 0 <= i < 1 => ReprOf([inner][i]));
    assert |outer| == 1 && outer[0] == "{'\\x01': 1}";
    assert ReprOf(List([inner])) == "[" + JoinComma(outer) + "]";
  }

  /** `{('\x01',): 1}`, with a list standing for the tuple, keeps its key: `_str` of the container key is its escaped repr. */
  lemma ContainerKeyStringified(nonCli: bool)
    ensures HandleReturnValue(Mapping([(List([Str([1 as char])]), Int(1))]), nonCli)
      == Ok(Mapping([(Unicode("['\\x01']"), Int(1))]))
  {
    KeyText(nonCli);
    SinglePairMarshalled(List([Str([1 as char])]), Unicode("['\\x01']"), Int(1), nonCli);
  }

  /** A one-pair mapping whose key `_str` turns into a non-`Binary` `k` and whose value is unchanged becomes `{k: value}`. */
  lemma SinglePairMarshalled(key: Value, k: Value, v: Value, nonCli: bool)
    requires StrOf(key, nonCli) == Ok(k) && !k.Binary?
    requires HandleReturnValue(v, nonCli) == Ok(v)
    ensures HandleReturnValue(Mapping([(key, v)]), nonCli) == Ok(Mapping([(k, v)]))
  {
    var rs := PairResults(Mapping([(key, v)]), nonCli);
    assert |rs| == 1 && rs[0] == (Ok(k), Ok(v));
    assert CollectPairs(rs) == Ok([(k, v)]) by {
      assert rs[1..] == [];
      assert CollectPairs(rs[1..]) == Ok([]);
      assert [(rs[0].0.value, rs[0].1.value)] + [] == [(k, v)];
    }
    assert !HasBinaryKey([(k, v)]);
    assert DictOf([(k, v)]) == [(k, v)] by {
      assert [(k, v)][..0] == [];
    }
  }

  /** `_str(['\x01'])` is the unicode text `['\\x01']`. */
  lemma KeyText(nonCli: bool)
    ensures StrOf(List([Str([1 as char])]), nonCli) == Ok(Unicode("['\\x01']"))
  {
    KeyRepr();
    ContainerStringified(List([Str([1 as char])]), nonCli);
  }

  /** The repr of `['\x01']`. */
  lemma KeyRepr()
    ensures var v := List([Str([1 as char])]);
      ReprLeavesPrintable(v) && ReprOf(v) == "['\\x01']"
  {
    ControlByteRepr();
    assert ReprOf(Str([1 as char])) == "'\\x01'";
    var parts := seq(1, i requires 0 <= i < 1 => ReprOf([Str([1 as char])][i]));
    assert |parts| == 1 && parts[0] == "'\\x01'";
    assert ReprOf(List([Str([1 as char])])) == "[" + JoinComma(parts) + "]";
  }
}
