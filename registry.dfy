/**
 * Keyword discovery on the wrapped library: the public names, the
 * function-or-method lookup, argument specifications and documentation.
 */
module Registry {
  import opened Wrappers

  /** A plain function, or a bound method whose first parameter is the receiver. */
  datatype RoutineKind = Function | Method

  /**
   * What `inspect.getargspec` reports: the parameter names in declaration
   * order, the display text of each default (for the last `|defaults|`
   * parameters), and the names of the `*` and `**` parameters if any.
   */
  datatype Signature = Signature(
    params: seq<string>,
    defaults: seq<string>,
    varargs: Option<string>,
    kwargs: Option<string>)

  /** A function or method attribute of the library; `doc` is what `inspect.getdoc` gives. */
  datatype Keyword = Keyword(kind: RoutineKind, sig: Signature, doc: Option<string>)

  /** An attribute of the library: a function or method, or anything else (constants, classes, sub-modules). */
  datatype Attr = Routine(kw: Keyword) | Plain

  /**
   * The wrapped library as introspection sees it: `dir()` in its order, the
   * attributes by name, the library's own documentation, and whether it is a module.
   */
  datatype Library = Library(
    dir: seq<string>,
    attrs: map<string, Attr>,
    doc: Option<string>,
    isModule: bool)

  /** `dir()` never lists an empty name. */
  predicate NamesNonEmpty(names: seq<string>) {
    forall i :: 0 <= i < |names| ==> names[i] != ""
  }

  /** `attr[0] != '_'`. */
  predicate IsPublic(name: string)
    requires name != ""
  {
    name[0] != '_'
  }

  /** The names of `names` whose first character is not `_`, in the same order. */
  function PublicNames(names: seq<string>): (r: seq<string>)
    requires NamesNonEmpty(names)
    ensures NamesNonEmpty(r)
    ensures forall n :: n in r <==> n in names && IsPublic(n)
  {
    if names == [] then []
    else
      var rest := PublicNames(names[1..]);
      assert forall n :: n in names[1..] ==> n in names;
      assert forall n :: n in names ==> n == names[0] || n in names[1..];
      if IsPublic(names[0]) then [names[0]] + rest else rest
  }

  /** `get_keyword_names`. */
  function GetKeywordNames(lib: Library): seq<string>
    requires NamesNonEmpty(lib.dir)
  {
    PublicNames(lib.dir)
  }

  /** `_is_function_or_method` applied to `getattr(lib, name, None)`. */
  predicate IsFunctionOrMethod(lib: Library, name: string) {
    name in lib.attrs && lib.attrs[name].Routine?
  }

  /** `_get_keyword`: the function or method of that name, or `None`. */
  function GetKeyword(lib: Library, name: string): (r: Option<Keyword>)
    ensures r.Some? <==> IsFunctionOrMethod(lib, name)
    ensures r.Some? ==> lib.attrs[name] == Routine(r.value)
  {
    if IsFunctionOrMethod(lib, name) then Some(lib.attrs[name].kw) else None
  }

  /** The parameters after dropping the receiver of a method (`args[1:]`, which is empty on an empty list). */
  function Receiverless(kw: Keyword): seq<string> {
    if kw.kind == Method && kw.sig.params != [] then kw.sig.params[1..]
    else if kw.kind == Method then []
    else kw.sig.params
  }

  /** Where the defaulted parameters start: `args[:-k]`, which is empty when `k` exceeds the count. */
  function DefaultsStart(n: nat, k: nat): nat {
    if k <= n then n - k else 0
  }

  /** The `*name` entry, if there is a `*` parameter. */
  function VarargsEntry(sig: Signature): seq<string> {
    if sig.varargs.Some? then ["*" + sig.varargs.value] else []
  }

  /** The `**name` entry, if there is a `**` parameter. */
  function KwargsEntry(sig: Signature): seq<string> {
    if sig.kwargs.Some? then ["**" + sig.kwargs.value] else []
  }

  /** `['%s=%s' % (n, d) for n, d in zip(names, defaults)]`. */
  function DefaultPairs(names: seq<string>, defaults: seq<string>): seq<string> {
    var count := if |names| <= |defaults| then |names| else |defaults|;
    seq(count, i requires 0 <= i < count => names[i] + "=" + defaults[i])
  }

  /**
   * The argument specification: the required parameters, then `name=default`
   * for the parameters that have defaults (names and defaults paired from the
   * front, as `zip` does), then `*varargs`, then `**kwargs`.
   */
  function ArgSpec(kw: Keyword): seq<string> {
    var ps := Receiverless(kw);
    var start := DefaultsStart(|ps|, |kw.sig.defaults|);
    ps[..start] + DefaultPairs(ps[start..], kw.sig.defaults) + VarargsEntry(kw.sig) + KwargsEntry(kw.sig)
  }

  /** `_arguments_from_kw`: rebuilds the list of parameters step by step. */
  method ArgumentsFromKw(kw: Keyword) returns (args: seq<string>)
    ensures args == ArgSpec(kw)
  {
    args := kw.sig.params;
    if kw.kind == Method {
      args := if args == [] then [] else args[1..];
    }
    ghost var ps := args;
    var defaults := kw.sig.defaults;
    if defaults != [] {
      var start := DefaultsStart(|args|, |defaults|);
      var names := args[start..];
      args := args[..start];
      args := args + DefaultPairs(names, defaults);
    } else {
      assert args == ps[..|ps|] + DefaultPairs(ps[|ps|..], defaults);
    }
    if kw.sig.varargs.Some? {
      args := args + ["*" + kw.sig.varargs.value];
    }
    if kw.sig.kwargs.Some? {
      args := args + ["**" + kw.sig.kwargs.value];
    }
  }

  /** `get_keyword_documentation`. */
  function GetKeywordDocumentation(lib: Library, name: string): (r: string)
    ensures name == "__intro__" ==> r == lib.doc.GetOr("")
    ensures name == "__init__" && lib.isModule ==> r == ""
    ensures name != "__intro__" && !(name == "__init__" && lib.isModule) ==>
      r == if IsFunctionOrMethod(lib, name) then lib.attrs[name].kw.doc.GetOr("") else ""
  {
    if name == "__intro__" then lib.doc.GetOr("")
    else if name == "__init__" && lib.isModule then ""
    else match GetKeyword(lib, name)
      case Some(kw) => kw.doc.GetOr("")
      case None => ""
  }

  /** `get_keyword_arguments`: `[]` for a name that is not a function or method, else the argument specification. */
  method GetKeywordArguments(lib: Library, name: string) returns (args: seq<string>)
    ensures !IsFunctionOrMethod(lib, name) ==> args == []
    ensures IsFunctionOrMethod(lib, name) ==> args == ArgSpec(lib.attrs[name].kw)
  {
    var kw := GetKeyword(lib, name);
    if kw.None? {
      return [];
    }
    args := ArgumentsFromKw(kw.value);
  }

  // ----- lemmas -----

  /** Keyword discovery keeps `dir()`'s order: it distributes over concatenation. */
  lemma {:induction false} PublicNamesAppend(a: seq<string>, b: seq<string>)
    requires NamesNonEmpty(a) && NamesNonEmpty(b)
    ensures NamesNonEmpty(a + b)
    ensures PublicNames(a + b) == PublicNames(a) + PublicNames(b)
  {
    assert NamesNonEmpty(a + b) by {
      forall i | 0 <= i < |a + b| ensures (a + b)[i] != "" {
        if i >= |a| { assert (a + b)[i] == b[i - |a|]; }
      }
    }
    if a != [] {
      assert (a + b)[1..] == a[1..] + b;
      assert (a + b)[0] == a[0];
      PublicNamesAppend(a[1..], b);
    } else {
      assert a + b == b;
    }
  }

  /**
   * The names are exactly the public entries of `dir()`, whatever kind of
   * attribute they name: a public constant is listed as a keyword too.
   */
  lemma KeywordNamesIgnoreKind(lib: Library, name: string)
    requires NamesNonEmpty(lib.dir)
    ensures name in GetKeywordNames(lib) <==> name in lib.dir && name != "" && name[0] != '_'
  {
  }

  /** A library with one public non-callable attribute still offers it as a keyword. */
  lemma PlainAttributeListed()
    ensures GetKeywordNames(Library(["_private", "timeout"], map["timeout" := Plain], None, true)) == ["timeout"]
  {
    assert ["_private", "timeout"][1..] == ["timeout"];
    assert ["timeout"][1..] == [];
  }

  /**
   * The shape of an argument specification when no parameter lacks room for
   * its default: the required names, then each defaulted name with its default
   * in declaration order, then `*varargs` and `**kwargs`.
   */
  lemma ArgSpecShape(kw: Keyword)
    requires |kw.sig.defaults| <= |Receiverless(kw)|
    ensures var ps, ds, r := Receiverless(kw), kw.sig.defaults, ArgSpec(kw);
      var req := |ps| - |ds|;
      && |r| == |ps| + |VarargsEntry(kw.sig)| + |KwargsEntry(kw.sig)|
      && (forall i :: 0 <= i < req ==> r[i] == ps[i])
      && (forall i :: req <= i < |ps| ==> r[i] == ps[i] + "=" + ds[i - req])
      && (kw.sig.varargs.Some? ==> r[|ps|] == "*" + kw.sig.varargs.value)
      && (kw.sig.kwargs.Some? ==> r[|r| - 1] == "**" + kw.sig.kwargs.value)
  {
    var ps, ds := Receiverless(kw), kw.sig.defaults;
    var req := |ps| - |ds|;
    var r := ArgSpec(kw);
    var head := ps[..req] + DefaultPairs(ps[req..], ds);
    var tail := VarargsEntry(kw.sig) + KwargsEntry(kw.sig);
    DefaultsShape(ps, ds);
    assert r == head + tail;
    forall i | 0 <= i < |ps| ensures r[i] == head[i] {
    }
    assert |r| == |head| + |tail|;
    if kw.sig.varargs.Some? {
      assert r[|ps|] == tail[0];
    }
    if kw.sig.kwargs.Some? {
      assert r[|r| - 1] == tail[|tail| - 1];
    }
  }

  /** The required names followed by one `name=default` entry per trailing parameter. */
  lemma DefaultsShape(ps: seq<string>, ds: seq<string>)
    requires |ds| <= |ps|
    ensures var req := |ps| - |ds|;
      var head := ps[..req] + DefaultPairs(ps[req..], ds);
      && |head| == |ps|
      && (forall i :: 0 <= i < req ==> head[i] == ps[i])
      && (forall i :: req <= i < |ps| ==> head[i] == ps[i] + "=" + ds[i - req])
  {
    var req := |ps| - |ds|;
    var pairs := DefaultPairs(ps[req..], ds);
    assert |pairs| == |ds|;
    forall i | req <= i < |ps| ensures (ps[..req] + pairs)[i] == ps[i] + "=" + ds[i - req] {
      assert (ps[..req] + pairs)[i] == pairs[i - req];
      assert ps[req..][i - req] == ps[i];
    }
  }

  /** A method's receiver does not appear: `def click(self, window)` is specified as `["window"]`. */
  lemma MethodReceiverDropped()
    ensures ArgSpec(Keyword(Method, Signature(["self", "window", "timeout"], ["5"], None, None), None))
         == ["window", "timeout=5"]
  {
    var kw := Keyword(Method, Signature(["self", "window", "timeout"], ["5"], None, None), None);
    assert Receiverless(kw) == ["window", "timeout"];
    assert "timeout" + "=" + "5" == "timeout=5";
    assert DefaultPairs(["timeout"], ["5"])[0] == "timeout=5";
    assert ["window", "timeout"][1..] == ["timeout"];
  }
}
