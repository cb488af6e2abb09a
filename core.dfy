/**
 * The run-time half: `prototype("name(a, b)")` declares a name by binding a
 * placeholder object to it; calling the placeholder forwards to a real
 * function of that name once one is bound, and otherwise reports the call.
 */
module Core {
  import opened Wrappers
  import opened Text

  /** The `SyntaxError` raised for a signature without `(` or not ending in `)`. */
  datatype SyntaxError = SyntaxError(message: string)

  const SignatureMessage: string := "Prototype must look like 'name(arg1, arg2)'"

  /** What `prototype` reads from a signature: the name and the argument names. */
  datatype Signature = Signature(name: string, argnames: seq<string>)

  /** The position of the first `c` in `s`. */
  function FirstIndex(s: string, c: char): (k: nat)
    requires c in s
    ensures k < |s| && s[k] == c && c !in s[..k]
  {
    if s[0] == c then 0
    else
      var k := 1 + FirstIndex(s[1..], c);
      assert s[..k] == [s[0]] + s[1..][..k - 1];
      k
  }

  /** `[a.strip() for a in args_str.split(",")] if args_str else []` */
  function ArgNames(argsStr: string): seq<string>
  {
    if argsStr == [] then []
    else
      var parts := Split(argsStr, ',');
      seq(|parts|, i requires 0 <= i < |parts| => Strip(parts[i]))
  }

  /**
   * The checks and the parsing `prototype(signature)` does before it builds
   * the placeholder: split at the first `(`, drop the final `)`, strip.
   */
  function ParseSignature(signature: string): (r: Result<Signature, SyntaxError>)
    ensures r.Err? <==> '(' !in signature || !EndsWith(signature, ")")
    ensures r.Err? ==> r.error == SyntaxError(SignatureMessage)
  {
    if '(' !in signature || !EndsWith(signature, ")") then Err(SyntaxError(SignatureMessage))
    else
      var k := FirstIndex(signature, '(');
      var name := Strip(signature[..k]);
      var argsStr := Strip(signature[k + 1..|signature| - 1]);
      Ok(Signature(name, ArgNames(argsStr)))
  }

  /** The text `__repr__` shows between `<prototype ` and `>`: `name(a, b)`. */
  function Render(sig: Signature): string
  {
    sig.name + "(" + Join(sig.argnames, ", ") + ")"
  }

  /** Number of occurrences of `c` in `s`. */
  function Count(s: string, c: char): nat
  {
    multiset(s)[c]
  }

  lemma {:induction false} SplitCount(s: string, sep: char)
    ensures |Split(s, sep)| == Count(s, sep) + 1
  {
    if s != [] {
      SplitCount(s[1..], sep);
      assert s == [s[0]] + s[1..];
      assert multiset(s) == multiset([s[0]]) + multiset(s[1..]);
    }
  }

  /** A non-empty argument text has one more argument name than it has commas; an empty one has none. */
  lemma ArgNamesCount(argsStr: string)
    ensures |ArgNames(argsStr)| == if argsStr == [] then 0 else Count(argsStr, ',') + 1
  {
    if argsStr != [] {
      SplitCount(argsStr, ',');
    }
  }

  /** Argument names are stripped and hold no comma. */
  lemma ArgNamesClean(argsStr: string)
    ensures forall i :: 0 <= i < |ArgNames(argsStr)| ==> IsStripped(ArgNames(argsStr)[i]) && ',' !in ArgNames(argsStr)[i]
  {
    if argsStr != [] {
      var parts := Split(argsStr, ',');
      forall i | 0 <= i < |parts|
        ensures IsStripped(Strip(parts[i])) && ',' !in Strip(parts[i])
      {
        var lead, trail := StripShape(parts[i]);
        assert forall ch :: ch in Strip(parts[i]) ==> ch in parts[i];
      }
    }
  }

  /**
   * A signature `Render` can write and `ParseSignature` reads back unchanged:
   * the name and the argument names are stripped, the name holds no `(` and
   * no argument name a comma. Argument names may be empty, except that the
   * single empty name is written `name()`, which reads back as no names.
   */
  predicate WellFormed(sig: Signature)
  {
    && IsStripped(sig.name) && '(' !in sig.name
    && sig.argnames != [[]]
    && forall i :: 0 <= i < |sig.argnames| ==> IsStripped(sig.argnames[i]) && ',' !in sig.argnames[i]
  }

  /**
   * What `prototype` parses is well formed: the name is stripped and holds no
   * `(`; the argument names are stripped, hold no comma, and are never the
   * single empty name.
   */
  lemma ParsedSignature(signature: string)
    requires ParseSignature(signature).Ok?
    ensures WellFormed(ParseSignature(signature).value)
  {
    var k := FirstIndex(signature, '(');
    var lead, trail := StripShape(signature[..k]);
    assert forall ch :: ch in Strip(signature[..k]) ==> ch in signature[..k];
    var lead', trail' := StripShape(signature[k + 1..|signature| - 1]);
    var argsStr := Strip(signature[k + 1..|signature| - 1]);
    ArgNamesClean(argsStr);
    NotSingleEmptyName(argsStr);
  }

  /** A stripped argument text never yields the single empty name. */
  lemma NotSingleEmptyName(argsStr: string)
    requires IsStripped(argsStr)
    ensures ArgNames(argsStr) != [[]]
  {
    if argsStr != [] {
      if ',' in argsStr {
        ArgNamesCount(argsStr);
        assert ',' in multiset(argsStr);
      } else {
        SplitNoSeparator(argsStr, ',');
        StripOfStripped(argsStr);
        assert ArgNames(argsStr) == [argsStr];
      }
    }
  }

  /** Names joined by a separator that starts with a non-space start with a non-space. */
  lemma JoinedStart(xs: seq<string>, sep: string)
    requires xs != [] && xs != [[]]
    requires sep != [] && !IsSpace(sep[0])
    requires forall i :: 0 <= i < |xs| ==> IsStripped(xs[i])
    ensures Join(xs, sep) != [] && !IsSpace(Join(xs, sep)[0])
  {
    var j := Join(xs, sep);
    if |xs| == 1 {
      assert j == xs[0];
    } else {
      var rest := sep + Join(xs[1..], sep);
      assert j == xs[0] + rest;
      if xs[0] == [] {
        assert j == rest;
        assert j[0] == sep[0];
      } else {
        assert j[0] == xs[0][0];
      }
    }
  }

  /** Names joined by a separator that starts with a non-space have no leading whitespace to strip. */
  lemma JoinedStripStart(xs: seq<string>, sep: string)
    requires xs != [] && xs != [[]]
    requires sep != [] && !IsSpace(sep[0])
    requires forall i :: 0 <= i < |xs| ==> IsStripped(xs[i])
    ensures StripStart(Join(xs, sep)) == Join(xs, sep)
  {
    JoinedStart(xs, sep);
    StripStartOf([], Join(xs, sep));
    assert [] + Join(xs, sep) == Join(xs, sep);
  }

  /**
   * Names joined by `", "` after some whitespace, with trailing whitespace
   * cut, split at the commas into one piece per name, and each piece strips
   * back to its name. A final empty name leaves only its space, which the
   * cut removes.
   */
  lemma {:induction false} PaddedNames(pad: string, ys: seq<string>)
    requires AllSpaces(pad) && ys != []
    requires forall i :: 0 <= i < |ys| ==> IsStripped(ys[i]) && ',' !in ys[i]
    ensures StripEach(Split(StripEnd(pad + Join(ys, ", ")), ',')) == ys
    decreases |ys|
  {
    if |ys| == 1 {
      PaddedLast(pad, ys);
    } else {
      PaddedNames(" ", ys[1..]);
      PaddedCons(pad, ys);
    }
  }

  /** The first name, followed by the others: its piece ends at the comma after it. */
  lemma PaddedCons(pad: string, ys: seq<string>)
    requires AllSpaces(pad) && |ys| > 1
    requires IsStripped(ys[0]) && ',' !in ys[0]
    requires StripEach(Split(StripEnd(" " + Join(ys[1..], ", ")), ',')) == ys[1..]
    ensures StripEach(Split(StripEnd(pad + Join(ys, ", ")), ',')) == ys
  {
    var rest := Join(ys[1..], ", ");
    var later := Split(StripEnd(" " + rest), ',');
    PaddedStep(pad, ys[0], rest, Join(ys, ", "));
    PaddedHead(pad, ys[0]);
    assert ([pad + ys[0]] + later)[1..] == later;
  }

  /** `strip` applied to each piece, in order. */
  function StripEach(parts: seq<string>): (r: seq<string>)
    ensures |r| == |parts|
    ensures forall i :: 0 <= i < |parts| ==> r[i] == Strip(parts[i])
  {
    if parts == [] then [] else [Strip(parts[0])] + StripEach(parts[1..])
  }

  /** The last name, after whitespace and with trailing whitespace cut, is one piece that strips to the name. */
  lemma PaddedLast(pad: string, ys: seq<string>)
    requires AllSpaces(pad) && |ys| == 1
    requires IsStripped(ys[0]) && ',' !in ys[0]
    ensures StripEach(Split(StripEnd(pad + Join(ys, ", ")), ',')) == ys
  {
    var y := ys[0];
    assert Join(ys, ", ") == y;
    if y == [] {
      assert pad + y == [] + pad;
      StripEndOf([], pad);
    } else {
      assert pad + y + [] == pad + y;
      StripEndOf(pad + y, []);
      PaddedHead(pad, y);
    }
  }

  /** A name after whitespace is one piece that strips to the name. */
  lemma PaddedHead(pad: string, y: string)
    requires AllSpaces(pad) && IsStripped(y) && ',' !in y
    ensures Split(pad + y, ',') == [pad + y]
    ensures Strip(pad + y) == y
  {
    assert ',' !in pad + y;
    SplitNoSeparator(pad + y, ',');
    StripPadded(pad, y, []);
    assert pad + y + [] == pad + y;
  }

  /** The comma after a name ends its piece; the rest is cut and split on its own. */
  lemma PaddedStep(pad: string, y: string, rest: string, joined: string)
    requires AllSpaces(pad) && IsStripped(y) && ',' !in y
    requires joined == y + ", " + rest
    ensures Split(StripEnd(pad + joined), ',') == [pad + y] + Split(StripEnd(" " + rest), ',')
  {
    var a := pad + y + ",";
    assert pad + joined == a + (" " + rest);
    StripEndAppend(a, " " + rest);
    var tail := StripEnd(" " + rest);
    assert a + tail == (pad + y) + [','] + tail;
    SplitAround(pad + y, ',', tail);
    PaddedHead(pad, y);
  }

  /** Reading back the names of a well-formed signature, joined by `", "`, gives them unchanged. */
  lemma ArgNamesOfJoined(xs: seq<string>)
    requires xs != [[]]
    requires forall i :: 0 <= i < |xs| ==> IsStripped(xs[i]) && ',' !in xs[i]
    ensures ArgNames(Strip(Join(xs, ", "))) == xs
  {
    if xs != [] {
      StrippedJoin(xs);
      ArgNamesOfText(Strip(Join(xs, ", ")));
      PaddedNames([], xs);
    }
  }

  /** The argument names of non-empty text are its comma-separated pieces, each stripped. */
  lemma ArgNamesOfText(argsStr: string)
    requires argsStr != []
    ensures ArgNames(argsStr) == StripEach(Split(argsStr, ','))
  {
  }

  /** Stripping names joined by `", "` cuts only trailing whitespace, and leaves some text. */
  lemma StrippedJoin(xs: seq<string>)
    requires xs != [] && xs != [[]]
    requires forall i :: 0 <= i < |xs| ==> IsStripped(xs[i])
    ensures Strip(Join(xs, ", ")) == StripEnd([] + Join(xs, ", ")) != []
  {
    var j := Join(xs, ", ");
    JoinedStripStart(xs, ", ");
    JoinedStart(xs, ", ");
    var lead, trail := StripShape(j);
    assert !AllSpaces(j);
    assert [] + j == j;
  }

  /** `prototype` reads back exactly the signature a placeholder shows. */
  lemma ParseRender(sig: Signature)
    requires WellFormed(sig)
    ensures ParseSignature(Render(sig)) == Ok(sig)
  {
    var j := Join(sig.argnames, ", ");
    var s := Render(sig);
    assert s == sig.name + ("(" + (j + ")"));
    assert s[|sig.name|] == '(';
    assert s[..|sig.name|] == sig.name;
    assert EndsWith(s, ")");
    assert FirstIndex(s, '(') == |sig.name|;
    assert s[|sig.name| + 1..|s| - 1] == j;
    StripOfStripped(sig.name);
    ArgNamesOfJoined(sig.argnames);
  }

  /** Rendering what `prototype` parsed and parsing it again reads the same signature. */
  lemma ParseRenderParse(signature: string)
    requires ParseSignature(signature).Ok?
    ensures ParseSignature(Render(ParseSignature(signature).value)) == ParseSignature(signature)
  {
    ParsedSignature(signature);
    ParseRender(ParseSignature(signature).value);
  }

  /** `str(v)` of an argument or result value. */
  datatype Value = NoneValue | Object(text: string)

  function Str(v: Value): string
  {
    match v
    case NoneValue => "None"
    case Object(text) => text
  }

  /** What a name in a namespace is bound to. */
  datatype Binding =
    | Placeholder(placeholder: PrototypePlaceholder)
    | Function(impl: seq<Value> -> Value)
    | NotCallable(value: Value)

  /** A Python namespace: a module's globals, or the `_declared` table. */
  class Namespace {
    var entries: map<string, Binding>

    constructor ()
      ensures entries == map[]
    {
      entries := map[];
    }
  }

  /** `callable(real) and not isinstance(real, _PrototypePlaceholder)` for `real = globals().get(name)` */
  predicate Forwards(entries: map<string, Binding>, name: string)
  {
    name in entries && entries[name].Function?
  }

  /** The diagnostic printed for a call made before any real definition. */
  function Diagnostic(name: string, args: seq<Value>): string
  {
    "[prototype] '" + name + "' called before definition (args: " + Join(seq(|args|, i requires 0 <= i < |args| => Str(args[i])), ", ") + ")"
  }

  /** `_PrototypePlaceholder`: the callable bound to a declared name. */
  class PrototypePlaceholder {
    const name: string
    const argnames: seq<string>

    constructor (name: string, argnames: seq<string>)
      ensures this.name == name && this.argnames == argnames
    {
      this.name := name;
      this.argnames := argnames;
    }

    /** `__repr__` */
    function Repr(): (r: string)
      ensures |r| >= 12 && StartsWith(r, "<prototype ") && EndsWith(r, ">")
    {
      "<prototype " + Render(Signature(name, argnames)) + ">"
    }

    /**
     * `__call__`: looks the name up in `coreGlobals`, the globals of the module
     * that defines the placeholder class. A function found there is called with
     * the arguments and its result returned; otherwise the diagnostic is
     * printed (returned here) and the result is `None`.
     */
    method Call(coreGlobals: Namespace, args: seq<Value>) returns (result: Value, printed: Option<string>)
      ensures Forwards(coreGlobals.entries, name) ==> result == coreGlobals.entries[name].impl(args) && printed == None
      ensures !Forwards(coreGlobals.entries, name) ==> result == NoneValue && printed == Some(Diagnostic(name, args))
    {
      var found := if name in coreGlobals.entries then Some(coreGlobals.entries[name]) else None;
      if found.Some? && found.value.Function? {
        return found.value.impl(args), None;
      }
      printed := Some(Diagnostic(name, args));
      result := NoneValue;
    }
  }

  /** The text of a placeholder's `__repr__` parses back to its own signature. */
  lemma ReprRoundTrip(p: PrototypePlaceholder)
    requires WellFormed(Signature(p.name, p.argnames))
    ensures |p.Repr()| >= 12
    ensures ParseSignature(p.Repr()[11..|p.Repr()| - 1]) == Ok(Signature(p.name, p.argnames))
  {
    var body := Render(Signature(p.name, p.argnames));
    assert p.Repr() == "<prototype " + body + ">";
    assert p.Repr()[11..|p.Repr()| - 1] == body;
    ParseRender(Signature(p.name, p.argnames));
  }

  /**
   * `prototype(signature)`: rejects a malformed signature with the
   * `SyntaxError`; otherwise makes a placeholder for the parsed name and
   * argument names, records it in `_declared` and binds it in the caller's
   * globals, both under the name.
   */
  method Prototype(signature: string, declared: Namespace, caller: Namespace) returns (r: Result<PrototypePlaceholder, SyntaxError>)
    modifies declared, caller
    ensures ParseSignature(signature).Err? ==>
      r == Err(ParseSignature(signature).error) && declared.entries == old(declared.entries) && caller.entries == old(caller.entries)
    ensures ParseSignature(signature).Ok? ==>
      var sig := ParseSignature(signature).value;
      && r.Ok? && fresh(r.value)
      && r.value.name == sig.name && r.value.argnames == sig.argnames
      && WellFormed(Signature(r.value.name, r.value.argnames))
      && declared.entries == old(declared.entries)[sig.name := Placeholder(r.value)]
      && caller.entries == old(caller.entries)[sig.name := Placeholder(r.value)]
  {
    var parsed := ParseSignature(signature);
    if parsed.Err? {
      return Err(parsed.error);
    }
    var name, argnames := parsed.value.name, parsed.value.argnames;
    ParsedSignature(signature);
    var placeholder := new PrototypePlaceholder(name, argnames);
    declared.entries := declared.entries[name := Placeholder(placeholder)];
    caller.entries := caller.entries[name := Placeholder(placeholder)];
    return Ok(placeholder);
  }
}
