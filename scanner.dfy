/**
 * The prototype scanner of the compiler (`prototypes/__main__.py`):
 * the capture pattern that recognises `prototype name(args) -> Ret` lines,
 * `extract_prototypes`, and `remove_prototypes`, which blanks every line
 * that starts with the word `prototype`.
 *
 * Both patterns are compiled with `re.MULTILINE`, so `^` and `$` are the
 * ends of a line and the text is taken line by line, a line being a piece
 * of `code.split("\n")`.
 */
module Scanner {
  import opened Text
  import opened Wrappers

  /** The three capture groups of one match; `ret` is "" when there is no `-> Ret`. */
  datatype Prototype = Prototype(name: string, args: string, ret: string)

  const Keyword: string := "prototype"

  /** `[A-Za-z_]` */
  predicate IsIdentStart(c: char)
  {
    ('A' <= c <= 'Z') || ('a' <= c <= 'z') || c == '_'
  }

  /** `\w`, restricted to ASCII */
  predicate IsWordChar(c: char)
  {
    IsIdentStart(c) || ('0' <= c <= '9')
  }

  /** `\w+` */
  predicate IsWord(s: string)
  {
    |s| > 0 && forall i :: 0 <= i < |s| ==> IsWordChar(s[i])
  }

  /** `[A-Za-z_]\w*` */
  predicate IsIdentifier(s: string)
  {
    IsWord(s) && IsIdentStart(s[0])
  }

  /** The length of the run of word characters that `s` starts with. */
  function WordLength(s: string): (n: nat)
    ensures n <= |s|
    ensures forall i :: 0 <= i < n ==> IsWordChar(s[i])
    ensures n < |s| ==> !IsWordChar(s[n])
  {
    if |s| > 0 && IsWordChar(s[0]) then 1 + WordLength(s[1..]) else 0
  }

  lemma WordLengthOf(x: string, y: string)
    requires forall i :: 0 <= i < |x| ==> IsWordChar(x[i])
    requires y == [] || !IsWordChar(y[0])
    ensures WordLength(x + y) == |x|
  {
    var s := x + y;
    var n := WordLength(s);
    assert forall i :: 0 <= i < |x| ==> s[i] == x[i];
    assert |y| > 0 ==> s[|x|] == y[0];
  }

  /**
   * What the pattern asks of the text after the closing parenthesis,
   * `\s*(?:->\s*(\w+))?$`; gives the third group ("" when it took no part).
   */
  function MatchTail(t: string): (ret: Option<string>)
  {
    if t == [] then Some([])
    else if IsSpace(t[0]) then MatchTail(t[1..])
    else if StartsWith(t, "->") then MatchWord(t[2..])
    else None
  }

  /** `\s*(\w+)$` */
  function MatchWord(u: string): (ret: Option<string>)
  {
    if u == [] then None
    else if IsSpace(u[0]) then MatchWord(u[1..])
    else if IsWord(u) then Some(u)
    else None
  }

  /** `s[k]` can be the `)` that closes the argument list. */
  predicate Closes(s: string, k: nat)
    requires k < |s|
  {
    s[k] == ')' && MatchTail(s[k + 1..]).Some?
  }

  /**
   * The lazy `(.*?)\)`: the first position from `from` on that can close
   * the argument list.
   */
  function ArgsEnd(s: string, from: nat): (k: Option<nat>)
    decreases |s| - from
    ensures k.Some? ==> from <= k.value < |s| && Closes(s, k.value)
  {
    if from >= |s| then None
    else if Closes(s, from) then Some(from)
    else ArgsEnd(s, from + 1)
  }

  /** The position found closes the list, and no earlier one does; with none found, no position closes it. */
  lemma {:induction false} ArgsEndFirst(s: string, from: nat)
    decreases |s| - from
    ensures forall j :: from <= j < |s| && (ArgsEnd(s, from).None? || j < ArgsEnd(s, from).value) ==> !Closes(s, j)
  {
    if from < |s| && !Closes(s, from) {
      ArgsEndFirst(s, from + 1);
    }
  }

  /**
   * The capture pattern `^prototype\s+([A-Za-z_]\w*)\s*\((.*?)\)\s*(?:->\s*(\w+))?$`
   * applied to one line, one piece of the pattern per stage.
   */
  function MatchLine(line: string): (r: Option<Prototype>)
    ensures r.Some? ==> StartsWith(line, Keyword)
  {
    if StartsWith(line, Keyword) then MatchAfterKeyword(line[|Keyword|..]) else None
  }

  /** `\s+` and what follows */
  function MatchAfterKeyword(a: string): (r: Option<Prototype>)
  {
    var n := LeadLength(a);
    if n == 0 then None else MatchName(a[n..])
  }

  /** `([A-Za-z_]\w*)` and what follows */
  function MatchName(b: string): (r: Option<Prototype>)
  {
    var n := WordLength(b);
    if n == 0 || !IsIdentStart(b[0]) then None else MatchParams(b[..n], b[n..])
  }

  /** `\s*\(` and what follows, for a given name */
  function MatchParams(name: string, c: string): (r: Option<Prototype>)
  {
    var d := c[LeadLength(c)..];
    if d == [] || d[0] != '(' then None else MatchArgs(name, d[1..])
  }

  /** `(.*?)\)` and the tail, for a given name */
  function MatchArgs(name: string, e: string): (r: Option<Prototype>)
  {
    match ArgsEnd(e, 0)
    case None => None
    case Some(k) => Some(Prototype(name, e[..k], MatchTail(e[k + 1..]).value))
  }

  /** The text after `)` for a given return type and the whitespace around `->`. */
  function Tail(ret: string, gap3: string, gap4: string): string
  {
    gap3 + (if ret == [] then [] else "->" + (gap4 + ret))
  }

  /** A declaration line spelled out from its parts and the whitespace between them. */
  function Line(p: Prototype, gap1: string, gap2: string, gap3: string, gap4: string): string
  {
    Keyword + (gap1 + Declared(p, gap2, gap3, gap4))
  }

  /** The part of a declaration line from the name on. */
  function Declared(p: Prototype, gap2: string, gap3: string, gap4: string): string
  {
    p.name + (gap2 + ("(" + (p.args + (")" + Tail(p.ret, gap3, gap4)))))
  }

  /** The parts the pattern demands: a name, an optional word after `->`, whitespace gaps, the first one not empty. */
  predicate WellFormed(p: Prototype, gap1: string, gap2: string, gap3: string, gap4: string)
  {
    && |gap1| > 0 && AllSpaces(gap1) && AllSpaces(gap2) && AllSpaces(gap3) && AllSpaces(gap4)
    && IsIdentifier(p.name)
    && (p.ret == [] || IsWord(p.ret))
  }

  lemma {:induction false} WordSound(u: string) returns (gap4: string)
    requires MatchWord(u).Some?
    ensures AllSpaces(gap4) && u == gap4 + MatchWord(u).value
    ensures IsWord(MatchWord(u).value)
  {
    if IsSpace(u[0]) {
      var rest := WordSound(u[1..]);
      gap4 := [u[0]] + rest;
    } else {
      gap4 := [];
    }
  }

  lemma {:induction false} TailSound(t: string) returns (gap3: string, gap4: string)
    requires MatchTail(t).Some?
    ensures AllSpaces(gap3) && AllSpaces(gap4)
    ensures t == Tail(MatchTail(t).value, gap3, gap4)
    ensures MatchTail(t).value == [] || IsWord(MatchTail(t).value)
  {
    if t == [] {
      gap3, gap4 := [], [];
    } else if IsSpace(t[0]) {
      var rest;
      rest, gap4 := TailSound(t[1..]);
      gap3 := [t[0]] + rest;
      assert t == [t[0]] + t[1..];
    } else {
      gap3 := [];
      gap4 := WordSound(t[2..]);
      assert t == "->" + t[2..];
    }
  }

  lemma {:induction false} WordComplete(ret: string, gap4: string)
    requires AllSpaces(gap4) && IsWord(ret)
    ensures MatchWord(gap4 + ret) == Some(ret)
  {
    if gap4 == [] {
      assert gap4 + ret == ret;
    } else {
      WordComplete(ret, gap4[1..]);
      assert (gap4 + ret)[1..] == gap4[1..] + ret;
    }
  }

  lemma {:induction false} TailComplete(ret: string, gap3: string, gap4: string)
    requires AllSpaces(gap3) && AllSpaces(gap4)
    requires ret == [] || IsWord(ret)
    ensures MatchTail(Tail(ret, gap3, gap4)) == Some(ret)
  {
    var t := Tail(ret, gap3, gap4);
    if gap3 == [] {
      if ret != [] {
        assert t == "->" + (gap4 + ret);
        assert t[2..] == gap4 + ret;
        WordComplete(ret, gap4);
      }
    } else {
      TailComplete(ret, gap3[1..], gap4);
      assert t[1..] == Tail(ret, gap3[1..], gap4);
    }
  }

  /** No `)` can follow the closing parenthesis: the lazy group in effect ends at the last `)` of the line. */
  lemma TailHasNoParen(t: string)
    ensures MatchTail(t).Some? ==> ')' !in t
  {
    if MatchTail(t).Some? {
      TailHasNoParenCase(t);
    }
  }

  lemma TailHasNoParenCase(t: string)
    requires MatchTail(t).Some?
    ensures ')' !in t
  {
    var gap3, gap4 := TailSound(t);
    var ret := MatchTail(t).value;
    assert !IsSpace(')') && !IsWordChar(')');
    assert forall i :: 0 <= i < |gap3| ==> gap3[i] != ')';
    assert forall i :: 0 <= i < |gap4| ==> gap4[i] != ')';
    assert forall i :: 0 <= i < |ret| ==> ret[i] != ')';
    assert ')' !in gap3 && ')' !in gap4 && ')' !in ret;
  }

  lemma ArgsComplete(name: string, args: string, tail: string)
    requires MatchTail(tail).Some?
    ensures MatchArgs(name, args + (")" + tail)) == Some(Prototype(name, args, MatchTail(tail).value))
  {
    var e := args + (")" + tail);
    assert e[|args| + 1..] == tail;
    assert Closes(e, |args|);
    forall j | 0 <= j < |args|
      ensures !Closes(e, j)
    {
      TailHasNoParen(e[j + 1..]);
      assert e[j + 1..][|args| - j - 1] == ')';
    }
    ArgsEndFirst(e, 0);
    assert ArgsEnd(e, 0) == Some(|args|);
    assert e[..|args|] == args;
  }

  lemma ArgsSound(name: string, e: string) returns (tail: string)
    requires MatchArgs(name, e).Some?
    ensures e == MatchArgs(name, e).value.args + (")" + tail)
    ensures MatchTail(tail) == Some(MatchArgs(name, e).value.ret)
  {
    ArgsEndFirst(e, 0);
    var k := ArgsEnd(e, 0).value;
    tail := e[k + 1..];
    assert e == e[..k] + (")" + tail);
  }

  lemma ParamsComplete(name: string, gap2: string, e: string)
    requires AllSpaces(gap2)
    ensures MatchParams(name, gap2 + ("(" + e)) == MatchArgs(name, e)
  {
    var c := gap2 + ("(" + e);
    LeadLengthOf(gap2, "(" + e);
    assert c[|gap2|..] == "(" + e;
  }

  lemma ParamsSound(name: string, c: string) returns (gap2: string, e: string)
    requires LeadLength(c) < |c| && c[LeadLength(c)] == '('
    ensures AllSpaces(gap2) && c == gap2 + ("(" + e)
    ensures MatchParams(name, c) == MatchArgs(name, e)
  {
    var n := LeadLength(c);
    var d := c[n..];
    gap2 := c[..n];
    e := d[1..];
    assert d == "(" + e;
    assert c == gap2 + d;
  }

  lemma NameComplete(name: string, c: string)
    requires IsIdentifier(name)
    requires c == [] || !IsWordChar(c[0])
    ensures MatchName(name + c) == MatchParams(name, c)
  {
    WordLengthOf(name, c);
    assert (name + c)[..|name|] == name && (name + c)[|name|..] == c;
  }

  lemma NameSound(b: string) returns (c: string)
    requires MatchName(b).Some?
    ensures b == MatchName(b).value.name + c
    ensures IsIdentifier(MatchName(b).value.name)
    ensures MatchName(b) == MatchParams(MatchName(b).value.name, c)
  {
    var n := WordLength(b);
    c := b[n..];
    assert b == b[..n] + c;
  }

  lemma AfterKeywordComplete(gap1: string, b: string)
    requires |gap1| > 0 && AllSpaces(gap1)
    requires b == [] || !IsSpace(b[0])
    ensures MatchAfterKeyword(gap1 + b) == MatchName(b)
  {
    LeadLengthOf(gap1, b);
    assert (gap1 + b)[|gap1|..] == b;
  }

  lemma AfterKeywordSound(a: string) returns (gap1: string, b: string)
    requires LeadLength(a) > 0
    ensures |gap1| > 0 && AllSpaces(gap1) && a == gap1 + b
    ensures MatchAfterKeyword(a) == MatchName(b)
  {
    var n := LeadLength(a);
    gap1 := a[..n];
    b := a[n..];
    assert a == gap1 + b;
  }

  lemma KeywordStage(a: string)
    ensures MatchLine(Keyword + a) == MatchAfterKeyword(a)
  {
    assert (Keyword + a)[..|Keyword|] == Keyword;
    assert (Keyword + a)[|Keyword|..] == a;
  }

  /** Everything from the name on is accepted, with exactly these groups. */
  lemma DeclaredComplete(p: Prototype, gap2: string, gap3: string, gap4: string)
    requires IsIdentifier(p.name) && AllSpaces(gap2) && AllSpaces(gap3) && AllSpaces(gap4)
    requires p.ret == [] || IsWord(p.ret)
    ensures MatchName(Declared(p, gap2, gap3, gap4)) == Some(p)
  {
    var c := gap2 + ("(" + (p.args + (")" + Tail(p.ret, gap3, gap4))));
    ParamsStageComplete(p, gap2, gap3, gap4);
    ParenAfterSpaces(gap2, p.args + (")" + Tail(p.ret, gap3, gap4)));
    NameComplete(p.name, c);
    assert Declared(p, gap2, gap3, gap4) == p.name + c;
  }

  /** Whitespace and then `(` cannot continue a name. */
  lemma ParenAfterSpaces(gap2: string, e: string)
    requires AllSpaces(gap2)
    ensures !IsWordChar((gap2 + ("(" + e))[0])
  {
    assert (gap2 + ("(" + e))[0] == if gap2 == [] then '(' else gap2[0];
  }

  /** From the whitespace before `(` on, the declaration is accepted with its arguments and return word. */
  lemma ParamsStageComplete(p: Prototype, gap2: string, gap3: string, gap4: string)
    requires AllSpaces(gap2) && AllSpaces(gap3) && AllSpaces(gap4)
    requires p.ret == [] || IsWord(p.ret)
    ensures MatchParams(p.name, gap2 + ("(" + (p.args + (")" + Tail(p.ret, gap3, gap4))))) == Some(p)
  {
    var tail := Tail(p.ret, gap3, gap4);
    TailComplete(p.ret, gap3, gap4);
    ArgsComplete(p.name, p.args, tail);
    ParamsComplete(p.name, gap2, p.args + (")" + tail));
  }

  /** Every line of the spelled-out shape is accepted, with exactly these groups. */
  lemma MatchLineComplete(p: Prototype, gap1: string, gap2: string, gap3: string, gap4: string)
    requires WellFormed(p, gap1, gap2, gap3, gap4)
    ensures MatchLine(Line(p, gap1, gap2, gap3, gap4)) == Some(p)
  {
    var b := Declared(p, gap2, gap3, gap4);
    assert b[0] == p.name[0];
    AfterKeywordComplete(gap1, b);
    KeywordStage(gap1 + b);
    DeclaredComplete(p, gap2, gap3, gap4);
  }

  lemma KeywordSound(line: string) returns (a: string)
    requires MatchLine(line).Some?
    ensures line == Keyword + a && MatchLine(line) == MatchAfterKeyword(a)
  {
    a := line[|Keyword|..];
    assert line == line[..|Keyword|] + a;
  }

  lemma ArgsShape(name: string, e: string) returns (gap3: string, gap4: string)
    requires MatchArgs(name, e).Some?
    ensures MatchArgs(name, e).value.name == name
    ensures AllSpaces(gap3) && AllSpaces(gap4)
    ensures MatchArgs(name, e).value.ret == [] || IsWord(MatchArgs(name, e).value.ret)
    ensures e == MatchArgs(name, e).value.args + (")" + Tail(MatchArgs(name, e).value.ret, gap3, gap4))
  {
    var tail := ArgsSound(name, e);
    gap3, gap4 := TailSound(tail);
  }

  lemma ParamsShape(name: string, c: string) returns (gap2: string, gap3: string, gap4: string)
    requires MatchParams(name, c).Some?
    ensures MatchParams(name, c).value.name == name
    ensures AllSpaces(gap2) && AllSpaces(gap3) && AllSpaces(gap4)
    ensures MatchParams(name, c).value.ret == [] || IsWord(MatchParams(name, c).value.ret)
    ensures c == gap2 + ("(" + (MatchParams(name, c).value.args + (")" + Tail(MatchParams(name, c).value.ret, gap3, gap4))))
  {
    var e;
    gap2, e := ParamsSound(name, c);
    gap3, gap4 := ArgsShape(name, e);
  }

  lemma NameShape(b: string) returns (gap2: string, gap3: string, gap4: string)
    requires MatchName(b).Some?
    ensures IsIdentifier(MatchName(b).value.name)
    ensures AllSpaces(gap2) && AllSpaces(gap3) && AllSpaces(gap4)
    ensures MatchName(b).value.ret == [] || IsWord(MatchName(b).value.ret)
    ensures b == Declared(MatchName(b).value, gap2, gap3, gap4)
  {
    var p := MatchName(b).value;
    var c := NameSound(b);
    gap2, gap3, gap4 := ParamsShape(p.name, c);
  }

  /** Every accepted line has the spelled-out shape, with the groups the match reports. */
  lemma MatchLineSound(line: string) returns (gap1: string, gap2: string, gap3: string, gap4: string)
    requires MatchLine(line).Some?
    ensures WellFormed(MatchLine(line).value, gap1, gap2, gap3, gap4)
    ensures line == Line(MatchLine(line).value, gap1, gap2, gap3, gap4)
  {
    var a := KeywordSound(line);
    var b;
    gap1, b := AfterKeywordSound(a);
    gap2, gap3, gap4 := NameShape(b);
  }

  /**
   * The argument group of a match runs from the first `(` of the line to its
   * last `)`: nothing before the group holds a `(`, nothing after it a `)`.
   */
  lemma ArgsBetweenOuterParens(line: string) returns (gap1: string, gap2: string, gap3: string, gap4: string)
    requires MatchLine(line).Some?
    ensures line == Line(MatchLine(line).value, gap1, gap2, gap3, gap4)
    ensures '(' !in Keyword + gap1 + MatchLine(line).value.name + gap2
    ensures ')' !in Tail(MatchLine(line).value.ret, gap3, gap4)
  {
    gap1, gap2, gap3, gap4 := MatchLineSound(line);
    HeadHasNoParen(MatchLine(line).value.name, gap1, gap2);
    TailOfShapeHasNoParen(MatchLine(line).value.ret, gap3, gap4);
  }

  lemma HeadHasNoParen(name: string, gap1: string, gap2: string)
    requires AllSpaces(gap1) && AllSpaces(gap2) && IsIdentifier(name)
    ensures '(' !in Keyword + gap1 + name + gap2
  {
    assert !IsSpace('(') && !IsWordChar('(');
    assert forall k :: 0 <= k < |gap1| ==> gap1[k] != '(';
    assert forall k :: 0 <= k < |gap2| ==> gap2[k] != '(';
    assert forall k :: 0 <= k < |name| ==> name[k] != '(';
  }

  lemma TailOfShapeHasNoParen(ret: string, gap3: string, gap4: string)
    requires AllSpaces(gap3) && AllSpaces(gap4) && (ret == [] || IsWord(ret))
    ensures ')' !in Tail(ret, gap3, gap4)
  {
    TailComplete(ret, gap3, gap4);
    TailHasNoParen(Tail(ret, gap3, gap4));
  }

  /** The groups of a match are pieces of its line. */
  lemma MatchFieldsOnLine(line: string)
    requires MatchLine(line).Some?
    ensures forall ch :: ch in MatchLine(line).value.name ==> ch in line
    ensures forall ch :: ch in MatchLine(line).value.args ==> ch in line
    ensures forall ch :: ch in MatchLine(line).value.ret ==> ch in line
  {
    var gap1, gap2, gap3, gap4 := MatchLineSound(line);
  }

  /** The prototypes one line contributes: its match, if any. */
  function Found(line: string): seq<Prototype>
  {
    match MatchLine(line)
    case Some(p) => [p]
    case None => []
  }

  /** `re.findall` of the capture pattern over the lines of a text, in order. */
  function ExtractAll(lines: seq<string>): seq<Prototype>
  {
    FlatMap(Found, lines)
  }

  /** `extract_prototypes(code)`: the declarations of `code`, line by line. */
  function ExtractPrototypes(code: string): (ps: seq<Prototype>)
    ensures |ps| <= |Split(code, '\n')|
    ensures forall j :: 0 <= j < |ps| ==> IsIdentifier(ps[j].name) && (ps[j].ret == [] || IsWord(ps[j].ret))
  {
    var lines := Split(code, '\n');
    AtMostOnePerLine(lines);
    ExtractedWellFormed(lines);
    ExtractAll(lines)
  }

  /** Extraction keeps source order: the prototypes of a text are those of its first lines, then those of the rest. */
  lemma ExtractAllAppend(a: seq<string>, b: seq<string>)
    ensures ExtractAll(a + b) == ExtractAll(a) + ExtractAll(b)
  {
    FlatMapAppend(Found, a, b);
  }

  /** A line declares at most one prototype. */
  lemma AtMostOnePerLine(lines: seq<string>)
    ensures |ExtractAll(lines)| <= |lines|
  {
    FlatMapAtMostOne(Found, lines);
  }

  /** Each extracted prototype is the match of one of the lines. */
  lemma ExtractedFromLine(lines: seq<string>, j: nat) returns (i: nat)
    requires j < |ExtractAll(lines)|
    ensures i < |lines| && MatchLine(lines[i]) == Some(ExtractAll(lines)[j])
  {
    i := FlatMapSource(Found, lines, j);
  }

  /** Every extracted prototype has a Python identifier as its name and at most one word as its return annotation. */
  lemma ExtractedWellFormed(lines: seq<string>)
    ensures forall j :: 0 <= j < |ExtractAll(lines)| ==>
      IsIdentifier(ExtractAll(lines)[j].name) && (ExtractAll(lines)[j].ret == [] || IsWord(ExtractAll(lines)[j].ret))
  {
    forall j | 0 <= j < |ExtractAll(lines)|
      ensures IsIdentifier(ExtractAll(lines)[j].name) && (ExtractAll(lines)[j].ret == [] || IsWord(ExtractAll(lines)[j].ret))
    {
      var i := ExtractedFromLine(lines, j);
      var gap1, gap2, gap3, gap4 := MatchLineSound(lines[i]);
    }
  }

  /** Lines free of line breaks give prototypes free of line breaks. */
  lemma ExtractAllSingleLine(lines: seq<string>)
    requires forall i :: 0 <= i < |lines| ==> '\n' !in lines[i]
    ensures forall j :: 0 <= j < |ExtractAll(lines)| ==>
      '\n' !in ExtractAll(lines)[j].name && '\n' !in ExtractAll(lines)[j].args && '\n' !in ExtractAll(lines)[j].ret
  {
    forall j | 0 <= j < |ExtractAll(lines)|
      ensures '\n' !in ExtractAll(lines)[j].name && '\n' !in ExtractAll(lines)[j].args && '\n' !in ExtractAll(lines)[j].ret
    {
      var i := ExtractedFromLine(lines, j);
      MatchFieldsOnLine(lines[i]);
    }
  }

  /** Lines that do not start with `prototype` yield nothing. */
  lemma ExtractAllWithoutKeyword(lines: seq<string>)
    requires forall i :: 0 <= i < |lines| ==> !StartsWith(lines[i], Keyword)
    ensures ExtractAll(lines) == []
  {
    FlatMapEmpty(Found, lines);
  }

  /** The broader pattern `^prototype.*$` replaced by "": a line is blanked when it starts with `prototype`. */
  function Blank(line: string): string
  {
    if StartsWith(line, Keyword) then [] else line
  }

  function BlankAll(lines: seq<string>): seq<string>
  {
    seq(|lines|, i requires 0 <= i < |lines| => Blank(lines[i]))
  }

  /**
   * `remove_prototypes(code)`: every line that starts with `prototype` is
   * emptied; the lines are not deleted, so the text keeps its line count.
   */
  function RemovePrototypes(code: string): (clean: string)
    ensures Split(clean, '\n') == BlankAll(Split(code, '\n'))
  {
    var lines := BlankAll(Split(code, '\n'));
    SplitJoin(lines, '\n');
    Join(lines, "\n")
  }

  /** Blanking a second time changes nothing. */
  lemma RemoveIdempotent(code: string)
    ensures RemovePrototypes(RemovePrototypes(code)) == RemovePrototypes(code)
  {
    var clean := RemovePrototypes(code);
    var lines := BlankAll(Split(code, '\n'));
    assert BlankAll(lines) == lines;
    JoinSplit(clean, '\n');
  }

  /** Text with no line starting with `prototype` comes through unchanged. */
  lemma RemoveWithoutKeyword(code: string)
    requires forall i :: 0 <= i < |Split(code, '\n')| ==> !StartsWith(Split(code, '\n')[i], Keyword)
    ensures RemovePrototypes(code) == code
  {
    assert BlankAll(Split(code, '\n')) == Split(code, '\n');
    JoinSplit(code, '\n');
  }

  /**
   * Every line the capture pattern accepts starts with `prototype`, so it is
   * blanked: the cleaned text declares nothing.
   */
  lemma CleanCodeDeclaresNothing(code: string)
    ensures ExtractPrototypes(RemovePrototypes(code)) == []
  {
    var lines := Split(RemovePrototypes(code), '\n');
    assert forall i :: 0 <= i < |lines| ==> !StartsWith(lines[i], Keyword);
    ExtractAllWithoutKeyword(lines);
  }

  /** A return annotation that is not a single word, such as ` -> List[int]`, is refused by the tail of the pattern. */
  lemma BracketTailRejected()
    ensures MatchTail(" -> List[int]") == None
  {
    var t := " -> List[int]";
    assert t[1..] == "-> List[int]";
    assert "-> List[int]"[2..] == " List[int]";
    assert " List[int]"[1..] == "List[int]";
    assert !IsWordChar("List[int]"[4]);
  }

  /** An argument text with a single `)` whose tail the pattern refuses is not matched. */
  lemma ArgsRejected(name: string, args: string, tail: string)
    requires ')' !in args && ')' !in tail
    requires MatchTail(tail).None?
    ensures MatchArgs(name, args + (")" + tail)) == None
  {
    var e := args + (")" + tail);
    assert e[|args| + 1..] == tail;
    forall j | 0 <= j < |e|
      ensures !Closes(e, j)
    {
      if j < |args| {
        assert e[j] == args[j];
      } else if j > |args| {
        assert e[j] == tail[j - |args| - 1];
      }
    }
    ArgsEndFirst(e, 0);
  }

  /**
   * A line that starts with `prototype`, a name and a parenthesised argument
   * text, but whose text after the `)` the pattern refuses (such as
   * ` -> List[int]`), is blanked and yields no prototype.
   */
  lemma MalformedDeclarationIsDropped(gap1: string, name: string, gap2: string, args: string, tail: string)
    requires |gap1| > 0 && AllSpaces(gap1) && IsIdentifier(name) && AllSpaces(gap2)
    requires ')' !in args && ')' !in tail
    requires MatchTail(tail).None?
    ensures var line := Keyword + (gap1 + (name + (gap2 + ("(" + (args + (")" + tail))))));
      MatchLine(line) == None && Blank(line) == []
  {
    var b := name + (gap2 + ("(" + (args + (")" + tail))));
    assert b[0] == name[0];
    KeywordLineBlanked(gap1 + b);
    KeywordStage(gap1 + b);
    AfterKeywordComplete(gap1, b);
    NameRejected(name, gap2, args, tail);
  }

  lemma NameRejected(name: string, gap2: string, args: string, tail: string)
    requires IsIdentifier(name) && AllSpaces(gap2)
    requires ')' !in args && ')' !in tail
    requires MatchTail(tail).None?
    ensures MatchName(name + (gap2 + ("(" + (args + (")" + tail))))) == None
  {
    var e := args + (")" + tail);
    var c := gap2 + ("(" + e);
    ParenAfterSpaces(gap2, e);
    NameComplete(name, c);
    ParamsComplete(name, gap2, e);
    ArgsRejected(name, args, tail);
  }

  lemma KeywordLineBlanked(rest: string)
    ensures Blank(Keyword + rest) == []
  {
    assert (Keyword + rest)[..|Keyword|] == Keyword;
  }
}
