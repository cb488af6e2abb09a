/**
 * `make_stubs`: one placeholder `def` per declared prototype, so that a call
 * that runs before the real definition finds a function of that name.
 */
module Stubs {
  import opened Text
  import opened Scanner

  /** The ` -> ret` annotation, empty when the declaration has no return word. */
  function Annotation(ret: string): string
  {
    if ret == [] then [] else " -> " + ret
  }

  /** The first line of a stub: `def name(args) -> ret:`. */
  function Header(p: Prototype): string
  {
    "def " + p.name + "(" + p.args + ")" + Annotation(p.ret) + ":"
  }

  /** The body line of every stub. */
  const PassLine: string := "    pass"

  /** One stub: the header, an indented `pass`, each ended by a line break. */
  function Stub(p: Prototype): string
  {
    Header(p) + "\n" + PassLine + "\n"
  }

  /** The stubs of the prototypes, in declaration order. */
  function StubList(ps: seq<Prototype>): (stubs: seq<string>)
    ensures |stubs| == |ps|
  {
    seq(|ps|, i requires 0 <= i < |ps| => Stub(ps[i]))
  }

  /** What `make_stubs` returns: the stubs joined by a line break. */
  function StubText(ps: seq<Prototype>): string
  {
    Join(StubList(ps), "\n")
  }

  /** `make_stubs(prototypes)`: builds the list of stubs one prototype at a time, then joins it. */
  method MakeStubs(prototypes: seq<Prototype>) returns (text: string)
    ensures text == StubText(prototypes)
    ensures prototypes == [] ==> text == ""
  {
    var stubs: seq<string> := [];
    for i := 0 to |prototypes|
      invariant stubs == StubList(prototypes[..i])
    {
      var p := prototypes[i];
      var retAnnot := if p.ret != [] then " -> " + p.ret else "";
      stubs := stubs + ["def " + p.name + "(" + p.args + ")" + retAnnot + ":" + "\n" + PassLine + "\n"];
    }
    assert prototypes[..|prototypes|] == prototypes;
    text := Join(stubs, "\n");
  }

  /** The three lines a stub occupies in the stub text. */
  function StubLines(p: Prototype): seq<string>
  {
    [Header(p), PassLine, ""]
  }

  /** Fields that fit on one line, as the fields of every extracted prototype do. */
  predicate OnOneLine(p: Prototype)
  {
    '\n' !in p.name && '\n' !in p.args && '\n' !in p.ret
  }

  lemma HeaderOnOneLine(p: Prototype)
    requires OnOneLine(p)
    ensures '\n' !in Header(p)
  {
  }

  lemma StubJoin(p: Prototype)
    ensures Stub(p) == Join(StubLines(p), "\n")
  {
    var h := Header(p);
    assert Join([PassLine, ""], "\n") == PassLine + "\n" + "";
    assert Join(StubLines(p), "\n") == h + "\n" + (PassLine + "\n" + "");
    assert h + "\n" + (PassLine + "\n" + "") == h + "\n" + PassLine + "\n";
  }

  lemma StubTextCons(ps: seq<Prototype>)
    requires |ps| >= 2
    ensures StubText(ps) == Stub(ps[0]) + "\n" + StubText(ps[1..])
  {
    assert StubList(ps)[1..] == StubList(ps[1..]);
  }

  /** The stub text is the stub lines of all prototypes, in order, joined by line breaks. */
  lemma {:induction false} StubTextJoin(ps: seq<Prototype>)
    requires |ps| >= 1
    ensures StubText(ps) == Join(FlatMap(StubLines, ps), "\n")
  {
    StubJoin(ps[0]);
    if |ps| == 1 {
      assert StubList(ps) == [Stub(ps[0])];
      assert ps[1..] == [];
      assert FlatMap(StubLines, ps) == StubLines(ps[0]) + [];
      assert StubLines(ps[0]) + [] == StubLines(ps[0]);
    } else {
      var rest := FlatMap(StubLines, ps[1..]);
      assert FlatMap(StubLines, ps) == StubLines(ps[0]) + rest;
      StubTextCons(ps);
      StubTextJoin(ps[1..]);
      StubLinesLength(ps[1..]);
      JoinAppend(StubLines(ps[0]), rest, "\n");
    }
  }

  /**
   * Read back line by line, the stub text of prototypes whose fields fit on
   * one line is, per prototype, its header, `    pass` and an empty line.
   */
  lemma StubTextLines(ps: seq<Prototype>)
    requires |ps| >= 1
    requires forall i :: 0 <= i < |ps| ==> OnOneLine(ps[i])
    ensures Split(StubText(ps), '\n') == FlatMap(StubLines, ps)
  {
    StubTextJoin(ps);
    StubLinesOnOneLine(ps);
    StubLinesLength(ps);
    SplitJoin(FlatMap(StubLines, ps), '\n');
  }

  lemma StubLinesOnOneLine(ps: seq<Prototype>)
    requires forall i :: 0 <= i < |ps| ==> OnOneLine(ps[i])
    ensures forall k :: 0 <= k < |FlatMap(StubLines, ps)| ==> '\n' !in FlatMap(StubLines, ps)[k]
  {
    forall k | 0 <= k < |FlatMap(StubLines, ps)|
      ensures '\n' !in FlatMap(StubLines, ps)[k]
    {
      var i := FlatMapSource(StubLines, ps, k);
      HeaderOnOneLine(ps[i]);
    }
  }

  lemma {:induction false} StubLinesLength(ps: seq<Prototype>)
    ensures |FlatMap(StubLines, ps)| == 3 * |ps|
  {
    if ps != [] {
      StubLinesLength(ps[1..]);
    }
  }

  /** The stub of the `i`-th prototype occupies lines `3i`, `3i + 1` and `3i + 2`. */
  lemma StubLinesAt(ps: seq<Prototype>, i: nat)
    requires i < |ps|
    ensures |FlatMap(StubLines, ps)| == 3 * |ps|
    ensures FlatMap(StubLines, ps)[3 * i] == Header(ps[i])
    ensures FlatMap(StubLines, ps)[3 * i + 1] == PassLine
    ensures FlatMap(StubLines, ps)[3 * i + 2] == ""
  {
    var one := [ps[i]];
    assert ps == ps[..i] + (one + ps[i + 1..]);
    FlatMapAppend(StubLines, ps[..i], one + ps[i + 1..]);
    FlatMapAppend(StubLines, one, ps[i + 1..]);
    assert one[1..] == [];
    assert FlatMap(StubLines, one) == StubLines(ps[i]) + [];
    StubLinesLength(ps[..i]);
    StubLinesLength(ps);
    var before := FlatMap(StubLines, ps[..i]);
    var after := FlatMap(StubLines, ps[i + 1..]);
    assert FlatMap(StubLines, ps) == before + (StubLines(ps[i]) + after);
  }

  /** No stub line starts with `prototype`: each is a header, `    pass` or empty. */
  lemma StubLinesDeclareNothing(ps: seq<Prototype>)
    ensures forall k :: 0 <= k < |FlatMap(StubLines, ps)| ==> !StartsWith(FlatMap(StubLines, ps)[k], Keyword)
  {
    forall k | 0 <= k < |FlatMap(StubLines, ps)|
      ensures !StartsWith(FlatMap(StubLines, ps)[k], Keyword)
    {
      var i := FlatMapSource(StubLines, ps, k);
      assert Header(ps[i])[0] == 'd';
    }
  }
}
