/**
 * `compile_pyproto` once the file has been read: the declarations become
 * stubs placed ahead of the real function definitions, and the rest of the
 * program is kept apart as top-level code.
 */
module Compiler {
  import opened Text
  import opened Scanner
  import opened Stubs
  import opened Splitter

  /** The pair `(definitions, top_level)` for the text of a `.pyproto` file. */
  function Compile(code: string): (string, string)
  {
    var sections := Sections(RemovePrototypes(code));
    (StubText(ExtractPrototypes(code)) + "\n" + sections.0, sections.1)
  }

  /** `compile_pyproto`, from the text of the file on. */
  method CompilePyproto(code: string) returns (definitions: string, topLevel: string)
    ensures (definitions, topLevel) == Compile(code)
  {
    var prototypes := ExtractPrototypes(code);
    var stubs := MakeStubs(prototypes);
    var cleanCode := RemovePrototypes(code);
    var funcDefs;
    funcDefs, topLevel := SplitCodeSections(cleanCode);
    definitions := stubs + "\n" + funcDefs;
  }

  /** The lines of the cleaned code that the splitter routes. */
  function CleanLines(code: string): seq<string>
  {
    SplitLines(RemovePrototypes(code))
  }

  /** A joined section read back line by line; an empty section reads back as one empty line. */
  function LinesOf(section: seq<string>): seq<string>
  {
    if section == [] then [[]] else section
  }

  lemma SectionReadBack(code: string, toDefs: bool)
    ensures Split(Join(Section(CleanLines(code), toDefs), "\n"), '\n') == LinesOf(Section(CleanLines(code), toDefs))
  {
    if Section(CleanLines(code), toDefs) != [] {
      SectionLines(CleanLines(code), toDefs);
    }
  }

  lemma StubsReadBack(code: string)
    ensures Split(StubText(ExtractPrototypes(code)), '\n') ==
      if ExtractPrototypes(code) == [] then [[]] else FlatMap(StubLines, ExtractPrototypes(code))
  {
    var ps := ExtractPrototypes(code);
    if ps != [] {
      ExtractAllSingleLine(Split(code, '\n'));
      StubTextLines(ps);
    }
  }

  /**
   * The definitions text, line by line: the three lines of every stub, in
   * declaration order, then the lines of the definitions section; the top-level
   * text is the lines of the other section.
   */
  lemma CompileLayout(code: string)
    ensures Split(Compile(code).0, '\n') ==
      (if ExtractPrototypes(code) == [] then [[]] else FlatMap(StubLines, ExtractPrototypes(code)))
      + LinesOf(Section(CleanLines(code), true))
    ensures Split(Compile(code).1, '\n') == LinesOf(Section(CleanLines(code), false))
  {
    var stubs := StubText(ExtractPrototypes(code));
    var funcDefs := Join(Section(CleanLines(code), true), "\n");
    assert Compile(code).0 == stubs + ['\n'] + funcDefs;
    SplitAround(stubs, '\n', funcDefs);
    StubsReadBack(code);
    SectionReadBack(code, true);
    SectionReadBack(code, false);
  }

  /** The stub of the `i`-th declaration heads lines `3i` to `3i + 2` of the definitions text. */
  lemma StubsComeFirst(code: string, i: nat)
    requires i < |ExtractPrototypes(code)|
    ensures var lines := Split(Compile(code).0, '\n');
      3 * i + 2 < |lines| &&
      lines[3 * i] == Header(ExtractPrototypes(code)[i]) && lines[3 * i + 1] == PassLine && lines[3 * i + 2] == ""
  {
    CompileLayout(code);
    StubLinesAt(ExtractPrototypes(code), i);
  }

  /** The lines of the cleaned code: none starts with `prototype`. */
  lemma CleanLinesDeclareNothing(code: string)
    ensures forall k :: 0 <= k < |CleanLines(code)| ==> !StartsWith(CleanLines(code)[k], Keyword)
  {
    SplitLinesPrefix(RemovePrototypes(code));
  }

  lemma SectionDeclaresNothing(code: string, toDefs: bool)
    ensures forall k :: 0 <= k < |LinesOf(Section(CleanLines(code), toDefs))| ==>
      !StartsWith(LinesOf(Section(CleanLines(code), toDefs))[k], Keyword)
  {
    CleanLinesDeclareNothing(code);
    SectionMembers(CleanLines(code), toDefs);
  }

  /** No line of either output starts with `prototype`: every declaration has been turned into a stub. */
  lemma CompiledDeclaresNothing(code: string)
    ensures forall k :: 0 <= k < |Split(Compile(code).0, '\n')| ==> !StartsWith(Split(Compile(code).0, '\n')[k], Keyword)
    ensures forall k :: 0 <= k < |Split(Compile(code).1, '\n')| ==> !StartsWith(Split(Compile(code).1, '\n')[k], Keyword)
  {
    CompileLayout(code);
    StubLinesDeclareNothing(ExtractPrototypes(code));
    SectionDeclaresNothing(code, true);
    SectionDeclaresNothing(code, false);
  }

  /** Without declarations, the definitions are an empty line followed by the definitions section of the code itself. */
  lemma CompileWithoutDeclarations(code: string)
    requires forall k :: 0 <= k < |Split(code, '\n')| ==> !StartsWith(Split(code, '\n')[k], Keyword)
    ensures Compile(code) == ("\n" + Sections(code).0, Sections(code).1)
  {
    ExtractAllWithoutKeyword(Split(code, '\n'));
    RemoveWithoutKeyword(code);
    assert StubList([]) == [];
    assert StubText([]) + "\n" == "\n";
  }
}
