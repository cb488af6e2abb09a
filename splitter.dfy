/**
 * `split_code_sections`: a one-pass, line-by-line router that sends the
 * lines of `def` blocks to one section and everything else to the other,
 * with a single flag, `in_def`, as its state.
 */
module Splitter {
  import opened Text

  /** `line.strip().startswith("def ")`: a `def` line, at any indentation. */
  predicate IsDefLine(line: string)
  {
    StartsWith(Strip(line), "def ")
  }

  /** `line.startswith(" ") or line.startswith("\t")` */
  predicate IsIndented(line: string)
  {
    StartsWith(line, " ") || StartsWith(line, "\t")
  }

  /**
   * One turn of the loop: the new value of `in_def`. The line goes to the
   * definitions exactly when this is true.
   */
  predicate Step(inDef: bool, line: string)
  {
    IsDefLine(line) || (inDef && IsIndented(line))
  }

  /** `in_def` once the loop has seen `lines`; `False` before the first line. */
  predicate InDefAfter(lines: seq<string>)
    decreases |lines|
  {
    lines != [] && Step(InDefAfter(lines[..|lines| - 1]), lines[|lines| - 1])
  }

  /** The lines the loop appends to `func_defs` (`toDefs`) or to `top_level` (`!toDefs`), in order. */
  function Section(lines: seq<string>, toDefs: bool): seq<string>
    decreases |lines|
  {
    if lines == [] then []
    else Section(lines[..|lines| - 1], toDefs) + (if InDefAfter(lines) == toDefs then [lines[|lines| - 1]] else [])
  }

  /** The pair `split_code_sections` returns: both sections joined by line breaks. */
  function Sections(code: string): (string, string)
  {
    var lines := SplitLines(code);
    (Join(Section(lines, true), "\n"), Join(Section(lines, false), "\n"))
  }

  /** `split_code_sections(code)` */
  method SplitCodeSections(code: string) returns (funcDefs: string, topLevel: string)
    ensures (funcDefs, topLevel) == Sections(code)
  {
    var defs: seq<string> := [];
    var top: seq<string> := [];
    var lines := SplitLines(code);
    var inDef := false;
    for i := 0 to |lines|
      invariant inDef == InDefAfter(lines[..i])
      invariant defs == Section(lines[..i], true)
      invariant top == Section(lines[..i], false)
    {
      var line := lines[i];
      LoopStep(lines, i);
      if IsDefLine(line) {
        inDef := true;
        defs := defs + [line];
      } else if inDef && IsIndented(line) {
        defs := defs + [line];
      } else {
        inDef := false;
        top := top + [line];
      }
    }
    assert lines[..|lines|] == lines;
    funcDefs := Join(defs, "\n");
    topLevel := Join(top, "\n");
  }

  /** What one turn of the loop adds to the flag and to the sections. */
  lemma LoopStep(lines: seq<string>, i: nat)
    requires i < |lines|
    ensures InDefAfter(lines[..i + 1]) == Step(InDefAfter(lines[..i]), lines[i])
    ensures Section(lines[..i + 1], true) == Section(lines[..i], true) + (if InDefAfter(lines[..i + 1]) then [lines[i]] else [])
    ensures Section(lines[..i + 1], false) == Section(lines[..i], false) + (if InDefAfter(lines[..i + 1]) then [] else [lines[i]])
  {
    assert lines[..i + 1][..i] == lines[..i];
  }

  /** Every line goes to exactly one section: together the two hold the lines, no more and no fewer. */
  lemma {:induction false} SectionsPartition(lines: seq<string>)
    ensures |Section(lines, true)| + |Section(lines, false)| == |lines|
    ensures multiset(Section(lines, true)) + multiset(Section(lines, false)) == multiset(lines)
  {
    if lines != [] {
      var prefix := lines[..|lines| - 1];
      SectionsPartition(prefix);
      var last := [lines[|lines| - 1]];
      assert lines == prefix + last;
      if InDefAfter(lines) {
        assert Section(lines, true) == Section(prefix, true) + last;
        assert Section(lines, false) == Section(prefix, false);
      } else {
        assert Section(lines, true) == Section(prefix, true);
        assert Section(lines, false) == Section(prefix, false) + last;
      }
    }
  }

  /**
   * How one line is routed, whatever came before: a `def` line goes to the
   * definitions; a line that is neither a `def` line nor indented, the empty
   * line among them, goes to the top level; an indented line follows the line
   * before it.
   */
  lemma RouteRules(lines: seq<string>, i: nat)
    requires i < |lines|
    ensures IsDefLine(lines[i]) ==> InDefAfter(lines[..i + 1])
    ensures !IsDefLine(lines[i]) && !IsIndented(lines[i]) ==> !InDefAfter(lines[..i + 1])
    ensures !IsDefLine(lines[i]) && IsIndented(lines[i]) ==> (InDefAfter(lines[..i + 1]) <==> InDefAfter(lines[..i]))
  {
    LoopStep(lines, i);
  }

  /** The section each line is sent to: `true` for the definitions. */
  function Routes(lines: seq<string>): (routes: seq<bool>)
    ensures |routes| == |lines|
    decreases |lines|
  {
    if lines == [] then [] else Routes(lines[..|lines| - 1]) + [InDefAfter(lines)]
  }

  /**
   * Interleaves two sections back into one list of lines: working from the
   * end, each route says which section the next line is taken from.
   */
  function Merge(routes: seq<bool>, defs: seq<string>, top: seq<string>): seq<string>
    decreases |routes|
  {
    if routes == [] then []
    else if routes[|routes| - 1] then
      if defs == [] then [] else Merge(routes[..|routes| - 1], defs[..|defs| - 1], top) + [defs[|defs| - 1]]
    else
      if top == [] then [] else Merge(routes[..|routes| - 1], defs, top[..|top| - 1]) + [top[|top| - 1]]
  }

  /**
   * Merging the two sections along the routes rebuilds the lines: each
   * section keeps the lines it receives in their original order.
   */
  lemma {:induction false} MergeRebuilds(lines: seq<string>)
    ensures Merge(Routes(lines), Section(lines, true), Section(lines, false)) == lines
  {
    if lines != [] {
      var n := |lines|;
      var prefix := lines[..n - 1];
      var last := lines[n - 1];
      MergeRebuilds(prefix);
      RoutesOfPrefix(lines);
      var routes := Routes(lines);
      var defs := Section(lines, true);
      var top := Section(lines, false);
      assert lines == prefix + [last];
      if InDefAfter(lines) {
        assert defs == Section(prefix, true) + [last] && top == Section(prefix, false);
        assert defs[..|defs| - 1] == Section(prefix, true);
        assert Merge(routes, defs, top) == Merge(Routes(prefix), Section(prefix, true), top) + [last];
      } else {
        assert top == Section(prefix, false) + [last] && defs == Section(prefix, true);
        assert top[..|top| - 1] == Section(prefix, false);
        assert Merge(routes, defs, top) == Merge(Routes(prefix), defs, Section(prefix, false)) + [last];
      }
    }
  }

  lemma RoutesOfPrefix(lines: seq<string>)
    requires lines != []
    ensures Routes(lines)[..|lines| - 1] == Routes(lines[..|lines| - 1])
    ensures Routes(lines)[|lines| - 1] == InDefAfter(lines)
  {
    var prefix := lines[..|lines| - 1];
    assert Routes(lines) == Routes(prefix) + [InDefAfter(lines)];
  }

  /** Line `j` is a `def` line and every line after it is indented. */
  predicate BlockFrom(lines: seq<string>, j: int)
  {
    0 <= j < |lines| && IsDefLine(lines[j]) && forall k :: j < k < |lines| ==> IsIndented(lines[k])
  }

  lemma {:induction false} InDefAfterHasBlock(lines: seq<string>) returns (j: int)
    requires InDefAfter(lines)
    ensures BlockFrom(lines, j)
  {
    var n := |lines|;
    var prefix := lines[..n - 1];
    if IsDefLine(lines[n - 1]) {
      j := n - 1;
    } else {
      j := InDefAfterHasBlock(prefix);
      assert lines[j] == prefix[j];
      assert forall k :: j < k < n - 1 ==> lines[k] == prefix[k];
    }
  }

  lemma {:induction false} BlockHasInDefAfter(lines: seq<string>, j: int)
    requires BlockFrom(lines, j)
    ensures InDefAfter(lines)
  {
    var n := |lines|;
    var prefix := lines[..n - 1];
    if j < n - 1 {
      assert prefix[j] == lines[j];
      assert forall k :: j < k < n - 1 ==> prefix[k] == lines[k];
      BlockHasInDefAfter(prefix, j);
      assert IsIndented(lines[n - 1]);
    }
  }

  /**
   * The loop's flag in closed form: after a sequence of lines the loop is
   * inside a definition exactly when some line was a `def` line and every
   * line after it is indented.
   */
  lemma InDefAfterClosedForm(lines: seq<string>)
    ensures InDefAfter(lines) <==> exists j :: BlockFrom(lines, j)
  {
    if InDefAfter(lines) {
      var j := InDefAfterHasBlock(lines);
    }
    if exists j :: BlockFrom(lines, j) {
      var j :| BlockFrom(lines, j);
      BlockHasInDefAfter(lines, j);
    }
  }

  /**
   * A line that is neither a `def` line nor indented, an empty line among
   * them, ends the block: the lines after it go to the top level until the
   * next `def` line, even when they are indented.
   */
  lemma UnindentedLineEndsBlock(lines: seq<string>, i: nat, k: nat)
    requires i <= k < |lines|
    requires !IsDefLine(lines[i]) && !IsIndented(lines[i])
    requires forall m :: i <= m <= k ==> !IsDefLine(lines[m])
    ensures !InDefAfter(lines[..k + 1])
  {
    var upto := lines[..k + 1];
    forall j | 0 <= j < |upto|
      ensures !BlockFrom(upto, j)
    {
      assert upto[i] == lines[i] && upto[j] == lines[j];
    }
    InDefAfterClosedForm(upto);
  }

  /** The lines of a section, read back from the joined text. */
  lemma SectionLines(lines: seq<string>, toDefs: bool)
    requires forall k :: 0 <= k < |lines| ==> '\n' !in lines[k]
    requires Section(lines, toDefs) != []
    ensures Split(Join(Section(lines, toDefs), "\n"), '\n') == Section(lines, toDefs)
  {
    SectionMembers(lines, toDefs);
    SplitJoin(Section(lines, toDefs), '\n');
  }

  /** Each line of a section is one of the lines, sent there by the flag after it. */
  lemma {:induction false} SectionMembers(lines: seq<string>, toDefs: bool)
    ensures forall k :: 0 <= k < |Section(lines, toDefs)| ==> Section(lines, toDefs)[k] in lines
  {
    if lines != [] {
      var prefix := lines[..|lines| - 1];
      SectionMembers(prefix, toDefs);
      assert forall x :: x in prefix ==> x in lines;
    }
  }
}
