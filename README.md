# prototypes: forward declarations for Python, in Dafny

`prototypes` lets a Python program call a function before the function is
defined. It works in two ways.

* **Ahead of time** (`prototypes/__main__.py`). A `.pyproto` file may hold
  lines such as `prototype greet(name) -> str`. The compiler finds them with a
  line-anchored pattern, writes a stub `def greet(name) -> str:` / `    pass`
  for each, blanks the declaration lines, and splits the rest of the program
  into function definitions and top-level code. The result is the pair
  `(stubs + "\n" + definitions, top_level)`.
* **At run time** (`prototypes/core.py`). `prototype("greet(name)")` parses the
  signature, binds a placeholder object to the name in the caller's globals
  and in the table `_declared`, and returns it. Calling the placeholder looks
  the name up in the globals of `prototypes/core.py`: a real function found
  there is called, otherwise a diagnostic line is printed and the result is
  `None`.

The model follows the program's structure, one module per stage:

| file | module | what it holds |
|---|---|---|
| `wrappers.dfy` | `Wrappers` | `Option` and `Result` |
| `text.dfy` | `Text` | the `str` operations the program uses: `isspace`, `strip`, `startswith`, `endswith`, `split` on one character, `join`, `splitlines` |
| `scanner.dfy` | `Scanner` | the capture pattern as a line matcher, `extract_prototypes`, `remove_prototypes` |
| `stubs.dfy` | `Stubs` | `make_stubs`, a loop over the prototypes |
| `splitter.dfy` | `Splitter` | `split_code_sections`, a loop with the `in_def` flag |
| `compiler.dfy` | `Compiler` | `compile_pyproto` after the file has been read |
| `core.dfy` | `Core` | signature parsing, `_PrototypePlaceholder` as a class, `prototype` as a method over explicit namespaces |

The capture pattern `^prototype\s+([A-Za-z_]\w*)\s*\((.*?)\)\s*(?:->\s*(\w+))?$`
is modelled as a chain of small matchers, one per piece of the pattern
(`MatchLine`, `MatchAfterKeyword`, `MatchName`, `MatchParams`, `MatchArgs`,
`MatchTail`). Its meaning is pinned down by `Line`, a function that spells a
declaration line out of its groups and the whitespace gaps between them: the
matcher accepts a line exactly when the line has that shape, and then reports
exactly those groups. Because the text after `)` can never contain `)`, the
lazy `(.*?)` in effect ends at the last `)` of the line.

`split_code_sections` and `make_stubs` are `for` loops in Dafny too, proved
against the functions `Section` and `StubText`. `_PrototypePlaceholder` is a
class whose constructor sets `name` and `argnames`; a namespace is a class
holding a mutable map, and `prototype` updates two of them in place.

The model follows the code where one might expect otherwise:

* Declaration lines are blanked, not removed: `re.sub(r'^prototype.*$', '', ...)`
  leaves an empty line, so the program keeps its line count
  (`prototypes/__main__.py:17`).
* With no declarations, the definitions text still starts with the `"\n"`
  that `compile_pyproto` always inserts (`prototypes/__main__.py:48`),
  proved as `Compiler.CompileWithoutDeclarations`.
* A compiled stub's body is `pass` (`prototypes/__main__.py:13`): calling a
  stub before the real definition returns `None` silently. Only the run-time
  placeholder prints a diagnostic.
* A placeholder looks its name up in the globals of `prototypes/core.py`
  itself (`prototypes/core.py:13`), not in `_declared` and not in the caller's
  globals where `prototype` binds it (`prototypes/core.py:42`). The model
  keeps these as separate `Namespace` objects.
* An empty line ends a definition block: it is neither a `def` line nor
  indented, so it goes to the top level and clears `in_def`; indented lines
  after it go to the top level as well (`Splitter.UnindentedLineEndsBlock`).

## Model

| member | source | states |
|---|---|---|
| Scanner.MatchLine | prototypes/__main__.py:6 | the capture pattern on one line; a match is only ever found on a line that starts with `prototype` (what it accepts and reports is pinned down by `Scanner.MatchLineComplete` and `Scanner.MatchLineSound`) |
| Scanner.MatchLineComplete | prototypes/__main__.py:6 | every line of the shape `prototype`, whitespace, identifier, optional whitespace, `(args)`, optional `-> word`, whitespace gaps, is matched with exactly those groups |
| Scanner.MatchLineSound | prototypes/__main__.py:6 | every matched line has that shape, with an identifier as name and an empty or single-word return group |
| Scanner.ArgsBetweenOuterParens | prototypes/__main__.py:6 | in a match, no `(` comes before the argument group and no `)` after it: the group runs from the first `(` to the last `)` |
| Scanner.MatchFieldsOnLine | prototypes/__main__.py:6 | every character of the three groups comes from the line |
| Scanner.ExtractPrototypes | prototypes/__main__.py:5-7 | `findall` over the `\n` lines of the code: at most one prototype per line, each named by a Python identifier and with an empty or one-word return annotation (order and origin are stated by `Scanner.ExtractAllAppend` and `Scanner.ExtractedFromLine`) |
| Scanner.ExtractAllAppend | prototypes/__main__.py:5-7 | prototypes are found in source order: those of a text are those of its first lines followed by those of the rest |
| Scanner.AtMostOnePerLine | prototypes/__main__.py:5-7 | a line yields at most one prototype |
| Scanner.ExtractedFromLine | prototypes/__main__.py:5-7 | every extracted prototype is the match of some line |
| Scanner.ExtractedWellFormed | prototypes/__main__.py:6-7 | every extracted name matches `[A-Za-z_]\w*`; every return group is empty or one `\w+` word |
| Scanner.ExtractAllSingleLine | prototypes/__main__.py:5-7 | no extracted group holds a line break |
| Scanner.ExtractAllWithoutKeyword | prototypes/__main__.py:5-7 | lines that do not start with `prototype` yield no prototype |
| Scanner.RemovePrototypes | prototypes/__main__.py:16-17 | the cleaned text has the same lines as the input, each line starting with `prototype` replaced by the empty line |
| Scanner.RemoveIdempotent | prototypes/__main__.py:16-17 | cleaning twice is cleaning once |
| Scanner.RemoveWithoutKeyword | prototypes/__main__.py:16-17 | text with no line starting with `prototype` is returned unchanged |
| Scanner.CleanCodeDeclaresNothing | prototypes/__main__.py:5-17 | every line the capture pattern accepts is blanked: the cleaned text yields no prototype |
| Scanner.BracketTailRejected | prototypes/__main__.py:6 | the tail ` -> List[int]` is refused by `\s*(?:->\s*(\w+))?$` |
| Scanner.ArgsRejected | prototypes/__main__.py:6 | an argument text with one `)` followed by a refused tail is not matched |
| Scanner.MalformedDeclarationIsDropped | prototypes/__main__.py:5-17 | a `prototype` line whose text after `)` is refused yields no prototype and is still blanked, so no stub is made for it |
| Stubs.StubList | prototypes/__main__.py:9-13 | one stub per prototype |
| Stubs.MakeStubs | prototypes/__main__.py:9-14 | the loop returns the stubs of the prototypes, in order, joined by line breaks; no prototypes give the empty text |
| Stubs.StubTextLines | prototypes/__main__.py:12-14 | read back line by line, the stub text is, per prototype, `def name(args)[ -> ret]:`, `    pass` and an empty line |
| Stubs.StubLinesAt | prototypes/__main__.py:12-14 | the stub of the `i`-th prototype occupies lines `3i`, `3i + 1`, `3i + 2` |
| Stubs.StubLinesDeclareNothing | prototypes/__main__.py:13 | no stub line starts with `prototype` |
| Splitter.SplitCodeSections | prototypes/__main__.py:19-36 | the loop returns the two sections the routing rules define, each joined by line breaks |
| Splitter.LoopStep | prototypes/__main__.py:26-34 | one turn of the loop: the new flag, and the one section the line is appended to |
| Splitter.RouteRules | prototypes/__main__.py:27-34 | a `def` line (stripped text starting with `def `) goes to the definitions whatever came before; a line neither `def` nor indented goes to the top level; an indented line keeps the current section |
| Splitter.SectionsPartition | prototypes/__main__.py:26-34 | every line goes to exactly one section: the lengths add up and the two sections together are a permutation of the lines |
| Splitter.MergeRebuilds | prototypes/__main__.py:26-34 | merging the two sections along each line's route rebuilds the input, so each section keeps its lines in source order |
| Splitter.InDefAfterClosedForm | prototypes/__main__.py:26-34 | the loop is inside a definition exactly when some earlier line was a `def` line and every line since is indented |
| Splitter.UnindentedLineEndsBlock | prototypes/__main__.py:30-34 | a line that is neither `def` nor indented, the empty line among them, sends every following line to the top level up to the next `def` line |
| Splitter.SectionLines | prototypes/__main__.py:36 | a non-empty section, joined by line breaks, reads back as the same lines |
| Splitter.SectionMembers | prototypes/__main__.py:26-34 | each line of a section is one of the input lines |
| Text.SplitLines | prototypes/__main__.py:23 | `splitlines` on `\n`: no piece holds a line break, the empty text has no lines, and joining the lines gives the text back up to a final line break |
| Text.StripShape | prototypes/core.py:33-35 | `strip` removes exactly a leading and a trailing whitespace run; the result is empty exactly for all-whitespace text |
| Compiler.CompilePyproto | prototypes/__main__.py:42-49 | extract, make stubs, clean, split and concatenate give `Compile(code)` |
| Compiler.CompileLayout | prototypes/__main__.py:42-49 | line by line, the definitions are the three lines of every stub, in order, then the definitions section; the top level is the other section |
| Compiler.StubsComeFirst | prototypes/__main__.py:48 | the stub of the `i`-th declaration is at lines `3i` to `3i + 2` of the definitions, ahead of every real definition |
| Compiler.CompiledDeclaresNothing | prototypes/__main__.py:42-49 | no line of either output starts with `prototype` |
| Compiler.CompileWithoutDeclarations | prototypes/__main__.py:42-49 | without declarations the definitions are `"\n"` followed by the definitions section of the unchanged code |
| Core.FirstIndex | prototypes/core.py:32 | the split point is the first `(` |
| Core.ParseSignature | prototypes/core.py:29-35 | `SyntaxError` with its message exactly when the signature has no `(` or does not end with `)`; otherwise the name before the first `(` and the stripped comma-separated argument names (stated by `Core.ParsedSignature` and `Core.ParseRenderParse`) |
| Core.ArgNamesCount | prototypes/core.py:34-35 | no argument names for a blank argument text; otherwise one more than the number of commas |
| Core.ArgNamesClean | prototypes/core.py:35 | every argument name is stripped and holds no comma |
| Core.ParsedSignature | prototypes/core.py:32-35 | every parsed signature is well formed: the name is stripped and holds no `(`; the argument names are stripped, hold no comma, and are never a single empty name |
| Core.ParseRender | prototypes/core.py:19-35 | parsing the `name(a, b)` text of any well-formed signature gives back its name and argument names, empty argument names included |
| Core.ParseRenderParse | prototypes/core.py:19-35 | for every signature `prototype` accepts, parsing the text of the parsed signature reads the same signature again |
| Core.PrototypePlaceholder.Repr | prototypes/core.py:19-20 | the text is `<prototype ` and `>` around the rendered signature |
| Core.ReprRoundTrip | prototypes/core.py:19-20 | `__repr__` is `<prototype ...>` around text that parses back to the placeholder's own signature |
| Core.PrototypePlaceholder.constructor | prototypes/core.py:8-10 | the placeholder keeps the name and argument names it is given |
| Core.PrototypePlaceholder.Call | prototypes/core.py:12-17 | a function bound to the name in the core globals is called with the arguments and its result returned, with nothing printed; otherwise the diagnostic naming the call and its arguments is printed and the result is `None` |
| Core.Prototype | prototypes/core.py:22-44 | a malformed signature raises and changes nothing; otherwise a fresh placeholder for the parsed signature is returned and bound to the name in `_declared` and in the caller's globals, replacing any earlier binding and leaving every other name as it was; the placeholder's signature is well formed, so its `__repr__` parses back to it |

## Left out

- Reading the `.pyproto` file in `compile_pyproto` (`prototypes/__main__.py:39-40`): the model starts from the text of the file.
- `run_pyproto` (`prototypes/__main__.py:51-55`): it hands the two texts to `exec`, which runs Python code and is outside the model.
- `compile_to_py` and the command-line `main` (`prototypes/__main__.py:57-82`): file output, the output path and the printed messages are plumbing.
- Call-stack introspection (`prototypes/core.py:41-42`): the caller's globals are passed to `Prototype` as an explicit `Namespace`.
- `print` (`prototypes/core.py:17`): `Call` returns the diagnostic line instead of writing it.
- Core.PrototypePlaceholder.Call: `callable()` over arbitrary objects is narrowed to three kinds of binding (placeholder, function, other value); keyword arguments are not modelled and the callee is a pure function of the positional arguments, so its side effects are not captured.
- Scanner.MatchLine: `\w` is the ASCII class `[A-Za-z0-9_]`, not Python's Unicode class, and the pattern is applied to each `\n`-separated line on its own, so a `\s` that spans a line break in `re.MULTILINE` mode is not modelled.
- Text.SplitLines: only `\n` is a line break; the other separators `str.splitlines` recognises (`\r`, `\x0b`, `\x0c`, `\x1c` to `\x1e`, `\x85`, `\u2028`, `\u2029`) are not modelled.
- Core.ParseRender: excludes one list of argument names, the single empty name, which `__repr__` writes as `name()` and which parses back as no names; `prototype` never produces it (`Core.ParsedSignature`).
- Scanner.MalformedDeclarationIsDropped: stated for argument texts and tails without `)`; a refused line with `)` inside its arguments is not covered by this lemma.
