/**
 * The few Python `str` operations the program relies on, over `string`
 * (`seq<char>`): `isspace`, `strip`, `startswith`, `endswith`,
 * `split` on one character, `join` and `splitlines`.
 */
module Text {

  /** `c.isspace()`; the same characters are matched by `\s` in a `str` pattern. */
  predicate IsSpace(c: char)
  {
    || ('\t' <= c <= '\r')
    || ('\U{001C}' <= c <= ' ')
    || c == '\U{0085}' || c == '\U{00A0}' || c == '\U{1680}'
    || ('\U{2000}' <= c <= '\U{200A}')
    || c == '\U{2028}' || c == '\U{2029}' || c == '\U{202F}' || c == '\U{205F}' || c == '\U{3000}'
  }

  predicate AllSpaces(s: string)
  {
    forall i :: 0 <= i < |s| ==> IsSpace(s[i])
  }

  /** Neither starts nor ends with whitespace: what `strip` leaves. */
  predicate IsStripped(s: string)
  {
    s == [] || (!IsSpace(s[0]) && !IsSpace(s[|s| - 1]))
  }

  predicate StartsWith(s: string, prefix: string)
  {
    |prefix| <= |s| && s[..|prefix|] == prefix
  }

  predicate EndsWith(s: string, suffix: string)
  {
    |suffix| <= |s| && s[|s| - |suffix|..] == suffix
  }

  /** The length of the run of whitespace that `s` starts with. */
  function LeadLength(s: string): (n: nat)
    ensures n <= |s| && AllSpaces(s[..n])
    ensures n < |s| ==> !IsSpace(s[n])
  {
    if |s| > 0 && IsSpace(s[0]) then
      var n := 1 + LeadLength(s[1..]);
      assert s[..n] == [s[0]] + s[1..][..n - 1];
      n
    else 0
  }

  /** A whitespace run followed by a text that does not start with whitespace. */
  lemma LeadLengthOf(w: string, y: string)
    requires AllSpaces(w)
    requires y == [] || !IsSpace(y[0])
    ensures LeadLength(w + y) == |w|
  {
    var s := w + y;
    var n := LeadLength(s);
    assert forall i :: 0 <= i < n ==> IsSpace(s[i]) by {
      forall i | 0 <= i < n ensures IsSpace(s[i]) { assert s[..n][i] == s[i]; }
    }
    assert forall i :: 0 <= i < |w| ==> s[i] == w[i];
    assert |y| > 0 ==> s[|w|] == y[0];
  }

  /** `s.lstrip()` */
  function StripStart(s: string): string
  {
    if s != [] && IsSpace(s[0]) then StripStart(s[1..]) else s
  }

  /** `s.rstrip()` */
  function StripEnd(s: string): string
  {
    if s != [] && IsSpace(s[|s| - 1]) then StripEnd(s[..|s| - 1]) else s
  }

  /** `s.strip()`: the text between the leading and the trailing whitespace. */
  function Strip(s: string): string
  {
    StripEnd(StripStart(s))
  }

  lemma {:induction false} StripStartOf(w: string, y: string)
    requires AllSpaces(w)
    requires y == [] || !IsSpace(y[0])
    ensures StripStart(w + y) == y
  {
    if w == [] {
      assert w + y == y;
    } else {
      StripStartOf(w[1..], y);
      assert (w + y)[1..] == w[1..] + y;
    }
  }

  lemma {:induction false} StripEndOf(y: string, w: string)
    requires AllSpaces(w)
    requires y == [] || !IsSpace(y[|y| - 1])
    ensures StripEnd(y + w) == y
  {
    if w == [] {
      assert y + w == y;
    } else {
      var w' := w[..|w| - 1];
      StripEndOf(y, w');
      assert (y + w)[..|y + w| - 1] == y + w';
    }
  }

  /** `lstrip` removes a whitespace run and leaves a text that does not start with whitespace. */
  lemma {:induction false} StripStartShape(s: string) returns (w: string)
    ensures AllSpaces(w) && s == w + StripStart(s)
    ensures StripStart(s) == [] || !IsSpace(StripStart(s)[0])
  {
    if s != [] && IsSpace(s[0]) {
      var w' := StripStartShape(s[1..]);
      w := [s[0]] + w';
      assert StripStart(s) == StripStart(s[1..]);
      assert w + StripStart(s) == [s[0]] + (w' + StripStart(s[1..]));
    } else {
      w := [];
    }
  }

  /** `rstrip` removes a whitespace run and leaves a text that does not end with whitespace. */
  lemma {:induction false} StripEndShape(s: string) returns (w: string)
    ensures AllSpaces(w) && s == StripEnd(s) + w
    ensures StripEnd(s) == [] || !IsSpace(StripEnd(s)[|StripEnd(s)| - 1])
  {
    if s != [] && IsSpace(s[|s| - 1]) {
      var w' := StripEndShape(s[..|s| - 1]);
      w := w' + [s[|s| - 1]];
    } else {
      w := [];
    }
  }

  /** What `strip` returns neither starts nor ends with whitespace, and is empty exactly for all-whitespace text. */
  lemma StripShape(s: string) returns (lead: string, trail: string)
    ensures AllSpaces(lead) && AllSpaces(trail) && s == lead + Strip(s) + trail
    ensures IsStripped(Strip(s))
    ensures AllSpaces(s) <==> Strip(s) == []
  {
    var x := StripStart(s);
    lead := StripStartShape(s);
    trail := StripEndShape(x);
    StrippedBetween(x, trail);
    SpacesAfterLead(s, lead, x);
  }

  /** Cutting trailing whitespace off a text that does not start with whitespace leaves a stripped text, empty only for empty input. */
  lemma StrippedBetween(x: string, trail: string)
    requires x == [] || !IsSpace(x[0])
    requires AllSpaces(trail) && x == StripEnd(x) + trail
    requires StripEnd(x) == [] || !IsSpace(StripEnd(x)[|StripEnd(x)| - 1])
    ensures IsStripped(StripEnd(x))
    ensures StripEnd(x) == [] <==> x == []
  {
    var r := StripEnd(x);
    assert r != [] ==> r[0] == x[0];
    assert r == [] ==> x == trail;
  }

  lemma SpacesAfterLead(s: string, lead: string, x: string)
    requires AllSpaces(lead) && s == lead + x
    requires x == [] || !IsSpace(x[0])
    ensures AllSpaces(s) <==> x == []
  {
    if x != [] {
      assert s[|lead|] == x[0];
    } else {
      assert s == lead;
    }
  }

  /** Trailing whitespace is cut from the end only, when what comes before does not end in whitespace. */
  lemma StripEndAppend(a: string, b: string)
    requires a == [] || !IsSpace(a[|a| - 1])
    ensures StripEnd(a + b) == a + StripEnd(b)
  {
    var w := StripEndShape(b);
    var r := StripEnd(b);
    var y := a + r;
    assert a + b == y + w;
    if r == [] {
      assert y == a;
    } else {
      assert y[|y| - 1] == r[|r| - 1];
    }
    StripEndOf(y, w);
  }

  /** Whitespace around a stripped text is exactly what `strip` removes. */
  lemma StripPadded(lead: string, x: string, trail: string)
    requires AllSpaces(lead) && AllSpaces(trail) && IsStripped(x)
    ensures Strip(lead + x + trail) == x
  {
    var s := lead + x + trail;
    if x == [] {
      assert s == lead + trail;
      StripStartOf(lead + trail, []);
      assert lead + trail + [] == lead + trail;
    } else {
      assert s == lead + (x + trail);
      StripStartOf(lead, x + trail);
      StripEndOf(x, trail);
    }
  }

  lemma StripOfStripped(x: string)
    requires IsStripped(x)
    ensures Strip(x) == x
  {
    StripPadded([], x, []);
    assert [] + x + [] == x;
  }

  /** `s.split(sep)` for a one-character separator; never empty. */
  function Split(s: string, sep: char): (parts: seq<string>)
    ensures |parts| >= 1
    ensures forall k :: 0 <= k < |parts| ==> sep !in parts[k]
  {
    if s == [] then [[]]
    else
      var rest := Split(s[1..], sep);
      if s[0] == sep then [[]] + rest else [[s[0]] + rest[0]] + rest[1..]
  }

  /** `sep.join(parts)` */
  function Join(parts: seq<string>, sep: string): string
  {
    if parts == [] then []
    else if |parts| == 1 then parts[0]
    else parts[0] + sep + Join(parts[1..], sep)
  }

  lemma {:induction false} SplitNoSeparator(s: string, sep: char)
    requires sep !in s
    ensures Split(s, sep) == [s]
  {
    if s != [] {
      SplitNoSeparator(s[1..], sep);
      assert [s[0]] + s[1..] == s;
    }
  }

  /** Splitting at one separator splits the text into the parts on either side. */
  lemma SplitCons(c: char, t: string, sep: char)
    ensures Split([c] + t, sep) ==
      if c == sep then [[]] + Split(t, sep) else [[c] + Split(t, sep)[0]] + Split(t, sep)[1..]
  {
    assert ([c] + t)[0] == c && ([c] + t)[1..] == t;
  }

  lemma ConsAppend(x: seq<string>, y: seq<string>, c: char, sep: char)
    requires |x| >= 1
    ensures (if c == sep then [[]] + (x + y) else [[c] + (x + y)[0]] + (x + y)[1..])
      == (if c == sep then [[]] + x else [[c] + x[0]] + x[1..]) + y
  {
    if c == sep {
      assert [[]] + (x + y) == ([[]] + x) + y;
    } else {
      assert (x + y)[0] == x[0];
      assert (x + y)[1..] == x[1..] + y;
      assert [[c] + x[0]] + (x[1..] + y) == ([[c] + x[0]] + x[1..]) + y;
    }
  }

  lemma {:induction false} SplitAround(a: string, sep: char, b: string)
    ensures Split(a + [sep] + b, sep) == Split(a, sep) + Split(b, sep)
  {
    if a == [] {
      assert a + [sep] + b == [sep] + b;
      SplitCons(sep, b, sep);
    } else {
      var t := a[1..] + [sep] + b;
      SplitAround(a[1..], sep, b);
      assert a + [sep] + b == [a[0]] + t;
      assert a == [a[0]] + a[1..];
      SplitCons(a[0], t, sep);
      SplitCons(a[0], a[1..], sep);
      ConsAppend(Split(a[1..], sep), Split(b, sep), a[0], sep);
    }
  }

  /** `sep.join(s.split(sep)) == s` */
  lemma {:induction false} JoinSplit(s: string, sep: char)
    ensures Join(Split(s, sep), [sep]) == s
  {
    if s != [] {
      JoinSplit(s[1..], sep);
      var rest := Split(s[1..], sep);
      if s[0] == sep {
        assert [sep] + s[1..] == s;
      } else if |rest| == 1 {
        assert [s[0]] + s[1..] == s;
      } else {
        assert Join(rest, [sep]) == rest[0] + [sep] + Join(rest[1..], [sep]);
        assert [s[0]] + s[1..] == s;
      }
    }
  }

  /** `s.split(sep)` undoes `sep.join(parts)` when no part holds the separator. */
  lemma {:induction false} SplitJoin(parts: seq<string>, sep: char)
    requires |parts| >= 1
    requires forall k :: 0 <= k < |parts| ==> sep !in parts[k]
    ensures Split(Join(parts, [sep]), sep) == parts
  {
    if |parts| == 1 {
      SplitNoSeparator(parts[0], sep);
    } else {
      SplitJoin(parts[1..], sep);
      SplitNoSeparator(parts[0], sep);
      SplitAround(parts[0], sep, Join(parts[1..], [sep]));
      assert Join(parts, [sep]) == parts[0] + [sep] + Join(parts[1..], [sep]);
      assert [parts[0]] + parts[1..] == parts;
    }
  }

  /** Joining two non-empty lists puts one separator between their joins. */
  lemma {:induction false} JoinAppend(a: seq<string>, b: seq<string>, sep: string)
    requires a != [] && b != []
    ensures Join(a + b, sep) == Join(a, sep) + sep + Join(b, sep)
  {
    if |a| == 1 {
      assert (a + b)[1..] == b;
    } else {
      JoinAppend(a[1..], b, sep);
      assert (a + b)[1..] == a[1..] + b;
    }
  }

  /**
   * `s.splitlines()` for text whose only line break is `"\n"`: the pieces
   * between line breaks, without the empty piece after a final break.
   */
  function SplitLines(s: string): (lines: seq<string>)
    ensures forall k :: 0 <= k < |lines| ==> '\n' !in lines[k]
    ensures s == [] <==> lines == []
    ensures s == Join(lines, "\n") + (if EndsWith(s, "\n") then "\n" else "")
  {
    var parts := Split(s, '\n');
    JoinSplit(s, '\n');
    if parts[|parts| - 1] == [] then
      var lines := parts[..|parts| - 1];
      if lines == [] then
        assert s == [];
        lines
      else
        JoinAppend(lines, [[]], "\n");
        assert lines + [[]] == parts;
        assert EndsWith(s, "\n");
        lines
    else
      assert !EndsWith(s, "\n") by {
        if EndsWith(s, "\n") {
          assert s == s[..|s| - 1] + ['\n'] + [];
          SplitAround(s[..|s| - 1], '\n', []);
        }
      }
      parts
  }

  /** The lines of `splitlines` are the first pieces of `split("\n")`. */
  lemma SplitLinesPrefix(s: string)
    ensures |SplitLines(s)| <= |Split(s, '\n')|
    ensures SplitLines(s) == Split(s, '\n')[..|SplitLines(s)|]
  {
  }

  /** The images of the elements of a sequence, concatenated in order. */
  function FlatMap<A, B>(f: A -> seq<B>, xs: seq<A>): seq<B>
  {
    if xs == [] then [] else f(xs[0]) + FlatMap(f, xs[1..])
  }

  lemma {:induction false} FlatMapAppend<A, B>(f: A -> seq<B>, a: seq<A>, b: seq<A>)
    ensures FlatMap(f, a + b) == FlatMap(f, a) + FlatMap(f, b)
  {
    if a == [] {
      assert a + b == b;
    } else {
      FlatMapAppend(f, a[1..], b);
      assert (a + b)[0] == a[0];
      assert (a + b)[1..] == a[1..] + b;
      var x := f(a[0]);
      assert x + (FlatMap(f, a[1..]) + FlatMap(f, b)) == (x + FlatMap(f, a[1..])) + FlatMap(f, b);
    }
  }

  lemma {:induction false} FlatMapEmpty<A, B>(f: A -> seq<B>, xs: seq<A>)
    requires forall i :: 0 <= i < |xs| ==> f(xs[i]) == []
    ensures FlatMap(f, xs) == []
  {
    if xs != [] {
      FlatMapEmpty(f, xs[1..]);
    }
  }

  lemma {:induction false} FlatMapAtMostOne<A, B>(f: A -> seq<B>, xs: seq<A>)
    requires forall i :: 0 <= i < |xs| ==> |f(xs[i])| <= 1
    ensures |FlatMap(f, xs)| <= |xs|
  {
    if xs != [] {
      FlatMapAtMostOne(f, xs[1..]);
    }
  }

  /** Every element of the result comes from the image of some element of the input. */
  lemma {:induction false} FlatMapSource<A, B>(f: A -> seq<B>, xs: seq<A>, j: nat) returns (i: nat)
    requires j < |FlatMap(f, xs)|
    ensures i < |xs| && FlatMap(f, xs)[j] in f(xs[i])
  {
    var x := f(xs[0]);
    if j < |x| {
      i := 0;
    } else {
      var k := FlatMapSource(f, xs[1..], j - |x|);
      i := k + 1;
    }
  }
}
