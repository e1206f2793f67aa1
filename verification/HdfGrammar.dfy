/**
 * HDF text as people write it: indented lines that set dotted paths, blocks in braces,
 * comments and blank lines. What the reader makes of such text is said without the reader.
 */
module HdfGrammar {
  import opened Bytes
  import opened HdfView
  import opened HdfDoc
  import opened HdfText
  import opened HdfAgree

  // ----- Space -----

  predicate AllSpace(s: string) {
    forall i :: 0 <= i < |s| ==> IsSpace(s[i])
  }

  /** Space inside a line. */
  predicate Gap(s: string) {
    AllSpace(s) && OneLine(s)
  }

  predicate NoOuterSpace(v: string) {
    v != "" ==> !IsSpace(v[0]) && !IsSpace(v[|v| - 1])
  }

  lemma {:induction false} SkipAll(sp: string, s: string)
    requires AllSpace(sp) && (s == "" || !IsSpace(s[0]))
    ensures SkipSpaces(sp + s) == s
  {
    if sp == "" {
      assert sp + s == s;
    } else {
      SkipAll(sp[1..], s);
      assert (sp + s)[1..] == sp[1..] + s;
    }
  }

  lemma {:induction false} RStripAll(s: string, sp: string)
    requires AllSpace(sp) && (s == "" || !IsSpace(s[|s| - 1]))
    ensures RStrip(s + sp) == s
  {
    if sp == "" {
      assert s + sp == s;
    } else {
      var init := sp[..|sp| - 1];
      RStripAll(s, init);
      assert (s + sp)[..|s + sp| - 1] == s + init;
    }
  }

  /** Stripping takes off exactly the outer space. */
  lemma StripPadded(a: string, v: string, b: string)
    requires AllSpace(a) && AllSpace(b) && NoOuterSpace(v)
    ensures Strip(a + v + b) == v
  {
    if v == "" {
      assert a + v + b == "" + (a + b);
      RStripAll("", a + b);
    } else {
      RStripAll(a + v, b);
      SkipAll(a, v);
    }
    hide RStrip, SkipSpaces;
  }

  /** What is skipped is the space at the front, all of it. */
  lemma {:induction false} SkippedForm(s: string)
    ensures SkipSpaces(s) == s[Span(s, IsSpace)..]
  {
    if s == "" || !IsSpace(s[0]) {
      assert s[0..] == s;
    } else {
      SkippedForm(s[1..]);
      assert s[1..][Span(s[1..], IsSpace)..] == s[Span(s, IsSpace)..];
    }
  }

  // ----- Lines -----

  /** A line of space, or a comment. */
  predicate NoteAt(line: string, k: nat) {
    && k <= |line| && AllSpace(line[..k])
    && (k == |line| || (line[k] == '#' && !StartsWith(line[k..], "#include ")))
  }

  ghost predicate NoteLine(line: string) {
    exists k: nat :: NoteAt(line, k)
  }

  /** The lines that say nothing are exactly the blank ones and the comments. */
  lemma BlankLines(line: string)
    ensures Classify(line) == Blank <==> NoteLine(line)
  {
    hide ClassifyNamed, Span, Strip;
    if NoteLine(line) {
      var k: nat :| NoteAt(line, k);
      assert line == line[..k] + line[k..];
      SkipAll(line[..k], line[k..]);
    }
    if Classify(line) == Blank {
      SkippedForm(line);
      NamedIsNotBlank();
      assert NoteAt(line, Span(line, IsSpace));
    }
  }

  lemma NamedIsNotBlank()
    ensures forall name, rest :: ClassifyNamed(name, rest) != Blank
  {
    hide ReadAttrs, SkipSpaces, Strip;
  }

  /** A line that ends a block is a closing brace in space. */
  lemma CloseLine(indent: string, end: string)
    requires AllSpace(indent) && AllSpace(end)
    ensures Classify(indent + ("}" + end)) == Close
  {
    SkipAll(indent, "}" + end);
    StripPadded("", "}", end);
    assert "" + "}" + end == "}" + end;
    hide SkipSpaces, Strip;
  }

  lemma {:induction false} SkipThenRStrip(s: string)
    ensures RStrip(SkipSpaces(s)) == SkipSpaces(RStrip(s))
  {
    if s == "" || !IsSpace(s[0]) {
      RStripFirst(s);
    } else {
      SkipThenRStrip(s[1..]);
      RStripSpaceFirst(s);
    }
  }

  lemma {:induction false} RStripFirst(s: string)
    requires s == "" || !IsSpace(s[0])
    ensures SkipSpaces(s) == s && SkipSpaces(RStrip(s)) == RStrip(s)
  {
    if s != "" && IsSpace(s[|s| - 1]) {
      assert s[..|s| - 1] != "" ==> s[..|s| - 1][0] == s[0];
      RStripFirst(s[..|s| - 1]);
    }
  }

  lemma {:induction false} RStripSpaceFirst(s: string)
    requires s != "" && IsSpace(s[0])
    ensures SkipSpaces(RStrip(s)) == SkipSpaces(RStrip(s[1..]))
  {
    if |s| == 1 {
      assert s[..0] == "" && s[1..] == "";
    } else if IsSpace(s[|s| - 1]) {
      assert s[..|s| - 1][1..] == s[1..][..|s| - 2];
      RStripSpaceFirst(s[..|s| - 1]);
    } else {
      assert RStrip(s) == s && RStrip(s[1..]) == s[1..];
    }
  }

  lemma {:induction false} SkipTwice(s: string)
    ensures SkipSpaces(SkipSpaces(s)) == SkipSpaces(s)
  {
    if s != "" && IsSpace(s[0]) {
      SkipTwice(s[1..]);
    }
  }

  /** The lines that end a block are exactly those that are a closing brace and space. */
  lemma CloseLines(line: string)
    ensures Classify(line) == Close <==> Strip(line) == "}"
  {
    SkipThenRStrip(line);
    SkipTwice(RStrip(line));
    NamedIsNotClose();
    var s := SkipSpaces(line);
    assert Strip(s) == Strip(line);
    if s != "" && s[0] != '}' {
      RStripFirstOf(s);
    }
    hide ClassifyNamed, Span, RStrip, SkipSpaces;
  }

  lemma {:induction false} RStripFirstOf(s: string)
    requires s != ""
    ensures RStrip(s) != "" ==> RStrip(s)[0] == s[0]
  {
    if IsSpace(s[|s| - 1]) && |s| > 1 {
      RStripFirstOf(s[..|s| - 1]);
    }
  }

  lemma NamedIsNotClose()
    ensures forall name, rest :: ClassifyNamed(name, rest) != Close
  {
    hide ReadAttrs, SkipSpaces, Strip;
  }

  predicate AllNameChars(name: string) {
    forall i :: 0 <= i < |name| ==> IsNameChar(name[i])
  }

  lemma NamedLine(indent: string, name: string, gap: string, rest: string)
    requires AllSpace(indent) && AllSpace(gap) && name != "" && AllNameChars(name)
    requires rest != "" && !IsSpace(rest[0]) && !IsNameChar(rest[0])
    ensures Classify(indent + (name + (gap + rest))) == ClassifyNamed(name, rest)
  {
    var tail := gap + rest;
    var s := name + tail;
    assert IsNameChar(name[0]) && (gap != "" ==> IsSpace(gap[0]));
    assert tail != "" && tail[0] == if gap == "" then rest[0] else gap[0];
    hide SkipSpaces, Span, ClassifyNamed, StartsWith, AllSpace;
    SkipAll(indent, s);
    SkipAll(gap, rest);
    SpanOf(name, tail, IsNameChar);
    NotKeyword(s);
  }

  lemma NotKeyword(s: string)
    requires s != "" && IsNameChar(s[0])
    ensures !StartsWith(s, "#include ") && s[0] != '#' && s[0] != '}' && !IsSpace(s[0])
  {}

  lemma SetLine(indent: string, name: string, gap: string, pad: string, value: string, end: string)
    requires AllSpace(indent) && AllSpace(gap) && name != "" && AllNameChars(name)
    requires AllSpace(pad) && AllSpace(end) && NoOuterSpace(value)
    ensures Classify(indent + (name + (gap + ("=" + (pad + value + end))))) == Assign(name, [], value)
  {
    var rest := "=" + (pad + value + end);
    NamedLine(indent, name, gap, rest);
    assert rest[1..] == pad + value + end;
    StripPadded(pad, value, end);
    hide Classify, Strip;
  }

  lemma OpenLine(indent: string, name: string, gap: string, junk: string)
    requires AllSpace(indent) && AllSpace(gap) && name != "" && AllNameChars(name)
    ensures Classify(indent + (name + (gap + ("{" + junk)))) == Open(name, [])
  {
    NamedLine(indent, name, gap, "{" + junk);
    hide Classify;
  }

  // ----- Comments anywhere -----

  /** The second text is the first with blank lines and comments put before some of its lines, or at its end. */
  ghost predicate Spaced(a: string, b: string)
    decreases |b|
  {
    || (a == "" && b == "")
    || (b != "" && NoteLine(LineOf(b)) && Spaced(a, RestOf(b)))
    || (a != "" && b != "" && LineOf(a) == LineOf(b) && Spaced(RestOf(a), RestOf(b)))
  }

  ghost predicate SameReading(x: Parsed, y: Parsed) {
    if x.Parsed? then y.Parsed? && x.node == y.node && Spaced(x.rest, y.rest) else x == y
  }

  lemma NoteIsSkipped(t: Hdf, text: string)
    requires text != "" && NoteLine(LineOf(text))
    ensures ReadText(t, text) == ReadText(t, RestOf(text))
  {
    BlankLines(LineOf(text));
    hide Classify, NoteLine, LineOf, RestOf;
  }

  /** Blank lines and comments, wherever they are put, change neither the tree nor the outcome. */
  lemma {:induction false} CommentsSayNothing(t: Hdf, a: string, b: string)
    requires Spaced(a, b)
    ensures SameReading(ReadText(t, a), ReadText(t, b))
    decreases |b|
  {
    hide Classify, NoteLine, LineOf, RestOf, SetAt, OpenAt, At, Replace;
    if a == "" && b == "" {
    } else if b != "" && NoteLine(LineOf(b)) && Spaced(a, RestOf(b)) {
      NoteIsSkipped(t, b);
      CommentsSayNothing(t, a, RestOf(b));
    } else {
      var ra, rb := RestOf(a), RestOf(b);
      match Classify(LineOf(a)) {
        case Blank => CommentsSayNothing(t, ra, rb);
        case Assign(name, attrs, value) =>
          var done := SetAt(t, PathOf(name), Some(value), attrs);
          if done.Some? {
            CommentsSayNothing(done.value, ra, rb);
          }
        case Open(name, attrs) =>
          var made := OpenAt(t, PathOf(name), attrs);
          if made.Some? && At(made.value, PathOf(name)).Some? {
            var lower := At(made.value, PathOf(name)).value;
            CommentsSayNothing(lower, ra, rb);
            var x, y := ReadText(lower, ra), ReadText(lower, rb);
            if x.Parsed? {
              CommentsSayNothing(Replace(made.value, PathOf(name), x.node), x.rest, y.rest);
            }
          }
        case _ =>
      }
    }
  }

  // ----- Names that cannot be set -----

  lemma {:induction false} EmptyFails(t: Hdf, path: Path, value: Option<string>, attrs: seq<Attr>)
    requires "" in path
    ensures SetAt(t, path, value, attrs) == None
    decreases |path|
  {
    hide MergeAttrs;
    if path[0] == "" {
    } else {
      assert path == [path[0]] + path[1..];
      var i := KidIndex(t.kids, path[0]);
      var kid := if i < |t.kids| then t.kids[i] else Hdf(path[0], None, [], []);
      EmptyFails(kid, path[1..], value, attrs);
    }
  }

  /** A line that sets a name with an empty component makes the reading fail. */
  lemma EmptyComponentFails(t: Hdf, line: string, name: string, attrs: seq<Attr>, value: string, tail: string)
    requires OneLine(line) && Classify(line) == Assign(name, attrs, value) && name != "" && "" in Split(name)
    ensures ReadText(t, line + "\n" + tail) == Failed
  {
    hide Classify, LineOf, RestOf, Split, SetAt;
    FirstLine(line, tail);
    EmptyFails(t, Split(name), Some(value), attrs);
  }
}
