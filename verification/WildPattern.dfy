/**
 * How patterns are written, and what the written patterns match, said without tokens: plain
 * and escaped characters, ?, *, and classes of characters and ranges.
 */
module WildPattern {
  import opened Bytes
  import opened Wildmat

  /** A character, or a range written with a dash. */
  datatype Elem = One(c: char) | Span(lo: char, hi: char)

  datatype Piece =
    | Plain(c: char)
    | Escaped(c: char)
    | Any
    | Stars
    | Set(negated: bool, elems: seq<Elem>, dash: bool)

  // ----- Writing -----

  function First(e: Elem): char {
    if e.One? then e.c else e.lo
  }

  function WriteElem(e: Elem): string {
    match e
    case One(c) => [c]
    case Span(lo, hi) => [lo, '-', hi]
  }

  function WriteElems(elems: seq<Elem>): string {
    if elems == [] then "" else WriteElem(elems[0]) + WriteElems(elems[1..])
  }

  /** A closing dash stands for itself. */
  function WriteSet(elems: seq<Elem>, dash: bool): string {
    WriteElems(elems) + (if dash then "-]" else "]")
  }

  function WritePiece(w: Piece): string {
    match w
    case Plain(c) => [c]
    case Escaped(c) => ['\\', c]
    case Any => "?"
    case Stars => "*"
    case Set(negated, elems, dash) => (if negated then "[^" else "[") + WriteSet(elems, dash)
  }

  function Write(ws: seq<Piece>): string {
    if ws == [] then "" else WritePiece(ws[0]) + Write(ws[1..])
  }

  /** Brackets and dashes may stand in first place only, and a range does not end in a bracket. */
  predicate ElemOk(e: Elem, first: bool) {
    && (first || (First(e) != ']' && First(e) != '-'))
    && (e.Span? ==> e.hi != ']')
  }

  predicate ElemsOk(elems: seq<Elem>) {
    forall i :: 0 <= i < |elems| ==> ElemOk(elems[i], false)
  }

  predicate PieceOk(w: Piece) {
    match w
    case Plain(c) => c != '\\' && c != '?' && c != '*' && c != '['
    case Set(negated, elems, _) =>
      elems != [] && ElemOk(elems[0], true) && ElemsOk(elems[1..]) && (negated || First(elems[0]) != '^')
    case _ => true
  }

  predicate PiecesOk(ws: seq<Piece>) {
    forall i :: 0 <= i < |ws| ==> PieceOk(ws[i])
  }

  // ----- What they match -----

  predicate InElem(c: char, e: Elem, key: char -> int) {
    match e
    case One(d) => key(c) == key(d)
    case Span(lo, hi) => key(c) == key(lo) || key(lo) <= key(c) <= key(hi)
  }

  predicate InSet(c: char, elems: seq<Elem>, dash: bool, key: char -> int) {
    (exists i :: 0 <= i < |elems| && InElem(c, elems[i], key)) || (dash && key(c) == key('-'))
  }

  /** A piece that takes one character takes this one. */
  predicate Takes(w: Piece, c: char, key: char -> int) {
    match w
    case Plain(d) => key(c) == key(d)
    case Escaped(d) => key(c) == key(d)
    case Any => true
    case Stars => false
    case Set(negated, elems, dash) => if negated then !InSet(c, elems, dash, key) else InSet(c, elems, dash, key)
  }

  /** The text is made of a stretch for every star and a character for every other piece. */
  ghost predicate Fits(text: string, ws: seq<Piece>, key: char -> int)
    decreases |ws|
  {
    if ws == [] then text == ""
    else if ws[0].Stars? then exists k :: 0 <= k <= |text| && Fits(text[k..], ws[1..], key)
    else text != "" && Takes(ws[0], text[0], key) && Fits(text[1..], ws[1..], key)
  }

  // ----- Classes are read as written -----

  function ElemRanges(e: Elem): seq<Range> {
    match e
    case One(c) => [Range(c, c)]
    case Span(lo, hi) => [Range(lo, lo), Range(lo, hi)]
  }

  function SetRanges(elems: seq<Elem>, dash: bool): seq<Range> {
    if elems == [] then (if dash then [Range('-', '-')] else []) else ElemRanges(elems[0]) + SetRanges(elems[1..], dash)
  }

  function LastOf(e: Elem): char {
    if e.One? then e.c else e.hi
  }

  lemma {:induction false} ElemsRead(a: string, elems: seq<Elem>, dash: bool, rest: string, last: char)
    requires ElemsOk(elems)
    ensures ClassRanges(a + (WriteSet(elems, dash) + rest), |a|, last) ==
            Ranges(SetRanges(elems, dash), |a| + |WriteSet(elems, dash)| - 1)
    decreases |elems|
  {
    hide *;
    if elems == [] {
      NoElems(a, dash, rest, last);
    } else {
      var e, more := elems[0], elems[1..];
      var w, x := WriteElem(e), WriteSet(more, dash);
      ElemsOkStep(elems);
      SetSplits(elems, dash);
      Reassociate(a, w, x, rest);
      ElemsRead(a + w, more, dash, rest, LastOf(e));
      Within(a, w, x + rest);
      Shift(a, w, x + rest);
      ElemRead(a + (WriteSet(elems, dash) + rest), |a|, e, false, last);
      Combine(e, ClassRanges(a + (WriteSet(elems, dash) + rest), |a| + |w|, LastOf(e)));
    }
  }

  lemma NoElems(a: string, dash: bool, rest: string, last: char)
    ensures ClassRanges(a + (WriteSet([], dash) + rest), |a|, last) ==
            Ranges(SetRanges([], dash), |a| + |WriteSet([], dash)| - 1)
  {
    var p := a + (WriteSet([], dash) + rest);
    assert WriteElems([]) == "";
    if dash {
      assert p[|a|] == '-' && p[|a| + 1] == ']';
    } else {
      assert p[|a|] == ']';
    }
  }

  lemma ElemsOkStep(elems: seq<Elem>)
    requires elems != [] && ElemsOk(elems)
    ensures ElemOk(elems[0], false) && First(elems[0]) != ']' && First(elems[0]) != '-' && ElemsOk(elems[1..])
  {
    assert ElemOk(elems[0], false);
  }

  lemma Reassociate(a: string, w: string, x: string, rest: string)
    ensures a + ((w + x) + rest) == (a + w) + (x + rest)
    ensures |w + x| == |w| + |x| && |a + w| == |a| + |w|
  {}

  lemma SetSplits(elems: seq<Elem>, dash: bool)
    requires elems != []
    ensures WriteSet(elems, dash) == WriteElem(elems[0]) + WriteSet(elems[1..], dash)
    ensures SetRanges(elems, dash) == ElemRanges(elems[0]) + SetRanges(elems[1..], dash)
  {}

  /** One element at position q of a class. */
  lemma ElemRead(p: string, q: nat, e: Elem, first: bool, last: char)
    requires ElemOk(e, first) && q + |WriteElem(e)| <= |p| && p[q..q + |WriteElem(e)|] == WriteElem(e)
    ensures var more := ClassRanges(p, q + |WriteElem(e)|, LastOf(e));
            var r := if e.One? then more else Cons(Range(e.lo, e.hi), more);
            && ClassRanges(p, q + 1, First(e)) == r
            && (First(e) != ']' && First(e) != '-' ==> ClassRanges(p, q, last) == Cons(Range(First(e), First(e)), r))
  {
    var w := p[q..q + |WriteElem(e)|];
    if e.Span? {
      assert p[q] == w[0] && p[q + 1] == w[1] && p[q + 2] == w[2];
    } else {
      assert p[q] == w[0];
    }
  }

  /** A word inside a text. */
  lemma Within(a: string, w: string, rest: string)
    ensures var p := a + (w + rest);
            && |p| == |a| + |w| + |rest| && p[|a|..|a| + |w|] == w
            && (|w| > 0 ==> p[|a|] == w[0]) && (|w| > 1 ==> p[|a| + 1] == w[1])
  {}

  function Opening(negated: bool): string {
    if negated then "[^" else "["
  }

  /** The parts of a written class: its opening, its first element, and the others. */
  lemma SetText(a: string, w: Piece, rest: string)
    requires w.Set? && w.elems != []
    ensures var open, e, more := Opening(w.negated), w.elems[0], WriteSet(w.elems[1..], w.dash);
            && WritePiece(w) == open + (WriteElem(e) + more)
            && a + (WritePiece(w) + rest) == (a + open) + (WriteElem(e) + (more + rest))
            && a + (WritePiece(w) + rest) == ((a + open) + WriteElem(e)) + (more + rest)
  {
    SetSplits(w.elems, w.dash);
    hide WriteSet, WriteElem;
    var open, x, more := Opening(w.negated), WriteElem(w.elems[0]), WriteSet(w.elems[1..], w.dash);
    assert open + (x + more) + rest == open + (x + (more + rest));
  }

  lemma SetRead(a: string, w: Piece, rest: string)
    requires w.Set? && PieceOk(w)
    ensures var p := a + (WritePiece(w) + rest);
            && |p| > |a|
            && ClassAt(p, |a|) == Ranges(SetRanges(w.elems, w.dash), |a| + |WritePiece(w)| - 1)
            && p[|a|] == '[' && (At(p, |a| + 1) == '^' <==> w.negated)
  {
    hide *;
    SetOk(w);
    var p := a + (WritePiece(w) + rest);
    var open, e, more := Opening(w.negated), w.elems[0], w.elems[1..];
    var x, tail := WriteElem(e), WriteSet(more, w.dash) + rest;
    var q := |a| + |open|;
    SetText(a, w, rest);
    SetSplits(w.elems, w.dash);
    ElemsRead((a + open) + x, more, w.dash, rest, LastOf(e));
    Within(a, open, x + tail);
    Within(a + open, x, tail);
    Shift(a, open, x + tail);
    ElemRead(p, q, e, true, At(p, q - 1));
    FirstElem(p, |a|, e, w.negated);
    Combine(e, ClassRanges(p, q + |x|, LastOf(e)));
  }

  lemma SetOk(w: Piece)
    requires w.Set? && PieceOk(w)
    ensures w.elems != [] && ElemOk(w.elems[0], true) && ElemsOk(w.elems[1..])
    ensures w.negated || First(w.elems[0]) != '^'
    ensures WriteElem(w.elems[0]) != "" && WriteElem(w.elems[0])[0] == First(w.elems[0])
    ensures Opening(w.negated) != ""
  {}

  lemma Combine(e: Elem, more: Ranges)
    requires more.Ranges?
    ensures Cons(Range(First(e), First(e)), if e.One? then more else Cons(Range(e.lo, e.hi), more)) ==
            Ranges(ElemRanges(e) + more.items, more.close)
  {}

  /** Where a class starts, its first element is read as any other. */
  lemma FirstElem(p: string, i: nat, e: Elem, negated: bool)
    requires i + |Opening(negated)| < |p| && p[i..i + |Opening(negated)|] == Opening(negated)
    requires p[i + |Opening(negated)|] == First(e) && (negated || First(e) != '^')
    ensures p[i] == '[' && (At(p, i + 1) == '^' <==> negated)
    ensures var q := i + |Opening(negated)|;
            var f := First(e);
            ClassAt(p, i) ==
            if f == ']' || f == '-' then Cons(Range(f, f), ClassRanges(p, q + 1, f))
            else ClassRanges(p, q, At(p, q - 1))
  {
    hide ClassRanges;
    var o := p[i..i + |Opening(negated)|];
    assert p[i] == o[0] && (negated ==> p[i + 1] == o[1]);
  }

  // ----- Patterns are read as written -----

  function TokenOf(w: Piece): Token {
    match w
    case Plain(c) => Literal(c)
    case Escaped(c) => Literal(c)
    case Any => AnyChar
    case Stars => Star
    case Set(negated, elems, dash) => Class(negated, SetRanges(elems, dash))
  }

  function TokensOf(ws: seq<Piece>): seq<Token> {
    if ws == [] then [] else [TokenOf(ws[0])] + TokensOf(ws[1..])
  }

  lemma ClassToken(p: string, i: nat, r: Ranges)
    requires i < |p| && p[i] == '[' && ClassAt(p, i) == r && r.Ranges? && i < r.close && Closed(p, r.close + 1)
    ensures Closed(p, i) && Tokens(p, i) == [Class(At(p, i + 1) == '^', r.items)] + Tokens(p, r.close + 1)
  {
    hide ClassAt;
  }

  lemma CharToken(p: string, i: nat, w: Piece)
    requires PieceOk(w) && !w.Set? && i + |WritePiece(w)| <= |p| && p[i..i + |WritePiece(w)|] == WritePiece(w)
    requires Closed(p, i + |WritePiece(w)|)
    ensures Closed(p, i) && Tokens(p, i) == [TokenOf(w)] + Tokens(p, i + |WritePiece(w)|)
  {
    hide ClassAt;
    var x := p[i..i + |WritePiece(w)|];
    assert p[i] == x[0] && (w.Escaped? ==> p[i + 1] == x[1]);
  }

  /** The piece w, of n characters, stands at position i of p. */
  ghost predicate StandsAt(p: string, i: nat, w: Piece, n: nat) {
    && n == |WritePiece(w)| && i + n <= |p|
    && if w.Set? then
         && n > 1 && p[i] == '[' && (At(p, i + 1) == '^' <==> w.negated)
         && ClassAt(p, i) == Ranges(SetRanges(w.elems, w.dash), i + n - 1)
       else p[i..i + n] == WritePiece(w)
  }

  lemma Stands(a: string, w: Piece, rest: string)
    requires PieceOk(w)
    ensures StandsAt(a + (WritePiece(w) + rest), |a|, w, |WritePiece(w)|)
  {
    PieceSize(w);
    if w.Set? {
      SetRead(a, w, rest);
    }
    hide At, ClassAt, SetRanges, WritePiece, PieceOk;
    Within(a, WritePiece(w), rest);
  }

  lemma PieceRead(p: string, i: nat, w: Piece, n: nat)
    requires PieceOk(w) && StandsAt(p, i, w, n) && Closed(p, i + n)
    ensures Closed(p, i) && Tokens(p, i) == [TokenOf(w)] + Tokens(p, i + n)
  {
    hide At, ClassAt, SetRanges, WritePiece, PieceOk, Closed, Tokens;
    if w.Set? {
      SetToken(p, i, n, w);
    } else {
      CharToken(p, i, w);
    }
  }

  lemma SetToken(p: string, i: nat, n: nat, w: Piece)
    requires w.Set? && n > 1 && i < |p| && p[i] == '[' && (At(p, i + 1) == '^' <==> w.negated)
    requires ClassAt(p, i) == Ranges(SetRanges(w.elems, w.dash), i + n - 1) && Closed(p, i + n)
    ensures Closed(p, i) && Tokens(p, i) == [Class(w.negated, SetRanges(w.elems, w.dash))] + Tokens(p, i + n)
  {
    hide *;
    ClassToken(p, i, Ranges(SetRanges(w.elems, w.dash), i + n - 1));
  }

  lemma PieceSize(w: Piece)
    requires PieceOk(w)
    ensures |WritePiece(w)| > 0 && (w.Set? ==> |WritePiece(w)| > 1)
    ensures w.Set? ==> TokenOf(w) == Class(w.negated, SetRanges(w.elems, w.dash))
  {}

  /** A pattern that is written as pieces is read as the tokens of these pieces. */
  lemma {:induction false} WrittenReads(a: string, ws: seq<Piece>)
    requires PiecesOk(ws)
    ensures Closed(a + Write(ws), |a|) && Tokens(a + Write(ws), |a|) == TokensOf(ws)
    decreases |ws|
  {
    hide *;
    if ws == [] {
      NoPieces(a);
    } else {
      var w, more := ws[0], ws[1..];
      PiecesStep(ws);
      Shift(a, WritePiece(w), Write(more));
      WrittenReads(a + WritePiece(w), more);
      Stands(a, w, Write(more));
      PieceRead(a + Write(ws), |a|, w, |WritePiece(w)|);
    }
  }

  lemma NoPieces(a: string)
    ensures Closed(a + Write([]), |a|) && Tokens(a + Write([]), |a|) == TokensOf([])
  {}

  lemma PiecesStep(ws: seq<Piece>)
    requires ws != [] && PiecesOk(ws)
    ensures PieceOk(ws[0]) && PiecesOk(ws[1..])
    ensures TokensOf(ws) == [TokenOf(ws[0])] + TokensOf(ws[1..]) && Write(ws) == WritePiece(ws[0]) + Write(ws[1..])
  {}

  lemma Shift(a: string, b: string, c: string)
    ensures a + (b + c) == (a + b) + c
  {}

  // ----- What is read is what is meant -----

  lemma RangesJoin(c: char, a: seq<Range>, b: seq<Range>, key: char -> int)
    ensures InRanges(c, a + b, key) <==> InRanges(c, a, key) || InRanges(c, b, key)
  {
    if InRanges(c, a, key) {
      var i :| 0 <= i < |a| && key(a[i].lo) <= key(c) <= key(a[i].hi);
      assert (a + b)[i] == a[i];
    }
    if InRanges(c, b, key) {
      var i :| 0 <= i < |b| && key(b[i].lo) <= key(c) <= key(b[i].hi);
      assert (a + b)[|a| + i] == b[i];
    }
  }

  lemma OneElem(c: char, e: Elem, key: char -> int)
    ensures InRanges(c, ElemRanges(e), key) <==> InElem(c, e, key)
  {
    var r := ElemRanges(e);
    assert key(r[0].lo) <= key(c) <= key(r[0].hi) <==> key(c) == key(First(e));
    if e.Span? {
      assert r[1] == Range(e.lo, e.hi);
    }
  }

  lemma {:induction false} SetMeans(c: char, elems: seq<Elem>, dash: bool, key: char -> int)
    ensures InRanges(c, SetRanges(elems, dash), key) <==> InSet(c, elems, dash, key)
    decreases |elems|
  {
    if elems == [] {
      if dash {
        assert SetRanges(elems, dash)[0] == Range('-', '-');
      }
    } else {
      var e, more := elems[0], elems[1..];
      RangesJoin(c, ElemRanges(e), SetRanges(more, dash), key);
      OneElem(c, e, key);
      SetMeans(c, more, dash, key);
      SetSplits(elems, dash);
      hide InRanges, InElem, SetRanges, ElemRanges;
      assert forall i :: 0 <= i < |more| ==> more[i] == elems[i + 1];
      if exists i :: 0 <= i < |elems| && InElem(c, elems[i], key) {
        var i :| 0 <= i < |elems| && InElem(c, elems[i], key);
        assert i > 0 ==> InElem(c, more[i - 1], key);
      }
    }
  }

  lemma TakesIsAccepts(w: Piece, c: char, key: char -> int)
    requires !w.Stars?
    ensures Accepts(TokenOf(w), c, key) <==> Takes(w, c, key)
  {
    if w.Set? {
      SetMeans(c, w.elems, w.dash, key);
    }
    hide InRanges, SetRanges, InSet;
  }

  lemma {:induction false} FitsIsMatches(text: string, ws: seq<Piece>, key: char -> int)
    ensures Matches(text, TokensOf(ws), key) <==> Fits(text, ws, key)
    decreases |ws|
  {
    if ws == [] {
    } else {
      var more := ws[1..];
      assert TokensOf(ws)[1..] == TokensOf(more);
      hide TokensOf, Takes, Accepts;
      if ws[0].Stars? {
        forall k | 0 <= k <= |text| ensures Matches(text[k..], TokensOf(more), key) <==> Fits(text[k..], more, key) {
          FitsIsMatches(text[k..], more, key);
        }
      } else if text != "" {
        TakesIsAccepts(ws[0], text[0], key);
        FitsIsMatches(text[1..], more, key);
      }
    }
  }

  /**
   * What a written pattern matches: a character for every plain or escaped character, any
   * character for ?, any stretch for *, a character of the set, or one outside it, for a
   * class; and nothing else.
   */
  lemma PatternMeans(text: string, ws: seq<Piece>, key: char -> int)
    requires PiecesOk(ws)
    ensures Closed(Write(ws), 0)
    ensures Matches(text, Tokens(Write(ws), 0), key) <==> Fits(text, ws, key)
  {
    WrittenReads("", ws);
    assert "" + Write(ws) == Write(ws);
    hide Closed, Tokens, Write, TokensOf, PiecesOk;
    FitsIsMatches(text, ws, key);
  }

  // ----- Plain patterns, and letter case -----

  predicate NoSpecial(p: string) {
    forall i :: 0 <= i < |p| ==> p[i] != '\\' && p[i] != '?' && p[i] != '*' && p[i] != '['
  }

  function Plains(p: string): (ws: seq<Piece>)
    ensures |ws| == |p| && forall i :: 0 <= i < |p| ==> ws[i] == Plain(p[i])
  {
    seq(|p|, i requires 0 <= i < |p| => Plain(p[i]))
  }

  lemma {:induction false} WritePlains(p: string)
    ensures Write(Plains(p)) == p
  {
    if p == "" {
    } else {
      assert Plains(p)[1..] == Plains(p[1..]);
      WritePlains(p[1..]);
    }
  }

  ghost predicate SameKeys(a: string, b: string, key: char -> int) {
    |a| == |b| && forall i :: 0 <= i < |a| ==> key(a[i]) == key(b[i])
  }

  lemma {:induction false} PlainsFit(text: string, p: string, key: char -> int)
    ensures Fits(text, Plains(p), key) <==> SameKeys(text, p, key)
    decreases |p|
  {
    if p == "" {
    } else if text == "" {
    } else {
      assert Plains(p)[1..] == Plains(p[1..]);
      PlainsFit(text[1..], p[1..], key);
      hide Fits;
      assert SameKeys(text, p, key) <==> key(text[0]) == key(p[0]) && SameKeys(text[1..], p[1..], key) by {
        SameKeysStep(text, p, key);
      }
      FitsStep(text, Plains(p), key);
    }
  }

  lemma FitsStep(text: string, ws: seq<Piece>, key: char -> int)
    requires ws != [] && !ws[0].Stars?
    ensures Fits(text, ws, key) <==> text != "" && Takes(ws[0], text[0], key) && Fits(text[1..], ws[1..], key)
  {}

  lemma SameKeysStep(a: string, b: string, key: char -> int)
    requires a != "" && b != ""
    ensures SameKeys(a, b, key) <==> key(a[0]) == key(b[0]) && SameKeys(a[1..], b[1..], key)
  {
    if key(a[0]) == key(b[0]) && SameKeys(a[1..], b[1..], key) {
      forall i | 0 <= i < |a| ensures key(a[i]) == key(b[i]) {
        assert i > 0 ==> a[i] == a[1..][i - 1] && b[i] == b[1..][i - 1];
      }
    }
  }

  /** Letters that differ in case only. */
  predicate SameLetter(c: char, d: char) {
    || c == d
    || ('a' <= c <= 'z' && d as int == c as int - 32)
    || ('A' <= c <= 'Z' && d as int == c as int + 32)
  }

  lemma Keys(c: char, d: char)
    ensures Signed(c) == Signed(d) <==> c == d
    ensures CaseKey(c) == CaseKey(d) <==> SameLetter(c, d)
  {}

  /** A pattern without special characters matches exactly itself, or itself in other letter case. */
  lemma PlainPattern(text: string, p: string)
    requires NoSpecial(p)
    ensures Closed(p, 0)
    ensures Matches(text, Tokens(p, 0), Signed) <==> text == p
    ensures Matches(text, Tokens(p, 0), CaseKey) <==>
            |text| == |p| && forall i :: 0 <= i < |p| ==> SameLetter(text[i], p[i])
  {
    WritePlains(p);
    assert PiecesOk(Plains(p));
    PatternMeans(text, Plains(p), Signed);
    PatternMeans(text, Plains(p), CaseKey);
    PlainsFit(text, p, Signed);
    PlainsFit(text, p, CaseKey);
    hide Closed, Tokens, Fits, Matches, Signed, CaseKey, SameLetter;
    forall i | 0 <= i < |p| && |text| == |p|
      ensures Signed(text[i]) == Signed(p[i]) <==> text[i] == p[i]
      ensures CaseKey(text[i]) == CaseKey(p[i]) <==> SameLetter(text[i], p[i])
    {
      Keys(text[i], p[i]);
    }
  }

  /** Without regard to case, texts that differ in case only get the same answer from every pattern. */
  lemma {:induction false} CaseDoesNotMatter(a: string, b: string, toks: seq<Token>)
    requires |a| == |b| && forall i :: 0 <= i < |a| ==> SameLetter(a[i], b[i])
    ensures Matches(a, toks, CaseKey) <==> Matches(b, toks, CaseKey)
    decreases |toks|
  {
    if toks == [] {
    } else if toks[0].Star? {
      forall k | 0 <= k <= |a| ensures Matches(a[k..], toks[1..], CaseKey) <==> Matches(b[k..], toks[1..], CaseKey) {
        CaseDoesNotMatter(a[k..], b[k..], toks[1..]);
      }
    } else if a != "" {
      CaseDoesNotMatter(a[1..], b[1..], toks[1..]);
      Keys(a[0], b[0]);
      hide CaseKey, SameLetter;
    }
  }
}
