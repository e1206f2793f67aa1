/**
 * Shell-style matching with the ABORT cut-off: `DoMatch` and `DoMatchCaseInsensitive`.
 *
 * The two C functions differ only in how characters are compared, so the comparison key is
 * a parameter here. Strings are the C strings without their terminating NUL.
 */
module Wildmat {
  import opened Bytes

  const NUL: char := '\0'

  /** A character read as C reads it: the end of the string reads as NUL. */
  function At(s: string, i: nat): char {
    if i < |s| then s[i] else NUL
  }

  predicate CString(s: string) {
    forall i :: 0 <= i < |s| ==> s[i] != NUL
  }

  // ----- What a pattern says -----

  datatype Range = Range(lo: char, hi: char)

  datatype Token =
    | Literal(c: char)
    | AnyChar
    | Star
    | Class(negated: bool, ranges: seq<Range>)

  datatype Ranges = Ranges(items: seq<Range>, close: nat) | Unclosed

  function Cons(r: Range, rest: Ranges): Ranges {
    match rest
    case Unclosed => Unclosed
    case Ranges(items, close) => Ranges([r] + items, close)
  }

  /** The ranges of a class from position q on, up to its closing bracket. */
  function ClassRanges(p: string, q: nat, last: char): Ranges
    decreases |p| - q
  {
    if q >= |p| then Unclosed
    else if p[q] == ']' then Ranges([], q)
    else if p[q] == '-' && At(p, q + 1) != ']' then
      if q + 1 >= |p| then Unclosed
      else Cons(Range(last, p[q + 1]), ClassRanges(p, q + 2, p[q + 1]))
    else Cons(Range(p[q], p[q]), ClassRanges(p, q + 1, p[q]))
  }

  /** Where the ranges of the class opened at i begin, past a leading ^. */
  function ClassStart(p: string, i: nat): nat {
    if At(p, i + 1) == '^' then i + 2 else i + 1
  }

  /** The class opened at i: a bracket or dash in first place stands for itself. */
  function ClassAt(p: string, i: nat): Ranges
    requires i < |p|
  {
    var q := ClassStart(p, i);
    if q < |p| && (p[q] == ']' || p[q] == '-')
    then Cons(Range(p[q], p[q]), ClassRanges(p, q + 1, p[q]))
    else ClassRanges(p, q, At(p, q - 1))
  }

  lemma {:induction false} ClassRangesEnd(p: string, q: nat, last: char)
    ensures var r := ClassRanges(p, q, last);
            r.Ranges? ==> q <= r.close < |p| && p[r.close] == ']'
    decreases |p| - q
  {
    if q >= |p| || p[q] == ']' {
    } else {
      if p[q] == '-' && At(p, q + 1) != ']' {
        if q + 1 < |p| {
          ClassRangesEnd(p, q + 2, p[q + 1]);
        }
      } else {
        ClassRangesEnd(p, q + 1, p[q]);
      }
    }
  }

  lemma ClassEnd(p: string, i: nat)
    requires i < |p|
    ensures var r := ClassAt(p, i); r.Ranges? ==> i < r.close < |p|
  {
    var q := ClassStart(p, i);
    ClassRangesEnd(p, q, At(p, q - 1));
    ClassRangesEnd(p, q + 1, At(p, q));
  }

  /** Every bracket that opens a class is closed. */
  predicate Closed(p: string, i: nat)
    decreases |p| - i
  {
    if i >= |p| then true
    else if p[i] == '\\' then Closed(p, i + 2)
    else if p[i] == '[' then
      ClassEnd(p, i);
      ClassAt(p, i).Ranges? && Closed(p, ClassAt(p, i).close + 1)
    else Closed(p, i + 1)
  }

  function Tokens(p: string, i: nat): seq<Token>
    requires Closed(p, i)
    decreases |p| - i
  {
    if i >= |p| then []
    else if p[i] == '\\' then [Literal(At(p, i + 1))] + Tokens(p, i + 2)
    else if p[i] == '?' then [AnyChar] + Tokens(p, i + 1)
    else if p[i] == '*' then [Star] + Tokens(p, i + 1)
    else if p[i] == '[' then
      ClassEnd(p, i);
      var r := ClassAt(p, i);
      [Class(At(p, i + 1) == '^', r.items)] + Tokens(p, r.close + 1)
    else [Literal(p[i])] + Tokens(p, i + 1)
  }

  predicate InRanges(c: char, ranges: seq<Range>, key: char -> int) {
    exists i :: 0 <= i < |ranges| && key(ranges[i].lo) <= key(c) <= key(ranges[i].hi)
  }

  predicate Accepts(t: Token, c: char, key: char -> int)
    requires !t.Star?
  {
    match t
    case Literal(d) => key(c) == key(d)
    case AnyChar => true
    case Class(negated, ranges) => InRanges(c, ranges, key) != negated
  }

  /** The plain meaning of a pattern: a star may stand for any stretch of the text. */
  ghost predicate Matches(text: string, toks: seq<Token>, key: char -> int)
    decreases |toks|
  {
    if toks == [] then text == []
    else if toks[0].Star? then exists k :: 0 <= k <= |text| && Matches(text[k..], toks[1..], key)
    else text != [] && Accepts(toks[0], text[0], key) && Matches(text[1..], toks[1..], key)
  }

  ghost predicate NoSuffixMatches(text: string, toks: seq<Token>, key: char -> int) {
    forall k :: 0 <= k <= |text| ==> !Matches(text[k..], toks, key)
  }

  // ----- Facts about the plain meaning -----

  lemma NoSuffixOfSuffix(text: string, k: nat, toks: seq<Token>, key: char -> int)
    requires k <= |text| && NoSuffixMatches(text[k..], toks, key)
    ensures forall j :: k <= j <= |text| ==> !Matches(text[j..], toks, key)
  {
    forall j | k <= j <= |text| ensures !Matches(text[j..], toks, key) {
      assert text[j..] == text[k..][j - k..];
    }
  }

  /** The heart of the cut-off: a token that takes one character passes ABORT on. */
  lemma AbortPassesOn(text: string, toks: seq<Token>, key: char -> int)
    requires toks != [] && !toks[0].Star? && text != []
    requires NoSuffixMatches(text[1..], toks[1..], key)
    ensures NoSuffixMatches(text, toks, key)
  {
    forall k | 0 <= k <= |text| ensures !Matches(text[k..], toks, key) {
      if k < |text| {
        assert text[k..][1..] == text[1..][k..];
      }
    }
  }

  lemma StarFails(text: string, toks: seq<Token>, key: char -> int)
    requires toks != [] && toks[0].Star?
    requires NoSuffixMatches(text, toks[1..], key)
    ensures NoSuffixMatches(text, toks, key)
  {
    forall k | 0 <= k <= |text| ensures !Matches(text[k..], toks, key) {
      forall j | 0 <= j <= |text[k..]| ensures !Matches(text[k..][j..], toks[1..], key) {
        assert text[k..][j..] == text[k + j..];
      }
    }
  }

  /** Two stars in a row say no more than one. */
  lemma StarStar(text: string, toks: seq<Token>, key: char -> int)
    requires |toks| >= 2 && toks[0].Star? && toks[1].Star?
    ensures Matches(text, toks, key) <==> Matches(text, toks[1..], key)
  {
    if Matches(text, toks, key) {
      var k :| 0 <= k <= |text| && Matches(text[k..], toks[1..], key);
      var j :| 0 <= j <= |text[k..]| && Matches(text[k..][j..], toks[1..][1..], key);
      assert text[k..][j..] == text[k + j..];
    }
    if Matches(text, toks[1..], key) {
      assert text[0..] == text;
    }
  }

  lemma StarAlone(text: string, key: char -> int)
    ensures Matches(text, [Star], key)
  {
    assert text[|text|..] == [] && [Star][1..] == [];
    assert Matches(text[|text|..], [Star][1..], key);
  }

  // ----- The matcher -----

  datatype Verdict = TRUE | FALSE | ABORT

  ghost predicate Right(r: Verdict, text: string, toks: seq<Token>, key: char -> int) {
    && (r == TRUE <==> Matches(text, toks, key))
    && (r == ABORT ==> NoSuffixMatches(text, toks, key))
  }

  /** One character against the class opened at i; `next` is its closing bracket. */
  method ScanClass(c: char, p: string, i: nat, key: char -> int) returns (matched: bool, next: nat)
    requires i < |p| && CString(p) && ClassAt(p, i).Ranges?
    ensures i < next == ClassAt(p, i).close < |p|
    ensures matched == InRanges(c, ClassAt(p, i).items, key)
  {
    hide ClassRanges, InRanges;
    ClassEnd(p, i);
    var q := ClassStart(p, i) - 1;
    matched := false;
    if At(p, q + 1) == ']' || At(p, q + 1) == '-' {
      q := q + 1;
      FirstOf(c, Range(p[q], p[q]), ClassRanges(p, q + 1, p[q]).items, key);
      matched := key(p[q]) == key(c);
    }
    var more: bool;
    more, next := ScanRanges(c, p, q + 1, At(p, q), key);
    matched := matched || more;
  }

  /** The loop of `ScanClass` over the ranges from position q0 on. */
  method ScanRanges(c: char, p: string, q0: nat, last0: char, key: char -> int) returns (matched: bool, next: nat)
    requires q0 <= |p| && CString(p) && ClassRanges(p, q0, last0).Ranges?
    ensures next == ClassRanges(p, q0, last0).close
    ensures matched == InRanges(c, ClassRanges(p, q0, last0).items, key)
  {
    hide InRanges;
    var q, last := q0, last0;
    ghost var all := ClassRanges(p, q, last);
    matched := false;
    while At(p, q) != NUL && At(p, q) != ']'
      invariant q <= |p|
      invariant ClassRanges(p, q, last).Ranges? && ClassRanges(p, q, last).close == all.close
      invariant InRanges(c, all.items, key) == (matched || InRanges(c, ClassRanges(p, q, last).items, key))
      decreases |p| - q
    {
      ghost var rest := ClassRanges(p, q, last);
      var lo := last;
      if p[q] == '-' && At(p, q + 1) != ']' {
        q := q + 1;
      } else {
        lo := p[q];
      }
      FirstOf(c, Range(lo, p[q]), ClassRanges(p, q + 1, p[q]).items, key);
      if key(c) <= key(p[q]) && key(c) >= key(lo) {
        matched := true;
      }
      last := p[q];
      q := q + 1;
    }
    ClassRangesEnd(p, q, last);
    NoRanges(c, key);
    next := q;
  }

  lemma FirstOf(c: char, r: Range, rest: seq<Range>, key: char -> int)
    ensures InRanges(c, [r] + rest, key) <==> key(r.lo) <= key(c) <= key(r.hi) || InRanges(c, rest, key)
  {
    var all := [r] + rest;
    if InRanges(c, rest, key) {
      var i :| 0 <= i < |rest| && key(rest[i].lo) <= key(c) <= key(rest[i].hi);
      assert all[i + 1] == rest[i];
    }
    if key(r.lo) <= key(c) <= key(r.hi) {
      assert all[0] == r;
    }
  }

  lemma NoRanges(c: char, key: char -> int)
    ensures !InRanges(c, [], key)
  {}

  /** What is right for (b, y) is right for (a, x). */
  ghost predicate Reduces(a: string, x: seq<Token>, b: string, y: seq<Token>, key: char -> int) {
    && (Matches(a, x, key) <==> Matches(b, y, key))
    && (NoSuffixMatches(b, y, key) ==> NoSuffixMatches(a, x, key))
  }

  lemma TakeOne(text: string, toks: seq<Token>, key: char -> int)
    requires toks != [] && !toks[0].Star? && text != [] && Accepts(toks[0], text[0], key)
    ensures Reduces(text, toks, text[1..], toks[1..], key)
  {
    if NoSuffixMatches(text[1..], toks[1..], key) {
      AbortPassesOn(text, toks, key);
    }
  }

  lemma DropStar(text: string, toks: seq<Token>, key: char -> int)
    ensures Reduces(text, [Star] + ([Star] + toks), text, [Star] + toks, key)
  {
    var one, two := [Star] + toks, [Star] + ([Star] + toks);
    assert two[1..] == one;
    forall k | 0 <= k <= |text| ensures Matches(text[k..], two, key) <==> Matches(text[k..], one, key) {
      StarStar(text[k..], two, key);
    }
    assert text[0..] == text;
  }

  /** The switch of `DoMatch` without its star: one character against the token at i. */
  method MatchOne(c: char, p: string, i: nat, key: char -> int) returns (same: bool, next: nat)
    requires CString(p) && i < |p| && Closed(p, i) && p[i] != '*' && c != NUL
    requires forall c :: key(c) == key(NUL) ==> c == NUL
    ensures i <= next && (same ==> next < |p|) && Closed(p, next + 1)
    ensures var toks := Tokens(p, i);
            && toks != [] && !toks[0].Star?
            && same == Accepts(toks[0], c, key)
            && toks[1..] == Tokens(p, next + 1)
  {
    hide InRanges;
    next, same := i, true;
    if p[i] == '\\' {
      next := i + 1;
      same := key(c) == key(At(p, i + 1));
    } else if p[i] == '[' {
      same, next := ScanClass(c, p, i, key);
      same := same != (At(p, i + 1) == '^');
    } else if p[i] != '?' {
      same := key(c) == key(p[i]);
    }
  }

  /** `DoMatch` on the text from t0 and the pattern from i0. */
  method DoMatch(text: string, t0: nat, p: string, i0: nat, key: char -> int) returns (r: Verdict)
    requires CString(text) && CString(p) && t0 <= |text| && i0 <= |p| && Closed(p, i0)
    requires forall c :: key(c) == key(NUL) ==> c == NUL
    ensures Right(r, text[t0..], Tokens(p, i0), key)
    decreases |p| - i0, 1
  {
    hide Matches;
    var t, i := t0, i0;
    while At(p, i) != NUL
      invariant t0 <= t <= |text| && i0 <= i <= |p| && Closed(p, i)
      invariant Reduces(text[t0..], Tokens(p, i0), text[t..], Tokens(p, i), key)
      decreases |p| - i
    {
      ghost var toks := Tokens(p, i);
      if At(text, t) == NUL && p[i] != '*' {
        EndOfText(toks, key);
        assert text[t..] == [];
        return ABORT;
      }
      if p[i] == '*' {
        r := MatchStar(text, t, p, i, key);
        return;
      }
      assert text[t..] == [text[t]] + text[t + 1..];
      var same, next := MatchOne(text[t], p, i, key);
      if !same {
        Differs(text[t..], toks, key);
        return FALSE;
      }
      TakeOne(text[t..], toks, key);
      assert text[t..][1..] == text[t + 1..];
      t, i := t + 1, next + 1;
    }
    EndOfPattern(text[t..], key);
    r := if At(text, t) == NUL then TRUE else FALSE;
  }

  /** The star loop of `DoMatch`: the pattern has a star at i0. */
  method MatchStar(text: string, t0: nat, p: string, i0: nat, key: char -> int) returns (r: Verdict)
    requires CString(text) && CString(p) && t0 <= |text| && i0 < |p| && Closed(p, i0) && p[i0] == '*'
    requires forall c :: key(c) == key(NUL) ==> c == NUL
    ensures Right(r, text[t0..], Tokens(p, i0), key)
    decreases |p| - i0, 0
  {
    hide Matches;
    var i := i0 + 1;
    ghost var goal := Tokens(p, i0);
    while At(p, i) == '*'
      invariant i0 < i <= |p| && Closed(p, i)
      invariant Reduces(text[t0..], goal, text[t0..], [Star] + Tokens(p, i), key)
      decreases |p| - i
    {
      DropStar(text[t0..], Tokens(p, i + 1), key);
      i := i + 1;
    }
    ghost var toks := Tokens(p, i);
    if i == |p| {
      assert [Star] + toks == [Star];
      StarAlone(text[t0..], key);
      return TRUE;
    }
    var t := t0;
    while t < |text|
      invariant t0 <= t <= |text|
      invariant forall k :: t0 <= k < t ==> !Matches(text[k..], toks, key)
    {
      r := DoMatch(text, t, p, i, key);
      if r == TRUE {
        StarTakes(text, t0, t, toks, key);
        return;
      }
      if r == ABORT {
        break;
      }
      t := t + 1;
    }
    if t == |text| {
      EndOfText(toks, key);
    }
    NoSuffixOfSuffix(text, t, toks, key);
    StarGivesUp(text, t0, toks, key);
    return ABORT;
  }

  lemma StarTakes(text: string, t0: nat, t: nat, toks: seq<Token>, key: char -> int)
    requires t0 <= t <= |text| && Matches(text[t..], toks, key)
    ensures Matches(text[t0..], [Star] + toks, key)
  {
    assert text[t0..][t - t0..] == text[t..] && ([Star] + toks)[1..] == toks;
  }

  lemma StarGivesUp(text: string, t0: nat, toks: seq<Token>, key: char -> int)
    requires t0 <= |text| && forall k :: t0 <= k <= |text| ==> !Matches(text[k..], toks, key)
    ensures NoSuffixMatches(text[t0..], [Star] + toks, key)
    ensures !Matches(text[t0..], [Star] + toks, key)
  {
    forall k | 0 <= k <= |text[t0..]| ensures !Matches(text[t0..][k..], toks, key) {
      assert text[t0..][k..] == text[t0 + k..];
    }
    assert ([Star] + toks)[1..] == toks;
    StarFails(text[t0..], [Star] + toks, key);
    assert text[t0..][0..] == text[t0..];
  }

  lemma EndOfText(toks: seq<Token>, key: char -> int)
    requires toks != [] && !toks[0].Star?
    ensures !Matches([], toks, key) && NoSuffixMatches([], toks, key)
  {}

  lemma EndOfPattern(text: string, key: char -> int)
    ensures Matches(text, [], key) <==> text == []
  {}

  lemma Differs(text: string, toks: seq<Token>, key: char -> int)
    requires toks != [] && !toks[0].Star? && text != [] && !Accepts(toks[0], text[0], key)
    ensures !Matches(text, toks, key)
  {}

  // ----- The user-level routines -----

  /** A plain char compared as a signed byte. */
  function Signed(c: char): int {
    if 128 <= c as int < 256 then c as int - 256 else c as int
  }

  function Upper(c: char): char {
    if 'a' <= c <= 'z' then (c as int - 32) as char else c
  }

  /** A plain char compared as a signed byte, without regard to case. */
  function CaseKey(c: char): int {
    Signed(Upper(c))
  }

  method Wildmat(text: string, p: string) returns (r: bool)
    requires CString(text) && CString(p) && Closed(p, 0)
    ensures r <==> Matches(text, Tokens(p, 0), Signed)
  {
    r := MatchWith(text, p, Signed);
  }

  method WildmatCase(text: string, p: string) returns (r: bool)
    requires CString(text) && CString(p) && Closed(p, 0)
    ensures r <==> Matches(text, Tokens(p, 0), CaseKey)
  {
    r := MatchWith(text, p, CaseKey);
  }

  method MatchWith(text: string, p: string, key: char -> int) returns (r: bool)
    requires CString(text) && CString(p) && Closed(p, 0)
    requires forall c :: key(c) == key(NUL) ==> c == NUL
    ensures r <==> Matches(text, Tokens(p, 0), key)
  {
    if At(p, 0) == '*' && At(p, 1) == NUL {
      assert Tokens(p, 1) == [] && Tokens(p, 0) == [Star];
      StarAlone(text, key);
      return true;
    }
    var v := DoMatch(text, 0, p, 0, key);
    assert text[0..] == text;
    r := v == TRUE;
  }
}
