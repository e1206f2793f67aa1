/**
 * HDF trees as values, and the text form of `hdf_write_string` and `hdf_read_string`.
 *
 * A string is a C string without its NUL; a character stands for a byte. Trees have no
 * links, and a line that makes one, copies a value or starts a multi-line value is outside
 * the model.
 */
module HdfDoc {
  import opened Bytes
  import opened HdfView

  datatype Attr = Attr(key: string, value: string)

  datatype Hdf = Hdf(name: string, value: Option<string>, attrs: seq<Attr>, kids: seq<Hdf>)

  // ----- Characters -----

  predicate IsSpace(c: char) {
    c == ' ' || 9 <= c as int <= 13
  }

  predicate IsDigit(c: char) {
    '0' <= c <= '9'
  }

  predicate IsAlnum(c: char) {
    'a' <= c <= 'z' || 'A' <= c <= 'Z' || IsDigit(c)
  }

  predicate IsPrint(c: char) {
    32 <= c as int <= 126
  }

  predicate IsNameChar(c: char) {
    IsAlnum(c) || c == '_' || c == '.' || c as int > 127
  }

  // ----- Pieces of a line -----

  function SkipSpaces(s: string): (r: string)
    ensures |r| <= |s|
  {
    if s != "" && IsSpace(s[0]) then SkipSpaces(s[1..]) else s
  }

  function RStrip(s: string): string {
    if s != "" && IsSpace(s[|s| - 1]) then RStrip(s[..|s| - 1]) else s
  }

  /** `neos_strip`. */
  function Strip(s: string): string {
    SkipSpaces(RStrip(s))
  }

  /** How many characters at the front satisfy p. */
  function Span(s: string, p: char -> bool): (n: nat)
    ensures n <= |s| && (n < |s| ==> !p(s[n])) && forall i :: 0 <= i < n ==> p(s[i])
  {
    if s != "" && p(s[0]) then 1 + Span(s[1..], p) else 0
  }

  predicate StartsWith(s: string, t: string) {
    t <= s
  }

  // ----- Attribute values -----

  function Octal(n: nat): char
    requires n < 8
  {
    ('0' as int + n) as char
  }

  /** What `repr_string_alloc` makes of one character. */
  function ReprChar(c: char): string {
    if c == '\n' then "\\n"
    else if c == '\t' then "\\t"
    else if c == '\r' then "\\r"
    else if c == '"' then "\\\""
    else if c == '\\' then "\\\\"
    else if IsPrint(c) then [c]
    else
      var n := c as int % 256;
      ['\\', Octal(n / 64), Octal(n / 8 % 8), Octal(n % 8)]
  }

  function ReprBody(s: string): string {
    if s == "" then "" else ReprChar(s[0]) + ReprBody(s[1..])
  }

  function Repr(s: string): string {
    "\"" + ReprBody(s) + "\""
  }

  function Digit(c: char): nat
    requires IsDigit(c)
  {
    c as int - '0' as int
  }

  /** One escape sequence after its backslash: the character it stands for and its length. */
  function Unescape(s: string): (r: (char, nat))
    requires s != ""
    ensures 1 <= r.1 <= |s|
  {
    if IsDigit(s[0]) then
      var d0 := Digit(s[0]);
      if |s| > 1 && IsDigit(s[1]) then
        var d1 := 8 * d0 + Digit(s[1]);
        if |s| > 2 && IsDigit(s[2]) then (((8 * d1 + Digit(s[2])) % 256) as char, 3)
        else ((d1 % 256) as char, 2)
      else (d0 as char, 1)
    else if s[0] == 'n' then ('\n', 1)
    else if s[0] == 't' then ('\t', 1)
    else if s[0] == 'r' then ('\r', 1)
    else (s[0], 1)
  }

  datatype Quoted = Quoted(value: string, rest: string) | Unterminated

  /** One round of that loop: the character read, and how far it reaches. */
  function OneChar(s: string): (r: (char, nat))
    requires s != "" && s != "\\"
    ensures 1 <= r.1 <= |s|
  {
    if s[0] == '\\' then (Unescape(s[1..]).0, 1 + Unescape(s[1..]).1) else (s[0], 1)
  }

  /** The quoted-value loop of `parse_attr`, past the opening quote. */
  function ReadQuoted(s: string): (r: Quoted)
    ensures r.Quoted? ==> |r.rest| < |s|
  {
    if s == "" || s == "\\" then Unterminated
    else if s[0] == '"' then Quoted("", s[1..])
    else
      var e := OneChar(s);
      Consed(e.0, ReadQuoted(s[e.1..]))
  }

  function Consed(c: char, q: Quoted): Quoted {
    if q.Quoted? then Quoted([c] + q.value, q.rest) else q
  }

  predicate IsText(s: string) {
    forall i :: 0 <= i < |s| ==> 0 < s[i] as int < 256
  }

  lemma OctalReadsBack(c: char, rest: string)
    requires c as int < 256 && !IsPrint(c) && c != '\n' && c != '\t' && c != '\r'
    ensures |ReprChar(c)| == 4 && ReprChar(c)[0] == '\\' && Unescape(ReprChar(c)[1..] + rest) == (c, 3)
  {
    var n := c as int;
    hide ReprChar, Unescape, Octal;
    OctalDigits(n);
    OctalForm(c);
    var s := ReprChar(c)[1..] + rest;
    assert s[0] == Octal(n / 64) && s[1] == Octal(n / 8 % 8) && s[2] == Octal(n % 8);
    ThreeDigits(s, n / 64, n / 8 % 8, n % 8);
  }

  lemma OctalForm(c: char)
    requires c as int < 256 && !IsPrint(c) && c != '\n' && c != '\t' && c != '\r'
    ensures var n := c as int;
            && n / 64 < 8 && n / 8 % 8 < 8 && n % 8 < 8
            && ReprChar(c) == ['\\', Octal(n / 64), Octal(n / 8 % 8), Octal(n % 8)]
  {
    hide Octal;
    assert c as int % 256 == c as int;
    assert c != '"' && c != '\\';
  }

  lemma ThreeDigits(s: string, a: nat, b: nat, c: nat)
    requires a < 4 && b < 8 && c < 8 && |s| >= 3 && s[0] == Octal(a) && s[1] == Octal(b) && s[2] == Octal(c)
    ensures Unescape(s) == ((8 * (8 * a + b) + c) as char, 3)
  {}

  lemma OctalDigits(n: nat)
    requires n < 256
    ensures n / 64 < 4 && 8 * (8 * (n / 64) + n / 8 % 8) + n % 8 == n
  {}

  /** One round of the quoted-value loop. */
  lemma ReadRound(s: string, c: char, n: nat)
    requires s != "" && s != "\\" && s[0] != '"' && OneChar(s) == (c, n)
    ensures ReadQuoted(s) == Consed(c, ReadQuoted(s[n..]))
  {
    hide OneChar, Consed;
  }

  /** The quoted-value reader undoes `repr_string_alloc`. */
  lemma {:induction false} QuotedReadsBack(v: string, rest: string)
    requires forall i :: 0 <= i < |v| ==> (v[i] as int) < 256
    ensures ReadQuoted(ReprBody(v) + "\"" + rest) == Quoted(v, rest)
  {
    hide ReadQuoted, ReprChar;
    if v == "" {
      assert ReprBody(v) + "\"" + rest == "\"" + rest;
      QuoteEnds(rest);
    } else {
      var more := ReprBody(v[1..]) + "\"" + rest;
      QuotedReadsBack(v[1..], rest);
      assert ReprBody(v) + "\"" + rest == ReprChar(v[0]) + more;
      ReprCharReadsBack(v[0], more);
      assert [v[0]] + v[1..] == v;
    }
  }

  lemma QuoteEnds(rest: string)
    ensures ReadQuoted("\"" + rest) == Quoted("", rest)
  {
    var s := "\"" + rest;
    assert s[0] == '"' && s[1..] == rest && "\\"[0] == '\\';
  }

  lemma ReprCharReadsBack(c: char, more: string)
    requires c as int < 256
    ensures ReadQuoted(ReprChar(c) + more) == Consed(c, ReadQuoted(more))
  {
    var r := ReprChar(c);
    var s := r + more;
    ReprIsOne(c, more);
    hide ReadQuoted, ReprChar, OneChar, Consed;
    ReadRound(s, c, |r|);
    assert s[|r|..] == more;
  }

  lemma ReprIsOne(c: char, more: string)
    requires c as int < 256
    ensures var r := ReprChar(c);
            var s := r + more;
            r != "" && s != "\\" && s[0] != '"' && OneChar(s) == (c, |r|)
  {
    var r := ReprChar(c);
    var s := r + more;
    if |r| == 1 {
      assert r == [c] && s[0] == c && "\\"[0] == '\\';
    } else if |r| == 2 {
      assert s[1..] == [r[1]] + more;
      ShortEscape(c, more);
      hide Unescape;
    } else {
      assert s[1..] == r[1..] + more;
      OctalReadsBack(c, more);
      hide Unescape;
    }
  }

  lemma ShortEscape(c: char, more: string)
    requires |ReprChar(c)| == 2
    ensures ReprChar(c)[0] == '\\' && Unescape([ReprChar(c)[1]] + more) == (c, 1)
  {}

  // ----- Attribute lists -----

  function PrintAttr(a: Attr): string {
    if a.value == "1" then a.key else a.key + "=" + Repr(a.value)
  }

  function PrintAttrList(attrs: seq<Attr>): string {
    if attrs == [] then ""
    else if |attrs| == 1 then PrintAttr(attrs[0])
    else PrintAttr(attrs[0]) + ", " + PrintAttrList(attrs[1..])
  }

  function PrintAttrs(attrs: seq<Attr>): string {
    if attrs == [] then "" else " [" + PrintAttrList(attrs) + "] "
  }

  /** `neos_strndup`: a copy ends at the first NUL. */
  function UpToNul(s: string): string {
    s[..Span(s, c => c != '\0')]
  }

  datatype AttrsRead = AttrsRead(attrs: seq<Attr>, rest: string) | BadAttrs

  datatype ValueRead = ValueRead(value: string, rest: string) | BadValue

  /** What follows a key in `parse_attr`: a quoted or bare value, or none at all, which reads as empty. */
  function ReadAttrValue(s: string): (r: ValueRead)
    ensures r.ValueRead? ==> |r.rest| <= |s|
  {
    if s == "" || s[0] != '=' then ValueRead("", s)
    else
      var t := SkipSpaces(s[1..]);
      if t != "" && t[0] == '"' then
        var q := ReadQuoted(t[1..]);
        if q.Quoted? then ValueRead(UpToNul(q.value), q.rest) else BadValue
      else
        var n := Span(t, c => c != ' ' && c != ',' && c != ']');
        if n == |t| then BadValue else ValueRead(t[..n], t[n..])
  }

  function SkipComma(s: string): (r: string)
    ensures |r| <= |s|
  {
    if s != "" && s[0] == ',' then SkipSpaces(s[1..]) else s
  }

  /** `parse_attr`, past the opening bracket. */
  function ReadAttrs(s: string): (r: AttrsRead)
    ensures r.AttrsRead? ==> |r.rest| < |s|
    decreases |s|
  {
    if s == "" then BadAttrs
    else if s[0] == ']' then AttrsRead([], s[1..])
    else
      var n := Span(s, IsAlnum);
      if n == 0 || n == |s| then BadAttrs
      else
        var v := ReadAttrValue(SkipSpaces(s[n..]));
        if v.BadValue? then BadAttrs
        else
          var more := ReadAttrs(SkipComma(SkipSpaces(v.rest)));
          if more.BadAttrs? then BadAttrs
          else AttrsRead([Attr(s[..n], v.value)] + more.attrs, more.rest)
  }

  predicate ValidAttr(a: Attr) {
    a.key != "" && (forall i :: 0 <= i < |a.key| ==> IsAlnum(a.key[i])) && IsText(a.value)
  }

  predicate ValidAttrs(attrs: seq<Attr>) {
    forall i :: 0 <= i < |attrs| ==> ValidAttr(attrs[i])
  }

  /** What becomes of an attribute: the value 1 is written as a bare key, which reads as empty. */
  function Bare(a: Attr): Attr {
    if a.value == "1" then Attr(a.key, "") else a
  }

  function BareAll(attrs: seq<Attr>): (r: seq<Attr>)
    ensures |r| == |attrs| && forall i :: 0 <= i < |attrs| ==> r[i] == Bare(attrs[i])
  {
    seq(|attrs|, i requires 0 <= i < |attrs| => Bare(attrs[i]))
  }

  lemma {:induction false} SpanOf(a: string, b: string, p: char -> bool)
    requires forall i :: 0 <= i < |a| ==> p(a[i])
    requires b == "" || !p(b[0])
    ensures Span(a + b, p) == |a| && (a + b)[..|a|] == a && (a + b)[|a|..] == b
  {
    if a == "" {
    } else {
      SpanOf(a[1..], b, p);
      assert (a + b)[1..] == a[1..] + b;
    }
  }

  lemma {:induction false} NoNul(s: string)
    requires IsText(s)
    ensures UpToNul(s) == s
  {
    var p := (c: char) => c != '\0';
    assert s + "" == s;
    SpanOf(s, "", p);
    assert Span(s, p) == |s|;
  }

  lemma NoSpaces(s: string)
    requires s == "" || !IsSpace(s[0])
    ensures SkipSpaces(s) == s
  {}

  lemma ValueReadsBack(v: string, rest: string)
    requires IsText(v)
    ensures ReadAttrValue("=" + Repr(v) + rest) == ValueRead(v, rest)
  {
    hide ReadQuoted, ReprBody, UpToNul, Span;
    var s := "=" + Repr(v) + rest;
    var body := ReprBody(v) + "\"" + rest;
    assert s[1..] == "\"" + body && s[1..][1..] == body;
    NoSpaces(s[1..]);
    QuotedReadsBack(v, rest);
    NoNul(v);
  }

  /** What a printed attribute leaves after its key. */
  function AttrTail(a: Attr): string {
    if a.value == "1" then "" else "=" + Repr(a.value)
  }

  /** A printed attribute, before a comma or the closing bracket, is read back. */
  lemma AttrReadsBack(a: Attr, rest: string)
    requires ValidAttr(a) && rest != "" && (rest[0] == ',' || rest[0] == ']')
    ensures var s := PrintAttr(a) + rest;
            var n := Span(s, IsAlnum);
            && n == |a.key| && s[..n] == a.key && 0 < n < |s| && s[0] != ']'
            && ReadAttrValue(SkipSpaces(s[n..])) == ValueRead(Bare(a).value, rest)
  {
    hide Span, Repr, ReadAttrValue;
    var tail := AttrTail(a) + rest;
    assert PrintAttr(a) + rest == a.key + tail;
    SpanOf(a.key, tail, IsAlnum);
    NoSpaces(tail);
    if a.value == "1" {
      assert tail == rest;
      NoValue(rest);
    } else {
      ValueReadsBack(a.value, rest);
    }
  }

  lemma NoValue(s: string)
    requires s != "" && s[0] != '='
    ensures ReadAttrValue(s) == ValueRead("", s)
  {}

  lemma ReadAttrsStep(s: string, n: nat, v: ValueRead, more: AttrsRead)
    requires s != "" && s[0] != ']' && n == Span(s, IsAlnum) && 0 < n < |s|
    requires v == ReadAttrValue(SkipSpaces(s[n..])) && v.ValueRead?
    requires more == ReadAttrs(SkipComma(SkipSpaces(v.rest))) && more.AttrsRead?
    ensures ReadAttrs(s) == AttrsRead([Attr(s[..n], v.value)] + more.attrs, more.rest)
  {
    hide Span, ReadAttrValue, SkipComma, SkipSpaces;
  }

  lemma OneMoreAttr(a: Attr, more: seq<Attr>, rest: string)
    requires ValidAttr(a) && ValidAttrs(more)
    requires ReadAttrs(PrintAttrList(more) + "]" + rest) == AttrsRead(BareAll(more), rest)
    ensures ReadAttrs(PrintAttr(a) + AfterFirst(more, rest)) == AttrsRead([Bare(a)] + BareAll(more), rest)
  {
    hide ReadAttrs, Span, ReadAttrValue, SkipComma, SkipSpaces, PrintAttr, PrintAttrList, BareAll;
    var tail := AfterFirst(more, rest);
    AttrReadsBack(a, tail);
    SkipToNext(more, rest);
    ReadAttrsStep(PrintAttr(a) + tail, |a.key|, ValueRead(Bare(a).value, tail), AttrsRead(BareAll(more), rest));
  }

  lemma ListSplits(attrs: seq<Attr>, rest: string)
    requires attrs != []
    ensures PrintAttrList(attrs) + "]" + rest == PrintAttr(attrs[0]) + AfterFirst(attrs[1..], rest)
  {
    hide PrintAttr;
    if |attrs| > 1 {
      Regroup(PrintAttr(attrs[0]), ", ", PrintAttrList(attrs[1..]), "]", rest);
    }
  }

  lemma Regroup(a: string, b: string, c: string, d: string, e: string)
    ensures a + b + c + d + e == a + (b + (c + d + e))
  {}

  lemma BareSplits(attrs: seq<Attr>)
    requires attrs != []
    ensures BareAll(attrs) == [Bare(attrs[0])] + BareAll(attrs[1..])
  {}

  /** `parse_attr` undoes the attribute list of the printer, up to the value 1. */
  lemma {:induction false} AttrsReadBack(attrs: seq<Attr>, rest: string)
    requires ValidAttrs(attrs)
    ensures ReadAttrs(PrintAttrList(attrs) + "]" + rest) == AttrsRead(BareAll(attrs), rest)
  {
    if attrs == [] {
      var s := PrintAttrList(attrs) + "]" + rest;
      assert s == "]" + rest && s[1..] == rest;
      assert BareAll(attrs) == [];
    } else {
      hide ReadAttrs, PrintAttrList, PrintAttr, AfterFirst, BareAll;
      AttrsReadBack(attrs[1..], rest);
      OneMoreAttr(attrs[0], attrs[1..], rest);
      ListSplits(attrs, rest);
      BareSplits(attrs);
    }
  }

  /** What follows the first attribute of a list. */
  function AfterFirst(more: seq<Attr>, rest: string): string {
    if more == [] then "]" + rest else ", " + (PrintAttrList(more) + "]" + rest)
  }

  lemma SkipToNext(more: seq<Attr>, rest: string)
    requires ValidAttrs(more)
    ensures SkipComma(SkipSpaces(AfterFirst(more, rest))) == PrintAttrList(more) + "]" + rest
  {
    if more == [] {
      assert PrintAttrList(more) + "]" + rest == "]" + rest;
      NoSpaces("]" + rest);
    } else {
      ListStart(more);
      hide PrintAttrList;
      CommaSkipped(PrintAttrList(more) + "]" + rest);
    }
  }

  lemma CommaSkipped(t: string)
    requires t != "" && !IsSpace(t[0])
    ensures SkipComma(SkipSpaces(", " + t)) == t
  {
    var s := ", " + t;
    assert s[1..] == " " + t;
    hide SkipSpaces;
    NoSpaces(s);
    SpaceSkipped(t);
    NoSpaces(t);
  }

  lemma SpaceSkipped(t: string)
    ensures SkipSpaces(" " + t) == SkipSpaces(t)
  {
    assert (" " + t)[1..] == t;
  }

  lemma ListStart(attrs: seq<Attr>)
    requires ValidAttrs(attrs) && attrs != []
    ensures PrintAttrList(attrs) != "" && PrintAttrList(attrs)[0] == attrs[0].key[0] && IsAlnum(attrs[0].key[0])
  {
    assert ValidAttr(attrs[0]);
  }

  // ----- Values without quotes -----

  /** An unquoted value reaches to the next space, comma or bracket. */
  lemma BareValueReads(key: string, value: string, rest: string)
    requires key != "" && forall i :: 0 <= i < |key| ==> IsAlnum(key[i])
    requires value != "" && value[0] != '"' && !IsSpace(value[0])
    requires forall i :: 0 <= i < |value| ==> value[i] != ' ' && value[i] != ',' && value[i] != ']'
    ensures ReadAttrs(key + ("=" + (value + ("]" + rest)))) == AttrsRead([Attr(key, value)], rest)
  {
    var end := "]" + rest;
    var tail := "=" + (value + end);
    assert IsAlnum(key[0]) && !IsAlnum(tail[0]) && !IsSpace(tail[0]);
    hide SkipSpaces, ReadAttrValue, Span, ReadAttrs, SkipComma;
    SpanOf(key, tail, IsAlnum);
    BareValue(value, end);
    NoSpaces(tail);
    ListEnds(rest);
    ReadAttrsStep(key + tail, |key|, ValueRead(value, end), AttrsRead([], rest));
  }

  lemma ListEnds(rest: string)
    ensures ReadAttrs(SkipComma(SkipSpaces("]" + rest))) == AttrsRead([], rest)
  {
    var end := "]" + rest;
    NoSpaces(end);
    assert SkipComma(end) == end && end[1..] == rest;
    hide SkipSpaces;
  }

  lemma BareValue(value: string, end: string)
    requires value != "" && value[0] != '"' && !IsSpace(value[0])
    requires forall i :: 0 <= i < |value| ==> value[i] != ' ' && value[i] != ',' && value[i] != ']'
    requires end != "" && end[0] == ']'
    ensures ReadAttrValue("=" + (value + end)) == ValueRead(value, end)
  {
    var t := value + end;
    assert ("=" + t)[1..] == t;
    NoSpaces(t);
    var p := (c: char) => c != ' ' && c != ',' && c != ']';
    SpanOf(value, end, p);
    assert Span(t, p) == Span(t, c => c != ' ' && c != ',' && c != ']');
    hide SkipSpaces, Span;
  }

  /** How a value is quoted. */
  lemma QuotedForm()
    ensures Repr("a\"\n\\") == "\"a\\\"\\n\\\\\"" && ReprChar(1 as char) == "\\001" && ReprChar(255 as char) == "\\377"
  {
    var s := "a\"\n\\";
    assert s[1..] == "\"\n\\" && s[1..][1..] == "\n\\" && s[1..][1..][1..] == "\\" && s[1..][1..][1..][1..] == "";
  }

  /** Escapes that the printer does not write: any other character stands for itself, and octal may be short. */
  lemma OtherEscapes()
    ensures Unescape("q") == ('q', 1) && Unescape("7z") == (7 as char, 1) && Unescape("41z") == ('!', 2)
  {}
}
