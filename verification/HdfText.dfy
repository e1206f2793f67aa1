/**
 * The text form of a tree: the compact printer `hdf_dump_cb` and the reader
 * `_hdf_read_string`, and what reading back a printed tree gives.
 */
module HdfText {
  import opened Bytes
  import opened HdfView
  import opened HdfDoc

  // ----- Trees as values -----

  function KidIndex(kids: seq<Hdf>, name: string): (i: nat)
    ensures i <= |kids| && (i < |kids| ==> kids[i].name == name)
    ensures forall j :: 0 <= j < i ==> kids[j].name != name
  {
    if kids == [] || kids[0].name == name then 0 else 1 + KidIndex(kids[1..], name)
  }

  function At(t: Hdf, path: Path): Option<Hdf>
    decreases |path|
  {
    if path == [] then Some(t)
    else
      var i := KidIndex(t.kids, path[0]);
      if i == |t.kids| then None else At(t.kids[i], path[1..])
  }

  /** `_merge_attr`: a new key in first place ends the merge, and what follows it is lost. */
  function MergeAttrs(have: seq<Attr>, more: seq<Attr>): seq<Attr> {
    if have == [] then more
    else if more == [] then have
    else
      var i := AttrIndex(have, more[0].key);
      if i == |have| then have + [more[0]]
      else MergeRest(have[i := Attr(have[i].key, more[0].value)], more[1..])
  }

  function MergeRest(have: seq<Attr>, more: seq<Attr>): seq<Attr>
    decreases |more|
  {
    if more == [] then have
    else
      var i := AttrIndex(have, more[0].key);
      MergeRest(if i == |have| then have + [more[0]] else have[i := Attr(have[i].key, more[0].value)], more[1..])
  }

  function AttrIndex(attrs: seq<Attr>, key: string): (i: nat)
    ensures i <= |attrs|
  {
    if attrs == [] || attrs[0].key == key then 0 else 1 + AttrIndex(attrs[1..], key)
  }

  function ValueOf(attrs: seq<Attr>, key: string): Option<string> {
    if attrs == [] then None else if attrs[0].key == key then Some(attrs[0].value) else ValueOf(attrs[1..], key)
  }

  /** The value that comes last under a key. */
  function LastValue(attrs: seq<Attr>, key: string): Option<string> {
    if attrs == [] then None
    else
      var later := LastValue(attrs[1..], key);
      if later.Some? then later else if attrs[0].key == key then Some(attrs[0].value) else None
  }

  lemma {:induction false} PutValue(attrs: seq<Attr>, a: Attr, key: string)
    ensures var i := AttrIndex(attrs, a.key);
            var r := if i == |attrs| then attrs + [a] else attrs[i := Attr(attrs[i].key, a.value)];
            ValueOf(r, key) == if key == a.key then Some(a.value) else ValueOf(attrs, key)
  {
    var i := AttrIndex(attrs, a.key);
    if attrs == [] {
    } else if attrs[0].key == a.key {
      assert attrs[0 := Attr(a.key, a.value)][1..] == attrs[1..];
    } else {
      PutValue(attrs[1..], a, key);
      assert (attrs + [a])[1..] == attrs[1..] + [a];
      if i < |attrs| {
        var x := Attr(attrs[i].key, a.value);
        assert attrs[i := x][1..] == attrs[1..][i - 1 := x];
      }
    }
  }

  lemma {:induction false} MergeRestLaw(have: seq<Attr>, more: seq<Attr>, key: string)
    ensures ValueOf(MergeRest(have, more), key) ==
            if LastValue(more, key).Some? then LastValue(more, key) else ValueOf(have, key)
    decreases |more|
  {
    if more == [] {
    } else {
      var i := AttrIndex(have, more[0].key);
      var next := if i == |have| then have + [more[0]] else have[i := Attr(have[i].key, more[0].value)];
      PutValue(have, more[0], key);
      hide AttrIndex, ValueOf;
      MergeRestLaw(next, more[1..], key);
    }
  }

  /**
   * What `_merge_attr` leaves under a key: the new value, if there is one, else the old one;
   * but if the first new key is not there yet, it is the only one that is taken over.
   */
  lemma MergeLaw(have: seq<Attr>, more: seq<Attr>, key: string)
    ensures have == [] ==> MergeAttrs(have, more) == more
    ensures more == [] ==> MergeAttrs(have, more) == have
    ensures have != [] && more != [] ==>
              ValueOf(MergeAttrs(have, more), key) ==
              if (exists i :: 0 <= i < |have| && have[i].key == more[0].key)
              then (if LastValue(more, key).Some? then LastValue(more, key) else ValueOf(have, key))
              else (if key == more[0].key then Some(more[0].value) else ValueOf(have, key))
  {
    if have != [] && more != [] {
      IndexIsThere(have, more[0].key);
      PutValue(have, more[0], key);
      var i := AttrIndex(have, more[0].key);
      if i < |have| {
        MergeRestLaw(have[i := Attr(have[i].key, more[0].value)], more[1..], key);
      }
      hide AttrIndex, ValueOf, MergeRest;
    }
  }

  lemma {:induction false} IndexIsThere(attrs: seq<Attr>, key: string)
    ensures AttrIndex(attrs, key) < |attrs| <==> exists i :: 0 <= i < |attrs| && attrs[i].key == key
  {
    if attrs == [] {
    } else if attrs[0].key == key {
    } else {
      IndexIsThere(attrs[1..], key);
      if exists i :: 0 <= i < |attrs| && attrs[i].key == key {
        var i :| 0 <= i < |attrs| && attrs[i].key == key;
        assert attrs[1..][i - 1].key == key;
      }
    }
  }

  /** `_set_value` at a path; nothing if a component is empty. */
  function SetAt(t: Hdf, path: Path, value: Option<string>, attrs: seq<Attr>): Option<Hdf>
    decreases |path|
  {
    if path == [] then Some(t.(value := value, attrs := MergeAttrs(t.attrs, attrs)))
    else if path[0] == "" then None
    else
      var i := KidIndex(t.kids, path[0]);
      var kid := if i < |t.kids| then t.kids[i] else Hdf(path[0], None, [], []);
      match SetAt(kid, path[1..], value, attrs)
      case None => None
      case Some(k) => Some(t.(kids := PutKid(t.kids, i, k)))
  }

  function PutKid(kids: seq<Hdf>, i: nat, k: Hdf): seq<Hdf>
    requires i <= |kids|
  {
    if i < |kids| then kids[i := k] else kids + [k]
  }

  /** The node a brace opens: made if it is missing, given the attributes if it is there. */
  function OpenAt(t: Hdf, path: Path, attrs: seq<Attr>): Option<Hdf> {
    match At(t, path)
    case None => SetAt(t, path, None, attrs)
    case Some(n) => SetAt(t, path, n.value, attrs)
  }

  function Replace(t: Hdf, path: Path, sub: Hdf): Hdf
    decreases |path|
  {
    if path == [] then sub
    else
      var i := KidIndex(t.kids, path[0]);
      if i == |t.kids| then t else t.(kids := t.kids[i := Replace(t.kids[i], path[1..], sub)])
  }

  // ----- Lines -----

  datatype Line =
    | Blank
    | Close
    | Assign(name: string, attrs: seq<Attr>, value: string)
    | Open(name: string, attrs: seq<Attr>)
    | Malformed
    | Unmodelled

  /** What comes after the name and the attributes of a line decides what the line does. */
  function ClassifyRest(name: string, attrs: seq<Attr>, s: string): Line {
    if s == "" then Malformed
    else if s[0] == '=' then Assign(name, attrs, Strip(s[1..]))
    else if s[0] == '{' then Open(name, attrs)
    else if s[0] == ':' || StartsWith(s, "<<") then Unmodelled
    else Malformed
  }

  /** One line of `_hdf_read_string`, reading from a string. */
  function Classify(line: string): Line {
    var s := SkipSpaces(line);
    if s == "" then Blank
    else if StartsWith(s, "#include ") then Malformed
    else if s[0] == '#' then Blank
    else if s[0] == '}' then if Strip(s) == "}" then Close else Malformed
    else
      var n := Span(s, IsNameChar);
      ClassifyNamed(s[..n], SkipSpaces(s[n..]))
  }

  /** The rest of a line that starts with a name. */
  function ClassifyNamed(name: string, s: string): Line {
    if s != "" && s[0] == '[' then
      var a := ReadAttrs(s[1..]);
      if a.BadAttrs? then Malformed else ClassifyRest(name, a.attrs, SkipSpaces(a.rest))
    else ClassifyRest(name, [], s)
  }

  // ----- The reader -----

  datatype Parsed = Parsed(node: Hdf, rest: string) | Failed | Outside

  function PathOf(name: string): Path {
    if name == "" then [] else Split(name)
  }

  predicate InLine(c: char) {
    c != '\n'
  }

  /** The first line of a text, without its line break, and what comes after it. */
  function LineOf(text: string): string {
    text[..Span(text, InLine)]
  }

  function RestOf(text: string): (r: string)
    ensures text != "" ==> |r| < |text|
  {
    var n := Span(text, InLine);
    if n == |text| then "" else text[n + 1..]
  }

  function ReadText(t: Hdf, text: string): (r: Parsed)
    ensures r.Parsed? ==> |r.rest| <= |text|
    decreases |text|
  {
    if text == "" then Parsed(t, "")
    else
      var rest := RestOf(text);
      match Classify(LineOf(text))
      case Blank => ReadText(t, rest)
      case Close => Parsed(t, rest)
      case Assign(name, attrs, value) =>
        (match SetAt(t, PathOf(name), Some(value), attrs)
         case None => Failed
         case Some(t') => ReadText(t', rest))
      case Open(name, attrs) =>
        (match OpenAt(t, PathOf(name), attrs)
         case None => Failed
         case Some(t') =>
           match At(t', PathOf(name))
           case None => Failed
           case Some(lower) =>
             var sub := ReadText(lower, rest);
             if sub.Parsed? then ReadText(Replace(t', PathOf(name), sub.node), sub.rest) else sub)
      case Malformed => Failed
      case Unmodelled => Outside
  }

  // ----- The printer -----

  function PrintValue(k: Hdf): string {
    match k.value
    case None => ""
    case Some(v) => k.name + PrintAttrs(k.attrs) + " = " + v + "\n"
  }

  function PrintNode(k: Hdf): string
    decreases k, 0
  {
    PrintValue(k) + if k.kids == [] then "" else k.name + " {\n" + Print(k.kids) + "}\n"
  }

  /** What `hdf_dump_cb` writes in compact form for a list of siblings. */
  function Print(kids: seq<Hdf>): string
    decreases kids
  {
    if kids == [] then "" else PrintNode(kids[0]) + Print(kids[1..])
  }

  // ----- What the printer keeps -----

  predicate ValidName(name: string) {
    name != "" && forall i :: 0 <= i < |name| ==> IsNameChar(name[i]) && name[i] != '.'
  }

  predicate OneLine(v: string) {
    forall i :: 0 <= i < |v| ==> v[i] != '\n'
  }

  predicate NewNames(kids: seq<Hdf>, others: seq<Hdf>) {
    forall i, j :: 0 <= i < |kids| && 0 <= j < |others| ==> kids[i].name != others[j].name
  }

  predicate DistinctSiblings(kids: seq<Hdf>) {
    forall i, j :: 0 <= i < j < |kids| ==> kids[i].name != kids[j].name
  }

  /** Names that can be written, none twice among siblings; values of one line; attributes that can be written. */
  predicate Printable(kids: seq<Hdf>)
    decreases kids
  {
    && DistinctSiblings(kids)
    && forall i :: 0 <= i < |kids| ==> PrintableNode(kids[i])
  }

  predicate PrintableNode(k: Hdf)
    decreases k, 0
  {
    && ValidName(k.name)
    && (k.value.Some? ==> OneLine(k.value.value))
    && ValidAttrs(k.attrs)
    && Printable(k.kids)
  }

  /**
   * What is left of a node: one without value and children is not written at all, one
   * without a value loses its attributes, a value loses the spaces around it.
   */
  function KeptNode(k: Hdf): seq<Hdf>
    decreases k, 0
  {
    if k.value.None? then
      if k.kids == [] then [] else [Hdf(k.name, None, [], Kept(k.kids))]
    else [Hdf(k.name, Some(Strip(k.value.value)), BareAll(k.attrs), Kept(k.kids))]
  }

  function Kept(kids: seq<Hdf>): seq<Hdf>
    decreases kids
  {
    if kids == [] then [] else KeptNode(kids[0]) + Kept(kids[1..])
  }

  // ----- Lines read back -----

  lemma NameIsFirst(name: string, rest: string)
    requires ValidName(name) && rest != "" && !IsNameChar(rest[0])
    ensures Classify(name + rest) == ClassifyNamed(name, SkipSpaces(rest))
  {
    hide ClassifyNamed;
    SpanOf(name, rest, IsNameChar);
    NoSpaces(name + rest);
  }

  lemma OneSpace(s: string)
    ensures SkipSpaces(" " + s) == SkipSpaces(s)
    ensures s != "" && !IsSpace(s[0]) ==> SkipSpaces(s) == s
  {
    assert (" " + s)[1..] == s;
  }

  lemma EqualsSign(name: string, attrs: seq<Attr>, value: string)
    ensures ClassifyRest(name, attrs, "= " + value) == Assign(name, attrs, Strip(" " + value))
  {
    hide Strip;
    assert ("= " + value)[1..] == " " + value;
  }

  lemma AttrsThenValue(name: string, attrs: seq<Attr>, value: string)
    requires ValidAttrs(attrs)
    ensures ClassifyNamed(name, "[" + (PrintAttrList(attrs) + "]" + ("  = " + value)))
            == Assign(name, BareAll(attrs), Strip(" " + value))
  {
    hide SkipSpaces, ReadAttrs, PrintAttrList, Strip, BareAll, ClassifyRest;
    var tail := "  = " + value;
    var list := PrintAttrList(attrs) + "]" + tail;
    assert ("[" + list)[1..] == list;
    AttrsReadBack(attrs, tail);
    assert tail == " " + (" " + ("= " + value));
    OneSpace(" " + ("= " + value));
    OneSpace("= " + value);
    EqualsSign(name, BareAll(attrs), value);
  }

  /** The line of a value, with or without attributes. */
  lemma AssignReadsBack(name: string, attrs: seq<Attr>, value: string)
    requires ValidName(name) && ValidAttrs(attrs)
    ensures Classify(name + PrintAttrs(attrs) + " = " + value) == Assign(name, BareAll(attrs), Strip(" " + value))
  {
    hide Classify, SkipSpaces, PrintAttrList, Strip, BareAll, ClassifyRest, ReadAttrs;
    var rest := PrintAttrs(attrs) + " = " + value;
    assert name + PrintAttrs(attrs) + " = " + value == name + rest;
    NameIsFirst(name, rest);
    if attrs == [] {
      assert rest == " " + ("= " + value);
      OneSpace("= " + value);
      EqualsSign(name, [], value);
      assert BareAll(attrs) == [];
    } else {
      var list := "[" + (PrintAttrList(attrs) + "]" + ("  = " + value));
      assert rest == " " + list;
      OneSpace(list);
      AttrsThenValue(name, attrs, value);
    }
  }

  lemma OpenReadsBack(name: string)
    requires ValidName(name)
    ensures Classify(name + " {") == Open(name, [])
  {
    hide Classify;
    NameIsFirst(name, " {");
    assert " {" == " " + "{";
    OneSpace("{");
  }

  lemma CloseReadsBack()
    ensures Classify("}") == Close
  {
    NoSpaces("}");
    assert RStrip("}") == "}";
  }

  lemma {:induction false} RStripSpace(v: string)
    ensures RStrip(" " + v) == if RStrip(v) == "" then "" else " " + RStrip(v)
  {
    var s := " " + v;
    if v == "" {
      assert s[..0] == "";
    } else {
      assert s[|s| - 1] == v[|v| - 1] && s[..|s| - 1] == " " + v[..|v| - 1];
      if IsSpace(v[|v| - 1]) {
        RStripSpace(v[..|v| - 1]);
      }
    }
  }

  lemma StripSpace(v: string)
    ensures Strip(" " + v) == Strip(v)
  {
    RStripSpace(v);
    OneSpace(RStrip(v));
  }

  // Printed lines have no line break inside

  lemma {:induction false} ReprIsOneLine(v: string)
    ensures OneLine(ReprBody(v))
  {
    if v == "" {
    } else {
      ReprIsOneLine(v[1..]);
      assert OneLine(ReprChar(v[0]));
    }
  }

  lemma {:induction false} AttrsAreOneLine(attrs: seq<Attr>)
    requires ValidAttrs(attrs)
    ensures OneLine(PrintAttrList(attrs))
  {
    hide ReprBody;
    if attrs == [] {
    } else {
      assert ValidAttr(attrs[0]);
      ReprIsOneLine(attrs[0].value);
      assert OneLine(PrintAttr(attrs[0]));
      AttrsAreOneLine(attrs[1..]);
    }
  }

  lemma AssignIsOneLine(name: string, attrs: seq<Attr>, value: string)
    requires ValidName(name) && ValidAttrs(attrs) && OneLine(value)
    ensures OneLine(name + PrintAttrs(attrs) + " = " + value)
  {
    hide PrintAttrList;
    AttrsAreOneLine(attrs);
  }

  // One line of text at a time

  lemma FirstLine(line: string, rest: string)
    requires OneLine(line)
    ensures LineOf(line + "\n" + rest) == line && RestOf(line + "\n" + rest) == rest
  {
    var text := line + "\n" + rest;
    assert text == line + ("\n" + rest);
    SpanOf(line, "\n" + rest, InLine);
  }

  lemma StepAssign(t: Hdf, line: string, rest: string, name: string, attrs: seq<Attr>, value: string, t': Hdf)
    requires OneLine(line) && Classify(line) == Assign(name, attrs, value)
    requires SetAt(t, PathOf(name), Some(value), attrs) == Some(t')
    ensures ReadText(t, line + "\n" + rest) == ReadText(t', rest)
  {
    hide Classify, SetAt, LineOf, RestOf;
    FirstLine(line, rest);
  }

  lemma StepOpen(t: Hdf, line: string, rest: string, name: string, attrs: seq<Attr>, t': Hdf, lower: Hdf, sub: Parsed)
    requires OneLine(line) && Classify(line) == Open(name, attrs)
    requires OpenAt(t, PathOf(name), attrs) == Some(t') && At(t', PathOf(name)) == Some(lower)
    requires sub == ReadText(lower, rest) && sub.Parsed?
    ensures ReadText(t, line + "\n" + rest) == ReadText(Replace(t', PathOf(name), sub.node), sub.rest)
  {
    hide Classify, OpenAt, At, Replace, LineOf, RestOf;
    FirstLine(line, rest);
  }

  lemma StepClose(t: Hdf, rest: string)
    ensures ReadText(t, "}\n" + rest) == Parsed(t, rest)
  {
    hide Classify, LineOf, RestOf;
    CloseReadsBack();
    FirstLine("}", rest);
    assert "}\n" + rest == "}" + "\n" + rest;
  }

  // One node at a time

  lemma {:induction false} NotThere(kids: seq<Hdf>, name: string)
    requires forall i :: 0 <= i < |kids| ==> kids[i].name != name
    ensures KidIndex(kids, name) == |kids|
  {}

  lemma AppendKid(t: Hdf, name: string, value: Option<string>, attrs: seq<Attr>)
    requires ValidName(name) && forall i :: 0 <= i < |t.kids| ==> t.kids[i].name != name
    ensures SetAt(t, PathOf(name), value, attrs) == Some(t.(kids := t.kids + [Hdf(name, value, attrs, [])]))
    ensures At(t, PathOf(name)) == None
  {
    SplitPlain(name);
    NotThere(t.kids, name);
    assert [name][1..] == [];
  }

  lemma LastKid(t: Hdf, before: seq<Hdf>, k: Hdf, sub: Hdf)
    requires t.kids == before + [k] && ValidName(k.name) && forall i :: 0 <= i < |before| ==> before[i].name != k.name
    ensures At(t, PathOf(k.name)) == Some(k)
    ensures OpenAt(t, PathOf(k.name), []) == Some(t)
    ensures Replace(t, PathOf(k.name), sub) == t.(kids := before + [sub])
  {
    SplitPlain(k.name);
    var i := KidIndex(t.kids, k.name);
    assert t.kids[|before|] == k;
    assert i == |before|;
    assert [k.name][1..] == [];
    assert MergeAttrs(k.attrs, []) == k.attrs;
    assert t.kids[i := k] == t.kids && t.kids[i := sub] == before + [sub];
    assert SetAt(k, [], k.value, []) == Some(k);
    assert SetAt(t, [k.name], k.value, []) == Some(t);
  }

  /** The children written between braces come back below their node. */
  lemma BracesReadBack(t0: Hdf, t: Hdf, before: seq<Hdf>, k: Hdf, kids: seq<Hdf>, tail: string)
    requires OpenAt(t0, PathOf(k.name), []) == Some(t)
    requires t.kids == before + [k] && ValidName(k.name) && forall i :: 0 <= i < |before| ==> before[i].name != k.name
    requires k.kids == []
    requires ReadText(k, Print(kids) + ("}\n" + tail)) == ReadText(k.(kids := Kept(kids)), "}\n" + tail)
    ensures ReadText(t0, k.name + " {\n" + Print(kids) + "}\n" + tail)
            == ReadText(t.(kids := before + [k.(kids := Kept(kids))]), tail)
  {
    hide ReadText, Classify, OpenAt, At, Replace, Print, Kept;
    var line, rest, sub := k.name + " {", Print(kids) + ("}\n" + tail), k.(kids := Kept(kids));
    assert k.name + " {\n" + Print(kids) + "}\n" + tail == line + "\n" + rest;
    OpenReadsBack(k.name);
    StepClose(sub, tail);
    LastKid(t, before, k, sub);
    StepOpen(t0, line, rest, k.name, [], t, k, Parsed(sub, tail));
  }

  lemma ValueReadsBackAs(t: Hdf, k: Hdf, rest: string)
    requires ValidName(k.name) && ValidAttrs(k.attrs) && k.value.Some? && OneLine(k.value.value)
    requires forall i :: 0 <= i < |t.kids| ==> t.kids[i].name != k.name
    ensures ReadText(t, PrintValue(k) + rest)
            == ReadText(t.(kids := t.kids + [Hdf(k.name, Some(Strip(k.value.value)), BareAll(k.attrs), [])]), rest)
  {
    hide ReadText, Classify, SetAt, PrintAttrs, Strip, BareAll;
    var line := k.name + PrintAttrs(k.attrs) + " = " + k.value.value;
    AssignReadsBack(k.name, k.attrs, k.value.value);
    AssignIsOneLine(k.name, k.attrs, k.value.value);
    StripSpace(k.value.value);
    var v, attrs := Strip(k.value.value), BareAll(k.attrs);
    AppendKid(t, k.name, Some(v), attrs);
    StepAssign(t, line, rest, k.name, attrs, v, t.(kids := t.kids + [Hdf(k.name, Some(v), attrs, [])]));
  }

  lemma {:induction false} NodeReadsBack(t: Hdf, k: Hdf, tail: string)
    requires PrintableNode(k) && forall i :: 0 <= i < |t.kids| ==> t.kids[i].name != k.name
    ensures ReadText(t, PrintNode(k) + tail) == ReadText(t.(kids := t.kids + KeptNode(k)), tail)
    decreases k, 0
  {
    hide ReadText, PrintValue, OpenAt, SetAt, Strip, BareAll;
    if k.value.None? && k.kids == [] {
      assert PrintValue(k) == "" by { NoValueNoLine(k); }
      assert PrintNode(k) + tail == tail;
      assert t.(kids := t.kids + []) == t;
      return;
    }
    var bare := Hdf(k.name, None, [], []);
    var t1, made := t, bare;
    var rest := (if k.kids == [] then "" else k.name + " {\n" + Print(k.kids) + "}\n") + tail;
    assert PrintNode(k) + tail == PrintValue(k) + rest;
    if k.value.Some? {
      made := Hdf(k.name, Some(Strip(k.value.value)), BareAll(k.attrs), []);
      ValueReadsBackAs(t, k, rest);
      t1 := t.(kids := t.kids + [made]);
      LastKid(t1, t.kids, made, made);
    } else {
      NoValueNoLine(k);
      assert PrintValue(k) + rest == rest;
      OpensNew(t, k.name);
    }
    if k.kids == [] {
      assert rest == tail;
    } else {
      KidsReadBack(made, k.kids, "}\n" + tail);
      assert made.kids + Kept(k.kids) == Kept(k.kids);
      var t2 := t.(kids := t.kids + [made]);
      BracesReadBack(t1, t2, t.kids, made, k.kids, tail);
      assert rest == k.name + " {\n" + Print(k.kids) + "}\n" + tail;
      assert t2.(kids := t.kids + [made.(kids := Kept(k.kids))]) == t.(kids := t.kids + KeptNode(k));
    }
  }

  lemma NoValueNoLine(k: Hdf)
    requires k.value.None?
    ensures PrintValue(k) == ""
  {}

  lemma OpensNew(t: Hdf, name: string)
    requires ValidName(name) && forall i :: 0 <= i < |t.kids| ==> t.kids[i].name != name
    ensures OpenAt(t, PathOf(name), []) == Some(t.(kids := t.kids + [Hdf(name, None, [], [])]))
  {
    AppendKid(t, name, None, []);
  }

  lemma {:induction false} KidsReadBack(t: Hdf, kids: seq<Hdf>, tail: string)
    requires Printable(kids) && NewNames(t.kids, kids)
    ensures ReadText(t, Print(kids) + tail) == ReadText(t.(kids := t.kids + Kept(kids)), tail)
    decreases kids
  {
    hide ReadText, PrintNode, KeptNode;
    if kids == [] {
      assert Print(kids) + tail == tail && t.(kids := t.kids + []) == t;
    } else {
      var k, more := kids[0], kids[1..];
      var t1 := t.(kids := t.kids + KeptNode(k));
      assert Print(kids) + tail == PrintNode(k) + (Print(more) + tail);
      NodeReadsBack(t, k, Print(more) + tail);
      KeptName(k);
      KidsReadBack(t1, more, tail);
      assert t1.kids + Kept(more) == t.kids + Kept(kids);
    }
  }

  lemma KeptName(k: Hdf)
    ensures forall i :: 0 <= i < |KeptNode(k)| ==> KeptNode(k)[i].name == k.name
  {}

  // ----- Printing and reading back -----

  const EMPTY: Hdf := Hdf("", None, [], [])

  /** `hdf_write_string`: the children of a node. */
  function WriteString(t: Hdf): string {
    Print(t.kids)
  }

  /** `hdf_read_string` into a new tree. */
  function ReadString(text: string): Parsed {
    ReadText(EMPTY, text)
  }

  /** A printed tree is read back to its end, as what the printer keeps of it, in the same order. */
  lemma PrintedReadsBack(t: Hdf)
    requires Printable(t.kids)
    ensures ReadString(WriteString(t)) == Parsed(EMPTY.(kids := Kept(t.kids)), "")
  {
    hide Print, Kept;
    KidsReadBack(EMPTY, t.kids, "");
    assert Print(t.kids) + "" == Print(t.kids) && [] + Kept(t.kids) == Kept(t.kids);
  }

  // ----- What is kept, path by path -----

  /** Siblings are kept one by one, in order. */
  lemma {:induction false} KeptJoins(a: seq<Hdf>, b: seq<Hdf>)
    ensures Kept(a + b) == Kept(a) + Kept(b)
  {
    hide KeptNode;
    if a == [] {
      assert a + b == b;
    } else {
      assert (a + b)[1..] == a[1..] + b;
      KeptJoins(a[1..], b);
    }
  }

  /** A node that says nothing: no value, and nothing below it. */
  predicate Silent(k: Hdf) {
    k.value.None? && k.kids == []
  }

  lemma {:induction false} KeptIndex(kids: seq<Hdf>, name: string)
    requires DistinctSiblings(kids)
    ensures var i, r := KidIndex(kids, name), Kept(kids);
            if i == |kids| || Silent(kids[i]) then KidIndex(r, name) == |r|
            else KidIndex(r, name) < |r| && KeptNode(kids[i]) == [r[KidIndex(r, name)]]
  {
    if kids == [] {
    } else {
      var k, more := kids[0], kids[1..];
      KeptIndex(more, name);
      KeptOne(k);
      IndexStep(kids, name);
      var one, r := KeptNode(k), Kept(kids);
      assert r == one + Kept(more);
      if k.name == name {
        NotThere(more, name);
      }
      hide KeptNode, Kept, KidIndex, DistinctSiblings, Silent;
      if one == [] {
        assert r == Kept(more);
      } else {
        assert r[0] == one[0] && r[1..] == Kept(more) && [r[0]] == one;
        IndexStep(r, name);
      }
    }
  }

  lemma KeptOne(k: Hdf)
    ensures |KeptNode(k)| == (if Silent(k) then 0 else 1) && (!Silent(k) ==> KeptNode(k)[0].name == k.name)
  {}

  lemma IndexStep(kids: seq<Hdf>, name: string)
    requires kids != []
    ensures KidIndex(kids, name) == if kids[0].name == name then 0 else 1 + KidIndex(kids[1..], name)
  {}

  /**
   * What is left at a path: nothing if there was nothing or a node that says nothing; else
   * the node with its value stripped, its attributes if it has a value, and what is kept of
   * its children.
   */
  lemma {:induction false} KeptAt(t: Hdf, q: Path)
    requires Printable(t.kids) && q != []
    ensures var was, now := At(t, q), At(t.(kids := Kept(t.kids)), q);
            if was.None? || Silent(was.value) then now == None
            else
              && now.Some? && now.value.name == was.value.name && now.value.kids == Kept(was.value.kids)
              && now.value.value == (if was.value.value.None? then None else Some(Strip(was.value.value.value)))
              && now.value.attrs == (if was.value.value.None? then [] else BareAll(was.value.attrs))
    decreases |q|
  {
    var i := KidIndex(t.kids, q[0]);
    KeptIndex(t.kids, q[0]);
    if i < |t.kids| {
      var k := t.kids[i];
      assert PrintableNode(k);
      if q[1..] == [] {
      } else if Silent(k) {
        assert At(k, q[1..]) == None;
      } else {
        KeptAt(k, q[1..]);
        var k' := KeptNode(k)[0];
        assert k'.kids == Kept(k.kids);
        hide Kept, KeptNode, Printable, Strip, BareAll;
        OnlyKids(k', k.(kids := Kept(k.kids)), q[1..]);
      }
    }
  }

  lemma OnlyKids(a: Hdf, b: Hdf, q: Path)
    requires q != [] && a.kids == b.kids
    ensures At(a, q) == At(b, q)
  {}

  /** A small tree as it is printed. */
  lemma PrintedForm()
    ensures var b := Hdf("b", Some("2"), [Attr("k", "x"), Attr("l", "1")], []);
            var a := Hdf("a", Some("1"), [], [b]);
            WriteString(EMPTY.(kids := [a])) == "a = 1\na {\nb [k=\"x\", l]  = 2\n}\n"
  {
    var b := Hdf("b", Some("2"), [Attr("k", "x"), Attr("l", "1")], []);
    var a := Hdf("a", Some("1"), [], [b]);
    PrintedLine();
    hide PrintAttrs, PrintValue;
    PrintOne(b);
    PrintOne(a);
    assert PrintValue(a) == "a = 1\n" by { PlainLine(); }
  }

  lemma PrintOne(k: Hdf)
    ensures Print([k]) == PrintNode(k)
  {
    assert [k][1..] == [];
    hide PrintNode;
    assert PrintNode(k) + "" == PrintNode(k);
  }

  lemma PlainLine()
    ensures forall kids :: PrintValue(Hdf("a", Some("1"), [], kids)) == "a = 1\n"
  {}

  lemma PrintedLine()
    ensures PrintValue(Hdf("b", Some("2"), [Attr("k", "x"), Attr("l", "1")], [])) == "b [k=\"x\", l]  = 2\n"
  {
    hide PrintAttrList;
    PrintedList();
  }

  lemma PrintedList()
    ensures PrintAttrList([Attr("k", "x"), Attr("l", "1")]) == "k=\"x\", l"
  {
    var attrs := [Attr("k", "x"), Attr("l", "1")];
    assert attrs[1..] == [Attr("l", "1")];
    PrintedAttr();
    hide PrintAttr;
  }

  lemma PrintedAttr()
    ensures PrintAttr(Attr("k", "x")) == "k=\"x\"" && PrintAttr(Attr("l", "1")) == "l"
  {
    assert "x"[1..] == "" && ReprBody("x") == "x";
    hide ReprBody;
  }

  /** Every leaf has a value, values have no outer space, attributes come with values and are not 1. */
  predicate Lossless(kids: seq<Hdf>)
    decreases kids
  {
    forall i :: 0 <= i < |kids| ==> LosslessNode(kids[i])
  }

  predicate LosslessNode(k: Hdf)
    decreases k, 0
  {
    && (match k.value
        case None => k.kids != [] && k.attrs == []
        case Some(v) => Strip(v) == v && forall i :: 0 <= i < |k.attrs| ==> k.attrs[i].value != "1")
    && Lossless(k.kids)
  }

  lemma {:induction false} KeptIsNoMore(kids: seq<Hdf>)
    ensures |Kept(kids)| <= |kids|
  {
    hide KeptNode;
    if kids == [] {
    } else {
      KeptIsNoMore(kids[1..]);
      AtMostOne(kids[0]);
    }
  }

  lemma AtMostOne(k: Hdf)
    ensures |KeptNode(k)| <= 1
  {}

  lemma {:induction false} KeptIsAll(kids: seq<Hdf>)
    ensures Kept(kids) == kids <==> Lossless(kids)
    decreases kids
  {
    hide KeptNode, LosslessNode;
    if kids == [] {
    } else {
      var k, more := kids[0], kids[1..];
      KeptNodeIsAll(k);
      KeptIsAll(more);
      KeptIsNoMore(more);
      AtMostOne(k);
      assert kids == [k] + more;
      if Kept(kids) == kids {
        assert |KeptNode(k)| == 1 && KeptNode(k) == [Kept(kids)[0]] && Kept(more) == Kept(kids)[1..];
      }
      assert Lossless(kids) <==> LosslessNode(k) && Lossless(more) by { LosslessSplits(kids); }
    }
  }

  lemma LosslessSplits(kids: seq<Hdf>)
    requires kids != []
    ensures Lossless(kids) <==> LosslessNode(kids[0]) && Lossless(kids[1..])
  {
    hide LosslessNode;
    assert kids == [kids[0]] + kids[1..];
  }

  lemma {:induction false} KeptNodeIsAll(k: Hdf)
    ensures KeptNode(k) == [k] <==> LosslessNode(k)
    decreases k, 0
  {
    hide Kept, Lossless, Strip;
    KeptIsAll(k.kids);
    SameAttrs(k.attrs);
    assert BareAll([]) == [];
  }

  lemma SameAttrs(attrs: seq<Attr>)
    ensures BareAll(attrs) == attrs <==> forall i :: 0 <= i < |attrs| ==> attrs[i].value != "1"
  {
    forall i | 0 <= i < |attrs| ensures Bare(attrs[i]) == attrs[i] <==> attrs[i].value != "1" {}
    if BareAll(attrs) == attrs {
      forall i | 0 <= i < |attrs| ensures attrs[i].value != "1" {
        assert BareAll(attrs)[i] == Bare(attrs[i]);
      }
    }
  }

  /** The round trip returns the tree exactly when nothing in it is of a kind the text form loses. */
  lemma RoundTrip(t: Hdf)
    requires Printable(t.kids)
    ensures ReadString(WriteString(t)) == Parsed(EMPTY.(kids := t.kids), "") <==> Lossless(t.kids)
  {
    hide Print, Kept, Lossless, ReadText;
    PrintedReadsBack(t);
    KeptIsAll(t.kids);
  }

  /** An attribute of value 1 comes back empty. */
  lemma OneIsLost()
    ensures var k := Hdf("a", Some(""), [Attr("k", "1")], []);
            && WriteString(EMPTY.(kids := [k])) == "a [k]  = \n"
            && ReadString("a [k]  = \n") == Parsed(EMPTY.(kids := [k.(attrs := [Attr("k", "")])]), "")
  {
    var k := Hdf("a", Some(""), [Attr("k", "1")], []);
    OneWritten(k);
    hide ReadText, Print, ReadString;
    PrintedReadsBack(EMPTY.(kids := [k]));
    OneKept(k);
  }

  lemma OneWritten(k: Hdf)
    requires k == Hdf("a", Some(""), [Attr("k", "1")], [])
    ensures Print([k]) == "a [k]  = \n" && Printable([k])
  {
    assert PrintAttrs(k.attrs) == " [k] ";
    assert PrintValue(k) == "a [k]  = \n";
    assert [k][1..] == [] && Print([]) == "";
  }

  lemma OneKept(k: Hdf)
    requires k == Hdf("a", Some(""), [Attr("k", "1")], [])
    ensures Kept([k]) == [k.(attrs := [Attr("k", "")])]
  {
    assert BareAll(k.attrs) == [Attr("k", "")];
    assert [k][1..] == [] && Kept([]) == [] && Strip("") == "";
  }

  // ----- The loops -----

  /** `hdf_dump_cb` in compact form: a loop over the siblings, with a call for the children of each. */
  method Dump(kids: seq<Hdf>) returns (out: string)
    ensures out == Print(kids)
    decreases kids
  {
    hide PrintNode;
    out := "";
    var i := 0;
    while i < |kids|
      invariant 0 <= i <= |kids|
      invariant out + Print(kids[i..]) == Print(kids)
    {
      ghost var before, rest := out, Print(kids[i + 1..]);
      assert kids[i..][0] == kids[i] && kids[i..][1..] == kids[i + 1..];
      var one := DumpNode(kids[i]);
      out := out + one;
      assert out + rest == before + (one + rest);
      i := i + 1;
    }
    assert out + "" == out;
  }

  method DumpNode(k: Hdf) returns (out: string)
    ensures out == PrintNode(k)
    decreases k, 0
  {
    out := "";
    if k.value.Some? {
      var attrs := DumpAttrs(k.attrs);
      out := k.name + attrs + " = " + k.value.value + "\n";
    }
    if k.kids != [] {
      var below := Dump(k.kids);
      out := out + (k.name + " {\n" + below + "}\n");
    }
    assert out + "" == out;
  }

  method DumpAttrs(attrs: seq<Attr>) returns (out: string)
    ensures out == PrintAttrs(attrs)
  {
    if attrs == [] {
      return "";
    }
    var list, i := "", 0;
    while i < |attrs|
      invariant 0 <= i <= |attrs|
      invariant list + PrintAttrList(attrs[i..]) == PrintAttrList(attrs)
    {
      ghost var before, rest := list, attrs[i..];
      var one := PrintAttr(attrs[i]);
      if i + 1 < |attrs| {
        one := one + ", ";
      }
      assert rest[0] == attrs[i] && rest[1..] == attrs[i + 1..];
      assert PrintAttrList(rest) == one + PrintAttrList(rest[1..]);
      list := list + one;
      assert before + (one + PrintAttrList(rest[1..])) == list + PrintAttrList(rest[1..]);
      i := i + 1;
    }
    assert list + "" == list;
    out := " [" + list + "] ";
  }

  /** `_hdf_read_string`: a loop over the lines, with a call for what stands between braces. */
  method Read(t0: Hdf, text0: string) returns (r: Parsed)
    ensures r == ReadText(t0, text0)
    decreases |text0|
  {
    hide Classify, SetAt, OpenAt, At, Replace;
    var t, text := t0, text0;
    while text != ""
      invariant |text| <= |text0| && ReadText(t, text) == ReadText(t0, text0)
      decreases |text|
    {
      var rest := RestOf(text);
      match Classify(LineOf(text)) {
        case Blank =>
        case Close => return Parsed(t, rest);
        case Assign(name, attrs, value) =>
          var done := SetAt(t, PathOf(name), Some(value), attrs);
          if done.None? {
            return Failed;
          }
          t := done.value;
        case Open(name, attrs) =>
          var made := OpenAt(t, PathOf(name), attrs);
          if made.None? {
            return Failed;
          }
          var lower := At(made.value, PathOf(name));
          if lower.None? {
            return Failed;
          }
          var sub := Read(lower.value, rest);
          if !sub.Parsed? {
            return sub;
          }
          t, rest := Replace(made.value, PathOf(name), sub.node), sub.rest;
        case Malformed => return Failed;
        case Unmodelled => return Outside;
      }
      text := rest;
    }
    r := Parsed(t, "");
  }

  /** `parse_attr`: a loop over the attributes. */
  method ParseAttr(s0: string) returns (r: AttrsRead)
    ensures r == ReadAttrs(s0)
  {
    hide Span, ReadAttrValue, SkipComma, SkipSpaces;
    var s, attrs: seq<Attr> := s0, [];
    while s != "" && s[0] != ']'
      invariant var more := ReadAttrs(s);
                ReadAttrs(s0) == if more.BadAttrs? then BadAttrs else AttrsRead(attrs + more.attrs, more.rest)
      decreases |s|
    {
      var n := Span(s, IsAlnum);
      if n == 0 || n == |s| {
        return BadAttrs;
      }
      var v := ReadAttrValue(SkipSpaces(s[n..]));
      if v.BadValue? {
        return BadAttrs;
      }
      ghost var more := ReadAttrs(SkipComma(SkipSpaces(v.rest)));
      ghost var before := attrs;
      attrs := attrs + [Attr(s[..n], v.value)];
      if more.AttrsRead? {
        assert before + ([Attr(s[..n], v.value)] + more.attrs) == attrs + more.attrs;
      }
      s := SkipComma(SkipSpaces(v.rest));
    }
    if s == "" {
      return BadAttrs;
    }
    assert attrs + [] == attrs;
    r := AttrsRead(attrs, s[1..]);
  }
}
