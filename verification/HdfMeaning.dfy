/**
 * What a written HDF document means: the same as setting, one after the other, the paths
 * that its lines set, each below the blocks it stands in.
 */
module HdfMeaning {
  import opened Bytes
  import opened HdfView
  import opened HdfDoc
  import opened HdfText
  import opened HdfAgree
  import opened HdfGrammar
  import HdfTree

  // ----- Documents -----

  /** A comment or blank line, a line that sets a path, or a block of items below a path. */
  datatype Item =
    | Note(line: string)
    | Put(indent: string, path: Path, gap: string, pad: string, value: string, end: string)
    | Block(indent: string, path: Path, gap: string, junk: string, items: seq<Item>, inner: string, end: string)

  predicate ValidPath(path: Path) {
    path != [] && forall i :: 0 <= i < |path| ==> ValidName(path[i])
  }

  ghost predicate ValidItem(item: Item)
    decreases item, 0
  {
    match item
    case Note(line) => OneLine(line) && NoteLine(line)
    case Put(indent, path, gap, pad, value, end) =>
      ValidPath(path) && Gap(indent) && Gap(gap) && Gap(pad) && Gap(end) && OneLine(value) && NoOuterSpace(value)
    case Block(indent, path, gap, junk, items, inner, end) =>
      && ValidPath(path) && Gap(indent) && Gap(gap) && OneLine(junk) && Gap(inner) && Gap(end)
      && ValidItems(items)
  }

  ghost predicate ValidItems(items: seq<Item>)
    decreases items
  {
    forall i :: 0 <= i < |items| ==> ValidItem(items[i])
  }

  function OpenText(item: Item): string
    requires item.Block? && item.path != []
  {
    item.indent + (Dotted(item.path) + (item.gap + ("{" + item.junk)))
  }

  function CloseText(item: Item): string
    requires item.Block?
  {
    item.inner + ("}" + item.end)
  }

  function PutText(item: Item): string
    requires item.Put? && item.path != []
  {
    item.indent + (Dotted(item.path) + (item.gap + ("=" + (item.pad + item.value + item.end))))
  }

  function ItemText(item: Item): string
    decreases item, 0
  {
    match item
    case Note(line) => line + "\n"
    case Put(_, path, _, _, _, _) => if path == [] then "" else PutText(item) + "\n"
    case Block(_, path, _, _, items, _, _) =>
      if path == [] then "" else OpenText(item) + "\n" + (Text(items) + (CloseText(item) + "\n"))
  }

  function Text(items: seq<Item>): string
    decreases items
  {
    if items == [] then "" else ItemText(items[0]) + Text(items[1..])
  }

  // ----- What a document does -----

  datatype Act = PutAt(path: Path, value: string) | MakeAt(path: Path)

  function ItemActs(p: Path, item: Item): seq<Act>
    decreases item, 0
  {
    match item
    case Note(_) => []
    case Put(_, path, _, _, value, _) => [PutAt(p + path, value)]
    case Block(_, path, _, _, items, _, _) => [MakeAt(p + path)] + Acts(p + path, items)
  }

  /** The sets of a document that stands below p, in order, with full paths. */
  function Acts(p: Path, items: seq<Item>): seq<Act>
    decreases items
  {
    if items == [] then [] else ItemActs(p, items[0]) + Acts(p, items[1..])
  }

  /** A set makes the path and gives it a value; a block only makes it. */
  function DoView(m: View, act: Act): (r: View)
    requires [] in m
    ensures [] in r
  {
    match act
    case PutAt(path, value) => SetPath(m, path, Some(value))
    case MakeAt(path) => AddPath(m, path)
  }

  function DoViews(m: View, acts: seq<Act>): View
    requires [] in m
    decreases |acts|
  {
    if acts == [] then m else DoViews(DoView(m, acts[0]), acts[1..])
  }

  function Do(t: Hdf, act: Act): Hdf {
    var r :=
      match act
      case PutAt(path, value) => SetAt(t, path, Some(value), [])
      case MakeAt(path) => OpenAt(t, path, []);
    if r.Some? then r.value else t
  }

  function DoAll(t: Hdf, acts: seq<Act>): Hdf
    decreases |acts|
  {
    if acts == [] then t else DoAll(Do(t, acts[0]), acts[1..])
  }

  lemma {:induction false} DoAllJoins(t: Hdf, a: seq<Act>, b: seq<Act>)
    ensures DoAll(t, a + b) == DoAll(DoAll(t, a), b)
    decreases |a|
  {
    if a == [] {
      assert a + b == b;
    } else {
      assert (a + b)[1..] == a[1..] + b;
      DoAllJoins(Do(t, a[0]), a[1..], b);
    }
  }

  // ----- Paths below paths -----

  lemma {:induction false} AtBelow(t: Hdf, p: Path, q: Path)
    ensures At(t, p + q) == match At(t, p) case None => None case Some(n) => At(n, q)
    decreases |p|
  {
    if p == [] {
      assert p + q == q;
    } else {
      assert (p + q)[1..] == p[1..] + q;
      var i := KidIndex(t.kids, p[0]);
      if i < |t.kids| {
        AtBelow(t.kids[i], p[1..], q);
      }
    }
  }

  lemma {:induction false} SetBelowPath(t: Hdf, p: Path, q: Path, value: Option<string>, attrs: seq<Attr>)
    requires NoEmpty(p) && At(t, p).Some?
    ensures SetAt(t, p + q, value, attrs) ==
            match SetAt(At(t, p).value, q, value, attrs) case None => None case Some(s) => Some(Replace(t, p, s))
    decreases |p|
  {
    hide MergeAttrs;
    if p == [] {
      assert p + q == q;
    } else {
      assert (p + q)[1..] == p[1..] + q;
      SetBelowPath(t.kids[KidIndex(t.kids, p[0])], p[1..], q, value, attrs);
    }
  }

  lemma {:induction false} ReplaceBelow(t: Hdf, p: Path, q: Path, s: Hdf)
    requires At(t, p).Some?
    ensures Replace(t, p + q, s) == Replace(t, p, Replace(At(t, p).value, q, s))
    decreases |p|
  {
    if p == [] {
      assert p + q == q;
    } else {
      assert (p + q)[1..] == p[1..] + q;
      ReplaceBelow(t.kids[KidIndex(t.kids, p[0])], p[1..], q, s);
    }
  }

  lemma {:induction false} ReplaceAgain(t: Hdf, p: Path, a: Hdf, b: Hdf)
    requires At(t, p).Some? && a.name == At(t, p).value.name
    ensures At(Replace(t, p, a), p) == Some(a) && Replace(Replace(t, p, a), p, b) == Replace(t, p, b)
    ensures Replace(t, p, a).name == t.name
    decreases |p|
  {
    if p == [] {
    } else {
      var i := KidIndex(t.kids, p[0]);
      ReplaceAgain(t.kids[i], p[1..], a, b);
      var k := Replace(t.kids[i], p[1..], a);
      FirstIndex(t.kids[i := k], p[0], i);
      assert t.kids[i := k][i := Replace(k, p[1..], b)] == t.kids[i := Replace(k, p[1..], b)];
    }
  }

  lemma {:induction false} ReplaceSame(t: Hdf, p: Path)
    requires At(t, p).Some?
    ensures Replace(t, p, At(t, p).value) == t
    decreases |p|
  {
    if p == [] {
    } else {
      var i := KidIndex(t.kids, p[0]);
      ReplaceSame(t.kids[i], p[1..]);
      assert t.kids[i := t.kids[i]] == t.kids;
    }
  }

  // ----- One document on one tree -----

  function ItemTree(t: Hdf, item: Item): Hdf
    decreases item, 0
  {
    match item
    case Note(_) => t
    case Put(_, path, _, _, value, _) => Do(t, PutAt(path, value))
    case Block(_, path, _, _, items, _, _) =>
      var t' := Do(t, MakeAt(path));
      match At(t', path)
      case None => t'
      case Some(lower) => Replace(t', path, DocTree(lower, items))
  }

  function DocTree(t: Hdf, items: seq<Item>): Hdf
    decreases items
  {
    if items == [] then t else DocTree(ItemTree(t, items[0]), items[1..])
  }

  lemma PathIsFull(path: Path)
    requires ValidPath(path)
    ensures NoEmpty(path) && NoDots(path)
  {}

  lemma {:induction false} DottedIsName(path: Path)
    requires ValidPath(path)
    ensures Dotted(path) != "" && AllNameChars(Dotted(path)) && PathOf(Dotted(path)) == path
    decreases |path|
  {
    PathIsFull(path);
    SplitOfDotted(path);
    DottedChars(path);
    hide Split, Dotted;
  }

  lemma {:induction false} DottedChars(path: Path)
    requires ValidPath(path)
    ensures Dotted(path) != "" && AllNameChars(Dotted(path))
  {
    if |path| == 1 {
    } else {
      DottedChars(path[1..]);
      assert ValidName(path[0]);
    }
  }

  lemma DoneByAct(t: Hdf, act: Act)
    requires NoEmpty(act.path)
    ensures act.PutAt? ==> SetAt(t, act.path, Some(act.value), []) == Some(Do(t, act))
    ensures act.MakeAt? ==> OpenAt(t, act.path, []) == Some(Do(t, act)) && At(Do(t, act), act.path).Some?
    ensures Do(t, act).name == t.name
  {
    var here := At(t, act.path);
    var value := if act.PutAt? then Some(act.value) else if here.Some? then here.value.value else None;
    hide SetAt;
    TreeSet(t, act.path, value, [], act.path);
    SetKeepsName(t, act.path, value, []);
  }

  lemma PutReads(t: Hdf, item: Item, tail: string)
    requires item.Put? && ValidItem(item)
    ensures ReadText(t, ItemText(item) + tail) == ReadText(ItemTree(t, item), tail)
  {
    PathIsFull(item.path);
    DottedIsName(item.path);
    SetLine(item.indent, Dotted(item.path), item.gap, item.pad, item.value, item.end);
    DoneByAct(t, PutAt(item.path, item.value));
    PutIsOneLine(item);
    hide Classify, ReadText, Dotted, PathOf, SetAt, Do;
    StepAssign(t, PutText(item), tail, Dotted(item.path), [], item.value, ItemTree(t, item));
  }

  lemma {:induction false} NamesAreOneLine(name: string)
    requires AllNameChars(name)
    ensures OneLine(name)
  {}

  lemma PutIsOneLine(item: Item)
    requires item.Put? && ValidItem(item)
    ensures OneLine(PutText(item))
  {
    DottedIsName(item.path);
    NamesAreOneLine(Dotted(item.path));
    hide Dotted, AllNameChars;
  }

  lemma BlockIsTwoLines(item: Item)
    requires item.Block? && ValidItem(item)
    ensures OneLine(OpenText(item)) && OneLine(CloseText(item))
  {
    DottedIsName(item.path);
    NamesAreOneLine(Dotted(item.path));
    hide Dotted, AllNameChars;
  }

  lemma {:induction false} BlockReads(t: Hdf, item: Item, tail: string)
    requires item.Block? && ValidItem(item)
    ensures ReadText(t, ItemText(item) + tail) == ReadText(ItemTree(t, item), tail)
    decreases item, 0
  {
    hide *;
    BlockLines(item);
    DoneByAct(t, MakeAt(item.path));
    BlockParts(t, item);
    var t' := Do(t, MakeAt(item.path));
    var lower := At(t', item.path).value;
    var inside := CloseText(item) + "\n" + tail;
    DocReads(lower, item.items, inside);
    CloseStep(DocTree(lower, item.items), CloseText(item), tail);
    BlockText(OpenText(item), Text(item.items), CloseText(item), tail);
    StepOpen(t, OpenText(item), Text(item.items) + inside, Dotted(item.path), [], t', lower,
             Parsed(DocTree(lower, item.items), tail));
  }

  lemma BlockLines(item: Item)
    requires item.Block? && ValidItem(item)
    ensures item.path != [] && NoEmpty(item.path) && PathOf(Dotted(item.path)) == item.path && ValidItems(item.items)
    ensures Classify(OpenText(item)) == Open(Dotted(item.path), []) && Classify(CloseText(item)) == Close
    ensures OneLine(OpenText(item)) && OneLine(CloseText(item))
  {
    PathIsFull(item.path);
    DottedIsName(item.path);
    OpenLine(item.indent, Dotted(item.path), item.gap, item.junk);
    CloseLine(item.inner, item.end);
    BlockIsTwoLines(item);
    hide Classify, Dotted, PathOf, OneLine, ValidItems;
  }

  lemma BlockParts(t: Hdf, item: Item)
    requires item.Block? && item.path != [] && At(Do(t, MakeAt(item.path)), item.path).Some?
    ensures ItemText(item) == OpenText(item) + "\n" + (Text(item.items) + (CloseText(item) + "\n"))
    ensures var t' := Do(t, MakeAt(item.path));
            ItemTree(t, item) == Replace(t', item.path, DocTree(At(t', item.path).value, item.items))
  {}

  lemma BlockText(o: string, x: string, c: string, tail: string)
    ensures o + "\n" + (x + (c + "\n")) + tail == o + "\n" + (x + (c + "\n" + tail))
  {}

  lemma CloseStep(t: Hdf, line: string, tail: string)
    requires OneLine(line) && Classify(line) == Close
    ensures ReadText(t, line + "\n" + tail) == Parsed(t, tail)
  {
    hide Classify, LineOf, RestOf;
    FirstLine(line, tail);
  }

  lemma NoteReads(t: Hdf, line: string, tail: string)
    requires OneLine(line) && NoteLine(line)
    ensures ReadText(t, line + "\n" + tail) == ReadText(t, tail)
  {
    hide ReadText, LineOf, RestOf, NoteLine;
    FirstLine(line, tail);
    NoteIsSkipped(t, line + "\n" + tail);
  }

  /** Reading a document does what its items do, whatever follows it. */
  lemma {:induction false} DocReads(t: Hdf, items: seq<Item>, tail: string)
    requires ValidItems(items)
    ensures ReadText(t, Text(items) + tail) == ReadText(DocTree(t, items), tail)
    decreases items
  {
    if items == [] {
      assert Text(items) + tail == tail;
    } else {
      var item, more := items[0], items[1..];
      assert ValidItem(item) && ValidItems(more);
      hide ReadText, ValidItem, ValidItems;
      ItemReads(t, item, Text(more) + tail);
      DocReads(ItemTree(t, item), more, tail);
      hide ItemText, ItemTree;
      assert Text(items) + tail == ItemText(item) + (Text(more) + tail);
    }
  }

  lemma {:induction false} ItemReads(t: Hdf, item: Item, tail: string)
    requires ValidItem(item)
    ensures ReadText(t, ItemText(item) + tail) == ReadText(ItemTree(t, item), tail)
    decreases item, 1
  {
    hide ReadText, NoteLine;
    match item {
      case Note(line) => NoteReads(t, line, tail);
      case Put(_, _, _, _, _, _) => PutReads(t, item, tail);
      case Block(_, _, _, _, _, _, _) => BlockReads(t, item, tail);
    }
  }

  // ----- Full paths -----

  lemma {:induction false} NameKept(t: Hdf, items: seq<Item>)
    requires ValidItems(items)
    ensures DocTree(t, items).name == t.name
    decreases items
  {
    if items == [] {
    } else {
      assert ValidItem(items[0]) && ValidItems(items[1..]);
      hide ValidItem, ValidItems;
      ItemNameKept(t, items[0]);
      NameKept(ItemTree(t, items[0]), items[1..]);
    }
  }

  lemma {:induction false} ItemNameKept(t: Hdf, item: Item)
    requires ValidItem(item)
    ensures ItemTree(t, item).name == t.name
    decreases item, 0
  {
    match item {
      case Note(_) =>
      case Put(_, path, _, _, value, _) =>
        PathIsFull(path);
        DoneByAct(t, PutAt(path, value));
      case Block(_, path, _, _, items, _, _) =>
        PathIsFull(path);
        DoneByAct(t, MakeAt(path));
        var t' := Do(t, MakeAt(path));
        var lower := At(t', path).value;
        NameKept(lower, items);
        ReplaceAgain(t', path, DocTree(lower, items), lower);
    }
  }

  /** Inside a block, the acts with full paths do to the whole tree what the items do to the node of the block. */
  lemma {:induction false} DocBelow(t: Hdf, p: Path, items: seq<Item>)
    requires ValidItems(items) && NoEmpty(p) && At(t, p).Some?
    ensures DoAll(t, Acts(p, items)) == Replace(t, p, DocTree(At(t, p).value, items))
    decreases items
  {
    var n := At(t, p).value;
    if items == [] {
      ReplaceSame(t, p);
    } else {
      var item, more := items[0], items[1..];
      assert ValidItem(item) && ValidItems(more);
      ItemBelow(t, p, item);
      ItemNameKept(n, item);
      var s := ItemTree(n, item);
      var t' := Replace(t, p, s);
      ReplaceAgain(t, p, s, DocTree(s, more));
      DocBelow(t', p, more);
      hide ValidItem, ValidItems, ItemTree, ItemActs, Replace, At;
      DoAllJoins(t, ItemActs(p, item), Acts(p, more));
    }
  }

  lemma {:induction false} ItemBelow(t: Hdf, p: Path, item: Item)
    requires ValidItem(item) && NoEmpty(p) && At(t, p).Some?
    ensures DoAll(t, ItemActs(p, item)) == Replace(t, p, ItemTree(At(t, p).value, item))
    decreases item, 1
  {
    var n := At(t, p).value;
    match item {
      case Note(_) => ReplaceSame(t, p);
      case Put(_, path, _, _, value, _) =>
        PathIsFull(path);
        ActBelow(t, p, PutAt(path, value));
        DoOne(t, PutAt(p + path, value));
      case Block(_, path, _, _, items, _, _) => BlockBelow(t, p, item);
    }
  }

  lemma DoOne(t: Hdf, act: Act)
    ensures DoAll(t, [act]) == Do(t, act)
  {
    assert [act][1..] == [];
  }

  function Lowered(p: Path, act: Act): Act {
    match act
    case PutAt(path, value) => PutAt(p + path, value)
    case MakeAt(path) => MakeAt(p + path)
  }

  lemma ActBelow(t: Hdf, p: Path, act: Act)
    requires NoEmpty(p) && NoEmpty(act.path) && At(t, p).Some?
    ensures Do(t, Lowered(p, act)) == Replace(t, p, Do(At(t, p).value, act))
  {
    var n := At(t, p).value;
    DoneByAct(n, act);
    AtBelow(t, p, act.path);
    var here := At(n, act.path);
    var value := if act.PutAt? then Some(act.value) else if here.Some? then here.value.value else None;
    SetBelowPath(t, p, act.path, value, []);
    hide SetAt, At, Replace;
  }

  lemma {:induction false} BlockBelow(t: Hdf, p: Path, item: Item)
    requires item.Block? && ValidItem(item) && NoEmpty(p) && At(t, p).Some?
    ensures DoAll(t, ItemActs(p, item)) == Replace(t, p, ItemTree(At(t, p).value, item))
    decreases item, 0
  {
    var n, q := At(t, p).value, item.path;
    PathIsFull(q);
    var made := MakeAt(q);
    ActBelow(t, p, made);
    DoneByAct(n, made);
    var n' := Do(n, made);
    var lower := At(n', q).value;
    var t' := Replace(t, p, n');
    ReplaceAgain(t, p, n', Replace(n', q, DocTree(lower, item.items)));
    AtBelow(t', p, q);
    assert NoEmpty(p + q);
    DocBelow(t', p + q, item.items);
    ReplaceBelow(t', p, q, DocTree(lower, item.items));
    hide Replace, At, Do, SetAt, DocTree, Acts;
    DoAllJoins(t, [MakeAt(p + q)], Acts(p + q, item.items));
    DoOne(t, MakeAt(p + q));
  }

  // ----- Trees and views -----

  lemma AddNodeShaped(m: View, p: Path)
    requires TreeShaped(m) && p != [] && Parent(p) in m && Last(p) != ""
    ensures TreeShaped(AddNode(m, p))
  {
    if p !in m {
      var up := m[Parent(p)].kids;
      ListedIffThere(m, p);
      AddNodeLists(m, p);
      AddNodeListed(m, p);
      assert Distinct(up);
      hide Listed, ListsPaths, Distinct;
      DistinctMore(up, Last(p));
    }
  }

  lemma DistinctMore(names: seq<string>, name: string)
    requires Distinct(names) && name !in names
    ensures Distinct(names + [name])
  {}

  lemma AddNodeListed(m: View, p: Path)
    requires Listed(m) && p != [] && Parent(p) in m && p !in m
    ensures Listed(AddNode(m, p))
  {}

  lemma AddNodeLists(m: View, p: Path)
    requires ListsPaths(m) && p != [] && Parent(p) in m && p !in m && Last(p) != ""
    ensures ListsPaths(AddNode(m, p))
  {
    var r := AddNode(m, p);
    assert Parent(p) + [Last(p)] == p;
    forall q, i | q in r && 0 <= i < |r[q].kids| ensures r[q].kids[i] != "" && q + [r[q].kids[i]] in r {
      if q in m && i < |m[q].kids| {
        assert m[q].kids[i] != "" && q + [m[q].kids[i]] in m;
      }
    }
  }

  lemma {:induction false} AddPathShaped(m: View, p: Path)
    requires TreeShaped(m) && NoEmpty(p)
    ensures TreeShaped(AddPath(m, p))
    decreases |p|
  {
    if p == [] {
    } else {
      AddPathShaped(m, Parent(p));
      hide TreeShaped;
      AddNodeShaped(AddPath(m, Parent(p)), p);
    }
  }

  lemma ValueShaped(m: View, p: Path, value: Option<string>)
    requires TreeShaped(m) && p in m
    ensures TreeShaped(m[p := m[p].(value := value)])
  {
    var r := m[p := m[p].(value := value)];
    forall q, i | q in r && 0 <= i < |r[q].kids| ensures r[q].kids[i] != "" && q + [r[q].kids[i]] in r {
      assert m[q].kids[i] != "" && q + [m[q].kids[i]] in m;
    }
  }

  lemma SetShaped(m: View, p: Path, value: Option<string>)
    requires TreeShaped(m) && NoEmpty(p)
    ensures TreeShaped(SetPath(m, p, value))
  {
    AddPathShaped(m, p);
    ValueShaped(AddPath(m, p), p, value);
    hide TreeShaped, AddPath;
  }

  /** Making a path is setting it to the value it has. */
  lemma MakeIsSet(m: View, p: Path, value: Option<string>)
    requires [] in m && value == if p in m then m[p].value else None
    ensures AddPath(m, p) == SetPath(m, p, value)
  {
    AddPathLaw(m, p, p);
    hide AddPath;
    var r := AddPath(m, p);
    assert r[p := r[p].(value := value)] == r;
  }

  /** One act does the same to a tree and to a view that agrees with it. */
  lemma ActAgrees(t: Hdf, m: View, act: Act)
    requires Agree(t, m) && TreeShaped(m) && NoEmpty(act.path)
    ensures Agree(Do(t, act), DoView(m, act)) && TreeShaped(DoView(m, act))
  {
    var p := act.path;
    var value := if act.PutAt? then Some(act.value) else if At(t, p).Some? then At(t, p).value.value else None;
    assert TreeInfo(t, p) == ViewInfo(m, p);
    hide TreeShaped, AddPath, SetPath, SetAt, Agree, At, Names;
    DoneByAct(t, act);
    SetShaped(m, p, value);
    SetsAgree(t, m, p, value, []);
    if act.MakeAt? {
      HasRoot(m);
      MakeIsSet(m, p, value);
    }
  }

  predicate FullPaths(acts: seq<Act>) {
    forall i :: 0 <= i < |acts| ==> NoEmpty(acts[i].path)
  }

  lemma {:induction false} ActsAgree(t: Hdf, m: View, acts: seq<Act>)
    requires Agree(t, m) && TreeShaped(m) && FullPaths(acts)
    ensures Agree(DoAll(t, acts), DoViews(m, acts)) && TreeShaped(DoViews(m, acts))
    decreases |acts|
  {
    hide Agree, TreeShaped, Do, DoView;
    if acts == [] {
    } else {
      HasRoot(m);
      ActAgrees(t, m, acts[0]);
      ActsAgree(Do(t, acts[0]), DoView(m, acts[0]), acts[1..]);
    }
  }

  lemma HasRoot(m: View)
    requires TreeShaped(m)
    ensures [] in m
  {}

  lemma {:induction false} ActsAreFull(p: Path, items: seq<Item>)
    requires ValidItems(items) && NoEmpty(p)
    ensures FullPaths(Acts(p, items))
    decreases items
  {
    if items == [] {
    } else {
      assert ValidItem(items[0]) && ValidItems(items[1..]);
      hide ValidItem, ValidItems, ItemActs;
      ItemActsAreFull(p, items[0]);
      ActsAreFull(p, items[1..]);
    }
  }

  lemma {:induction false} ItemActsAreFull(p: Path, item: Item)
    requires ValidItem(item) && NoEmpty(p)
    ensures FullPaths(ItemActs(p, item))
    decreases item, 0
  {
    if !item.Note? {
      PathIsFull(item.path);
      assert NoEmpty(p + item.path);
      if item.Block? {
        ActsAreFull(p + item.path, item.items);
      }
    }
  }

  /**
   * Reading a document, with its indentation, comments, dotted paths and nested blocks, into
   * a tree leaves what setting the same full paths in the same order leaves in the path map.
   */
  lemma DocumentMeans(t: Hdf, m: View, items: seq<Item>)
    requires Agree(t, m) && TreeShaped(m) && ValidItems(items)
    ensures [] in m
    ensures var r := ReadText(t, Text(items));
            r.Parsed? && r.rest == "" && Agree(r.node, DoViews(m, Acts([], items)))
  {
    HasRoot(m);
    DocReads(t, items, "");
    assert Text(items) + "" == Text(items);
    assert At(t, []) == Some(t);
    DocBelow(t, [], items);
    ActsAreFull([], items);
    hide Agree, TreeShaped, ValidItems, Text, Acts, DoAll, DoViews, DocTree;
    ActsAgree(t, m, Acts([], items));
  }

  // ----- Lines that only set -----

  predicate OnlySets(items: seq<Item>) {
    forall i :: 0 <= i < |items| ==> !items[i].Block? && (items[i].Put? ==> ValidPath(items[i].path))
  }

  /** The calls of `hdf_set_value` that a document without blocks stands for. */
  function Calls(items: seq<Item>): seq<Op>
    requires OnlySets(items)
  {
    if items == [] then []
    else
      (if items[0].Put? then [SetValue(Dotted(items[0].path), Some(items[0].value))] else []) + Calls(items[1..])
  }

  lemma {:induction false} ApplyFirst(m: View, op: Op, ops: seq<Op>)
    requires [] in m
    ensures HdfTree.ApplyAll(m, [op] + ops) == HdfTree.ApplyAll(Apply(m, op), ops)
    decreases |ops|
  {
    hide Apply;
    if ops == [] {
      assert [op] + ops == [op] && [op][..0] == [];
    } else {
      var init := ops[..|ops| - 1];
      ApplyFirst(m, op, init);
      assert ([op] + ops)[..|ops|] == [op] + init;
    }
  }

  lemma {:induction false} SetsAreCalls(m: View, items: seq<Item>)
    requires [] in m && OnlySets(items)
    ensures DoViews(m, Acts([], items)) == HdfTree.ApplyAll(m, Calls(items))
    decreases |items|
  {
    hide Apply, SetPath, AddPath, Dotted;
    if items == [] {
    } else {
      var item, more := items[0], items[1..];
      if item.Put? {
        var act, op := PutAt(item.path, item.value), SetValue(Dotted(item.path), Some(item.value));
        PutIsCall(m, item.path, item.value);
        assert [] + item.path == item.path;
        assert Calls(items) == [op] + Calls(more);
        assert Acts([], items) == [act] + Acts([], more);
        SetsAreCalls(DoView(m, act), more);
        hide Acts, Calls, DoView, DoViews, HdfTree.ApplyAll;
        ApplyFirst(m, op, Calls(more));
        DoFirst(m, act, Acts([], more));
      } else {
        assert Acts([], items) == Acts([], more) && Calls(items) == Calls(more);
        SetsAreCalls(m, more);
      }
    }
  }

  lemma DoFirst(m: View, act: Act, acts: seq<Act>)
    requires [] in m
    ensures DoViews(m, [act] + acts) == DoViews(DoView(m, act), acts)
  {
    assert ([act] + acts)[1..] == acts;
  }

  lemma PutIsCall(m: View, path: Path, value: string)
    requires [] in m && ValidPath(path)
    ensures Apply(m, SetValue(Dotted(path), Some(value))) == DoView(m, PutAt(path, value))
  {
    PathIsFull(path);
    ApplyByName(m, path, Some(value));
    hide Apply, Dotted, SetPath, AddPath;
  }

  /** A list of lines that set dotted paths is read as the same calls of `hdf_set_value` leave it. */
  lemma LinesAreCalls(t: Hdf, m: View, items: seq<Item>)
    requires Agree(t, m) && TreeShaped(m) && ValidItems(items) && OnlySets(items)
    ensures [] in m
    ensures var r := ReadText(t, Text(items));
            r.Parsed? && r.rest == "" && Agree(r.node, HdfTree.ApplyAll(m, Calls(items)))
  {
    hide *;
    HasRoot(m);
    DocumentMeans(t, m, items);
    SetsAreCalls(m, items);
  }
}
