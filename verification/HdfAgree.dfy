/**
 * The trees as values that the reader builds and the path maps that the linked tree is
 * proved against are the same thing: setting a path changes both in the same way.
 */
module HdfAgree {
  import opened Bytes
  import opened HdfView
  import opened HdfDoc
  import opened HdfText

  function Names(kids: seq<Hdf>): (r: seq<string>)
    ensures |r| == |kids| && forall i :: 0 <= i < |kids| ==> r[i] == kids[i].name
  {
    seq(|kids|, i requires 0 <= i < |kids| => kids[i].name)
  }

  function InfoOf(t: Hdf): Info {
    Info(t.value, Names(t.kids))
  }

  function TreeInfo(t: Hdf, q: Path): Option<Info> {
    match At(t, q)
    case None => None
    case Some(n) => Some(InfoOf(n))
  }

  function ViewInfo(m: View, q: Path): Option<Info> {
    if q in m then Some(m[q]) else None
  }

  /** A caller cannot tell the tree from the view. */
  ghost predicate Agree(t: Hdf, m: View) {
    forall q :: TreeInfo(t, q) == ViewInfo(m, q)
  }

  function Listing(kids: seq<string>, name: string): seq<string> {
    if name in kids then kids else kids + [name]
  }

  /** What a caller sees at q after p has been set, by what was there before. */
  function Expected(before: Option<Info>, p: Path, value: Option<string>, q: Path): Option<Info> {
    if !(q <= p) then before
    else
      var base := if before.Some? then before.value else Info(None, []);
      Some(if q == p then base.(value := value) else base.(kids := Listing(base.kids, p[|q|])))
  }

  predicate NoEmpty(p: Path) {
    forall i :: 0 <= i < |p| ==> p[i] != ""
  }

  // ----- Trees -----

  lemma KidNamed(kids: seq<Hdf>, name: string)
    ensures KidIndex(kids, name) < |kids| <==> name in Names(kids)
  {
    var i := KidIndex(kids, name);
    if i < |kids| {
      assert Names(kids)[i] == name;
    }
  }

  lemma SetKeepsName(t: Hdf, p: Path, value: Option<string>, attrs: seq<Attr>)
    requires SetAt(t, p, value, attrs).Some?
    ensures SetAt(t, p, value, attrs).value.name == t.name
  {}

  /** The kid on the way to p is replaced, or put last. */
  lemma PutSelf(kids: seq<Hdf>, k: Hdf)
    ensures var i := KidIndex(kids, k.name);
            var r := PutKid(kids, i, k);
            KidIndex(r, k.name) == i < |r| && r[i] == k
  {
    var i := KidIndex(kids, k.name);
    FirstIndex(PutKid(kids, i, k), k.name, i);
  }

  lemma PutNames(kids: seq<Hdf>, k: Hdf)
    ensures Names(PutKid(kids, KidIndex(kids, k.name), k)) == Listing(Names(kids), k.name)
  {
    KidNamed(kids, k.name);
    hide KidIndex;
  }

  /** The others are where they were. */
  lemma PutOther(kids: seq<Hdf>, k: Hdf, name: string)
    requires name != k.name
    ensures var r := PutKid(kids, KidIndex(kids, k.name), k);
            var j := KidIndex(kids, name);
            if j < |kids| then KidIndex(r, name) == j < |r| && r[j] == kids[j] else KidIndex(r, name) == |r|
  {
    var r := PutKid(kids, KidIndex(kids, k.name), k);
    var j := KidIndex(kids, name);
    if j < |kids| {
      FirstIndex(r, name, j);
    } else {
      assert forall l :: 0 <= l < |r| ==> r[l].name != name;
    }
  }

  lemma FirstIndex(kids: seq<Hdf>, name: string, i: nat)
    requires i < |kids| && kids[i].name == name && forall j :: 0 <= j < i ==> kids[j].name != name
    ensures KidIndex(kids, name) == i
  {}

  /** Looking below a node whose kid k has been put in place. */
  lemma AtPut(t: Hdf, k: Hdf, q: Path)
    requires q != []
    ensures var r := t.(kids := PutKid(t.kids, KidIndex(t.kids, k.name), k));
            At(r, q) == if q[0] == k.name then At(k, q[1..]) else At(t, q)
  {
    if q[0] == k.name {
      PutSelf(t.kids, k);
    } else {
      PutOther(t.kids, k, q[0]);
    }
    hide KidIndex, PutKid;
  }

  /** The kid of that name, or a new one. */
  function KidOrNew(t: Hdf, name: string): Hdf {
    var i := KidIndex(t.kids, name);
    if i < |t.kids| then t.kids[i] else Hdf(name, None, [], [])
  }

  lemma PrefixTail(p: Path, q: Path)
    requires p != [] && q != []
    ensures q <= p <==> q[0] == p[0] && q[1..] <= p[1..]
    ensures q[0] == p[0] ==> (q == p <==> q[1..] == p[1..])
  {
    assert p == [p[0]] + p[1..] && q == [q[0]] + q[1..];
  }

  /** One level down, the same is expected. */
  lemma ExpectedBelow(t: Hdf, p: Path, value: Option<string>, q: Path)
    requires p != [] && q != [] && q[0] == p[0]
    ensures Expected(TreeInfo(t, q), p, value, q) ==
            Expected(TreeInfo(KidOrNew(t, p[0]), q[1..]), p[1..], value, q[1..])
  {
    PrefixTail(p, q);
    hide KidIndex;
  }

  lemma ExpectedHere(t: Hdf, p: Path, value: Option<string>, k: Hdf)
    requires p != [] && k.name == p[0]
    ensures var r := t.(kids := PutKid(t.kids, KidIndex(t.kids, k.name), k));
            TreeInfo(r, []) == Expected(TreeInfo(t, []), p, value, [])
  {
    PutNames(t.kids, k);
    hide KidIndex, PutKid, Names;
  }

  lemma SetBelow(t: Hdf, p: Path, value: Option<string>, attrs: seq<Attr>)
    requires p != [] && p[0] != "" && SetAt(KidOrNew(t, p[0]), p[1..], value, attrs).Some?
    ensures var k := SetAt(KidOrNew(t, p[0]), p[1..], value, attrs).value;
            && k.name == p[0]
            && SetAt(t, p, value, attrs) == Some(t.(kids := PutKid(t.kids, KidIndex(t.kids, k.name), k)))
  {
    SetKeepsName(KidOrNew(t, p[0]), p[1..], value, attrs);
    hide MergeAttrs, PutKid;
  }

  /** Setting p in a tree changes what a caller sees as expected. */
  lemma {:induction false} TreeSet(t: Hdf, p: Path, value: Option<string>, attrs: seq<Attr>, q: Path)
    requires NoEmpty(p)
    ensures SetAt(t, p, value, attrs).Some?
    ensures TreeInfo(SetAt(t, p, value, attrs).value, q) == Expected(TreeInfo(t, q), p, value, q)
    decreases |p|
  {
    if p == [] {
      AtRoot(t, value, attrs, q);
    } else {
      var kid := KidOrNew(t, p[0]);
      TreeSet(kid, p[1..], value, attrs, if q == [] then [] else q[1..]);
      SetBelow(t, p, value, attrs);
      var k := SetAt(kid, p[1..], value, attrs).value;
      hide SetAt, KidIndex, PutKid, KidOrNew;
      if q == [] {
        ExpectedHere(t, p, value, k);
      } else {
        AtPut(t, k, q);
        PrefixTail(p, q);
        if q[0] == p[0] {
          ExpectedBelow(t, p, value, q);
        }
      }
    }
  }

  lemma AtRoot(t: Hdf, value: Option<string>, attrs: seq<Attr>, q: Path)
    ensures TreeInfo(SetAt(t, [], value, attrs).value, q) == Expected(TreeInfo(t, q), [], value, q)
  {
    hide MergeAttrs;
  }

  // ----- Views -----

  /** A name is listed exactly when its path is there. */
  lemma ListedIffThere(m: View, p: Path)
    requires TreeShaped(m) && p != [] && Parent(p) in m
    ensures p in m <==> Last(p) in m[Parent(p)].kids
  {
    if Last(p) in m[Parent(p)].kids {
      var i :| 0 <= i < |m[Parent(p)].kids| && m[Parent(p)].kids[i] == Last(p);
      assert p == Parent(p) + [m[Parent(p)].kids[i]];
    }
  }

  /** What adding p shows at q. */
  function Added(before: Option<Info>, p: Path, q: Path): Option<Info> {
    if !(q <= p) then before
    else
      var base := if before.Some? then before.value else Info(None, []);
      Some(if q == p then base else base.(kids := Listing(base.kids, p[|q|])))
  }

  /** Adding one more node below a path that has been added. */
  lemma AddedOneMore(m: View, r: View, p: Path, q: Path)
    requires TreeShaped(m) && p != [] && Parent(p) in r
    requires ViewInfo(r, q) == Added(ViewInfo(m, q), Parent(p), q)
    requires ViewInfo(r, p) == Added(ViewInfo(m, p), Parent(p), p)
    requires ViewInfo(r, Parent(p)) == Added(ViewInfo(m, Parent(p)), Parent(p), Parent(p))
    ensures ViewInfo(AddNode(r, p), q) == Added(ViewInfo(m, q), p, q)
  {
    PrefixOrSelf(q, p);
    assert !(p <= Parent(p));
    if Parent(p) in m {
      ListedIffThere(m, p);
    }
    hide TreeShaped;
  }

  lemma {:induction false} ViewAdd(m: View, p: Path, q: Path)
    requires TreeShaped(m)
    ensures ViewInfo(AddPath(m, p), q) == Added(ViewInfo(m, q), p, q)
    decreases |p|
  {
    if p == [] {
    } else {
      ViewAdd(m, Parent(p), q);
      ViewAdd(m, Parent(p), p);
      ViewAdd(m, Parent(p), Parent(p));
      AddedOneMore(m, AddPath(m, Parent(p)), p, q);
    }
  }

  /** Setting p in a view changes what a caller sees as expected. */
  lemma ViewSet(m: View, p: Path, value: Option<string>, q: Path)
    requires TreeShaped(m)
    ensures ViewInfo(SetPath(m, p, value), q) == Expected(ViewInfo(m, q), p, value, q)
  {
    ViewAdd(m, p, q);
    hide AddPath, TreeShaped;
  }

  /**
   * The set of the reader, on trees as values, and the set of the linked tree, on views, do
   * the same: a tree and a view that agree still agree afterwards.
   */
  lemma SetsAgree(t: Hdf, m: View, p: Path, value: Option<string>, attrs: seq<Attr>)
    requires Agree(t, m) && TreeShaped(m) && NoEmpty(p)
    ensures SetAt(t, p, value, attrs).Some?
    ensures Agree(SetAt(t, p, value, attrs).value, SetPath(m, p, value))
  {
    TreeSet(t, p, value, attrs, []);
    var r := SetAt(t, p, value, attrs).value;
    hide SetAt, SetPath, TreeShaped, Expected;
    forall q ensures TreeInfo(r, q) == ViewInfo(SetPath(m, p, value), q) {
      TreeSet(t, p, value, attrs, q);
      ViewSet(m, p, value, q);
    }
  }
}
