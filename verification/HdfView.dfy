/**
 * What an HDF tree means: a map from paths to values, with the order of the children at
 * every level. The linked tree of neo_hdf.c is proved against it.
 */
module HdfView {
  import opened Bytes

  type Path = seq<string>

  /** A node as a caller can see it. */
  datatype Info = Info(value: Option<string>, kids: seq<string>)

  type View = map<Path, Info>

  function Parent(p: Path): Path
    requires p != []
  {
    p[..|p| - 1]
  }

  function Last(p: Path): string
    requires p != []
  {
    p[|p| - 1]
  }

  /** Every path but the root's is listed by its parent. */
  predicate Listed(m: View) {
    forall p :: p in m && p != [] ==> Parent(p) in m && Last(p) in m[Parent(p)].kids
  }

  /** Every name listed is a path. */
  predicate ListsPaths(m: View) {
    forall p, i :: p in m && 0 <= i < |m[p].kids| ==> m[p].kids[i] != "" && p + [m[p].kids[i]] in m
  }

  /** A path is there exactly when its parent lists it, once, by a name that is not empty. */
  predicate TreeShaped(m: View) {
    [] in m && Listed(m) && ListsPaths(m) && forall p :: p in m ==> Distinct(m[p].kids)
  }

  predicate Distinct(names: seq<string>) {
    forall i, j :: 0 <= i < j < |names| ==> names[i] != names[j]
  }

  /** Make a node without a value at the end of its parent's children, unless it is there. */
  function AddNode(m: View, p: Path): View
    requires p != [] && Parent(p) in m
  {
    if p in m then m
    else
      var up := m[Parent(p)];
      m[Parent(p) := up.(kids := up.kids + [Last(p)])][p := Info(None, [])]
  }

  /** One step on the way to a path: make the node, and give it a value if it is the last. */
  function SetNode(m: View, p: Path, last: bool, value: Option<string>): View
    requires p != [] && Parent(p) in m
  {
    var r := AddNode(m, p);
    if last then r[p := r[p].(value := value)] else r
  }

  lemma SetNodeIs(m: View, p: Path, last: bool, value: Option<string>)
    requires p != [] && Parent(p) in m
    ensures p in m ==> SetNode(m, p, last, value) == if last then m[p := m[p].(value := value)] else m
    ensures p !in m ==> SetNode(m, p, last, value) == AddNode(m, p)[p := Info(if last then value else None, [])]
  {}

  /** Make all the nodes on the way to p. */
  function AddPath(m: View, p: Path): (r: View)
    requires [] in m
    ensures p in r && [] in r
  {
    if p == [] then m else AddNode(AddPath(m, Parent(p)), p)
  }

  function SetPath(m: View, p: Path, value: Option<string>): View
    requires [] in m
  {
    var r := AddPath(m, p);
    r[p := r[p].(value := value)]
  }

  function Without(kids: seq<string>, name: string): seq<string> {
    if kids == [] then []
    else if kids[0] == name then kids[1..]
    else [kids[0]] + Without(kids[1..], name)
  }

  /** The one name is gone, and the others are in their old order. */
  lemma {:induction false} WithoutAt(names: seq<string>, i: nat)
    requires i < |names| && Distinct(names)
    ensures Without(names, names[i]) == names[..i] + names[i + 1..]
  {
    if i == 0 {
    } else {
      assert names[1..][i - 1] == names[i] && names[0] != names[i];
      WithoutAt(names[1..], i - 1);
      assert names[..i] == [names[0]] + names[1..][..i - 1];
      assert names[i + 1..] == names[1..][i..];
    }
  }

  /** Drop p and everything below it. */
  function RemovePath(m: View, p: Path): View
    requires p != []
  {
    if p !in m || Parent(p) !in m then m
    else
      var up := m[Parent(p)];
      map q | q in m && !(p <= q) ::
        if q == Parent(p) then up.(kids := Without(up.kids, Last(p))) else m[q]
  }

  // ----- Dotted names and operations by name -----

  /** The components of a dotted name. */
  function Split(name: string): (p: Path)
    ensures p != []
  {
    if name == "" then [""]
    else
      var rest := Split(name[1..]);
      if name[0] == '.' then [""] + rest else [[name[0]] + rest[0]] + rest[1..]
  }

  predicate NoDot(name: string) {
    forall i :: 0 <= i < |name| ==> name[i] != '.'
  }

  predicate NoDots(path: Path) {
    forall i :: 0 <= i < |path| ==> NoDot(path[i])
  }

  /** The components of a path with dots between them. */
  function Dotted(path: Path): string
    requires path != []
  {
    if |path| == 1 then path[0] else path[0] + "." + Dotted(path[1..])
  }

  /** A name is its components with dots between them, and no component has a dot. */
  lemma {:induction false} SplitIsInverse(name: string)
    ensures Dotted(Split(name)) == name && NoDots(Split(name))
  {
    if name == "" {
    } else {
      var rest := Split(name[1..]);
      SplitIsInverse(name[1..]);
      assert name == [name[0]] + name[1..];
      if name[0] == '.' {
        assert ([""] + rest)[1..] == rest;
      } else {
        var first := [name[0]] + rest[0];
        var path := [first] + rest[1..];
        assert path[1..] == rest[1..];
        hide Split;
        assert NoDot(first);
        DottedFirst(name[0], rest);
      }
    }
  }

  lemma DottedFirst(c: char, path: Path)
    requires path != []
    ensures Dotted([[c] + path[0]] + path[1..]) == [c] + Dotted(path)
  {
    var longer := [[c] + path[0]] + path[1..];
    assert longer[1..] == path[1..];
    if |path| > 1 {
      var rest := "." + Dotted(path[1..]);
      assert [c] + path[0] + "." + Dotted(path[1..]) == [c] + (path[0] + "." + Dotted(path[1..]));
    }
  }

  /** The components of a dotted path are those of the path. */
  lemma {:induction false} SplitOfDotted(path: Path)
    requires path != [] && NoDots(path)
    ensures Split(Dotted(path)) == path
  {
    if |path| == 1 {
      SplitPlain(path[0]);
      assert [path[0]] == path;
    } else {
      SplitOfDotted(path[1..]);
      SplitAtDot(path[0], Dotted(path[1..]));
      assert [path[0]] + path[1..] == path;
      assert path[0] + "." + Dotted(path[1..]) == path[0] + ("." + Dotted(path[1..]));
    }
  }

  lemma {:induction false} SplitPlain(name: string)
    requires NoDot(name)
    ensures Split(name) == [name]
  {
    if name == "" {
    } else {
      SplitPlain(name[1..]);
      assert [name[0]] + name[1..] == name;
    }
  }

  lemma {:induction false} SplitAtDot(name: string, rest: string)
    requires NoDot(name)
    ensures Split(name + ("." + rest)) == [name] + Split(rest)
  {
    var s := name + ("." + rest);
    if name == "" {
      assert s[1..] == rest;
    } else {
      SplitAtDot(name[1..], rest);
      assert s[1..] == name[1..] + ("." + rest);
      assert [name[0]] + name[1..] == name;
    }
  }

  /** Where a path has its first empty component. */
  function FirstEmpty(path: Path): (i: nat)
    ensures i <= |path| && (i < |path| ==> path[i] == "") && forall j :: 0 <= j < i ==> path[j] != ""
  {
    if path == [] || path[0] == "" then 0 else 1 + FirstEmpty(path[1..])
  }

  datatype Op = SetValue(name: string, value: Option<string>) | RemoveTree(name: string)

  function Apply(m: View, op: Op): (r: View)
    requires [] in m
    ensures [] in r
  {
    match op
    case RemoveTree(name) => RemovePath(m, Split(name))
    case SetValue(name, value) =>
      if name == "" then m[[] := m[[]].(value := value)]
      else
        var path := Split(name);
        var n := FirstEmpty(path);
        if n == |path| then SetPath(m, path, value) else AddPath(m, path[..n])
  }

  /** Operations by name are operations on the path whose components the name joins with dots. */
  lemma ApplyByName(m: View, path: Path, value: Option<string>)
    requires [] in m && path != [] && NoDots(path)
    ensures path != [""] ==>
              Apply(m, SetValue(Dotted(path), value)) ==
              (if forall i :: 0 <= i < |path| ==> path[i] != "" then SetPath(m, path, value)
               else AddPath(m, path[..FirstEmpty(path)]))
    ensures Apply(m, SetValue("", value)) == m[[] := m[[]].(value := value)]
    ensures Apply(m, RemoveTree(Dotted(path))) == RemovePath(m, path)
  {
    SplitOfDotted(path);
    if Dotted(path) == "" {
      assert Split("") == [""];
    }
    hide Split, Dotted, SetPath, AddPath, RemovePath;
  }

  // ----- What callers may rely on -----

  /** Setting a path makes it and its ancestors, sets its value, and touches no other value. */
  lemma {:induction false} AddPathLaw(m: View, p: Path, q: Path)
    requires [] in m
    ensures var r := AddPath(m, p);
            && (q in r <==> q in m || q <= p)
            && (q in m ==> r[q].value == m[q].value && m[q].kids <= r[q].kids)
            && (q in r && q !in m ==> r[q].value == None)
            && (q in m && !(q < p) ==> r[q] == m[q])
    decreases |p|
  {
    if p == [] {
    } else {
      AddPathLaw(m, Parent(p), q);
      AddPathLaw(m, Parent(p), p);
      AddPathLaw(m, Parent(p), Parent(p));
      PrefixOrSelf(q, p);
    }
  }

  lemma PrefixOrSelf(q: Path, p: Path)
    requires p != []
    ensures q <= p <==> q == p || q <= Parent(p)
  {
    if q <= p && q != p {
      assert q == p[..|q|] == Parent(p)[..|q|];
    }
    if q <= Parent(p) {
      assert q == Parent(p)[..|q|] == p[..|q|];
    }
  }

  /** After a removal a path is there exactly when it was and is not below the removed one. */
  lemma {:induction false} RemovePathLaw(m: View, p: Path, q: Path)
    requires TreeShaped(m) && p != []
    ensures var r := RemovePath(m, p);
            && (q in r <==> q in m && !(p <= q))
            && (q in r ==> r[q].value == m[q].value)
            && (q in r && q != Parent(p) ==> r[q] == m[q])
  {
    if p !in m && q in m && p <= q {
      AncestorsAreThere(m, q, p);
    }
  }

  /** A removal takes one name out of the children of the parent, and leaves the others in order. */
  lemma RemovePathKids(m: View, p: Path)
    requires TreeShaped(m) && p in m && p != []
    ensures var kids := m[Parent(p)].kids;
            exists i :: && 0 <= i < |kids| && kids[i] == Last(p)
                        && RemovePath(m, p)[Parent(p)].kids == kids[..i] + kids[i + 1..]
  {
    var kids := m[Parent(p)].kids;
    var i :| 0 <= i < |kids| && kids[i] == Last(p);
    WithoutAt(kids, i);
    hide TreeShaped, Without;
    assert !(p <= Parent(p));
  }

  lemma {:induction false} AncestorsAreThere(m: View, q: Path, p: Path)
    requires TreeShaped(m) && q in m && p <= q
    ensures p in m
    decreases |q|
  {
    if p == q {
    } else {
      PrefixOrSelf(p, q);
      AncestorsAreThere(m, Parent(q), p);
    }
  }
}
