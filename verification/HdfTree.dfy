/**
 * The linked HDF tree: `_walk_hdf`, `_set_value` and `hdf_remove_tree` on a tree without
 * links, proved against the path map of HdfView.
 *
 * `nodes` names every node by its path and `kids` lists the children of every path; both
 * are bookkeeping for the proof. A node that is removed leaves them together with
 * everything below it.
 */
module HdfTree {
  import opened Bytes
  import opened HdfView
  import opened HdfLevel

  type Names = map<Path, Node>
  type Kids = map<Path, seq<Node>>

  ghost predicate Injective(nodes: Names) {
    forall p, q :: p in nodes && q in nodes && nodes[p] == nodes[q] ==> p == q
  }

  /** Every path but the root's ends in the name of a child of its parent. */
  ghost predicate UpOk(nodes: Names, kids: Kids) {
    forall p :: p in nodes && p != [] ==>
      Parent(p) in nodes && Parent(p) in kids && nodes[p] in kids[Parent(p)] && nodes[p].name == Last(p)
  }

  /** Every child has a name, and a path by that name. */
  ghost predicate DownOk(nodes: Names, kids: Kids) {
    forall p, i :: p in kids && 0 <= i < |kids[p]| ==> HasPath(nodes, p, kids[p][i])
  }

  ghost predicate HasPath(nodes: Names, p: Path, k: Node) {
    k.name != "" && p + [k.name] in nodes && nodes[p + [k.name]] == k
  }

  ghost predicate WellNamed(nodes: Names, kids: Kids, root: Node) {
    && nodes.Keys == kids.Keys
    && [] in nodes && nodes[[]] == root
    && Injective(nodes) && UpOk(nodes, kids) && DownOk(nodes, kids)
  }

  ghost predicate Levels(nodes: Names, kids: Kids, all: set<Node>)
    reads all
  {
    forall p :: p in nodes && p in kids ==>
      && nodes[p] in all
      && (forall i :: 0 <= i < |kids[p]| ==> kids[p][i] in all)
      && LevelOk(nodes[p], kids[p])
  }

  ghost function KidNames(kids: seq<Node>): seq<string> {
    seq(|kids|, i requires 0 <= i < |kids| => kids[i].name)
  }

  /** Children of different paths are different nodes. */
  lemma KidsApart(nodes: Names, kids: Kids, root: Node, p: Path, q: Path)
    requires WellNamed(nodes, kids, root) && p in nodes && q in nodes && p != q
    ensures nodes[p] != nodes[q]
    ensures forall i, j :: 0 <= i < |kids[p]| && 0 <= j < |kids[q]| ==> kids[p][i] != kids[q][j]
  {
    forall i, j | 0 <= i < |kids[p]| && 0 <= j < |kids[q]| ensures kids[p][i] != kids[q][j] {
      var name := kids[p][i].name;
      assert Parent(p + [name]) == p && Parent(q + [name]) == q;
    }
  }

  /** A child is found under its name, and a name that is not found is not a path. */
  lemma KidPath(nodes: Names, kids: Kids, root: Node, p: Path, name: string)
    requires WellNamed(nodes, kids, root) && p in nodes && DistinctNames(kids[p])
    ensures Kid(kids[p], name) != null <==> p + [name] in nodes
    ensures p + [name] in nodes ==> nodes[p + [name]] == Kid(kids[p], name)
  {
    var q := p + [name];
    assert Parent(q) == p && Last(q) == name;
    if q in nodes {
      KidIsTheOne(kids[p], nodes[q]);
    }
  }

  // Adding a node

  lemma AddKeepsUp(nodes: Names, kids: Kids, p: Path, n: Node)
    requires UpOk(nodes, kids) && p in nodes && p in kids && p + [n.name] !in nodes && nodes.Keys == kids.Keys
    ensures UpOk(nodes[p + [n.name] := n], kids[p := kids[p] + [n]][p + [n.name] := []])
  {
    assert Parent(p + [n.name]) == p && Last(p + [n.name]) == n.name;
  }

  lemma AddKeepsDown(nodes: Names, kids: Kids, p: Path, n: Node)
    requires DownOk(nodes, kids) && p in kids && n.name != "" && p + [n.name] !in nodes
    ensures DownOk(nodes[p + [n.name] := n], kids[p := kids[p] + [n]][p + [n.name] := []])
  {
    var at := p + [n.name];
    var nodes': Names := nodes[at := n];
    var kids': Kids := kids[p := kids[p] + [n]][at := []];
    forall q, i | q in kids' && 0 <= i < |kids'[q]| ensures HasPath(nodes', q, kids'[q][i]) {
      if q == p && i == |kids[p]| {
        assert kids'[q][i] == n;
      } else {
        assert HasPath(nodes, q, kids[q][i]);
      }
    }
  }

  lemma AddKeepsNames(nodes: Names, kids: Kids, root: Node, all: set<Node>, p: Path, n: Node)
    requires WellNamed(nodes, kids, root) && p in nodes && n.name != "" && p + [n.name] !in nodes
    requires n !in all && forall q :: q in nodes ==> nodes[q] in all
    ensures WellNamed(nodes[p + [n.name] := n], kids[p := kids[p] + [n]][p + [n.name] := []], root)
  {
    hide UpOk, DownOk;
    AddKeepsUp(nodes, kids, p, n);
    AddKeepsDown(nodes, kids, p, n);
  }

  // Removing a node and everything below it

  ghost function NodesWithout(nodes: Names, at: Path): Names {
    map q | q in nodes && !(at <= q) :: nodes[q]
  }

  ghost function KidsWithout(kids: Kids, at: Path, i: nat): Kids
    requires at != [] && Parent(at) in kids && i < |kids[Parent(at)]|
  {
    map q | q in kids && !(at <= q) :: if q == Parent(at) then Drop(kids[q], i) else kids[q]
  }

  lemma RemoveKeepsUp(nodes: Names, kids: Kids, root: Node, at: Path, i: nat)
    requires WellNamed(nodes, kids, root)
    requires at in nodes && at != [] && i < |kids[Parent(at)]| && kids[Parent(at)][i] == nodes[at]
    ensures UpOk(NodesWithout(nodes, at), KidsWithout(kids, at, i))
  {
    hide DownOk;
    var nodes', kids' := NodesWithout(nodes, at), KidsWithout(kids, at, i);
    forall p | p in nodes' && p != []
      ensures Parent(p) in nodes' && Parent(p) in kids' && nodes'[p] in kids'[Parent(p)] && nodes'[p].name == Last(p)
    {
      PrefixOrSelf(at, p);
      if Parent(p) == Parent(at) {
        StillKid(kids[Parent(at)], i, nodes[p]);
      }
    }
  }

  lemma StillKid(kids: seq<Node>, i: nat, k: Node)
    requires i < |kids| && k in kids && k != kids[i]
    ensures k in Drop(kids, i)
  {
    var j :| 0 <= j < |kids| && kids[j] == k;
    assert Drop(kids, i)[if j < i then j else j - 1] == k;
  }

  lemma RemoveKeepsDown(nodes: Names, kids: Kids, root: Node, at: Path, i: nat)
    requires WellNamed(nodes, kids, root)
    requires at in nodes && at != [] && i < |kids[Parent(at)]| && kids[Parent(at)][i] == nodes[at]
    requires DistinctNames(kids[Parent(at)])
    ensures DownOk(NodesWithout(nodes, at), KidsWithout(kids, at, i))
  {
    var nodes', kids' := NodesWithout(nodes, at), KidsWithout(kids, at, i);
    forall q, j | q in kids' && 0 <= j < |kids'[q]| ensures HasPath(nodes', q, kids'[q][j]) {
      KidWas(nodes, kids, root, at, i, q, j);
      hide UpOk, DownOk, Injective, HasPath, DistinctNames;
      KidStays(nodes, at, q, kids'[q][j]);
    }
  }

  /** A child that is left had a path, and is not the removed node. */
  lemma KidWas(nodes: Names, kids: Kids, root: Node, at: Path, i: nat, q: Path, j: nat)
    requires WellNamed(nodes, kids, root)
    requires at in nodes && at != [] && i < |kids[Parent(at)]| && kids[Parent(at)][i] == nodes[at]
    requires DistinctNames(kids[Parent(at)])
    requires q in kids && !(at <= q) && j < |KidsWithout(kids, at, i)[q]|
    ensures var k := KidsWithout(kids, at, i)[q][j];
            HasPath(nodes, q, k) && (q == Parent(at) ==> k != nodes[at])
  {
    assert DownOk(nodes, kids);
    hide WellNamed, UpOk, Injective, HasPath, DistinctNames;
    if q == Parent(at) {
      DropAt(kids[q], i, j);
      assert HasPath(nodes, q, kids[q][if j < i then j else j + 1]);
    } else {
      assert HasPath(nodes, q, kids[q][j]);
    }
  }

  lemma DropAt(kids: seq<Node>, i: nat, j: nat)
    requires DistinctNames(kids) && i < |kids| && j < |Drop(kids, i)|
    ensures |Drop(kids, i)| == |kids| - 1
    ensures Drop(kids, i)[j] == kids[if j < i then j else j + 1] && Drop(kids, i)[j] != kids[i]
  {}

  lemma KidStays(nodes: Names, at: Path, q: Path, k: Node)
    requires HasPath(nodes, q, k) && at in nodes && at != [] && !(at <= q) && (q == Parent(at) ==> k != nodes[at])
    ensures HasPath(NodesWithout(nodes, at), q, k)
  {
    var p := q + [k.name];
    assert Parent(p) == q;
    PrefixOrSelf(at, p);
  }

  lemma RemoveKeepsNames(nodes: Names, kids: Kids, root: Node, at: Path, i: nat)
    requires WellNamed(nodes, kids, root)
    requires at in nodes && at != [] && i < |kids[Parent(at)]| && kids[Parent(at)][i] == nodes[at]
    requires DistinctNames(kids[Parent(at)])
    ensures WellNamed(NodesWithout(nodes, at), KidsWithout(kids, at, i), root)
  {
    hide UpOk, DownOk;
    RemoveKeepsUp(nodes, kids, root, at, i);
    RemoveKeepsDown(nodes, kids, root, at, i);
  }

  // ----- The view of a tree -----

  ghost function ViewOf(nodes: Names, kids: Kids, all: set<Node>): View
    reads all`value
    requires nodes.Keys == kids.Keys && forall p :: p in nodes ==> nodes[p] in all
  {
    map p | p in nodes :: Info(nodes[p].value, KidNames(kids[p]))
  }

  lemma ShowsParents(nodes: Names, kids: Kids, all: set<Node>)
    requires nodes.Keys == kids.Keys && UpOk(nodes, kids) && forall p :: p in nodes ==> nodes[p] in all
    ensures Listed(ViewOf(nodes, kids, all))
  {
    forall p | p in nodes && p != [] ensures Last(p) in KidNames(kids[Parent(p)]) {
      var up := kids[Parent(p)];
      var i :| 0 <= i < |up| && up[i] == nodes[p];
      assert KidNames(up)[i] == Last(p);
    }
  }

  lemma ShowsPaths(nodes: Names, kids: Kids, all: set<Node>)
    requires nodes.Keys == kids.Keys && DownOk(nodes, kids) && forall p :: p in nodes ==> nodes[p] in all
    ensures ListsPaths(ViewOf(nodes, kids, all))
  {
    var m := ViewOf(nodes, kids, all);
    forall p, i | p in m && 0 <= i < |m[p].kids| ensures m[p].kids[i] != "" && p + [m[p].kids[i]] in m {
      assert HasPath(nodes, p, kids[p][i]);
    }
  }

  lemma ViewAfterAdd(nodes: Names, kids: Kids, all: set<Node>, p: Path, n: Node)
    requires nodes.Keys == kids.Keys && p in nodes && p + [n.name] !in nodes
    requires n !in all && forall q :: q in nodes ==> nodes[q] in all
    ensures var at := p + [n.name];
            var view := ViewOf(nodes[at := n], kids[p := kids[p] + [n]][at := []], all + {n});
            var was := AddNode(ViewOf(nodes, kids, all), at);
            && Parent(at) == p
            && view == was[at := Info(n.value, [])]
  {
    var at := p + [n.name];
    assert Parent(at) == p && Last(at) == n.name;
    assert KidNames(kids[p] + [n]) == KidNames(kids[p]) + [n.name];
    assert KidNames([]) == [];
  }

  lemma {:induction false} NamesAfterDrop(kids: seq<Node>, i: nat)
    requires i < |kids| && DistinctNames(kids)
    ensures KidNames(Drop(kids, i)) == HdfView.Without(KidNames(kids), kids[i].name)
  {
    var names := KidNames(kids);
    WithoutAt(names, i);
  }

  lemma ViewAfterRemove(nodes: Names, kids: Kids, root: Node, all: set<Node>, at: Path, i: nat)
    requires WellNamed(nodes, kids, root) && forall q :: q in nodes ==> nodes[q] in all
    requires at in nodes && at != [] && i < |kids[Parent(at)]| && kids[Parent(at)][i] == nodes[at]
    requires DistinctNames(kids[Parent(at)])
    ensures var nodes', kids' := NodesWithout(nodes, at), KidsWithout(kids, at, i);
            && nodes'.Keys == kids'.Keys
            && ViewOf(nodes', kids', all) == RemovePath(ViewOf(nodes, kids, all), at)
  {
    hide DownOk, DistinctNames;
    NamesAfterDrop(kids[Parent(at)], i);
  }

  // ----- The tree -----

  class Tree {
    const root: Node
    ghost var nodes: Names
    ghost var kids: Kids
    ghost var all: set<Node>

    ghost predicate Valid()
      reads this, all
    {
      WellNamed(nodes, kids, root) && Levels(nodes, kids, all)
    }

    ghost function Map(): View
      reads this, all
      requires Valid()
    {
      ViewOf(nodes, kids, all)
    }

    /** `hdf_init`. */
    constructor ()
      ensures Valid() && Map() == map[[] := Info(None, [])] && fresh(all)
    {
      var top := new Node("", None);
      root := top;
      nodes, kids, all := map[[] := top], map[[] := []], {top};
      new;
      assert KidNames([]) == [];
      OnlyRoot(root);
      hide WellNamed, LevelOk;
    }

    /** `_walk_hdf` below the root: the node at a path. */
    method Walk(path: Path) returns (r: Node?)
      requires Valid()
      ensures r == if path in nodes then nodes[path] else null
    {
      hide UpOk, DownOk, LevelOk;
      r := root;
      var i := 0;
      assert path[..0] == [];
      while i < |path|
        invariant 0 <= i <= |path|
        invariant path[..i] in nodes && r == nodes[path[..i]]
      {
        ghost var p := path[..i];
        assert path[..i + 1] == p + [path[i]];
        LevelNames(nodes[p], kids[p]);
        KidPath(nodes, kids, root, p, path[i]);
        r := Child(r, path[i], kids[p]);
        if r == null {
          Unreached(path, i + 1);
          return;
        }
        i := i + 1;
      }
      assert path[..i] == path;
    }

    /** Hang a new node below the node at p. */
    method Attach(ghost p: Path, hn: Node, hp: Node, hs: Node?, count: nat)
      requires Valid() && p in nodes && p in kids && hn == nodes[p]
      requires hp !in all && hp.next == null && hp.name != "" && LevelOk(hp, []) && p + [hp.name] !in nodes
      requires kids[p] != [] ==> hs == kids[p][|kids[p]| - 1]
      modifies `nodes, `kids, `all, all
      ensures Valid() && all == old(all) + {hp}
      ensures nodes == old(nodes)[p + [hp.name] := hp]
      ensures Parent(p + [hp.name]) == p
      ensures Map() == AddNode(old(Map()), p + [hp.name])[p + [hp.name] := Info(hp.value, [])]
    {
      hide WellNamed, LevelOk, Levels, ViewOf, AddNode;
      ghost var at := p + [hp.name];
      SameKeys(nodes, kids, root);
      LevelNodes(nodes, kids, all);
      AddKeepsNames(nodes, kids, root, all, p, hp);
      ViewAfterAdd(nodes, kids, all, p, hp);
      Link(p, hn, hp, hs, count);
      LevelsAfterAdd(nodes, kids, all, p, hp);
      nodes, kids := nodes[at := hp], kids[p := kids[p] + [hp]][at := []];
      all := all + {hp};
    }

    /** The heap part of `Attach`: one level grows, the others stay as they are. */
    method Link(ghost p: Path, hn: Node, hp: Node, hs: Node?, count: nat)
      requires Valid() && p in nodes && p in kids && hn == nodes[p]
      requires hp !in all && hp.next == null && LevelOk(hp, []) && p + [hp.name] !in nodes
      requires kids[p] != [] ==> hs == kids[p][|kids[p]| - 1]
      modifies hn`child, hn`lastChild, hn`hash, kids[p]`next
      ensures LevelOk(hn, kids[p] + [hp]) && LevelOk(hp, [])
      ensures forall q :: q in nodes && q in kids && q != p ==> LevelOk(nodes[q], kids[q])
    {
      hide UpOk, DownOk, LevelOk;
      LevelNames(hn, kids[p]);
      KidPath(nodes, kids, root, p, hp.name);
      AddChild(hn, hp, hs, count, kids[p]);
      forall q | q in nodes && q in kids && q != p ensures LevelOk(nodes[q], kids[q]) {
        KidsApart(nodes, kids, root, p, q);
      }
    }

    /** Give the node at a path a value. */
    method Assign(ghost at: Path, hp: Node, value: Option<string>)
      requires Valid() && at in nodes && hp == nodes[at]
      modifies hp`value
      ensures Valid()
      ensures Map() == old(Map())[at := old(Map())[at].(value := value)]
    {
      hide UpOk, DownOk, LevelOk;
      hp.value := value;
    }

    /** One round of the loop of `_set_value` at the node of path p, which has view m. */
    method SetStep(
        ghost p: Path, ghost at: Path, ghost m: View, hn: Node, name: string, last: bool, value: Option<string>)
      returns (hp: Node)
      requires Valid() && p in nodes && p in kids && hn == nodes[p] && name != ""
      requires at == p + [name] && Parent(at) == p && m == Map() && p in m
      modifies `nodes, `kids, `all, all
      ensures Valid() && fresh(all - old(all))
      ensures at in nodes && at in kids && hp == nodes[at]
      ensures Map() == SetNode(m, at, last, value)
    {
      hide WellNamed, LevelOk, Levels, SetNode, ViewOf;
      SetNodeIs(m, at, last, value);
      SameKeys(nodes, kids, root);
      LevelNodes(nodes, kids, all);
      SameThere(nodes, kids, all, at);
      var found, hs, count := FindKid(p, hn, name);
      if found == null {
        hp := new Node(name, if last then value else None);
        Attach(p, hn, hp, hs, count);
        SameKeys(nodes, kids, root);
      } else {
        hp := found;
        if last {
          Assign(at, hp, value);
        }
      }
    }

    method FindKid(ghost p: Path, hn: Node, name: string) returns (hp: Node?, hs: Node?, count: nat)
      requires Valid() && p in nodes && p in kids && hn == nodes[p]
      modifies hn`lastHp, hn`lastHs
      ensures Valid() && Map() == old(Map())
      ensures hp == if p + [name] in nodes then nodes[p + [name]] else null
      ensures hp == null && kids[p] != [] ==> hs == kids[p][|kids[p]| - 1]
    {
      hide UpOk, DownOk, LevelOk;
      LevelNames(hn, kids[p]);
      KidPath(nodes, kids, root, p, name);
      hp, hs, count := FindForSet(hn, name, kids[p]);
      forall q | q in nodes && q in kids && q != p ensures LevelOk(nodes[q], kids[q]) {
        KidsApart(nodes, kids, root, p, q);
      }
    }

    /**
     * `_set_value` below the root: make the nodes on the way and set the value. An empty
     * component stops it, and the nodes made so far stay.
     */
    method Set(path: Path, value: Option<string>) returns (ok: bool)
      requires Valid() && path != []
      modifies `nodes, `kids, `all, all
      ensures Valid() && fresh(all - old(all))
      ensures ok == (FirstEmpty(path) == |path|)
      ensures Map() == if ok then SetPath(old(Map()), path, value) else AddPath(old(Map()), path[..FirstEmpty(path)])
    {
      hide WellNamed, LevelOk, Levels;
      ghost var m := Map();
      RootIsThere(nodes, kids, root);
      var hn, i := root, 0;
      assert path[..0] == [];
      while i < |path|
        invariant 0 <= i <= |path| && FirstEmpty(path) >= i
        invariant Valid() && fresh(all - old(all))
        invariant path[..i] in nodes && path[..i] in kids && hn == nodes[path[..i]]
        invariant Map() == if i < |path| then AddPath(m, path[..i]) else SetPath(m, path, value)
      {
        if path[i] == "" {
          return false;
        }
        ghost var p := path[..i];
        assert path[..i + 1] == p + [path[i]] && Parent(path[..i + 1]) == p;
        hn := SetStep(p, path[..i + 1], Map(), hn, path[i], i + 1 == |path|, value);
        i := i + 1;
        assert i == |path| ==> path[..i] == path;
      }
      ok := true;
    }

    /** `hdf_remove_tree`: drop the node at a path and everything below it, if it is there. */
    method Remove(path: Path)
      requires Valid() && path != []
      modifies `nodes, `kids, all
      ensures Valid() && all == old(all)
      ensures Map() == RemovePath(old(Map()), path)
    {
      hide WellNamed, LevelOk, Levels;
      RootIsThere(nodes, kids, root);
      var lp, i := root, 0;
      assert path[..0] == [];
      while true
        invariant 0 <= i < |path|
        invariant Valid() && Map() == old(Map()) && all == old(all)
        invariant path[..i] in nodes && path[..i] in kids && lp == nodes[path[..i]]
        decreases |path| - i
      {
        ghost var p := path[..i];
        assert path[..i + 1] == p + [path[i]] && Parent(path[..i + 1]) == p;
        var hp, ln, k := ScanKids(p, lp, path[i]);
        if hp == null {
          Unreached(path, i + 1);
          return;
        }
        if i + 1 == |path| {
          assert path[..i + 1] == path;
          Detach(path, lp, hp, ln, k);
          return;
        }
        SameKeys(nodes, kids, root);
        lp, i := hp, i + 1;
      }
    }

    method ScanKids(ghost p: Path, lp: Node, name: string) returns (hp: Node?, ln: Node?, k: nat)
      requires Valid() && p in nodes && p in kids && lp == nodes[p]
      ensures hp == if p + [name] in nodes then nodes[p + [name]] else null
      ensures hp != null ==> k < |kids[p]| && kids[p][k] == hp && ln == if k == 0 then null else kids[p][k - 1]
    {
      hide UpOk, DownOk;
      KidPath(nodes, kids, root, p, name);
      hp, ln, k := ScanList(lp.child, name, kids[p]);
    }

    method Detach(ghost at: Path, lp: Node, hp: Node, ln: Node?, ghost k: nat)
      requires Valid() && at in nodes && at != [] && Parent(at) in nodes && Parent(at) in kids
      requires lp == nodes[Parent(at)] && hp == nodes[at]
      requires k < |kids[Parent(at)]| && kids[Parent(at)][k] == hp
      requires ln == if k == 0 then null else kids[Parent(at)][k - 1]
      modifies `nodes, `kids, all
      ensures Valid() && Map() == RemovePath(old(Map()), at)
    {
      hide WellNamed, LevelOk, Levels, ViewOf, RemovePath, NodesWithout, KidsWithout;
      SameKeys(nodes, kids, root);
      LevelNodes(nodes, kids, all);
      LevelsNames(nodes, kids, all, Parent(at));
      RemoveKeepsNames(nodes, kids, root, at, k);
      ViewAfterRemove(nodes, kids, root, all, at, k);
      Unhook(at, lp, hp, ln, k);
      nodes, kids := NodesWithout(nodes, at), KidsWithout(kids, at, k);
    }

    method Unhook(ghost at: Path, lp: Node, hp: Node, ln: Node?, ghost k: nat)
      requires Valid() && at in nodes && at != [] && Parent(at) in nodes && Parent(at) in kids
      requires lp == nodes[Parent(at)] && hp == nodes[at]
      requires k < |kids[Parent(at)]| && kids[Parent(at)][k] == hp
      requires ln == if k == 0 then null else kids[Parent(at)][k - 1]
      modifies lp`child, lp`lastChild, lp`hash, lp`lastHp, lp`lastHs, kids[Parent(at)]`next
      ensures Levels(NodesWithout(nodes, at), KidsWithout(kids, at, k), all)
    {
      hide UpOk, DownOk, LevelOk;
      ghost var p := Parent(at);
      LevelNodes(nodes, kids, all);
      RemoveChild(lp, hp, ln, kids[p], k);
      forall q | q in nodes && q in kids && q != p ensures LevelOk(nodes[q], kids[q]) {
        KidsApart(nodes, kids, root, p, q);
      }
      LevelsAfterRemove(nodes, kids, all, at, k);
    }

    /** What a reachable tree shows is a tree: no name twice among siblings, none empty, no orphan. */
    lemma ShowsATree()
      requires Valid()
      ensures TreeShaped(Map())
    {
      hide UpOk, DownOk, Listed, ListsPaths, LevelOk;
      ShowsParents(nodes, kids, all);
      ShowsPaths(nodes, kids, all);
      forall p | p in nodes ensures Distinct(KidNames(kids[p])) {
        LevelNames(nodes[p], kids[p]);
      }
    }

    /** `hdf_get_value`. */
    method Get(name: string, default: string) returns (r: string)
      requires Valid()
      ensures var path := if name == "" then [] else Split(name);
              r == if path in Map() && Map()[path].value.Some? then Map()[path].value.value else default
    {
      hide WellNamed, LevelOk, Levels;
      SameKeys(nodes, kids, root);
      LevelNodes(nodes, kids, all);
      var path := if name == "" then [] else Split(name);
      var node := Walk(path);
      r := if node != null && node.value.Some? then node.value.value else default;
    }

    /** One call of `hdf_set_value` or `hdf_remove_tree`. */
    method Perform(op: Op) returns (ok: bool)
      requires Valid()
      modifies `nodes, `kids, `all, all
      ensures Valid() && fresh(all - old(all)) && [] in old(Map())
      ensures Map() == Apply(old(Map()), op)
    {
      hide WellNamed, LevelOk, Levels;
      RootIsThere(nodes, kids, root);
      SameKeys(nodes, kids, root);
      LevelNodes(nodes, kids, all);
      ok := true;
      match op {
        case RemoveTree(name) => Remove(Split(name));
        case SetValue(name, value) =>
          if name == "" {
            Assign([], root, value);
          } else {
            ok := Set(Split(name), value);
          }
      }
    }

    lemma {:induction false} Unreached(path: Path, i: nat)
      requires WellNamed(nodes, kids, root) && i <= |path| && path[..i] !in nodes
      ensures path !in nodes
      decreases |path| - i
    {
      if i == |path| {
        assert path[..i] == path;
      } else {
        assert Parent(path[..i + 1]) == path[..i];
        Unreached(path, i + 1);
      }
    }
  }

  function ApplyAll(m: View, ops: seq<Op>): (r: View)
    requires [] in m
    ensures [] in r
  {
    if ops == [] then m else Apply(ApplyAll(m, ops[..|ops| - 1]), ops[|ops| - 1])
  }

  /**
   * Any run of sets and removes on a new tree: the linked tree shows what the plain path map
   * shows, and it is a tree.
   */
  method RunAll(ops: seq<Op>) returns (t: Tree)
    ensures t.Valid()
    ensures t.Map() == ApplyAll(map[[] := Info(None, [])], ops)
    ensures TreeShaped(t.Map())
  {
    hide WellNamed, Levels, ViewOf, Apply;
    t := new Tree();
    var i := 0;
    while i < |ops|
      invariant 0 <= i <= |ops|
      invariant t.Valid() && fresh(t) && fresh(t.all)
      invariant t.Map() == ApplyAll(map[[] := Info(None, [])], ops[..i])
    {
      assert ops[..i + 1][..i] == ops[..i];
      var _ := t.Perform(ops[i]);
      i := i + 1;
    }
    assert ops[..i] == ops;
    t.ShowsATree();
  }

  lemma SameKeys(nodes: Names, kids: Kids, root: Node)
    requires WellNamed(nodes, kids, root)
    ensures nodes.Keys == kids.Keys
  {}

  lemma OnlyRoot(root: Node)
    ensures WellNamed(map[[] := root], map[[] := []], root)
  {}

  lemma SameThere(nodes: Names, kids: Kids, all: set<Node>, p: Path)
    requires nodes.Keys == kids.Keys && forall q :: q in nodes ==> nodes[q] in all
    ensures p in ViewOf(nodes, kids, all) <==> p in nodes
  {}

  lemma RootIsThere(nodes: Names, kids: Kids, root: Node)
    requires WellNamed(nodes, kids, root)
    ensures [] in nodes && [] in kids && nodes[[]] == root
  {}

  lemma LevelsNames(nodes: Names, kids: Kids, all: set<Node>, p: Path)
    requires Levels(nodes, kids, all) && p in nodes && p in kids
    ensures DistinctNames(kids[p])
  {}

  lemma LevelNodes(nodes: Names, kids: Kids, all: set<Node>)
    requires Levels(nodes, kids, all) && nodes.Keys == kids.Keys
    ensures forall q :: q in nodes ==> nodes[q] in all
    ensures forall q, i :: q in kids && 0 <= i < |kids[q]| ==> kids[q][i] in all
  {
    hide LevelOk;
  }

  lemma LevelsAfterAdd(nodes: Names, kids: Kids, all: set<Node>, p: Path, n: Node)
    requires p in nodes && p in kids && p + [n.name] !in nodes
    requires forall q :: q in nodes ==> nodes[q] in all
    requires forall q, i :: q in kids && 0 <= i < |kids[q]| ==> kids[q][i] in all
    requires LevelOk(nodes[p], kids[p] + [n]) && LevelOk(n, [])
    requires forall q :: q in nodes && q in kids && q != p ==> LevelOk(nodes[q], kids[q])
    ensures Levels(nodes[p + [n.name] := n], kids[p := kids[p] + [n]][p + [n.name] := []], all + {n})
  {
    hide LevelOk;
  }

  lemma LevelsAfterRemove(nodes: Names, kids: Kids, all: set<Node>, at: Path, k: nat)
    requires at != [] && Parent(at) in nodes && Parent(at) in kids && k < |kids[Parent(at)]|
    requires forall q :: q in nodes ==> nodes[q] in all
    requires forall q, i :: q in kids && 0 <= i < |kids[q]| ==> kids[q][i] in all
    requires LevelOk(nodes[Parent(at)], Drop(kids[Parent(at)], k))
    requires forall q :: q in nodes && q in kids && q != Parent(at) ==> LevelOk(nodes[q], kids[q])
    ensures Levels(NodesWithout(nodes, at), KidsWithout(kids, at, k), all)
  {
    hide LevelOk;
  }

  lemma LevelNames(n: Node, kids: seq<Node>)
    requires LevelOk(n, kids)
    ensures DistinctNames(kids)
  {}
}
