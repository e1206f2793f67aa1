/**
 * One level of the linked HDF tree: a node, the list of its children, the hash that takes
 * over when the list gets long, and the shortcut to the child found last.
 *
 * The hash is a finite map here; HdfHash joins it to the table behind it.
 */
module HdfLevel {
  import opened Bytes

  const FORCE_HASH_AT: nat := 10

  class Node {
    const name: string
    var value: Option<string>
    var next: Node?
    var child: Node?
    var lastHp: Node?
    var lastHs: Node?
    var lastChild: Node?
    var hash: Option<map<string, Node>>

    /** `_alloc_hdf`. */
    constructor (name: string, value: Option<string>)
      ensures this.name == name && this.value == value && next == null && LevelOk(this, [])
    {
      this.name, this.value := name, value;
      next, child, lastHp, lastHs, lastChild, hash := null, null, null, null, null, None;
    }
  }

  ghost function First(kids: seq<Node>): Node? {
    if kids == [] then null else kids[0]
  }

  ghost function After(kids: seq<Node>, i: nat): Node? {
    if i + 1 < |kids| then kids[i + 1] else null
  }

  ghost predicate Chained(kids: seq<Node>)
    reads kids`next
  {
    forall i :: 0 <= i < |kids| ==> kids[i].next == After(kids, i)
  }

  ghost predicate DistinctNames(kids: seq<Node>) {
    forall i, j :: 0 <= i < j < |kids| ==> kids[i].name != kids[j].name
  }

  /** The child of a name: what a scan of the list would find. */
  ghost function Scan(kids: seq<Node>, name: string): (i: nat)
    ensures i <= |kids| && (i < |kids| ==> kids[i].name == name)
    ensures forall j :: 0 <= j < i ==> kids[j].name != name
  {
    if kids == [] || kids[0].name == name then 0 else 1 + Scan(kids[1..], name)
  }

  ghost function Kid(kids: seq<Node>, name: string): Node? {
    var i := Scan(kids, name);
    if i < |kids| then kids[i] else null
  }

  ghost predicate HashOk(h: map<string, Node>, kids: seq<Node>) {
    && (forall i :: 0 <= i < |kids| ==> kids[i].name in h && h[kids[i].name] == kids[i])
    && (forall k :: k in h ==> h[k] in kids && h[k].name == k)
  }

  /** The fields of a node agree with the list of its children. */
  ghost predicate LevelOk(n: Node, kids: seq<Node>)
    reads n`child, n`lastHp, n`lastHs, n`lastChild, n`hash, kids`next
  {
    && n.child == First(kids) && Chained(kids) && DistinctNames(kids)
    && (kids != [] ==> n.lastChild == kids[|kids| - 1])
    && (n.lastHp != null ==> n.lastHp in kids)
    && (n.lastHs != null ==> n.lastHs in kids)
    && (n.hash.Some? ==> HashOk(n.hash.value, kids))
  }

  lemma KidIsTheOne(kids: seq<Node>, k: Node)
    requires DistinctNames(kids) && k in kids
    ensures Kid(kids, k.name) == k
  {}

  lemma HashIsScan(h: map<string, Node>, kids: seq<Node>, name: string)
    requires HashOk(h, kids) && DistinctNames(kids)
    ensures Kid(kids, name) == if name in h then h[name] else null
  {
    if name in h {
      KidIsTheOne(kids, h[name]);
    }
  }

  // ----- Finding a child -----

  /** The scan of `_walk_hdf`, `_set_value` and `hdf_remove_tree`, with the node before and the count. */
  method ScanList(head: Node?, name: string, ghost kids: seq<Node>) returns (hp: Node?, hs: Node?, count: nat)
    requires head == First(kids) && Chained(kids)
    ensures count == Scan(kids, name) && hp == Kid(kids, name)
    ensures hs == if count == 0 then null else kids[count - 1]
  {
    hp, hs, count := head, null, 0;
    while hp != null && hp.name != name
      invariant 0 <= count <= |kids|
      invariant hp == (if count < |kids| then kids[count] else null)
      invariant hs == (if count == 0 then null else kids[count - 1])
      invariant forall j :: 0 <= j < count ==> kids[j].name != name
      decreases |kids| - count
    {
      hs, hp, count := hp, hp.next, count + 1;
    }
  }

  /** One step of `_walk_hdf`: by the hash if there is one, by a scan if not. */
  method Child(n: Node, name: string, ghost kids: seq<Node>) returns (hp: Node?)
    requires LevelOk(n, kids)
    ensures hp == Kid(kids, name)
  {
    if n.hash.Some? {
      HashIsScan(n.hash.value, kids, name);
      hp := if name in n.hash.value then n.hash.value[name] else null;
    } else {
      var found, _, _ := ScanList(n.child, name, kids);
      hp := found;
    }
  }

  /**
   * The search of `_set_value`: the shortcut, then the hash or a scan. Whatever it uses, it
   * finds what a scan would; if it finds nothing, `hs` is where a new child goes.
   */
  method FindForSet(n: Node, name: string, ghost kids: seq<Node>) returns (hp: Node?, hs: Node?, count: nat)
    requires LevelOk(n, kids)
    modifies n`lastHp, n`lastHs
    ensures LevelOk(n, kids)
    ensures hp == Kid(kids, name)
    ensures hp == null && kids != [] ==> hs == kids[|kids| - 1]
    ensures hp == null && n.hash.None? ==> count == |kids|
  {
    hide Chained, DistinctNames, HashOk;
    count := 0;
    hp, hs := n.lastHp, n.lastHs;
    if (hs == null && hp == n.child) || (hs != null && hs.next == hp) {
      if hp != null && hp.name == name {
        KidIsTheOne(kids, hp);
        return;
      }
    }
    if n.hash.Some? {
      HashIsScan(n.hash.value, kids, name);
      hp := if name in n.hash.value then n.hash.value[name] else null;
      hs := n.lastChild;
    } else {
      hp, hs, count := ScanList(n.child, name, kids);
    }
    if hp != null {
      n.lastHp := hp;
      n.lastHs := hs;
    }
  }

  // ----- Adding a child -----

  /** `_hdf_hash_level`. */
  method HashLevel(n: Node, ghost kids: seq<Node>) returns (h: map<string, Node>)
    requires n.child == First(kids) && Chained(kids) && DistinctNames(kids)
    ensures HashOk(h, kids)
  {
    hide HashOk, DistinctNames;
    h := map[];
    NoHash();
    assert kids[..0] == [];
    var child := n.child;
    ghost var i := 0;
    while child != null
      invariant 0 <= i <= |kids|
      invariant child == (if i < |kids| then kids[i] else null)
      invariant HashOk(h, kids[..i])
      decreases |kids| - i
    {
      NameIsNew(kids, i);
      assert kids[..i + 1] == kids[..i] + [child];
      HashGrows(h, kids[..i], child);
      h := h[child.name := child];
      child, i := child.next, i + 1;
    }
    assert kids[..i] == kids;
  }

  lemma NoHash()
    ensures HashOk(map[], [])
  {}

  lemma NameIsNew(kids: seq<Node>, i: nat)
    requires DistinctNames(kids) && i < |kids|
    ensures Kid(kids[..i], kids[i].name) == null
  {}

  /** The insertion of `_set_value`: link the new node in, and start or extend the hash. */
  method AddChild(n: Node, hp: Node, hs: Node?, count: nat, ghost kids: seq<Node>)
    requires LevelOk(n, kids) && hp !in kids && hp != n && hp.next == null && Kid(kids, hp.name) == null
    requires kids != [] ==> hs == kids[|kids| - 1]
    modifies n`child, n`lastChild, n`hash, kids`next
    ensures LevelOk(n, kids + [hp])
  {
    hide Chained, DistinctNames, HashOk, Kid;
    ghost var more := kids + [hp];
    LinkChild(n, hp, hs, kids);
    if count > FORCE_HASH_AT && n.hash.None? {
      var h := HashLevel(n, more);
      n.hash := Some(h);
    } else if n.hash.Some? {
      HashGrows(n.hash.value, kids, hp);
      n.hash := Some(n.hash.value[hp.name := hp]);
    }
  }

  lemma HashGrows(h: map<string, Node>, kids: seq<Node>, hp: Node)
    requires HashOk(h, kids) && Kid(kids, hp.name) == null
    ensures HashOk(h[hp.name := hp], kids + [hp])
  {}

  method LinkChild(n: Node, hp: Node, hs: Node?, ghost kids: seq<Node>)
    requires n.child == First(kids) && Chained(kids) && DistinctNames(kids)
    requires hp !in kids && hp.next == null && Kid(kids, hp.name) == null
    requires kids != [] ==> hs == kids[|kids| - 1]
    modifies n`child, n`lastChild, kids`next
    ensures n.child == First(kids + [hp]) && Chained(kids + [hp]) && DistinctNames(kids + [hp])
    ensures n.lastChild == hp
  {
    if n.child == null {
      n.child := hp;
    } else {
      hs.next := hp;
    }
    n.lastChild := hp;
  }

  // ----- Removing a child -----

  ghost function Drop(kids: seq<Node>, i: nat): seq<Node>
    requires i < |kids|
  {
    kids[..i] + kids[i + 1..]
  }

  /** The end of `hdf_remove_tree`: take the i-th child out of the list, the hash and the shortcut. */
  method RemoveChild(n: Node, hp: Node, ln: Node?, ghost kids: seq<Node>, ghost i: nat)
    requires LevelOk(n, kids) && i < |kids| && hp == kids[i]
    requires ln == if i == 0 then null else kids[i - 1]
    modifies n`child, n`lastChild, n`hash, n`lastHp, n`lastHs, kids`next
    ensures LevelOk(n, Drop(kids, i)) && hp.next == null
  {
    hide Chained, DistinctNames, HashOk;
    KeptInDrop(kids, i);
    if n.hash.Some? {
      HashShrinks(n.hash.value, kids, i);
      n.hash := Some(n.hash.value - {hp.name});
    }
    UnlinkChild(n, hp, ln, kids, i);
    if n.lastHp == hp {
      n.lastHp := null;
    }
    if n.lastHs == hp {
      n.lastHs := null;
    }
  }

  lemma KeptInDrop(kids: seq<Node>, i: nat)
    requires i < |kids| && DistinctNames(kids)
    ensures forall k :: k in kids && k != kids[i] ==> k in Drop(kids, i)
    ensures DistinctNames(Drop(kids, i))
  {
    var less := Drop(kids, i);
    forall k | k in kids && k != kids[i] ensures k in less {
      var j :| 0 <= j < |kids| && kids[j] == k;
      assert less[if j < i then j else j - 1] == k;
    }
  }

  lemma HashShrinks(h: map<string, Node>, kids: seq<Node>, i: nat)
    requires HashOk(h, kids) && DistinctNames(kids) && i < |kids|
    ensures HashOk(h - {kids[i].name}, Drop(kids, i))
  {
    var less := Drop(kids, i);
    forall j | 0 <= j < |less| ensures less[j].name in h && less[j].name != kids[i].name && h[less[j].name] == less[j] {
      assert less[j] == kids[if j < i then j else j + 1];
    }
  }

  lemma NodesApart(kids: seq<Node>, i: nat)
    requires DistinctNames(kids) && i < |kids|
    ensures forall j :: 0 <= j < |kids| && j != i ==> kids[j] != kids[i]
    ensures i > 0 ==> forall j :: 0 <= j < |kids| && j != i - 1 ==> kids[j] != kids[i - 1]
  {}

  method UnlinkChild(n: Node, hp: Node, ln: Node?, ghost kids: seq<Node>, ghost i: nat)
    requires n.child == First(kids) && Chained(kids) && DistinctNames(kids)
    requires i < |kids| && hp == kids[i] && n.lastChild == kids[|kids| - 1]
    requires ln == if i == 0 then null else kids[i - 1]
    modifies n`child, n`lastChild, kids`next
    ensures var less := Drop(kids, i);
            && n.child == First(less) && Chained(less) && DistinctNames(less)
            && (less != [] ==> n.lastChild == less[|less| - 1])
    ensures hp.next == null
  {
    hide Chained, DistinctNames;
    KeptInDrop(kids, i);
    if ln != null {
      CutAfter(ln, hp, kids, i);
      SameLast(kids, i);
      if hp == n.lastChild {
        n.lastChild := ln;
      }
    } else {
      n.child := hp.next;
      CutFirst(n, hp, kids);
    }
  }

  lemma SameLast(kids: seq<Node>, i: nat)
    requires 0 < i < |kids| && DistinctNames(kids)
    ensures kids[i] == kids[|kids| - 1] <==> i == |kids| - 1
  {}

  /** Cut hp, the child after ln, out of the list. */
  method CutAfter(ln: Node, hp: Node, ghost kids: seq<Node>, ghost i: nat)
    requires Chained(kids) && DistinctNames(kids) && 0 < i < |kids| && hp == kids[i] && ln == kids[i - 1]
    modifies ln`next, hp`next
    ensures Chained(Drop(kids, i)) && hp.next == null
  {
    NodesApart(kids, i);
    hide DistinctNames;
    ln.next := hp.next;
    hp.next := null;
  }

  method CutFirst(n: Node, hp: Node, ghost kids: seq<Node>)
    requires Chained(kids) && DistinctNames(kids) && kids != [] && hp == kids[0] && n.child == hp.next
    modifies hp`next
    ensures Chained(Drop(kids, 0)) && hp.next == null && n.child == First(Drop(kids, 0))
  {
    NodesApart(kids, 0);
    hide DistinctNames;
    hp.next := null;
  }
}
