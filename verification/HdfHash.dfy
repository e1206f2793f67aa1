/**
 * The hash of a level on the table itself: what `_hdf_hash_level`, `_walk_hdf`, `_set_value`
 * and `hdf_remove_tree` do to it keeps it in step with the list of children, so that a
 * lookup in its buckets finds what a scan of the list would find.
 */
module HdfHash {
  import opened Bytes
  import opened HdfLevel
  import HashTable

  type Index = HashTable.Table<string, Node>

  /** The table holds the children under their names and nothing else. */
  ghost predicate Indexes(t: Index, kids: seq<Node>)
    reads t, t.nodes, t.all
  {
    t.Valid() && HashOk(t.model, kids) && DistinctNames(kids)
  }

  /** `_hdf_hash_level`. */
  method BuildIndex(n: Node, hash: string -> nat, ghost kids: seq<Node>) returns (t: Index)
    requires n.child == First(kids) && Chained(kids) && DistinctNames(kids)
    ensures fresh(t) && fresh(t.nodes) && fresh(t.all) && Indexes(t, kids)
  {
    hide HashTable.Table.Valid, HashOk, DistinctNames, Chained;
    t := new HashTable.Table(hash);
    NoHash();
    assert kids[..0] == [];
    var child := n.child;
    ghost var i := 0;
    while child != null
      invariant 0 <= i <= |kids| && child == (if i < |kids| then kids[i] else null) && Chained(kids)
      invariant fresh(t) && fresh(t.nodes) && fresh(t.all) && t.Valid()
      invariant HashOk(t.model, kids[..i])
      decreases |kids| - i
    {
      IndexOne(t, child, kids, i);
      NextKid(kids, i);
      child, i := child.next, i + 1;
    }
    assert kids[..i] == kids;
  }

  method IndexOne(t: Index, child: Node, ghost kids: seq<Node>, ghost i: nat)
    requires t.Valid() && i < |kids| && child == kids[i] && HashOk(t.model, kids[..i]) && DistinctNames(kids)
    modifies t, t.nodes, t.all
    ensures t.Valid() && HashOk(t.model, kids[..i + 1])
    ensures fresh(t.all - old(t.all)) && (t.nodes == old(t.nodes) || fresh(t.nodes))
  {
    hide HashTable.Table.Valid, HashOk, DistinctNames;
    NameIsNew(kids, i);
    assert kids[..i + 1] == kids[..i] + [child];
    HashGrows(t.model, kids[..i], child);
    t.Insert(child.name, child);
  }

  lemma NextKid(kids: seq<Node>, i: nat)
    requires Chained(kids) && i < |kids|
    ensures kids[i].next == if i + 1 < |kids| then kids[i + 1] else null
  {}

  /** The lookups of `_walk_hdf` and `_set_value`. */
  method FindInIndex(t: Index, name: string, ghost kids: seq<Node>) returns (hp: Node?)
    requires Indexes(t, kids)
    ensures hp == Kid(kids, name)
  {
    hide HashTable.Table.Valid, HashOk, DistinctNames;
    HashIsScan(t.model, kids, name);
    var r := t.Lookup(name);
    hp := if r.Some? then r.value else null;
  }

  /** The insertion of `_set_value`, for a child that has been linked in behind the others. */
  method AddToIndex(t: Index, hp: Node, ghost kids: seq<Node>)
    requires Indexes(t, kids) && Kid(kids, hp.name) == null && DistinctNames(kids + [hp])
    modifies t, t.nodes, t.all
    ensures Indexes(t, kids + [hp])
  {
    hide HashTable.Table.Valid, HashOk, DistinctNames;
    HashGrows(t.model, kids, hp);
    t.Insert(hp.name, hp);
  }

  /** The removal of `hdf_remove_tree`. */
  method RemoveFromIndex(t: Index, hp: Node, ghost kids: seq<Node>, ghost i: nat)
    requires Indexes(t, kids) && i < |kids| && hp == kids[i]
    modifies t, t.nodes, t.all
    ensures Indexes(t, Drop(kids, i))
  {
    KeptInDrop(kids, i);
    hide HashTable.Table.Valid, HashOk, DistinctNames;
    HashShrinks(t.model, kids, i);
    var _ := t.Remove(hp.name);
  }
}
