/**
 * The chained hash table of neo_hash.c, which doubles by splitting its chains in place.
 *
 * Nodes and links are the heap objects of the C code; `chains` lists the nodes of each
 * bucket in link order and `model` is the finite map the table stands for.
 */
module HashTable {
  import opened Bytes

  // ----- The bucket mask -----

  function Pow2(k: nat): (p: nat)
    ensures p > 0
  {
    if k == 0 then 1 else 2 * Pow2(k - 1)
  }

  /** Bitwise and. */
  function And(a: nat, b: nat): nat {
    if a == 0 || b == 0 then 0
    else 2 * And(a / 2, b / 2) + if a % 2 == 1 && b % 2 == 1 then 1 else 0
  }

  lemma MaskStep(h: nat, k: nat)
    ensures And(h, Pow2(k + 1) - 1) == 2 * And(h / 2, Pow2(k) - 1) + h % 2
  {
    var m := Pow2(k + 1) - 1;
    assert m / 2 == Pow2(k) - 1 && m % 2 == 1;
  }

  /** Masking picks a bucket of the table. */
  lemma {:induction false} MaskBound(h: nat, k: nat)
    ensures And(h, Pow2(k) - 1) < Pow2(k)
    decreases k
  {
    if k == 0 {
    } else {
      MaskStep(h, k - 1);
      MaskBound(h / 2, k - 1);
    }
  }

  /** The bucket is the remainder by the size of the table. */
  lemma {:induction false} MaskIsRemainder(h: nat, k: nat)
    ensures And(h, Pow2(k) - 1) == h % Pow2(k)
    decreases k
  {
    if k == 0 {
    } else {
      MaskStep(h, k - 1);
      MaskIsRemainder(h / 2, k - 1);
      HalfRemainder(h, Pow2(k - 1));
    }
  }

  lemma HalfRemainder(h: nat, n: nat)
    requires n > 0
    ensures h % (2 * n) == 2 * (h / 2 % n) + h % 2
  {
    var q, r := h / 2 / n, h / 2 % n;
    assert h == 2 * n * q + (2 * r + h % 2);
    RemainderIs(h, 2 * n, q, 2 * r + h % 2);
  }

  lemma RemainderIs(h: nat, n: nat, q: nat, r: nat)
    requires n > 0 && r < n && h == n * q + r
    ensures h % n == r
  {
    var d := h / n - q;
    assert n * d == r - h % n;
    MultipleIsFar(n, d);
  }

  lemma MultipleIsFar(n: nat, d: int)
    ensures d >= 1 ==> n * d >= n
    ensures d <= -1 ==> n * d <= 0 - n
  {}

  /** Doubling the table leaves a node in its bucket or moves it up by the old size. */
  lemma {:induction false} MaskDouble(h: nat, k: nat)
    ensures var b := And(h, Pow2(k) - 1);
            And(h, Pow2(k + 1) - 1) == b || And(h, Pow2(k + 1) - 1) == b + Pow2(k)
    decreases k
  {
    MaskStep(h, k);
    if k == 0 {
      assert And(h / 2, 0) == 0 && And(h, 0) == 0;
    } else {
      hide And;
      MaskStep(h, k - 1);
      MaskDouble(h / 2, k - 1);
    }
  }

  // ----- Chains -----

  class Node<K, V> {
    const key: K
    const hashv: nat
    var value: V
    var next: Node?<K, V>

    constructor (key: K, hashv: nat, value: V)
      ensures this.key == key && this.hashv == hashv && this.value == value && next == null
    {
      this.key, this.hashv, this.value, next := key, hashv, value, null;
    }
  }

  ghost function First<K, V>(chain: seq<Node<K, V>>, end: Node?<K, V>): Node?<K, V> {
    if chain == [] then end else chain[0]
  }

  ghost function After<K, V>(chain: seq<Node<K, V>>, i: nat, end: Node?<K, V>): Node?<K, V> {
    if i + 1 < |chain| then chain[i + 1] else end
  }

  /** The nodes are linked one after another, and the last one to `end`. */
  ghost predicate Segment<K, V>(chain: seq<Node<K, V>>, end: Node?<K, V>)
    reads chain`next
  {
    forall i :: 0 <= i < |chain| ==> chain[i].next == After(chain, i, end)
  }

  ghost predicate Linked<K, V>(head: Node?<K, V>, chain: seq<Node<K, V>>)
    reads chain`next
  {
    head == First(chain, null) && Segment(chain, null)
  }

  ghost predicate DistinctKeys<K, V>(chain: seq<Node<K, V>>) {
    forall i, j :: 0 <= i < j < |chain| ==> chain[i].key != chain[j].key
  }

  ghost predicate HasKey<K, V>(chain: seq<Node<K, V>>, key: K) {
    exists i :: 0 <= i < |chain| && chain[i].key == key
  }

  /** The nodes of a chain that stay in bucket x under the mask, in order. */
  ghost function Stays<K, V>(chain: seq<Node<K, V>>, mask: nat, x: nat): seq<Node<K, V>> {
    if chain == [] then []
    else
      var rest := Stays(chain[..|chain| - 1], mask, x);
      var n := chain[|chain| - 1];
      if And(n.hashv, mask) == x then rest + [n] else rest
  }

  /** The nodes that leave, last one first. */
  ghost function Leaves<K, V>(chain: seq<Node<K, V>>, mask: nat, x: nat): seq<Node<K, V>> {
    if chain == [] then []
    else
      var rest := Leaves(chain[..|chain| - 1], mask, x);
      var n := chain[|chain| - 1];
      if And(n.hashv, mask) == x then rest else [n] + rest
  }

  lemma {:induction false} SplitMembers<K, V>(chain: seq<Node<K, V>>, mask: nat, x: nat)
    ensures var stay, leave := Stays(chain, mask, x), Leaves(chain, mask, x);
            && (forall i :: 0 <= i < |stay| ==> stay[i] in chain && And(stay[i].hashv, mask) == x)
            && (forall i :: 0 <= i < |leave| ==> leave[i] in chain && And(leave[i].hashv, mask) != x)
            && (forall i :: 0 <= i < |chain| ==> chain[i] in stay || chain[i] in leave)
  {
    hide And;
    if chain == [] {
    } else {
      SplitMembers(chain[..|chain| - 1], mask, x);
      assert chain == chain[..|chain| - 1] + [chain[|chain| - 1]];
    }
  }

  lemma {:induction false} SplitDistinct<K, V>(chain: seq<Node<K, V>>, mask: nat, x: nat)
    requires DistinctKeys(chain)
    ensures DistinctKeys(Stays(chain, mask, x)) && DistinctKeys(Leaves(chain, mask, x))
  {
    hide And;
    if chain == [] {
    } else {
      var init, n := chain[..|chain| - 1], chain[|chain| - 1];
      SplitDistinct(init, mask, x);
      SplitMembers(init, mask, x);
    }
  }

  ghost predicate Without<K, V>(chain: seq<Node<K, V>>, n: Node<K, V>) {
    forall i :: 0 <= i < |chain| ==> chain[i] != n
  }

  lemma SplitStep<K, V>(chain: seq<Node<K, V>>, mask: nat, x: nat, i: nat)
    requires i < |chain|
    ensures var n, stay, leave := chain[i], Stays(chain[..i], mask, x), Leaves(chain[..i], mask, x);
            && Stays(chain[..i + 1], mask, x) == (if And(n.hashv, mask) == x then stay + [n] else stay)
            && Leaves(chain[..i + 1], mask, x) == (if And(n.hashv, mask) == x then leave else [n] + leave)
  {
    hide And;
    assert chain[..i + 1][..i] == chain[..i];
  }

  /** The node in hand, the one before it and the three parts of a chain being split have nothing in common. */
  lemma SplitApart<K, V>(chain: seq<Node<K, V>>, mask: nat, x: nat, i: nat)
    requires DistinctKeys(chain) && i < |chain|
    ensures var stay, leave, rest := Stays(chain[..i], mask, x), Leaves(chain[..i], mask, x), chain[i + 1..];
            && Without(stay, chain[i]) && Without(rest, chain[i]) && Without(leave, chain[i])
            && (stay != [] ==>
                  var prev := stay[|stay| - 1];
                  prev in chain && Without(rest, prev) && Without(leave, prev) && Without(stay[..|stay| - 1], prev))
  {
    hide And, Stays, Leaves;
    SplitMembers(chain[..i], mask, x);
    SplitDistinct(chain[..i], mask, x);
  }

  lemma HeadOff<K, V>(chain: seq<Node<K, V>>, i: nat)
    requires i < |chain| && Segment(chain[i..], null)
    ensures First(chain[i..], null) == chain[i]
    ensures chain[i].next == First(chain[i + 1..], null) && Segment(chain[i + 1..], null)
  {
    var all, rest := chain[i..], chain[i + 1..];
    assert all[0] == chain[i];
    assert forall j :: 0 <= j < |rest| ==> rest[j] == all[j + 1];
  }

  lemma Extend<K, V>(stay: seq<Node<K, V>>, n: Node<K, V>)
    requires Segment(stay, n)
    ensures Segment(stay + [n], n.next) && First(stay + [n], n.next) == First(stay, n)
  {}

  lemma LastLink<K, V>(stay: seq<Node<K, V>>, end: Node?<K, V>)
    requires Segment(stay, end)
    ensures stay != [] ==> stay[|stay| - 1].next == end
  {}

  /** Move `entry`, which comes between `stay` and `rest` in bucket x, to the front of bucket y. */
  method MoveNode<K, V>(nodes: array<Node?<K, V>>, x: nat, y: nat, prev: Node?<K, V>, entry: Node<K, V>,
                        ghost stay: seq<Node<K, V>>, ghost rest: seq<Node<K, V>>, ghost leave: seq<Node<K, V>>)
    requires x < nodes.Length && y < nodes.Length && x != y
    requires nodes[x] == First(stay, entry) && Segment(stay, entry)
    requires prev == if stay == [] then null else stay[|stay| - 1]
    requires entry.next == First(rest, null) && Segment(rest, null)
    requires nodes[y] == First(leave, null) && Segment(leave, null)
    requires Without(stay, entry) && Without(rest, entry) && Without(leave, entry)
    requires prev != null ==> Without(rest, prev) && Without(leave, prev) && Without(stay[..|stay| - 1], prev)
    modifies nodes, entry`next, (if prev == null then {} else {prev})`next
    ensures nodes[x] == First(stay, First(rest, null)) && Segment(stay, First(rest, null))
    ensures Segment(rest, null)
    ensures nodes[y] == entry && Segment([entry] + leave, null)
    ensures forall b :: 0 <= b < nodes.Length && b != x && b != y ==> nodes[b] == old(nodes[b])
  {
    if prev != null {
      prev.next := entry.next;
      assert forall i :: 0 <= i < |stay| - 1 ==> stay[i] == stay[..|stay| - 1][i];
    } else {
      nodes[x] := entry.next;
    }
    entry.next := nodes[y];
    nodes[y] := entry;
  }

  /** Bucket x has been split up to the i-th node of its chain, which is `entry`; `prev` is the last that stayed. */
  ghost predicate Splitting<K, V>(nodes: array<Node?<K, V>>, x: nat, y: nat, mask: nat, chain: seq<Node<K, V>>,
                                  i: nat, prev: Node?<K, V>, entry: Node?<K, V>)
    requires x < nodes.Length && y < nodes.Length && i <= |chain|
    reads nodes, chain, Stays(chain[..i], mask, x), Leaves(chain[..i], mask, x)
  {
    var stay, leave := Stays(chain[..i], mask, x), Leaves(chain[..i], mask, x);
    && entry == First(chain[i..], null) && Segment(chain[i..], null)
    && nodes[x] == First(stay, entry) && Segment(stay, entry)
    && prev == (if stay == [] then null else stay[|stay| - 1])
    && nodes[y] == First(leave, null) && Segment(leave, null)
  }

  /** One round of the inner loop of `_hash_resize`. */
  method SplitOne<K, V>(nodes: array<Node?<K, V>>, x: nat, y: nat, mask: nat, ghost chain: seq<Node<K, V>>,
                        ghost i: nat, prev0: Node?<K, V>, entry0: Node<K, V>)
    returns (prev: Node?<K, V>, entry: Node?<K, V>)
    requires x < nodes.Length && y < nodes.Length && x != y
    requires i < |chain| && DistinctKeys(chain)
    requires Splitting(nodes, x, y, mask, chain, i, prev0, entry0)
    modifies nodes, chain`next
    ensures Splitting(nodes, x, y, mask, chain, i + 1, prev, entry)
    ensures forall b :: 0 <= b < nodes.Length && b != x && b != y ==> nodes[b] == old(nodes[b])
  {
    hide And, Stays, Leaves, Segment, Without;
    ghost var stay, leave := Stays(chain[..i], mask, x), Leaves(chain[..i], mask, x);
    SplitApart(chain, mask, x, i);
    SplitStep(chain, mask, x, i);
    HeadOff(chain, i);
    if And(entry0.hashv, mask) != x {
      MoveNode(nodes, x, y, prev0, entry0, stay, chain[i + 1..], leave);
      prev := prev0;
    } else {
      Extend(stay, entry0);
      stay := stay + [entry0];
      prev := entry0;
    }
    LastLink(stay, First(chain[i + 1..], null));
    entry := if prev != null then prev.next else nodes[x];
  }

  /** The inner loop of `_hash_resize`: split the chain of bucket x over x and y, relinking in place. */
  method SplitChain<K, V>(nodes: array<Node?<K, V>>, x: nat, y: nat, mask: nat, ghost chain: seq<Node<K, V>>)
    requires x < nodes.Length && y < nodes.Length && x != y
    requires Linked(nodes[x], chain) && DistinctKeys(chain) && nodes[y] == null
    modifies nodes, chain`next
    ensures Linked(nodes[x], Stays(chain, mask, x))
    ensures Linked(nodes[y], Leaves(chain, mask, x))
    ensures forall b :: 0 <= b < nodes.Length && b != x && b != y ==> nodes[b] == old(nodes[b])
  {
    hide And;
    var prev: Node?<K, V> := null;
    var entry := nodes[x];
    ghost var i := 0;
    assert chain[0..] == chain;
    while entry != null
      invariant 0 <= i <= |chain|
      invariant Splitting(nodes, x, y, mask, chain, i, prev, entry)
      invariant forall b :: 0 <= b < nodes.Length && b != x && b != y ==> nodes[b] == old(nodes[b])
      decreases |chain| - i
    {
      prev, entry := SplitOne(nodes, x, y, mask, chain, i, prev, entry);
      i := i + 1;
    }
    assert chain[..i] == chain;
  }

  // ----- Finding, adding and dropping a node -----

  /** The position of a key in a chain, or its length. */
  ghost function IndexOf<K, V>(chain: seq<Node<K, V>>, key: K): (i: nat)
    ensures i <= |chain| && (i < |chain| ==> chain[i].key == key)
    ensures forall j :: 0 <= j < i ==> chain[j].key != key
  {
    if chain == [] || chain[0].key == key then 0 else 1 + IndexOf(chain[1..], key)
  }

  /** `_hash_lookup_node` within a bucket: the node of the key and the one before it. */
  method FindNode<K(==), V>(head: Node?<K, V>, key: K, ghost chain: seq<Node<K, V>>)
    returns (prev: Node?<K, V>, node: Node?<K, V>, ghost i: nat)
    requires Linked(head, chain)
    ensures i == IndexOf(chain, key)
    ensures node == if i < |chain| then chain[i] else null
    ensures prev == if i > 0 then chain[i - 1] else null
  {
    prev, node, i := null, head, 0;
    while node != null && node.key != key
      invariant 0 <= i <= |chain|
      invariant node == if i < |chain| then chain[i] else null
      invariant prev == if i > 0 then chain[i - 1] else null
      invariant forall j :: 0 <= j < i ==> chain[j].key != key
      decreases |chain| - i
    {
      prev, node, i := node, node.next, i + 1;
    }
  }

  /** Hang a new node on the end of a chain. */
  method AppendNode<K, V>(
      nodes: array<Node?<K, V>>, b: nat, prev: Node?<K, V>, n: Node<K, V>, ghost chain: seq<Node<K, V>>)
    requires b < nodes.Length && Linked(nodes[b], chain) && DistinctKeys(chain)
    requires prev == if chain == [] then null else chain[|chain| - 1]
    requires n.next == null && Without(chain, n)
    modifies nodes, (if prev == null then {} else {prev})`next
    ensures Linked(nodes[b], chain + [n])
    ensures forall c :: 0 <= c < nodes.Length && c != b ==> nodes[c] == old(nodes[c])
  {
    if prev != null {
      prev.next := n;
    } else {
      nodes[b] := n;
    }
  }

  ghost function Drop<T>(s: seq<T>, i: nat): seq<T>
    requires i < |s|
  {
    s[..i] + s[i + 1..]
  }

  /** Take the i-th node out of a chain. */
  method DropNode<K, V>(nodes: array<Node?<K, V>>, b: nat, prev: Node?<K, V>, node: Node<K, V>,
                        ghost chain: seq<Node<K, V>>, ghost i: nat)
    requires b < nodes.Length && Linked(nodes[b], chain) && DistinctKeys(chain)
    requires i < |chain| && node == chain[i]
    requires prev == if i > 0 then chain[i - 1] else null
    modifies nodes, (if prev == null then {} else {prev})`next
    ensures Linked(nodes[b], Drop(chain, i))
    ensures forall c :: 0 <= c < nodes.Length && c != b ==> nodes[c] == old(nodes[c])
  {
    if prev != null {
      prev.next := node.next;
    } else {
      nodes[b] := node.next;
    }
  }

  // ----- Buckets -----

  type Chains<!K, !V> = seq<seq<Node<K, V>>>

  /** Every node sits in the bucket of its hash value, and no key occurs twice. */
  ghost predicate Placed<K, V>(chains: Chains<K, V>, all: set<Node<K, V>>, size: nat, hash: K -> nat) {
    && 0 < size == |chains|
    && (forall b, i :: 0 <= b < |chains| && 0 <= i < |chains[b]| ==>
          var n := chains[b][i];
          n in all && n.hashv == hash(n.key) && And(n.hashv, size - 1) == b)
    && (forall b :: 0 <= b < |chains| ==> DistinctKeys(chains[b]))
  }

  /** The bucket array and the links spell out the chains. */
  ghost predicate LinkedUp<K, V>(nodes: array<Node?<K, V>>, chains: Chains<K, V>, all: set<Node<K, V>>)
    reads nodes, all`next
  {
    && nodes.Length == |chains|
    && (forall b, i :: 0 <= b < |chains| && 0 <= i < |chains[b]| ==> chains[b][i] in all)
    && (forall b :: 0 <= b < |chains| ==> Linked(nodes[b], chains[b]))
  }

  /** The chains hold the entries of the map and nothing else. */
  ghost predicate Holds<K, V>(chains: Chains<K, V>, all: set<Node<K, V>>, model: map<K, V>, size: nat, hash: K -> nat)
    reads all`value
  {
    && size > 0
    && (forall b, i :: 0 <= b < |chains| && 0 <= i < |chains[b]| ==>
          var n := chains[b][i]; n in all && n.key in model && model[n.key] == n.value)
    && (forall k :: k in model ==>
          var b := And(hash(k), size - 1); b < |chains| && HasKey(chains[b], k))
  }

  /** Nodes with the same key are the same node. */
  lemma KeysAreUnique<K, V>(chains: Chains<K, V>, all: set<Node<K, V>>, size: nat, hash: K -> nat,
                            b: nat, i: nat, c: nat, j: nat)
    requires Placed(chains, all, size, hash)
    requires b < |chains| && i < |chains[b]| && c < |chains| && j < |chains[c]|
    ensures chains[b][i].key == chains[c][j].key <==> b == c && i == j
  {
    hide And;
  }

  // Adding a node to the end of bucket b

  lemma AddKeepsPlaced<K, V>(
      chains: Chains<K, V>, all: set<Node<K, V>>, size: nat, hash: K -> nat, b: nat, n: Node<K, V>)
    requires Placed(chains, all, size, hash)
    requires b < |chains| && n.hashv == hash(n.key) && And(n.hashv, size - 1) == b
    requires IndexOf(chains[b], n.key) == |chains[b]|
    ensures Placed(chains[b := chains[b] + [n]], all + {n}, size, hash)
  {
    hide And;
  }

  lemma AddKeepsHolds<K, V>(chains: Chains<K, V>, all: set<Node<K, V>>, model: map<K, V>, size: nat, hash: K -> nat,
                            b: nat, n: Node<K, V>)
    requires Holds(chains, all, model, size, hash)
    requires b < |chains| && b == And(hash(n.key), size - 1) && n.key !in model
    ensures Holds(chains[b := chains[b] + [n]], all + {n}, model[n.key := n.value], size, hash)
  {
    hide And;
    var grown := chains[b := chains[b] + [n]];
    forall k | k in model[n.key := n.value]
      ensures var c := And(hash(k), size - 1); c < |grown| && HasKey(grown[c], k)
    {
      var c := And(hash(k), size - 1);
      if k == n.key {
        assert grown[b][|chains[b]|] == n;
      } else {
        var i :| 0 <= i < |chains[c]| && chains[c][i].key == k;
        assert grown[c][i] == chains[c][i];
      }
    }
  }

  // Dropping the i-th node of bucket b

  lemma DropKeepsPlaced<K, V>(chains: Chains<K, V>, all: set<Node<K, V>>, size: nat, hash: K -> nat, b: nat, i: nat)
    requires Placed(chains, all, size, hash) && b < |chains| && i < |chains[b]|
    ensures Placed(chains[b := Drop(chains[b], i)], all, size, hash)
  {
    hide And;
  }

  lemma DropKeepsHolds<K, V>(chains: Chains<K, V>, all: set<Node<K, V>>, model: map<K, V>, size: nat, hash: K -> nat,
                             b: nat, i: nat)
    requires Placed(chains, all, size, hash) && Holds(chains, all, model, size, hash)
    requires b < |chains| && i < |chains[b]|
    ensures Holds(chains[b := Drop(chains[b], i)], all, model - {chains[b][i].key}, size, hash)
  {
    hide And, Placed;
    var less: Chains<K, V> := chains[b := Drop(chains[b], i)];
    var gone := chains[b][i].key;
    forall c: nat, j: nat | c < |less| && j < |less[c]| ensures less[c][j].key != gone && less[c][j] in chains[c] {
      KeysAreUnique(chains, all, size, hash, b, i, c, if c == b && j >= i then j + 1 else j);
    }
    forall k | k in model && k != gone
      ensures var c := And(hash(k), size - 1); c < |less| && HasKey(less[c], k)
    {
      var c := And(hash(k), size - 1);
      var j :| 0 <= j < |chains[c]| && chains[c][j].key == k;
      assert less[c][if c == b && j > i then j - 1 else j] == chains[c][j];
    }
  }

  // Doubling the table

  /** The chains when the first x buckets have been split over a table of twice the size. */
  ghost function Bucket<K, V>(chains: Chains<K, V>, x: nat, b: nat): seq<Node<K, V>>
    requires x <= |chains| && b < 2 * |chains|
  {
    var n, mask := |chains|, 2 * |chains| - 1;
    if b < n then
      if b < x then Stays(chains[b], mask, b) else chains[b]
    else
      if b - n < x then Leaves(chains[b - n], mask, b - n) else []
  }

  ghost function Doubling<K, V>(chains: Chains<K, V>, x: nat): (r: Chains<K, V>)
    requires x <= |chains|
    ensures |r| == 2 * |chains|
    ensures forall b :: 0 <= b < |r| ==> r[b] == Bucket(chains, x, b)
  {
    seq(2 * |chains|, b requires 0 <= b < 2 * |chains| => Bucket(chains, x, b))
  }

  /** The bucket, before doubling a table of n buckets, of what bucket b holds after. */
  ghost function Origin(n: nat, b: nat): nat
    requires b < 2 * n
  {
    if b < n then b else b - n
  }

  lemma BucketIs<K, V>(chains: Chains<K, V>, x: nat, b: nat)
    requires x <= |chains| && b < 2 * |chains|
    ensures var n := |chains|;
            Bucket(chains, x, b) ==
            if b < n then (if b < x then Stays(chains[b], 2 * n - 1, b) else chains[b])
            else if b - n < x then Leaves(chains[b - n], 2 * n - 1, b - n)
            else []
  {}

  lemma BucketMembers<K, V>(chains: Chains<K, V>, x: nat, b: nat)
    requires x <= |chains| && b < 2 * |chains|
    ensures var r, from := Bucket(chains, x, b), chains[Origin(|chains|, b)];
            forall i :: 0 <= i < |r| ==> r[i] in from
  {
    hide And, Bucket, Stays, Leaves;
    var n := |chains|;
    BucketIs(chains, x, b);
    if b < n {
      StaysIn(chains[b], 2 * n - 1, b);
    } else {
      LeavesIn(chains[b - n], 2 * n - 1, b - n);
    }
  }

  lemma StaysIn<K, V>(chain: seq<Node<K, V>>, mask: nat, x: nat)
    ensures var r := Stays(chain, mask, x);
            forall i :: 0 <= i < |r| ==> r[i] in chain && And(r[i].hashv, mask) == x
  {
    hide And, Stays, Leaves;
    SplitMembers(chain, mask, x);
  }

  lemma LeavesIn<K, V>(chain: seq<Node<K, V>>, mask: nat, x: nat)
    ensures var r := Leaves(chain, mask, x);
            forall i :: 0 <= i < |r| ==> r[i] in chain && And(r[i].hashv, mask) != x
  {
    hide And, Stays, Leaves;
    SplitMembers(chain, mask, x);
  }

  lemma BucketIsRight<K, V>(chains: Chains<K, V>, b: nat)
    requires b < 2 * |chains|
    ensures var n, r := |chains|, Bucket(chains, |chains|, b);
            forall i :: 0 <= i < |r| ==> (And(r[i].hashv, 2 * n - 1) == Origin(n, b) <==> b < n)
  {
    hide And, Bucket, Stays, Leaves;
    var n := |chains|;
    BucketIs(chains, n, b);
    if b < n {
      StaysIn(chains[b], 2 * n - 1, b);
    } else {
      LeavesIn(chains[b - n], 2 * n - 1, b - n);
    }
  }

  lemma DoublingKeepsPlaced<K, V>(chains: Chains<K, V>, all: set<Node<K, V>>, log: nat, hash: K -> nat)
    requires Placed(chains, all, Pow2(log), hash)
    ensures Placed(Doubling(chains, |chains|), all, Pow2(log + 1), hash)
  {
    hide And, Stays, Leaves;
    var n, r := |chains|, Doubling(chains, |chains|);
    forall b: nat, i: nat | b < |r| && i < |r[b]|
      ensures r[b][i] in all && r[b][i].hashv == hash(r[b][i].key) && And(r[b][i].hashv, 2 * n - 1) == b
    {
      BucketMembers(chains, n, b);
      BucketIsRight(chains, b);
      MaskDouble(r[b][i].hashv, log);
    }
    forall b: nat | b < |r| ensures DistinctKeys(r[b]) {
      SplitDistinct(chains[Origin(n, b)], 2 * n - 1, Origin(n, b));
    }
  }

  lemma DoublingKeepsHolds<K, V>(chains: Chains<K, V>, all: set<Node<K, V>>, model: map<K, V>, log: nat, hash: K -> nat)
    requires Placed(chains, all, Pow2(log), hash) && Holds(chains, all, model, Pow2(log), hash)
    ensures Holds(Doubling(chains, |chains|), all, model, Pow2(log + 1), hash)
  {
    hide And, Stays, Leaves, DistinctKeys;
    var n, r := |chains|, Doubling(chains, |chains|);
    forall b: nat, i: nat | b < |r| && i < |r[b]|
      ensures r[b][i] in all && r[b][i].key in model && model[r[b][i].key] == r[b][i].value
    {
      BucketMembers(chains, n, b);
    }
    forall k | k in model
      ensures var c := And(hash(k), 2 * n - 1); c < |r| && HasKey(r[c], k)
    {
      DoublingKeepsKey(chains, all, model, log, hash, k);
    }
  }

  lemma DoublingKeepsKey<K, V>(
      chains: Chains<K, V>, all: set<Node<K, V>>, model: map<K, V>, log: nat, hash: K -> nat, k: K)
    requires Placed(chains, all, Pow2(log), hash) && Holds(chains, all, model, Pow2(log), hash) && k in model
    ensures var r, c := Doubling(chains, |chains|), And(hash(k), 2 * |chains| - 1); c < |r| && HasKey(r[c], k)
  {
    hide And, Stays, Leaves, DistinctKeys;
    var n := |chains|;
    var b := And(hash(k), n - 1);
    MaskDouble(hash(k), log);
    var i :| 0 <= i < |chains[b]| && chains[b][i].key == k;
    KeptSomewhere(chains[b], 2 * n - 1, b, i);
  }

  lemma KeptSomewhere<K, V>(chain: seq<Node<K, V>>, mask: nat, x: nat, i: nat)
    requires i < |chain|
    ensures if And(chain[i].hashv, mask) == x then HasKey(Stays(chain, mask, x), chain[i].key)
            else HasKey(Leaves(chain, mask, x), chain[i].key)
  {
    hide And, Stays, Leaves;
    SplitMembers(chain, mask, x);
  }

  /** Nodes of different buckets are different. */
  lemma BucketsApart<K, V>(chains: Chains<K, V>, all: set<Node<K, V>>, size: nat, hash: K -> nat, x: nat, b: nat)
    requires Placed(chains, all, size, hash) && x < size && b < 2 * size && Origin(size, b) != x
    ensures var r := Bucket(chains, x, b);
            forall i :: 0 <= i < |r| ==> r[i] !in chains[x]
  {
    hide And, Stays, Leaves, DistinctKeys;
    BucketMembers(chains, x, b);
  }

  /** Splitting one more bucket in place takes the heap one step further. */
  method SplitBucket<K, V>(nodes: array<Node?<K, V>>, x: nat, size: nat, ghost chains: Chains<K, V>,
                           ghost all: set<Node<K, V>>, ghost hash: K -> nat)
    requires Placed(chains, all, size, hash) && x < size
    requires LinkedUp(nodes, Doubling(chains, x), all)
    modifies nodes, all`next
    ensures LinkedUp(nodes, Doubling(chains, x + 1), all)
  {
    hide And, Stays, Leaves, DistinctKeys, Segment;
    ghost var was, now := Doubling(chains, x), Doubling(chains, x + 1);
    assert was[x] == chains[x] && was[x + size] == [];
    EmptyLink(nodes[x + size]);
    SplitChain(nodes, x, x + size, 2 * size - 1, chains[x]);
    forall b: nat | b < |now| ensures Linked(nodes[b], now[b]) {
      if b != x && b != x + size {
        BucketsApart(chains, all, size, hash, x, b);
      }
    }
    forall b: nat, i: nat | b < |now| && i < |now[b]| ensures now[b][i] in all {
      BucketMembers(chains, x + 1, b);
    }
  }

  lemma EmptyLink<K, V>(head: Node?<K, V>)
    ensures Linked(head, []) <==> head == null
  {}

  // ----- The table -----

  class Table<K(==), V> {
    const hash: K -> nat
    var size: nat
    var num: nat
    var nodes: array<Node?<K, V>>
    ghost var log: nat
    ghost var chains: Chains<K, V>
    ghost var all: set<Node<K, V>>
    ghost var model: map<K, V>
    /** How many inserts have found their key in the table. */
    ghost var overwrites: nat

    ghost predicate ChainsOk()
      reads `size, `nodes, `chains, `all, `model, nodes, all
    {
      Placed(chains, all, size, hash) && LinkedUp(nodes, chains, all) && Holds(chains, all, model, size, hash)
    }

    ghost predicate Stored()
      reads this, nodes, all
    {
      size == Pow2(log) && ChainsOk() && num == |model| + overwrites && num <= size
    }

    ghost predicate Valid()
      reads this, nodes, all
    {
      Stored() && num < size
    }

    /** `ne_hash_init`. */
    constructor (hash: K -> nat)
      ensures Valid() && model == map[] && num == 0 && overwrites == 0 && this.hash == hash
      ensures fresh(nodes) && all == {}
    {
      this.hash := hash;
      size, num := 256, 0;
      nodes := new Node?<K, V>[256](_ => null);
      log, chains, all, model, overwrites := 8, seq(256, _ => []), {}, map[], 0;
      new;
      assert Pow2(8) == 256;
    }

    /** A key is in the map exactly when the chain of its bucket has it. */
    lemma FoundIsStored(key: K)
      requires Stored()
      ensures var b := And(hash(key), size - 1);
              && b < |chains|
              && (IndexOf(chains[b], key) < |chains[b]| <==> key in model)
              && (key in model ==> model[key] == chains[b][IndexOf(chains[b], key)].value)
    {
      hide And, DistinctKeys, LinkedUp;
      MaskBound(hash(key), log);
    }

    /** `_hash_lookup_node`. */
    method Find(key: K) returns (b: nat, prev: Node?<K, V>, node: Node?<K, V>, ghost i: nat)
      requires Stored()
      ensures b == And(hash(key), size - 1) < |chains| && i == IndexOf(chains[b], key)
      ensures node == if i < |chains[b]| then chains[b][i] else null
      ensures prev == if i > 0 then chains[b][i - 1] else null
      ensures node != null <==> key in model
      ensures node != null ==> node in all && node.value == model[key]
    {
      hide And, Holds;
      FoundIsStored(key);
      b := And(hash(key), size - 1);
      prev, node, i := FindNode(nodes[b], key, chains[b]);
    }

    /** `ne_hash_lookup`. */
    method Lookup(key: K) returns (r: Option<V>)
      requires Valid()
      ensures r == if key in model then Some(model[key]) else None
    {
      var _, _, node, _ := Find(key);
      r := if node != null then Some(node.value) else None;
    }

    /** `ne_hash_insert`: `num` is the number of entries and overwrites, and stays below `size`. */
    method Insert(key: K, value: V)
      requires Valid()
      modifies this, nodes, all
      ensures Valid() && model == old(model)[key := value]
      ensures fresh(all - old(all)) && (nodes == old(nodes) || fresh(nodes))
      ensures num == old(num) + 1
      ensures overwrites == old(overwrites) + if key in old(model) then 1 else 0
      ensures size == if num < old(size) then old(size) else 2 * old(size)
    {
      hide And, Pow2, ChainsOk;
      var hashv := hash(key);
      var b, prev, node, i := Find(key);
      if node != null {
        SetValue(node, value, b, i);
        overwrites := overwrites + 1;
      } else {
        var n := new Node(key, hashv, value);
        AddNode(n, prev, b);
      }
      num := num + 1;
      Resize();
    }

    method SetValue(node: Node<K, V>, value: V, ghost b: nat, ghost i: nat)
      requires ChainsOk()
      requires b < |chains| && i < |chains[b]| && node == chains[b][i]
      modifies `model, node`value
      ensures ChainsOk() && model == old(model)[node.key := value]
    {
      hide And, DistinctKeys, HasKey, Placed, LinkedUp;
      forall c: nat, j: nat | c < |chains| && j < |chains[c]|
        ensures chains[c][j].key == node.key ==> chains[c][j] == node
      {
        KeysAreUnique(chains, all, size, hash, b, i, c, j);
      }
      node.value := value;
      model := model[node.key := value];
    }

    method AddNode(n: Node<K, V>, prev: Node?<K, V>, b: nat)
      requires ChainsOk()
      requires b < |chains| && n !in all && n.next == null && n.key !in model
      requires n.hashv == hash(n.key) && b == And(n.hashv, size - 1)
      requires IndexOf(chains[b], n.key) == |chains[b]|
      requires prev == if chains[b] == [] then null else chains[b][|chains[b]| - 1]
      modifies `model, `all, `chains, nodes, all`next
      ensures ChainsOk()
      ensures model == old(model)[n.key := n.value] && all == old(all) + {n}
    {
      hide And, Placed, Holds;
      HangNode(n, prev, b);
      AddKeepsPlaced(old(chains), old(all), size, hash, b, n);
      AddKeepsHolds(old(chains), old(all), model, size, hash, b, n);
      model := model[n.key := n.value];
    }

    method HangNode(n: Node<K, V>, prev: Node?<K, V>, b: nat)
      requires Placed(chains, all, size, hash) && LinkedUp(nodes, chains, all)
      requires b < |chains| && n !in all && n.next == null
      requires prev == if chains[b] == [] then null else chains[b][|chains[b]| - 1]
      modifies `all, `chains, nodes, all`next
      ensures LinkedUp(nodes, chains, all)
      ensures chains == old(chains)[b := old(chains)[b] + [n]] && all == old(all) + {n}
    {
      hide And, Segment;
      AppendNode(nodes, b, prev, n, chains[b]);
      all := all + {n};
      chains := chains[b := chains[b] + [n]];
    }

    /** `ne_hash_remove`. */
    method Remove(key: K) returns (r: Option<V>)
      requires Valid()
      modifies this, nodes, all
      ensures Valid() && model == old(model) - {key} && size == old(size)
      ensures r == if key in old(model) then Some(old(model)[key]) else None
      ensures num == if key in old(model) then old(num) - 1 else old(num)
      ensures overwrites == old(overwrites)
      ensures nodes == old(nodes) && all == old(all)
    {
      hide And, Pow2, ChainsOk;
      var b, prev, node, i := Find(key);
      if node == null {
        return None;
      }
      r := Some(node.value);
      UnhookNode(node, prev, b, i);
      num := num - 1;
    }

    method UnhookNode(node: Node<K, V>, prev: Node?<K, V>, b: nat, ghost i: nat)
      requires ChainsOk() && b < |chains| && i < |chains[b]|
      requires node == chains[b][i] && prev == if i > 0 then chains[b][i - 1] else null
      modifies `model, `chains, nodes, all`next
      ensures ChainsOk() && model == old(model) - {node.key}
    {
      hide And, Placed, Holds;
      DropKeepsPlaced(chains, all, size, hash, b, i);
      DropKeepsHolds(chains, all, model, size, hash, b, i);
      CutNode(node, prev, b, i);
      chains, model := chains[b := Drop(chains[b], i)], model - {node.key};
    }

    method CutNode(node: Node<K, V>, prev: Node?<K, V>, b: nat, ghost i: nat)
      requires Placed(chains, all, size, hash) && LinkedUp(nodes, chains, all) && b < |chains| && i < |chains[b]|
      requires node == chains[b][i] && prev == if i > 0 then chains[b][i - 1] else null
      modifies nodes, all`next
      ensures LinkedUp(nodes, chains[b := Drop(chains[b], i)], all)
    {
      hide And, Segment;
      DropNode(nodes, b, prev, node, chains[b], i);
    }

    /** `ne_hash_next`: the entry that follows a key, or the first one. */
    method Next(key: Option<K>) returns (r: Option<(K, V)>)
      requires Valid()
      ensures var rest := Remaining(chains, size, hash, key);
              r == if rest == [] then None else Some((rest[0].key, rest[0].value))
    {
      hide And, Holds, DistinctKeys, Linked, From;
      if key.None? {
        r := FirstFrom(0);
        return;
      }
      var b, _, node, i := Find(key.value);
      if node == null {
        r := FirstFrom(b);
        return;
      }
      r := NextAfter(b, node, i);
    }

    method NextAfter(b: nat, node: Node<K, V>, ghost i: nat) returns (r: Option<(K, V)>)
      requires nodes.Length == size && LinkedUp(nodes, chains, all)
      requires b < |chains| && i < |chains[b]| && node == chains[b][i]
      ensures var rest := chains[b][i + 1..] + From(chains, b + 1);
              r == if rest == [] then None else Some((rest[0].key, rest[0].value))
    {
      hide Linked, From;
      NextInChain(nodes[b], chains[b], i);
      if node.next != null {
        r := Some((node.next.key, node.next.value));
      } else {
        r := FirstFrom(b + 1);
      }
    }

    /** The scan of `ne_hash_next` for the first bucket in use. */
    method FirstFrom(start: nat) returns (r: Option<(K, V)>)
      requires nodes.Length == size && LinkedUp(nodes, chains, all) && start <= size
      ensures var rest := From(chains, start);
              r == if rest == [] then None else Some((rest[0].key, rest[0].value))
    {
      hide Segment;
      var bucket := start;
      while bucket < size
        invariant start <= bucket <= size && From(chains, start) == From(chains, bucket)
      {
        if nodes[bucket] != null {
          return Some((nodes[bucket].key, nodes[bucket].value));
        }
        bucket := bucket + 1;
      }
      r := None;
    }

    /** Starting without a key and going on until there is no entry visits every entry exactly once. */
    method Enumerate() returns (out: seq<(K, V)>)
      requires Valid()
      ensures forall i, j :: 0 <= i < j < |out| ==> out[i].0 != out[j].0
      ensures forall i :: 0 <= i < |out| ==> out[i].0 in model && out[i].1 == model[out[i].0]
      ensures forall k :: k in model ==> exists i :: 0 <= i < |out| && out[i].0 == k
    {
      hide And, Placed, LinkedUp, Remaining;
      ghost var order := Remaining(chains, size, hash, None);
      OrderIsModel(order);
      var key: Option<K> := None;
      out := [];
      while true
        invariant |out| <= |order| && Remaining(chains, size, hash, key) == order[|out|..]
        invariant forall i :: 0 <= i < |order| ==> order[i] in all && order[i].value == model[order[i].key]
        invariant forall i :: 0 <= i < |out| ==> out[i].0 == order[i].key && out[i].1 == model[order[i].key]
        decreases |order| - |out|
      {
        var next := Next(key);
        if next.None? {
          break;
        }
        RemainingStep(chains, all, size, hash, key);
        assert next.value.0 == order[|out|].key && next.value.1 == order[|out|].value;
        out := out + [next.value];
        key := Some(next.value.0);
      }
    }

    lemma OrderIsModel(order: seq<Node<K, V>>)
      requires Stored() && order == Remaining(chains, size, hash, None)
      ensures DistinctKeys(order)
      ensures forall i :: 0 <= i < |order| ==>
                order[i] in all && order[i].key in model && order[i].value == model[order[i].key]
      ensures forall k :: k in model ==> exists i :: 0 <= i < |order| && order[i].key == k
    {
      hide And, DistinctKeys, From, LinkedUp;
      OrderIsComplete(chains, all, size, hash, 0);
      forall k | k in model ensures exists i :: 0 <= i < |order| && order[i].key == k {
        var b := And(hash(k), size - 1);
        var j :| 0 <= j < |chains[b]| && chains[b][j].key == k;
        assert chains[b][j] in order;
      }
    }

    /** `_hash_resize`: when the table is full, double it and split every chain in place. */
    method Resize()
      requires Stored()
      modifies this, nodes, all
      ensures Valid()
      ensures model == old(model) && num == old(num) && overwrites == old(overwrites) && all == old(all)
      ensures nodes == old(nodes) || fresh(nodes)
      ensures size == if num < old(size) then old(size) else 2 * old(size)
    {
      hide And, Placed, LinkedUp, Holds;
      if size > num {
        return;
      }
      var grown := GrowArray(nodes, chains, all);
      DoublingKeepsPlaced(chains, all, log, hash);
      DoublingKeepsHolds(chains, all, model, log, hash);
      SplitAll(grown, size, chains, all, hash);
      nodes, size := grown, 2 * size;
      chains, log := Doubling(chains, |chains|), log + 1;
    }
  }

  /** One entry, counted twice. */
  method InsertTwice<K(==), V>(hash: K -> nat, key: K, v: V, w: V) returns (t: Table<K, V>)
    ensures t.Valid() && t.model == map[key := w] && |t.model| == 1 && t.num == 2
  {
    hide *;
    t := new Table(hash);
    t.Insert(key, v);
    t.Insert(key, w);
  }

  // ----- Walking the table -----

  lemma NextInChain<K, V>(head: Node?<K, V>, chain: seq<Node<K, V>>, i: nat)
    requires Linked(head, chain) && i < |chain|
    ensures chain[i].next == First(chain[i + 1..], null)
  {}

  /** The nodes from bucket b on, in the order `ne_hash_next` visits them. */
  ghost function From<K, V>(chains: Chains<K, V>, b: nat): seq<Node<K, V>>
    requires b <= |chains|
    decreases |chains| - b
  {
    if b == |chains| then [] else chains[b] + From(chains, b + 1)
  }

  /** The nodes still to come after a key; all of them when there is none. */
  ghost function Remaining<K, V>(chains: Chains<K, V>, size: nat, hash: K -> nat, key: Option<K>): seq<Node<K, V>>
    requires size > 0
  {
    match key
    case None => From(chains, 0)
    case Some(k) =>
      var b := And(hash(k), size - 1);
      if b >= |chains| then [] else
      var i := IndexOf(chains[b], k);
      if i < |chains[b]| then chains[b][i + 1..] + From(chains, b + 1) else From(chains, b)
  }

  /** The order starts with the first chain that is not empty. */
  lemma {:induction false} FirstChain<K, V>(chains: Chains<K, V>, b: nat) returns (c: nat)
    requires b <= |chains| && From(chains, b) != []
    ensures b <= c < |chains| && chains[c] != [] && From(chains, b) == chains[c] + From(chains, c + 1)
    decreases |chains| - b
  {
    if chains[b] != [] {
      c := b;
    } else {
      c := FirstChain(chains, b + 1);
    }
  }

  /** After the j-th node of a chain come the rest of that chain and the chains behind it. */
  lemma AfterNode<K, V>(chains: Chains<K, V>, all: set<Node<K, V>>, size: nat, hash: K -> nat, c: nat, j: nat)
    requires Placed(chains, all, size, hash) && c < |chains| && j < |chains[c]|
    ensures And(hash(chains[c][j].key), size - 1) == c
    ensures Remaining(chains, size, hash, Some(chains[c][j].key)) == chains[c][j + 1..] + From(chains, c + 1)
  {
    hide And, From;
  }

  lemma FromStep<K, V>(chains: Chains<K, V>, all: set<Node<K, V>>, size: nat, hash: K -> nat, b: nat)
    requires Placed(chains, all, size, hash) && b <= |chains| && From(chains, b) != []
    ensures Remaining(chains, size, hash, Some(From(chains, b)[0].key)) == From(chains, b)[1..]
  {
    hide And, From, Placed, Remaining;
    var c := FirstChain(chains, b);
    assert From(chains, b)[1..] == chains[c][1..] + From(chains, c + 1) && From(chains, b)[0] == chains[c][0];
    HasBuckets(chains, all, size, hash);
    AfterNode(chains, all, size, hash, c, 0);
  }

  lemma HasBuckets<K, V>(chains: Chains<K, V>, all: set<Node<K, V>>, size: nat, hash: K -> nat)
    requires Placed(chains, all, size, hash)
    ensures 0 < size == |chains|
  {}

  /** The node that comes next has the same nodes after it, less itself. */
  lemma RemainingStep<K, V>(chains: Chains<K, V>, all: set<Node<K, V>>, size: nat, hash: K -> nat, key: Option<K>)
    requires Placed(chains, all, size, hash) && Remaining(chains, size, hash, key) != []
    ensures var rest := Remaining(chains, size, hash, key);
            Remaining(chains, size, hash, Some(rest[0].key)) == rest[1..]
  {
    hide And, From, Placed;
    HasBuckets(chains, all, size, hash);
    if key.None? {
      FromStep(chains, all, size, hash, 0);
    } else {
      var b := And(hash(key.value), size - 1);
      var i := IndexOf(chains[b], key.value);
      if i >= |chains[b]| {
        FromStep(chains, all, size, hash, b);
      } else if i + 1 == |chains[b]| {
        assert chains[b][i + 1..] + From(chains, b + 1) == From(chains, b + 1);
        FromStep(chains, all, size, hash, b + 1);
      } else {
        var rest := chains[b][i + 1..] + From(chains, b + 1);
        AfterNode(chains, all, size, hash, b, i + 1);
        assert rest[1..] == chains[b][i + 2..] + From(chains, b + 1) && rest[0] == chains[b][i + 1];
      }
    }
  }

  /** Every node of the order is in the chain of its bucket, which is not before b. */
  ghost predicate FromChains<K, V>(chains: Chains<K, V>, order: seq<Node<K, V>>, size: nat, b: nat)
    requires size > 0
  {
    forall i :: 0 <= i < |order| ==>
      b <= And(order[i].hashv, size - 1) < |chains| && order[i] in chains[And(order[i].hashv, size - 1)]
  }

  ghost predicate AllChains<K, V>(chains: Chains<K, V>, order: seq<Node<K, V>>, b: nat) {
    forall c, i :: b <= c < |chains| && 0 <= i < |chains[c]| ==> chains[c][i] in order
  }

  /** The whole order has every node of the table, and no key twice. */
  lemma {:induction false} OrderIsComplete<K, V>(
      chains: Chains<K, V>, all: set<Node<K, V>>, size: nat, hash: K -> nat, b: nat)
    requires Placed(chains, all, size, hash) && b <= |chains|
    ensures var order := From(chains, b);
            DistinctKeys(order) && FromChains(chains, order, size, b) && AllChains(chains, order, b)
    decreases |chains| - b
  {
    hide And;
    if b == |chains| {
    } else {
      OrderIsComplete(chains, all, size, hash, b + 1);
      var head, tail := chains[b], From(chains, b + 1);
      HeadApart(chains, all, size, hash, b, tail);
      assert DistinctKeys(head);
      hide Placed, DistinctKeys;
      JoinDistinct(head, tail);
    }
  }

  /** The nodes of bucket b have other keys than those of the buckets after it. */
  lemma HeadApart<K, V>(
      chains: Chains<K, V>, all: set<Node<K, V>>, size: nat, hash: K -> nat, b: nat, tail: seq<Node<K, V>>)
    requires Placed(chains, all, size, hash) && b < |chains| && FromChains(chains, tail, size, b + 1)
    ensures forall i :: 0 <= i < |chains[b]| ==> And(chains[b][i].hashv, size - 1) == b
    ensures forall i, j :: 0 <= i < |chains[b]| && 0 <= j < |tail| ==> chains[b][i].key != tail[j].key
  {
    hide And, DistinctKeys;
    forall i, j | 0 <= i < |chains[b]| && 0 <= j < |tail| ensures chains[b][i].key != tail[j].key {
      var c := And(tail[j].hashv, size - 1);
      var k :| 0 <= k < |chains[c]| && chains[c][k] == tail[j];
      assert chains[c][k].hashv == hash(tail[j].key) && chains[b][i].hashv == hash(chains[b][i].key);
    }
  }

  lemma JoinDistinct<K, V>(a: seq<Node<K, V>>, b: seq<Node<K, V>>)
    requires DistinctKeys(a) && DistinctKeys(b)
    requires forall i, j :: 0 <= i < |a| && 0 <= j < |b| ==> a[i].key != b[j].key
    ensures DistinctKeys(a + b)
  {}

  /** The outer loop of `_hash_resize`. */
  method SplitAll<K, V>(nodes: array<Node?<K, V>>, orig: nat, ghost chains: Chains<K, V>,
                        ghost all: set<Node<K, V>>, ghost hash: K -> nat)
    requires Placed(chains, all, orig, hash)
    requires LinkedUp(nodes, Doubling(chains, 0), all)
    modifies nodes, all`next
    ensures LinkedUp(nodes, Doubling(chains, |chains|), all)
  {
    hide And, LinkedUp;
    for x := 0 to orig
      invariant LinkedUp(nodes, Doubling(chains, x), all)
    {
      SplitBucket(nodes, x, orig, chains, all, hash);
    }
  }

  /** The realloc of `_hash_resize`: the old buckets, and as many empty ones. */
  method GrowArray<K, V>(nodes: array<Node?<K, V>>, ghost chains: Chains<K, V>, ghost all: set<Node<K, V>>)
    returns (grown: array<Node?<K, V>>)
    requires LinkedUp(nodes, chains, all)
    ensures fresh(grown) && LinkedUp(grown, Doubling(chains, 0), all)
  {
    hide Segment;
    grown := new Node?<K, V>[2 * nodes.Length](_ => null);
    for i := 0 to nodes.Length
      invariant forall j :: 0 <= j < i ==> grown[j] == nodes[j]
      invariant forall j :: nodes.Length <= j < grown.Length ==> grown[j] == null
    {
      grown[i] := nodes[i];
    }
    EmptyLink<K, V>(null);
  }
}
