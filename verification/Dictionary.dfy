/**
 The chained hash table of the content registry (src/Dictionary.c) over doubly linked nodes
 (include/http_server/linked_node_macro.h), proved to be a map.
 */
module Dictionaries {
  import opened Bytes
  import opened Config
  import opened Numbers

  const FNV_OFFSET: nat := 1469598103934665603
  const FNV_PRIME: nat := 1099511628211

  /** Bitwise exclusive or, bit by bit. */
  function BitXor(x: nat, y: nat): nat
    decreases x + y
  {
    if x == 0 && y == 0 then 0 else 2 * BitXor(x / 2, y / 2) + (if x % 2 == y % 2 then 0 else 1)
  }

  /** The FNV hash of a key; products wrap at 64 bits. */
  function KeyHash(key: bytes): nat {
    if key == [] then FNV_OFFSET
    else Wrap(BitXor(KeyHash(key[..|key| - 1]), key[|key| - 1] as nat) * FNV_PRIME)
  }

  /** key_hash. */
  method HashKey(key: bytes) returns (h: nat)
    ensures h == KeyHash(key)
  {
    h := FNV_OFFSET;
    for i := 0 to |key|
      invariant h == KeyHash(key[..i])
    {
      assert key[..i + 1][..i] == key[..i];
      h := Wrap(BitXor(h, key[i] as nat) * FNV_PRIME);
    }
    assert key[..|key|] == key;
  }

  function BucketOf(key: bytes): (b: nat)
    ensures b < BUCKETS
  {
    KeyHash(key) % BUCKETS
  }

  class Node<V> {
    const key: bytes
    var value: V
    var next: Node?<V>
    var previous: Node?<V>

    /** node_init. */
    constructor (key: bytes, value: V)
      ensures this.key == key && this.value == value && next == null && previous == null
    {
      this.key, this.value, next, previous := key, value, null, null;
    }
  }

  class Dictionary<V> {
    const bucket: array<Node?<V>>
    ghost var chains: seq<seq<Node<V>>>
    ghost var nodes: set<Node<V>>
    ghost var contents: map<bytes, V>

    /** The node behind the `i`-th of a chain. */
    static ghost function After(chain: seq<Node<V>>, i: nat): Node?<V> {
      if i + 1 < |chain| then chain[i + 1] else null
    }

    static ghost function Ahead(chain: seq<Node<V>>, i: nat): Node?<V> {
      if 0 < i <= |chain| then chain[i - 1] else null
    }

    static ghost function First(chain: seq<Node<V>>): Node?<V> {
      if chain == [] then null else chain[0]
    }

    /** Both links of the `i`-th node agree with the chain, and its value is the map's. */
    ghost predicate NodeOk(b: nat, i: nat)
      reads this, nodes
      requires b < |chains| && i < |chains[b]|
    {
      var n := chains[b][i];
      && n in nodes && n.next == After(chains[b], i) && n.previous == Ahead(chains[b], i)
      && n.key in contents && contents[n.key] == n.value
    }

    static ghost predicate PlacedAt(chains: seq<seq<Node<V>>>, b: nat, i: nat)
      requires b < |chains| && i < |chains[b]|
    {
      BucketOf(chains[b][i].key) == b
    }

    static ghost predicate Distinct(chains: seq<seq<Node<V>>>, b: nat, i: nat, j: nat)
      requires b < |chains| && i < |chains[b]| && j < |chains[b]|
    {
      chains[b][i].key != chains[b][j].key
    }

    /** Every node sits in the bucket of its key, and no key occurs twice. */
    static ghost predicate Placed(chains: seq<seq<Node<V>>>) {
      && |chains| == BUCKETS
      && (forall b: nat, i: nat :: b < BUCKETS && i < |chains[b]| ==> PlacedAt(chains, b, i))
      && (forall b: nat, i: nat, j: nat :: b < BUCKETS && i < j < |chains[b]| ==> Distinct(chains, b, i, j))
    }

    static ghost predicate Holds(chains: seq<seq<Node<V>>>, key: bytes) {
      |chains| == BUCKETS &&
      exists i: nat :: i < |chains[BucketOf(key)]| && chains[BucketOf(key)][i].key == key
    }

    /**
     Every node is in the bucket of its key and linked both ways, chains are acyclic and
     disjoint because no key occurs twice, and the nodes are exactly the map's entries.
     */
    ghost predicate Valid()
      reads this, bucket, nodes
    {
      && bucket.Length == BUCKETS && Placed(chains)
      && (forall b: nat :: b < BUCKETS ==> bucket[b] == First(chains[b]))
      && (forall b: nat, i: nat :: b < BUCKETS && i < |chains[b]| ==> NodeOk(b, i))
      && (forall key :: key in contents ==> Holds(chains, key))
    }

    /** A new node at the head of its chain keeps every key in its one place. */
    static lemma PrependPlaced(chains: seq<seq<Node<V>>>, node: Node<V>)
      requires Placed(chains) && !Holds(chains, node.key)
      ensures var b := BucketOf(node.key); Placed(chains[b := [node] + chains[b]])
    {
      var index := BucketOf(node.key);
      var longer: seq<seq<Node<V>>> := chains[index := [node] + chains[index]];
      forall b: nat, i: nat | b < BUCKETS && i < |longer[b]| ensures PlacedAt(longer, b, i) {
        if b != index { assert PlacedAt(chains, b, i); } else if i > 0 { assert PlacedAt(chains, b, i - 1); }
      }
      forall b: nat, i: nat, j: nat | b < BUCKETS && i < j < |longer[b]| ensures Distinct(longer, b, i, j) {
        if b != index { assert Distinct(chains, b, i, j); } else if i > 0 { assert Distinct(chains, b, i - 1, j - 1); }
      }
    }

    static lemma PrependHolds(chains: seq<seq<Node<V>>>, node: Node<V>, key: bytes)
      requires Placed(chains) && (key == node.key || Holds(chains, key))
      ensures var b := BucketOf(node.key); Holds(chains[b := [node] + chains[b]], key)
    {
      var index := BucketOf(node.key);
      var longer: seq<seq<Node<V>>> := chains[index := [node] + chains[index]];
      if key == node.key {
        assert longer[index][0].key == key;
      } else {
        var i: nat :| i < |chains[BucketOf(key)]| && chains[BucketOf(key)][i].key == key;
        assert longer[BucketOf(key)][if BucketOf(key) == index then i + 1 else i].key == key;
      }
    }

    /** dict_init. */
    constructor ()
      ensures Valid() && contents == map[] && fresh(bucket) && nodes == {}
    {
      bucket := new Node?<V>[BUCKETS](_ => null);
      chains, nodes, contents := seq(BUCKETS, _ => []), {}, map[];
    }

    /** Walk a bucket for a key: the node that has it, or null. */
    method Walk(key: bytes, index: nat) returns (node: Node?<V>, ghost at: nat)
      requires Valid() && index == BucketOf(key)
      ensures node == null <==> key !in contents
      ensures node != null ==> at < |chains[index]| && node == chains[index][at] && node.key == key
    {
      node, at := bucket[index], 0;
      ghost var chain := chains[index];
      while node != null
        invariant at <= |chain| && node == if at < |chain| then chain[at] else null
        invariant forall j :: 0 <= j < at ==> chain[j].key != key
        decreases |chain| - at
      {
        assert NodeOk(index, at);
        if node.key == key { return; }
        node := node.next;
        at := at + 1;
      }
      assert !Holds(chains, key);
    }

    /** dict_find. */
    method Find(key: bytes) returns (r: Option<V>)
      requires Valid()
      ensures r == if key in contents then Some(contents[key]) else None
    {
      var h := HashKey(key);
      var index := h % BUCKETS;
      var node, at := Walk(key, index);
      if node == null { return None; }
      assert NodeOk(index, at);
      return Some(node.value);
    }

    /**
     dict_insert: a present key has its value replaced in place, a new one heads its chain. It
     returns 1 whenever it has stored the value.
     */
    method Insert(key: bytes, value: V) returns (stored: int)
      requires Valid()
      modifies this, bucket, nodes
      ensures stored == 1
      ensures Valid() && contents == old(contents)[key := value]
      ensures fresh(nodes - old(nodes))
    {
      var h := HashKey(key);
      var index := h % BUCKETS;
      var node, at := Walk(key, index);
      if node != null {
        assert NodeOk(index, at);
        Replace(node, index, at, value);
      } else {
        Prepend(key, index, value);
      }
      return 1;
    }

    /** A key has one place. */
    static lemma OnePlace(chains: seq<seq<Node<V>>>, b: nat, i: nat, c: nat, j: nat)
      requires Placed(chains) && b < BUCKETS && i < |chains[b]| && c < BUCKETS && j < |chains[c]|
      requires chains[b][i].key == chains[c][j].key
      ensures b == c && i == j
    {
      assert PlacedAt(chains, b, i) && PlacedAt(chains, c, j);
      assert i < j ==> Distinct(chains, b, i, j);
      assert j < i ==> Distinct(chains, b, j, i);
    }

    method Replace(node: Node<V>, ghost index: nat, ghost at: nat, value: V)
      requires Valid() && index < BUCKETS && at < |chains[index]| && node == chains[index][at]
      modifies node`value, `contents
      ensures Valid() && contents == old(contents)[node.key := value] && nodes == old(nodes)
    {
      forall b: nat, i: nat | b < BUCKETS && i < |chains[b]| && chains[b][i].key == node.key
        ensures b == index && i == at
      {
        OnePlace(chains, b, i, index, at);
      }
      assert NodeOk(index, at);
      node.value := value;
      contents := contents[node.key := value];
      forall b: nat, i: nat | b < BUCKETS && i < |chains[b]| ensures NodeOk(b, i) {
        assert old(NodeOk(b, i));
      }
    }

    /** strdup and node_init. */
    method Prepend(key: bytes, index: nat, value: V)
      requires Valid() && index == BucketOf(key) && key !in contents
      modifies this, bucket, nodes
      ensures Valid() && contents == old(contents)[key := value]
      ensures fresh(nodes - old(nodes))
    {
      var node := new Node(key, value);
      LinkHead(node, index);
    }

    method LinkHead(node: Node<V>, index: nat)
      requires Valid() && index == BucketOf(node.key) && node.key !in contents && node !in nodes
      requires node.next == null && node.previous == null
      modifies this, bucket, nodes, node
      ensures Valid() && contents == old(contents)[node.key := old(node.value)]
      ensures nodes == old(nodes) + {node}
    {
      AbsentKey(node.key);
      PrependPlaced(chains, node);
      PushFront(node, index);
      forall k | k in contents ensures Holds(chains, k) {
        PrependHolds(old(chains), node, k);
      }
    }

    lemma AbsentKey(key: bytes)
      requires Valid() && key !in contents
      ensures !Holds(chains, key)
    {
      forall i: nat | i < |chains[BucketOf(key)]| ensures chains[BucketOf(key)][i].key != key {
        assert NodeOk(BucketOf(key), i);
      }
    }

    /** node_head_insert. */
    method PushFront(node: Node<V>, index: nat)
      requires Valid() && index < BUCKETS && node.key !in contents && node !in nodes
      requires node.next == null && node.previous == null
      modifies this, bucket, nodes, node
      ensures chains == old(chains)[index := [node] + old(chains)[index]]
      ensures nodes == old(nodes) + {node} && contents == old(contents)[node.key := old(node.value)]
      ensures forall b: nat :: b < BUCKETS ==> bucket[b] == First(chains[b])
      ensures forall b: nat, i: nat :: b < BUCKETS && i < |chains[b]| ==> NodeOk(b, i)
    {
      var head := bucket[index];
      ghost var chain := chains[index];
      node.next := head;
      if head != null {
        assert head == chain[0] && NodeOk(index, 0);
        head.previous := node;
      }
      bucket[index] := node;
      chains := chains[index := [node] + chain];
      nodes := nodes + {node};
      contents := contents[node.key := node.value];
      forall b: nat, i: nat | b < BUCKETS && i < |chains[b]| ensures NodeOk(b, i) {
        if b != index {
          assert old(NodeOk(b, i));
          if head != null { OtherChain(old(chains), b, i, index); }
        } else if i > 0 {
          assert chains[b][i] == chain[i - 1];
          assert old(NodeOk(b, i - 1));
          if i > 1 { assert Distinct(old(chains), b, 0, i - 1); }
        }
      }
    }

    static lemma OtherChain(chains: seq<seq<Node<V>>>, b: nat, i: nat, c: nat)
      requires Placed(chains) && b < BUCKETS && c < BUCKETS && b != c && i < |chains[b]| && chains[c] != []
      ensures chains[b][i] != chains[c][0]
    {
      assert PlacedAt(chains, b, i) && PlacedAt(chains, c, 0);
    }
  }
}
