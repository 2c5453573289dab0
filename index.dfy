/**
 * The inverted index of a segment: lowercased token -> ids of the nodes that
 * carry it. The Java code changes it one key at a time (addToIndex,
 * removeFromIndexKey); this module also states the same changes over a whole
 * set of keys (AddKeys, RemoveKeys) and the invariant they maintain.
 */
module InvertedIndex {
  import opened JavaText
  import opened Nodes

  type Index = map<string, set<string>>

  /** The strings indexNode files a node under: its id, its label and every property value. */
  function Tokens(n: Node): set<string> {
    {n.id, n.nodeLabel} + n.properties.Values
  }

  /** The index keys of a node: its tokens, lowercased. */
  function NodeKeys(n: Node): set<string> {
    set t | t in Tokens(n) :: Lower(t)
  }

  /** The ids of the stored nodes that have a token whose lowercase is `key`. */
  function IdsUnder(nodes: map<string, Node>, key: string): set<string> {
    set x | x in nodes && key in NodeKeys(nodes[x])
  }

  /**
   * The index invariant: each key maps to exactly the ids of the stored nodes
   * with a token whose lowercase equals the key, no key maps to an empty set,
   * and every token of every stored node is a key.
   */
  predicate IndexFor(index: Index, nodes: map<string, Node>) {
    && (forall k | k in index :: index[k] == IdsUnder(nodes, k) && index[k] != {})
    && (forall x, k | x in nodes && k in NodeKeys(nodes[x]) :: k in index)
  }

  /** The invariant pins the index down: two indexes of the same nodes are equal. */
  lemma IndexForUnique(a: Index, b: Index, nodes: map<string, Node>)
    requires IndexFor(a, nodes) && IndexFor(b, nodes)
    ensures a == b
  {
    forall k | k in a ensures k in b {
      var x :| x in a[k];
    }
    forall k | k in b ensures k in a {
      var x :| x in b[k];
    }
    assert a.Keys == b.Keys;
  }

  // ---- The Java operations, one key at a time ----

  /** addToIndex: computeIfAbsent(key.toLowerCase(), new set).add(id). */
  function AddToIndex(index: Index, key: string, id: string): Index {
    var k := Lower(key);
    index[k := (if k in index then index[k] else {}) + {id}]
  }

  /** removeFromIndexKey: drop `id` under the lowercased key, and the key once its set is empty. */
  function RemoveFromIndexKey(index: Index, key: string, id: string): Index {
    var k := Lower(key);
    if k in index then
      var ids := index[k] - {id};
      if ids == {} then index - {k} else index[k := ids]
    else index
  }

  // ---- The same changes over a set of keys ----

  /** `id` added under every key of `keys`. */
  function AddKeys(index: Index, keys: set<string>, id: string): (r: Index)
    ensures r.Keys == index.Keys + keys
    ensures forall k | k in r :: r[k] == (if k in index then index[k] else {}) + (if k in keys then {id} else {})
  {
    map k | k in index.Keys + keys :: (if k in index then index[k] else {}) + (if k in keys then {id} else {})
  }

  /** `id` removed under every key of `keys`; keys left with an empty set disappear. */
  function RemoveKeys(index: Index, keys: set<string>, id: string): (r: Index)
    ensures forall k :: k in r <==> k in index && (k !in keys || index[k] - {id} != {})
    ensures forall k | k in r :: r[k] == if k in keys then index[k] - {id} else index[k]
  {
    map k | k in index && (k !in keys || index[k] - {id} != {}) :: if k in keys then index[k] - {id} else index[k]
  }

  /** One addToIndex call extends AddKeys by one key. */
  lemma AddToIndexStep(index: Index, keys: set<string>, id: string, key: string)
    ensures AddToIndex(AddKeys(index, keys, id), key, id) == AddKeys(index, keys + {Lower(key)}, id)
  {
    var a := AddToIndex(AddKeys(index, keys, id), key, id);
    var b := AddKeys(index, keys + {Lower(key)}, id);
    assert a.Keys == b.Keys;
    forall k | k in a ensures a[k] == b[k] {
    }
  }

  /** One removeFromIndexKey call extends RemoveKeys by one key. */
  lemma RemoveFromIndexKeyStep(index: Index, keys: set<string>, id: string, key: string)
    ensures RemoveFromIndexKey(RemoveKeys(index, keys, id), key, id) == RemoveKeys(index, keys + {Lower(key)}, id)
  {
    var a := RemoveFromIndexKey(RemoveKeys(index, keys, id), key, id);
    var b := RemoveKeys(index, keys + {Lower(key)}, id);
    assert forall k :: k in a <==> k in b;
    forall k | k in a ensures a[k] == b[k] {
    }
  }

  lemma AddNoKeys(index: Index, id: string)
    ensures AddKeys(index, {}, id) == index
  {
    var r := AddKeys(index, {}, id);
    assert r.Keys == index.Keys;
    forall k | k in r ensures r[k] == index[k] {
      assert r[k] == index[k] + {};
    }
  }

  lemma RemoveNoKeys(index: Index, id: string)
    ensures RemoveKeys(index, {}, id) == index
  {
  }

  // ---- indexNode and removeFromIndex, token by token ----

  /** p.values(), in the model's iteration order of the keys. */
  function ValuesOf(p: map<string, string>): (r: seq<string>)
    ensures forall v :: v in r <==> v in p.Values
  {
    var keys := KeyOrder(p);
    var r := seq(|keys|, i requires 0 <= i < |keys| => p[keys[i]]);
    ValuesListed(p, keys, r);
    r
  }

  lemma ValuesListed(p: map<string, string>, keys: seq<string>, r: seq<string>)
    requires forall k :: k in keys <==> k in p
    requires |r| == |keys| && forall i | 0 <= i < |keys| :: r[i] == p[keys[i]]
    ensures forall v :: v in r <==> v in p.Values
  {
    forall v | v in p.Values ensures v in r {
      var k :| k in p && p[k] == v;
      var i :| 0 <= i < |keys| && keys[i] == k;
      assert r[i] == v;
    }
  }

  /** The strings indexNode visits, in order: the id, the label, then each property value. */
  function TokenOrder(n: Node): seq<string> {
    [n.id, n.nodeLabel] + ValuesOf(n.properties)
  }

  /** The lowercased strings of a list. */
  function LowerAll(vs: seq<string>): set<string> {
    set v | v in vs :: Lower(v)
  }

  /** Visiting the tokens in order reaches exactly the node's keys. */
  lemma TokenOrderKeys(n: Node)
    ensures LowerAll(TokenOrder(n)) == NodeKeys(n)
  {
  }

  lemma LowerAllLast(vs: seq<string>)
    requires vs != []
    ensures LowerAll(vs) == LowerAll(vs[..|vs| - 1]) + {Lower(vs[|vs| - 1])}
  {
    assert vs == vs[..|vs| - 1] + [vs[|vs| - 1]];
  }

  /** addToIndex for each string of `keys` in turn. */
  function AddEach(index: Index, keys: seq<string>, id: string): Index
    decreases |keys|
  {
    if keys == [] then index else AddToIndex(AddEach(index, keys[..|keys| - 1], id), keys[|keys| - 1], id)
  }

  /** removeFromIndexKey for each string of `keys` in turn. */
  function RemoveEach(index: Index, keys: seq<string>, id: string): Index
    decreases |keys|
  {
    if keys == [] then index else RemoveFromIndexKey(RemoveEach(index, keys[..|keys| - 1], id), keys[|keys| - 1], id)
  }

  lemma AddEachSnoc(index: Index, keys: seq<string>, id: string, i: int)
    requires 0 <= i < |keys|
    ensures AddEach(index, keys[..i + 1], id) == AddToIndex(AddEach(index, keys[..i], id), keys[i], id)
  {
    assert keys[..i + 1][..i] == keys[..i];
  }

  lemma RemoveEachSnoc(index: Index, keys: seq<string>, id: string, i: int)
    requires 0 <= i < |keys|
    ensures RemoveEach(index, keys[..i + 1], id) == RemoveFromIndexKey(RemoveEach(index, keys[..i], id), keys[i], id)
  {
    assert keys[..i + 1][..i] == keys[..i];
  }

  /** Adding key by key is adding the set of lowercased keys at once. */
  lemma {:induction false} AddEachKeys(index: Index, keys: seq<string>, id: string)
    ensures AddEach(index, keys, id) == AddKeys(index, LowerAll(keys), id)
    decreases |keys|
  {
    if keys == [] {
      assert LowerAll(keys) == {};
      AddNoKeys(index, id);
    } else {
      var init, last := keys[..|keys| - 1], keys[|keys| - 1];
      var lowered := LowerAll(init);
      AddEachKeys(index, init, id);
      AddToIndexStep(index, lowered, id, last);
      LowerAllLast(keys);
    }
  }

  /** Removing key by key is removing the set of lowercased keys at once. */
  lemma {:induction false} RemoveEachKeys(index: Index, keys: seq<string>, id: string)
    ensures RemoveEach(index, keys, id) == RemoveKeys(index, LowerAll(keys), id)
    decreases |keys|
  {
    if keys == [] {
      assert LowerAll(keys) == {};
      RemoveNoKeys(index, id);
    } else {
      var init, last := keys[..|keys| - 1], keys[|keys| - 1];
      var lowered := LowerAll(init);
      RemoveEachKeys(index, init, id);
      RemoveFromIndexKeyStep(index, lowered, id, last);
      LowerAllLast(keys);
    }
  }

  /** indexNode, as written token by token, adds the node's keys. */
  lemma IndexNodeAdds(index: Index, n: Node)
    ensures AddEach(index, TokenOrder(n), n.id) == AddKeys(index, NodeKeys(n), n.id)
  {
    AddEachKeys(index, TokenOrder(n), n.id);
    TokenOrderKeys(n);
  }

  /** removeFromIndex, as written token by token, removes the node's keys. */
  lemma RemoveFromIndexRemoves(index: Index, n: Node)
    ensures RemoveEach(index, TokenOrder(n), n.id) == RemoveKeys(index, NodeKeys(n), n.id)
  {
    RemoveEachKeys(index, TokenOrder(n), n.id);
    TokenOrderKeys(n);
  }

  // ---- What putNode and removeNode do to the index ----

  /** Removing a stored node's keys under its id leaves the index of the other nodes. */
  lemma RemoveKeeps(index: Index, nodes: map<string, Node>, id: string)
    requires IndexFor(index, nodes) && id in nodes
    ensures IndexFor(RemoveKeys(index, NodeKeys(nodes[id]), id), nodes - {id})
  {
    var r := RemoveKeys(index, NodeKeys(nodes[id]), id);
    var rest := nodes - {id};
    forall k | k in r ensures r[k] == IdsUnder(rest, k) && r[k] != {} {
      assert IdsUnder(rest, k) == IdsUnder(nodes, k) - {id};
    }
    forall x, k | x in rest && k in NodeKeys(rest[x]) ensures k in r {
      assert x in IdsUnder(nodes, k);
    }
  }

  lemma IdsUnderPut(nodes: map<string, Node>, n: Node, k: string)
    requires n.id !in nodes
    ensures IdsUnder(nodes[n.id := n], k) == IdsUnder(nodes, k) + (if k in NodeKeys(n) then {n.id} else {})
  {
    var after := nodes[n.id := n];
    forall x ensures x in IdsUnder(after, k) <==> x in IdsUnder(nodes, k) || (x == n.id && k in NodeKeys(n)) {
      if x in nodes { assert after[x] == nodes[x]; }
    }
  }

  /** Adding the keys of a node under an id not yet stored indexes it with the rest. */
  lemma AddKeeps(index: Index, nodes: map<string, Node>, n: Node)
    requires IndexFor(index, nodes) && n.id !in nodes
    ensures IndexFor(AddKeys(index, NodeKeys(n), n.id), nodes[n.id := n])
  {
    var r := AddKeys(index, NodeKeys(n), n.id);
    var after := nodes[n.id := n];
    forall k | k in r ensures r[k] == IdsUnder(after, k) && r[k] != {} {
      IdsUnderPut(nodes, n, k);
      if k !in index {
        assert IdsUnder(nodes, k) == {} by {
          forall x | x in nodes ensures k !in NodeKeys(nodes[x]) { }
        }
      }
    }
    forall x, k | x in after && k in NodeKeys(after[x]) ensures k in r {
      if x != n.id { assert k in NodeKeys(nodes[x]); }
    }
  }

  /**
   * The index update of putNode: remove the keys of the node stored under the
   * id (if any) under that node's own id, then add the keys of the new node.
   */
  function PutIndex(index: Index, nodes: map<string, Node>, n: Node): Index {
    AddKeys(if n.id in nodes then RemoveKeys(index, NodeKeys(nodes[n.id]), nodes[n.id].id) else index, NodeKeys(n), n.id)
  }

  /** putNode keeps the index invariant, given that a node already stored under the id carries that id. */
  lemma PutKeeps(index: Index, nodes: map<string, Node>, n: Node)
    requires IndexFor(index, nodes) && (n.id in nodes ==> nodes[n.id].id == n.id)
    ensures IndexFor(PutIndex(index, nodes, n), nodes[n.id := n])
  {
    if n.id in nodes {
      RemoveKeeps(index, nodes, n.id);
      AddKeeps(RemoveKeys(index, NodeKeys(nodes[n.id]), n.id), nodes - {n.id}, n);
      assert (nodes - {n.id})[n.id := n] == nodes[n.id := n];
    } else {
      AddKeeps(index, nodes, n);
    }
  }

  // ---- Indexing a sequence of nodes (rebuildIndex, and loading with indexing on) ----

  /** `nodes.put(n.getId(), n)` for each node of `list` in turn. */
  function PutAll(nodes: map<string, Node>, list: seq<Node>): map<string, Node>
    decreases |list|
  {
    if list == [] then nodes else PutAll(nodes[list[0].id := list[0]], list[1..])
  }

  /** indexNode for each node of `list` in turn. */
  function IndexAll(index: Index, list: seq<Node>): Index
    decreases |list|
  {
    if list == [] then index else IndexAll(AddKeys(index, NodeKeys(list[0]), list[0].id), list[1..])
  }

  /** No two nodes of `list` share an id. */
  predicate DistinctIds(list: seq<Node>) {
    forall i, j | 0 <= i < j < |list| :: list[i].id != list[j].id
  }

  /** Indexing nodes with fresh, distinct ids keeps the invariant for the enlarged map. */
  lemma {:induction false} IndexAllKeeps(index: Index, nodes: map<string, Node>, list: seq<Node>)
    requires IndexFor(index, nodes) && DistinctIds(list)
    requires forall i | 0 <= i < |list| :: list[i].id !in nodes
    ensures IndexFor(IndexAll(index, list), PutAll(nodes, list))
    decreases |list|
  {
    if list != [] {
      AddKeeps(index, nodes, list[0]);
      IndexAllKeeps(AddKeys(index, NodeKeys(list[0]), list[0].id), nodes[list[0].id := list[0]], list[1..]);
    }
  }
}
