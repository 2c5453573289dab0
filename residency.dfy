/**
 * What the engine stores, wherever it sits. A segment's contents are its nodes
 * and relations: in memory while it is loaded, in its file once it is
 * evicted. As long as every save can encode its image, touchSegment's
 * evictions, loads and commits never change the contents, and the fan-out
 * reads (getAllNodes, getAllRelations, search) return exactly the stored
 * graph whichever segments happen to be resident.
 */
module Residency {
  import opened Wrappers
  import opened JavaText
  import opened DataIO
  import opened Nodes
  import opened Relations
  import opened InvertedIndex
  import opened SegmentImage
  import opened SegmentSpec
  import opened Routing
  import opened Lru
  import opened EngineSpec
  import opened EngineProps

  /** The nodes and relations of one segment. */
  datatype Contents = Contents(nodes: map<string, Node>, relations: seq<Relation>)

  /** A segment file with these contents: no file stands for an empty segment. */
  predicate OnDisk(disk: Option<seq<byte>>, c: Contents) {
    if disk.None? then c.nodes == map[] && c.relations == [] else Holds(disk, c.nodes, c.relations)
  }

  /**
   * Segment `s` stores `c`: while loaded, its memory is `c` (and, when clean,
   * so is its file); while not loaded, its memory is empty and its file is `c`.
   */
  predicate Stores(s: Shard, c: Contents) {
    && Healthy(s)
    && Storable(c.nodes, c.relations)
    && if s.loaded then s.nodes == c.nodes && s.relations == c.relations && (!s.dirty ==> OnDisk(s.disk, c))
       else Emptied(s) && OnDisk(s.disk, c)
  }

  /** An empty segment fits the image format. */
  lemma EmptyStorable()
    ensures Storable(map[], [])
  {
    assert Encodable(Magic) by {
      assert Units(Magic) == [83, 69, 71, 95, 86, 49];
    }
  }

  /** loadIfRequired brings the stored contents into memory. */
  lemma LoadStores(s: Shard, c: Contents)
    requires Stores(s, c)
    ensures Load(s).loaded && Load(s).nodes == c.nodes && Load(s).relations == c.relations
    ensures Stores(Load(s), c)
  {
    if !s.loaded && s.disk.Some? {
      ReopenSees(s, c.nodes, c.relations);
    }
  }

  /** save keeps the contents: a dirty segment writes them to its file. */
  lemma SaveStores(s: Shard, c: Contents)
    requires Stores(s, c)
    ensures Stores(Save(s), c)
  {
    if s.loaded && s.dirty {
      SaveWrites(s);
    }
  }

  /** unload keeps the contents: they are saved, then dropped from memory. */
  lemma UnloadStores(s: Shard, c: Contents)
    requires Stores(s, c)
    ensures Stores(Unload(s), c)
  {
    if s.loaded {
      SaveStores(s, c);
      if s.dirty {
        SaveWrites(s);
      }
    }
  }

  /** Every segment of `e` stores the matching entry of `g`. */
  predicate Holding(e: Engine, g: seq<Contents>) {
    Wf(e) && |g| == BucketCount && forall i {:trigger Stores(e.shards[i], g[i])} | 0 <= i < BucketCount :: Stores(e.shards[i], g[i])
  }

  /** The indexing flags of two engines agree. */
  predicate SameFlags(a: Engine, b: Engine)
    requires Wf(a) && Wf(b)
  {
    forall i | 0 <= i < BucketCount :: a.shards[i].indexing == b.shards[i].indexing
  }

  /** A freshly constructed engine stores what its files hold. */
  lemma StartHolds(disks: seq<Option<seq<byte>>>, g: seq<Contents>)
    requires |disks| == BucketCount && |g| == BucketCount
    requires forall i | 0 <= i < BucketCount :: OnDisk(disks[i], g[i])
    ensures Holding(Start(disks), g)
  {
    EmptyStorable();
  }

  /** touchSegment, whatever it evicts, keeps every segment's contents and indexing flag. */
  lemma TouchHolds(e: Engine, g: seq<Contents>, k: int)
    requires Holding(e, g) && 0 <= k < BucketCount
    ensures Holding(Touch(e, k), g) && SameFlags(Touch(e, k), e)
  {
    forall i | 0 <= i < BucketCount
      ensures Stores(Touch(e, k).shards[i], g[i]) && Touch(e, k).shards[i].indexing == e.shards[i].indexing
    {
      TouchAt(e, k, i);
      if TouchQueue(e.lru, k).evicted == Some(i) {
        UnloadStores(e.shards[i], g[i]);
      }
    }
  }

  /** commit keeps every segment's contents and indexing flag. */
  lemma CommitHolds(e: Engine, g: seq<Contents>)
    requires Holding(e, g)
    ensures Holding(Commit(e), g) && SameFlags(Commit(e), e)
  {
    forall i | 0 <= i < BucketCount
      ensures Stores(Commit(e).shards[i], g[i]) && Commit(e).shards[i].indexing == e.shards[i].indexing
    {
      CommitAt(e, i);
      if i in e.lru {
        SaveStores(e.shards[i], g[i]);
      }
    }
  }

  /** A search hit in a segment: an index key equal to the lowered query, or, unindexed, the lowered text containing it. */
  predicate Hit(n: Node, query: string, indexing: bool) {
    if indexing then Lower(query) in NodeKeys(n) else Contains(Lower(NodeText(n)), Lower(query))
  }

  /** Replacing one segment by one that stores the same contents keeps the engine's contents. */
  lemma PutHolds(e: Engine, g: seq<Contents>, i: int, s: Shard)
    requires Holding(e, g) && 0 <= i < BucketCount && Stores(s, g[i])
    ensures Holding(Put(e, i, s), g)
  {
  }

  /** Asking segment `i` (touch, then load) keeps every segment's contents and flag, and finds segment `i` loaded with its contents. */
  lemma AskHolds(e: Engine, g: seq<Contents>, i: int)
    requires Holding(e, g) && 0 <= i < BucketCount
    ensures var t := Touch(e, i);
            && Holding(Visit(e, i), g) && SameFlags(Visit(e, i), e)
            && Load(t.shards[i]).nodes == g[i].nodes && Load(t.shards[i]).relations == g[i].relations
            && Healthy(Load(t.shards[i])) && t.shards[i].indexing == e.shards[i].indexing
  {
    TouchHolds(e, g, i);
    var t := Touch(e, i);
    LoadStores(t.shards[i], g[i]);
    PutHolds(t, g, i, Load(t.shards[i]));
  }

  /** getNodes of segment `i` returns its stored nodes. */
  lemma AskAllNodes(e: Engine, g: seq<Contents>, i: int)
    requires Holding(e, g) && 0 <= i < BucketCount
    ensures AskNodes(e, i, EveryNode).value == NodeOrder(g[i].nodes)
  {
    AskHolds(e, g, i);
  }

  /** search of segment `i` returns its stored nodes that hit. */
  lemma AskSearch(e: Engine, g: seq<Contents>, i: int, query: string)
    requires Holding(e, g) && 0 <= i < BucketCount
    ensures forall x :: x in AskNodes(e, i, SearchFor(query)).value <==>
              x in g[i].nodes.Values && Hit(x, query, e.shards[i].indexing)
  {
    AskHolds(e, g, i);
    var t := Touch(e, i);
    if t.shards[i].indexing {
      IndexedSearch(t.shards[i], query);
    } else {
      ScanSearch(t.shards[i], query);
    }
  }

  /** getAllRelations of segment `i` returns its stored relations. */
  lemma AskRelationsHolds(e: Engine, g: seq<Contents>, i: int)
    requires Holding(e, g) && 0 <= i < BucketCount
    ensures AskRelations(e, i).value == g[i].relations
  {
    AskHolds(e, g, i);
  }

  /** The lists of `ls` one after another. */
  function Flat<T>(ls: seq<seq<T>>): seq<T>
    decreases |ls|
  {
    if ls == [] then [] else Flat(ls[..|ls| - 1]) + ls[|ls| - 1]
  }

  /** An element of the joined lists is an element of one of them. */
  lemma {:induction false} FlatMembers<T>(ls: seq<seq<T>>, x: T)
    ensures x in Flat(ls) <==> exists i | 0 <= i < |ls| :: x in ls[i]
    decreases |ls|
  {
    if ls != [] {
      var front := ls[..|ls| - 1];
      FlatMembers(front, x);
      if exists i | 0 <= i < |ls| :: x in ls[i] {
        var i :| 0 <= i < |ls| && x in ls[i];
        if i < |front| {
          assert x in front[i];
        }
      }
      if exists i | 0 <= i < |front| :: x in front[i] {
        var i :| 0 <= i < |front| && x in front[i];
        assert x in ls[i];
      }
    }
  }

  /** getNodes of each segment: its stored nodes in the model's key order. */
  function Listings(g: seq<Contents>): (r: seq<seq<Node>>)
    ensures |r| == |g|
  {
    seq(|g|, i requires 0 <= i < |g| => NodeOrder(g[i].nodes))
  }

  /** getAllRelations of each segment: its stored relations. */
  function RelationLists(g: seq<Contents>): (r: seq<seq<Relation>>)
    ensures |r| == |g|
  {
    seq(|g|, i requires 0 <= i < |g| => g[i].relations)
  }

  /** The stored nodes of segments 0 .. n-1, segment by segment. */
  function StoredNodes(g: seq<Contents>, n: int): seq<Node>
    requires 0 <= n <= |g|
  {
    Flat(Listings(g)[..n])
  }

  /** The stored relations of segments 0 .. n-1, segment by segment. */
  function StoredRelations(g: seq<Contents>, n: int): seq<Relation>
    requires 0 <= n <= |g|
  {
    Flat(RelationLists(g)[..n])
  }

  /** One more segment's relations. */
  lemma StoredRelationsStep(g: seq<Contents>, n: int)
    requires 0 < n <= |g|
    ensures StoredRelations(g, n) == StoredRelations(g, n - 1) + g[n - 1].relations
  {
    assert RelationLists(g)[..n][..n - 1] == RelationLists(g)[..n - 1];
  }

  /** The stored nodes are those of the first `n` segments. */
  lemma StoredNodesMembers(g: seq<Contents>, n: int)
    requires 0 <= n <= |g|
    ensures forall x :: x in StoredNodes(g, n) <==> exists i | 0 <= i < n :: x in g[i].nodes.Values
  {
    var ls := Listings(g)[..n];
    forall x
      ensures x in StoredNodes(g, n) <==> exists i | 0 <= i < n :: x in g[i].nodes.Values
    {
      FlatMembers(ls, x);
      forall i | 0 <= i < n
        ensures x in ls[i] <==> x in g[i].nodes.Values
      {
        NodeOrderMembers(g[i].nodes);
      }
    }
  }

  /** The stored relations are those of the first `n` segments. */
  lemma StoredRelationsMembers(g: seq<Contents>, n: int)
    requires 0 <= n <= |g|
    ensures forall r :: r in StoredRelations(g, n) <==> exists i | 0 <= i < n :: r in g[i].relations
  {
    var ls := RelationLists(g)[..n];
    forall r
      ensures r in StoredRelations(g, n) <==> exists i | 0 <= i < n :: r in g[i].relations
    {
      FlatMembers(ls, r);
      forall i | 0 <= i < n
        ensures r in ls[i] <==> r in g[i].relations
      {
      }
    }
  }

  /** The sweep, whatever its touches evict and reload, keeps every segment's contents and indexing flag. */
  lemma {:induction false} SweepKeeps(e: Engine, g: seq<Contents>, n: int)
    requires Holding(e, g) && 0 <= n <= BucketCount
    ensures Holding(Sweep(e, n), g) && SameFlags(Sweep(e, n), e)
  {
    if n > 0 {
      SweepKeeps(e, g, n - 1);
      AskHolds(Sweep(e, n - 1), g, n - 1);
    }
  }

  /** getAllNodes returns the stored nodes of every segment, segment by segment. */
  lemma CollectAllNodes(e: Engine, g: seq<Contents>, n: int)
    requires Holding(e, g) && 0 <= n <= BucketCount
    ensures CollectNodes(e, EveryNode, n).value == StoredNodes(g, n)
  {
    GatherFlat(e, EveryNode, n);
    AnswersListed(e, g, n);
  }

  /** Each segment's getNodes in the fan-out lists its stored nodes. */
  lemma AnswersListed(e: Engine, g: seq<Contents>, n: int)
    requires Holding(e, g) && 0 <= n <= BucketCount
    ensures Answers(e, EveryNode, n) == Listings(g)[..n]
  {
    var ls := Answers(e, EveryNode, n);
    forall i | 0 <= i < n
      ensures ls[i] == Listings(g)[i]
    {
      SweepKeeps(e, g, i);
      AskAllNodes(Sweep(e, i), g, i);
    }
  }

  /** getAllRelations returns the stored relations of every segment, in segment order. */
  lemma {:induction false} CollectAllRelations(e: Engine, g: seq<Contents>, n: int)
    requires Holding(e, g) && 0 <= n <= BucketCount
    ensures CollectRelations(e, n).value == StoredRelations(g, n)
  {
    if n > 0 {
      CollectAllRelations(e, g, n - 1);
      SweepKeeps(e, g, n - 1);
      AskRelationsHolds(Sweep(e, n - 1), g, n - 1);
      StoredRelationsStep(g, n);
    }
  }

  /** The answer of each segment in a fan-out: segment `i` asked after the sweep of 0 .. i-1. */
  function Answers(e: Engine, q: NodeQuery, n: int): (r: seq<seq<Node>>)
    requires Wf(e) && 0 <= n <= BucketCount
    ensures |r| == n
  {
    seq(n, i requires 0 <= i < n => AskNodes(Sweep(e, i), i, q).value)
  }

  /** A fan-out returns its segments' answers one after another. */
  lemma {:induction false} GatherFlat(e: Engine, q: NodeQuery, n: int)
    requires Wf(e) && 0 <= n <= BucketCount
    ensures Gather(e, q, n) == Flat(Answers(e, q, n))
  {
    if n > 0 {
      GatherFlat(e, q, n - 1);
      assert Answers(e, q, n)[..n - 1] == Answers(e, q, n - 1);
    }
  }

  /**
   * search returns exactly the stored nodes that hit in their own segment
   * (by index key when that segment indexes, by text otherwise).
   */
  lemma CollectSearch(e: Engine, g: seq<Contents>, query: string, n: int)
    requires Holding(e, g) && 0 <= n <= BucketCount
    ensures forall x :: x in CollectNodes(e, SearchFor(query), n).value <==>
              exists i | 0 <= i < n :: x in g[i].nodes.Values && Hit(x, query, e.shards[i].indexing)
  {
    var ls := Answers(e, SearchFor(query), n);
    GatherFlat(e, SearchFor(query), n);
    forall i | 0 <= i < n
      ensures forall x :: x in ls[i] <==> x in g[i].nodes.Values && Hit(x, query, e.shards[i].indexing)
    {
      SweepKeeps(e, g, i);
      AskSearch(Sweep(e, i), g, i, query);
    }
    forall x
      ensures x in CollectNodes(e, SearchFor(query), n).value <==>
                exists i | 0 <= i < n :: x in g[i].nodes.Values && Hit(x, query, e.shards[i].indexing)
    {
      FlatMembers(ls, x);
    }
  }

  // ---- deleteNode: what the store holds afterwards ----

  /** removeNode's contents: the node and the relations leaving it are gone. */
  function Removed(c: Contents, id: string): Contents {
    Contents(c.nodes - {id}, Filter(c.relations, FromSource(id), false))
  }

  /** removeRelationsTo's contents: the relations pointing at the id are gone. */
  function Unlinked(c: Contents, id: string): Contents {
    Contents(c.nodes, Filter(c.relations, ToTarget(id), false))
  }

  /** Segments below `n` unlinked from the id, the rest as they were. */
  function Cleared(g: seq<Contents>, id: string, n: int): (r: seq<Contents>)
    ensures |r| == |g|
  {
    seq(|g|, i requires 0 <= i < |g| => if i < n then Unlinked(g[i], id) else g[i])
  }

  /** deleteNode's contents: removed from its own segment, then unlinked in every segment. */
  function Deleted(g: seq<Contents>, id: string): (r: seq<Contents>)
    requires |g| == BucketCount
    ensures |r| == BucketCount
  {
    Cleared(g[SegmentOf(id) := Removed(g[SegmentOf(id)], id)], id, BucketCount)
  }

  /** Dropping a node and filtering relations keeps contents storable. */
  lemma StorableShrinks(c: Contents, id: string, f: RelationFilter)
    requires Storable(c.nodes, c.relations)
    ensures Storable(c.nodes - {id}, Filter(c.relations, f, false))
    ensures Storable(c.nodes, Filter(c.relations, f, false))
  {
    FilterMembers(c.relations, f, false);
    EncodableShrinks(c.nodes, c.relations, c.nodes - {id}, Filter(c.relations, f, false));
    EncodableShrinks(c.nodes, c.relations, c.nodes, Filter(c.relations, f, false));
    assert (c.nodes - {id}).Keys <= c.nodes.Keys;
    assert |(c.nodes - {id}).Keys| <= |c.nodes.Keys| by {
      SubsetSize((c.nodes - {id}).Keys, c.nodes.Keys);
    }
  }

  lemma {:induction false} SubsetSize<T>(a: set<T>, b: set<T>)
    requires a <= b
    ensures |a| <= |b|
    decreases |b|
  {
    if a != {} {
      var x :| x in a;
      SubsetSize(a - {x}, b - {x});
    }
  }

  /** removeNode keeps the segment storing its contents, less the node and its outgoing relations when it was there. */
  lemma RemoveStores(s: Shard, c: Contents, id: string)
    requires Stores(s, c)
    ensures RemoveNode(s, id).1 <==> id in c.nodes
    ensures Stores(RemoveNode(s, id).0, if id in c.nodes then Removed(c, id) else c)
  {
    LoadStores(s, c);
    RemoveNodeKeeps(s, id);
    if id in c.nodes {
      StorableShrinks(c, id, FromSource(id));
    }
  }

  /** removeRelationsTo keeps the segment storing its contents, less the relations pointing at the id. */
  lemma UnlinkStores(s: Shard, c: Contents, id: string)
    requires Stores(s, c)
    ensures Stores(RemoveRelationsTo(s, id), Unlinked(c, id))
  {
    LoadStores(s, c);
    StorableShrinks(c, id, ToTarget(id));
    FilterRemoves(c.relations, ToTarget(id));
  }

  /** Putting a segment that stores `c` at `i` makes the engine hold `g` with `c` at `i`. */
  lemma PutHoldsAt(e: Engine, g: seq<Contents>, i: int, s: Shard, c: Contents)
    requires Holding(e, g) && 0 <= i < BucketCount && Stores(s, c)
    ensures Holding(Put(e, i, s), g[i := c])
  {
    forall j | 0 <= j < BucketCount ensures Stores(Put(e, i, s).shards[j], g[i := c][j]) {
      if j != i {
        assert Stores(e.shards[j], g[j]);
      }
    }
  }

  /** removeRelationsTo on segment `i` unlinks the id there and keeps every other segment. */
  lemma UnlinkHolds(e: Engine, g: seq<Contents>, id: string, i: int)
    requires Holding(e, g) && 0 <= i < BucketCount
    ensures Holding(Unlink(e, id, i), g[i := Unlinked(g[i], id)])
  {
    TouchHolds(e, g, i);
    var t := Touch(e, i);
    assert Stores(t.shards[i], g[i]);
    UnlinkStores(t.shards[i], g[i], id);
    PutHoldsAt(t, g, i, RemoveRelationsTo(t.shards[i], id), Unlinked(g[i], id));
  }

  /** One more cleared segment. */
  lemma ClearedStep(g: seq<Contents>, id: string, n: int)
    requires 0 < n <= |g|
    ensures Cleared(g, id, n - 1)[n - 1 := Unlinked(Cleared(g, id, n - 1)[n - 1], id)] == Cleared(g, id, n)
  {
  }

  /** The cascade over the first `n` segments unlinks the id from each of them and keeps the rest. */
  lemma {:induction false} CascadeHolds(e: Engine, g: seq<Contents>, id: string, n: int)
    requires Holding(e, g) && 0 <= n <= BucketCount
    ensures Holding(Cascade(e, id, n), Cleared(g, id, n))
  {
    if n > 0 {
      CascadeHolds(e, g, id, n - 1);
      UnlinkHolds(Cascade(e, id, n - 1), Cleared(g, id, n - 1), id, n - 1);
      ClearedStep(g, id, n);
    }
  }

  /**
   * deleteNode reports whether the node was stored, and then leaves the store
   * holding the contents with the node, its outgoing relations and every
   * relation pointing at it removed; otherwise it leaves the contents as they were.
   */
  lemma DeleteNodeHolds(e: Engine, g: seq<Contents>, id: string)
    requires Holding(e, g)
    ensures DeleteNode(e, id).value <==> id in g[SegmentOf(id)].nodes
    ensures Holding(DeleteNode(e, id).after, if id in g[SegmentOf(id)].nodes then Deleted(g, id) else g)
  {
    var k := SegmentOf(id);
    TouchHolds(e, g, k);
    var t := Route(e, id);
    assert Stores(t.shards[k], g[k]);
    RemoveStores(t.shards[k], g[k], id);
    var removal := RemoveNode(t.shards[k], id);
    if id in g[k].nodes {
      PutHoldsAt(t, g, k, removal.0, Removed(g[k], id));
      var l := Put(t, k, removal.0);
      CascadeHolds(l, g[k := Removed(g[k], id)], id, BucketCount);
      CommitHolds(Cascade(l, id, BucketCount), Deleted(g, id));
    } else {
      PutHoldsAt(t, g, k, removal.0, g[k]);
      assert g[k := g[k]] == g;
    }
  }

  /** getNode answers from the contents the store holds. */
  lemma HeldLookup(e: Engine, g: seq<Contents>, x: string)
    requires Holding(e, g)
    ensures GetNode(e, x).value == if x in g[SegmentOf(x)].nodes then Some(g[SegmentOf(x)].nodes[x]) else None
  {
    GetNodeAnswers(e, x);
    assert Stores(e.shards[SegmentOf(x)], g[SegmentOf(x)]);
    LoadStores(e.shards[SegmentOf(x)], g[SegmentOf(x)]);
  }

  /** The nodes deleteNode leaves in each segment: all but the id. */
  lemma DeletedNodes(g: seq<Contents>, id: string, i: int)
    requires |g| == BucketCount && 0 <= i < BucketCount
    ensures Deleted(g, id)[i].nodes == if i == SegmentOf(id) then g[i].nodes - {id} else g[i].nodes
  {
  }

  /**
   * The relations deleteNode leaves in each segment: exactly those that
   * neither point at the id nor, in the id's own segment, leave it.
   */
  lemma DeletedRelations(g: seq<Contents>, id: string, i: int, r: Relation)
    requires |g| == BucketCount && 0 <= i < BucketCount
    ensures r in Deleted(g, id)[i].relations
        <==> r in g[i].relations && r.targetId != id && (i == SegmentOf(id) ==> r.sourceId != id)
  {
    var k := SegmentOf(id);
    var g1 := g[k := Removed(g[k], id)];
    FilterMembers(g1[i].relations, ToTarget(id), false);
    FilterMembers(g[k].relations, FromSource(id), false);
  }

  /**
   * After deleteNode, getNode of the id finds nothing, and getNode of every
   * other id finds what it found before.
   */
  lemma DeleteNodeLookups(e: Engine, g: seq<Contents>, id: string, x: string)
    requires Holding(e, g)
    ensures GetNode(DeleteNode(e, id).after, id).value == None
    ensures x != id ==> GetNode(DeleteNode(e, id).after, x).value == GetNode(e, x).value
  {
    var after := DeleteNode(e, id).after;
    DeleteNodeHolds(e, g, id);
    var g' := if id in g[SegmentOf(id)].nodes then Deleted(g, id) else g;
    DeletedNodes(g, id, SegmentOf(id));
    DeletedNodes(g, id, SegmentOf(x));
    HeldLookup(after, g', id);
    HeldLookup(after, g', x);
    HeldLookup(e, g, x);
  }

  /** getAllRelations of a held segment is its stored relations. */
  lemma HeldRelations(e: Engine, g: seq<Contents>, i: int)
    requires Holding(e, g) && 0 <= i < BucketCount
    ensures AllRelations(e.shards[i]) == g[i].relations
  {
    assert Stores(e.shards[i], g[i]);
    LoadStores(e.shards[i], g[i]);
  }

  /** No relation followed from a segment is one that segment does not hold. */
  lemma FollowedHeld(e: Engine, g: seq<Contents>, id: string, relType: string)
    requires Holding(e, g)
    ensures forall x | x in OfType(RelationsFrom(e.shards[SegmentOf(id)], id), relType) ::
              x in g[SegmentOf(id)].relations && x.sourceId == id
  {
    TraverseFollows(e, id, relType);
    HeldRelations(e, g, SegmentOf(id));
  }

  /** Once deleteNode has removed the node, traversing from it finds nothing. */
  lemma DeleteNodeTraverse(e: Engine, g: seq<Contents>, id: string, relType: string)
    requires Holding(e, g)
    ensures DeleteNode(e, id).value ==> Traverse(DeleteNode(e, id).after, id, relType).value == []
  {
    DeleteNodeHolds(e, g, id);
    if DeleteNode(e, id).value {
      var after := DeleteNode(e, id).after;
      var g' := Deleted(g, id);
      TraverseFollows(after, id, relType);
      FollowedHeld(after, g', id, relType);
      var followed := OfType(RelationsFrom(after.shards[SegmentOf(id)], id), relType);
      if followed != [] {
        DeletedRelations(g, id, SegmentOf(id), followed[0]);
        assert false;
      }
    }
  }
}
