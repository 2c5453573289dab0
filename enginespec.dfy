/**
 * The state of a GraphEngine as a value, and what each of its public methods
 * does to it. The state is the sixteen segments (as SegmentSpec.Shard values),
 * the LRU deque and the autoIndexing flag. Every operation routes through
 * getSegment, which touches the LRU and may evict (unload) another segment,
 * and every segment operation first loads its segment; these functions thread
 * all of that in the order the Java code does it.
 */
module EngineSpec {
  import opened Wrappers
  import opened JavaText
  import opened Nodes
  import opened Relations
  import opened SegmentSpec
  import opened Routing
  import opened Lru
  import opened DataIO
  import Paths

  datatype Engine = Engine(shards: seq<Shard>, lru: seq<int>, autoIndexing: bool)

  /** An engine has sixteen segments and a well-formed LRU deque. */
  predicate Wf(e: Engine) {
    |e.shards| == BucketCount && LruOk(e.lru)
  }

  /** A result of an operation together with the engine after it. */
  datatype Answer<T> = Answer(value: T, after: Engine)

  /** The constructor: one unloaded segment per file, an empty LRU, autoIndexing off. */
  function Start(disks: seq<Option<seq<byte>>>): (e: Engine)
    requires |disks| == BucketCount
    ensures Wf(e)
  {
    Engine(seq(BucketCount, i requires 0 <= i < BucketCount => Opened(disks[i])), [], false)
  }

  /** Replace segment `k`. */
  function Put(e: Engine, k: int, s: Shard): (r: Engine)
    requires Wf(e) && 0 <= k < BucketCount
    ensures Wf(r)
  {
    e.(shards := e.shards[k := s])
  }

  /** touchSegment: move `k` to the front of the deque and unload the segment it evicts, if any. */
  function Touch(e: Engine, k: int): (r: Engine)
    requires Wf(e) && 0 <= k < BucketCount
    ensures Wf(r)
  {
    var t := TouchQueue(e.lru, k);
    TouchFacts(e.lru, k);
    match t.evicted
    case None => e.(lru := t.queue)
    case Some(j) => e.(lru := t.queue, shards := e.shards[j := Unload(e.shards[j])])
  }

  /** getSegment: route the id to its segment and touch it. */
  function Route(e: Engine, id: string): (r: Engine)
    requires Wf(e)
    ensures Wf(r)
  {
    Touch(e, SegmentOf(id))
  }

  /** The segments after saving those listed in `ids`, in that order. */
  function SaveAll(shards: seq<Shard>, ids: seq<int>): (r: seq<Shard>)
    requires forall i | 0 <= i < |ids| :: 0 <= ids[i] < |shards|
    ensures |r| == |shards|
    decreases |ids|
  {
    if ids == [] then shards
    else
      var s := SaveAll(shards, ids[..|ids| - 1]);
      var k := ids[|ids| - 1];
      s[k := Save(s[k])]
  }

  /** commit: save every segment in the LRU deque. */
  function Commit(e: Engine): (r: Engine)
    requires Wf(e)
    ensures Wf(r)
  {
    e.(shards := SaveAll(e.shards, e.lru))
  }

  // ---- CRUD ----

  /** getNode: route, then the segment's getNode (which loads it). */
  function GetNode(e: Engine, id: string): (r: Answer<Option<Node>>)
    requires Wf(e)
    ensures Wf(r.after)
  {
    var k := SegmentOf(id);
    var t := Route(e, id);
    Answer(NodeAt(t.shards[k], id), Put(t, k, Load(t.shards[k])))
  }

  /** persistNode: route, putNode, commit. */
  function PersistNode(e: Engine, n: Node): (r: Engine)
    requires Wf(e)
    ensures Wf(r)
  {
    var k := SegmentOf(n.id);
    var t := Route(e, n.id);
    Commit(Put(t, k, PutNode(t.shards[k], n)))
  }

  /**
   * updateNode: route, getNode; if found, put the node with the property set
   * and commit. The node is put as a changed copy (see the finding about the
   * in-place update in SegmentSpec).
   */
  function UpdateNode(e: Engine, id: string, key: string, value: string): (r: Answer<bool>)
    requires Wf(e)
    ensures Wf(r.after)
  {
    var k := SegmentOf(id);
    var t := Route(e, id);
    var found := NodeAt(t.shards[k], id);
    var l := Put(t, k, Load(t.shards[k]));
    if found.None? then Answer(false, l)
    else Answer(true, Commit(Put(l, k, PutNode(l.shards[k], AddProperty(found.value, key, value)))))
  }

  /** One step of deleteNode's cascade: touch segment `i`, then removeRelationsTo on it. */
  function Unlink(e: Engine, id: string, i: int): (r: Engine)
    requires Wf(e) && 0 <= i < BucketCount
    ensures Wf(r)
  {
    var t := Touch(e, i);
    Put(t, i, RemoveRelationsTo(t.shards[i], id))
  }

  /** The cascade of deleteNode over segments 0 .. n-1. */
  function Cascade(e: Engine, id: string, n: int): (r: Engine)
    requires Wf(e) && 0 <= n <= BucketCount
    ensures Wf(r)
  {
    if n == 0 then e else Unlink(Cascade(e, id, n - 1), id, n - 1)
  }

  /** deleteNode: route, removeNode; if it was there, cascade over all segments and commit. */
  function DeleteNode(e: Engine, id: string): (r: Answer<bool>)
    requires Wf(e)
    ensures Wf(r.after)
  {
    var k := SegmentOf(id);
    var t := Route(e, id);
    var removal := RemoveNode(t.shards[k], id);
    var l := Put(t, k, removal.0);
    if removal.1 then Answer(true, Commit(Cascade(l, id, BucketCount))) else Answer(false, l)
  }

  /**
   * The `getNode(a) == null || getNode(b) == null` test that persistRelation
   * and findShortestPath make first: getNode of `a` and, only when that finds a
   * node, getNode of `b`. The value is whether both exist.
   */
  function Endpoints(e: Engine, startId: string, endId: string): (r: Answer<bool>)
    requires Wf(e)
    ensures Wf(r.after)
  {
    var a := GetNode(e, startId);
    if a.value.None? then Answer(false, a.after)
    else
      var b := GetNode(a.after, endId);
      Answer(b.value.Some?, b.after)
  }

  /**
   * persistRelation: getNode of each endpoint (the second only when the first
   * is found); IllegalArgumentException when one is missing; else route the
   * source, addRelation, commit.
   */
  function PersistRelation(e: Engine, fromId: string, toId: string, relType: string): (r: Answer<Result<()>>)
    requires Wf(e)
    ensures Wf(r.after)
  {
    var c := Endpoints(e, fromId, toId);
    if !c.value then Answer(Err(IllegalArgument), c.after)
    else Answer(Ok(()), Link(c.after, Relation(fromId, toId, relType)))
  }

  /** The tail of persistRelation: route the source, addRelation, commit. */
  function Link(e: Engine, rel: Relation): (r: Engine)
    requires Wf(e)
    ensures Wf(r)
  {
    var k := SegmentOf(rel.sourceId);
    var t := Route(e, rel.sourceId);
    Commit(Put(t, k, AddRelation(t.shards[k], rel)))
  }

  /** deleteRelation: route the source, removeRelation, commit when something was removed. */
  function DeleteRelation(e: Engine, fromId: string, toId: string, relType: string): (r: Answer<bool>)
    requires Wf(e)
    ensures Wf(r.after)
  {
    var k := SegmentOf(fromId);
    var t := Route(e, fromId);
    var removal := RemoveRelation(t.shards[k], fromId, toId, relType);
    var l := Put(t, k, removal.0);
    Answer(removal.1, if removal.1 then Commit(l) else l)
  }

  /** updateRelation: route the source, removeRelation; if something was removed, add the retyped relation and commit. */
  function UpdateRelation(e: Engine, fromId: string, toId: string, oldType: string, newType: string): (r: Answer<bool>)
    requires Wf(e)
    ensures Wf(r.after)
  {
    var k := SegmentOf(fromId);
    var t := Route(e, fromId);
    var removal := RemoveRelation(t.shards[k], fromId, toId, oldType);
    if removal.1 then Answer(true, Commit(Put(t, k, AddRelation(removal.0, Relation(fromId, toId, newType)))))
    else Answer(false, Put(t, k, removal.0))
  }

  // ---- Fan-out reads over all segments ----

  /** What the fan-out asks each segment for: search(query) or getNodes(). */
  datatype NodeQuery = SearchFor(query: string) | EveryNode

  function NodesOf(s: Shard, q: NodeQuery): seq<Node> {
    match q
    case SearchFor(x) => Search(s, x)
    case EveryNode => AllNodes(s)
  }

  /** The engine after one step of a fan-out: segment `i` touched, then loaded by the call on it. */
  function Visit(e: Engine, i: int): (r: Engine)
    requires Wf(e) && 0 <= i < BucketCount
    ensures Wf(r)
  {
    var t := Touch(e, i);
    Put(t, i, Load(t.shards[i]))
  }

  /** One step of the fan-out: touch segment `i`, then ask it (which loads it). */
  function AskNodes(e: Engine, i: int, q: NodeQuery): (r: Answer<seq<Node>>)
    requires Wf(e) && 0 <= i < BucketCount
    ensures Wf(r.after)
  {
    Answer(NodesOf(Touch(e, i).shards[i], q), Visit(e, i))
  }

  /** The engine after visiting segments 0 .. n-1 in order, as every fan-out does. */
  function Sweep(e: Engine, n: int): (r: Engine)
    requires Wf(e) && 0 <= n <= BucketCount
    ensures Wf(r)
  {
    if n == 0 then e else Visit(Sweep(e, n - 1), n - 1)
  }

  /** The answers of segments 0 .. n-1 of a fan-out, concatenated; each segment is asked after the ones before it. */
  function Gather(e: Engine, q: NodeQuery, n: int): seq<Node>
    requires Wf(e) && 0 <= n <= BucketCount
  {
    if n == 0 then [] else Gather(e, q, n - 1) + AskNodes(Sweep(e, n - 1), n - 1, q).value
  }

  /** The loop of search and getAllNodes over segments 0 .. n-1: the gathered answers and the swept engine. */
  function CollectNodes(e: Engine, q: NodeQuery, n: int): (r: Answer<seq<Node>>)
    requires Wf(e) && 0 <= n <= BucketCount
    ensures Wf(r.after)
  {
    Answer(Gather(e, q, n), Sweep(e, n))
  }

  /** One step of getAllRelations: touch segment `i`, then its getAllRelations. */
  function AskRelations(e: Engine, i: int): (r: Answer<seq<Relation>>)
    requires Wf(e) && 0 <= i < BucketCount
    ensures Wf(r.after)
  {
    Answer(AllRelations(Touch(e, i).shards[i]), Visit(e, i))
  }

  /** The relations of segments 0 .. n-1, each asked after the ones before it. */
  function GatherRelations(e: Engine, n: int): seq<Relation>
    requires Wf(e) && 0 <= n <= BucketCount
  {
    if n == 0 then [] else GatherRelations(e, n - 1) + AskRelations(Sweep(e, n - 1), n - 1).value
  }

  /** The loop of getAllRelations over segments 0 .. n-1. */
  function CollectRelations(e: Engine, n: int): (r: Answer<seq<Relation>>)
    requires Wf(e) && 0 <= n <= BucketCount
    ensures Wf(r.after)
  {
    Answer(GatherRelations(e, n), Sweep(e, n))
  }


  // ---- traverse ----

  /** filter(r -> r.getType().equalsIgnoreCase(type)), in order. */
  function OfType(rels: seq<Relation>, relType: string): (r: seq<Relation>)
    ensures forall x :: x in r <==> x in rels && EqualsIgnoreCase(x.relType, relType)
    decreases |rels|
  {
    if rels == [] then []
    else
      var last := rels[|rels| - 1];
      assert forall x :: x in rels <==> x in rels[..|rels| - 1] || x == last;
      OfType(rels[..|rels| - 1], relType) + if EqualsIgnoreCase(last.relType, relType) then [last] else []
  }

  /** One element of traverse's stream: getNode of the relation's target, the node kept when found. */
  function FetchOne(a: Answer<seq<Node>>, rel: Relation): (r: Answer<seq<Node>>)
    requires Wf(a.after)
    ensures Wf(r.after)
  {
    var g := GetNode(a.after, rel.targetId);
    Answer(a.value + (if g.value.Some? then [g.value.value] else []), g.after)
  }

  /** map(r -> getNode(r.getTargetId())).filter(nonNull), in order, each getNode routing and loading. */
  function FetchTargets(e: Engine, rels: seq<Relation>): (r: Answer<seq<Node>>)
    requires Wf(e)
    ensures Wf(r.after)
    decreases |rels|
  {
    if rels == [] then Answer([], e)
    else FetchOne(FetchTargets(e, rels[..|rels| - 1]), rels[|rels| - 1])
  }

  /** One more relation: one more getNode. */
  lemma FetchTargetsStep(e: Engine, rels: seq<Relation>, i: int)
    requires Wf(e) && 0 <= i < |rels|
    ensures FetchTargets(e, rels[..i + 1]) == FetchOne(FetchTargets(e, rels[..i]), rels[i])
  {
    var p := rels[..i + 1];
    assert p[..i] == rels[..i] && p[i] == rels[i];
  }

  /** traverse: the source's relations of the type, mapped to their target nodes. */
  function Traverse(e: Engine, fromId: string, relType: string): (r: Answer<seq<Node>>)
    requires Wf(e)
    ensures Wf(r.after)
  {
    var k := SegmentOf(fromId);
    var t := Route(e, fromId);
    var rels := RelationsFrom(t.shards[k], fromId);
    FetchTargets(Put(t, k, Load(t.shards[k])), OfType(rels, relType))
  }

  // ---- administration ----

  /** setIndexing on segments 0 .. n-1. */
  function IndexingUpTo(shards: seq<Shard>, enabled: bool, n: int): (r: seq<Shard>)
    requires 0 <= n <= |shards|
    ensures |r| == |shards|
  {
    if n == 0 then shards
    else
      var s := IndexingUpTo(shards, enabled, n - 1);
      s[n - 1 := SetIndexing(s[n - 1], enabled)]
  }

  /** setAutoIndexing: set the flag and setIndexing on every segment, without touching the LRU. */
  function SetAutoIndexing(e: Engine, enabled: bool): (r: Engine)
    requires Wf(e)
    ensures Wf(r)
  {
    e.(autoIndexing := enabled, shards := IndexingUpTo(e.shards, enabled, BucketCount))
  }

  // ---- the graph that path search walks ----

  /** The target ids of `rels`, in order. */
  function Targets(rels: seq<Relation>): (r: seq<string>)
    ensures |r| == |rels| && forall i | 0 <= i < |rels| :: r[i] == rels[i].targetId
  {
    seq(|rels|, i requires 0 <= i < |rels| => rels[i].targetId)
  }

  /** The ids a node links to: the targets of the relations its segment holds for it once loaded, in stored order. */
  function Successors(e: Engine, x: string): seq<string>
    requires Wf(e)
  {
    Targets(RelationsFrom(Load(e.shards[SegmentOf(x)]), x))
  }

  /** The relation graph of an engine, as findShortestPath's search sees it. */
  function GraphOf(e: Engine): Paths.Graph
    requires Wf(e)
  {
    x => Successors(e, x)
  }

}
