/**
 * com.atlasdblite.engine.GraphEngine: sixteen DataSegment objects, the LRU
 * deque of resident segments and the autoIndexing flag.
 *
 * Every method ensures that the new Value() (and its result) is what the
 * matching function of EngineSpec gives for the old one; the properties of
 * those functions are proved in EngineProps.
 */
module GraphEngines {
  import opened Wrappers
  import opened DataIO
  import opened Nodes
  import opened Relations
  import opened Routing
  import opened Lru
  import opened Segments
  import SegmentSpec
  import Paths
  import Spec = EngineSpec

  class GraphEngine {
    /** The segment objects; the Java array is filled once and its slots never reassigned. */
    const segments: seq<DataSegment>
    /** lruQueue: resident segment numbers, most recently used first. */
    var lru: seq<int>
    var autoIndexing: bool

    /** Sixteen distinct segment objects and a well-formed deque. */
    predicate Valid()
      reads this
    {
      && |segments| == BucketCount
      && (forall i, j | 0 <= i < j < |segments| :: segments[i] != segments[j])
      && LruOk(lru)
    }

    /** The segments as values. */
    function Shards(): seq<SegmentSpec.Shard>
      reads this, segments
    {
      seq(|segments|, i reads segments requires 0 <= i < |segments| => segments[i].State())
    }

    /** The engine as a value. */
    function Value(): Spec.Engine
      reads this, segments
    {
      Spec.Engine(Shards(), lru, autoIndexing)
    }

    /** A call on segment `k` alone changes only that entry of Shards(). */
    twostate lemma ShardsAfter(k: int)
      requires Valid() && 0 <= k < BucketCount
      requires forall i | 0 <= i < BucketCount && i != k :: unchanged(segments[i])
      ensures Shards() == old(Shards())[k := segments[k].State()]
    {
    }

    constructor (disks: seq<Option<seq<byte>>>)
      requires |disks| == BucketCount
      ensures Valid() && Value() == Spec.Start(disks)
      ensures forall i | 0 <= i < |segments| :: fresh(segments[i])
    {
      var made: seq<DataSegment> := [];
      for i := 0 to BucketCount
        invariant |made| == i
        invariant forall j | 0 <= j < i :: fresh(made[j]) && made[j].State() == SegmentSpec.Opened(disks[j])
        invariant forall j, l | 0 <= j < l < i :: made[j] != made[l]
      {
        var s := new DataSegment(i, disks[i]);
        made := made + [s];
      }
      segments := made;
      lru := [];
      autoIndexing := false;
    }

    // ---- Routing and the LRU ----

    /** touchSegment. */
    method TouchSegment(k: int)
      requires Valid() && 0 <= k < BucketCount
      modifies this, segments
      ensures Valid() && Value() == Spec.Touch(old(Value()), k)
    {
      TouchFacts(lru, k);
      lru := RemoveFirst(lru, k);
      lru := [k] + lru;
      if |lru| > MaxActiveSegments {
        var last := lru[|lru| - 1];
        lru := lru[..|lru| - 1];
        label L0:
        segments[last].Unload();
        ShardsAfter@L0(last);
      }
    }

    /** getSegment: the number of the segment the id routes to, after touching it. */
    method GetSegment(id: string) returns (k: int)
      requires Valid()
      modifies this, segments
      ensures Valid() && k == SegmentOf(id) && Value() == Spec.Route(old(Value()), id)
    {
      k := SegmentOf(id);
      TouchSegment(k);
    }

    /** commit. */
    method Commit()
      requires Valid()
      modifies segments
      ensures Valid() && Value() == Spec.Commit(old(Value()))
    {
      ghost var before := Shards();
      for i := 0 to |lru|
        invariant Valid()
        invariant Shards() == Spec.SaveAll(before, lru[..i])
      {
        assert lru[..i + 1][..i] == lru[..i];
        label L1:
        segments[lru[i]].Save();
        ShardsAfter@L1(lru[i]);
      }
      assert lru[..|lru|] == lru;
    }

    // ---- CRUD ----

    /** getNode. */
    method GetNode(id: string) returns (r: Option<Node>)
      requires Valid()
      modifies this, segments
      ensures Valid() && Spec.Answer(r, Value()) == Spec.GetNode(old(Value()), id)
    {
      var k := GetSegment(id);
      label L2:
      r := segments[k].GetNode(id);
      ShardsAfter@L2(k);
    }

    /** persistNode. */
    method PersistNode(n: Node)
      requires Valid()
      modifies this, segments
      ensures Valid() && Value() == Spec.PersistNode(old(Value()), n)
    {
      var k := GetSegment(n.id);
      label L3:
      segments[k].PutNode(n);
      ShardsAfter@L3(k);
      Commit();
    }

    /** updateNode, putting a changed copy of the node. */
    method UpdateNode(id: string, key: string, value: string) returns (updated: bool)
      requires Valid()
      modifies this, segments
      ensures Valid() && Spec.Answer(updated, Value()) == Spec.UpdateNode(old(Value()), id, key, value)
    {
      var k := GetSegment(id);
      label L4:
      var node := segments[k].GetNode(id);
      ShardsAfter@L4(k);
      if node.None? {
        return false;
      }
      label L5:
      segments[k].PutNode(AddProperty(node.value, key, value));
      ShardsAfter@L5(k);
      Commit();
      return true;
    }

    /** deleteNode: removeNode, then removeRelationsTo on every segment, then commit. */
    method DeleteNode(id: string) returns (removed: bool)
      requires Valid()
      modifies this, segments
      ensures Valid() && Spec.Answer(removed, Value()) == Spec.DeleteNode(old(Value()), id)
    {
      var k := GetSegment(id);
      label L6:
      removed := segments[k].RemoveNode(id);
      ShardsAfter@L6(k);
      if removed {
        CascadeDelete(id);
        Commit();
      }
    }

    /** deleteNode's cascade: drop the relations to `id` from every segment, in order. */
    method CascadeDelete(id: string)
      requires Valid()
      modifies this, segments
      ensures Valid() && Value() == Spec.Cascade(old(Value()), id, BucketCount)
    {
      ghost var start := Value();
      for i := 0 to BucketCount
        invariant Valid()
        invariant Value() == Spec.Cascade(start, id, i)
      {
        Unlink(i, id);
      }
    }

    /** One step of deleteNode's cascade. */
    method Unlink(i: int, id: string)
      requires Valid() && 0 <= i < BucketCount
      modifies this, segments
      ensures Valid() && Value() == Spec.Unlink(old(Value()), id, i)
    {
      TouchSegment(i);
      label touched:
      segments[i].RemoveRelationsTo(id);
      ShardsAfter@touched(i);
    }

    /** persistRelation: IllegalArgument when an endpoint is missing. */
    method PersistRelation(fromId: string, toId: string, relType: string) returns (r: Result<()>)
      requires Valid()
      modifies this, segments
      ensures Valid() && Spec.Answer(r, Value()) == Spec.PersistRelation(old(Value()), fromId, toId, relType)
    {
      var both := BothExist(fromId, toId);
      if !both {
        return Err(IllegalArgument);
      }
      var rel := Relation(fromId, toId, relType);
      var k := GetSegment(fromId);
      ghost var t := Value();
      label routed:
      segments[k].AddRelation(rel);
      ShardsAfter@routed(k);
      assert Value() == Spec.Put(t, k, SegmentSpec.AddRelation(t.shards[k], rel));
      Commit();
      return Ok(());
    }

    /** `getNode(a) == null || getNode(b) == null`, negated: both ends exist. */
    method BothExist(a: string, b: string) returns (both: bool)
      requires Valid()
      modifies this, segments
      ensures Valid() && Spec.Answer(both, Value()) == Spec.Endpoints(old(Value()), a, b)
    {
      var first := GetNode(a);
      if first.None? {
        return false;
      }
      var second := GetNode(b);
      both := second.Some?;
    }

    /** deleteRelation. */
    method DeleteRelation(fromId: string, toId: string, relType: string) returns (removed: bool)
      requires Valid()
      modifies this, segments
      ensures Valid() && Spec.Answer(removed, Value()) == Spec.DeleteRelation(old(Value()), fromId, toId, relType)
    {
      var k := GetSegment(fromId);
      label L9:
      removed := segments[k].RemoveRelation(fromId, toId, relType);
      ShardsAfter@L9(k);
      if removed {
        Commit();
      }
    }

    /** updateRelation: remove the matches, and only if there were some, add the retyped relation. */
    method UpdateRelation(fromId: string, toId: string, oldType: string, newType: string) returns (updated: bool)
      requires Valid()
      modifies this, segments
      ensures Valid() && Spec.Answer(updated, Value()) == Spec.UpdateRelation(old(Value()), fromId, toId, oldType, newType)
    {
      var k := GetSegment(fromId);
      ghost var t := Value();
      label L10:
      updated := segments[k].RemoveRelation(fromId, toId, oldType);
      ShardsAfter@L10(k);
      ghost var removal := SegmentSpec.RemoveRelation(t.shards[k], fromId, toId, oldType);
      assert segments[k].State() == removal.0 && updated == removal.1;
      if updated {
        label L11:
        segments[k].AddRelation(Relation(fromId, toId, newType));
        ShardsAfter@L11(k);
        assert Value() == Spec.Put(t, k, SegmentSpec.AddRelation(removal.0, Relation(fromId, toId, newType)));
        Commit();
      } else {
        assert Value() == Spec.Put(t, k, removal.0);
      }
    }

    // ---- Reads over all segments ----

    /** One step of the fan-out loops of search and getAllNodes. */
    method AskNodes(i: int, q: Spec.NodeQuery) returns (found: seq<Node>)
      requires Valid() && 0 <= i < BucketCount
      modifies this, segments
      ensures Valid() && Spec.Answer(found, Value()) == Spec.AskNodes(old(Value()), i, q)
    {
      TouchSegment(i);
      label touched:
      match q {
        case SearchFor(query) => found := segments[i].Search(query);
        case EveryNode => found := segments[i].GetNodes();
      }
      ShardsAfter@touched(i);
    }

    /** search: touch and search every segment in turn, concatenating the results. */
    method Search(query: string) returns (results: seq<Node>)
      requires Valid()
      modifies this, segments
      ensures Valid() && Spec.Answer(results, Value()) == Spec.CollectNodes(old(Value()), Spec.SearchFor(query), BucketCount)
    {
      ghost var start := Value();
      results := [];
      for i := 0 to BucketCount
        invariant Valid()
        invariant Spec.Answer(results, Value()) == Spec.CollectNodes(start, Spec.SearchFor(query), i)
      {
        var found := AskNodes(i, Spec.SearchFor(query));
        results := results + found;
      }
    }

    /** getAllNodes. */
    method GetAllNodes() returns (all: seq<Node>)
      requires Valid()
      modifies this, segments
      ensures Valid() && Spec.Answer(all, Value()) == Spec.CollectNodes(old(Value()), Spec.EveryNode, BucketCount)
    {
      ghost var start := Value();
      all := [];
      for i := 0 to BucketCount
        invariant Valid()
        invariant Spec.Answer(all, Value()) == Spec.CollectNodes(start, Spec.EveryNode, i)
      {
        var found := AskNodes(i, Spec.EveryNode);
        all := all + found;
      }
    }

    /** One step of the loop of getAllRelations. */
    method AskRelations(i: int) returns (found: seq<Relation>)
      requires Valid() && 0 <= i < BucketCount
      modifies this, segments
      ensures Valid() && Spec.Answer(found, Value()) == Spec.AskRelations(old(Value()), i)
    {
      TouchSegment(i);
      label touched:
      found := segments[i].GetAllRelations();
      ShardsAfter@touched(i);
    }

    /** getAllRelations. */
    method GetAllRelations() returns (all: seq<Relation>)
      requires Valid()
      modifies this, segments
      ensures Valid() && Spec.Answer(all, Value()) == Spec.CollectRelations(old(Value()), BucketCount)
    {
      ghost var start := Value();
      all := [];
      for i := 0 to BucketCount
        invariant Valid()
        invariant Spec.Answer(all, Value()) == Spec.CollectRelations(start, i)
      {
        var found := AskRelations(i);
        all := all + found;
      }
    }

    /**
     * traverse: the source's relations whose type matches, then getNode of
     * each target in order, dropping the missing ones. Each getNode routes and
     * may evict, so the stream's map step is a loop over the matches here.
     */
    method Traverse(fromId: string, relType: string) returns (found: seq<Node>)
      requires Valid()
      modifies this, segments
      ensures Valid() && Spec.Answer(found, Value()) == Spec.Traverse(old(Value()), fromId, relType)
    {
      var k := GetSegment(fromId);
      ghost var t := Value();
      label L15:
      var rels := segments[k].GetRelationsFrom(fromId);
      ShardsAfter@L15(k);
      var matches := Spec.OfType(rels, relType);
      ghost var start := Value();
      assert start == Spec.Put(t, k, SegmentSpec.Load(t.shards[k]));
      assert rels == SegmentSpec.RelationsFrom(t.shards[k], fromId);
      assert matches[..0] == [];
      assert Spec.Answer([], Value()) == Spec.FetchTargets(start, matches[..0]);
      found := [];
      for i := 0 to |matches|
        invariant Valid()
        invariant Spec.Answer(found, Value()) == Spec.FetchTargets(start, matches[..i])
      {
        ghost var a := Spec.FetchTargets(start, matches[..i]);
        var n := GetNode(matches[i].targetId);
        ghost var g := Spec.GetNode(a.after, matches[i].targetId);
        assert n == g.value;
        assert Value() == g.after;
        Spec.FetchTargetsStep(start, matches, i);
        assert found == a.value;
        if n.Some? {
          found := found + [n.value];
        }
        assert Spec.FetchOne(a, matches[i]) == Spec.Answer(a.value + (if g.value.Some? then [g.value.value] else []), g.after);
        assert found == a.value + (if g.value.Some? then [g.value.value] else []);
        assert Value() == g.after;
      }
      assert matches[..|matches|] == matches;
    }

    /**
     * findShortestPath: getNode of the start and, when found, of the end; the
     * single-node path when both exist and are the same id; otherwise the
     * breadth-first search over the relation graph of the engine as those
     * lookups leave it, with the depth check as the code writes it, which
     * lets a path have maxDepth + 1 hops.
     */
    method FindShortestPath(startId: string, endId: string, maxDepth: int) returns (path: seq<string>)
      requires Valid()
      modifies this, segments
      ensures Valid()
      ensures var c := Spec.Endpoints(old(Value()), startId, endId);
              && Value() == c.after
              && (!c.value ==> path == [])
              && (c.value && startId == endId ==> path == [startId])
              && (c.value && startId != endId ==>
                    && Paths.IsWalk(Spec.GraphOf(Value()), path) && Paths.NoRepeats(path)
                    && (path != [] ==> path[0] == startId && path[|path| - 1] == endId && |path| - 1 <= maxDepth + 1)
                    && (maxDepth < 0 ==> path == [])
                    && (maxDepth >= 0 && endId in Spec.GraphOf(Value())(startId) ==> path == [startId, endId]))
    {
      var both := BothExist(startId, endId);
      if !both {
        return [];
      }
      if startId == endId {
        return [startId];
      }
      var snapshot := Value();
      path := Paths.SearchAsWritten(Spec.GraphOf(snapshot), startId, endId, maxDepth);
    }

    // ---- Administration ----

    /** setAutoIndexing: every segment, without touching the LRU. */
    method SetAutoIndexing(enabled: bool)
      requires Valid()
      modifies this, segments
      ensures Valid() && Value() == Spec.SetAutoIndexing(old(Value()), enabled)
    {
      ghost var before := Shards();
      autoIndexing := enabled;
      for i := 0 to BucketCount
        invariant Valid() && lru == old(lru) && autoIndexing == enabled
        invariant Shards() == Spec.IndexingUpTo(before, enabled, i)
      {
        label before:
        segments[i].SetIndexing(enabled);
        ShardsAfter@before(i);
      }
    }
  }
}
