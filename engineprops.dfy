/**
 * What GraphEngine's operations promise, proved about the EngineSpec
 * functions that the GraphEngine class follows.
 */
module EngineProps {
  import opened Wrappers
  import opened JavaText
  import opened Nodes
  import opened Relations
  import opened SegmentSpec
  import opened Routing
  import opened Lru
  import opened EngineSpec
  import opened DataIO

  // ---- commit ----

  /** Saving twice is saving once: a clean segment, or one whose image cannot be encoded, is left as it is. */
  lemma SaveIdempotent(s: Shard)
    ensures Save(Save(s)) == Save(s)
    ensures Save(s).(disk := s.disk, dirty := s.dirty) == s
  {
  }

  /** commit saves exactly the segments in the deque, each as one save would; the others are untouched. */
  lemma {:induction false} SaveAllAt(shards: seq<Shard>, ids: seq<int>)
    requires forall i | 0 <= i < |ids| :: 0 <= ids[i] < |shards|
    ensures forall i | 0 <= i < |shards| :: SaveAll(shards, ids)[i] == if i in ids then Save(shards[i]) else shards[i]
    decreases |ids|
  {
    if ids != [] {
      var front := ids[..|ids| - 1];
      SaveAllAt(shards, front);
      forall i | 0 <= i < |shards|
        ensures SaveAll(shards, ids)[i] == if i in ids then Save(shards[i]) else shards[i]
      {
        assert i in ids <==> i in front || i == ids[|ids| - 1];
        SaveIdempotent(shards[i]);
      }
    }
  }

  /** After commit every segment has what it had in memory; only files and dirty flags change. */
  lemma CommitAt(e: Engine, i: int)
    requires Wf(e) && 0 <= i < BucketCount
    ensures Commit(e).shards[i] == if i in e.lru then Save(e.shards[i]) else e.shards[i]
    ensures Commit(e).shards[i].(disk := e.shards[i].disk, dirty := e.shards[i].dirty) == e.shards[i]
    ensures Commit(e).lru == e.lru && Commit(e).autoIndexing == e.autoIndexing
  {
    SaveAllAt(e.shards, e.lru);
  }

  // ---- touchSegment ----

  /**
   * touchSegment changes at most one segment, the evicted one, which is
   * unloaded; the touched segment is never evicted.
   */
  lemma TouchAt(e: Engine, k: int, i: int)
    requires Wf(e) && 0 <= k < BucketCount && 0 <= i < BucketCount
    ensures Touch(e, k).lru == TouchQueue(e.lru, k).queue
    ensures Touch(e, k).shards[i] == if TouchQueue(e.lru, k).evicted == Some(i) then Unload(e.shards[i]) else e.shards[i]
    ensures Touch(e, k).shards[k] == e.shards[k]
  {
    TouchFacts(e.lru, k);
  }

  /**
   * A segment is sound when it is healthy and, when loaded, its memory fits the
   * file format and, when clean, its file already holds that memory.
   */
  predicate Sound(s: Shard) {
    Healthy(s) && (s.loaded ==> Storable(s.nodes, s.relations) && (!s.dirty ==> Holds(s.disk, s.nodes, s.relations)))
  }

  /**
   * Eviction loses nothing: when every segment is sound, every segment loads
   * after touchSegment the nodes and relations it loaded before.
   */
  lemma TouchKeepsGraph(e: Engine, k: int, i: int)
    requires Wf(e) && 0 <= k < BucketCount && 0 <= i < BucketCount
    requires forall j | 0 <= j < BucketCount :: Sound(e.shards[j])
    ensures Load(Touch(e, k).shards[i]).nodes == Load(e.shards[i]).nodes
    ensures Load(Touch(e, k).shards[i]).relations == Load(e.shards[i]).relations
  {
    TouchAt(e, k, i);
    var s := e.shards[i];
    if TouchQueue(e.lru, k).evicted == Some(i) && s.loaded {
      assert Sound(s);
      UnloadReload(s);
    }
  }

  // ---- getNode and persistNode ----

  /** getNode answers what the id's segment holds: routing never evicts the segment it routes to. */
  lemma GetNodeAnswers(e: Engine, id: string)
    requires Wf(e)
    ensures GetNode(e, id).value == NodeAt(e.shards[SegmentOf(id)], id)
    ensures GetNode(e, id).after.shards[SegmentOf(id)] == Load(e.shards[SegmentOf(id)])
  {
    TouchAt(e, SegmentOf(id), SegmentOf(id));
  }

  /**
   * persistNode then getNode finds the node, when the node's segment can be
   * loaded (its file is absent or readable).
   */
  lemma PersistThenGet(e: Engine, n: Node)
    requires Wf(e) && Load(e.shards[SegmentOf(n.id)]).loaded
    ensures GetNode(PersistNode(e, n), n.id).value == Some(n)
  {
    var k := SegmentOf(n.id);
    var t := Route(e, n.id);
    TouchAt(e, k, k);
    var p := Put(t, k, PutNode(t.shards[k], n));
    CommitAt(p, k);
    GetNodeAnswers(Commit(p), n.id);
  }

  /** The files of the segments, in order: what a new engine over the same directory opens. */
  function Disks(e: Engine): (r: seq<Option<seq<byte>>>)
    requires Wf(e)
    ensures |r| == BucketCount && forall i | 0 <= i < BucketCount :: r[i] == e.shards[i].disk
  {
    seq(BucketCount, i requires 0 <= i < BucketCount => e.shards[i].disk)
  }

  /**
   * Durability: after persistNode, an engine opened anew over the same files
   * finds the node, when its segment could be loaded and the segment with the
   * node fits the file format (so commit's save succeeds).
   */
  lemma PersistThenReopen(e: Engine, n: Node)
    requires Wf(e) && Load(e.shards[SegmentOf(n.id)]).loaded
    requires Storable(PutNode(e.shards[SegmentOf(n.id)], n).nodes, PutNode(e.shards[SegmentOf(n.id)], n).relations)
    ensures GetNode(Start(Disks(PersistNode(e, n))), n.id).value == Some(n)
  {
    var k := SegmentOf(n.id);
    var t := Route(e, n.id);
    TouchAt(e, k, k);
    TouchFacts(e.lru, k);
    var m := PutNode(t.shards[k], n);
    var p := Put(t, k, m);
    CommitAt(p, k);
    SaveWrites(m);
    var a := Start(Disks(PersistNode(e, n)));
    assert a.shards[k] == Opened(Save(m).disk);
    ReopenSees(a.shards[k], m.nodes, m.relations);
    GetNodeAnswers(a, n.id);
  }

  // ---- deleteNode ----

  /**
   * deleteNode reports whether getNode would have found the node; when it
   * would not, the engine is left as getNode leaves it.
   */
  lemma DeleteNodeReports(e: Engine, id: string)
    requires Wf(e)
    ensures DeleteNode(e, id).value <==> GetNode(e, id).value.Some?
    ensures !DeleteNode(e, id).value ==> DeleteNode(e, id).after == GetNode(e, id).after
  {
    GetNodeAnswers(e, id);
  }

  /** removeRelationsTo leaves no relation in memory that points at the id. */
  lemma RemoveRelationsToClears(s: Shard, id: string)
    ensures forall r | r in RemoveRelationsTo(s, id).relations :: r.targetId != id
  {
    var rs := Load(s).relations;
    FilterMembers(rs, ToTarget(id), false);
    if !RemovesAny(rs, ToTarget(id)) {
      forall r | r in rs ensures r.targetId != id {
        var j :| 0 <= j < |rs| && rs[j] == r;
        assert !Selects(ToTarget(id), rs[j]);
      }
    }
  }

  /** No relation in the memory of segments 0 .. n-1 points at the id. */
  ghost predicate ClearedUpTo(e: Engine, id: string, n: int)
    requires Wf(e) && 0 <= n <= BucketCount
  {
    forall i, r | 0 <= i < n && r in e.shards[i].relations :: r.targetId != id
  }

  /**
   * After the cascade over segments 0 .. n-1, none of them holds in memory a
   * relation to the id: each was cleared when its turn came, and an eviction
   * afterwards only empties it.
   */
  lemma {:induction false} CascadeClears(e: Engine, id: string, n: int)
    requires Wf(e) && 0 <= n <= BucketCount
    ensures ClearedUpTo(Cascade(e, id, n), id, n)
  {
    if n > 0 {
      var c := Cascade(e, id, n - 1);
      CascadeClears(e, id, n - 1);
      var t := Touch(c, n - 1);
      forall i | 0 <= i < n - 1 ensures forall r | r in t.shards[i].relations :: r.targetId != id {
        TouchAt(c, n - 1, i);
      }
      RemoveRelationsToClears(t.shards[n - 1], id);
    }
  }

  /**
   * When deleteNode removes a node, no segment keeps in memory a relation
   * pointing at it: the cascade reaches all of them, and commit changes only
   * files.
   */
  lemma DeleteNodeCascades(e: Engine, id: string)
    requires Wf(e) && DeleteNode(e, id).value
    ensures forall i, r | 0 <= i < BucketCount && r in DeleteNode(e, id).after.shards[i].relations :: r.targetId != id
  {
    var k := SegmentOf(id);
    var t := Route(e, id);
    var l := Put(t, k, RemoveNode(t.shards[k], id).0);
    var c := Cascade(l, id, BucketCount);
    CascadeClears(l, id, BucketCount);
    forall i | 0 <= i < BucketCount ensures Commit(c).shards[i].relations == c.shards[i].relations {
      CommitAt(c, i);
    }
  }

  // ---- relations ----

  /**
   * persistRelation fails with IllegalArgumentException exactly when one of
   * the two getNode calls finds nothing, leaving the engine as they leave it;
   * otherwise the relation is appended to the source's segment. A missing
   * source is found missing in the engine as it was.
   */
  lemma PersistRelationResult(e: Engine, fromId: string, toId: string, relType: string)
    requires Wf(e)
    ensures var c, r := Endpoints(e, fromId, toId), PersistRelation(e, fromId, toId, relType);
            && (r.value == Err(IllegalArgument) <==> !c.value)
            && (!c.value ==> r.after == c.after)
            && (NodeAt(e.shards[SegmentOf(fromId)], fromId).None? ==> !c.value)
            && (c.value ==>
                  && r.value == Ok(())
                  && r.after.shards[SegmentOf(fromId)].relations
                     == Load(c.after.shards[SegmentOf(fromId)]).relations + [Relation(fromId, toId, relType)])
  {
    var k := SegmentOf(fromId);
    GetNodeAnswers(e, fromId);
    var c := Endpoints(e, fromId, toId);
    if c.value {
      var t := Route(c.after, fromId);
      TouchAt(c.after, k, k);
      CommitAt(Put(t, k, AddRelation(t.shards[k], Relation(fromId, toId, relType))), k);
    }
  }

  /**
   * deleteRelation reports whether the source's segment held a match; it
   * then holds exactly its other relations.
   */
  lemma DeleteRelationResult(e: Engine, fromId: string, toId: string, relType: string)
    requires Wf(e) && Load(e.shards[SegmentOf(fromId)]).loaded
    ensures var k, r := SegmentOf(fromId), DeleteRelation(e, fromId, toId, relType);
            && (r.value <==> exists x | x in AllRelations(e.shards[k]) :: Matches(x, fromId, toId, relType))
            && (forall x :: x in r.after.shards[k].relations <==>
                  x in AllRelations(e.shards[k]) && !Matches(x, fromId, toId, relType))
  {
    var k := SegmentOf(fromId);
    var t := Route(e, fromId);
    TouchAt(e, k, k);
    RemoveRelationResult(t.shards[k], fromId, toId, relType);
    var removal := RemoveRelation(t.shards[k], fromId, toId, relType);
    CommitAt(Put(t, k, removal.0), k);
  }

  /**
   * updateRelation with no (from, to, oldType) match returns false and only
   * loads the segment; with one, every match is removed and exactly one
   * (from, to, newType) relation is appended after the rest.
   */
  lemma UpdateRelationResult(e: Engine, fromId: string, toId: string, oldType: string, newType: string)
    requires Wf(e) && Load(e.shards[SegmentOf(fromId)]).loaded
    ensures var k, r := SegmentOf(fromId), UpdateRelation(e, fromId, toId, oldType, newType);
            var before := AllRelations(e.shards[k]);
            && (r.value <==> exists x | x in before :: Matches(x, fromId, toId, oldType))
            && (!r.value ==> r.after.shards[k] == Load(e.shards[k]))
            && (r.value ==> r.after.shards[k].relations
                             == Filter(before, Matching(fromId, toId, oldType), false) + [Relation(fromId, toId, newType)])
  {
    var k := SegmentOf(fromId);
    var t := Route(e, fromId);
    TouchAt(e, k, k);
    RemoveRelationResult(t.shards[k], fromId, toId, oldType);
    var removal := RemoveRelation(t.shards[k], fromId, toId, oldType);
    FilterRemoves(Load(t.shards[k]).relations, Matching(fromId, toId, oldType));
    if removal.1 {
      var l := Put(t, k, AddRelation(removal.0, Relation(fromId, toId, newType)));
      CommitAt(l, k);
    }
  }

  // ---- updateNode ----

  /**
   * updateNode returns whether the node exists; when it does, the segment
   * then holds it with the property set, and the segment's index stays right.
   */
  lemma UpdateNodeResult(e: Engine, id: string, key: string, value: string)
    requires Wf(e) && Load(e.shards[SegmentOf(id)]).loaded && Healthy(Load(e.shards[SegmentOf(id)]))
    ensures var k, r := SegmentOf(id), UpdateNode(e, id, key, value);
            && (r.value <==> NodeAt(e.shards[k], id).Some?)
            && (r.value ==> NodeAt(r.after.shards[k], id) == Some(AddProperty(NodeAt(e.shards[k], id).value, key, value)))
            && Healthy(r.after.shards[k])
  {
    var k := SegmentOf(id);
    var t := Route(e, id);
    TouchAt(e, k, k);
    var found := NodeAt(t.shards[k], id);
    var l := Put(t, k, Load(t.shards[k]));
    if found.Some? {
      var n := AddProperty(found.value, key, value);
      var m := PutNode(l.shards[k], n);
      PutNodeKeeps(l.shards[k], n);
      CommitAt(Put(l, k, m), k);
      var a := UpdateNode(e, id, key, value).after.shards[k];
      assert a.nodes == m.nodes && a.index == m.index && a.indexing == m.indexing && a.loaded;
      assert n.id == id;
    }
  }

  // ---- setAutoIndexing ----

  /** setIndexing reaches exactly segments 0 .. n-1. */
  lemma {:induction false} IndexingUpToAt(shards: seq<Shard>, enabled: bool, n: int)
    requires 0 <= n <= |shards|
    ensures forall i | 0 <= i < |shards| :: IndexingUpTo(shards, enabled, n)[i] == if i < n then SetIndexing(shards[i], enabled) else shards[i]
  {
    if n > 0 {
      IndexingUpToAt(shards, enabled, n - 1);
    }
  }

  /**
   * setAutoIndexing sets the flag and indexing on every segment, leaves the
   * deque alone, and keeps every segment healthy when each is loaded or empty.
   */
  lemma SetAutoIndexingResult(e: Engine, enabled: bool)
    requires Wf(e)
    ensures var r := SetAutoIndexing(e, enabled);
            && r.autoIndexing == enabled && r.lru == e.lru
            && (forall i | 0 <= i < BucketCount :: r.shards[i].indexing == enabled && r.shards[i].nodes == e.shards[i].nodes)
            && ((forall i | 0 <= i < BucketCount :: Healthy(e.shards[i]) && (e.shards[i].loaded || e.shards[i].nodes == map[]))
                ==> forall i | 0 <= i < BucketCount :: Healthy(r.shards[i]))
  {
    IndexingUpToAt(e.shards, enabled, BucketCount);
    forall i | 0 <= i < BucketCount && Healthy(e.shards[i]) && (e.shards[i].loaded || e.shards[i].nodes == map[])
      ensures Healthy(SetIndexing(e.shards[i], enabled))
    {
      SetIndexingKeeps(e.shards[i], enabled);
    }
  }

  // ---- traverse ----

  /** The stream keeps at most one node per relation, and one exactly when getNode finds it. */
  lemma {:induction false} FetchTargetsLength(e: Engine, rels: seq<Relation>)
    requires Wf(e)
    ensures |FetchTargets(e, rels).value| <= |rels|
    decreases |rels|
  {
    if rels != [] {
      FetchTargetsLength(e, rels[..|rels| - 1]);
    }
  }

  /**
   * traverse follows exactly the relations stored in the source's segment
   * that leave the source and have the type, ignoring case, in stored order,
   * and returns at most one node for each.
   */
  lemma TraverseFollows(e: Engine, fromId: string, relType: string)
    requires Wf(e)
    ensures var k := SegmentOf(fromId);
            var followed := OfType(RelationsFrom(e.shards[k], fromId), relType);
            && (forall x :: x in followed <==>
                  x in AllRelations(e.shards[k]) && x.sourceId == fromId && EqualsIgnoreCase(x.relType, relType))
            && Traverse(e, fromId, relType) == FetchTargets(Put(Route(e, fromId), k, Load(e.shards[k])), followed)
            && |Traverse(e, fromId, relType).value| <= |followed|
  {
    var k := SegmentOf(fromId);
    TouchAt(e, k, k);
    RelationsFromResult(e.shards[k], fromId, AllRelations(e.shards[k]), []);
    var followed := OfType(RelationsFrom(e.shards[k], fromId), relType);
    FetchTargetsLength(Put(Route(e, fromId), k, Load(e.shards[k])), followed);
  }
}
