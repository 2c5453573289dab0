/**
 * com.atlasdblite.engine.DataSegment: one shard of the graph, with its node
 * map, relation list and inverted index updated in place, and its file.
 *
 * Every method ensures that the new State() is what the matching function of
 * SegmentSpec gives for the old one; the properties of those functions are
 * proved there.
 */
module Segments {
  import opened Wrappers
  import opened JavaText
  import opened DataIO
  import opened Nodes
  import opened Relations
  import opened InvertedIndex
  import opened SegmentImage
  import Spec = SegmentSpec

  /** The loop of indexNode: addToIndex for the id, the label and each property value. */
  method IndexTokens(index: Index, n: Node) returns (updated: Index)
    ensures updated == AddKeys(index, NodeKeys(n), n.id)
  {
    updated := index;
    var tokens := TokenOrder(n);
    for i := 0 to |tokens|
      invariant updated == AddEach(index, tokens[..i], n.id)
    {
      AddEachSnoc(index, tokens, n.id, i);
      updated := AddToIndex(updated, tokens[i], n.id);
    }
    assert tokens[..|tokens|] == tokens;
    IndexNodeAdds(index, n);
  }

  /** The loop of removeFromIndex: removeFromIndexKey for the id, the label and each property value. */
  method UnindexTokens(index: Index, n: Node) returns (updated: Index)
    ensures updated == RemoveKeys(index, NodeKeys(n), n.id)
  {
    updated := index;
    var tokens := TokenOrder(n);
    for i := 0 to |tokens|
      invariant updated == RemoveEach(index, tokens[..i], n.id)
    {
      RemoveEachSnoc(index, tokens, n.id, i);
      updated := RemoveFromIndexKey(updated, tokens[i], n.id);
    }
    assert tokens[..|tokens|] == tokens;
    RemoveFromIndexRemoves(index, n);
  }

  /**
   * One pass of the node loop of loadIfRequired: read a record, put it into
   * the map and, with indexing on, index it; `remaining` counts the records
   * still due, this one included.
   */
  method ReadNodeRecord(nodes: map<string, Node>, index: Index, indexing: bool, b: seq<byte>, ghost remaining: int)
    returns (nodes': map<string, Node>, index': Index, rest: Result<seq<byte>>)
    requires remaining > 0
    ensures rest.Err? ==> SegmentImage.LoadNodes(nodes, index, indexing, b, remaining) == NodesRead(nodes', index', rest)
    ensures rest.Ok? ==> SegmentImage.LoadNodes(nodes, index, indexing, b, remaining)
                         == SegmentImage.LoadNodes(nodes', index', indexing, rest.value, remaining - 1)
  {
    var decoded := ReadFrom(b);
    if decoded.Err? {
      LoadNodesFails(nodes, index, indexing, b, remaining);
      return nodes, index, Err(decoded.error);
    }
    var n, next := decoded.value.0, decoded.value.1;
    nodes', index' := nodes[n.id := n], index;
    if indexing {
      index' := IndexTokens(index, n);
    }
    LoadNodesStep(nodes, index, indexing, b, remaining, n, next, nodes', index', remaining - 1);
    rest := Ok(next);
  }

  /**
   * The node loop of loadIfRequired: `count` records; stops at the first
   * record that cannot be read.
   */
  method ReadNodes(nodes: map<string, Node>, index: Index, indexing: bool, b: seq<byte>, count: int32)
    returns (nodes': map<string, Node>, index': Index, rest: Result<seq<byte>>)
    ensures NodesRead(nodes', index', rest) == SegmentImage.LoadNodes(nodes, index, indexing, b, count)
  {
    nodes', index', rest := nodes, index, Ok(b);
    var i: int := 0;
    ghost var remaining: int := count;
    ghost var target := SegmentImage.LoadNodes(nodes, index, indexing, b, count);
    while i < count && rest.Ok?
      invariant 0 <= i && (count >= 0 ==> i <= count) && remaining == count - i
      invariant rest.Ok? ==> target == SegmentImage.LoadNodes(nodes', index', indexing, rest.value, remaining)
      invariant rest.Err? ==> target == NodesRead(nodes', index', rest)
    {
      nodes', index', rest := ReadNodeRecord(nodes', index', indexing, rest.value, remaining);
      i, remaining := i + 1, remaining - 1;
    }
  }

  /** One pass of the relation loop of loadIfRequired: read a record and append it. */
  method ReadRelationRecord(relations: seq<Relation>, b: seq<byte>, ghost remaining: int)
    returns (relations': seq<Relation>, rest: Result<seq<byte>>)
    requires remaining > 0
    ensures rest.Err? ==> SegmentImage.LoadRelations(relations, b, remaining) == RelationsRead(relations', rest)
    ensures rest.Ok? ==> SegmentImage.LoadRelations(relations, b, remaining)
                         == SegmentImage.LoadRelations(relations', rest.value, remaining - 1)
  {
    var decoded := DecodeRelation(b);
    if decoded.Err? {
      LoadRelationsFails(relations, b, remaining);
      return relations, Err(decoded.error);
    }
    var r, next := decoded.value.0, decoded.value.1;
    LoadRelationsStep(relations, b, remaining, r, next);
    relations', rest := relations + [r], Ok(next);
  }

  /**
   * The relation loop of loadIfRequired: `count` records appended in stream
   * order; stops at the first record that cannot be read.
   */
  method ReadRelations(relations: seq<Relation>, b: seq<byte>, count: int32)
    returns (relations': seq<Relation>, rest: Result<seq<byte>>)
    ensures RelationsRead(relations', rest) == SegmentImage.LoadRelations(relations, b, count)
  {
    relations', rest := relations, Ok(b);
    var i: int := 0;
    ghost var remaining: int := count;
    ghost var target := SegmentImage.LoadRelations(relations, b, count);
    while i < count && rest.Ok?
      invariant 0 <= i && (count >= 0 ==> i <= count) && remaining == count - i
      invariant rest.Ok? ==> target == SegmentImage.LoadRelations(relations', rest.value, remaining)
      invariant rest.Err? ==> target == RelationsRead(relations', rest)
    {
      relations', rest := ReadRelationRecord(relations', rest.value, remaining);
      i, remaining := i + 1, remaining - 1;
    }
  }

  class DataSegment {
    /** The segment number; the file is part_<id>.dat. */
    const id: int
    var nodes: map<string, Node>
    var relations: seq<Relation>
    var index: Index
    var indexing: bool
    var loaded: bool
    var dirty: bool
    /** The segment's file: None while it does not exist. */
    var disk: Option<seq<byte>>

    /** The segment as a value. */
    function State(): Spec.Shard
      reads this
    {
      Spec.Shard(nodes, relations, index, indexing, loaded, dirty, disk)
    }

    constructor (id: int, disk: Option<seq<byte>>)
      ensures this.id == id && State() == Spec.Opened(disk)
    {
      this.id := id;
      nodes, relations, index := map[], [], map[];
      indexing, loaded, dirty := false, false, false;
      this.disk := disk;
    }

    // ---- The index, one key at a time ----

    /** indexNode. */
    method IndexNode(n: Node)
      modifies this
      ensures State() == old(State()).(index := AddKeys(old(index), NodeKeys(n), n.id))
    {
      index := IndexTokens(index, n);
    }

    /** removeFromIndex. */
    method RemoveFromIndex(n: Node)
      modifies this
      ensures State() == old(State()).(index := RemoveKeys(old(index), NodeKeys(n), n.id))
    {
      index := UnindexTokens(index, n);
    }

    /** rebuildIndex: clear, then indexNode for each stored node. */
    method RebuildIndex()
      modifies this
      ensures State() == old(State()).(index := IndexAll(map[], NodeOrder(old(nodes))))
    {
      var list := NodeOrder(nodes);
      index := map[];
      for i := 0 to |list|
        invariant State() == old(State()).(index := index)
        invariant IndexAll(index, list[i..]) == IndexAll(map[], list)
      {
        assert list[i..][1..] == list[i + 1..];
        IndexNode(list[i]);
      }
    }

    // ---- loadIfRequired ----

    /** loadIfRequired. */
    method LoadIfRequired()
      modifies this
      ensures State() == Spec.Load(old(State()))
    {
      if loaded { return; }
      if disk.None? {
        loaded := true;
        return;
      }
      var image := Unseal(disk.value);
      if image.None? { return; }
      var header := ReadUTF(image.value);
      if header.Err? || header.value.0 != Magic { return; }
      var nodeCount := ReadInt(header.value.1);
      if nodeCount.Err? { return; }
      var rest;
      nodes, index, rest := ReadNodes(nodes, index, indexing, nodeCount.value.1, nodeCount.value.0);
      if rest.Err? { return; }
      var relationCount := ReadInt(rest.value);
      if relationCount.Err? { return; }
      var end;
      relations, end := ReadRelations(relations, relationCount.value.1, relationCount.value.0);
      if end.Ok? { loaded := true; }
    }

    // ---- save and unload ----

    /** save: write the image of a dirty, loaded segment; an image that cannot be encoded is not written. */
    method Save()
      modifies this
      ensures State() == Spec.Save(old(State()))
    {
      if !dirty || !loaded { return; }
      var image := EncodeImage(nodes, relations);
      if image.Err? { return; }
      disk := Some(Seal(image.value));
      dirty := false;
    }

    /** unload: save, then clear memory. */
    method Unload()
      modifies this
      ensures State() == Spec.Unload(old(State()))
    {
      if !loaded { return; }
      Save();
      nodes := map[];
      relations := [];
      index := map[];
      loaded := false;
    }

    // ---- Nodes ----

    /** putNode. */
    method PutNode(n: Node)
      modifies this
      ensures State() == Spec.PutNode(old(State()), n)
    {
      LoadIfRequired();
      ghost var t := State();
      if indexing {
        if n.id in nodes { RemoveFromIndex(nodes[n.id]); }
        IndexNode(n);
      }
      assert index == if t.indexing then PutIndex(t.index, t.nodes, n) else t.index;
      nodes := nodes[n.id := n];
      dirty := true;
    }

    /** getNode. */
    method GetNode(nodeId: string) returns (r: Option<Node>)
      modifies this
      ensures r == Spec.NodeAt(old(State()), nodeId) && State() == Spec.Load(old(State()))
    {
      LoadIfRequired();
      r := if nodeId in nodes then Some(nodes[nodeId]) else None;
    }

    /** removeNode. */
    method RemoveNode(nodeId: string) returns (removed: bool)
      modifies this
      ensures (State(), removed) == Spec.RemoveNode(old(State()), nodeId)
    {
      LoadIfRequired();
      if nodeId !in nodes { return false; }
      ghost var t := State();
      var n := nodes[nodeId];
      nodes := nodes - {nodeId};
      if indexing { RemoveFromIndex(n); }
      assert index == if t.indexing then RemoveKeys(t.index, NodeKeys(t.nodes[nodeId]), t.nodes[nodeId].id) else t.index;
      var _ := RemoveIf(Spec.FromSource(nodeId));
      dirty := true;
      return true;
    }

    // ---- Relations ----

    /** relations.removeIf(f): keep the relations f does not select, in order; report whether any went. */
    method RemoveIf(f: Spec.RelationFilter) returns (removed: bool)
      modifies this
      ensures State() == old(State()).(relations := Spec.Filter(old(relations), f, false))
      ensures removed == Spec.RemovesAny(old(relations), f)
    {
      var kept := [];
      removed := false;
      for i := 0 to |relations|
        invariant kept == Spec.Filter(relations[..i], f, false)
        invariant removed == Spec.RemovesAny(relations[..i], f)
      {
        assert relations[..i + 1][..i] == relations[..i];
        if Spec.Selects(f, relations[i]) {
          removed := true;
        } else {
          kept := kept + [relations[i]];
        }
      }
      assert relations[..|relations|] == relations;
      relations := kept;
    }

    /** addRelation. */
    method AddRelation(r: Relation)
      modifies this
      ensures State() == Spec.AddRelation(old(State()), r)
    {
      LoadIfRequired();
      relations := relations + [r];
      dirty := true;
    }

    /** removeRelation. */
    method RemoveRelation(sourceId: string, targetId: string, relType: string) returns (removed: bool)
      modifies this
      ensures (State(), removed) == Spec.RemoveRelation(old(State()), sourceId, targetId, relType)
    {
      LoadIfRequired();
      Spec.FilterRemoves(relations, Spec.Matching(sourceId, targetId, relType));
      removed := RemoveIf(Spec.Matching(sourceId, targetId, relType));
      if removed { dirty := true; }
    }

    /** removeRelationsTo. */
    method RemoveRelationsTo(targetId: string)
      modifies this
      ensures State() == Spec.RemoveRelationsTo(old(State()), targetId)
    {
      LoadIfRequired();
      Spec.FilterRemoves(relations, Spec.ToTarget(targetId));
      var removed := RemoveIf(Spec.ToTarget(targetId));
      if removed { dirty := true; }
    }

    /** getRelationsFrom. */
    method GetRelationsFrom(sourceId: string) returns (r: seq<Relation>)
      modifies this
      ensures r == Spec.RelationsFrom(old(State()), sourceId) && State() == Spec.Load(old(State()))
    {
      LoadIfRequired();
      r := Spec.Filter(relations, Spec.FromSource(sourceId), true);
    }

    /** getNodes. */
    method GetNodes() returns (r: seq<Node>)
      modifies this
      ensures r == Spec.AllNodes(old(State())) && State() == Spec.Load(old(State()))
    {
      LoadIfRequired();
      r := NodeOrder(nodes);
    }

    /** getAllRelations. */
    method GetAllRelations() returns (r: seq<Relation>)
      modifies this
      ensures r == Spec.AllRelations(old(State())) && State() == Spec.Load(old(State()))
    {
      LoadIfRequired();
      r := relations;
    }

    // ---- Search and indexing ----

    /** search. */
    method Search(query: string) returns (r: seq<Node>)
      modifies this
      ensures r == Spec.Search(old(State()), query) && State() == Spec.Load(old(State()))
    {
      LoadIfRequired();
      var q := Lower(query);
      if indexing {
        r := Spec.StoredAmong(nodes, Enumerate(if q in index then index[q] else {}));
      } else {
        r := Spec.ScanHits(NodeOrder(nodes), q);
      }
    }

    /** setIndexing: no load; rebuild when enabling a loaded segment, else clear. */
    method SetIndexing(enabled: bool)
      modifies this
      ensures State() == Spec.SetIndexing(old(State()), enabled)
    {
      indexing := enabled;
      if enabled && loaded {
        RebuildIndex();
      } else {
        index := map[];
      }
    }
  }
}
