/**
 * The state of one DataSegment as a value, and what each of its public
 * methods does to it. The class DataSegment (segment.dfy) is proved to follow
 * these functions; the lemmas here state what the source promises about them.
 *
 * The segment's file is part of the state: `disk` is None while the file does
 * not exist, else its bytes.
 */
module SegmentSpec {
  import opened Wrappers
  import opened JavaText
  import opened DataIO
  import opened Nodes
  import opened Relations
  import opened InvertedIndex
  import opened SegmentImage

  datatype Shard = Shard(nodes: map<string, Node>, relations: seq<Relation>, index: Index,
                         indexing: bool, loaded: bool, dirty: bool, disk: Option<seq<byte>>)

  /** A segment just constructed over its file: empty, not loaded, not dirty, not indexing. */
  function Opened(disk: Option<seq<byte>>): Shard {
    Shard(map[], [], map[], false, false, false, disk)
  }

  /**
   * The segment invariant: each node is stored under its own id, and the index
   * is the index of the stored nodes when indexing is on and empty when off.
   */
  predicate Healthy(s: Shard) {
    KeysMatch(s.nodes) && if s.indexing then IndexFor(s.index, s.nodes) else s.index == map[]
  }

  // ---- loadIfRequired ----

  /**
   * loadIfRequired: nothing once loaded; a missing file loads as empty; an
   * unreadable file (decryption or Base64 fails) leaves the segment as it was;
   * otherwise the image is read on top of what is in memory.
   */
  function Load(s: Shard): (r: Shard)
    ensures r.indexing == s.indexing && r.dirty == s.dirty && r.disk == s.disk
    ensures s.loaded ==> r == s
  {
    if s.loaded then s
    else
      match s.disk
      case None => s.(loaded := true)
      case Some(file) =>
        match Unseal(file)
        case None => s
        case Some(image) =>
          var l := LoadImage(s.nodes, s.index, s.indexing, s.relations, image);
          s.(nodes := l.nodes, index := l.index, relations := l.relations, loaded := l.complete)
  }

  /** Load rejects any header but SEG_V1: nothing is read and the segment stays unloaded. */
  lemma LoadRejectsHeader(s: Shard, image: seq<byte>, header: string, rest: seq<byte>)
    requires !s.loaded && s.disk == Some(Seal(image))
    requires ReadUTF(image) == Ok((header, rest)) && header != Magic
    ensures Load(s) == s
  {
    SealBijection(image, Seal(image));
  }

  // ---- Relation filters (List.removeIf and stream().filter) ----

  /** The three relation predicates the segment filters by. */
  datatype RelationFilter =
    | FromSource(sourceId: string)
    | ToTarget(targetId: string)
    | Matching(sourceId: string, targetId: string, relType: string)

  predicate Selects(f: RelationFilter, r: Relation) {
    match f
    case FromSource(x) => r.sourceId == x
    case ToTarget(x) => r.targetId == x
    case Matching(x, y, t) => Matches(r, x, y, t)
  }

  /** The relations of `rs` that `f` selects (keep) or does not select (not keep), in order. */
  function Filter(rs: seq<Relation>, f: RelationFilter, keep: bool): (r: seq<Relation>)
    ensures |r| <= |rs|
    decreases |rs|
  {
    if rs == [] then []
    else
      var last := rs[|rs| - 1];
      Filter(rs[..|rs| - 1], f, keep) + if Selects(f, last) == keep then [last] else []
  }

  /** removeIf's result: some relation of `rs` is selected. */
  predicate RemovesAny(rs: seq<Relation>, f: RelationFilter) {
    exists j | 0 <= j < |rs| :: Selects(f, rs[j])
  }

  /** A filter keeps exactly the relations on its side of the predicate. */
  lemma {:induction false} FilterMembers(rs: seq<Relation>, f: RelationFilter, keep: bool)
    ensures forall r :: r in Filter(rs, f, keep) <==> r in rs && Selects(f, r) == keep
    decreases |rs|
  {
    if rs != [] {
      FilterMembers(rs[..|rs| - 1], f, keep);
      assert rs == rs[..|rs| - 1] + [rs[|rs| - 1]];
    }
  }

  /** Filtering preserves order: it distributes over concatenation. */
  lemma {:induction false} FilterConcat(a: seq<Relation>, b: seq<Relation>, f: RelationFilter, keep: bool)
    ensures Filter(a + b, f, keep) == Filter(a, f, keep) + Filter(b, f, keep)
    decreases |b|
  {
    if b == [] {
      assert a + b == a;
    } else {
      var c := b[..|b| - 1];
      assert (a + b)[..|a + b| - 1] == a + c;
      FilterConcat(a, c, f, keep);
    }
  }

  /** Removing the selected relations changes the list exactly when removeIf reports a removal. */
  lemma {:induction false} FilterRemoves(rs: seq<Relation>, f: RelationFilter)
    ensures Filter(rs, f, false) == rs <==> !RemovesAny(rs, f)
    decreases |rs|
  {
    if rs != [] {
      var init := rs[..|rs| - 1];
      FilterRemoves(init, f);
      assert rs == init + [rs[|rs| - 1]];
      if RemovesAny(init, f) {
        var j :| 0 <= j < |init| && Selects(f, init[j]);
        assert Selects(f, rs[j]);
      }
      if RemovesAny(rs, f) && !Selects(f, rs[|rs| - 1]) {
        var j :| 0 <= j < |rs| && Selects(f, rs[j]);
        assert Selects(f, init[j]);
      }
      if Selects(f, rs[|rs| - 1]) {
        assert |Filter(rs, f, false)| < |rs| by {
          assert |Filter(init, f, false)| <= |init|;
        }
      } else if Filter(rs, f, false) == rs {
        assert Filter(init, f, false) == Filter(rs, f, false)[..|rs| - 1];
      }
    }
  }

  // ---- The segment's operations; each starts with loadIfRequired ----

  /** putNode: the node is stored under its id; with indexing on, the old node's keys go and the new node's keys come. */
  function PutNode(s: Shard, n: Node): Shard {
    var t := Load(s);
    t.(nodes := t.nodes[n.id := n],
       index := if t.indexing then PutIndex(t.index, t.nodes, n) else t.index,
       dirty := true)
  }

  /** getNode: the stored node, if any. */
  function NodeAt(s: Shard, id: string): Option<Node> {
    var t := Load(s);
    if id in t.nodes then Some(t.nodes[id]) else None
  }

  /** removeNode: drop the node, its index entries and its outgoing relations; report whether it was there. */
  function RemoveNode(s: Shard, id: string): (Shard, bool) {
    var t := Load(s);
    if id !in t.nodes then (t, false)
    else
      (t.(nodes := t.nodes - {id},
          index := if t.indexing then RemoveKeys(t.index, NodeKeys(t.nodes[id]), t.nodes[id].id) else t.index,
          relations := Filter(t.relations, FromSource(id), false),
          dirty := true),
       true)
  }

  /** addRelation: append. */
  function AddRelation(s: Shard, r: Relation): Shard {
    var t := Load(s);
    t.(relations := t.relations + [r], dirty := true)
  }

  /** relations.removeIf(f), setting dirty only when something was removed. */
  function RemoveWhere(s: Shard, f: RelationFilter): (Shard, bool) {
    var t := Load(s);
    if RemovesAny(t.relations, f) then (t.(relations := Filter(t.relations, f, false), dirty := true), true)
    else (t, false)
  }

  /** removeRelation: every relation with this source and target and a type equal ignoring case. */
  function RemoveRelation(s: Shard, sourceId: string, targetId: string, relType: string): (Shard, bool) {
    RemoveWhere(s, Matching(sourceId, targetId, relType))
  }

  /** removeRelationsTo: every relation pointing at the id. */
  function RemoveRelationsTo(s: Shard, targetId: string): Shard {
    RemoveWhere(s, ToTarget(targetId)).0
  }

  /** getRelationsFrom: the relations leaving the id, in stored order. */
  function RelationsFrom(s: Shard, sourceId: string): seq<Relation> {
    Filter(Load(s).relations, FromSource(sourceId), true)
  }

  /** getNodes. */
  function AllNodes(s: Shard): seq<Node> {
    NodeOrder(Load(s).nodes)
  }

  /** getAllRelations. */
  function AllRelations(s: Shard): seq<Relation> {
    Load(s).relations
  }

  // ---- search ----

  /** ids.stream().map(nodes::get).filter(nonNull): the stored nodes among `ids`, in order. */
  function StoredAmong(nodes: map<string, Node>, ids: seq<string>): seq<Node> {
    if ids == [] then []
    else
      var rest := StoredAmong(nodes, ids[1..]);
      if ids[0] in nodes then [nodes[ids[0]]] + rest else rest
  }

  /** The lookup keeps exactly the nodes stored under some id of the list. */
  lemma {:induction false} StoredAmongMembers(nodes: map<string, Node>, ids: seq<string>)
    ensures forall n :: n in StoredAmong(nodes, ids) <==> exists i | 0 <= i < |ids| :: ids[i] in nodes && nodes[ids[i]] == n
    decreases |ids|
  {
    if ids != [] {
      StoredAmongMembers(nodes, ids[1..]);
      assert forall i | 1 <= i < |ids| :: ids[i] == ids[1..][i - 1];
    }
  }

  /** The nodes of `list` whose lowercased toString contains `q`. */
  function ScanHits(list: seq<Node>, q: string): seq<Node> {
    if list == [] then []
    else
      var rest := ScanHits(list[1..], q);
      if Contains(Lower(NodeText(list[0])), q) then [list[0]] + rest else rest
  }

  /** The scan keeps exactly the listed nodes whose text contains `q`. */
  lemma {:induction false} ScanHitsMembers(list: seq<Node>, q: string)
    ensures forall n :: n in ScanHits(list, q) <==> n in list && Contains(Lower(NodeText(n)), q)
    decreases |list|
  {
    if list != [] {
      ScanHitsMembers(list[1..], q);
      assert forall n | n in list :: n == list[0] || n in list[1..];
    }
  }

  /** search: an index lookup of the lowercased query with indexing on, else a scan of toString. */
  function Search(s: Shard, query: string): seq<Node> {
    var t := Load(s);
    var q := Lower(query);
    if t.indexing then StoredAmong(t.nodes, Enumerate(if q in t.index then t.index[q] else {}))
    else ScanHits(NodeOrder(t.nodes), q)
  }

  /** An index lookup of `key` finds exactly the stored nodes with that key. */
  lemma StoredAmongSet(nodes: map<string, Node>, ids: seq<string>, under: set<string>)
    requires forall x :: x in ids <==> x in under
    ensures forall n :: n in StoredAmong(nodes, ids) <==> exists x | x in under && x in nodes :: nodes[x] == n
  {
    StoredAmongMembers(nodes, ids);
    forall n | n in StoredAmong(nodes, ids) ensures exists x | x in under && x in nodes :: nodes[x] == n {
      var i :| 0 <= i < |ids| && ids[i] in nodes && nodes[ids[i]] == n;
      assert ids[i] in under;
    }
    forall n | exists x | x in under && x in nodes :: nodes[x] == n ensures n in StoredAmong(nodes, ids) {
      var x :| x in under && x in nodes && nodes[x] == n;
      var i :| 0 <= i < |ids| && ids[i] == x;
    }
  }

  /** An index lookup of `key` finds exactly the stored nodes with that key. */
  lemma IndexLookup(nodes: map<string, Node>, index: Index, key: string)
    requires IndexFor(index, nodes)
    ensures forall n :: n in StoredAmong(nodes, Enumerate(if key in index then index[key] else {})) <==>
              n in nodes.Values && key in NodeKeys(n)
  {
    var under := if key in index then index[key] else {};
    assert under == IdsUnder(nodes, key);
    EnumerateMembers(under);
    StoredAmongSet(nodes, Enumerate(under), under);
  }

  /**
   * Indexed search finds exactly the stored nodes with a token equal to the
   * query ignoring case.
   */
  lemma IndexedSearch(s: Shard, query: string)
    requires Healthy(Load(s)) && s.indexing
    ensures forall n :: n in Search(s, query) <==> n in Load(s).nodes.Values && Lower(query) in NodeKeys(n)
  {
    IndexLookup(Load(s).nodes, Load(s).index, Lower(query));
  }

  /** Unindexed search finds exactly the stored nodes whose lowercased text contains the lowercased query. */
  lemma ScanSearch(s: Shard, query: string)
    requires !s.indexing
    ensures forall n :: n in Search(s, query) <==>
              n in Load(s).nodes.Values && Contains(Lower(NodeText(n)), Lower(query))
  {
    NodeOrderMembers(Load(s).nodes);
    ScanHitsMembers(NodeOrder(Load(s).nodes), Lower(query));
  }

  /** Every node an index lookup finds, a scan would find too. */
  lemma IndexedWithinScan(n: Node, query: string)
    requires Lower(query) in NodeKeys(n)
    ensures Contains(Lower(NodeText(n)), Lower(query))
  {
    var t :| t in Tokens(n) && Lower(t) == Lower(query);
    TokenInText(n, t);
    LowerContains(NodeText(n), t);
  }

  // ---- setIndexing ----

  /** setIndexing: rebuild from the stored nodes when enabling a loaded segment, else clear. */
  function SetIndexing(s: Shard, enabled: bool): Shard {
    s.(indexing := enabled,
       index := if enabled && s.loaded then IndexAll(map[], NodeOrder(s.nodes)) else map[])
  }

  /** Rebuilding indexes every stored node. */
  lemma RebuildIndexFor(nodes: map<string, Node>)
    requires KeysMatch(nodes)
    ensures IndexFor(IndexAll(map[], NodeOrder(nodes)), nodes)
  {
    NodeOrderDistinct(nodes);
    NodeOrderRebuilds(nodes);
    IndexAllKeeps(map[], map[], NodeOrder(nodes));
  }

  /**
   * setIndexing keeps the invariant when the segment is loaded or empty; an
   * unloaded segment holding partially loaded nodes gets an empty index.
   */
  lemma SetIndexingKeeps(s: Shard, enabled: bool)
    requires Healthy(s) && (s.loaded || s.nodes == map[])
    ensures Healthy(SetIndexing(s, enabled))
  {
    if enabled && s.loaded {
      RebuildIndexFor(s.nodes);
    }
  }

  // ---- save and unload ----

  /** save: only a dirty, loaded segment writes; an image that cannot be encoded leaves it dirty. */
  function Save(s: Shard): Shard {
    if !s.dirty || !s.loaded then s
    else
      match EncodeImage(s.nodes, s.relations)
      case Err(_) => s
      case Ok(image) => s.(disk := Some(Seal(image)), dirty := false)
  }

  /** unload: save, then drop everything in memory. */
  function Unload(s: Shard): Shard {
    if !s.loaded then s
    else Save(s).(nodes := map[], relations := [], index := map[], loaded := false)
  }

  // ---- The invariant through the operations ----

  lemma PutNodeKeeps(s: Shard, n: Node)
    requires Healthy(Load(s))
    ensures Healthy(PutNode(s, n))
  {
    var t := Load(s);
    if t.indexing {
      PutKeeps(t.index, t.nodes, n);
    }
  }

  lemma RemoveNodeKeeps(s: Shard, id: string)
    requires Healthy(Load(s))
    ensures Healthy(RemoveNode(s, id).0)
  {
    var t := Load(s);
    if id in t.nodes && t.indexing {
      RemoveKeeps(t.index, t.nodes, id);
    }
  }

  /** Operations on relations, save and unload never touch nodes or index, so they keep the invariant. */
  lemma RelationOpsKeep(s: Shard, r: Relation, f: RelationFilter)
    requires Healthy(s) && Healthy(Load(s))
    ensures Healthy(AddRelation(s, r)) && Healthy(RemoveWhere(s, f).0)
    ensures Healthy(Save(s)) && Healthy(Unload(s))
  {
  }

  // ---- What each operation does, read back through the others ----

  /** After putNode on a loaded segment the node is found under its id and every other lookup is unchanged. */
  lemma PutNodeThenGet(s: Shard, n: Node, id: string)
    requires Load(s).loaded
    ensures NodeAt(PutNode(s, n), id) == if id == n.id then Some(n) else NodeAt(s, id)
    ensures PutNode(s, n).dirty && AllRelations(PutNode(s, n)) == AllRelations(s)
  {
  }

  /**
   * removeNode reports whether the node was there. If it was, the node is gone,
   * other nodes stay, the relations leaving it are dropped and the rest keep
   * their order; if not, only loading happened.
   */
  lemma RemoveNodeResult(s: Shard, id: string, other: string)
    requires Load(s).loaded && other != id
    ensures RemoveNode(s, id).1 <==> NodeAt(s, id).Some?
    ensures RemoveNode(s, id).1 ==>
              && NodeAt(RemoveNode(s, id).0, id).None?
              && NodeAt(RemoveNode(s, id).0, other) == NodeAt(s, other)
              && AllRelations(RemoveNode(s, id).0) == Filter(AllRelations(s), FromSource(id), false)
              && RemoveNode(s, id).0.dirty
    ensures !RemoveNode(s, id).1 ==> RemoveNode(s, id).0 == Load(s)
  {
  }

  /** addRelation appends at the end. */
  lemma AddRelationAppends(s: Shard, r: Relation)
    requires Load(s).loaded
    ensures AllRelations(AddRelation(s, r)) == AllRelations(s) + [r]
    ensures AddRelation(s, r).dirty && AddRelation(s, r).nodes == Load(s).nodes
  {
  }

  /**
   * removeRelation drops every match and nothing else, reports whether there
   * was one, and marks the segment dirty only then.
   */
  lemma RemoveRelationResult(s: Shard, sourceId: string, targetId: string, relType: string)
    requires Load(s).loaded
    ensures var (after, removed) := RemoveRelation(s, sourceId, targetId, relType);
            && (removed <==> exists r | r in AllRelations(s) :: Matches(r, sourceId, targetId, relType))
            && (forall r :: r in AllRelations(after) <==>
                  r in AllRelations(s) && !Matches(r, sourceId, targetId, relType))
            && after.dirty == (removed || Load(s).dirty)
            && after.nodes == Load(s).nodes
  {
    var f := Matching(sourceId, targetId, relType);
    var rs := Load(s).relations;
    FilterMembers(rs, f, false);
    FilterRemoves(rs, f);
    if exists r | r in rs :: Matches(r, sourceId, targetId, relType) {
      var r :| r in rs && Matches(r, sourceId, targetId, relType);
      var j :| 0 <= j < |rs| && rs[j] == r;
      assert Selects(f, rs[j]);
    }
  }

  /** removeRelationsTo drops exactly the relations targeting the id; the rest keep their order. */
  lemma RemoveRelationsToResult(s: Shard, targetId: string, a: seq<Relation>, b: seq<Relation>)
    requires Load(s).loaded && AllRelations(s) == a + b
    ensures forall r :: r in AllRelations(RemoveRelationsTo(s, targetId)) <==> r in AllRelations(s) && r.targetId != targetId
    ensures AllRelations(RemoveRelationsTo(s, targetId))
         == Filter(a, ToTarget(targetId), false) + Filter(b, ToTarget(targetId), false)
  {
    var f := ToTarget(targetId);
    FilterMembers(a + b, f, false);
    FilterConcat(a, b, f, false);
    FilterRemoves(a + b, f);
  }

  /** getRelationsFrom returns exactly the relations with that source, in stored order. */
  lemma RelationsFromResult(s: Shard, sourceId: string, a: seq<Relation>, b: seq<Relation>)
    requires AllRelations(s) == a + b
    ensures forall r :: r in RelationsFrom(s, sourceId) <==> r in AllRelations(s) && r.sourceId == sourceId
    ensures RelationsFrom(s, sourceId)
         == Filter(a, FromSource(sourceId), true) + Filter(b, FromSource(sourceId), true)
  {
    FilterMembers(a + b, FromSource(sourceId), true);
    FilterConcat(a, b, FromSource(sourceId), true);
  }

  // ---- Persistence ----

  /** Everything in memory fits the image format. */
  predicate Storable(nodes: map<string, Node>, relations: seq<Relation>) {
    KeysMatch(nodes) && Countable(nodes, relations) && EncodeImage(nodes, relations).Ok?
  }

  /** The file holds the image save writes for these nodes and relations. */
  predicate Holds(disk: Option<seq<byte>>, nodes: map<string, Node>, relations: seq<Relation>) {
    Storable(nodes, relations) && disk == Some(Seal(EncodeImage(nodes, relations).value))
  }

  /** Nothing in memory, as after construction or unload. */
  predicate Emptied(s: Shard) {
    !s.loaded && s.nodes == map[] && s.relations == [] && s.index == map[]
  }

  /**
   * A segment opened over a file that save wrote loads exactly the saved nodes
   * and relations, completely, with a valid index.
   */
  lemma ReopenSees(s: Shard, nodes: map<string, Node>, relations: seq<Relation>)
    requires Emptied(s) && Holds(s.disk, nodes, relations)
    ensures Load(s).loaded && Load(s).nodes == nodes && Load(s).relations == relations
    ensures Healthy(Load(s))
  {
    var image := EncodeImage(nodes, relations).value;
    SealBijection(image, Seal(image));
    LoadSavedImage(nodes, relations, s.indexing);
  }

  /** save writes the in-memory state and clears dirty, and keeps what is in memory. */
  lemma SaveWrites(s: Shard)
    requires s.loaded && s.dirty && Storable(s.nodes, s.relations)
    ensures Holds(Save(s).disk, s.nodes, s.relations) && !Save(s).dirty
    ensures Save(s).(disk := s.disk, dirty := s.dirty) == s
  {
  }

  /**
   * Unloading a healthy segment whose memory fits the format, and whose file
   * already holds it when it is clean, then loading it again gives what save
   * alone would have given: eviction loses nothing.
   */
  lemma UnloadReload(s: Shard)
    requires Healthy(s) && s.loaded && Storable(s.nodes, s.relations)
    requires !s.dirty ==> Holds(s.disk, s.nodes, s.relations)
    ensures Load(Unload(s)) == Save(s)
  {
    var u := Unload(s);
    assert Holds(u.disk, s.nodes, s.relations);
    ReopenSees(u, s.nodes, s.relations);
    var l := Load(u);
    if s.indexing {
      IndexForUnique(l.index, s.index, s.nodes);
    }
  }

  // ---- Finding: updateNode through an aliased node leaves the index stale ----

  /**
   * What GraphEngine.updateNode does as written: getNode returns the stored
   * object, addProperty changes it in place (so the stored node changes and
   * the index does not), then putNode removes the keys of the already changed
   * node and adds them back.
   */
  function UpdateInPlace(s: Shard, id: string, key: string, value: string): Shard
    requires Load(s).loaded && id in Load(s).nodes
  {
    var t := Load(s);
    var changed := AddProperty(t.nodes[id], key, value);
    PutNode(t.(nodes := t.nodes[id := changed]), changed)
  }

  /** The intended update: put a changed copy, so putNode removes the old node's keys. */
  function UpdateCopy(s: Shard, id: string, key: string, value: string): Shard
    requires Load(s).loaded && id in Load(s).nodes
  {
    PutNode(s, AddProperty(Load(s).nodes[id], key, value))
  }

  /** The copying update keeps the invariant and stores the changed node. */
  lemma UpdateCopyKeeps(s: Shard, id: string, key: string, value: string)
    requires Load(s).loaded && id in Load(s).nodes && Healthy(Load(s))
    ensures Healthy(UpdateCopy(s, id, key, value))
    ensures NodeAt(UpdateCopy(s, id, key, value), id) == Some(AddProperty(Load(s).nodes[id], key, value))
  {
    PutNodeKeeps(s, AddProperty(Load(s).nodes[id], key, value));
  }

  /** The index keys of a node with a single property: its id, label and value, lowered. */
  lemma OnePropertyKeys(id: string, nodeLabel: string, key: string, value: string)
    ensures NodeKeys(Node(id, nodeLabel, map[key := value])) == {Lower(id), Lower(nodeLabel), Lower(value)}
  {
    var m := map[key := value];
    assert m.Values == {value} by {
      assert m[key] == value;
      forall v | v in m.Values ensures v == value {
        var k :| k in m && m[k] == v;
      }
    }
    assert Tokens(Node(id, nodeLabel, m)) == {id, nodeLabel, value};
  }

  /**
   * The in-place update breaks the invariant whenever it overwrites a value
   * whose lowercase is no other token of the node: that key keeps the node's
   * id although the node no longer carries it.
   */
  lemma UpdateInPlaceStale(s: Shard, id: string, key: string, value: string)
    requires Load(s).loaded && Load(s).indexing && Healthy(Load(s))
    requires id in Load(s).nodes && key in Load(s).nodes[id].properties
    requires Lower(Load(s).nodes[id].properties[key]) !in NodeKeys(AddProperty(Load(s).nodes[id], key, value))
    ensures !Healthy(UpdateInPlace(s, id, key, value))
  {
    var t := Load(s);
    var before := t.nodes[id];
    var changed := AddProperty(before, key, value);
    var stale := Lower(before.properties[key]);
    assert stale in NodeKeys(before) by {
      assert before.properties[key] in Tokens(before);
    }
    assert id in IdsUnder(t.nodes, stale);
    var after := UpdateInPlace(s, id, key, value);
    assert after.nodes[id] == changed;
    assert stale in after.index && id in after.index[stale];
    assert id !in IdsUnder(after.nodes, stale);
  }

  /**
   * An instance: overwriting the only property of node "a" from "x" to "y"
   * leaves "x" in the index although no stored node carries it any more.
   */
  lemma UpdateInPlaceStaleExample()
    ensures var n := Node("a", "L", map["k" := "x"]);
            var s := Shard(map["a" := n], [], map["a" := {"a"}, "l" := {"a"}, "x" := {"a"}], true, true, false, None);
            && Healthy(s)
            && !Healthy(UpdateInPlace(s, "a", "k", "y"))
  {
    var n := Node("a", "L", map["k" := "x"]);
    var s := Shard(map["a" := n], [], map["a" := {"a"}, "l" := {"a"}, "x" := {"a"}], true, true, false, None);
    assert Lower("a") == "a" && Lower("L") == "l" && Lower("x") == "x" && Lower("y") == "y";
    OnePropertyKeys("a", "L", "k", "x");
    OnePropertyKeys("a", "L", "k", "y");
    assert AddProperty(n, "k", "y") == Node("a", "L", map["k" := "y"]);
    assert IndexFor(s.index, s.nodes);
    UpdateInPlaceStale(s, "a", "k", "y");
  }
}
