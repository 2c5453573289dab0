/**
 * The segment image that DataSegment.save writes and loadIfRequired reads:
 * writeUTF("SEG_V1"), writeInt(node count), the nodes, writeInt(relation
 * count), the relations. On disk the image is encrypted and Base64-encoded;
 * that pair is modelled as one invertible function, Seal, with inverse Unseal.
 */
module SegmentImage {
  import opened Wrappers
  import opened JavaText
  import opened DataIO
  import opened Nodes
  import opened Relations
  import opened InvertedIndex

  /** Every node is stored under its own id, as `nodes.put(n.getId(), n)` does. */
  predicate KeysMatch(nodes: map<string, Node>) {
    forall k | k in nodes :: nodes[k].id == k
  }

  /** The nodes stored under `keys`, in that order. */
  function NodesAt(nodes: map<string, Node>, keys: seq<string>): (r: seq<Node>)
    requires forall k | k in keys :: k in nodes
    ensures |r| == |keys|
  {
    if keys == [] then [] else [nodes[keys[0]]] + NodesAt(nodes, keys[1..])
  }

  /** The i-th node listed is the one stored under the i-th key. */
  lemma {:induction false} NodesAtIndex(nodes: map<string, Node>, keys: seq<string>)
    requires forall k | k in keys :: k in nodes
    ensures forall i | 0 <= i < |keys| :: NodesAt(nodes, keys)[i] == nodes[keys[i]]
    decreases |keys|
  {
    if keys != [] {
      NodesAtIndex(nodes, keys[1..]);
      forall i | 0 < i < |keys| ensures NodesAt(nodes, keys)[i] == nodes[keys[i]] {
        assert keys[i] == keys[1..][i - 1];
      }
    }
  }

  /** nodes.values(): every stored node once, in the model's fixed key order. */
  function NodeOrder(nodes: map<string, Node>): seq<Node> {
    EnumerateMembers(nodes.Keys);
    NodesAt(nodes, Enumerate(nodes.Keys))
  }

  /** Putting the nodes stored under `keys` overrides exactly those keys. */
  lemma {:induction false} PutAllAt(acc: map<string, Node>, nodes: map<string, Node>, keys: seq<string>)
    requires KeysMatch(nodes) && forall k | k in keys :: k in nodes
    ensures forall k :: k in PutAll(acc, NodesAt(nodes, keys)) <==> k in acc || k in keys
    ensures forall k | k in PutAll(acc, NodesAt(nodes, keys)) ::
              PutAll(acc, NodesAt(nodes, keys))[k] == if k in keys then nodes[k] else acc[k]
    decreases |keys|
  {
    if keys != [] {
      var k0 := keys[0];
      var list := NodesAt(nodes, keys);
      assert list[0].id == k0 && list[1..] == NodesAt(nodes, keys[1..]);
      PutAllAt(acc[k0 := nodes[k0]], nodes, keys[1..]);
      assert forall k | k in keys :: k == k0 || k in keys[1..];
    }
  }

  /** A listed node is a stored one. */
  lemma ListedIsStored(nodes: map<string, Node>, n: Node)
    requires n in NodeOrder(nodes)
    ensures n in nodes.Values
  {
    var keys := Enumerate(nodes.Keys);
    EnumerateMembers(nodes.Keys);
    NodesAtIndex(nodes, keys);
    var list := NodeOrder(nodes);
    var i :| 0 <= i < |list| && list[i] == n;
    assert keys[i] in nodes;
  }

  /** A stored node is a listed one. */
  lemma StoredIsListed(nodes: map<string, Node>, n: Node)
    requires n in nodes.Values
    ensures n in NodeOrder(nodes)
  {
    var keys := Enumerate(nodes.Keys);
    EnumerateMembers(nodes.Keys);
    NodesAtIndex(nodes, keys);
    var k :| k in nodes && nodes[k] == n;
    assert k in keys;
    var i :| 0 <= i < |keys| && keys[i] == k;
    assert NodeOrder(nodes)[i] == n;
  }

  /** nodes.values() lists every stored node, and only those. */
  lemma NodeOrderMembers(nodes: map<string, Node>)
    ensures |NodeOrder(nodes)| == |nodes|
    ensures forall n :: n in NodeOrder(nodes) <==> n in nodes.Values
  {
    assert |nodes.Keys| == |nodes|;
    forall n ensures n in NodeOrder(nodes) <==> n in nodes.Values {
      if n in NodeOrder(nodes) {
        ListedIsStored(nodes, n);
      }
      if n in nodes.Values {
        StoredIsListed(nodes, n);
      }
    }
  }

  /** With every node stored under its id, nodes.values() has distinct ids. */
  lemma NodeOrderDistinct(nodes: map<string, Node>)
    requires KeysMatch(nodes)
    ensures DistinctIds(NodeOrder(nodes))
  {
    var keys := Enumerate(nodes.Keys);
    EnumerateMembers(nodes.Keys);
    NodesAtIndex(nodes, keys);
    assert forall i | 0 <= i < |keys| :: NodeOrder(nodes)[i].id == keys[i];
  }

  /** Putting the nodes of nodes.values() one by one into an empty map gives the map back. */
  lemma NodeOrderRebuilds(nodes: map<string, Node>)
    requires KeysMatch(nodes)
    ensures PutAll(map[], NodeOrder(nodes)) == nodes
  {
    var keys := Enumerate(nodes.Keys);
    EnumerateMembers(nodes.Keys);
    PutAllAt(map[], nodes, keys);
    var r := PutAll(map[], NodeOrder(nodes));
    assert r.Keys == nodes.Keys;
  }

  // ---- Encryption and Base64 ----

  const SealTag: byte := 0xA5

  /** crypto.encrypt(Base64(image)), abstracted as an invertible function. */
  function Seal(image: seq<byte>): seq<byte> {
    [SealTag] + image
  }

  /** Base64-decode(crypto.decrypt(file)); None where either step throws. */
  function Unseal(file: seq<byte>): Option<seq<byte>> {
    if |file| > 0 && file[0] == SealTag then Some(file[1..]) else None
  }

  /** Seal and Unseal are inverse bijections between images and readable files. */
  lemma SealBijection(image: seq<byte>, file: seq<byte>)
    ensures Unseal(Seal(image)) == Some(image)
    ensures Unseal(file) == Some(image) ==> Seal(image) == file
  {
    assert Seal(image)[1..] == image;
  }

  // ---- save: the image ----

  const Magic: string := "SEG_V1"

  /** The bytes writeUTF(Magic) produces: the length in two bytes, then the ASCII codes. */
  const MagicHeader: seq<byte> := [0, |Magic|] + Codes(Magic)

  /** The header constant is what writeUTF writes for Magic. */
  lemma MagicHeaderWritten()
    ensures WriteUTF(Magic) == Ok(MagicHeader)
  {
    WriteAscii(Magic);
  }

  /** The node records of `list`, one writeTo after the other. */
  function EncodeNodes(list: seq<Node>): Result<seq<byte>> {
    if list == [] then Ok([])
    else
      match WriteTo(list[0])
      case Err(e) => Err(e)
      case Ok(b) =>
        match EncodeNodes(list[1..])
        case Err(e) => Err(e)
        case Ok(rest) => Ok(b + rest)
  }

  /** The relation records of `list`, one writeTo after the other. */
  function EncodeRelations(list: seq<Relation>): Result<seq<byte>> {
    if list == [] then Ok([])
    else
      match EncodeRelation(list[0])
      case Err(e) => Err(e)
      case Ok(b) =>
        match EncodeRelations(list[1..])
        case Err(e) => Err(e)
        case Ok(rest) => Ok(b + rest)
  }

  /**
   * The image save writes for a node map and a relation list. The header is
   * the fixed MagicHeader, which is writeUTF(Magic) (MagicHeaderWritten).
   */
  function EncodeImage(nodes: map<string, Node>, relations: seq<Relation>): Result<seq<byte>> {
    var hb := MagicHeader;
    match EncodeNodes(NodeOrder(nodes))
    case Err(e) => Err(e)
    case Ok(nb) =>
      match EncodeRelations(relations)
      case Err(e) => Err(e)
      case Ok(rb) =>
        Ok(hb + WriteInt(WrapInt32(|nodes|)) + nb + WriteInt(WrapInt32(|relations|)) + rb)
  }

  // ---- loadIfRequired: reading the image into the segment ----

  /** The segment's maps after reading node records, and the bytes left or the error that stopped it. */
  datatype NodesRead = NodesRead(nodes: map<string, Node>, index: Index, rest: Result<seq<byte>>)

  /**
   * The node loop of loadIfRequired: `count` records, each put into the map
   * and, with indexing on, added to the index (added only: the keys of a node
   * it replaces are not removed).
   */
  function LoadNodes(nodes: map<string, Node>, index: Index, indexing: bool, b: seq<byte>, count: int): NodesRead
    decreases if count < 0 then 0 else count, 2
  {
    if count <= 0 then NodesRead(nodes, index, Ok(b))
    else LoadNextNode(nodes, index, indexing, b, count)
  }

  /**
   * One more node record is due. LoadNodes, LoadNextNode and ReadNextNode are
   * three steps of one recursion so that unfolding the loop a step or two
   * does not yet decode a record.
   */
  function LoadNextNode(nodes: map<string, Node>, index: Index, indexing: bool, b: seq<byte>, count: int): NodesRead
    requires count > 0
    decreases count, 1
  {
    ReadNextNode(nodes, index, indexing, b, count)
  }

  /** Reads the record, puts it into the map, indexes it when indexing is on, and goes on with the rest. */
  function ReadNextNode(nodes: map<string, Node>, index: Index, indexing: bool, b: seq<byte>, count: int): NodesRead
    requires count > 0
    decreases count, 0
  {
    match DecodeNode(b)
    case Err(e) => NodesRead(nodes, index, Err(e))
    case Ok((n, b1)) => LoadNodes(nodes[n.id := n], LoadIndex(index, indexing, n), indexing, b1, count - 1)
  }

  /** What the relation loop leaves: the list, and the bytes after the last record or the error that stopped it. */
  datatype RelationsRead = RelationsRead(relations: seq<Relation>, rest: Result<seq<byte>>)

  /** The relation loop of loadIfRequired: `count` records appended in stream order. */
  function LoadRelations(relations: seq<Relation>, b: seq<byte>, count: int): RelationsRead
    decreases if count < 0 then 0 else count, 2
  {
    if count <= 0 then RelationsRead(relations, Ok(b))
    else LoadNextRelation(relations, b, count)
  }

  /** One more relation record is due; split from ReadNextRelation as for nodes. */
  function LoadNextRelation(relations: seq<Relation>, b: seq<byte>, count: int): RelationsRead
    requires count > 0
    decreases count, 1
  {
    ReadNextRelation(relations, b, count)
  }

  /** Reads the record, appends it, and goes on with the rest. */
  function ReadNextRelation(relations: seq<Relation>, b: seq<byte>, count: int): RelationsRead
    requires count > 0
    decreases count, 0
  {
    match DecodeRelation(b)
    case Err(e) => RelationsRead(relations, Err(e))
    case Ok((r, b1)) => LoadRelations(relations + [r], b1, count - 1)
  }

  /** What reading an image leaves in the segment, and whether it reached the end (isLoaded). */
  datatype Loaded = Loaded(nodes: map<string, Node>, index: Index, relations: seq<Relation>, complete: bool)

  /**
   * Reading an image into a segment that already holds `nodes`, `index` and
   * `relations`: a wrong header stops before anything is read; an error later
   * keeps whatever was read up to that point.
   */
  function LoadImage(nodes: map<string, Node>, index: Index, indexing: bool, relations: seq<Relation>,
                     image: seq<byte>): Loaded
  {
    var untouched := Loaded(nodes, index, relations, false);
    match ReadUTF(image)
    case Err(_) => untouched
    case Ok((header, b1)) =>
      if header != Magic then untouched
      else
        match ReadInt(b1)
        case Err(_) => untouched
        case Ok((nodeCount, b2)) =>
          var read := LoadNodes(nodes, index, indexing, b2, nodeCount);
          match read.rest
          case Err(_) => Loaded(read.nodes, read.index, relations, false)
          case Ok(b3) =>
            match ReadInt(b3)
            case Err(_) => Loaded(read.nodes, read.index, relations, false)
            case Ok((relationCount, b4)) =>
              var read' := LoadRelations(relations, b4, relationCount);
              Loaded(read.nodes, read.index, read'.relations, read'.rest.Ok?)
  }

  // ---- Round trip ----

  lemma Regroup(a: seq<byte>, b: seq<byte>, c: seq<byte>)
    ensures (a + b) + c == a + (b + c)
  {
  }

  lemma EncodeNodesCons(list: seq<Node>)
    requires list != [] && EncodeNodes(list).Ok?
    ensures WriteTo(list[0]).Ok? && EncodeNodes(list[1..]).Ok?
    ensures EncodeNodes(list).value == WriteTo(list[0]).value + EncodeNodes(list[1..]).value
  {
  }

  lemma EncodeRelationsCons(list: seq<Relation>)
    requires list != [] && EncodeRelations(list).Ok?
    ensures EncodeRelation(list[0]).Ok? && EncodeRelations(list[1..]).Ok?
    ensures EncodeRelations(list).value == EncodeRelation(list[0]).value + EncodeRelations(list[1..]).value
  {
  }

  /** The index after loading one node. */
  function LoadIndex(index: Index, indexing: bool, n: Node): Index {
    if indexing then AddKeys(index, NodeKeys(n), n.id) else index
  }

  lemma LoadNodesStep(nodes: map<string, Node>, index: Index, indexing: bool, b: seq<byte>, count: int,
                      n: Node, left: seq<byte>, nodes': map<string, Node>, index': Index, count': int)
    requires count > 0 && DecodeNode(b) == Ok((n, left))
    requires nodes' == nodes[n.id := n] && index' == LoadIndex(index, indexing, n) && count' == count - 1
    ensures LoadNodes(nodes, index, indexing, b, count) == LoadNodes(nodes', index', indexing, left, count')
  {
    assert LoadNodes(nodes, index, indexing, b, count) == ReadNextNode(nodes, index, indexing, b, count);
  }

  lemma LoadNodesFails(nodes: map<string, Node>, index: Index, indexing: bool, b: seq<byte>, count: int)
    requires count > 0 && DecodeNode(b).Err?
    ensures LoadNodes(nodes, index, indexing, b, count) == NodesRead(nodes, index, Err(DecodeNode(b).error))
  {
    assert LoadNodes(nodes, index, indexing, b, count) == ReadNextNode(nodes, index, indexing, b, count);
  }

  lemma LoadRelationsFails(relations: seq<Relation>, b: seq<byte>, count: int)
    requires count > 0 && DecodeRelation(b).Err?
    ensures LoadRelations(relations, b, count) == RelationsRead(relations, Err(DecodeRelation(b).error))
  {
    assert LoadRelations(relations, b, count) == ReadNextRelation(relations, b, count);
  }

  lemma LoadRelationsStep(relations: seq<Relation>, b: seq<byte>, count: int, r: Relation, left: seq<byte>)
    requires count > 0 && DecodeRelation(b) == Ok((r, left))
    ensures LoadRelations(relations, b, count) == LoadRelations(relations + [r], left, count - 1)
  {
    assert LoadRelations(relations, b, count) == ReadNextRelation(relations, b, count);
  }

  /** The node loop puts and indexes exactly the nodes of `list`. */
  function LoadedIndex(index: Index, indexing: bool, list: seq<Node>): Index {
    if indexing then IndexAll(index, list) else index
  }

  lemma {:induction false} LoadedIndexCons(index: Index, indexing: bool, list: seq<Node>)
    requires list != []
    ensures LoadedIndex(index, indexing, list) == LoadedIndex(LoadIndex(index, indexing, list[0]), indexing, list[1..])
  {
  }

  /** The node records written for `list` read back as puts (and index additions) of `list`. */
  lemma {:induction false} LoadEncodedNodes(nodes: map<string, Node>, index: Index, indexing: bool,
                                            list: seq<Node>, rest: seq<byte>)
    requires EncodeNodes(list).Ok?
    requires forall i | 0 <= i < |list| :: |list[i].properties| < 0x8000_0000
    ensures LoadNodes(nodes, index, indexing, EncodeNodes(list).value + rest, |list|)
         == NodesRead(PutAll(nodes, list), LoadedIndex(index, indexing, list), Ok(rest))
    decreases |list|
  {
    if list == [] {
      assert [] + rest == rest;
    } else {
      var n := list[0];
      EncodeNodesCons(list);
      var head := WriteTo(n).value;
      var tail := EncodeNodes(list[1..]).value;
      Regroup(head, tail, rest);
      ReadWriteNode(n, KeyOrder(n.properties), tail + rest);
      LoadNodesStep(nodes, index, indexing, EncodeNodes(list).value + rest, |list|, n, tail + rest,
                    nodes[n.id := n], LoadIndex(index, indexing, n), |list| - 1);
      LoadEncodedNodes(nodes[n.id := n], LoadIndex(index, indexing, n), indexing, list[1..], rest);
      LoadedIndexCons(index, indexing, list);
    }
  }

  /** One relation record read from the front of the section, then the rest as the induction hypothesis gives it. */
  lemma LoadEncodedRelation(relations: seq<Relation>, list: seq<Relation>, rest: seq<byte>, after: RelationsRead)
    requires list != [] && EncodeRelations(list).Ok? && EncodeRelations(list[1..]).Ok?
    requires LoadRelations(relations + [list[0]], EncodeRelations(list[1..]).value + rest, |list| - 1) == after
    ensures LoadRelations(relations, EncodeRelations(list).value + rest, |list|) == after
  {
    EncodeRelationsCons(list);
    var head := EncodeRelation(list[0]).value;
    var tail := EncodeRelations(list[1..]).value;
    Regroup(head, tail, rest);
    ReadWriteRelation(list[0], tail + rest);
    LoadRelationsStep(relations, EncodeRelations(list).value + rest, |list|, list[0], tail + rest);
  }

  lemma AppendFirst(relations: seq<Relation>, list: seq<Relation>)
    requires list != []
    ensures relations + [list[0]] + list[1..] == relations + list
  {
    assert list == [list[0]] + list[1..];
  }

  /** The relation records written for `list` read back as appends of `list`. */
  lemma {:induction false} LoadEncodedRelations(relations: seq<Relation>, list: seq<Relation>, rest: seq<byte>)
    requires EncodeRelations(list).Ok?
    ensures LoadRelations(relations, EncodeRelations(list).value + rest, |list|) == RelationsRead(relations + list, Ok(rest))
    decreases |list|
  {
    if list == [] {
      assert [] + rest == rest;
      assert relations + [] == relations;
    } else {
      EncodeRelationsCons(list);
      AppendFirst(relations, list);
      LoadEncodedRelations(relations + [list[0]], list[1..], rest);
      LoadEncodedRelation(relations, list, rest, RelationsRead(relations + list, Ok(rest)));
    }
  }

  /** Every count the image holds fits a Java int, as Java collections do. */
  predicate Countable(nodes: map<string, Node>, relations: seq<Relation>) {
    && |nodes| < 0x8000_0000 && |relations| < 0x8000_0000
    && forall k | k in nodes :: |nodes[k].properties| < 0x8000_0000
  }

  /** The node records of a list can be written exactly when each node's can. */
  lemma {:induction false} EncodeNodesOk(list: seq<Node>)
    ensures EncodeNodes(list).Ok? <==> forall n | n in list :: WriteTo(n).Ok?
    decreases |list|
  {
    if list != [] {
      EncodeNodesOk(list[1..]);
      assert forall n :: n in list <==> n == list[0] || n in list[1..];
    }
  }

  /** The relation records of a list can be written exactly when each relation's can. */
  lemma {:induction false} EncodeRelationsOk(list: seq<Relation>)
    ensures EncodeRelations(list).Ok? <==> forall r | r in list :: EncodeRelation(r).Ok?
    decreases |list|
  {
    if list != [] {
      EncodeRelationsOk(list[1..]);
      assert forall r :: r in list <==> r == list[0] || r in list[1..];
    }
  }

  /**
   * Fewer nodes (each one stored before) and fewer relations (each one listed
   * before) still fit the image format when the originals did.
   */
  lemma EncodableShrinks(nodes: map<string, Node>, relations: seq<Relation>,
                         nodes': map<string, Node>, relations': seq<Relation>)
    requires EncodeImage(nodes, relations).Ok?
    requires forall k | k in nodes' :: k in nodes && nodes'[k] == nodes[k]
    requires forall r | r in relations' :: r in relations
    ensures EncodeImage(nodes', relations').Ok?
  {
    EncodeNodesOk(NodeOrder(nodes));
    EncodeNodesOk(NodeOrder(nodes'));
    NodeOrderMembers(nodes);
    NodeOrderMembers(nodes');
    EncodeRelationsOk(relations);
    EncodeRelationsOk(relations');
    forall n | n in NodeOrder(nodes') ensures WriteTo(n).Ok? {
      var k :| k in nodes' && nodes'[k] == n;
      assert n in nodes.Values;
    }
  }

  lemma EncodeImageParts(nodes: map<string, Node>, relations: seq<Relation>)
    requires EncodeImage(nodes, relations).Ok?
    ensures EncodeNodes(NodeOrder(nodes)).Ok? && EncodeRelations(relations).Ok?
    ensures EncodeImage(nodes, relations).value
         == MagicHeader + WriteInt(WrapInt32(|nodes|)) + EncodeNodes(NodeOrder(nodes)).value
            + WriteInt(WrapInt32(|relations|)) + EncodeRelations(relations).value
  {
  }

  /** Reading an image whose header and node section are intact comes down to the two loops. */
  lemma LoadImageSections(nodes: map<string, Node>, index: Index, indexing: bool, relations: seq<Relation>,
                          nodeCount: int32, body: seq<byte>, relationCount: int32, tail: seq<byte>)
    requires LoadNodes(nodes, index, indexing, body + (WriteInt(relationCount) + tail), nodeCount).rest
          == Ok(WriteInt(relationCount) + tail)
    ensures LoadImage(nodes, index, indexing, relations,
                      MagicHeader + (WriteInt(nodeCount) + (body + (WriteInt(relationCount) + tail))))
         == Loaded(LoadNodes(nodes, index, indexing, body + (WriteInt(relationCount) + tail), nodeCount).nodes,
                   LoadNodes(nodes, index, indexing, body + (WriteInt(relationCount) + tail), nodeCount).index,
                   LoadRelations(relations, tail, relationCount).relations,
                   LoadRelations(relations, tail, relationCount).rest.Ok?)
  {
    MagicHeaderWritten();
    ReadWriteUTF(Magic, WriteInt(nodeCount) + (body + (WriteInt(relationCount) + tail)));
    ReadWriteInt(nodeCount, body + (WriteInt(relationCount) + tail));
    ReadWriteInt(relationCount, tail);
  }

  /** The node section written for a map reads back as that map, indexed when indexing is on. */
  lemma LoadSavedNodes(nodes: map<string, Node>, indexing: bool, rest: seq<byte>)
    requires KeysMatch(nodes) && forall k | k in nodes :: |nodes[k].properties| < 0x8000_0000
    requires EncodeNodes(NodeOrder(nodes)).Ok?
    ensures LoadNodes(map[], map[], indexing, EncodeNodes(NodeOrder(nodes)).value + rest, |nodes|)
         == NodesRead(nodes, LoadedIndex(map[], indexing, NodeOrder(nodes)), Ok(rest))
    ensures indexing ==> IndexFor(LoadedIndex(map[], indexing, NodeOrder(nodes)), nodes)
  {
    var list := NodeOrder(nodes);
    NodeOrderMembers(nodes);
    forall i | 0 <= i < |list| ensures |list[i].properties| < 0x8000_0000 {
      assert list[i] in nodes.Values;
    }
    LoadEncodedNodes(map[], map[], indexing, list, rest);
    NodeOrderRebuilds(nodes);
    if indexing {
      NodeOrderDistinct(nodes);
      IndexAllKeeps(map[], map[], list);
    }
  }

  /** The relation section written for a list reads back as that list. */
  lemma LoadSavedRelations(relations: seq<Relation>)
    requires EncodeRelations(relations).Ok?
    ensures LoadRelations([], EncodeRelations(relations).value, |relations|) == RelationsRead(relations, Ok([]))
  {
    var rb := EncodeRelations(relations).value;
    assert rb + [] == rb;
    LoadEncodedRelations([], relations, []);
    assert [] + relations == relations;
  }

  /**
   * Round trip of the whole image: reading what save wrote into an empty
   * segment rebuilds the same node map and relation list, reaches the end, and
   * with indexing on builds an index satisfying the index invariant.
   */
  lemma LoadSavedImage(nodes: map<string, Node>, relations: seq<Relation>, indexing: bool)
    requires KeysMatch(nodes) && Countable(nodes, relations)
    requires EncodeImage(nodes, relations).Ok?
    ensures var l := LoadImage(map[], map[], indexing, [], EncodeImage(nodes, relations).value);
            && l.complete && l.nodes == nodes && l.relations == relations
            && (if indexing then IndexFor(l.index, nodes) else l.index == map[])
  {
    EncodeImageParts(nodes, relations);
    var hb := MagicHeader;
    var nc := WriteInt(WrapInt32(|nodes|));
    var nb := EncodeNodes(NodeOrder(nodes)).value;
    var rc := WriteInt(WrapInt32(|relations|));
    var rb := EncodeRelations(relations).value;
    Regroup(hb + nc + nb, rc, rb);
    Regroup(hb + nc, nb, rc + rb);
    Regroup(hb, nc, nb + (rc + rb));
    LoadSavedNodes(nodes, indexing, rc + rb);
    LoadImageSections(map[], map[], indexing, [], WrapInt32(|nodes|), nb, WrapInt32(|relations|), rb);
    LoadSavedRelations(relations);
  }
}
