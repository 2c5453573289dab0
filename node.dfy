/**
 * com.atlasdblite.models.Node: an id, a label and a string-to-string property
 * map, with its self-delimiting binary form (writeTo / readFrom) and its
 * toString text.
 *
 * A node is modelled as a value. Where the engine changes a stored node in
 * place through an alias, the segment model says so explicitly
 * (SegmentSpec.UpdateInPlace).
 */
module Nodes {
  import opened Wrappers
  import opened JavaText
  import opened DataIO

  datatype Node = Node(id: string, nodeLabel: string, properties: map<string, string>)

  /** new Node(id, label): no properties yet. */
  function NewNode(id: string, nodeLabel: string): (n: Node)
    ensures n.id == id && n.nodeLabel == nodeLabel && |n.properties| == 0
  {
    Node(id, nodeLabel, map[])
  }

  /** addProperty: inserts or overwrites one key; every other key keeps its value. */
  function AddProperty(n: Node, key: string, value: string): (r: Node)
    ensures r.id == n.id && r.nodeLabel == n.nodeLabel
    ensures key in r.properties && r.properties[key] == value
    ensures r.properties.Keys == n.properties.Keys + {key}
    ensures forall k | k in n.properties && k != key :: r.properties[k] == n.properties[k]
  {
    n.(properties := n.properties[key := value])
  }

  /** `keys` lists every key of `m` exactly once, as an iteration over the map does. */
  ghost predicate EnumeratesKeys(keys: seq<string>, m: map<string, string>) {
    && |keys| == |m|
    && (forall k :: k in keys <==> k in m)
    && (forall i, j | 0 <= i < j < |keys| :: keys[i] != keys[j])
  }

  /** The fixed order in which the model iterates a property map. */
  function KeyOrder(m: map<string, string>): (keys: seq<string>)
    ensures EnumeratesKeys(keys, m)
  {
    var keys := Enumerate(m.Keys);
    EnumerateMembers(m.Keys);
    assert |m.Keys| == |m|;
    keys
  }

  // ---- writeTo ----

  /** The key/value pairs of `p`, in the order `keys`, each as two writeUTF strings. */
  function EncodeProps(p: map<string, string>, keys: seq<string>): Result<seq<byte>>
    requires forall k | k in keys :: k in p
  {
    if keys == [] then Ok([])
    else
      match WriteUTF(keys[0])
      case Err(e) => Err(e)
      case Ok(kb) =>
        match WriteUTF(p[keys[0]])
        case Err(e) => Err(e)
        case Ok(vb) =>
          match EncodeProps(p, keys[1..])
          case Err(e) => Err(e)
          case Ok(rest) => Ok(kb + vb + rest)
  }

  /**
   * writeTo with the property entries visited in the order `keys`: id, label,
   * the property count as a Java int, then the pairs.
   */
  function EncodeNodeWith(n: Node, keys: seq<string>): Result<seq<byte>>
    requires forall k | k in keys :: k in n.properties
  {
    match WriteUTF(n.id)
    case Err(e) => Err(e)
    case Ok(ib) =>
      match WriteUTF(n.nodeLabel)
      case Err(e) => Err(e)
      case Ok(lb) =>
        match EncodeProps(n.properties, keys)
        case Err(e) => Err(e)
        case Ok(pb) => Ok(ib + lb + WriteInt(WrapInt32(|n.properties|)) + pb)
  }

  /** writeTo as the model runs it: entries in the fixed key order. */
  function WriteTo(n: Node): Result<seq<byte>> {
    EncodeNodeWith(n, KeyOrder(n.properties))
  }

  /** Every string of the node fits writeUTF's 16-bit length. */
  predicate NodeEncodable(n: Node) {
    && Encodable(n.id) && Encodable(n.nodeLabel)
    && forall k | k in n.properties :: Encodable(k) && Encodable(n.properties[k])
  }

  lemma {:induction false} EncodePropsOk(p: map<string, string>, keys: seq<string>)
    requires forall k | k in keys :: k in p
    ensures EncodeProps(p, keys).Ok? <==> forall k | k in keys :: Encodable(k) && Encodable(p[k])
  {
    if keys != [] {
      EncodePropsOk(p, keys[1..]);
      assert forall k | k in keys :: k == keys[0] || k in keys[1..];
    }
  }

  /** writeTo fails exactly when some string of the node is too long for writeUTF. */
  lemma EncodeNodeOk(n: Node, keys: seq<string>)
    requires EnumeratesKeys(keys, n.properties)
    ensures EncodeNodeWith(n, keys).Ok? <==> NodeEncodable(n)
  {
    EncodePropsOk(n.properties, keys);
  }

  // ---- readFrom ----

  /** The next `count` key/value pairs, each put into `acc` in stream order. */
  function ReadProps(b: seq<byte>, count: int, acc: map<string, string>)
    : Result<(map<string, string>, seq<byte>)>
    decreases if count < 0 then 0 else count, 2
  {
    if count <= 0 then Ok((acc, b))
    else ReadNextProp(b, count, acc)
  }

  /**
   * One more pair is due. ReadProps, ReadNextProp and ReadProp are three steps
   * of one recursion so that unfolding the loop a step or two does not yet
   * decode a pair.
   */
  function ReadNextProp(b: seq<byte>, count: int, acc: map<string, string>)
    : Result<(map<string, string>, seq<byte>)>
    requires count > 0
    decreases count, 1
  {
    ReadProp(b, count, acc)
  }

  /** Reads a key and a value, puts the entry, and goes on with the rest. */
  function ReadProp(b: seq<byte>, count: int, acc: map<string, string>)
    : Result<(map<string, string>, seq<byte>)>
    requires count > 0
    decreases count, 0
  {
    match ReadUTF(b)
    case Err(e) => Err(e)
    case Ok((k, b1)) =>
      match ReadUTF(b1)
      case Err(e) => Err(e)
      case Ok((v, b2)) => ReadProps(b2, count - 1, acc[k := v])
  }

  lemma ReadPropsUnfold(b: seq<byte>, count: int, acc: map<string, string>)
    requires count > 0
    ensures ReadProps(b, count, acc) == ReadProp(b, count, acc)
  {
    assert ReadProps(b, count, acc) == ReadNextProp(b, count, acc);
  }

  /** Reading properties only ever consumes bytes. */
  lemma {:induction false} ReadPropsShrinks(b: seq<byte>, count: int, acc: map<string, string>)
    ensures ReadProps(b, count, acc).Ok? ==> |ReadProps(b, count, acc).value.1| <= |b|
    decreases if count < 0 then 0 else count
  {
    if count > 0 {
      ReadPropsUnfold(b, count, acc);
    }
    if count > 0 && ReadUTF(b).Ok? && ReadUTF(ReadUTF(b).value.1).Ok? {
      var (k, b1) := ReadUTF(b).value;
      var (v, b2) := ReadUTF(b1).value;
      ReadPropsShrinks(b2, count - 1, acc[k := v]);
    }
  }

  /** readFrom: the decoded node and the bytes left after it. */
  function DecodeNode(b: seq<byte>): (r: Result<(Node, seq<byte>)>)
    ensures r.Ok? ==> |r.value.1| < |b|
  {
    match ReadUTF(b)
    case Err(e) => Err(e)
    case Ok((id, b1)) =>
      match ReadUTF(b1)
      case Err(e) => Err(e)
      case Ok((nodeLabel, b2)) =>
        match ReadInt(b2)
        case Err(e) => Err(e)
        case Ok((count, b3)) =>
          ReadPropsShrinks(b3, count, map[]);
          WithEntries(NewNode(id, nodeLabel), ReadProps(b3, count, map[]))
  }

  /** The node `n` with the property map read, or the error that stopped the read. */
  function WithEntries(n: Node, props: Result<(map<string, string>, seq<byte>)>): Result<(Node, seq<byte>)> {
    match props
    case Err(e) => Err(e)
    case Ok((m, left)) => Ok((n.(properties := m), left))
  }

  /**
   * Node.readFrom: reads id and label, creates the node, then adds the declared
   * number of properties one by one (none for a negative count).
   */
  method ReadFrom(b: seq<byte>) returns (r: Result<(Node, seq<byte>)>)
    ensures r == DecodeNode(b)
  {
    var rid := ReadUTF(b);
    if rid.Err? { return Err(rid.error); }
    var rlabel := ReadUTF(rid.value.1);
    if rlabel.Err? { return Err(rlabel.error); }
    var node := NewNode(rid.value.0, rlabel.value.0);
    var rcount := ReadInt(rlabel.value.1);
    if rcount.Err? { return Err(rcount.error); }
    r := ReadEntries(node, rcount.value.1, rcount.value.0);
  }

  /** The property loop of readFrom: `count` addProperty calls on `node`. */
  method ReadEntries(node: Node, b: seq<byte>, count: int) returns (r: Result<(Node, seq<byte>)>)
    ensures r == WithEntries(node, ReadProps(b, count, node.properties))
  {
    var n := node;
    var rest := b;
    var i: int := 0;
    ghost var remaining: int := count;
    while i < count
      invariant 0 <= i && (count >= 0 ==> i <= count) && remaining == count - i
      invariant n.id == node.id && n.nodeLabel == node.nodeLabel
      invariant ReadProps(b, count, node.properties) == ReadProps(rest, remaining, n.properties)
    {
      ReadPropsUnfold(rest, remaining, n.properties);
      var rk := ReadUTF(rest);
      if rk.Err? { return Err(rk.error); }
      var rv := ReadUTF(rk.value.1);
      if rv.Err? { return Err(rv.error); }
      n := AddProperty(n, rk.value.0, rv.value.0);
      rest := rv.value.1;
      i, remaining := i + 1, remaining - 1;
    }
    return Ok((n, rest));
  }

  /** The entries of `p` under the keys `keys`. */
  function Restrict(p: map<string, string>, keys: seq<string>): map<string, string>
    requires forall k | k in keys :: k in p
  {
    map k | k in keys :: p[k]
  }

  lemma RestrictCons(p: map<string, string>, keys: seq<string>, acc: map<string, string>)
    requires keys != [] && forall k | k in keys :: k in p
    ensures acc[keys[0] := p[keys[0]]] + Restrict(p, keys[1..]) == acc + Restrict(p, keys)
  {
    assert forall k | k in keys :: k == keys[0] || k in keys[1..];
  }

  lemma EncodePropsCons(p: map<string, string>, keys: seq<string>)
    requires keys != [] && forall k | k in keys :: k in p
    requires EncodeProps(p, keys).Ok?
    ensures WriteUTF(keys[0]).Ok? && WriteUTF(p[keys[0]]).Ok? && EncodeProps(p, keys[1..]).Ok?
    ensures EncodeProps(p, keys).value
         == WriteUTF(keys[0]).value + WriteUTF(p[keys[0]]).value + EncodeProps(p, keys[1..]).value
  {
  }

  /** ReadProps' step over a key and a value written by writeUTF. */
  lemma ReadPair(k: string, v: string, rest: seq<byte>, count: int, acc: map<string, string>)
    requires WriteUTF(k).Ok? && WriteUTF(v).Ok? && count > 0
    ensures ReadProps(WriteUTF(k).value + WriteUTF(v).value + rest, count, acc)
         == ReadProps(rest, count - 1, acc[k := v])
  {
    var vb := WriteUTF(v).value;
    ReadPropsUnfold(WriteUTF(k).value + vb + rest, count, acc);
    assert WriteUTF(k).value + vb + rest == WriteUTF(k).value + (vb + rest);
    ReadWriteUTF(k, vb + rest);
    ReadWriteUTF(v, rest);
  }

  /** Reading back the pairs EncodeProps wrote adds exactly those entries. */
  lemma {:induction false} ReadEncodedProps(p: map<string, string>, keys: seq<string>,
                                             rest: seq<byte>, acc: map<string, string>)
    requires forall k | k in keys :: k in p
    requires EncodeProps(p, keys).Ok?
    ensures ReadProps(EncodeProps(p, keys).value + rest, |keys|, acc) == Ok((acc + Restrict(p, keys), rest))
  {
    if keys == [] {
      assert Restrict(p, keys) == map[];
      assert acc + map[] == acc;
      assert [] + rest == rest;
    } else {
      var k := keys[0];
      var pair := WriteUTF(k).value + WriteUTF(p[k]).value;
      var tail := EncodeProps(p, keys[1..]).value;
      EncodePropsCons(p, keys);
      assert EncodeProps(p, keys).value + rest == pair + (tail + rest);
      ReadPair(k, p[k], tail + rest, |keys|, acc);
      ReadEncodedProps(p, keys[1..], rest, acc[k := p[k]]);
      RestrictCons(p, keys, acc);
    }
  }

  /** DecodeNode over a header written by writeUTF, writeUTF and writeInt. */
  lemma DecodeHeader(id: string, nodeLabel: string, count: int32, rest: seq<byte>)
    requires WriteUTF(id).Ok? && WriteUTF(nodeLabel).Ok?
    ensures DecodeNode(WriteUTF(id).value + WriteUTF(nodeLabel).value + WriteInt(count) + rest)
         == WithEntries(NewNode(id, nodeLabel), ReadProps(rest, count, map[]))
  {
    var ib := WriteUTF(id).value;
    var lb := WriteUTF(nodeLabel).value;
    var cb := WriteInt(count);
    assert ib + lb + cb + rest == ib + (lb + (cb + rest));
    ReadWriteUTF(id, lb + (cb + rest));
    ReadWriteUTF(nodeLabel, cb + rest);
    ReadWriteInt(count, rest);
  }

  /**
   * Round trip: readFrom on what writeTo wrote gives back the same node,
   * whatever order the entries were written in, and consumes exactly those
   * bytes, so a following record is read next.
   */
  lemma ReadWriteNode(n: Node, keys: seq<string>, rest: seq<byte>)
    requires EnumeratesKeys(keys, n.properties)
    requires |n.properties| < 0x8000_0000
    requires EncodeNodeWith(n, keys).Ok?
    ensures DecodeNode(EncodeNodeWith(n, keys).value + rest) == Ok((n, rest))
  {
    var pb := EncodeProps(n.properties, keys).value;
    EncodeNodeCons(n, keys, rest);
    DecodeHeader(n.id, n.nodeLabel, |n.properties|, pb + rest);
    ReadEncodedProps(n.properties, keys, rest, map[]);
    RestrictAll(n.properties, keys);
  }

  lemma EncodeNodeCons(n: Node, keys: seq<string>, rest: seq<byte>)
    requires forall k | k in keys :: k in n.properties
    requires EncodeNodeWith(n, keys).Ok?
    ensures WriteUTF(n.id).Ok? && WriteUTF(n.nodeLabel).Ok? && EncodeProps(n.properties, keys).Ok?
    ensures EncodeNodeWith(n, keys).value + rest
         == WriteUTF(n.id).value + WriteUTF(n.nodeLabel).value + WriteInt(WrapInt32(|n.properties|))
            + (EncodeProps(n.properties, keys).value + rest)
  {
    var header := WriteUTF(n.id).value + WriteUTF(n.nodeLabel).value + WriteInt(WrapInt32(|n.properties|));
    var pb := EncodeProps(n.properties, keys).value;
    assert EncodeNodeWith(n, keys).value == header + pb;
    assert (header + pb) + rest == header + (pb + rest);
  }

  lemma RestrictAll(p: map<string, string>, keys: seq<string>)
    requires EnumeratesKeys(keys, p)
    ensures map[] + Restrict(p, keys) == p
  {
  }

  /**
   * Keys repeated in a stream collapse (the later value wins), so a decoded map
   * never has more entries than the pairs read.
   */
  lemma {:induction false} ReadPropsSize(b: seq<byte>, count: int, acc: map<string, string>)
    requires ReadProps(b, count, acc).Ok?
    ensures |ReadProps(b, count, acc).value.0| <= |acc| + (if count < 0 then 0 else count)
    decreases if count < 0 then 0 else count
  {
    if count > 0 {
      ReadPropsUnfold(b, count, acc);
      var k, b1 := ReadUTF(b).value.0, ReadUTF(b).value.1;
      var v, b2 := ReadUTF(b1).value.0, ReadUTF(b1).value.1;
      ReadPropsStep(b, count, acc, k, b1, v, b2);
      ReadPropsSize(b2, count - 1, acc[k := v]);
      UpdateSize(acc, k, v);
    }
  }

  lemma ReadPropsStep(b: seq<byte>, count: int, acc: map<string, string>,
                      k: string, b1: seq<byte>, v: string, b2: seq<byte>)
    requires count > 0 && ReadUTF(b) == Ok((k, b1)) && ReadUTF(b1) == Ok((v, b2))
    ensures ReadProps(b, count, acc) == ReadProps(b2, count - 1, acc[k := v])
  {
    ReadPropsUnfold(b, count, acc);
  }

  lemma UpdateSize(m: map<string, string>, k: string, v: string)
    ensures |m[k := v]| <= |m| + 1
  {
    if k in m { assert m[k := v].Keys == m.Keys; } else { assert m[k := v].Keys == m.Keys + {k}; }
  }

  /** A decoded node has at most as many properties as its declared count. */
  lemma DecodedNodeSize(b: seq<byte>)
    requires DecodeNode(b).Ok?
    ensures var count := ReadInt(ReadUTF(ReadUTF(b).value.1).value.1).value.0;
            |DecodeNode(b).value.0.properties| <= (if count < 0 then 0 else count)
  {
    var b1 := ReadUTF(b).value.1;
    var b2 := ReadUTF(b1).value.1;
    var (count, b3) := ReadInt(b2).value;
    ReadPropsSize(b3, count, map[]);
  }

  // ---- toString ----

  /** AbstractMap.toString's entries, `k=v` joined by ", ", in the order `keys`. */
  function EntriesText(p: map<string, string>, keys: seq<string>): string
    requires forall k | k in keys :: k in p
  {
    if keys == [] then ""
    else if |keys| == 1 then keys[0] + "=" + p[keys[0]]
    else keys[0] + "=" + p[keys[0]] + ", " + EntriesText(p, keys[1..])
  }

  /** toString: `(id:label) {k1=v1, k2=v2}`. */
  function NodeText(n: Node): string {
    "(" + n.id + ":" + n.nodeLabel + ") {" + EntriesText(n.properties, KeyOrder(n.properties)) + "}"
  }

  /** Every value listed in the entries text occurs in it. */
  lemma {:induction false} ValueInEntriesText(p: map<string, string>, keys: seq<string>, k: string)
    requires forall k' | k' in keys :: k' in p
    requires k in keys
    ensures Contains(EntriesText(p, keys), p[k])
  {
    if keys[0] == k {
      var tail := if |keys| == 1 then "" else ", " + EntriesText(p, keys[1..]);
      assert EntriesText(p, keys) == (keys[0] + "=") + p[k] + tail;
      ContainsInfix(keys[0] + "=", p[k], tail);
    } else {
      ValueInEntriesText(p, keys[1..], k);
      ContainsExtend(keys[0] + "=" + p[keys[0]] + ", ", EntriesText(p, keys[1..]), "", p[k]);
      assert EntriesText(p, keys) == (keys[0] + "=" + p[keys[0]] + ", ") + EntriesText(p, keys[1..]) + "";
    }
  }

  /**
   * The id, the label and every property value of a node appear in its
   * toString text, which is what the unindexed search scans.
   */
  lemma TokenInText(n: Node, t: string)
    requires t == n.id || t == n.nodeLabel || t in n.properties.Values
    ensures Contains(NodeText(n), t)
  {
    var entries := EntriesText(n.properties, KeyOrder(n.properties));
    if t == n.id {
      IdInText(n.id, n.nodeLabel, entries);
    } else if t == n.nodeLabel {
      LabelInText(n.id, n.nodeLabel, entries);
    } else {
      var k :| k in n.properties && n.properties[k] == t;
      ValueInEntriesText(n.properties, KeyOrder(n.properties), k);
      ContainsExtend("(" + n.id + ":" + n.nodeLabel + ") {", entries, "}", t);
    }
  }

  lemma IdInText(id: string, nodeLabel: string, entries: string)
    ensures Contains("(" + id + ":" + nodeLabel + ") {" + entries + "}", id)
  {
    assert "(" + id + ":" + nodeLabel + ") {" + entries + "}" == "(" + id + (":" + nodeLabel + ") {" + entries + "}");
    ContainsInfix("(", id, ":" + nodeLabel + ") {" + entries + "}");
  }

  lemma LabelInText(id: string, nodeLabel: string, entries: string)
    ensures Contains("(" + id + ":" + nodeLabel + ") {" + entries + "}", nodeLabel)
  {
    assert "(" + id + ":" + nodeLabel + ") {" + entries + "}" == ("(" + id + ":") + nodeLabel + (") {" + entries + "}");
    ContainsInfix("(" + id + ":", nodeLabel, ") {" + entries + "}");
  }
}
