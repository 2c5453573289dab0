/**
 * com.atlasdblite.models.Relation: an immutable, directed, typed link between
 * two node ids, its toString text, and its binary form in a segment image.
 *
 * Relation has no equals override, so two relations with the same fields are
 * still two entries of a list; a value datatype with a list of relations keeps
 * both, and every lookup in the engine compares fields.
 */
module Relations {
  import opened Wrappers
  import opened JavaText
  import opened DataIO

  datatype Relation = Relation(sourceId: string, targetId: string, relType: string)

  /** toString: `(source)-[type]->(target)`. */
  function RelationText(r: Relation): string {
    "(" + r.sourceId + ")-[" + r.relType + "]->(" + r.targetId + ")"
  }

  /** The text names the source first, then the type, then the target. */
  lemma RelationTextParts(r: Relation)
    ensures Contains(RelationText(r), r.sourceId)
    ensures Contains(RelationText(r), r.relType)
    ensures Contains(RelationText(r), r.targetId)
  {
    var t := RelationText(r);
    assert t == "(" + r.sourceId + (")-[" + r.relType + "]->(" + r.targetId + ")");
    ContainsInfix("(", r.sourceId, ")-[" + r.relType + "]->(" + r.targetId + ")");
    assert t == ("(" + r.sourceId + ")-[") + r.relType + ("]->(" + r.targetId + ")");
    ContainsInfix("(" + r.sourceId + ")-[", r.relType, "]->(" + r.targetId + ")");
    assert t == ("(" + r.sourceId + ")-[" + r.relType + "]->(") + r.targetId + ")";
    ContainsInfix("(" + r.sourceId + ")-[" + r.relType + "]->(", r.targetId, ")");
  }

  /**
   * The match removeRelation and updateRelation use: equal source, equal
   * target, and a type equal ignoring case.
   */
  predicate Matches(r: Relation, sourceId: string, targetId: string, relType: string) {
    r.sourceId == sourceId && r.targetId == targetId && EqualsIgnoreCase(r.relType, relType)
  }

  // ---- Binary form ----

  /** Relation.writeTo: source, target and type as three writeUTF strings. */
  function EncodeRelation(r: Relation): (e: Result<seq<byte>>)
    ensures e.Ok? <==> Encodable(r.sourceId) && Encodable(r.targetId) && Encodable(r.relType)
  {
    match WriteUTF(r.sourceId)
    case Err(err) => Err(err)
    case Ok(sb) =>
      match WriteUTF(r.targetId)
      case Err(err) => Err(err)
      case Ok(tb) =>
        match WriteUTF(r.relType)
        case Err(err) => Err(err)
        case Ok(yb) => Ok(sb + tb + yb)
  }

  /** Relation.readFrom: three readUTF strings, and the bytes left after them. */
  function DecodeRelation(b: seq<byte>): (r: Result<(Relation, seq<byte>)>)
    ensures r.Ok? ==> |r.value.1| + 6 <= |b|
  {
    match ReadUTF(b)
    case Err(e) => Err(e)
    case Ok((s, b1)) =>
      match ReadUTF(b1)
      case Err(e) => Err(e)
      case Ok((t, b2)) =>
        match ReadUTF(b2)
        case Err(e) => Err(e)
        case Ok((y, b3)) => Ok((Relation(s, t, y), b3))
  }

  /** Round trip: a written relation reads back unchanged and consumes exactly its bytes. */
  lemma ReadWriteRelation(r: Relation, rest: seq<byte>)
    requires EncodeRelation(r).Ok?
    ensures DecodeRelation(EncodeRelation(r).value + rest) == Ok((r, rest))
  {
    var sb := WriteUTF(r.sourceId).value;
    var tb := WriteUTF(r.targetId).value;
    var yb := WriteUTF(r.relType).value;
    assert EncodeRelation(r).value + rest == sb + (tb + (yb + rest));
    ReadWriteUTF(r.sourceId, tb + (yb + rest));
    ReadWriteUTF(r.targetId, yb + rest);
    ReadWriteUTF(r.relType, rest);
  }
}
