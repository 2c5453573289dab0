/**
 * com.atlasdblite.commands.AddNodeCommand: `add-node [id] <label> [key:value]...`.
 * The id is taken as omitted when only a label is given or when the third
 * token holds a colon; an omitted id is the first eight characters of a random
 * UUID, passed in here as `freshId`. Every later token is split at its first
 * colon and, when it has one, becomes a property; then the node is persisted.
 */
module AddNode {
  import opened Wrappers
  import opened JavaText
  import opened Nodes
  import opened GraphEngines
  import Spec = EngineSpec

  /** isAutoId. */
  predicate IsAutoId(args: seq<string>) {
    |args| == 2 || (|args| > 2 && Contains(args[2], ":"))
  }

  /** The id is generated exactly when the label is alone or the third token has a colon. */
  lemma AutoIdMeaning(args: seq<string>)
    ensures IsAutoId(args) <==> |args| == 2 || (|args| > 2 && ':' in args[2])
  {
    if |args| > 2 {
      assert ":" == [':'];
      ContainsChar(args[2], ':');
    }
  }

  /** One property token: `split(":", 2)`, and addProperty when there are two parts. */
  function ApplyOne(n: Node, token: string): Node {
    match SplitAtFirstColon(token)
    case None => n
    case Some((key, value)) => AddProperty(n, key, value)
  }

  /** The property tokens applied in order to `n`. */
  function ApplyProps(n: Node, tokens: seq<string>): Node
    decreases |tokens|
  {
    if tokens == [] then n
    else ApplyOne(ApplyProps(n, tokens[..|tokens| - 1]), tokens[|tokens| - 1])
  }

  /** Applying one more token of a list. */
  lemma ApplyPropsStep(n: Node, tokens: seq<string>, j: int)
    requires 0 <= j < |tokens|
    ensures ApplyProps(n, tokens[..j + 1]) == ApplyOne(ApplyProps(n, tokens[..j]), tokens[j])
  {
    var done := tokens[..j + 1];
    assert done[..j] == tokens[..j] && done[j] == tokens[j];
  }

  /** The key a token sets, if it has a colon. */
  function KeyOf(token: string): Option<string> {
    match SplitAtFirstColon(token)
    case None => None
    case Some((key, _)) => Some(key)
  }

  /** Some token sets `k`. */
  predicate SetsKey(tokens: seq<string>, k: string) {
    exists i :: 0 <= i < |tokens| && KeyOf(tokens[i]) == Some(k)
  }

  /** A token list sets `k` when its front does or its last token does. */
  lemma SetsKeyLast(tokens: seq<string>, k: string)
    requires tokens != []
    ensures SetsKey(tokens, k) <==> SetsKey(tokens[..|tokens| - 1], k) || KeyOf(tokens[|tokens| - 1]) == Some(k)
  {
    var front := tokens[..|tokens| - 1];
    if SetsKey(tokens, k) {
      var i :| 0 <= i < |tokens| && KeyOf(tokens[i]) == Some(k);
      if i < |front| {
        assert front[i] == tokens[i];
      }
    }
    if SetsKey(front, k) {
      var i :| 0 <= i < |front| && KeyOf(front[i]) == Some(k);
      assert tokens[i] == front[i];
    }
    if KeyOf(tokens[|tokens| - 1]) == Some(k) {
      assert 0 <= |tokens| - 1 < |tokens|;
    }
  }

  /**
   * The properties keep the id and label; the keys are the starting keys
   * plus the part before the first colon of every token that has one.
   */
  lemma {:induction false} ApplyPropsKeys(n: Node, tokens: seq<string>)
    ensures ApplyProps(n, tokens).id == n.id && ApplyProps(n, tokens).nodeLabel == n.nodeLabel
    ensures forall k :: k in ApplyProps(n, tokens).properties <==> k in n.properties || SetsKey(tokens, k)
    decreases |tokens|
  {
    if tokens != [] {
      ApplyPropsKeys(n, tokens[..|tokens| - 1]);
      forall k {
        SetsKeyLast(tokens, k);
      }
    }
  }

  /**
   * The last token that sets a key decides its value: the text after that
   * token's first colon, which may itself hold colons.
   */
  lemma {:induction false} ApplyPropsLastWins(n: Node, tokens: seq<string>, i: int)
    requires 0 <= i < |tokens| && SplitAtFirstColon(tokens[i]).Some?
    requires forall j | i < j < |tokens| :: KeyOf(tokens[j]) != KeyOf(tokens[i])
    ensures var kv := SplitAtFirstColon(tokens[i]).value;
            kv.0 in ApplyProps(n, tokens).properties && ApplyProps(n, tokens).properties[kv.0] == kv.1
    decreases |tokens|
  {
    var front := tokens[..|tokens| - 1];
    var kv := SplitAtFirstColon(tokens[i]).value;
    if i < |tokens| - 1 {
      assert front[i] == tokens[i];
      forall j | i < j < |front|
        ensures KeyOf(front[j]) != KeyOf(front[i])
      {
        assert front[j] == tokens[j];
      }
      ApplyPropsLastWins(n, front, i);
      assert KeyOf(tokens[|tokens| - 1]) != Some(kv.0);
    }
  }

  /** The id, label and index of the first property token. */
  datatype Header = Header(id: string, nodeLabel: string, propStart: nat)

  /** The smart id detection of execute. */
  function HeaderOf(args: seq<string>, freshId: string): (h: Header)
    requires |args| >= 2
    ensures h.propStart <= |args|
  {
    if IsAutoId(args) then Header(freshId, args[1], 2)
    else Header(args[1], args[2], 3)
  }

  /** The node execute builds, or None for the usage error. */
  function Built(args: seq<string>, freshId: string): Option<Node> {
    if |args| < 2 then None
    else
      var h := HeaderOf(args, freshId);
      Some(ApplyProps(NewNode(h.id, h.nodeLabel), args[h.propStart..]))
  }

  /**
   * Fewer than two tokens is the usage error. Otherwise the node is either
   * (freshId, args[1]) with properties from args[2..], when the id is
   * generated, or (args[1], args[2]) with properties from args[3..]; its keys
   * are those of the property tokens that hold a colon.
   */
  lemma BuiltResult(args: seq<string>, freshId: string)
    ensures Built(args, freshId).None? <==> |args| < 2
    ensures Built(args, freshId).Some? ==>
              var n := Built(args, freshId).value;
              var start := if IsAutoId(args) then 2 else 3;
              && n.id == (if IsAutoId(args) then freshId else args[1])
              && n.nodeLabel == (if IsAutoId(args) then args[1] else args[2])
              && forall k :: k in n.properties <==> SetsKey(args[start..], k)
  {
    if |args| >= 2 {
      var h := HeaderOf(args, freshId);
      var tokens := args[h.propStart..];
      ApplyPropsKeys(NewNode(h.id, h.nodeLabel), tokens);
    }
  }

  /** The property loop of execute, over args[start..]. */
  method AddProps(node: Node, args: seq<string>, start: nat) returns (n: Node)
    requires start <= |args|
    ensures n == ApplyProps(node, args[start..])
  {
    n := node;
    ghost var tokens := args[start..];
    for i := start to |args|
      invariant n == ApplyProps(node, tokens[..i - start])
    {
      ApplyPropsStep(node, tokens, i - start);
      ghost var before := n;
      match SplitAtFirstColon(args[i])
      case None =>
      case Some((key, value)) =>
        n := AddProperty(n, key, value);
      assert n == ApplyOne(before, tokens[i - start]);
    }
    assert tokens[..|args| - start] == tokens;
  }

  /** The parsing half of execute. */
  method BuildNode(args: seq<string>, freshId: string) returns (node: Option<Node>)
    ensures node == Built(args, freshId)
  {
    if |args| < 2 {
      return None;
    }
    var id, nodeLabel, propStart;
    if IsAutoId(args) {
      id, nodeLabel, propStart := freshId, args[1], 2;
    } else {
      id, nodeLabel, propStart := args[1], args[2], 3;
    }
    var n := AddProps(NewNode(id, nodeLabel), args, propStart);
    return Some(n);
  }

  /** execute: the usage error changes nothing; otherwise the built node is persisted. */
  method Execute(engine: GraphEngine, args: seq<string>, freshId: string) returns (created: Option<Node>)
    requires engine.Valid()
    modifies engine, engine.segments
    ensures engine.Valid()
    ensures created == Built(args, freshId)
    ensures created.None? ==> engine.Value() == old(engine.Value())
    ensures created.Some? ==> engine.Value() == Spec.PersistNode(old(engine.Value()), created.value)
  {
    created := BuildNode(args, freshId);
    if created.Some? {
      engine.PersistNode(created.value);
    }
  }
}
