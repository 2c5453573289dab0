/**
 * com.atlasdblite.commands.SelectCommand: `select <Label> where <Key> <Op> <Value>`.
 * The command checks the syntax, scans every node of the engine (getAllNodes),
 * and keeps the nodes whose label equals the target ignoring case and whose
 * property satisfies the condition. Printing the table is not modelled.
 *
 * Double.parseDouble is a parameter `parse`: the number a string denotes, if
 * any. Numbers are modelled as reals, so Java's double rounding and NaN are
 * not captured; only "a side that does not parse makes the comparison false"
 * is relied on.
 */
module Select {
  import opened Wrappers
  import opened JavaText
  import opened Nodes
  import opened EngineSpec

  type Parser = string -> Option<real>

  /** checkCondition: the node's property `key` compared with `expected` by `op`. */
  predicate CheckCondition(n: Node, key: string, op: string, expected: string, parse: Parser) {
    if key !in n.properties then false
    else
      var actual := n.properties[key];
      var o := Lower(op);
      if o == "=" then EqualsIgnoreCase(actual, expected)
      else if o == "!=" then !EqualsIgnoreCase(actual, expected)
      else if o == "contains" then Contains(Lower(actual), Lower(expected))
      else if o == ">" || o == "<" then
        match (parse(actual), parse(expected))
        case (Some(a), Some(b)) => if op == ">" then a > b else a < b
        case _ => false
      else false
  }

  /** A node without the property satisfies no condition, `!=` included. */
  lemma MissingIsFalse(n: Node, key: string, op: string, expected: string, parse: Parser)
    requires key !in n.properties
    ensures !CheckCondition(n, key, op, expected, parse)
  {
  }

  /**
   * `=` is equality after lowering both sides, and `!=` is its exact negation
   * when the property is present.
   */
  lemma EqualityOperators(n: Node, key: string, expected: string, parse: Parser)
    requires key in n.properties
    ensures CheckCondition(n, key, "=", expected, parse) <==> Lower(n.properties[key]) == Lower(expected)
    ensures CheckCondition(n, key, "!=", expected, parse) <==> !CheckCondition(n, key, "=", expected, parse)
  {
    assert Lower("=") == "=";
    assert Lower("!=") == "!=";
  }

  /** `contains` is a substring test after lowering both sides: some offset of the lowered value starts the lowered pattern. */
  lemma ContainsOperator(n: Node, key: string, expected: string, parse: Parser)
    requires key in n.properties
    ensures CheckCondition(n, key, "contains", expected, parse)
        <==> exists i :: OccursAt(Lower(n.properties[key]), Lower(expected), i)
  {
    assert Lower("contains") == "contains";
    ContainsIff(Lower(n.properties[key]), Lower(expected));
  }

  /** Only `>` lowers to `>`, and only `<` to `<`: lowering changes letters alone. */
  lemma LowerComparison(op: string)
    ensures Lower(op) == ">" ==> op == ">"
    ensures Lower(op) == "<" ==> op == "<"
  {
    if |op| == 1 {
      assert Lower(op)[0] == LowerChar(op[0]);
    }
  }

  /** The operator is matched ignoring case: operators that lower alike decide alike. */
  lemma OperatorIgnoresCase(n: Node, key: string, op: string, op': string, expected: string, parse: Parser)
    requires Lower(op) == Lower(op')
    ensures CheckCondition(n, key, op, expected, parse) == CheckCondition(n, key, op', expected, parse)
  {
    LowerComparison(op);
    LowerComparison(op');
  }

  /** An operator that is none of =, !=, contains, >, < (ignoring case) is false. */
  lemma UnknownOperatorIsFalse(n: Node, key: string, op: string, expected: string, parse: Parser)
    requires Lower(op) !in {"=", "!=", "contains", ">", "<"}
    ensures !CheckCondition(n, key, op, expected, parse)
  {
  }

  /**
   * `>` and `<` compare the parsed numbers, and are false when either side
   * does not parse.
   */
  lemma ComparisonOperators(n: Node, key: string, expected: string, parse: Parser)
    requires key in n.properties
    ensures var a, b := parse(n.properties[key]), parse(expected);
            a.None? || b.None? ==>
              !CheckCondition(n, key, ">", expected, parse) && !CheckCondition(n, key, "<", expected, parse)
    ensures var a, b := parse(n.properties[key]), parse(expected);
            a.Some? && b.Some? ==>
              && (CheckCondition(n, key, ">", expected, parse) <==> a.value > b.value)
              && (CheckCondition(n, key, "<", expected, parse) <==> a.value < b.value)
  {
    assert Lower(">") == ">";
    assert Lower("<") == "<";
  }

  /** A parsed query: target label, property key, operator, value. */
  datatype Query = Query(targetLabel: string, key: string, op: string, value: string)

  /**
   * The syntax check of execute: at least six tokens with "where" (ignoring
   * case) third; tokens after the sixth are ignored. None is the usage error.
   */
  function ParseSelect(args: seq<string>): (r: Option<Query>)
    ensures r.None? <==> |args| < 6 || !EqualsIgnoreCase(args[2], "where")
  {
    if |args| < 6 || !EqualsIgnoreCase(args[2], "where") then None
    else Some(Query(args[1], args[3], args[4], args[5]))
  }

  /** Only the first six tokens matter. */
  lemma ParseSelectPrefix(args: seq<string>, more: seq<string>)
    requires |args| >= 6
    ensures ParseSelect(args + more) == ParseSelect(args)
  {
    assert (args + more)[..6] == args[..6];
  }

  /** The two stream filters: label equal ignoring case, then the condition. */
  predicate Selected(n: Node, q: Query, parse: Parser) {
    EqualsIgnoreCase(n.nodeLabel, q.targetLabel) && CheckCondition(n, q.key, q.op, q.value, parse)
  }

  /** The filtered stream, in order. */
  function Matching(nodes: seq<Node>, q: Query, parse: Parser): (r: seq<Node>)
    decreases |nodes|
  {
    if nodes == [] then []
    else
      var m := Matching(nodes[..|nodes| - 1], q, parse);
      if Selected(nodes[|nodes| - 1], q, parse) then m + [nodes[|nodes| - 1]] else m
  }

  /**
   * The results are exactly the scanned nodes that are selected, in scan
   * order: they form a subsequence of the scan.
   */
  lemma {:induction false} MatchingResult(nodes: seq<Node>, q: Query, parse: Parser)
    ensures forall x :: x in Matching(nodes, q, parse) <==> x in nodes && Selected(x, q, parse)
    ensures |Matching(nodes, q, parse)| <= |nodes|
    decreases |nodes|
  {
    if nodes != [] {
      var front := nodes[..|nodes| - 1];
      MatchingResult(front, q, parse);
      assert nodes == front + [nodes[|nodes| - 1]];
    }
  }

  /**
   * execute: a usage error scans nothing and leaves the engine as it was;
   * otherwise getAllNodes is called and its nodes are filtered.
   */
  function Execute(e: Engine, args: seq<string>, parse: Parser): (r: Answer<Option<seq<Node>>>)
    requires Wf(e)
    ensures Wf(r.after)
  {
    match ParseSelect(args)
    case None => Answer(None, e)
    case Some(q) =>
      var all := CollectNodes(e, EveryNode, Routing.BucketCount);
      Answer(Some(Matching(all.value, q, parse)), all.after)
  }

  /**
   * A bad query reports the usage error and leaves the engine unchanged; a
   * good one returns exactly the nodes of the full scan whose label equals the
   * target ignoring case and which satisfy the condition.
   */
  lemma ExecuteResult(e: Engine, args: seq<string>, parse: Parser)
    requires Wf(e)
    ensures var r := Execute(e, args, parse);
            && (r.value.None? <==> |args| < 6 || !EqualsIgnoreCase(args[2], "where"))
            && (r.value.None? ==> r.after == e)
            && (r.value.Some? ==>
                  var all := CollectNodes(e, EveryNode, Routing.BucketCount).value;
                  forall x :: x in r.value.value <==>
                    x in all && EqualsIgnoreCase(x.nodeLabel, args[1]) && CheckCondition(x, args[3], args[4], args[5], parse))
  {
    if ParseSelect(args).Some? {
      MatchingResult(CollectNodes(e, EveryNode, Routing.BucketCount).value, ParseSelect(args).value, parse);
    }
  }
}
