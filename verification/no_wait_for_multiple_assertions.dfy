/**
  Rule `no-wait-for-multiple-assertions`: a `waitFor` callback should hold a
  single `expect` statement; every `expect` statement after the first one in
  the callback's block is reported.
 */
module NoWaitForMultipleAssertions {
  import opened Syntax

  /** The detection helpers the rule calls; their definitions are not part of this model. */
  datatype Helpers = Helpers(
    getPropertyIdentifierNode: Node -> Option<Node>,
    // `helpers.isAsyncUtil(node, validNames)`
    isAsyncUtil: (Node, seq<string>) -> bool)

  /** A `noWaitForMultipleAssertion` diagnostic at `node`. */
  datatype Diagnostic = Diagnostic(node: Node)

  /** An expression statement whose property identifier is named exactly `expect`. */
  predicate IsExpectStatement(h: Helpers, n: Node) {
    n.ExprStmt? &&
    match h.getPropertyIdentifierNode(n)
    case Some(Ident(name)) => name == "expect"
    case _ => false
  }

  /** `a` can be obtained from `b` by deleting elements, keeping the order of the rest. */
  predicate IsSubsequence<T(==)>(a: seq<T>, b: seq<T>)
    decreases |b|
  {
    |a| == 0 ||
    (|b| > 0 && if a[0] == b[0] then IsSubsequence(a[1..], b[1..]) else IsSubsequence(a, b[1..]))
  }

  /** `getExpectNodes`: the `expect` statements of a block body, in order. */
  function GetExpectNodes(h: Helpers, body: seq<Node>): (expects: seq<Node>)
    decreases |body|
    ensures IsSubsequence(expects, body)
    ensures forall n :: n in expects <==> n in body && IsExpectStatement(h, n)
    ensures forall n :: multiset(expects)[n] == if IsExpectStatement(h, n) then multiset(body)[n] else 0
  {
    if |body| == 0 then []
    else
      var rest := GetExpectNodes(h, body[1..]);
      assert body == [body[0]] + body[1..];
      if IsExpectStatement(h, body[0]) then [body[0]] + rest else rest
  }

  /**
    The guard of `reportMultipleAssertion`: the block has a parent, so the
    call around that callback exists, the call has a property identifier,
    and that identifier is the `waitFor` async util.
   */
  predicate InsideWaitFor(h: Helpers, enclosingCall: Option<Node>) {
    enclosingCall.Some? &&
    h.getPropertyIdentifierNode(enclosingCall.value).Some? &&
    h.isAsyncUtil(h.getPropertyIdentifierNode(enclosingCall.value).value, ["waitFor"])
  }

  /**
    `reportMultipleAssertion` for the block statement of a callback whose
    statements are `body`; `enclosingCall` is `node.parent.parent`, None when
    the block has no parent.
   */
  method ReportMultipleAssertion(h: Helpers, body: seq<Node>, enclosingCall: Option<Node>)
    returns (reports: seq<Diagnostic>)
    ensures !InsideWaitFor(h, enclosingCall) ==> reports == []
    ensures |GetExpectNodes(h, body)| <= 1 ==> reports == []
    ensures InsideWaitFor(h, enclosingCall) && |GetExpectNodes(h, body)| >= 2 ==>
              |reports| == |GetExpectNodes(h, body)| - 1 &&
              forall i :: 1 <= i < |GetExpectNodes(h, body)| ==>
                reports[i - 1] == Diagnostic(GetExpectNodes(h, body)[i])
  {
    reports := [];
    if enclosingCall.None? {
      return;
    }
    var callExpressionIdentifier := h.getPropertyIdentifierNode(enclosingCall.value);
    if callExpressionIdentifier.None? {
      return;
    }
    if !h.isAsyncUtil(callExpressionIdentifier.value, ["waitFor"]) {
      return;
    }
    var expectNodes := GetExpectNodes(h, body);
    if |expectNodes| <= 1 {
      return;
    }
    reports := ReportAllButFirst(expectNodes);
  }

  /** The reporting loop: one diagnostic per `expect` statement, skipping index 0. */
  method ReportAllButFirst(expectNodes: seq<Node>) returns (reports: seq<Diagnostic>)
    ensures |reports| == if |expectNodes| == 0 then 0 else |expectNodes| - 1
    ensures forall i :: 1 <= i < |expectNodes| ==> reports[i - 1] == Diagnostic(expectNodes[i])
  {
    reports := [];
    for i := 0 to |expectNodes|
      invariant |reports| == if i == 0 then 0 else i - 1
      invariant forall j :: 0 <= j < |reports| ==> reports[j] == Diagnostic(expectNodes[j + 1])
    {
      if i != 0 {
        reports := reports + [Diagnostic(expectNodes[i])];
      }
    }
  }
}
