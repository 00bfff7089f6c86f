/**
  Rule `prefer-query-wait-disappearance`: inside `waitForElementToBeRemoved`,
  a `getBy*` or `findBy*` query (which throws when the element is absent)
  should be a `queryBy*` query.  The argument is reported when it is such a
  query call, or a callback that calls or returns one.
 */
module PreferQueryByDisappearance {
  import opened Syntax

  /** The detection helpers the rule calls; their definitions are not part of this model. */
  datatype Helpers = Helpers(
    getPropertyIdentifierNode: Node -> Option<Node>,
    // `helpers.isAsyncUtil(node, validNames)`
    isAsyncUtil: (Node, seq<string>) -> bool,
    isGetQueryVariant: Node -> bool,
    isFindQueryVariant: Node -> bool)

  /** A `preferQueryByDisappearance` diagnostic at `node`. */
  datatype Diagnostic = Diagnostic(node: Node)

  predicate IsWaitForElementToBeRemoved(h: Helpers, call: Node) {
    match h.getPropertyIdentifierNode(call)
    case None => false
    case Some(id) => h.isAsyncUtil(id, ["waitForElementToBeRemoved"])
  }

  /** The identifier `isReportableExpression` inspects: a member's property's, otherwise the node's own. */
  function InspectedIdentifier(h: Helpers, node: Node): Option<Node> {
    if node.Member? then h.getPropertyIdentifierNode(node.prop) else h.getPropertyIdentifierNode(node)
  }

  predicate IsReportableExpression(h: Helpers, node: Node)
  {
    match InspectedIdentifier(h, node)
    case None => false
    case Some(id) => h.isGetQueryVariant(id) || h.isFindQueryVariant(id)
  }

  /** A callee worth inspecting: a member expression, or something with a property identifier. */
  predicate HasInspectableCallee(h: Helpers, callee: Node) {
    callee.Member? || h.getPropertyIdentifierNode(callee).Some?
  }

  /** The first argument is itself a reportable query call: `waitForElementToBeRemoved(screen.getByText('x'))`. */
  predicate IsNonCallbackViolation(h: Helpers, node: Node) {
    node.Call? && HasInspectableCallee(h, node.callee) && IsReportableExpression(h, node.callee)
  }

  /** `return <reportable call>;` */
  predicate IsReturnViolation(h: Helpers, stmt: Node) {
    stmt.Return? && stmt.arg.Some? && stmt.arg.value.Call? && IsReportableExpression(h, stmt.arg.value.callee)
  }

  /** `<reportable call>;` */
  predicate IsNonReturnViolation(h: Helpers, stmt: Node) {
    stmt.ExprStmt? && stmt.expr.Call? &&
    HasInspectableCallee(h, stmt.expr.callee) && IsReportableExpression(h, stmt.expr.callee)
  }

  predicate IsStatementViolation(h: Helpers, stmt: Node) {
    IsReturnViolation(h, stmt) || IsNonReturnViolation(h, stmt)
  }

  /** `statements.some(s => isReturnViolation(s) || isNonReturnViolation(s))`. */
  function SomeStatementViolation(h: Helpers, stmts: seq<Node>): (b: bool)
    decreases |stmts|
  {
    |stmts| > 0 && (IsStatementViolation(h, stmts[0]) || SomeStatementViolation(h, stmts[1..]))
  }

  predicate IsFunctionExpressionViolation(h: Helpers, node: Node) {
    node.FuncExpr? && SomeStatementViolation(h, BlockBody(node.block))
  }

  predicate IsArrowFunctionBodyViolation(h: Helpers, node: Node) {
    node.Arrow? && node.body.Block? && SomeStatementViolation(h, node.body.stmts)
  }

  predicate IsArrowFunctionImplicitReturnViolation(h: Helpers, node: Node) {
    node.Arrow? && node.body.Call? &&
    HasInspectableCallee(h, node.body.callee) && IsReportableExpression(h, node.body.callee)
  }

  predicate IsArrowFunctionViolation(h: Helpers, node: Node) {
    IsArrowFunctionBodyViolation(h, node) || IsArrowFunctionImplicitReturnViolation(h, node)
  }

  /** Any of the three shapes of violation for the first argument. */
  predicate IsViolation(h: Helpers, arg: Node) {
    IsNonCallbackViolation(h, arg) || IsArrowFunctionViolation(h, arg) || IsFunctionExpressionViolation(h, arg)
  }

  /** The `CallExpression` handler: at most one diagnostic, at the first argument. */
  function Check(h: Helpers, call: Node): (d: Option<Diagnostic>)
    requires call.Call?
    ensures !IsWaitForElementToBeRemoved(h, call) ==> d.None?
    ensures d.Some? ==> |call.args| > 0 && d.value.node == call.args[0]
    ensures d.Some? <==> IsWaitForElementToBeRemoved(h, call) && |call.args| > 0 && IsViolation(h, call.args[0])
  {
    if !IsWaitForElementToBeRemoved(h, call) then None
    else if |call.args| == 0 then None
    else if !IsViolation(h, call.args[0]) then None
    else Some(Diagnostic(call.args[0]))
  }

  /**
    The object of a member expression plays no part: `screen.getByText` and
    `view.getByText` are decided alike, and both like `getByText` itself.
   */
  lemma MemberObjectIrrelevant(h: Helpers, o1: Node, o2: Node, p: Node)
    ensures IsReportableExpression(h, Member(o1, p)) == IsReportableExpression(h, Member(o2, p))
    ensures !p.Member? ==> IsReportableExpression(h, Member(o1, p)) == IsReportableExpression(h, p)
  {
  }

  /**
    As a direct argument, a qualified query call and the bare call of the same
    query are both violations or neither.
   */
  lemma QualifiedQueryCallDecidedAlike(h: Helpers, o: Node, p: Node, args: seq<Node>)
    requires !p.Member?
    ensures IsNonCallbackViolation(h, Call(Member(o, p), args)) == IsNonCallbackViolation(h, Call(p, args))
  {
    MemberObjectIrrelevant(h, o, o, p);
  }

  /**
    When the helpers recognise no get or find query at all (a callback that
    only uses `queryBy*` queries), no call is ever reported.
   */
  lemma QueriesOnlyNeverReported(h: Helpers, call: Node)
    requires call.Call?
    requires forall id :: !h.isGetQueryVariant(id) && !h.isFindQueryVariant(id)
    ensures Check(h, call).None?
  {
    if |call.args| > 0 {
      var node := call.args[0];
      if node.FuncExpr? {
        NoReportableNoStatementViolation(h, BlockBody(node.block));
      }
      if node.Arrow? && node.body.Block? {
        NoReportableNoStatementViolation(h, node.body.stmts);
      }
    }
  }

  lemma {:induction false} NoReportableNoStatementViolation(h: Helpers, stmts: seq<Node>)
    requires forall id :: !h.isGetQueryVariant(id) && !h.isFindQueryVariant(id)
    decreases |stmts|
    ensures !SomeStatementViolation(h, stmts)
  {
    if |stmts| > 0 {
      NoReportableNoStatementViolation(h, stmts[1..]);
    }
  }

  /** `.some` is an existential over the statements. */
  lemma {:induction false} SomeStatementViolationIffExists(h: Helpers, stmts: seq<Node>)
    decreases |stmts|
    ensures SomeStatementViolation(h, stmts) <==> exists i :: 0 <= i < |stmts| && IsStatementViolation(h, stmts[i])
  {
    if |stmts| > 0 {
      SomeStatementViolationIffExists(h, stmts[1..]);
      if exists i :: 0 <= i < |stmts| && IsStatementViolation(h, stmts[i]) {
        var i :| 0 <= i < |stmts| && IsStatementViolation(h, stmts[i]);
        if i > 0 {
          assert stmts[1..][i - 1] == stmts[i];
        }
      }
      if exists i :: 0 <= i < |stmts[1..]| && IsStatementViolation(h, stmts[1..][i]) {
        var i :| 0 <= i < |stmts[1..]| && IsStatementViolation(h, stmts[1..][i]);
        assert stmts[i + 1] == stmts[1..][i];
      }
    }
  }

  /** The order of the statements is irrelevant: any rearrangement gives the same verdict. */
  lemma StatementOrderIrrelevant(h: Helpers, stmts: seq<Node>, other: seq<Node>)
    requires multiset(stmts) == multiset(other)
    ensures SomeStatementViolation(h, stmts) == SomeStatementViolation(h, other)
  {
    SomeStatementViolationIffExists(h, stmts);
    SomeStatementViolationIffExists(h, other);
    forall s | s in stmts ensures s in other {
      assert s in multiset(stmts);
    }
    forall s | s in other ensures s in stmts {
      assert s in multiset(other);
    }
    if SomeStatementViolation(h, stmts) {
      var i :| 0 <= i < |stmts| && IsStatementViolation(h, stmts[i]);
      assert stmts[i] in other;
    }
    if SomeStatementViolation(h, other) {
      var i :| 0 <= i < |other| && IsStatementViolation(h, other[i]);
      assert other[i] in stmts;
    }
  }

  /** Only `return <call>` and `<call>;` statements can ever count as violations. */
  lemma OnlyCallStatementsViolate(h: Helpers, stmt: Node)
    requires !(stmt.Return? && stmt.arg.Some? && stmt.arg.value.Call?)
    requires !(stmt.ExprStmt? && stmt.expr.Call?)
    ensures !IsStatementViolation(h, stmt)
  {
  }

  /** For one arrow, the block-body check and the implicit-return check never both apply. */
  lemma ArrowChecksExclusive(h: Helpers, node: Node)
    ensures !(IsArrowFunctionBodyViolation(h, node) && IsArrowFunctionImplicitReturnViolation(h, node))
  {
  }

  /** A first argument that is not a call is never a non-callback violation. */
  lemma NonCallNeverNonCallbackViolation(h: Helpers, node: Node)
    requires !node.Call?
    ensures !IsNonCallbackViolation(h, node)
  {
  }
}
