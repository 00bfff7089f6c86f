/**
  Rule `await-async-utils`: the promise returned by an async util
  (`waitFor`, `waitForElementToBeRemoved`, ...) must be handled, and so must
  the promise returned by a user function found to wrap one.

  The rule keeps one piece of per-file state, the list of wrapper-function
  names, which only grows while the file is traversed in source order.
 */
module AwaitAsyncUtils {
  import opened Syntax

  /** The closest enclosing call of an identifier, and that call's parent if it has one. */
  datatype CallSite = CallSite(call: Node, parent: Option<Node>)

  /**
    The detection helpers the rule calls, as they answer at one point of the
    traversal.  Their definitions are not part of this model.
   */
  datatype Helpers = Helpers(
    isAsyncUtil: Node -> bool,
    getInnermostReturningFunction: Node -> Option<Node>,
    getFunctionName: Node -> string,
    findClosestCallExpressionNode: Node -> Option<CallSite>,
    getVariableReferences: Node -> seq<Node>,
    isPromiseHandled: Node -> bool)

  datatype MessageId = AwaitAsyncUtil | AsyncUtilWrapper

  datatype Diagnostic = Diagnostic(node: Node, messageId: MessageId, name: string)

  /** One `'CallExpression Identifier'` visit: the helpers' answers there and the identifier. */
  datatype Visit = Visit(helpers: Helpers, node: Node)

  /** The per-file state: wrapper names in registration order and the diagnostics issued so far. */
  datatype RuleState = RuleState(wrappers: seq<string>, reports: seq<Diagnostic>)

  function OptionToSeq<T>(o: Option<T>): (s: seq<T>)
    ensures |s| <= 1
  {
    match o
    case None => []
    case Some(x) => [x]
  }

  /**
    The names `detectAsyncUtilWrapper` registers at one visit: the name of
    the innermost returning function around an async util, if there is one.
   */
  function WrapperPush(h: Helpers, node: Node): (pushed: seq<string>)
    ensures |pushed| <= 1
    ensures |pushed| == 1 <==> h.isAsyncUtil(node) && h.getInnermostReturningFunction(node).Some?
    ensures |pushed| == 1 ==> pushed[0] == h.getFunctionName(h.getInnermostReturningFunction(node).value)
  {
    if h.isAsyncUtil(node) then
      match h.getInnermostReturningFunction(node)
      case Some(f) => [h.getFunctionName(f)]
      case None => []
    else []
  }

  /** Some reference to the variable the util's result was assigned to is not handled. */
  predicate SomeReferenceUnhandled(h: Helpers, refs: seq<Node>) {
    exists k :: 0 <= k < |refs| && !h.isPromiseHandled(refs[k])
  }

  /**
    The diagnostic, if any, that one visit of identifier `node` yields when
    `wrappers` are the names registered before it.
   */
  function Verdict(h: Helpers, node: Node, wrappers: seq<string>): (d: Option<Diagnostic>)
    requires node.Ident?
    // every diagnostic cites the visited identifier itself, by its own name
    ensures d.Some? ==> d.value.node == node && d.value.name == node.name
    // the async-util branch wins: an async util never yields the wrapper message
    ensures h.isAsyncUtil(node) && d.Some? ==> d.value.messageId == AwaitAsyncUtil
    // without a closest call expression that has a parent, nothing is reported
    ensures h.isAsyncUtil(node) &&
            (h.findClosestCallExpressionNode(node).None? || h.findClosestCallExpressionNode(node).value.parent.None?)
            ==> d.None?
    // with a call site that has a parent: report iff the util's own promise (no references)
    // or some reference to the variable holding it (otherwise) is not handled
    ensures h.isAsyncUtil(node) &&
            h.findClosestCallExpressionNode(node).Some? && h.findClosestCallExpressionNode(node).value.parent.Some? ==>
              var refs := h.getVariableReferences(h.findClosestCallExpressionNode(node).value.parent.value);
              (|refs| == 0 ==> (d.Some? <==> !h.isPromiseHandled(node))) &&
              (|refs| > 0 ==> (d.Some? <==> SomeReferenceUnhandled(h, refs)))
    // a name counts as a wrapper only if it was registered earlier
    ensures !h.isAsyncUtil(node) ==>
              (d.Some? <==> node.name in wrappers && !h.isPromiseHandled(node)) &&
              (d.Some? ==> d.value.messageId == AsyncUtilWrapper)
  {
    if h.isAsyncUtil(node) then
      match h.findClosestCallExpressionNode(node)
      case None => None
      case Some(site) =>
        match site.parent
        case None => None
        case Some(p) =>
          var refs := h.getVariableReferences(p);
          var unhandled := if |refs| == 0 then !h.isPromiseHandled(node) else SomeReferenceUnhandled(h, refs);
          if unhandled then Some(Diagnostic(node, AwaitAsyncUtil, node.name)) else None
    else if node.name in wrappers then
      if !h.isPromiseHandled(node) then Some(Diagnostic(node, AsyncUtilWrapper, node.name)) else None
    else None
  }

  /** The effect of one visit on the per-file state. */
  function Step(st: RuleState, v: Visit): (st': RuleState)
    requires v.node.Ident?
  {
    RuleState(st.wrappers + WrapperPush(v.helpers, v.node),
              st.reports + OptionToSeq(Verdict(v.helpers, v.node, st.wrappers)))
  }

  predicate AllIdentifiers(visits: seq<Visit>) {
    forall k :: 0 <= k < |visits| ==> visits[k].node.Ident?
  }

  /** The state after visiting `visits` in order, starting from an empty list. */
  function Run(visits: seq<Visit>): RuleState
    requires AllIdentifiers(visits)
    decreases |visits|
  {
    if |visits| == 0 then RuleState([], [])
    else Step(Run(visits[..|visits| - 1]), visits[|visits| - 1])
  }

  /** The rule instance `create` returns for one file. */
  class AsyncUtilsRule {
    var functionWrappersNames: seq<string>
    var reports: seq<Diagnostic>

    function State(): RuleState
      reads this
    {
      RuleState(functionWrappersNames, reports)
    }

    constructor ()
      ensures State() == Run([])
    {
      functionWrappersNames := [];
      reports := [];
    }

    /** Registers the innermost returning function around an async util as a wrapper. */
    method DetectAsyncUtilWrapper(h: Helpers, node: Node)
      requires h.isAsyncUtil(node)
      modifies this`functionWrappersNames
      ensures functionWrappersNames == old(functionWrappersNames) + WrapperPush(h, node)
    {
      var innerFunction := h.getInnermostReturningFunction(node);
      if innerFunction.Some? {
        functionWrappersNames := functionWrappersNames + [h.getFunctionName(innerFunction.value)];
      }
    }

    /** The `'CallExpression Identifier'` handler. */
    method VisitIdentifier(h: Helpers, node: Node)
      requires node.Ident?
      modifies this
      ensures State() == Step(old(State()), Visit(h, node))
    {
      if h.isAsyncUtil(node) {
        DetectAsyncUtilWrapper(h, node);
        var closest := h.findClosestCallExpressionNode(node);
        if closest.None? || closest.value.parent.None? {
          return;
        }
        var references := h.getVariableReferences(closest.value.parent.value);
        if |references| == 0 {
          if !h.isPromiseHandled(node) {
            reports := reports + [Diagnostic(node, AwaitAsyncUtil, node.name)];
            return;
          }
        } else {
          var i := 0;
          while i < |references|
            invariant 0 <= i <= |references|
            invariant forall k :: 0 <= k < i ==> h.isPromiseHandled(references[k])
          {
            if !h.isPromiseHandled(references[i]) {
              reports := reports + [Diagnostic(node, AwaitAsyncUtil, node.name)];
              return;
            }
            i := i + 1;
          }
        }
      } else if node.name in functionWrappersNames {
        if !h.isPromiseHandled(node) {
          reports := reports + [Diagnostic(node, AsyncUtilWrapper, node.name)];
          return;
        }
      }
    }
  }

  /** Visiting the identifiers one by one drives the object through `Run`. */
  method Traverse(visits: seq<Visit>) returns (rule: AsyncUtilsRule)
    requires AllIdentifiers(visits)
    ensures rule.State() == Run(visits)
  {
    rule := new AsyncUtilsRule();
    var i := 0;
    while i < |visits|
      invariant 0 <= i <= |visits|
      invariant rule.State() == Run(visits[..i])
    {
      assert visits[..i + 1][..i] == visits[..i];
      rule.VisitIdentifier(visits[i].helpers, visits[i].node);
      i := i + 1;
    }
    assert visits[..|visits|] == visits;
  }

  /** The state after a prefix of the traversal is a prefix of every later state: nothing is removed or reordered. */
  lemma {:induction false} RunGrows(visits: seq<Visit>, n: nat)
    requires AllIdentifiers(visits) && n <= |visits|
    decreases |visits|
    ensures AllIdentifiers(visits[..n])
    ensures Run(visits[..n]).wrappers <= Run(visits).wrappers
    ensures Run(visits[..n]).reports <= Run(visits).reports
  {
    if n < |visits| {
      var init := visits[..|visits| - 1];
      RunGrows(init, n);
      assert init[..n] == visits[..n];
    } else {
      assert visits[..n] == visits;
    }
  }

  /** Each visit appends at most one wrapper name and issues at most one diagnostic. */
  lemma {:induction false} RunBounds(visits: seq<Visit>)
    requires AllIdentifiers(visits)
    decreases |visits|
    ensures |Run(visits).wrappers| <= |visits|
    ensures |Run(visits).reports| <= |visits|
  {
    if |visits| > 0 {
      RunBounds(visits[..|visits| - 1]);
    }
  }

  /** Visit `k` registered `name`: an async util inside a returning function named `name`. */
  predicate Registers(v: Visit, name: string) {
    v.helpers.isAsyncUtil(v.node) &&
    v.helpers.getInnermostReturningFunction(v.node).Some? &&
    v.helpers.getFunctionName(v.helpers.getInnermostReturningFunction(v.node).value) == name
  }

  /** A name is in the wrapper list exactly when some visit so far registered it. */
  lemma {:induction false} WrapperListContents(visits: seq<Visit>, name: string)
    requires AllIdentifiers(visits)
    decreases |visits|
    ensures name in Run(visits).wrappers <==> exists k :: 0 <= k < |visits| && Registers(visits[k], name)
  {
    if |visits| > 0 {
      var init := visits[..|visits| - 1];
      var last := visits[|visits| - 1];
      WrapperListContents(init, name);
      if exists k :: 0 <= k < |init| && Registers(init[k], name) {
        var k :| 0 <= k < |init| && Registers(init[k], name);
        assert visits[k] == init[k];
      }
      if exists k :: 0 <= k < |visits| && Registers(visits[k], name) {
        var k :| 0 <= k < |visits| && Registers(visits[k], name);
        if k < |visits| - 1 {
          assert init[k] == visits[k];
        }
      }
    }
  }

  /**
    Wrapper recognition is forward-only: a visit of an identifier that is not
    an async util yields the wrapper diagnostic exactly when an EARLIER visit
    registered its name and its promise is not handled; registrations by the
    visit itself or by later visits play no part.
   */
  lemma ForwardOnly(visits: seq<Visit>, i: nat)
    requires AllIdentifiers(visits) && i < |visits|
    requires !visits[i].helpers.isAsyncUtil(visits[i].node)
    ensures AllIdentifiers(visits[..i]) && AllIdentifiers(visits[..i + 1])
    ensures Run(visits[..i + 1]).wrappers == Run(visits[..i]).wrappers
    ensures Run(visits[..i + 1]).reports ==
            Run(visits[..i]).reports +
            if (exists k :: 0 <= k < i && Registers(visits[k], visits[i].node.name)) &&
               !visits[i].helpers.isPromiseHandled(visits[i].node)
            then [Diagnostic(visits[i].node, AsyncUtilWrapper, visits[i].node.name)]
            else []
  {
    var pre := visits[..i];
    var v := visits[i];
    assert visits[..i + 1][..i] == pre;
    WrapperListContents(pre, v.node.name);
    forall k | 0 <= k < i ensures pre[k] == visits[k] { }
  }

  /** An identifier that is neither an async util nor a registered wrapper changes nothing. */
  lemma InertVisit(st: RuleState, v: Visit)
    requires v.node.Ident?
    requires !v.helpers.isAsyncUtil(v.node) && v.node.name !in st.wrappers
    ensures Step(st, v) == st
  {
    assert st.wrappers + [] == st.wrappers;
    assert st.reports + [] == st.reports;
  }
}
