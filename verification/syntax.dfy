/**
  The fragment of the ESTree syntax tree that the five rules look at.

  Nodes are values: an occurrence is identified by its subtree.  Whatever the
  rules learn from the surroundings of a node (its parent, its scope) comes
  from the helper functions each rule receives, never from the tree itself.
 */
module Syntax {

  datatype Option<+T> = None | Some(value: T) {
    function GetOr(default: T): T {
      match this
      case Some(v) => v
      case None => default
    }
  }

  /** The `value` of a `Literal` node: a string, or anything else (number, boolean, null, regular expression). */
  datatype LitValue = StringValue(str: string) | NonStringValue

  datatype Node =
    | Call(callee: Node, args: seq<Node>)        // CallExpression
    | Member(obj: Node, prop: Node)              // MemberExpression
    | Ident(name: string)                        // Identifier
    | Literal(value: LitValue, raw: string)      // Literal, with its source text including quotes
    | ExprStmt(expr: Node)                       // ExpressionStatement
    | Return(arg: Option<Node>)                  // ReturnStatement
    | Block(stmts: seq<Node>)                    // BlockStatement
    | Arrow(body: Node)                          // ArrowFunctionExpression: a Block or an expression
    | FuncExpr(block: Node)                      // FunctionExpression: its body is a Block
    | ImportDecl(source: Node)                   // ImportDeclaration: its source is a Literal
    | Other(kind: string)                        // any node kind the rules do not distinguish

  /** The statements of a block; the source only ever reaches `body.body` through a BlockStatement. */
  function BlockBody(n: Node): seq<Node> {
    if n.Block? then n.stmts else []
  }
}
