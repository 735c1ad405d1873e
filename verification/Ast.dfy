/** The parser's untyped syntax tree, shared by every pass that walks one. */
module Ast {
  datatype Option<+T> = None | Some(value: T)

  /** The node kinds the modelled passes tell apart; every other kind is `OtherKind`. */
  datatype Kind =
    | FlowDecl | SecureFlowDecl | PureFlowDecl | GuardedFlowDecl
    | ParamDecl | Block | FnDecl
    | LetDecl | MutDecl | AssignStmt | ReturnStmt | IfStmt | WhileStmt
    | NumberLiteral | BoolLiteral | Identifier | BinaryExpr | UnaryExpr
    | CallExpr | MemberExpr
    | OtherKind(name: string)

  /** `value` and `typeName` are the empty string where the parser leaves them undefined. */
  datatype Node = Node(kind: Kind, value: string, children: seq<Node>, typeName: string := "")

  /** The node that a path of child positions leads to. */
  function NodeAt(n: Node, path: seq<nat>): Option<Node>
    decreases path
  {
    if path == [] then Some(n) else if path[0] >= |n.children| then None else NodeAt(n.children[path[0]], path[1..])
  }

  /** Index of the first `c` in `s`, or |s|. */
  function IndexOf(s: string, c: char): (i: nat)
    ensures i <= |s|
    ensures i < |s| ==> s[i] == c
    ensures c !in s[..i]
  {
    if s == [] || s[0] == c then 0 else 1 + IndexOf(s[1..], c)
  }

  function TrimLeft(s: string): string {
    if s != [] && s[0] in {' ', '\t', '\n', '\r'} then TrimLeft(s[1..]) else s
  }

  function TrimRight(s: string): string {
    if s != [] && s[|s| - 1] in {' ', '\t', '\n', '\r'} then TrimRight(s[..|s| - 1]) else s
  }

  function Trim(s: string): string {
    TrimRight(TrimLeft(s))
  }

  /** The bound name of a declaration whose value reads `name` or `name: Type`. */
  function BindingName(value: string): string {
    Trim(value[..IndexOf(value, ':')])
  }
}
