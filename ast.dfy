/** The shapes read from the template parser's syntax tree: positions, source locations
    and the node kinds the core's handlers look at. Every node carries `id`, the
    identity of its `loc` object, which the translation-key collector deduplicates on. */
module Ast {
  import opened Wrappers

  /** A 1-based line and a 0-based column. */
  datatype Position = Position(line: int, column: int)

  datatype SourceLocation = SourceLocation(source: string, start: Position, end: Position)

  /** `a` comes no later than `b` in (line, column) order. */
  predicate PosLe(a: Position, b: Position) {
    a.line < b.line || (a.line == b.line && a.column <= b.column)
  }

  /** The expressions that can stand as a callee or an argument. */
  datatype Expr =
    | PathExpression(original: string)
    | StringLiteral(original: string)
    | OtherExpression    // number, boolean, undefined and null literals, sub-expressions

  datatype HashPair = HashPair(key: string, value: Expr)

  /** A branch of a block statement; only its location is read. */
  datatype Program = Program(loc: SourceLocation)

  datatype Node =
    | ContentStatement(id: nat, loc: SourceLocation, value: string)
    | MustacheStatement(id: nat, loc: SourceLocation, path: Expr, params: seq<Expr>, hash: Option<seq<HashPair>>)
    | SubExpression(id: nat, loc: SourceLocation, path: Expr, params: seq<Expr>, hash: Option<seq<HashPair>>)
    | BlockStatement(id: nat, loc: SourceLocation, program: Option<Program>, inverse: Option<Program>)
    | PartialStatement(id: nat, loc: SourceLocation)
    | PartialBlockStatement(id: nat, loc: SourceLocation)
    | DecoratorBlock(id: nat, loc: SourceLocation)
    | Decorator(id: nat, loc: SourceLocation)
    | CommentStatement(id: nat, loc: SourceLocation)
    | OtherNode(id: nat, loc: SourceLocation)   // Program, PathExpression, literals, Hash

  /** Where a text node of the markup parse begins (1-based line and column). */
  datatype TextLocation = TextLocation(startLine: int, startCol: int)

  /** A node of the markup parse of a masked template, as the visitors walk its contents:
      a text node, with its location when the parser gave one, or a node of another kind. */
  datatype DomNode = TextNode(text: string, location: Option<TextLocation>) | OtherDomNode
}
