/** The part of the parsed SQL statement tree the compiler inspects. The
    parser's `Display` renderings (of a whole expression, an operator, a
    literal, a function or table name) are carried as text inside the nodes,
    because the compiler only ever copies them. */
module SqlAst {
  import opened Wrappers

  /** A literal. Only single-quoted strings get special treatment; every
      other literal is known by its display text. */
  datatype Value =
    | SingleQuotedString(contents: string)
    | OtherValue(text: string)

  datatype Expr =
    | Identifier(name: string)
    | Wildcard
    | Literal(value: Value)
    /** `op` is the operator's display text, e.g. `=`, `>`, `->`. */
    | BinaryOp(left: Expr, op: string, right: Expr)
    | Function(name: string, args: FunctionArguments)
    | CompoundIdentifier(parts: seq<string>)
    /** Any expression kind the compiler has no case for. */
    | OtherExpr(text: string)

  datatype FunctionArguments =
    | NoArguments
    | ArgumentList(list: seq<FunctionArg>)
    | SubqueryArguments

  datatype FunctionArg =
    | Named(name: string, arg: FunctionArgExpr)
    | Unnamed(arg: FunctionArgExpr)

  datatype FunctionArgExpr =
    | ArgExpr(expr: Expr)
    | ArgWildcard
    | ArgQualifiedWildcard(qualifier: string)

  /** A projection item. `text` is the display text of the expression,
      which becomes the column header of an unaliased item. */
  datatype SelectItem =
    | UnnamedExpr(expr: Expr, text: string)
    | ExprWithAlias(expr: Expr, alias: string)
    | WildcardItem
    | QualifiedWildcardItem(qualifier: string)

  /** The relation of one FROM entry; `name` is the dotted table name. */
  datatype TableFactor =
    | Table(name: string)
    | OtherFactor

  datatype Select = Select(
    projection: seq<SelectItem>,
    from: seq<TableFactor>,
    selection: Option<Expr>)

  datatype SetExpr =
    | SelectBody(select: Select)
    | OtherSetExpr

  datatype Statement =
    | Query(body: SetExpr)
    | OtherStatement
}
