/** `compile_ast_to_bpftrace` and the expression translator under it: a
    parsed SELECT becomes one bpftrace probe that counts its firings, binds
    each projected column to a scratch variable and prints the row as a
    tuple. Errors the compiler returns are `Rejected`; the places where it
    panics (indexing past the end, `panic!`, a failed catalog lookup) are
    `Aborted` with the reason. */
module Compiler {
  import opened Wrappers
  import opened Strings
  import opened SqlAst
  import opened KernelSignature
  import Bpf = BpftraceProgram

  /** The kernel-definition catalog: function name to its signature text. */
  type Catalog = map<string, string>

  /** Why a compilation stops abruptly. */
  datatype Panic =
    /** The statement list is empty. */
    | NoStatement
    /** An expression kind without a case in the translator. */
    | UnsupportedExpression(text: string)
    | QualifiedWildcardArgument(qualifier: string)
    | SubqueryArgument
    /** A compound identifier under a probe name without a `:`. */
    | ProbeWithoutFunction(probe: string)
    | EmptyCompoundIdentifier
    /** `args` alone under a kprobe, with no field after it. */
    | MissingArgumentName
    /** The kprobe's function has no row in the catalog. */
    | UnknownFunction(name: string)

  datatype CompileError =
    | Rejected(message: string)
    | Aborted(panic: Panic)

  /** The translation of a compiled query: the program text and the column
      header of every projected column. */
  datatype Compiled = Compiled(program: string, headers: seq<string>)

  // ---------------------------------------------------------------------
  // Expressions

  /** A single-quoted SQL string becomes a double-quoted bpftrace string;
      every other literal keeps its text. */
  function TranslateValue(v: Value): (r: string)
    ensures v.SingleQuotedString? ==>
              |r| == |v.contents| + 2 && r[0] == '"' && r[|r| - 1] == '"' && r[1..|r| - 1] == v.contents
    ensures v.OtherValue? ==> r == v.text
  {
    match v
    case SingleQuotedString(s) => "\"" + s + "\""
    case OtherValue(t) => t
  }

  /** SQL equality `=` is bpftrace `==`; every other operator is kept. */
  function TranslateOperator(op: string): (r: string)
    ensures r != "="
    ensures r == "==" <==> op == "=" || op == "=="
    ensures op != "=" ==> r == op
  {
    if op == "=" then "==" else op
  }

  /** The kind of a probe name, the text before its first `:`. */
  function ProbeKind(probe: string): string {
    Split(probe, ':')[0]
  }

  /** The traced function of a probe name, the text between its first and
      second `:` (empty when there is no `:`). */
  function ProbeFunction(probe: string): string {
    var rs := Split(probe, ':');
    if |rs| >= 2 then rs[1] else ""
  }

  // ---------------------------------------------------------------------
  // When translation succeeds, stated without the translator

  /** A compound identifier resolves when the probe has a function part,
      the identifier is not empty, and `args` under a kprobe names a field
      of a function the catalog knows. */
  predicate Resolvable(parts: seq<string>, probe: string, catalog: Catalog) {
    ':' in probe && |parts| >= 1
    && (parts[0] == "args" && ProbeKind(probe) == "kprobe" ==>
          |parts| >= 2 && ProbeFunction(probe) in catalog)
  }

  /** Every node is one the translator has a case for. */
  predicate Translatable(e: Expr, probe: string, catalog: Catalog)
    decreases e
  {
    match e
    case Identifier(_) => true
    case Wildcard => true
    case Literal(_) => true
    case BinaryOp(l, _, r) => Translatable(l, probe, catalog) && Translatable(r, probe, catalog)
    case Function(_, args) =>
      (match args
       case NoArguments => true
       case SubqueryArguments => false
       case ArgumentList(list) => ArgsTranslatable(list, probe, catalog))
    case CompoundIdentifier(parts) => Resolvable(parts, probe, catalog)
    case OtherExpr(_) => false
  }

  predicate ArgsTranslatable(list: seq<FunctionArg>, probe: string, catalog: Catalog)
    decreases list
  {
    forall a | a in list :: ArgTranslatable(a, probe, catalog)
  }

  predicate ArgTranslatable(a: FunctionArg, probe: string, catalog: Catalog)
    decreases a
  {
    match a.arg
    case ArgExpr(x) => Translatable(x, probe, catalog)
    case ArgWildcard => true
    case ArgQualifiedWildcard(_) => false
  }

  // ---------------------------------------------------------------------
  // The translator

  /** The compound identifier `parts` under probe `probe`. The probe name is
      cut at `:` and its second piece read before anything else, so a probe
      without a `:` aborts whatever the identifier is. `args.<name>` under a
      kprobe becomes the typed cast of that kprobe function's parameter;
      everything else is the parts joined by `.`. */
  function ResolveCompound(parts: seq<string>, probe: string, catalog: Catalog): (r: Result<string, Panic>)
    ensures r.Success? <==> Resolvable(parts, probe, catalog)
  {
    SplitCountsSeparator(probe, ':');
    var rs := Split(probe, ':');
    if |rs| < 2 then Failure(ProbeWithoutFunction(probe))
    else if |parts| == 0 then Failure(EmptyCompoundIdentifier)
    else if parts[0] == "args" && rs[0] == "kprobe" then
      if |parts| < 2 then Failure(MissingArgumentName)
      else if rs[1] !in catalog then Failure(UnknownFunction(rs[1]))
      else Success(ArgumentCast(catalog[rs[1]], parts[1]))
    else Success(Join(parts, "."))
  }

  /** `parse_expr`: succeeds exactly on the expressions built from nodes it
      has a case for; every other expression aborts. */
  function TranslateExpr(e: Expr, probe: string, catalog: Catalog): (r: Result<string, Panic>)
    ensures r.Success? <==> Translatable(e, probe, catalog)
    decreases e
  {
    match e
    case Identifier(name) => Success(name)
    case Wildcard => Success("*")
    case Literal(v) => Success(TranslateValue(v))
    case BinaryOp(left, op, right) =>
      var l :- TranslateExpr(left, probe, catalog);
      var r :- TranslateExpr(right, probe, catalog);
      Success(l + " " + TranslateOperator(op) + " " + r)
    case Function(name, args) =>
      (match args
       case ArgumentList(list) =>
         var rendered :- TranslateArgs(list, probe, catalog);
         Success(name + "(" + Join(rendered, ",") + ")")
       case NoArguments => Success(name + "()")
       case SubqueryArguments => Failure(SubqueryArgument))
    case CompoundIdentifier(parts) => ResolveCompound(parts, probe, catalog)
    case OtherExpr(text) => Failure(UnsupportedExpression(text))
  }

  /** The arguments of a call, translated in order; the first one that
      aborts aborts the call, so the list translates exactly when each
      argument does. */
  function TranslateArgs(list: seq<FunctionArg>, probe: string, catalog: Catalog): (r: Result<seq<string>, Panic>)
    ensures r.Success? <==> ArgsTranslatable(list, probe, catalog)
    ensures r.Success? ==> |r.value| == |list|
    decreases list
  {
    if |list| == 0 then Success([])
    else
      assert forall a :: a in list <==> a == list[0] || a in list[1..];
      var first :- TranslateArg(list[0], probe, catalog);
      var rest :- TranslateArgs(list[1..], probe, catalog);
      Success([first] + rest)
  }

  /** `parse_fn_arg`: a named argument is `name=value`. */
  function TranslateArg(a: FunctionArg, probe: string, catalog: Catalog): (r: Result<string, Panic>)
    ensures r.Success? <==> ArgTranslatable(a, probe, catalog)
    decreases a
  {
    match a
    case Named(name, x) =>
      var v :- TranslateArgExpr(x, probe, catalog);
      Success(name + "=" + v)
    case Unnamed(x) => TranslateArgExpr(x, probe, catalog)
  }

  /** `parse_fn_arg_expr`: a qualified wildcard aborts. */
  function TranslateArgExpr(x: FunctionArgExpr, probe: string, catalog: Catalog): (r: Result<string, Panic>)
    ensures r.Success? <==> !x.ArgQualifiedWildcard? && (x.ArgExpr? ==> Translatable(x.expr, probe, catalog))
    decreases x
  {
    match x
    case ArgExpr(inner) => TranslateExpr(inner, probe, catalog)
    case ArgWildcard => Success("*")
    case ArgQualifiedWildcard(q) => Failure(QualifiedWildcardArgument(q))
  }

  // ---------------------------------------------------------------------
  // The query

  /** An abort of the translator, as a compilation outcome. */
  function Lift<T>(r: Result<T, Panic>): (l: Result<T, CompileError>)
    ensures l.Success? <==> r.Success?
    ensures r.Success? ==> l.value == r.value
    ensures r.Failure? ==> l.error == Aborted(r.error)
  {
    match r
    case Success(v) => Success(v)
    case Failure(p) => Failure(Aborted(p))
  }

  /** The probe of a FROM list: `BEGIN` without one, otherwise the first
      table's dotted name with every `.` turned into `:`. */
  function ProbeOf(from: seq<TableFactor>): Result<string, CompileError> {
    if |from| == 0 then Success("BEGIN")
    else match from[0]
      case Table(name) => Success(ReplaceAll(name, ".", ":"))
      case OtherFactor => Failure(Rejected("Expected a table"))
  }

  /** The filter of a WHERE clause, translated under the probe. */
  function FilterOf(selection: Option<Expr>, probe: string, catalog: Catalog): Result<Option<string>, CompileError> {
    match selection
    case None => Success(None)
    case Some(e) =>
      var f :- Lift(TranslateExpr(e, probe, catalog));
      Success(Some(f))
  }

  /** The columns a bare `*` stands for, each its own header and output. */
  const IdentityColumns: seq<string> := ["comm", "pid", "cpu", "elapsed"]

  /** The projection loop as written: one step per item, growing the header
      and output lists together. What was accumulated is kept, and both
      lists grow by the same number of entries. */
  function CompileProjection(items: seq<SelectItem>, probe: string, catalog: Catalog,
                             headers: seq<string>, outputs: seq<string>): (r: Result<(seq<string>, seq<string>), CompileError>)
    ensures r.Success? ==> |headers| <= |r.value.0| && r.value.0[..|headers|] == headers
    ensures r.Success? ==> |outputs| <= |r.value.1| && r.value.1[..|outputs|] == outputs
    ensures r.Success? ==> |r.value.0| - |headers| == |r.value.1| - |outputs|
    decreases |items|
  {
    if |items| == 0 then Success((headers, outputs))
    else match items[0]
      case UnnamedExpr(e, text) =>
        var o :- Lift(TranslateExpr(e, probe, catalog));
        CompileProjection(items[1..], probe, catalog, headers + [text], outputs + [o])
      case ExprWithAlias(e, alias) =>
        var o :- Lift(TranslateExpr(e, probe, catalog));
        CompileProjection(items[1..], probe, catalog, headers + [alias], outputs + [o])
      case WildcardItem =>
        CompileProjection(items[1..], probe, catalog, headers + IdentityColumns, outputs + IdentityColumns)
      case QualifiedWildcardItem(_) => Failure(Rejected("Expected an expression"))
  }

  /** The binding lines `$q1_<i> = <output>;` from position `from` on. */
  function BindingText(outputs: seq<string>, from: nat): string
    requires from <= |outputs|
    decreases |outputs| - from
  {
    if from == |outputs| then ""
    else "$q1_" + NatToString(from) + " = " + outputs[from] + ";\n" + BindingText(outputs, from + 1)
  }

  /** What the print loop has pushed after `n` columns: one `(<i>,$q1_<i>),`
      per column. */
  function PrintEntriesText(n: nat): string {
    if n == 0 then "" else PrintEntriesText(n - 1) + "(" + NatToString(n - 1) + ",$q1_" + NatToString(n - 1) + "),"
  }

  /** The print statement as built: the id entry and a comma, the column
      entries, then the last pushed character (a comma) popped before the
      closing parentheses. */
  function PrintText(n: nat): string {
    var pushed := "print((" + Bpf.IdEntry + "," + PrintEntriesText(n);
    pushed[..|pushed| - 1] + "));\n"
  }

  /** The program text, in the order the compiler pushes its pieces. */
  function ProgramText(probe: string, filter: Option<string>, outputs: seq<string>, oneShot: bool): string {
    probe
    + (if filter.Some? then " /" + filter.value + "/ " else "")
    + "\n {\n"
    + "@q1_id[\"id\"] = count();\n" + BindingText(outputs, 0)
    + PrintText(|outputs|)
    + (if oneShot then "exit();\n" else "")
    + " }"
  }

  /** `compile_ast_to_bpftrace`. Only the first statement is looked at; a
      statement that is not a query, a query that is not a plain SELECT and
      a FROM entry that is not a table are rejected before anything is
      translated. */
  function Compile(ast: seq<Statement>, catalog: Catalog): (r: Result<Compiled, CompileError>)
    ensures |ast| == 0 ==> r == Failure(Aborted(NoStatement))
    ensures |ast| > 0 && ast[0].OtherStatement? ==> r == Failure(Rejected("Expected a query"))
    ensures |ast| > 0 && ast[0].Query? && ast[0].body.OtherSetExpr? ==> r == Failure(Rejected("Expected a select"))
    ensures |ast| > 0 && ast[0].Query? && ast[0].body.SelectBody?
            && |ast[0].body.select.from| > 0 && ast[0].body.select.from[0].OtherFactor?
            ==> r == Failure(Rejected("Expected a table"))
    ensures r.Success? ==> |ast| > 0 && ast[0].Query? && ast[0].body.SelectBody?
  {
    if |ast| == 0 then Failure(Aborted(NoStatement))
    else match ast[0]
      case OtherStatement => Failure(Rejected("Expected a query"))
      case Query(body) =>
        match body
        case OtherSetExpr => Failure(Rejected("Expected a select"))
        case SelectBody(select) =>
          var probe :- ProbeOf(select.from);
          var filter :- FilterOf(select.selection, probe, catalog);
          var built :- CompileProjection(select.projection, probe, catalog, [], []);
          Success(Compiled(ProgramText(probe, filter, built.1, |select.from| == 0), built.0))
  }
}
