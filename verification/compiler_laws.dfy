/** What `compile_ast_to_bpftrace` promises about a whole query, stated
    against a structured reference: the `Plan` of a SELECT (probe, filter,
    columns) rendered by `BpftraceProgram.Render`. */
module CompilerLaws {
  import opened Wrappers
  import opened Strings
  import opened SqlAst
  import opened Compiler
  import Bpf = BpftraceProgram

  // ---------------------------------------------------------------------
  // The program text is the rendering of a structured program

  lemma PrintEntriesStep(n: nat)
    requires n > 0
    ensures PrintEntriesText(n) == PrintEntriesText(n - 1) + (Bpf.Entry(n - 1) + ",")
  {
  }

  lemma RowEntriesStep(n: nat)
    requires n > 0
    ensures Bpf.RowEntries(n) == Bpf.RowEntries(n - 1) + [Bpf.Entry(n - 1)]
  {
  }

  /** The id entry, a comma and the pushed column entries are the row's
      entries joined by commas, plus one trailing comma. */
  lemma {:induction false} PrintEntriesJoin(n: nat)
    ensures Bpf.IdEntry + "," + PrintEntriesText(n) == Join(Bpf.RowEntries(n), ",") + ","
  {
    if n > 0 {
      var entry := Bpf.Entry(n - 1);
      var before := Bpf.RowEntries(n - 1);
      PrintEntriesJoin(n - 1);
      PrintEntriesStep(n);
      RowEntriesStep(n);
      JoinSnoc(before, entry, ",");
      Associate(Bpf.IdEntry + ",", PrintEntriesText(n - 1), entry + ",");
      Associate(Join(before, ","), ",", entry + ",");
    }
  }

  /** The pop of the last pushed comma leaves the entries joined by commas,
      with no trailing comma even when there are no columns. */
  lemma PrintTextRenders(n: nat)
    ensures PrintText(n) == Bpf.RenderStatement(Bpf.PrintRow(n))
  {
    var j := Join(Bpf.RowEntries(n), ",");
    PrintEntriesJoin(n);
    var pushed := "print((" + Bpf.IdEntry + "," + PrintEntriesText(n);
    Associate("print((", Bpf.IdEntry + ",", PrintEntriesText(n));
    assert Bpf.IdEntry + "," + PrintEntriesText(n) == j + ",";
    Associate("print((", j, ",");
    assert pushed == "print((" + j + ",";
    assert pushed[..|pushed| - 1] == "print((" + j;
  }

  lemma {:induction false} BindingTextRenders(outputs: seq<string>, from: nat)
    requires from <= |outputs|
    ensures BindingText(outputs, from) == Bpf.RenderStatements(Bpf.Bindings(outputs)[from..])
    decreases |outputs| - from
  {
    if from < |outputs| {
      BindingTextRenders(outputs, from + 1);
      assert Bpf.Bindings(outputs)[from..][1..] == Bpf.Bindings(outputs)[from + 1..];
    }
  }

  /** The body of a query renders as its four parts in order. */
  lemma QueryBodyRenders(outputs: seq<string>, oneShot: bool)
    ensures Bpf.RenderStatements(Bpf.QueryBody(outputs, oneShot))
            == Bpf.RenderStatement(Bpf.CountFiring) + Bpf.RenderStatements(Bpf.Bindings(outputs))
               + Bpf.RenderStatement(Bpf.PrintRow(|outputs|))
               + Bpf.RenderStatements(if oneShot then [Bpf.Exit] else [])
  {
    var bs := Bpf.Bindings(outputs);
    var tail: seq<Bpf.Statement> := if oneShot then [Bpf.Exit] else [];
    var c := [Bpf.CountFiring];
    var p := [Bpf.PrintRow(|outputs|)];
    assert Bpf.QueryBody(outputs, oneShot) == c + bs + p + tail;
    Bpf.RenderStatementsAppend(c, bs);
    Bpf.RenderStatementsAppend(c + bs, p);
    Bpf.RenderStatementsAppend(c + bs + p, tail);
    RenderSingle(Bpf.CountFiring);
    RenderSingle(Bpf.PrintRow(|outputs|));
  }

  /** The text the compiler pushes piece by piece is the rendering of the
      probe with the query body. */
  lemma ProgramTextRenders(probe: string, filter: Option<string>, outputs: seq<string>, oneShot: bool)
    ensures ProgramText(probe, filter, outputs, oneShot)
            == Bpf.Render(Bpf.Probe(probe, filter, Bpf.QueryBody(outputs, oneShot)))
  {
    var head := probe + Bpf.RenderFilter(filter) + "\n {\n";
    var count := Bpf.RenderStatement(Bpf.CountFiring);
    var binds := BindingText(outputs, 0);
    var printing := PrintText(|outputs|);
    var exit := if oneShot then "exit();\n" else "";
    QueryBodyRenders(outputs, oneShot);
    BindingTextRenders(outputs, 0);
    assert Bpf.Bindings(outputs)[0..] == Bpf.Bindings(outputs);
    PrintTextRenders(|outputs|);
    assert Bpf.RenderStatements(if oneShot then [Bpf.Exit] else []) == exit;
    assert ProgramText(probe, filter, outputs, oneShot) == head + count + binds + printing + exit + " }";
    Associate4(head, count + binds, printing, exit);
    Associate(head, count, binds);
  }

  // ---------------------------------------------------------------------
  // The reference: a plan of columns

  /** One output column: its header and the bpftrace expression bound to it. */
  datatype Column = Column(header: string, output: string)

  /** The columns one projection item contributes. */
  function ItemColumns(item: SelectItem, probe: string, catalog: Catalog): Result<seq<Column>, CompileError> {
    match item
    case UnnamedExpr(e, text) =>
      var o :- Lift(TranslateExpr(e, probe, catalog));
      Success([Column(text, o)])
    case ExprWithAlias(e, alias) =>
      var o :- Lift(TranslateExpr(e, probe, catalog));
      Success([Column(alias, o)])
    case WildcardItem =>
      Success(seq(|IdentityColumns|, i requires 0 <= i < |IdentityColumns| => Column(IdentityColumns[i], IdentityColumns[i])))
    case QualifiedWildcardItem(_) => Failure(Rejected("Expected an expression"))
  }

  /** The columns of a projection: the items' columns in order, or the
      first item's failure. */
  function SelectColumns(items: seq<SelectItem>, probe: string, catalog: Catalog): Result<seq<Column>, CompileError> {
    if |items| == 0 then Success([])
    else
      var first :- ItemColumns(items[0], probe, catalog);
      var rest :- SelectColumns(items[1..], probe, catalog);
      Success(first + rest)
  }

  function HeadersOf(cols: seq<Column>): (hs: seq<string>)
    ensures |hs| == |cols| && forall i :: 0 <= i < |cols| ==> hs[i] == cols[i].header
  {
    seq(|cols|, i requires 0 <= i < |cols| => cols[i].header)
  }

  function OutputsOf(cols: seq<Column>): (os: seq<string>)
    ensures |os| == |cols| && forall i :: 0 <= i < |cols| ==> os[i] == cols[i].output
  {
    seq(|cols|, i requires 0 <= i < |cols| => cols[i].output)
  }

  /** A query's meaning: the probe to attach and the column headers. */
  datatype Plan = Plan(probe: Bpf.Probe, headers: seq<string>)

  function PlanOf(s: Select, catalog: Catalog): Result<Plan, CompileError> {
    var target :- ProbeOf(s.from);
    var filter :- FilterOf(s.selection, target, catalog);
    var cols :- SelectColumns(s.projection, target, catalog);
    Success(Plan(Bpf.Probe(target, filter, Bpf.QueryBody(OutputsOf(cols), |s.from| == 0)), HeadersOf(cols)))
  }

  /** One step of the projection loop appends one item's columns. */
  lemma ProjectionStep(items: seq<SelectItem>, probe: string, catalog: Catalog,
                       headers: seq<string>, outputs: seq<string>)
    requires |items| > 0 && ItemColumns(items[0], probe, catalog).Success?
    ensures CompileProjection(items, probe, catalog, headers, outputs)
            == CompileProjection(items[1..], probe, catalog,
                                 headers + HeadersOf(ItemColumns(items[0], probe, catalog).value),
                                 outputs + OutputsOf(ItemColumns(items[0], probe, catalog).value))
  {
    var cols := ItemColumns(items[0], probe, catalog).value;
    match items[0]
    case UnnamedExpr(e, text) =>
      assert HeadersOf(cols) == [text];
      assert OutputsOf(cols) == [TranslateExpr(e, probe, catalog).value];
    case ExprWithAlias(e, alias) =>
      assert HeadersOf(cols) == [alias];
      assert OutputsOf(cols) == [TranslateExpr(e, probe, catalog).value];
    case WildcardItem =>
      assert HeadersOf(cols) == IdentityColumns;
      assert OutputsOf(cols) == IdentityColumns;
  }

  /** Accumulating the columns of `a` and then of `b` accumulates those
      of `a + b`. */
  lemma AccumulateColumns(headers: seq<string>, outputs: seq<string>, a: seq<Column>, b: seq<Column>)
    ensures headers + HeadersOf(a) + HeadersOf(b) == headers + HeadersOf(a + b)
    ensures outputs + OutputsOf(a) + OutputsOf(b) == outputs + OutputsOf(a + b)
  {
    ColumnsAppend(a, b);
    assert headers + HeadersOf(a) + HeadersOf(b) == headers + (HeadersOf(a) + HeadersOf(b));
    assert outputs + OutputsOf(a) + OutputsOf(b) == outputs + (OutputsOf(a) + OutputsOf(b));
  }

  lemma ColumnsAppend(a: seq<Column>, b: seq<Column>)
    ensures HeadersOf(a + b) == HeadersOf(a) + HeadersOf(b)
    ensures OutputsOf(a + b) == OutputsOf(a) + OutputsOf(b)
  {
  }

  /** The projection loop with its accumulators computes the plan's
      columns: headers and outputs grow together, in projection order. */
  lemma {:induction false} ProjectionFollowsColumns(items: seq<SelectItem>, probe: string, catalog: Catalog,
                                                    headers: seq<string>, outputs: seq<string>)
    ensures CompileProjection(items, probe, catalog, headers, outputs).Success?
            <==> SelectColumns(items, probe, catalog).Success?
    ensures SelectColumns(items, probe, catalog).Success? ==>
              CompileProjection(items, probe, catalog, headers, outputs).value
              == (headers + HeadersOf(SelectColumns(items, probe, catalog).value),
                  outputs + OutputsOf(SelectColumns(items, probe, catalog).value))
    ensures SelectColumns(items, probe, catalog).Failure? ==>
              CompileProjection(items, probe, catalog, headers, outputs).error
              == SelectColumns(items, probe, catalog).error
    decreases |items|
  {
    if |items| > 0 {
      var first := ItemColumns(items[0], probe, catalog);
      if first.Success? {
        var hs := headers + HeadersOf(first.value);
        var os := outputs + OutputsOf(first.value);
        var loop := CompileProjection(items, probe, catalog, headers, outputs);
        var later := CompileProjection(items[1..], probe, catalog, hs, os);
        assert loop == later by {
          ProjectionStep(items, probe, catalog, headers, outputs);
        }
        ProjectionFollowsColumns(items[1..], probe, catalog, hs, os);
        var rest := SelectColumns(items[1..], probe, catalog);
        assert SelectColumns(items, probe, catalog) == (if rest.Success? then Success(first.value + rest.value) else rest);
        if rest.Success? {
          AccumulateColumns(headers, outputs, first.value, rest.value);
        }
      }
    } else {
      assert headers + HeadersOf([]) == headers;
      assert outputs + OutputsOf([]) == outputs;
    }
  }

  /** A SELECT compiles exactly when it has a plan; the program is the
      plan's probe rendered, the headers are the plan's, and a failure is
      the plan's failure. */
  lemma CompileFollowsPlan(ast: seq<Statement>, catalog: Catalog, s: Select)
    requires |ast| > 0 && ast[0] == Query(SelectBody(s))
    ensures Compile(ast, catalog).Success? <==> PlanOf(s, catalog).Success?
    ensures PlanOf(s, catalog).Success? ==>
              Compile(ast, catalog).value
              == Compiled(Bpf.Render(PlanOf(s, catalog).value.probe), PlanOf(s, catalog).value.headers)
    ensures PlanOf(s, catalog).Failure? ==> Compile(ast, catalog).error == PlanOf(s, catalog).error
  {
    var target := ProbeOf(s.from);
    if target.Success? {
      var filter := FilterOf(s.selection, target.value, catalog);
      if filter.Success? {
        CompileAfterFilter(ast, catalog, s, target.value, filter.value);
      }
    }
  }

  /** Once the probe and the filter are in hand, compiling is the projection
      loop followed by rendering. */
  lemma CompileAfterFilter(ast: seq<Statement>, catalog: Catalog, s: Select, target: string, filter: Option<string>)
    requires |ast| > 0 && ast[0] == Query(SelectBody(s))
    requires ProbeOf(s.from) == Success(target)
    requires FilterOf(s.selection, target, catalog) == Success(filter)
    ensures Compile(ast, catalog).Success? <==> PlanOf(s, catalog).Success?
    ensures PlanOf(s, catalog).Success? ==>
              Compile(ast, catalog).value
              == Compiled(Bpf.Render(PlanOf(s, catalog).value.probe), PlanOf(s, catalog).value.headers)
    ensures PlanOf(s, catalog).Failure? ==> Compile(ast, catalog).error == PlanOf(s, catalog).error
  {
    ProjectionFollowsColumns(s.projection, target, catalog, [], []);
    var cols := SelectColumns(s.projection, target, catalog);
    if cols.Success? {
      assert [] + HeadersOf(cols.value) == HeadersOf(cols.value);
      assert [] + OutputsOf(cols.value) == OutputsOf(cols.value);
      ProgramTextRenders(target, filter, OutputsOf(cols.value), |s.from| == 0);
    }
  }

  // ---------------------------------------------------------------------
  // Columns

  /** How many columns an item contributes when it compiles. */
  function Width(item: SelectItem): nat {
    if item.WildcardItem? then |IdentityColumns| else 1
  }

  function TotalWidth(items: seq<SelectItem>): nat {
    if |items| == 0 then 0 else Width(items[0]) + TotalWidth(items[1..])
  }

  /** Each unnamed or aliased item gives one column, each `*` gives four. */
  lemma {:induction false} ColumnsWidth(items: seq<SelectItem>, probe: string, catalog: Catalog)
    requires SelectColumns(items, probe, catalog).Success?
    ensures |SelectColumns(items, probe, catalog).value| == TotalWidth(items)
    decreases |items|
  {
    if |items| > 0 {
      ColumnsWidth(items[1..], probe, catalog);
    }
  }

  /** Projection order is kept: the columns of `a + b` are those of `a`
      followed by those of `b`, and the whole fails when either part does. */
  lemma {:induction false} ColumnsConcatenate(a: seq<SelectItem>, b: seq<SelectItem>, probe: string, catalog: Catalog)
    ensures SelectColumns(a + b, probe, catalog).Success?
            <==> SelectColumns(a, probe, catalog).Success? && SelectColumns(b, probe, catalog).Success?
    ensures SelectColumns(a + b, probe, catalog).Success? ==>
              SelectColumns(a + b, probe, catalog).value
              == SelectColumns(a, probe, catalog).value + SelectColumns(b, probe, catalog).value
    decreases |a|
  {
    if |a| == 0 {
      assert a + b == b;
    } else {
      assert (a + b)[0] == a[0];
      assert (a + b)[1..] == a[1..] + b;
      ColumnsConcatenate(a[1..], b, probe, catalog);
    }
  }

  /** The column header of a single-column item: the alias when there is
      one, else the expression's source text. */
  function ItemHeader(item: SelectItem): string
    requires item.UnnamedExpr? || item.ExprWithAlias?
  {
    if item.UnnamedExpr? then item.text else item.alias
  }

  /** Without wildcards, column `i` belongs to item `i`: its header is the
      item's alias or text and its output the item's translation. */
  lemma {:induction false} ColumnsOfExpressions(items: seq<SelectItem>, probe: string, catalog: Catalog)
    requires forall i :: 0 <= i < |items| ==> items[i].UnnamedExpr? || items[i].ExprWithAlias?
    requires SelectColumns(items, probe, catalog).Success?
    ensures |SelectColumns(items, probe, catalog).value| == |items|
    ensures forall i :: 0 <= i < |items| ==>
              && SelectColumns(items, probe, catalog).value[i].header == ItemHeader(items[i])
              && TranslateExpr(items[i].expr, probe, catalog) == Success(SelectColumns(items, probe, catalog).value[i].output)
    decreases |items|
  {
    if |items| > 0 {
      ColumnsOfExpressions(items[1..], probe, catalog);
      var cols := SelectColumns(items, probe, catalog).value;
      var rest := SelectColumns(items[1..], probe, catalog).value;
      assert cols == ItemColumns(items[0], probe, catalog).value + rest;
      forall i | 1 <= i < |items|
        ensures cols[i].header == ItemHeader(items[i])
        ensures TranslateExpr(items[i].expr, probe, catalog) == Success(cols[i].output)
      {
        assert items[i] == items[1..][i - 1];
      }
    }
  }

  /** A projection fails with the failure of its first failing item. */
  lemma {:induction false} ColumnsFailAtFirstBadItem(items: seq<SelectItem>, k: nat, probe: string, catalog: Catalog)
    requires k < |items|
    requires SelectColumns(items[..k], probe, catalog).Success?
    requires ItemColumns(items[k], probe, catalog).Failure?
    ensures SelectColumns(items, probe, catalog) == Failure(ItemColumns(items[k], probe, catalog).error)
    decreases k
  {
    if k > 0 {
      assert items[1..][..k - 1] == items[..k][1..];
      assert items[1..][k - 1] == items[k];
      ColumnsFailAtFirstBadItem(items[1..], k - 1, probe, catalog);
    }
  }

  // ---------------------------------------------------------------------
  // Whole queries

  /** A qualified wildcard `t.*` is rejected once the probe, the filter and
      every item before it have compiled. */
  lemma RejectsQualifiedWildcard(ast: seq<Statement>, catalog: Catalog, s: Select, k: nat)
    requires |ast| > 0 && ast[0] == Query(SelectBody(s))
    requires ProbeOf(s.from).Success?
    requires FilterOf(s.selection, ProbeOf(s.from).value, catalog).Success?
    requires k < |s.projection| && s.projection[k].QualifiedWildcardItem?
    requires SelectColumns(s.projection[..k], ProbeOf(s.from).value, catalog).Success?
    ensures Compile(ast, catalog) == Failure(Rejected("Expected an expression"))
  {
    ColumnsFailAtFirstBadItem(s.projection, k, ProbeOf(s.from).value, catalog);
    CompileFollowsPlan(ast, catalog, s);
  }

  /** The probe: `BEGIN` followed by `exit()` without a FROM, otherwise the
      first table's name with every `.` turned into `:` and no `exit()`. */
  lemma PlanProbe(s: Select, catalog: Catalog)
    requires PlanOf(s, catalog).Success?
    ensures var p := PlanOf(s, catalog).value.probe;
      && (|s.from| == 0 ==> p.target == "BEGIN" && p.body[|p.body| - 1] == Bpf.Exit)
      && (|s.from| > 0 ==> Bpf.Exit !in p.body)
      && (|s.from| > 0 ==> s.from[0].Table? && |p.target| == |s.from[0].name|)
      && (|s.from| > 0 ==> forall i :: 0 <= i < |p.target| ==>
            p.target[i] == (if s.from[0].name[i] == '.' then ':' else s.from[0].name[i]))
  {
    if |s.from| > 0 {
      ReplaceCharPointwise(s.from[0].name, '.', ':');
    }
  }

  /** A filter is attached exactly when there is a WHERE clause, and it is
      the clause's translation. */
  lemma PlanFilter(s: Select, catalog: Catalog)
    requires PlanOf(s, catalog).Success?
    ensures var p := PlanOf(s, catalog).value.probe;
      && (p.filter.Some? <==> s.selection.Some?)
      && (s.selection.Some? ==>
            p.filter.value == TranslateExpr(s.selection.value, p.target, catalog).value)
  {
  }

  /** The body counts the firing, binds column `i` to `$q1_<i>` for every
      header in order, prints one entry per header, and ends there unless
      the query has no FROM, in which case `exit()` follows. */
  lemma PlanBody(s: Select, catalog: Catalog)
    requires PlanOf(s, catalog).Success?
    ensures var plan := PlanOf(s, catalog).value;
      var outputs := OutputsOf(SelectColumns(s.projection, plan.probe.target, catalog).value);
      var n := |plan.headers|;
      var body := plan.probe.body;
      && |outputs| == n
      && |body| == n + 2 + (if |s.from| == 0 then 1 else 0)
      && body[0] == Bpf.CountFiring
      && (forall i :: 1 <= i <= n ==> body[i] == Bpf.Bind(i - 1, outputs[i - 1]))
      && body[n + 1] == Bpf.PrintRow(n)
      && (|s.from| == 0 ==> body[n + 2] == Bpf.Exit)
  {
    var plan := PlanOf(s, catalog).value;
    var cols := SelectColumns(s.projection, plan.probe.target, catalog).value;
    var outputs := OutputsOf(cols);
    var body := plan.probe.body;
    assert body == [Bpf.CountFiring] + Bpf.Bindings(outputs) + [Bpf.PrintRow(|outputs|)]
                   + (if |s.from| == 0 then [Bpf.Exit] else []);
    forall i | 1 <= i <= |outputs|
      ensures body[i] == Bpf.Bind(i - 1, outputs[i - 1])
    {
    }
  }

  /** With no columns the print statement prints the id entry alone, with
      no trailing comma. */
  lemma PrintWithoutColumns()
    ensures PrintText(0) == "print(((\"id\",@q1_id[\"id\"])));\n"
  {
    PrintTextRenders(0);
  }

  // ---------------------------------------------------------------------
  // Proof helpers: regrouping of string concatenations and the rendering
  // of a one-statement list. They state nothing about the compiler.

  lemma Associate(a: string, b: string, c: string)
    ensures a + b + c == a + (b + c)
  {
  }

  lemma Associate4(a: string, b: string, c: string, d: string)
    ensures a + b + c + d == a + (b + c + d)
  {
  }

  lemma RenderSingle(s: Bpf.Statement)
    ensures Bpf.RenderStatements([s]) == Bpf.RenderStatement(s)
  {
  }
}
