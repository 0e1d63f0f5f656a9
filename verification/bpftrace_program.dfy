/** The fragment of the bpftrace language a compiled query uses, as a small
    structured program: one probe with an optional filter and a body of four
    kinds of statements. `Render` is its concrete syntax; the compiler is
    proved to emit exactly `Render` of the program `QueryProbe` describes. */
module BpftraceProgram {
  import opened Wrappers
  import opened Strings

  datatype Statement =
    /** `@q1_id["id"] = count();` — bumps the per-probe firing counter. */
    | CountFiring
    /** `$q1_<index> = <value>;` — binds one projected column. */
    | Bind(index: nat, value: string)
    /** `print((("id",@q1_id["id"]),(0,$q1_0),…));` over `columns` columns. */
    | PrintRow(columns: nat)
    /** `exit();` */
    | Exit

  datatype Probe = Probe(target: string, filter: Option<string>, body: seq<Statement>)

  /** The id entry of the printed tuple, keyed by the string `"id"`. */
  const IdEntry: string := "(\"id\",@q1_id[\"id\"])"

  /** The entry of column `i`, keyed by its position. */
  function Entry(i: nat): string {
    "(" + NatToString(i) + ",$q1_" + NatToString(i) + ")"
  }

  /** The keys of a printed row: `IdEntry` followed by one entry per column. */
  function RowEntries(columns: nat): (es: seq<string>)
    ensures |es| == columns + 1 && es[0] == IdEntry
    ensures forall i :: 0 <= i < columns ==> es[i + 1] == Entry(i)
  {
    [IdEntry] + seq(columns, i requires 0 <= i => Entry(i))
  }

  function RenderStatement(s: Statement): string {
    match s
    case CountFiring => "@q1_id[\"id\"] = count();\n"
    case Bind(i, v) => "$q1_" + NatToString(i) + " = " + v + ";\n"
    case PrintRow(n) => "print((" + Join(RowEntries(n), ",") + "));\n"
    case Exit => "exit();\n"
  }

  function RenderStatements(ss: seq<Statement>): string {
    if |ss| == 0 then "" else RenderStatement(ss[0]) + RenderStatements(ss[1..])
  }

  function RenderFilter(filter: Option<string>): string {
    match filter
    case Some(f) => " /" + f + "/ "
    case None => ""
  }

  /** Concrete syntax: the probe line, the optional filter, then the body. */
  function Render(p: Probe): string {
    p.target + RenderFilter(p.filter) + "\n {\n" + RenderStatements(p.body) + " }"
  }

  /** One binding per output expression, in order and numbered from 0. */
  function Bindings(outputs: seq<string>): (bs: seq<Statement>)
    ensures |bs| == |outputs|
    ensures forall i :: 0 <= i < |bs| ==> bs[i] == Bind(i, outputs[i])
  {
    seq(|outputs|, i requires 0 <= i < |outputs| => Bind(i, outputs[i]))
  }

  /** The body of a compiled query: count the firing, bind every column,
      print the row, and stop after one firing for a one-shot query. */
  function QueryBody(outputs: seq<string>, oneShot: bool): seq<Statement> {
    [CountFiring] + Bindings(outputs) + [PrintRow(|outputs|)] + (if oneShot then [Exit] else [])
  }

  lemma RenderStatementsAppend(a: seq<Statement>, b: seq<Statement>)
    ensures RenderStatements(a + b) == RenderStatements(a) + RenderStatements(b)
    decreases |a|
  {
    if |a| > 0 {
      assert (a + b)[1..] == a[1..] + b;
      RenderStatementsAppend(a[1..], b);
    } else {
      assert a + b == b;
    }
  }
}
