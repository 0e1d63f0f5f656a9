/** The string-processing half of `get_struct_for_arg`: given the signature
    text the kernel-definition catalog stores for a function, e.g.
    `(const struct path * path,struct file * file)`, find the parameter
    called `arg` and render the cast bpftrace needs to read it,
    `((<type>)arg<index>)`. The catalog lookup itself is a parameter of the
    compiler (see `Compiler.Catalog`). */
module KernelSignature {
  import opened Wrappers
  import opened Strings

  /** The signature with every `(`, then every `)`, then every `const`
      deleted. */
  function Clean(sig: string): string {
    ReplaceAll(ReplaceAll(ReplaceAll(sig, "(", ""), ")", ""), "const", "")
  }

  /** The parameter declarations: the cleaned signature cut at each comma. */
  function Parameters(sig: string): seq<string> {
    Split(Clean(sig), ',')
  }

  /** The space-separated tokens of one trimmed declaration. */
  function Tokens(param: string): (ts: seq<string>)
    ensures |ts| >= 1
  {
    Split(Trim(param), ' ')
  }

  /** What one declaration declares: its last token is the name, every token
      before it, joined by single spaces, is the type. */
  datatype Declaration = Declaration(ty: string, name: string)

  function Declare(param: string): Declaration {
    var ts := Tokens(param);
    Declaration(Join(ts[..|ts| - 1], " "), ts[|ts| - 1])
  }

  /** The declarations of a catalog signature, in parameter order. */
  function Declarations(sig: string): (ds: seq<Declaration>)
    ensures |ds| == |Parameters(sig)|
    ensures forall i :: 0 <= i < |ds| ==> ds[i] == Declare(Parameters(sig)[i])
  {
    var ps := Parameters(sig);
    seq(|ps|, i requires 0 <= i < |ps| => Declare(ps[i]))
  }

  /** The scan of the `for … break` loop: the first position at or after
      `from` whose declaration declares `arg`. */
  function FindParameter(ds: seq<Declaration>, arg: string, from: nat): (r: Option<nat>)
    requires from <= |ds|
    ensures r.Some? ==> from <= r.value < |ds| && ds[r.value].name == arg
    ensures r.Some? ==> forall j :: from <= j < r.value ==> ds[j].name != arg
    ensures r.None? <==> forall j :: from <= j < |ds| ==> ds[j].name != arg
    decreases |ds| - from
  {
    if from == |ds| then None
    else if ds[from].name == arg then Some(from)
    else FindParameter(ds, arg, from + 1)
  }

  /** The cast for parameter `arg` among declarations `ds`: the type and
      position of the FIRST declaration whose name is `arg`, or `(()arg0)`
      when none matches (the loop's initial values survive). */
  function CastFor(ds: seq<Declaration>, arg: string): (r: string)
    ensures forall i :: 0 <= i < |ds| && ds[i].name == arg && (forall j :: 0 <= j < i ==> ds[j].name != arg)
              ==> r == "((" + ds[i].ty + ")arg" + NatToString(i) + ")"
    ensures (forall j :: 0 <= j < |ds| ==> ds[j].name != arg) ==> r == "(()arg0)"
  {
    match FindParameter(ds, arg, 0)
    case Some(i) => "((" + ds[i].ty + ")arg" + NatToString(i) + ")"
    case None => "(()arg0)"
  }

  /** The text `get_struct_for_arg` returns for a signature already
      fetched: among the pieces of the cleaned signature, the first one whose
      last token is `arg` gives the type (its other tokens) and the index. */
  function ArgumentCast(sig: string, arg: string): (r: string)
    ensures var ps := Parameters(sig);
      forall i :: 0 <= i < |ps| && Declare(ps[i]).name == arg
                  && (forall j :: 0 <= j < i ==> Declare(ps[j]).name != arg)
        ==> r == "((" + Declare(ps[i]).ty + ")arg" + NatToString(i) + ")"
    ensures var ps := Parameters(sig);
      (forall j :: 0 <= j < |ps| ==> Declare(ps[j]).name != arg) ==> r == "(()arg0)"
  {
    CastFor(Declarations(sig), arg)
  }

  /** The cleaned signature holds no parenthesis: deleting `const` after
      the parentheses cannot bring one back. */
  lemma CleanRemovesParentheses(sig: string)
    ensures '(' !in Clean(sig) && ')' !in Clean(sig)
  {
    var a := ReplaceAll(sig, "(", "");
    var b := ReplaceAll(a, ")", "");
    RemoveCharKeepsOthers(sig, '(');
    RemoveCharKeepsOthers(a, ')');
    assert '(' !in b by {
      DeleteIntroducesNothing(a, ")");
    }
    DeleteIntroducesNothing(b, "const");
  }

  /** A parenthesised text without parentheses inside or `const` anywhere
      cleans to its inside. */
  lemma CleanBracketed(inner: string)
    requires '(' !in inner && ')' !in inner
    requires forall k :: 0 <= k <= |inner| ==> !("const" <= inner[k..])
    ensures Clean("(" + inner + ")") == inner
  {
    assert "(" + inner + ")" == "(" + (inner + ")");
    ReplaceCharDistributes("(", inner + ")", '(', "");
    ReplaceCharDistributes(inner, ")", '(', "");
    ReplaceMissingCharIsIdentity(inner, "(", "", '(');
    assert ReplaceAll("(", "(", "") == "";
    assert ReplaceAll(")", "(", "") == ")";
    assert "" + (inner + ")") == inner + ")";
    ReplaceCharDistributes(inner, ")", ')', "");
    ReplaceMissingCharIsIdentity(inner, ")", "", ')');
    assert ReplaceAll(")", ")", "") == "";
    assert inner + "" == inner;
    ReplaceAbsentIsIdentity(inner, "const", "");
  }

  /** The same with a leading `const` right after the opening parenthesis:
      the `const` is deleted with the parentheses. */
  lemma CleanConstLed(inner: string)
    requires '(' !in inner && ')' !in inner
    requires forall k :: 0 <= k <= |inner| ==> !("const" <= inner[k..])
    ensures Clean("(const" + inner + ")") == inner
  {
    var body := "const" + inner;
    assert "(const" + inner + ")" == "(" + (body + ")");
    ReplaceCharDistributes("(", body + ")", '(', "");
    ReplaceMissingCharIsIdentity(body + ")", "(", "", '(');
    assert ReplaceAll("(", "(", "") == "";
    assert "" + (body + ")") == body + ")";
    ReplaceCharDistributes(body, ")", ')', "");
    ReplaceMissingCharIsIdentity(body, ")", "", ')');
    assert ReplaceAll(")", ")", "") == "";
    assert body + "" == body;
    assert "const" <= body && body[5..] == inner;
    ReplaceAbsentIsIdentity(inner, "const", "");
  }

  /** A signature written as its parameter texts joined by commas inside
      parentheses has exactly one declaration per parameter text, in
      order: the cleaning and the split recover the parameters. */
  lemma SignatureDeclarations(ps: seq<string>)
    requires |ps| >= 1
    requires forall i :: 0 <= i < |ps| ==> '(' !in ps[i] && ')' !in ps[i] && ',' !in ps[i]
    requires forall k :: 0 <= k <= |Join(ps, ",")| ==> !("const" <= Join(ps, ",")[k..])
    ensures |Declarations("(" + Join(ps, ",") + ")")| == |ps|
    ensures forall i :: 0 <= i < |ps| ==> Declarations("(" + Join(ps, ",") + ")")[i] == Declare(ps[i])
  {
    var inner := Join(ps, ",");
    JoinAvoids(ps, ",", '(');
    JoinAvoids(ps, ",", ')');
    CleanBracketed(inner);
    JoinSplit(ps, ',');
  }
}
