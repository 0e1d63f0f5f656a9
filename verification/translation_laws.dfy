/** What the expression translator promises beyond its own contracts: how
    argument texts line up with the arguments, which parts of its input the
    output can depend on, and what a compound identifier resolves to. */
module TranslationLaws {
  import opened Wrappers
  import opened Strings
  import opened SqlAst
  import opened KernelSignature
  import opened Compiler

  /** The argument texts of a call are the arguments translated one by
      one, in order. */
  lemma {:induction false} ArgsTranslatePointwise(list: seq<FunctionArg>, probe: string, catalog: Catalog)
    requires TranslateArgs(list, probe, catalog).Success?
    ensures forall i :: 0 <= i < |list| ==>
              TranslateArg(list[i], probe, catalog) == Success(TranslateArgs(list, probe, catalog).value[i])
    decreases list
  {
    if |list| > 0 {
      ArgsTranslatePointwise(list[1..], probe, catalog);
      forall i | 1 <= i < |list|
        ensures TranslateArg(list[i], probe, catalog) == Success(TranslateArgs(list, probe, catalog).value[i])
      {
        assert list[i] == list[1..][i - 1];
      }
    }
  }

  // ---------------------------------------------------------------------
  // What the output depends on

  /** The compound identifiers occurring anywhere in `e`, call arguments
      included. */
  function CompoundsOf(e: Expr): set<seq<string>>
    decreases e
  {
    match e
    case BinaryOp(l, _, r) => CompoundsOf(l) + CompoundsOf(r)
    case Function(_, args) =>
      (match args
       case ArgumentList(list) => CompoundsOfArgs(list)
       case _ => {})
    case CompoundIdentifier(parts) => {parts}
    case _ => {}
  }

  function CompoundsOfArgs(list: seq<FunctionArg>): set<seq<string>>
    decreases list
  {
    if |list| == 0 then {} else CompoundsOfArg(list[0]) + CompoundsOfArgs(list[1..])
  }

  function CompoundsOfArg(a: FunctionArg): set<seq<string>>
    decreases a
  {
    match a.arg
    case ArgExpr(x) => CompoundsOf(x)
    case _ => {}
  }

  /** Two translation contexts that resolve the given compound identifiers
      alike. */
  predicate ResolveAlike(cs: set<seq<string>>, p1: string, c1: Catalog, p2: string, c2: Catalog) {
    forall parts :: parts in cs ==> ResolveCompound(parts, p1, c1) == ResolveCompound(parts, p2, c2)
  }

  /** The probe and the catalog reach the output only through the compound
      identifiers: contexts that resolve those alike translate alike. */
  lemma {:induction false} TranslationDependsOnlyOnCompounds(e: Expr, p1: string, c1: Catalog, p2: string, c2: Catalog)
    requires ResolveAlike(CompoundsOf(e), p1, c1, p2, c2)
    ensures TranslateExpr(e, p1, c1) == TranslateExpr(e, p2, c2)
    decreases e
  {
    match e
    case BinaryOp(l, _, r) =>
      TranslationDependsOnlyOnCompounds(l, p1, c1, p2, c2);
      TranslationDependsOnlyOnCompounds(r, p1, c1, p2, c2);
    case Function(_, args) =>
      if args.ArgumentList? {
        ArgsDependOnlyOnCompounds(args.list, p1, c1, p2, c2);
      }
    case CompoundIdentifier(parts) =>
      assert parts in CompoundsOf(e);
    case _ =>
  }

  lemma {:induction false} ArgsDependOnlyOnCompounds(list: seq<FunctionArg>, p1: string, c1: Catalog, p2: string, c2: Catalog)
    requires ResolveAlike(CompoundsOfArgs(list), p1, c1, p2, c2)
    ensures TranslateArgs(list, p1, c1) == TranslateArgs(list, p2, c2)
    decreases list
  {
    if |list| > 0 {
      ArgDependsOnlyOnCompounds(list[0], p1, c1, p2, c2);
      ArgsDependOnlyOnCompounds(list[1..], p1, c1, p2, c2);
    }
  }

  lemma {:induction false} ArgDependsOnlyOnCompounds(a: FunctionArg, p1: string, c1: Catalog, p2: string, c2: Catalog)
    requires ResolveAlike(CompoundsOfArg(a), p1, c1, p2, c2)
    ensures TranslateArg(a, p1, c1) == TranslateArg(a, p2, c2)
    decreases a
  {
    if a.arg.ArgExpr? {
      TranslationDependsOnlyOnCompounds(a.arg.expr, p1, c1, p2, c2);
    }
  }

  /** An expression without compound identifiers translates the same under
      every probe and catalog. */
  lemma TranslationWithoutCompounds(e: Expr, p1: string, c1: Catalog, p2: string, c2: Catalog)
    requires CompoundsOf(e) == {}
    ensures TranslateExpr(e, p1, c1) == TranslateExpr(e, p2, c2)
  {
    TranslationDependsOnlyOnCompounds(e, p1, c1, p2, c2);
  }

  /** The catalog is consulted only under a kprobe: under any other probe
      kind, two catalogs give the same translation. */
  lemma CatalogOnlyForKprobes(e: Expr, probe: string, c1: Catalog, c2: Catalog)
    requires ProbeKind(probe) != "kprobe"
    ensures TranslateExpr(e, probe, c1) == TranslateExpr(e, probe, c2)
  {
    TranslationDependsOnlyOnCompounds(e, probe, c1, probe, c2);
  }

  // ---------------------------------------------------------------------
  // Compound identifiers

  /** The kind and the traced function of a probe name
      `<kind>:<function>`, possibly followed by further `:`-separated parts. */
  lemma ProbeNameParts(kind: string, traced: string, tail: string)
    requires ':' !in kind && ':' !in traced
    requires |tail| == 0 || tail[0] == ':'
    ensures ProbeKind(kind + [':'] + traced + tail) == kind
    ensures ProbeFunction(kind + [':'] + traced + tail) == traced
  {
    assert kind + [':'] + traced + tail == kind + [':'] + (traced + tail);
    SplitAfterPiece(kind, ':', traced + tail);
    if |tail| == 0 {
      assert traced + tail == traced;
      SplitWithoutSeparator(traced, ':');
    } else {
      assert traced + tail == traced + [':'] + tail[1..];
      SplitAfterPiece(traced, ':', tail[1..]);
    }
  }

  /** `args.<name>` under a kprobe is the cast the traced function's
      catalog signature gives for parameter `<name>`. */
  lemma ResolveKprobeArgument(name: string, rest: seq<string>, probe: string, catalog: Catalog)
    requires ':' in probe && ProbeKind(probe) == "kprobe" && ProbeFunction(probe) in catalog
    ensures ResolveCompound(["args", name] + rest, probe, catalog)
            == Success(ArgumentCast(catalog[ProbeFunction(probe)], name))
  {
    SplitCountsSeparator(probe, ':');
    assert (["args", name] + rest)[0] == "args";
    assert (["args", name] + rest)[1] == name;
  }

  /** Any other compound identifier under a probe with a traced part is
      its parts joined by `.`. */
  lemma ResolveJoinsOtherwise(parts: seq<string>, probe: string, catalog: Catalog)
    requires ':' in probe && |parts| >= 1
    requires parts[0] != "args" || ProbeKind(probe) != "kprobe"
    ensures ResolveCompound(parts, probe, catalog) == Success(Join(parts, "."))
  {
    SplitCountsSeparator(probe, ':');
  }

  /** Under a probe without a `:` — `BEGIN` in particular — every compound
      identifier aborts. */
  lemma ResolveAbortsWithoutFunction(parts: seq<string>, probe: string, catalog: Catalog)
    requires ':' !in probe
    ensures ResolveCompound(parts, probe, catalog) == Failure(ProbeWithoutFunction(probe))
  {
    SplitCountsSeparator(probe, ':');
  }
}
