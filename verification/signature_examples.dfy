/** Worked cases of the argument resolution for the kind of signature the
    kernel catalog holds: pointer parameters `struct <kind> * <name>`,
    optionally led by `const`, such as the `vfs_open` signature sketched in
    the comment at src/bpftrace_compiler.rs:13. */
module SignatureExamples {
  import opened Strings
  import opened KernelSignature

  /** A word of a declaration: non-empty and without whitespace. */
  predicate PlainWord(w: string) {
    |w| > 0 && forall c :: c in w ==> !IsWhitespace(c)
  }

  /** The declaration `struct <kind> * <name>`, optionally after a space. */
  function PointerDecl(lead: string, kind: string, name: string): string {
    lead + "struct " + kind + " * " + name
  }

  lemma PointerDeclarationTokens(kind: string, name: string)
    requires PlainWord(kind) && PlainWord(name)
    ensures Split(PointerDecl("", kind, name), ' ') == ["struct", kind, "*", name]
  {
    var ts := ["struct", kind, "*", name];
    assert ts[3..] == [name] && ts[2..][1..] == ts[3..] && ts[1..][1..] == ts[2..];
    assert Join(ts[2..], " ") == "*" + " " + name;
    assert Join(ts[1..], " ") == kind + " " + ("*" + " " + name);
    assert Join(ts, " ") == PointerDecl("", kind, name);
    JoinSplit(ts, ' ');
  }

  lemma PointerDeclarationTrimmed(lead: string, kind: string, name: string)
    requires lead == "" || lead == " "
    requires PlainWord(kind) && PlainWord(name)
    ensures Trim(PointerDecl(lead, kind, name)) == PointerDecl("", kind, name)
  {
    var t := PointerDecl("", kind, name);
    assert TrimStart(t) == t;
    if lead == " " {
      assert PointerDecl(lead, kind, name) == [' '] + t;
    }
    assert TrimEnd(t) == t by {
      assert t[|t| - 1] == name[|name| - 1];
      assert name[|name| - 1] in name;
    }
  }

  lemma PointerDeclarationSplit(lead: string, kind: string, name: string)
    requires lead == "" || lead == " "
    requires PlainWord(kind) && PlainWord(name)
    ensures Tokens(PointerDecl(lead, kind, name)) == ["struct", kind, "*", name]
  {
    PointerDeclarationTrimmed(lead, kind, name);
    PointerDeclarationTokens(kind, name);
  }

  /** A four-token declaration declares its last token, typed by the first three. */
  lemma FourTokenDeclaration(p: string, ts: seq<string>)
    requires |ts| == 4 && Tokens(p) == ts
    ensures Declare(p) == Declaration(ts[0] + " " + ts[1] + " " + ts[2], ts[3])
  {
    assert ts[..3][2..] == [ts[2]];
    assert Join(ts[..3][1..], " ") == ts[1] + " " + ts[2];
  }

  /** `struct <kind> * <name>` declares `<name>` of type `struct <kind> *`. */
  lemma PointerDeclaration(lead: string, kind: string, name: string)
    requires lead == "" || lead == " "
    requires PlainWord(kind) && PlainWord(name)
    ensures Declare(PointerDecl(lead, kind, name)) == Declaration("struct " + kind + " *", name)
  {
    PointerDeclarationSplit(lead, kind, name);
    FourTokenDeclaration(PointerDecl(lead, kind, name), ["struct", kind, "*", name]);
    PointerTypeText(kind);
  }

  /** The type tokens `struct`, `<kind>`, `*` joined by spaces. */
  lemma PointerTypeText(kind: string)
    ensures "struct" + " " + kind + " " + "*" == "struct " + kind + " *"
  {
    assert "struct" + " " == "struct ";
    assert " " + "*" == " *";
    assert "struct" + " " + kind + " " + "*" == ("struct" + " ") + kind + (" " + "*");
  }

  /** Two pointer parameters as the catalog writes them: the first led by
      `const`, commas without spaces. */
  function ConstLedPair(kind1: string, name1: string, kind2: string, name2: string): string {
    "(const" + PointerDecl(" ", kind1, name1) + "," + PointerDecl("", kind2, name2) + ")"
  }

  /** A word that can sit in a signature: plain, and free of the
      characters the cleaning and the split act on. */
  predicate SignatureWord(w: string) {
    PlainWord(w) && '(' !in w && ')' !in w && ',' !in w
  }

  /** `(const struct <k1> * <n1>,struct <k2> * <n2>)`, with `const`
      nowhere else, declares `<n1>` of type `struct <k1> *` and `<n2>` of
      type `struct <k2> *`, in that order. */
  lemma ConstLedPairDeclarations(kind1: string, name1: string, kind2: string, name2: string)
    requires SignatureWord(kind1) && SignatureWord(name1) && SignatureWord(kind2) && SignatureWord(name2)
    requires var inner := PointerDecl(" ", kind1, name1) + "," + PointerDecl("", kind2, name2);
      forall k :: 0 <= k <= |inner| ==> !("const" <= inner[k..])
    ensures Declarations(ConstLedPair(kind1, name1, kind2, name2))
            == [Declaration("struct " + kind1 + " *", name1), Declaration("struct " + kind2 + " *", name2)]
  {
    var sig := ConstLedPair(kind1, name1, kind2, name2);
    var p1 := PointerDecl(" ", kind1, name1);
    var p2 := PointerDecl("", kind2, name2);
    var inner := p1 + "," + p2;
    PointerDeclAvoids(" ", kind1, name1);
    PointerDeclAvoids("", kind2, name2);
    assert sig == "(const" + inner + ")";
    CleanConstLed(inner);
    PairParameters(sig, p1, p2);
    PairDeclarations(sig, p1, p2);
    PointerDeclaration(" ", kind1, name1);
    PointerDeclaration("", kind2, name2);
  }

  /** A signature that cleans to two comma-free pieces has those two
      pieces as parameters. */
  lemma PairParameters(sig: string, p1: string, p2: string)
    requires Clean(sig) == p1 + "," + p2 && ',' !in p1 && ',' !in p2
    ensures Parameters(sig) == [p1, p2]
  {
    SplitAfterPiece(p1, ',', p2);
    SplitWithoutSeparator(p2, ',');
  }

  /** Two parameters give two declarations, in order. */
  lemma PairDeclarations(sig: string, p1: string, p2: string)
    requires Parameters(sig) == [p1, p2]
    ensures Declarations(sig) == [Declare(p1), Declare(p2)]
  {
  }

  /** A pointer declaration built from signature words holds no
      parenthesis and no comma. */
  lemma PointerDeclAvoids(lead: string, kind: string, name: string)
    requires lead == "" || lead == " "
    requires SignatureWord(kind) && SignatureWord(name)
    ensures var p := PointerDecl(lead, kind, name); '(' !in p && ')' !in p && ',' !in p
  {
  }

  /** In such a signature the second parameter is read through `arg1`,
      the first through `arg0`, and any other name falls back to
      `(()arg0)`. */
  lemma ConstLedPairCasts(kind1: string, name1: string, kind2: string, name2: string, other: string)
    requires SignatureWord(kind1) && SignatureWord(name1) && SignatureWord(kind2) && SignatureWord(name2)
    requires var inner := PointerDecl(" ", kind1, name1) + "," + PointerDecl("", kind2, name2);
      forall k :: 0 <= k <= |inner| ==> !("const" <= inner[k..])
    requires name1 != name2 && other != name1 && other != name2
    ensures ArgumentCast(ConstLedPair(kind1, name1, kind2, name2), name1) == "((struct " + kind1 + " *)arg0)"
    ensures ArgumentCast(ConstLedPair(kind1, name1, kind2, name2), name2) == "((struct " + kind2 + " *)arg1)"
    ensures ArgumentCast(ConstLedPair(kind1, name1, kind2, name2), other) == "(()arg0)"
  {
    var sig := ConstLedPair(kind1, name1, kind2, name2);
    var ds := [Declaration("struct " + kind1 + " *", name1), Declaration("struct " + kind2 + " *", name2)];
    assert Declarations(sig) == ds by {
      ConstLedPairDeclarations(kind1, name1, kind2, name2);
    }
    assert ArgumentCast(sig, name1) == CastFor(ds, name1);
    assert ArgumentCast(sig, name2) == CastFor(ds, name2);
    assert ArgumentCast(sig, other) == CastFor(ds, other);
    CastsOfTwo(ds[0], ds[1], name1, name2, other);
    CastShape(kind1);
    CastShape(kind2);
  }

  /** The catalog signature of `vfs_open` is such a pair. The comment at
      src/bpftrace_compiler.rs:13 sketches it with a second opening
      parenthesis; the count does not matter, since the cleaning deletes
      every parenthesis. */
  lemma VfsOpenSignature()
    ensures ConstLedPair("path", "path", "file", "file") == "(const struct path * path,struct file * file)"
  {
  }

  /** The casts of `vfs_open`'s parameters, on the pair form. */
  lemma VfsOpenPairCasts()
    ensures ArgumentCast(ConstLedPair("path", "path", "file", "file"), "file") == "((struct file *)arg1)"
    ensures ArgumentCast(ConstLedPair("path", "path", "file", "file"), "mode") == "(()arg0)"
  {
    assert SignatureWord("path") && SignatureWord("file");
    var inner := PointerDecl(" ", "path", "path") + "," + PointerDecl("", "file", "file");
    assert 'o' !in inner;
    PatternNeedsItsChars(inner, "const", 'o');
    ConstLedPairCasts("path", "path", "file", "file", "mode");
    FileCastLiteral();
  }

  /** `args.file` of `vfs_open` becomes `((struct file *)arg1)`. */
  lemma VfsOpenFile()
    ensures ArgumentCast("(const struct path * path,struct file * file)", "file") == "((struct file *)arg1)"
  {
    VfsOpenSignature();
    VfsOpenPairCasts();
  }

  /** A parameter name the `vfs_open` signature lacks falls back to
      `(()arg0)`. */
  lemma VfsOpenUnknown()
    ensures ArgumentCast("(const struct path * path,struct file * file)", "mode") == "(()arg0)"
  {
    VfsOpenSignature();
    VfsOpenPairCasts();
  }

  /** The cast text for `file` at position 1, spelled out. */
  lemma FileCastLiteral()
    ensures "((struct " + "file" + " *)arg1)" == "((struct file *)arg1)"
  {
  }

  /** Among two declarations with different names, each name picks its
      own position and any third name picks none. */
  lemma CastsOfTwo(d0: Declaration, d1: Declaration, name0: string, name1: string, other: string)
    requires d0.name == name0 && d1.name == name1 && name0 != name1
    requires other != name0 && other != name1
    ensures CastFor([d0, d1], name0) == "((" + d0.ty + ")arg" + "0" + ")"
    ensures CastFor([d0, d1], name1) == "((" + d1.ty + ")arg" + "1" + ")"
    ensures CastFor([d0, d1], other) == "(()arg0)"
  {
    assert NatToString(0) == "0" && NatToString(1) == "1";
  }

  /** The cast texts of a `struct <kind> *` parameter at positions 0 and 1. */
  lemma CastShape(kind: string)
    ensures "((" + ("struct " + kind + " *") + ")arg" + "0" + ")" == "((struct " + kind + " *)arg0)"
    ensures "((" + ("struct " + kind + " *") + ")arg" + "1" + ")" == "((struct " + kind + " *)arg1)"
  {
  }
}
