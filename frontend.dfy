/**
  `getFOLAST`: the text of a formula lexed and then parsed, and how it relates to
  `ASTtoString`, which prints a tree back without parentheses.
 */
module Frontend {
  import opened Results
  import opened Text
  import opened Formulas
  import opened Lexer
  import opened Parser

  /** `getFOLAST`: lex the characters, then parse the tokens; either step may throw. */
  function GetFolAst(s: string): (r: Result<Formula>)
    ensures r.Ok? ==> Lex(s).Ok? && Flatten(r.value) == Lex(s).value
  {
    match Lex(s)
    case Fail => Fail
    case Ok(ts) => Parse(ts)
  }

  /**
    The text of a formula is accepted exactly when every character is one the lexer takes and
    the tokens alternate atom and operator; the tree returned is the one chain of segments
    whose tokens are the text's.
   */
  lemma GetFolAstCharacterization(s: string, f: Formula)
    ensures Lex(s).Ok? <==> Lexable(s)
    ensures GetFolAst(s).Ok? <==> Lex(s).Ok? && WellFormed(Lex(s).value)
    ensures GetFolAst(s) == Ok(f) <==> Lex(s) == Ok(Flatten(f)) && Chain(f)
  {
    LexSucceedsIff(s);
    if Lex(s).Ok? {
      ParseSucceedsIff(Lex(s).value);
      ParseCharacterization(Lex(s).value, f);
    }
  }

  /** The text between two operands: the operator's text with a space on either side. */
  function Separator(t: Token): string {
    " " + TokenText(t) + " "
  }

  lemma {:induction false} UnlexJoin(a: seq<Token>, t: Token, b: seq<Token>)
    requires |a| > 0 && |b| > 0
    ensures Unlex(a + [t] + b) == Unlex(a) + Separator(t) + Unlex(b)
    decreases |a|
  {
    if |a| == 1 {
      UnlexJoinOne(a[0], t, b);
      assert a == [a[0]];
    } else {
      var a' := a[1..];
      assert a + [t] + b == [a[0]] + (a' + [t] + b);
      UnlexCons(a[0], a' + [t] + b);
      UnlexJoin(a', t, b);
      assert a == [a[0]] + a';
      UnlexCons(a[0], a');
      var x, y := TokenText(a[0]) + " ", Unlex(a');
      AppendAssoc(x, y, Separator(t));
      AppendAssoc(x, y + Separator(t), Unlex(b));
    }
  }

  lemma UnlexJoinOne(x: Token, t: Token, b: seq<Token>)
    requires |b| > 0
    ensures Unlex([x] + [t] + b) == Unlex([x]) + Separator(t) + Unlex(b)
  {
    UnlexCons(t, b);
    assert [x] + [t] + b == [x] + ([t] + b);
    UnlexCons(x, [t] + b);
    var p, q, r := TokenText(x), TokenText(t), Unlex(b);
    assert Unlex([x]) == p;
    calc {
      (p + " ") + ((q + " ") + r);
    == { AppendAssoc(q, " ", r); }
      (p + " ") + (q + (" " + r));
    == { AppendAssoc(p, " ", q + (" " + r)); AppendAssoc(" ", q, " " + r); }
      p + ((" " + q) + (" " + r));
    == { AppendAssoc(" " + q, " ", r); AppendAssoc(p, (" " + q) + " ", r); }
      (p + ((" " + q) + " ")) + r;
    }
  }

  /** `ASTtoString` prints the tree's tokens in order, separated by single spaces. */
  lemma {:induction false} RenderIsUnlex(f: Formula)
    ensures Render(f) == Unlex(Flatten(f))
  {
    match f
    case Id(_) =>
    case Const(_) =>
    case And(l, r) =>
      RenderIsUnlex(l);
      RenderIsUnlex(r);
      UnlexFormulas(l, AND, r);
      assert Separator(AND) == " and ";
    case Or(l, r) =>
      RenderIsUnlex(l);
      RenderIsUnlex(r);
      UnlexFormulas(l, OR, r);
      assert Separator(OR) == " or ";
    case Implies(l, r) =>
      RenderIsUnlex(l);
      RenderIsUnlex(r);
      UnlexFormulas(l, IMPLIES, r);
      assert Separator(IMPLIES) == " -> ";
  }

  lemma UnlexFormulas(l: Formula, t: Token, r: Formula)
    ensures Unlex(Flatten(l) + [t] + Flatten(r)) == Unlex(Flatten(l)) + Separator(t) + Unlex(Flatten(r))
  {
    FlattenWellFormed(l);
    FlattenWellFormed(r);
    UnlexJoin(Flatten(l), t, Flatten(r));
  }

  /** A tree has no NaN constant exactly when none of its tokens is a NaN numeral. */
  lemma {:induction false} NoNaNTokens(f: Formula)
    ensures NoNaN(f) <==> CONST(NaN) !in Flatten(f)
  {
    match f
    case Id(_) =>
    case Const(_) =>
    case And(l, r) =>
      NoNaNTokens(l);
      NoNaNTokens(r);
    case Or(l, r) =>
      NoNaNTokens(l);
      NoNaNTokens(r);
    case Implies(l, r) =>
      NoNaNTokens(l);
      NoNaNTokens(r);
  }

  /** Every token of `f` lexes back from its own text. */
  predicate PrintableTokens(f: Formula) {
    forall i :: 0 <= i < |Flatten(f)| ==> IsPrintable(Flatten(f)[i])
  }

  lemma LexRender(f: Formula)
    requires PrintableTokens(f)
    ensures Lex(Render(f)) == Ok(Flatten(f))
  {
    RenderIsUnlex(f);
    LexUnlex(Flatten(f));
  }

  /**
    Printing a tree and reading it back: the text always lexes to the tree's tokens and
    parses, but it gives back the same tree exactly when the tree is a chain of segments,
    since the printed text has no parentheses.
   */
  lemma RenderRoundTrip(f: Formula)
    requires PrintableTokens(f)
    ensures Lex(Render(f)) == Ok(Flatten(f))
    ensures GetFolAst(Render(f)).Ok?
    ensures GetFolAst(Render(f)) == Ok(f) <==> Chain(f)
  {
    LexRender(f);
    FlattenWellFormed(f);
    GetFolAstCharacterization(Render(f), f);
  }

  /**
    A tree read from text, if it has no NaN constant, is printed to a text that reads back
    to the same tree, equal under `ASTequals`.
   */
  lemma TextRoundTrip(s: string, t: Formula)
    requires GetFolAst(s) == Ok(t) && NoNaN(t)
    ensures GetFolAst(Render(t)) == Ok(t)
    ensures AstEquals(GetFolAst(Render(t)).value, t)
  {
    GetFolAstCharacterization(s, t);
    NoNaNTokens(t);
    var ts := Flatten(t);
    forall i | 0 <= i < |ts|
      ensures IsPrintable(ts[i])
    {
      assert ts[i] in ts;
    }
    RenderRoundTrip(t);
  }

  /**
    A printed chain of segments reads back to itself. The printed text `s` is passed separately
    so that a caller's literal tree is not printed and lexed character by character.
   */
  lemma ChainText(f: Formula, s: string)
    requires PrintableTokens(f) && Chain(f) && s == Render(f)
    ensures GetFolAst(s) == Ok(f)
  {
    RenderRoundTrip(f);
  }

  /** `A and (B or C)` prints as `A and B or C`, which reads back as `(A and B) or C`. */
  lemma RenderIsLossy()
    ensures var f := And(Id("A"), Or(Id("B"), Id("C")));
            GetFolAst(Render(f)) == Ok(Or(And(Id("A"), Id("B")), Id("C")))
  {
    ChainText(Or(And(Id("A"), Id("B")), Id("C")), Render(And(Id("A"), Or(Id("B"), Id("C")))));
  }

  /** The default goal of the application: `or` binds tighter than `->`. */
  lemma DefaultGoalExample()
    ensures GetFolAst("A or B -> A or B") == Ok(Implies(Or(Id("A"), Id("B")), Or(Id("A"), Id("B"))))
  {
    ChainText(Implies(Or(Id("A"), Id("B")), Or(Id("A"), Id("B"))), "A or B -> A or B");
  }

  /** A NaN constant prints as `NaN`, which reads back as a name, not as a constant. */
  lemma NaNReadsBackAsName()
    ensures GetFolAst(Render(Const(NaN))) == Ok(Id("NaN"))
  {
    assert Render(Const(NaN)) == "NaN";
    LexWordText("NaN");
    assert WordToken("NaN") == ID("NaN");
    ChainParses(Id("NaN"), [ID("NaN")]);
  }

  /** `A -> B -> C` nests to the right. */
  lemma ImpliesTextExample()
    ensures GetFolAst("A -> B -> C") == Ok(Implies(Id("A"), Implies(Id("B"), Id("C"))))
  {
    ChainText(Implies(Id("A"), Implies(Id("B"), Id("C"))), "A -> B -> C");
  }

  /** `A and B and C` nests to the left. */
  lemma AndTextExample()
    ensures GetFolAst("A and B and C") == Ok(And(And(Id("A"), Id("B")), Id("C")))
  {
    ChainText(And(And(Id("A"), Id("B")), Id("C")), "A and B and C");
  }

  /** `a1 and not b` lexes, but `not` has no place in the grammar, so parsing throws. */
  lemma NotIsRejectedByParser()
    ensures Lex("a1 and not b") == Ok([ID("a1"), AND, NOT, ID("b")])
    ensures GetFolAst("a1 and not b").Fail?
  {
    var ts := [ID("a1"), AND, NOT, ID("b")];
    assert Unlex(ts) == "a1 and not b";
    LexUnlex(ts);
    ParseSucceedsIff(ts);
  }
}
