/**
  The parser (`parseFOL` with `parseSimple` and the precedence climber `parsePrec`).
  The source shifts tokens off an array and pushes one back with a spread; here each function
  takes the remaining tokens and returns the unconsumed suffix.
 */
module Parser {
  import opened Results
  import opened Text
  import opened Formulas
  import opened Lexer

  predicate IsAtomToken(t: Token) { t.ID? || t.CONST? }

  predicate IsBinaryOp(t: Token) { t.AND? || t.OR? || t.IMPLIES? }

  /** The tokens of `f` in order: its in-order traversal. */
  function Flatten(f: Formula): seq<Token> {
    match f
    case And(l, r) => Flatten(l) + [AND] + Flatten(r)
    case Or(l, r) => Flatten(l) + [OR] + Flatten(r)
    case Implies(l, r) => Flatten(l) + [IMPLIES] + Flatten(r)
    case Id(name) => [ID(name)]
    case Const(v) => [CONST(v)]
  }

  /** `parseSimple`: an atom token becomes an atom; anything else, or no token, throws. */
  function ParseSimple(ts: seq<Token>): (r: Result<(Formula, seq<Token>)>)
    ensures r.Ok? <==> |ts| > 0 && IsAtomToken(ts[0])
    ensures r.Ok? ==> IsAtom(r.value.0) && Flatten(r.value.0) == [ts[0]] && r.value.1 == ts[1..]
  {
    if |ts| == 0 then Fail
    else
      var tkn := ts[0];
      if tkn.CONST? then Ok((Const(tkn.value), ts[1..]))
      else if tkn.ID? then Ok((Id(tkn.name), ts[1..]))
      else Fail
  }

  /** Left binding power: 10 for `and` and `or`, 5 for `->`. */
  function LeftPower(t: Token): (lp: int)
    requires IsBinaryOp(t)
    ensures 0 < lp <= 10
    ensures lp < 10 <==> t.IMPLIES?
  {
    if t.IMPLIES? then 5 else 10
  }

  /** Right binding power: 11 for `and` and `or`, 4 for `->`. */
  function RightPower(t: Token): (rp: int)
    requires IsBinaryOp(t)
    ensures forall u :: IsBinaryOp(u) ==> (LeftPower(u) < rp <==> !t.IMPLIES?)
  {
    if t.IMPLIES? then 4 else 11
  }

  /** The node `{ type: kind, left, right }` for operator token `t`. */
  function Combine(t: Token, left: Formula, right: Formula): (f: Formula)
    requires IsBinaryOp(t)
    ensures Flatten(f) == Flatten(left) + [t] + Flatten(right)
  {
    if t.AND? then And(left, right)
    else if t.OR? then Or(left, right)
    else Implies(left, right)
  }

  /**
    `parsePrec`: extends `node` with operators of left binding power at least `p`. It returns
    no more tokens than it was given and stops only before an operator that binds less than `p`, a token that is
    not an operator, or the end.
   */
  function ParsePrec(p: int, node: Formula, ts: seq<Token>): (r: Result<(Formula, seq<Token>)>)
    ensures r.Ok? ==> |r.value.1| <= |ts|
    ensures r.Ok? ==> r.value.1 == [] || !IsBinaryOp(r.value.1[0]) || LeftPower(r.value.1[0]) < p
    decreases |ts|
  {
    if |ts| == 0 then Ok((node, ts))
    else
      var tkn := ts[0];
      if !IsBinaryOp(tkn) then Ok((node, ts))
      else if LeftPower(tkn) < p then Ok((node, ts))
      else
        match ParseSimple(ts[1..])
        case Fail => Fail
        case Ok((atom, ts1)) =>
          match ParsePrec(RightPower(tkn), atom, ts1)
          case Fail => Fail
          case Ok((nodeR, ts2)) =>
            ParsePrec(p, Combine(tkn, node, nodeR), ts2)
  }

  /** `parseFOL`: an atom, then operators at power 0, and no token left over. */
  function Parse(ts: seq<Token>): (r: Result<Formula>)
    ensures r.Ok? ==> Flatten(r.value) == ts
  {
    match ParseSimple(ts)
    case Fail => Fail
    case Ok((first, ts1)) =>
      match ParsePrec(0, first, ts1)
      case Fail => Fail
      case Ok((n, tsp)) =>
        if |tsp| != 0 then Fail else
          assert Flatten(n) == ts by {
            PrecFlatten(0, first, ts1, n, tsp);
            assert Flatten(n) + tsp == Flatten(n);
            assert ts == [ts[0]] + ts1;
          }
          Ok(n)
  }

  /** One step of `parsePrec` that consumes an operator and the atom after it. */
  lemma PrecStep(p: int, node: Formula, ts: seq<Token>)
    requires |ts| >= 2 && IsBinaryOp(ts[0]) && LeftPower(ts[0]) >= p && IsAtomToken(ts[1])
    ensures var atom := ParseSimple(ts[1..]).value.0;
            var inner := ParsePrec(RightPower(ts[0]), atom, ts[2..]);
            ParsePrec(p, node, ts) ==
              if inner.Fail? then Fail else ParsePrec(p, Combine(ts[0], node, inner.value.0), inner.value.1)
  {
    assert ts[1..][1..] == ts[2..];
  }

  /** `parsePrec` consumes exactly the tokens it adds to the tree, in order. */
  lemma {:induction false} PrecFlatten(p: int, node: Formula, ts: seq<Token>, t: Formula, rest: seq<Token>)
    requires ParsePrec(p, node, ts) == Ok((t, rest))
    ensures Flatten(t) + rest == Flatten(node) + ts
    decreases |ts|
  {
    if |ts| == 0 || !IsBinaryOp(ts[0]) || LeftPower(ts[0]) < p {
      return;
    }
    var tkn := ts[0];
    var atom := ParseSimple(ts[1..]).value.0;
    var ts1 := ts[2..];
    PrecStep(p, node, ts);
    var inner := ParsePrec(RightPower(tkn), atom, ts1);
    var nodeR, ts2 := inner.value.0, inner.value.1;
    PrecFlatten(RightPower(tkn), atom, ts1, nodeR, ts2);
    PrecFlatten(p, Combine(tkn, node, nodeR), ts2, t, rest);
    assert [ts[1]] + ts1 == ts[1..];
    CombineFlatten(node, nodeR, ts2, ts);
  }

  /** Joining `node` and `nodeR` by the operator `ts[0]`, where `nodeR` and `rest` are the rest of `ts`. */
  lemma CombineFlatten(node: Formula, nodeR: Formula, rest: seq<Token>, ts: seq<Token>)
    requires |ts| > 0 && IsBinaryOp(ts[0])
    requires Flatten(nodeR) + rest == ts[1..]
    ensures Flatten(Combine(ts[0], node, nodeR)) + rest == Flatten(node) + ts
  {
    assert ts == [ts[0]] + ts[1..];
    AppendAssoc(Flatten(node) + [ts[0]], Flatten(nodeR), rest);
    AppendAssoc(Flatten(node), [ts[0]], ts[1..]);
  }

  /** Operator–atom pairs: what may follow the first atom of a formula's tokens. */
  predicate OpAtoms(ts: seq<Token>)
    decreases |ts|
  {
    |ts| == 0 || (|ts| >= 2 && IsBinaryOp(ts[0]) && IsAtomToken(ts[1]) && OpAtoms(ts[2..]))
  }

  /** Tokens that alternate atom, operator, atom, ..., atom. */
  predicate WellFormed(ts: seq<Token>) {
    |ts| > 0 && IsAtomToken(ts[0]) && OpAtoms(ts[1..])
  }

  predicate StartsWithOp(ts: seq<Token>) {
    |ts| > 0 && IsBinaryOp(ts[0])
  }

  lemma {:induction false} OpAtomsAppend(a: seq<Token>, b: seq<Token>)
    requires OpAtoms(a) && OpAtoms(b)
    ensures OpAtoms(a + b)
    decreases |a|
  {
    if |a| == 0 {
      assert a + b == b;
    } else {
      OpAtomsAppend(a[2..], b);
      assert (a + b)[0] == a[0] && (a + b)[1] == a[1];
      assert (a + b)[2..] == a[2..] + b;
    }
  }

  /** The tokens of every formula alternate atom and operator. */
  lemma {:induction false} FlattenWellFormed(f: Formula)
    ensures WellFormed(Flatten(f))
  {
    match f
    case Id(_) =>
    case Const(_) =>
    case And(l, r) =>
      FlattenWellFormed(l);
      FlattenWellFormed(r);
      WellFormedJoin(Flatten(l), AND, Flatten(r));
    case Or(l, r) =>
      FlattenWellFormed(l);
      FlattenWellFormed(r);
      WellFormedJoin(Flatten(l), OR, Flatten(r));
    case Implies(l, r) =>
      FlattenWellFormed(l);
      FlattenWellFormed(r);
      WellFormedJoin(Flatten(l), IMPLIES, Flatten(r));
  }

  lemma WellFormedJoin(a: seq<Token>, t: Token, b: seq<Token>)
    requires WellFormed(a) && IsBinaryOp(t) && WellFormed(b)
    ensures WellFormed(a + [t] + b)
  {
    var pair := [t] + b;
    assert pair[2..] == b[1..];
    assert OpAtoms(pair);
    OpAtomsAppend(a[1..], pair);
    assert (a + [t] + b)[1..] == a[1..] + pair;
  }

  /** Above the highest binding power `parsePrec` consumes nothing. */
  lemma PrecHigh(p: int, node: Formula, ts: seq<Token>)
    requires p > 10
    ensures ParsePrec(p, node, ts) == Ok((node, ts))
  {
  }

  /** On operator–atom pairs `parsePrec` never throws, and it leaves operator–atom pairs. */
  lemma {:induction false} PrecTotal(p: int, node: Formula, ts: seq<Token>)
    requires OpAtoms(ts)
    ensures ParsePrec(p, node, ts).Ok? && OpAtoms(ParsePrec(p, node, ts).value.1)
    decreases |ts|
  {
    if |ts| == 0 || LeftPower(ts[0]) < p {
      return;
    }
    var tkn := ts[0];
    var atom := ParseSimple(ts[1..]).value.0;
    PrecStep(p, node, ts);
    PrecTotal(RightPower(tkn), atom, ts[2..]);
    var inner := ParsePrec(RightPower(tkn), atom, ts[2..]);
    PrecTotal(p, Combine(tkn, node, inner.value.0), inner.value.1);
  }

  /** `parseFOL` succeeds exactly on alternating atoms and operators. */
  lemma ParseSucceedsIff(ts: seq<Token>)
    ensures Parse(ts).Ok? <==> WellFormed(ts)
  {
    if Parse(ts).Ok? {
      FlattenWellFormed(Parse(ts).value);
    }
    if WellFormed(ts) {
      PrecTotal(0, ParseSimple(ts).value.0, ts[1..]);
    }
  }

  /**
    A left-nested run of `and`/`or` over atoms, as operators of equal binding power
    associate to the left: `A and B or C` is `Or(And(A, B), C)`.
   */
  predicate Seg(f: Formula) {
    match f
    case And(l, r) => Seg(l) && IsAtom(r)
    case Or(l, r) => Seg(l) && IsAtom(r)
    case Implies(_, _) => false
    case Id(_) => true
    case Const(_) => true
  }

  /**
    The trees `parseFOL` builds: segments joined by `->`, nested to the right, as `->` binds
    less than `and` and `or` and associates to the right: `A -> B -> C` is
    `Implies(A, Implies(B, C))`.
   */
  predicate Chain(f: Formula) {
    match f
    case Implies(l, r) => Seg(l) && Chain(r)
    case _ => Seg(f)
  }

  /** The shape of `parsePrec`'s result at the powers it is called with below `and`/`or`. */
  lemma {:induction false} PrecShape(p: int, node: Formula, ts: seq<Token>, t: Formula, rest: seq<Token>)
    requires p <= 5
    requires Seg(node) || (Chain(node) && !StartsWithOp(ts))
    requires ParsePrec(p, node, ts) == Ok((t, rest))
    ensures Chain(t) && !StartsWithOp(rest)
    decreases |ts|
  {
    if !StartsWithOp(ts) {
      return;
    }
    var tkn := ts[0];
    var atom := ParseSimple(ts[1..]).value.0;
    var ts1 := ts[2..];
    PrecStep(p, node, ts);
    var inner := ParsePrec(RightPower(tkn), atom, ts1);
    var nodeR, ts2 := inner.value.0, inner.value.1;
    if tkn.IMPLIES? {
      PrecShape(RightPower(tkn), atom, ts1, nodeR, ts2);
    } else {
      PrecHigh(RightPower(tkn), atom, ts1);
    }
    PrecShape(p, Combine(tkn, node, nodeR), ts2, t, rest);
  }

  /** Every tree `parseFOL` returns is a chain of segments. */
  lemma ParseShape(ts: seq<Token>)
    requires Parse(ts).Ok?
    ensures Chain(Parse(ts).value)
  {
    var first := ParseSimple(ts).value.0;
    var r := ParsePrec(0, first, ts[1..]).value;
    PrecShape(0, first, ts[1..], r.0, r.1);
  }

  lemma {:induction false} SegNoImplies(f: Formula)
    requires Seg(f)
    ensures IMPLIES !in Flatten(f)
  {
    match f
    case And(l, _) => SegNoImplies(l);
    case Or(l, _) => SegNoImplies(l);
    case Id(_) =>
    case Const(_) =>
  }

  /** A segment is determined by its tokens. */
  lemma {:induction false} SegUnique(a: Formula, b: Formula)
    requires Seg(a) && Seg(b) && Flatten(a) == Flatten(b)
    ensures a == b
  {
    if !IsAtom(a) {
      FlattenWellFormed(a.left);
      var n := |Flatten(a)|;
      assert !IsAtom(b);
      var fa, fb := Flatten(a), Flatten(b);
      assert fa[n - 2] == (if a.And? then AND else OR);
      assert fb[n - 2] == (if b.And? then AND else OR);
      assert fa[n - 1] == Flatten(a.right)[0] && fb[n - 1] == Flatten(b.right)[0];
      assert a.right == b.right;
      assert fa[..n - 2] == Flatten(a.left);
      assert fb[..n - 2] == Flatten(b.left);
      SegUnique(a.left, b.left);
    }
  }

  /** A chain is determined by its tokens: the first `->` splits both at the same place. */
  lemma {:induction false} ChainUnique(a: Formula, b: Formula)
    requires Chain(a) && Chain(b) && Flatten(a) == Flatten(b)
    ensures a == b
  {
    if !a.Implies? {
      SegNoImplies(a);
    }
    if !b.Implies? {
      SegNoImplies(b);
    }
    if a.Implies? && b.Implies? {
      SegNoImplies(a.left);
      SegNoImplies(b.left);
      FirstImplies(Flatten(a.left), Flatten(a.right), Flatten(b.left), Flatten(b.right));
      SegUnique(a.left, b.left);
      ChainUnique(a.right, b.right);
    } else if !a.Implies? && !b.Implies? {
      SegUnique(a, b);
    }
  }

  lemma FirstImplies(l1: seq<Token>, r1: seq<Token>, l2: seq<Token>, r2: seq<Token>)
    requires IMPLIES !in l1 && IMPLIES !in l2
    requires l1 + [IMPLIES] + r1 == l2 + [IMPLIES] + r2
    ensures l1 == l2 && r1 == r2
  {
    var s := l1 + [IMPLIES] + r1;
    assert s[|l1|] == IMPLIES && s[|l2|] == IMPLIES;
    assert forall i :: 0 <= i < |l1| ==> s[i] == l1[i];
    assert forall i :: 0 <= i < |l2| ==> s[i] == l2[i];
    assert |l1| == |l2|;
    assert l1 == s[..|l1|] && l2 == s[..|l2|];
    assert r1 == s[|l1| + 1..] && r2 == s[|l2| + 1..];
  }

  /**
    `parseFOL` returns `f` exactly when `f` is a chain of segments whose tokens are the input:
    operators of equal power associate to the left, `->` to the right, and `and`/`or` bind
    tighter than `->`.
   */
  lemma ParseCharacterization(ts: seq<Token>, f: Formula)
    ensures Parse(ts) == Ok(f) <==> Chain(f) && Flatten(f) == ts
  {
    if Parse(ts) == Ok(f) {
      ParseShape(ts);
    }
    if Chain(f) && Flatten(f) == ts {
      FlattenWellFormed(f);
      ParseSucceedsIff(ts);
      ParseShape(ts);
      ChainUnique(Parse(ts).value, f);
    }
  }

  /** A chain of segments is what its own tokens parse to. */
  lemma ChainParses(f: Formula, ts: seq<Token>)
    requires Chain(f) && Flatten(f) == ts
    ensures Parse(ts) == Ok(f)
  {
    ParseCharacterization(ts, f);
  }

  /** `A -> B -> C` nests to the right. */
  lemma ImpliesNestsRight()
    ensures Parse([ID("A"), IMPLIES, ID("B"), IMPLIES, ID("C")])
         == Ok(Implies(Id("A"), Implies(Id("B"), Id("C"))))
  {
    ChainParses(Implies(Id("A"), Implies(Id("B"), Id("C"))), [ID("A"), IMPLIES, ID("B"), IMPLIES, ID("C")]);
  }

  /** `A and B or C` nests to the left. */
  lemma AndOrNestLeft()
    ensures Parse([ID("A"), AND, ID("B"), OR, ID("C")]) == Ok(Or(And(Id("A"), Id("B")), Id("C")))
  {
    ChainParses(Or(And(Id("A"), Id("B")), Id("C")), [ID("A"), AND, ID("B"), OR, ID("C")]);
  }

  /** `A or B -> A or B`: `or` binds tighter than `->` on both sides. */
  lemma OrBindsTighter()
    ensures Parse([ID("A"), OR, ID("B"), IMPLIES, ID("A"), OR, ID("B")])
         == Ok(Implies(Or(Id("A"), Id("B")), Or(Id("A"), Id("B"))))
  {
    ChainParses(Implies(Or(Id("A"), Id("B")), Or(Id("A"), Id("B"))),
                [ID("A"), OR, ID("B"), IMPLIES, ID("A"), OR, ID("B")]);
  }

  /** No tokens, two atoms in a row, a trailing operator and `not` are all rejected. */
  lemma ParseRejects()
    ensures Parse([]).Fail?
    ensures Parse([ID("A"), ID("B")]).Fail?
    ensures Parse([ID("A"), AND]).Fail?
    ensures Parse([NOT, ID("A")]).Fail?
  {
    ParseSucceedsIff([ID("A"), ID("B")]);
    ParseSucceedsIff([ID("A"), AND]);
  }
}
