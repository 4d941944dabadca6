/** The formula tree (`ASTNode`), its rendering (`ASTtoString`) and structural equality (`ASTequals`). */
module Formulas {
  import opened Text

  datatype Formula =
    | And(left: Formula, right: Formula)
    | Or(left: Formula, right: Formula)
    | Implies(left: Formula, right: Formula)
    | Id(name: string)
    | Const(value: Number)

  predicate IsAtom(f: Formula) { f.Id? || f.Const? }

  /** No constant of `f` is NaN. */
  predicate NoNaN(f: Formula) {
    match f
    case And(l, r) => NoNaN(l) && NoNaN(r)
    case Or(l, r) => NoNaN(l) && NoNaN(r)
    case Implies(l, r) => NoNaN(l) && NoNaN(r)
    case Id(_) => true
    case Const(v) => v.Num?
  }

  /** JavaScript's `===` on two numeric payloads: NaN equals nothing, itself included. */
  function StrictEquals(a: Number, b: Number): (r: bool)
    ensures r <==> a == b && a.Num?
  {
    match (a, b)
    case (Num(x), Num(y)) => x == y
    case _ => false
  }

  /**
    Structural equality: tags must agree, binary nodes compare both children, atoms compare
    payloads with `===`. It coincides with equality of trees that contain no NaN constant.
   */
  function AstEquals(f1: Formula, f2: Formula): (r: bool)
    ensures r <==> f1 == f2 && NoNaN(f1)
  {
    if (f1.And? && f2.And?) || (f1.Or? && f2.Or?) || (f1.Implies? && f2.Implies?) then
      AstEquals(f1.left, f2.left) && AstEquals(f1.right, f2.right)
    else if f1.Id? && f2.Id? then
      f1.name == f2.name
    else if f1.Const? && f2.Const? then
      StrictEquals(f1.value, f2.value)
    else
      false
  }

  /** `AstEquals` is symmetric and transitive, and reflexive exactly on NaN-free trees. */
  lemma AstEqualsLaws(f: Formula, g: Formula, h: Formula)
    ensures AstEquals(f, f) <==> NoNaN(f)
    ensures AstEquals(f, g) <==> AstEquals(g, f)
    ensures AstEquals(f, g) && AstEquals(g, h) ==> AstEquals(f, h)
    ensures f.Id? != g.Id? || f.Const? != g.Const? || f.And? != g.And? || f.Or? != g.Or? ==> !AstEquals(f, g)
  {
  }

  /** NaN is never structurally equal to anything. */
  lemma NaNIsNotEqual(f: Formula)
    ensures !AstEquals(Const(NaN), f) && !AstEquals(f, Const(NaN))
  {
  }

  /** `ASTtoString`: infix rendering without parentheses. */
  function Render(f: Formula): string {
    match f
    case And(l, r) => Render(l) + " and " + Render(r)
    case Or(l, r) => Render(l) + " or " + Render(r)
    case Implies(l, r) => Render(l) + " -> " + Render(r)
    case Const(v) => NumberToString(v)
    case Id(name) => name
  }
}
