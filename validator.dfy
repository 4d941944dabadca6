/**
  The proof-step validator (`validateAndGetNext`): a proof table is a context of hypotheses
  and a goal; applying a natural-deduction rule yields the child tables that remain to be
  proved, the closed mark, or nothing when the rule does not apply.
 */
module Validator {
  import opened Text
  import opened Formulas

  datatype ProofState =
    | Table(context: seq<Formula>, goal: Formula)
    | Endmark

  datatype Rule =
    | ImplIntro
    | OrIntro1
    | OrIntro2
    | AndIntro
    | AndElim(index: int)
    | OrElim(index: int)
    | Assumption(index: int)

  predicate IsElim(rule: Rule) {
    rule.AndElim? || rule.OrElim? || rule.Assumption?
  }

  /**
    When a rule is accepted: the goal has the connective an introduction rule takes apart, or
    the hypothesis an elimination rule names exists and has the right connective, or the
    hypothesis `Assumption` names is the goal itself (with no NaN constant, which never
    compares equal). A closed table accepts every rule.
   */
  predicate Applicable(s: ProofState, rule: Rule) {
    match s
    case Endmark => true
    case Table(ctx, goal) =>
      match rule
      case ImplIntro => goal.Implies?
      case OrIntro1 => goal.Or?
      case OrIntro2 => goal.Or?
      case AndIntro => goal.And?
      case AndElim(i) => 0 <= i < |ctx| && ctx[i].And?
      case OrElim(i) => 0 <= i < |ctx| && ctx[i].Or?
      case Assumption(i) => 0 <= i < |ctx| && ctx[i] == goal && NoNaN(goal)
  }

  /** The rules that branch the proof into two tables. */
  function Arity(s: ProofState, rule: Rule): nat {
    if s.Table? && (rule.AndIntro? || rule.OrElim?) then 2 else 1
  }

  /**
    `validateAndGetNext`. An empty result rejects the rule. Every child table keeps the
    parent's hypotheses, in order, as a prefix of its own; introduction rules replace the goal
    by one of its parts and elimination rules keep it.
   */
  function Step(s: ProofState, rule: Rule): (r: seq<ProofState>)
    ensures |r| == if Applicable(s, rule) then Arity(s, rule) else 0
    ensures s.Endmark? ==> r == [Endmark]
    ensures s.Table? && rule.Assumption? ==> r == [] || r == [Endmark]
    ensures forall c :: c in r && c.Table? && s.Table? ==>
              s.context <= c.context && |c.context| <= |s.context| + 2
    ensures forall c :: c in r && c.Table? && s.Table? ==>
              if IsElim(rule) then c.goal == s.goal else c.goal < s.goal
    ensures s.Table? && rule.ImplIntro? && s.goal.Implies? ==>
              r == [Table(s.context + [s.goal.left], s.goal.right)]
    ensures s.Table? && rule.OrIntro1? && s.goal.Or? ==> r == [Table(s.context, s.goal.left)]
    ensures s.Table? && rule.OrIntro2? && s.goal.Or? ==> r == [Table(s.context, s.goal.right)]
    ensures s.Table? && rule.AndIntro? && s.goal.And? ==>
              r == [Table(s.context, s.goal.left), Table(s.context, s.goal.right)]
    ensures s.Table? && rule.AndElim? && Applicable(s, rule) ==>
              var h := s.context[rule.index];
              r == [Table(s.context + [h.left, h.right], s.goal)]
    ensures s.Table? && rule.OrElim? && Applicable(s, rule) ==>
              var h := s.context[rule.index];
              r == [Table(s.context + [h.left], s.goal), Table(s.context + [h.right], s.goal)]
    ensures s.Table? && rule.Assumption? && Applicable(s, rule) ==> r == [Endmark]
  {
    match s
    case Endmark => [s]
    case Table(ctx, goal) =>
      if goal.Implies? && rule.ImplIntro? then
        [Table(ctx + [goal.left], goal.right)]
      else if goal.Or? && rule.OrIntro1? then
        [Table(ctx, goal.left)]
      else if goal.Or? && rule.OrIntro2? then
        [Table(ctx, goal.right)]
      else if goal.And? && rule.AndIntro? then
        [Table(ctx, goal.left), Table(ctx, goal.right)]
      else if rule.AndElim? then
        if !(0 <= rule.index < |ctx|) || !ctx[rule.index].And? then []
        else
          var h := ctx[rule.index];
          [Table(ctx + [h.left, h.right], goal)]
      else if rule.OrElim? then
        if !(0 <= rule.index < |ctx|) || !ctx[rule.index].Or? then []
        else
          var h := ctx[rule.index];
          [Table(ctx + [h.left], goal), Table(ctx + [h.right], goal)]
      else if rule.Assumption? then
        if !(0 <= rule.index < |ctx|) || !AstEquals(goal, ctx[rule.index]) then []
        else [Endmark]
      else []
  }

  /**
    Truth-table semantics: `v` gives every atom a truth value (a constant is an atom like a
    name), and the connectives are read classically.
   */
  ghost predicate Holds(f: Formula, v: Formula -> bool) {
    match f
    case And(l, r) => Holds(l, v) && Holds(r, v)
    case Or(l, r) => Holds(l, v) || Holds(r, v)
    case Implies(l, r) => Holds(l, v) ==> Holds(r, v)
    case Id(_) => v(f)
    case Const(_) => v(f)
  }

  ghost predicate AllHold(ctx: seq<Formula>, v: Formula -> bool) {
    forall i :: 0 <= i < |ctx| ==> Holds(ctx[i], v)
  }

  /** Every valuation that makes all the hypotheses true makes the goal true. */
  ghost predicate Entails(ctx: seq<Formula>, goal: Formula) {
    forall v: Formula -> bool :: AllHold(ctx, v) ==> Holds(goal, v)
  }

  /** A closed table needs nothing more; an open one is discharged when its context entails its goal. */
  ghost predicate Discharged(s: ProofState) {
    s.Endmark? || Entails(s.context, s.goal)
  }

  lemma AllHoldAppend(ctx: seq<Formula>, extra: seq<Formula>, v: Formula -> bool)
    ensures AllHold(ctx + extra, v) <==> AllHold(ctx, v) && AllHold(extra, v)
  {
    if AllHold(ctx, v) && AllHold(extra, v) {
      forall i | 0 <= i < |ctx + extra|
        ensures Holds((ctx + extra)[i], v)
      {
        if i >= |ctx| {
          assert (ctx + extra)[i] == extra[i - |ctx|];
        }
      }
    }
    if AllHold(ctx + extra, v) {
      forall i | 0 <= i < |ctx|
        ensures Holds(ctx[i], v)
      {
        assert (ctx + extra)[i] == ctx[i];
      }
      forall i | 0 <= i < |extra|
        ensures Holds(extra[i], v)
      {
        assert (ctx + extra)[|ctx| + i] == extra[i];
      }
    }
  }

  /** More hypotheses never lose a consequence. */
  lemma Weaken(ctx: seq<Formula>, extra: seq<Formula>, goal: Formula)
    requires Entails(ctx, goal)
    ensures Entails(ctx + extra, goal)
  {
    forall v: Formula -> bool | AllHold(ctx + extra, v)
      ensures Holds(goal, v)
    {
      AllHoldAppend(ctx, extra, v);
    }
  }

  /**
    Every accepted step is sound: when all the child tables are discharged, so is the parent.
    So a tree of steps whose leaves are all closed proves its root.
   */
  lemma StepSound(s: ProofState, rule: Rule)
    requires |Step(s, rule)| > 0
    requires forall c :: c in Step(s, rule) ==> Discharged(c)
    ensures Discharged(s)
  {
    if s.Endmark? {
      return;
    }
    var ctx, goal := s.context, s.goal;
    var children := Step(s, rule);
    assert children[0] in children;
    match rule
    case ImplIntro =>
      forall v: Formula -> bool | AllHold(ctx, v) && Holds(goal.left, v)
        ensures Holds(goal.right, v)
      {
        AllHoldAppend(ctx, [goal.left], v);
      }
    case OrIntro1 =>
    case OrIntro2 =>
    case AndIntro =>
      assert children[1] in children;
    case AndElim(i) =>
      var h := ctx[i];
      forall v: Formula -> bool | AllHold(ctx, v)
        ensures Holds(goal, v)
      {
        assert Holds(h, v);
        AllHoldAppend(ctx, [h.left, h.right], v);
      }
    case OrElim(i) =>
      var h := ctx[i];
      assert children[1] in children;
      forall v: Formula -> bool | AllHold(ctx, v)
        ensures Holds(goal, v)
      {
        assert Holds(h, v);
        AllHoldAppend(ctx, [h.left], v);
        AllHoldAppend(ctx, [h.right], v);
      }
    case Assumption(i) =>
      assert ctx[i] == goal;
  }

  /**
    Every rule but the two `or` introductions loses nothing: a discharged table has only
    discharged children.
   */
  lemma StepInvertible(s: ProofState, rule: Rule)
    requires !rule.OrIntro1? && !rule.OrIntro2?
    requires Discharged(s)
    ensures forall c :: c in Step(s, rule) ==> Discharged(c)
  {
    if s.Endmark? || !Applicable(s, rule) {
      return;
    }
    var ctx, goal := s.context, s.goal;
    match rule
    case ImplIntro =>
      forall v: Formula -> bool | AllHold(ctx + [goal.left], v)
        ensures Holds(goal.right, v)
      {
        AllHoldAppend(ctx, [goal.left], v);
        assert Holds([goal.left][0], v);
        assert Holds(goal, v);
      }
    case AndIntro =>
    case AndElim(i) =>
      Weaken(ctx, [ctx[i].left, ctx[i].right], goal);
    case OrElim(i) =>
      Weaken(ctx, [ctx[i].left], goal);
      Weaken(ctx, [ctx[i].right], goal);
    case Assumption(_) =>
  }

  /** Choosing the wrong side of an `or` can turn a provable table into an unprovable one. */
  lemma OrIntroMayLose()
    ensures var s := Table([], Or(Id("A"), Implies(Id("A"), Id("A"))));
            Discharged(s) && !Discharged(Step(s, OrIntro1)[0])
  {
    var s := Table([], Or(Id("A"), Implies(Id("A"), Id("A"))));
    var never: Formula -> bool := f => false;
    assert AllHold([], never) && !Holds(Id("A"), never);
  }

  /** Introducing `A -> B` from no hypotheses assumes `A` and leaves `B` to prove. */
  lemma ImplIntroExample()
    ensures Step(Table([], Implies(Id("A"), Id("B"))), ImplIntro) == [Table([Id("A")], Id("B"))]
  {
    var none: seq<Formula> := [];
    assert none + [Id("A")] == [Id("A")];
  }

  /** Eliminating hypothesis 0, `A and B`, appends `A` and `B`; index 5 is out of range. */
  lemma AndElimExample()
    ensures Step(Table([And(Id("A"), Id("B"))], Id("G")), AndElim(0))
         == [Table([And(Id("A"), Id("B")), Id("A"), Id("B")], Id("G"))]
    ensures Step(Table([And(Id("A"), Id("B"))], Id("G")), AndElim(5)) == []
  {
    var ab := And(Id("A"), Id("B"));
    assert [ab] + [Id("A"), Id("B")] == [ab, Id("A"), Id("B")];
  }

  /** A hypothesis equal to the goal closes the table, an unequal one is rejected, and so is a NaN constant. */
  lemma AssumptionExample()
    ensures Step(Table([Id("A")], Id("A")), Assumption(0)) == [Endmark]
    ensures Step(Table([Id("A")], Id("B")), Assumption(0)) == []
    ensures Step(Table([Const(NaN)], Const(NaN)), Assumption(0)) == []
  {
  }
}
