/**
 * Pushing negations to the leaves and simplifying comparisons of boolean symbols
 * (expr_transform in scripts/kconfig/expr.c).
 */
module Transformation {
  import opened Expressions

  /** A measure that De Morgan's rule lowers although it makes the tree larger. */
  function Measure(e: Expr): nat {
    match e
    case Sym(_) => 1
    case Cmp(_, _, _) => 2
    case Not(x) => 2 * Measure(x)
    case Bin(_, l, r) => 1 + Measure(l) + Measure(r)
  }

  lemma {:induction false} MeasurePositive(e: Expr)
    ensures Measure(e) > 0
  {
    match e
    case Not(x) => MeasurePositive(x);
    case Bin(_, l, r) =>
    case Sym(_) =>
    case Cmp(_, _, _) =>
  }

  /** The comparison rules, which apply when the left symbol is boolean. */
  function SimplifyComparison(equal: bool, a: Symbol, b: Symbol): (r: Expr)
    ensures Measure(r) <= 2
  {
    if TypeOf(a) != Boolean then Cmp(equal, a, b)
    else match b
      case SymNo => if equal then Not(Sym(a)) else Sym(a)
      case SymMod => Sym(if equal then SymNo else SymYes)
      case SymYes => if equal then Sym(a) else Not(Sym(a))
      case _ => Cmp(equal, a, b)
  }

  /** The operands of a negated connective negated: a larger tree of smaller measure. */
  function DeMorgan(op: Op, l: Expr, r: Expr): (n: Expr)
    ensures Measure(n) < 2 * Measure(Bin(op, l, r))
  {
    assert Measure(Not(l)) == 2 * Measure(l) && Measure(Not(r)) == 2 * Measure(r);
    Bin(Flip(op), Not(l), Not(r))
  }

  function Transform(e: Expr): (r: Expr)
    ensures Measure(r) <= Measure(e)
    decreases Measure(e)
  {
    match e
    case Sym(_) => e
    case Cmp(equal, a, b) => SimplifyComparison(equal, a, b)
    case Bin(op, l, r) => Bin(op, Transform(l), Transform(r))
    case Not(x) =>
      MeasurePositive(x);
      var x' := Transform(x);
      MeasurePositive(x');
      match x'
      case Not(y) => MeasurePositive(y); Transform(y)
      case Cmp(equal, a, b) => Cmp(!equal, a, b)
      case Bin(op, l, r) => Transform(DeMorgan(op, l, r))
      case Sym(s) =>
        if s == SymYes then Sym(SymNo)
        else if s == SymNo then Sym(SymYes)
        else if s == SymMod then Sym(SymMod)
        else Not(x')
  }

  /** A missing expression stays missing. */
  function TransformOpt(e: Option<Expr>): Option<Expr> {
    if e.None? then None else Some(Transform(e.value))
  }

  predicate IsTristateConstant(s: Symbol) {
    s == SymNo || s == SymMod || s == SymYes
  }

  /** Negation only on symbols other than n, m, y; booleans never compared with n, m or y. */
  predicate Normal(e: Expr) {
    match e
    case Sym(_) => true
    case Not(x) => x.Sym? && !IsTristateConstant(x.s)
    case Bin(_, l, r) => Normal(l) && Normal(r)
    case Cmp(_, a, b) => TypeOf(a) == Boolean ==> !IsTristateConstant(b)
  }

  /** Operands of the tree are logic symbols or comparisons, whose values strings describe. */
  predicate LogicOperands(e: Expr) {
    match e
    case Bin(_, l, r) => LogicOperands(l) && LogicOperands(r)
    case Not(x) => LogicOperands(x)
    case Cmp(_, _, _) => true
    case Sym(s) => IsLogic(s) || IsTristateConstant(s)
  }

  /** r keeps the forms e has. */
  predicate KeepsForm(e: Expr, r: Expr) {
    (Normal(e) ==> Normal(r)) && (LogicOperands(e) ==> LogicOperands(r))
  }

  lemma {:induction false} TransformValue(env: Env, e: Expr)
    requires WellTyped(env)
    ensures Calc(env, Transform(e)) == Calc(env, e)
    decreases Measure(e)
  {
    match e
    case Sym(_) =>
    case Cmp(_, _, _) =>
    case Bin(_, l, r) =>
      TransformValue(env, l);
      TransformValue(env, r);
    case Not(x) =>
      MeasurePositive(x);
      TransformValue(env, x);
      var x' := Transform(x);
      MeasurePositive(x');
      match x'
      case Not(y) =>
        MeasurePositive(y);
        TransformValue(env, y);
      case Bin(op, l, r) =>
        TransformValue(env, DeMorgan(op, l, r));
      case Cmp(_, _, _) =>
      case Sym(_) =>
  }

  lemma {:induction false} TransformNormal(e: Expr)
    ensures Normal(Transform(e))
    decreases Measure(e)
  {
    match e
    case Sym(_) =>
    case Cmp(_, _, _) =>
    case Bin(_, l, r) =>
      TransformNormal(l);
      TransformNormal(r);
    case Not(x) =>
      MeasurePositive(x);
      TransformNormal(x);
      var x' := Transform(x);
      MeasurePositive(x');
      match x'
      case Not(y) =>
        MeasurePositive(y);
        TransformNormal(y);
      case Bin(op, l, r) =>
        TransformNormal(DeMorgan(op, l, r));
      case Cmp(_, _, _) =>
      case Sym(_) =>
  }

  lemma {:induction false} TransformLogic(e: Expr)
    requires LogicOperands(e)
    ensures LogicOperands(Transform(e))
    decreases Measure(e)
  {
    match e
    case Sym(_) =>
    case Cmp(_, _, _) =>
    case Bin(_, l, r) =>
      TransformLogic(l);
      TransformLogic(r);
    case Not(x) =>
      MeasurePositive(x);
      TransformLogic(x);
      var x' := Transform(x);
      MeasurePositive(x');
      match x'
      case Not(y) =>
        MeasurePositive(y);
        TransformLogic(y);
      case Bin(op, l, r) =>
        TransformLogic(DeMorgan(op, l, r));
      case Cmp(_, _, _) =>
      case Sym(_) =>
  }

  /** Normal expressions are exactly the fixed points, so transforming twice is transforming once. */
  lemma {:induction false} NormalFixed(e: Expr)
    ensures Transform(e) == e <==> Normal(e)
    decreases e
  {
    TransformNormal(e);
    if Normal(e) {
      match e
      case Bin(_, l, r) =>
        NormalFixed(l);
        NormalFixed(r);
      case Not(x) =>
      case Cmp(_, _, _) =>
      case Sym(_) =>
    }
  }

  /** Outside well-typed environments the rule for a boolean compared with "m" would be wrong. */
  lemma TransformNeedsWellTyped()
    ensures var b := Named(0, Boolean);
      var env := Env(map[b := Mod], map[]);
      !WellTyped(env) && Calc(env, Transform(Cmp(true, b, SymMod))) != Calc(env, Cmp(true, b, SymMod))
  {
    var b := Named(0, Boolean);
    var env := Env(map[b := Mod], map[]);
    assert b in env.tri;
    assert StrOf(env, b) == "m";
    assert Transform(Cmp(true, b, SymMod)) == Sym(SymNo);
  }

  // ---------------------------------------------------------------- nothing is reordered

  /** The symbols of the operands, from left to right; of a comparison, the one compared. */
  function Heads(e: Expr): (h: seq<Symbol>)
    ensures |h| > 0
  {
    match e
    case Sym(s) => [s]
    case Cmp(_, a, _) => [a]
    case Not(x) => Heads(x)
    case Bin(_, l, r) => Heads(l) + Heads(r)
  }

  /** The same symbols in the same places, but for constants that have been found out. */
  predicate InPlace(h: seq<Symbol>, h': seq<Symbol>) {
    |h| == |h'| && forall k :: 0 <= k < |h| ==> h'[k] == h[k] || IsTristateConstant(h'[k])
  }

  /** Every operand stays where it is. */
  lemma {:induction false} TransformInPlace(e: Expr)
    ensures InPlace(Heads(e), Heads(Transform(e)))
    decreases Measure(e)
  {
    match e
    case Sym(_) =>
    case Cmp(_, _, _) =>
    case Bin(_, l, r) =>
      TransformInPlace(l);
      TransformInPlace(r);
    case Not(x) =>
      MeasurePositive(x);
      var x' := Transform(x);
      MeasurePositive(x');
      TransformInPlace(x);
      match x'
      case Not(y) =>
        MeasurePositive(y);
        TransformInPlace(y);
      case Cmp(_, a, _) =>
        assert Heads(x') == [a] == Heads(Transform(e));
      case Bin(op, l, r) =>
        TransformInPlace(DeMorgan(op, l, r));
        assert Heads(DeMorgan(op, l, r)) == Heads(x');
      case Sym(s) =>
        assert Heads(x') == [s];
  }
}
