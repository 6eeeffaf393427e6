/**
 * Merging two operands of a connective into one
 * (expr_join_or and expr_join_and in scripts/kconfig/expr.c).
 */
module Joins {
  import opened Expressions
  import opened Equality
  import opened Transformation

  function Head(e: Expr): Option<Symbol> {
    match e
    case Sym(s) => Some(s)
    case Cmp(_, a, _) => Some(a)
    case _ => None
  }

  /** The symbol the first operand is about: a negation is looked through. */
  function FirstSymbol(e: Expr): Option<Symbol> {
    if e.Not? then Head(e.e) else Head(e)
  }

  /** The symbol the second operand is about: only a negated symbol is looked through. */
  function SecondSymbol(e: Expr): Option<Symbol> {
    if e.Not? then (if e.e.Sym? then Some(e.e.s) else None) else Head(e)
  }

  /** The logic symbol both operands are about, if there is one. */
  function SharedSymbol(e1: Expr, e2: Expr): Option<Symbol> {
    var s := FirstSymbol(e1);
    if s.Some? && s == SecondSymbol(e2) && IsLogic(s.value) then s else None
  }

  /** Both are comparisons of the given kind, with p and q on their right in either order. */
  predicate Compares(e1: Expr, e2: Expr, equal: bool, p: Symbol, q: Symbol) {
    e1.Cmp? && e2.Cmp? && e1.equal == equal && e2.equal == equal &&
    ((e1.b == p && e2.b == q) || (e1.b == q && e2.b == p))
  }

  predicate IsNotSym(e: Expr) {
    e.Not? && e.e.Sym?
  }

  function JoinOr(e1: Expr, e2: Expr): Option<Expr> {
    if Eq(e1, e2) then Some(e1)
    else
      var shared := SharedSymbol(e1, e2);
      if shared.None? then None
      else
        var s := shared.value;
        var tristate := TypeOf(s) == Tristate3;
        if tristate && Compares(e1, e2, true, SymYes, SymMod) then Some(Cmp(false, s, SymNo))
        else if tristate && Compares(e1, e2, true, SymYes, SymNo) then Some(Cmp(false, s, SymMod))
        else if tristate && Compares(e1, e2, true, SymMod, SymNo) then Some(Cmp(false, s, SymYes))
        else if !tristate && ((IsNotSym(e1) && e2.Sym?) || (IsNotSym(e2) && e1.Sym?)) then Some(Sym(SymYes))
        else None
  }

  /** One operand is the symbol itself, the other compares it with b. */
  predicate SymbolAndComparison(e1: Expr, e2: Expr, equal: bool, b: Symbol) {
    (e1.Sym? && e2.Cmp? && e2.equal == equal && e2.b == b) ||
    (e2.Sym? && e1.Cmp? && e1.equal == equal && e1.b == b)
  }

  /** (s = b) && (s != c) for constants b and c. */
  function JoinEqualUnequal(s: Symbol, b: Symbol, c: Symbol): Expr {
    if b != c then Cmp(true, s, b) else Sym(SymNo)
  }

  function JoinAnd(e1: Expr, e2: Expr): Option<Expr> {
    if Eq(e1, e2) then Some(e1)
    else
      var shared := SharedSymbol(e1, e2);
      if shared.None? then None
      else
        var s := shared.value;
        if SymbolAndComparison(e1, e2, true, SymYes) then Some(Cmp(true, s, SymYes))
        else if SymbolAndComparison(e1, e2, false, SymNo) then Some(Sym(s))
        else if SymbolAndComparison(e1, e2, false, SymMod) then Some(Cmp(true, s, SymYes))
        else if TypeOf(s) != Tristate3 || !e1.Cmp? || !e2.Cmp? then None
        else if e1.equal && !e2.equal && IsConst(e2.b) && IsConst(e1.b) then Some(JoinEqualUnequal(s, e1.b, e2.b))
        else if !e1.equal && e2.equal && IsConst(e1.b) && IsConst(e2.b) then Some(JoinEqualUnequal(s, e2.b, e1.b))
        else if Compares(e1, e2, false, SymYes, SymNo) then Some(Cmp(true, s, SymMod))
        else if Compares(e1, e2, false, SymYes, SymMod) then Some(Cmp(true, s, SymNo))
        else if Compares(e1, e2, false, SymMod, SymNo) then Some(Cmp(true, s, SymYes))
        else None
  }

  function Join(op: Op, e1: Expr, e2: Expr): Option<Expr> {
    if op == Conj then JoinAnd(e1, e2) else JoinOr(e1, e2)
  }

  /** Distinct constants have distinct strings. */
  lemma ConstantStrings(env: Env, b: Symbol, c: Symbol)
    requires IsConst(b) && IsConst(c)
    ensures StrOf(env, b) == StrOf(env, c) <==> b == c
  {
  }

  /** A logic symbol is described by the string of exactly one of n, m and y. */
  lemma LogicString(env: Env, s: Symbol)
    requires IsLogic(s)
    ensures StrOf(env, s) == TriName(TriOf(env, s))
    ensures TriName(No) == "n" && TriName(Mod) == "m" && TriName(Yes) == "y"
    ensures "n" != "m" && "n" != "y" && "m" != "y"
  {
    assert "n"[0] != "m"[0] && "n"[0] != "y"[0] && "m"[0] != "y"[0];
  }

  lemma {:induction false} JoinOrValue(env: Env, e1: Expr, e2: Expr)
    requires WellTyped(env) && JoinOr(e1, e2).Some?
    ensures Calc(env, JoinOr(e1, e2).value) == Apply(Disj, Calc(env, e1), Calc(env, e2))
  {
    if Eq(e1, e2) {
      EqSound(env, e1, e2);
    } else {
      LogicString(env, SharedSymbol(e1, e2).value);
    }
  }

  lemma JoinAndValue(env: Env, e1: Expr, e2: Expr)
    requires WellTyped(env) && JoinAnd(e1, e2).Some?
    ensures Calc(env, JoinAnd(e1, e2).value) == Apply(Conj, Calc(env, e1), Calc(env, e2))
  {
    if Eq(e1, e2) {
      EqSound(env, e1, e2);
    } else {
      LogicString(env, SharedSymbol(e1, e2).value);
      if e1.Cmp? && e2.Cmp? && IsConst(e1.b) && IsConst(e2.b) {
        ConstantStrings(env, e1.b, e2.b);
      }
    }
  }

  /** Every join rule is exact: the merged operand has the value of the two in every well-typed environment. */
  lemma JoinValue(env: Env, op: Op, e1: Expr, e2: Expr)
    requires WellTyped(env) && Join(op, e1, e2).Some?
    ensures Calc(env, Join(op, e1, e2).value) == Apply(op, Calc(env, e1), Calc(env, e2))
  {
    if op == Conj {
      JoinAndValue(env, e1, e2);
    } else {
      JoinOrValue(env, e1, e2);
    }
  }

  /** A join yields its first operand or a single comparison or symbol, and keeps the normal form. */
  lemma {:induction false} JoinShape(op: Op, e1: Expr, e2: Expr)
    requires Join(op, e1, e2).Some?
    ensures var j := Join(op, e1, e2).value;
      j == e1 || j.Sym? || j.Cmp?
    ensures Normal(e1) && Normal(e2) ==> Normal(Join(op, e1, e2).value)
    ensures LogicOperands(e1) && LogicOperands(e2) ==> LogicOperands(Join(op, e1, e2).value)
    ensures !Eq(e1, e2) ==> !e1.Bin? && !e2.Bin?
  {
  }

  /** Two comparisons of one tristate symbol with n, m or y merge under && unless they demand two different values. */
  lemma ConjunctionOfComparisonsJoins(s: Symbol, e1: Expr, e2: Expr)
    requires TypeOf(s) == Tristate3
    requires e1.Cmp? && e1.a == s && IsTristateConstant(e1.b)
    requires e2.Cmp? && e2.a == s && IsTristateConstant(e2.b)
    ensures JoinAnd(e1, e2).None? <==> e1.equal && e2.equal && e1.b != e2.b
    ensures JoinOr(e1, e2).Some? <==> e1 == e2 || (e1.equal && e2.equal)
  {
  }

  // ---------------------------------------------------------------- which operands join

  /** The symbol itself, its negation, or its comparison with n, m or y. */
  predicate Atom(s: Symbol, e: Expr) {
    e == Sym(s) || e == Not(Sym(s)) || (e.Cmp? && e.a == s && IsTristateConstant(e.b))
  }

  /** A boolean and its negation. */
  predicate Opposites(s: Symbol, e1: Expr, e2: Expr) {
    (e1 == Sym(s) && e2 == Not(Sym(s))) || (e1 == Not(Sym(s)) && e2 == Sym(s))
  }

  /** The symbol, and a comparison that demands y, or only excludes n or m. */
  predicate Demands(s: Symbol, e1: Expr, e2: Expr) {
    e1 == Sym(s) && e2.Cmp? && (if e2.equal then e2.b == SymYes else e2.b != SymYes)
  }

  /** Two operands about one symbol join under || exactly in the cases of the source. */
  lemma AtomsJoinOr(s: Symbol, e1: Expr, e2: Expr)
    requires IsLogic(s) && Atom(s, e1) && Atom(s, e2)
    ensures JoinOr(e1, e2).Some? <==>
      e1 == e2 ||
      (TypeOf(s) == Tristate3 && e1.Cmp? && e2.Cmp? && e1.equal && e2.equal) ||
      (TypeOf(s) == Boolean && Opposites(s, e1, e2))
  {
    assert Eq(e1, e2) <==> e1 == e2;
    assert SharedSymbol(e1, e2) == Some(s);
  }

  /** And under &&. */
  lemma AtomsJoinAnd(s: Symbol, e1: Expr, e2: Expr)
    requires IsLogic(s) && Atom(s, e1) && Atom(s, e2)
    ensures JoinAnd(e1, e2).Some? <==>
      e1 == e2 || Demands(s, e1, e2) || Demands(s, e2, e1) ||
      (TypeOf(s) == Tristate3 && e1.Cmp? && e2.Cmp? && !(e1.equal && e2.equal))
  {
    assert Eq(e1, e2) <==> e1 == e2;
    assert SharedSymbol(e1, e2) == Some(s);
  }

  /** What they join to: always a symbol or a comparison of it, never a longer expression. */
  lemma JoinResults(s: Symbol, e1: Expr, e2: Expr)
    requires IsLogic(s) && Atom(s, e1) && Atom(s, e2) && e1 != e2
    ensures TypeOf(s) == Boolean && JoinOr(e1, e2).Some? ==> JoinOr(e1, e2).value == Sym(SymYes)
    ensures TypeOf(s) == Tristate3 && JoinOr(e1, e2).Some? ==>
      var c := JoinOr(e1, e2).value;
      c.Cmp? && !c.equal && c.a == s && IsTristateConstant(c.b) && c.b != e1.b && c.b != e2.b
    ensures Demands(s, e1, e2) ==>
      JoinAnd(e1, e2) == Some(if e2 == Cmp(false, s, SymNo) then e1 else Cmp(true, s, SymYes)) == JoinAnd(e2, e1)
  {
  }
}
