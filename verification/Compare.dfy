/**
 * Comparisons with constants and the tests that decide menu nesting
 * (expr_trans_bool, expr_trans_compare, expr_contains_symbol and expr_depends_symbol in
 * scripts/kconfig/expr.c, as used by menu_finalize in scripts/kconfig/menu.c).
 */
module Compare {
  import opened Expressions
  import opened Equality
  import opened Transformation
  import opened Dups

  // ---------------------------------------------------------------- expr_trans_bool

  /** FOO != n becomes FOO for a tristate FOO. */
  function TransBool(e: Expr): Expr {
    match e
    case Bin(op, l, r) => Bin(op, TransBool(l), TransBool(r))
    case Not(x) => Not(TransBool(x))
    case Cmp(equal, a, b) => if !equal && TypeOf(a) == Tristate3 && b == SymNo then Sym(a) else e
    case Sym(_) => e
  }

  function TransBoolOpt(e: Option<Expr>): Option<Expr> {
    if e.None? then None else Some(TransBool(e.value))
  }

  /** On the normal form the rule keeps exactly what a promotion of m to y can see: whether the value is n. */
  lemma {:induction false} TransBoolKeepsNo(env: Env, e: Expr)
    requires Normal(e)
    ensures Calc(env, TransBool(e)) == No <==> Calc(env, e) == No
  {
    match e
    case Bin(_, l, r) =>
      TransBoolKeepsNo(env, l);
      TransBoolKeepsNo(env, r);
    case Not(x) =>
    case Sym(_) =>
    case Cmp(_, a, b) =>
      assert "n"[0] != "m"[0] && "n"[0] != "y"[0];
  }

  /** A tristate is compared with n for inequality. */
  predicate HasUnequalNo(e: Expr) {
    match e
    case Bin(_, l, r) => HasUnequalNo(l) || HasUnequalNo(r)
    case Not(x) => HasUnequalNo(x)
    case Cmp(equal, a, b) => !equal && TypeOf(a) == Tristate3 && b == SymNo
    case Sym(_) => false
  }

  /** No such comparison is left, and nothing changes where there was none. */
  lemma {:induction false} TransBoolRemoves(e: Expr)
    ensures !HasUnequalNo(TransBool(e))
    ensures TransBool(e) == e <==> !HasUnequalNo(e)
  {
    match e
    case Bin(_, l, r) =>
      TransBoolRemoves(l);
      TransBoolRemoves(r);
    case Not(x) => TransBoolRemoves(x);
    case Cmp(_, _, _) =>
    case Sym(_) =>
  }

  lemma {:induction false} TransBoolForm(e: Expr)
    ensures KeepsForm(e, TransBool(e))
  {
    match e
    case Bin(_, l, r) =>
      TransBoolForm(l);
      TransBoolForm(r);
    case Not(x) => TransBoolForm(x);
    case Sym(_) =>
    case Cmp(_, _, _) =>
  }

  /** Under a negation, which the normal form excludes, the rule would not do. */
  lemma TransBoolNeedsNormal()
    ensures var foo := Named(0, Tristate3);
      var env := Env(map[foo := Mod], map[]);
      var e := Not(Cmp(false, foo, SymNo));
      Calc(env, e) == No && Calc(env, TransBool(e)) == Mod
  {
    var foo := Named(0, Tristate3);
    var env := Env(map[foo := Mod], map[]);
    assert StrOf(env, foo) == "m" && "n"[0] != "m"[0];
    assert Calc(env, Cmp(false, foo, SymNo)) == Yes;
    assert TransBool(Not(Cmp(false, foo, SymNo))) == Not(Sym(foo));
    assert Calc(env, Sym(foo)) == Mod;
  }

  // ---------------------------------------------------------------- expr_trans_compare

  function SymbolOf(t: Tristate): Symbol {
    match t
    case No => SymNo
    case Mod => SymMod
    case Yes => SymYes
  }

  function Negated(n: bool, e: Expr): Expr {
    if n then Not(e) else e
  }

  /** The comparison of e with the constant t, for equality or (equal false) for inequality. */
  function TransCompare(e: Expr, equal: bool, t: Tristate): Expr {
    match e
    case Bin(op, l, r) =>
      var l' := TransCompare(l, true, t);
      var r' := TransCompare(r, true, t);
      Negated(!equal, if t == Yes then Bin(op, l', r') else if t == No then Bin(Flip(op), l', r') else e)
    case Not(x) => TransCompare(x, !equal, t)
    case Cmp(_, _, _) => if t == Mod then Sym(if equal then SymNo else SymYes) else Negated(equal == (t == No), e)
    case Sym(s) => Cmp(equal, s, SymbolOf(t))
  }

  /** A missing expression stands for y, and the source answers with the constant itself. */
  function TransCompareOpt(e: Option<Expr>, equal: bool, t: Tristate): Expr {
    match e
    case None => Negated(!equal, Sym(SymbolOf(t)))
    case Some(x) => TransCompare(x, equal, t)
  }

  function Truth(b: bool): Tristate {
    if b then Yes else No
  }

  /** No negated part of e is m. */
  predicate NegationsTwoValued(env: Env, e: Expr) {
    match e
    case Bin(_, l, r) => NegationsTwoValued(env, l) && NegationsTwoValued(env, r)
    case Not(x) => NegationsTwoValued(env, x) && Calc(env, x) != Mod
    case Cmp(_, _, _) => true
    case Sym(_) => true
  }

  lemma SymbolComparison(env: Env, s: Symbol, equal: bool, t: Tristate)
    requires IsLogic(s) || IsTristateConstant(s)
    ensures Calc(env, Cmp(equal, s, SymbolOf(t))) == Truth((TriOf(env, s) == t) == equal)
  {
    assert "n"[0] != "m"[0] && "n"[0] != "y"[0] && "m"[0] != "y"[0];
  }

  /**
   * The value of e as the comparison with t sees it: a negation counts as t unless what it negates does,
   * although the negation of m is m.
   */
  function ReadAs(env: Env, e: Expr, t: Tristate): Tristate {
    match e
    case Bin(op, l, r) => Apply(op, ReadAs(env, l, t), ReadAs(env, r, t))
    case Not(x) => if ReadAs(env, x, t) == t then Neg(t) else t
    case Cmp(_, _, _) => Calc(env, e)
    case Sym(_) => Calc(env, e)
  }

  /** The reading differs from the value only where that is m. */
  lemma {:induction false} ReadAsAgrees(env: Env, e: Expr, t: Tristate)
    requires t != Mod
    ensures Calc(env, e) != Mod ==> ReadAs(env, e, t) == Calc(env, e)
  {
    match e
    case Bin(_, l, r) =>
      ReadAsAgrees(env, l, t);
      ReadAsAgrees(env, r, t);
    case Not(x) => ReadAsAgrees(env, x, t);
    case Cmp(_, _, _) =>
    case Sym(_) =>
  }

  /** Comparing with y or n is two-valued, and compares the reading. */
  lemma {:induction false} TransCompareReads(env: Env, e: Expr, equal: bool, t: Tristate)
    requires LogicOperands(e) && t != Mod
    ensures Calc(env, TransCompare(e, equal, t)) == Truth((ReadAs(env, e, t) == t) == equal)
  {
    match e
    case Bin(_, l, r) =>
      TransCompareReads(env, l, true, t);
      TransCompareReads(env, r, true, t);
    case Not(x) => TransCompareReads(env, x, !equal, t);
    case Cmp(_, _, _) =>
    case Sym(s) => SymbolComparison(env, s, equal, t);
  }

  /** Exactly when the comparison is right: unless the value is m and read as t. */
  lemma {:induction false} TransCompareExact(env: Env, e: Expr, equal: bool, t: Tristate)
    requires LogicOperands(e) && t != Mod
    ensures Calc(env, TransCompare(e, equal, t)) == Truth((Calc(env, e) == t) == equal) <==>
      (Calc(env, e) == Mod ==> ReadAs(env, e, t) != t)
  {
    TransCompareReads(env, e, equal, t);
    ReadAsAgrees(env, e, t);
  }

  lemma {:induction false} NegationsReadRight(env: Env, e: Expr, t: Tristate)
    requires t != Mod && NegationsTwoValued(env, e)
    ensures ReadAs(env, e, t) == Calc(env, e)
  {
    match e
    case Bin(_, l, r) =>
      NegationsReadRight(env, l, t);
      NegationsReadRight(env, r, t);
    case Not(x) => ReadAsAgrees(env, x, t);
    case Cmp(_, _, _) =>
    case Sym(_) =>
  }

  /** In particular it is right wherever the value is y or n, and where no negated part is m. */
  lemma {:induction false} TransCompareValue(env: Env, e: Expr, equal: bool, t: Tristate)
    requires LogicOperands(e) && t != Mod
    ensures Calc(env, TransCompare(e, equal, t)) != Mod
    ensures Calc(env, e) != Mod || NegationsTwoValued(env, e) ==>
      Calc(env, TransCompare(e, equal, t)) == Truth((Calc(env, e) == t) == equal)
  {
    TransCompareReads(env, e, equal, t);
    TransCompareExact(env, e, equal, t);
    if NegationsTwoValued(env, e) {
      NegationsReadRight(env, e, t);
    }
  }

  /** Comparing with m: right for symbols and comparisons, the opposite for a negation, and no comparison for connectives. */
  lemma {:induction false} TransCompareMod(env: Env, e: Expr, equal: bool)
    requires LogicOperands(e)
    ensures var v := Calc(env, TransCompare(e, equal, Mod));
      match e
      case Bin(_, _, _) => v == if equal then Calc(env, e) else Neg(Calc(env, e))
      case Not(x) => v == Calc(env, TransCompare(x, !equal, Mod))
      case Cmp(_, _, _) => v == Truth((Calc(env, e) == Mod) == equal)
      case Sym(_) => v == Truth((Calc(env, e) == Mod) == equal)
  {
    if e.Sym? {
      SymbolComparison(env, e.s, equal, Mod);
    }
  }

  /** Where it is wrong: at FOO = m, !FOO is m, yet comparing it for != n gives n. */
  lemma TransCompareWrongAtMod()
    ensures var foo := Named(0, Tristate3);
      var env := Env(map[foo := Mod], map[]);
      var e := Not(Sym(foo));
      Calc(env, e) != No && Calc(env, TransCompare(e, false, No)) == No
  {
    var foo := Named(0, Tristate3);
    var env := Env(map[foo := Mod], map[]);
    assert Calc(env, Sym(foo)) == Mod;
    assert StrOf(env, foo) == "m" && "n"[0] != "m"[0];
    assert TransCompare(Not(Sym(foo)), false, No) == Cmp(true, foo, SymNo);
  }

  /** Operands that are no logic symbols compare by their strings: "a" is n as a value, yet differs from n. */
  lemma TransCompareNeedsLogic(env: Env)
    ensures var e := Sym(Quoted("a"));
      Calc(env, e) == No && Calc(env, TransCompare(e, false, No)) == Yes
  {
    assert "a"[0] != "n"[0];
  }

  // ---------------------------------------------------------------- the nesting tests of menu_finalize

  predicate ContainsSymbol(e: Expr, s: Symbol) {
    match e
    case Bin(_, l, r) => ContainsSymbol(l, s) || ContainsSymbol(r, s)
    case Not(x) => ContainsSymbol(x, s)
    case Cmp(_, a, b) => a == s || b == s
    case Sym(a) => a == s
  }

  predicate DependsSymbol(e: Expr, s: Symbol) {
    match e
    case Bin(op, l, r) => op == Conj && (DependsSymbol(l, s) || DependsSymbol(r, s))
    case Sym(a) => a == s
    case Cmp(equal, a, b) => a == s && (if equal then b == SymYes || b == SymMod else b == SymNo)
    case Not(_) => false
  }

  /** An expression that does not contain s has the same value whatever s is. */
  lemma {:induction false} ContainsIsMentions(e: Expr, s: Symbol)
    ensures ContainsSymbol(e, s) <==> s in Symbols(e)
  {
    match e
    case Bin(_, l, r) =>
      ContainsIsMentions(l, s);
      ContainsIsMentions(r, s);
    case Not(x) => ContainsIsMentions(x, s);
    case Cmp(_, _, _) =>
    case Sym(_) =>
  }

  /** An expression that depends on a boolean or tristate s is n whenever s is. */
  lemma {:induction false} DependsSymbolSound(env: Env, e: Expr, s: Symbol)
    requires DependsSymbol(e, s) && IsLogic(s) && TriOf(env, s) == No
    ensures Calc(env, e) == No
    ensures ContainsSymbol(e, s)
  {
    match e
    case Bin(_, l, r) =>
      if DependsSymbol(l, s) {
        DependsSymbolSound(env, l, s);
      } else {
        DependsSymbolSound(env, r, s);
      }
    case Cmp(_, a, b) =>
      assert "n"[0] != "m"[0] && "n"[0] != "y"[0];
    case Sym(_) =>
  }

  /** n, m and y compared with, or an operand of a conjunction in such terms. */
  predicate ComparesConstants(e: Expr) {
    match e
    case Bin(op, l, r) => op == Conj && ComparesConstants(l) && ComparesConstants(r)
    case Cmp(_, a, b) => IsTristateConstant(b)
    case Sym(_) => true
    case Not(_) => false
  }

  /** Everything but s is as high as it can be. */
  predicate AllYesBut(env: Env, s: Symbol, e: Expr) {
    match e
    case Bin(_, l, r) => AllYesBut(env, s, l) && AllYesBut(env, s, r)
    case Cmp(_, a, _) => a == s || Calc(env, e) == Yes
    case Sym(a) => a == s || Calc(env, e) == Yes
    case Not(_) => true
  }

  /**
   * Over symbols and comparisons with constants the test misses nothing: where s is n and every other operand y, the
   * conjunction is n only if it is found to depend on s.
   */
  lemma {:induction false} DependsSymbolComplete(env: Env, e: Expr, s: Symbol)
    requires IsLogic(s) && TriOf(env, s) == No && ComparesConstants(e) && AllYesBut(env, s, e)
    ensures DependsSymbol(e, s) <==> Calc(env, e) == No
  {
    match e
    case Bin(_, l, r) =>
      DependsSymbolComplete(env, l, s);
      DependsSymbolComplete(env, r, s);
    case Cmp(equal, a, b) =>
      assert "n"[0] != "m"[0] && "n"[0] != "y"[0];
    case Sym(_) =>
  }

  /** "is not n", simplified as menu_finalize does before comparing two dependencies. */
  function NotNo(e: Option<Expr>): Expr {
    EliminateDups(Transform(TransCompareOpt(e, false, No)))
  }

  /** The simplified form is a normal form with nothing left to merge or to contradict. */
  lemma {:induction false} NotNoForm(e: Option<Expr>)
    ensures Normal(NotNo(e)) && Finished(NotNo(e))
  {
    var c := TransCompareOpt(e, false, No);
    TransformNormal(c);
    EliminateDupsForm(Transform(c));
    EliminateDupsFinished(Transform(c));
  }

  /** A missing expression is y and read as y. */
  function ReadAsOpt(env: Env, e: Option<Expr>, t: Tristate): Tristate {
    if e.None? then Yes else ReadAs(env, e.value, t)
  }

  /** The answer is that of the reading, so it is right exactly unless an m is read as n. */
  lemma NotNoValue(env: Env, e: Option<Expr>)
    requires WellTyped(env) && (e.Some? ==> LogicOperands(e.value))
    ensures Calc(env, NotNo(e)) == Truth(ReadAsOpt(env, e, No) != No)
    ensures Calc(env, NotNo(e)) == Truth(CalcOpt(env, e) != No) <==>
      (CalcOpt(env, e) == Mod ==> ReadAsOpt(env, e, No) != No)
  {
    var c := TransCompareOpt(e, false, No);
    if e.Some? {
      TransCompareReads(env, e.value, false, No);
      ReadAsAgrees(env, e.value, No);
    } else {
      assert Calc(env, Sym(SymNo)) == No;
    }
    TransformValue(env, c);
    EliminateDupsValue(env, Transform(c));
  }

  /** The test that lets a menu entry with dependency dep be nested under a symbol with visibility base. */
  predicate ImpliedBy(dep: Option<Expr>, base: Option<Expr>) {
    EliminateEq(NotNo(dep), NotNo(base)).1 == Sym(SymYes)
  }

  /**
   * The test is sound in every well-typed environment for the readings.  So where dep is y the base is
   * visible, and where dep is m it is too, unless that m is read as n.
   */
  lemma NestingSound(env: Env, dep: Option<Expr>, base: Option<Expr>)
    requires WellTyped(env) && ImpliedBy(dep, base)
    requires (dep.Some? ==> LogicOperands(dep.value)) && (base.Some? ==> LogicOperands(base.value))
    ensures ReadAsOpt(env, dep, No) != No ==> ReadAsOpt(env, base, No) != No
    ensures CalcOpt(env, dep) != No && (CalcOpt(env, dep) == Mod ==> ReadAsOpt(env, dep, No) != No) ==>
      CalcOpt(env, base) != No
  {
    NotNoValue(env, dep);
    NotNoValue(env, base);
    EliminateEqImplication(env, NotNo(dep), NotNo(base));
    if base.Some? {
      ReadAsAgrees(env, base.value, No);
    }
    if dep.Some? {
      ReadAsAgrees(env, dep.value, No);
    }
  }
}
