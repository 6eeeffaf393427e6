/**
 * Folding of constants and equality of expressions up to cancelling common operands
 * (expr_eliminate_yn, __expr_eliminate_eq, expr_eliminate_eq and expr_eq in scripts/kconfig/expr.c).
 */
module Equality {
  import opened Expressions
  import opened Slots

  function Size(e: Expr): nat {
    match e
    case Sym(_) => 1
    case Cmp(_, _, _) => 1
    case Not(x) => 1 + Size(x)
    case Bin(_, l, r) => 1 + Size(l) + Size(r)
  }

  // ---------------------------------------------------------------- constant folding

  function EliminateYn(e: Expr): (r: Expr)
    ensures Size(r) <= Size(e)
  {
    if !e.Bin? then e else
    var l := EliminateYn(e.l);
    var r := EliminateYn(e.r);
    if l == Sym(ZeroSym(e.op)) then l
    else if l == Sym(UnitSym(e.op)) then r
    else if r == Sym(ZeroSym(e.op)) then r
    else if r == Sym(UnitSym(e.op)) then l
    else Bin(e.op, l, r)
  }

  predicate IsYesNo(e: Expr) {
    e == Sym(SymYes) || e == Sym(SymNo)
  }

  /** No connective outside negations has the constant y or n as an operand. */
  predicate Folded(e: Expr) {
    e.Bin? ==> !IsYesNo(e.l) && !IsYesNo(e.r) && Folded(e.l) && Folded(e.r)
  }

  lemma {:induction false} EliminateYnValue(env: Env, e: Expr)
    ensures Calc(env, EliminateYn(e)) == Calc(env, e)
  {
    if e.Bin? {
      EliminateYnValue(env, e.l);
      EliminateYnValue(env, e.r);
    }
  }

  /** Folding removes every such constant, and is the identity exactly on what has none. */
  lemma {:induction false} EliminateYnFolds(e: Expr)
    ensures Folded(EliminateYn(e))
    ensures EliminateYn(e) == e <==> Folded(e)
  {
    if e.Bin? {
      EliminateYnFolds(e.l);
      EliminateYnFolds(e.r);
    }
  }

  // ---------------------------------------------------------------- cancelling common operands

  function Weight(e1: Expr, e2: Expr): nat { Size(e1) + Size(e2) }

  /** __expr_eliminate_eq: operands found on both sides become the unit of the connective. */
  function EliminatePairs(op: Op, e1: Expr, e2: Expr): (r: (Expr, Expr))
    ensures Size(r.0) <= Size(e1) && Size(r.1) <= Size(e2)
    ensures IsOp(op, e1) <==> IsOp(op, r.0)
    ensures IsOp(op, e2) <==> IsOp(op, r.1)
    decreases Weight(e1, e2), if IsOp(op, e1) || IsOp(op, e2) then 0 else 3
  {
    if IsOp(op, e1) then
      var a := EliminatePairs(op, e1.l, e2);
      var b := EliminatePairs(op, e1.r, a.1);
      (Bin(op, a.0, b.0), b.1)
    else if IsOp(op, e2) then
      var a := EliminatePairs(op, e1, e2.l);
      var b := EliminatePairs(op, a.0, e2.r);
      (b.0, Bin(op, a.1, b.1))
    else if e1.Sym? && e1 == e2 && HasYesNoFlag(e1.s) then (e1, e2)
    else if !Eq(e1, e2) then (e1, e2)
    else (Sym(UnitSym(op)), Sym(UnitSym(op)))
  }

  /** expr_eliminate_eq: cancel for the connective of the first, then of the second, then fold. */
  function EliminateEq(e1: Expr, e2: Expr): (r: (Expr, Expr))
    decreases Weight(e1, e2), 1
  {
    var a := if e1.Bin? then EliminatePairs(e1.op, e1, e2) else (e1, e2);
    var b := if a.1.Bin? && !(a.0.Bin? && a.0.op == a.1.op) then EliminatePairs(a.1.op, a.0, a.1) else a;
    (EliminateYn(b.0), EliminateYn(b.1))
  }

  /** expr_eq */
  predicate Eq(e1: Expr, e2: Expr)
    decreases Weight(e1, e2), 2
  {
    match e1
    case Cmp(_, _, _) => e1 == e2
    case Sym(_) => e1 == e2
    case Not(x) => e2.Not? && Eq(x, e2.e)
    case Bin(op, _, _) =>
      IsOp(op, e2) &&
      var r := EliminateEq(e1, e2);
      r.0.Sym? && r.1 == r.0
  }

  /** Raise to at least lo what is first lowered to at most hi. */
  datatype Clamp = Clamp(lo: Tristate, hi: Tristate)

  function Within(c: Clamp, x: Tristate): Tristate {
    Apply(Disj, c.lo, Apply(Conj, c.hi, x))
  }

  function ClampOf(op: Op, k: Tristate): Clamp {
    if op == Conj then Clamp(No, k) else Clamp(k, Yes)
  }

  function Compose(c: Clamp, d: Clamp): Clamp {
    Clamp(Within(c, d.lo), Within(c, d.hi))
  }

  predicate Ordered(c: Clamp) {
    Ord(c.lo) <= Ord(c.hi)
  }

  /** Cancelling k for connective op under a clamp is again a clamp. */
  lemma ClampStep(c: Clamp, op: Op, k: Tristate, x: Tristate)
    requires Ordered(c)
    ensures Ordered(Compose(c, ClampOf(op, k)))
    ensures Within(Compose(c, ClampOf(op, k)), x) == Within(c, Apply(op, k, x))
  {
  }

  lemma Regroup(op: Op, k1: Tristate, k2: Tristate, l: Tristate, r: Tristate, x: Tristate)
    ensures Apply(op, Apply(op, k1, l), Apply(op, k2, r)) == Apply(op, Apply(op, k1, k2), Apply(op, l, r))
    ensures Apply(op, k1, Apply(op, k2, x)) == Apply(op, Apply(op, k1, k2), x)
  {
    ApplyAssociative(op, k1, l, Apply(op, k2, r));
    ApplyAssociative(op, l, k2, r);
    ApplyAssociative(op, k2, l, r);
    ApplyAssociative(op, k1, k2, Apply(op, l, r));
    ApplyAssociative(op, k1, k2, x);
  }

  /** Whatever is cancelled, one value k can be put back on both sides to restore them. */
  lemma {:induction false} EliminatePairsValue(env: Env, op: Op, e1: Expr, e2: Expr) returns (k: Tristate)
    ensures var r := EliminatePairs(op, e1, e2);
      Calc(env, e1) == Apply(op, k, Calc(env, r.0)) && Calc(env, e2) == Apply(op, k, Calc(env, r.1))
    decreases Weight(e1, e2), if IsOp(op, e1) || IsOp(op, e2) then 0 else 3
  {
    if IsOp(op, e1) {
      var a := EliminatePairs(op, e1.l, e2);
      var b := EliminatePairs(op, e1.r, a.1);
      var k1 := EliminatePairsValue(env, op, e1.l, e2);
      var k2 := EliminatePairsValue(env, op, e1.r, a.1);
      Regroup(op, k1, k2, Calc(env, a.0), Calc(env, b.0), Calc(env, b.1));
      k := Apply(op, k1, k2);
    } else if IsOp(op, e2) {
      var a := EliminatePairs(op, e1, e2.l);
      var b := EliminatePairs(op, a.0, e2.r);
      var k1 := EliminatePairsValue(env, op, e1, e2.l);
      var k2 := EliminatePairsValue(env, op, a.0, e2.r);
      Regroup(op, k1, k2, Calc(env, a.1), Calc(env, b.1), Calc(env, b.0));
      k := Apply(op, k1, k2);
    } else if e1.Sym? && e1 == e2 && HasYesNoFlag(e1.s) {
      k := Unit(op);
    } else if !Eq(e1, e2) {
      k := Unit(op);
    } else {
      EqSound(env, e1, e2);
      k := Calc(env, e1);
    }
  }

  /** Both passes together act as one clamp common to the two sides. */
  lemma {:induction false} EliminateEqValue(env: Env, e1: Expr, e2: Expr) returns (c: Clamp)
    ensures Ordered(c)
    ensures Calc(env, e1) == Within(c, Calc(env, EliminateEq(e1, e2).0))
    ensures Calc(env, e2) == Within(c, Calc(env, EliminateEq(e1, e2).1))
    decreases Weight(e1, e2), 1
  {
    var a := if e1.Bin? then EliminatePairs(e1.op, e1, e2) else (e1, e2);
    var b := if a.1.Bin? && !(a.0.Bin? && a.0.op == a.1.op) then EliminatePairs(a.1.op, a.0, a.1) else a;
    assert EliminateEq(e1, e2) == (EliminateYn(b.0), EliminateYn(b.1));
    EliminateYnValue(env, b.0);
    EliminateYnValue(env, b.1);
    c := Clamp(No, Yes);
    if e1.Bin? {
      var k := EliminatePairsValue(env, e1.op, e1, e2);
      ClampStep(c, e1.op, k, Calc(env, a.0));
      ClampStep(c, e1.op, k, Calc(env, a.1));
      c := Compose(c, ClampOf(e1.op, k));
    }
    assert Calc(env, e1) == Within(c, Calc(env, a.0)) && Calc(env, e2) == Within(c, Calc(env, a.1));
    if a.1.Bin? && !(a.0.Bin? && a.0.op == a.1.op) {
      var k := EliminatePairsValue(env, a.1.op, a.0, a.1);
      ClampStep(c, a.1.op, k, Calc(env, b.0));
      ClampStep(c, a.1.op, k, Calc(env, b.1));
      c := Compose(c, ClampOf(a.1.op, k));
    }
  }

  /** expr_eq never equates expressions of different value, in any environment. */
  lemma {:induction false} EqSound(env: Env, e1: Expr, e2: Expr)
    requires Eq(e1, e2)
    ensures Calc(env, e1) == Calc(env, e2)
    decreases Weight(e1, e2), 2
  {
    if e1.Not? {
      EqSound(env, e1.e, e2.e);
    } else if e1.Bin? {
      var _ := EliminateEqValue(env, e1, e2);
    }
  }

  /** If cancelling leaves "y" of the second expression, the first one implies it: its value is never higher. */
  lemma {:induction false} EliminateEqImplication(env: Env, e1: Expr, e2: Expr)
    requires EliminateEq(e1, e2).1 == Sym(SymYes)
    ensures Ord(Calc(env, e1)) <= Ord(Calc(env, e2))
  {
    var c := EliminateEqValue(env, e1, e2);
    var x := Calc(env, EliminateEq(e1, e2).0);
    assert Calc(env, Sym(SymYes)) == Yes;
    WithinMonotone(c, x);
  }

  lemma WithinMonotone(c: Clamp, x: Tristate)
    ensures Ord(Within(c, x)) <= Ord(Within(c, Yes))
  {
  }

  // ---------------------------------------------------------------- reflexivity

  /** No quoted constant stands as an operand. */
  predicate NoQuotedOperand(e: Expr) {
    match e
    case Sym(s) => !s.Quoted?
    case Cmp(_, _, _) => true
    case Not(x) => NoQuotedOperand(x)
    case Bin(_, l, r) => NoQuotedOperand(l) && NoQuotedOperand(r)
  }

  /** Every operand of the op tree e is y or n: nothing is left to cancel. */
  predicate Spent(op: Op, e: Expr) {
    if IsOp(op, e) then Spent(op, e.l) && Spent(op, e.r) else IsYesNo(e)
  }

  /** What cancelling e against itself leaves. */
  function Residue(op: Op, e: Expr): (r: Expr)
    ensures Spent(op, r)
  {
    if IsOp(op, e) then Bin(op, Residue(op, e.l), Residue(op, e.r))
    else if IsYesNo(e) then e
    else Sym(UnitSym(op))
  }

  lemma {:induction false} SpentUntouched(op: Op, e1: Expr, e2: Expr)
    requires Spent(op, e1) || Spent(op, e2)
    ensures EliminatePairs(op, e1, e2) == (e1, e2)
    decreases Weight(e1, e2)
  {
    if IsOp(op, e1) {
      SpentUntouched(op, e1.l, e2);
      SpentUntouched(op, e1.r, e2);
    } else if IsOp(op, e2) {
      SpentUntouched(op, e1, e2.l);
      SpentUntouched(op, e1, e2.r);
    }
  }

  lemma {:induction false} SpentFoldsToSymbol(op: Op, e: Expr)
    requires Spent(op, e)
    ensures IsYesNo(EliminateYn(e))
  {
    if IsOp(op, e) {
      SpentFoldsToSymbol(op, e.l);
      SpentFoldsToSymbol(op, e.r);
    }
  }

  /** Every operand of the op tree e left of the slot p is spent. */
  predicate SpentBefore(op: Op, e: Expr, p: Path)
    requires On(op, e, p)
  {
    p != [] ==> SpentBefore(op, Child(e, p[0]), p[1..]) && (p[0] == Right ==> Spent(op, e.l))
  }

  lemma {:induction false} SpentBeforeDescend(op: Op, e: Expr, p: Path, x: Expr, y: Expr)
    requires On(op, e, p) && SpentBefore(op, e, p)
    ensures var t := Put(e, p, Bin(op, x, y));
      On(op, t, p + [Left]) && SpentBefore(op, t, p + [Left]) && At(t, p + [Left]) == x &&
      forall z :: Put(t, p + [Left], z) == Put(e, p, Bin(op, z, y))
    ensures var t := Put(e, p, Bin(op, x, y));
      Spent(op, x) ==>
        On(op, t, p + [Right]) && SpentBefore(op, t, p + [Right]) && At(t, p + [Right]) == y &&
        forall z :: Put(t, p + [Right], z) == Put(e, p, Bin(op, x, z))
  {
    if p != [] {
      assert (p + [Left])[1..] == p[1..] + [Left];
      assert (p + [Right])[1..] == p[1..] + [Right];
      SpentBeforeDescend(op, Child(e, p[0]), p[1..], x, y);
    }
  }

  /** One operand meets its own copy in the other tree before anything else it could cancel with. */
  lemma {:induction false} MeetsItself(op: Op, x: Expr, t: Expr, p: Path)
    requires On(op, t, p) && At(t, p) == x && SpentBefore(op, t, p)
    requires !IsOp(op, x) && NoQuotedOperand(x) && Eq(x, x)
    ensures EliminatePairs(op, x, t) == (Residue(op, x), Put(t, p, Residue(op, x)))
    decreases t
  {
    if p != [] {
      if p[0] == Left {
        MeetsItself(op, x, t.l, p[1..]);
        SpentUntouched(op, Residue(op, x), t.r);
      } else {
        SpentUntouched(op, x, t.l);
        MeetsItself(op, x, t.r, p[1..]);
      }
    }
  }

  lemma {:induction false} CancelsItself(op: Op, x: Expr, t: Expr, p: Path)
    requires On(op, t, p) && At(t, p) == x && SpentBefore(op, t, p)
    requires NoQuotedOperand(x)
    ensures EliminatePairs(op, x, t) == (Residue(op, x), Put(t, p, Residue(op, x)))
    decreases Size(x), if IsOp(op, x) then 0 else 2
  {
    if IsOp(op, x) {
      PutAt(t, p, x);
      SpentBeforeDescend(op, t, p, x.l, x.r);
      CancelsItself(op, x.l, t, p + [Left]);
      var t' := Put(t, p, Bin(op, Residue(op, x.l), x.r));
      SpentBeforeDescend(op, t, p, Residue(op, x.l), x.r);
      CancelsItself(op, x.r, t', p + [Right]);
    } else {
      EqReflexive(x);
      MeetsItself(op, x, t, p);
    }
  }

  lemma {:induction false} EqReflexive(e: Expr)
    requires NoQuotedOperand(e)
    ensures Eq(e, e)
    decreases Size(e), 1
  {
    match e
    case Sym(_) =>
    case Cmp(_, _, _) =>
    case Not(x) => EqReflexive(x);
    case Bin(op, l, r) =>
      CancelsWhole(op, e);
      SpentFoldsToSymbol(op, Residue(op, e));
  }

  lemma {:induction false} CancelsWhole(op: Op, e: Expr)
    requires IsOp(op, e) && NoQuotedOperand(e)
    ensures EliminatePairs(op, e, e) == (Residue(op, e), Residue(op, e))
    decreases Size(e), 0
  {
    CancelsItself(op, e.l, e, [Left]);
    var e' := Put(e, [Left], Residue(op, e.l));
    CancelsItself(op, e.r, e', [Right]);
  }

  /** The restriction is needed: a quoted constant never cancels, so "a" && "a" differs from itself. */
  lemma QuotedOperandNotReflexive()
    ensures var q := Sym(Quoted("a")); !Eq(Bin(Conj, q, q), Bin(Conj, q, q))
  {
    var q := Sym(Quoted("a"));
    var e := Bin(Conj, q, q);
    assert EliminatePairs(Conj, q, e) == (q, e);
    assert EliminatePairs(Conj, e, e) == (e, e);
  }
}
