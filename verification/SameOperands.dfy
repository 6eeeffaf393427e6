/**
 * What expr_eq and expr_extract_eq find (scripts/kconfig/expr.c), told by the operands alone: which
 * expressions are equal, and which operands two expressions have in common.
 */
module SameOperands {
  import opened Expressions
  import opened Equality
  import opened Transformation
  import opened Slots
  import opened Joins
  import opened Dups

  /** An expression without the order and the grouping of its operands. */
  datatype Shape = Leaf(e: Expr) | Negated(x: Shape) | Group(op: Op, parts: multiset<Shape>)

  function ShapeOf(e: Expr): Shape
    decreases e, 1
  {
    match e
    case Sym(_) => Leaf(e)
    case Cmp(_, _, _) => Leaf(e)
    case Not(x) => Negated(ShapeOf(x))
    case Bin(op, _, _) => Group(op, Parts(op, e))
  }

  /** The operands of an op tree, apart from the constants y and n. */
  function Parts(op: Op, e: Expr): multiset<Shape>
    decreases e, if IsOp(op, e) then 0 else 2
  {
    if IsOp(op, e) then Parts(op, e.l) + Parts(op, e.r)
    else if IsYesNo(e) then multiset{}
    else multiset{ShapeOf(e)}
  }

  /** The deciding constant is an operand. */
  predicate HasZero(op: Op, e: Expr) {
    if IsOp(op, e) then HasZero(op, e.l) || HasZero(op, e.r) else e == Sym(ZeroSym(op))
  }

  /** Neither y nor n nor a quoted constant stands anywhere as an operand. */
  predicate Pure(e: Expr) {
    match e
    case Sym(s) => !HasYesNoFlag(s)
    case Cmp(_, _, _) => true
    case Not(x) => Pure(x)
    case Bin(_, l, r) => Pure(l) && Pure(r)
  }

  /** Every operand of the op tree is pure, or the constant y or n. */
  predicate Clean(op: Op, e: Expr) {
    if IsOp(op, e) then Clean(op, e.l) && Clean(op, e.r) else IsYesNo(e) || Pure(e)
  }

  lemma {:induction false} PureIsClean(op: Op, e: Expr)
    requires Pure(e)
    ensures Clean(op, e) && !HasZero(op, e) && Folded(e) && !IsYesNo(e)
  {
    match e
    case Bin(_, l, r) =>
      PureIsClean(op, l);
      PureIsClean(op, r);
    case Not(_) =>
    case Sym(_) =>
    case Cmp(_, _, _) =>
  }

  // ---------------------------------------------------------------- cancelling

  /** r1 and r2 are what x and y have beyond each other. */
  predicate Beyond(x: multiset<Shape>, y: multiset<Shape>, r1: multiset<Shape>, r2: multiset<Shape>) {
    r1 == x - y && r2 == y - x
  }

  lemma BeyondTwice(
      l: multiset<Shape>, r: multiset<Shape>, x: multiset<Shape>, l': multiset<Shape>, x': multiset<Shape>,
      r': multiset<Shape>, x'': multiset<Shape>)
    requires Beyond(l, x, l', x') && Beyond(r, x', r', x'')
    ensures Beyond(l + r, x, l' + r', x'')
  {
    assert (l - x) + (r - (x - l)) == (l + r) - x;
    assert (x - l) - r == x - (l + r);
  }

  /** The constants are as they were. */
  predicate SameConstants(op: Op, e: Expr, r: Expr) {
    Clean(op, r) && HasZero(op, r) == HasZero(op, e)
  }

  lemma {:induction false} SameConstantsTwice(op: Op, l: Expr, r: Expr, l': Expr, r': Expr)
    requires SameConstants(op, l, l') && SameConstants(op, r, r')
    ensures SameConstants(op, Bin(op, l, r), Bin(op, l', r'))
  {
  }

  lemma {:induction false} PartsOfBoth(op: Op, l: Expr, r: Expr)
    ensures Parts(op, Bin(op, l, r)) == Parts(op, l) + Parts(op, r)
  {
  }

  /** What cancelling leaves: the operands the other side has not, and the constants as they were. */
  predicate Cancelled(op: Op, e1: Expr, e2: Expr, r1: Expr, r2: Expr) {
    SameConstants(op, e1, r1) && SameConstants(op, e2, r2) &&
    Beyond(Parts(op, e1), Parts(op, e2), Parts(op, r1), Parts(op, r2))
  }

  /** Cancelling with the left and then with the right part of a tree cancels with the tree. */
  lemma {:induction false} CancelledTwice(op: Op, l: Expr, r: Expr, x: Expr, l': Expr, x': Expr, r': Expr, x'': Expr)
    requires Cancelled(op, l, x, l', x') && Cancelled(op, r, x', r', x'')
    ensures Cancelled(op, Bin(op, l, r), x, Bin(op, l', r'), x'')
  {
    SameConstantsTwice(op, l, r, l', r');
    PartsOfBoth(op, l, r);
    PartsOfBoth(op, l', r');
    BeyondTwice(Parts(op, l), Parts(op, r), Parts(op, x), Parts(op, l'), Parts(op, x'), Parts(op, r'), Parts(op, x''));
  }

  lemma {:induction false} CancelledSwap(op: Op, e1: Expr, e2: Expr, r1: Expr, r2: Expr)
    ensures Cancelled(op, e1, e2, r1, r2) <==> Cancelled(op, e2, e1, r2, r1)
  {
  }

  lemma {:induction false} PairsCancel(op: Op, e1: Expr, e2: Expr)
    requires Clean(op, e1) && Clean(op, e2)
    ensures var r := EliminatePairs(op, e1, e2); Cancelled(op, e1, e2, r.0, r.1)
    decreases Weight(e1, e2), if IsOp(op, e1) || IsOp(op, e2) then 0 else 3
  {
    if IsOp(op, e1) {
      var a := EliminatePairs(op, e1.l, e2);
      var b := EliminatePairs(op, e1.r, a.1);
      PairsCancel(op, e1.l, e2);
      PairsCancel(op, e1.r, a.1);
      CancelledTwice(op, e1.l, e1.r, e2, a.0, a.1, b.0, b.1);
    } else if IsOp(op, e2) {
      var a := EliminatePairs(op, e1, e2.l);
      var b := EliminatePairs(op, a.0, e2.r);
      PairsCancel(op, e1, e2.l);
      PairsCancel(op, a.0, e2.r);
      CancelledSwap(op, e1, e2.l, a.0, a.1);
      CancelledSwap(op, a.0, e2.r, b.0, b.1);
      CancelledTwice(op, e2.l, e2.r, e1, a.1, a.0, b.1, b.0);
      CancelledSwap(op, e2, e1, Bin(op, a.1, b.1), b.0);
    } else if Pure(e1) && Pure(e2) {
      PureIsClean(op, e1);
      PureIsClean(op, e2);
      EqIsShape(e1, e2);
      OperandsCancel(op, e1, e2);
    } else {
      ConstantApart(e1, e2);
      OneConstant(op, e1, e2);
    }
  }

  lemma {:induction false} OperandsCancel(op: Op, e1: Expr, e2: Expr)
    requires Pure(e1) && Pure(e2) && !IsOp(op, e1) && !IsOp(op, e2)
    requires !IsYesNo(e1) && !IsYesNo(e2) && (Eq(e1, e2) <==> ShapeOf(e1) == ShapeOf(e2))
    ensures var r := EliminatePairs(op, e1, e2); Cancelled(op, e1, e2, r.0, r.1)
  {
    var r := EliminatePairs(op, e1, e2);
    var a, b := ShapeOf(e1), ShapeOf(e2);
    assert Parts(op, e1) == multiset{a} && Parts(op, e2) == multiset{b};
    if Eq(e1, e2) {
      assert r == (Sym(UnitSym(op)), Sym(UnitSym(op)));
      assert multiset{a} - multiset{b} == multiset{};
    } else {
      assert r == (e1, e2);
      assert multiset{a} - multiset{b} == multiset{a} && multiset{b} - multiset{a} == multiset{b};
    }
  }

  lemma {:induction false} OneConstant(op: Op, e1: Expr, e2: Expr)
    requires !IsOp(op, e1) && !IsOp(op, e2) && Clean(op, e1) && Clean(op, e2)
    requires (IsYesNo(e1) || IsYesNo(e2)) && (Eq(e1, e2) <==> e1 == e2)
    ensures var r := EliminatePairs(op, e1, e2); Cancelled(op, e1, e2, r.0, r.1)
  {
    assert EliminatePairs(op, e1, e2) == (e1, e2);
    if IsYesNo(e1) {
      assert Parts(op, e1) == multiset{};
    } else {
      assert Parts(op, e2) == multiset{};
    }
    NothingCommon(multiset{}, Parts(op, e1), Parts(op, e2));
  }

  /** y and n are equal to nothing but themselves. */
  lemma {:induction false} ConstantApart(e1: Expr, e2: Expr)
    requires IsYesNo(e1) || IsYesNo(e2)
    ensures Eq(e1, e2) <==> e1 == e2
  {
  }

  /** f is the deciding constant if that is an operand of t, else the unit, the one operand, or more of them. */
  predicate FoldsTo(op: Op, t: Expr, f: Expr) {
    if HasZero(op, t) then f == Sym(ZeroSym(op))
    else if Parts(op, t) == multiset{} then f == Sym(UnitSym(op))
    else !IsYesNo(f) && (f.Sym? ==> Parts(op, t) == multiset{Leaf(f)})
  }

  lemma {:induction false} FoldClean(op: Op, t: Expr)
    requires Clean(op, t)
    ensures FoldsTo(op, t, EliminateYn(t))
  {
    if IsOp(op, t) {
      FoldClean(op, t.l);
      FoldClean(op, t.r);
      FoldBoth(op, t.l, t.r);
    } else if !IsYesNo(t) {
      PureIsClean(op, t);
      EliminateYnFolds(t);
    }
  }

  lemma {:induction false} FoldBoth(op: Op, l: Expr, r: Expr)
    requires FoldsTo(op, l, EliminateYn(l)) && FoldsTo(op, r, EliminateYn(r))
    ensures FoldsTo(op, Bin(op, l, r), EliminateYn(Bin(op, l, r)))
  {
    var f, g := EliminateYn(l), EliminateYn(r);
    var x, y := Parts(op, l), Parts(op, r);
    PartsOfBoth(op, l, r);
    SumOfParts(x, y);
    if HasZero(op, l) || HasZero(op, r) {
      assert EliminateYn(Bin(op, l, r)) == Sym(ZeroSym(op));
    } else if x == multiset{} {
      assert EliminateYn(Bin(op, l, r)) == g;
    } else if y == multiset{} {
      assert EliminateYn(Bin(op, l, r)) == f;
    } else {
      assert EliminateYn(Bin(op, l, r)) == Bin(op, f, g);
    }
  }

  lemma SumOfParts(x: multiset<Shape>, y: multiset<Shape>)
    ensures x == multiset{} ==> x + y == y
    ensures y == multiset{} ==> x + y == x
    ensures x + y == multiset{} ==> x == multiset{} && y == multiset{}
  {
    if x + y == multiset{} {
      assert |x| + |y| == |x + y|;
    }
  }

  // ---------------------------------------------------------------- equality

  /** Two op trees are found equal exactly if both contain the deciding constant, or neither, and the same operands. */
  lemma {:induction false} EqOfTrees(op: Op, e1: Expr, e2: Expr)
    requires IsOp(op, e1) && IsOp(op, e2) && Clean(op, e1) && Clean(op, e2)
    ensures Eq(e1, e2) <==>
      HasZero(op, e1) == HasZero(op, e2) && (HasZero(op, e1) || Parts(op, e1) == Parts(op, e2))
    decreases Weight(e1, e2), 1
  {
    var r := EliminatePairs(op, e1, e2);
    PairsCancel(op, e1, e2);
    FoldClean(op, r.0);
    FoldClean(op, r.1);
    assert EliminateEq(e1, e2) == (EliminateYn(r.0), EliminateYn(r.1));
    var x1, x2 := Parts(op, e1), Parts(op, e2);
    Differences(x1, x2);
  }

  lemma Differences(x: multiset<Shape>, y: multiset<Shape>)
    ensures x - y == multiset{} && y - x == multiset{} <==> x == y
    ensures forall a :: a in x - y ==> a !in y - x
  {
    if x - y == multiset{} && y - x == multiset{} {
      forall a
        ensures x[a] == y[a]
      {
        assert (x - y)[a] == 0 && (y - x)[a] == 0;
      }
    }
  }

  /** expr_eq says exactly whether two expressions differ in nothing but order and grouping of operands, at any depth. */
  lemma {:induction false} EqIsShape(e1: Expr, e2: Expr)
    requires Pure(e1) && Pure(e2)
    ensures Eq(e1, e2) <==> ShapeOf(e1) == ShapeOf(e2)
    decreases Weight(e1, e2), 2
  {
    if e1.Not? && e2.Not? {
      EqIsShape(e1.e, e2.e);
    } else if e1.Bin? && IsOp(e1.op, e2) {
      PureIsClean(e1.op, e1);
      PureIsClean(e1.op, e2);
      EqOfTrees(e1.op, e1, e2);
    }
  }

  /** In particular the order of two operands does not matter. */
  lemma {:induction false} EqCommutes(op: Op, a: Expr, b: Expr)
    requires Clean(op, a) && Clean(op, b)
    ensures Eq(Bin(op, a, b), Bin(op, b, a))
  {
    PartsOfBoth(op, a, b);
    PartsOfBoth(op, b, a);
    assert Parts(op, a) + Parts(op, b) == Parts(op, b) + Parts(op, a);
    EqOfTrees(op, Bin(op, a, b), Bin(op, b, a));
  }

  /** Nor does the grouping of three. */
  lemma {:induction false} EqRegroups(op: Op, a: Expr, b: Expr, c: Expr)
    requires Clean(op, a) && Clean(op, b) && Clean(op, c)
    ensures Eq(Bin(op, Bin(op, a, b), c), Bin(op, a, Bin(op, b, c)))
  {
    var ab, bc := Bin(op, a, b), Bin(op, b, c);
    PartsOfBoth(op, a, b);
    PartsOfBoth(op, b, c);
    PartsOfBoth(op, ab, c);
    PartsOfBoth(op, a, bc);
    Associates(Parts(op, a), Parts(op, b), Parts(op, c));
    EqOfTrees(op, Bin(op, ab, c), Bin(op, a, bc));
  }

  lemma Associates(x: multiset<Shape>, y: multiset<Shape>, z: multiset<Shape>)
    ensures x + y + z == x + (y + z)
  {
  }

  // ---------------------------------------------------------------- common operands

  function AccParts(op: Op, acc: Option<Expr>): multiset<Shape> {
    if acc.Some? then Parts(op, acc.value) else multiset{}
  }

  /** The operands both sides have are added to acc, as often as both have them. */
  predicate Gathers(acc: multiset<Shape>, x: multiset<Shape>, y: multiset<Shape>, acc': multiset<Shape>) {
    acc' == acc + x * y
  }

  lemma GathersTwice(
      acc: multiset<Shape>, l: multiset<Shape>, r: multiset<Shape>, x: multiset<Shape>, l': multiset<Shape>,
      x': multiset<Shape>, acc': multiset<Shape>, acc'': multiset<Shape>)
    requires Gathers(acc, l, x, acc') && Beyond(l, x, l', x') && Gathers(acc', r, x', acc'')
    ensures Gathers(acc, l + r, x, acc'')
  {
    assert (l * x) + (r * (x - l)) == (l + r) * x;
  }

  lemma GathersSwap(acc: multiset<Shape>, x: multiset<Shape>, y: multiset<Shape>, acc': multiset<Shape>)
    requires Gathers(acc, x, y, acc')
    ensures Gathers(acc, y, x, acc')
  {
    assert x * y == y * x;
  }

  ghost predicate GathersParts(op: Op, acc: Option<Expr>, e1: Expr, e2: Expr, acc': Option<Expr>) {
    Gathers(AccParts(op, acc), Parts(op, e1), Parts(op, e2), AccParts(op, acc'))
  }

  lemma {:induction false} GathersPartsTwice(
      op: Op, acc: Option<Expr>, l: Expr, r: Expr, x: Expr, l': Expr, x': Expr, acc': Option<Expr>, acc'': Option<Expr>)
    requires GathersParts(op, acc, l, x, acc') && GathersParts(op, acc', r, x', acc'')
    requires Cancelled(op, l, x, l', x')
    ensures GathersParts(op, acc, Bin(op, l, r), x, acc'')
  {
    PartsOfBoth(op, l, r);
    GathersTwice(AccParts(op, acc), Parts(op, l), Parts(op, r), Parts(op, x), Parts(op, l'), Parts(op, x'),
                 AccParts(op, acc'), AccParts(op, acc''));
  }

  /** Extraction moves the common operands to acc; the others stay. */
  lemma {:induction false} ExtractEqExactly(op: Op, acc: Option<Expr>, e1: Expr, e2: Expr)
    requires Clean(op, e1) && Clean(op, e2) && !HasZero(op, e1) && !HasZero(op, e2)
    ensures var r := ExtractEq(op, acc, e1, e2);
      Cancelled(op, e1, e2, r.1, r.2) && GathersParts(op, acc, e1, e2, r.0)
    decreases Weight(e1, e2)
  {
    if IsOp(op, e1) {
      var a := ExtractEq(op, acc, e1.l, e2);
      var b := ExtractEq(op, a.0, e1.r, a.2);
      ExtractEqExactly(op, acc, e1.l, e2);
      ExtractEqExactly(op, a.0, e1.r, a.2);
      CancelledTwice(op, e1.l, e1.r, e2, a.1, a.2, b.1, b.2);
      GathersPartsTwice(op, acc, e1.l, e1.r, e2, a.1, a.2, a.0, b.0);
    } else if IsOp(op, e2) {
      ExtractSecond(op, acc, e1, e2);
    } else {
      ExtractOne(op, acc, e1, e2);
    }
  }

  lemma {:induction false} ExtractSecond(op: Op, acc: Option<Expr>, e1: Expr, e2: Expr)
    requires Clean(op, e1) && Clean(op, e2) && !HasZero(op, e1) && !HasZero(op, e2)
    requires !IsOp(op, e1) && IsOp(op, e2)
    ensures var r := ExtractEq(op, acc, e1, e2);
      Cancelled(op, e1, e2, r.1, r.2) && GathersParts(op, acc, e1, e2, r.0)
    decreases Weight(e1, e2), 0
  {
    var a := ExtractEq(op, acc, e1, e2.l);
    var b := ExtractEq(op, a.0, a.1, e2.r);
    ExtractEqExactly(op, acc, e1, e2.l);
    ExtractEqExactly(op, a.0, a.1, e2.r);
    CancelledSwap(op, e1, e2.l, a.1, a.2);
    CancelledSwap(op, a.1, e2.r, b.1, b.2);
    CancelledTwice(op, e2.l, e2.r, e1, a.2, a.1, b.2, b.1);
    CancelledSwap(op, e2, e1, Bin(op, a.2, b.2), b.1);
    GathersSwap(AccParts(op, acc), Parts(op, e1), Parts(op, e2.l), AccParts(op, a.0));
    GathersSwap(AccParts(op, a.0), Parts(op, a.1), Parts(op, e2.r), AccParts(op, b.0));
    GathersPartsTwice(op, acc, e2.l, e2.r, e1, a.2, a.1, a.0, b.0);
    GathersSwap(AccParts(op, acc), Parts(op, e2), Parts(op, e1), AccParts(op, b.0));
  }

  lemma {:induction false} ExtractOne(op: Op, acc: Option<Expr>, e1: Expr, e2: Expr)
    requires Clean(op, e1) && Clean(op, e2) && !HasZero(op, e1) && !HasZero(op, e2)
    requires !IsOp(op, e1) && !IsOp(op, e2)
    ensures var r := ExtractEq(op, acc, e1, e2);
      Cancelled(op, e1, e2, r.1, r.2) && GathersParts(op, acc, e1, e2, r.0)
  {
    if IsYesNo(e1) || IsYesNo(e2) {
      ConstantApart(e1, e2);
      ExtractConstant(op, acc, e1, e2);
    } else {
      PureIsClean(op, e1);
      PureIsClean(op, e2);
      EqIsShape(e1, e2);
      if Eq(e1, e2) {
        ExtractSame(op, acc, e1, e2);
      } else {
        ExtractDifferent(op, acc, e1, e2);
      }
    }
  }

  lemma {:induction false} ExtractConstant(op: Op, acc: Option<Expr>, e1: Expr, e2: Expr)
    requires Clean(op, e1) && Clean(op, e2) && !HasZero(op, e1) && !HasZero(op, e2)
    requires !IsOp(op, e1) && !IsOp(op, e2) && (IsYesNo(e1) || IsYesNo(e2)) && (Eq(e1, e2) <==> e1 == e2)
    ensures var r := ExtractEq(op, acc, e1, e2);
      Cancelled(op, e1, e2, r.1, r.2) && GathersParts(op, acc, e1, e2, r.0)
  {
    if IsYesNo(e1) {
      assert Parts(op, e1) == multiset{};
    } else {
      assert Parts(op, e2) == multiset{};
    }
    NothingCommon(AccParts(op, acc), Parts(op, e1), Parts(op, e2));
    if e1 == e2 {
      assert e1 == Sym(UnitSym(op));
      UnitGathered(op, acc);
    }
  }

  /** The unit constant extracted along with the operands does not matter. */
  lemma {:induction false} UnitGathered(op: Op, acc: Option<Expr>)
    ensures var unit := Sym(UnitSym(op));
      AccParts(op, Some(if acc.Some? then Bin(op, acc.value, unit) else unit)) == AccParts(op, acc)
  {
    var unit := Sym(UnitSym(op));
    assert Parts(op, unit) == multiset{};
    if acc.Some? {
      PartsOfBoth(op, acc.value, unit);
      assert Parts(op, acc.value) + multiset{} == Parts(op, acc.value);
    }
  }

  lemma NothingCommon(acc: multiset<Shape>, x: multiset<Shape>, y: multiset<Shape>)
    requires x == multiset{} || y == multiset{}
    ensures Beyond(x, y, x, y) && Gathers(acc, x, y, acc)
  {
  }

  lemma {:induction false} ExtractSame(op: Op, acc: Option<Expr>, e1: Expr, e2: Expr)
    requires !IsOp(op, e1) && !IsOp(op, e2) && !IsYesNo(e1) && !IsYesNo(e2) && Eq(e1, e2)
    requires ShapeOf(e1) == ShapeOf(e2)
    ensures var r := ExtractEq(op, acc, e1, e2);
      r.1 == Sym(UnitSym(op)) && Parts(op, e1) == Parts(op, e2)
    ensures !HasZero(op, e1) && !HasZero(op, e2)
    ensures var r := ExtractEq(op, acc, e1, e2);
      Cancelled(op, e1, e2, r.1, r.2) && GathersParts(op, acc, e1, e2, r.0)
  {
    var x := Parts(op, e1);
    assert AccParts(op, ExtractEq(op, acc, e1, e2).0) == AccParts(op, acc) + x;
    assert x * x == x && x - x == multiset{};
  }

  lemma {:induction false} ExtractDifferent(op: Op, acc: Option<Expr>, e1: Expr, e2: Expr)
    requires Pure(e1) && Pure(e2) && !IsOp(op, e1) && !IsOp(op, e2) && !IsYesNo(e1) && !IsYesNo(e2)
    requires !Eq(e1, e2) && ShapeOf(e1) != ShapeOf(e2)
    ensures var r := ExtractEq(op, acc, e1, e2);
      Cancelled(op, e1, e2, r.1, r.2) && GathersParts(op, acc, e1, e2, r.0)
  {
    var a, b := ShapeOf(e1), ShapeOf(e2);
    assert ExtractEq(op, acc, e1, e2) == (acc, e1, e2);
    assert multiset{a} - multiset{b} == multiset{a} && multiset{b} - multiset{a} == multiset{b};
    assert multiset{a} * multiset{b} == multiset{};
  }

  /** Nothing is gathered only if nothing is changed. */
  lemma {:induction false} NothingExtracted(op: Op, acc: Option<Expr>, e1: Expr, e2: Expr)
    ensures var r := ExtractEq(op, acc, e1, e2); r.0.None? ==> acc.None? && r == (None, e1, e2)
    decreases Weight(e1, e2)
  {
    if IsOp(op, e1) {
      var a := ExtractEq(op, acc, e1.l, e2);
      NothingExtracted(op, acc, e1.l, e2);
      NothingExtracted(op, a.0, e1.r, a.2);
    } else if IsOp(op, e2) {
      var a := ExtractEq(op, acc, e1, e2.l);
      NothingExtracted(op, acc, e1, e2.l);
      NothingExtracted(op, a.0, a.1, e2.r);
    }
  }

  /** An operand is contradicted exactly if all operands of its transformed negation are among those beside it. */
  lemma {:induction false} ContradictsExactly(op: Op, e1: Expr, e2: Expr)
    requires Pure(Transform(Not(e1))) && Pure(e2)
    ensures Contradicts(op, e1, e2) <==> Parts(op, Transform(Not(e1))) <= Parts(op, e2)
  {
    var n := Transform(Not(e1));
    PureIsClean(op, n);
    PureIsClean(op, e2);
    PureHasParts(op, n);
    ExtractEqExactly(op, None, n, e2);
    NothingExtracted(op, None, n, e2);
    var r := ExtractEq(op, None, n, e2);
    FoldClean(op, r.1);
    Included(Parts(op, n), Parts(op, e2));
  }

  lemma {:induction false} PureHasParts(op: Op, e: Expr)
    requires Pure(e)
    ensures Parts(op, e) != multiset{}
  {
    if IsOp(op, e) {
      PureHasParts(op, e.l);
    } else {
      PureIsClean(op, e);
      assert ShapeOf(e) in Parts(op, e);
    }
  }

  lemma Included(x: multiset<Shape>, y: multiset<Shape>)
    ensures x - y == multiset{} <==> x <= y
    ensures x <= y && x * y == multiset{} ==> x == multiset{}
  {
    if x - y == multiset{} {
      forall a
        ensures x[a] <= y[a]
      {
        assert (x - y)[a] == 0;
      }
    }
  }

  /**
   * Whether the second of two conjunctions is implied: exactly if cancelling leaves nothing of it, that is, if all its
   * operands are among those of the first.
   */
  lemma {:induction false} ImpliedExactly(d: Expr, b: Expr)
    requires Pure(d) && Pure(b) && IsOp(Conj, d) && !IsOp(Disj, b)
    ensures EliminateEq(d, b).1 == Sym(SymYes) <==> Parts(Conj, b) <= Parts(Conj, d)
  {
    PureIsClean(Conj, d);
    PureIsClean(Conj, b);
    PairsCancel(Conj, d, b);
    var r := EliminatePairs(Conj, d, b);
    if !b.Bin? {
      PairsKeepBin(Conj, d, b);
    }
    assert EliminateEq(d, b).1 == EliminateYn(r.1);
    FoldClean(Conj, r.1);
    Included(Parts(Conj, b), Parts(Conj, d));
  }

  /** Cancelling makes no connective of another kind. */
  lemma {:induction false} PairsKeepBin(op: Op, e1: Expr, e2: Expr)
    requires !IsOp(op, e2) && !e2.Bin?
    ensures !EliminatePairs(op, e1, e2).1.Bin?
    decreases Weight(e1, e2)
  {
    if IsOp(op, e1) {
      PairsKeepBin(op, e1.l, e2);
      PairsKeepBin(op, e1.r, EliminatePairs(op, e1.l, e2).1);
    }
  }

  // ---------------------------------------------------------------- what expr_eliminate_dups leaves

  /** In the result no two operands of the outermost connective are the same, in whatever order and grouping. */
  lemma {:induction false} NoDuplicateLeft(e: Expr, p: Path, q: Path)
    requires var d := EliminateDups(e);
      d.Bin? && Pure(d) && Operand(d.op, d, p) && Operand(d.op, d, q) && p != q
    ensures var d := EliminateDups(e); ShapeOf(At(d, p)) != ShapeOf(At(d, q))
  {
    var d := EliminateDups(e);
    EliminateDupsFinished(e);
    PureAt(d.op, d, p);
    PureAt(d.op, d, q);
    EqIsShape(At(d, p), At(d, q));
  }

  lemma {:induction false} PureAt(op: Op, e: Expr, p: Path)
    requires On(op, e, p) && Pure(e)
    ensures Pure(At(e, p))
  {
    if p != [] {
      PureAt(op, Child(e, p[0]), p[1..]);
    }
  }
}
