/**
 * Removal of duplicate and contradictory operands
 * (expr_extract_eq, expr_eliminate_dups1, expr_eliminate_dups2 and expr_eliminate_dups
 * in scripts/kconfig/expr.c).
 */
module Dups {
  import opened Expressions
  import opened Slots
  import opened Equality
  import opened Transformation
  import opened Joins

  // ---------------------------------------------------------------- the shape of a connective tree

  /** The number of connectives op at the top of e. */
  function OpCount(op: Op, e: Expr): nat {
    if IsOp(op, e) then 1 + OpCount(op, e.l) + OpCount(op, e.r) else 0
  }

  /** Both have the same arrangement of connectives op at the top. */
  predicate SameShape(op: Op, e: Expr, e': Expr) {
    IsOp(op, e) == IsOp(op, e') &&
    (IsOp(op, e) ==> SameShape(op, e.l, e'.l) && SameShape(op, e.r, e'.r))
  }

  function Max(a: nat, b: nat): nat {
    if a < b then b else a
  }

  /** How often the connective changes below an op tree. */
  function Depth(op: Op, e: Expr): nat
    decreases e, if IsOp(op, e) then 0 else 1
  {
    if IsOp(op, e) then Max(Depth(op, e.l), Depth(op, e.r))
    else if e.Bin? then 1 + Depth(e.op, e)
    else 0
  }

  lemma {:induction false} SameShapeReflexive(op: Op, e: Expr)
    ensures SameShape(op, e, e)
  {
    if IsOp(op, e) {
      SameShapeReflexive(op, e.l);
      SameShapeReflexive(op, e.r);
    }
  }

  lemma {:induction false} SameShapeTransitive(op: Op, a: Expr, b: Expr, c: Expr)
    requires SameShape(op, a, b) && SameShape(op, b, c)
    ensures SameShape(op, a, c)
  {
    if IsOp(op, a) {
      SameShapeTransitive(op, a.l, b.l, c.l);
      SameShapeTransitive(op, a.r, b.r, c.r);
    }
  }

  lemma {:induction false} SameShapeSlot(op: Op, e: Expr, e': Expr, p: Path)
    requires SameShape(op, e, e') && On(op, e, p)
    ensures On(op, e', p) && SameShape(op, At(e, p), At(e', p))
  {
    if p != [] {
      SameShapeSlot(op, Child(e, p[0]), Child(e', p[0]), p[1..]);
    }
  }

  lemma {:induction false} SameShapeCount(op: Op, e: Expr, e': Expr)
    requires SameShape(op, e, e')
    ensures OpCount(op, e) == OpCount(op, e')
  {
    if IsOp(op, e) {
      SameShapeCount(op, e.l, e'.l);
      SameShapeCount(op, e.r, e'.r);
    }
  }

  /** Writing an operand over an operand keeps the shape and adds no depth of its own. */
  lemma {:induction false} PutOperand(op: Op, e: Expr, p: Path, x: Expr)
    requires On(op, e, p) && !IsOp(op, At(e, p)) && !IsOp(op, x)
    ensures SameShape(op, e, Put(e, p, x))
    ensures Depth(op, Put(e, p, x)) <= Max(Depth(op, e), Depth(op, x))
    ensures Depth(op, At(e, p)) <= Depth(op, e)
  {
    if p != [] {
      var d := p[0];
      PutOperand(op, Child(e, d), p[1..], x);
      SameShapeReflexive(op, e.l);
      SameShapeReflexive(op, e.r);
    }
  }

  lemma {:induction false} StepDown(op: Op, e: Expr, p: Path, d: Side)
    requires On(op, e, p) && IsOp(op, At(e, p))
    ensures On(op, e, p + [d]) && At(e, p + [d]) == Child(At(e, p), d)
  {
    if p == [] {
      assert (p + [d])[0] == d && (p + [d])[1..] == [];
    } else {
      assert (p + [d])[0] == p[0] && (p + [d])[1..] == p[1..] + [d];
      StepDown(op, Child(e, p[0]), p[1..], d);
    }
  }

  lemma ChildCount(op: Op, x: Expr, d: Side)
    requires IsOp(op, x)
    ensures OpCount(op, Child(x, d)) < OpCount(op, x)
  {
  }

  /** Going one step down from slot p, after changes that kept the shape, with slot q left where it is. */
  lemma {:induction false} Descend(op: Op, e: Expr, e': Expr, p: Path, q: Path, d: Side)
    requires SameShape(op, e, e') && On(op, e, p) && On(op, e, q) && IsOp(op, At(e, p))
    ensures On(op, e', p + [d]) && On(op, e', q) && On(op, e', p) && IsOp(op, At(e', p))
    ensures At(e', p + [d]) == Child(At(e', p), d)
    ensures OpCount(op, At(e', p + [d])) < OpCount(op, At(e, p))
    ensures OpCount(op, At(e', q)) == OpCount(op, At(e, q))
  {
    SameShapeSlot(op, e, e', p);
    SameShapeSlot(op, e, e', q);
    SameShapeCount(op, At(e, p), At(e', p));
    SameShapeCount(op, At(e, q), At(e', q));
    StepDown(op, e', p, d);
    ChildCount(op, At(e', p), d);
  }

  // ---------------------------------------------------------------- first pass: merging operands

  /** Merge the operand at p1 into the operand at p2, if a rule applies; also tells how many merges were made. */
  function MergeAt(op: Op, root: Expr, p1: Path, p2: Path): (r: (Expr, nat))
    requires On(op, root, p1) && On(op, root, p2) && Apart(p1, p2)
    requires !IsOp(op, At(root, p1)) && !IsOp(op, At(root, p2))
    ensures SameShape(op, root, r.0) && Depth(op, r.0) <= Depth(op, root)
  {
    var e1 := At(root, p1);
    var e2 := At(root, p2);
    var j := Join(op, e1, e2);
    SameShapeReflexive(op, root);
    if j.None? then (root, 0)
    else
      var gap := Put(root, p1, Sym(UnitSym(op)));
      JoinShape(op, e1, e2);
      PutOperand(op, root, p1, Sym(UnitSym(op)));
      PutApart(root, p1, p2, Sym(UnitSym(op)));
      PutOperand(op, gap, p2, j.value);
      SameShapeTransitive(op, root, gap, Put(gap, p2, j.value));
      (Put(gap, p2, j.value), 1)
  }

  /** expr_eliminate_dups1: merge every operand below slot p1 with every other operand below slot p2. */
  function Dups1(op: Op, root: Expr, p1: Path, p2: Path): (r: (Expr, nat))
    requires On(op, root, p1) && On(op, root, p2)
    ensures SameShape(op, root, r.0) && Depth(op, r.0) <= Depth(op, root)
    decreases Depth(op, root), OpCount(op, At(root, p1)) + OpCount(op, At(root, p2))
  {
    SameShapeReflexive(op, root);
    if IsOp(op, At(root, p1)) then
      Descend(op, root, root, p1, p2, Left);
      var a := Dups1(op, root, p1 + [Left], p2);
      Descend(op, root, a.0, p1, p2, Right);
      var b := Dups1(op, a.0, p1 + [Right], p2);
      SameShapeTransitive(op, root, a.0, b.0);
      (b.0, a.1 + b.1)
    else if IsOp(op, At(root, p2)) then
      Descend(op, root, root, p2, p1, Left);
      var a := Dups1(op, root, p1, p2 + [Left]);
      Descend(op, root, a.0, p2, p1, Right);
      var b := Dups1(op, a.0, p1, p2 + [Right]);
      SameShapeTransitive(op, root, a.0, b.0);
      (b.0, a.1 + b.1)
    else if p1 == p2 then (root, 0)
    else
      var e1 := At(root, p1);
      PutOperand(op, root, p1, e1);
      var inner := if e1.Bin? then Dups1(e1.op, e1, [], []) else (e1, 0);
      var root' := Put(root, p1, inner.0);
      PutOperand(op, root, p1, inner.0);
      LeavesApart(op, root, p1, p2);
      PutAt(root, p1, inner.0);
      PutApart(root, p1, p2, inner.0);
      var m := MergeAt(op, root', p1, p2);
      SameShapeTransitive(op, root, root', m.0);
      (m.0, inner.1 + m.1)
  }

  // ---------------------------------------------------------------- extraction of common operands

  /** expr_extract_eq: operands found on both sides move to acc and leave units behind. */
  function ExtractEq(op: Op, acc: Option<Expr>, e1: Expr, e2: Expr): (r: (Option<Expr>, Expr, Expr))
    ensures Size(r.1) <= Size(e1) && Size(r.2) <= Size(e2)
    decreases Weight(e1, e2)
  {
    if IsOp(op, e1) then
      var a := ExtractEq(op, acc, e1.l, e2);
      var b := ExtractEq(op, a.0, e1.r, a.2);
      (b.0, Bin(op, a.1, b.1), b.2)
    else if IsOp(op, e2) then
      var a := ExtractEq(op, acc, e1, e2.l);
      var b := ExtractEq(op, a.0, a.1, e2.r);
      (b.0, b.1, Bin(op, a.2, b.2))
    else if Eq(e1, e2) then
      (Some(if acc.Some? then Bin(op, acc.value, e1) else e1), Sym(UnitSym(op)), Sym(UnitSym(op)))
    else (acc, e1, e2)
  }

  /** expr_extract_eq_and, expr_extract_eq_or */
  function ExtractCommon(op: Op, e1: Expr, e2: Expr): (Option<Expr>, Expr, Expr) {
    var r := ExtractEq(op, None, e1, e2);
    if r.0.Some? then (r.0, EliminateYn(r.1), EliminateYn(r.2)) else r
  }

  function CommonValue(env: Env, op: Op, c: Option<Expr>): Tristate {
    if c.Some? then Calc(env, c.value) else Unit(op)
  }

  /** How the values of an extraction step combine. */
  predicate Extracted(op: Op, acc: Tristate, x: Tristate, acc': Tristate, x': Tristate) {
    Apply(op, acc', x') == Apply(op, acc, x)
  }

  lemma ExtractedTwice(op: Op, k: Tristate, k1: Tristate, k2: Tristate,
                       l: Tristate, l': Tristate, r: Tristate, r': Tristate,
                       x: Tristate, x': Tristate, x'': Tristate)
    requires Extracted(op, k, l, k1, l') && Extracted(op, k, x, k1, x')
    requires Extracted(op, k1, r, k2, r') && Extracted(op, k1, x', k2, x'')
    requires Apply(op, k1, k) == k1 && Apply(op, k2, k1) == k2
    ensures Extracted(op, k, Apply(op, l, r), k2, Apply(op, l', r')) && Extracted(op, k, x, k2, x'')
    ensures Apply(op, k2, k) == k2
  {
  }

  lemma {:induction false} ExtractEqValue(env: Env, op: Op, acc: Option<Expr>, e1: Expr, e2: Expr)
    ensures var r := ExtractEq(op, acc, e1, e2);
      var k, k' := CommonValue(env, op, acc), CommonValue(env, op, r.0);
      Extracted(op, k, Calc(env, e1), k', Calc(env, r.1)) &&
      Extracted(op, k, Calc(env, e2), k', Calc(env, r.2)) &&
      Apply(op, k', k) == k'
    decreases Weight(e1, e2)
  {
    var k := CommonValue(env, op, acc);
    if IsOp(op, e1) {
      var a := ExtractEq(op, acc, e1.l, e2);
      var b := ExtractEq(op, a.0, e1.r, a.2);
      ExtractEqValue(env, op, acc, e1.l, e2);
      ExtractEqValue(env, op, a.0, e1.r, a.2);
      ExtractedTwice(op, k, CommonValue(env, op, a.0), CommonValue(env, op, b.0),
                     Calc(env, e1.l), Calc(env, a.1), Calc(env, e1.r), Calc(env, b.1),
                     Calc(env, e2), Calc(env, a.2), Calc(env, b.2));
    } else if IsOp(op, e2) {
      var a := ExtractEq(op, acc, e1, e2.l);
      var b := ExtractEq(op, a.0, a.1, e2.r);
      ExtractEqValue(env, op, acc, e1, e2.l);
      ExtractEqValue(env, op, a.0, a.1, e2.r);
      ExtractedTwice(op, k, CommonValue(env, op, a.0), CommonValue(env, op, b.0),
                     Calc(env, e2.l), Calc(env, a.2), Calc(env, e2.r), Calc(env, b.2),
                     Calc(env, e1), Calc(env, a.1), Calc(env, b.1));
    } else if Eq(e1, e2) {
      EqSound(env, e1, e2);
    }
  }

  /** Factoring: each argument is what both have in common, combined with what is left of it. */
  lemma ExtractCommonValue(env: Env, op: Op, e1: Expr, e2: Expr)
    ensures var r := ExtractCommon(op, e1, e2);
      Calc(env, e1) == Apply(op, CommonValue(env, op, r.0), Calc(env, r.1)) &&
      Calc(env, e2) == Apply(op, CommonValue(env, op, r.0), Calc(env, r.2))
  {
    var r := ExtractEq(op, None, e1, e2);
    ExtractEqValue(env, op, None, e1, e2);
    EliminateYnValue(env, r.1);
    EliminateYnValue(env, r.2);
  }

  // ---------------------------------------------------------------- second pass: contradictions

  /** Whether everything the negation of e1 demands is already demanded by e2. */
  predicate Contradicts(op: Op, e1: Expr, e2: Expr) {
    ExtractCommon(op, Transform(Not(e1)), e2).1 == Sym(UnitSym(op))
  }

  /** Replace the operand at p1 by the deciding constant if it contradicts what is at p2. */
  function ContradictAt(op: Op, root: Expr, p1: Path, p2: Path): (r: (Expr, nat))
    requires On(op, root, p1) && On(op, root, p2) && !IsOp(op, At(root, p1))
    ensures SameShape(op, root, r.0) && Depth(op, r.0) <= Depth(op, root)
  {
    SameShapeReflexive(op, root);
    PutOperand(op, root, p1, Sym(ZeroSym(op)));
    if Contradicts(op, At(root, p1), At(root, p2)) then (Put(root, p1, Sym(ZeroSym(op))), 1) else (root, 0)
  }

  /** expr_eliminate_dups2: compare every operand below p1 with every connective tree below p2. */
  function Dups2(op: Op, root: Expr, p1: Path, p2: Path): (r: (Expr, nat))
    requires On(op, root, p1) && On(op, root, p2)
    ensures SameShape(op, root, r.0) && Depth(op, r.0) <= Depth(op, root)
    decreases Depth(op, root), OpCount(op, At(root, p1)) + OpCount(op, At(root, p2)), 1
  {
    SameShapeReflexive(op, root);
    if IsOp(op, At(root, p1)) then
      Descend(op, root, root, p1, p2, Left);
      var a := Dups2(op, root, p1 + [Left], p2);
      Descend(op, root, a.0, p1, p2, Right);
      var b := Dups2(op, a.0, p1 + [Right], p2);
      SameShapeTransitive(op, root, a.0, b.0);
      (b.0, a.1 + b.1)
    else if IsOp(op, At(root, p2)) then
      Descend(op, root, root, p2, p1, Left);
      var a := Dups2(op, root, p1, p2 + [Left]);
      Descend(op, root, a.0, p2, p1, Right);
      var b := Dups2(op, a.0, p1, p2 + [Right]);
      SameShapeTransitive(op, root, a.0, b.0);
      SameShapeSlot(op, root, b.0, p1);
      SameShapeSlot(op, root, b.0, p2);
      SameShapeCount(op, At(root, p1), At(b.0, p1));
      SameShapeCount(op, At(root, p2), At(b.0, p2));
      var c := Dups2Leaf(op, b.0, p1, p2);
      SameShapeTransitive(op, root, b.0, c.0);
      (c.0, a.1 + b.1 + c.1)
    else if p1 == p2 then (root, 0)
    else Dups2Leaf(op, root, p1, p2)
  }

  /** The comparison of one operand, itself processed first, with the tree at p2. */
  function Dups2Leaf(op: Op, root: Expr, p1: Path, p2: Path): (r: (Expr, nat))
    requires On(op, root, p1) && On(op, root, p2) && !IsOp(op, At(root, p1)) && p1 != p2
    ensures SameShape(op, root, r.0) && Depth(op, r.0) <= Depth(op, root)
    decreases Depth(op, root), OpCount(op, At(root, p1)) + OpCount(op, At(root, p2)), 0
  {
    SameShapeReflexive(op, root);
    var e1 := At(root, p1);
    if !e1.Bin? then (root, 0)
    else
      PutOperand(op, root, p1, e1);
      var inner := Dups2(e1.op, e1, [], []);
      var root' := Put(root, p1, inner.0);
      PutOperand(op, root, p1, inner.0);
      PutAt(root, p1, inner.0);
      SameShapeSlot(op, root, root', p2);
      var m := ContradictAt(op, root', p1, p2);
      SameShapeTransitive(op, root, root', m.0);
      (m.0, inner.1 + m.1)
  }

  // ---------------------------------------------------------------- the loop

  /** One round of expr_eliminate_dups and the number of changes it counted. */
  function Round(e: Expr): (Expr, nat) {
    if !e.Bin? then (e, 0)
    else
      var a := Dups1(e.op, e, [], []);
      var b := Dups2(e.op, a.0, [], []);
      (b.0, a.1 + b.1)
  }

  /** The operands counted with multiplicity. */
  function Leaves(e: Expr): (n: nat)
    ensures n > 0
  {
    if e.Bin? then Leaves(e.l) + Leaves(e.r) else 1
  }

  lemma {:induction false} EliminateYnLeaves(e: Expr)
    ensures Leaves(EliminateYn(e)) <= Leaves(e)
    ensures !Folded(e) ==> Leaves(EliminateYn(e)) < Leaves(e)
  {
    if e.Bin? {
      EliminateYnLeaves(e.l);
      EliminateYnLeaves(e.r);
    }
  }

  lemma {:induction false} PutLeaves(op: Op, e: Expr, p: Path, x: Expr)
    requires On(op, e, p)
    ensures Leaves(Put(e, p, x)) == Leaves(e) - Leaves(At(e, p)) + Leaves(x)
    ensures (p != [] && IsYesNo(x)) || !Folded(x) ==> !Folded(Put(e, p, x))
  {
    if p != [] {
      PutLeaves(op, Child(e, p[0]), p[1..], x);
    }
  }

  lemma {:induction false} PutNotFolded(op: Op, e: Expr, p: Path, q: Path, x: Expr)
    requires On(op, e, p) && On(op, e, q) && Apart(p, q) && IsYesNo(At(e, q))
    ensures !Folded(Put(e, p, x))
  {
    PutApart(e, p, q, x);
    NotFoldedAt(op, Put(e, p, x), q);
  }

  lemma {:induction false} NotFoldedAt(op: Op, e: Expr, q: Path)
    requires On(op, e, q) && q != [] && IsYesNo(At(e, q))
    ensures !Folded(e)
  {
    assert At(e, q) == At(Child(e, q[0]), q[1..]);
    if q[1..] == [] {
      assert IsYesNo(Child(e, q[0]));
    } else {
      NotFoldedAt(op, Child(e, q[0]), q[1..]);
    }
  }

  // ---------------------------------------------------------------- values

  /** Writing an operand of the same value changes nothing. */
  lemma PutSameValue(env: Env, op: Op, e: Expr, p: Path, x: Expr)
    requires On(op, e, p) && Calc(env, x) == Calc(env, At(e, p))
    ensures Calc(env, Put(e, p, x)) == Calc(env, e)
  {
    PutAt(e, p, x);
    Split(env, op, e, p, x);
    Split(env, op, e, p, At(e, p));
  }

  lemma {:induction false} MergeAtValue(env: Env, op: Op, root: Expr, p1: Path, p2: Path)
    requires WellTyped(env) && On(op, root, p1) && On(op, root, p2) && Apart(p1, p2)
    requires !IsOp(op, At(root, p1)) && !IsOp(op, At(root, p2))
    ensures Calc(env, MergeAt(op, root, p1, p2).0) == Calc(env, root)
  {
    var e1 := At(root, p1);
    var e2 := At(root, p2);
    var j := Join(op, e1, e2);
    if j.Some? {
      var gap := Put(root, p1, Sym(UnitSym(op)));
      PutAt(root, p1, e1);
      PutApart(root, p1, p2, Sym(UnitSym(op)));
      PutAt(gap, p2, e2);
      Split(env, op, root, p1, e1);
      Split(env, op, gap, p2, e2);
      Split(env, op, gap, p2, j.value);
      JoinValue(env, op, e1, e2);
    }
  }

  /** The first pass preserves the value in every well-typed environment, for any two slots of one tree. */
  lemma {:induction false} Dups1Value(env: Env, op: Op, root: Expr, p1: Path, p2: Path)
    requires WellTyped(env) && On(op, root, p1) && On(op, root, p2)
    ensures Calc(env, Dups1(op, root, p1, p2).0) == Calc(env, root)
    decreases Depth(op, root), OpCount(op, At(root, p1)) + OpCount(op, At(root, p2))
  {
    SameShapeReflexive(op, root);
    if IsOp(op, At(root, p1)) {
      Descend(op, root, root, p1, p2, Left);
      Dups1Value(env, op, root, p1 + [Left], p2);
      var a := Dups1(op, root, p1 + [Left], p2);
      Descend(op, root, a.0, p1, p2, Right);
      Dups1Value(env, op, a.0, p1 + [Right], p2);
    } else if IsOp(op, At(root, p2)) {
      Descend(op, root, root, p2, p1, Left);
      Dups1Value(env, op, root, p1, p2 + [Left]);
      var a := Dups1(op, root, p1, p2 + [Left]);
      Descend(op, root, a.0, p2, p1, Right);
      Dups1Value(env, op, a.0, p1, p2 + [Right]);
    } else if p1 != p2 {
      var e1 := At(root, p1);
      PutOperand(op, root, p1, e1);
      var inner := if e1.Bin? then Dups1(e1.op, e1, [], []) else (e1, 0);
      if e1.Bin? {
        Dups1Value(env, e1.op, e1, [], []);
      }
      var root' := Put(root, p1, inner.0);
      PutOperand(op, root, p1, inner.0);
      LeavesApart(op, root, p1, p2);
      PutAt(root, p1, inner.0);
      PutApart(root, p1, p2, inner.0);
      PutSameValue(env, op, root, p1, inner.0);
      MergeAtValue(env, op, root', p1, p2);
    }
  }

  /** A merge leaves the unit in the first slot and the joined operand in the second; every other slot is as it was. */
  lemma MergeAtSlots(op: Op, root: Expr, p1: Path, p2: Path, q: Path)
    requires On(op, root, p1) && On(op, root, p2) && On(op, root, q)
    requires Apart(p1, p2) && Apart(p1, q) && Apart(p2, q)
    requires !IsOp(op, At(root, p1)) && !IsOp(op, At(root, p2))
    ensures var j, r := Join(op, At(root, p1), At(root, p2)), MergeAt(op, root, p1, p2);
      if j.None? then r == (root, 0)
      else
        On(op, r.0, p1) && On(op, r.0, p2) && On(op, r.0, q) && r.1 == 1 &&
        At(r.0, p1) == Sym(UnitSym(op)) && At(r.0, p2) == j.value && At(r.0, q) == At(root, q)
  {
    var j := Join(op, At(root, p1), At(root, p2));
    if j.Some? {
      var unit := Sym(UnitSym(op));
      var gap := Put(root, p1, unit);
      PutOperand(op, root, p1, unit);
      SameShapeSlot(op, root, gap, p1);
      SameShapeSlot(op, root, gap, p2);
      SameShapeSlot(op, root, gap, q);
      JoinShape(op, At(root, p1), At(root, p2));
      PutAt(root, p1, unit);
      PutApart(root, p1, p2, unit);
      PutApart(root, p1, q, unit);
      PutOperand(op, gap, p2, j.value);
      ApartSymmetric(p1, p2);
      PutAt(gap, p2, j.value);
      PutApart(gap, p2, p1, j.value);
      PutApart(gap, p2, q, j.value);
      SameShapeSlot(op, gap, Put(gap, p2, j.value), p1);
      SameShapeSlot(op, gap, Put(gap, p2, j.value), p2);
      SameShapeSlot(op, gap, Put(gap, p2, j.value), q);
    }
  }

  /** A contradiction leaves the deciding constant in the first slot, and every other slot as it was. */
  lemma ContradictAtSlots(op: Op, root: Expr, p1: Path, p2: Path, q: Path)
    requires On(op, root, p1) && On(op, root, p2) && On(op, root, q) && Apart(p1, q) && !IsOp(op, At(root, p1))
    ensures var r := ContradictAt(op, root, p1, p2);
      if !Contradicts(op, At(root, p1), At(root, p2)) then r == (root, 0)
      else
        On(op, r.0, p1) && On(op, r.0, q) && r.1 == 1 &&
        At(r.0, p1) == Sym(ZeroSym(op)) && At(r.0, q) == At(root, q)
  {
    var zero := Sym(ZeroSym(op));
    PutOperand(op, root, p1, zero);
    PutAt(root, p1, zero);
    PutApart(root, p1, q, zero);
    SameShapeSlot(op, root, Put(root, p1, zero), p1);
    SameShapeSlot(op, root, Put(root, p1, zero), q);
  }

  // ---------------------------------------------------------------- effects of the first pass

  /** No change, or a constant y or n appears as an operand; never more operands; the form is kept. */
  ghost predicate Shrinks(e: Expr, r: (Expr, nat)) {
    (r.1 == 0 ==> r.0 == e) &&
    Leaves(r.0) <= Leaves(e) &&
    (r.1 > 0 ==> !Folded(r.0)) &&
    KeepsForm(e, r.0)
  }

  lemma {:induction false} SlotForm(op: Op, e: Expr, p: Path, x: Expr)
    requires On(op, e, p)
    ensures KeepsForm(e, At(e, p))
    ensures Normal(e) && Normal(x) ==> Normal(Put(e, p, x))
    ensures LogicOperands(e) && LogicOperands(x) ==> LogicOperands(Put(e, p, x))
  {
    if p != [] {
      SlotForm(op, Child(e, p[0]), p[1..], x);
    }
  }

  lemma {:induction false} MergeAtShrinks(op: Op, root: Expr, p1: Path, p2: Path)
    requires On(op, root, p1) && On(op, root, p2) && Apart(p1, p2)
    requires !IsOp(op, At(root, p1)) && !IsOp(op, At(root, p2))
    ensures Shrinks(root, MergeAt(op, root, p1, p2))
  {
    var e1 := At(root, p1);
    var e2 := At(root, p2);
    var j := Join(op, e1, e2);
    if j.Some? {
      var unit := Sym(UnitSym(op));
      var gap := Put(root, p1, unit);
      PutAt(root, p1, unit);
      PutApart(root, p1, p2, unit);
      PutLeaves(op, root, p1, unit);
      PutLeaves(op, gap, p2, j.value);
      JoinShape(op, e1, e2);
      ApartSymmetric(p1, p2);
      PutNotFolded(op, gap, p2, p1, j.value);
      SlotForm(op, root, p1, unit);
      SlotForm(op, root, p2, unit);
      SlotForm(op, gap, p2, j.value);
    }
  }

  lemma {:induction false} ApartSymmetric(p: Path, q: Path)
    requires Apart(p, q)
    ensures Apart(q, p)
  {
    if p[0] == q[0] {
      ApartSymmetric(p[1..], q[1..]);
    }
  }

  lemma ShrinksTwice(e: Expr, a: (Expr, nat), b: (Expr, nat))
    requires Shrinks(e, a) && Shrinks(a.0, b)
    ensures Shrinks(e, (b.0, a.1 + b.1))
  {
  }

  lemma {:induction false} Dups1Shrinks(op: Op, root: Expr, p1: Path, p2: Path)
    requires On(op, root, p1) && On(op, root, p2)
    ensures Shrinks(root, Dups1(op, root, p1, p2))
    decreases Depth(op, root), OpCount(op, At(root, p1)) + OpCount(op, At(root, p2)), 1
  {
    SameShapeReflexive(op, root);
    if IsOp(op, At(root, p1)) {
      Descend(op, root, root, p1, p2, Left);
      Dups1Shrinks(op, root, p1 + [Left], p2);
      var a := Dups1(op, root, p1 + [Left], p2);
      Descend(op, root, a.0, p1, p2, Right);
      Dups1Shrinks(op, a.0, p1 + [Right], p2);
      ShrinksTwice(root, a, Dups1(op, a.0, p1 + [Right], p2));
    } else if IsOp(op, At(root, p2)) {
      Descend(op, root, root, p2, p1, Left);
      Dups1Shrinks(op, root, p1, p2 + [Left]);
      var a := Dups1(op, root, p1, p2 + [Left]);
      Descend(op, root, a.0, p2, p1, Right);
      Dups1Shrinks(op, a.0, p1, p2 + [Right]);
      ShrinksTwice(root, a, Dups1(op, a.0, p1, p2 + [Right]));
    } else if p1 != p2 {
      Dups1LeafShrinks(op, root, p1, p2);
    }
  }

  lemma {:induction false} Dups1LeafShrinks(op: Op, root: Expr, p1: Path, p2: Path)
    requires On(op, root, p1) && On(op, root, p2) && p1 != p2
    requires !IsOp(op, At(root, p1)) && !IsOp(op, At(root, p2))
    ensures Shrinks(root, Dups1(op, root, p1, p2))
    decreases Depth(op, root), OpCount(op, At(root, p1)) + OpCount(op, At(root, p2)), 0
  {
    var e1 := At(root, p1);
    PutOperand(op, root, p1, e1);
    var inner := if e1.Bin? then Dups1(e1.op, e1, [], []) else (e1, 0);
    if e1.Bin? {
      Dups1Shrinks(e1.op, e1, [], []);
    }
    InnerShrinks(op, root, p1, inner);
    var root' := Put(root, p1, inner.0);
    PutOperand(op, root, p1, inner.0);
    LeavesApart(op, root, p1, p2);
    PutAt(root, p1, inner.0);
    PutApart(root, p1, p2, inner.0);
    MergeAtShrinks(op, root', p1, p2);
    ShrinksTwice(root, (root', inner.1), MergeAt(op, root', p1, p2));
  }

  /** A shrinking change of one operand is a shrinking change of the whole. */
  lemma InnerShrinks(op: Op, root: Expr, p: Path, inner: (Expr, nat))
    requires On(op, root, p) && Shrinks(At(root, p), inner)
    ensures Shrinks(root, (Put(root, p, inner.0), inner.1))
  {
    PutAt(root, p, inner.0);
    PutLeaves(op, root, p, inner.0);
    SlotForm(op, root, p, inner.0);
  }

  // ---------------------------------------------------------------- effects of the second pass

  /** The value may change only where it was "m". */
  predicate OnlyModChanges(before: Tristate, after: Tristate) {
    before == Mod || before == after
  }

  /** Such a change of one operand is such a change of the whole: "m" carries the least information. */
  lemma PutOnlyModChanges(env: Env, op: Op, e: Expr, p: Path, x: Expr)
    requires On(op, e, p) && OnlyModChanges(Calc(env, At(e, p)), Calc(env, x))
    ensures OnlyModChanges(Calc(env, e), Calc(env, Put(e, p, x)))
  {
    PutAt(e, p, x);
    Split(env, op, e, p, x);
    Split(env, op, e, p, At(e, p));
  }

  /** v is the whole, x the operand, y what stands beside it, c what !x and y have in common. */
  lemma ContradictionBound(op: Op, v: Tristate, x: Tristate, y: Tristate, c: Tristate,
                           u1: Tristate, u2: Tristate, u3: Tristate)
    requires v == Apply(op, x, u1) && v == Apply(op, y, u2)
    requires Neg(x) == Apply(op, c, Unit(op)) && y == Apply(op, c, u3)
    ensures v == Mod || v == Zero(op)
  {
  }

  /** A replaced operand made the whole at most "m" (dually at least "m"), and now decides it. */
  lemma {:induction false} ContradictAtValue(env: Env, op: Op, root: Expr, p1: Path, p2: Path)
    requires WellTyped(env) && On(op, root, p1) && On(op, root, p2) && !IsOp(op, At(root, p1))
    ensures OnlyModChanges(Calc(env, root), Calc(env, ContradictAt(op, root, p1, p2).0))
    ensures Contradicts(op, At(root, p1), At(root, p2)) ==>
      Calc(env, root) != Unit(op) && Calc(env, ContradictAt(op, root, p1, p2).0) == Zero(op)
  {
    var e1 := At(root, p1);
    var e2 := At(root, p2);
    if Contradicts(op, e1, e2) {
      var unit := Sym(UnitSym(op));
      TransformValue(env, Not(e1));
      ExtractCommonValue(env, op, Transform(Not(e1)), e2);
      var x := ExtractCommon(op, Transform(Not(e1)), e2);
      PutAt(root, p1, e1);
      PutAt(root, p2, e2);
      Split(env, op, root, p1, e1);
      Split(env, op, root, p1, Sym(ZeroSym(op)));
      Split(env, op, root, p2, e2);
      ContradictionBound(op, Calc(env, root), Calc(env, e1), Calc(env, e2), CommonValue(env, op, x.0),
                         Calc(env, Put(root, p1, unit)), Calc(env, Put(root, p2, unit)), Calc(env, x.2));
    }
  }

  lemma {:induction false} Dups2Value(env: Env, op: Op, root: Expr, p1: Path, p2: Path)
    requires WellTyped(env) && On(op, root, p1) && On(op, root, p2)
    ensures OnlyModChanges(Calc(env, root), Calc(env, Dups2(op, root, p1, p2).0))
    decreases Depth(op, root), OpCount(op, At(root, p1)) + OpCount(op, At(root, p2)), 1
  {
    SameShapeReflexive(op, root);
    if IsOp(op, At(root, p1)) {
      Descend(op, root, root, p1, p2, Left);
      Dups2Value(env, op, root, p1 + [Left], p2);
      var a := Dups2(op, root, p1 + [Left], p2);
      Descend(op, root, a.0, p1, p2, Right);
      Dups2Value(env, op, a.0, p1 + [Right], p2);
    } else if IsOp(op, At(root, p2)) {
      Descend(op, root, root, p2, p1, Left);
      Dups2Value(env, op, root, p1, p2 + [Left]);
      var a := Dups2(op, root, p1, p2 + [Left]);
      Descend(op, root, a.0, p2, p1, Right);
      Dups2Value(env, op, a.0, p1, p2 + [Right]);
      var b := Dups2(op, a.0, p1, p2 + [Right]);
      SameShapeTransitive(op, root, a.0, b.0);
      SameShapeSlot(op, root, b.0, p1);
      SameShapeSlot(op, root, b.0, p2);
      SameShapeCount(op, At(root, p1), At(b.0, p1));
      SameShapeCount(op, At(root, p2), At(b.0, p2));
      Dups2LeafValue(env, op, b.0, p1, p2);
    } else if p1 != p2 {
      Dups2LeafValue(env, op, root, p1, p2);
    }
  }

  lemma {:induction false} Dups2LeafValue(env: Env, op: Op, root: Expr, p1: Path, p2: Path)
    requires WellTyped(env) && On(op, root, p1) && On(op, root, p2) && !IsOp(op, At(root, p1)) && p1 != p2
    ensures OnlyModChanges(Calc(env, root), Calc(env, Dups2Leaf(op, root, p1, p2).0))
    decreases Depth(op, root), OpCount(op, At(root, p1)) + OpCount(op, At(root, p2)), 0
  {
    var e1 := At(root, p1);
    if e1.Bin? {
      PutOperand(op, root, p1, e1);
      Dups2Value(env, e1.op, e1, [], []);
      var inner := Dups2(e1.op, e1, [], []);
      PutOnlyModChanges(env, op, root, p1, inner.0);
      PutAt(root, p1, inner.0);
      PutOperand(op, root, p1, inner.0);
      SameShapeSlot(op, root, Put(root, p1, inner.0), p2);
      ContradictAtValue(env, op, Put(root, p1, inner.0), p1, p2);
    }
  }

  /** No change, or strictly fewer operands; the form is kept. */
  ghost predicate Drops(e: Expr, r: (Expr, nat)) {
    (r.1 == 0 ==> r.0 == e) &&
    (r.1 > 0 ==> Leaves(r.0) < Leaves(e)) &&
    KeepsForm(e, r.0)
  }

  lemma DropsTwice(e: Expr, a: (Expr, nat), b: (Expr, nat))
    requires Drops(e, a) && Drops(a.0, b)
    ensures Drops(e, (b.0, a.1 + b.1))
  {
  }

  lemma {:induction false} Dups2Drops(op: Op, root: Expr, p1: Path, p2: Path)
    requires On(op, root, p1) && On(op, root, p2)
    ensures Drops(root, Dups2(op, root, p1, p2))
    decreases Depth(op, root), OpCount(op, At(root, p1)) + OpCount(op, At(root, p2)), 2
  {
    SameShapeReflexive(op, root);
    if IsOp(op, At(root, p1)) {
      Descend(op, root, root, p1, p2, Left);
      Dups2Drops(op, root, p1 + [Left], p2);
      var a := Dups2(op, root, p1 + [Left], p2);
      Descend(op, root, a.0, p1, p2, Right);
      Dups2Drops(op, a.0, p1 + [Right], p2);
      DropsTwice(root, a, Dups2(op, a.0, p1 + [Right], p2));
    } else if IsOp(op, At(root, p2)) {
      Dups2SecondDrops(op, root, p1, p2);
    } else if p1 != p2 {
      Dups2LeafDrops(op, root, p1, p2);
    }
  }

  lemma {:induction false} Dups2SecondDrops(op: Op, root: Expr, p1: Path, p2: Path)
    requires On(op, root, p1) && On(op, root, p2) && !IsOp(op, At(root, p1)) && IsOp(op, At(root, p2))
    ensures Drops(root, Dups2(op, root, p1, p2))
    decreases Depth(op, root), OpCount(op, At(root, p1)) + OpCount(op, At(root, p2)), 1
  {
    SameShapeReflexive(op, root);
    Descend(op, root, root, p2, p1, Left);
    Dups2Drops(op, root, p1, p2 + [Left]);
    var a := Dups2(op, root, p1, p2 + [Left]);
    Descend(op, root, a.0, p2, p1, Right);
    Dups2Drops(op, a.0, p1, p2 + [Right]);
    var b := Dups2(op, a.0, p1, p2 + [Right]);
    DropsTwice(root, a, b);
    SameShapeTransitive(op, root, a.0, b.0);
    SameShapeSlot(op, root, b.0, p1);
    SameShapeSlot(op, root, b.0, p2);
    SameShapeCount(op, At(root, p1), At(b.0, p1));
    SameShapeCount(op, At(root, p2), At(b.0, p2));
    Dups2LeafDrops(op, b.0, p1, p2);
    DropsTwice(root, (b.0, a.1 + b.1), Dups2Leaf(op, b.0, p1, p2));
  }

  lemma {:induction false} Dups2LeafDrops(op: Op, root: Expr, p1: Path, p2: Path)
    requires On(op, root, p1) && On(op, root, p2) && !IsOp(op, At(root, p1)) && p1 != p2
    ensures Drops(root, Dups2Leaf(op, root, p1, p2))
    decreases Depth(op, root), OpCount(op, At(root, p1)) + OpCount(op, At(root, p2)), 0
  {
    var e1 := At(root, p1);
    if e1.Bin? {
      PutOperand(op, root, p1, e1);
      Dups2Drops(e1.op, e1, [], []);
      var inner := Dups2(e1.op, e1, [], []);
      var root' := Put(root, p1, inner.0);
      PutAt(root, p1, inner.0);
      PutLeaves(op, root, p1, inner.0);
      PutLeaves(op, root', p1, Sym(ZeroSym(op)));
      SlotForm(op, root, p1, inner.0);
      SlotForm(op, root', p1, Sym(ZeroSym(op)));
    }
  }

  // ---------------------------------------------------------------- expr_eliminate_dups

  /** A round that counts a change leaves fewer operands once the constants are folded. */
  lemma RoundProgress(e: Expr)
    ensures var r := Round(e);
      (r.1 == 0 ==> r.0 == e) &&
      (r.1 > 0 ==> Leaves(EliminateYn(r.0)) < Leaves(e)) &&
      KeepsForm(e, r.0)
  {
    if e.Bin? {
      var a := Dups1(e.op, e, [], []);
      Dups1Shrinks(e.op, e, [], []);
      Dups2Drops(e.op, a.0, [], []);
      EliminateYnLeaves(Round(e).0);
    }
  }

  lemma RoundValue(env: Env, e: Expr)
    requires WellTyped(env)
    ensures OnlyModChanges(Calc(env, e), Calc(env, Round(e).0))
  {
    if e.Bin? {
      Dups1Value(env, e.op, e, [], []);
      Dups2Value(env, e.op, Dups1(e.op, e, [], []).0, [], []);
    }
  }

  lemma {:induction false} EliminateYnForm(e: Expr)
    ensures KeepsForm(e, EliminateYn(e))
  {
    if e.Bin? {
      EliminateYnForm(e.l);
      EliminateYnForm(e.r);
    }
  }

  /** expr_eliminate_dups: rounds until one counts no change. */
  function EliminateDups(e: Expr): (r: Expr)
    ensures Leaves(r) <= Leaves(e)
    decreases Leaves(e)
  {
    RoundProgress(e);
    var r := Round(e);
    if r.1 == 0 then e else EliminateDups(EliminateYn(r.0))
  }

  /** A value of yes or no survives; only "m" may change. */
  lemma {:induction false} EliminateDupsValue(env: Env, e: Expr)
    requires WellTyped(env)
    ensures OnlyModChanges(Calc(env, e), Calc(env, EliminateDups(e)))
    decreases Leaves(e)
  {
    RoundProgress(e);
    RoundValue(env, e);
    var r := Round(e);
    if r.1 != 0 {
      EliminateYnValue(env, r.0);
      EliminateDupsValue(env, EliminateYn(r.0));
    }
  }

  /** With two-valued symbols the value is exactly preserved. */
  lemma EliminateDupsExact(env: Env, e: Expr)
    requires WellTyped(env) && forall s <- Symbols(e) :: TriOf(env, s) != Mod
    ensures Calc(env, EliminateDups(e)) == Calc(env, e)
  {
    TwoValued(env, e);
    EliminateDupsValue(env, e);
  }

  /** The comparison of the operand at p1 with the tree at p2 finds a contradiction. */
  predicate LeafFires(op: Op, root: Expr, p1: Path, p2: Path)
    requires On(op, root, p1) && On(op, root, p2) && !IsOp(op, At(root, p1)) && p1 != p2
  {
    var e1 := At(root, p1);
    e1.Bin? &&
    var inner := Dups2(e1.op, e1, [], []).0;
    PutAt(root, p1, inner);
    PutOperand(op, root, p1, inner);
    SameShapeSlot(op, root, Put(root, p1, inner), p2);
    Contradicts(op, inner, At(Put(root, p1, inner), p2))
  }

  /** The second pass finds a contradiction between operands of this connective, not only inside one of them. */
  predicate TopFires(op: Op, root: Expr, p1: Path, p2: Path)
    requires On(op, root, p1) && On(op, root, p2)
    decreases OpCount(op, At(root, p1)) + OpCount(op, At(root, p2))
  {
    SameShapeReflexive(op, root);
    if IsOp(op, At(root, p1)) then
      Descend(op, root, root, p1, p2, Left);
      var a := Dups2(op, root, p1 + [Left], p2);
      Descend(op, root, a.0, p1, p2, Right);
      TopFires(op, root, p1 + [Left], p2) || TopFires(op, a.0, p1 + [Right], p2)
    else if IsOp(op, At(root, p2)) then
      Descend(op, root, root, p2, p1, Left);
      var a := Dups2(op, root, p1, p2 + [Left]);
      Descend(op, root, a.0, p2, p1, Right);
      var b := Dups2(op, a.0, p1, p2 + [Right]);
      SameShapeTransitive(op, root, a.0, b.0);
      SameShapeSlot(op, root, b.0, p1);
      SameShapeSlot(op, root, b.0, p2);
      TopFires(op, root, p1, p2 + [Left]) || TopFires(op, a.0, p1, p2 + [Right]) || LeafFires(op, b.0, p1, p2)
    else
      p1 != p2 && LeafFires(op, root, p1, p2)
  }

  lemma LeafFiresValue(env: Env, op: Op, root: Expr, p1: Path, p2: Path)
    requires WellTyped(env) && On(op, root, p1) && On(op, root, p2) && !IsOp(op, At(root, p1)) && p1 != p2
    requires LeafFires(op, root, p1, p2)
    ensures Calc(env, Dups2Leaf(op, root, p1, p2).0) == Zero(op)
  {
    var e1 := At(root, p1);
    var inner := Dups2(e1.op, e1, [], []);
    PutAt(root, p1, inner.0);
    PutOperand(op, root, p1, inner.0);
    SameShapeSlot(op, root, Put(root, p1, inner.0), p2);
    ContradictAtValue(env, op, Put(root, p1, inner.0), p1, p2);
  }

  /** A contradiction decides the whole, whatever the rest of the pass does. */
  lemma {:induction false} TopFiresValue(env: Env, op: Op, root: Expr, p1: Path, p2: Path)
    requires WellTyped(env) && On(op, root, p1) && On(op, root, p2) && TopFires(op, root, p1, p2)
    ensures Calc(env, Dups2(op, root, p1, p2).0) == Zero(op)
    decreases OpCount(op, At(root, p1)) + OpCount(op, At(root, p2))
  {
    SameShapeReflexive(op, root);
    if IsOp(op, At(root, p1)) {
      Descend(op, root, root, p1, p2, Left);
      var a := Dups2(op, root, p1 + [Left], p2);
      Descend(op, root, a.0, p1, p2, Right);
      if TopFires(op, a.0, p1 + [Right], p2) {
        TopFiresValue(env, op, a.0, p1 + [Right], p2);
      } else {
        TopFiresValue(env, op, root, p1 + [Left], p2);
        Dups2Value(env, op, a.0, p1 + [Right], p2);
      }
    } else if IsOp(op, At(root, p2)) {
      TopFiresSecond(env, op, root, p1, p2);
    } else {
      LeafFiresValue(env, op, root, p1, p2);
    }
  }

  lemma {:induction false} TopFiresSecond(env: Env, op: Op, root: Expr, p1: Path, p2: Path)
    requires WellTyped(env) && On(op, root, p1) && On(op, root, p2) && TopFires(op, root, p1, p2)
    requires !IsOp(op, At(root, p1)) && IsOp(op, At(root, p2))
    ensures Calc(env, Dups2(op, root, p1, p2).0) == Zero(op)
    decreases OpCount(op, At(root, p1)) + OpCount(op, At(root, p2)), 0
  {
    SameShapeReflexive(op, root);
    Descend(op, root, root, p2, p1, Left);
    var a := Dups2(op, root, p1, p2 + [Left]);
    Descend(op, root, a.0, p2, p1, Right);
    var b := Dups2(op, a.0, p1, p2 + [Right]);
    SameShapeTransitive(op, root, a.0, b.0);
    SameShapeSlot(op, root, b.0, p1);
    SameShapeSlot(op, root, b.0, p2);
    if LeafFires(op, b.0, p1, p2) {
      LeafFiresValue(env, op, b.0, p1, p2);
    } else {
      if TopFires(op, a.0, p1, p2 + [Right]) {
        TopFiresValue(env, op, a.0, p1, p2 + [Right]);
      } else {
        TopFiresValue(env, op, root, p1, p2 + [Left]);
        Dups2Value(env, op, a.0, p1, p2 + [Right]);
      }
      Dups2LeafValue(env, op, b.0, p1, p2);
    }
  }

  /** The second pass of a round. */
  function SecondPass(e: Expr): (Expr, nat) {
    if e.Bin? then Dups2(e.op, Dups1(e.op, e, [], []).0, [], []) else (e, 0)
  }

  /** In no round does the second pass count a contradiction. */
  predicate Uncontradicted(e: Expr)
    decreases Leaves(e)
  {
    RoundProgress(e);
    SecondPass(e).1 == 0 && (Round(e).1 != 0 ==> Uncontradicted(EliminateYn(Round(e).0)))
  }

  /** Without contradictions the value is exactly preserved, m included. */
  lemma {:induction false} UncontradictedExact(env: Env, e: Expr)
    requires WellTyped(env) && Uncontradicted(e)
    ensures Calc(env, EliminateDups(e)) == Calc(env, e)
    decreases Leaves(e)
  {
    RoundProgress(e);
    var r := Round(e);
    if r.1 != 0 {
      var a := Dups1(e.op, e, [], []);
      Dups1Value(env, e.op, e, [], []);
      Dups2Drops(e.op, a.0, [], []);
      EliminateYnValue(env, r.0);
      UncontradictedExact(env, EliminateYn(r.0));
    }
  }

  /** In some round the second pass contradicts an operand of the outermost connective. */
  predicate ContradictedOnTop(e: Expr)
    decreases Leaves(e)
  {
    RoundProgress(e);
    Round(e).1 != 0 &&
    (TopFires(e.op, Dups1(e.op, e, [], []).0, [], []) || ContradictedOnTop(EliminateYn(Round(e).0)))
  }

  /** The value that the first such round decides. */
  function Decided(e: Expr): (t: Tristate)
    requires ContradictedOnTop(e)
    ensures t != Mod
    decreases Leaves(e)
  {
    RoundProgress(e);
    if TopFires(e.op, Dups1(e.op, e, [], []).0, [], []) then Zero(e.op) else Decided(EliminateYn(Round(e).0))
  }

  /** A contradiction on top makes the result a constant, so the value is kept exactly where it was not m. */
  lemma {:induction false} ContradictedValue(env: Env, e: Expr)
    requires WellTyped(env) && ContradictedOnTop(e)
    ensures Calc(env, EliminateDups(e)) == Decided(e)
    ensures Calc(env, EliminateDups(e)) == Calc(env, e) <==> Calc(env, e) != Mod
    decreases Leaves(e)
  {
    RoundProgress(e);
    var r := Round(e);
    EliminateDupsValue(env, e);
    EliminateYnValue(env, r.0);
    var a := Dups1(e.op, e, [], []);
    if TopFires(e.op, a.0, [], []) {
      TopFiresValue(env, e.op, a.0, [], []);
      EliminateDupsValue(env, EliminateYn(r.0));
    } else {
      ContradictedValue(env, EliminateYn(r.0));
    }
  }

  /** The normal form of expr_transform survives, and no operand appears whose value is not a logic one. */
  lemma {:induction false} EliminateDupsForm(e: Expr)
    ensures KeepsForm(e, EliminateDups(e))
    decreases Leaves(e)
  {
    RoundProgress(e);
    var r := Round(e);
    if r.1 != 0 {
      EliminateYnForm(r.0);
      EliminateDupsForm(EliminateYn(r.0));
    }
  }

  /** The result is a fixed point: another round finds nothing, so repeating the call changes nothing. */
  lemma {:induction false} EliminateDupsFixed(e: Expr)
    ensures Round(EliminateDups(e)) == (EliminateDups(e), 0)
    ensures EliminateDups(EliminateDups(e)) == EliminateDups(e)
    decreases Leaves(e)
  {
    RoundProgress(e);
    var r := Round(e);
    if r.1 != 0 {
      EliminateDupsFixed(EliminateYn(r.0));
    }
  }

  // ---------------------------------------------------------------- what a finished expression looks like

  predicate Operand(op: Op, e: Expr, p: Path) {
    On(op, e, p) && !IsOp(op, At(e, p))
  }

  /** The first pass counts nothing. */
  predicate Idle(op: Op, root: Expr, p1: Path, p2: Path) {
    On(op, root, p1) && On(op, root, p2) && Dups1(op, root, p1, p2).1 == 0
  }

  lemma IdleFirst(op: Op, root: Expr, p1: Path, p2: Path)
    requires Idle(op, root, p1, p2) && IsOp(op, At(root, p1))
    ensures Idle(op, root, p1 + [Left], p2) && Idle(op, root, p1 + [Right], p2)
  {
    SameShapeReflexive(op, root);
    Descend(op, root, root, p1, p2, Left);
    Descend(op, root, root, p1, p2, Right);
    Dups1Shrinks(op, root, p1 + [Left], p2);
  }

  lemma IdleSecond(op: Op, root: Expr, p1: Path, p2: Path)
    requires Idle(op, root, p1, p2) && !IsOp(op, At(root, p1)) && IsOp(op, At(root, p2))
    ensures Idle(op, root, p1, p2 + [Left]) && Idle(op, root, p1, p2 + [Right])
  {
    SameShapeReflexive(op, root);
    Descend(op, root, root, p2, p1, Left);
    Descend(op, root, root, p2, p1, Right);
    Dups1Shrinks(op, root, p1, p2 + [Left]);
  }

  lemma IdleOperands(op: Op, root: Expr, p1: Path, p2: Path)
    requires Idle(op, root, p1, p2) && Operand(op, root, p1) && Operand(op, root, p2) && p1 != p2
    ensures var e1 := At(root, p1);
      Join(op, e1, At(root, p2)).None? && (e1.Bin? ==> Dups1(e1.op, e1, [], []).1 == 0)
  {
    var e1 := At(root, p1);
    if e1.Bin? {
      Dups1Shrinks(e1.op, e1, [], []);
    }
    PutAt(root, p1, e1);
  }

  /** Reading one step further down. */
  lemma AtStep(op: Op, root: Expr, p: Path, q: Path)
    requires On(op, root, p) && On(op, At(root, p), q) && q != []
    ensures On(op, root, p + [q[0]]) && On(op, At(root, p + [q[0]]), q[1..])
    ensures At(At(root, p), q) == At(At(root, p + [q[0]]), q[1..])
    ensures p + q == (p + [q[0]]) + q[1..]
  {
    StepDown(op, root, p, q[0]);
  }

  /** The slots reached from p1 with q1 and from p2 with q2 are operands that cannot be merged. */
  lemma {:induction false} Dups1Settled(op: Op, root: Expr, p1: Path, p2: Path, q1: Path, q2: Path)
    requires Idle(op, root, p1, p2)
    requires Operand(op, At(root, p1), q1) && Operand(op, At(root, p2), q2) && p1 + q1 != p2 + q2
    ensures var e1 := At(At(root, p1), q1);
      Join(op, e1, At(At(root, p2), q2)).None? && (e1.Bin? ==> Dups1(e1.op, e1, [], []).1 == 0)
    decreases |q1| + |q2|
  {
    if q1 != [] {
      IdleFirst(op, root, p1, p2);
      AtStep(op, root, p1, q1);
      Dups1Settled(op, root, p1 + [q1[0]], p2, q1[1..], q2);
    } else if q2 != [] {
      IdleSecond(op, root, p1, p2);
      AtStep(op, root, p2, q2);
      Dups1Settled(op, root, p1, p2 + [q2[0]], q1, q2[1..]);
    } else {
      assert p1 + q1 == p1 && p2 + q2 == p2;
      IdleOperands(op, root, p1, p2);
    }
  }

  /** The second pass counts nothing. */
  predicate Quiet(op: Op, root: Expr, p1: Path, p2: Path) {
    On(op, root, p1) && On(op, root, p2) && Dups2(op, root, p1, p2).1 == 0
  }

  /** A second pass that counts nothing consists of parts that count nothing. */
  lemma QuietFirst(op: Op, root: Expr, p1: Path, p2: Path)
    requires Quiet(op, root, p1, p2) && IsOp(op, At(root, p1))
    ensures Quiet(op, root, p1 + [Left], p2) && Quiet(op, root, p1 + [Right], p2)
  {
    SameShapeReflexive(op, root);
    Descend(op, root, root, p1, p2, Left);
    Descend(op, root, root, p1, p2, Right);
    Dups2Drops(op, root, p1 + [Left], p2);
  }

  lemma QuietSecond(op: Op, root: Expr, p1: Path, p2: Path)
    requires Quiet(op, root, p1, p2) && !IsOp(op, At(root, p1)) && IsOp(op, At(root, p2))
    ensures Quiet(op, root, p1, p2 + [Left]) && Quiet(op, root, p1, p2 + [Right])
    ensures Dups2Leaf(op, root, p1, p2).1 == 0
  {
    SameShapeReflexive(op, root);
    Descend(op, root, root, p2, p1, Left);
    Descend(op, root, root, p2, p1, Right);
    var a := Dups2(op, root, p1, p2 + [Left]);
    Dups2Drops(op, root, p1, p2 + [Left]);
    Dups2Drops(op, root, p1, p2 + [Right]);
    assert a == (root, 0);
  }

  lemma {:induction false} Dups2Settled(op: Op, root: Expr, p1: Path, p2: Path, q1: Path, q2: Path)
    requires Quiet(op, root, p1, p2)
    requires Operand(op, At(root, p1), q1) && On(op, At(root, p2), q2) && p1 + q1 != p2 + q2
    ensures var e1 := At(At(root, p1), q1);
      e1.Bin? ==> !Contradicts(op, e1, At(At(root, p2), q2)) && Dups2(e1.op, e1, [], []).1 == 0
    decreases |q1| + |q2|
  {
    if q1 != [] {
      QuietFirst(op, root, p1, p2);
      AtStep(op, root, p1, q1);
      Dups2Settled(op, root, p1 + [q1[0]], p2, q1[1..], q2);
    } else if q2 != [] {
      QuietSecond(op, root, p1, p2);
      AtStep(op, root, p2, q2);
      Dups2Settled(op, root, p1, p2 + [q2[0]], q1, q2[1..]);
    } else {
      assert p1 + q1 == p1 && p2 + q2 == p2;
      if IsOp(op, At(root, p2)) {
        QuietSecond(op, root, p1, p2);
      }
      Dups2LeafSettled(op, root, p1, p2);
    }
  }

  lemma Dups2LeafSettled(op: Op, root: Expr, p1: Path, p2: Path)
    requires On(op, root, p1) && On(op, root, p2) && !IsOp(op, At(root, p1)) && p1 != p2
    requires Dups2Leaf(op, root, p1, p2).1 == 0
    ensures var e1 := At(root, p1);
      e1.Bin? ==> !Contradicts(op, e1, At(root, p2)) && Dups2(e1.op, e1, [], []).1 == 0
  {
    var e1 := At(root, p1);
    if e1.Bin? {
      Dups2Drops(e1.op, e1, [], []);
      PutAt(root, p1, e1);
    }
  }

  /** No two operands merge and none is contradicted by anything beside it; likewise inside each operand. */
  ghost predicate Finished(e: Expr)
    decreases e, 1
  {
    e.Bin? ==>
      (forall p, q :: Operand(e.op, e, p) && Operand(e.op, e, q) && p != q ==>
        Join(e.op, At(e, p), At(e, q)).None?) &&
      (forall p, q :: Operand(e.op, e, p) && At(e, p).Bin? && On(e.op, e, q) && p != q ==>
        !Contradicts(e.op, At(e, p), At(e, q))) &&
      FinishedOperands(e.op, e)
  }

  ghost predicate FinishedOperands(op: Op, e: Expr)
    decreases e, if IsOp(op, e) then 0 else 2
  {
    if IsOp(op, e) then FinishedOperands(op, e.l) && FinishedOperands(op, e.r) else Finished(e)
  }

  lemma {:induction false} SettledIsFinished(e: Expr)
    requires e.Bin? ==> Dups1(e.op, e, [], []).1 == 0 && Dups2(e.op, e, [], []).1 == 0
    ensures Finished(e)
    decreases e, 1
  {
    if e.Bin? {
      forall p, q | Operand(e.op, e, p) && Operand(e.op, e, q) && p != q
        ensures Join(e.op, At(e, p), At(e, q)).None?
      {
        assert [] + p == p && [] + q == q;
        Dups1Settled(e.op, e, [], [], p, q);
      }
      forall p, q | Operand(e.op, e, p) && At(e, p).Bin? && On(e.op, e, q) && p != q
        ensures !Contradicts(e.op, At(e, p), At(e, q))
      {
        assert [] + p == p && [] + q == q;
        Dups2Settled(e.op, e, [], [], p, q);
      }
      OperandsFinished(e.op, e, e, []);
    }
  }

  lemma {:induction false} OperandsFinished(op: Op, root: Expr, e: Expr, p: Path)
    requires IsOp(op, root) && On(op, root, p) && At(root, p) == e
    requires Dups1(op, root, [], []).1 == 0 && Dups2(op, root, [], []).1 == 0
    ensures FinishedOperands(op, e)
    decreases e, if IsOp(op, e) then 0 else 2
  {
    if IsOp(op, e) {
      OnAppend(op, root, p, [Left]);
      OnAppend(op, root, p, [Right]);
      OperandsFinished(op, root, e.l, p + [Left]);
      OperandsFinished(op, root, e.r, p + [Right]);
    } else {
      var q := SomeOperand(op, root, p);
      assert [] + p == p && [] + q == q;
      Dups1Settled(op, root, [], [], p, q);
      Dups2Settled(op, root, [], [], p, q);
      SettledIsFinished(e);
    }
  }

  /** A connective tree has an operand besides the one at p. */
  lemma {:induction false} SomeOperand(op: Op, e: Expr, p: Path) returns (q: Path)
    requires IsOp(op, e) && Operand(op, e, p)
    ensures Operand(op, e, q) && q != p
  {
    var d := if p[0] == Left then Right else Left;
    q := [d];
    var x := Child(e, d);
    while IsOp(op, x)
      invariant On(op, e, q) && At(e, q) == x && |q| > 0 && q[0] == d
      decreases x
    {
      OnAppend(op, e, q, [Left]);
      q := q + [Left];
      x := x.l;
    }
  }

  /** expr_eliminate_dups leaves nothing more to merge or to contradict, at any depth. */
  lemma EliminateDupsFinished(e: Expr)
    ensures Finished(EliminateDups(e))
  {
    EliminateDupsFixed(e);
    var d := EliminateDups(e);
    if d.Bin? {
      Dups1Shrinks(d.op, d, [], []);
      SettledIsFinished(d);
    }
  }
}
