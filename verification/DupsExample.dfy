/**
 * The one way expr_eliminate_dups changes a value: a contradiction over a symbol that is "m".
 */
module DupsExample {
  import opened Expressions
  import opened Slots
  import opened Equality
  import opened Transformation
  import opened Joins
  import opened Dups

  const FOO := Named(0, Tristate3)
  const FIRST := Bin(Disj, Sym(FOO), Sym(SymNo))

  /** (FOO || n) && !FOO */
  const BOTH := Bin(Conj, FIRST, Not(Sym(FOO)))

  lemma Dups1Idle(op: Op, root: Expr, p1: Path, p2: Path)
    requires Operand(op, root, p1) && Operand(op, root, p2) && p1 != p2
    requires var e1 := At(root, p1);
      Join(op, e1, At(root, p2)).None? && (e1.Bin? ==> Dups1(e1.op, e1, [], []) == (e1, 0))
    ensures Dups1(op, root, p1, p2) == (root, 0)
  {
    PutAt(root, p1, At(root, p1));
  }

  /** An expression with two operands, neither of which merges into the other. */
  lemma Dups1Two(e: Expr)
    requires e.Bin? && !IsOp(e.op, e.l) && !IsOp(e.op, e.r)
    requires Join(e.op, e.l, e.r).None? && (e.l.Bin? ==> Dups1(e.l.op, e.l, [], []) == (e.l, 0))
    requires Join(e.op, e.r, e.l).None? && !e.r.Bin?
    ensures Dups1(e.op, e, [], []) == (e, 0)
  {
    assert [] + [Left] == [Left] && [] + [Right] == [Right];
    assert [Left][1..] == [] && [Right][1..] == [];
    Dups1Idle(e.op, e, [Left], [Right]);
    Dups1Idle(e.op, e, [Right], [Left]);
    assert Dups1(e.op, e, [Left], []) == (e, 0);
    assert Dups1(e.op, e, [Right], []) == (e, 0);
  }

  lemma NothingToMerge()
    ensures Dups1(Conj, BOTH, [], []) == (BOTH, 0)
  {
    Dups1Two(FIRST);
    Dups1Two(BOTH);
  }

  lemma FirstIsContradicted()
    ensures Contradicts(Conj, FIRST, Not(Sym(FOO)))
  {
    var nf := Not(Sym(FOO));
    assert Transform(FIRST) == FIRST;
    assert Transform(DeMorgan(Disj, Sym(FOO), Sym(SymNo))) == Bin(Conj, nf, Sym(SymYes));
    assert Eq(nf, nf);
    assert ExtractEq(Conj, None, nf, nf) == (Some(nf), Sym(SymYes), Sym(SymYes));
  }

  lemma FirstIsReplaced()
    ensures Dups2(Conj, BOTH, [Left], [Right]) == (Bin(Conj, Sym(SymNo), Not(Sym(FOO))), 1)
  {
    FirstIsContradicted();
    FirstStays();
    PutAt(BOTH, [Left], FIRST);
  }

  /** Inside the first operand nothing is contradicted. */
  lemma FirstStays()
    ensures Dups2(Disj, FIRST, [], []) == (FIRST, 0)
  {
    assert [] + [Left] == [Left] && [] + [Right] == [Right];
    assert [Left][1..] == [] && [Right][1..] == [];
    assert Dups2(Disj, FIRST, [Left], []) == (FIRST, 0);
  }

  lemma NothingElse(out: Expr)
    requires out == Bin(Conj, Sym(SymNo), Not(Sym(FOO)))
    ensures Dups2(Conj, out, [Right], []) == (out, 0)
  {
    assert [] + [Left] == [Left] && [] + [Right] == [Right] && [Right][1..] == [];
    assert At(out, [Right]) == Not(Sym(FOO));
    assert Dups2(Conj, out, [Right], [Left]) == (out, 0);
    assert Dups2(Conj, out, [Right], [Right]) == (out, 0);
  }

  lemma ContradictionFires()
    ensures Dups2(Conj, BOTH, [], []) == (Bin(Conj, Sym(SymNo), Not(Sym(FOO))), 1)
  {
    var out := Bin(Conj, Sym(SymNo), Not(Sym(FOO)));
    FirstIsReplaced();
    NothingElse(out);
    Replaced(out);
    Sequence(BOTH, out, 1);
  }

  lemma Replaced(out: Expr)
    requires out == Bin(Conj, Sym(SymNo), Not(Sym(FOO)))
    requires Dups2(Conj, BOTH, [Left], [Right]) == (out, 1)
    ensures Dups2(Conj, BOTH, [Left], []) == (out, 1)
  {
    assert [] + [Left] == [Left] && [] + [Right] == [Right] && [Left][1..] == [];
    assert At(out, [Left]) == Sym(SymNo) && At(BOTH, [Left]) == FIRST;
    assert On(Conj, out, [Left]) && Dups2Leaf(Conj, out, [Left], []) == (out, 0);
    Same(BOTH, [Left]);
    AfterParts(BOTH, out);
  }

  lemma Same(root: Expr, p: Path)
    requires Operand(Conj, root, p)
    ensures Dups2(Conj, root, p, p) == (root, 0)
  {
  }

  lemma AfterParts(root: Expr, out: Expr)
    requires IsOp(Conj, root) && Operand(Conj, root, [Left]) && On(Conj, root, [Right])
    requires Dups2(Conj, root, [Left], [Left]) == (root, 0)
    requires Dups2(Conj, root, [Left], [Right]) == (out, 1)
    requires Operand(Conj, out, [Left]) && Dups2Leaf(Conj, out, [Left], []) == (out, 0)
    ensures Dups2(Conj, root, [Left], []) == (out, 1)
  {
    assert [] + [Left] == [Left] && [] + [Right] == [Right];
  }

  lemma Sequence(root: Expr, out: Expr, n: nat)
    requires IsOp(Conj, root) && IsOp(Conj, out)
    requires Dups2(Conj, root, [Left], []) == (out, n) && Dups2(Conj, out, [Right], []) == (out, 0)
    ensures Dups2(Conj, root, [], []) == (out, n)
  {
    assert [] + [Left] == [Left] && [] + [Right] == [Right];
  }

  /** At FOO = m the expression is m, and after expr_eliminate_dups it is n. */
  lemma EliminateDupsChangesMod()
    ensures var env := Env(map[FOO := Mod], map[]);
      WellTyped(env) && Calc(env, BOTH) == Mod && Calc(env, EliminateDups(BOTH)) == No
  {
    var env := Env(map[FOO := Mod], map[]);
    NothingToMerge();
    ContradictionFires();
    assert Round(BOTH) == (Bin(Conj, Sym(SymNo), Not(Sym(FOO))), 1);
    assert EliminateYn(Round(BOTH).0) == Sym(SymNo);
    assert EliminateDups(Sym(SymNo)) == Sym(SymNo);
    assert TriOf(env, FOO) == Mod && Calc(env, Sym(FOO)) == Mod;
    assert Calc(env, FIRST) == Apply(Disj, Calc(env, Sym(FOO)), Calc(env, Sym(SymNo)));
    var nf := Not(Sym(FOO));
    assert Calc(env, nf) == Neg(Calc(env, nf.e));
  }
}
