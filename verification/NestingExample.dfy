/**
 * Where the nesting test of menu_finalize goes wrong: a dependency that is m but read as n.
 */
module NestingExample {
  import opened Expressions
  import opened Equality
  import opened Transformation
  import opened Slots
  import opened Joins
  import opened Dups
  import opened DupsExample
  import opened Compare

  const BAR := Named(1, Boolean)

  /** !FOO && BAR */
  const DEP := Bin(Conj, Not(Sym(FOO)), Sym(BAR))

  /** FOO = n */
  const BASE := Cmp(true, FOO, SymNo)

  lemma {:induction false} Dups2Leaves(op: Op, root: Expr, p: Path, q: Path)
    requires Operand(op, root, p) && Operand(op, root, q) && !At(root, p).Bin?
    ensures Dups2(op, root, p, q) == (root, 0)
  {
  }

  lemma {:induction false} Dups2Side(e: Expr, p: Path)
    requires e.Bin? && !e.l.Bin? && !e.r.Bin? && (p == [Left] || p == [Right])
    ensures Dups2(e.op, e, p, []) == (e, 0)
  {
    assert [] + [Left] == [Left] && [] + [Right] == [Right];
    assert [Left][1..] == [] && [Right][1..] == [];
    Dups2Leaves(e.op, e, p, [Left]);
    Dups2Leaves(e.op, e, p, [Right]);
  }

  /** Nothing contradicts two single operands. */
  lemma {:induction false} Dups2Two(e: Expr)
    requires e.Bin? && !e.l.Bin? && !e.r.Bin?
    ensures Dups2(e.op, e, [], []) == (e, 0)
  {
    assert [] + [Left] == [Left] && [] + [Right] == [Right];
    Dups2Side(e, [Left]);
    Dups2Side(e, [Right]);
  }

  lemma {:induction false} DepIsCompared()
    ensures NotNo(Some(DEP)) == Bin(Conj, BASE, Sym(BAR))
  {
    var r := Bin(Conj, BASE, Sym(BAR));
    DepIsTransformed();
    assert Join(Conj, BASE, Sym(BAR)).None? && Join(Conj, Sym(BAR), BASE).None?;
    TwoStay(r);
  }

  lemma {:induction false} TwoStay(e: Expr)
    requires e.Bin? && !e.l.Bin? && !e.r.Bin?
    requires Join(e.op, e.l, e.r).None? && Join(e.op, e.r, e.l).None?
    ensures EliminateDups(e) == e
  {
    Dups1Two(e);
    Dups2Two(e);
    assert Round(e) == (e, 0);
  }

  lemma {:induction false} DepIsTransformed()
    ensures Transform(TransCompareOpt(Some(DEP), false, No)) == Bin(Conj, BASE, Sym(BAR))
  {
    var x, y := TransCompare(DEP.l, true, No), TransCompare(DEP.r, true, No);
    assert x == Cmp(false, FOO, SymNo) && y == Cmp(true, BAR, SymNo);
    var c := Bin(Disj, x, y);
    assert TransCompareOpt(Some(DEP), false, No) == Not(c);
    assert Transform(x) == x && Transform(y) == Not(Sym(BAR));
    assert Transform(c) == Bin(Disj, x, Not(Sym(BAR)));
    assert Transform(Not(Not(Sym(BAR)))) == Sym(BAR);
    assert Transform(DeMorgan(Disj, x, Not(Sym(BAR)))) == Bin(Conj, BASE, Sym(BAR));
  }

  lemma {:induction false} BaseIsCancelled()
    ensures EliminateEq(Bin(Conj, BASE, Sym(BAR)), BASE) == (Sym(BAR), Sym(SymYes))
  {
    assert EliminatePairs(Conj, BASE, BASE) == (Sym(SymYes), Sym(SymYes));
    assert EliminatePairs(Conj, Sym(BAR), Sym(SymYes)) == (Sym(BAR), Sym(SymYes));
  }

  lemma {:induction false} BaseIsCompared()
    ensures NotNo(Some(BASE)) == BASE
  {
  }

  lemma {:induction false} DepPasses()
    ensures ImpliedBy(Some(DEP), Some(BASE))
  {
    DepIsCompared();
    BaseIsCompared();
    BaseIsCancelled();
  }

  const ENV := Env(map[FOO := Mod, BAR := Yes], map[])

  lemma {:induction false} Values()
    ensures Calc(ENV, Sym(FOO)) == Mod && Calc(ENV, Sym(BAR)) == Yes && Calc(ENV, BASE) == No
  {
    assert FOO in ENV.tri && BAR in ENV.tri && BAR != FOO;
    assert StrOf(ENV, FOO) == "m" && StrOf(ENV, SymNo) == "n" && "n"[0] != "m"[0];
  }

  lemma {:induction false} DepIsMisread()
    ensures Calc(ENV, DEP) == Mod && ReadAs(ENV, DEP, No) == No
  {
    Values();
    var nf := Not(Sym(FOO));
    assert Calc(ENV, nf) == Mod && ReadAs(ENV, nf, No) == No;
  }

  /** DEP passes the test for BASE; at FOO = m and BAR = y it is m, but read as n, and BASE is n. */
  lemma {:induction false} NestingFailsAtMod()
    ensures WellTyped(ENV) && ImpliedBy(Some(DEP), Some(BASE))
    ensures Calc(ENV, DEP) == Mod && ReadAs(ENV, DEP, No) == No && Calc(ENV, BASE) == No
  {
    DepPasses();
    Values();
    DepIsMisread();
  }
}
