/**
 * sym_clear_all_valid evaluates MODULES, and whatever it depends on, with the modules_val of before
 * (scripts/kconfig/symbol.c).  A tristate that selects MODULES keeps a value made for modules being off.
 */
module ModulesExample {
  import opened Expressions
  import opened SymbolTables
  import opened DependencyCheck
  import opened Evaluation
  import opened ModulesValue
  import opened Evaluators

  const T := Named(1, Tristate3)
  const Always := [Property(Prompt, true, None, None)]

  /** MODULES, a boolean nobody set, and T, a tristate set to m that selects it. */
  const ModulesDef := SymbolDef(Boolean, "MODULES", Always, Some(Sym(T)), false, No, "", false)
  const SelectorDef := SymbolDef(Tristate3, "T", Always, None, true, Mod, "", false)
  const Selecting: Table := [ModulesDef, SelectorDef]

  lemma SelectingRanked()
    ensures Evaluable(Selecting) && Ranks(Selecting, [1, 0])
  {
    assert Followed(SelectorDef) == {};
    assert Followed(ModulesDef) == {1};
    forall i: nat, j: nat | Edge(Selecting, i, j)
      ensures j < 2 && [1, 0][j] < [1, 0][i]
    {
      assert i == 0 && j == 1;
    }
  }

  /** T is y with modules off and m with modules on; MODULES is y either way. */
  lemma SelectingSettled(modules: Tristate, sol: seq<State>)
    requires Solution(Selecting, modules, sol)
    ensures sol[1].tri == (if modules == No then Yes else Mod) && sol[0].tri == Yes
  {
    var env := EnvOf(Selecting, sol);
    assert PromptValue(env, []) == No;
    assert Always[..0] == [];
    assert PromptValue(env, Always) == Yes;
    assert sol[1] == Settle(Selecting, modules, SelectorDef, sol);
    assert sol[0] == Settle(Selecting, modules, ModulesDef, sol);
    SymbolState(Selecting, sol, 1);
    assert Calc(env, Sym(T)) == sol[1].tri;
  }

  /** Doing the same thing twice gives two results, and the first is no solution for the modules_val it left. */
  method ClearTwice() returns (first: seq<State>, second: seq<State>)
    ensures |first| == 2 && first[0].tri == Yes && first[1].tri == Yes
    ensures |second| == 2 && second[0].tri == Yes && second[1].tri == Mod
    ensures forall sol :: Solution(Selecting, Yes, sol) ==> sol[1] != first[1] && sol[1] == second[1]
  {
    SelectingRanked();
    var evaluator := new Evaluator(Selecting, Some(0));
    ghost var off := SolutionExists(Selecting, No, [1, 0]);
    SelectingSettled(No, off);
    evaluator.ClearAllValid(true, Plan([1, 0], No, {}, off));
    assert evaluator.valid[1];
    first := evaluator.curr;
    ghost var on := SolutionExists(Selecting, Yes, [1, 0]);
    SelectingSettled(Yes, on);
    evaluator.ClearAllValid(true, Plan([1, 0], Yes, {}, on));
    second := evaluator.curr;
    forall sol | Solution(Selecting, Yes, sol)
      ensures sol == on
    {
      SolutionUnique(Selecting, Yes, [1, 0], sol, on);
    }
  }
}
