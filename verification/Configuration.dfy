/**
 * What the checks and rewritings mean together: conf_parse in scripts/kconfig/zconf.y looks for
 * recursive dependencies, menu_finalize in scripts/kconfig/menu.c rewrites conditions, and
 * afterwards symbols are evaluated on demand, in whatever order they are asked for.
 */
module Configuration {
  import opened Expressions
  import opened Transformation
  import opened Compare
  import opened SymbolTables
  import opened DependencyCheck
  import opened Evaluation
  import opened ModulesValue
  import opened Evaluators

  /** Solutions respect the types: no boolean is m, so the rewriting rules may be applied. */
  lemma SolutionWellTyped(defs: Table, modules: Tristate, sol: seq<State>)
    requires Solution(defs, modules, sol)
    ensures WellTyped(EnvOf(defs, sol))
  {
    var env := EnvOf(defs, sol);
    forall s | s in env.tri && TypeOf(s) == Boolean
      ensures env.tri[s] != Mod
    {
      var i: nat :| i < |defs| && s == SymbolAt(defs, i);
      assert sol[i] == Settle(defs, modules, defs[i], sol);
    }
  }

  /** Solutions respect select as a lower and visibility as an upper bound. */
  lemma SolutionBounded(defs: Table, modules: Tristate, sol: seq<State>, i: nat)
    requires Solution(defs, modules, sol) && i < |defs| && IsLogic(SymbolAt(defs, i))
    ensures Bounded(sol[i])
  {
    var d := defs[i];
    var offer := DefaultOffer(defs, sol, d);
    var visible, rev := sol[i].visible, sol[i].rev;
    assert sol[i] == Settle(defs, modules, d, sol);
    var shown := Apply(Disj, visible, rev) != No;
    var base := if shown && d.hasUser then d.userTri else if offer.Some? then offer.value.tri else No;
    var tri := if shown then Apply(Disj, Apply(Conj, base, visible), rev) else base;
    LogicBounded(EffectiveType(d.stype, modules), visible, rev, tri);
  }

  // ---------------------------------------------------------------- rewriting the conditions

  function TransformProps(props: seq<Property>): (r: seq<Property>)
    ensures |r| == |props|
  {
    seq(|props|, i requires 0 <= i < |props| => props[i].(visible := TransformOpt(props[i].visible)))
  }

  function TransformSymbol(d: SymbolDef): SymbolDef {
    d.(props := TransformProps(d.props), revDep := TransformOpt(d.revDep))
  }

  /** The same symbols with every condition passed through expr_transform, those of selects included. */
  function TransformTable(defs: Table): (r: Table)
    ensures |r| == |defs|
  {
    seq(|defs|, i requires 0 <= i < |defs| =>
      TransformSymbol(defs[i]))
  }

  lemma {:induction false} TransformKeepsPrompts(env: Env, props: seq<Property>)
    requires WellTyped(env)
    ensures PromptValue(env, TransformProps(props)) == PromptValue(env, props)
  {
    if props != [] {
      var n := |props| - 1;
      var props' := TransformProps(props);
      assert props'[..n] == TransformProps(props[..n]);
      TransformKeepsPrompts(env, props[..n]);
      if props[n].visible.Some? {
        TransformValue(env, props[n].visible.value);
      }
    }
  }

  lemma {:induction false} TransformKeepsDefault(env: Env, props: seq<Property>)
    requires WellTyped(env)
    ensures DefaultOf(env, TransformProps(props)) == DefaultOf(env, props)
  {
    if props != [] {
      var props' := TransformProps(props);
      assert props'[1..] == TransformProps(props[1..]);
      TransformKeepsDefault(env, props[1..]);
      if props[0].visible.Some? {
        TransformValue(env, props[0].visible.value);
      }
    }
  }

  lemma SameSymbols(defs: Table, sol: seq<State>)
    requires |sol| == |defs|
    ensures EnvOf(TransformTable(defs), sol) == EnvOf(defs, sol)
  {
    var defs' := TransformTable(defs);
    assert forall i: nat :: i < |defs| ==> SymbolAt(defs', i) == SymbolAt(defs, i);
    assert AllSymbols(defs') == AllSymbols(defs);
  }

  lemma TransformKeepsBounds(env: Env, modules: Tristate, d: SymbolDef)
    requires WellTyped(env)
    ensures Visibility(env, TransformSymbol(d), modules) == Visibility(env, d, modules)
    ensures Selected(env, TransformSymbol(d), modules) == Selected(env, d, modules)
  {
    TransformKeepsPrompts(env, d.props);
    if d.revDep.Some? {
      TransformValue(env, d.revDep.value);
    }
  }

  lemma TransformKeepsOffer(defs: Table, sol: seq<State>, d: SymbolDef)
    requires |sol| == |defs| && WellTyped(EnvOf(defs, sol))
    ensures DefaultOffer(TransformTable(defs), sol, TransformSymbol(d)) == DefaultOffer(defs, sol, d)
  {
    SameSymbols(defs, sol);
    TransformKeepsDefault(EnvOf(defs, sol), d.props);
  }

  lemma TransformKeepsSettle(defs: Table, modules: Tristate, sol: seq<State>, d: SymbolDef)
    requires |sol| == |defs| && WellTyped(EnvOf(defs, sol))
    ensures Settle(TransformTable(defs), modules, TransformSymbol(d), sol) == Settle(defs, modules, d, sol)
  {
    SameSymbols(defs, sol);
    TransformKeepsBounds(EnvOf(defs, sol), modules, d);
    TransformKeepsOffer(defs, sol, d);
  }

  /** Rewriting every condition changes no symbol: the solutions of the recursive definition are the same. */
  lemma TransformKeepsSolution(defs: Table, modules: Tristate, sol: seq<State>)
    requires |sol| == |defs|
    ensures Solution(TransformTable(defs), modules, sol) <==> Solution(defs, modules, sol)
  {
    var defs' := TransformTable(defs);
    SameSymbols(defs, sol);
    if Solution(defs, modules, sol) || Solution(defs', modules, sol) {
      SolutionWellTyped(if Solution(defs, modules, sol) then defs else defs', modules, sol);
      forall i: nat | i < |defs|
        ensures Settle(defs', modules, defs'[i], sol) == Settle(defs, modules, defs[i], sol)
      {
        TransformKeepsSettle(defs, modules, sol, defs[i]);
      }
    }
  }

  function TransBoolProps(props: seq<Property>): (r: seq<Property>)
    ensures |r| == |props|
  {
    seq(|props|, i requires 0 <= i < |props| => props[i].(visible := TransBoolOpt(props[i].visible)))
  }

  lemma {:induction false} TransBoolPrompts(env: Env, props: seq<Property>)
    requires forall p <- props :: p.visible.Some? ==> Normal(p.visible.value)
    ensures PromptValue(env, TransBoolProps(props)) == No <==> PromptValue(env, props) == No
  {
    if props != [] {
      var front, p := props[..|props| - 1], props[|props| - 1];
      assert p in props;
      TransBoolPrompts(env, front);
      assert TransBoolProps(props)[..|props| - 1] == TransBoolProps(front);
      if p.visible.Some? {
        TransBoolKeepsNo(env, p.visible.value);
      }
    }
  }

  /** A symbol that is no tristate is as visible as before when expr_trans_bool rewrites its normal conditions. */
  lemma TransBoolKeepsVisibility(env: Env, d: SymbolDef, modules: Tristate)
    requires d.stype != Tristate3 && forall p <- d.props :: p.visible.Some? ==> Normal(p.visible.value)
    ensures Visibility(env, d.(props := TransBoolProps(d.props)), modules) == Visibility(env, d, modules)
  {
    TransBoolPrompts(env, d.props);
  }

  // ---------------------------------------------------------------- checking, then evaluating

  /**
   * What evaluating the symbols asked for leaves behind: some symbols that MODULES depends on, and MODULES, as they
   * are with modules off, and everything else as it follows from these and the modules_val they give.  This is the
   * solution for that modules_val if no tristate below MODULES is m in it.
   */
  ghost predicate Outcome(
      defs: Table, modulesSym: Option<nat>, asked: seq<nat>, modules: Tristate, states: seq<State>,
      before: seq<State>, held: set<nat>, after: seq<State>)
    requires modulesSym.Some? ==> modulesSym.value < |defs|
  {
    Solution(defs, No, before) && Holding(defs, modules, held, before, after) &&
    held <= Source(defs, modulesSym) && (modulesSym.Some? ==> modulesSym.value in held) &&
    modules == (if modulesSym.Some? then after[modulesSym.value].tri else No) &&
    Shows(asked, states, after) &&
    forall sol :: Solution(defs, modules, sol) && (modules == No || NeverMod(defs, Source(defs, modulesSym), sol)) ==>
      after == sol
  }

  ghost predicate Shows(asked: seq<nat>, states: seq<State>, sol: seq<State>) {
    forall s <- asked :: s < |states| && s < |sol| && states[s] == sol[s]
  }

  /** There is no other configuration. */
  ghost predicate Only(defs: Table, modulesSym: Option<nat>, modules: Tristate, sol: seq<State>)
    requires modulesSym.Some? ==> modulesSym.value < |defs|
  {
    forall m, a :: Configured(defs, modulesSym, m, a) && (modulesSym.None? ==> m == No) ==> m == modules && a == sol
  }

  /**
   * If the search for recursive dependencies prints nothing, evaluating symbols in any order after
   * sym_clear_all_valid gives the one configuration there is, provided that neither MODULES, if there is such a
   * symbol, nor anything it depends on is a tristate.
   */
  method CheckAndEvaluate(defs: Table, modulesSym: Option<nat>, asked: seq<nat>)
    returns (warned: bool, modules: Tristate, states: seq<State>)
    requires Evaluable(defs) && (modulesSym.Some? ==> modulesSym.value < |defs|)
    requires forall s <- asked :: s < |defs|
    ensures |states| == |defs|
    ensures warned <==> exists p :: Cycle(defs, p)
    ensures !warned ==>
      exists before, held, after :: Outcome(defs, modulesSym, asked, modules, states, before, held, after)
    ensures !warned && NoTristate(defs, Source(defs, modulesSym)) ==>
      exists sol :: Configured(defs, modulesSym, modules, sol) && Shows(asked, states, sol) &&
        Only(defs, modulesSym, modules, sol)
  {
    var checker := new Checker(defs);
    ghost var rank;
    warned, rank := checker.CheckAll();
    var evaluator := new Evaluator(defs, modulesSym);
    if !warned {
      ghost var before, held, after := evaluator.ClearAndEvaluate(asked, rank);
      OffHasNoMod(defs, Source(defs, modulesSym), before);
      assert Outcome(defs, modulesSym, asked, evaluator.modules, evaluator.curr, before, held, after);
      if NoTristate(defs, Source(defs, modulesSym)) {
        ghost var sol := SolutionExists(defs, evaluator.modules, rank);
        OnlyOne(defs, modulesSym, rank, evaluator.modules, sol);
      }
    }
    modules, states := evaluator.modules, evaluator.curr;
  }

  lemma OnlyOne(defs: Table, modulesSym: Option<nat>, rank: seq<nat>, modules: Tristate, sol: seq<State>)
    requires Evaluable(defs) && Ranks(defs, rank) && (modulesSym.Some? ==> modulesSym.value < |defs|)
    requires NoTristate(defs, Source(defs, modulesSym)) && (modulesSym.None? ==> modules == No)
    requires Configured(defs, modulesSym, modules, sol)
    ensures Only(defs, modulesSym, modules, sol)
  {
    forall m, a | Configured(defs, modulesSym, m, a) && (modulesSym.None? ==> m == No)
      ensures m == modules && a == sol
    {
      if modulesSym.Some? {
        ConfiguredUnique(defs, rank, modulesSym.value, m, modules, a, sol);
      } else {
        SolutionUnique(defs, m, rank, a, sol);
      }
    }
  }

  /** While modules are off nothing that a tristate shows is m. */
  lemma OffHasNoMod(defs: Table, scope: set<nat>, sol: seq<State>)
    requires Solution(defs, No, sol)
    ensures NeverMod(defs, scope, sol)
  {
    forall i | i in scope && i < |defs| && defs[i].stype == Tristate3
      ensures !HasMod(sol[i])
    {
      SettleFlips(defs, Yes, defs[i], sol);
      assert sol[i] == Settle(defs, No, defs[i], sol);
    }
  }
}
