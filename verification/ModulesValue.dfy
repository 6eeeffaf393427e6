/**
 * What modules_val means for the values of symbols (sym_get_type, sym_calc_visibility and
 * sym_calc_value in scripts/kconfig/symbol.c): when it is n, every tristate acts as a boolean.
 */
module ModulesValue {
  import opened Expressions
  import opened SymbolTables
  import opened DependencyCheck
  import opened Evaluation

  /** The symbol is visible, selected or set as m. */
  predicate HasMod(s: State) {
    s.visible == Mod || s.rev == Mod || s.tri == Mod
  }

  /** No tristate of the set is visible, selected or set as m. */
  ghost predicate NeverMod(defs: Table, scope: set<nat>, sol: seq<State>) {
    forall i <- scope :: i < |defs| && i < |sol| && defs[i].stype == Tristate3 ==> !HasMod(sol[i])
  }

  ghost predicate NoTristate(defs: Table, scope: set<nat>) {
    forall i <- scope :: i < |defs| ==> defs[i].stype != Tristate3
  }

  /** Of modules_val only one thing matters: whether it is n. */
  lemma SettleOnOff(defs: Table, m1: Tristate, m2: Tristate, d: SymbolDef, states: seq<State>)
    requires |states| == |defs| && (d.stype == Tristate3 ==> (m1 == No <==> m2 == No))
    ensures Settle(defs, m1, d, states) == Settle(defs, m2, d, states)
  {
  }

  /** With modules off a tristate is settled as with modules on exactly if nothing about it was m. */
  lemma SettleFlips(defs: Table, m: Tristate, d: SymbolDef, states: seq<State>)
    requires |states| == |defs| && d.stype == Tristate3 && m != No
    ensures !HasMod(Settle(defs, No, d, states))
    ensures Settle(defs, No, d, states) == Settle(defs, m, d, states) <==> !HasMod(Settle(defs, m, d, states))
  {
  }

  /** Turning modules on or off leaves the values in a closed set of symbols alone exactly if no m is among them. */
  lemma AgreeExactly(
      defs: Table, rank: seq<nat>, scope: set<nat>, m1: Tristate, m2: Tristate, a: seq<State>, b: seq<State>)
    requires Evaluable(defs) && Ranks(defs, rank) && Closed(defs, scope)
    requires Solution(defs, m1, a) && Solution(defs, m2, b)
    ensures Agree(a, b, scope) <==>
      (m1 == No <==> m2 == No) || (NeverMod(defs, scope, a) && NeverMod(defs, scope, b))
  {
    if (m1 == No <==> m2 == No) || (NeverMod(defs, scope, a) && NeverMod(defs, scope, b)) {
      forall i | i in scope
        ensures i < |a| && a[i] == b[i]
      {
        SameAnyway(defs, rank, scope, m1, m2, a, b, i);
      }
    } else if Agree(a, b, scope) {
      forall i | i in scope && i < |defs| && defs[i].stype == Tristate3
        ensures !HasMod(a[i])
      {
        SettleFlips(defs, Yes, defs[i], if m1 == No then a else b);
        assert a[i] == Settle(defs, m1, defs[i], a) && b[i] == Settle(defs, m2, defs[i], b);
      }
    }
  }

  lemma {:induction false} SameAnyway(
      defs: Table, rank: seq<nat>, scope: set<nat>, m1: Tristate, m2: Tristate, a: seq<State>, b: seq<State>, i: nat)
    requires Evaluable(defs) && Ranks(defs, rank) && Closed(defs, scope) && i in scope
    requires Solution(defs, m1, a) && Solution(defs, m2, b)
    requires (m1 == No <==> m2 == No) || (NeverMod(defs, scope, a) && NeverMod(defs, scope, b))
    ensures a[i] == b[i]
    decreases rank[i]
  {
    forall j | j in Followed(defs[i])
      ensures j < |a| && a[j] == b[j]
    {
      assert Edge(defs, i, j);
      SameAnyway(defs, rank, scope, m1, m2, a, b, j);
    }
    SettleAgrees(defs, m2, i, a, b);
    assert a[i] == Settle(defs, m1, defs[i], a) && b[i] == Settle(defs, m2, defs[i], b);
    if defs[i].stype == Tristate3 && (m1 == No) != (m2 == No) {
      SettleFlips(defs, if m1 == No then m2 else m1, defs[i], a);
    } else {
      SettleOnOff(defs, m1, m2, defs[i], a);
    }
  }

  // ---------------------------------------------------------------- modules_val and MODULES together

  /** Where modules_val comes from: symbol MODULES and all it depends on. */
  ghost function Source(defs: Table, modulesSym: Option<nat>): set<nat> {
    if modulesSym.Some? then Reach(defs, modulesSym.value) else {}
  }

  /** The states follow from each other under modules, and MODULES has just this value. */
  ghost predicate Configured(defs: Table, modulesSym: Option<nat>, modules: Tristate, sol: seq<State>)
    requires modulesSym.Some? ==> modulesSym.value < |defs|
  {
    Solution(defs, modules, sol) && (modulesSym.Some? ==> sol[modulesSym.value].tri == modules)
  }

  /** modules_val was n and is n, or neither, or else nothing MODULES depends on is m, under the old value or the new. */
  ghost predicate Steady(
      defs: Table, modulesSym: Option<nat>, m1: Tristate, m2: Tristate, before: seq<State>, after: seq<State>)
  {
    (m1 == No <==> m2 == No) ||
    (NeverMod(defs, Source(defs, modulesSym), before) && NeverMod(defs, Source(defs, modulesSym), after))
  }

  /** Then what is held in the old states is where a solution for the new value puts it. */
  lemma SteadyHolds(
      defs: Table, modulesSym: Option<nat>, rank: seq<nat>, m1: Tristate, m2: Tristate, held: set<nat>,
      before: seq<State>, sol: seq<State>)
    requires Evaluable(defs) && Ranks(defs, rank) && (modulesSym.Some? ==> modulesSym.value < |defs|)
    requires Solution(defs, m1, before) && Solution(defs, m2, sol)
    requires held <= Source(defs, modulesSym) && Steady(defs, modulesSym, m1, m2, before, sol)
    ensures Holding(defs, m2, held, before, sol)
  {
    if modulesSym.Some? {
      ReachClosed(defs, modulesSym.value);
    }
    AgreeExactly(defs, rank, Source(defs, modulesSym), m1, m2, before, sol);
  }

  /** Without tristates below MODULES there is at most one configuration. */
  lemma ConfiguredUnique(
      defs: Table, rank: seq<nat>, s: nat, m1: Tristate, m2: Tristate, a: seq<State>, b: seq<State>)
    requires Evaluable(defs) && Ranks(defs, rank) && s < |defs| && NoTristate(defs, Reach(defs, s))
    requires Configured(defs, Some(s), m1, a) && Configured(defs, Some(s), m2, b)
    ensures m1 == m2 && a == b
  {
    ReachClosed(defs, s);
    AgreeExactly(defs, rank, Reach(defs, s), m1, m2, a, b);
    SolutionUnique(defs, m1, rank, a, b);
  }
}
