/**
 * What the recursive definition says of one symbol, in terms of its prompts, its user value, its defaults and the
 * selects of it (sym_calc_visibility, sym_get_default_prop and sym_calc_value in scripts/kconfig/symbol.c).
 */
module SymbolValues {
  import opened Expressions
  import opened SymbolTables
  import opened Evaluation

  // ---------------------------------------------------------------- prompts and defaults by their positions

  /** Property k is a default whose condition is not n. */
  predicate Applies(env: Env, props: seq<Property>, k: nat) {
    k < |props| && props[k].kind == Default && CalcOpt(env, props[k].visible) != No
  }

  /** The first such default. */
  predicate First(env: Env, props: seq<Property>, k: nat) {
    Applies(env, props, k) && forall j: nat :: j < k ==> !Applies(env, props, j)
  }

  predicate NoneApply(env: Env, props: seq<Property>) {
    forall j: nat :: j < |props| ==> !Applies(env, props, j)
  }

  lemma {:induction false} DefaultIsFirst(env: Env, props: seq<Property>)
    requires forall p <- props :: p.kind == Default ==> p.value.Some?
    ensures forall k: nat :: First(env, props, k) ==> DefaultOf(env, props) == props[k].value
    ensures NoneApply(env, props) <==> DefaultOf(env, props).None?
  {
    if props != [] {
      var rest := props[1..];
      assert props[0] in props && forall p <- rest :: p in props;
      DefaultIsFirst(env, rest);
      forall j: nat
        ensures Applies(env, props, j + 1) == Applies(env, rest, j)
      {
      }
      if !Applies(env, props, 0) {
        forall k: nat | First(env, props, k)
          ensures DefaultOf(env, props) == props[k].value
        {
          assert Applies(env, rest, k - 1);
          assert forall j: nat :: j < k - 1 ==> Applies(env, rest, j) == Applies(env, props, j + 1);
          assert First(env, rest, k - 1);
        }
        if NoneApply(env, rest) {
          forall j: nat | j < |props|
            ensures !Applies(env, props, j)
          {
            assert j > 0 ==> !Applies(env, rest, j - 1);
          }
        }
        if NoneApply(env, props) {
          assert forall j: nat :: j < |rest| ==> Applies(env, rest, j) == Applies(env, props, j + 1);
        }
      }
    }
  }

  /** t is the highest value of the conditions of prompts. */
  predicate Highest(env: Env, props: seq<Property>, t: Tristate) {
    (forall p <- props :: p.text ==> Ord(CalcOpt(env, p.visible)) <= Ord(t)) &&
    (t != No ==> exists p <- props :: p.text && CalcOpt(env, p.visible) == t)
  }

  lemma {:induction false} PromptIsHighest(env: Env, props: seq<Property>)
    ensures Highest(env, props, PromptValue(env, props))
  {
    if props != [] {
      var front, p := props[..|props| - 1], props[|props| - 1];
      PromptIsHighest(env, front);
      assert props == front + [p];
      assert p in props && forall q <- front :: q in props;
    }
  }

  // ---------------------------------------------------------------- the state of a symbol

  /** A boolean, and a tristate while modules are off, cannot be m. */
  predicate TwoValuedType(d: SymbolDef, modules: Tristate) {
    d.stype == Boolean || (d.stype == Tristate3 && modules == No)
  }

  /** t, with y in place of an m that the symbol cannot have. */
  predicate Raised(twoValued: bool, t: Tristate, r: Tristate) {
    r == if twoValued && t == Mod then Yes else t
  }

  /** Visible is the highest condition of the prompts, and only a tristate with modules on is visible as m. */
  lemma VisibleByPrompts(
      defs: Table, modules: Tristate, held: set<nat>, fixed: seq<State>, sol: seq<State>, i: nat, t: Tristate)
    requires Holding(defs, modules, held, fixed, sol) && i < |defs| && i !in held && defs[i].stype != Unknown
    requires Highest(EnvOf(defs, sol), defs[i].props, t)
    ensures Raised(defs[i].stype != Tristate3 || modules == No, t, sol[i].visible)
  {
    var env := EnvOf(defs, sol);
    assert sol[i] == Settle(defs, modules, defs[i], sol);
    PromptIsHighest(env, defs[i].props);
  }

  /** rev is what the selects demand. */
  lemma RevBySelects(defs: Table, modules: Tristate, held: set<nat>, fixed: seq<State>, sol: seq<State>, i: nat)
    requires Holding(defs, modules, held, fixed, sol) && i < |defs| && i !in held && defs[i].stype != Unknown
    ensures defs[i].revDep.None? ==> sol[i].rev == No
    ensures defs[i].revDep.Some? ==>
      Raised(TwoValuedType(defs[i], modules), Calc(EnvOf(defs, sol), defs[i].revDep.value), sol[i].rev)
  {
    assert sol[i] == Settle(defs, modules, defs[i], sol);
  }

  /** A value x brought between the selects below and the visibility, or the selects if they are higher, above. */
  function Bring(x: Tristate, s: State): Tristate {
    if Ord(x) <= Ord(s.rev) then s.rev
    else if Ord(x) <= Ord(s.visible) then x
    else if Ord(s.visible) <= Ord(s.rev) then s.rev else s.visible
  }

  /**
   * The value of a boolean or tristate.  Where it is shown the user's value comes first; otherwise, and without one,
   * the first default that applies; without that only selects count.  It is written where any of this applies.
   */
  lemma LogicByPriority(defs: Table, modules: Tristate, held: set<nat>, fixed: seq<State>, sol: seq<State>, i: nat)
    requires WellFormed(defs) && Holding(defs, modules, held, fixed, sol) && i < |defs| && i !in held
    requires defs[i].stype == Boolean || defs[i].stype == Tristate3
    ensures var env, d, s, two := EnvOf(defs, sol), defs[i], sol[i], TwoValuedType(defs[i], modules);
      var shown := s.visible != No || s.rev != No;
      (shown && d.hasUser ==> Raised(two, Bring(d.userTri, s), s.tri)) &&
      (!(shown && d.hasUser) ==>
        (forall k: nat :: First(env, d.props, k) ==>
          var v := Calc(env, d.props[k].value.value);
          Raised(two, if shown then Bring(v, s) else v, s.tri)) &&
        (NoneApply(env, d.props) ==> s.tri == s.rev)) &&
      (s.write <==> shown || (!(shown && d.hasUser) && !NoneApply(env, d.props)))
  {
    var env, d := EnvOf(defs, sol), defs[i];
    assert sol[i] == Settle(defs, modules, d, sol);
    DefaultIsFirst(env, d.props);
    DefaultChosen(env, d.props);
    BringIsBounds(d.userTri, sol[i]);
    forall k: nat | First(env, d.props, k)
      ensures DefaultOffer(defs, sol, d).value.tri == Calc(env, d.props[k].value.value)
    {
      BringIsBounds(Calc(env, d.props[k].value.value), sol[i]);
    }
    BringIsBounds(No, sol[i]);
  }

  lemma BringIsBounds(x: Tristate, s: State)
    ensures Bring(x, s) == Apply(Disj, Apply(Conj, x, s.visible), s.rev)
    ensures s.visible == No && s.rev == No ==> Bring(x, s) == No
    ensures Bring(No, s) == s.rev
  {
  }

  /** Unless no default applies, there is a first one. */
  lemma {:induction false} DefaultChosen(env: Env, props: seq<Property>)
    ensures NoneApply(env, props) || exists k: nat :: First(env, props, k)
  {
    var k := 0;
    while k < |props| && !Applies(env, props, k)
      invariant k <= |props| && forall j: nat :: j < k ==> !Applies(env, props, j)
    {
      k := k + 1;
    }
    if k < |props| {
      assert First(env, props, k);
    }
  }

  /** The string of a plain symbol: its own current string, or the name of a constant. */
  predicate StringOf(sol: seq<State>, s: Symbol, v: string) {
    match s
    case SymNo => v == "n"
    case SymMod => v == "m"
    case SymYes => v == "y"
    case Quoted(name) => v == name
    case Named(id, _) => id < |sol| ==> v == sol[id].val
  }

  /**
   * The value of a string or number: what the user set, if it is visible; otherwise, and without that, the string of
   * the symbol that the first default which applies names; the empty string if there is none.
   */
  lemma TextByPriority(defs: Table, modules: Tristate, held: set<nat>, fixed: seq<State>, sol: seq<State>, i: nat)
    requires WellFormed(defs) && Holding(defs, modules, held, fixed, sol) && i < |defs| && i !in held
    requires defs[i].stype == Int || defs[i].stype == Hex || defs[i].stype == Str
    ensures var env, d, s := EnvOf(defs, sol), defs[i], sol[i];
      s.tri == No &&
      (s.visible != No && d.hasUser ==> s.val == d.userStr && s.write) &&
      (!(s.visible != No && d.hasUser) ==>
        (forall k: nat :: First(env, d.props, k) ==>
          var e := d.props[k].value.value;
          (e.Sym? ==> StringOf(sol, e.s, s.val) && s.write) &&
          (!e.Sym? ==> s.val == "" && (s.write <==> s.visible != No))) &&
        (NoneApply(env, d.props) ==> s.val == "" && (s.write <==> s.visible != No)))
  {
    var env, d := EnvOf(defs, sol), defs[i];
    assert sol[i] == Settle(defs, modules, d, sol);
    DefaultIsFirst(env, d.props);
    forall k: nat | First(env, d.props, k)
      ensures DefaultOffer(defs, sol, d).Some? && DefaultOf(env, d.props) == d.props[k].value
    {
    }
  }
}
