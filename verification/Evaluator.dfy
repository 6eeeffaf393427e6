/**
 * The in-place evaluator of scripts/kconfig/symbol.c: SYMBOL_VALID marks, current values and the
 * global modules_val.  Proved to compute the plain recursive definition of module Evaluation.
 */
module Evaluators {
  import opened Expressions
  import opened SymbolTables
  import opened DependencyCheck
  import opened Evaluation
  import opened ModulesValue

  /** A symbol without a type is never written or shown, and a boolean is never m. */
  predicate Typed(d: SymbolDef, s: State) {
    (d.stype == Boolean ==> s.tri != Mod) &&
    (d.stype == Unknown ==> s.visible == No && s.rev == No && s.tri == No && !s.write)
  }

  /** The select lower bound and the visibility upper bound of a boolean or tristate. */
  predicate Bounded(s: State) {
    Within(s.visible, s.rev, s.tri)
  }

  predicate Within(visible: Tristate, rev: Tristate, tri: Tristate) {
    var high := Apply(Disj, visible, rev);
    high != No ==> Ord(rev) <= Ord(tri) <= Ord(high)
  }

  lemma LogicBounded(effective: SymType, visible: Tristate, rev: Tristate, tri: Tristate)
    requires Within(visible, rev, tri)
    ensures effective != Boolean || (visible != Mod && rev != Mod) ==>
      Within(visible, rev, PromoteIf(effective == Boolean, tri))
  {
  }

  /**
   * What an evaluation is compared with: a ranking, a value of modules_val, and states that solve the recursive
   * definition but for the symbols held, which are valid with these states from the beginning.
   */
  datatype Plan = Plan(rank: seq<nat>, modules: Tristate, held: set<nat>, sol: seq<State>)

  ghost predicate Suits(plan: Plan, defs: Table) {
    Evaluable(defs) && Ranks(defs, plan.rank) && Holding(defs, plan.modules, plan.held, plan.sol, plan.sol)
  }

  /** Symbols of lower rank than bound. */
  ghost predicate Lower(s: set<nat>, plan: Plan, bound: nat) {
    forall i <- s :: i < |plan.rank| && plan.rank[i] < bound
  }

  class Evaluator {
    const defs: Table
    const modulesSym: Option<nat>
    var valid: seq<bool>
    var curr: seq<State>
    var modules: Tristate
    /** The symbols whose evaluation has begun and not ended. */
    ghost var busy: set<nat>
    /** The symbols that may be evaluated: those asked for and all they depend on. */
    ghost var scope: set<nat>

    ghost predicate Sane()
      reads this
    {
      Evaluable(defs) && |valid| == |defs| && |curr| == |defs| &&
      (modulesSym.Some? ==> modulesSym.value < |defs|) &&
      (forall i <- busy :: i < |defs| && valid[i]) &&
      Closed(defs, scope) && (forall i: nat :: i < |defs| && valid[i] ==> i in scope) &&
      (forall i: nat :: i < |defs| ==> Typed(defs[i], curr[i]))
    }

    /** modules_val changes no more: the evaluation of the symbol it comes from has begun. */
    ghost predicate ModulesFixed()
      reads this
    {
      modulesSym.Some? ==> modulesSym.value < |valid| && valid[modulesSym.value]
    }

    /** Everything evaluated so far is as planned, and what is being evaluated does not rank below bound. */
    ghost predicate Matches(plan: Plan, bound: nat)
      requires Sane()
      reads this
    {
      Suits(plan, defs) &&
      (forall i <- busy :: bound <= plan.rank[i] && i !in plan.held) &&
      (forall i <- plan.held :: i < |defs| && valid[i]) &&
      (forall i: nat :: i < |defs| && valid[i] && i !in busy ==> curr[i] == plan.sol[i])
    }

    /** The same with modules_val as planned until the current evaluation ends. */
    ghost predicate Fits(plan: Plan, bound: nat)
      requires Sane()
      reads this
    {
      Matches(plan, bound) && modules == plan.modules && ModulesFixed()
    }

    ghost function Pending(): set<nat>
      reads this
    {
      set i: nat | i < |valid| && !valid[i]
    }

    /** What every call keeps, on any graph: evaluated symbols are not touched again. */
    twostate predicate Keeps()
      requires old(Sane())
      reads this
    {
      Sane() && busy == old(busy) && scope == old(scope) &&
      (forall i: nat :: i < |defs| && old(valid[i]) ==> valid[i] && curr[i] == old(curr[i])) &&
      (old(ModulesFixed()) ==> ModulesFixed() && modules == old(modules))
    }

    /** The same while symbol s is being evaluated: only its own state may change. */
    twostate predicate KeepsBut(s: nat)
      requires old(Sane())
      reads this
    {
      Sane() && busy == old(busy) && scope == old(scope) &&
      (forall i: nat :: i < |defs| && old(valid[i]) ==> valid[i] && (i != s ==> curr[i] == old(curr[i]))) &&
      (old(ModulesFixed()) ==> ModulesFixed() && modules == old(modules))
    }

    constructor (defs: Table, modulesSym: Option<nat>)
      requires Evaluable(defs) && (modulesSym.Some? ==> modulesSym.value < |defs|)
      ensures this.defs == defs && this.modulesSym == modulesSym
      ensures Sane() && busy == {} && modules == No && forall i: nat :: i < |defs| ==> !valid[i]
    {
      this.defs := defs;
      this.modulesSym := modulesSym;
      valid := seq(|defs|, _ => false);
      curr := seq(|defs|, _ => State(No, No, No, "", false));
      modules := No;
      busy := {};
      scope := {};
    }

    // -------------------------------------------------------------- expr_calc_value

    method CalcSymbol(s: Symbol, ghost fit: bool, ghost plan: Plan, ghost bound: nat)
      requires Sane() && Refers(defs, s) && Number(s) <= scope
      requires fit ==> Fits(plan, bound) && Lower(Number(s), plan, bound)
      modifies this
      ensures Keeps() && (s.Named? ==> valid[s.id])
      ensures fit ==> Fits(plan, bound) && Agree(curr, plan.sol, Number(s))
      decreases Pending(), 1
    {
      if s.Named? {
        SymCalcValue(s.id, fit, plan, bound);
      }
    }

    method CalcExpr(e: Expr, ghost fit: bool, ghost plan: Plan, ghost bound: nat) returns (v: Tristate)
      requires Sane() && RefersAll(defs, e) && Mentions(e) <= scope
      requires fit ==> Fits(plan, bound) && Lower(Mentions(e), plan, bound)
      modifies this
      ensures Keeps() && forall i <- Mentions(e) :: i < |valid| && valid[i]
      ensures fit ==> Fits(plan, bound) && v == Calc(EnvOf(defs, plan.sol), e)
      decreases Pending(), 3, e
    {
      match e
      case Sym(s) =>
        v := CalcLeaf(s, fit, plan, bound);
      case Not(x) =>
        v := CalcExpr(x, fit, plan, bound);
        v := Neg(v);
      case Bin(op, l, r) =>
        var v1 := CalcExpr(l, fit, plan, bound);
        var v2 := CalcExpr(r, fit, plan, bound);
        v := Apply(op, v1, v2);
      case Cmp(equal, a, b) =>
        v := CalcComparison(equal, a, b, fit, plan, bound);
    }

    method CalcLeaf(s: Symbol, ghost fit: bool, ghost plan: Plan, ghost bound: nat) returns (v: Tristate)
      requires Sane() && Refers(defs, s) && Number(s) <= scope
      requires fit ==> Fits(plan, bound) && Lower(Number(s), plan, bound)
      modifies this
      ensures Keeps() && (s.Named? ==> valid[s.id])
      ensures fit ==> Fits(plan, bound) && v == TriOf(EnvOf(defs, plan.sol), s)
      decreases Pending(), 2
    {
      CalcSymbol(s, fit, plan, bound);
      v := TriOf(EnvOf(defs, curr), s);
      if fit {
        SymbolAgrees(defs, curr, plan.sol, s);
      }
    }

    method CalcComparison(equal: bool, a: Symbol, b: Symbol, ghost fit: bool, ghost plan: Plan, ghost bound: nat)
      returns (v: Tristate)
      requires Sane() && Refers(defs, a) && Refers(defs, b) && Number(a) + Number(b) <= scope
      requires fit ==> Fits(plan, bound) && Lower(Number(a) + Number(b), plan, bound)
      modifies this
      ensures Keeps() && (a.Named? ==> valid[a.id]) && (b.Named? ==> valid[b.id])
      ensures fit ==> Fits(plan, bound) && v == Calc(EnvOf(defs, plan.sol), Cmp(equal, a, b))
      decreases Pending(), 2
    {
      CalcSymbol(a, fit, plan, bound);
      CalcSymbol(b, fit, plan, bound);
      v := CompareStrings(equal, StrOf(EnvOf(defs, curr), a), StrOf(EnvOf(defs, curr), b));
      if fit {
        assert Agree(curr, plan.sol, Number(a));
        ComparisonAgrees(defs, curr, plan.sol, equal, a, b);
      }
    }

    method CalcOptional(e: Option<Expr>, ghost fit: bool, ghost plan: Plan, ghost bound: nat) returns (v: Tristate)
      requires Sane() && RefersOpt(defs, e) && MentionsOpt(e) <= scope
      requires fit ==> Fits(plan, bound) && Lower(MentionsOpt(e), plan, bound)
      modifies this
      ensures Keeps()
      ensures fit ==> Fits(plan, bound) && v == CalcOpt(EnvOf(defs, plan.sol), e)
      decreases Pending(), 4
    {
      v := Yes;
      if e.Some? {
        v := CalcExpr(e.value, fit, plan, bound);
      }
    }

    // -------------------------------------------------------------- sym_calc_value

    /**
     * On any graph, with cycles or not, the call ends, keeps what was evaluated, and respects the bounds.
     * When MODULES itself is evaluated, modules_val is the old one throughout and stored at the end.
     */
    method SymCalcValue(s: nat, ghost fit: bool, ghost plan: Plan, ghost bound: nat)
      requires Sane() && s < |defs| && s in scope
      requires fit ==> Matches(plan, bound) && modules == plan.modules && Lower({s}, plan, bound)
      requires fit ==> ModulesFixed() || modulesSym == Some(s)
      modifies this
      ensures Keeps() && valid[s]
      ensures !old(valid[s]) && (old(ModulesFixed()) || modulesSym == Some(s)) && IsLogic(SymbolAt(defs, s)) ==>
        Bounded(curr[s])
      ensures !old(valid[s]) ==> SelectorsValid(s)
      ensures fit ==> Matches(plan, bound) && curr[s] == plan.sol[s]
      ensures !old(valid[s]) && modulesSym == Some(s) ==> modules == curr[s].tri
      decreases Pending(), 0
    {
      if valid[s] {
        return;
      }
      Begin(s, fit, plan, bound);
      Evaluate(s, fit, plan);
      Finish(s);
    }

    /** The evaluation of s is over; MODULES determines modules_val. */
    method Finish(s: nat)
      requires Sane() && s in busy
      modifies this`busy, this`modules
      ensures Sane() && busy == old(busy) - {s}
      ensures modules == if modulesSym == Some(s) then curr[s].tri else old(modules)
    {
      busy := busy - {s};
      if modulesSym == Some(s) {
        modules := curr[s].tri;
      }
    }

    /** Mark a symbol valid before it is evaluated, so that no cycle leads back to it. */
    method Begin(s: nat, ghost fit: bool, ghost plan: Plan, ghost bound: nat)
      requires Sane() && s < |defs| && s in scope && !valid[s]
      requires fit ==> Matches(plan, bound) && modules == plan.modules && Lower({s}, plan, bound)
      requires fit ==> ModulesFixed() || modulesSym == Some(s)
      modifies this`valid, this`busy
      ensures Sane() && valid == old(valid)[s := true] && busy == old(busy) + {s} && s !in old(busy)
      ensures Pending() < old(Pending())
      ensures fit ==> Suits(plan, defs) && Fits(plan, plan.rank[s])
    {
      ghost var pending := Pending();
      valid := valid[s := true];
      busy := busy + {s};
      assert s in pending && Pending() == pending - {s};
    }

    /** Every symbol the select condition of s mentions has been evaluated. */
    ghost predicate SelectorsValid(s: nat)
      requires s < |defs|
      reads this
    {
      defs[s].stype != Unknown ==> forall i <- MentionsOpt(defs[s].revDep) :: i < |valid| && valid[i]
    }

    /** sym_calc_value between marking the symbol valid and storing modules_val. */
    method Evaluate(s: nat, ghost fit: bool, ghost plan: Plan)
      requires Sane() && s in busy
      requires fit ==> Suits(plan, defs) && Fits(plan, plan.rank[s])
      modifies this
      ensures KeepsBut(s) && SelectorsValid(s)
      ensures old(ModulesFixed()) && IsLogic(SymbolAt(defs, s)) ==> Bounded(curr[s])
      ensures fit ==> Fits(plan, plan.rank[s]) && curr[s] == plan.sol[s]
      decreases Pending(), 11
    {
      var d := defs[s];
      if d.stype == Unknown {
        curr := curr[s := curr[s].(val := d.name, tri := No)];
        return;
      }
      curr := curr[s := curr[s].(write := false)];
      ghost var fixed := ModulesFixed();
      CalcVisibility(s, fit, plan);
      if d.stype == Boolean || d.stype == Tristate3 {
        EvaluateLogic(s, fixed, fit, plan);
      } else {
        EvaluateText(s, fit, plan);
      }
    }

    /** The visibility of symbol s is up to date, in curr and according to plan. */
    ghost predicate VisibilityFits(s: nat, plan: Plan)
      requires Sane() && s < |defs| && Suits(plan, defs)
      reads this
    {
      var env := EnvOf(defs, plan.sol);
      curr[s].visible == Visibility(env, defs[s], modules) && curr[s].rev == Selected(env, defs[s], modules)
    }

    /** sym_calc_visibility */
    method CalcVisibility(s: nat, ghost fit: bool, ghost plan: Plan)
      requires Sane() && s in busy && defs[s].stype != Unknown
      requires fit ==> Suits(plan, defs) && Fits(plan, plan.rank[s])
      modifies this
      ensures KeepsBut(s) && SelectorsValid(s) && curr[s].tri == old(curr[s].tri)
      ensures old(ModulesFixed()) && EffectiveType(defs[s].stype, modules) == Boolean ==>
        curr[s].visible != Mod && curr[s].rev != Mod
      ensures fit ==> Fits(plan, plan.rank[s]) && VisibilityFits(s, plan)
      decreases Pending(), 9
    {
      var tri := CalcPrompts(s, fit, plan);
      if tri == Mod && (defs[s].stype != Tristate3 || modules == No) {
        tri := Yes;
      }
      curr := curr[s := curr[s].(visible := tri)];
      CalcRev(s, fit, plan);
    }

    /** The second half of sym_calc_visibility. */
    method CalcRev(s: nat, ghost fit: bool, ghost plan: Plan)
      requires Sane() && s in busy && defs[s].stype != Unknown
      requires fit ==> Suits(plan, defs) && Fits(plan, plan.rank[s])
      modifies this
      ensures KeepsBut(s) && SelectorsValid(s)
      ensures curr[s].tri == old(curr[s].tri) && curr[s].visible == old(curr[s].visible)
      ensures old(ModulesFixed()) && EffectiveType(defs[s].stype, modules) == Boolean ==> curr[s].rev != Mod
      ensures fit ==>
        Fits(plan, plan.rank[s]) && curr[s].rev == Selected(EnvOf(defs, plan.sol), defs[s], modules)
      decreases Pending(), 8
    {
      var tri := CalcSelected(s, fit, plan);
      if tri == Mod && EffectiveType(defs[s].stype, modules) == Boolean {
        tri := Yes;
      }
      curr := curr[s := curr[s].(rev := tri)];
    }

    /** The value of rev_dep.expr, n if there is none. */
    method CalcSelected(s: nat, ghost fit: bool, ghost plan: Plan) returns (tri: Tristate)
      requires Sane() && s in busy
      requires fit ==> Suits(plan, defs) && Fits(plan, plan.rank[s])
      modifies this
      ensures Keeps() && SelectorsValid(s)
      ensures fit ==> Fits(plan, plan.rank[s])
      ensures fit ==>
        tri == if defs[s].revDep.Some? then Calc(EnvOf(defs, plan.sol), defs[s].revDep.value) else No
      decreases Pending(), 6
    {
      tri := No;
      if defs[s].revDep.Some? {
        assert MentionsOpt(defs[s].revDep) <= Followed(defs[s]) <= scope;
        if fit {
          RanksLower(defs, plan.rank, s, MentionsOpt(defs[s].revDep));
        }
        tri := CalcExpr(defs[s].revDep.value, fit, plan, if fit then plan.rank[s] else 0);
      }
    }

    method CalcPrompts(s: nat, ghost fit: bool, ghost plan: Plan) returns (tri: Tristate)
      requires Sane() && s in busy
      requires fit ==> Suits(plan, defs) && Fits(plan, plan.rank[s])
      modifies this
      ensures Keeps()
      ensures fit ==> Fits(plan, plan.rank[s]) && tri == PromptValue(EnvOf(defs, plan.sol), defs[s].props)
      decreases Pending(), 6
    {
      var props := defs[s].props;
      tri := No;
      for k := 0 to |props|
        invariant Keeps()
        invariant fit ==> Fits(plan, plan.rank[s]) && tri == PromptValue(EnvOf(defs, plan.sol), props[..k])
      {
        assert props[..k + 1][..k] == props[..k];
        if props[k].text {
          FollowedProperty(defs[s], props[k]);
          if fit {
            RanksLower(defs, plan.rank, s, MentionsOpt(props[k].visible));
          }
          var v := CalcOptional(props[k].visible, fit, plan, if fit then plan.rank[s] else 0);
          tri := Apply(Disj, tri, v);
        }
      }
      assert props[..|props|] == props;
    }

    /** sym_get_default_prop */
    method DefaultProp(s: nat, ghost fit: bool, ghost plan: Plan) returns (e: Option<Expr>)
      requires Sane() && s in busy
      requires fit ==> Suits(plan, defs) && Fits(plan, plan.rank[s])
      modifies this
      ensures Keeps()
      ensures e.Some? ==> RefersAll(defs, e.value) && Mentions(e.value) <= Followed(defs[s])
      ensures fit ==> Fits(plan, plan.rank[s]) && e == DefaultOf(EnvOf(defs, plan.sol), defs[s].props)
      decreases Pending(), 6
    {
      var props := defs[s].props;
      for k := 0 to |props|
        invariant Keeps()
        invariant fit ==> Fits(plan, plan.rank[s])
        invariant fit ==>
          DefaultOf(EnvOf(defs, plan.sol), props) == DefaultOf(EnvOf(defs, plan.sol), props[k..])
      {
        if props[k].kind == Default {
          FollowedProperty(defs[s], props[k]);
          if fit {
            RanksLower(defs, plan.rank, s, MentionsOpt(props[k].visible));
          }
          var v := CalcOptional(props[k].visible, fit, plan, if fit then plan.rank[s] else 0);
          if v != No {
            return props[k].value;
          }
        }
      }
      e := None;
    }

    method EvaluateLogic(s: nat, ghost fixed: bool, ghost fit: bool, ghost plan: Plan)
      requires Sane() && s in busy && IsLogic(SymbolAt(defs, s))
      requires fixed ==> ModulesFixed()
      requires fixed && EffectiveType(defs[s].stype, modules) == Boolean ==>
        curr[s].visible != Mod && curr[s].rev != Mod
      requires fit ==> Suits(plan, defs) && Fits(plan, plan.rank[s]) && VisibilityFits(s, plan)
      modifies this
      ensures KeepsBut(s)
      ensures fixed ==> Bounded(curr[s])
      ensures fit ==> Fits(plan, plan.rank[s]) && curr[s] == plan.sol[s]
      decreases Pending(), 10
    {
      curr := curr[s := curr[s].(tri := No, val := "n")];
      var visible, rev := curr[s].visible, curr[s].rev;
      var tri, write := PromotedValue(s, visible, rev, fixed, fit, plan);
      curr := curr[s := State(visible, rev, tri, "n", write)];
    }

    /** The new value of a boolean or tristate. */
    method PromotedValue(
        s: nat, visible: Tristate, rev: Tristate, ghost fixed: bool, ghost fit: bool, ghost plan: Plan)
      returns (tri: Tristate, write: bool)
      requires Sane() && s in busy && IsLogic(SymbolAt(defs, s))
      requires fixed ==> ModulesFixed()
      requires fixed && EffectiveType(defs[s].stype, modules) == Boolean ==> visible != Mod && rev != Mod
      requires fit ==> Suits(plan, defs) && Fits(plan, plan.rank[s])
      modifies this
      ensures Keeps() && (defs[s].stype == Boolean ==> tri != Mod)
      ensures fixed ==> Within(visible, rev, tri)
      ensures fit ==> Fits(plan, plan.rank[s])
      ensures fit ==>
        State(visible, rev, tri, "n", write) ==
          SettleLogic(defs[s], modules, visible, rev, DefaultOffer(defs, plan.sol, defs[s]))
      decreases Pending(), 9
    {
      tri, write := LogicValue(s, visible, rev, fit, plan);
      var effective := EffectiveType(defs[s].stype, modules);
      LogicBounded(effective, visible, rev, tri);
      if tri == Mod && effective == Boolean {
        tri := Yes;
      }
    }

    /** The new value of a boolean or tristate, before m is promoted. */
    method LogicValue(s: nat, visible: Tristate, rev: Tristate, ghost fit: bool, ghost plan: Plan)
      returns (tri: Tristate, write: bool)
      requires Sane() && s in busy && IsLogic(SymbolAt(defs, s))
      requires fit ==> Suits(plan, defs) && Fits(plan, plan.rank[s])
      modifies this
      ensures Keeps()
      ensures Within(visible, rev, tri)
      ensures fit ==> Fits(plan, plan.rank[s])
      ensures fit ==>
        var promoted := PromoteIf(EffectiveType(defs[s].stype, modules) == Boolean, tri);
        State(visible, rev, promoted, "n", write) ==
          SettleLogic(defs[s], modules, visible, rev, DefaultOffer(defs, plan.sol, defs[s]))
      decreases Pending(), 8
    {
      var d := defs[s];
      tri, write := No, false;
      if Apply(Disj, visible, rev) != No {
        write := true;
        if d.hasUser {
          tri := d.userTri;
        } else {
          var offer := LogicDefault(s, fit, plan);
          tri := if offer.Some? then offer.value else No;
        }
        tri := Apply(Disj, Apply(Conj, tri, visible), rev);
      } else {
        var offer := LogicDefault(s, fit, plan);
        if offer.Some? {
          write := true;
          tri := offer.value;
        }
      }
    }

    /** The value of the default that applies. */
    method LogicDefault(s: nat, ghost fit: bool, ghost plan: Plan) returns (v: Option<Tristate>)
      requires Sane() && s in busy
      requires fit ==> Suits(plan, defs) && Fits(plan, plan.rank[s])
      modifies this
      ensures Keeps()
      ensures fit ==> Fits(plan, plan.rank[s])
      ensures fit ==>
        var offer := DefaultOffer(defs, plan.sol, defs[s]);
        v == if offer.Some? then Some(offer.value.tri) else None
      decreases Pending(), 7
    {
      var e := DefaultProp(s, fit, plan);
      v := None;
      if e.Some? {
        if fit {
          RanksLower(defs, plan.rank, s, Mentions(e.value));
        }
        var t := CalcExpr(e.value, fit, plan, if fit then plan.rank[s] else 0);
        v := Some(t);
      }
    }

    /** The string of the default that applies, if it is a plain symbol. */
    method TextDefault(s: nat, ghost fit: bool, ghost plan: Plan) returns (v: Option<string>)
      requires Sane() && s in busy
      requires fit ==> Suits(plan, defs) && Fits(plan, plan.rank[s])
      modifies this
      ensures Keeps()
      ensures fit ==> Fits(plan, plan.rank[s])
      ensures fit ==>
        var offer := DefaultOffer(defs, plan.sol, defs[s]);
        v == if offer.Some? then offer.value.val else None
      decreases Pending(), 7
    {
      var e := DefaultProp(s, fit, plan);
      v := None;
      if e.Some? && e.value.Sym? {
        if fit {
          RanksLower(defs, plan.rank, s, Mentions(e.value));
        }
        CalcSymbol(e.value.s, fit, plan, if fit then plan.rank[s] else 0);
        v := Some(CurrVal(curr, e.value.s));
        if fit {
          SymbolAgrees(defs, curr, plan.sol, e.value.s);
        }
      }
    }

    method EvaluateText(s: nat, ghost fit: bool, ghost plan: Plan)
      requires Sane() && s in busy && !IsLogic(SymbolAt(defs, s)) && defs[s].stype != Unknown
      requires fit ==> Suits(plan, defs) && Fits(plan, plan.rank[s]) && VisibilityFits(s, plan)
      modifies this
      ensures KeepsBut(s)
      ensures fit ==> Fits(plan, plan.rank[s]) && curr[s] == plan.sol[s]
      decreases Pending(), 8
    {
      var d := defs[s];
      curr := curr[s := curr[s].(tri := No, val := "")];
      var visible, rev := curr[s].visible, curr[s].rev;
      var val, write := "", false;
      if visible != No {
        write := true;
      }
      if visible != No && d.hasUser {
        val := d.userStr;
      } else {
        var offer := TextDefault(s, fit, plan);
        if offer.Some? {
          write := true;
          val := offer.value;
        }
      }
      curr := curr[s := State(visible, rev, No, val, write)];
    }

    /**
     * sym_clear_all_valid: forget every value, then evaluate MODULES.  Only MODULES and symbols it depends on
     * are valid afterwards, and what they hold is planned with the modules_val from before the call.
     */
    method ClearAllValid(ghost fit: bool, ghost plan: Plan)
      requires Sane() && busy == {}
      requires fit ==> Suits(plan, defs) && plan.modules == modules && plan.held == {}
      modifies this
      ensures Sane() && busy == {} && ModulesFixed()
      ensures modulesSym.None? ==> modules == old(modules) && forall i: nat :: i < |defs| ==> !valid[i]
      ensures modulesSym.Some? ==> modules == curr[modulesSym.value].tri && SelectorsValid(modulesSym.value)
      ensures modulesSym.Some? ==> scope == Reach(defs, modulesSym.value)
      ensures fit ==> forall i: nat :: i < |defs| && valid[i] ==> curr[i] == plan.sol[i]
    {
      valid := seq(|defs|, _ => false);
      scope := {};
      if modulesSym.Some? {
        var m := modulesSym.value;
        ReachClosed(defs, m);
        scope := Reach(defs, m);
        ghost var bound := Highest(plan.rank) + 1;
        assert fit ==> plan.rank[m] in plan.rank;
        SymCalcValue(m, fit, plan, bound);
      }
    }

    /** Any sequence of calls, in any order: afterwards each symbol asked for has the value of the plan. */
    method EvaluateAll(asked: seq<nat>, ghost fit: bool, ghost plan: Plan)
      requires Sane() && busy == {} && ModulesFixed()
      requires fit ==> Suits(plan, defs) && plan.modules == modules
      requires fit ==> forall i: nat :: i < |defs| && valid[i] ==> curr[i] == plan.sol[i]
      requires fit ==> forall i <- plan.held :: i < |defs| && valid[i]
      requires forall s <- asked :: s < |defs|
      modifies this
      ensures Sane() && busy == {} && ModulesFixed() && modules == old(modules)
      ensures forall i: nat :: i < |defs| && old(valid[i]) ==> valid[i] && curr[i] == old(curr[i])
      ensures forall s <- asked :: valid[s]
      ensures fit ==> forall i: nat :: i < |defs| && valid[i] ==> curr[i] == plan.sol[i]
    {
      ghost var bound := Highest(plan.rank) + 1;
      AllClosed(defs);
      scope := AllNumbers(defs);
      label Open:
      for k := 0 to |asked|
        invariant Keeps@Open() && ModulesFixed() && (fit ==> Fits(plan, bound))
        invariant forall s <- asked[..k] :: s < |defs| && valid[s]
      {
        assert asked[k] in asked;
        assert asked[..k + 1] == asked[..k] + [asked[k]];
        assert fit ==> plan.rank[asked[k]] in plan.rank;
        SymCalcValue(asked[k], fit, plan, bound);
      }
      assert asked[..|asked|] == asked;
    }

    /**
     * sym_clear_all_valid and then any sequence of calls, from any modules_val and any values.  MODULES and what was
     * needed of what it depends on are settled with the old modules_val and held so; everything else follows with the
     * new modules_val.  This is a configuration if modules_val was n and is n, or neither, or if nothing MODULES
     * depends on is m.
     */
    method ClearAndEvaluate(asked: seq<nat>, ghost rank: seq<nat>)
      returns (ghost before: seq<State>, ghost held: set<nat>, ghost after: seq<State>)
      requires Sane() && busy == {} && Ranks(defs, rank) && forall s <- asked :: s < |defs|
      modifies this
      ensures Sane() && busy == {} && ModulesFixed() && forall s <- asked :: valid[s]
      ensures Solution(defs, old(modules), before) && Holding(defs, modules, held, before, after)
      ensures forall i: nat :: i < |defs| && valid[i] ==> curr[i] == after[i]
      ensures held <= Source(defs, modulesSym) && (modulesSym.Some? ==> modulesSym.value in held)
      ensures modules == if modulesSym.Some? then after[modulesSym.value].tri else old(modules)
      ensures forall sol :: Solution(defs, modules, sol) && Steady(defs, modulesSym, old(modules), modules, before, sol) ==>
        after == sol && Configured(defs, modulesSym, modules, after)
    {
      before := SolutionExists(defs, modules, rank);
      ghost var m0 := modules;
      ClearAllValid(true, Plan(rank, modules, {}, before));
      held := set i: nat | i < |valid| && valid[i];
      after := HoldingExists(defs, modules, rank, held, before);
      EvaluateAll(asked, true, Plan(rank, modules, held, after));
      forall sol | Solution(defs, modules, sol) && Steady(defs, modulesSym, m0, modules, before, sol)
        ensures after == sol
      {
        SteadyHolds(defs, modulesSym, rank, m0, modules, held, before, sol);
        HoldingUnique(defs, modules, rank, held, before, after, sol);
      }
    }
  }

  function CompareStrings(equal: bool, str1: string, str2: string): Tristate {
    if (str1 == str2) == equal then Yes else No
  }

  lemma ComparisonAgrees(defs: Table, curr: seq<State>, sol: seq<State>, equal: bool, a: Symbol, b: Symbol)
    requires |curr| == |defs| && Refers(defs, a) && Refers(defs, b)
    requires Agree(curr, sol, Number(a)) && Agree(curr, sol, Number(b))
    ensures CompareStrings(equal, StrOf(EnvOf(defs, curr), a), StrOf(EnvOf(defs, curr), b)) ==
      Calc(EnvOf(defs, sol), Cmp(equal, a, b))
  {
    SymbolAgrees(defs, curr, sol, a);
    SymbolAgrees(defs, curr, sol, b);
  }

  lemma RanksLower(defs: Table, rank: seq<nat>, s: nat, m: set<nat>)
    requires Ranks(defs, rank) && s < |defs| && m <= Followed(defs[s])
    ensures forall i <- m :: i < |rank| && rank[i] < rank[s]
  {
    forall i | i in m
      ensures i < |rank| && rank[i] < rank[s]
    {
      assert Edge(defs, s, i);
    }
  }
}
