/**
 * Memoised evaluation of symbols
 * (sym_calc_visibility and sym_calc_value in scripts/kconfig/symbol.c, expr_calc_value in
 * scripts/kconfig/expr.c), for symbols that are no choices and have no range.
 */
module Evaluation {
  import opened Expressions
  import opened SymbolTables
  import opened DependencyCheck

  /** The computed part of a symbol: visible, rev_dep.tri, curr.tri, curr.val and SYMBOL_WRITE. */
  datatype State = State(visible: Tristate, rev: Tristate, tri: Tristate, val: string, write: bool)

  // ---------------------------------------------------------------- the plain recursive definition

  function AllSymbols(defs: Table): set<Symbol> {
    set i: nat | i < |defs| :: SymbolAt(defs, i)
  }

  /** The environment in which symbol i has the value given by states[i]. */
  function EnvOf(defs: Table, states: seq<State>): Env
    requires |states| == |defs|
  {
    Env(map s | s in AllSymbols(defs) :: states[s.id].tri, map s | s in AllSymbols(defs) :: states[s.id].val)
  }

  /** The highest value of the prompts' conditions. */
  function PromptValue(env: Env, props: seq<Property>): Tristate {
    if props == [] then No
    else
      var rest := PromptValue(env, props[..|props| - 1]);
      var p := props[|props| - 1];
      if p.text then Apply(Disj, rest, CalcOpt(env, p.visible)) else rest
  }

  /** sym_get_default_prop: the value of the first default whose condition is not n. */
  function DefaultOf(env: Env, props: seq<Property>): Option<Expr> {
    if props == [] then None
    else if props[0].kind == Default && CalcOpt(env, props[0].visible) != No then props[0].value
    else DefaultOf(env, props[1..])
  }

  /** sym_get_type: without modules a tristate acts as a boolean. */
  function EffectiveType(t: SymType, modules: Tristate): SymType {
    if t == Tristate3 && modules == No then Boolean else t
  }

  function PromoteIf(b: bool, t: Tristate): Tristate {
    if b && t == Mod then Yes else t
  }

  function Visibility(env: Env, d: SymbolDef, modules: Tristate): Tristate {
    PromoteIf(d.stype != Tristate3 || modules == No, PromptValue(env, d.props))
  }

  function Selected(env: Env, d: SymbolDef, modules: Tristate): Tristate {
    PromoteIf(EffectiveType(d.stype, modules) == Boolean, if d.revDep.Some? then Calc(env, d.revDep.value) else No)
  }

  /** curr.val of a symbol; that of a boolean or tristate is always "n". */
  function CurrVal(states: seq<State>, s: Symbol): string {
    match s
    case SymNo => "n"
    case SymMod => "m"
    case SymYes => "y"
    case Quoted(name) => name
    case Named(i, _) => if i < |states| then states[i].val else ""
  }

  /** What the chosen default offers: a logic value, and a string if it is a plain symbol. */
  datatype Offer = Offer(tri: Tristate, val: Option<string>)

  function DefaultOffer(defs: Table, states: seq<State>, d: SymbolDef): Option<Offer>
    requires |states| == |defs|
  {
    var e := DefaultOf(EnvOf(defs, states), d.props);
    if e.None? then None
    else Some(Offer(Calc(EnvOf(defs, states), e.value),
                    if e.value.Sym? then Some(CurrVal(states, e.value.s)) else None))
  }

  function SettleLogic(d: SymbolDef, modules: Tristate, visible: Tristate, rev: Tristate, offer: Option<Offer>): State {
    var shown := Apply(Disj, visible, rev) != No;
    var base := if shown && d.hasUser then d.userTri else if offer.Some? then offer.value.tri else No;
    var tri := if shown then Apply(Disj, Apply(Conj, base, visible), rev) else base;
    State(visible, rev, PromoteIf(EffectiveType(d.stype, modules) == Boolean, tri), "n", shown || offer.Some?)
  }

  function SettleText(d: SymbolDef, visible: Tristate, rev: Tristate, offer: Option<Offer>): State {
    var offered := offer.Some? && offer.value.val.Some?;
    var val := if visible != No && d.hasUser then d.userStr else if offered then offer.value.val.value else "";
    State(visible, rev, No, val, visible != No || offered)
  }

  /** The state sym_calc_value gives symbol d when the other symbols are in the given states. */
  function Settle(defs: Table, modules: Tristate, d: SymbolDef, states: seq<State>): State
    requires |states| == |defs|
  {
    var env := EnvOf(defs, states);
    if d.stype == Unknown then State(No, No, No, d.name, false)
    else if d.stype == Boolean || d.stype == Tristate3 then
      SettleLogic(d, modules, Visibility(env, d, modules), Selected(env, d, modules), DefaultOffer(defs, states, d))
    else
      SettleText(d, Visibility(env, d, modules), Selected(env, d, modules), DefaultOffer(defs, states, d))
  }

  /** The states are those of the plain recursive definition: each follows from the others. */
  ghost predicate Solution(defs: Table, modules: Tristate, states: seq<State>) {
    |states| == |defs| &&
    forall i: nat :: i < |defs| ==> states[i] == Settle(defs, modules, defs[i], states)
  }

  // ---------------------------------------------------------------- congruence, uniqueness, existence

  /** The two give the symbols of set s the same state. */
  ghost predicate Agree(a: seq<State>, b: seq<State>, s: set<nat>) {
    |a| == |b| && forall i <- s :: i < |a| && a[i] == b[i]
  }

  lemma {:induction false} CalcAgrees(defs: Table, a: seq<State>, b: seq<State>, e: Expr)
    requires |a| == |defs| && Agree(a, b, Mentions(e)) && RefersAll(defs, e)
    ensures Calc(EnvOf(defs, a), e) == Calc(EnvOf(defs, b), e)
  {
    match e
    case Not(x) => CalcAgrees(defs, a, b, x);
    case Bin(_, l, r) =>
      CalcAgrees(defs, a, b, l);
      CalcAgrees(defs, a, b, r);
    case Sym(s) => SymbolAgrees(defs, a, b, s);
    case Cmp(_, x, y) =>
      SymbolAgrees(defs, a, b, x);
      SymbolAgrees(defs, a, b, y);
  }

  lemma SymbolAgrees(defs: Table, a: seq<State>, b: seq<State>, s: Symbol)
    requires |a| == |defs| && Agree(a, b, Number(s)) && Refers(defs, s)
    ensures TriOf(EnvOf(defs, a), s) == TriOf(EnvOf(defs, b), s)
    ensures StrOf(EnvOf(defs, a), s) == StrOf(EnvOf(defs, b), s)
    ensures CurrVal(a, s) == CurrVal(b, s)
  {
    if s.Named? {
      SymbolState(defs, a, s.id);
      SymbolState(defs, b, s.id);
    }
  }

  lemma SymbolState(defs: Table, states: seq<State>, i: nat)
    requires |states| == |defs| && i < |defs|
    ensures TriOf(EnvOf(defs, states), SymbolAt(defs, i)) == states[i].tri
    ensures !IsLogic(SymbolAt(defs, i)) ==> StrOf(EnvOf(defs, states), SymbolAt(defs, i)) == states[i].val
  {
    assert SymbolAt(defs, i) in AllSymbols(defs);
  }

  lemma {:induction false} PromptsAgree(defs: Table, a: seq<State>, b: seq<State>, props: seq<Property>)
    requires |a| == |defs|
    requires forall p <- props :: RefersOpt(defs, p.visible) && (p.text ==> Agree(a, b, MentionsOpt(p.visible)))
    requires |a| == |b|
    ensures PromptValue(EnvOf(defs, a), props) == PromptValue(EnvOf(defs, b), props)
  {
    if props != [] {
      var p := props[|props| - 1];
      assert p in props;
      PromptsAgree(defs, a, b, props[..|props| - 1]);
      if p.text && p.visible.Some? {
        CalcAgrees(defs, a, b, p.visible.value);
      }
    }
  }

  lemma {:induction false} DefaultsAgree(defs: Table, a: seq<State>, b: seq<State>, props: seq<Property>)
    requires |a| == |defs| && |a| == |b|
    requires forall p <- props :: RefersOpt(defs, p.visible)
    requires forall p <- props :: p.kind == Default ==> Agree(a, b, MentionsOpt(p.visible))
    ensures DefaultOf(EnvOf(defs, a), props) == DefaultOf(EnvOf(defs, b), props)
    ensures var d := DefaultOf(EnvOf(defs, a), props);
      d.Some? ==> exists p <- props :: p.kind == Default && p.value == d
  {
    if props != [] {
      var p := props[0];
      assert p in props;
      if p.kind == Default && p.visible.Some? {
        CalcAgrees(defs, a, b, p.visible.value);
      }
      DefaultsAgree(defs, a, b, props[1..]);
    }
  }

  lemma OffersAgree(defs: Table, d: SymbolDef, a: seq<State>, b: seq<State>)
    requires |a| == |defs| && |a| == |b|
    requires forall p <- d.props :: RefersOpt(defs, p.visible) && RefersOpt(defs, p.value)
    requires forall p <- d.props :: p.kind == Default && p.value.Some? ==>
      Agree(a, b, MentionsOpt(p.visible)) && Agree(a, b, Mentions(p.value.value))
    requires forall p <- d.props :: p.kind == Default ==> p.value.Some?
    ensures DefaultOffer(defs, a, d) == DefaultOffer(defs, b, d)
  {
    DefaultsAgree(defs, a, b, d.props);
    var default := DefaultOf(EnvOf(defs, a), d.props);
    if default.Some? {
      var p :| p in d.props && p.kind == Default && p.value == default;
      CalcAgrees(defs, a, b, default.value);
      if default.value.Sym? {
        SymbolAgrees(defs, a, b, default.value.s);
      }
    }
  }

  /** A symbol's state depends on nothing but the symbols that sym_check_deps follows from it. */
  lemma SettleAgrees(defs: Table, modules: Tristate, i: nat, a: seq<State>, b: seq<State>)
    requires Evaluable(defs) && i < |defs| && |a| == |defs| && Agree(a, b, Followed(defs[i]))
    ensures Settle(defs, modules, defs[i], a) == Settle(defs, modules, defs[i], b)
  {
    var d := defs[i];
    forall p | p in d.props
      ensures FollowedBy(d, p) <= Followed(d)
    {
      FollowedProperty(d, p);
    }
    PromptsAgree(defs, a, b, d.props);
    OffersAgree(defs, d, a, b);
    if d.revDep.Some? {
      CalcAgrees(defs, a, b, d.revDep.value);
    }
  }

  /** The same but for some symbols that are held in given states. */
  ghost predicate Holding(defs: Table, modules: Tristate, held: set<nat>, fixed: seq<State>, states: seq<State>) {
    |states| == |defs| && |fixed| == |defs| &&
    forall i: nat :: i < |defs| ==> states[i] == if i in held then fixed[i] else Settle(defs, modules, defs[i], states)
  }

  lemma SolutionIsHolding(defs: Table, modules: Tristate, states: seq<State>)
    requires |states| == |defs|
    ensures Solution(defs, modules, states) <==> Holding(defs, modules, {}, states, states)
  {
  }

  /** On a graph without cycles there is at most one such assignment of states. */
  lemma {:induction false} HoldingUnique(
      defs: Table, modules: Tristate, rank: seq<nat>, held: set<nat>, fixed: seq<State>, a: seq<State>, b: seq<State>)
    requires Evaluable(defs) && Ranks(defs, rank)
    requires Holding(defs, modules, held, fixed, a) && Holding(defs, modules, held, fixed, b)
    ensures a == b
  {
    forall i: nat | i < |defs|
      ensures a[i] == b[i]
    {
      SameState(defs, modules, rank, held, fixed, a, b, i);
    }
  }

  lemma {:induction false} SameState(
      defs: Table, modules: Tristate, rank: seq<nat>, held: set<nat>, fixed: seq<State>, a: seq<State>, b: seq<State>,
      i: nat)
    requires Evaluable(defs) && Ranks(defs, rank) && i < |defs|
    requires Holding(defs, modules, held, fixed, a) && Holding(defs, modules, held, fixed, b)
    ensures a[i] == b[i]
    decreases rank[i]
  {
    if i !in held {
      forall j | j in Followed(defs[i])
        ensures j < |a| && a[j] == b[j]
      {
        assert Edge(defs, i, j);
        SameState(defs, modules, rank, held, fixed, a, b, j);
      }
      SettleAgrees(defs, modules, i, a, b);
    }
  }

  /** In particular the recursive definition has at most one solution. */
  lemma {:induction false} SolutionUnique(defs: Table, modules: Tristate, rank: seq<nat>, a: seq<State>, b: seq<State>)
    requires Evaluable(defs) && Ranks(defs, rank)
    requires Solution(defs, modules, a) && Solution(defs, modules, b)
    ensures a == b
  {
    HoldingUnique(defs, modules, rank, {}, a, a, b);
  }

  /** Every symbol that is not held settled from the given states. */
  function NextRound(defs: Table, modules: Tristate, held: set<nat>, fixed: seq<State>, before: seq<State>): (r: seq<State>)
    requires |before| == |defs| == |fixed|
    ensures |r| == |defs|
    ensures forall i: nat :: i < |defs| ==> r[i] == if i in held then fixed[i] else Settle(defs, modules, defs[i], before)
  {
    seq(|defs|, i requires 0 <= i < |defs| => if i in held then fixed[i] else Settle(defs, modules, defs[i], before))
  }

  /** Each entry is one round further. */
  ghost predicate Rounds(defs: Table, modules: Tristate, held: set<nat>, fixed: seq<State>, h: seq<seq<State>>) {
    |fixed| == |defs| && (forall k: nat :: k < |h| ==> |h[k]| == |defs|) &&
    forall k: nat :: k + 1 < |h| ==> OneRound(defs, modules, held, fixed, h, k)
  }

  ghost predicate OneRound(
      defs: Table, modules: Tristate, held: set<nat>, fixed: seq<State>, h: seq<seq<State>>, k: nat)
    requires k + 1 < |h| && |h[k]| == |defs| == |fixed|
  {
    h[k + 1] == NextRound(defs, modules, held, fixed, h[k])
  }

  /** A symbol of rank below n has reached its final state after n rounds. */
  lemma {:induction false} RoundsStable(
      defs: Table, modules: Tristate, rank: seq<nat>, held: set<nat>, fixed: seq<State>, h: seq<seq<State>>, i: nat,
      n: nat)
    requires Evaluable(defs) && Ranks(defs, rank) && Rounds(defs, modules, held, fixed, h)
    requires i < |defs| && rank[i] < n && n + 1 < |h|
    ensures h[n][i] == h[n + 1][i]
    decreases rank[i]
  {
    assert OneRound(defs, modules, held, fixed, h, n - 1) && OneRound(defs, modules, held, fixed, h, n);
    if i !in held {
      forall j | j in Followed(defs[i])
        ensures j < |defs| && h[n - 1][j] == h[n][j]
      {
        assert Edge(defs, i, j);
        RoundsStable(defs, modules, rank, held, fixed, h, j, n - 1);
      }
      SettleAgrees(defs, modules, i, h[n - 1], h[n]);
    }
  }

  lemma MoreRounds(defs: Table, modules: Tristate, held: set<nat>, fixed: seq<State>, h: seq<seq<State>>)
    returns (h': seq<seq<State>>)
    requires h != [] && Rounds(defs, modules, held, fixed, h)
    ensures Rounds(defs, modules, held, fixed, h') && |h'| == |h| + 1
  {
    h' := h + [NextRound(defs, modules, held, fixed, h[|h| - 1])];
    forall k: nat | k + 1 < |h'|
      ensures OneRound(defs, modules, held, fixed, h', k)
    {
      if k + 1 < |h| {
        assert OneRound(defs, modules, held, fixed, h, k);
      }
    }
  }

  function Highest(rank: seq<nat>): (m: nat)
    ensures forall r <- rank :: r <= m
  {
    if rank == [] then 0
    else
      var m := Highest(rank[1..]);
      assert forall r <- rank :: r == rank[0] || r in rank[1..];
      if rank[0] > m then rank[0] else m
  }

  /** And on a graph without cycles there is one. */
  lemma HoldingExists(defs: Table, modules: Tristate, rank: seq<nat>, held: set<nat>, fixed: seq<State>)
    returns (sol: seq<State>)
    requires Evaluable(defs) && Ranks(defs, rank) && |fixed| == |defs|
    ensures Holding(defs, modules, held, fixed, sol)
  {
    var h := [fixed];
    var n := Highest(rank) + 1;
    while |h| < n + 2
      invariant h != [] && Rounds(defs, modules, held, fixed, h) && |h| <= n + 2
    {
      h := MoreRounds(defs, modules, held, fixed, h);
    }
    sol := h[n];
    forall i: nat | i < |defs|
      ensures sol[i] == if i in held then fixed[i] else Settle(defs, modules, defs[i], sol)
    {
      assert rank[i] in rank;
      RoundsStable(defs, modules, rank, held, fixed, h, i, n);
      assert OneRound(defs, modules, held, fixed, h, n);
    }
  }

  /** In particular the recursive definition has a solution. */
  lemma SolutionExists(defs: Table, modules: Tristate, rank: seq<nat>) returns (sol: seq<State>)
    requires Evaluable(defs) && Ranks(defs, rank)
    ensures Solution(defs, modules, sol)
  {
    var start := seq(|defs|, _ => State(No, No, No, "", false));
    sol := HoldingExists(defs, modules, rank, {}, start);
  }
}
