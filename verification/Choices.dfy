/**
 * Evaluation of a boolean choice and its members (sym_calc_choice, and the parts of sym_calc_value
 * and sym_calc_visibility in scripts/kconfig/symbol.c that serve choices).  The symbols outside the
 * choice are settled.
 */
module Choices {
  import opened Expressions
  import opened Compare
  import opened SymbolTables
  import opened Evaluation
  import opened SymbolValues

  /** A default of the choice: its condition and the member it names. */
  datatype DefaultMember = DefaultMember(visible: Option<Expr>, member: nat)

  /** The choice symbol, its members, the member the user chose, and the defaults. */
  datatype Choice = Choice(
    sym: Symbol, def: SymbolDef, members: seq<SymbolDef>, user: Option<nat>, defaults: seq<DefaultMember>)

  /** The condition of every prompt of a member is a conjunction with the choice symbol. */
  predicate DependsOnChoice(c: Choice, m: SymbolDef) {
    forall p <- m.props :: p.text ==> p.visible.Some? && DependsSymbol(p.visible.value, c.sym)
  }

  /** A boolean choice as menu_finalize leaves it; members have no defaults. */
  predicate IsBooleanChoice(c: Choice) {
    c.sym.Named? && c.sym.stype == Boolean && c.def.stype == Boolean &&
    (c.user.Some? ==> c.user.value < |c.members|) &&
    (forall d <- c.defaults :: d.member < |c.members|) &&
    (forall m <- c.members :: m.stype == Boolean && DependsOnChoice(c, m) &&
      forall p <- m.props :: p.kind != Default)
  }

  /** Values of the outer symbols together with a value of the choice. */
  function With(env: Env, c: Choice, t: Tristate): Env {
    Env(env.tri[c.sym := t], env.str)
  }

  // ---------------------------------------------------------------- the result by definition

  /** The value of the choice before a member is looked for: a choice has no default value. */
  function OwnValue(env: Env, modules: Tristate, c: Choice): Tristate {
    SettleLogic(c.def, modules, Visibility(env, c.def, modules), Selected(env, c.def, modules), None).tri
  }

  /** Would member i be visible if the choice were y? */
  predicate Eligible(env: Env, modules: Tristate, c: Choice, i: nat)
    requires i < |c.members|
  {
    Visibility(With(env, c, Yes), c.members[i], modules) != No
  }

  predicate Offers(env: Env, modules: Tristate, c: Choice, k: nat)
    requires IsBooleanChoice(c) && k < |c.defaults|
  {
    var d := c.defaults[k];
    assert d in c.defaults;
    CalcOpt(env, d.visible) != No && Eligible(env, modules, c, d.member)
  }

  /** Member m is taken: the user's choice, else the first default, else the first member, among those eligible. */
  ghost predicate Takes(env: Env, modules: Tristate, c: Choice, m: nat)
    requires IsBooleanChoice(c)
  {
    m < |c.members| && Eligible(env, modules, c, m) &&
    if c.user.Some? && Eligible(env, modules, c, c.user.value) then m == c.user.value
    else if exists k: nat :: k < |c.defaults| && Offers(env, modules, c, k) then
      exists k: nat :: k < |c.defaults| && Offers(env, modules, c, k) && c.defaults[k].member == m &&
        forall j: nat :: j < k ==> !Offers(env, modules, c, j)
    else forall j: nat :: j < m ==> !Eligible(env, modules, c, j)
  }

  ghost predicate NoneEligible(env: Env, modules: Tristate, c: Choice) {
    forall i: nat :: i < |c.members| ==> !Eligible(env, modules, c, i)
  }

  lemma TakesUnique(env: Env, modules: Tristate, c: Choice, m: nat, n: nat)
    requires IsBooleanChoice(c) && Takes(env, modules, c, m) && Takes(env, modules, c, n)
    ensures m == n
  {
    if (c.user.Some? && Eligible(env, modules, c, c.user.value)) ||
       !(exists k: nat :: k < |c.defaults| && Offers(env, modules, c, k)) {
    } else {
      var k: nat :| k < |c.defaults| && Offers(env, modules, c, k) && c.defaults[k].member == m &&
        forall j: nat :: j < k ==> !Offers(env, modules, c, j);
      var l: nat :| l < |c.defaults| && Offers(env, modules, c, l) && c.defaults[l].member == n &&
        forall j: nat :: j < l ==> !Offers(env, modules, c, j);
      assert k == l;
    }
  }

  /** The user's value of the choice, or n, between its selects and its visibility; n if neither shows it. */
  lemma OwnValueByPriority(env: Env, modules: Tristate, c: Choice)
    requires c.def.stype == Boolean
    ensures var s := State(Visibility(env, c.def, modules), Selected(env, c.def, modules), No, "n", false);
      if s.visible == No && s.rev == No then OwnValue(env, modules, c) == No
      else Raised(true, Bring(if c.def.hasUser then c.def.userTri else No, s), OwnValue(env, modules, c))
  {
    var s := State(Visibility(env, c.def, modules), Selected(env, c.def, modules), No, "n", false);
    BringIsBounds(if c.def.hasUser then c.def.userTri else No, s);
  }

  /** The settled value t and chosen member of the choice. */
  ghost predicate Settled(env: Env, modules: Tristate, c: Choice, t: Tristate, val: Option<nat>)
    requires IsBooleanChoice(c)
  {
    if OwnValue(env, modules, c) == Yes then
      if val.Some? then t == Yes && Takes(env, modules, c, val.value)
      else t == No && NoneEligible(env, modules, c)
    else t == No
  }

  /** Conditions of members are n when the choice is. */
  lemma {:induction false} ClosedHides(env: Env, c: Choice, props: seq<Property>)
    requires c.sym.Named? && c.sym.stype == Boolean
    requires forall p <- props :: p.text ==> p.visible.Some? && DependsSymbol(p.visible.value, c.sym)
    ensures PromptValue(With(env, c, No), props) == No
  {
    if props != [] {
      var p := props[|props| - 1];
      assert p in props;
      ClosedHides(env, c, props[..|props| - 1]);
      if p.text {
        DependsSymbolSound(With(env, c, No), p.visible.value, c.sym);
      }
    }
  }

  lemma {:induction false} NoPromptsHide(env: Env, props: seq<Property>)
    requires forall p <- props :: !p.text
    ensures PromptValue(env, props) == No
  {
    if props != [] {
      assert props[|props| - 1] in props;
      NoPromptsHide(env, props[..|props| - 1]);
    }
  }

  lemma {:induction false} DependsContains(e: Expr, s: Symbol)
    requires DependsSymbol(e, s)
    ensures ContainsSymbol(e, s)
  {
    if e.Bin? {
      if DependsSymbol(e.l, s) {
        DependsContains(e.l, s);
      } else {
        DependsContains(e.r, s);
      }
    }
  }

  /** Changing the value of the choice does not matter where it is not mentioned. */
  lemma ChoiceUnmentioned(env: Env, c: Choice, t: Tristate, t': Tristate, e: Expr)
    requires !ContainsSymbol(e, c.sym)
    ensures Calc(With(env, c, t), e) == Calc(With(env, c, t'), e)
  {
    ContainsIsMentions(e, c.sym);
    CalcDependsOnSymbols(With(env, c, t), With(env, c, t'), e);
  }

  // ---------------------------------------------------------------- the evaluation in place

  class ChoiceGroup {
    const c: Choice
    const env: Env
    const modules: Tristate
    /** SYMBOL_VALID, curr.tri and curr.val of the choice. */
    var choiceValid: bool
    var choiceTri: Tristate
    var choiceVal: Option<nat>
    /** SYMBOL_VALID, visible and curr.tri of the members. */
    var valid: seq<bool>
    var visible: seq<Tristate>
    var curr: seq<Tristate>

    ghost predicate Sane()
      reads this
    {
      IsBooleanChoice(c) && |valid| == |visible| == |curr| == |c.members|
    }

    /** The choice is as it should be once it has been evaluated. */
    ghost predicate ChoiceDone()
      requires Sane()
      reads this
    {
      choiceValid ==> Settled(env, modules, c, choiceTri, choiceVal)
    }

    /** The values of evaluated members. */
    ghost predicate MemberDone(i: nat)
      requires Sane() && i < |c.members|
      reads this
    {
      curr[i] == if OwnValue(env, modules, c) == Yes && Takes(env, modules, c, i) then Yes else No
    }

    constructor (c: Choice, env: Env, modules: Tristate)
      requires IsBooleanChoice(c)
      ensures this.c == c && this.env == env && this.modules == modules
      ensures Sane() && !choiceValid && forall i: nat :: i < |c.members| ==> !valid[i]
    {
      this.c, this.env, this.modules := c, env, modules;
      choiceValid, choiceTri, choiceVal := false, No, None;
      valid := seq(|c.members|, _ => false);
      visible := seq(|c.members|, _ => No);
      curr := seq(|c.members|, _ => No);
    }

    function Now(): Env
      reads this
    {
      With(env, c, choiceTri)
    }

    function Left(): nat
      reads this
    {
      if choiceValid then 0 else 1
    }

    /** What evaluating anything but a member's value keeps: a choice evaluated, or being evaluated, stays. */
    twostate predicate Keeps()
      reads this
    {
      Sane() && curr == old(curr) && valid == old(valid) &&
      (old(choiceValid) ==> choiceValid && choiceTri == old(choiceTri) && choiceVal == old(choiceVal)) &&
      (!old(choiceValid) ==> ChoiceDone())
    }

    /** expr_calc_value on a condition of a member. */
    method CalcExpr(e: Expr) returns (t: Tristate)
      requires Sane()
      modifies this
      ensures Keeps() && t == Calc(Now(), e) && (ContainsSymbol(e, c.sym) ==> choiceValid)
      decreases Left(), 1, e
    {
      match e
      case Sym(s) =>
        CalcSymbol(s);
        t := TriOf(Now(), s);
      case Not(x) =>
        t := CalcExpr(x);
        t := Neg(t);
      case Bin(op, l, r) =>
        var a := CalcExpr(l);
        ghost var before := choiceTri;
        var b := CalcExpr(r);
        if !ContainsSymbol(l, c.sym) {
          ChoiceUnmentioned(env, c, before, choiceTri, l);
        }
        t := Apply(op, a, b);
      case Cmp(equal, a, b) =>
        CalcSymbol(a);
        CalcSymbol(b);
        t := if (StrOf(Now(), a) == StrOf(Now(), b)) == equal then Yes else No;
    }

    method CalcSymbol(s: Symbol)
      requires Sane()
      modifies this
      ensures Keeps() && (s == c.sym ==> choiceValid)
      decreases Left(), 0, 1
    {
      if s == c.sym {
        CalcChoiceValue();
      }
    }

    /** sym_calc_visibility of a member. */
    method CalcVisibility(i: nat)
      requires Sane() && i < |c.members|
      modifies this
      ensures Keeps() && visible[i] == Visibility(Now(), c.members[i], modules)
      ensures !choiceValid ==> forall p <- c.members[i].props :: !p.text
      decreases Left(), 2
    {
      var props := c.members[i].props;
      assert c.members[i] in c.members;
      var tri := No;
      for k := 0 to |props|
        invariant Keeps() && tri == PromptValue(Now(), props[..k])
        invariant !choiceValid ==> forall p <- props[..k] :: !p.text
      {
        assert props[..k + 1][..k] == props[..k] && props[..k + 1][k] == props[k] && props[k] in props;
        ghost var before := choiceTri;
        if !choiceValid {
          NoPromptsHide(Now(), props[..k]);
        }
        ghost var was := choiceValid;
        if props[k].text {
          DependsContains(props[k].visible.value, c.sym);
          var t := CalcExpr(props[k].visible.value);
          tri := Apply(Disj, tri, t);
        }
        if !was {
          NoPromptsHide(Now(), props[..k]);
        }
      }
      assert props[..|props|] == props;
      if !choiceValid {
        NoPromptsHide(Now(), props);
      }
      if tri == Mod {
        tri := Yes;
      }
      visible := visible[i := tri];
    }

    /** sym_calc_choice, called while the choice has the value y. */
    method CalcChoice() returns (m: Option<nat>)
      requires Sane() && choiceValid && choiceTri == Yes
      modifies this
      ensures Sane() && curr == old(curr) && valid == old(valid) && choiceValid && choiceVal == old(choiceVal)
      ensures choiceTri == if m.Some? then Yes else No
      ensures if m.Some? then Takes(env, modules, c, m.value) else NoneEligible(env, modules, c)
      decreases Left(), 3
    {
      if c.user.Some? {
        CalcVisibility(c.user.value);
        if visible[c.user.value] != No {
          return c.user;
        }
      }
      for k := 0 to |c.defaults|
        invariant Keeps() && choiceTri == Yes
        invariant forall j: nat :: j < k ==> !Offers(env, modules, c, j)
      {
        var d := c.defaults[k];
        assert d in c.defaults;
        if CalcOpt(env, d.visible) != No {
          CalcVisibility(d.member);
          if visible[d.member] != No {
            assert Offers(env, modules, c, k);
            return Some(d.member);
          }
        }
      }
      for i := 0 to |c.members|
        invariant Keeps() && choiceTri == Yes
        invariant forall j: nat :: j < i ==> !Eligible(env, modules, c, j)
      {
        CalcVisibility(i);
        if visible[i] != No {
          return Some(i);
        }
      }
      choiceTri := No;
      m := None;
    }

    /** sym_calc_value of the choice. */
    method CalcChoiceValue()
      requires Sane()
      modifies this
      ensures Keeps() && choiceValid
      decreases Left(), 0, 0
    {
      if choiceValid {
        return;
      }
      choiceValid := true;
      var shown, rev := Visibility(env, c.def, modules), Selected(env, c.def, modules);
      choiceTri := No;
      var newval := No;
      if Apply(Disj, shown, rev) != No {
        if c.def.hasUser {
          newval := c.def.userTri;
        }
        newval := Apply(Disj, Apply(Conj, newval, shown), rev);
      }
      if newval == Mod {
        newval := Yes;
      }
      assert newval == OwnValue(env, modules, c);
      choiceTri := newval;
      if newval == Yes {
        choiceVal := CalcChoice();
      }
    }

    /** sym_calc_value of a member. */
    method CalcMember(i: nat)
      requires Sane() && i < |c.members| && ChoiceDone()
      modifies this
      ensures Sane() && ChoiceDone() && valid == old(valid)[i := true]
      ensures old(choiceValid) ==> choiceValid && choiceTri == old(choiceTri) && choiceVal == old(choiceVal)
      ensures old(valid[i]) ==> curr == old(curr)
      ensures !old(valid[i]) ==> MemberDone(i) && forall j: nat :: j < |curr| && j != i ==> curr[j] == old(curr[j])
    {
      if valid[i] {
        return;
      }
      valid := valid[i := true];
      CalcVisibility(i);
      var newval := No;
      if visible[i] == Yes {
        newval := if choiceVal == Some(i) then Yes else No;
      }
      MemberSettles(i);
      curr := curr[i := newval];
    }

    /** What a member finds in visible and in the choice settles its value. */
    lemma MemberSettles(i: nat)
      requires Sane() && i < |c.members| && ChoiceDone()
      requires visible[i] == Visibility(Now(), c.members[i], modules)
      requires !choiceValid ==> forall p <- c.members[i].props :: !p.text
      ensures OwnValue(env, modules, c) == Yes && Takes(env, modules, c, i) <==> visible[i] == Yes && choiceVal == Some(i)
    {
      assert c.members[i] in c.members;
      if !choiceValid {
        NoPromptsHide(Now(), c.members[i].props);
        NoPromptsHide(With(env, c, Yes), c.members[i].props);
      } else if choiceTri == No {
        ClosedHides(env, c, c.members[i].props);
      } else if Takes(env, modules, c, i) {
        TakesUnique(env, modules, c, i, choiceVal.value);
      }
    }

    /** The choice (None) and members evaluated in any order, each as often as it may be asked for. */
    method EvaluateAll(order: seq<Option<nat>>)
      requires Sane() && !choiceValid && forall i: nat :: i < |c.members| ==> !valid[i]
      requires forall o <- order :: o.Some? ==> o.value < |c.members|
      requires None in order && forall i: nat :: i < |c.members| ==> Option.Some(i) in order
      modifies this
      ensures Sane() && choiceValid && Settled(env, modules, c, choiceTri, choiceVal)
      ensures choiceTri == Yes ==> choiceVal.Some? && Takes(env, modules, c, choiceVal.value)
      ensures forall i: nat :: i < |c.members| ==>
        curr[i] == if choiceTri == Yes && choiceVal == Some(i) then Yes else No
    {
      for k := 0 to |order|
        invariant Sane() && ChoiceDone() && (None in order[..k] ==> choiceValid)
        invariant forall i: nat :: i < |c.members| && Option.Some(i) in order[..k] ==> valid[i]
        invariant forall i: nat :: i < |c.members| && valid[i] ==> MemberDone(i)
      {
        assert order[..k + 1] == order[..k] + [order[k]] && order[k] in order;
        match order[k]
        case None => CalcChoiceValue();
        case Some(i) => CalcMember(i);
      }
      assert order[..|order|] == order;
      forall i: nat | i < |c.members|
        ensures curr[i] == if choiceTri == Yes && choiceVal == Some(i) then Yes else No
      {
        assert MemberDone(i);
        if choiceTri == Yes && Takes(env, modules, c, i) {
          TakesUnique(env, modules, c, i, choiceVal.value);
        }
      }
    }
  }
}
