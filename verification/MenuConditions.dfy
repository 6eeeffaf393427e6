/**
 * What the conditions of a finalized menu tree mean: each is the conjunction of all conditions on
 * the way from the root of the tree as it was read, and an entry that is shown is nested under
 * something that is shown or set (menu_finalize in scripts/kconfig/menu.c).
 */
module MenuConditions {
  import opened Expressions
  import opened Transformation
  import opened Equality
  import opened Dups
  import opened Compare
  import opened Menus

  /** No symbol is "m". */
  ghost predicate Decided(env: Env) {
    WellTyped(env) && forall s <- env.tri :: env.tri[s] != Mod
  }

  /** A condition over logic symbols and comparisons, whose value is not "m". */
  predicate PlainOpt(env: Env, c: Option<Expr>) {
    CalcOpt(env, c) != Mod && (c.Some? ==> LogicOperands(c.value))
  }

  predicate Plain(env: Env, e: Entry) {
    PlainOpt(env, e.dep) && (e.prompt.Some? ==> PlainOpt(env, e.prompt.value.visible)) &&
    (e.sym.Some? ==> TriOf(env, e.sym.value) != Mod) && (IsChoice(e) ==> IsLogic(e.sym.value))
  }

  predicate AllPlain(env: Env, f: Forest) {
    f.Node? ==> Plain(env, f.e) && AllPlain(env, f.list) && AllPlain(env, f.next)
  }

  // ---------------------------------------------------------------- conditions are conjunctions

  lemma RestrictValue(env: Env, base: Option<Expr>, own: Option<Expr>)
    requires Decided(env) && PlainOpt(env, base) && PlainOpt(env, own)
    ensures PlainOpt(env, Restrict(base, own))
    ensures CalcOpt(env, Restrict(base, own)) == Apply(Conj, CalcOpt(env, base), CalcOpt(env, own))
  {
    if own.Some? {
      TransformValue(env, own.value);
      TransformLogic(own.value);
    }
    var e := AndOpt(base, TransformOpt(own));
    if e.Some? {
      EliminateDupsValue(env, e.value);
      EliminateDupsForm(e.value);
    }
  }

  /** With no symbol at "m" the rewriting for two-valued prompts is exact. */
  lemma {:induction false} TransBoolExact(env: Env, e: Expr)
    requires Decided(env)
    ensures Calc(env, TransBool(e)) == Calc(env, e)
  {
    match e
    case Bin(_, l, r) =>
      TransBoolExact(env, l);
      TransBoolExact(env, r);
    case Not(x) => TransBoolExact(env, x);
    case Sym(_) =>
    case Cmp(_, _, _) => assert "n"[0] != "y"[0];
  }

  /** What an entry itself adds to the demand v of its parent. */
  function Condition(env: Env, e: Entry, v: Tristate): Tristate {
    var base := Apply(Conj, v, CalcOpt(env, e.dep));
    if e.prompt.None? then base else Apply(Conj, base, CalcOpt(env, e.prompt.value.visible))
  }

  lemma InheritValue(env: Env, e: Entry, parentDep: Option<Expr>)
    requires Decided(env) && Plain(env, e) && PlainOpt(env, parentDep)
    ensures Plain(env, Inherit(e, parentDep))
    ensures CalcOpt(env, Guard(Inherit(e, parentDep))) == Condition(env, e, CalcOpt(env, parentDep))
  {
    RestrictValue(env, parentDep, e.dep);
    var base := Restrict(parentDep, e.dep);
    if e.prompt.Some? {
      RestrictValue(env, base, e.prompt.value.visible);
      var v := Restrict(base, e.prompt.value.visible);
      if v.Some? {
        TransBoolExact(env, v.value);
        TransBoolForm(v.value);
      }
    }
  }

  /** The value of every entry's condition, in order. */
  function Shown(env: Env, order: seq<(nat, Entry)>): seq<Tristate> {
    seq(|order|, i requires 0 <= i < |order| => CalcOpt(env, Guard(order[i].1)))
  }

  /** The same by definition: conjunctions along the paths of the tree as it was read. */
  function PathConditions(env: Env, f: Forest, v: Tristate): seq<Tristate> {
    match f
    case Nil => []
    case Node(_, e, list, next) =>
      var c := Condition(env, e, v);
      [c] + PathConditions(env, list, if IsChoice(e) then TriOf(env, e.sym.value) else c) +
        PathConditions(env, next, v)
  }

  lemma ShownSplit(env: Env, x: (nat, Entry), a: seq<(nat, Entry)>, b: seq<(nat, Entry)>)
    ensures Shown(env, [x] + a + b) == [CalcOpt(env, Guard(x.1))] + Shown(env, a) + Shown(env, b)
  {
  }

  lemma {:induction false} DeepConditions(env: Env, f: Forest, parentDep: Option<Expr>)
    requires Decided(env) && AllPlain(env, f) && PlainOpt(env, parentDep)
    ensures Shown(env, Order(Deep(InheritAll(f, parentDep)))) == PathConditions(env, f, CalcOpt(env, parentDep))
  {
    if f.Node? {
      var e := Inherit(f.e, parentDep);
      InheritValue(env, f.e, parentDep);
      DeepConditions(env, f.list, ParentDep(e));
      DeepConditions(env, f.next, parentDep);
      ShownSplit(env, (f.id, e), Order(Deep(InheritAll(f.list, ParentDep(e)))),
                 Order(Deep(InheritAll(f.next, parentDep))));
    }
  }

  /** After menu_finalize on the root, wherever the entries ended up. */
  lemma FinalizeConditions(env: Env, root: Forest)
    requires Decided(env) && AllPlain(env, root) && root.Node? && root.next.Nil?
    ensures var v := CalcOpt(env, ParentDep(root.e));
      Shown(env, Order(Finalize(root))) == [CalcOpt(env, Guard(root.e))] + PathConditions(env, root.list, v)
  {
    FinalizeRoot(root);
    DeepConditions(env, root.list, ParentDep(root.e));
    var down := Order(Deep(InheritAll(root.list, ParentDep(root.e))));
    ShownSplit(env, (root.id, root.e), down, []);
    assert [(root.id, root.e)] + down + [] == Order(Deep(root));
    assert Shown(env, []) == [];
  }

  // ---------------------------------------------------------------- in every environment: n stays n

  predicate NormalOpt(c: Option<Expr>) {
    c.Some? ==> Normal(c.value)
  }

  predicate LogicOpt(c: Option<Expr>) {
    c.Some? ==> LogicOperands(c.value)
  }

  lemma RestrictHides(env: Env, base: Option<Expr>, own: Option<Expr>)
    requires WellTyped(env) && NormalOpt(base)
    ensures NormalOpt(Restrict(base, own))
    ensures LogicOpt(base) && LogicOpt(own) ==> LogicOpt(Restrict(base, own))
    ensures CalcOpt(env, base) == No || CalcOpt(env, own) == No ==> CalcOpt(env, Restrict(base, own)) == No
  {
    if own.Some? {
      TransformValue(env, own.value);
      TransformNormal(own.value);
      if LogicOperands(own.value) {
        TransformLogic(own.value);
      }
    }
    var e := AndOpt(base, TransformOpt(own));
    if e.Some? {
      EliminateDupsValue(env, e.value);
      EliminateDupsForm(e.value);
    }
  }

  /** What passing down leaves in an entry is in normal form, and n where anything on the way is n. */
  lemma InheritHides(env: Env, e: Entry, parentDep: Option<Expr>)
    requires WellTyped(env) && NormalOpt(parentDep)
    ensures NormalOpt(Guard(Inherit(e, parentDep))) && NormalOpt(ParentDep(Inherit(e, parentDep)))
    ensures Condition(env, e, CalcOpt(env, parentDep)) == No ==> CalcOpt(env, Guard(Inherit(e, parentDep))) == No
  {
    RestrictHides(env, parentDep, e.dep);
    var base := Restrict(parentDep, e.dep);
    if e.prompt.Some? {
      RestrictHides(env, base, e.prompt.value.visible);
      var v := Restrict(base, e.prompt.value.visible);
      if v.Some? {
        TransBoolKeepsNo(env, v.value);
        TransBoolForm(v.value);
      }
    }
  }

  /**
   * A prompt of a symbol that is no tristate compares no tristate with n for inequality any more; every other condition
   * is finished, with nothing left to merge.
   */
  lemma InheritForm(e: Entry, parentDep: Option<Expr>)
    ensures var r := Inherit(e, parentDep);
      (r.dep.Some? ==> r.dep == parentDep || Finished(r.dep.value)) &&
      (e.prompt.Some? && r.prompt.value.visible.Some? ==>
        var v := r.prompt.value.visible.value;
        if TwoValuedSymbol(e) then !HasUnequalNo(v) else Finished(v))
  {
    RestrictForm(parentDep, e.dep);
    var base := Restrict(parentDep, e.dep);
    if e.prompt.Some? {
      RestrictForm(base, e.prompt.value.visible);
      var v := Restrict(base, e.prompt.value.visible);
      if v.Some? {
        TransBoolRemoves(v.value);
      }
    }
  }

  /** What is required anyway stands in front, if there is nothing to merge or to contradict. */
  lemma RestrictPlain(base: Expr, own: Expr)
    requires Round(Bin(Conj, base, Transform(own))).1 == 0
    ensures Restrict(Some(base), Some(own)) == Some(Bin(Conj, base, Transform(own)))
    ensures Restrict(None, Some(own)) == Some(EliminateDups(Transform(own)))
    ensures Restrict(Some(base), None) == Some(EliminateDups(base))
  {
  }

  lemma RestrictForm(base: Option<Expr>, own: Option<Expr>)
    ensures Restrict(base, own).Some? ==> Finished(Restrict(base, own).value)
  {
    var e := AndOpt(base, TransformOpt(own));
    if e.Some? {
      EliminateDupsFinished(e.value);
    }
  }

  /** Every condition of a is n wherever that of b is. */
  predicate Hides(a: seq<Tristate>, b: seq<Tristate>) {
    |a| == |b| && forall i :: 0 <= i < |a| ==> b[i] == No ==> a[i] == No
  }

  lemma HidesAppend(a: seq<Tristate>, b: seq<Tristate>, c: seq<Tristate>, d: seq<Tristate>)
    requires Hides(a, b) && Hides(c, d)
    ensures Hides(a + c, b + d)
  {
  }

  lemma {:induction false} DeepHides(env: Env, f: Forest, parentDep: Option<Expr>, v: Tristate)
    requires WellTyped(env) && NormalOpt(parentDep) && (v == No ==> CalcOpt(env, parentDep) == No)
    ensures Hides(Shown(env, Order(Deep(InheritAll(f, parentDep)))), PathConditions(env, f, v))
  {
    if f.Node? {
      var e := Inherit(f.e, parentDep);
      var c := Condition(env, f.e, v);
      InheritHides(env, f.e, parentDep);
      var w := if IsChoice(f.e) then TriOf(env, f.e.sym.value) else c;
      DeepHides(env, f.list, ParentDep(e), w);
      DeepHides(env, f.next, parentDep, v);
      var below := Order(Deep(InheritAll(f.list, ParentDep(e))));
      var behind := Order(Deep(InheritAll(f.next, parentDep)));
      ShownSplit(env, (f.id, e), below, behind);
      HidesThree(CalcOpt(env, Guard(e)), c, Shown(env, below), PathConditions(env, f.list, w),
                 Shown(env, behind), PathConditions(env, f.next, v));
    }
  }

  lemma HidesThree(
      a: Tristate, c: Tristate, below: seq<Tristate>, below': seq<Tristate>, behind: seq<Tristate>,
      behind': seq<Tristate>)
    requires Hides([a], [c]) && Hides(below, below') && Hides(behind, behind')
    ensures Hides([a] + below + behind, [c] + below' + behind')
  {
    HidesAppend([a], [c], below, below');
    HidesAppend([a] + below, [c] + below', behind, behind');
  }

  /**
   * After menu_finalize on the root, in every well-typed environment: where a condition on the path of
   * an entry in the tree as read is n, so is the entry's final condition.
   */
  lemma FinalizeHides(env: Env, root: Forest)
    requires WellTyped(env) && root.Node? && root.next.Nil? && NormalOpt(ParentDep(root.e))
    ensures var v := CalcOpt(env, ParentDep(root.e));
      Hides(Shown(env, Order(Finalize(root))), [CalcOpt(env, Guard(root.e))] + PathConditions(env, root.list, v))
  {
    FinalizeRoot(root);
    var v := CalcOpt(env, ParentDep(root.e));
    DeepHides(env, root.list, ParentDep(root.e), v);
    var down := Order(Deep(InheritAll(root.list, ParentDep(root.e))));
    ShownSplit(env, (root.id, root.e), down, []);
    assert [(root.id, root.e)] + down + [] == Order(Deep(root));
    assert Shown(env, []) == [];
    var g := [CalcOpt(env, Guard(root.e))];
    HidesAppend(g, g, Shown(env, down), PathConditions(env, root.list, v));
    assert g + Shown(env, down) + [] == g + Shown(env, down);
  }

  // ---------------------------------------------------------------- nesting is justified

  /** The condition is not n, nor read as n by the nesting test, which can differ where it is m. */
  predicate Seen(env: Env, e: Entry) {
    CalcOpt(env, Guard(e)) != No && ReadAsOpt(env, Guard(e), No) != No
  }

  /** The nesting test knows nothing of the entry's prompt, or its symbol is not logic. */
  predicate Blind(p: Entry) {
    p.sym.Some? && (p.prompt.None? || !IsLogic(p.sym.value))
  }

  /** What the entry demands of its children holds, or its prompt is shown or its symbol set. */
  predicate Opens(env: Env, p: Entry) {
    CalcOpt(env, ParentDep(p)) != No ||
    (!Blind(p) && (CalcOpt(env, Guard(p)) != No || (p.sym.Some? && TriOf(env, p.sym.value) != No)))
  }

  /** The symbols by mentioning which an entry gets below p, whether p is open or not. */
  function Passes(p: Entry): set<Symbol> {
    if Blind(p) then {p.sym.value} else {}
  }

  predicate MentionsAny(c: Option<Expr>, passes: set<Symbol>) {
    c.Some? && exists s <- passes :: ContainsSymbol(c.value, s)
  }

  /** What an entry without a text, whose children are lifted behind it, leaves to its followers. */
  predicate OpensBehind(env: Env, open: bool, e: Entry) {
    open || (!HasText(e) && Opens(env, e))
  }

  function PassesBehind(passes: set<Symbol>, e: Entry): set<Symbol> {
    passes + if HasText(e) then {} else Passes(e)
  }

  /**
   * Every entry seen stands in an open place, below an open entry or behind an open one without a text,
   * or mentions a symbol that let it pass: that of a blind entry it stands below or, lifted, behind.
   */
  predicate Justified(env: Env, open: bool, passes: set<Symbol>, f: Forest)
    decreases f
  {
    f.Node? ==>
      (Seen(env, f.e) ==> open || MentionsAny(Guard(f.e), passes)) &&
      Justified(env, Opens(env, f.e), Passes(f.e), f.list) &&
      Justified(env, OpensBehind(env, open, f.e), PassesBehind(passes, f.e), f.next)
  }

  lemma {:induction false} JustifiedMore(env: Env, open: bool, passes: set<Symbol>, open': bool, passes': set<Symbol>, f: Forest)
    requires Justified(env, open, passes, f) && (open ==> open') && passes <= passes'
    ensures Justified(env, open', passes', f)
    decreases f
  {
    if f.Node? {
      JustifiedMore(env, OpensBehind(env, open, f.e), PassesBehind(passes, f.e),
                    OpensBehind(env, open', f.e), PassesBehind(passes', f.e), f.next);
    }
  }

  lemma {:induction false} JustifiedAppend(env: Env, open: bool, passes: set<Symbol>, f: Forest, g: Forest)
    requires Justified(env, open, passes, f) && Justified(env, open, passes, g)
    ensures Justified(env, open, passes, Append(f, g))
    decreases f
  {
    if f.Node? {
      var open', passes' := OpensBehind(env, open, f.e), PassesBehind(passes, f.e);
      JustifiedMore(env, open, passes, open', passes', g);
      JustifiedAppend(env, open', passes', f.next, g);
    }
  }

  lemma {:induction false} LiftJustified(env: Env, open: bool, passes: set<Symbol>, f: Forest)
    requires Justified(env, open, passes, f)
    ensures Justified(env, open, passes, Lift(f))
    decreases Count(f)
  {
    if f.Node? {
      var open', passes' := OpensBehind(env, open, f.e), PassesBehind(passes, f.e);
      if f.list.Node? && !HasText(f.e) {
        JustifiedMore(env, Opens(env, f.e), Passes(f.e), open', passes', f.list);
        JustifiedAppend(env, open', passes', f.list, f.next);
        LiftJustified(env, open', passes', Append(f.list, f.next));
      } else {
        LiftJustified(env, open', passes', f.next);
      }
    }
  }

  /** The conditions of an entry are over logic symbols and comparisons. */
  predicate Tame(e: Entry) {
    LogicOpt(e.dep) && (e.prompt.Some? ==> LogicOpt(e.prompt.value.visible)) && (IsChoice(e) ==> IsLogic(e.sym.value))
  }

  predicate AllTame(f: Forest) {
    f.Node? ==> Tame(f.e) && AllTame(f.list) && AllTame(f.next)
  }

  /** The entries of a list whose conditions have been passed down, before restructuring. */
  predicate Ready(env: Env, open: bool, f: Forest) {
    f.Node? ==> (CalcOpt(env, Guard(f.e)) != No ==> open) && NormalOpt(ParentDep(f.e)) && Ready(env, open, f.next)
  }

  lemma InheritTame(env: Env, e: Entry, parentDep: Option<Expr>)
    requires WellTyped(env) && Tame(e) && LogicOpt(parentDep) && NormalOpt(parentDep)
    ensures Tame(Inherit(e, parentDep))
  {
    RestrictHides(env, parentDep, e.dep);
    var base := Restrict(parentDep, e.dep);
    if e.prompt.Some? {
      RestrictHides(env, base, e.prompt.value.visible);
      var v := Restrict(base, e.prompt.value.visible);
      if v.Some? {
        TransBoolForm(v.value);
      }
    }
  }

  lemma {:induction false} InheritReady(env: Env, open: bool, f: Forest, parentDep: Option<Expr>)
    requires WellTyped(env) && AllTame(f) && LogicOpt(parentDep) && NormalOpt(parentDep)
    requires CalcOpt(env, parentDep) != No ==> open
    ensures AllTame(InheritAll(f, parentDep)) && Ready(env, open, InheritAll(f, parentDep))
  {
    if f.Node? {
      InheritTame(env, f.e, parentDep);
      InheritHides(env, f.e, parentDep);
      InheritReady(env, open, f.next, parentDep);
    }
  }

  /** A follower that is seen makes the entry it is moved under open, or that entry is blind and is mentioned. */
  lemma FollowsOpens(env: Env, p: Entry, sibling: Entry)
    requires WellTyped(env) && Tame(p) && Tame(sibling)
    requires p.sym.Some? && Follows(p, sibling) && Seen(env, sibling)
    ensures if Blind(p) then MentionsAny(Guard(sibling), Passes(p)) else Opens(env, p)
  {
    var s := p.sym.value;
    var dep := Guard(sibling);
    if Blind(p) {
      assert s in Passes(p);
    } else if DependsSymbol(dep.value, s) {
      if TriOf(env, s) == No {
        DependsSymbolSound(env, dep.value, s);
      }
    } else {
      NestingSound(env, dep, p.prompt.value.visible);
    }
  }

  lemma {:induction false} FinalizeJustified(env: Env, open: bool, f: Forest)
    requires WellTyped(env) && f.Node? && AllTame(f) && Ready(env, open, f)
    ensures Justified(env, Opens(env, f.e), Passes(f.e), Finalize(f).list)
    ensures AllTame(Finalize(f).next) && Ready(env, open, Finalize(f).next)
    decreases Count(f), 0
  {
    var p := f.e;
    var o := Opens(env, p);
    if f.list.Node? {
      var down := InheritAll(f.list, ParentDep(p));
      InheritReady(env, o, f.list, ParentDep(p));
      FinalizeAllJustified(env, o, Passes(p), down);
      LiftJustified(env, o, Passes(p), FinalizeAll(down));
    } else if p.sym.Some? {
      TakeJustified(env, open, p, f.next);
      LiftJustified(env, o, Passes(p), Take(p, f.next).0);
    }
  }

  lemma {:induction false} FinalizeAllJustified(env: Env, open: bool, passes: set<Symbol>, f: Forest)
    requires WellTyped(env) && AllTame(f) && Ready(env, open, f)
    ensures Justified(env, open, passes, FinalizeAll(f))
    decreases Count(f), 1
  {
    if f.Node? {
      var g := Finalize(f);
      FinalizeJustified(env, open, f);
      FinalizeAllJustified(env, open, passes, g.next);
      JustifiedMore(env, open, passes, OpensBehind(env, open, f.e), PassesBehind(passes, f.e), FinalizeAll(g.next));
    }
  }

  lemma {:induction false} TakeJustified(env: Env, open: bool, p: Entry, f: Forest)
    requires WellTyped(env) && AllTame(f) && Ready(env, open, f) && p.sym.Some? && Tame(p)
    ensures Justified(env, Opens(env, p), Passes(p), Take(p, f).0)
    ensures AllTame(Take(p, f).1) && Ready(env, open, Take(p, f).1)
    decreases Count(f), 1
  {
    if f.Node? && Follows(p, f.e) {
      var g := Finalize(f);
      FinalizeJustified(env, open, f);
      TakeJustified(env, open, p, g.next);
      if Seen(env, f.e) {
        FollowsOpens(env, p, f.e);
      }
      var o, h := Opens(env, p), Passes(p);
      JustifiedMore(env, o, h, OpensBehind(env, o, f.e), PassesBehind(h, f.e), Take(p, g.next).0);
    }
  }

  /** menu_finalize on the root, in every well-typed environment. */
  lemma NestingJustified(env: Env, root: Forest)
    requires WellTyped(env) && AllTame(root) && root.Node? && root.next.Nil? && NormalOpt(ParentDep(root.e))
    ensures Justified(env, Opens(env, root.e), Passes(root.e), Finalize(root).list)
  {
    FinalizeJustified(env, CalcOpt(env, Guard(root.e)) != No, root);
  }

  // ---------------------------------------------------------------- symbols without a prompt

  lemma {:induction false} YesStays(op: Op, e: Expr)
    ensures EliminatePairs(op, e, Sym(SymYes)).1 == Sym(SymYes)
  {
    if IsOp(op, e) {
      YesStays(op, e.l);
      YesStays(op, e.r);
    }
  }

  /** A symbol without a prompt takes every follower that mentions it at all. */
  lemma {:induction false} PromptlessTakes(p: Entry, sibling: Entry)
    requires p.sym.Some? && p.prompt.None?
    ensures Follows(p, sibling) <==> Guard(sibling).Some? && ContainsSymbol(Guard(sibling).value, p.sym.value)
  {
    assert Transform(Not(Sym(SymNo))) == Sym(SymYes);
    assert NotNo(None) == Sym(SymYes);
    var x := NotNo(Guard(sibling));
    if x.Bin? {
      YesStays(x.op, x);
    }
  }

  /**
   * Why mentioning such a symbol is all that can be claimed: C depends on B || X, so the prompt-less B takes it, and it is
   * lifted to stand behind B below A.  HiddenSymbolShows gives the values that make this wrong.
   */
  lemma {:induction false} HiddenSymbolNests(a: Symbol, b: Symbol, x: Symbol, v: Symbol)
    requires b != a && x != a
    ensures var visA, depC := Option.Some(Sym(v)), Option.Some(Bin(Disj, Sym(b), Sym(x)));
      var eA := Entry(Some(a), false, visA, Some(Prompt(true, visA)));
      var eB := Entry(Some(b), false, Some(Sym(a)), None);
      var eC := Entry(None, false, depC, Some(Prompt(true, depC)));
      Finalize(Node(0, eA, Nil, Node(1, eB, Nil, Node(2, eC, Nil, Nil)))) ==
        Node(0, eA, Node(1, eB, Nil, Node(2, eC, Nil, Nil)), Nil)
  {
    var visA, depC := Option.Some(Sym(v)), Option.Some(Bin(Disj, Sym(b), Sym(x)));
    var eA := Entry(Some(a), false, visA, Some(Prompt(true, visA)));
    var eB := Entry(Some(b), false, Some(Sym(a)), None);
    var eC := Entry(None, false, depC, Some(Prompt(true, depC)));
    PromptlessTakes(eB, eC);
    var nC := Node(2, eC, Nil, Nil);
    assert Finalize(nC) == nC;
    assert Take(eB, nC) == (nC, Nil);
    var nB := Node(1, eB, nC, Nil);
    assert Finalize(Node(1, eB, Nil, nC)) == nB;
    assert Follows(eA, eB);
    assert Take(eA, Node(1, eB, Nil, nC)) == (nB, Nil);
    assert Append(nC, Nil) == nC && Lift(nC) == nC;
    assert Lift(nB) == Node(1, eB, Nil, nC);
  }

  function OnlySet(x: Symbol): Env {
    Env(map[x := Yes], map[])
  }

  /** With X set and nothing else, C is shown, while A, under which it ends up, is neither shown nor set. */
  lemma {:induction false} HiddenSymbolShows(a: Symbol, b: Symbol, x: Symbol, v: Symbol)
    requires a.Named? && b.Named? && x.Named? && v.Named? && x != a && x != b && x != v
    ensures Calc(OnlySet(x), Bin(Disj, Sym(b), Sym(x))) == Yes
    ensures Calc(OnlySet(x), Sym(v)) == No && Calc(OnlySet(x), Sym(a)) == No
  {
    assert TriOf(OnlySet(x), x) == Yes;
    assert TriOf(OnlySet(x), b) == No;
  }
}
