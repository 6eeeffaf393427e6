/**
 * The menu tree and what menu_finalize makes of it (scripts/kconfig/menu.c): conditions are passed
 * down, following entries are moved under the symbol they depend on, and the children of entries
 * without a prompt are lifted beside them.
 */
module Menus {
  import opened Expressions
  import opened Transformation
  import opened Dups
  import opened Compare

  datatype Prompt = Prompt(text: bool, visible: Option<Expr>)

  /** A menu entry; a choice is an entry whose symbol is marked as one. */
  datatype Entry = Entry(sym: Option<Symbol>, choice: bool, dep: Option<Expr>, prompt: Option<Prompt>)

  /** Entries as the source links them: the first child and the next sibling. */
  datatype Forest = Nil | Node(id: nat, e: Entry, list: Forest, next: Forest)

  function Count(f: Forest): nat {
    match f
    case Nil => 0
    case Node(_, _, list, next) => 1 + Count(list) + Count(next)
  }

  function Append(f: Forest, g: Forest): (r: Forest)
    ensures Count(r) == Count(f) + Count(g)
  {
    match f
    case Nil => g
    case Node(id, e, list, next) => Node(id, e, list, Append(next, g))
  }

  // ---------------------------------------------------------------- passing conditions down

  function AndOpt(a: Option<Expr>, b: Option<Expr>): Option<Expr> {
    if a.None? then b else if b.None? then a else Some(Bin(Conj, a.value, b.value))
  }

  /** A condition put together with what is required anyway, simplified. */
  function Restrict(base: Option<Expr>, own: Option<Expr>): Option<Expr> {
    var e := AndOpt(base, TransformOpt(own));
    if e.None? then None else Some(EliminateDups(e.value))
  }

  predicate TwoValuedSymbol(e: Entry) {
    e.sym.Some? && TypeOf(e.sym.value) != Tristate3
  }

  /** The condition under which the entry is shown. */
  function Guard(e: Entry): Option<Expr> {
    if e.prompt.Some? then e.prompt.value.visible else e.dep
  }

  predicate IsChoice(e: Entry) {
    e.sym.Some? && e.choice
  }

  /** What an entry demands of its children. */
  function ParentDep(e: Entry): Option<Expr> {
    if IsChoice(e) then Some(Sym(e.sym.value)) else Guard(e)
  }

  function Inherit(e: Entry, parentDep: Option<Expr>): Entry {
    var base := Restrict(parentDep, e.dep);
    if e.prompt.None? then e.(dep := base)
    else
      var v := Restrict(base, e.prompt.value.visible);
      var visible := if TwoValuedSymbol(e) then TransBoolOpt(v) else v;
      e.(dep := base, prompt := Some(e.prompt.value.(visible := visible)))
  }

  /** The loop over parent->list that rewrites the conditions. */
  function InheritAll(f: Forest, parentDep: Option<Expr>): (r: Forest)
    ensures Count(r) == Count(f) && (r.Nil? <==> f.Nil?)
  {
    match f
    case Nil => Nil
    case Node(id, e, list, next) => Node(id, Inherit(e, parentDep), list, InheritAll(next, parentDep))
  }

  // ---------------------------------------------------------------- restructuring

  /** Does the sibling depend on the symbol, or imply that its prompt is visible? */
  predicate Follows(p: Entry, sibling: Entry)
    requires p.sym.Some?
  {
    var dep := Guard(sibling);
    dep.Some? && ContainsSymbol(dep.value, p.sym.value) &&
    (DependsSymbol(dep.value, p.sym.value) ||
     ImpliedBy(dep, if p.prompt.Some? then p.prompt.value.visible else None))
  }

  predicate HasText(e: Entry) {
    e.prompt.Some? && e.prompt.value.text
  }

  /** The last loop: children of an entry without a prompt text become its next siblings. */
  function Lift(f: Forest): (r: Forest)
    ensures Count(r) == Count(f)
    decreases Count(f)
  {
    match f
    case Nil => Nil
    case Node(id, e, list, next) =>
      if list.Node? && !HasText(e) then Node(id, e, Nil, Lift(Append(list, next)))
      else Node(id, e, list, Lift(next))
  }

  /** menu_finalize on the first entry of f, whose next siblings it may take. */
  function Finalize(f: Forest): (r: Forest)
    requires f.Node?
    ensures r.Node? && r.id == f.id && r.e == f.e && Count(r) == Count(f)
    decreases Count(f), 0
  {
    if f.list.Node? then f.(list := Lift(FinalizeAll(InheritAll(f.list, ParentDep(f.e)))))
    else if f.e.sym.Some? then
      var r := Take(f.e, f.next);
      f.(list := Lift(r.0), next := r.1)
    else f
  }

  /** The loop that finalizes the entries of a list, each with whatever siblings are left. */
  function FinalizeAll(f: Forest): (r: Forest)
    ensures Count(r) == Count(f)
    decreases Count(f), 1
  {
    if f.Nil? then Nil
    else
      var g := Finalize(f);
      g.(next := FinalizeAll(g.next))
  }

  /** The loop that takes following siblings: those taken, finalized, and those left. */
  function Take(p: Entry, f: Forest): (r: (Forest, Forest))
    requires p.sym.Some?
    ensures Count(r.0) + Count(r.1) == Count(f)
    decreases Count(f), 1
  {
    if f.Nil? || !Follows(p, f.e) then (Nil, f)
    else
      var g := Finalize(f);
      var r := Take(p, g.next);
      (g.(next := r.0), r.1)
  }

  // ---------------------------------------------------------------- nothing is lost or reordered

  /** Entries in the order in which they are read, listed and written. */
  function Order(f: Forest): seq<(nat, Entry)> {
    match f
    case Nil => []
    case Node(id, e, list, next) => [(id, e)] + Order(list) + Order(next)
  }

  /** Conditions passed down the tree as it was read, without any restructuring. */
  function Deep(f: Forest): (r: Forest)
    ensures Count(r) == Count(f)
    decreases Count(f)
  {
    match f
    case Nil => Nil
    case Node(id, e, list, next) => Node(id, e, Deep(InheritAll(list, ParentDep(e))), Deep(next))
  }

  lemma Regroup<T>(a: seq<T>, b: seq<T>, c: seq<T>)
    ensures a + b + c == a + (b + c)
  {
  }

  lemma Regroup4<T>(a: seq<T>, b: seq<T>, c: seq<T>, d: seq<T>)
    ensures a + b + c + d == a + (b + (c + d))
  {
    Regroup(a + b, c, d);
    Regroup(a, b, c + d);
  }

  lemma {:induction false} OrderAppend(f: Forest, g: Forest)
    ensures Order(Append(f, g)) == Order(f) + Order(g)
  {
    match f
    case Nil =>
    case Node(id, e, list, next) =>
      OrderAppend(next, g);
      Regroup([(id, e)] + Order(list), Order(next), Order(g));
  }

  lemma {:induction false} LiftOrder(f: Forest)
    ensures Order(Lift(f)) == Order(f)
    decreases Count(f)
  {
    match f
    case Nil =>
    case Node(id, e, list, next) =>
      if list.Node? && !HasText(e) {
        LiftOrder(Append(list, next));
        OrderAppend(list, next);
        assert [(id, e)] + [] == [(id, e)];
        Regroup([(id, e)], Order(list), Order(next));
      } else {
        LiftOrder(next);
      }
  }

  /** Restructuring keeps the order exactly, and the conditions are those of the tree as it was read. */
  lemma {:induction false} FinalizeOrder(f: Forest)
    requires f.Node?
    ensures Order(Deep(f)) == [(f.id, f.e)] + (Order(Finalize(f).list) + Order(Deep(Finalize(f).next)))
    decreases Count(f), 0
  {
    var down := InheritAll(f.list, ParentDep(f.e));
    Regroup([(f.id, f.e)], Order(Deep(down)), Order(Deep(f.next)));
    if f.list.Node? {
      FinalizeAllOrder(down);
      LiftOrder(FinalizeAll(down));
    } else if f.e.sym.Some? {
      TakeOrder(f.e, f.next);
      LiftOrder(Take(f.e, f.next).0);
    }
  }

  lemma {:induction false} FinalizeAllOrder(f: Forest)
    ensures Order(FinalizeAll(f)) == Order(Deep(f))
    decreases Count(f), 1
  {
    if f.Node? {
      var g := Finalize(f);
      FinalizeOrder(f);
      FinalizeAllOrder(g.next);
      Regroup([(f.id, f.e)], Order(g.list), Order(FinalizeAll(g.next)));
    }
  }

  lemma {:induction false} TakeOrder(p: Entry, f: Forest)
    requires p.sym.Some?
    ensures Order(Take(p, f).0) + Order(Deep(Take(p, f).1)) == Order(Deep(f))
    decreases Count(f), 1
  {
    if f.Node? && Follows(p, f.e) {
      var g := Finalize(f);
      var r := Take(p, g.next);
      FinalizeOrder(f);
      TakeOrder(p, g.next);
      Regroup4([(f.id, f.e)], Order(g.list), Order(r.0), Order(Deep(r.1)));
    }
  }

  /** menu_finalize on the root: every entry once, in the order read, with the conditions of the tree as read. */
  lemma FinalizeRoot(root: Forest)
    requires root.Node? && root.next.Nil?
    ensures Finalize(root).next.Nil?
    ensures Order(Finalize(root)) == Order(Deep(root))
  {
    FinalizeOrder(root);
    Regroup([(root.id, root.e)], Order(Finalize(root).list), Order(Finalize(root).next));
    if root.list.Nil? && root.e.sym.Some? {
      assert Take(root.e, Nil) == (Nil, Nil);
    }
  }

  // ---------------------------------------------------------------- only entries with a text keep children

  predicate Presentable(f: Forest) {
    f.Node? ==> (f.list.Node? ==> HasText(f.e)) && Presentable(f.list) && Presentable(f.next)
  }

  /** Presentable apart from the entries of the list itself. */
  predicate PresentableBelow(f: Forest) {
    f.Node? ==> Presentable(f.list) && PresentableBelow(f.next)
  }

  lemma {:induction false} PresentableAppend(f: Forest, g: Forest)
    requires Presentable(f) && PresentableBelow(g)
    ensures PresentableBelow(Append(f, g))
  {
    if f.Node? {
      PresentableAppend(f.next, g);
    }
  }

  lemma {:induction false} LiftPresents(f: Forest)
    requires PresentableBelow(f)
    ensures Presentable(Lift(f))
    decreases Count(f)
  {
    if f.Node? {
      if f.list.Node? && !HasText(f.e) {
        PresentableAppend(f.list, f.next);
        LiftPresents(Append(f.list, f.next));
      } else {
        LiftPresents(f.next);
      }
    }
  }

  lemma {:induction false} FinalizePresents(f: Forest)
    requires f.Node?
    ensures Presentable(Finalize(f).list)
    decreases Count(f), 0
  {
    if f.list.Node? {
      var down := InheritAll(f.list, ParentDep(f.e));
      FinalizeAllPresents(down);
      LiftPresents(FinalizeAll(down));
    } else if f.e.sym.Some? {
      TakePresents(f.e, f.next);
      LiftPresents(Take(f.e, f.next).0);
    }
  }

  lemma {:induction false} FinalizeAllPresents(f: Forest)
    ensures PresentableBelow(FinalizeAll(f))
    decreases Count(f), 1
  {
    if f.Node? {
      FinalizePresents(f);
      FinalizeAllPresents(Finalize(f).next);
    }
  }

  lemma {:induction false} TakePresents(p: Entry, f: Forest)
    requires p.sym.Some?
    ensures PresentableBelow(Take(p, f).0)
    decreases Count(f), 1
  {
    if f.Node? && Follows(p, f.e) {
      FinalizePresents(f);
      TakePresents(p, Finalize(f).next);
    }
  }
}
