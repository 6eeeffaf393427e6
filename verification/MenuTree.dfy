/**
 * The menu entries as linked records, restructured in place (menu_finalize in
 * scripts/kconfig/menu.c) and walked (the loop of conf_write in scripts/kconfig/confdata.c).
 */
module MenuTrees {
  import opened Expressions
  import opened Menus
  import opened Nesting

  /** The links and data of all entries at one moment; entry 0 stands for the null pointer. */
  datatype Menu = Menu(list: nat, next: nat, parent: nat, attr: Entry)

  type Memory = seq<Menu>

  /** From p the next pointers lead through the entries of f to q; all have parent up, and their children likewise. */
  ghost predicate Seg(h: Memory, p: nat, f: Forest, q: nat, up: nat)
    decreases f
  {
    match f
    case Nil => p == q
    case Node(id, e, list, next) =>
      p == id && 0 < p < |h| && h[p].attr == e && h[p].parent == up &&
      Seg(h, h[p].list, list, 0, p) && Seg(h, h[p].next, next, q, up)
  }

  /** The entries of f, with repetitions. */
  function Bag(f: Forest): multiset<nat> {
    match f
    case Nil => multiset{}
    case Node(id, _, list, next) => multiset{id} + Bag(list) + Bag(next)
  }

  ghost predicate Once(b: multiset<nat>) {
    forall x :: b[x] <= 1
  }

  lemma NotIn(a: multiset<nat>, b: multiset<nat>, x: nat)
    requires Once(a + b)
    ensures x !in a || x !in b
  {
    assert (a + b)[x] == a[x] + b[x];
  }

  lemma Parts(a: multiset<nat>, b: multiset<nat>)
    requires Once(a + b)
    ensures Once(a) && Once(b)
  {
    forall x
      ensures a[x] + b[x] <= 1
    {
      assert (a + b)[x] <= 1;
    }
  }

  lemma NodeParts(f: Forest)
    requires f.Node? && Once(Bag(f))
    ensures Once(Bag(f.list)) && Once(Bag(f.next))
    ensures Once(Bag(f.list) + Bag(f.next)) && Once(Bag(f.next) + Bag(f.list))
    ensures f.id !in Bag(f.list) && f.id !in Bag(f.next)
  {
    var one := multiset{f.id};
    assert Bag(f) == one + (Bag(f.list) + Bag(f.next));
    Parts(one, Bag(f.list) + Bag(f.next));
    Parts(Bag(f.list), Bag(f.next));
    assert Bag(f.list) + Bag(f.next) == Bag(f.next) + Bag(f.list);
    NotIn(one, Bag(f.list) + Bag(f.next), f.id);
  }

  /** Entries outside b are as before. */
  ghost predicate SameOutside(h: Memory, h': Memory, b: multiset<nat>) {
    |h| == |h'| &&
    forall x: nat :: x < |h| && x !in b ==> h[x] == h'[x]
  }

  lemma Wider(h: Memory, h': Memory, b: multiset<nat>, all: multiset<nat>)
    requires SameOutside(h, h', b) && forall x <- b :: x in all
    ensures SameOutside(h, h', all)
  {
  }

  lemma Together(h: Memory, h1: Memory, h2: Memory, b: multiset<nat>)
    requires SameOutside(h, h1, b) && SameOutside(h1, h2, b)
    ensures SameOutside(h, h2, b)
  {
  }

  /** A change of one entry elsewhere. */
  lemma {:induction false} SegFrame(h: Memory, h': Memory, x: nat, p: nat, f: Forest, q: nat, up: nat)
    requires SameOutside(h, h', multiset{x}) && Seg(h, p, f, q, up)
    requires x !in Bag(f)
    ensures Seg(h', p, f, q, up)
    decreases f
  {
    if f.Node? {
      SegFrame(h, h', x, h[p].list, f.list, 0, p);
      SegFrame(h, h', x, h[p].next, f.next, q, up);
    }
  }

  /** Changes of entries that belong to something else. */
  lemma {:induction false} SegFrameAll(h: Memory, h': Memory, b: multiset<nat>, p: nat, f: Forest, q: nat, up: nat)
    requires SameOutside(h, h', b) && Seg(h, p, f, q, up)
    requires Once(Bag(f) + b)
    ensures Seg(h', p, f, q, up)
    decreases f
  {
    if f.Node? {
      var one := multiset{f.id};
      assert Bag(f) + b == one + (Bag(f.list) + Bag(f.next) + b);
      assert Bag(f) + b == (Bag(f.list) + b) + (one + Bag(f.next));
      assert Bag(f) + b == (Bag(f.next) + b) + (one + Bag(f.list));
      NotIn(one, Bag(f.list) + Bag(f.next) + b, p);
      Parts(Bag(f.list) + b, one + Bag(f.next));
      Parts(Bag(f.next) + b, one + Bag(f.list));
      SegFrameAll(h, h', b, h[p].list, f.list, 0, p);
      SegFrameAll(h, h', b, h[p].next, f.next, q, up);
    }
  }

  lemma {:induction false} SegAppend(h: Memory, p: nat, f: Forest, q: nat, g: Forest, r: nat, up: nat)
    requires Seg(h, p, f, q, up) && Seg(h, q, g, r, up)
    ensures Seg(h, p, Append(f, g), r, up)
    decreases f
  {
    if f.Node? {
      SegAppend(h, h[p].next, f.next, q, g, r, up);
    }
  }

  function Last(f: Forest): (id: nat)
    requires f.Node?
    ensures id in Bag(f)
  {
    if f.next.Nil? then f.id else Last(f.next)
  }

  function Redirect(h: Memory, last: nat, r: nat): (h': Memory)
    requires last < |h|
    ensures SameOutside(h, h', multiset{last})
  {
    h[last := h[last].(next := r)]
  }

  /** Redirecting the last entry of a list. */
  lemma {:induction false} SegRedirect(h: Memory, p: nat, f: Forest, q: nat, r: nat, up: nat)
    requires f.Node? && Seg(h, p, f, q, up) && Once(Bag(f)) && Last(f) < |h|
    ensures Seg(Redirect(h, Last(f), r), p, f, r, up)
    decreases f
  {
    NodeParts(f);
    if f.next.Node? {
      NotIn(Bag(f.next), Bag(f.list), Last(f));
    }
    SegFrame(h, Redirect(h, Last(f), r), Last(f), h[p].list, f.list, 0, p);
    if f.next.Node? {
      SegRedirect(h, h[p].next, f.next, q, r, up);
    }
  }

  lemma {:induction false} LastInRange(h: Memory, p: nat, f: Forest, q: nat, up: nat)
    requires f.Node? && Seg(h, p, f, q, up)
    ensures 0 < Last(f) < |h| && h[Last(f)].next == q
    decreases f
  {
    if f.next.Node? {
      LastInRange(h, h[p].next, f.next, q, up);
    }
  }

  lemma LastInRangeIf(h: Memory, p: nat, f: Forest, q: nat, up: nat)
    requires Seg(h, p, f, q, up)
    ensures f.Node? ==> Last(f) != 0
  {
    if f.Node? {
      LastInRange(h, p, f, q, up);
    }
  }

  // ---------------------------------------------------------------- the entries of restructured lists

  lemma {:induction false} AppendBag(f: Forest, g: Forest)
    ensures Bag(Append(f, g)) == Bag(f) + Bag(g)
  {
    if f.Node? {
      AppendBag(f.next, g);
    }
  }

  /** Moving entries from what is to do to what is done. */
  lemma {:induction false} BagStep(done: Forest, todo: Forest, one: Forest, rest: Forest, all: multiset<nat>)
    requires Bag(done) + Bag(todo) == all && Bag(one) + Bag(rest) == Bag(todo)
    ensures Bag(Append(done, one)) + Bag(rest) == all
  {
    AppendBag(done, one);
  }

  lemma {:induction false} AppendAssociative(f: Forest, g: Forest, k: Forest)
    ensures Append(Append(f, g), k) == Append(f, Append(g, k))
  {
    if f.Node? {
      AppendAssociative(f.next, g, k);
    }
  }

  lemma {:induction false} AppendNil(f: Forest)
    ensures Append(f, Nil) == f
  {
    if f.Node? {
      AppendNil(f.next);
    }
  }

  lemma {:induction false} AppendLast(f: Forest, g: Forest)
    requires g.Node?
    ensures Last(Append(f, g)) == Last(g)
  {
    if f.Node? {
      AppendLast(f.next, g);
    }
  }

  lemma {:induction false} InheritBag(f: Forest, parentDep: Option<Expr>)
    ensures Bag(InheritAll(f, parentDep)) == Bag(f)
  {
    if f.Node? {
      InheritBag(f.next, parentDep);
    }
  }

  lemma {:induction false} LiftBag(f: Forest)
    ensures Bag(Lift(f)) == Bag(f)
    decreases Count(f)
  {
    if f.Node? {
      if f.list.Node? && !HasText(f.e) {
        LiftBag(Append(f.list, f.next));
        AppendBag(f.list, f.next);
      } else {
        LiftBag(f.next);
      }
    }
  }

  lemma {:induction false} FinalizeBag(f: Forest)
    requires f.Node?
    ensures Bag(Finalize(f)) == Bag(f)
    decreases Count(f), 0
  {
    if f.list.Node? {
      var down := InheritAll(f.list, ParentDep(f.e));
      InheritBag(f.list, ParentDep(f.e));
      FinalizeAllBag(down);
      LiftBag(FinalizeAll(down));
    } else if f.e.sym.Some? {
      TakeBag(f.e, f.next);
      LiftBag(Take(f.e, f.next).0);
    }
  }

  lemma {:induction false} FinalizeAllBag(f: Forest)
    ensures Bag(FinalizeAll(f)) == Bag(f)
    decreases Count(f), 1
  {
    if f.Node? {
      FinalizeBag(f);
      FinalizeAllBag(Finalize(f).next);
    }
  }

  lemma {:induction false} TakeBag(p: Entry, f: Forest)
    requires p.sym.Some?
    ensures Bag(Take(p, f).0) + Bag(Take(p, f).1) == Bag(f)
    decreases Count(f), 1
  {
    if f.Node? && Follows(p, f.e) {
      FinalizeBag(f);
      TakeBag(p, Finalize(f).next);
    }
  }

  // ---------------------------------------------------------------- lists under construction

  /** The entries done and to do of the list of p. */
  ghost predicate Halfway(h: Memory, p: nat, done: Forest, menu: nat, todo: Forest, all: multiset<nat>)
  {
    0 < p < |h| && Seg(h, h[p].list, done, menu, p) && Seg(h, menu, todo, 0, p) &&
    Bag(done) + Bag(todo) == all && Once(all) && p !in all
  }

  /** The next entry to do stands nowhere else. */
  lemma TodoParts(done: Forest, todo: Forest, all: multiset<nat>)
    requires todo.Node? && Bag(done) + Bag(todo) == all && Once(all)
    ensures Once(Bag(todo)) && todo.id in all
    ensures todo.id !in Bag(done) && todo.id !in Bag(todo.list) && todo.id !in Bag(todo.next)
  {
    Parts(Bag(done), Bag(todo));
    NodeParts(todo);
    NotIn(Bag(done), Bag(todo), todo.id);
  }

  /** One more entry is done; what follows it may have changed. */
  lemma {:induction false} Advance(h: Memory, h': Memory, p: nat, done: Forest, menu: nat, todo: Forest, all: multiset<nat>,
                one: Forest, todo': Forest)
    requires Halfway(h, p, done, menu, todo, all) && SameOutside(h, h', Bag(todo))
    requires one.Node? && one.next.Nil? && menu == one.id
    requires Seg(h', menu, one.(next := todo'), 0, p) && Bag(one) + Bag(todo') == Bag(todo)
    ensures Halfway(h', p, Append(done, one), h'[menu].next, todo', all) && SameOutside(h, h', all)
    ensures Append(done, one.(next := todo')) == Append(Append(done, one), todo')
  {
    Wider(h, h', Bag(todo), all);
    SegFrameAll(h, h', Bag(todo), h[p].list, done, menu, p);
    assert Seg(h', menu, one, h'[menu].next, p);
    SegAppend(h', h[p].list, done, menu, one, h'[menu].next, p);
    BagStep(done, todo, one, todo', all);
    AppendAssociative(done, one, todo');
  }

  /** The list of p in its final form. */
  lemma {:induction false} NewList(h: Memory, h': Memory, p: nat, f: Forest, up: nat, list': Forest)
    requires f.Node? && Seg(h, p, f, 0, up) && Once(Bag(f))
    requires SameOutside(h, h', Bag(f.list)) || (SameOutside(h, h', multiset{p} + Bag(f.list)) &&
      h'[p].attr == h[p].attr && h'[p].parent == h[p].parent && h'[p].next == h[p].next)
    requires Seg(h', h'[p].list, list', 0, p) && Bag(list') == Bag(f.list)
    ensures Seg(h', p, f.(list := list'), 0, up) && Once(Bag(f.(list := list')))
  {
    NodeParts(f);
    var b := multiset{p} + Bag(f.list);
    assert Bag(f.next) + b == Bag(f);
    SegFrameAll(h, h', b, h[p].next, f.next, 0, up);
  }

  function WithAttr(h: Memory, menu: nat, e: Entry): (h': Memory)
    requires menu < |h|
    ensures SameOutside(h, h', multiset{menu})
  {
    h[menu := h[menu].(attr := e)]
  }

  /** New data in one entry. */
  lemma AttrSeg(h: Memory, todo: Forest, up: nat, e: Entry)
    requires todo.Node? && Seg(h, todo.id, todo, 0, up) && Once(Bag(todo))
    ensures todo.id < |h| && Seg(WithAttr(h, todo.id, e), todo.id, todo.(e := e), 0, up)
  {
    var menu, h' := todo.id, WithAttr(h, todo.id, e);
    NodeParts(todo);
    SegFrame(h, h', menu, h[menu].list, todo.list, 0, menu);
    SegFrame(h, h', menu, h[menu].next, todo.next, 0, up);
  }

  lemma InheritMore(done: Forest, todo: Forest, parentDep: Option<Expr>)
    requires todo.Node?
    ensures Append(Append(done, Node(todo.id, Inherit(todo.e, parentDep), todo.list, Nil)), InheritAll(todo.next, parentDep))
      == Append(done, InheritAll(todo, parentDep))
  {
    AppendAssociative(done, Node(todo.id, Inherit(todo.e, parentDep), todo.list, Nil), InheritAll(todo.next, parentDep));
  }

  /** The next entry to do has become g, which may have taken some of the entries behind it. */
  lemma ReplaceStep(h: Memory, h': Memory, p: nat, done: Forest, menu: nat, todo: Forest, all: multiset<nat>, g: Forest)
    requires Halfway(h, p, done, menu, todo, all) && SameOutside(h, h', Bag(todo))
    requires g.Node? && g.id == menu && Seg(h', menu, g, 0, p) && Bag(g) == Bag(todo)
    ensures menu < |h'| && SameOutside(h, h', all)
    ensures Halfway(h', p, Append(done, g.(next := Nil)), h'[menu].next, g.next, all)
  {
    assert Bag(g.(next := Nil)) + Bag(g.next) == Bag(g);
    Advance(h, h', p, done, menu, todo, all, g.(next := Nil), g.next);
  }

  lemma FinalizeMore(done: Forest, todo: Forest)
    requires todo.Node?
    ensures var g := Finalize(todo);
      Append(Append(done, g.(next := Nil)), FinalizeAll(g.next)) == Append(done, FinalizeAll(todo))
  {
    var g := Finalize(todo);
    AppendAssociative(done, g.(next := Nil), FinalizeAll(g.next));
  }

  // ---------------------------------------------------------------- taking followers

  /** The followers of p taken so far, whose parent is p already, and those left. */
  ghost predicate Taking(h: Memory, p: nat, done: Forest, last: nat, menu: nat, todo: Forest, up: nat, all: multiset<nat>)
  {
    0 < p < |h| && Seg(h, h[p].next, done, menu, p) && Seg(h, menu, todo, 0, up) &&
    Bag(done) + Bag(todo) == all && Once(all) && p !in all &&
    last == if done.Node? then Last(done) else 0
  }

  function WithParent(h: Memory, menu: nat, p: nat): (h': Memory)
    requires menu < |h|
    ensures SameOutside(h, h', multiset{menu})
  {
    h[menu := h[menu].(parent := p)]
  }

  /** Changing the parent of one entry. */
  lemma Adopt(h: Memory, p: nat, g: Forest, up: nat)
    requires g.Node? && Seg(h, g.id, g, 0, up) && Once(Bag(g))
    ensures var h' := WithParent(h, g.id, p);
      Seg(h', g.id, g.(next := Nil), h[g.id].next, p) && Seg(h', h[g.id].next, g.next, 0, up)
    ensures g.id in Bag(g) && Bag(g.(next := Nil)) + Bag(g.next) == Bag(g)
  {
    var h' := WithParent(h, g.id, p);
    NodeParts(g);
    SegFrame(h, h', g.id, h[g.id].list, g.list, 0, g.id);
    SegFrame(h, h', g.id, h[g.id].next, g.next, 0, up);
  }

  /** One more follower is taken; what follows it may have changed. */
  lemma TakeAdvance(h: Memory, h': Memory, p: nat, done: Forest, last: nat, menu: nat, todo: Forest, up: nat,
                    all: multiset<nat>, one: Forest, rest: Forest)
    requires Taking(h, p, done, last, menu, todo, up, all) && SameOutside(h, h', Bag(todo))
    requires one.Node? && one.next.Nil? && one.id == menu < |h'|
    requires Seg(h', menu, one, h'[menu].next, p) && Seg(h', h'[menu].next, rest, 0, up)
    requires Bag(one) + Bag(rest) == Bag(todo)
    ensures Taking(h', p, Append(done, one), menu, h'[menu].next, rest, up, all)
  {
    SegFrameAll(h, h', Bag(todo), h[p].next, done, menu, p);
    SegAppend(h', h[p].next, done, menu, one, h'[menu].next, p);
    BagStep(done, todo, one, rest, all);
    AppendLast(done, one);
  }

  /** One more follower g, finalized; its parent is changed now. */
  lemma TakeOne(h: Memory, h1: Memory, p: nat, done: Forest, last: nat, menu: nat, todo: Forest, up: nat,
                all: multiset<nat>, g: Forest)
    requires Taking(h, p, done, last, menu, todo, up, all)
    requires SameOutside(h, h1, Bag(todo)) && g.Node? && g.id == menu && Seg(h1, menu, g, 0, up) && Bag(g) == Bag(todo)
    ensures menu < |h1|
    ensures SameOutside(h, WithParent(h1, menu, p), all)
    ensures Taking(WithParent(h1, menu, p), p, Append(done, g.(next := Nil)), menu, h1[menu].next, g.next, up, all)
  {
    var h' := WithParent(h1, menu, p);
    Parts(Bag(done), Bag(todo));
    Adopt(h1, p, g, up);
    Wider(h1, h', multiset{menu}, Bag(todo));
    Together(h, h1, h', Bag(todo));
    Wider(h, h', Bag(todo), all);
    TakeAdvance(h, h', p, done, last, menu, todo, up, all, g.(next := Nil), g.next);
  }

  /** What the loop still takes, put behind what it has taken. */
  lemma TakeMore(p: Entry, done: Forest, todo: Forest)
    requires p.sym.Some? && todo.Node? && Follows(p, todo.e)
    ensures var g := Finalize(todo);
      Append(Append(done, g.(next := Nil)), Take(p, g.next).0) == Append(done, Take(p, todo).0) &&
      Take(p, g.next).1 == Take(p, todo).1
  {
    var g := Finalize(todo);
    AppendAssociative(done, g.(next := Nil), Take(p, g.next).0);
  }

  function Adopted(h: Memory, p: nat, last: nat): (h': Memory)
    requires p < |h| && last < |h| && p != last
    ensures SameOutside(h, h', multiset{p, last})
  {
    h[p := h[p].(list := h[p].next, next := h[last].next)][last := h[last].(next := 0)]
  }

  /** The followers taken, cut off from those left. */
  lemma Cut(h: Memory, p: nat, done: Forest, last: nat, menu: nat, todo: Forest, up: nat, all: multiset<nat>)
    requires Taking(h, p, done, last, menu, todo, up, all) && last != 0
    ensures last < |h| && p != last && last in all && h[last].next == menu
    ensures var cut := Redirect(h, last, 0);
      Seg(cut, h[p].next, done, 0, p) && Seg(cut, menu, todo, 0, up)
  {
    LastInRange(h, h[p].next, done, menu, p);
    Parts(Bag(done), Bag(todo));
    SegRedirect(h, h[p].next, done, menu, 0, p);
    NotIn(Bag(done), Bag(todo), last);
    SegFrame(h, Redirect(h, last, 0), last, menu, todo, 0, up);
  }

  lemma AdoptedFrame(h: Memory, p: nat, last: nat)
    requires p < |h| && last < |h| && p != last
    ensures SameOutside(Redirect(h, last, 0), Adopted(h, p, last), multiset{p})
    ensures Adopted(h, p, last)[p] == h[p].(list := h[p].next, next := h[last].next)
  {
  }

  /** The followers taken become the list of p. */
  lemma TakeEnds(h: Memory, p: nat, f: Forest, done: Forest, last: nat, menu: nat, todo: Forest, up: nat)
    requires f.Node? && f.list.Nil? && Taking(h, p, done, last, menu, todo, up, Bag(f.next))
    requires p == f.id && h[p].attr == f.e && h[p].parent == up && last != 0
    ensures last < |h| && p != last && last in Bag(f.next)
    ensures Seg(Adopted(h, p, last), p, f.(list := done, next := todo), 0, up)
  {
    Cut(h, p, done, last, menu, todo, up, Bag(f.next));
    AdoptedFrame(h, p, last);
    assert p !in Bag(done) && p !in Bag(todo);
    SegFrame(Redirect(h, last, 0), Adopted(h, p, last), p, h[p].next, done, 0, p);
    SegFrame(Redirect(h, last, 0), Adopted(h, p, last), p, menu, todo, 0, up);
  }

  // ---------------------------------------------------------------- lifting children

  /** The entries of a list, whose parent is changed one after the other. */
  ghost predicate Adopting(h: Memory, first: nat, done: Forest, last: nat, todo: Forest, p: nat, up: nat, all: multiset<nat>)
  {
    Seg(h, first, done, last, p) && Seg(h, last, todo, 0, up) && Bag(done) + Bag(todo) == all && Once(all)
  }

  lemma AdoptStep(h: Memory, first: nat, done: Forest, last: nat, todo: Forest, p: nat, up: nat, all: multiset<nat>)
    requires todo.Node? && Adopting(h, first, done, last, todo, p, up, all)
    ensures last < |h| && last == todo.id
    ensures var h', done' := WithParent(h, last, p), Append(done, todo.(next := Nil));
      Adopting(h', first, done', h[last].next, todo.next, p, up, all) &&
      Append(done', todo.next) == Append(done, todo) && Last(done') == last && SameOutside(h, h', all)
  {
    var h', one := WithParent(h, last, p), todo.(next := Nil);
    TodoParts(done, todo, all);
    SegFrame(h, h', last, first, done, last, p);
    Adopt(h, p, todo, up);
    SegAppend(h', first, done, last, one, h[last].next, p);
    BagStep(done, todo, one, todo.next, all);
    AppendLast(done, one);
    AppendAssociative(done, one, todo.next);
    Wider(h, h', multiset{last}, all);
  }

  function Spliced(h: Memory, menu: nat, last: nat): (h': Memory)
    requires menu < |h| && last < |h| && menu != last
    ensures SameOutside(h, h', multiset{menu, last})
  {
    h[last := h[last].(next := h[menu].next)][menu := h[menu].(next := h[menu].list, list := 0)]
  }

  /** The children of menu, adopted already, are joined to its next siblings. */
  lemma Join(h: Memory, first: nat, f: Forest, rest: nat, g: Forest, p: nat)
    requires f.Node? && Once(Bag(f) + Bag(g)) && Seg(h, first, f, 0, p) && Seg(h, rest, g, 0, p)
    ensures Last(f) < |h| && Seg(Redirect(h, Last(f), rest), first, Append(f, g), 0, p)
  {
    var last := Last(f);
    LastInRange(h, first, f, 0, p);
    Parts(Bag(f), Bag(g));
    SegRedirect(h, first, f, 0, rest, p);
    NotIn(Bag(f), Bag(g), last);
    SegFrame(h, Redirect(h, last, rest), last, rest, g, 0, p);
    SegAppend(Redirect(h, last, rest), first, f, rest, g, 0, p);
  }

  lemma SplicedFrame(h: Memory, menu: nat, last: nat)
    requires menu < |h| && last < |h| && menu != last
    ensures SameOutside(Redirect(h, last, h[menu].next), Spliced(h, menu, last), multiset{menu})
    ensures Spliced(h, menu, last)[menu] == h[menu].(next := h[menu].list, list := 0)
  {
  }

  /** The joined list is put behind menu. */
  lemma Splice(h: Memory, menu: nat, e: Entry, f: Forest, g: Forest, p: nat)
    requires f.Node? && 0 < menu < |h| && Once(Bag(f) + Bag(g)) && menu !in Bag(f) && menu !in Bag(g)
    requires h[menu].attr == e && h[menu].parent == p
    requires Seg(h, h[menu].list, f, 0, p) && Seg(h, h[menu].next, g, 0, p)
    ensures Last(f) < |h| && Last(f) != menu
    ensures Seg(Spliced(h, menu, Last(f)), menu, Node(menu, e, Nil, Append(f, g)), 0, p)
  {
    var first, rest, last := h[menu].list, h[menu].next, Last(f);
    Join(h, first, f, rest, g, p);
    AppendBag(f, g);
    assert last in Bag(f);
    SplicedFrame(h, menu, last);
    SegFrame(Redirect(h, last, rest), Spliced(h, menu, last), menu, first, Append(f, g), 0, p);
  }

  /** One entry is finished; the entries to do behind it are todo'. */
  lemma {:induction false} LiftStep(h: Memory, h': Memory, p: nat, done: Forest, menu: nat, todo: Forest, all: multiset<nat>,
                 one: Forest, todo': Forest)
    requires Halfway(h, p, done, menu, todo, all) && SameOutside(h, h', Bag(todo))
    requires todo.Node? && one.Node? && one.next.Nil? && one.id == menu && Seg(h', menu, one.(next := todo'), 0, p)
    requires (one, todo') == if todo.list.Node? && !HasText(todo.e)
      then (Node(menu, todo.e, Nil, Nil), Append(todo.list, todo.next)) else (todo.(next := Nil), todo.next)
    ensures Halfway(h', p, Append(done, one), h'[menu].next, todo', all) && SameOutside(h, h', all)
    ensures Append(Append(done, one), Lift(todo')) == Append(done, Lift(todo))
  {
    AppendBag(todo.list, todo.next);
    Advance(h, h', p, done, menu, todo, all, one, todo');
    AppendAssociative(done, one, Lift(todo'));
  }

  // ---------------------------------------------------------------- walking

  /** The names of the entries in order. */
  function Names(f: Forest): seq<nat> {
    match f
    case Nil => []
    case Node(id, _, list, next) => [id] + Names(list) + Names(next)
  }

  function Ids(order: seq<(nat, Entry)>): (r: seq<nat>)
    ensures |r| == |order| && forall i :: 0 <= i < |r| ==> r[i] == order[i].0
  {
    seq(|order|, i requires 0 <= i < |order| => order[i].0)
  }

  lemma {:induction false} NamesAreIds(f: Forest)
    ensures Names(f) == Ids(Order(f))
  {
    if f.Node? {
      NamesAreIds(f.list);
      NamesAreIds(f.next);
    }
  }

  lemma {:induction false} InheritNames(f: Forest, parentDep: Option<Expr>)
    ensures Names(InheritAll(f, parentDep)) == Names(f)
  {
    if f.Node? {
      InheritNames(f.next, parentDep);
    }
  }

  lemma {:induction false} DeepNames(f: Forest)
    ensures Names(Deep(f)) == Names(f)
    decreases Count(f)
  {
    if f.Node? {
      InheritNames(f.list, ParentDep(f.e));
      DeepNames(InheritAll(f.list, ParentDep(f.e)));
      DeepNames(f.next);
    }
  }

  /** The names below the root are, and stay, in the order read. */
  lemma FinalizeNames(root: Forest)
    requires root.Node? && root.next.Nil?
    ensures Finalize(root).next.Nil? && Names(Finalize(root).list) == Names(root.list)
  {
    FinalizeRoot(root);
    NamesAreIds(Finalize(root));
    NamesAreIds(Deep(root));
    DeepNames(root);
    SameTails(root.id, Names(Finalize(root).list), Names(root.list));
  }

  lemma SameTails(x: nat, a: seq<nat>, b: seq<nat>)
    requires [x] + a + [] == [x] + b + []
    ensures a == b
  {
    assert a == ([x] + a + [])[1..] && b == ([x] + b + [])[1..];
  }

  /** What is still to be walked at each entry above: its next siblings. */
  datatype Ancestors = Top | Above(id: nat, next: Forest, above: Ancestors)

  function NamesAbove(a: Ancestors): seq<nat> {
    match a
    case Top => []
    case Above(_, next, above) => Names(next) + NamesAbove(above)
  }

  function CountAbove(a: Ancestors): nat {
    match a
    case Top => 0
    case Above(_, next, above) => Count(next) + CountAbove(above)
  }

  /** The parent pointers from p lead through the ancestors to the root. */
  ghost predicate Climbing(h: Memory, p: nat, a: Ancestors)
    decreases a
  {
    match a
    case Top => p == 0
    case Above(id, next, above) =>
      p == id && 0 < p < |h| && Seg(h, h[p].next, next, 0, h[p].parent) && Climbing(h, h[p].parent, above)
  }

  ghost predicate Walking(h: Memory, menu: nat, todo: Forest, up: nat, above: Ancestors) {
    Seg(h, menu, todo, 0, up) && Climbing(h, up, above)
  }

  lemma MoveOne(v: seq<nat>, x: nat, a: seq<nat>, b: seq<nat>, c: seq<nat>)
    ensures v + ([x] + a + b) + c == v + [x] + a + (b + c)
  {
    Regroup([x], a, b);
    Regroup(v, [x], a + b);
    Regroup(v + [x], a, b);
    Regroup(v + [x] + a, b, c);
  }

  /** Visiting one entry: its children and then its siblings are next. */
  lemma WalkStep(visited: seq<nat>, todo: Forest, above: Ancestors)
    requires todo.Node?
    ensures visited + Names(todo) + NamesAbove(above) ==
      visited + [todo.id] + Names(todo.list) + (Names(todo.next) + NamesAbove(above))
    ensures todo.list.Nil? ==>
      visited + Names(todo) + NamesAbove(above) == visited + [todo.id] + (Names(todo.next) + NamesAbove(above))
  {
    var x := visited + [todo.id];
    MoveOne(visited, todo.id, Names(todo.list), Names(todo.next), NamesAbove(above));
    assert x + [] == x;
  }

  class MenuTree {
    var mem: Memory

    /** The entry p, its children, and its next siblings are f. */
    ghost predicate Holds(p: nat, f: Forest, up: nat)
      reads this
    {
      f.Node? && Seg(mem, p, f, 0, up) && Once(Bag(f))
    }

    method PassOne(p: nat, menu: nat, parentDep: Option<Expr>, ghost done: Forest, ghost todo: Forest, ghost all: multiset<nat>)
      requires Halfway(mem, p, done, menu, todo, all) && menu != 0
      modifies this
      ensures todo.Node? && SameOutside(old(mem), mem, all)
      ensures var done' := Append(done, Node(menu, Inherit(todo.e, parentDep), todo.list, Nil));
        Halfway(mem, p, done', mem[menu].next, todo.next, all) &&
        Append(done', InheritAll(todo.next, parentDep)) == Append(done, InheritAll(todo, parentDep))
    {
      ghost var e := Inherit(todo.e, parentDep);
      Parts(Bag(done), Bag(todo));
      AttrSeg(mem, todo, p, e);
      InheritMore(done, todo, parentDep);
      mem := mem[menu := mem[menu].(attr := Inherit(mem[menu].attr, parentDep))];
      assert mem == WithAttr(old(mem), menu, e);
      assert menu in Bag(todo);
      Wider(old(mem), mem, multiset{menu}, Bag(todo));
      ReplaceStep(old(mem), mem, p, done, menu, todo, all, todo.(e := e));
    }

    /** The loop that passes the conditions down to the children of p. */
    method PassDown(p: nat, ghost f: Forest, ghost up: nat)
      requires Holds(p, f, up)
      modifies this
      ensures Holds(p, f.(list := InheritAll(f.list, ParentDep(f.e))), up)
      ensures SameOutside(old(mem), mem, Bag(f))
    {
      NodeParts(f);
      PassList(p, ParentDep(mem[p].attr), f.list, Bag(f.list));
      InheritBag(f.list, ParentDep(f.e));
      NewList(old(mem), mem, p, f, up, InheritAll(f.list, ParentDep(f.e)));
      Wider(old(mem), mem, Bag(f.list), Bag(f));
    }

    method PassList(p: nat, parentDep: Option<Expr>, ghost list: Forest, ghost all: multiset<nat>)
      requires p < |mem| && Halfway(mem, p, Nil, mem[p].list, list, all)
      modifies this
      ensures p < |mem| && Halfway(mem, p, InheritAll(list, parentDep), 0, Nil, all) && SameOutside(old(mem), mem, all)
    {
      var menu := mem[p].list;
      ghost var done, todo := Nil, list;
      while menu != 0
        invariant Halfway(mem, p, done, menu, todo, all)
        invariant Append(done, InheritAll(todo, parentDep)) == InheritAll(list, parentDep)
        invariant SameOutside(old(mem), mem, all)
        decreases Count(todo)
      {
        PassOne(p, menu, parentDep, done, todo, all);
        done, todo, menu := Append(done, Node(menu, Inherit(todo.e, parentDep), todo.list, Nil)), todo.next, mem[menu].next;
      }
      AppendNil(done);
    }

    method FinalizeOne(p: nat, menu: nat, ghost done: Forest, ghost todo: Forest, ghost all: multiset<nat>)
      requires Halfway(mem, p, done, menu, todo, all) && menu != 0
      modifies this
      ensures todo.Node? && SameOutside(old(mem), mem, all)
      ensures var g := Finalize(todo);
        var done' := Append(done, g.(next := Nil));
        menu < |mem| && Halfway(mem, p, done', mem[menu].next, g.next, all) &&
        Append(done', FinalizeAll(g.next)) == Append(done, FinalizeAll(todo))
      decreases Count(todo), 4
    {
      Parts(Bag(done), Bag(todo));
      FinalizeMenu(menu, todo, p);
      FinalizeBag(todo);
      ReplaceStep(old(mem), mem, p, done, menu, todo, all, Finalize(todo));
      FinalizeMore(done, todo);
    }

    /** The loop that finalizes the children of p. */
    method FinalizeList(p: nat, ghost list: Forest, ghost all: multiset<nat>)
      requires p < |mem| && Halfway(mem, p, Nil, mem[p].list, list, all)
      modifies this
      ensures p < |mem| && Halfway(mem, p, FinalizeAll(list), 0, Nil, all) && SameOutside(old(mem), mem, all)
      decreases Count(list), 5
    {
      var menu := mem[p].list;
      ghost var done, todo := Nil, list;
      while menu != 0
        invariant Halfway(mem, p, done, menu, todo, all)
        invariant Append(done, FinalizeAll(todo)) == FinalizeAll(list)
        invariant SameOutside(old(mem), mem, all) && Count(todo) <= Count(list)
        decreases Count(todo)
      {
        FinalizeOne(p, menu, done, todo, all);
        done, todo, menu := Append(done, Finalize(todo).(next := Nil)), Finalize(todo).next, mem[menu].next;
      }
      AppendNil(done);
    }

    method FinalizeChildren(p: nat, ghost f: Forest, ghost up: nat)
      requires Holds(p, f, up)
      modifies this
      ensures Holds(p, f.(list := FinalizeAll(f.list)), up)
      ensures SameOutside(old(mem), mem, Bag(f))
      decreases Count(f), 1
    {
      NodeParts(f);
      FinalizeList(p, f.list, Bag(f.list));
      FinalizeAllBag(f.list);
      NewList(old(mem), mem, p, f, up, FinalizeAll(f.list));
      Wider(old(mem), mem, Bag(f.list), Bag(f));
    }

    method FollowOne(p: nat, ghost last: nat, menu: nat, ghost up: nat,
                     ghost done: Forest, ghost todo: Forest, ghost all: multiset<nat>)
      requires Taking(mem, p, done, last, menu, todo, up, all) && menu != 0
      modifies this
      ensures todo.Node? && SameOutside(old(mem), mem, all)
      ensures var g := Finalize(todo);
        menu < |mem| && Taking(mem, p, Append(done, g.(next := Nil)), menu, mem[menu].next, g.next, up, all)
      decreases Count(todo), 4
    {
      Parts(Bag(done), Bag(todo));
      FinalizeMenu(menu, todo, up);
      FinalizeBag(todo);
      TakeOne(old(mem), mem, p, done, last, menu, todo, up, all, Finalize(todo));
      mem := mem[menu := mem[menu].(parent := p)];
    }

    /** The loop that takes following siblings. */
    method TakeLoop(p: nat, ghost f: Forest, ghost up: nat) returns (last: nat, menu: nat)
      requires Holds(p, f, up) && f.list.Nil? && f.e.sym.Some? && p == f.id
      requires Taking(mem, p, Nil, 0, mem[p].next, f.next, up, Bag(f.next))
      requires mem[p].attr == f.e && mem[p].parent == up && mem[p].list == 0
      modifies this
      ensures Taking(mem, p, Take(f.e, f.next).0, last, menu, Take(f.e, f.next).1, up, Bag(f.next))
      ensures mem[p].attr == f.e && mem[p].parent == up && mem[p].list == 0
      ensures SameOutside(old(mem), mem, Bag(f.next))
      decreases Count(f), 0
    {
      last, menu := 0, mem[p].next;
      ghost var done, todo, all := Nil, f.next, Bag(f.next);
      while menu != 0 && Follows(mem[p].attr, mem[menu].attr)
        invariant Taking(mem, p, done, last, menu, todo, up, all)
        invariant mem[p].attr == f.e && mem[p].parent == up && mem[p].list == 0
        invariant Append(done, Take(f.e, todo).0) == Take(f.e, f.next).0
        invariant Take(f.e, todo).1 == Take(f.e, f.next).1
        invariant SameOutside(old(mem), mem, all) && Count(todo) < Count(f)
        decreases Count(todo)
      {
        ghost var before := mem;
        menu, last, done, todo := FollowNext(p, last, menu, f.e, up, done, todo, all);
        Together(old(mem), before, mem, all);
      }
      AppendNil(done);
    }

    /** One round of that loop. */
    method FollowNext(p: nat, ghost last: nat, menu: nat, ghost e: Entry, ghost up: nat,
                      ghost done: Forest, ghost todo: Forest, ghost all: multiset<nat>)
      returns (next: nat, last': nat, ghost done': Forest, ghost todo': Forest)
      requires Taking(mem, p, done, last, menu, todo, up, all) && menu != 0
      requires e.sym.Some? && todo.Node? && Follows(e, todo.e)
      modifies this
      ensures Taking(mem, p, done', last', next, todo', up, all)
      ensures mem[p].attr == old(mem[p].attr) && mem[p].parent == old(mem[p].parent) && mem[p].list == old(mem[p].list)
      ensures Append(done', Take(e, todo').0) == Append(done, Take(e, todo).0)
      ensures Take(e, todo').1 == Take(e, todo).1
      ensures SameOutside(old(mem), mem, all) && Count(todo') < Count(todo)
      decreases Count(todo), 5
    {
      TakeMore(e, done, todo);
      FollowOne(p, last, menu, up, done, todo, all);
      done', todo' := Append(done, Finalize(todo).(next := Nil)), Finalize(todo).next;
      last', next := menu, mem[menu].next;
    }

    /** The loop that takes following siblings, and the relinking behind it. */
    method TakeFollowers(p: nat, ghost f: Forest, ghost up: nat)
      requires Holds(p, f, up) && f.list.Nil? && f.e.sym.Some?
      modifies this
      ensures Holds(p, f.(list := Take(f.e, f.next).0, next := Take(f.e, f.next).1), up)
      ensures SameOutside(old(mem), mem, Bag(f))
      ensures NextStaysOut(p)
      decreases Count(f), 1
    {
      assert Seg(mem, mem[p].list, f.list, 0, p);
      NodeParts(f);
      var last, menu := TakeLoop(p, f, up);
      Wider(old(mem), mem, Bag(f.next), Bag(f));
      ghost var taken := mem;
      LinkFollowers(p, last, menu, f, up, Take(f.e, f.next).0, Take(f.e, f.next).1);
      Together(old(mem), taken, mem, Bag(f));
      TakesWhatBelongs(f.e, f.next);
      NextByForest(p, f.(list := Take(f.e, f.next).0, next := Take(f.e, f.next).1), up);
    }

    /** The entry linked behind p fails the test for being taken. */
    ghost predicate NextStaysOut(p: nat)
      reads this
    {
      p < |mem| && (mem[p].next == 0 || (mem[p].next < |mem| && StaysOut(mem[p].attr, mem[mem[p].next].attr)))
    }

    lemma NextByForest(p: nat, f: Forest, up: nat)
      requires Holds(p, f, up) && HeadStaysOut(f.e, f.next)
      ensures NextStaysOut(p)
    {
      assert Seg(mem, mem[p].next, f.next, 0, up);
    }

    method Relink(p: nat, last: nat)
      requires p < |mem| && last < |mem| && p != last
      modifies this
      ensures mem == Adopted(old(mem), p, last)
    {
      mem := mem[p := mem[p].(list := mem[p].next)];
      mem := mem[p := mem[p].(next := mem[last].next)];
      mem := mem[last := mem[last].(next := 0)];
    }

    method LinkTaken(p: nat, last: nat, ghost menu: nat, ghost f: Forest, ghost up: nat, ghost done: Forest, ghost todo: Forest)
      requires f.Node? && f.list.Nil? && Once(Bag(f)) && last != 0
      requires Taking(mem, p, done, last, menu, todo, up, Bag(f.next))
      requires p == f.id && mem[p].attr == f.e && mem[p].parent == up && mem[p].list == 0
      modifies this
      ensures Seg(mem, p, f.(list := done, next := todo), 0, up)
      ensures SameOutside(old(mem), mem, Bag(f))
    {
      TakeEnds(mem, p, f, done, last, menu, todo, up);
      Relink(p, last);
      Wider(old(mem), mem, multiset{p, last}, Bag(f));
    }

    method LinkFollowers(p: nat, last: nat, ghost menu: nat, ghost f: Forest, ghost up: nat, ghost done: Forest, ghost todo: Forest)
      requires f.Node? && f.list.Nil? && Once(Bag(f))
      requires Taking(mem, p, done, last, menu, todo, up, Bag(f.next))
      requires p == f.id && mem[p].attr == f.e && mem[p].parent == up && mem[p].list == 0
      modifies this
      ensures Holds(p, f.(list := done, next := todo), up)
      ensures SameOutside(old(mem), mem, Bag(f))
    {
      assert Bag(f.(list := done, next := todo)) == Bag(f);
      if last != 0 {
        LinkTaken(p, last, menu, f, up, done, todo);
      } else {
        LastInRangeIf(mem, mem[p].next, done, menu, p);
      }
    }

    method AdoptOne(last: nat, p: nat, ghost first: nat, ghost done: Forest, ghost todo: Forest, ghost up: nat, ghost all: multiset<nat>)
      requires todo.Node? && Adopting(mem, first, done, last, todo, p, up, all)
      modifies this
      ensures last < |mem| == |old(mem)| && SameOutside(old(mem), mem, all)
      ensures forall x :: 0 <= x < |mem| ==> mem[x].list == old(mem)[x].list
      ensures var done' := Append(done, todo.(next := Nil));
        Adopting(mem, first, done', mem[last].next, todo.next, p, up, all) &&
        Append(done', todo.next) == Append(done, todo) && Last(done') == last
    {
      AdoptStep(mem, first, done, last, todo, p, up, all);
      mem := mem[last := mem[last].(parent := p)];
    }

    /** The inner loop of lifting: all children of menu get the parent p; the last one is returned. */
    method AdoptChildren(menu: nat, p: nat, ghost f: Forest)
      returns (last: nat)
      requires menu < |mem| && f.Node? && Seg(mem, mem[menu].list, f, 0, menu) && Once(Bag(f))
      modifies this
      ensures SameOutside(old(mem), mem, Bag(f))
      ensures Seg(mem, mem[menu].list, f, 0, p) && last == Last(f)
    {
      last := mem[menu].list;
      ghost var first, done, todo := last, Nil, f;
      AdoptOne(last, p, first, done, todo, menu, Bag(f));
      done, todo := Append(done, todo.(next := Nil)), todo.next;
      while mem[last].next != 0
        invariant last < |mem| == |old(mem)| && mem[menu].list == first && SameOutside(old(mem), mem, Bag(f))
        invariant Adopting(mem, first, done, mem[last].next, todo, p, menu, Bag(f))
        invariant Append(done, todo) == f && done.Node? && Last(done) == last
        decreases Count(todo)
      {
        last := mem[last].next;
        AdoptOne(last, p, first, done, todo, menu, Bag(f));
        done, todo := Append(done, todo.(next := Nil)), todo.next;
      }
      AppendNil(done);
    }

    /** The last loop of menu_finalize. */
    method LiftChildren(p: nat, ghost f: Forest, ghost up: nat)
      requires Holds(p, f, up)
      modifies this
      ensures Holds(p, f.(list := Lift(f.list)), up)
      ensures SameOutside(old(mem), mem, Bag(f))
    {
      NodeParts(f);
      LiftLoop(p, f.list, Bag(f.list));
      LiftBag(f.list);
      NewList(old(mem), mem, p, f, up, Lift(f.list));
      Wider(old(mem), mem, Bag(f.list), Bag(f));
    }

    method LiftLoop(p: nat, ghost list: Forest, ghost all: multiset<nat>)
      requires p < |mem| && Halfway(mem, p, Nil, mem[p].list, list, all)
      modifies this
      ensures p < |mem| && Halfway(mem, p, Lift(list), 0, Nil, all) && SameOutside(old(mem), mem, all)
    {
      var menu := mem[p].list;
      ghost var done, todo := Nil, list;
      while menu != 0
        invariant Halfway(mem, p, done, menu, todo, all)
        invariant Append(done, Lift(todo)) == Lift(list)
        invariant SameOutside(old(mem), mem, all)
        decreases Count(todo)
      {
        ghost var one, todo' := LiftOne(p, menu, done, todo, all);
        done, todo, menu := Append(done, one), todo', mem[menu].next;
      }
      AppendNil(done);
    }

    method LinkChildren(menu: nat, last: nat, ghost e: Entry, ghost f: Forest, ghost g: Forest, ghost p: nat)
      requires f.Node? && 0 < menu < |mem| && Once(Bag(f) + Bag(g)) && menu !in Bag(f) && menu !in Bag(g) && last == Last(f)
      requires mem[menu].attr == e && mem[menu].parent == p
      requires Seg(mem, mem[menu].list, f, 0, p) && Seg(mem, mem[menu].next, g, 0, p)
      modifies this
      ensures SameOutside(old(mem), mem, multiset{menu, last})
      ensures Seg(mem, menu, Node(menu, e, Nil, Append(f, g)), 0, p)
    {
      Splice(mem, menu, e, f, g, p);
      mem := mem[last := mem[last].(next := mem[menu].next)];
      mem := mem[menu := mem[menu].(next := mem[menu].list)];
      mem := mem[menu := mem[menu].(list := 0)];
      assert mem == Spliced(old(mem), menu, last);
    }

    /** The children of menu adopted, with everything else of menu as it was. */
    method AdoptBelow(menu: nat, p: nat, ghost todo: Forest) returns (last: nat)
      requires todo.Node? && todo.list.Node? && Once(Bag(todo)) && Seg(mem, menu, todo, 0, p)
      modifies this
      ensures SameOutside(old(mem), mem, Bag(todo))
      ensures 0 < menu < |mem| && last == Last(todo.list) && last in Bag(todo.list)
      ensures mem[menu].attr == todo.e && mem[menu].parent == p && menu == todo.id
      ensures Seg(mem, mem[menu].list, todo.list, 0, p) && Seg(mem, mem[menu].next, todo.next, 0, p)
    {
      NodeParts(todo);
      last := AdoptChildren(menu, p, todo.list);
      SegFrameAll(old(mem), mem, Bag(todo.list), mem[menu].next, todo.next, 0, p);
      Wider(old(mem), mem, Bag(todo.list), Bag(todo));
    }

    method SpliceChildren(menu: nat, p: nat, ghost todo: Forest)
      requires todo.Node? && todo.list.Node? && Once(Bag(todo)) && Seg(mem, menu, todo, 0, p)
      modifies this
      ensures SameOutside(old(mem), mem, Bag(todo))
      ensures Seg(mem, menu, Node(menu, todo.e, Nil, Append(todo.list, todo.next)), 0, p)
    {
      ghost var adopted;
      var last;
      last := AdoptBelow(menu, p, todo);
      adopted := mem;
      NodeParts(todo);
      LinkChildren(menu, last, todo.e, todo.list, todo.next, p);
      assert last in Bag(todo.list) && menu in Bag(todo);
      Wider(adopted, mem, multiset{menu, last}, Bag(todo));
      Together(old(mem), adopted, mem, Bag(todo));
    }

    method LiftOne(p: nat, menu: nat, ghost done: Forest, ghost todo: Forest, ghost all: multiset<nat>)
      returns (ghost one: Forest, ghost todo': Forest)
      requires Halfway(mem, p, done, menu, todo, all) && menu != 0
      modifies this
      ensures SameOutside(old(mem), mem, all) && Count(todo') < Count(todo)
      ensures menu < |mem| && Halfway(mem, p, Append(done, one), mem[menu].next, todo', all)
      ensures Append(Append(done, one), Lift(todo')) == Append(done, Lift(todo))
    {
      ghost var before := mem;
      one, todo' := todo.(next := Nil), todo.next;
      Parts(Bag(done), Bag(todo));
      NodeParts(todo);
      assert Seg(mem, mem[menu].list, todo.list, 0, menu);
      if mem[menu].list != 0 && !HasText(mem[menu].attr) {
        SpliceChildren(menu, p, todo);
        one, todo' := Node(menu, todo.e, Nil, Nil), Append(todo.list, todo.next);
      }
      LiftStep(before, mem, p, done, menu, todo, all, one, todo');
    }

    method FinalizeBelow(p: nat, ghost f: Forest, ghost up: nat)
      requires Holds(p, f, up)
      modifies this
      ensures Holds(p, f.(list := FinalizeAll(InheritAll(f.list, ParentDep(f.e)))), up)
      ensures SameOutside(old(mem), mem, Bag(f))
      ensures Bag(f.(list := FinalizeAll(InheritAll(f.list, ParentDep(f.e))))) == Bag(f)
      decreases Count(f), 2
    {
      InheritBag(f.list, ParentDep(f.e));
      FinalizeAllBag(InheritAll(f.list, ParentDep(f.e)));
      PassDown(p, f, up);
      ghost var before := mem;
      FinalizeChildren(p, f.(list := InheritAll(f.list, ParentDep(f.e))), up);
      Together(old(mem), before, mem, Bag(f));
    }

    /** menu_finalize */
    method FinalizeMenu(p: nat, ghost f: Forest, ghost up: nat)
      requires Holds(p, f, up)
      modifies this
      ensures Holds(p, Finalize(f), up)
      ensures SameOutside(old(mem), mem, Bag(f))
      ensures f.list.Nil? && f.e.sym.Some? ==> NextStaysOut(p)
      decreases Count(f), 3
    {
      ghost var g := f;
      assert Seg(mem, mem[p].list, f.list, 0, p);
      FinalizeBag(f);
      if mem[p].list != 0 {
        FinalizeBelow(p, f, up);
        g := f.(list := FinalizeAll(InheritAll(f.list, ParentDep(f.e))));
      } else if mem[p].attr.sym.Some? {
        TakeFollowers(p, f, up);
        TakeBag(f.e, f.next);
        g := f.(list := Take(f.e, f.next).0, next := Take(f.e, f.next).1);
      }
      ghost var before := mem;
      LiftChildren(p, g, up);
      Together(old(mem), before, mem, Bag(f));
      if f.list.Nil? && f.e.sym.Some? {
        FinalizeNests(f);
        NextByForest(p, Finalize(f), up);
      }
    }

    /** The loop of conf_write over the finalized entries below the root: list, else next, else up to the next next. */
    method Walk(root: nat, ghost f: Forest)
      returns (visited: seq<nat>)
      requires Holds(root, f, 0) && f.next.Nil?
      ensures visited == Names(f.list)
    {
      var menu := mem[root].list;
      visited := [];
      ghost var todo, up, above := f.list, root, Above(root, f.next, Top);
      while menu != 0
        invariant Walking(mem, menu, todo, up, above) && (menu == 0 ==> NamesAbove(above) == [])
        invariant visited + Names(todo) + NamesAbove(above) == Names(f.list)
        decreases Count(todo) + CountAbove(above)
      {
        WalkStep(visited, todo, above);
        visited := visited + [menu];
        assert Seg(mem, mem[menu].list, todo.list, 0, menu);
        if mem[menu].list != 0 {
          menu, todo, up, above := mem[menu].list, todo.list, menu, Above(menu, todo.next, above);
        } else if mem[menu].next != 0 {
          Regroup(visited, Names(todo.next), NamesAbove(above));
          menu, todo := mem[menu].next, todo.next;
        } else {
          assert Seg(mem, 0, todo.next, 0, up);
          assert [] + NamesAbove(above) == NamesAbove(above);
          menu, todo, up, above := Climb(mem[menu].parent, above);
          Regroup(visited, Names(todo), NamesAbove(above));
        }
      }
    }

    /** Up to the first ancestor with a next sibling, and to that sibling. */
    method Climb(from: nat, ghost ancestors: Ancestors)
      returns (menu: nat, ghost todo: Forest, ghost up: nat, ghost above: Ancestors)
      requires Climbing(mem, from, ancestors)
      ensures Walking(mem, menu, todo, up, above) && (menu == 0 ==> NamesAbove(above) == [])
      ensures Names(todo) + NamesAbove(above) == NamesAbove(ancestors)
      ensures Count(todo) + CountAbove(above) == CountAbove(ancestors)
    {
      menu, todo, up, above := from, Nil, from, ancestors;
      while menu != 0
        invariant Climbing(mem, menu, above)
        invariant NamesAbove(above) == NamesAbove(ancestors) && CountAbove(above) == CountAbove(ancestors)
        decreases above
      {
        if mem[menu].next != 0 {
          up := mem[menu].parent;
          menu, todo, above := mem[menu].next, above.next, above.above;
          return;
        }
        assert Seg(mem, 0, above.next, 0, mem[menu].parent);
        menu, above := mem[menu].parent, above.above;
      }
      up := 0;
    }

    /** Finalizing the tree and writing it out: every entry exactly once, in the order read. */
    method FinalizeAndWalk(root: nat, ghost f: Forest)
      returns (visited: seq<nat>)
      requires Holds(root, f, 0) && f.next.Nil?
      modifies this
      ensures Holds(root, Finalize(f), 0)
      ensures visited == Names(f.list)
    {
      FinalizeNames(f);
      FinalizeMenu(root, f, 0);
      visited := Walk(root, Finalize(f));
    }
  }
}
