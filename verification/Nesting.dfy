/**
 * Where menu_finalize puts an entry (scripts/kconfig/menu.c): which siblings a symbol takes, and where it stops; which
 * children are lifted, and which stay.
 */
module Nesting {
  import opened Expressions
  import opened Compare
  import opened Menus

  /** The condition of the entry does not mention the symbol; or it neither depends on it nor implies its prompt. */
  predicate StaysOut(p: Entry, sibling: Entry) {
    p.sym.Some? ==>
      var dep := if sibling.prompt.Some? then sibling.prompt.value.visible else sibling.dep;
      dep.None? || !ContainsSymbol(dep.value, p.sym.value) ||
      (!DependsSymbol(dep.value, p.sym.value) && p.prompt.None? && !ImpliedBy(dep, None)) ||
      (!DependsSymbol(dep.value, p.sym.value) && p.prompt.Some? && !ImpliedBy(dep, p.prompt.value.visible))
  }

  /** The first entry of the list, if there is one, stays out. */
  predicate HeadStaysOut(p: Entry, f: Forest) {
    f.Node? ==> StaysOut(p, f.e)
  }

  predicate AllBelong(p: Entry, f: Forest) {
    f.Node? ==> !StaysOut(p, f.e) && AllBelong(p, f.next)
  }

  /** Exactly the siblings up to the first that stays out are taken, each after it has taken its own. */
  lemma {:induction false} TakesWhatBelongs(p: Entry, f: Forest)
    requires p.sym.Some?
    ensures AllBelong(p, Take(p, f).0) && HeadStaysOut(p, Take(p, f).1)
    decreases Count(f)
  {
    if f.Node? && Follows(p, f.e) {
      TakesWhatBelongs(p, Finalize(f).next);
    }
  }

  lemma LiftFirst(f: Forest)
    ensures Lift(f).Node? == f.Node?
    ensures f.Node? ==> Lift(f).id == f.id && Lift(f).e == f.e
  {
  }

  /** A symbol without children gets its next sibling as the first child unless that stays out; so does what is left. */
  lemma {:induction false} FinalizeNests(f: Forest)
    requires f.Node? && f.list.Nil? && f.e.sym.Some?
    ensures HeadStaysOut(f.e, Finalize(f).next)
    ensures f.next.Node? && !StaysOut(f.e, f.next.e) ==>
      Finalize(f).list.Node? && Finalize(f).list.id == f.next.id && Finalize(f).list.e == f.next.e
    ensures HeadStaysOut(f.e, f.next) ==> Finalize(f) == f
  {
    TakesWhatBelongs(f.e, f.next);
    LiftFirst(Take(f.e, f.next).0);
  }

  /** The same in a list all of whose entries are finalized. */
  lemma {:induction false} FinalizeAllNests(f: Forest)
    requires f.Node? && f.list.Nil? && f.e.sym.Some?
    ensures HeadStaysOut(f.e, FinalizeAll(f).next)
  {
    FinalizeNests(f);
  }

  // ---------------------------------------------------------------- lifting

  /** The list itself has this entry with these children. */
  predicate Has(f: Forest, id: nat, e: Entry, list: Forest) {
    f.Node? && ((f.id == id && f.e == e && f.list == list) || Has(f.next, id, e, list))
  }

  lemma {:induction false} HasAppend(f: Forest, g: Forest, id: nat, e: Entry, list: Forest)
    ensures Has(Append(f, g), id, e, list) <==> Has(f, id, e, list) || Has(g, id, e, list)
  {
    if f.Node? {
      HasAppend(f.next, g, id, e, list);
    }
  }

  /** An entry with a text keeps its children; one without leaves them to the list, where they are treated alike. */
  lemma {:induction false} LiftPlaces(f: Forest, id: nat, e: Entry, list: Forest)
    requires Has(f, id, e, list)
    ensures HasText(e) ==> Has(Lift(f), id, e, list)
    ensures !HasText(e) ==> Has(Lift(f), id, e, Nil)
    ensures forall i, c, l :: !HasText(e) && Has(list, i, c, l) ==> Has(Lift(f), i, c, if HasText(c) then l else Nil)
    decreases Count(f)
  {
    if f.list.Node? && !HasText(f.e) {
      var rest := Append(f.list, f.next);
      if Has(f.next, id, e, list) {
        HasAppend(f.list, f.next, id, e, list);
        LiftPlaces(rest, id, e, list);
      }
      if f.id == id && f.e == e && f.list == list {
        forall i, c, l | Has(list, i, c, l)
          ensures Has(Lift(f), i, c, if HasText(c) then l else Nil)
        {
          HasAppend(f.list, f.next, i, c, l);
          LiftPlaces(rest, i, c, l);
        }
      }
    } else if Has(f.next, id, e, list) {
      LiftPlaces(f.next, id, e, list);
    }
  }
}
