/**
 * Which dependencies sym_check_deps follows (scripts/kconfig/symbol.c), choices in particular: a choice has a member
 * as its default, and the member depends on the choice, yet this is no recursive dependency.
 */
module ChoiceDependencies {
  import opened Expressions
  import opened SymbolTables
  import opened DependencyCheck

  /** A property states a condition of the symbol itself. */
  predicate StatesCondition(p: Property) {
    p.kind == Prompt || p.kind == Default || p.kind == Other
  }

  /**
   * Symbol j is followed from d if the selects of d, a condition of its prompts or defaults, or, unless d is a choice,
   * the value of one of its defaults mentions j; and not otherwise.
   */
  lemma FollowedExactly(d: SymbolDef, j: nat)
    ensures j in Followed(d) <==>
      (d.revDep.Some? && j in Mentions(d.revDep.value)) ||
      (exists p <- d.props :: StatesCondition(p) && p.visible.Some? && j in Mentions(p.visible.value)) ||
      (!d.choice && exists p <- d.props :: p.kind == Default && p.value.Some? && j in Mentions(p.value.value))
  {
    forall p | p in d.props
      ensures FollowedBy(d, p) <= Followed(d)
    {
      FollowedProperty(d, p);
    }
    if p :| p in d.props && StatesCondition(p) && p.visible.Some? && j in Mentions(p.visible.value) {
      assert j in FollowedBy(d, p);
    }
    if !d.choice {
      if p :| p in d.props && p.kind == Default && p.value.Some? && j in Mentions(p.value.value) {
        assert j in FollowedBy(d, p);
      }
    }
  }

  /** The same symbol but for the values of its defaults. */
  predicate SameButValues(d: SymbolDef, d': SymbolDef) {
    d' == d.(props := d'.props) && |d.props| == |d'.props| &&
    forall k :: 0 <= k < |d.props| ==>
      d'.props[k] == d.props[k] ||
      (d.props[k].kind == Default && d'.props[k] == d.props[k].(value := d'.props[k].value))
  }

  lemma SameButValuesSwap(d: SymbolDef, d': SymbolDef)
    requires SameButValues(d, d')
    ensures SameButValues(d', d)
  {
  }

  lemma ChoiceFollowsLess(d: SymbolDef, d': SymbolDef)
    requires d.choice && SameButValues(d, d')
    ensures Followed(d) <= Followed(d')
  {
    forall p | p in d.props
      ensures FollowedBy(d, p) <= Followed(d')
    {
      var k :| 0 <= k < |d.props| && d.props[k] == p;
      assert d'.props[k] in d'.props;
      FollowedProperty(d', d'.props[k]);
      assert FollowedBy(d, p) == FollowedBy(d', d'.props[k]);
    }
    FollowedAll(d, Followed(d'));
  }

  /** What the defaults of a choice name changes nothing. */
  lemma ChoiceValuesUnfollowed(d: SymbolDef, d': SymbolDef)
    requires d.choice && SameButValues(d, d')
    ensures Followed(d) == Followed(d')
  {
    ChoiceFollowsLess(d, d');
    SameButValuesSwap(d, d');
    ChoiceFollowsLess(d', d);
  }

  /** The same table but for the values of the defaults of choices. */
  predicate SameButChoices(defs: Table, defs': Table) {
    |defs| == |defs'| &&
    forall i :: 0 <= i < |defs| ==> defs'[i] == defs[i] || (defs[i].choice && SameButValues(defs[i], defs'[i]))
  }

  /** So the recursive dependencies are the same, and those reported. */
  lemma ChoiceValuesHarmless(defs: Table, defs': Table, p: seq<nat>)
    requires SameButChoices(defs, defs')
    ensures Cycle(defs, p) <==> Cycle(defs', p)
  {
    forall i: nat, j: nat
      ensures Edge(defs, i, j) <==> Edge(defs', i, j)
    {
      if i < |defs| && defs'[i] != defs[i] {
        ChoiceValuesUnfollowed(defs[i], defs'[i]);
      }
    }
    assert Walk(defs, p) <==> Walk(defs', p) by {
      forall k | 0 <= k < |p| - 1
        ensures Edge(defs, p[k], p[k + 1]) <==> Edge(defs', p[k], p[k + 1])
      {
      }
    }
  }

  /** Checking both tables gives the same answer. */
  method CheckBoth(defs: Table, defs': Table) returns (warned: bool, warned': bool)
    requires WellFormed(defs) && WellFormed(defs') && SameButChoices(defs, defs')
    ensures warned == warned'
  {
    var checker := new Checker(defs);
    var checker' := new Checker(defs');
    ghost var rank, rank';
    warned, rank := checker.CheckAll();
    warned', rank' := checker'.CheckAll();
    if p :| Cycle(defs, p) {
      ChoiceValuesHarmless(defs, defs', p);
    } else if p :| Cycle(defs', p) {
      ChoiceValuesHarmless(defs, defs', p);
    }
  }

  /** Symbol 0 is a choice; its conditions mention no symbol, those of the others at most the choice. */
  predicate OneChoice(defs: Table) {
    |defs| > 0 && defs[0].choice && defs[0].revDep.None? &&
    (forall p <- defs[0].props :: StatesCondition(p) ==> MentionsOpt(p.visible) == {}) &&
    forall i :: 0 < i < |defs| ==>
      defs[i].revDep.None? && forall p <- defs[i].props :: p.kind != Default && MentionsOpt(p.visible) <= {0}
  }

  /** A choice whose members depend on it, with whatever members as defaults, draws no warning. */
  method CheckChoice(defs: Table) returns (warned: bool)
    requires WellFormed(defs) && OneChoice(defs)
    ensures !warned
  {
    var checker := new Checker(defs);
    ghost var rank;
    warned, rank := checker.CheckAll();
    OneChoiceRanked(defs);
    RankedIsAcyclic(defs, seq(|defs|, i => if i == 0 then 0 else 1));
  }

  lemma OneChoiceRanked(defs: Table)
    requires OneChoice(defs)
    ensures Ranks(defs, seq(|defs|, i => if i == 0 then 0 else 1))
  {
    forall i: nat, j: nat | Edge(defs, i, j)
      ensures i > 0 && j == 0
    {
      FollowedExactly(defs[i], j);
    }
  }
}
