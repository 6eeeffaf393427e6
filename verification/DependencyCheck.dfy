/**
 * The search for recursive dependencies
 * (sym_check_deps and sym_check_expr_deps in scripts/kconfig/symbol.c).
 */
module DependencyCheck {
  import opened Expressions
  import opened SymbolTables

  /**
   * The symbols followed for one property of symbol d: none for its membership in a choice or a select;
   * the value only of a default, and then only if d is no choice.
   */
  function FollowedBy(d: SymbolDef, p: Property): set<nat> {
    if p.kind == ChoiceMember || p.kind == Select then {}
    else MentionsOpt(p.visible) + (if p.kind == Default && !d.choice then MentionsOpt(p.value) else {})
  }

  /** The edges of the dependency graph that leave symbol d. */
  function Followed(d: SymbolDef): set<nat> {
    MentionsOpt(d.revDep) + set p, j | p in d.props && j in FollowedBy(d, p) :: j
  }

  predicate Edge(defs: Table, i: nat, j: nat) {
    i < |defs| && j in Followed(defs[i])
  }

  predicate Walk(defs: Table, p: seq<nat>) {
    forall k :: 0 <= k < |p| - 1 ==> Edge(defs, p[k], p[k + 1])
  }

  predicate Cycle(defs: Table, p: seq<nat>) {
    |p| >= 2 && p[0] == p[|p| - 1] && Walk(defs, p)
  }

  lemma FollowedDeclared(defs: Table, i: nat)
    requires WellFormed(defs) && i < |defs|
    ensures forall j <- Followed(defs[i]) :: j < |defs|
  {
    var d := defs[i];
    if d.revDep.Some? {
      MentionsDeclared(defs, d.revDep.value);
    }
    forall p | p in d.props
      ensures forall j <- FollowedBy(d, p) :: j < |defs|
    {
      if p.visible.Some? {
        MentionsDeclared(defs, p.visible.value);
      }
      if p.value.Some? {
        MentionsDeclared(defs, p.value.value);
      }
    }
  }

  /** No edge leaves the set. */
  ghost predicate Closed(defs: Table, s: set<nat>) {
    forall i <- s :: i < |defs| && Followed(defs[i]) <= s
  }

  function AllNumbers(defs: Table): (s: set<nat>)
    ensures forall i: nat :: i < |defs| <==> i in s
  {
    if defs == [] then {} else AllNumbers(defs[..|defs| - 1]) + {|defs| - 1}
  }

  lemma AllClosed(defs: Table)
    requires WellFormed(defs)
    ensures Closed(defs, AllNumbers(defs))
  {
    forall i: nat | i < |defs|
      ensures Followed(defs[i]) <= AllNumbers(defs)
    {
      FollowedDeclared(defs, i);
    }
  }

  predicate Connects(defs: Table, p: seq<nat>, i: nat, j: nat) {
    p != [] && p[0] == i && p[|p| - 1] == j && Walk(defs, p)
  }

  ghost predicate Reaches(defs: Table, i: nat, j: nat) {
    exists p :: Connects(defs, p, i, j)
  }

  /** Symbol i and everything it depends on, directly or not. */
  ghost function Reach(defs: Table, i: nat): set<nat> {
    set j: nat | j < |defs| && Reaches(defs, i, j)
  }

  lemma ReachClosed(defs: Table, i: nat)
    requires WellFormed(defs) && i < |defs|
    ensures i in Reach(defs, i) && Closed(defs, Reach(defs, i))
  {
    assert Connects(defs, [i], i, i);
    forall j, k | j in Reach(defs, i) && k in Followed(defs[j])
      ensures k in Reach(defs, i)
    {
      var p :| Connects(defs, p, i, j);
      assert Edge(defs, j, k);
      ExtendWalk(defs, p, k);
      assert Connects(defs, p + [k], i, k);
      FollowedDeclared(defs, j);
    }
  }

  /** A ranking proves that there is no cycle: every edge leads to a smaller rank. */
  ghost predicate Ranks(defs: Table, rank: seq<nat>) {
    |rank| == |defs| &&
    forall i: nat, j: nat :: Edge(defs, i, j) ==> j < |defs| && rank[j] < rank[i]
  }

  lemma {:induction false} RanksDescend(defs: Table, rank: seq<nat>, p: seq<nat>)
    requires Ranks(defs, rank) && Walk(defs, p) && |p| >= 2
    ensures p[0] < |defs| && p[|p| - 1] < |defs| && rank[p[|p| - 1]] < rank[p[0]]
  {
    assert Edge(defs, p[0], p[0 + 1]);
    assert p[1] < |defs| && rank[p[1]] < rank[p[0]];
    if |p| > 2 {
      forall k | 0 <= k < |p[1..]| - 1
        ensures Edge(defs, p[1..][k], p[1..][k + 1])
      {
        assert Edge(defs, p[k + 1], p[k + 1 + 1]);
      }
      RanksDescend(defs, rank, p[1..]);
    }
  }

  lemma RankedIsAcyclic(defs: Table, rank: seq<nat>)
    requires Ranks(defs, rank)
    ensures forall p :: !Cycle(defs, p)
  {
    forall p | Cycle(defs, p)
      ensures false
    {
      RanksDescend(defs, rank, p);
    }
  }

  function Reverse(s: seq<nat>): seq<nat> {
    seq(|s|, k requires 0 <= k < |s| => s[|s| - 1 - k])
  }

  function Elements(s: seq<nat>): set<nat> {
    set i | i in s
  }

  lemma FollowedProperty(d: SymbolDef, p: Property)
    requires p in d.props
    ensures FollowedBy(d, p) <= Followed(d)
  {
  }

  lemma FollowedAll(d: SymbolDef, s: set<nat>)
    requires MentionsOpt(d.revDep) <= s && forall p <- d.props :: FollowedBy(d, p) <= s
    ensures Followed(d) <= s
  {
  }

  /** The names printed for a warning, read backwards, are a cycle. */
  predicate ReportsCycle(defs: Table, line: seq<nat>) {
    Cycle(defs, Reverse(line))
  }

  class Checker {
    const defs: Table
    /** SYMBOL_CHECK: on the path being explored; SYMBOL_CHECKED: ever visited. */
    var check: set<nat>
    var checked: set<nat>
    /** Warnings printed so far: finished lines and the one being printed. */
    var lines: seq<seq<nat>>
    var line: seq<nat>
    /** The order in which symbols were left; it counts only while nothing was printed. */
    ghost var order: seq<nat>

    ghost predicate Quiet()
      reads this
    {
      lines == [] && line == []
    }

    /** stack is the path being explored. */
    ghost predicate Exploring(stack: seq<nat>)
      reads this
    {
      WellFormed(defs) &&
      (forall k :: 0 <= k < |stack| ==> stack[k] < |defs|) &&
      Walk(defs, stack) &&
      check == Elements(stack) && check <= checked &&
      (forall i <- checked :: i < |defs|) &&
      (forall l <- lines :: ReportsCycle(defs, l))
    }

    /** While nothing was printed, everything left depends only on what was left before. */
    ghost predicate Ordered()
      reads this
    {
      (forall i <- checked :: i in check || i in order) &&
      (forall i <- order :: i in checked && i !in check) &&
      (forall k: nat :: k < |order| ==> order[k] < |defs| && Followed(defs[order[k]]) <= Elements(order[..k]))
    }

    constructor (defs: Table)
      requires WellFormed(defs)
      ensures this.defs == defs && check == {} && checked == {} && lines == [] && line == []
      ensures Exploring([]) && Ordered()
    {
      this.defs := defs;
      check := {};
      checked := {};
      lines := [];
      line := [];
      order := [];
    }

    ghost function Unchecked(): set<nat>
      reads this
    {
      set i: nat | i < |defs| && i !in checked
    }

    /** What one call promises: marks restored, visits kept, nothing wrongly reported. */
    twostate predicate Explored(stack: seq<nat>, from: nat, new r: Option<nat>)
      reads this
    {
      Exploring(stack) && check == old(check) && old(checked) <= checked &&
      old(lines) <= lines &&
      (r.None? ==> line == []) &&
      (r.Some? ==>
        r.value in stack && line != [] && line[0] == r.value && Walk(defs, Reverse(line)) &&
        Edge(defs, from, line[|line| - 1])) &&
      (Quiet() ==> Ordered() && old(order) <= order)
    }

    /** sym_check_expr_deps for an expression of the symbol being explored. */
    method CheckExpr(e: Expr, ghost stack: seq<nat>) returns (r: Option<nat>)
      requires Exploring(stack) && line == [] && (Quiet() ==> Ordered())
      requires stack != [] && RefersAll(defs, e) && Mentions(e) <= Followed(defs[stack[|stack| - 1]])
      modifies this
      ensures Explored(stack, stack[|stack| - 1], r)
      ensures Quiet() ==> Mentions(e) <= Elements(order)
      decreases Unchecked(), 2, e
    {
      match e
      case Bin(_, left, right) =>
        r := CheckExpr(left, stack);
        if r.Some? {
          return;
        }
        r := CheckExpr(right, stack);
      case Not(x) =>
        r := CheckExpr(x, stack);
      case Cmp(_, a, b) =>
        r := CheckSymbol(a, stack);
        if r.Some? {
          return;
        }
        r := CheckSymbol(b, stack);
      case Sym(s) =>
        r := CheckSymbol(s, stack);
    }

    /** A constant has no properties, so exploring it reports nothing. */
    method CheckSymbol(s: Symbol, ghost stack: seq<nat>) returns (r: Option<nat>)
      requires Exploring(stack) && line == [] && (Quiet() ==> Ordered())
      requires stack != [] && Refers(defs, s) && Number(s) <= Followed(defs[stack[|stack| - 1]])
      modifies this
      ensures Explored(stack, stack[|stack| - 1], r)
      ensures Quiet() ==> Number(s) <= Elements(order)
      decreases Unchecked(), 1
    {
      r := None;
      if s.Named? {
        r := CheckDeps(s.id, stack);
      }
    }

    method CheckOpt(e: Option<Expr>, ghost stack: seq<nat>) returns (r: Option<nat>)
      requires Exploring(stack) && line == [] && (Quiet() ==> Ordered())
      requires stack != [] && RefersOpt(defs, e) && MentionsOpt(e) <= Followed(defs[stack[|stack| - 1]])
      modifies this
      ensures Explored(stack, stack[|stack| - 1], r)
      ensures Quiet() ==> MentionsOpt(e) <= Elements(order)
      decreases Unchecked(), 3
    {
      r := None;
      if e.Some? {
        r := CheckExpr(e.value, stack);
      }
    }

    /** sym_check_deps */
    method CheckDeps(s: nat, ghost stack: seq<nat>) returns (r: Option<nat>)
      requires Exploring(stack) && line == [] && (Quiet() ==> Ordered())
      requires s < |defs| && (stack != [] ==> Edge(defs, stack[|stack| - 1], s))
      modifies this
      ensures Explored(stack, if stack == [] then 0 else stack[|stack| - 1], r)
      ensures Quiet() ==> s in order
      ensures s in checked
      decreases Unchecked(), 0
    {
      if s in check {
        line := [s];
        OnPath(defs, stack, s);
        return Some(s);
      }
      if s in checked {
        return None;
      }
      ghost var unchecked := Unchecked();
      check, checked := check + {s}, checked + {s};
      assert s in unchecked && Unchecked() == unchecked - {s};
      ghost var path := stack + [s];
      ExtendWalk(defs, stack, s);
      assert Elements(path) == Elements(stack) + {s};
      r := CheckEdges(s, path);
      r := Leave(s, stack, r);
    }

    /** The label out of sym_check_deps: print the name, end the line where it began, clear the mark. */
    method Leave(s: nat, ghost stack: seq<nat>, found: Option<nat>) returns (r: Option<nat>)
      requires Exploring(stack + [s]) && s !in stack && s < |defs|
      requires found.None? ==> line == []
      requires found.Some? ==> found.value in stack + [s] && line != [] && line[0] == found.value
      requires found.Some? ==> Walk(defs, Reverse(line)) && Edge(defs, s, line[|line| - 1])
      requires Quiet() ==> Ordered() && Followed(defs[s]) <= Elements(order)
      modifies this
      ensures Exploring(stack) && check == old(check) - {s} && checked == old(checked)
      ensures old(lines) <= lines
      ensures r.None? ==> line == []
      ensures r.Some? ==> r.value in stack && line != [] && line[0] == r.value && line[|line| - 1] == s
      ensures r.Some? ==> Walk(defs, Reverse(line))
      ensures Quiet() ==> old(Quiet()) && Ordered() && order == old(order) + [s]
    {
      ghost var path := stack + [s];
      assert forall k :: 0 <= k < |stack| ==> stack[k] == path[k];
      assert path[|stack|] == s;
      assert Walk(defs, stack) by {
        forall k | 0 <= k < |stack| - 1
          ensures Edge(defs, stack[k], stack[k + 1])
        {
          assert Edge(defs, path[k], path[k + 1]);
        }
      }
      r := found;
      if r.Some? {
        LineGrows(defs, line, s);
        line := line + [s];
        if r.value == s {
          lines := lines + [line];
          line := [];
          r := None;
        }
      }
      order := order + [s];
      check := check - {s};
    }

    /** Everything sym_check_deps follows from the symbol it has just marked. */
    method CheckEdges(s: nat, ghost path: seq<nat>) returns (r: Option<nat>)
      requires Exploring(path) && line == [] && (Quiet() ==> Ordered())
      requires path != [] && path[|path| - 1] == s
      modifies this
      ensures Explored(path, s, r)
      ensures Quiet() ==> Followed(defs[s]) <= Elements(order)
      decreases Unchecked(), 5
    {
      r := CheckOpt(defs[s].revDep, path);
      if r.None? {
        r := CheckProperties(s, path);
      }
      if Quiet() {
        FollowedAll(defs[s], Elements(order));
      }
    }

    /** The loop over the properties of the symbol being explored. */
    method CheckProperties(s: nat, ghost path: seq<nat>) returns (r: Option<nat>)
      requires Exploring(path) && line == [] && (Quiet() ==> Ordered())
      requires path != [] && path[|path| - 1] == s
      modifies this
      ensures Explored(path, s, r)
      ensures Quiet() ==> forall p <- defs[s].props :: FollowedBy(defs[s], p) <= Elements(order)
      decreases Unchecked(), 4
    {
      var props := defs[s].props;
      r := None;
      for k := 0 to |props|
        invariant r.None? && Explored(path, s, r)
        invariant Quiet() ==> forall p <- props[..k] :: FollowedBy(defs[s], p) <= Elements(order)
      {
        var p := props[k];
        FollowedProperty(defs[s], p);
        assert props[..k + 1] == props[..k] + [p];
        if p.kind == ChoiceMember || p.kind == Select {
          continue;
        }
        r := CheckOpt(p.visible, path);
        if r.Some? {
          return;
        }
        if p.kind != Default || defs[s].choice {
          continue;
        }
        r := CheckOpt(p.value, path);
        if r.Some? {
          return;
        }
      }
    }

    /** The loop of conf_parse over all symbols. */
    method CheckAll() returns (warned: bool, ghost rank: seq<nat>)
      requires Exploring([]) && lines == [] && line == [] && checked == {} && Ordered()
      modifies this
      ensures check == {} && line == []
      ensures warned <==> exists p :: Cycle(defs, p)
      ensures forall l <- lines :: ReportsCycle(defs, l)
      ensures !warned ==> Ranks(defs, rank)
    {
      for i := 0 to |defs|
        invariant Exploring([]) && line == [] && (Quiet() ==> Ordered())
        invariant Quiet() ==> forall j: nat :: j < i ==> j in order
      {
        var r := CheckDeps(i, []);
      }
      warned := lines != [];
      rank := [];
      if warned {
        assert ReportsCycle(defs, lines[0]);
      } else {
        rank := Positions(defs, order);
        RankedIsAcyclic(defs, rank);
      }
    }
  }

  ghost function Position(s: seq<nat>, x: nat): (k: nat)
    requires x in s
    ensures k < |s| && s[k] == x && x !in s[..k]
  {
    if s[0] == x then 0 else 1 + Position(s[1..], x)
  }

  /** The order of leaving, read as a ranking. */
  ghost function Positions(defs: Table, order: seq<nat>): (rank: seq<nat>)
    requires forall i: nat :: i < |defs| ==> i in order
    requires forall k: nat :: k < |order| ==> order[k] < |defs| && Followed(defs[order[k]]) <= Elements(order[..k])
    ensures Ranks(defs, rank)
  {
    var rank := seq(|defs|, i requires 0 <= i < |defs| => Position(order, i));
    assert Ranks(defs, rank) by {
      forall i: nat, j: nat | Edge(defs, i, j)
        ensures j < |defs| && rank[j] < rank[i]
      {
        var k := Position(order, i);
        assert order[k] == i && Followed(defs[order[k]]) <= Elements(order[..k]);
        assert j in Elements(order[..k]);
        PositionBefore(order, k, j);
        assert order[Position(order, j)] == j;
      }
    }
    rank
  }

  lemma {:induction false} PositionBefore(s: seq<nat>, k: nat, x: nat)
    requires k <= |s| && x in s[..k]
    ensures x in s && Position(s, x) < k
  {
    if s[0] != x {
      assert s[..k][1..] == s[1..][..k - 1];
      assert x in s[..k][1..];
      PositionBefore(s[1..], k - 1, x);
    }
  }

  lemma OnPath(defs: Table, stack: seq<nat>, s: nat)
    ensures Reverse([s]) == [s] && Walk(defs, [s])
  {
  }

  lemma ExtendWalk(defs: Table, stack: seq<nat>, s: nat)
    requires Walk(defs, stack) && (stack != [] ==> Edge(defs, stack[|stack| - 1], s))
    ensures Walk(defs, stack + [s])
  {
    var p := stack + [s];
    forall k | 0 <= k < |p| - 1
      ensures Edge(defs, p[k], p[k + 1])
    {
      if k + 1 < |stack| {
        assert Edge(defs, stack[k], stack[k + 1]);
      }
    }
  }

  /** Printing one more name while unwinding puts one more symbol in front of the walk. */
  lemma LineGrows(defs: Table, line: seq<nat>, s: nat)
    requires line != [] && Walk(defs, Reverse(line)) && Edge(defs, s, line[|line| - 1])
    ensures Walk(defs, Reverse(line + [s]))
    ensures line[0] == s ==> ReportsCycle(defs, line + [s])
  {
    var w, w' := Reverse(line), Reverse(line + [s]);
    assert w' == [s] + w;
    forall k | 0 <= k < |w'| - 1
      ensures Edge(defs, w'[k], w'[k + 1])
    {
      if k > 0 {
        assert Edge(defs, w[k - 1], w[k - 1 + 1]);
      }
    }
  }
}
