/**
 * Slots: the `struct expr **` arguments of scripts/kconfig/expr.c.  A slot into a tree is the
 * path from its root, so two slots can name the same place, places inside one another, or
 * places side by side, exactly as the aliased pointers of the source do.
 */
module Slots {
  import opened Expressions

  datatype Side = Left | Right

  type Path = seq<Side>

  function Child(e: Expr, d: Side): Expr
    requires e.Bin?
  {
    if d == Left then e.l else e.r
  }

  predicate InTree(e: Expr, p: Path) {
    p == [] || (e.Bin? && InTree(Child(e, p[0]), p[1..]))
  }

  /** The slot p is reached from the root of e through connectives op only. */
  predicate On(op: Op, e: Expr, p: Path): (b: bool)
    ensures b ==> InTree(e, p)
  {
    p == [] || (IsOp(op, e) && On(op, Child(e, p[0]), p[1..]))
  }

  /** Reading through the slot. */
  function At(e: Expr, p: Path): Expr
    requires InTree(e, p)
  {
    if p == [] then e else At(Child(e, p[0]), p[1..])
  }

  /** Writing through the slot. */
  function Put(e: Expr, p: Path, x: Expr): (e': Expr)
    requires InTree(e, p)
    ensures p != [] ==> e'.Bin? && e'.op == e.op
  {
    if p == [] then x
    else if p[0] == Left then Bin(e.op, Put(e.l, p[1..], x), e.r)
    else Bin(e.op, e.l, Put(e.r, p[1..], x))
  }

  /** Neither slot lies on the path to the other. */
  predicate Apart(p: Path, q: Path) {
    p != [] && q != [] && (p[0] != q[0] || Apart(p[1..], q[1..]))
  }

  /** What is written is read back, and a slot through connectives op stays one. */
  lemma {:induction false} PutAt(e: Expr, p: Path, x: Expr)
    requires InTree(e, p)
    ensures InTree(Put(e, p, x), p) && At(Put(e, p, x), p) == x
    ensures forall op :: On(op, e, p) ==> On(op, Put(e, p, x), p)
    ensures forall y :: Put(Put(e, p, x), p, y) == Put(e, p, y)
    ensures Put(e, p, At(e, p)) == e
  {
    if p != [] {
      PutAt(Child(e, p[0]), p[1..], x);
    }
  }

  /** Writing through one slot leaves a slot apart from it alone. */
  lemma {:induction false} PutApart(e: Expr, p: Path, q: Path, x: Expr)
    requires InTree(e, p) && InTree(e, q) && Apart(p, q)
    ensures InTree(Put(e, p, x), q) && At(Put(e, p, x), q) == At(e, q)
    ensures forall op :: On(op, e, q) ==> On(op, Put(e, p, x), q)
  {
    if p[0] == q[0] {
      PutApart(Child(e, p[0]), p[1..], q[1..], x);
    }
  }

  /** Following q and then r is following q + r. */
  lemma {:induction false} OnAppend(op: Op, e: Expr, q: Path, r: Path)
    requires On(op, e, q) && On(op, At(e, q), r)
    ensures On(op, e, q + r)
    ensures At(e, q + r) == At(At(e, q), r)
  {
    if q == [] {
      assert q + r == r;
    } else {
      OnAppend(op, Child(e, q[0]), q[1..], r);
      assert (q + r)[1..] == q[1..] + r;
    }
  }

  /** Two different slots of leaves of the same connective tree are apart. */
  lemma {:induction false} LeavesApart(op: Op, e: Expr, p: Path, q: Path)
    requires On(op, e, p) && On(op, e, q)
    requires !IsOp(op, At(e, p)) && !IsOp(op, At(e, q)) && p != q
    ensures Apart(p, q)
  {
    if p != [] && q != [] && p[0] == q[0] {
      assert p[1..] != q[1..];
      LeavesApart(op, Child(e, p[0]), p[1..], q[1..]);
    }
  }

  /** The value of a connective tree splits into one slot and the rest. */
  lemma {:induction false} Split(env: Env, op: Op, e: Expr, p: Path, x: Expr)
    requires On(op, e, p)
    ensures Calc(env, Put(e, p, x)) == Apply(op, Calc(env, x), Calc(env, Put(e, p, Sym(UnitSym(op)))))
  {
    if p != [] {
      Split(env, op, Child(e, p[0]), p[1..], x);
    }
  }
}
