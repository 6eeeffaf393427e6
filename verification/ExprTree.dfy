/**
 * The in-place form of the duplicate elimination: a tree that is overwritten through slots, and
 * the global counter trans_count (scripts/kconfig/expr.c).  Each method is proved to do to the
 * tree what the corresponding function of module Dups describes.
 */
module ExprTrees {
  import opened Expressions
  import opened Slots
  import opened Equality
  import opened Transformation
  import opened Joins
  import D = Dups

  /** Slots below a slot, and the same tree seen from either. */
  lemma {:induction false} Below(e: Expr, at: Path, p: Path, x: Expr)
    requires InTree(e, at) && InTree(At(e, at), p)
    ensures InTree(e, at + p) && At(e, at + p) == At(At(e, at), p)
    ensures Put(e, at + p, x) == Put(e, at, Put(At(e, at), p, x))
  {
    if at == [] {
      assert at + p == p;
    } else {
      assert (at + p)[1..] == at[1..] + p;
      Below(Child(e, at[0]), at[1..], p, x);
    }
  }

  /** What the recursive calls on the second slot make of tree t, and how many changes they count. */
  ghost function SecondSlot(op: Op, t: Expr, p1: Path, p2: Path): (b: (Expr, nat))
    requires On(op, t, p1) && On(op, t, p2) && !IsOp(op, At(t, p1)) && IsOp(op, At(t, p2))
    ensures On(op, b.0, p1) && On(op, b.0, p2) && !IsOp(op, At(b.0, p1)) && D.Depth(op, b.0) <= D.Depth(op, t)
    ensures D.OpCount(op, At(b.0, p1)) == D.OpCount(op, At(t, p1))
    ensures D.OpCount(op, At(b.0, p2)) == D.OpCount(op, At(t, p2))
  {
    D.SameShapeReflexive(op, t);
    D.Descend(op, t, t, p2, p1, Left);
    var a := D.Dups2(op, t, p1, p2 + [Left]);
    D.Descend(op, t, a.0, p2, p1, Right);
    var b := D.Dups2(op, a.0, p1, p2 + [Right]);
    D.SameShapeTransitive(op, t, a.0, b.0);
    D.SameShapeSlot(op, t, b.0, p1);
    D.SameShapeSlot(op, t, b.0, p2);
    D.SameShapeCount(op, At(t, p1), At(b.0, p1));
    D.SameShapeCount(op, At(t, p2), At(b.0, p2));
    (b.0, a.1 + b.1)
  }

  class ExprTree {
    var root: Expr
    var transCount: nat

    constructor (e: Expr)
      ensures root == e && transCount == 0
    {
      root := e;
      transCount := 0;
    }

    /** The subtree in which the connective tree at slot `at` is worked on. */
    function Part(at: Path): Expr
      requires InTree(root, at)
      reads this
    {
      At(root, at)
    }

    /** expr_eliminate_dups1 on the slots at + p1 and at + p2. */
    method EliminateDups1(op: Op, at: Path, p1: Path, p2: Path)
      requires InTree(root, at) && On(op, Part(at), p1) && On(op, Part(at), p2)
      modifies this
      ensures root == Put(old(root), at, D.Dups1(op, old(Part(at)), p1, p2).0)
      ensures transCount == old(transCount) + D.Dups1(op, old(Part(at)), p1, p2).1
      decreases D.Depth(op, Part(at)), D.OpCount(op, At(Part(at), p1)) + D.OpCount(op, At(Part(at), p2)), 1
    {
      ghost var before := root;
      ghost var t := Part(at);
      PutAt(root, at, t);
      Below(root, at, p1, t);
      Below(root, at, p2, t);
      D.SameShapeReflexive(op, t);
      if IsOp(op, At(root, at + p1)) {
        D.Descend(op, t, t, p1, p2, Left);
        ghost var a := D.Dups1(op, t, p1 + [Left], p2).0;
        D.Descend(op, t, a, p1, p2, Right);
        PutAt(root, at, a);
        EliminateDups1(op, at, p1 + [Left], p2);
        EliminateDups1(op, at, p1 + [Right], p2);
        return;
      }
      if IsOp(op, At(root, at + p2)) {
        D.Descend(op, t, t, p2, p1, Left);
        ghost var a := D.Dups1(op, t, p1, p2 + [Left]).0;
        D.Descend(op, t, a, p2, p1, Right);
        PutAt(root, at, a);
        EliminateDups1(op, at, p1, p2 + [Left]);
        EliminateDups1(op, at, p1, p2 + [Right]);
        return;
      }
      if at + p1 == at + p2 {
        assert p1 == (at + p1)[|at|..] == (at + p2)[|at|..] == p2;
        return;
      }
      OperandSlots(op, at, p1, p2);
    }

    /** Two different operands: the inside of the first is done, then the two are compared. */
    method OperandSlots(op: Op, at: Path, p1: Path, p2: Path)
      requires InTree(root, at) && On(op, Part(at), p1) && On(op, Part(at), p2) && p1 != p2
      requires !IsOp(op, At(Part(at), p1)) && !IsOp(op, At(Part(at), p2))
      modifies this
      ensures root == Put(old(root), at, D.Dups1(op, old(Part(at)), p1, p2).0)
      ensures transCount == old(transCount) + D.Dups1(op, old(Part(at)), p1, p2).1
      decreases D.Depth(op, Part(at)), D.OpCount(op, At(Part(at), p1)) + D.OpCount(op, At(Part(at), p2)), 0
    {
      ghost var before := root;
      ghost var t := Part(at);
      PutAt(root, at, t);
      Below(root, at, p1, t);
      var e1 := At(root, at + p1);
      D.PutOperand(op, t, p1, e1);
      ghost var inner := if e1.Bin? then D.Dups1(e1.op, e1, [], []) else (e1, 0);
      ghost var t' := Put(t, p1, inner.0);
      PutAt(t, p1, inner.0);
      Below(root, at, p1, inner.0);
      if e1.Bin? {
        EliminateDups1(e1.op, at + p1, [], []);
      }
      assert root == Put(before, at, t');
      PutAt(before, at, t');
      D.PutOperand(op, t, p1, inner.0);
      LeavesApart(op, t, p1, p2);
      PutApart(t, p1, p2, inner.0);
      MergeSlots(op, at, p1, p2);
    }

    /** The last step: two operands, side by side, merged into the second slot. */
    method MergeSlots(op: Op, at: Path, p1: Path, p2: Path)
      requires InTree(root, at) && On(op, Part(at), p1) && On(op, Part(at), p2) && Apart(p1, p2)
      requires !IsOp(op, At(Part(at), p1)) && !IsOp(op, At(Part(at), p2))
      modifies this
      ensures root == Put(old(root), at, D.MergeAt(op, old(Part(at)), p1, p2).0)
      ensures transCount == old(transCount) + D.MergeAt(op, old(Part(at)), p1, p2).1
    {
      ghost var before := root;
      ghost var t := Part(at);
      var unit := Sym(UnitSym(op));
      Below(root, at, p1, unit);
      Below(root, at, p2, unit);
      PutAt(root, at, t);
      var tmp := Join(op, At(root, at + p1), At(root, at + p2));
      if tmp.Some? {
        ghost var gap := Put(t, p1, unit);
        PutApart(t, p1, p2, unit);
        PutAt(before, at, gap);
        root := Put(root, at + p1, unit);
        Below(root, at, p2, tmp.value);
        root := Put(root, at + p2, tmp.value);
        PutAt(before, at, Put(gap, p2, tmp.value));
        transCount := transCount + 1;
      }
    }

    /** expr_eliminate_dups2 on the slots at + p1 and at + p2. */
    method EliminateDups2(op: Op, at: Path, p1: Path, p2: Path)
      requires InTree(root, at) && On(op, Part(at), p1) && On(op, Part(at), p2)
      modifies this
      ensures root == Put(old(root), at, D.Dups2(op, old(Part(at)), p1, p2).0)
      ensures transCount == old(transCount) + D.Dups2(op, old(Part(at)), p1, p2).1
      decreases D.Depth(op, Part(at)), D.OpCount(op, At(Part(at), p1)) + D.OpCount(op, At(Part(at), p2)), 1
    {
      ghost var t := Part(at);
      PutAt(root, at, t);
      Below(root, at, p1, t);
      Below(root, at, p2, t);
      D.SameShapeReflexive(op, t);
      if IsOp(op, At(root, at + p1)) {
        EliminateFirst(op, at, p1, p2);
        return;
      }
      if IsOp(op, At(root, at + p2)) {
        PutAt(root, at, SecondSlot(op, t, p1, p2).0);
        EliminateSecond(op, at, p1, p2);
      } else if at + p1 == at + p2 {
        assert p1 == (at + p1)[|at|..] == (at + p2)[|at|..] == p2;
        return;
      }
      ContradictSlots(op, at, p1, p2);
    }

    /** The recursive calls of expr_eliminate_dups2 on the first slot. */
    method EliminateFirst(op: Op, at: Path, p1: Path, p2: Path)
      requires InTree(root, at) && On(op, Part(at), p1) && On(op, Part(at), p2) && IsOp(op, At(Part(at), p1))
      modifies this
      ensures root == Put(old(root), at, D.Dups2(op, old(Part(at)), p1, p2).0)
      ensures transCount == old(transCount) + D.Dups2(op, old(Part(at)), p1, p2).1
      decreases D.Depth(op, Part(at)), D.OpCount(op, At(Part(at), p1)) + D.OpCount(op, At(Part(at), p2)), 0
    {
      ghost var t := Part(at);
      D.SameShapeReflexive(op, t);
      D.Descend(op, t, t, p1, p2, Left);
      ghost var a := D.Dups2(op, t, p1 + [Left], p2).0;
      D.Descend(op, t, a, p1, p2, Right);
      PutAt(root, at, a);
      EliminateDups2(op, at, p1 + [Left], p2);
      EliminateDups2(op, at, p1 + [Right], p2);
    }

    /** The recursive calls of expr_eliminate_dups2 on the second slot, and what they leave of both. */
    method EliminateSecond(op: Op, at: Path, p1: Path, p2: Path)
      requires InTree(root, at) && On(op, Part(at), p1) && On(op, Part(at), p2)
      requires !IsOp(op, At(Part(at), p1)) && IsOp(op, At(Part(at), p2))
      modifies this
      ensures var b := SecondSlot(op, old(Part(at)), p1, p2);
        root == Put(old(root), at, b.0) && transCount == old(transCount) + b.1 && InTree(root, at) && Part(at) == b.0
      decreases D.Depth(op, Part(at)), D.OpCount(op, At(Part(at), p1)) + D.OpCount(op, At(Part(at), p2)), 0
    {
      ghost var before := root;
      ghost var t := Part(at);
      PutAt(root, at, t);
      D.SameShapeReflexive(op, t);
      D.Descend(op, t, t, p2, p1, Left);
      ghost var a := D.Dups2(op, t, p1, p2 + [Left]).0;
      D.Descend(op, t, a, p2, p1, Right);
      PutAt(root, at, a);
      EliminateDups2(op, at, p1, p2 + [Left]);
      EliminateDups2(op, at, p1, p2 + [Right]);
      ghost var b := D.Dups2(op, a, p1, p2 + [Right]).0;
      PutAt(before, at, b);
    }

    /** The switch at the end of expr_eliminate_dups2. */
    method ContradictSlots(op: Op, at: Path, p1: Path, p2: Path)
      requires InTree(root, at) && On(op, Part(at), p1) && On(op, Part(at), p2)
      requires !IsOp(op, At(Part(at), p1)) && p1 != p2
      modifies this
      ensures root == Put(old(root), at, D.Dups2Leaf(op, old(Part(at)), p1, p2).0)
      ensures transCount == old(transCount) + D.Dups2Leaf(op, old(Part(at)), p1, p2).1
      decreases D.Depth(op, Part(at)), D.OpCount(op, At(Part(at), p1)) + D.OpCount(op, At(Part(at), p2)), 0
    {
      ghost var before := root;
      ghost var t := Part(at);
      PutAt(root, at, t);
      Below(root, at, p1, t);
      var e1 := At(root, at + p1);
      if e1.Bin? {
        D.PutOperand(op, t, p1, e1);
        ghost var inner := D.Dups2(e1.op, e1, [], []).0;
        ghost var t' := Put(t, p1, inner);
        Below(root, at, p1, inner);
        EliminateDups2(e1.op, at + p1, [], []);
        PutAt(before, at, t');
        PutAt(t, p1, inner);
        D.PutOperand(op, t, p1, inner);
        D.SameShapeSlot(op, t, t', p2);
        var zero := Sym(ZeroSym(op));
        Below(root, at, p1, zero);
        Below(root, at, p2, zero);
        var tmp1 := Transform(Not(At(root, at + p1)));
        var tmp := D.ExtractCommon(op, tmp1, At(root, at + p2));
        if tmp.1 == Sym(UnitSym(op)) {
          root := Put(root, at + p1, zero);
          PutAt(before, at, Put(t', p1, zero));
          transCount := transCount + 1;
        }
      }
    }

    /** expr_eliminate_dups: the two passes in turn until neither counts a change. */
    method EliminateDups()
      modifies this
      ensures root == D.EliminateDups(old(root))
      ensures transCount == old(transCount)
    {
      var oldcount := transCount;
      while true
        invariant D.EliminateDups(root) == D.EliminateDups(old(root))
        decreases D.Leaves(root)
      {
        transCount := 0;
        ghost var e := root;
        D.RoundProgress(e);
        if root.Bin? {
          EliminateDups1(root.op, [], [], []);
          EliminateDups2(root.op, [], [], []);
        }
        if transCount == 0 {
          break;
        }
        root := EliminateYn(root);
      }
      transCount := oldcount;
    }
  }
}
