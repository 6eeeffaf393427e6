/**
 * Printing an expression (expr_print in scripts/kconfig/expr.c) and reading the text back with
 * the grammar and the precedences of scripts/kconfig/zconf.y.
 */
module PrintParse {
  import opened Expressions

  datatype Token = Word(name: string) | BinTok(op: Op) | CmpTok(equal: bool) | OpenTok | CloseTok | NotTok

  /** The names of the declared symbols. */
  type Names = map<Symbol, string>

  /** Declared symbols have names of their own, different from the predefined ones. */
  ghost predicate Proper(names: Names) {
    (forall s <- names :: s.Named? && !(names[s] in {"y", "m", "n"})) &&
    (forall s, t :: s in names && t in names && names[s] == names[t] ==> s == t)
  }

  /** A named symbol of e is declared. */
  ghost predicate Declared(names: Names, e: Expr) {
    forall s <- Symbols(e) :: s.Named? ==> s in names
  }

  predicate Unquoted(e: Expr) {
    forall s <- Symbols(e) :: !s.Quoted?
  }

  function NameOf(names: Names, s: Symbol): string {
    match s
    case SymNo => "n"
    case SymMod => "m"
    case SymYes => "y"
    case Quoted(n) => n
    case Named(_, _) => if s in names then names[s] else ""
  }

  /** sym_lookup of an unquoted word; None stands for a symbol not declared before. */
  ghost function Lookup(names: Names, w: string): Option<Symbol> {
    if w == "y" then Some(SymYes)
    else if w == "m" then Some(SymMod)
    else if w == "n" then Some(SymNo)
    else if exists s :: s in names && names[s] == w then
      var s :| s in names && names[s] == w;
      Some(s)
    else None
  }

  // ---------------------------------------------------------------- printing

  datatype Kind = KNone | KOr | KAnd | KNot | KCompare | KSymbol

  function KindOf(e: Expr): Kind {
    match e
    case Sym(_) => KSymbol
    case Cmp(_, _, _) => KCompare
    case Not(_) => KNot
    case Bin(op, _, _) => OpKind(op)
  }

  function OpKind(op: Op): Kind {
    if op == Conj then KAnd else KOr
  }

  /** expr_compare_type(outer, inner) > 0, with the cases of its switch falling through. */
  predicate Stronger(outer: Kind, inner: Kind) {
    outer != inner &&
    match outer
    case KCompare => inner == KNot || inner == KAnd || inner == KOr
    case KNot => inner == KAnd || inner == KOr
    case KAnd => inner == KOr
    case _ => false
  }

  function Print(names: Names, e: Expr, outer: Kind): seq<Token>
    decreases e, 1
  {
    if Stronger(outer, KindOf(e)) then [OpenTok] + Body(names, e) + [CloseTok] else Body(names, e)
  }

  function Body(names: Names, e: Expr): seq<Token>
    decreases e, 0
  {
    match e
    case Sym(s) => [Word(NameOf(names, s))]
    case Cmp(equal, a, b) => [Word(NameOf(names, a)), CmpTok(equal), Word(NameOf(names, b))]
    case Not(x) => [NotTok] + Print(names, x, KNot)
    case Bin(op, l, r) => Print(names, l, OpKind(op)) + [BinTok(op)] + Print(names, r, OpKind(op))
  }

  // ---------------------------------------------------------------- parsing

  /** What a shift-reduce parser keeps on its stack. */
  datatype Item = Done(e: Expr) | Operator(op: Op) | Negation | Opened

  /** T_AND is declared after T_OR and binds more tightly; both are left-associative. */
  predicate Reduces(op: Op, rest: seq<Token>) {
    rest != [] && rest[0].BinTok? ==> op == Conj || rest[0].op == Disj
  }

  predicate TopIsExpr(stack: seq<Item>) {
    stack != [] && stack[|stack| - 1].Done?
  }

  /** The parser: reduce while a rule with at least the precedence of the lookahead applies, else shift. */
  ghost function Run(names: Names, stack: seq<Item>, toks: seq<Token>): Option<Expr>
    decreases 2 * |toks| + |stack|
  {
    var n := |stack|;
    if TopIsExpr(stack) then
      if n >= 2 && stack[n - 2].Negation? then
        Run(names, stack[..n - 2] + [Done(Not(stack[n - 1].e))], toks)
      else if n >= 3 && stack[n - 2].Operator? && stack[n - 3].Done? && Reduces(stack[n - 2].op, toks) then
        Run(names, stack[..n - 3] + [Done(Bin(stack[n - 2].op, stack[n - 3].e, stack[n - 1].e))], toks)
      else if toks == [] then (if n == 1 then Some(stack[0].e) else None)
      else if toks[0].BinTok? then Run(names, stack + [Operator(toks[0].op)], toks[1..])
      else if toks[0].CloseTok? && n >= 2 && stack[n - 2].Opened? then
        Run(names, stack[..n - 2] + [stack[n - 1]], toks[1..])
      else None
    else if toks == [] then None
    else match toks[0]
      case NotTok => Run(names, stack + [Negation], toks[1..])
      case OpenTok => Run(names, stack + [Opened], toks[1..])
      case Word(w) =>
        var a := Lookup(names, w);
        if a.None? then None
        else if |toks| >= 3 && toks[1].CmpTok? && toks[2].Word? then
          var b := Lookup(names, toks[2].name);
          if b.None? then None else Run(names, stack + [Done(Cmp(toks[1].equal, a.value, b.value))], toks[3..])
        else Run(names, stack + [Done(Sym(a.value))], toks[1..])
      case _ => None
  }

  ghost function Parse(names: Names, toks: seq<Token>): Option<Expr> {
    Run(names, [], toks)
  }

  // ---------------------------------------------------------------- the left-associated form

  /** Add the operands of e, one after the other, to the right of acc. */
  function Extend(acc: Expr, op: Op, e: Expr): Expr
    decreases e, 1
  {
    if IsOp(op, e) then Extend(Extend(acc, op, e.l), op, e.r) else Bin(op, acc, LeftAssociated(e))
  }

  function LeftAssociated(e: Expr): Expr
    decreases e, 0
  {
    match e
    case Sym(_) => e
    case Cmp(_, _, _) => e
    case Not(x) => Not(LeftAssociated(x))
    case Bin(op, l, r) => Extend(LeftAssociated(l), op, r)
  }

  lemma {:induction false} ExtendValue(env: Env, acc: Expr, op: Op, e: Expr)
    ensures Calc(env, Extend(acc, op, e)) == Apply(op, Calc(env, acc), Calc(env, e))
    ensures Symbols(Extend(acc, op, e)) == Symbols(acc) + Symbols(e)
    decreases e, 1
  {
    if IsOp(op, e) {
      ExtendValue(env, acc, op, e.l);
      ExtendValue(env, Extend(acc, op, e.l), op, e.r);
    } else {
      LeftAssociatedValue(env, e);
    }
  }

  /** Regrouping keeps the value and the symbols. */
  lemma {:induction false} LeftAssociatedValue(env: Env, e: Expr)
    ensures Calc(env, LeftAssociated(e)) == Calc(env, e)
    ensures Symbols(LeftAssociated(e)) == Symbols(e)
    decreases e, 0
  {
    match e
    case Bin(op, l, r) =>
      LeftAssociatedValue(env, l);
      ExtendValue(env, LeftAssociated(l), op, r);
    case Not(x) => LeftAssociatedValue(env, x);
    case Sym(_) =>
    case Cmp(_, _, _) =>
  }

  // ---------------------------------------------------------------- the round trip

  lemma LookupName(names: Names, s: Symbol)
    requires Proper(names) && !s.Quoted? && (s.Named? ==> s in names)
    ensures Lookup(names, NameOf(names, s)) == Some(s)
  {
    if s.Named? {
      assert names[s] != "y" && names[s] != "m" && names[s] != "n";
    } else {
      assert "n"[0] != "m"[0] && "n"[0] != "y"[0] && "m"[0] != "y"[0];
    }
  }

  /** No comparison sign follows. */
  predicate NoComparison(rest: seq<Token>) {
    rest != [] ==> !rest[0].CmpTok?
  }

  /** The stack does not end in something that would take the first operand of an op chain. */
  predicate Weaker(stack: seq<Item>, op: Op) {
    stack != [] ==>
      var top := stack[|stack| - 1];
      !top.Negation? && (top.Operator? ==> top.op == Disj && op == Conj)
  }

  lemma RunShift(names: Names, stack: seq<Item>, acc: Expr, op: Op, after: seq<Token>)
    requires Weaker(stack, op)
    ensures Run(names, stack + [Done(acc)], [BinTok(op)] + after) ==
      Run(names, stack + [Done(acc), Operator(op)], after)
  {
    var st := stack + [Done(acc)];
    var toks := [BinTok(op)] + after;
    assert toks[1..] == after;
    assert st + [Operator(op)] == stack + [Done(acc), Operator(op)];
    assert |stack| > 0 ==> st[|st| - 2] == stack[|stack| - 1];
  }

  /** Printed under outer, e shows its connective openly. */
  predicate Bare(e: Expr, outer: Kind) {
    e.Bin? && !Stronger(outer, KindOf(e))
  }

  lemma {:induction false} RunPrinted(names: Names, stack: seq<Item>, e: Expr, outer: Kind, rest: seq<Token>)
    requires Proper(names) && Declared(names, e) && Unquoted(e)
    requires !TopIsExpr(stack) && NoComparison(rest)
    requires Bare(e, outer) ==> Weaker(stack, e.op) && Reduces(e.op, rest)
    ensures Run(names, stack, Print(names, e, outer) + rest) == Run(names, stack + [Done(LeftAssociated(e))], rest)
    decreases e, 2
  {
    if Stronger(outer, KindOf(e)) {
      var inner := [CloseTok] + rest;
      var st := stack + [Opened];
      RunBody(names, st, e, inner);
      RunParentheses(names, stack, Body(names, e), LeftAssociated(e), rest);
    } else {
      RunBody(names, stack, e, rest);
    }
  }

  lemma RunParentheses(names: Names, stack: seq<Item>, body: seq<Token>, e: Expr, rest: seq<Token>)
    requires !TopIsExpr(stack)
    requires var inner := [CloseTok] + rest;
      Run(names, stack + [Opened], body + inner) == Run(names, stack + [Opened] + [Done(e)], inner)
    ensures Run(names, stack, [OpenTok] + body + [CloseTok] + rest) == Run(names, stack + [Done(e)], rest)
  {
    var inner := [CloseTok] + rest;
    var toks := [OpenTok] + body + [CloseTok] + rest;
    assert toks[1..] == body + inner;
    var st := stack + [Opened] + [Done(e)];
    assert st[..|st| - 2] == stack;
    assert inner[1..] == rest;
  }

  lemma {:induction false} RunBody(names: Names, stack: seq<Item>, e: Expr, rest: seq<Token>)
    requires Proper(names) && Declared(names, e) && Unquoted(e)
    requires !TopIsExpr(stack) && NoComparison(rest)
    requires e.Bin? ==> Weaker(stack, e.op) && Reduces(e.op, rest)
    ensures Run(names, stack, Body(names, e) + rest) == Run(names, stack + [Done(LeftAssociated(e))], rest)
    decreases e, 1
  {
    match e
    case Sym(s) => RunLeaf(names, stack, e, rest);
    case Cmp(_, _, _) => RunLeaf(names, stack, e, rest);
    case Not(x) =>
      RunPrinted(names, stack + [Negation], x, KNot, rest);
      RunNegation(names, stack, x, rest);
    case Bin(op, l, r) =>
      RunBinary(names, stack, op, l, r, rest);
  }

  lemma {:induction false} RunNegation(names: Names, stack: seq<Item>, x: Expr, rest: seq<Token>)
    requires !TopIsExpr(stack)
    requires Run(names, stack + [Negation], Print(names, x, KNot) + rest) ==
      Run(names, stack + [Negation] + [Done(LeftAssociated(x))], rest)
    requires NoComparison(rest)
    ensures Run(names, stack, Body(names, Not(x)) + rest) == Run(names, stack + [Done(LeftAssociated(Not(x)))], rest)
  {
    assert (Body(names, Not(x)) + rest)[1..] == Print(names, x, KNot) + rest;
    var st := stack + [Negation] + [Done(LeftAssociated(x))];
    assert st[..|st| - 2] == stack;
  }

  lemma {:induction false} RunBinary(
      names: Names, stack: seq<Item>, op: Op, l: Expr, r: Expr, rest: seq<Token>)
    requires Proper(names) && Declared(names, Bin(op, l, r)) && Unquoted(Bin(op, l, r))
    requires !TopIsExpr(stack) && NoComparison(rest) && Weaker(stack, op) && Reduces(op, rest)
    ensures Run(names, stack, Body(names, Bin(op, l, r)) + rest) ==
      Run(names, stack + [Done(LeftAssociated(Bin(op, l, r)))], rest)
    decreases Bin(op, l, r), 0
  {
    var after := Print(names, r, OpKind(op)) + rest;
    assert Body(names, Bin(op, l, r)) + rest == Print(names, l, OpKind(op)) + ([BinTok(op)] + after);
    RunPrinted(names, stack, l, OpKind(op), [BinTok(op)] + after);
    RunShift(names, stack, LeftAssociated(l), op, after);
    RunOperand(names, stack, LeftAssociated(l), op, r, rest);
  }

  lemma RunLeaf(names: Names, stack: seq<Item>, e: Expr, rest: seq<Token>)
    requires Proper(names) && Declared(names, e) && Unquoted(e) && (e.Sym? || e.Cmp?)
    requires !TopIsExpr(stack) && NoComparison(rest)
    ensures Run(names, stack, Body(names, e) + rest) == Run(names, stack + [Done(e)], rest)
  {
    var toks := Body(names, e) + rest;
    if e.Sym? {
      LookupName(names, e.s);
      assert toks[1..] == rest;
    } else {
      LookupName(names, e.a);
      LookupName(names, e.b);
      assert toks[3..] == rest;
    }
  }

  /** The right operand of an op chain whose left part is already on the stack. */
  lemma {:induction false} RunOperand(names: Names, stack: seq<Item>, acc: Expr, op: Op, e: Expr, rest: seq<Token>)
    requires Proper(names) && Declared(names, e) && Unquoted(e)
    requires NoComparison(rest) && Reduces(op, rest) && Weaker(stack, op)
    ensures Run(names, stack + [Done(acc), Operator(op)], Print(names, e, OpKind(op)) + rest) ==
      Run(names, stack + [Done(Extend(acc, op, e))], rest)
    decreases e, 3
  {
    var st := stack + [Done(acc), Operator(op)];
    if IsOp(op, e) {
      var after := Print(names, e.r, OpKind(op)) + rest;
      assert Print(names, e, OpKind(op)) + rest == Print(names, e.l, OpKind(op)) + ([BinTok(op)] + after);
      RunOperand(names, stack, acc, op, e.l, [BinTok(op)] + after);
      var acc' := Extend(acc, op, e.l);
      assert ([BinTok(op)] + after)[1..] == after;
      RunShift(names, stack, acc', op, after);
      RunOperand(names, stack, acc', op, e.r, rest);
    } else {
      RunPrinted(names, st, e, OpKind(op), rest);
      var st' := st + [Done(LeftAssociated(e))];
      assert st'[..|st'| - 3] == stack;
    }
  }

  /** No quoted constant among the expressions on the stack. */
  predicate StackUnquoted(stack: seq<Item>) {
    forall i <- stack :: i.Done? ==> Unquoted(i.e)
  }

  /** Words never read as quoted constants. */
  lemma {:induction false} RunUnquoted(names: Names, stack: seq<Item>, toks: seq<Token>)
    requires Proper(names) && StackUnquoted(stack)
    ensures Run(names, stack, toks).Some? ==> Unquoted(Run(names, stack, toks).value)
    decreases 2 * |toks| + |stack|
  {
    var n := |stack|;
    if TopIsExpr(stack) {
      if n >= 2 && stack[n - 2].Negation? {
        RunUnquoted(names, stack[..n - 2] + [Done(Not(stack[n - 1].e))], toks);
      } else if n >= 3 && stack[n - 2].Operator? && stack[n - 3].Done? && Reduces(stack[n - 2].op, toks) {
        assert Unquoted(stack[n - 3].e) && Unquoted(stack[n - 1].e);
        RunUnquoted(names, stack[..n - 3] + [Done(Bin(stack[n - 2].op, stack[n - 3].e, stack[n - 1].e))], toks);
      } else if toks != [] {
        if toks[0].BinTok? {
          RunUnquoted(names, stack + [Operator(toks[0].op)], toks[1..]);
        } else if toks[0].CloseTok? && n >= 2 && stack[n - 2].Opened? {
          RunUnquoted(names, stack[..n - 2] + [stack[n - 1]], toks[1..]);
        }
      }
    } else if toks != [] {
      match toks[0]
      case NotTok => RunUnquoted(names, stack + [Negation], toks[1..]);
      case OpenTok => RunUnquoted(names, stack + [Opened], toks[1..]);
      case Word(w) =>
        var a := Lookup(names, w);
        if a.Some? {
          if |toks| >= 3 && toks[1].CmpTok? && toks[2].Word? {
            var b := Lookup(names, toks[2].name);
            if b.Some? {
              RunUnquoted(names, stack + [Done(Cmp(toks[1].equal, a.value, b.value))], toks[3..]);
            }
          } else {
            RunUnquoted(names, stack + [Done(Sym(a.value))], toks[1..]);
          }
        }
      case _ =>
    }
  }

  /**
   * Printing and reading back gives the left-associated form, which has the same value, exactly
   * for the expressions without quoted constants: a quoted constant is printed without its quotes.
   */
  lemma RoundTrip(env: Env, names: Names, e: Expr)
    requires Proper(names) && Declared(names, e)
    ensures Parse(names, Print(names, e, KNone)) == Some(LeftAssociated(e)) <==> Unquoted(e)
    ensures Unquoted(e) ==> CalcOpt(env, Parse(names, Print(names, e, KNone))) == Calc(env, e)
  {
    var toks := Print(names, e, KNone);
    LeftAssociatedValue(env, e);
    if Unquoted(e) {
      RunPrinted(names, [], e, KNone, []);
      assert toks + [] == toks;
      assert [] + [Done(LeftAssociated(e))] == [Done(LeftAssociated(e))];
    } else {
      RunUnquoted(names, [], toks);
    }
  }

  // ---------------------------------------------------------------- no parentheses but those needed

  /** How often an operand would be taken apart without parentheses: a connective under !, or || under &&. */
  function Needed(e: Expr): nat {
    match e
    case Sym(_) => 0
    case Cmp(_, _, _) => 0
    case Not(x) => Needed(x) + if x.Bin? then 1 else 0
    case Bin(op, l, r) =>
      Needed(l) + Needed(r) +
        (if op == Conj && IsOp(Disj, l) then 1 else 0) + (if op == Conj && IsOp(Disj, r) then 1 else 0)
  }

  function Opening(toks: seq<Token>): nat {
    if toks == [] then 0 else (if toks[0].OpenTok? then 1 else 0) + Opening(toks[1..])
  }

  lemma {:induction false} OpeningAppend(a: seq<Token>, b: seq<Token>)
    ensures Opening(a + b) == Opening(a) + Opening(b)
  {
    if a == [] {
      assert a + b == b;
    } else {
      assert (a + b)[1..] == a[1..] + b;
      OpeningAppend(a[1..], b);
    }
  }

  lemma OpeningOne(t: Token)
    ensures Opening([t]) == if t.OpenTok? then 1 else 0
  {
    assert Opening([t][1..]) == 0;
  }

  /** The printed text has exactly the parentheses that are needed. */
  lemma {:induction false} ParenthesesNeeded(names: Names, e: Expr)
    ensures Opening(Print(names, e, KNone)) == Needed(e)
    decreases e, 1
  {
    assert Print(names, e, KNone) == Body(names, e);
    BodyParentheses(names, e);
  }

  lemma {:induction false} BodyParentheses(names: Names, e: Expr)
    ensures Opening(Body(names, e)) == Needed(e)
    decreases e, 0
  {
    match e
    case Sym(s) => OpeningOne(Word(NameOf(names, s)));
    case Cmp(equal, a, b) =>
      var u, v, w := Word(NameOf(names, a)), CmpTok(equal), Word(NameOf(names, b));
      OpeningAppend([u], [v, w]);
      OpeningAppend([v], [w]);
      OpeningOne(u);
      OpeningOne(v);
      OpeningOne(w);
      assert [u] + [v, w] == [u, v, w] && [v] + [w] == [v, w];
    case Not(x) =>
      OpeningAppend([NotTok], Print(names, x, KNot));
      OpeningOne(NotTok);
      BodyParentheses(names, x);
      PrintParentheses(names, x, KNot);
    case Bin(op, l, r) =>
      var left, right := Print(names, l, OpKind(op)), Print(names, r, OpKind(op));
      OpeningAppend(left + [BinTok(op)], right);
      OpeningAppend(left, [BinTok(op)]);
      OpeningOne(BinTok(op));
      BodyParentheses(names, l);
      BodyParentheses(names, r);
      PrintParentheses(names, l, OpKind(op));
      PrintParentheses(names, r, OpKind(op));
  }

  lemma {:induction false} PrintParentheses(names: Names, e: Expr, outer: Kind)
    requires outer == KNot || outer == KAnd || outer == KOr
    ensures Opening(Print(names, e, outer)) == Opening(Body(names, e)) +
      if (outer == KNot && e.Bin?) || (outer == KAnd && IsOp(Disj, e)) then 1 else 0
  {
    if Stronger(outer, KindOf(e)) {
      OpeningAppend([OpenTok] + Body(names, e), [CloseTok]);
      OpeningAppend([OpenTok], Body(names, e));
      OpeningOne(OpenTok);
      OpeningOne(CloseTok);
    }
  }
}
