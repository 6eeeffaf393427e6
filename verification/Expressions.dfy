/**
 * Kconfig dependency expressions: the data of scripts/kconfig/expr.h and the meaning
 * given to it by expr_calc_value in scripts/kconfig/expr.c.
 */
module Expressions {

  /** The three logic values, in their numeric order no < mod < yes. */
  datatype Tristate = No | Mod | Yes

  function Ord(t: Tristate): int {
    match t
    case No => 0
    case Mod => 1
    case Yes => 2
  }

  /** The binary connectives; keeping them in one type lets both share every rewriting rule. */
  datatype Op = Conj | Disj

  function Flip(op: Op): Op {
    if op == Conj then Disj else Conj
  }

  /** E_AND is the minimum, E_OR the maximum. */
  function Apply(op: Op, a: Tristate, b: Tristate): Tristate {
    match op
    case Conj => if Ord(a) < Ord(b) then a else b
    case Disj => if Ord(a) > Ord(b) then a else b
  }

  /** E_NOT(dep) is 2 - dep. */
  function Neg(t: Tristate): Tristate {
    match t
    case No => Yes
    case Mod => Mod
    case Yes => No
  }

  lemma ApplyAssociative(op: Op, a: Tristate, b: Tristate, c: Tristate)
    ensures Apply(op, Apply(op, a, b), c) == Apply(op, a, Apply(op, b, c))
    ensures Apply(op, a, b) == Apply(op, b, a)
  {
  }

  /** The value that op ignores. */
  function Unit(op: Op): Tristate {
    if op == Conj then Yes else No
  }

  /** The value that decides op. */
  function Zero(op: Op): Tristate {
    Neg(Unit(op))
  }

  datatype SymType = Unknown | Boolean | Tristate3 | Int | Hex | Str

  /** The name of a quoted constant; "y", "m" and "n" are looked up as the predefined symbols. */
  type QuotedName = s: string | s != "y" && s != "m" && s != "n" witness ""

  /** A symbol, compared by identity as the source compares pointers. */
  datatype Symbol =
    | SymNo
    | SymMod
    | SymYes
    | Quoted(name: QuotedName)
    | Named(id: nat, stype: SymType)

  function TypeOf(s: Symbol): SymType {
    if s.Named? then s.stype else Unknown
  }

  /** flags & SYMBOL_CONST is not zero. */
  predicate IsConst(s: Symbol) {
    !s.Named?
  }

  /** flags & (SYMBOL_YES|SYMBOL_NO) is not zero: a quoted constant carries all three constant bits. */
  predicate HasYesNoFlag(s: Symbol) {
    s.SymYes? || s.SymNo? || s.Quoted?
  }

  predicate IsLogic(s: Symbol) {
    TypeOf(s) == Boolean || TypeOf(s) == Tristate3
  }

  datatype Expr =
    | Sym(s: Symbol)
    | Not(e: Expr)
    | Bin(op: Op, l: Expr, r: Expr)
    | Cmp(equal: bool, a: Symbol, b: Symbol)

  predicate IsOp(op: Op, e: Expr) {
    e.Bin? && e.op == op
  }

  function UnitSym(op: Op): Symbol {
    if op == Conj then SymYes else SymNo
  }

  function ZeroSym(op: Op): Symbol {
    if op == Conj then SymNo else SymYes
  }

  /** Current values of the named symbols; an unlisted one is "n" or the empty string. */
  datatype Env = Env(tri: map<Symbol, Tristate>, str: map<Symbol, string>)

  /** What sym_calc_value guarantees: a boolean symbol is never "m". */
  ghost predicate WellTyped(env: Env) {
    forall s :: s in env.tri && TypeOf(s) == Boolean ==> env.tri[s] != Mod
  }

  function TriOf(env: Env, s: Symbol): Tristate {
    match s
    case SymNo => No
    case SymMod => Mod
    case SymYes => Yes
    case Quoted(_) => No
    case Named(_, _) => if s in env.tri then env.tri[s] else No
  }

  function TriName(t: Tristate): string {
    match t
    case No => "n"
    case Mod => "m"
    case Yes => "y"
  }

  /** sym_get_string_value. */
  function StrOf(env: Env, s: Symbol): string {
    match s
    case SymNo => "n"
    case SymMod => "m"
    case SymYes => "y"
    case Quoted(name) => name
    case Named(_, t) =>
      if IsLogic(s) then TriName(TriOf(env, s)) else if s in env.str then env.str[s] else ""
  }

  /** expr_calc_value, on the settled values of the symbols. */
  function Calc(env: Env, e: Expr): Tristate {
    match e
    case Sym(s) => TriOf(env, s)
    case Not(x) => Neg(Calc(env, x))
    case Bin(op, l, r) => Apply(op, Calc(env, l), Calc(env, r))
    case Cmp(equal, a, b) => if (StrOf(env, a) == StrOf(env, b)) == equal then Yes else No
  }

  /** A missing expression (a null pointer) means "y". */
  datatype Option<T> = None | Some(value: T)

  function CalcOpt(env: Env, e: Option<Expr>): Tristate {
    match e
    case None => Yes
    case Some(x) => Calc(env, x)
  }

  /** The symbols an expression mentions. */
  function Symbols(e: Expr): set<Symbol> {
    match e
    case Sym(s) => {s}
    case Not(x) => Symbols(x)
    case Bin(_, l, r) => Symbols(l) + Symbols(r)
    case Cmp(_, a, b) => {a, b}
  }

  /** Two environments that agree on the mentioned symbols give the same value. */
  lemma {:induction false} CalcDependsOnSymbols(env: Env, env': Env, e: Expr)
    requires forall s <- Symbols(e) :: TriOf(env, s) == TriOf(env', s) && StrOf(env, s) == StrOf(env', s)
    ensures Calc(env, e) == Calc(env', e)
  {
    match e
    case Sym(s) =>
    case Not(x) => CalcDependsOnSymbols(env, env', x);
    case Bin(_, l, r) =>
      CalcDependsOnSymbols(env, env', l);
      CalcDependsOnSymbols(env, env', r);
    case Cmp(_, a, b) =>
  }

  /** An environment in which every mentioned symbol is two-valued makes the whole expression two-valued. */
  lemma {:induction false} TwoValued(env: Env, e: Expr)
    requires forall s <- Symbols(e) :: TriOf(env, s) != Mod
    ensures Calc(env, e) != Mod
  {
    match e
    case Sym(s) =>
    case Not(x) => TwoValued(env, x);
    case Bin(_, l, r) =>
      TwoValued(env, l);
      TwoValued(env, r);
    case Cmp(_, a, b) =>
  }
}
