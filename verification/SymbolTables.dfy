/**
 * Declared configuration symbols and their properties (struct symbol and struct property of
 * scripts/kconfig/expr.h), without ranges.
 */
module SymbolTables {
  import opened Expressions

  datatype PropertyKind = Prompt | Default | Select | ChoiceMember | Other

  /** text tells whether prop->text is set; missing expressions are null pointers. */
  datatype Property = Property(kind: PropertyKind, text: bool, visible: Option<Expr>, value: Option<Expr>)

  /** choice tells whether the symbol stands for a choice (sym_is_choice). */
  datatype SymbolDef = SymbolDef(
    stype: SymType, name: string, props: seq<Property>, revDep: Option<Expr>,
    hasUser: bool, userTri: Tristate, userStr: string, choice: bool)

  /** The symbol with number i is Named(i, type of defs[i]). */
  type Table = seq<SymbolDef>

  function SymbolAt(defs: Table, i: nat): Symbol
    requires i < |defs|
  {
    Named(i, defs[i].stype)
  }

  /** The declared symbols an expression mentions, by number. */
  function Mentions(e: Expr): set<nat> {
    match e
    case Sym(s) => Number(s)
    case Not(x) => Mentions(x)
    case Bin(_, l, r) => Mentions(l) + Mentions(r)
    case Cmp(_, a, b) => Number(a) + Number(b)
  }

  function Number(s: Symbol): set<nat> {
    if s.Named? then {s.id} else {}
  }

  function MentionsOpt(e: Option<Expr>): set<nat> {
    if e.Some? then Mentions(e.value) else {}
  }

  predicate Refers(defs: Table, s: Symbol) {
    s.Named? ==> s.id < |defs| && s.stype == defs[s.id].stype
  }

  /** Every symbol of e is declared, with its type. */
  predicate RefersAll(defs: Table, e: Expr) {
    match e
    case Sym(s) => Refers(defs, s)
    case Not(x) => RefersAll(defs, x)
    case Bin(_, l, r) => RefersAll(defs, l) && RefersAll(defs, r)
    case Cmp(_, a, b) => Refers(defs, a) && Refers(defs, b)
  }

  predicate RefersOpt(defs: Table, e: Option<Expr>) {
    e.Some? ==> RefersAll(defs, e.value)
  }

  /** Expressions refer to declared symbols; only prompts have text; defaults have a value. */
  ghost predicate WellFormed(defs: Table) {
    forall i: nat :: i < |defs| ==>
      RefersOpt(defs, defs[i].revDep) &&
      forall p <- defs[i].props ::
        RefersOpt(defs, p.visible) && RefersOpt(defs, p.value) &&
        (p.text ==> p.kind == Prompt) && (p.kind == Default ==> p.value.Some?)
  }

  /** No symbol is a choice or a member of one. */
  predicate NoChoices(defs: Table) {
    forall d <- defs :: !d.choice && forall p <- d.props :: p.kind != ChoiceMember
  }

  ghost predicate Evaluable(defs: Table) {
    WellFormed(defs) && NoChoices(defs)
  }

  lemma {:induction false} MentionsDeclared(defs: Table, e: Expr)
    requires RefersAll(defs, e)
    ensures forall i <- Mentions(e) :: i < |defs|
  {
    match e
    case Not(x) => MentionsDeclared(defs, x);
    case Bin(_, l, r) =>
      MentionsDeclared(defs, l);
      MentionsDeclared(defs, r);
    case Sym(_) =>
    case Cmp(_, _, _) =>
  }
}
