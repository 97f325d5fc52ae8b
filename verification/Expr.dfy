/** Dependency expressions, their three-valued meaning, and the assumptions under
    which the rewriting passes keep that meaning. */
module Exprs {

  /** The three values no = 0, mod = 1, yes = 2, ordered as in the source. */
  type Tristate = t: int | 0 <= t <= 2

  const NO: Tristate := 0
  const MOD: Tristate := 1
  const YES: Tristate := 2

  function Min(a: Tristate, b: Tristate): Tristate {
    if a < b then a else b
  }

  function Max(a: Tristate, b: Tristate): Tristate {
    if a > b then a else b
  }

  function FromBool(b: bool): Tristate {
    if b then YES else NO
  }

  datatype SymType = Unknown | Boolean | Tri | Int | Hex | String

  /** A symbol pointer. The three constants are global objects of unknown type;
      every other symbol is told apart by its id and carries its type and its
      constant flag. */
  datatype Symbol = SymYes | SymMod | SymNo | Named(id: nat, ty: SymType, isConst: bool)
  {
    function Type(): SymType {
      if Named? then ty else Unknown
    }

    predicate Const() {
      Named? ==> isConst
    }

    /** Has a declared type with three-valued (or two-valued) meaning. */
    predicate Typed() {
      Type() == Boolean || Type() == Tri
    }

    predicate YMN() {
      !Named?
    }
  }

  datatype Relation = Equal | Unequal | Less | LessEq | Greater | GreaterEq

  datatype Expr =
    | Sym(s: Symbol)
    | Not(e: Expr)
    | And(l: Expr, r: Expr)
    | Or(l: Expr, r: Expr)
    | Compare(rel: Relation, ls: Symbol, rs: Symbol)

  datatype Option<+T> = None | Some(value: T)

  /** An operator that has operands at a level: conjunction or disjunction. */
  datatype Op = AndOp | OrOp

  predicate IsOp(op: Op, e: Expr) {
    match op
    case AndOp => e.And?
    case OrOp => e.Or?
  }

  predicate IsJunction(e: Expr) {
    e.And? || e.Or?
  }

  function OpOf(e: Expr): Op
    requires IsJunction(e)
  {
    if e.And? then AndOp else OrOp
  }

  function Make(op: Op, l: Expr, r: Expr): Expr {
    match op
    case AndOp => And(l, r)
    case OrOp => Or(l, r)
  }

  /** The operand that an operator absorbs without effect. */
  function Neutral(op: Op): Expr {
    match op
    case AndOp => Sym(SymYes)
    case OrOp => Sym(SymNo)
  }

  function Apply(op: Op, a: Tristate, b: Tristate): Tristate {
    match op
    case AndOp => Min(a, b)
    case OrOp => Max(a, b)
  }

  function NeutralValue(op: Op): Tristate {
    match op
    case AndOp => YES
    case OrOp => NO
  }

  /** Number of nodes. */
  function Size(e: Expr): (n: nat)
    ensures n >= 1
  {
    match e
    case Sym(_) => 1
    case Compare(_, _, _) => 1
    case Not(x) => 1 + Size(x)
    case And(l, r) => 1 + Size(l) + Size(r)
    case Or(l, r) => 1 + Size(l) + Size(r)
  }

  /* ----- meaning ----- */

  /** The outcome of comparing two symbols' string values: the sign of the
      difference, and whether the ordering relations apply to the pair at all. */
  datatype Outcome = Outcome(res: int, ordered: bool)

  /** One valuation: a tristate per symbol and a comparison outcome per pair. */
  datatype Env = Env(tri: Symbol -> Tristate, cmp: (Symbol, Symbol) -> Outcome)

  function Holds(rel: Relation, o: Outcome): bool {
    match rel
    case Equal => o.res == 0
    case Unequal => o.res != 0
    case Less => o.ordered && o.res < 0
    case LessEq => o.ordered && o.res <= 0
    case Greater => o.ordered && o.res > 0
    case GreaterEq => o.ordered && o.res >= 0
  }

  function Eval(e: Expr, env: Env): Tristate {
    match e
    case Sym(s) => env.tri(s)
    case Not(x) => 2 - Eval(x, env)
    case And(l, r) => Min(Eval(l, env), Eval(r, env))
    case Or(l, r) => Max(Eval(l, env), Eval(r, env))
    case Compare(rel, a, b) => FromBool(Holds(rel, env.cmp(a, b)))
  }

  /** A missing condition counts as y. */
  function EvalOpt(e: Option<Expr>, env: Env): Tristate {
    if e.None? then YES else Eval(e.value, env)
  }

  /* ----- assumptions on valuations ----- */

  predicate ConstantsFixed(env: Env) {
    env.tri(SymYes) == YES && env.tri(SymMod) == MOD && env.tri(SymNo) == NO
  }

  /** A bool symbol is never m. */
  ghost predicate BoolsTwoValued(env: Env) {
    forall s: Symbol :: s.Type() == Boolean ==> env.tri(s) != MOD
  }

  /** Comparing a bool or tristate symbol with y, m or n agrees with its value. */
  ghost predicate TypedAgree(env: Env) {
    forall s: Symbol :: s.Typed() ==>
      && (env.cmp(s, SymYes).res == 0 <==> env.tri(s) == YES)
      && (env.cmp(s, SymMod).res == 0 <==> env.tri(s) == MOD)
      && (env.cmp(s, SymNo).res == 0 <==> env.tri(s) == NO)
  }

  /** Comparing one of the constants y, m, n with another compares their letters. */
  ghost predicate LettersAgree(env: Env) {
    forall a: Symbol, b: Symbol :: a.YMN() && b.YMN() ==>
      (env.cmp(a, b).res == 0 <==> a == b)
  }

  /** Every pair can be ordered, which the source refuses only for symbols
      whose type was read from a foreign configuration file. */
  ghost predicate AllOrdered(env: Env) {
    forall a: Symbol, b: Symbol :: env.cmp(a, b).ordered
  }

  ghost predicate WellFormed(env: Env) {
    && ConstantsFixed(env)
    && BoolsTwoValued(env)
    && TypedAgree(env)
    && LettersAgree(env)
    && AllOrdered(env)
  }

  /** The constants other than y, m and n that symbols are compared with. */
  function Constants(e: Expr): set<Symbol> {
    match e
    case Compare(_, _, b) => if b.Named? && b.isConst then {b} else {}
    case Not(x) => Constants(x)
    case And(l, r) => Constants(l) + Constants(r)
    case Or(l, r) => Constants(l) + Constants(r)
    case Sym(_) => {}
  }

  function ConstantsOpt(e: Option<Expr>): set<Symbol> {
    if e.Some? then Constants(e.value) else {}
  }

  /** No tristate symbol equals two different ones of y, m, n and the given constants. */
  ghost predicate ConstantsDistinct(constants: set<Symbol>, env: Env) {
    forall s: Symbol, b: Symbol, c: Symbol ::
      s.Type() == Tri && b != c && (b in constants || b.YMN()) && (c in constants || c.YMN()) && env.cmp(s, b).res == 0 ==>
        env.cmp(s, c).res != 0
  }

  lemma DistinctFewer(a: set<Symbol>, b: set<Symbol>, env: Env)
    requires a <= b && ConstantsDistinct(b, env)
    ensures ConstantsDistinct(a, env)
  {
  }

  ghost predicate Occurs(s: Symbol, e: Expr) {
    match e
    case Sym(t) => s == t
    case Not(x) => Occurs(s, x)
    case And(l, r) => Occurs(s, l) || Occurs(s, r)
    case Or(l, r) => Occurs(s, l) || Occurs(s, r)
    case Compare(_, a, b) => s == a || s == b
  }

  /** Every symbol used as an operand (not inside a comparison) is y, m, n or
      of bool or tristate type. */
  predicate Logical(e: Expr) {
    match e
    case Sym(s) => s.YMN() || s.Typed()
    case Not(x) => Logical(x)
    case And(l, r) => Logical(l) && Logical(r)
    case Or(l, r) => Logical(l) && Logical(r)
    case Compare(_, _, _) => true
  }

  /** Negation normal form: negation only over a symbol that is not y, m or n, and
      no bool symbol compared for (in)equality with y, m or n. */
  predicate Normal(e: Expr) {
    match e
    case Sym(_) => true
    case Compare(rel, a, b) => !((rel == Equal || rel == Unequal) && a.Type() == Boolean && b.YMN())
    case Not(x) => x.Sym? && x.s.Named?
    case And(l, r) => Normal(l) && Normal(r)
    case Or(l, r) => Normal(l) && Normal(r)
  }
}
