/** Constant elimination, structural equality up to reordering, cancellation of
    common operands, and joining of two operands: the value-level definitions
    that the in-place passes refine. */
module Simplify {
  import opened Exprs

  /* ----- constant elimination ----- */

  function EliminateYn(e: Expr): (r: Expr)
    ensures Size(r) <= Size(e)
  {
    match e
    case And(l0, r0) =>
      var l, r := EliminateYn(l0), EliminateYn(r0);
      if l == Sym(SymNo) then Sym(SymNo)
      else if l == Sym(SymYes) then r
      else if r == Sym(SymNo) then Sym(SymNo)
      else if r == Sym(SymYes) then l
      else And(l, r)
    case Or(l0, r0) =>
      var l, r := EliminateYn(l0), EliminateYn(r0);
      if l == Sym(SymNo) then r
      else if l == Sym(SymYes) then Sym(SymYes)
      else if r == Sym(SymNo) then l
      else if r == Sym(SymYes) then Sym(SymYes)
      else Or(l, r)
    case _ => e
  }

  /** Some conjunction or disjunction outside any negation has y or n as an operand. */
  predicate HasConstantOperand(e: Expr) {
    IsJunction(e) &&
    (e.l == Sym(SymYes) || e.l == Sym(SymNo) || e.r == Sym(SymYes) || e.r == Sym(SymNo) ||
     HasConstantOperand(e.l) || HasConstantOperand(e.r))
  }

  lemma {:induction false} EliminateYnValue(e: Expr, env: Env)
    requires ConstantsFixed(env)
    ensures Eval(EliminateYn(e), env) == Eval(e, env)
  {
    match e
    case And(l, r) => EliminateYnValue(l, env); EliminateYnValue(r, env);
    case Or(l, r) => EliminateYnValue(l, env); EliminateYnValue(r, env);
    case _ =>
  }

  /** Elimination leaves no constant operand behind, and it makes the tree
      smaller exactly when there was one. */
  lemma {:induction false} EliminateYnExact(e: Expr)
    ensures !HasConstantOperand(EliminateYn(e))
    ensures HasConstantOperand(e) <==> Size(EliminateYn(e)) < Size(e)
    ensures !HasConstantOperand(e) ==> EliminateYn(e) == e
  {
    if IsJunction(e) {
      EliminateYnExact(e.l);
      EliminateYnExact(e.r);
    }
  }

  lemma {:induction false} EliminateYnNormal(e: Expr)
    requires Normal(e)
    ensures Normal(EliminateYn(e))
  {
    if IsJunction(e) {
      EliminateYnNormal(e.l);
      EliminateYnNormal(e.r);
    }
  }

  lemma {:induction false} EliminateYnConstants(e: Expr)
    ensures Constants(EliminateYn(e)) <= Constants(e)
  {
    if IsJunction(e) {
      EliminateYnConstants(e.l);
      EliminateYnConstants(e.r);
    }
  }

  /* ----- equality and cancellation ----- */

  /** Equality up to reordering of operands. */
  function ExprEq(a: Expr, b: Expr): bool
    decreases Size(a) + Size(b), 3
  {
    match (a, b)
    case (Compare(o1, l1, r1), Compare(o2, l2, r2)) => o1 == o2 && l1 == l2 && r1 == r2
    case (Sym(s), Sym(t)) => s == t
    case (Not(x), Not(y)) => ExprEq(x, y)
    case (And(_, _), And(_, _)) =>
      var (x, y) := EliminateEq(a, b);
      x.Sym? && y.Sym? && x.s == y.s
    case (Or(_, _), Or(_, _)) =>
      var (x, y) := EliminateEq(a, b);
      x.Sym? && y.Sym? && x.s == y.s
    case _ => false
  }

  /** Compares every operand of a with every operand of b at the level of op and
      replaces both members of an equal pair by the neutral constant. */
  function CancelWalk(op: Op, a: Expr, b: Expr): (p: (Expr, Expr))
    ensures Size(p.0) <= Size(a) && Size(p.1) <= Size(b)
    ensures IsOp(op, p.0) == IsOp(op, a) && IsOp(op, p.1) == IsOp(op, b)
    decreases Size(a) + Size(b), if IsOp(op, a) || IsOp(op, b) then 1 else 4
  {
    if IsOp(op, a) then
      var (l, b1) := CancelWalk(op, a.l, b);
      var (r, b2) := CancelWalk(op, a.r, b1);
      (Make(op, l, r), b2)
    else if IsOp(op, b) then
      var (a1, l) := CancelWalk(op, a, b.l);
      var (a2, r) := CancelWalk(op, a1, b.r);
      (a2, Make(op, l, r))
    else if a == b && (a == Sym(SymYes) || a == Sym(SymNo)) then
      (a, b)
    else if ExprEq(a, b) then
      (Neutral(op), Neutral(op))
    else
      (a, b)
  }

  /** Cancels common operands at the level of the first expression, then at the
      level of the second if that differs, and drops the constants. */
  function EliminateEq(a: Expr, b: Expr): (p: (Expr, Expr))
    ensures Size(p.0) <= Size(a) && Size(p.1) <= Size(b)
    decreases Size(a) + Size(b), 2
  {
    var (a1, b1) := CancelFirst(a, b);
    var (a2, b2) := CancelSecond(a1, b1);
    (EliminateYn(a2), EliminateYn(b2))
  }

  function CancelFirst(a: Expr, b: Expr): (p: (Expr, Expr))
    ensures Size(p.0) <= Size(a) && Size(p.1) <= Size(b)
    decreases Size(a) + Size(b), 2, 0
  {
    if IsJunction(a) then CancelWalk(OpOf(a), a, b) else (a, b)
  }

  /** The source skips this step when both expressions are of the same type. */
  function CancelSecond(a: Expr, b: Expr): (p: (Expr, Expr))
    ensures Size(p.0) <= Size(a) && Size(p.1) <= Size(b)
    decreases Size(a) + Size(b), 2, 0
  {
    if IsJunction(b) && !IsOp(OpOf(b), a) then CancelWalk(OpOf(b), a, b) else (a, b)
  }

  lemma EvalMake(op: Op, l: Expr, r: Expr, env: Env)
    ensures Eval(Make(op, l, r), env) == Apply(op, Eval(l, env), Eval(r, env))
  {
  }

  lemma ApplyInterchange(op: Op, x1: Tristate, c1: Tristate, x2: Tristate, c2: Tristate)
    ensures Apply(op, Apply(op, x1, c1), Apply(op, x2, c2)) == Apply(op, Apply(op, x1, x2), Apply(op, c1, c2))
    ensures Apply(op, x1, Apply(op, c1, c2)) == Apply(op, Apply(op, x1, c2), c1)
  {
  }

  lemma ApplyMonotone(op: Op, x: Tristate, y: Tristate, c: Tristate)
    ensures x <= y ==> Apply(op, x, c) <= Apply(op, y, c)
    ensures Apply(op, NeutralValue(op), c) == c == Apply(op, c, NeutralValue(op))
  {
  }

  /** What one walk removes is a common part: a value c such that each expression
      was its remainder combined with c. */
  lemma {:induction false} CancelWalkCommon(op: Op, a: Expr, b: Expr, env: Env) returns (c: Tristate)
    requires ConstantsFixed(env)
    ensures Eval(a, env) == Apply(op, Eval(CancelWalk(op, a, b).0, env), c)
    ensures Eval(b, env) == Apply(op, Eval(CancelWalk(op, a, b).1, env), c)
    decreases Size(a) + Size(b), if IsOp(op, a) || IsOp(op, b) then 1 else 4
  {
    if IsOp(op, a) {
      var (l, b1) := CancelWalk(op, a.l, b);
      var (r, b2) := CancelWalk(op, a.r, b1);
      var c1 := CancelWalkCommon(op, a.l, b, env);
      var c2 := CancelWalkCommon(op, a.r, b1, env);
      c := Apply(op, c1, c2);
      CombineLeft(op, a, l, r, c1, c2, env);
      ApplyInterchange(op, Eval(b2, env), c1, NeutralValue(op), c2);
    } else if IsOp(op, b) {
      var (a1, l) := CancelWalk(op, a, b.l);
      var (a2, r) := CancelWalk(op, a1, b.r);
      var c1 := CancelWalkCommon(op, a, b.l, env);
      var c2 := CancelWalkCommon(op, a1, b.r, env);
      c := Apply(op, c1, c2);
      CombineLeft(op, b, l, r, c1, c2, env);
      ApplyInterchange(op, Eval(a2, env), c1, NeutralValue(op), c2);
    } else {
      c := CancelLeafCommon(op, a, b, env);
    }
  }

  lemma CombineLeft(op: Op, a: Expr, l: Expr, r: Expr, c1: Tristate, c2: Tristate, env: Env)
    requires IsOp(op, a)
    requires Eval(a.l, env) == Apply(op, Eval(l, env), c1)
    requires Eval(a.r, env) == Apply(op, Eval(r, env), c2)
    ensures Eval(a, env) == Apply(op, Eval(Make(op, l, r), env), Apply(op, c1, c2))
  {
    assert a == Make(op, a.l, a.r);
    EvalMake(op, a.l, a.r, env);
    EvalMake(op, l, r, env);
    ApplyInterchange(op, Eval(l, env), c1, Eval(r, env), c2);
  }

  lemma {:induction false} CancelLeafCommon(op: Op, a: Expr, b: Expr, env: Env) returns (c: Tristate)
    requires ConstantsFixed(env)
    requires !IsOp(op, a) && !IsOp(op, b)
    ensures Eval(a, env) == Apply(op, Eval(CancelWalk(op, a, b).0, env), c)
    ensures Eval(b, env) == Apply(op, Eval(CancelWalk(op, a, b).1, env), c)
    decreases Size(a) + Size(b), 4, 0
  {
    ApplyMonotone(op, Eval(a, env), Eval(a, env), NeutralValue(op));
    ApplyMonotone(op, Eval(b, env), Eval(b, env), Eval(b, env));
    if ExprEq(a, b) && !(a == b && (a == Sym(SymYes) || a == Sym(SymNo))) {
      ExprEqSound(a, b, env);
      assert Eval(Neutral(op), env) == NeutralValue(op);
      c := Eval(a, env);
    } else {
      c := NeutralValue(op);
    }
  }

  /** Expressions found equal have equal values. */
  lemma {:induction false} ExprEqSound(a: Expr, b: Expr, env: Env)
    requires ConstantsFixed(env)
    requires ExprEq(a, b)
    ensures Eval(a, env) == Eval(b, env)
    decreases Size(a) + Size(b), 3
  {
    if a.Not? {
      ExprEqSound(a.e, b.e, env);
    } else if IsJunction(a) {
      EliminateEqReflects(a, b, env);
    }
  }

  /** x is at most y whenever u is at most v, and the other way round. */
  predicate Reflects(x: Tristate, y: Tristate, u: Tristate, v: Tristate) {
    (u <= v ==> x <= y) && (v <= u ==> y <= x)
  }

  lemma {:induction false} CancelReflects(op: Op, a: Expr, b: Expr, env: Env)
    requires ConstantsFixed(env)
    requires IsOp(op, a) || IsOp(op, b)
    ensures var (x, y) := CancelWalk(op, a, b);
            Reflects(Eval(a, env), Eval(b, env), Eval(x, env), Eval(y, env))
    decreases Size(a) + Size(b), 2, 0
  {
    var (x, y) := CancelWalk(op, a, b);
    var c := CancelWalkCommon(op, a, b, env);
    ApplyMonotone(op, Eval(x, env), Eval(y, env), c);
    ApplyMonotone(op, Eval(y, env), Eval(x, env), c);
  }

  /** Cancellation reflects the order: what it leaves can be compared in place of
      the originals. */
  lemma {:induction false} EliminateEqReflects(a: Expr, b: Expr, env: Env)
    requires ConstantsFixed(env)
    ensures var (x, y) := EliminateEq(a, b);
            Reflects(Eval(a, env), Eval(b, env), Eval(x, env), Eval(y, env))
    decreases Size(a) + Size(b), 2
  {
    var (a1, b1) := CancelFirst(a, b);
    if IsJunction(a) {
      CancelReflects(OpOf(a), a, b, env);
    }
    var (a2, b2) := CancelSecond(a1, b1);
    if IsJunction(b1) && !IsOp(OpOf(b1), a1) {
      CancelReflects(OpOf(b1), a1, b1, env);
    }
    EliminateYnValue(a2, env);
    EliminateYnValue(b2, env);
  }

  /** If everything in b was cancelled against a, then a implies b: under every
      valuation a is at most b. */
  lemma {:induction false} CancelledImpliesBelow(a: Expr, b: Expr, env: Env)
    requires ConstantsFixed(env)
    requires EliminateEq(a, b).1 == Sym(SymYes)
    ensures Eval(a, env) <= Eval(b, env)
  {
    EliminateEqReflects(a, b, env);
  }

  /* ----- joining two operands ----- */

  /** The symbol the first operand of a join is about, if it has a joinable form. */
  function FirstSubject(e: Expr): Option<Symbol> {
    match e
    case Sym(s) => Some(s)
    case Compare(rel, a, _) => if rel == Equal || rel == Unequal then Some(a) else None
    case Not(Sym(s)) => Some(s)
    case Not(Compare(rel, a, _)) => if rel == Equal || rel == Unequal then Some(a) else None
    case _ => None
  }

  /** The second operand may be negated only directly over a symbol. */
  function SecondSubject(e: Expr): Option<Symbol> {
    match e
    case Sym(s) => Some(s)
    case Compare(rel, a, _) => if rel == Equal || rel == Unequal then Some(a) else None
    case Not(Sym(s)) => Some(s)
    case _ => None
  }

  /** The bool or tristate symbol that both operands are about, if any. */
  function CommonSubject(a: Expr, b: Expr): Option<Symbol> {
    var s, t := FirstSubject(a), SecondSubject(b);
    if s.Some? && s == t && s.value.Typed() then s else None
  }

  /** e is a comparison of the given kind with the symbol v. */
  predicate Tests(e: Expr, rel: Relation, v: Symbol) {
    e.Compare? && e.rel == rel && e.rs == v
  }

  predicate TestsPair(a: Expr, b: Expr, rel: Relation, v: Symbol, w: Symbol) {
    (Tests(a, rel, v) && Tests(b, rel, w)) || (Tests(a, rel, w) && Tests(b, rel, v))
  }

  /** One operand is the symbol itself and the other compares it with v. */
  predicate SymbolAndTest(a: Expr, b: Expr, rel: Relation, v: Symbol) {
    (a.Sym? && Tests(b, rel, v)) || (b.Sym? && Tests(a, rel, v))
  }

  /** One operand is the negation of a symbol, the other a symbol. */
  predicate SymbolAndNegation(a: Expr, b: Expr) {
    (a.Not? && a.e.Sym? && b.Sym?) || (b.Not? && b.e.Sym? && a.Sym?)
  }

  /** (a=y) || (a=m) is a!=n and so on for a tristate; !a || a is y for a bool. */
  function JoinOrDifferent(a: Expr, b: Expr): Option<Expr> {
    var subject := CommonSubject(a, b);
    if subject.None? then None
    else
      var s := subject.value;
      if s.Type() == Tri then
        if TestsPair(a, b, Equal, SymYes, SymMod) then Some(Compare(Unequal, s, SymNo))
        else if TestsPair(a, b, Equal, SymYes, SymNo) then Some(Compare(Unequal, s, SymMod))
        else if TestsPair(a, b, Equal, SymMod, SymNo) then Some(Compare(Unequal, s, SymYes))
        else None
      else if SymbolAndNegation(a, b) then Some(Sym(SymYes))
      else None
  }

  function JoinAndDifferent(a: Expr, b: Expr): Option<Expr> {
    var subject := CommonSubject(a, b);
    if subject.None? then None
    else
      var s := subject.value;
      if SymbolAndTest(a, b, Equal, SymYes) then Some(Compare(Equal, s, SymYes))
      else if SymbolAndTest(a, b, Unequal, SymNo) then Some(Sym(s))
      else if SymbolAndTest(a, b, Unequal, SymMod) then Some(Compare(Equal, s, SymYes))
      else if s.Type() == Tri then JoinAndTristate(s, a, b)
      else None
  }

  function JoinAndTristate(s: Symbol, a: Expr, b: Expr): Option<Expr> {
    if a.Compare? && a.rel == Equal && b.Compare? && b.rel == Unequal && a.rs.Const() && b.rs.Const() then
      Some(if a.rs != b.rs then Compare(Equal, s, a.rs) else Sym(SymNo))
    else if a.Compare? && a.rel == Unequal && b.Compare? && b.rel == Equal && a.rs.Const() && b.rs.Const() then
      Some(if a.rs != b.rs then Compare(Equal, s, b.rs) else Sym(SymNo))
    else if TestsPair(a, b, Unequal, SymYes, SymNo) then Some(Compare(Equal, s, SymMod))
    else if TestsPair(a, b, Unequal, SymYes, SymMod) then Some(Compare(Equal, s, SymNo))
    else if TestsPair(a, b, Unequal, SymMod, SymNo) then Some(Compare(Equal, s, SymYes))
    else None
  }

  function JoinDifferent(op: Op, a: Expr, b: Expr): Option<Expr> {
    match op
    case AndOp => JoinAndDifferent(a, b)
    case OrOp => JoinOrDifferent(a, b)
  }

  /** The single expression that two operands of op can be replaced by, if the
      source knows one. */
  function Join(op: Op, a: Expr, b: Expr): Option<Expr> {
    if ExprEq(a, b) then Some(a) else JoinDifferent(op, a, b)
  }

  /** A join never makes the pair bigger. */
  lemma JoinSize(op: Op, a: Expr, b: Expr)
    requires Join(op, a, b).Some?
    ensures Size(Join(op, a, b).value) < Size(a) + Size(b)
  {
  }

  lemma JoinNormal(op: Op, a: Expr, b: Expr)
    requires Join(op, a, b).Some? && Normal(a) && Normal(b)
    ensures Normal(Join(op, a, b).value)
  {
  }

  lemma JoinConstants(op: Op, a: Expr, b: Expr)
    requires Join(op, a, b).Some?
    ensures Constants(Join(op, a, b).value) <= Constants(a) + Constants(b)
  {
  }

  lemma JoinOrSound(a: Expr, b: Expr, env: Env)
    requires WellFormed(env)
    requires JoinOrDifferent(a, b).Some?
    ensures Eval(JoinOrDifferent(a, b).value, env) == Max(Eval(a, env), Eval(b, env))
  {
    assert CommonSubject(a, b).value.Typed();
  }

  lemma BothCompare(s: Symbol, a: Expr, b: Expr)
    requires CommonSubject(a, b) == Some(s) && JoinAndTristate(s, a, b).Some?
    ensures a.Compare? && b.Compare? && a.ls == s && b.ls == s
  {
  }

  /** One test for a constant and one against another: the first is enough. */
  lemma TestAndOther(s: Symbol, x: Symbol, y: Symbol, env: Env)
    requires ConstantsFixed(env) && s.Type() == Tri
    requires x == y || !(env.cmp(s, x).res == 0 && env.cmp(s, y).res == 0)
    ensures var joined := if x != y then Compare(Equal, s, x) else Sym(SymNo);
      Eval(joined, env) == Min(Eval(Compare(Equal, s, x), env), Eval(Compare(Unequal, s, y), env))
  {
  }

  /** Two of y, m and n excluded leave the third. */
  lemma TwoExcluded(s: Symbol, v: Symbol, w: Symbol, x: Symbol, env: Env)
    requires WellFormed(env) && s.Typed() && v.YMN() && w.YMN() && x.YMN() && v != w && v != x && w != x
    ensures Eval(Compare(Equal, s, x), env) == Min(Eval(Compare(Unequal, s, v), env), Eval(Compare(Unequal, s, w), env))
  {
  }

  lemma ExcludedSound(s: Symbol, a: Expr, b: Expr, env: Env)
    requires WellFormed(env) && s.Typed() && JoinAndTristate(s, a, b).Some?
    requires a.Compare? && b.Compare? && a.ls == s && b.ls == s && a.rel == b.rel
    ensures Eval(JoinAndTristate(s, a, b).value, env) == Min(Eval(a, env), Eval(b, env))
  {
    hide WellFormed, Eval;
    TwoExcluded(s, a.rs, b.rs, JoinAndTristate(s, a, b).value.rs, env);
    assert a == Compare(Unequal, s, a.rs) && b == Compare(Unequal, s, b.rs);
  }

  lemma TestAndOtherSound(s: Symbol, a: Expr, b: Expr, env: Env)
    requires ConstantsFixed(env) && s.Type() == Tri && JoinAndTristate(s, a, b).Some?
    requires a.Compare? && b.Compare? && a.ls == s && b.ls == s && a.rel != b.rel
    requires a.rs == b.rs || !(env.cmp(s, a.rs).res == 0 && env.cmp(s, b.rs).res == 0)
    ensures Eval(JoinAndTristate(s, a, b).value, env) == Min(Eval(a, env), Eval(b, env))
  {
    hide Eval, ConstantsFixed;
    if a.rel == Equal {
      TestAndOther(s, a.rs, b.rs, env);
      assert a == Compare(Equal, s, a.rs) && b == Compare(Unequal, s, b.rs);
    } else {
      TestAndOther(s, b.rs, a.rs, env);
      assert b == Compare(Equal, s, b.rs) && a == Compare(Unequal, s, a.rs);
    }
  }

  lemma NotBoth(s: Symbol, a: Expr, b: Expr, env: Env)
    requires ConstantsDistinct(Constants(a) + Constants(b), env) && s.Type() == Tri
    requires a.Compare? && b.Compare? && a.rel != b.rel && JoinAndTristate(s, a, b).Some?
    ensures a.rs == b.rs || !(env.cmp(s, a.rs).res == 0 && env.cmp(s, b.rs).res == 0)
  {
  }

  lemma JoinAndTristateSound(s: Symbol, a: Expr, b: Expr, env: Env)
    requires WellFormed(env) && ConstantsDistinct(Constants(a) + Constants(b), env)
    requires CommonSubject(a, b) == Some(s) && s.Type() == Tri
    requires JoinAndTristate(s, a, b).Some?
    ensures Eval(JoinAndTristate(s, a, b).value, env) == Min(Eval(a, env), Eval(b, env))
  {
    BothCompare(s, a, b);
    assert s.Typed() && ConstantsFixed(env);
    hide *;
    if a.rel == b.rel {
      ExcludedSound(s, a, b, env);
    } else {
      NotBoth(s, a, b, env);
      TestAndOtherSound(s, a, b, env);
    }
  }

  lemma JoinAndSound(a: Expr, b: Expr, env: Env)
    requires WellFormed(env) && ConstantsDistinct(Constants(a) + Constants(b), env)
    requires JoinAndDifferent(a, b).Some?
    ensures Eval(JoinAndDifferent(a, b).value, env) == Min(Eval(a, env), Eval(b, env))
  {
    hide JoinAndTristate;
    var s := CommonSubject(a, b).value;
    assert s.Typed();
    if s.Type() == Tri && JoinAndTristate(s, a, b).Some? {
      JoinAndTristateSound(s, a, b, env);
    }
  }

  /** Whatever two operands are joined into has the value of their junction. */
  lemma {:induction false} JoinSound(op: Op, a: Expr, b: Expr, env: Env)
    requires WellFormed(env) && ConstantsDistinct(Constants(a) + Constants(b), env)
    requires Join(op, a, b).Some?
    ensures Eval(Join(op, a, b).value, env) == Apply(op, Eval(a, env), Eval(b, env))
  {
    if ExprEq(a, b) {
      ExprEqSound(a, b, env);
    } else {
      match op
      case AndOp => JoinAndSound(a, b, env);
      case OrOp => JoinOrSound(a, b, env);
    }
  }

  /* ----- which operands can be joined ----- */

  /** The pair {a, b} without order. */
  predicate Both(a: Expr, b: Expr, x: Expr, y: Expr) {
    (a == x && b == y) || (a == y && b == x)
  }

  /** v, w and x are y, m and n in some order. */
  predicate Letters(v: Symbol, w: Symbol, x: Symbol) {
    v.YMN() && w.YMN() && x.YMN() && v != w && v != x && w != x
  }

  /** r is what two different operands of a disjunction are joined into: two tests of a
      tristate symbol for letters give the test that excludes the third, and a bool symbol
      beside its negation gives y. */
  ghost predicate OrLaw(a: Expr, b: Expr, r: Expr) {
    || (exists s: Symbol, v: Symbol, w: Symbol, x: Symbol :: s.Type() == Tri && Letters(v, w, x)
          && Both(a, b, Compare(Equal, s, v), Compare(Equal, s, w)) && r == Compare(Unequal, s, x))
    || (exists s: Symbol :: s.Type() == Boolean && Both(a, b, Sym(s), Not(Sym(s))) && r == Sym(SymYes))
  }

  /** The same for a conjunction: a symbol beside its own test for y, against n or against
      m; a tristate symbol tested for one constant and against another, or the same; and one
      tested against two letters. */
  ghost predicate AndLaw(a: Expr, b: Expr, r: Expr) {
    || (exists s: Symbol :: s.Typed() && BesideTest(s, a, b, r))
    || (exists s: Symbol, v: Symbol, w: Symbol :: s.Type() == Tri && ForAndAgainst(s, v, w, a, b, r))
    || (exists s: Symbol, v: Symbol, w: Symbol, x: Symbol :: s.Type() == Tri && Letters(v, w, x)
          && Both(a, b, Compare(Unequal, s, v), Compare(Unequal, s, w)) && r == Compare(Equal, s, x))
  }

  predicate BesideTest(s: Symbol, a: Expr, b: Expr, r: Expr) {
    || (Both(a, b, Sym(s), Compare(Equal, s, SymYes)) && r == Compare(Equal, s, SymYes))
    || (Both(a, b, Sym(s), Compare(Unequal, s, SymNo)) && r == Sym(s))
    || (Both(a, b, Sym(s), Compare(Unequal, s, SymMod)) && r == Compare(Equal, s, SymYes))
  }

  predicate ForAndAgainst(s: Symbol, v: Symbol, w: Symbol, a: Expr, b: Expr, r: Expr) {
    && v.Const() && w.Const() && Both(a, b, Compare(Equal, s, v), Compare(Unequal, s, w))
    && r == if v == w then Sym(SymNo) else Compare(Equal, s, v)
  }

  /** Two operands are joined just by these laws, or when they are found equal. */
  lemma JoinExact(op: Op, a: Expr, b: Expr, r: Expr)
    ensures Join(op, a, b) == Some(r) <==>
      if ExprEq(a, b) then r == a else if op == OrOp then OrLaw(a, b, r) else AndLaw(a, b, r)
  {
    hide ExprEq;
    OrJoined(a, b, r);
    AndJoined(a, b, r);
    hide OrLaw, AndLaw, JoinOrDifferent, JoinAndDifferent;
  }

  lemma OrJoined(a: Expr, b: Expr, r: Expr)
    ensures JoinOrDifferent(a, b) == Some(r) <==> OrLaw(a, b, r)
  {
    if JoinOrDifferent(a, b) == Some(r) {
      var s := CommonSubject(a, b).value;
      if s.Type() == Tri {
        assert Letters(a.rs, b.rs, r.rs) && Both(a, b, Compare(Equal, s, a.rs), Compare(Equal, s, b.rs));
      } else {
        assert Both(a, b, Sym(s), Not(Sym(s)));
      }
    }
  }

  lemma AndJoined(a: Expr, b: Expr, r: Expr)
    ensures JoinAndDifferent(a, b) == Some(r) <==> AndLaw(a, b, r)
  {
    if JoinAndDifferent(a, b) == Some(r) {
      AndJoinedLaw(a, b, r);
    } else if AndLaw(a, b, r) {
      AndLawJoined(a, b, r);
    }
  }

  lemma AndJoinedLaw(a: Expr, b: Expr, r: Expr)
    requires JoinAndDifferent(a, b) == Some(r)
    ensures AndLaw(a, b, r)
  {
    var s := CommonSubject(a, b).value;
    if a.Sym? || b.Sym? {
      assert BesideTest(s, a, b, r);
    } else {
      BothCompare(s, a, b);
      if a.rel != b.rel {
        var v, w := if a.rel == Equal then a.rs else b.rs, if a.rel == Equal then b.rs else a.rs;
        assert ForAndAgainst(s, v, w, a, b, r);
      } else {
        assert Letters(a.rs, b.rs, r.rs) && Both(a, b, Compare(Unequal, s, a.rs), Compare(Unequal, s, b.rs));
      }
    }
  }

  lemma AndLawJoined(a: Expr, b: Expr, r: Expr)
    requires AndLaw(a, b, r)
    ensures JoinAndDifferent(a, b) == Some(r)
  {
    if s: Symbol :| s.Typed() && BesideTest(s, a, b, r) {
      JoinedBeside(s, a, b, r);
    } else if s: Symbol, v: Symbol, w: Symbol :| s.Type() == Tri && ForAndAgainst(s, v, w, a, b, r) {
      JoinedForAndAgainst(s, v, w, a, b, r);
    } else {
      hide JoinAndDifferent;
      var s: Symbol, v: Symbol, w: Symbol, x: Symbol :| s.Type() == Tri && Letters(v, w, x)
        && Both(a, b, Compare(Unequal, s, v), Compare(Unequal, s, w)) && r == Compare(Equal, s, x);
      JoinedLetters(s, v, w, x, a, b);
    }
  }

  lemma JoinedBeside(s: Symbol, a: Expr, b: Expr, r: Expr)
    requires s.Typed() && BesideTest(s, a, b, r)
    ensures JoinAndDifferent(a, b) == Some(r)
  {
    assert CommonSubject(a, b) == Some(s);
  }

  lemma JoinedForAndAgainst(s: Symbol, v: Symbol, w: Symbol, a: Expr, b: Expr, r: Expr)
    requires s.Type() == Tri && ForAndAgainst(s, v, w, a, b, r)
    ensures JoinAndDifferent(a, b) == Some(r)
  {
    assert CommonSubject(a, b) == Some(s);
  }

  lemma JoinedLetters(s: Symbol, v: Symbol, w: Symbol, x: Symbol, a: Expr, b: Expr)
    requires s.Type() == Tri && Letters(v, w, x) && Both(a, b, Compare(Unequal, s, v), Compare(Unequal, s, w))
    ensures JoinAndDifferent(a, b) == Some(Compare(Equal, s, x))
  {
    assert CommonSubject(a, b) == Some(s);
  }
}
