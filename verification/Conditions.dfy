/** How menu.c combines and reads conditions: explicit comparisons, dependency on a
    symbol, propagation from parent to child, and the rule by which an item joins
    the automatic submenu of the symbol before it. */
module Conditions {
  import opened Exprs
  import opened Simplify
  import opened Places
  import opened Duplicates
  import opened Rewriting
  import opened Transforming

  /* ----- explicit comparisons ----- */

  /** Pushes a comparison with v inwards. For m the junction itself is kept. */
  function TransCompare(e: Expr, rel: Relation, v: Symbol): Expr
    requires rel == Equal || rel == Unequal
    requires v.YMN()
  {
    match e
    case And(l, r) =>
      var x, y := TransCompare(l, Equal, v), TransCompare(r, Equal, v);
      var both := if v == SymYes then And(x, y) else if v == SymNo then Or(x, y) else e;
      if rel == Unequal then Not(both) else both
    case Or(l, r) =>
      var x, y := TransCompare(l, Equal, v), TransCompare(r, Equal, v);
      var both := if v == SymYes then Or(x, y) else if v == SymNo then And(x, y) else e;
      if rel == Unequal then Not(both) else both
    case Not(x) => TransCompare(x, if rel == Equal then Unequal else Equal, v)
    case Compare(_, _, _) =>
      if v == SymMod then Sym(if rel == Equal then SymNo else SymYes)
      else if (rel == Equal) == (v == SymYes) then e
      else Not(e)
    case Sym(s) => Compare(rel, s, v)
  }

  /** A missing expression stands for y. */
  function TransCompareOpt(e: Option<Expr>, rel: Relation, v: Symbol): Expr
    requires rel == Equal || rel == Unequal
    requires v.YMN()
  {
    if e.Some? then TransCompare(e.value, rel, v)
    else if rel == Unequal then Not(Sym(v))
    else Sym(v)
  }

  /** t certifies "not n" at least when the value is y and at most when it is not n. */
  predicate Between(low: bool, t: Tristate, high: bool) {
    t != MOD && (low ==> t == YES) && (t == YES ==> high)
  }

  /** Comparing s with y or n agrees with its value, except where the value is m. */
  predicate Agrees(s: Symbol, v: Symbol, env: Env) {
    && (env.tri(s) == NO ==> (env.cmp(s, v).res == 0 <==> v == SymNo))
    && (env.tri(s) == YES ==> (env.cmp(s, v).res == 0 <==> v == SymYes))
  }

  /** Every symbol that is an operand agrees. */
  predicate OperandsAgree(e: Expr, v: Symbol, env: Env) {
    match e
    case Sym(s) => Agrees(s, v, env)
    case Not(x) => OperandsAgree(x, v, env)
    case And(l, r) => OperandsAgree(l, v, env) && OperandsAgree(r, v, env)
    case Or(l, r) => OperandsAgree(l, v, env) && OperandsAgree(r, v, env)
    case Compare(_, _, _) => true
  }

  /** Operands of bool or tristate type, and y, m and n, always do. */
  lemma {:induction false} LogicalAgree(e: Expr, v: Symbol, env: Env)
    requires WellFormed(env) && Logical(e) && (v == SymNo || v == SymYes)
    ensures OperandsAgree(e, v, env)
  {
    match e
    case Not(x) => LogicalAgree(x, v, env);
    case And(l, r) => LogicalAgree(l, v, env); LogicalAgree(r, v, env);
    case Or(l, r) => LogicalAgree(l, v, env); LogicalAgree(r, v, env);
    case _ =>
  }

  /** e is n, or is y, as v says; and the other extreme. */
  predicate AtValue(t: Tristate, v: Symbol) {
    t == if v == SymNo then NO else YES
  }

  predicate AtOpposite(t: Tristate, v: Symbol) {
    t == if v == SymNo then YES else NO
  }

  /** If the operands agree, the comparison forms are two-valued and lie between the
      strict and the lax reading of the comparison they stand for. */
  lemma {:induction false} Sandwich(e: Expr, v: Symbol, env: Env)
    requires ConstantsFixed(env) && (v == SymNo || v == SymYes) && OperandsAgree(e, v, env)
    ensures var t := Eval(e, env);
            && Between(AtOpposite(t, v), Eval(TransCompare(e, Unequal, v), env), !AtValue(t, v))
            && Between(AtValue(t, v), Eval(TransCompare(e, Equal, v), env), !AtOpposite(t, v))
  {
    match e
    case And(l, r) => Sandwich(l, v, env); Sandwich(r, v, env);
    case Or(l, r) => Sandwich(l, v, env); Sandwich(r, v, env);
    case Not(x) => Sandwich(x, v, env);
    case _ =>
  }

  /** So they do for operands of bool or tristate type. */
  lemma {:induction false} SandwichLogical(e: Expr, v: Symbol, env: Env)
    requires WellFormed(env) && Logical(e) && (v == SymNo || v == SymYes)
    ensures var t := Eval(e, env);
            && Between(AtOpposite(t, v), Eval(TransCompare(e, Unequal, v), env), !AtValue(t, v))
            && Between(AtValue(t, v), Eval(TransCompare(e, Equal, v), env), !AtOpposite(t, v))
  {
    LogicalAgree(e, v, env);
    Sandwich(e, v, env);
  }

  /** For a single operand the bounds hold just when it agrees. */
  lemma SandwichNeedsAgreement(s: Symbol, v: Symbol, env: Env)
    requires v == SymNo || v == SymYes
    ensures var t := env.tri(s);
            && Between(AtOpposite(t, v), Eval(TransCompare(Sym(s), Unequal, v), env), !AtValue(t, v))
            && Between(AtValue(t, v), Eval(TransCompare(Sym(s), Equal, v), env), !AtOpposite(t, v))
            <==> Agrees(s, v, env)
  {
  }

  /** Against m, which nothing compares with, the form of a comparison is exact: it is never m.
      A junction is left as it is, which is exact just where it is n. */
  lemma AgainstMod(e: Expr, rel: Relation, env: Env)
    requires (rel == Equal || rel == Unequal) && ConstantsFixed(env)
    ensures var form, meant := Eval(TransCompare(e, rel, SymMod), env), FromBool((Eval(e, env) == MOD) == (rel == Equal));
      && (e.Compare? ==> form == meant)
      && (IsJunction(e) ==> (form == meant <==> Eval(e, env) == NO))
  {
  }

  /** No negation has an operand that is m under this valuation, and every operand equals
      v just when it has its value. */
  predicate Exact(e: Expr, v: Symbol, env: Env) {
    match e
    case Sym(s) => env.cmp(s, v).res == 0 <==> AtValue(env.tri(s), v)
    case Not(x) => Eval(x, env) != MOD && Exact(x, v, env)
    case And(l, r) => Exact(l, v, env) && Exact(r, v, env)
    case Or(l, r) => Exact(l, v, env) && Exact(r, v, env)
    case Compare(_, _, _) => true
  }

  /** Then the forms are exact. */
  lemma {:induction false} SandwichExact(e: Expr, v: Symbol, env: Env)
    requires ConstantsFixed(env) && (v == SymNo || v == SymYes) && Exact(e, v, env)
    ensures Exactly(e, v, env)
  {
    match e
    case And(l, r) =>
      SandwichExact(l, v, env);
      SandwichExact(r, v, env);
      ExactAnd(l, r, v, env);
    case Or(l, r) =>
      SandwichExact(l, v, env);
      SandwichExact(r, v, env);
      ExactOr(l, r, v, env);
    case Not(x) =>
      SandwichExact(x, v, env);
      ExactNegation(x, v, env);
    case _ =>
      ExactLeaf(e, v, env);
  }

  predicate Exactly(e: Expr, v: Symbol, env: Env)
    requires v.YMN()
  {
    var t := Eval(e, env);
    && Eval(TransCompare(e, Unequal, v), env) == FromBool(!AtValue(t, v))
    && Eval(TransCompare(e, Equal, v), env) == FromBool(AtValue(t, v))
  }

  lemma TransJunction(l: Expr, r: Expr, v: Symbol)
    requires v == SymNo || v == SymYes
    ensures var x, y := TransCompare(l, Equal, v), TransCompare(r, Equal, v);
      && TransCompare(And(l, r), Equal, v) == (if v == SymYes then And(x, y) else Or(x, y))
      && TransCompare(Or(l, r), Equal, v) == (if v == SymYes then Or(x, y) else And(x, y))
      && TransCompare(And(l, r), Unequal, v) == Not(TransCompare(And(l, r), Equal, v))
      && TransCompare(Or(l, r), Unequal, v) == Not(TransCompare(Or(l, r), Equal, v))
  {
  }

  lemma ExactAnd(l: Expr, r: Expr, v: Symbol, env: Env)
    requires (v == SymNo || v == SymYes) && Exactly(l, v, env) && Exactly(r, v, env)
    ensures Exactly(And(l, r), v, env)
  {
    TransJunction(l, r, v);
    hide TransCompare;
    var x, y, e := TransCompare(l, Equal, v), TransCompare(r, Equal, v), And(l, r);
    assert Eval(e, env) == Min(Eval(l, env), Eval(r, env));
    assert Eval(TransCompare(e, Equal, v), env) ==
      if v == SymYes then Min(Eval(x, env), Eval(y, env)) else Max(Eval(x, env), Eval(y, env));
    assert Eval(TransCompare(e, Unequal, v), env) == 2 - Eval(TransCompare(e, Equal, v), env);
  }

  lemma ExactOr(l: Expr, r: Expr, v: Symbol, env: Env)
    requires (v == SymNo || v == SymYes) && Exactly(l, v, env) && Exactly(r, v, env)
    ensures Exactly(Or(l, r), v, env)
  {
    TransJunction(l, r, v);
    hide TransCompare;
    var x, y, e := TransCompare(l, Equal, v), TransCompare(r, Equal, v), Or(l, r);
    assert Eval(e, env) == Max(Eval(l, env), Eval(r, env));
    assert Eval(TransCompare(e, Equal, v), env) ==
      if v == SymYes then Max(Eval(x, env), Eval(y, env)) else Min(Eval(x, env), Eval(y, env));
    assert Eval(TransCompare(e, Unequal, v), env) == 2 - Eval(TransCompare(e, Equal, v), env);
  }

  lemma ExactNegation(x: Expr, v: Symbol, env: Env)
    requires (v == SymNo || v == SymYes) && Exactly(x, v, env) && Eval(x, env) != MOD
    ensures Exactly(Not(x), v, env)
  {
  }

  lemma ExactLeaf(e: Expr, v: Symbol, env: Env)
    requires ConstantsFixed(env) && (v == SymNo || v == SymYes) && (e.Sym? || e.Compare?) && Exact(e, v, env)
    ensures Exactly(e, v, env)
  {
  }

  lemma {:induction false} TransCompareConstants(e: Expr, rel: Relation, v: Symbol)
    requires (rel == Equal || rel == Unequal) && v.YMN()
    ensures Constants(TransCompare(e, rel, v)) <= Constants(e)
  {
    match e
    case And(l, r) => TransCompareConstants(l, Equal, v); TransCompareConstants(r, Equal, v);
    case Or(l, r) => TransCompareConstants(l, Equal, v); TransCompareConstants(r, Equal, v);
    case Not(x) => TransCompareConstants(x, if rel == Equal then Unequal else Equal, v);
    case _ =>
  }

  /* ----- dependency on a symbol ----- */

  predicate ContainsSymbol(e: Expr, s: Symbol) {
    match e
    case And(l, r) => ContainsSymbol(l, s) || ContainsSymbol(r, s)
    case Or(l, r) => ContainsSymbol(l, s) || ContainsSymbol(r, s)
    case Sym(t) => t == s
    case Compare(_, a, b) => a == s || b == s
    case Not(x) => ContainsSymbol(x, s)
  }

  predicate DependsSymbol(e: Expr, s: Symbol) {
    match e
    case And(l, r) => DependsSymbol(l, s) || DependsSymbol(r, s)
    case Sym(t) => t == s
    case Compare(rel, a, b) =>
      || (rel == Equal && a == s && (b == SymYes || b == SymMod))
      || (rel == Unequal && a == s && b == SymNo)
    case _ => false
  }

  /** A condition that depends on a symbol is n whenever the symbol is. */
  lemma {:induction false} DependsIsAbsolute(e: Expr, s: Symbol, env: Env)
    requires s.Typed() && TypedAgree(env)
    requires DependsSymbol(e, s) && env.tri(s) == NO
    ensures Eval(e, env) == NO
  {
    if e.And? {
      if DependsSymbol(e.l, s) {
        DependsIsAbsolute(e.l, s, env);
      } else {
        DependsIsAbsolute(e.r, s, env);
      }
    }
  }

  /** Only symbols that occur can decide a condition: two valuations that differ in
      nothing but an absent symbol agree on it. */
  lemma {:induction false} AbsentSymbolIrrelevant(e: Expr, s: Symbol, env: Env, env': Env)
    requires !ContainsSymbol(e, s)
    requires forall t: Symbol :: t != s ==> env.tri(t) == env'.tri(t)
    requires forall t: Symbol, u: Symbol :: t != s && u != s ==> env.cmp(t, u) == env'.cmp(t, u)
    ensures Eval(e, env) == Eval(e, env')
  {
    match e
    case Not(x) => AbsentSymbolIrrelevant(x, s, env, env');
    case And(l, r) => AbsentSymbolIrrelevant(l, s, env, env'); AbsentSymbolIrrelevant(r, s, env, env');
    case Or(l, r) => AbsentSymbolIrrelevant(l, s, env, env'); AbsentSymbolIrrelevant(r, s, env, env');
    case _ =>
  }

  /* ----- the literal m ----- */

  function RewriteM(e: Expr, modules: Symbol): Expr {
    match e
    case Not(x) => Not(RewriteM(x, modules))
    case And(l, r) => And(RewriteM(l, modules), RewriteM(r, modules))
    case Or(l, r) => Or(RewriteM(l, modules), RewriteM(r, modules))
    case Sym(s) => if s == SymMod then And(e, Sym(modules)) else e
    case Compare(_, _, _) => e
  }

  function LimitedTri(env: Env, modules: Symbol, s: Symbol): Tristate {
    if s == SymMod then Min(MOD, env.tri(modules)) else env.tri(s)
  }

  /** The valuation in which the literal m counts only as far as modules do. */
  function LimitM(env: Env, modules: Symbol): Env {
    Env(s => LimitedTri(env, modules, s), env.cmp)
  }

  lemma {:induction false} RewriteMValue(e: Expr, modules: Symbol, env: Env)
    requires ConstantsFixed(env)
    ensures Eval(RewriteM(e, modules), env) == Eval(e, LimitM(env, modules))
  {
    match e
    case Not(x) => RewriteMValue(x, modules, env);
    case And(l, r) => RewriteMValue(l, modules, env); RewriteMValue(r, modules, env);
    case Or(l, r) => RewriteMValue(l, modules, env); RewriteMValue(r, modules, env);
    case _ =>
  }

  lemma {:induction false} RewriteMConstants(e: Expr, modules: Symbol)
    ensures Constants(RewriteM(e, modules)) <= Constants(e)
  {
    match e
    case Not(x) => RewriteMConstants(x, modules);
    case And(l, r) => RewriteMConstants(l, modules); RewriteMConstants(r, modules);
    case Or(l, r) => RewriteMConstants(l, modules); RewriteMConstants(r, modules);
    case _ =>
  }

  method RewriteMAt(t: Tree, p: Path, modules: Symbol)
    requires ValidPath(t.root, p)
    modifies t
    ensures t.root == Put(old(t.root), p, RewriteM(At(old(t.root), p), modules))
    decreases Size(At(t.root, p))
  {
    ghost var was := t.root;
    var e := At(t.root, p);
    PutAt(was, p, e);
    match e {
      case Not(x) =>
        BelowStep(was, p, Left);
        RewriteMAt(t, p + [Left], modules);
      case Sym(s) =>
        if s == SymMod {
          t.root := Put(t.root, p, And(e, Sym(modules)));
        }
      case Compare(_, _, _) =>
      case _ =>
        var op := OpOf(e);
        BelowStep(was, p, Left);
        RewriteMAt(t, p + [Left], modules);
        PutSteps(op, was, p, RewriteM(e.l, modules), RewriteM(e.r, modules));
        RewriteMAt(t, p + [Right], modules);
    }
  }

  /* ----- conditions of symbols that are not tristate ----- */

  /** FOO!=n becomes FOO for a tristate FOO. */
  function TransBool(e: Expr): Expr {
    match e
    case And(l, r) => And(TransBool(l), TransBool(r))
    case Or(l, r) => Or(TransBool(l), TransBool(r))
    case Not(x) => Not(TransBool(x))
    case Compare(rel, a, b) => if rel == Unequal && a.Type() == Tri && b == SymNo then Sym(a) else e
    case Sym(_) => e
  }

  /** The reading of a condition for a symbol that cannot be m. */
  function Promote(v: Tristate): Tristate {
    if v == MOD then YES else v
  }

  /** In normal form the weakening is invisible once m is promoted to y. */
  lemma {:induction false} TransBoolValue(e: Expr, env: Env)
    requires ConstantsFixed(env) && TypedAgree(env)
    requires Normal(e)
    ensures Promote(Eval(TransBool(e), env)) == Promote(Eval(e, env))
  {
    match e
    case And(l, r) => TransBoolValue(l, env); TransBoolValue(r, env);
    case Or(l, r) => TransBoolValue(l, env); TransBoolValue(r, env);
    case _ =>
  }

  lemma {:induction false} TransBoolNormal(e: Expr)
    requires Normal(e)
    ensures Normal(TransBool(e))
  {
    match e
    case And(l, r) => TransBoolNormal(l); TransBoolNormal(r);
    case Or(l, r) => TransBoolNormal(l); TransBoolNormal(r);
    case _ =>
  }

  lemma {:induction false} TransBoolConstants(e: Expr)
    ensures Constants(TransBool(e)) <= Constants(e)
  {
    match e
    case Not(x) => TransBoolConstants(x);
    case And(l, r) => TransBoolConstants(l); TransBoolConstants(r);
    case Or(l, r) => TransBoolConstants(l); TransBoolConstants(r);
    case _ =>
  }

  /** Below a negation it is visible, just when the tristate symbol is m. */
  lemma TransBoolBelowNegation(s: Symbol, env: Env)
    requires s.Type() == Tri && TypedAgree(env)
    ensures var e := Not(Compare(Unequal, s, SymNo));
            Promote(Eval(TransBool(e), env)) == Promote(Eval(e, env)) <==> env.tri(s) != MOD
  {
    assert s.Typed();
  }

  method TransBoolAt(t: Tree, p: Path)
    requires ValidPath(t.root, p)
    modifies t
    ensures t.root == Put(old(t.root), p, TransBool(At(old(t.root), p)))
    decreases Size(At(t.root, p))
  {
    ghost var was := t.root;
    var e := At(t.root, p);
    PutAt(was, p, e);
    match e {
      case Not(x) =>
        BelowStep(was, p, Left);
        TransBoolAt(t, p + [Left]);
      case Compare(rel, a, b) =>
        if rel == Unequal && a.Type() == Tri && b == SymNo {
          t.root := Put(t.root, p, Sym(a));
        }
      case Sym(_) =>
      case _ =>
        var op := OpOf(e);
        BelowStep(was, p, Left);
        TransBoolAt(t, p + [Left]);
        PutSteps(op, was, p, TransBool(e.l), TransBool(e.r));
        TransBoolAt(t, p + [Right]);
    }
  }

  /* ----- propagation and the submenu rule ----- */

  function AllocAnd(a: Option<Expr>, b: Option<Expr>): Option<Expr> {
    if a.None? then b else if b.None? then a else Some(And(a.value, b.value))
  }

  function AllocOr(a: Option<Expr>, b: Option<Expr>): Option<Expr> {
    if a.None? then b else if b.None? then a else Some(Or(a.value, b.value))
  }

  predicate NormalOpt(e: Option<Expr>) {
    e.Some? ==> Normal(e.value)
  }

  /** The condition a child ends up with: its own, with the literal m limited by
      modules, conjoined with its parent's. */
  function Inherit(parent: Option<Expr>, own: Option<Expr>, modules: Symbol): Option<Expr> {
    var dep := if own.Some? then Some(Transform(RewriteM(own.value, modules))) else None;
    var joint := AllocAnd(parent, dep);
    if joint.Some? then Some(Dups(joint.value)) else None
  }

  /** Where nothing is to be rewritten or joined, the parent's condition stands first. */
  lemma InheritPlain(parent: Expr, own: Expr, modules: Symbol)
    requires RewriteM(own, modules) == own && Normal(own) && Saturated(And(parent, own))
    ensures Inherit(Some(parent), Some(own), modules) == Some(And(parent, own))
  {
    TransformFixed(own);
    DupsFixed(And(parent, own));
    hide Dups, Transform, RewriteM, Saturated;
  }

  /** The inherited condition has the value of both conditions together. */
  lemma InheritValue(parent: Option<Expr>, own: Option<Expr>, modules: Symbol, env: Env)
    requires WellFormed(env) && ConstantsDistinct(ConstantsOpt(parent) + ConstantsOpt(own), env)
    ensures EvalOpt(Inherit(parent, own, modules), env) == Min(EvalOpt(parent, env), EvalOpt(own, LimitM(env, modules)))
  {
    hide WellFormed, ConstantsDistinct, Constants, Transform, Dups, Keeps, Saturated;
    var dep := if own.Some? then Some(Transform(RewriteM(own.value, modules))) else None;
    TransformedValue(own, dep, modules, env);
    var joint := AllocAnd(parent, dep);
    if joint.Some? {
      AllocAndFacts(parent, dep, env);
      JointConstants(parent, dep, own, env);
      DupsCorrect(joint.value, env);
      KeepsValue(joint.value, Dups(joint.value), env);
    }
  }

  lemma TransformedValue(own: Option<Expr>, dep: Option<Expr>, modules: Symbol, env: Env)
    requires WellFormed(env)
    requires dep == if own.Some? then Some(Transform(RewriteM(own.value, modules))) else None
    ensures EvalOpt(dep, env) == EvalOpt(own, LimitM(env, modules))
    ensures ConstantsOpt(dep) <= ConstantsOpt(own) && NormalOpt(dep)
  {
    if own.Some? {
      RewriteMValue(own.value, modules, env);
      TransformValue(RewriteM(own.value, modules), env);
      RewriteMConstants(own.value, modules);
      TransformConstants(RewriteM(own.value, modules));
      TransformNormal(RewriteM(own.value, modules));
    }
  }

  lemma AllocAndFacts(a: Option<Expr>, b: Option<Expr>, env: Env)
    ensures EvalOpt(AllocAnd(a, b), env) == Min(EvalOpt(a, env), EvalOpt(b, env))
    ensures ConstantsOpt(AllocAnd(a, b)) == ConstantsOpt(a) + ConstantsOpt(b)
    ensures NormalOpt(a) && NormalOpt(b) ==> NormalOpt(AllocAnd(a, b))
  {
  }

  lemma JointConstants(parent: Option<Expr>, dep: Option<Expr>, own: Option<Expr>, env: Env)
    requires ConstantsOpt(dep) <= ConstantsOpt(own) && ConstantsDistinct(ConstantsOpt(parent) + ConstantsOpt(own), env)
    ensures ConstantsDistinct(ConstantsOpt(AllocAnd(parent, dep)), env)
  {
    AllocAndFacts(parent, dep, env);
    DistinctFewer(ConstantsOpt(AllocAnd(parent, dep)), ConstantsOpt(parent) + ConstantsOpt(own), env);
  }

  lemma KeepsValue(e: Expr, x: Expr, env: Env)
    requires Keeps(e, x, env) && WellFormed(env) && ConstantsDistinct(Constants(e), env)
    ensures Eval(x, env) == Eval(e, env)
  {
  }

  /** It is in normal form if the parent's is, has nothing left to join, compares with no
      new constants, and is missing only if both are. */
  lemma InheritShape(parent: Option<Expr>, own: Option<Expr>, modules: Symbol)
    ensures var dep := Inherit(parent, own, modules);
            && (NormalOpt(parent) ==> NormalOpt(dep))
            && (dep.Some? ==> Saturated(dep.value))
            && ConstantsOpt(dep) <= ConstantsOpt(parent) + ConstantsOpt(own)
            && (dep.None? <==> parent.None? && own.None?)
  {
    hide Saturated, Dups, Transform;
    var env := Env(s => NO, (a, b) => Outcome(0, true));
    var dep := if own.Some? then Some(Transform(RewriteM(own.value, modules))) else None;
    if own.Some? {
      RewriteMConstants(own.value, modules);
      TransformConstants(RewriteM(own.value, modules));
      TransformNormal(RewriteM(own.value, modules));
    }
    var joint := AllocAnd(parent, dep);
    AllocAndFacts(parent, dep, env);
    if joint.Some? {
      DupsCorrect(joint.value, env);
    }
  }

  method Propagate(rw: Rewriter, parent: Option<Expr>, own: Option<Expr>, modules: Symbol) returns (dep: Option<Expr>)
    modifies rw
    ensures rw.transCount == old(rw.transCount)
    ensures dep == Inherit(parent, own, modules)
  {
    dep := own;
    if own.Some? {
      var t := new Tree(own.value);
      RewriteMAt(t, [], modules);
      TransformAt(t, []);
      dep := Some(t.root);
    }
    dep := AllocAnd(parent, dep);
    if dep.Some? {
      var t := new Tree(dep.value);
      rw.EliminateDups(t);
      dep := Some(t.root);
    }
  }

  /** The condition of a property of a node with condition dep, weakened if the node's
      symbol cannot be m. */
  function PropertyCond(dep: Option<Expr>, own: Option<Expr>, modules: Symbol, binary: bool): Option<Expr> {
    var joint := Inherit(dep, own, modules);
    if binary && joint.Some? then Some(TransBool(joint.value)) else joint
  }

  /** It has the value of both conditions together, up to promotion if it was weakened. */
  lemma PropertyCondValue(dep: Option<Expr>, own: Option<Expr>, modules: Symbol, binary: bool, env: Env)
    requires WellFormed(env) && ConstantsDistinct(ConstantsOpt(dep) + ConstantsOpt(own), env) && NormalOpt(dep)
    ensures var joint := Min(EvalOpt(dep, env), EvalOpt(own, LimitM(env, modules)));
            var now := EvalOpt(PropertyCond(dep, own, modules, binary), env);
            if binary then Promote(now) == Promote(joint) else now == joint
  {
    hide Inherit, ConstantsDistinct, Saturated;
    InheritValue(dep, own, modules, env);
    InheritShape(dep, own, modules);
    var joint := Inherit(dep, own, modules);
    if joint.Some? {
      TransBoolValue(joint.value, env);
    }
  }

  lemma PropertyCondShape(dep: Option<Expr>, own: Option<Expr>, modules: Symbol, binary: bool)
    ensures var now := PropertyCond(dep, own, modules, binary);
            && (NormalOpt(dep) ==> NormalOpt(now))
            && ConstantsOpt(now) <= ConstantsOpt(dep) + ConstantsOpt(own)
  {
    hide Inherit, Saturated;
    InheritShape(dep, own, modules);
    var joint := Inherit(dep, own, modules);
    if joint.Some? {
      TransBoolConstants(joint.value);
      if Normal(joint.value) {
        TransBoolNormal(joint.value);
      }
    }
  }

  predicate Leaf(e: Expr) {
    e.Sym? || e.Compare?
  }

  /** What a leaf of a condition becomes: for a symbol that cannot be m a test of a tristate
      against n becomes the tristate itself, and everything else stays. */
  function Weakened(e: Expr): Expr {
    if e.Compare? && e.rel == Unequal && e.ls.Type() == Tri && e.rs == SymNo then Sym(e.ls) else e
  }

  lemma {:induction false} WeakenedAt(e: Expr, p: Path)
    requires ValidPath(e, p) && Leaf(At(e, p))
    ensures ValidPath(TransBool(e), p) && At(TransBool(e), p) == Weakened(At(e, p))
  {
    if p != [] {
      WeakenedAt(Child(e, p[0]), p[1..]);
      assert HasChild(TransBool(e), p[0]) && Child(TransBool(e), p[0]) == TransBool(Child(e, p[0]));
    }
  }

  /** Leaf by leaf the condition of a property is what it inherits, weakened just when its
      symbol cannot be m. */
  lemma PropertyCondExact(dep: Option<Expr>, own: Option<Expr>, modules: Symbol, binary: bool, p: Path)
    requires var joint := Inherit(dep, own, modules); joint.Some? && ValidPath(joint.value, p) && Leaf(At(joint.value, p))
    ensures var joint, now := Inherit(dep, own, modules), PropertyCond(dep, own, modules, binary);
      && now.Some? && ValidPath(now.value, p)
      && At(now.value, p) == if binary then Weakened(At(joint.value, p)) else At(joint.value, p)
  {
    hide Inherit;
    WeakenedAt(Inherit(dep, own, modules).value, p);
  }

  /* ----- the submenu rule ----- */

  /** The simplified form of "the condition is not n". */
  function Reduce(c: Option<Expr>): Expr {
    Dups(Transform(TransCompareOpt(c, Unequal, SymNo)))
  }

  /** It is in normal form and has nothing left to join. */
  lemma ReduceShape(c: Option<Expr>, env: Env)
    ensures Normal(Reduce(c)) && Saturated(Reduce(c))
  {
    var e := TransCompareOpt(c, Unequal, SymNo);
    TransformNormal(e);
    DupsCorrect(Transform(e), env);
    hide Dups, Transform, Saturated;
  }

  method ReduceNonZero(rw: Rewriter, c: Option<Expr>) returns (r: Expr)
    modifies rw
    ensures rw.transCount == old(rw.transCount)
    ensures r == Reduce(c)
  {
    var t := new Tree(TransCompareOpt(c, Unequal, SymNo));
    TransformAt(t, []);
    rw.EliminateDups(t);
    r := t.root;
  }

  /** The reduced form has the value of the explicit comparison. */
  lemma ReduceValue(c: Option<Expr>, env: Env)
    requires WellFormed(env) && ConstantsDistinct(ConstantsOpt(c), env)
    ensures Eval(Reduce(c), env) == Eval(TransCompareOpt(c, Unequal, SymNo), env)
  {
    hide WellFormed, ConstantsDistinct, Saturated, Keeps, Dups, Transform;
    var e := TransCompareOpt(c, Unequal, SymNo);
    if c.Some? {
      TransCompareConstants(c.value, Unequal, SymNo);
    }
    TransformConstants(e);
    ValueOfTransform(e, env);
    DistinctFewer(Constants(Transform(e)), ConstantsOpt(c), env);
    DupsCorrect(Transform(e), env);
    KeepsValue(Transform(e), Dups(Transform(e)), env);
  }

  lemma ValueOfTransform(e: Expr, env: Env)
    requires WellFormed(env)
    ensures Eval(Transform(e), env) == Eval(e, env)
  {
    TransformValue(e, env);
  }

  /** An item that depends on sym absolutely goes below it in any case. */
  predicate Absolute(dep: Option<Expr>, sym: Symbol) {
    dep.Some? && ContainsSymbol(dep.value, sym) && DependsSymbol(dep.value, sym)
  }

  /** The reduced condition contains that of sym's prompt among its conjuncts. */
  predicate Superset(prompt: Option<Expr>, dep: Option<Expr>) {
    EliminateEq(Reduce(dep), Reduce(prompt)).1 == Sym(SymYes)
  }

  /** Whether the item with condition dep goes into the submenu of sym, whose prompt has
      the given condition: it must mention sym, and depend on it absolutely or be a
      superset. */
  predicate Belongs(sym: Symbol, prompt: Option<Expr>, dep: Option<Expr>) {
    dep.Some? && ContainsSymbol(dep.value, sym) && (DependsSymbol(dep.value, sym) || Superset(prompt, dep))
  }

  predicate OperandsAgreeOpt(e: Option<Expr>, env: Env) {
    e.Some? ==> OperandsAgree(e.value, SymNo, env)
  }

  lemma TransCompareOptBounds(e: Option<Expr>, env: Env)
    requires WellFormed(env) && OperandsAgreeOpt(e, env)
    ensures var v := EvalOpt(e, env);
            Between(v == YES, Eval(TransCompareOpt(e, Unequal, SymNo), env), v != NO)
  {
    if e.Some? {
      Sandwich(e.value, SymNo, env);
    }
  }

  /** What justifies moving an item below a symbol: an absolute dependency, so that the
      item is n whenever the symbol is; or whenever the item is y the symbol's prompt is
      not hidden, under every valuation with which the operands agree. */
  lemma BelongsJustified(sym: Symbol, prompt: Option<Expr>, dep: Option<Expr>, env: Env)
    requires WellFormed(env) && Belongs(sym, prompt, dep)
    ensures Absolute(dep, sym) && sym.Typed() && env.tri(sym) == NO ==> EvalOpt(dep, env) == NO
    ensures !Absolute(dep, sym) && ConstantsDistinct(ConstantsOpt(prompt) + ConstantsOpt(dep), env)
            && OperandsAgreeOpt(prompt, env) && OperandsAgreeOpt(dep, env) && EvalOpt(dep, env) == YES
            ==> EvalOpt(prompt, env) != NO
  {
    hide Reduce, EliminateEq, TransCompareOpt;
    if Absolute(dep, sym) {
      if sym.Typed() && env.tri(sym) == NO {
        DependsIsAbsolute(dep.value, sym, env);
      }
    } else if ConstantsDistinct(ConstantsOpt(prompt) + ConstantsOpt(dep), env) && OperandsAgreeOpt(prompt, env) && OperandsAgreeOpt(dep, env) {
      DistinctFewer(ConstantsOpt(prompt), ConstantsOpt(prompt) + ConstantsOpt(dep), env);
      DistinctFewer(ConstantsOpt(dep), ConstantsOpt(prompt) + ConstantsOpt(dep), env);
      ReduceValue(prompt, env);
      ReduceValue(dep, env);
      TransCompareOptBounds(dep, env);
      TransCompareOptBounds(prompt, env);
      CancelledImpliesBelow(Reduce(dep), Reduce(prompt), env);
    }
  }

  method GoesBelow(rw: Rewriter, sym: Symbol, ghost prompt: Option<Expr>, basedep: Expr, dep: Option<Expr>)
      returns (below: bool)
    requires basedep == Reduce(prompt)
    modifies rw
    ensures below <==> Belongs(sym, prompt, dep)
  {
    if dep.None? || !ContainsSymbol(dep.value, sym) {
      return false;
    }
    if DependsSymbol(dep.value, sym) {
      return true;
    }
    var reduced := ReduceNonZero(rw, dep);
    var t1 := new Tree(reduced);
    var t2 := new Tree(basedep);
    rw.EliminateEqIn(t1, t2);
    below := t2.root == Sym(SymYes);
  }
}
