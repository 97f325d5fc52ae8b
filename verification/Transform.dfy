/** Negation push-down and the rewriting of comparisons of bool symbols. */
module Transforming {
  import opened Exprs
  import opened Simplify
  import opened Places
  import opened Rewriting

  /** A size in which a negation doubles its operand, so that pushing one down
      makes the tree lighter. */
  function Weight(e: Expr): (n: nat)
    ensures n >= 1
  {
    match e
    case Sym(_) => 1
    case Compare(_, _, _) => 2
    case Not(x) => 2 * Weight(x)
    case And(l, r) => 1 + Weight(l) + Weight(r)
    case Or(l, r) => 1 + Weight(l) + Weight(r)
  }

  lemma DeMorganWeight(a: Expr, b: Expr)
    ensures Weight(And(Not(a), Not(b))) < 2 * Weight(Or(a, b))
    ensures Weight(Or(Not(a), Not(b))) < 2 * Weight(And(a, b))
  {
    assert Weight(Not(a)) == 2 * Weight(a) && Weight(Not(b)) == 2 * Weight(b);
  }

  /** A bool symbol tested against y, m or n becomes the symbol, its negation or a
      constant. */
  function TransformCompare(e: Expr): (r: Expr)
    requires e.Compare?
    ensures Weight(r) <= Weight(e)
  {
    if e.ls.Type() != Boolean then e
    else if e.rel == Equal && e.rs == SymNo then Not(Sym(e.ls))
    else if e.rel == Equal && e.rs == SymMod then Sym(SymNo)
    else if e.rel == Equal && e.rs == SymYes then Sym(e.ls)
    else if e.rel == Unequal && e.rs == SymNo then Sym(e.ls)
    else if e.rel == Unequal && e.rs == SymMod then Sym(SymYes)
    else if e.rel == Unequal && e.rs == SymYes then Not(Sym(e.ls))
    else e
  }

  function Opposite(rel: Relation): Relation {
    match rel
    case Equal => Unequal
    case Unequal => Equal
    case Less => GreaterEq
    case GreaterEq => Less
    case LessEq => Greater
    case Greater => LessEq
  }

  function Transform(e: Expr): (r: Expr)
    ensures Weight(r) <= Weight(e)
    decreases Weight(e), 1
  {
    match e
    case Sym(_) => e
    case Compare(_, _, _) => TransformCompare(e)
    case And(l, r) => And(Transform(l), Transform(r))
    case Or(l, r) => Or(Transform(l), Transform(r))
    case Not(x) => TransformNot(Transform(x))
  }

  /** The negation of an operand that has already been rewritten. */
  function TransformNot(x: Expr): (r: Expr)
    ensures Weight(r) <= 2 * Weight(x)
    decreases 2 * Weight(x), 0
  {
    match x
    case Not(y) => Transform(y)
    case Compare(rel, a, b) => Compare(Opposite(rel), a, b)
    case Or(a, b) => DeMorganWeight(a, b); Transform(And(Not(a), Not(b)))
    case And(a, b) => DeMorganWeight(a, b); Transform(Or(Not(a), Not(b)))
    case Sym(s) =>
      match s
      case SymYes => Sym(SymNo)
      case SymMod => Sym(SymMod)
      case SymNo => Sym(SymYes)
      case _ => Not(x)
  }

  lemma {:induction false} TransformNormal(e: Expr)
    ensures Normal(Transform(e))
    decreases Weight(e), 1
  {
    match e
    case Sym(_) =>
    case Compare(_, _, _) =>
    case And(l, r) => TransformNormal(l); TransformNormal(r);
    case Or(l, r) => TransformNormal(l); TransformNormal(r);
    case Not(x) =>
      TransformNormal(x);
      TransformNotNormal(Transform(x));
  }

  lemma {:induction false} TransformNotNormal(x: Expr)
    requires Normal(x)
    ensures Normal(TransformNot(x))
    decreases 2 * Weight(x), 0
  {
    match x
    case Not(y) => TransformNormal(y);
    case Or(a, b) => DeMorganWeight(a, b); TransformNormal(And(Not(a), Not(b)));
    case And(a, b) => DeMorganWeight(a, b); TransformNormal(Or(Not(a), Not(b)));
    case _ =>
  }

  /** A tree in normal form is left as it is. */
  lemma {:induction false} TransformFixed(e: Expr)
    requires Normal(e)
    ensures Transform(e) == e
  {
    if IsJunction(e) {
      TransformFixed(e.l);
      TransformFixed(e.r);
    }
  }

  lemma TransformIdempotent(e: Expr)
    ensures Transform(Transform(e)) == Transform(e)
  {
    TransformNormal(e);
    TransformFixed(Transform(e));
  }

  /** Two-valued bool symbols and consistent comparisons are all that the rewriting
      needs to keep the value. */
  lemma {:induction false} TransformValue(e: Expr, env: Env)
    requires ConstantsFixed(env) && BoolsTwoValued(env) && TypedAgree(env) && AllOrdered(env)
    ensures Eval(Transform(e), env) == Eval(e, env)
    decreases Weight(e), 1
  {
    match e
    case Sym(_) =>
    case Compare(_, a, _) => assert a.Type() == Boolean ==> a.Typed();
    case And(l, r) => TransformValue(l, env); TransformValue(r, env);
    case Or(l, r) => TransformValue(l, env); TransformValue(r, env);
    case Not(x) =>
      TransformValue(x, env);
      TransformNotValue(Transform(x), env);
  }

  lemma {:induction false} TransformNotValue(x: Expr, env: Env)
    requires ConstantsFixed(env) && BoolsTwoValued(env) && TypedAgree(env) && AllOrdered(env)
    ensures Eval(TransformNot(x), env) == 2 - Eval(x, env)
    decreases 2 * Weight(x), 0
  {
    match x
    case Not(y) => TransformValue(y, env);
    case Or(a, b) => DeMorganWeight(a, b); TransformValue(And(Not(a), Not(b)), env);
    case And(a, b) => DeMorganWeight(a, b); TransformValue(Or(Not(a), Not(b)), env);
    case _ =>
  }

  lemma {:induction false} TransformConstants(e: Expr)
    ensures Constants(Transform(e)) <= Constants(e)
    decreases Weight(e), 1
  {
    match e
    case And(l, r) => TransformConstants(l); TransformConstants(r);
    case Or(l, r) => TransformConstants(l); TransformConstants(r);
    case Not(x) =>
      TransformConstants(x);
      TransformNotConstants(Transform(x));
    case _ =>
  }

  lemma {:induction false} TransformNotConstants(x: Expr)
    ensures Constants(TransformNot(x)) <= Constants(x)
    decreases 2 * Weight(x), 0
  {
    match x
    case Not(y) => TransformConstants(y);
    case Or(a, b) => DeMorganWeight(a, b); TransformConstants(And(Not(a), Not(b)));
    case And(a, b) => DeMorganWeight(a, b); TransformConstants(Or(Not(a), Not(b)));
    case _ =>
  }

  /** The ordering relations are not each other's negation on a pair that cannot be
      ordered: there both a < b and its rewritten negation a >= b are n. */
  lemma NegatedOrderNeedsOrder(a: Symbol, b: Symbol, env: Env)
    ensures Eval(Transform(Not(Compare(Less, a, b))), env) == Eval(Not(Compare(Less, a, b)), env)
      <==> env.cmp(a, b).ordered
  {
  }

  /** The rewriting at a place of a tree. */
  method TransformAt(t: Tree, p: Path)
    requires ValidPath(t.root, p)
    modifies t
    ensures t.root == Put(old(t.root), p, Transform(At(old(t.root), p)))
    decreases Weight(At(t.root, p)), 1
  {
    ghost var was := t.root;
    var e := At(t.root, p);
    PutAt(was, p, e);
    match e {
      case Sym(_) =>
      case Compare(_, _, _) =>
        t.root := Put(t.root, p, TransformCompare(e));
      case Not(x) =>
        BelowStep(was, p, Left);
        TransformAt(t, p + [Left]);
        PutAt(was, p, Not(Transform(x)));
        TransformNotAt(t, p);
      case _ =>
        var op := OpOf(e);
        BelowStep(was, p, Left);
        TransformAt(t, p + [Left]);
        PutSteps(op, was, p, Transform(e.l), Transform(e.r));
        TransformAt(t, p + [Right]);
    }
  }

  /** The place holds a negation whose operand has been rewritten. */
  method TransformNotAt(t: Tree, p: Path)
    requires ValidPath(t.root, p) && At(t.root, p).Not?
    modifies t
    ensures t.root == Put(old(t.root), p, TransformNot(At(old(t.root), p).e))
    decreases Weight(At(t.root, p)), 0
  {
    ghost var was := t.root;
    var x := At(t.root, p).e;
    PutAt(was, p, At(was, p));
    assert Weight(At(was, p)) == 2 * Weight(x);
    match x {
      case Not(y) =>
        t.root := Put(t.root, p, y);
        PutAt(was, p, y);
        TransformAt(t, p);
      case Compare(rel, a, b) =>
        t.root := Put(t.root, p, Compare(Opposite(rel), a, b));
      case Or(a, b) =>
        DeMorganWeight(a, b);
        t.root := Put(t.root, p, And(Not(a), Not(b)));
        PutAt(was, p, And(Not(a), Not(b)));
        TransformAt(t, p);
      case And(a, b) =>
        DeMorganWeight(a, b);
        t.root := Put(t.root, p, Or(Not(a), Not(b)));
        PutAt(was, p, Or(Not(a), Not(b)));
        TransformAt(t, p);
      case Sym(s) =>
        if s == SymYes {
          t.root := Put(t.root, p, Sym(SymNo));
        } else if s == SymMod {
          t.root := Put(t.root, p, Sym(SymMod));
        } else if s == SymNo {
          t.root := Put(t.root, p, Sym(SymYes));
        }
    }
  }
}
