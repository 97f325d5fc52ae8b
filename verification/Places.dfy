/** Places inside an expression tree, and what overwriting a place does. */
module Places {
  import opened Exprs
  import opened Simplify

  datatype Step = Left | Right

  /** A pointer to a child pointer: the steps from the root to the child. */
  type Path = seq<Step>

  predicate HasChild(e: Expr, s: Step) {
    IsJunction(e) || (e.Not? && s == Left)
  }

  function Child(e: Expr, s: Step): (c: Expr)
    requires HasChild(e, s)
    ensures Size(c) < Size(e)
  {
    if e.Not? then e.e else if s == Left then e.l else e.r
  }

  function SetChild(e: Expr, s: Step, x: Expr): Expr
    requires HasChild(e, s)
  {
    match e
    case Not(_) => Not(x)
    case And(l, r) => if s == Left then And(x, r) else And(l, x)
    case Or(l, r) => if s == Left then Or(x, r) else Or(l, x)
  }

  predicate ValidPath(e: Expr, p: Path) {
    p == [] || (HasChild(e, p[0]) && ValidPath(Child(e, p[0]), p[1..]))
  }

  function At(e: Expr, p: Path): Expr
    requires ValidPath(e, p)
  {
    if p == [] then e else At(Child(e, p[0]), p[1..])
  }

  function Put(e: Expr, p: Path, x: Expr): Expr
    requires ValidPath(e, p)
  {
    if p == [] then x else SetChild(e, p[0], Put(Child(e, p[0]), p[1..], x))
  }

  /** A path below another one is valid, read and written through it. */
  lemma {:induction false} Below(e: Expr, p: Path, q: Path)
    requires ValidPath(e, p)
    ensures ValidPath(e, p + q) <==> ValidPath(At(e, p), q)
    ensures ValidPath(e, p + q) ==> At(e, p + q) == At(At(e, p), q)
    ensures ValidPath(e, p + q) ==> forall x :: Put(e, p + q, x) == Put(e, p, Put(At(e, p), q, x))
  {
    if p == [] {
      assert p + q == q;
    } else {
      assert (p + q)[0] == p[0] && (p + q)[1..] == p[1..] + q;
      Below(Child(e, p[0]), p[1..], q);
    }
  }

  /** The same for a single step. */
  lemma BelowStep(e: Expr, p: Path, s: Step)
    requires ValidPath(e, p) && HasChild(At(e, p), s)
    ensures ValidPath(e, p + [s])
    ensures At(e, p + [s]) == Child(At(e, p), s)
    ensures forall x :: Put(e, p + [s], x) == Put(e, p, SetChild(At(e, p), s, x))
  {
    Below(e, p, [s]);
    assert [s][1..] == [];
    forall x
      ensures Put(e, p + [s], x) == Put(e, p, SetChild(At(e, p), s, x))
    {
      assert Put(At(e, p), [s], x) == SetChild(At(e, p), s, Put(Child(At(e, p), s), [], x));
    }
  }

  /** Reading back what was written, and writing twice. */
  lemma {:induction false} PutAt(e: Expr, p: Path, x: Expr)
    requires ValidPath(e, p)
    ensures ValidPath(Put(e, p, x), p)
    ensures At(Put(e, p, x), p) == x
    ensures forall y :: Put(Put(e, p, x), p, y) == Put(e, p, y)
    ensures Put(e, p, At(e, p)) == e
  {
    if p != [] {
      PutAt(Child(e, p[0]), p[1..], x);
    }
  }

  /** Writing the left and then the right operand of a junction. */
  lemma PutSteps(op: Op, e: Expr, p: Path, l: Expr, r: Expr)
    requires ValidPath(e, p) && IsOp(op, At(e, p))
    ensures ValidPath(e, p + [Left]) && ValidPath(Put(e, p + [Left], l), p + [Right])
    ensures At(Put(e, p + [Left], l), p + [Right]) == At(e, p).r
    ensures Put(Put(e, p + [Left], l), p + [Right], r) == Put(e, p, Make(op, l, r))
  {
    var half := SetChild(At(e, p), Left, l);
    BelowStep(e, p, Left);
    PutAt(e, p, half);
    BelowStep(Put(e, p, half), p, Right);
  }

  /** A change that keeps the value of a place keeps the value of the whole tree,
      and the size of the tree follows the size of the place. */
  lemma {:induction false} PutCongruence(e: Expr, p: Path, x: Expr, env: Env)
    requires ValidPath(e, p)
    ensures Eval(x, env) == Eval(At(e, p), env) ==> Eval(Put(e, p, x), env) == Eval(e, env)
    ensures Size(Put(e, p, x)) == Size(e) - Size(At(e, p)) + Size(x)
  {
    if p != [] {
      PutCongruence(Child(e, p[0]), p[1..], x, env);
    }
  }

  lemma {:induction false} PutNormal(op: Op, e: Expr, p: Path, x: Expr)
    requires SpinePath(op, e, p) && ValidPath(e, p) && Normal(e)
    ensures Normal(At(e, p))
    ensures Normal(x) ==> Normal(Put(e, p, x))
  {
    if p != [] {
      PutNormal(op, Child(e, p[0]), p[1..], x);
    }
  }

  /* ----- places at one level of && or || ----- */

  /** Every node above the place is an op node. */
  predicate SpinePath(op: Op, e: Expr, s: Path) {
    s == [] || (IsOp(op, e) && SpinePath(op, Child(e, s[0]), s[1..]))
  }

  lemma {:induction false} SpineValid(op: Op, e: Expr, s: Path)
    requires SpinePath(op, e, s)
    ensures ValidPath(e, s)
  {
    if s != [] {
      SpineValid(op, Child(e, s[0]), s[1..]);
    }
  }

  /** The place holds an operand at the level of op. */
  ghost predicate LeafPath(op: Op, e: Expr, s: Path) {
    SpinePath(op, e, s) && ValidPath(e, s) && !IsOp(op, At(e, s))
  }

  lemma {:induction false} SpineBelow(op: Op, e: Expr, s: Path, t: Path)
    requires SpinePath(op, e, s) && ValidPath(e, s)
    ensures SpinePath(op, e, s + t) <==> SpinePath(op, At(e, s), t)
  {
    if s == [] {
      assert s + t == t;
    } else {
      assert (s + t)[0] == s[0] && (s + t)[1..] == s[1..] + t;
      SpineBelow(op, Child(e, s[0]), s[1..], t);
    }
  }

  /** The two trees have the same op nodes above their operands. */
  predicate SameSpine(op: Op, a: Expr, b: Expr) {
    if IsOp(op, a) then IsOp(op, b) && SameSpine(op, a.l, b.l) && SameSpine(op, a.r, b.r)
    else !IsOp(op, b)
  }

  lemma {:induction false} SameSpineRefl(op: Op, a: Expr)
    ensures SameSpine(op, a, a)
  {
    if IsOp(op, a) {
      SameSpineRefl(op, a.l);
      SameSpineRefl(op, a.r);
    }
  }

  lemma {:induction false} SameSpineTrans(op: Op, a: Expr, b: Expr, c: Expr)
    requires SameSpine(op, a, b) && SameSpine(op, b, c)
    ensures SameSpine(op, a, c)
  {
    if IsOp(op, a) {
      SameSpineTrans(op, a.l, b.l, c.l);
      SameSpineTrans(op, a.r, b.r, c.r);
    }
  }

  /** Places on the spine stay places on the spine, of the same kind. */
  lemma {:induction false} SameSpinePath(op: Op, a: Expr, b: Expr, s: Path)
    requires SameSpine(op, a, b) && SpinePath(op, a, s)
    ensures ValidPath(a, s) && ValidPath(b, s) && SpinePath(op, b, s)
    ensures SameSpine(op, At(a, s), At(b, s))
  {
    if s != [] {
      SameSpinePath(op, Child(a, s[0]), Child(b, s[0]), s[1..]);
    }
  }

  /** Number of op nodes and operands of a level. */
  ghost function SpineSize(op: Op, e: Expr): (n: nat)
    ensures n >= 1
  {
    if IsOp(op, e) then 1 + SpineSize(op, e.l) + SpineSize(op, e.r) else 1
  }

  lemma {:induction false} SameSpineSize(op: Op, a: Expr, b: Expr)
    requires SameSpine(op, a, b)
    ensures SpineSize(op, a) == SpineSize(op, b)
  {
    if IsOp(op, a) {
      SameSpineSize(op, a.l, b.l);
      SameSpineSize(op, a.r, b.r);
    }
  }

  /** What the operands other than the one at s contribute. */
  ghost function Rest(op: Op, e: Expr, s: Path, env: Env): Tristate
    requires SpinePath(op, e, s)
  {
    if s == [] then NeutralValue(op)
    else if s[0] == Left then Apply(op, Rest(op, e.l, s[1..], env), Eval(e.r, env))
    else Apply(op, Rest(op, e.r, s[1..], env), Eval(e.l, env))
  }

  /** Replacing one operand by another that is not an op node. */
  lemma {:induction false} PutOperand(op: Op, e: Expr, s: Path, x: Expr)
    requires LeafPath(op, e, s) && !IsOp(op, x)
    ensures SameSpine(op, e, Put(e, s, x))
    ensures Size(Put(e, s, x)) == Size(e) - Size(At(e, s)) + Size(x)
    ensures s != [] && x == Neutral(op) ==> HasConstantOperand(Put(e, s, x))
  {
    if s == [] {
    } else if s[0] == Left {
      PutOperand(op, e.l, s[1..], x);
      SameSpineRefl(op, e.r);
    } else {
      PutOperand(op, e.r, s[1..], x);
      SameSpineRefl(op, e.l);
    }
  }

  lemma ApplyAssociative(op: Op, a: Tristate, b: Tristate, c: Tristate)
    ensures Apply(op, Apply(op, a, b), c) == Apply(op, a, Apply(op, b, c))
    ensures Apply(op, c, Apply(op, a, b)) == Apply(op, a, Apply(op, b, c))
    ensures Apply(op, a, NeutralValue(op)) == a
  {
  }

  lemma {:induction false} PutOperandValue(op: Op, e: Expr, s: Path, x: Expr, env: Env)
    requires SpinePath(op, e, s) && ValidPath(e, s)
    ensures Eval(Put(e, s, x), env) == Apply(op, Eval(x, env), Rest(op, e, s, env))
  {
    if s == [] {
      ApplyAssociative(op, Eval(x, env), NO, NO);
    } else {
      var c := Child(e, s[0]);
      PutOperandValue(op, c, s[1..], x, env);
      var c' := Put(c, s[1..], x);
      var other := if s[0] == Left then e.r else e.l;
      ApplyAssociative(op, Eval(x, env), Rest(op, c, s[1..], env), Eval(other, env));
      if s[0] == Left {
        assert Put(e, s, x) == Make(op, c', other);
        EvalMake(op, c', other, env);
      } else {
        assert Put(e, s, x) == Make(op, other, c');
        EvalMake(op, other, c', env);
      }
    }
  }

  lemma {:induction false} OperandValue(op: Op, e: Expr, s: Path, env: Env)
    requires SpinePath(op, e, s) && ValidPath(e, s)
    ensures Eval(e, env) == Apply(op, Eval(At(e, s), env), Rest(op, e, s, env))
  {
    PutOperandValue(op, e, s, At(e, s), env);
    PutAt(e, s, At(e, s));
  }

  /** The tree after a join: the operand at s becomes neutral and the one at t
      becomes x. */
  function Joined(op: Op, e: Expr, s: Path, t: Path, x: Expr): Expr
    requires ValidPath(e, s)
    requires ValidPath(Put(e, s, Neutral(op)), t)
  {
    Put(Put(e, s, Neutral(op)), t, x)
  }

  /** Writing one operand leaves a different operand of the same level alone. */
  lemma {:induction false} OtherOperand(op: Op, e: Expr, s: Path, t: Path, x: Expr)
    requires LeafPath(op, e, s) && LeafPath(op, e, t) && s != t && !IsOp(op, x)
    ensures LeafPath(op, Put(e, s, x), t) && At(Put(e, s, x), t) == At(e, t)
  {
    if s == [] || t == [] {
    } else {
      var c := Child(e, s[0]);
      if s[0] == t[0] {
        OtherOperand(op, c, s[1..], t[1..], x);
      } else {
        PutOperand(op, c, s[1..], x);
        SpineValid(op, Child(e, t[0]), t[1..]);
      }
    }
  }

  /** Neither operand contributes to what is left beside both, so replacing both
      by a pair with the same combined value keeps the whole value. */
  lemma {:induction false} JoinedValue(op: Op, e: Expr, s: Path, t: Path, x: Expr, env: Env)
    requires ConstantsFixed(env)
    requires LeafPath(op, e, s) && LeafPath(op, e, t) && s != t
    requires ValidPath(Put(e, s, Neutral(op)), t)
    requires Eval(x, env) == Apply(op, Eval(At(e, s), env), Eval(At(e, t), env))
    ensures Eval(Joined(op, e, s, t, x), env) == Eval(e, env)
  {
    if s == [] || t == [] {
      assert false;
    } else if s[0] == t[0] {
      JoinedValue(op, Child(e, s[0]), s[1..], t[1..], x, env);
    } else {
      var c, d := Child(e, s[0]), Child(e, t[0]);
      PutOperandValue(op, c, s[1..], Neutral(op), env);
      PutOperandValue(op, d, t[1..], x, env);
      OperandValue(op, c, s[1..], env);
      OperandValue(op, d, t[1..], env);
      JoinedApart(op, Eval(At(e, s), env), Eval(At(e, t), env), Rest(op, c, s[1..], env), Rest(op, d, t[1..], env));
      var c', d' := Put(c, s[1..], Neutral(op)), Put(d, t[1..], x);
      if s[0] == Left {
        assert e == Make(op, c, d) && Joined(op, e, s, t, x) == Make(op, c', d');
        EvalMake(op, c, d, env);
        EvalMake(op, c', d', env);
      } else {
        assert e == Make(op, d, c) && Joined(op, e, s, t, x) == Make(op, d', c');
        EvalMake(op, d, c, env);
        EvalMake(op, d', c', env);
      }
    }
  }

  /** A join puts the constant at the first of the two places and what they are joined into at
      the second, and every other operand of the level stays where it is. */
  lemma JoinedPlaces(op: Op, e: Expr, s: Path, t: Path, x: Expr, u: Path)
    requires LeafPath(op, e, s) && LeafPath(op, e, t) && LeafPath(op, e, u) && s != t && !IsOp(op, x)
    requires ValidPath(Put(e, s, Neutral(op)), t)
    ensures LeafPath(op, Joined(op, e, s, t, x), u)
    ensures At(Joined(op, e, s, t, x), u) == if u == t then x else if u == s then Neutral(op) else At(e, u)
  {
    var e1 := Put(e, s, Neutral(op));
    OtherOperand(op, e, s, t, Neutral(op));
    PutAt(e, s, Neutral(op));
    SpineKept(op, e, s, Neutral(op), u);
    SpineKept(op, e1, t, x, u);
    if u != s {
      OtherOperand(op, e, s, u, Neutral(op));
    }
    if u == t {
      PutAt(e1, t, x);
    } else {
      OtherOperand(op, e1, t, u, x);
    }
  }

  /** Operands are where they were. */
  lemma SpineKept(op: Op, e: Expr, s: Path, x: Expr, u: Path)
    requires LeafPath(op, e, s) && LeafPath(op, e, u) && !IsOp(op, x)
    ensures LeafPath(op, Put(e, s, x), u)
  {
    PutOperand(op, e, s, x);
    SameSpinePath(op, e, Put(e, s, x), u);
  }

  lemma JoinedApart(op: Op, a: Tristate, b: Tristate, restA: Tristate, restB: Tristate)
    ensures Apply(op, Apply(op, NeutralValue(op), restA), Apply(op, Apply(op, a, b), restB))
         == Apply(op, Apply(op, a, restA), Apply(op, b, restB))
    ensures Apply(op, Apply(op, Apply(op, a, b), restB), Apply(op, NeutralValue(op), restA))
         == Apply(op, Apply(op, b, restB), Apply(op, a, restA))
  {
  }

  lemma JoinShape(op: Op, a: Expr, b: Expr)
    requires Join(op, a, b).Some? && !IsOp(op, a)
    ensures !IsOp(op, Join(op, a, b).value)
  {
  }

  /** A join at one level keeps the level's shape, does not grow the tree, brings in no
      new constants and leaves a constant operand behind. */
  lemma {:induction false} JoinedCorrect(op: Op, e: Expr, s: Path, t: Path)
    requires LeafPath(op, e, s) && LeafPath(op, e, t) && s != t
    requires Join(op, At(e, s), At(e, t)).Some?
    ensures ValidPath(Put(e, s, Neutral(op)), t)
    ensures var e' := Joined(op, e, s, t, Join(op, At(e, s), At(e, t)).value);
            && SameSpine(op, e, e') && Size(e') <= Size(e) && HasConstantOperand(e')
            && Constants(e') <= Constants(e) && (Normal(e) ==> Normal(e'))
  {
    var n, x := Neutral(op), Join(op, At(e, s), At(e, t)).value;
    var e1 := Put(e, s, n);
    JoinShape(op, At(e, s), At(e, t));
    JoinSize(op, At(e, s), At(e, t));
    OtherOperand(op, e, s, t, n);
    PutOperand(op, e, s, n);
    PutOperand(op, e1, t, x);
    SameSpineTrans(op, e, e1, Put(e1, t, x));
    ConstantSurvives(op, e, s, t, x);
    JoinConstants(op, At(e, s), At(e, t));
    PutConstants(e, s, n);
    PutConstants(e, t, n);
    PutConstants(e1, t, x);
    if Normal(e) {
      PutNormal(op, e, s, n);
      PutNormal(op, e, t, n);
      JoinNormal(op, At(e, s), At(e, t));
      PutNormal(op, e1, t, x);
    }
  }

  /** It keeps the value, unless a tristate symbol equals two of the constants. */
  lemma {:induction false} JoinedSound(op: Op, e: Expr, s: Path, t: Path, env: Env)
    requires LeafPath(op, e, s) && LeafPath(op, e, t) && s != t
    requires Join(op, At(e, s), At(e, t)).Some?
    requires WellFormed(env) && ConstantsDistinct(Constants(e), env)
    ensures ValidPath(Put(e, s, Neutral(op)), t)
    ensures Eval(Joined(op, e, s, t, Join(op, At(e, s), At(e, t)).value), env) == Eval(e, env)
  {
    JoinedCorrect(op, e, s, t);
    PutConstants(e, s, Sym(SymYes));
    PutConstants(e, t, Sym(SymYes));
    DistinctFewer(Constants(At(e, s)) + Constants(At(e, t)), Constants(e), env);
    JoinSound(op, At(e, s), At(e, t), env);
    JoinedValue(op, e, s, t, Join(op, At(e, s), At(e, t)).value, env);
  }

  lemma {:induction false} PutConstants(e: Expr, p: Path, x: Expr)
    requires ValidPath(e, p)
    ensures Constants(At(e, p)) <= Constants(e)
    ensures Constants(Put(e, p, x)) <= Constants(e) + Constants(x)
  {
    if p != [] {
      PutConstants(Child(e, p[0]), p[1..], x);
    }
  }

  lemma {:induction false} ConstantSurvives(op: Op, e: Expr, s: Path, t: Path, x: Expr)
    requires LeafPath(op, e, s) && LeafPath(op, e, t) && s != t
    requires ValidPath(Put(e, s, Neutral(op)), t)
    ensures HasConstantOperand(Joined(op, e, s, t, x))
  {
    if s == [] || t == [] {
      assert false;
    } else if s[0] == t[0] {
      ConstantSurvives(op, Child(e, s[0]), s[1..], t[1..], x);
    } else {
      PutOperand(op, Child(e, s[0]), s[1..], Neutral(op));
    }
  }
}
