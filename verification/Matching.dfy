/** When two expressions are found equal: at every level their operands must match one to one. */
module Matching {
  import opened Exprs
  import opened Simplify

  /** An expression up to the order and grouping of the operands at each level, each
      operand as often as it occurs. */
  datatype Form = Atom(e: Expr) | Negated(f: Form) | Level(op: Op, operands: multiset<Form>)

  function Canon(e: Expr): Form
    decreases e, 0
  {
    if e.Not? then Negated(Canon(e.e))
    else if e.And? then Level(AndOp, Operands(AndOp, e.l) + Operands(AndOp, e.r))
    else if e.Or? then Level(OrOp, Operands(OrOp, e.l) + Operands(OrOp, e.r))
    else Atom(e)
  }

  /** The operands at the level of op, as often as they occur. */
  function Operands(op: Op, e: Expr): multiset<Form>
    decreases e, 1
  {
    if IsOp(op, e) then Operands(op, e.l) + Operands(op, e.r) else multiset{Canon(e)}
  }

  predicate YesOrNo(e: Expr) {
    e == Sym(SymYes) || e == Sym(SymNo)
  }

  /** No conjunction or disjunction anywhere has y or n as an operand. */
  predicate Clean(e: Expr) {
    match e
    case Not(x) => Clean(x)
    case And(l, r) => Clean(l) && Clean(r) && !YesOrNo(l) && !YesOrNo(r)
    case Or(l, r) => Clean(l) && Clean(r) && !YesOrNo(l) && !YesOrNo(r)
    case _ => true
  }

  /* ----- cancellation leaves the difference ----- */

  /** The operands without the constant that the operator absorbs. */
  function Proper(op: Op, e: Expr): multiset<Form> {
    if IsOp(op, e) then Proper(op, e.l) + Proper(op, e.r)
    else if e == Neutral(op) then multiset{}
    else multiset{Canon(e)}
  }

  /** All operands are clean, and none is the constant that decides the junction. */
  predicate Flat(op: Op, e: Expr) {
    if IsOp(op, e) then Flat(op, e.l) && Flat(op, e.r)
    else Clean(e) && (YesOrNo(e) ==> e == Neutral(op))
  }

  lemma {:induction false} CleanFlat(op: Op, e: Expr)
    requires Clean(e) && !YesOrNo(e)
    ensures Flat(op, e) && Proper(op, e) == Operands(op, e)
  {
    if IsOp(op, e) {
      CleanFlat(op, e.l);
      CleanFlat(op, e.r);
    }
  }

  lemma CancelParts<T>(a1: multiset<T>, a2: multiset<T>, b: multiset<T>)
    ensures (a1 - b) + (a2 - (b - a1)) == (a1 + a2) - b
    ensures (b - a1) - a2 == b - (a1 + a2)
  {
  }

  /** Cancellation leaves of either side the operands that the other has not as often. */
  lemma {:induction false} CancelDifference(op: Op, a: Expr, b: Expr)
    requires Flat(op, a) && Flat(op, b)
    ensures var (x, y) := CancelWalk(op, a, b);
      && Flat(op, x) && Flat(op, y)
      && Proper(op, x) == Proper(op, a) - Proper(op, b)
      && Proper(op, y) == Proper(op, b) - Proper(op, a)
    decreases Size(a) + Size(b), if IsOp(op, a) || IsOp(op, b) then 1 else 4
  {
    hide ExprEq, Clean, Canon;
    if IsOp(op, a) {
      var (l, b1) := CancelWalk(op, a.l, b);
      var (r, b2) := CancelWalk(op, a.r, b1);
      CancelDifference(op, a.l, b);
      CancelDifference(op, a.r, b1);
      assert CancelWalk(op, a, b) == (Make(op, l, r), b2);
      MakeFlat(op, l, r);
      CancelParts(Proper(op, a.l), Proper(op, a.r), Proper(op, b));
    } else if IsOp(op, b) {
      var (a1, l) := CancelWalk(op, a, b.l);
      var (a2, r) := CancelWalk(op, a1, b.r);
      CancelDifference(op, a, b.l);
      CancelDifference(op, a1, b.r);
      assert CancelWalk(op, a, b) == (a2, Make(op, l, r));
      MakeFlat(op, l, r);
      CancelParts(Proper(op, b.l), Proper(op, b.r), Proper(op, a));
    } else {
      EqualJustMatching(a, b);
      OperandDifference(op, a, b);
    }
  }

  lemma NeutralOnly(op: Op, e: Expr)
    requires !IsOp(op, e)
    ensures Proper(op, e) == Singly(Canon(e), Atom(Neutral(op)))
    ensures Canon(e) == Atom(Neutral(op)) <==> e == Neutral(op)
  {
  }

  /** Removing at most one operand from at most one; the form z counts for nothing. */
  lemma SingleDifference(a: Form, b: Form, z: Form)
    ensures var A, B := Singly(a, z), Singly(b, z);
      A - B == if a == b then multiset{} else A
  {
  }

  function Singly(a: Form, z: Form): multiset<Form> {
    if a == z then multiset{} else multiset{a}
  }

  lemma NeutralSym(op: Op)
    ensures Neutral(op).Sym?
  {
  }

  lemma NeutralFlat(op: Op)
    ensures Flat(op, Neutral(op)) && Proper(op, Neutral(op)) == multiset{}
  {
    assert !IsOp(op, Neutral(op));
  }

  lemma OperandDifference(op: Op, a: Expr, b: Expr)
    requires Flat(op, a) && Flat(op, b) && !IsOp(op, a) && !IsOp(op, b)
    requires ExprEq(a, b) <==> Canon(a) == Canon(b)
    ensures var (x, y) := CancelWalk(op, a, b);
      && Flat(op, x) && Flat(op, y)
      && Proper(op, x) == Proper(op, a) - Proper(op, b)
      && Proper(op, y) == Proper(op, b) - Proper(op, a)
  {
    hide *;
    var z := Atom(Neutral(op));
    NeutralOnly(op, a);
    NeutralOnly(op, b);
    NeutralFlat(op);
    SingleDifference(Canon(a), Canon(b), z);
    SingleDifference(Canon(b), Canon(a), z);
    OperandsCancel(op, a, b);
  }

  /** Two operands are replaced when equal, unless both are the neutral constant already. */
  lemma OperandsCancel(op: Op, a: Expr, b: Expr)
    requires Flat(op, a) && Flat(op, b) && !IsOp(op, a) && !IsOp(op, b)
    requires ExprEq(a, b) <==> Canon(a) == Canon(b)
    ensures CancelWalk(op, a, b) == if Canon(a) == Canon(b) then (Neutral(op), Neutral(op)) else (a, b)
  {
    hide ExprEq, Canon;
  }

  lemma MakeFlat(op: Op, l: Expr, r: Expr)
    ensures Flat(op, Make(op, l, r)) <==> Flat(op, l) && Flat(op, r)
    ensures Proper(op, Make(op, l, r)) == Proper(op, l) + Proper(op, r)
  {
    assert IsOp(op, Make(op, l, r));
  }

  lemma SameDifference<T>(a: multiset<T>, b: multiset<T>)
    ensures a - b == b - a ==> a == b
  {
    if a - b == b - a {
      forall x: T
        ensures a[x] == b[x]
      {
        assert (a - b)[x] == (b - a)[x];
      }
    }
  }

  /** Where there are no constants, nothing is eliminated. */
  lemma {:induction false} CleanKept(e: Expr)
    requires Clean(e)
    ensures EliminateYn(e) == e
  {
    if e.And? || e.Or? {
      CleanKept(e.l);
      CleanKept(e.r);
    }
  }

  lemma EliminateIs(op: Op, e: Expr)
    requires IsOp(op, e) && Flat(op, EliminateYn(e.l)) && Flat(op, EliminateYn(e.r))
    ensures var l, r := EliminateYn(e.l), EliminateYn(e.r);
      EliminateYn(e) == if l == Neutral(op) then r else if r == Neutral(op) then l else Make(op, l, r)
  {
    hide Clean, Canon, Proper;
  }

  lemma EliminateLevel(op: Op, e: Expr)
    requires IsOp(op, e)
    requires var l, r := EliminateYn(e.l), EliminateYn(e.r);
      && Flat(op, l) && Flat(op, r)
      && (l == Neutral(op) <==> Proper(op, l) == multiset{})
      && (r == Neutral(op) <==> Proper(op, r) == multiset{})
    ensures var l, r, x := EliminateYn(e.l), EliminateYn(e.r), EliminateYn(e);
      && Flat(op, x) && Proper(op, x) == Proper(op, l) + Proper(op, r)
      && (x == Neutral(op) <==> Proper(op, x) == multiset{})
  {
    hide EliminateYn, Clean, Canon, Proper, Flat;
    EliminateIs(op, e);
    MakeFlat(op, EliminateYn(e.l), EliminateYn(e.r));
  }

  /** Elimination of constants drops only these. */
  lemma {:induction false} EliminateProper(op: Op, e: Expr)
    requires Flat(op, e)
    ensures var x := EliminateYn(e); Flat(op, x) && Proper(op, x) == Proper(op, e)
    ensures EliminateYn(e) == Neutral(op) <==> Proper(op, e) == multiset{}
  {
    hide Clean, Canon;
    if IsOp(op, e) {
      EliminateProper(op, e.l);
      EliminateProper(op, e.r);
      EliminateLevel(op, e);
    } else {
      CleanKept(e);
    }
  }

  /* ----- the main result ----- */

  /** Two expressions are found equal just when at every level, at any depth, they have
      the same operands, each as often. */
  lemma {:induction false} EqualJustMatching(a: Expr, b: Expr)
    requires Clean(a) && Clean(b)
    ensures ExprEq(a, b) <==> Canon(a) == Canon(b)
    decreases Size(a) + Size(b), 3
  {
    if a.Not? && b.Not? {
      EqualJustMatching(a.e, b.e);
    } else if IsJunction(a) && IsJunction(b) && OpOf(a) == OpOf(b) {
      var op := OpOf(a);
      CleanFlat(op, a);
      CleanFlat(op, b);
      CancelDifference(op, a, b);
      EqualLevels(op, a, b);
      assert Canon(a) == Level(op, Operands(op, a)) && Canon(b) == Level(op, Operands(op, b));
    }
  }

  lemma {:induction false} EqualLevels(op: Op, a: Expr, b: Expr)
    requires IsOp(op, a) && IsOp(op, b)
    requires Proper(op, a) == Operands(op, a) && Proper(op, b) == Operands(op, b)
    requires var (x, y) := CancelWalk(op, a, b);
      && Flat(op, x) && Flat(op, y)
      && Proper(op, x) == Proper(op, a) - Proper(op, b)
      && Proper(op, y) == Proper(op, b) - Proper(op, a)
    ensures ExprEq(a, b) <==> Operands(op, a) == Operands(op, b)
  {
    var (x, y) := CancelWalk(op, a, b);
    EliminateProper(op, x);
    EliminateProper(op, y);
    EqualRemainders(op, a, b);
    hide *;
    var A, B := Operands(op, a), Operands(op, b);
    SameDifference(A, B);
    if A == B {
      assert A - B == multiset{} && B - A == multiset{};
      assert EliminateYn(x) == Neutral(op) && EliminateYn(y) == Neutral(op);
      NeutralSym(op);
    }
  }

  lemma {:induction false} EqualRemainders(op: Op, a: Expr, b: Expr)
    requires IsOp(op, a) && IsOp(op, b)
    ensures var (x, y) := CancelWalk(op, a, b);
      ExprEq(a, b) <==> EliminateYn(x).Sym? && EliminateYn(y) == EliminateYn(x)
  {
    hide CancelWalk, EliminateYn;
    var (x, y) := CancelWalk(op, a, b);
    assert EliminateEq(a, b) == (EliminateYn(x), EliminateYn(y));
  }

  /* ----- what cancellation leaves ----- */

  /** An expression that is no operand at this level is not touched. */
  lemma {:induction false} NoMatchFirst(op: Op, a: Expr, b: Expr)
    requires !IsOp(op, b) && Clean(a) && Clean(b) && Canon(b) !in Operands(op, a)
    ensures CancelWalk(op, a, b) == (a, b)
  {
    if IsOp(op, a) {
      NoMatchFirst(op, a.l, b);
      NoMatchFirst(op, a.r, b);
    } else {
      EqualJustMatching(a, b);
    }
  }

  lemma {:induction false} NoMatchSecond(op: Op, a: Expr, b: Expr)
    requires !IsOp(op, a) && Clean(a) && Clean(b) && Canon(a) !in Operands(op, b)
    ensures CancelWalk(op, a, b) == (a, b)
  {
    if IsOp(op, b) {
      NoMatchSecond(op, a, b.l);
      NoMatchSecond(op, a, b.r);
    } else {
      EqualJustMatching(a, b);
    }
  }

  /** A junction has at least two operands. */
  lemma {:induction false} SeveralOperands(op: Op, e: Expr)
    ensures |Operands(op, e)| >= if IsOp(op, e) then 2 else 1
  {
    if IsOp(op, e) {
      SeveralOperands(op, e.l);
      SeveralOperands(op, e.r);
    }
  }

  /** What is left at the level of op: of either expression the operands that the other has
      not as often. */
  ghost predicate Remainders(op: Op, a: Expr, b: Expr, p: (Expr, Expr)) {
    && Flat(op, p.0) && Proper(op, p.0) == Operands(op, a) - Operands(op, b) && (p.0 == Neutral(op) <==> Proper(op, p.0) == multiset{})
    && Flat(op, p.1) && Proper(op, p.1) == Operands(op, b) - Operands(op, a) && (p.1 == Neutral(op) <==> Proper(op, p.1) == multiset{})
  }

  /** The level at which two expressions are compared: that of the first, if it is a junction
      and has the second as an operand or is of its kind, else that of the second. */
  function LevelOf(a: Expr, b: Expr): Option<Op> {
    if IsJunction(a) && (!IsJunction(b) || OpOf(a) == OpOf(b) || Canon(b) in Operands(OpOf(a), a)) then Some(OpOf(a))
    else if IsJunction(b) && (!IsJunction(a) || Canon(a) in Operands(OpOf(b), b)) then Some(OpOf(b))
    else None
  }

  lemma LevelCancelled(op: Op, a: Expr, b: Expr)
    requires Clean(a) && Clean(b) && !YesOrNo(a) && !YesOrNo(b)
    ensures var (x, y) := CancelWalk(op, a, b); Remainders(op, a, b, (EliminateYn(x), EliminateYn(y)))
  {
    var (x, y) := CancelWalk(op, a, b);
    CleanFlat(op, a);
    CleanFlat(op, b);
    CancelDifference(op, a, b);
    EliminateProper(op, x);
    EliminateProper(op, y);
    hide CancelWalk, EliminateYn;
  }

  /** A junction of the other kind that is an operand is cancelled as a whole. */
  lemma OnlyOperand(op: Op, a: Expr, b: Expr)
    requires Clean(a) && Clean(b) && !YesOrNo(a) && !YesOrNo(b) && !IsOp(op, b) && Canon(b) in Operands(op, a)
    ensures CancelWalk(op, a, b).1 == Neutral(op) && !IsJunction(Neutral(op))
  {
    CleanFlat(op, a);
    CleanFlat(op, b);
    CancelDifference(op, a, b);
    var y := CancelWalk(op, a, b).1;
    assert !IsOp(op, y);
    hide CancelWalk, ExprEq, Clean, Flat;
    assert Operands(op, b) == multiset{Canon(b)};
    assert Proper(op, y) == multiset{};
  }

  /** Cancellation leaves the differences at that level, and without one changes nothing. */
  lemma EliminateEqExact(a: Expr, b: Expr)
    requires Clean(a) && Clean(b) && !YesOrNo(a) && !YesOrNo(b)
    ensures match LevelOf(a, b)
      case Some(op) => Remainders(op, a, b, EliminateEq(a, b))
      case None => EliminateEq(a, b) == (a, b)
  {
    hide *;
    EliminateEqIs(a, b);
    if IsJunction(a) && IsJunction(b) && OpOf(a) != OpOf(b) {
      EliminateEqMixed(a, b);
    } else if IsJunction(a) {
      LevelCancelled(OpOf(a), a, b);
      LevelOfFirst(a, b);
    } else if IsJunction(b) {
      LevelCancelled(OpOf(b), a, b);
      LevelOfSecond(a, b);
    } else {
      LevelOfNone(a, b);
      CleanKept(a);
      CleanKept(b);
    }
  }

  lemma LevelOfFirst(a: Expr, b: Expr)
    requires IsJunction(a) && (!IsJunction(b) || OpOf(a) == OpOf(b) || Canon(b) in Operands(OpOf(a), a))
    ensures LevelOf(a, b) == Some(OpOf(a))
  {
  }

  lemma LevelOfSecond(a: Expr, b: Expr)
    requires IsJunction(b) && (!IsJunction(a) || (OpOf(a) != OpOf(b) && Canon(b) !in Operands(OpOf(a), a) && Canon(a) in Operands(OpOf(b), b)))
    ensures LevelOf(a, b) == Some(OpOf(b))
  {
  }

  lemma LevelOfNone(a: Expr, b: Expr)
    requires IsJunction(a) ==> IsJunction(b) && OpOf(a) != OpOf(b) && Canon(b) !in Operands(OpOf(a), a)
    requires IsJunction(b) ==> IsJunction(a) && OpOf(a) != OpOf(b) && Canon(a) !in Operands(OpOf(b), b)
    ensures LevelOf(a, b) == None
  {
  }

  /** The walks that are made. */
  lemma EliminateEqIs(a: Expr, b: Expr)
    ensures var (a1, b1) := if IsJunction(a) then CancelWalk(OpOf(a), a, b) else (a, b);
      var (a2, b2) := if IsJunction(b1) && !IsOp(OpOf(b1), a1) then CancelWalk(OpOf(b1), a1, b1) else (a1, b1);
      EliminateEq(a, b) == (EliminateYn(a2), EliminateYn(b2))
    ensures IsJunction(a) ==> var (a1, b1) := CancelWalk(OpOf(a), a, b);
      && IsOp(OpOf(a), a1) && (IsJunction(b) && OpOf(a) == OpOf(b) ==> IsJunction(b1) && IsOp(OpOf(b1), a1))
      && (!IsJunction(b) ==> !IsJunction(b1))
    ensures !IsJunction(a) && IsJunction(b) ==> !IsOp(OpOf(b), a)
    ensures IsJunction(a) && IsJunction(b) && OpOf(a) != OpOf(b) ==> !IsOp(OpOf(b), a) && !IsOp(OpOf(a), b)
  {
    hide ExprEq, EliminateYn;
    if IsJunction(a) && !IsJunction(b) {
      SecondStaysLeaf(OpOf(a), a, b);
    }
  }

  lemma {:induction false} SecondStaysLeaf(op: Op, a: Expr, b: Expr)
    requires !IsJunction(b)
    ensures !IsJunction(CancelWalk(op, a, b).1)
  {
    hide ExprEq;
    if IsOp(op, a) {
      SecondStaysLeaf(op, a.l, b);
      SecondStaysLeaf(op, a.r, CancelWalk(op, a.l, b).1);
    } else {
      assert !IsOp(op, b) && !IsJunction(Neutral(op));
    }
  }

  lemma EliminateEqMixed(a: Expr, b: Expr)
    requires Clean(a) && Clean(b) && !YesOrNo(a) && !YesOrNo(b) && IsJunction(a) && IsJunction(b) && OpOf(a) != OpOf(b)
    ensures match LevelOf(a, b)
      case Some(op) => Remainders(op, a, b, EliminateEq(a, b))
      case None => EliminateEq(a, b) == (a, b)
  {
    hide *;
    var op, other := OpOf(a), OpOf(b);
    EliminateEqIs(a, b);
    if Canon(b) in Operands(op, a) {
      LevelCancelled(op, a, b);
      OnlyOperand(op, a, b);
      LevelOfFirst(a, b);
    } else {
      NoMatchFirst(op, a, b);
      if Canon(a) in Operands(other, b) {
        LevelCancelled(other, a, b);
        LevelOfSecond(a, b);
      } else {
        NoMatchSecond(other, a, b);
        CleanKept(a);
        CleanKept(b);
        LevelOfNone(a, b);
      }
    }
  }

  /** All of b is cancelled against a just when a is a conjunction that has every conjunct of
      b, as often; or b was y already. */
  lemma CancelledExact(a: Expr, b: Expr)
    requires Clean(a) && Clean(b)
    ensures EliminateEq(a, b).1 == Sym(SymYes) <==> b == Sym(SymYes) || (a.And? && Operands(AndOp, b) <= Operands(AndOp, a))
  {
    if YesOrNo(a) || YesOrNo(b) {
      ConstantKept(a, b);
      if YesOrNo(b) && !YesOrNo(a) {
        NoConstantOperand(AndOp, a, b);
      }
    } else {
      EliminateEqExact(a, b);
      CancelledAtLevel(a, b, EliminateEq(a, b));
    }
  }

  lemma CancelledAtLevel(a: Expr, b: Expr, p: (Expr, Expr))
    requires !YesOrNo(b)
    requires match LevelOf(a, b)
      case Some(op) => Remainders(op, a, b, p)
      case None => p == (a, b)
    ensures p.1 == Sym(SymYes) <==> a.And? && Operands(AndOp, b) <= Operands(AndOp, a)
  {
    LevelOfOr(a, b);
    hide *;
    SeveralOperands(AndOp, b);
    OneOperand(AndOp, a);
    if LevelOf(a, b) == Some(AndOp) {
      RemainderEmpty(a, b, p);
      if Operands(AndOp, b) <= Operands(AndOp, a) {
        FewerOperands(Operands(AndOp, b), Operands(AndOp, a));
      }
    } else if LevelOf(a, b) == Some(OrOp) {
      RemainderNotYes(a, b, p);
    }
  }

  lemma OneOperand(op: Op, e: Expr)
    ensures !IsOp(op, e) ==> |Operands(op, e)| == 1
  {
  }

  lemma LevelOfOr(a: Expr, b: Expr)
    requires !YesOrNo(b)
    ensures b != Sym(SymYes)
    ensures LevelOf(a, b) != Some(AndOp) ==> !(a.And? && Operands(AndOp, b) <= Operands(AndOp, a))
    ensures LevelOf(a, b) == Some(AndOp) ==> IsOp(AndOp, a) || IsOp(AndOp, b)
    ensures IsOp(AndOp, a) == a.And?
  {
    hide Canon;
    assert !b.And? ==> Operands(AndOp, b) == multiset{Canon(b)};
    assert LevelOf(a, b) != Some(AndOp) && a.And? ==> !b.And? && Canon(b) !in Operands(AndOp, a);
  }

  lemma RemainderEmpty(a: Expr, b: Expr, p: (Expr, Expr))
    requires Remainders(AndOp, a, b, p)
    ensures p.1 == Sym(SymYes) <==> Operands(AndOp, b) <= Operands(AndOp, a)
  {
    hide Flat, Proper, Operands;
    var A, B := Operands(AndOp, a), Operands(AndOp, b);
    if B - A == multiset{} {
      forall f: Form
        ensures B[f] <= A[f]
      {
        assert (B - A)[f] == 0;
      }
    }
  }

  lemma RemainderNotYes(a: Expr, b: Expr, p: (Expr, Expr))
    requires Remainders(OrOp, a, b, p)
    ensures p.1 != Sym(SymYes)
  {
    hide Operands, Proper;
  }

  lemma FewerOperands<T>(b: multiset<T>, a: multiset<T>)
    requires b <= a
    ensures |b| <= |a|
  {
    assert a == b + (a - b);
  }

  /** y and n are no operands of a clean junction. */
  lemma {:induction false} NoConstantOperand(op: Op, e: Expr, c: Expr)
    requires Clean(e) && !YesOrNo(e) && YesOrNo(c)
    ensures Canon(c) == Atom(c) && Canon(c) !in Operands(op, e) && Operands(op, c) == multiset{Canon(c)}
  {
    if IsOp(op, e) {
      NoConstantOperand(op, e.l, c);
      NoConstantOperand(op, e.r, c);
    }
  }

  lemma ConstantKept(a: Expr, b: Expr)
    requires Clean(a) && Clean(b) && (YesOrNo(a) || YesOrNo(b))
    ensures EliminateEq(a, b) == (a, b)
  {
    EliminateEqIs(a, b);
    CleanKept(a);
    CleanKept(b);
    if IsJunction(a) {
      NoConstantOperand(OpOf(a), a, b);
      NoMatchFirst(OpOf(a), a, b);
    } else if IsJunction(b) {
      NoConstantOperand(OpOf(b), b, a);
      NoMatchSecond(OpOf(b), a, b);
    }
  }

  /* ----- against the documented meaning ----- */

  function Parts(op: Op, e: Expr): (s: set<Expr>)
    ensures forall x :: x in s ==> Size(x) <= Size(e) && (IsOp(op, e) ==> Size(x) < Size(e))
  {
    if IsOp(op, e) then Parts(op, e.l) + Parts(op, e.r) else {e}
  }

  /** The documented meaning: every operand of either expression equals some operand of
      the other, recursively. */
  ghost predicate Alike(a: Expr, b: Expr)
    decreases Size(a) + Size(b), 1
  {
    if a.Not? && b.Not? then Alike(a.e, b.e)
    else if IsJunction(a) && IsJunction(b) && OpOf(a) == OpOf(b) then
      Covered(OpOf(a), a, b) && Covered(OpOf(a), b, a)
    else a == b
  }

  ghost predicate Covered(op: Op, a: Expr, b: Expr)
    requires IsOp(op, a) && IsOp(op, b)
    decreases Size(a) + Size(b), 0
  {
    forall x :: x in Parts(op, a) ==> exists y :: y in Parts(op, b) && Alike(x, y)
  }

  /** No level, at any depth, has an operand twice. */
  ghost predicate NoRepeats(e: Expr)
    decreases Size(e)
  {
    if e.Not? then NoRepeats(e.e)
    else if IsJunction(e) then
      && (forall x :: x in Parts(OpOf(e), e) ==> NoRepeats(x))
      && (forall f :: f in Operands(OpOf(e), e) ==> Operands(OpOf(e), e)[f] == 1)
    else true
  }

  lemma {:induction false} PartForm(op: Op, e: Expr, x: Expr)
    requires x in Parts(op, e)
    ensures Canon(x) in Operands(op, e)
    ensures Clean(e) ==> Clean(x)
  {
    if IsOp(op, e) {
      if x in Parts(op, e.l) {
        PartForm(op, e.l, x);
      } else {
        PartForm(op, e.r, x);
      }
    }
  }

  lemma {:induction false} FormPart(op: Op, e: Expr, f: Form) returns (x: Expr)
    requires f in Operands(op, e)
    ensures x in Parts(op, e) && Canon(x) == f
  {
    if IsOp(op, e) {
      if f in Operands(op, e.l) {
        x := FormPart(op, e.l, f);
      } else {
        x := FormPart(op, e.r, f);
      }
    } else {
      x := e;
    }
  }

  lemma CanonLevel(op: Op, e: Expr)
    requires IsOp(op, e)
    ensures Canon(e) == Level(op, Operands(op, e)) && OpOf(e) == op
  {
  }

  lemma {:induction false} EqualIsAlike(a: Expr, b: Expr)
    requires Canon(a) == Canon(b)
    ensures Alike(a, b)
    decreases Size(a) + Size(b), 1
  {
    hide Covered;
    if a.Not? {
      EqualIsAlike(a.e, b.e);
    } else if IsJunction(a) {
      var op := OpOf(a);
      assert IsOp(op, b);
      CanonLevel(op, a);
      CanonLevel(op, b);
      EqualIsCovered(op, a, b);
      EqualIsCovered(op, b, a);
      AlikeLevels(op, a, b);
    }
  }

  lemma {:induction false} EqualIsCovered(op: Op, a: Expr, b: Expr)
    requires IsOp(op, a) && IsOp(op, b) && Operands(op, a) == Operands(op, b)
    ensures Covered(op, a, b)
    decreases Size(a) + Size(b), 0
  {
    hide Alike, Canon, Operands;
    forall x | x in Parts(op, a)
      ensures exists y :: y in Parts(op, b) && Alike(x, y)
    {
      PartForm(op, a, x);
      var y := FormPart(op, b, Canon(x));
      EqualIsAlike(x, y);
    }
  }

  lemma {:induction false} AlikeIsEqual(a: Expr, b: Expr)
    requires Alike(a, b) && NoRepeats(a) && NoRepeats(b)
    ensures Canon(a) == Canon(b)
    decreases Size(a) + Size(b), 1
  {
    hide Covered;
    if a.Not? && b.Not? {
      AlikeIsEqual(a.e, b.e);
    } else if IsJunction(a) && IsJunction(b) && OpOf(a) == OpOf(b) {
      var op := OpOf(a);
      CanonLevel(op, a);
      CanonLevel(op, b);
      CoveredForms(op, a, b);
      CoveredForms(op, b, a);
      assert Operands(op, a) == Operands(op, b) by {
        hide Alike, Canon, Operands;
        forall f: Form
          ensures Operands(op, a)[f] == Operands(op, b)[f]
        {
        }
      }
    }
  }

  lemma {:induction false} CoveredForms(op: Op, a: Expr, b: Expr)
    requires IsOp(op, a) && IsOp(op, b) && Covered(op, a, b)
    requires forall x :: x in Parts(op, a) ==> NoRepeats(x)
    requires forall y :: y in Parts(op, b) ==> NoRepeats(y)
    ensures forall f :: f in Operands(op, a) ==> f in Operands(op, b)
    decreases Size(a) + Size(b), 0
  {
    hide Alike, Canon, Operands, NoRepeats;
    forall f | f in Operands(op, a)
      ensures f in Operands(op, b)
    {
      var x := FormPart(op, a, f);
      var y :| y in Parts(op, b) && Alike(x, y);
      AlikeIsEqual(x, y);
      PartForm(op, b, y);
    }
  }

  /** Expressions found equal always have the documented meaning, and without repeated
      operands the two are the same. */
  lemma DocumentedEquality(a: Expr, b: Expr)
    requires Clean(a) && Clean(b)
    ensures ExprEq(a, b) ==> Alike(a, b)
    ensures NoRepeats(a) && NoRepeats(b) ==> (ExprEq(a, b) <==> Alike(a, b))
  {
    EqualJustMatching(a, b);
    hide *;
    if Canon(a) == Canon(b) {
      EqualIsAlike(a, b);
    } else if Alike(a, b) && NoRepeats(a) && NoRepeats(b) {
      AlikeIsEqual(a, b);
    }
  }

  /** Repeating any operand of any junction keeps the documented meaning, and the two
      expressions are not found equal. */
  lemma RepeatedOperandsDiffer(op: Op, a: Expr, x: Expr)
    requires Clean(a) && IsOp(op, a) && x in Parts(op, a)
    ensures Alike(a, Make(op, x, a)) && !ExprEq(a, Make(op, x, a))
  {
    hide *;
    var b := Make(op, x, a);
    PartForm(op, a, x);
    NoJunctionPart(op, a, x);
    JunctionNotConstant(op, a);
    Repeated(op, a, x);
    assert !ExprEq(a, b) by {
      EqualJustMatching(a, b);
      CanonLevel(op, a);
      CanonLevel(op, b);
    }
    CoveredParts(op, a, b);
    CoveredParts(op, b, a);
    AlikeLevels(op, a, b);
  }

  lemma AlikeLevels(op: Op, a: Expr, b: Expr)
    requires IsOp(op, a) && IsOp(op, b) && Covered(op, a, b) && Covered(op, b, a)
    ensures Alike(a, b)
  {
    hide Covered;
  }

  lemma CoveredParts(op: Op, a: Expr, b: Expr)
    requires IsOp(op, a) && IsOp(op, b) && Parts(op, a) <= Parts(op, b)
    ensures Covered(op, a, b)
  {
    hide Alike, Parts;
    forall x | x in Parts(op, a)
      ensures x in Parts(op, b) && Alike(x, x)
    {
      EqualIsAlike(x, x);
    }
  }

  lemma JunctionNotConstant(op: Op, e: Expr)
    requires IsOp(op, e)
    ensures !YesOrNo(e)
  {
  }

  lemma Repeated(op: Op, a: Expr, x: Expr)
    requires Clean(a) && IsOp(op, a) && x in Parts(op, a) && !IsOp(op, x) && Clean(x) && !YesOrNo(x)
    ensures var b := Make(op, x, a);
      && Clean(b) && IsOp(op, b)
      && Parts(op, b) == Parts(op, a)
      && Operands(op, b)[Canon(x)] == 1 + Operands(op, a)[Canon(x)]
  {
    var b := Make(op, x, a);
    assert Clean(b);
    hide Clean, Canon;
    assert Operands(op, x) == multiset{Canon(x)} && Parts(op, x) == {x};
    assert Operands(op, b) == Operands(op, x) + Operands(op, a);
    assert Parts(op, b) == Parts(op, x) + Parts(op, a);
  }

  lemma {:induction false} NoJunctionPart(op: Op, e: Expr, x: Expr)
    requires x in Parts(op, e)
    ensures !IsOp(op, x)
    ensures Clean(e) && !YesOrNo(e) ==> !YesOrNo(x)
  {
    if IsOp(op, e) {
      if x in Parts(op, e.l) {
        NoJunctionPart(op, e.l, x);
      } else {
        NoJunctionPart(op, e.r, x);
      }
    }
  }

  /** The constant that decides a junction as an operand at the level of op. */
  predicate Decided(op: Op, e: Expr) {
    if IsOp(op, e) then Decided(op, e.l) || Decided(op, e.r) else YesOrNo(e) && e != Neutral(op)
  }

  /** It is never cancelled. */
  lemma {:induction false} DecidedStays(op: Op, a: Expr, b: Expr)
    ensures var (x, y) := CancelWalk(op, a, b);
      (Decided(op, a) ==> Decided(op, x)) && (Decided(op, b) ==> Decided(op, y))
    decreases Size(a) + Size(b)
  {
    hide ExprEq;
    if IsOp(op, a) {
      var (l, b1) := CancelWalk(op, a.l, b);
      DecidedStays(op, a.l, b);
      DecidedStays(op, a.r, b1);
      DecidedMake(op, l, CancelWalk(op, a.r, b1).0);
    } else if IsOp(op, b) {
      var (a1, l) := CancelWalk(op, a, b.l);
      DecidedStays(op, a, b.l);
      DecidedStays(op, a1, b.r);
      DecidedMake(op, l, CancelWalk(op, a1, b.r).1);
    } else {
      DecidedLeaf(op, a, b);
    }
  }

  lemma DecidedMake(op: Op, l: Expr, r: Expr)
    ensures Decided(op, Make(op, l, r)) <==> Decided(op, l) || Decided(op, r)
  {
    assert IsOp(op, Make(op, l, r));
  }

  lemma DecidedLeaf(op: Op, a: Expr, b: Expr)
    requires !IsOp(op, a) && !IsOp(op, b)
    ensures var (x, y) := CancelWalk(op, a, b);
      (Decided(op, a) ==> Decided(op, x)) && (Decided(op, b) ==> Decided(op, y))
  {
    assert YesOrNo(a) || YesOrNo(b) ==> (ExprEq(a, b) <==> a == b);
  }

  lemma {:induction false} DecidedValue(op: Op, e: Expr)
    requires Decided(op, e)
    ensures EliminateYn(e) == if op == AndOp then Sym(SymNo) else Sym(SymYes)
  {
    if IsOp(op, e) {
      if Decided(op, e.l) {
        DecidedValue(op, e.l);
      } else {
        DecidedValue(op, e.r);
      }
    }
  }

  /** Two conjunctions with an operand n, or disjunctions with an operand y, are found equal
      whatever else they contain. */
  lemma DecidedEqual(op: Op, a: Expr, b: Expr)
    requires IsOp(op, a) && IsOp(op, b) && Decided(op, a) && Decided(op, b)
    ensures ExprEq(a, b)
  {
    var (x, y) := CancelWalk(op, a, b);
    DecidedStays(op, a, b);
    DecidedValue(op, x);
    DecidedValue(op, y);
    EqualRemainders(op, a, b);
    hide *;
  }

  /** With constant operands equality is not transitive, so that no comparison of forms
      can describe it. */
  lemma ConstantsNotTransitive(s: Symbol, t: Symbol)
    requires s != t && s.Named? && t.Named?
    ensures var n := Sym(SymNo);
      var a, b, c := And(Or(Sym(s), n), Sym(t)), And(Sym(s), Sym(t)), And(Sym(s), Or(Sym(t), n));
      ExprEq(a, b) && ExprEq(b, c) && !ExprEq(a, c)
  {
    var n, s1, t1 := Sym(SymNo), Sym(s), Sym(t);
    SmallEqual(AndOp, Or(s1, n), t1, s1, t1);
    SmallEqual(AndOp, s1, t1, s1, Or(t1, n));
    SmallEqual(AndOp, Or(s1, n), t1, s1, Or(t1, n));
    SmallEqual(OrOp, s1, n, t1, n);
    LeavesCancelled(s, t);
    hide ExprEq, Cancelled;
  }

  /** What the comparisons of the operands give. */
  lemma LeavesCancelled(s: Symbol, t: Symbol)
    requires s != t && s.Named? && t.Named?
    ensures var n, y, s1, t1 := Sym(SymNo), Sym(SymYes), Sym(s), Sym(t);
      && (forall op: Op, x: Symbol, z: Symbol :: x != z ==> Cancelled(op, Sym(x), Sym(z)) == (Sym(x), Sym(z)))
      && (forall op: Op, x: Symbol, z: Symbol :: Cancelled(op, Sym(z), Or(Sym(x), n)) == (Sym(z), Or(Sym(x), n)))
      && (forall op: Op, x: Symbol, z: Symbol :: Cancelled(op, Or(Sym(x), n), Sym(z)) == (Or(Sym(x), n), Sym(z)))
      && (forall x <- [s1, t1] :: Cancelled(AndOp, x, x) == (y, y))
      && Cancelled(OrOp, n, n) == (n, n)
      && (!ExprEq(Or(s1, n), Or(t1, n)) ==> Cancelled(AndOp, Or(s1, n), Or(t1, n)) == (Or(s1, n), Or(t1, n)))
  {
  }

  /** The result of comparing two operands. */
  function Cancelled(op: Op, a: Expr, b: Expr): (Expr, Expr) {
    if a == b && YesOrNo(a) then (a, b)
    else if ExprEq(a, b) then (Neutral(op), Neutral(op))
    else (a, b)
  }

  /** The comparisons made for two junctions of two operands each. */
  lemma SmallWalk(op: Op, a: Expr, b: Expr, c: Expr, d: Expr)
    requires !IsOp(op, a) && !IsOp(op, b) && !IsOp(op, c) && !IsOp(op, d)
    ensures var (a1, c1) := Cancelled(op, a, c);
      var (a2, d1) := Cancelled(op, a1, d);
      var (b1, c2) := Cancelled(op, b, c1);
      var (b2, d2) := Cancelled(op, b1, d1);
      CancelWalk(op, Make(op, a, b), Make(op, c, d)) == (Make(op, a2, b2), Make(op, c2, d2))
  {
    hide ExprEq;
    var (a1, c1) := Cancelled(op, a, c);
    var (a2, d1) := Cancelled(op, a1, d);
    OneAgainstTwo(op, a, c, d);
    OneAgainstTwo(op, b, c1, d1);
    assert IsOp(op, Make(op, a, b));
  }

  lemma SmallEqual(op: Op, a: Expr, b: Expr, c: Expr, d: Expr)
    requires !IsOp(op, a) && !IsOp(op, b) && !IsOp(op, c) && !IsOp(op, d)
    ensures var (a1, c1) := Cancelled(op, a, c);
      var (a2, d1) := Cancelled(op, a1, d);
      var (b1, c2) := Cancelled(op, b, c1);
      var (b2, d2) := Cancelled(op, b1, d1);
      var x, y := EliminateYn(Make(op, a2, b2)), EliminateYn(Make(op, c2, d2));
      ExprEq(Make(op, a, b), Make(op, c, d)) <==> x.Sym? && y == x
  {
    SmallWalk(op, a, b, c, d);
    assert IsOp(op, Make(op, a, b)) && IsOp(op, Make(op, c, d));
    EqualRemainders(op, Make(op, a, b), Make(op, c, d));
    hide *;
  }

  lemma OneAgainstTwo(op: Op, a: Expr, c: Expr, d: Expr)
    requires !IsOp(op, a) && !IsOp(op, c) && !IsOp(op, d)
    ensures var (a1, c1) := Cancelled(op, a, c);
      var (a2, d1) := Cancelled(op, a1, d);
      CancelWalk(op, a, Make(op, c, d)) == (a2, Make(op, c1, d1)) && !IsOp(op, c1) && !IsOp(op, d1)
  {
    hide ExprEq;
    var (a1, c1) := Cancelled(op, a, c);
    assert !IsOp(op, Neutral(op));
    assert CancelWalk(op, a, c) == (a1, c1);
    assert CancelWalk(op, a1, d) == Cancelled(op, a1, d);
    assert IsOp(op, Make(op, c, d));
  }
}
