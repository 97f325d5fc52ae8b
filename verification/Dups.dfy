/** Joining duplicate and otherwise redundant operands: the walk over the pairs of
    operands of one level, and the passes that repeat it. */
module Duplicates {
  import opened Exprs
  import opened Simplify
  import opened Places

  ghost predicate OnSpine(op: Op, e: Expr, s: Path) {
    SpinePath(op, e, s) && ValidPath(e, s)
  }

  /* ----- the walk ----- */

  /** Compares the operands of e below s1 with those below s2 in place and joins what can
      be joined; also tells how many joins there were. The two places may overlap: the
      walk over a level starts with the root twice. */
  function DupsWalk(op: Op, e: Expr, s1: Path, s2: Path): (r: (Expr, nat))
    requires OnSpine(op, e, s1) && OnSpine(op, e, s2)
    ensures SameSpine(op, e, r.0) && Size(r.0) <= Size(e)
    ensures if r.1 == 0 then r.0 == e else HasConstantOperand(r.0)
    decreases Size(e), SpineSize(op, At(e, s1)) + SpineSize(op, At(e, s2))
  {
    if IsOp(op, At(e, s1)) then
      SpineStep(op, e, s1, Left);
      var (m, c) := DupsWalk(op, e, s1 + [Left], s2);
      SameLevel(op, e, m, s1, s2);
      SpineStep(op, m, s1, Right);
      var (n, d) := DupsWalk(op, m, s1 + [Right], s2);
      SameSpineTrans(op, e, m, n);
      (n, c + d)
    else if IsOp(op, At(e, s2)) then
      SpineStep(op, e, s2, Left);
      var (m, c) := DupsWalk(op, e, s1, s2 + [Left]);
      SameLevel(op, e, m, s1, s2);
      SpineStep(op, m, s2, Right);
      var (n, d) := DupsWalk(op, m, s1, s2 + [Right]);
      SameSpineTrans(op, e, m, n);
      (n, c + d)
    else if s1 == s2 then
      SameSpineRefl(op, e);
      (e, 0)
    else
      DupsPair(op, e, s1, s2)
  }

  /** Two different operands: first the levels inside the first one, then the pair. */
  function DupsPair(op: Op, e: Expr, s1: Path, s2: Path): (r: (Expr, nat))
    requires LeafPath(op, e, s1) && LeafPath(op, e, s2) && s1 != s2
    ensures SameSpine(op, e, r.0) && Size(r.0) <= Size(e)
    ensures if r.1 == 0 then r.0 == e else HasConstantOperand(r.0)
    decreases Size(e), 1
  {
    BothBelow(op, e, s1, s2);
    var (m, c) := DupsInside(op, e, s1);
    InsideKeeps(op, e, s1, s2, m);
    var x := Join(op, At(m, s1), At(m, s2));
    if x.None? then (m, c)
    else
      JoinedCorrect(op, m, s1, s2);
      SameSpineTrans(op, e, m, Joined(op, m, s1, s2, x.value));
      (Joined(op, m, s1, s2, x.value), c + 1)
  }

  /** The walk over the level of an operand, if that is itself a junction. */
  function DupsInside(op: Op, e: Expr, s: Path): (r: (Expr, nat))
    requires LeafPath(op, e, s) && s != []
    ensures SameSpine(op, e, r.0) && Size(r.0) <= Size(e)
    ensures if r.1 == 0 then r.0 == e else HasConstantOperand(r.0)
    ensures ValidPath(r.0, s) && r.0 == Put(e, s, At(r.0, s)) && !IsOp(op, At(r.0, s))
    decreases Size(e), 0
  {
    var a := At(e, s);
    PutAt(e, s, a);
    if !IsJunction(a) then
      SameSpineRefl(op, e);
      (e, 0)
    else
      AtSize(e, s);
      var (x, c) := DupsWalk(OpOf(a), a, [], []);
      PutAt(e, s, x);
      PutOperand(op, e, s, x);
      InsideConstant(op, e, s, x);
      (Put(e, s, x), c)
  }

  lemma InsideConstant(op: Op, e: Expr, s: Path, x: Expr)
    requires SpinePath(op, e, s) && ValidPath(e, s)
    ensures HasConstantOperand(x) ==> HasConstantOperand(Put(e, s, x))
  {
    if HasConstantOperand(x) {
      ConstantBelow(op, e, s, x);
    }
  }

  /** Two different operands lie below the root. */
  lemma BothBelow(op: Op, e: Expr, s1: Path, s2: Path)
    requires LeafPath(op, e, s1) && LeafPath(op, e, s2) && s1 != s2
    ensures s1 != [] && s2 != []
  {
  }

  /** What happens inside one operand leaves the other alone. */
  lemma {:induction false} InsideKeeps(op: Op, e: Expr, s1: Path, s2: Path, m: Expr)
    requires LeafPath(op, e, s1) && LeafPath(op, e, s2) && s1 != s2
    requires ValidPath(m, s1) && m == Put(e, s1, At(m, s1)) && !IsOp(op, At(m, s1)) && SameSpine(op, e, m)
    ensures LeafPath(op, m, s1) && LeafPath(op, m, s2) && At(m, s2) == At(e, s2)
  {
    OtherOperand(op, e, s1, s2, At(m, s1));
    SameSpinePath(op, e, m, s1);
  }

  /** A tree of the same shape has the same places. */
  lemma SameLevel(op: Op, e: Expr, m: Expr, s1: Path, s2: Path)
    requires SameSpine(op, e, m) && OnSpine(op, e, s1) && OnSpine(op, e, s2)
    ensures OnSpine(op, m, s1) && OnSpine(op, m, s2)
    ensures SpineSize(op, At(m, s1)) == SpineSize(op, At(e, s1)) && SpineSize(op, At(m, s2)) == SpineSize(op, At(e, s2))
    ensures IsOp(op, At(m, s1)) == IsOp(op, At(e, s1)) && IsOp(op, At(m, s2)) == IsOp(op, At(e, s2))
  {
    SameSpinePath(op, e, m, s1);
    SameSpinePath(op, e, m, s2);
    SameSpineSize(op, At(e, s1), At(m, s1));
    SameSpineSize(op, At(e, s2), At(m, s2));
  }

  lemma {:induction false} AtSize(e: Expr, p: Path)
    requires ValidPath(e, p)
    ensures Size(At(e, p)) <= Size(e)
    ensures p != [] ==> Size(At(e, p)) < Size(e)
  {
    if p != [] {
      AtSize(Child(e, p[0]), p[1..]);
    }
  }

  lemma {:induction false} ConstantBelow(op: Op, e: Expr, s: Path, x: Expr)
    requires SpinePath(op, e, s) && ValidPath(e, s) && HasConstantOperand(x)
    ensures HasConstantOperand(Put(e, s, x))
  {
    if s != [] {
      ConstantBelow(op, Child(e, s[0]), s[1..], x);
    }
  }

  /** A place right below an op node on the spine. */
  lemma SpineStep(op: Op, e: Expr, s: Path, d: Step)
    requires SpinePath(op, e, s) && ValidPath(e, s) && IsOp(op, At(e, s))
    ensures SpinePath(op, e, s + [d]) && ValidPath(e, s + [d])
    ensures At(e, s + [d]) == Child(At(e, s), d)
    ensures SpineSize(op, At(e, s + [d])) < SpineSize(op, At(e, s))
  {
    BelowStep(e, s, d);
    SpineBelow(op, e, s, [d]);
    assert [d][1..] == [];
  }

  /** Below an operand there is only the operand itself; below an op node every
      operand is to the left or to the right. */
  lemma OperandBelow(op: Op, e: Expr, s: Path, x: Path)
    requires SpinePath(op, e, s) && ValidPath(e, s) && LeafPath(op, e, x) && s <= x
    ensures !IsOp(op, At(e, s)) ==> x == s
    ensures IsOp(op, At(e, s)) ==> s + [Left] <= x || s + [Right] <= x
  {
    var u := x[|s|..];
    assert x == s + u;
    SpineBelow(op, e, s, u);
    if u == [] {
      assert x == s;
    } else {
      assert s + [u[0]] <= x;
    }
  }

  /* ----- saturation ----- */

  /** No two different operands of one level can be joined, at any level. */
  ghost predicate Saturated(e: Expr)
    decreases Size(e)
  {
    IsJunction(e) ==>
      && (forall s: Path, t: Path :: LeafPath(OpOf(e), e, s) && LeafPath(OpOf(e), e, t) && s != t ==>
            Join(OpOf(e), At(e, s), At(e, t)).None?)
      && (forall s: Path :: LeafPath(OpOf(e), e, s) && Size(At(e, s)) < Size(e) ==> Saturated(At(e, s)))
  }

  /** Every operand below s meets every different operand below t without a join,
      and is itself saturated. */
  ghost predicate Settled(op: Op, e: Expr, s: Path, t: Path) {
    forall x: Path, y: Path ::
      s <= x && t <= y && LeafPath(op, e, x) && LeafPath(op, e, y) && x != y ==>
        Join(op, At(e, x), At(e, y)).None? && Saturated(At(e, x))
  }

  lemma SettledFirst(op: Op, e: Expr, s: Path, t: Path)
    requires SpinePath(op, e, s) && ValidPath(e, s) && IsOp(op, At(e, s))
    ensures Settled(op, e, s, t) <==> Settled(op, e, s + [Left], t) && Settled(op, e, s + [Right], t)
  {
    forall x: Path | s <= x && LeafPath(op, e, x)
      ensures s + [Left] <= x || s + [Right] <= x
    {
      OperandBelow(op, e, s, x);
    }
  }

  lemma SettledSecond(op: Op, e: Expr, s: Path, t: Path)
    requires SpinePath(op, e, t) && ValidPath(e, t) && IsOp(op, At(e, t))
    ensures Settled(op, e, s, t) <==> Settled(op, e, s, t + [Left]) && Settled(op, e, s, t + [Right])
  {
    forall x: Path | t <= x && LeafPath(op, e, x)
      ensures t + [Left] <= x || t + [Right] <= x
    {
      OperandBelow(op, e, t, x);
    }
  }

  lemma {:induction false} SettledPair(op: Op, e: Expr, s: Path, t: Path)
    requires LeafPath(op, e, s) && LeafPath(op, e, t)
    ensures Settled(op, e, s, t) <==> (s != t ==> Join(op, At(e, s), At(e, t)).None? && Saturated(At(e, s)))
  {
    forall x: Path, y: Path | s <= x && t <= y && LeafPath(op, e, x) && LeafPath(op, e, y)
      ensures x == s && y == t
    {
      OperandBelow(op, e, s, x);
      OperandBelow(op, e, t, y);
    }
  }

  /** An op node has an operand on the side away from any given one. */
  lemma {:induction false} SomeOperand(op: Op, e: Expr) returns (s: Path)
    ensures LeafPath(op, e, s)
  {
    s := [];
    if IsOp(op, e) {
      var u := SomeOperand(op, e.l);
      s := [Left] + u;
      assert s[1..] == u;
    }
  }

  /** A level is saturated just when all of its pairs meet without a join. */
  lemma SettledIsSaturated(e: Expr)
    requires IsJunction(e)
    ensures Settled(OpOf(e), e, [], []) <==> Saturated(e)
  {
    hide Settled, Saturated;
    if Settled(OpOf(e), e, [], []) {
      SettledSaturates(e);
    }
    if Saturated(e) {
      SaturatedSettles(e);
    }
  }

  lemma SettledSaturates(e: Expr)
    requires IsJunction(e) && Settled(OpOf(e), e, [], [])
    ensures Saturated(e)
  {
    var op := OpOf(e);
    forall s: Path | LeafPath(op, e, s)
      ensures Saturated(At(e, s))
    {
      var d := if s[0] == Left then Right else Left;
      var u := SomeOperand(op, Child(e, d));
      var t := [d] + u;
      assert t[1..] == u;
      assert LeafPath(op, e, t) && s != t;
      assert [] <= s && [] <= t;
    }
  }

  lemma SaturatedSettles(e: Expr)
    requires IsJunction(e) && Saturated(e)
    ensures Settled(OpOf(e), e, [], [])
  {
    var op := OpOf(e);
    forall s: Path | LeafPath(op, e, s)
      ensures Saturated(At(e, s))
    {
      AtSize(e, s);
    }
  }

  /** The walk joins nothing just when all pairs are settled. */
  lemma {:induction false} WalkSettled(op: Op, e: Expr, s1: Path, s2: Path)
    requires OnSpine(op, e, s1) && OnSpine(op, e, s2)
    ensures DupsWalk(op, e, s1, s2).1 == 0 <==> Settled(op, e, s1, s2)
    decreases Size(e), SpineSize(op, At(e, s1)) + SpineSize(op, At(e, s2))
  {
    hide Join, Saturated, Settled;
    if IsOp(op, At(e, s1)) {
      SpineStep(op, e, s1, Left);
      SpineStep(op, e, s1, Right);
      WalkSettled(op, e, s1 + [Left], s2);
      if DupsWalk(op, e, s1 + [Left], s2).1 == 0 {
        WalkSettled(op, e, s1 + [Right], s2);
      }
      SettledFirst(op, e, s1, s2);
    } else if IsOp(op, At(e, s2)) {
      SpineStep(op, e, s2, Left);
      SpineStep(op, e, s2, Right);
      WalkSettled(op, e, s1, s2 + [Left]);
      if DupsWalk(op, e, s1, s2 + [Left]).1 == 0 {
        WalkSettled(op, e, s1, s2 + [Right]);
      }
      SettledSecond(op, e, s1, s2);
    } else {
      SettledPair(op, e, s1, s2);
      if s1 != s2 {
        BothBelow(op, e, s1, s2);
        InsideSettled(op, e, s1);
      }
    }
  }

  lemma {:induction false} InsideSettled(op: Op, e: Expr, s: Path)
    requires LeafPath(op, e, s) && s != []
    ensures DupsInside(op, e, s).1 == 0 <==> Saturated(At(e, s))
    decreases Size(e), 0
  {
    var a := At(e, s);
    if IsJunction(a) {
      AtSize(e, s);
      WalkSettled(OpOf(a), a, [], []);
      SettledIsSaturated(a);
    }
  }

  /* ----- what the walk keeps ----- */

  /** Normal form is kept, no constants come in, and the value is kept unless a tristate
      symbol equals two constants. */
  ghost predicate Keeps(e: Expr, x: Expr, env: Env) {
    && Constants(x) <= Constants(e)
    && (Normal(e) ==> Normal(x))
    && (WellFormed(env) && ConstantsDistinct(Constants(e), env) ==> Eval(x, env) == Eval(e, env))
  }

  lemma KeepsTrans(e: Expr, m: Expr, n: Expr, env: Env)
    requires Keeps(e, m, env) && Keeps(m, n, env)
    ensures Keeps(e, n, env)
  {
    hide Eval, WellFormed, Normal;
    if ConstantsDistinct(Constants(e), env) {
      DistinctFewer(Constants(m), Constants(e), env);
    }
  }

  lemma {:induction false} WalkKeeps(op: Op, e: Expr, s1: Path, s2: Path, env: Env)
    requires OnSpine(op, e, s1) && OnSpine(op, e, s2)
    ensures Keeps(e, DupsWalk(op, e, s1, s2).0, env)
    decreases Size(e), SpineSize(op, At(e, s1)) + SpineSize(op, At(e, s2))
  {
    hide Join;
    if IsOp(op, At(e, s1)) {
      SpineStep(op, e, s1, Left);
      WalkKeeps(op, e, s1 + [Left], s2, env);
      var m := DupsWalk(op, e, s1 + [Left], s2).0;
      SameLevel(op, e, m, s1, s2);
      SpineStep(op, m, s1, Right);
      WalkKeeps(op, m, s1 + [Right], s2, env);
      KeepsTrans(e, m, DupsWalk(op, m, s1 + [Right], s2).0, env);
    } else if IsOp(op, At(e, s2)) {
      SpineStep(op, e, s2, Left);
      WalkKeeps(op, e, s1, s2 + [Left], env);
      var m := DupsWalk(op, e, s1, s2 + [Left]).0;
      SameLevel(op, e, m, s1, s2);
      SpineStep(op, m, s2, Right);
      WalkKeeps(op, m, s1, s2 + [Right], env);
      KeepsTrans(e, m, DupsWalk(op, m, s1, s2 + [Right]).0, env);
    } else if s1 != s2 {
      PairKeeps(op, e, s1, s2, env);
    }
  }

  lemma {:induction false} PairKeeps(op: Op, e: Expr, s1: Path, s2: Path, env: Env)
    requires LeafPath(op, e, s1) && LeafPath(op, e, s2) && s1 != s2
    ensures Keeps(e, DupsPair(op, e, s1, s2).0, env)
    decreases Size(e), 1
  {
    hide Join, Joined;
    BothBelow(op, e, s1, s2);
    InsideKeepsValue(op, e, s1, env);
    var m := DupsInside(op, e, s1).0;
    InsideKeeps(op, e, s1, s2, m);
    if Join(op, At(m, s1), At(m, s2)).Some? {
      JoinedCorrect(op, m, s1, s2);
      if WellFormed(env) && ConstantsDistinct(Constants(m), env) {
        JoinedSound(op, m, s1, s2, env);
      }
      KeepsTrans(e, m, DupsPair(op, e, s1, s2).0, env);
    }
  }

  lemma {:induction false} InsideKeepsValue(op: Op, e: Expr, s: Path, env: Env)
    requires LeafPath(op, e, s) && s != []
    ensures Keeps(e, DupsInside(op, e, s).0, env)
    decreases Size(e), 0
  {
    var a := At(e, s);
    if IsJunction(a) {
      AtSize(e, s);
      var x := DupsWalk(OpOf(a), a, [], []).0;
      WalkKeeps(OpOf(a), a, [], [], env);
      PutKeeps(op, e, s, x, env);
    }
  }

  lemma PutKeeps(op: Op, e: Expr, s: Path, x: Expr, env: Env)
    requires OnSpine(op, e, s) && Keeps(At(e, s), x, env)
    ensures Keeps(e, Put(e, s, x), env)
  {
    PutConstants(e, s, x);
    PutCongruence(e, s, x, env);
    if Normal(e) {
      PutNormal(op, e, s, x);
    }
    if ConstantsDistinct(Constants(e), env) {
      DistinctFewer(Constants(At(e, s)), Constants(e), env);
    }
  }

  /* ----- the passes ----- */

  /** Passes over the tree until one joins nothing. */
  function Dups(e: Expr): (x: Expr)
    ensures Size(x) <= Size(e)
    decreases Size(e)
  {
    if !IsJunction(e) then e
    else
      var (w, c) := DupsWalk(OpOf(e), e, [], []);
      EliminateYnExact(w);
      if c == 0 then e else Dups(EliminateYn(w))
  }

  /** The result keeps the value and has nothing left to join. */
  lemma {:induction false} DupsCorrect(e: Expr, env: Env)
    ensures Keeps(e, Dups(e), env) && Saturated(Dups(e))
    decreases Size(e)
  {
    hide Saturated, Settled;
    if !IsJunction(e) {
      NotJunctionSaturated(e);
    } else {
      var (w, c) := DupsWalk(OpOf(e), e, [], []);
      JoinlessSaturated(e);
      if c > 0 {
        EliminateYnExact(w);
        WalkKeeps(OpOf(e), e, [], [], env);
        EliminateKeeps(w, env);
        KeepsTrans(e, w, EliminateYn(w), env);
        DupsCorrect(EliminateYn(w), env);
        KeepsTrans(e, EliminateYn(w), Dups(e), env);
      }
    }
  }

  lemma NotJunctionSaturated(e: Expr)
    requires !IsJunction(e)
    ensures Saturated(e)
  {
  }

  lemma JoinlessSaturated(e: Expr)
    requires IsJunction(e)
    ensures DupsWalk(OpOf(e), e, [], []).1 == 0 <==> Saturated(e)
  {
    WalkSettled(OpOf(e), e, [], []);
    SettledIsSaturated(e);
  }

  lemma EliminateKeeps(e: Expr, env: Env)
    ensures Keeps(e, EliminateYn(e), env)
  {
    EliminateYnConstants(e);
    if Normal(e) {
      EliminateYnNormal(e);
    }
    if WellFormed(env) {
      EliminateYnValue(e, env);
    }
  }

  /** The tree stays as it is just when nothing can be joined. */
  lemma DupsFixed(e: Expr)
    ensures Dups(e) == e <==> Saturated(e)
  {
    if IsJunction(e) {
      JoinlessSaturated(e);
      EliminateYnExact(DupsWalk(OpOf(e), e, [], []).0);
    }
  }

  /* ----- where constants are not distinct ----- */

  /** Two operands without levels inside that are joined into another such operand. */
  lemma DupsTwo(op: Op, l: Expr, r: Expr, x: Expr)
    requires !IsJunction(l) && !IsJunction(r) && !IsJunction(x)
    requires Join(op, l, r) == Some(x) && Join(op, x, Neutral(op)).None? && x != Sym(SymYes) && x != Sym(SymNo)
    ensures Dups(Make(op, l, r)) == x
  {
    hide Join;
    var e, m := Make(op, l, r), Make(op, Neutral(op), x);
    WalkTwo(op, l, r, x);
    assert EliminateYn(m) == x;
    assert Dups(x) == x;
  }

  lemma WalkTwo(op: Op, l: Expr, r: Expr, x: Expr)
    requires !IsJunction(l) && !IsJunction(r) && !IsJunction(x)
    requires Join(op, l, r) == Some(x) && Join(op, x, Neutral(op)).None?
    ensures DupsWalk(op, Make(op, l, r), [], []) == (Make(op, Neutral(op), x), 1)
  {
    hide Join;
    var e, m := Make(op, l, r), Make(op, Neutral(op), x);
    assert [] + [Left] == [Left] && [] + [Right] == [Right];
    TwoPlaces(op, l, r);
    TwoPlaces(op, Neutral(op), x);
    PairJoined(op, l, r, x);
    assert DupsWalk(op, e, [Left], []) == (m, 1) by {
      assert DupsWalk(op, e, [Left], [Left]) == (e, 0);
      assert DupsWalk(op, e, [Left], [Right]) == (m, 1);
    }
    assert DupsWalk(op, m, [Right], []) == (m, 0) by {
      PairApart(op, Neutral(op), x);
      assert DupsWalk(op, m, [Right], [Left]) == (m, 0);
      assert DupsWalk(op, m, [Right], [Right]) == (m, 0);
    }
  }

  lemma TwoPlaces(op: Op, l: Expr, r: Expr)
    ensures var e := Make(op, l, r);
            && OnSpine(op, e, []) && OnSpine(op, e, [Left]) && OnSpine(op, e, [Right])
            && At(e, [Left]) == l && At(e, [Right]) == r
            && forall x :: Put(e, [Left], x) == Make(op, x, r) && Put(e, [Right], x) == Make(op, l, x)
  {
    var e := Make(op, l, r);
    assert [Left][1..] == [] && [Right][1..] == [];
    assert Child(e, Left) == l && Child(e, Right) == r;
    forall x
      ensures Put(e, [Left], x) == Make(op, x, r) && Put(e, [Right], x) == Make(op, l, x)
    {
      assert Put(l, [], x) == x && Put(r, [], x) == x;
    }
  }

  lemma PairJoined(op: Op, l: Expr, r: Expr, x: Expr)
    requires !IsJunction(l) && !IsJunction(r) && Join(op, l, r) == Some(x)
    ensures OnSpine(op, Make(op, l, r), [Left]) && OnSpine(op, Make(op, l, r), [Right])
    ensures DupsWalk(op, Make(op, l, r), [Left], [Right]) == (Make(op, Neutral(op), x), 1)
  {
    hide Join;
    var e := Make(op, l, r);
    TwoPlaces(op, l, r);
    TwoPlaces(op, Neutral(op), r);
    assert DupsInside(op, e, [Left]) == (e, 0);
    assert DupsPair(op, e, [Left], [Right]) == (Joined(op, e, [Left], [Right], x), 1);
  }

  lemma PairApart(op: Op, l: Expr, r: Expr)
    requires !IsJunction(l) && !IsJunction(r) && Join(op, r, l).None?
    ensures OnSpine(op, Make(op, l, r), [Left]) && OnSpine(op, Make(op, l, r), [Right])
    ensures DupsWalk(op, Make(op, l, r), [Right], [Left]) == (Make(op, l, r), 0)
  {
    hide Join;
    var e := Make(op, l, r);
    TwoPlaces(op, l, r);
    assert DupsInside(op, e, [Right]) == (e, 0);
    assert DupsPair(op, e, [Right], [Left]) == (e, 0);
  }

  /** s = b && s != c becomes s = b for any two different constants b and c. This is exact
      just when s does not equal both of them, as "1" and "0x1" may. */
  lemma JoinNeedsDistinctConstants(s: Symbol, b: Symbol, c: Symbol, env: Env)
    requires s.Type() == Tri && b.Const() && c.Const() && b != c
    ensures var e := And(Compare(Equal, s, b), Compare(Unequal, s, c));
      && Dups(e) == Compare(Equal, s, b)
      && (Eval(Dups(e), env) == Eval(e, env) <==> !(env.cmp(s, b).res == 0 && env.cmp(s, c).res == 0))
  {
    var l, r := Compare(Equal, s, b), Compare(Unequal, s, c);
    assert !ExprEq(l, r) && Join(AndOp, l, r) == Some(l);
    assert !ExprEq(l, Sym(SymYes)) && Join(AndOp, l, Sym(SymYes)).None?;
    DupsTwo(AndOp, l, r, l);
  }

  /** A tristate symbol equals no two of the constants just when the pass keeps the value of
      every expression over them. */
  lemma DistinctJustWhenKept(constants: set<Symbol>, env: Env)
    requires WellFormed(env) && forall b <- constants :: b.Const()
    ensures ConstantsDistinct(constants, env) <==> forall e: Expr :: Constants(e) <= constants ==> Eval(Dups(e), env) == Eval(e, env)
  {
    hide WellFormed, Dups, Eval;
    if ConstantsDistinct(constants, env) {
      forall e: Expr | Constants(e) <= constants
        ensures Eval(Dups(e), env) == Eval(e, env)
      {
        DistinctFewer(Constants(e), constants, env);
        DupsCorrect(e, env);
      }
    } else {
      var s: Symbol, b: Symbol, c: Symbol :| s.Type() == Tri && b != c && (b in constants || b.YMN()) && (c in constants || c.YMN())
        && env.cmp(s, b).res == 0 && env.cmp(s, c).res == 0;
      JoinNeedsDistinctConstants(s, b, c, env);
      var e := And(Compare(Equal, s, b), Compare(Unequal, s, c));
      assert Constants(e) <= constants && Eval(Dups(e), env) != Eval(e, env);
    }
  }
}
