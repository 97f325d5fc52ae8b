/** The in-place passes of expr.c: every pass overwrites places of a tree that a
    variable owns, and joins are counted in the shared counter trans_count. */
module Rewriting {
  import opened Exprs
  import opened Simplify
  import opened Places
  import opened Duplicates

  /** A variable holding an expression tree; a place in it is a path. */
  class Tree {
    var root: Expr

    constructor (e: Expr)
      ensures root == e
    {
      root := e;
    }
  }

  class Rewriter {
    var transCount: nat

    constructor ()
      ensures transCount == 0
    {
      transCount := 0;
    }

    /** Constant elimination at a place. */
    method EliminateYnAt(t: Tree, p: Path)
      requires ValidPath(t.root, p)
      modifies t
      ensures t.root == Put(old(t.root), p, EliminateYn(At(old(t.root), p)))
      decreases Size(At(t.root, p))
    {
      ghost var was := t.root;
      var e := At(t.root, p);
      PutAt(was, p, e);
      if IsJunction(e) {
        BelowStep(was, p, Left);
        EliminateYnAt(t, p + [Left]);
        var l := EliminateYn(e.l);
        ghost var half := SetChild(e, Left, l);
        PutAt(was, p, half);
        BelowStep(t.root, p, Right);
        EliminateYnAt(t, p + [Right]);
        var r := EliminateYn(e.r);
        PutAt(was, p, SetChild(half, Right, r));
        var stop, skip := if e.And? then SymNo else SymYes, if e.And? then SymYes else SymNo;
        if l == Sym(stop) {
          t.root := Put(t.root, p, Sym(stop));
        } else if l == Sym(skip) {
          t.root := Put(t.root, p, r);
        } else if r == Sym(stop) {
          t.root := Put(t.root, p, Sym(stop));
        } else if r == Sym(skip) {
          t.root := Put(t.root, p, l);
        }
      }
    }

    /** Compares all operands at the level of op below two places of different trees
        and overwrites both members of each equal pair by the neutral constant. */
    method CancelWalkAt(op: Op, t1: Tree, p1: Path, t2: Tree, p2: Path)
      requires t1 != t2
      requires ValidPath(t1.root, p1) && ValidPath(t2.root, p2)
      modifies this, t1, t2
      ensures t1.root == Put(old(t1.root), p1, CancelWalk(op, At(old(t1.root), p1), At(old(t2.root), p2)).0)
      ensures t2.root == Put(old(t2.root), p2, CancelWalk(op, At(old(t1.root), p1), At(old(t2.root), p2)).1)
      ensures transCount >= old(transCount)
      decreases Size(At(t1.root, p1)) + Size(At(t2.root, p2)),
                if IsOp(op, At(t1.root, p1)) || IsOp(op, At(t2.root, p2)) then 1 else 4
    {
      ghost var was1, was2 := t1.root, t2.root;
      var a, b := At(t1.root, p1), At(t2.root, p2);
      PutAt(was1, p1, a);
      PutAt(was2, p2, b);
      if IsOp(op, a) {
        ghost var (l, b1) := CancelWalk(op, a.l, b);
        ghost var (r, b2) := CancelWalk(op, a.r, b1);
        BelowStep(was1, p1, Left);
        CancelWalkAt(op, t1, p1 + [Left], t2, p2);
        PutSteps(op, was1, p1, l, r);
        PutAt(was2, p2, b1);
        CancelWalkAt(op, t1, p1 + [Right], t2, p2);
        assert CancelWalk(op, a, b) == (Make(op, l, r), b2);
        return;
      }
      if IsOp(op, b) {
        ghost var (a1, l) := CancelWalk(op, a, b.l);
        ghost var (a2, r) := CancelWalk(op, a1, b.r);
        BelowStep(was2, p2, Left);
        CancelWalkAt(op, t1, p1, t2, p2 + [Left]);
        PutSteps(op, was2, p2, l, r);
        PutAt(was1, p1, a1);
        CancelWalkAt(op, t1, p1, t2, p2 + [Right]);
        assert CancelWalk(op, a, b) == (a2, Make(op, l, r));
        return;
      }
      CancelLeafAt(op, t1, p1, t2, p2);
    }

    /** Two operands, neither of which is a junction of the kind. */
    method CancelLeafAt(op: Op, t1: Tree, p1: Path, t2: Tree, p2: Path)
      requires t1 != t2
      requires ValidPath(t1.root, p1) && ValidPath(t2.root, p2)
      requires !IsOp(op, At(t1.root, p1)) && !IsOp(op, At(t2.root, p2))
      modifies this, t1, t2
      ensures t1.root == Put(old(t1.root), p1, CancelWalk(op, At(old(t1.root), p1), At(old(t2.root), p2)).0)
      ensures t2.root == Put(old(t2.root), p2, CancelWalk(op, At(old(t1.root), p1), At(old(t2.root), p2)).1)
      ensures transCount >= old(transCount)
      decreases Size(At(t1.root, p1)) + Size(At(t2.root, p2)), 4, 0
    {
      var a, b := At(t1.root, p1), At(t2.root, p2);
      PutAt(t1.root, p1, a);
      PutAt(t2.root, p2, b);
      if a.Sym? && b.Sym? && a.s == b.s && (a.s == SymYes || a.s == SymNo) {
        return;
      }
      var eq := ExpressionsEqual(a, b);
      if !eq {
        return;
      }
      transCount := transCount + 1;
      t1.root := Put(t1.root, p1, Neutral(op));
      t2.root := Put(t2.root, p2, Neutral(op));
    }

    /** Cancels common operands of two trees at both their levels. */
    method EliminateEqIn(t1: Tree, t2: Tree)
      requires t1 != t2
      modifies this, t1, t2
      ensures (t1.root, t2.root) == EliminateEq(old(t1.root), old(t2.root))
      ensures transCount >= old(transCount)
      decreases Size(t1.root) + Size(t2.root), 2
    {
      if IsJunction(t1.root) {
        CancelWalkAt(OpOf(t1.root), t1, [], t2, []);
      }
      if IsJunction(t2.root) && !IsOp(OpOf(t2.root), t1.root) {
        CancelWalkAt(OpOf(t2.root), t1, [], t2, []);
      }
      EliminateYnAt(t1, []);
      EliminateYnAt(t2, []);
    }

    /** Equality test: junctions are compared by cancelling copies of them, and the
        counter is put back. */
    method ExpressionsEqual(a: Expr, b: Expr) returns (eq: bool)
      modifies this
      ensures eq == ExprEq(a, b)
      ensures transCount == old(transCount)
      decreases Size(a) + Size(b), 3
    {
      match a {
        case Compare(rel, l, r) => eq := b.Compare? && b.rel == rel && b.ls == l && b.rs == r;
        case Sym(s) => eq := b.Sym? && b.s == s;
        case Not(x) =>
          if !b.Not? {
            return false;
          }
          eq := ExpressionsEqual(x, b.e);
        case _ =>
          if !IsOp(OpOf(a), b) {
            return false;
          }
          var t1 := new Tree(a);
          var t2 := new Tree(b);
          var oldCount := transCount;
          EliminateEqIn(t1, t2);
          eq := t1.root.Sym? && t2.root.Sym? && t1.root.s == t2.root.s;
          transCount := oldCount;
      }
    }

    method JoinOperands(op: Op, a: Expr, b: Expr) returns (x: Option<Expr>)
      modifies this
      ensures x == Join(op, a, b)
      ensures transCount == old(transCount)
    {
      var eq := ExpressionsEqual(a, b);
      x := if eq then Some(a) else JoinDifferent(op, a, b);
    }

    /** Compares the operands below p1 with those below p2 and joins what can be
        joined. Both places lie on one level of the same tree, rooted at q, and may
        overlap: the walk starts with p1 == p2 == q. */
    method EliminateDupsWalk(op: Op, t: Tree, p1: Path, p2: Path, ghost q: Path, ghost s1: Path, ghost s2: Path)
      requires p1 == q + s1 && p2 == q + s2 && ValidPath(t.root, q)
      requires OnSpine(op, At(t.root, q), s1) && OnSpine(op, At(t.root, q), s2)
      modifies this, t
      ensures t.root == Put(old(t.root), q, DupsWalk(op, At(old(t.root), q), s1, s2).0)
      ensures transCount == old(transCount) + DupsWalk(op, At(old(t.root), q), s1, s2).1
      decreases Size(At(t.root, q)),
                SpineSize(op, At(At(t.root, q), s1)) + SpineSize(op, At(At(t.root, q), s2))
    {
      hide Join, Put, SpineSize, Size;
      ghost var was, e := t.root, At(t.root, q);
      Below(was, q, s1);
      Below(was, q, s2);
      PutAt(was, q, e);
      if IsOp(op, At(t.root, p1)) {
        SpineStep(op, e, s1, Left);
        assert p1 + [Left] == q + (s1 + [Left]) && p1 + [Right] == q + (s1 + [Right]);
        EliminateDupsWalk(op, t, p1 + [Left], p2, q, s1 + [Left], s2);
        ghost var m := DupsWalk(op, e, s1 + [Left], s2).0;
        PutAt(was, q, m);
        SameLevel(op, e, m, s1, s2);
        SpineStep(op, m, s1, Right);
        EliminateDupsWalk(op, t, p1 + [Right], p2, q, s1 + [Right], s2);
      } else if IsOp(op, At(t.root, p2)) {
        SpineStep(op, e, s2, Left);
        assert p2 + [Left] == q + (s2 + [Left]) && p2 + [Right] == q + (s2 + [Right]);
        EliminateDupsWalk(op, t, p1, p2 + [Left], q, s1, s2 + [Left]);
        ghost var m := DupsWalk(op, e, s1, s2 + [Left]).0;
        PutAt(was, q, m);
        SameLevel(op, e, m, s1, s2);
        SpineStep(op, m, s2, Right);
        EliminateDupsWalk(op, t, p1, p2 + [Right], q, s1, s2 + [Right]);
      } else if p1 == p2 {
        assert s1 == p1[|q|..] == p2[|q|..] == s2;
      } else {
        EliminateDupsPair(op, t, p1, p2, q, s1, s2);
      }
    }

    /** Two different operands: simplify inside the first, then try to join. */
    method EliminateDupsPair(op: Op, t: Tree, p1: Path, p2: Path, ghost q: Path, ghost s1: Path, ghost s2: Path)
      requires p1 == q + s1 && p2 == q + s2 && s1 != s2 && ValidPath(t.root, q)
      requires LeafPath(op, At(t.root, q), s1) && LeafPath(op, At(t.root, q), s2)
      modifies this, t
      ensures t.root == Put(old(t.root), q, DupsPair(op, At(old(t.root), q), s1, s2).0)
      ensures transCount == old(transCount) + DupsPair(op, At(old(t.root), q), s1, s2).1
      decreases Size(At(t.root, q)), 0
    {
      hide Join, Put, Size;
      ghost var was, e := t.root, At(t.root, q);
      BothBelow(op, e, s1, s2);
      Below(was, q, s1);
      AtSize(e, s1);
      PutAt(was, q, e);
      PutAt(e, s1, At(e, s1));
      var a := At(t.root, p1);
      if IsJunction(a) {
        assert p1 == p1 + [];
        EliminateDupsWalk(OpOf(a), t, p1, p1, p1, [], []);
      }
      ghost var m := DupsInside(op, e, s1).0;
      assert t.root == Put(was, q, m);
      InsideKeeps(op, e, s1, s2, m);
      PutAt(was, q, m);
      Below(t.root, q, s1);
      Below(t.root, q, s2);
      var x := JoinOperands(op, At(t.root, p1), At(t.root, p2));
      if x.Some? {
        JoinedCorrect(op, m, s1, s2);
        ghost var m1 := Put(m, s1, Neutral(op));
        t.root := Put(t.root, p1, Neutral(op));
        PutAt(was, q, m1);
        Below(t.root, q, s2);
        t.root := Put(t.root, p2, x.value);
        transCount := transCount + 1;
      }
    }

    /** Joins duplicate and otherwise redundant operands until a whole pass finds
        nothing more, and puts the counter back. */
    method EliminateDups(t: Tree)
      modifies this, t
      ensures t.root == Dups(old(t.root))
      ensures transCount == old(transCount)
    {
      var oldCount := transCount;
      while true
        invariant Dups(t.root) == Dups(old(t.root))
        decreases Size(t.root)
      {
        transCount := 0;
        ghost var was := t.root;
        if IsJunction(t.root) {
          EliminateDupsWalk(OpOf(t.root), t, [], [], [], [], []);
        }
        if transCount == 0 {
          break;
        }
        EliminateYnExact(t.root);
        EliminateYnAt(t, []);
      }
      transCount := oldCount;
    }
  }
}
