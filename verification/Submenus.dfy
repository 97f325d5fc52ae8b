/** Exactly when the superset rule for automatic submenus is sound: the conditions may
    use any symbol as an operand whose comparison with n agrees with its value. */
module Submenus {
  import opened Exprs
  import opened Simplify
  import opened Places
  import opened Duplicates
  import opened Transforming
  import opened Conditions

  /** The rule is sound for one pair of conditions under one valuation. */
  predicate SoundFor(sym: Symbol, prompt: Option<Expr>, dep: Option<Expr>, env: Env) {
    Belongs(sym, prompt, dep) && !Absolute(dep, sym) && EvalOpt(dep, env) == YES ==> EvalOpt(prompt, env) != NO
  }

  /** All operands but u agree with n. */
  predicate OthersAgree(e: Expr, u: Symbol, env: Env) {
    match e
    case Sym(s) => s == u || Agrees(s, SymNo, env)
    case Not(x) => OthersAgree(x, u, env)
    case And(l, r) => OthersAgree(l, u, env) && OthersAgree(r, u, env)
    case Or(l, r) => OthersAgree(l, u, env) && OthersAgree(r, u, env)
    case Compare(_, _, _) => true
  }

  predicate OthersAgreeOpt(e: Option<Expr>, u: Symbol, env: Env) {
    e.Some? ==> OthersAgree(e.value, u, env)
  }

  lemma {:induction false} AllAgree(e: Expr, u: Symbol, env: Env)
    requires OthersAgree(e, u, env) && Agrees(u, SymNo, env)
    ensures OperandsAgree(e, SymNo, env)
  {
    match e
    case Not(x) => AllAgree(x, u, env);
    case And(l, r) => AllAgree(l, u, env); AllAgree(r, u, env);
    case Or(l, r) => AllAgree(l, u, env); AllAgree(r, u, env);
    case _ =>
  }

  /* ----- a pair that goes wrong ----- */

  /** (a || b) && x */
  function Guarded(a: Symbol, b: Symbol, x: Expr): Expr {
    And(Or(Sym(a), Sym(b)), x)
  }

  function NotN(s: Symbol): Expr {
    Compare(Unequal, s, SymNo)
  }

  function IsN(s: Symbol): Expr {
    Compare(Equal, s, SymNo)
  }

  /** With nothing to join at two operands and inside them, nothing can be joined. */
  lemma {:induction false} TwoOperands(op: Op, l: Expr, r: Expr)
    requires !IsOp(op, l) && !IsOp(op, r) && Saturated(l) && Saturated(r)
    requires Join(op, l, r).None? && Join(op, r, l).None?
    ensures Saturated(Make(op, l, r))
  {
    hide Join;
    var e := Make(op, l, r);
    forall s: Path | LeafPath(op, e, s)
      ensures s == [Left] || s == [Right]
    {
      OnlyTwo(op, l, r, s);
    }
    assert Child(e, Left) == l && Child(e, Right) == r;
    assert At(e, [Left]) == At(l, []) && At(e, [Right]) == At(r, []);
  }

  lemma OnlyTwo(op: Op, l: Expr, r: Expr, s: Path)
    requires !IsOp(op, l) && !IsOp(op, r) && LeafPath(op, Make(op, l, r), s)
    ensures s == [Left] || s == [Right]
  {
    var rest := s[1..];
    assert SpinePath(op, if s[0] == Left then l else r, rest);
    assert rest == [];
    assert s == [s[0]];
  }

  lemma NotNSaturated(s: Symbol)
    ensures Saturated(NotN(s))
  {
  }

  /** Both u and u != n reduce to u != n. */
  lemma ReducedSymbol(u: Symbol, x: Expr)
    requires u.Named? && !u.Typed() && (x == Sym(u) || x == NotN(u))
    ensures Reduce(Some(x)) == NotN(u)
  {
    assert TransCompare(x, Unequal, SymNo) == NotN(u);
    NotNSaturated(u);
    DupsFixed(NotN(u));
  }

  /** The conjunction with a || b reduces to a conjunction with the same operand. */
  lemma ReducedGuarded(a: Symbol, b: Symbol, u: Symbol, x: Expr)
    requires a.Type() == Tri && b.Type() == Tri && a != b
    requires u.Named? && !u.Typed() && (x == Sym(u) || x == NotN(u))
    ensures Reduce(Some(Guarded(a, b, x))) == And(Or(NotN(a), NotN(b)), NotN(u))
  {
    var e := Guarded(a, b, x);
    var either := And(IsN(a), IsN(b));
    var last := if x.Sym? then IsN(u) else Not(NotN(u));
    var r := And(Or(NotN(a), NotN(b)), NotN(u));
    assert TransCompare(x, Equal, SymNo) == last;
    assert TransCompare(Or(Sym(a), Sym(b)), Equal, SymNo) == either;
    assert TransCompare(e, Unequal, SymNo) == Not(Or(either, last));
    TransformGuarded(a, b, u, last);
    GuardedSaturated(a, b, u);
    DupsFixed(r);
  }

  lemma TransformGuarded(a: Symbol, b: Symbol, u: Symbol, last: Expr)
    requires a.Type() == Tri && b.Type() == Tri
    requires u.Named? && !u.Typed() && (last == IsN(u) || last == Not(NotN(u)))
    ensures Transform(Not(Or(And(IsN(a), IsN(b)), last))) == And(Or(NotN(a), NotN(b)), NotN(u))
  {
    var either := And(IsN(a), IsN(b));
    assert Transform(last) == IsN(u) by {
      assert Transform(NotN(u)) == NotN(u);
    }
    assert Transform(either) == either;
    assert Transform(Or(either, last)) == Or(either, IsN(u));
    assert Transform(Not(IsN(a))) == NotN(a) && Transform(Not(IsN(b))) == NotN(b) && Transform(Not(IsN(u))) == NotN(u);
    assert Transform(Not(either)) == Or(NotN(a), NotN(b)) by {
      assert TransformNot(either) == Transform(Or(Not(IsN(a)), Not(IsN(b))));
    }
    assert TransformNot(Or(either, IsN(u))) == Transform(And(Not(either), Not(IsN(u))));
  }

  lemma GuardedSaturated(a: Symbol, b: Symbol, u: Symbol)
    requires a.Type() == Tri && b.Type() == Tri && a != b
    ensures Saturated(And(Or(NotN(a), NotN(b)), NotN(u)))
  {
    NotNSaturated(a);
    NotNSaturated(b);
    NotNSaturated(u);
    TwoOperands(OrOp, NotN(a), NotN(b));
    TwoOperands(AndOp, Or(NotN(a), NotN(b)), NotN(u));
  }

  lemma GuardedCancels(l: Expr, u: Symbol)
    requires l.Or?
    ensures EliminateEq(And(l, NotN(u)), NotN(u)).1 == Sym(SymYes)
  {
    var e, n, yes := And(l, NotN(u)), NotN(u), Sym(SymYes);
    assert CancelWalk(AndOp, l, n) == (l, n);
    assert CancelWalk(AndOp, n, n) == (yes, yes);
    assert CancelWalk(AndOp, e, n) == (And(l, yes), yes);
    assert CancelFirst(e, n) == (And(l, yes), yes);
  }

  /** A symbol that is n without comparing equal to n guards the prompt, and its
      comparison the item; for one that is y and compares equal to n it is the other way
      round. */
  function BadPrompt(u: Symbol, isN: bool): Expr {
    if isN then Sym(u) else NotN(u)
  }

  function BadItem(u: Symbol, a: Symbol, b: Symbol, isN: bool): Expr {
    Guarded(a, b, if isN then NotN(u) else Sym(u))
  }

  lemma BadPairBelongs(u: Symbol, a: Symbol, b: Symbol, isN: bool)
    requires u.Named? && !u.Typed() && a.Type() == Tri && b.Type() == Tri && a != b
    ensures var prompt, dep := Some(BadPrompt(u, isN)), Some(BadItem(u, a, b, isN));
            Belongs(a, prompt, dep) && !Absolute(dep, a)
  {
    var p, d := BadPrompt(u, isN), BadItem(u, a, b, isN);
    ReducedSymbol(u, p);
    ReducedGuarded(a, b, u, d.r);
    GuardedCancels(Or(NotN(a), NotN(b)), u);
    var either, x := Or(Sym(a), Sym(b)), if isN then NotN(u) else Sym(u);
    assert d == And(either, x) && ContainsSymbol(either, a) && u != a;
    assert !DependsSymbol(either, a);
    assert !DependsSymbol(x, a);
    hide Reduce, EliminateEq;
    assert Superset(Some(p), Some(d));
  }

  lemma BadPairValues(u: Symbol, a: Symbol, b: Symbol, env: Env)
    requires WellFormed(env) && !Agrees(u, SymNo, env) && env.tri(a) == YES
    ensures Eval(BadPrompt(u, env.tri(u) == NO), env) == NO
    ensures Eval(BadItem(u, a, b, env.tri(u) == NO), env) == YES
  {
    assert Eval(Or(Sym(a), Sym(b)), env) == YES;
  }

  lemma TypedAgrees(s: Symbol, env: Env)
    requires WellFormed(env) && s.Typed()
    ensures Agrees(s, SymNo, env)
  {
  }

  lemma BadPairOperands(u: Symbol, a: Symbol, b: Symbol, env: Env)
    requires WellFormed(env) && a.Typed() && b.Typed()
    ensures forall isN: bool :: OthersAgree(BadPrompt(u, isN), u, env) && OthersAgree(BadItem(u, a, b, isN), u, env)
    ensures forall isN: bool :: Constants(BadPrompt(u, isN)) == {} && Constants(BadItem(u, a, b, isN)) == {}
  {
    TypedAgrees(a, env);
    TypedAgrees(b, env);
    hide WellFormed, Agrees;
    assert OthersAgree(Sym(a), u, env) && OthersAgree(Sym(b), u, env) && OthersAgree(Sym(u), u, env);
    assert OthersAgree(Or(Sym(a), Sym(b)), u, env);
    forall isN: bool
      ensures Constants(BadPrompt(u, isN)) == {} && Constants(BadItem(u, a, b, isN)) == {}
    {
      BadPairConstants(u, a, b, isN);
    }
  }

  lemma BadPairConstants(u: Symbol, a: Symbol, b: Symbol, isN: bool)
    ensures Constants(BadPrompt(u, isN)) == {} && Constants(BadItem(u, a, b, isN)) == {}
  {
    assert NotN(u) == Compare(Unequal, u, SymNo) && IsN(u) == Compare(Equal, u, SymNo);
    assert Constants(NotN(u)) == {} && Constants(IsN(u)) == {};
    assert Constants(Sym(a)) == {} && Constants(Sym(b)) == {} && Constants(Sym(u)) == {};
    assert Constants(Or(Sym(a), Sym(b))) == {} + {};
  }

  /** An absorbed item that is y while the prompt of the symbol above is n. */
  lemma UnsoundPair(u: Symbol, a: Symbol, b: Symbol, env: Env)
    requires WellFormed(env) && !Agrees(u, SymNo, env)
    requires a.Type() == Tri && b.Type() == Tri && a != b && env.tri(a) == YES
    ensures var prompt, dep := Some(BadPrompt(u, env.tri(u) == NO)), Some(BadItem(u, a, b, env.tri(u) == NO));
            && OthersAgreeOpt(prompt, u, env) && OthersAgreeOpt(dep, u, env)
            && ConstantsOpt(prompt) == {} && ConstantsOpt(dep) == {}
            && !SoundFor(a, prompt, dep, env)
  {
    LettersAgreeThemselves(u, env);
    hide WellFormed, BadPrompt, BadItem, Belongs, Absolute, Agrees;
    BadPairBelongs(u, a, b, env.tri(u) == NO);
    BadPairValues(u, a, b, env);
    BadPairOperands(u, a, b, env);
  }

  /** A symbol that does not agree is neither y, m or n nor of bool or tristate type. */
  lemma LettersAgreeThemselves(u: Symbol, env: Env)
    requires WellFormed(env) && !Agrees(u, SymNo, env)
    ensures u.Named? && !u.Typed() && env.tri(u) != MOD
  {
  }

  /** No tristate symbol equals two of y, m and n. */
  lemma LettersDistinct(env: Env)
    requires WellFormed(env)
    ensures ConstantsDistinct({}, env)
  {
    forall s: Symbol | s.Type() == Tri
      ensures s.Typed()
    {
    }
  }

  /** If all other operands agree, the rule is sound for all conditions just when the
      comparison of u with n agrees with the value of u. */
  lemma SoundJustWhenAgreeing(u: Symbol, a: Symbol, b: Symbol, env: Env)
    requires WellFormed(env) && a.Type() == Tri && b.Type() == Tri && a != b && env.tri(a) == YES
    ensures Agrees(u, SymNo, env) <==>
      forall sym: Symbol, prompt: Option<Expr>, dep: Option<Expr> ::
        OthersAgreeOpt(prompt, u, env) && OthersAgreeOpt(dep, u, env) && ConstantsDistinct(ConstantsOpt(prompt) + ConstantsOpt(dep), env)
        ==> SoundFor(sym, prompt, dep, env)
  {
    hide Belongs, Absolute, WellFormed, Agrees, ConstantsDistinct;
    if Agrees(u, SymNo, env) {
      forall sym: Symbol, prompt: Option<Expr>, dep: Option<Expr> |
        OthersAgreeOpt(prompt, u, env) && OthersAgreeOpt(dep, u, env) && ConstantsDistinct(ConstantsOpt(prompt) + ConstantsOpt(dep), env)
        ensures SoundFor(sym, prompt, dep, env)
      {
        AgreeingIsSound(u, sym, prompt, dep, env);
      }
    } else {
      UnsoundPair(u, a, b, env);
      LettersDistinct(env);
      var prompt, dep := Some(BadPrompt(u, env.tri(u) == NO)), Some(BadItem(u, a, b, env.tri(u) == NO));
      assert ConstantsOpt(prompt) + ConstantsOpt(dep) == {};
      assert !SoundFor(a, prompt, dep, env);
    }
  }

  lemma AgreeingIsSound(u: Symbol, sym: Symbol, prompt: Option<Expr>, dep: Option<Expr>, env: Env)
    requires WellFormed(env) && Agrees(u, SymNo, env)
    requires OthersAgreeOpt(prompt, u, env) && OthersAgreeOpt(dep, u, env) && ConstantsDistinct(ConstantsOpt(prompt) + ConstantsOpt(dep), env)
    ensures SoundFor(sym, prompt, dep, env)
  {
    hide Belongs, Absolute, WellFormed, Agrees, ConstantsDistinct, OperandsAgree, OthersAgree;
    if prompt.Some? {
      AllAgree(prompt.value, u, env);
    }
    if dep.Some? {
      AllAgree(dep.value, u, env);
    }
    if Belongs(sym, prompt, dep) {
      BelongsJustified(sym, prompt, dep, env);
    }
  }
}
