/** The modules symbol: what evaluation finds once it is finished, and when evaluating the
    modules symbol itself finds the values that it is to find. */
module Modules {
  import opened Exprs
  import opened Symbols
  import opened Goals
  import opened SymEval

  /** Acyclic dependencies, the values to be found, and a mode of evaluation that the value
      of the modules symbol confirms. */
  ghost predicate Steady(c: Config, vals: Values, rank: Symbol -> nat, m: Option<Symbol>) {
    && Ranked(c, rank) && IsSolution(c, vals)
    && (m.Some? ==> vals(m.value).tri == c.sys.modules)
  }

  /* ----- once the modules symbol is finished ----- */

  /** Any symbol may be evaluated, and all see the finished modules symbol. */
  ghost function Whole(c: Config, vals: Values, rank: Symbol -> nat, m: Option<Symbol>): Goal {
    Goal(vals, rank, iset s: Symbol | s.Named? && m == Some(s), iset s: Symbol | s.Named?, iset{}, m, c.sys.modules, c.sys.modules)
  }

  /** s has the value to be found, the bounds and the write mark. */
  ghost predicate Found(c: Config, vals: Values, st: States, s: Symbol) {
    && Done(c, vals, st, s)
    && (s.Named? && HasType(s) ==> (StateIn(st, s).write <==> Written(c.sys, s, EnvOf(c.sys, vals))))
  }

  lemma WholeTarget(c: Config, vals: Values, rank: Symbol -> nat, m: Option<Symbol>)
    requires Steady(c, vals, rank, m)
    ensures Target(c, Whole(c, vals, rank, m))
  {
    hide Reads, StepFrom, EnvAs, DependsOn;
    var g := Whole(c, vals, rank, m);
    forall s: Symbol
      ensures g.vals(s) == StepFrom(c, s, BoundsEnv(c.sys, g, s), ValueEnv(c.sys, g, s), g.vals)
    {
      assert vals(s) == Step(c, s, vals);
    }
  }

  lemma WholeFresh(c: Config, vals: Values, rank: Symbol -> nat, m: Option<Symbol>, st: States, s: Symbol)
    ensures Fresh(c, Whole(c, vals, rank, m), st, s) <==> Found(c, vals, st, s)
  {
  }

  /** With the modules symbol finished, nothing is asked of it any more but its value. */
  lemma WholeOn(c: Config, vals: Values, rank: Symbol -> nat, m: Option<Symbol>, valid: set<Symbol>, st: States)
    requires Steady(c, vals, rank, m) && Marked(m, valid) && (m.Some? && m.value.Named? ==> CurrIn(st, m.value) == vals(m.value))
    ensures On(c, Whole(c, vals, rank, m), c.sys.modules, valid, st)
  {
    WholeTarget(c, vals, rank, m);
    if m.Some? && !m.value.Named? {
      assert vals(m.value) == Step(c, m.value, vals);
    }
    hide Target;
  }

  /** Evaluation has only added symbols that are found; self was in progress. */
  ghost predicate Extended(c: Config, vals: Values, self: set<Symbol>, v: set<Symbol>, st: States, v': set<Symbol>, st': States) {
    && (forall s <- v :: s !in self ==> StateIn(st', s) == StateIn(st, s))
    && (forall s <- v' :: s !in v ==> Found(c, vals, st', s))
    && (forall s: Symbol :: !HasType(s) ==> StateIn(st', s).write == StateIn(st, s).write)
  }

  lemma GrownExtended(c: Config, vals: Values, rank: Symbol -> nat, m: Option<Symbol>, self: set<Symbol>, v: set<Symbol>, st: States, v': set<Symbol>, st': States)
    requires Grown(c, Whole(c, vals, rank, m), self, v, st, v', st')
    ensures Extended(c, vals, self, v, st, v', st')
  {
    hide Fresh, Found, ReadIn, Whole;
    forall s <- v' | s !in v
      ensures Found(c, vals, st', s)
    {
      WholeFresh(c, vals, rank, m, st', s);
    }
  }

  lemma FoundSame(c: Config, vals: Values, a: States, b: States, s: Symbol)
    requires StateIn(a, s) == StateIn(b, s)
    ensures Found(c, vals, a, s) ==> Found(c, vals, b, s)
  {
  }

  lemma ExtendedNothing(c: Config, vals: Values, v: set<Symbol>, st: States)
    ensures forall self: set<Symbol> :: Extended(c, vals, self, v, st, v, st)
  {
  }

  lemma ExtendedTrans(c: Config, vals: Values, self: set<Symbol>, v0: set<Symbol>, s0: States, v1: set<Symbol>, s1: States, v2: set<Symbol>, s2: States)
    requires v0 <= v1 <= v2 && self <= v0
    requires Extended(c, vals, self, v0, s0, v1, s1) && Extended(c, vals, self, v1, s1, v2, s2)
    ensures Extended(c, vals, self, v0, s0, v2, s2)
  {
    hide Found;
    forall s <- v2 | s !in v0
      ensures Found(c, vals, s2, s)
    {
      if s in v1 {
        FoundSame(c, vals, s1, s2, s);
      }
    }
  }

  /** The modules symbol is finished, and so is every valid symbol. */
  ghost predicate Ready(c: Config, vals: Values, rank: Symbol -> nat, m: Option<Symbol>, valid: set<Symbol>, st: States) {
    && Steady(c, vals, rank, m) && Marked(m, valid)
    && forall s <- valid :: Done(c, vals, st, s)
  }

  /** Evaluation can go on from there, with whatever symbol. */
  lemma ReadyOn(c: Config, vals: Values, rank: Symbol -> nat, m: Option<Symbol>, valid: set<Symbol>, st: States)
    requires Ready(c, vals, rank, m, valid, st)
    ensures Steady(c, vals, rank, m) && Marked(m, valid) && NowIn(m, c.sys.modules, st) == c.sys.modules
    ensures var g := Whole(c, vals, rank, m);
      && On(c, g, c.sys.modules, valid, st) && g.m == m && g.rank == rank && g.vals == vals
      && (forall k: nat :: DoneBelow(g, k, valid, st))
      && (forall s: Symbol :: s.Named? ==> s in g.scope && PrintsBounds(g, s) == c.sys.modules)
      && (forall k: nat, t: Symbol :: rank(t) < k ==> Askable(g, valid, c.sys.modules, k, t))
  {
    WholeOn(c, vals, rank, m, valid, st);
    hide Target, Steady, VisibleOf, DirDepOf, RevDepOf, ImpliedOf, EnvOf;
  }

  lemma ReadyExtended(c: Config, vals: Values, rank: Symbol -> nat, m: Option<Symbol>,
                      v: set<Symbol>, st: States, v': set<Symbol>, st': States)
    requires Ready(c, vals, rank, m, v, st) && Extended(c, vals, {}, v, st, v', st') && v <= v'
    ensures Ready(c, vals, rank, m, v', st')
  {
    hide Steady, VisibleOf, DirDepOf, RevDepOf, ImpliedOf, EnvOf, Written;
  }

  /** What the evaluation of s asks for may be asked for. */
  lemma ReadyAsks(c: Config, vals: Values, rank: Symbol -> nat, m: Option<Symbol>, valid: set<Symbol>, st: States, s: Symbol)
    requires Ready(c, vals, rank, m, valid, st)
    ensures var g, env := Whole(c, vals, rank, m), EnvOf(c.sys, vals);
      && BoundsEnv(c.sys, g, s) == ValueEnv(c.sys, g, s) == EnvOf(c.sys, vals)
      && AskBounds(c.sys, g, valid, c.sys.modules, s)
      && (forall t: Symbol :: CondReads(DeclOf(c.sys, s).defaults, env, t) ==> Askable(g, valid, c.sys.modules, rank(s), t))
  {
    ReadyOn(c, vals, rank, m, valid, st);
    ReadsBelow(c, EnvOf(c.sys, vals), rank, s);
    hide Askable, BoundReads, CondReads, Ready, Steady, EnvAs, DependsOn;
  }

  lemma ReadsBelow(c: Config, env: Env, rank: Symbol -> nat, s: Symbol)
    requires Ranked(c, rank)
    ensures forall t: Symbol :: BoundReads(c.sys, s, env, t) || CondReads(DeclOf(c.sys, s).defaults, env, t) ==> rank(t) < rank(s)
  {
    hide BoundReads, CondReads;
    forall t: Symbol | BoundReads(c.sys, s, env, t) || CondReads(DeclOf(c.sys, s).defaults, env, t)
      ensures rank(t) < rank(s)
    {
      if CondReads(DeclOf(c.sys, s).defaults, env, t) {
        CondReadsIn(DeclOf(c.sys, s).defaults, env, t);
      } else {
        ReadsDepend(c, s, env, env, t);
      }
    }
  }

  /** So may any expression that decides s. */
  lemma OwnAsks(c: Config, vals: Values, rank: Symbol -> nat, m: Option<Symbol>, valid: set<Symbol>, s: Symbol, e: Option<Expr>)
    requires Ranked(c, rank) && s in c.sys.decls && OwnExpr(c.sys.decls, s, e)
    ensures AskOpt(Whole(c, vals, rank, m), valid, c.sys.modules, rank(s), e)
  {
    if e.Some? {
      OwnDependencies(c.sys.decls, s, e.value);
      hide DependsOn, ExprOf;
    }
  }

  /** One call of sym_calc_value from outside. When plain, there are no choices and the
      modules symbol is finished, and then s gets its value. */
  method CalcTop(ev: Evaluator, s: Symbol, ghost plain: bool, ghost vals: Values, ghost rank: Symbol -> nat)
    requires ev.ChoicesClosed() && AllClosed(ev.decls) && Closed(ev.decls, s)
    requires plain ==> ev.Plain() && Ready(ev.Cfg(), vals, rank, ev.modulesSym, ev.valid, ev.state)
    modifies ev`modulesVal, ev`valid, ev`state, ev`pending, ev`user, ev`stored
    ensures plain ==> ev.Plain() && ev.user == old(ev.user) && ev.modulesVal == old(ev.modulesVal)
    ensures plain ==> Ready(ev.Cfg(), vals, rank, ev.modulesSym, ev.valid, ev.state)
    ensures plain ==> old(ev.valid) <= ev.valid && (s.Named? ==> s in ev.valid)
    ensures plain ==> Extended(ev.Cfg(), vals, {}, old(ev.valid), old(ev.state), ev.valid, ev.state)
    ensures plain ==> CurrIn(ev.state, s) == vals(s)
  {
    hide *;
    ghost var c, g := ev.Cfg(), Whole(ev.Cfg(), vals, rank, ev.modulesSym);
    ev.SeenIs(g);
    ev.HeadingIs(g);
    if plain {
      ReadyOn(c, vals, rank, ev.modulesSym, ev.valid, ev.state);
      MarkedNot(ev.modulesSym, ev.valid, s);
      AlreadyDone(c, g, rank(s) + 1, c.sys.modules, ev.valid, ev.state, s);
    }
    ev.CalcValue(s, plain, g);
    ev.SeenIs(g);
    ev.HeadingIs(g);
    if plain {
      GrownExtended(c, vals, rank, ev.modulesSym, {}, old(ev.valid), old(ev.state), ev.valid, ev.state);
      ev.SameCfg(c);
      ReadyExtended(c, vals, rank, ev.modulesSym, old(ev.valid), old(ev.state), ev.valid, ev.state);
    }
  }

  /* ----- while it is being evaluated ----- */

  /** Neither evaluated for t's sake nor before: given when the modules symbol m is asked
      for. */
  ghost predicate GivenTo(fixed: iset<Symbol>, m: Symbol, t: Symbol) {
    !t.Named? || t in fixed || t == m
  }

  ghost predicate EarlyClosed(c: Config, vals: Values, fixed: iset<Symbol>, m: Symbol, e: iset<Symbol>) {
    var env := EnvOf(c.sys, vals);
    && (forall t: Symbol :: BoundReads(c.sys, m, env, t) ==> GivenTo(fixed, m, t) || t in e)
    && (forall s: Symbol, t: Symbol :: s in e && s !in fixed && Reads(c, s, env, env, t) ==> GivenTo(fixed, m, t) || t in e)
  }

  ghost predicate IsReadEarly(c: Config, vals: Values, fixed: iset<Symbol>, m: Symbol, u: Symbol) {
    forall e: iset<Symbol> :: EarlyClosed(c, vals, fixed, m, e) ==> u in e
  }

  /** The symbols that the evaluation of m reads for its bounds, and they in turn. */
  ghost function EarlyOf(c: Config, vals: Values, fixed: iset<Symbol>, m: Symbol): iset<Symbol> {
    iset u: Symbol | IsReadEarly(c, vals, fixed, m, u)
  }

  /** What is seen while m is unfinished at n. */
  ghost function Unfinished(c: Config, vals: Values): Env {
    EnvAs(c.sys, NO, vals)
  }

  ghost predicate LateClosed(c: Config, vals: Values, fixed: iset<Symbol>, m: Symbol, l: iset<Symbol>) {
    var early, env := EarlyOf(c, vals, fixed, m), Unfinished(c, vals);
    && (forall t: Symbol :: HasType(m) && ValueReads(c, m, EnvOf(c.sys, vals), env, t) ==> GivenTo(fixed, m, t) || t in early || t in l)
    && (forall s: Symbol, t: Symbol :: s in l && s !in fixed && Reads(c, s, env, env, t) ==> GivenTo(fixed, m, t) || t in early || t in l)
  }

  ghost predicate IsReadLate(c: Config, vals: Values, fixed: iset<Symbol>, m: Symbol, u: Symbol) {
    forall l: iset<Symbol> :: LateClosed(c, vals, fixed, m, l) ==> u in l
  }

  /** The other symbols that it reads, for its value. */
  ghost function LateOf(c: Config, vals: Values, fixed: iset<Symbol>, m: Symbol): iset<Symbol> {
    iset u: Symbol | IsReadLate(c, vals, fixed, m, u)
  }

  /** The bounds, value and mark of s do not change if all that is m is printed as n; for m
      itself only its value is computed then. */
  ghost predicate Stable(c: Config, vals: Values, m: Symbol, s: Symbol) {
    var env := EnvOf(c.sys, vals);
    HasType(s) ==>
      SameAt(c, s, if s == m then env else Unfinished(c, vals), Unfinished(c, vals), vals, env, env, vals)
  }

  /** Nothing that is evaluated for the value of m is disturbed by m being unfinished. */
  ghost predicate Settles(c: Config, vals: Values, fixed: iset<Symbol>, m: Symbol) {
    forall s: Symbol :: s == m || s in LateOf(c, vals, fixed, m) ==> Stable(c, vals, m, s)
  }

  /* ----- the sets ----- */

  lemma EarlyIsClosed(c: Config, vals: Values, fixed: iset<Symbol>, m: Symbol)
    ensures EarlyClosed(c, vals, fixed, m, EarlyOf(c, vals, fixed, m))
  {
    hide BoundReads, Reads, EnvOf;
  }

  lemma EarlyBelow(c: Config, vals: Values, rank: Symbol -> nat, fixed: iset<Symbol>, m: Symbol)
    requires Ranked(c, rank)
    ensures forall s: Symbol :: s in EarlyOf(c, vals, fixed, m) ==> rank(s) < rank(m) && s.Named? && s !in fixed
  {
    var env, early := EnvOf(c.sys, vals), EarlyOf(c, vals, fixed, m);
    var e := iset s: Symbol | s in early && rank(s) < rank(m) && s.Named? && s !in fixed;
    EarlyIsClosed(c, vals, fixed, m);
    forall s: Symbol, t: Symbol | (s == m && BoundReads(c.sys, s, env, t)) || Reads(c, s, env, env, t)
      ensures rank(t) < rank(s)
    {
      ReadsDepend(c, s, env, env, t);
    }
    hide BoundReads, Reads, EnvOf, EarlyOf;
    assert EarlyClosed(c, vals, fixed, m, e);
    EarlyLeast(c, vals, fixed, m, e);
  }

  lemma EarlyLeast(c: Config, vals: Values, fixed: iset<Symbol>, m: Symbol, e: iset<Symbol>)
    requires EarlyClosed(c, vals, fixed, m, e)
    ensures EarlyOf(c, vals, fixed, m) <= e
  {
    hide EarlyClosed;
  }

  lemma LateIsClosed(c: Config, vals: Values, fixed: iset<Symbol>, m: Symbol)
    ensures LateClosed(c, vals, fixed, m, LateOf(c, vals, fixed, m))
  {
    hide ValueReads, Reads, EnvOf, EarlyOf, Unfinished;
  }

  lemma LateLeast(c: Config, vals: Values, fixed: iset<Symbol>, m: Symbol, l: iset<Symbol>)
    requires LateClosed(c, vals, fixed, m, l)
    ensures LateOf(c, vals, fixed, m) <= l
  {
    hide LateClosed;
  }

  lemma LateBelow(c: Config, vals: Values, rank: Symbol -> nat, fixed: iset<Symbol>, m: Symbol)
    requires Ranked(c, rank)
    ensures forall s: Symbol :: s in LateOf(c, vals, fixed, m) ==>
      rank(s) < rank(m) && s.Named? && s !in fixed && s !in EarlyOf(c, vals, fixed, m)
  {
    var env, late, early := Unfinished(c, vals), LateOf(c, vals, fixed, m), EarlyOf(c, vals, fixed, m);
    var l := iset s: Symbol | s in late && rank(s) < rank(m) && s.Named? && s !in fixed && s !in early;
    LateIsClosed(c, vals, fixed, m);
    forall t: Symbol | ValueReads(c, m, EnvOf(c.sys, vals), env, t)
      ensures rank(t) < rank(m)
    {
      ReadsDepend(c, m, EnvOf(c.sys, vals), env, t);
    }
    forall s: Symbol, t: Symbol | Reads(c, s, env, env, t)
      ensures rank(t) < rank(s)
    {
      ReadsDepend(c, s, env, env, t);
    }
    hide ValueReads, Reads, EnvOf, EarlyOf, LateOf, Unfinished;
    assert LateClosed(c, vals, fixed, m, l);
    LateLeast(c, vals, fixed, m, l);
  }

  /* ----- what the run finds ----- */

  /** What evaluating m computes for every symbol: what is fixed stays, what is early sees
      the finished m, all else sees m at n. */
  ghost function MixedAt(c: Config, rank: Symbol -> nat, vals: Values, fixed: iset<Symbol>, m: Symbol, s: Symbol): Value
    decreases rank(s)
  {
    var w: Values := t => if rank(t) < rank(s) then MixedAt(c, rank, vals, fixed, m, t) else Value("", NO);
    if s.Named? && s in fixed then vals(s) else MixedStep(c, vals, fixed, m, s, w)
  }

  ghost function MixedStep(c: Config, vals: Values, fixed: iset<Symbol>, m: Symbol, s: Symbol, w: Values): Value {
    var early := s in EarlyOf(c, vals, fixed, m);
    StepFrom(c, s, EnvAs(c.sys, if early || s == m then c.sys.modules else NO, w), EnvAs(c.sys, if early then c.sys.modules else NO, w), w)
  }

  ghost function Mixed(c: Config, rank: Symbol -> nat, vals: Values, fixed: iset<Symbol>, m: Symbol): Values {
    (s: Symbol) => MixedAt(c, rank, vals, fixed, m, s)
  }

  lemma StepDepends(c: Config, s: Symbol, p: Tristate, q: Tristate, a: Values, b: Values)
    requires forall t: Symbol :: DependsOn(c.sys.decls, s, t) ==> a(t) == b(t)
    ensures StepFrom(c, s, EnvAs(c.sys, p, a), EnvAs(c.sys, q, a), a) == StepFrom(c, s, EnvAs(c.sys, p, b), EnvAs(c.sys, q, b), b)
  {
    if HasType(s) {
      forall t: Symbol | Reads(c, s, EnvAs(c.sys, p, a), EnvAs(c.sys, q, a), t)
        ensures a(t) == b(t)
      {
        ReadsDepend(c, s, EnvAs(c.sys, p, a), EnvAs(c.sys, q, a), t);
      }
      hide Reads, EnvAs, DependsOn, SameBounds, StepFrom;
      ReadsSame(c, s, p, q, a, b);
    }
  }

  lemma MixedSolves(c: Config, rank: Symbol -> nat, vals: Values, fixed: iset<Symbol>, m: Symbol, s: Symbol)
    requires Ranked(c, rank)
    ensures var w := Mixed(c, rank, vals, fixed, m);
      w(s) == if s.Named? && s in fixed then vals(s) else MixedStep(c, vals, fixed, m, s, w)
  {
    var w := Mixed(c, rank, vals, fixed, m);
    var v: Values := t => if rank(t) < rank(s) then MixedAt(c, rank, vals, fixed, m, t) else Value("", NO);
    var early := s in EarlyOf(c, vals, fixed, m);
    hide EarlyOf, DependsOn, StepFrom, EnvAs;
    StepDepends(c, s, if early || s == m then c.sys.modules else NO, if early then c.sys.modules else NO, v, w);
  }

  /** What is early gets its value. */
  lemma {:induction false} EarlyValue(c: Config, rank: Symbol -> nat, vals: Values, fixed: iset<Symbol>, m: Symbol, s: Symbol)
    requires Ranked(c, rank) && IsSolution(c, vals) && (s in EarlyOf(c, vals, fixed, m) || !s.Named? || s in fixed)
    ensures MixedAt(c, rank, vals, fixed, m, s) == vals(s)
    decreases rank(s)
  {
    var w, env := Mixed(c, rank, vals, fixed, m), EnvOf(c.sys, vals);
    MixedSolves(c, rank, vals, fixed, m, s);
    assert vals(s) == Step(c, s, vals);
    EarlyBelow(c, vals, rank, fixed, m);
    EarlyIsClosed(c, vals, fixed, m);
    if s in EarlyOf(c, vals, fixed, m) && HasType(s) {
      forall t: Symbol | Reads(c, s, env, env, t)
        ensures vals(t) == w(t)
      {
        ReadsDepend(c, s, env, env, t);
        EarlyValue(c, rank, vals, fixed, m, t);
      }
      hide Reads, EnvAs, EarlyOf, SameBounds, MixedAt, StepFrom;
      ReadsSame(c, s, c.sys.modules, c.sys.modules, vals, w);
    }
  }

  /* ----- the goal of the run ----- */

  ghost predicate ScopeClosed(c: Config, g: Goal, m: Symbol, e: iset<Symbol>) {
    && m in e
    && (forall s: Symbol, t: Symbol :: s in e && s !in g.fixed && ReadsFor(c, g, s, t) ==> Given(g, t) || t in e)
  }

  ghost predicate IsInScope(c: Config, g: Goal, m: Symbol, u: Symbol) {
    forall e: iset<Symbol> :: ScopeClosed(c, g, m, e) ==> u in e
  }

  ghost function Unscoped(c: Config, rank: Symbol -> nat, vals: Values, fixed: iset<Symbol>, m: Symbol): Goal {
    Goal(Mixed(c, rank, vals, fixed, m), rank, fixed, iset{}, EarlyOf(c, vals, fixed, m), Some(m), c.sys.modules, NO)
  }

  /** The goal of a run that evaluates m, while the symbols in fixed are finished. */
  ghost function RunGoal(c: Config, rank: Symbol -> nat, vals: Values, fixed: iset<Symbol>, m: Symbol): Goal {
    var g := Unscoped(c, rank, vals, fixed, m);
    g.(scope := iset u: Symbol | IsInScope(c, g, m, u))
  }

  lemma ScopeIsClosed(c: Config, g: Goal, m: Symbol)
    ensures ScopeClosed(c, g, m, iset u: Symbol | IsInScope(c, g, m, u))
  {
    hide ReadsFor, Given;
  }

  lemma ScopeLeast(c: Config, g: Goal, m: Symbol, e: iset<Symbol>)
    requires ScopeClosed(c, g, m, e)
    ensures (iset u: Symbol | IsInScope(c, g, m, u)) <= e
  {
    hide ScopeClosed;
  }

  /** What m reads for its bounds it reads with the same values. */
  lemma BoundsReadSame(c: Config, rank: Symbol -> nat, vals: Values, fixed: iset<Symbol>, m: Symbol)
    requires Ranked(c, rank) && IsSolution(c, vals)
    ensures var w := Mixed(c, rank, vals, fixed, m);
      && SameBounds(c.sys, m, EnvOf(c.sys, vals), EnvAs(c.sys, c.sys.modules, w))
      && forall t: Symbol :: BoundReads(c.sys, m, EnvAs(c.sys, c.sys.modules, w), t) <==> BoundReads(c.sys, m, EnvOf(c.sys, vals), t)
  {
    var w, env := Mixed(c, rank, vals, fixed, m), EnvOf(c.sys, vals);
    var d := iset t: Symbol | vals(t) == w(t);
    EarlyIsClosed(c, vals, fixed, m);
    forall t: Symbol | BoundReads(c.sys, m, env, t)
      ensures t in d
    {
      ReadsDepend(c, m, env, env, t);
      EarlyValue(c, rank, vals, fixed, m, t);
    }
    hide BoundReads, EarlyOf, MixedAt, ReadsFor;
    BoundsSame(c.sys, m, env, EnvAs(c.sys, c.sys.modules, w), d);
  }

  /** And so does what is early. */
  lemma EarlyReadSame(c: Config, rank: Symbol -> nat, vals: Values, fixed: iset<Symbol>, m: Symbol, s: Symbol)
    requires Ranked(c, rank) && IsSolution(c, vals) && s in EarlyOf(c, vals, fixed, m) && HasType(s)
    ensures var w, env := Mixed(c, rank, vals, fixed, m), EnvOf(c.sys, vals);
      && SameAt(c, s, env, env, vals, EnvAs(c.sys, c.sys.modules, w), EnvAs(c.sys, c.sys.modules, w), w)
      && forall t: Symbol :: Reads(c, s, EnvAs(c.sys, c.sys.modules, w), EnvAs(c.sys, c.sys.modules, w), t) <==> Reads(c, s, env, env, t)
  {
    var w, env := Mixed(c, rank, vals, fixed, m), EnvOf(c.sys, vals);
    EarlyIsClosed(c, vals, fixed, m);
    EarlyBelow(c, vals, rank, fixed, m);
    forall t: Symbol | Reads(c, s, env, env, t)
      ensures vals(t) == w(t)
    {
      ReadsDepend(c, s, env, env, t);
      EarlyValue(c, rank, vals, fixed, m, t);
    }
    hide Reads, EarlyOf, MixedAt, SameAt;
    ReadsSame(c, s, c.sys.modules, c.sys.modules, vals, w);
  }

  /** For early symbols the goal says what the configuration says. */
  lemma EarlyReadsFor(c: Config, rank: Symbol -> nat, vals: Values, fixed: iset<Symbol>, m: Symbol, s: Symbol)
    requires Ranked(c, rank) && IsSolution(c, vals) && s in EarlyOf(c, vals, fixed, m)
    ensures var g, env := RunGoal(c, rank, vals, fixed, m), EnvOf(c.sys, vals);
      forall t: Symbol :: ReadsFor(c, g, s, t) <==> Reads(c, s, env, env, t)
  {
    if HasType(s) {
      EarlyReadSame(c, rank, vals, fixed, m, s);
    }
    hide BoundReads, ValueReads, EnvAs, EarlyOf, Mixed, IsInScope, SameAt;
  }

  lemma RunTarget(c: Config, rank: Symbol -> nat, vals: Values, fixed: iset<Symbol>, m: Symbol)
    requires Ranked(c, rank) && IsSolution(c, vals)
    ensures Target(c, RunGoal(c, rank, vals, fixed, m))
  {
    RunAgrees(c, rank, vals, fixed, m);
    RunEncloses(c, rank, vals, fixed, m);
  }

  lemma RunAgrees(c: Config, rank: Symbol -> nat, vals: Values, fixed: iset<Symbol>, m: Symbol)
    requires Ranked(c, rank) && IsSolution(c, vals)
    ensures Agreeing(c, RunGoal(c, rank, vals, fixed, m))
  {
    var g := RunGoal(c, rank, vals, fixed, m);
    hide DependsOn, IsInScope, EarlyOf, StepFrom, EnvAs, IsSolution, MixedAt;
    forall s: Symbol | !s.Named? || s !in g.fixed
      ensures g.vals(s) == StepFrom(c, s, BoundsEnv(c.sys, g, s), ValueEnv(c.sys, g, s), g.vals)
    {
      MixedSolves(c, rank, vals, fixed, m, s);
    }
  }

  lemma ScopeFree(c: Config, rank: Symbol -> nat, vals: Values, fixed: iset<Symbol>, m: Symbol, s: Symbol, t: Symbol)
    ensures var g, u := RunGoal(c, rank, vals, fixed, m), Unscoped(c, rank, vals, fixed, m);
      && (ReadsFor(c, g, s, t) <==> ReadsFor(c, u, s, t))
      && Given(g, t) == Given(u, t) == GivenTo(fixed, m, t)
  {
    hide Reads, EarlyOf, Mixed, IsInScope, EnvAs;
  }

  lemma ScopeEncloses(c: Config, rank: Symbol -> nat, vals: Values, fixed: iset<Symbol>, m: Symbol)
    ensures ScopeClosed(c, RunGoal(c, rank, vals, fixed, m), m, RunGoal(c, rank, vals, fixed, m).scope)
  {
    var g, u := RunGoal(c, rank, vals, fixed, m), Unscoped(c, rank, vals, fixed, m);
    ScopeIsClosed(c, u, m);
    assert m in g.scope && g.scope == iset v: Symbol | IsInScope(c, u, m, v);
    hide ReadsFor, IsInScope, EarlyOf, Mixed, GivenTo, Given;
    forall s: Symbol, t: Symbol | s in g.scope && s !in g.fixed && ReadsFor(c, g, s, t)
      ensures Given(g, t) || t in g.scope
    {
      ScopeFree(c, rank, vals, fixed, m, s, t);
    }
  }

  lemma RunEncloses(c: Config, rank: Symbol -> nat, vals: Values, fixed: iset<Symbol>, m: Symbol)
    requires Ranked(c, rank) && IsSolution(c, vals)
    ensures Enclosed(c, RunGoal(c, rank, vals, fixed, m))
  {
    var g := RunGoal(c, rank, vals, fixed, m);
    ScopeEncloses(c, rank, vals, fixed, m);
    EarlyEncloses(c, rank, vals, fixed, m);
    BoundsEnclosed(c, rank, vals, fixed, m);
    hide ReadsFor, BoundReads, EarlyOf, Mixed, IsInScope, Given, IsSolution, BoundsEnv;
  }

  lemma EarlyEncloses(c: Config, rank: Symbol -> nat, vals: Values, fixed: iset<Symbol>, m: Symbol)
    requires Ranked(c, rank) && IsSolution(c, vals)
    ensures var g := RunGoal(c, rank, vals, fixed, m);
      forall s: Symbol, t: Symbol :: s in g.early && s !in g.fixed && ReadsFor(c, g, s, t) ==> Given(g, t) || t in g.early
  {
    var g := RunGoal(c, rank, vals, fixed, m);
    EarlyIsClosed(c, vals, fixed, m);
    hide ReadsFor, Reads, EarlyOf, Mixed, IsInScope, IsSolution, EnvOf;
    forall s: Symbol, t: Symbol | s in g.early && s !in g.fixed && ReadsFor(c, g, s, t)
      ensures Given(g, t) || t in g.early
    {
      EarlyReadsFor(c, rank, vals, fixed, m, s);
    }
  }

  lemma BoundsEnclosed(c: Config, rank: Symbol -> nat, vals: Values, fixed: iset<Symbol>, m: Symbol)
    requires Ranked(c, rank) && IsSolution(c, vals)
    ensures var g := RunGoal(c, rank, vals, fixed, m);
      forall t: Symbol :: BoundReads(c.sys, m, BoundsEnv(c.sys, g, m), t) ==> Given(g, t) || t in g.early
  {
    EarlyIsClosed(c, vals, fixed, m);
    BoundsReadSame(c, rank, vals, fixed, m);
    hide BoundReads, Reads, EarlyOf, Mixed, IsInScope, IsSolution, EnvAs, SameBounds;
  }

  lemma RunEarly(c: Config, rank: Symbol -> nat, vals: Values, fixed: iset<Symbol>, m: Symbol)
    requires Ranked(c, rank) && IsSolution(c, vals)
    ensures IsEarly(c, RunGoal(c, rank, vals, fixed, m), m)
  {
    var g := RunGoal(c, rank, vals, fixed, m);
    BoundsReadSame(c, rank, vals, fixed, m);
    forall s: Symbol | s in g.early
      ensures forall t: Symbol :: ReadsFor(c, g, s, t) <==> Reads(c, s, EnvOf(c.sys, vals), EnvOf(c.sys, vals), t)
    {
      EarlyReadsFor(c, rank, vals, fixed, m, s);
    }
    hide BoundReads, Reads, EarlyOf, Mixed, IsInScope, EnvAs, IsSolution, SameBounds, ReadsFor;
    EarlyIsClosed(c, vals, fixed, m);
    forall e: iset<Symbol> | EarlyWithin(c, g, m, e)
      ensures g.early <= e
    {
      EarlyIsLeast(c, rank, vals, fixed, m, e);
    }
  }

  lemma EarlyIsLeast(c: Config, rank: Symbol -> nat, vals: Values, fixed: iset<Symbol>, m: Symbol, e: iset<Symbol>)
    requires var g, env := RunGoal(c, rank, vals, fixed, m), EnvOf(c.sys, vals);
      && EarlyWithin(c, g, m, e)
      && (forall t: Symbol :: BoundReads(c.sys, m, BoundsEnv(c.sys, g, m), t) <==> BoundReads(c.sys, m, env, t))
      && (forall s: Symbol, t: Symbol :: s in g.early ==> (ReadsFor(c, g, s, t) <==> Reads(c, s, env, env, t)))
    ensures EarlyOf(c, vals, fixed, m) <= e
  {
    var g, env := RunGoal(c, rank, vals, fixed, m), EnvOf(c.sys, vals);
    EarlyIsClosed(c, vals, fixed, m);
    assert g.fixed == fixed && g.early == EarlyOf(c, vals, fixed, m) && forall t: Symbol :: Given(g, t) <==> GivenTo(fixed, m, t);
    hide BoundReads, Reads, ReadsFor, EarlyOf, IsReadEarly, EnvAs, BoundsEnv, Given, GivenTo, RunGoal;
    var both := iset s: Symbol | s in e && s in g.early;
    assert EarlyClosed(c, vals, fixed, m, both);
    EarlyLeast(c, vals, fixed, m, both);
  }

  /* ----- when the run finds the values ----- */

  ghost predicate LateStable(c: Config, vals: Values, fixed: iset<Symbol>, m: Symbol) {
    forall s: Symbol :: s in LateOf(c, vals, fixed, m) ==> Stable(c, vals, m, s)
  }

  /** If what is late is stable, it gets its value. */
  lemma {:induction false} LateValue(c: Config, rank: Symbol -> nat, vals: Values, fixed: iset<Symbol>, m: Symbol, s: Symbol)
    requires Ranked(c, rank) && IsSolution(c, vals) && LateStable(c, vals, fixed, m)
    requires s in LateOf(c, vals, fixed, m) || s in EarlyOf(c, vals, fixed, m) || !s.Named? || s in fixed
    ensures MixedAt(c, rank, vals, fixed, m, s) == vals(s)
    decreases rank(s)
  {
    if s !in LateOf(c, vals, fixed, m) {
      EarlyValue(c, rank, vals, fixed, m, s);
    } else {
      var w, env := Mixed(c, rank, vals, fixed, m), Unfinished(c, vals);
      MixedSolves(c, rank, vals, fixed, m, s);
      assert vals(s) == Step(c, s, vals);
      LateBelow(c, vals, rank, fixed, m);
      LateIsClosed(c, vals, fixed, m);
      if HasType(s) {
        forall t: Symbol | Reads(c, s, env, env, t)
          ensures vals(t) == w(t)
        {
          ReadsDepend(c, s, env, env, t);
          LateValue(c, rank, vals, fixed, m, t);
        }
        assert Stable(c, vals, m, s);
        hide Reads, EnvAs, EarlyOf, LateOf, SameBounds, MixedAt, StepFrom, WrittenFrom;
        ReadsSame(c, s, NO, NO, vals, w);
      }
    }
  }

  /** Two runs in which a late symbol reads the same. */
  lemma LateReadSame(c: Config, rank: Symbol -> nat, vals: Values, fixed: iset<Symbol>, m: Symbol, s: Symbol)
    requires Ranked(c, rank) && s in LateOf(c, vals, fixed, m) && HasType(s)
    requires var w, env := Mixed(c, rank, vals, fixed, m), Unfinished(c, vals);
      forall t: Symbol :: Reads(c, s, env, env, t) ==> vals(t) == w(t)
    ensures var w, env, g := Mixed(c, rank, vals, fixed, m), Unfinished(c, vals), RunGoal(c, rank, vals, fixed, m);
      && BoundsEnv(c.sys, g, s) == ValueEnv(c.sys, g, s) == EnvAs(c.sys, NO, w)
      && SameAt(c, s, env, env, vals, EnvAs(c.sys, NO, w), EnvAs(c.sys, NO, w), w)
      && forall t: Symbol :: ReadsFor(c, g, s, t) <==> Reads(c, s, env, env, t)
  {
    LateBelow(c, vals, rank, fixed, m);
    hide Reads, EarlyOf, LateOf, Mixed, SameAt, EnvAs, IsInScope;
    ReadsSame(c, s, NO, NO, vals, Mixed(c, rank, vals, fixed, m));
  }

  /** The same for the modules symbol. */
  lemma SelfReadSame(c: Config, rank: Symbol -> nat, vals: Values, fixed: iset<Symbol>, m: Symbol)
    requires Ranked(c, rank) && HasType(m)
    requires var w := Mixed(c, rank, vals, fixed, m);
      forall t: Symbol :: Reads(c, m, EnvOf(c.sys, vals), Unfinished(c, vals), t) ==> vals(t) == w(t)
    ensures var w, g := Mixed(c, rank, vals, fixed, m), RunGoal(c, rank, vals, fixed, m);
      && BoundsEnv(c.sys, g, m) == EnvAs(c.sys, c.sys.modules, w) && ValueEnv(c.sys, g, m) == EnvAs(c.sys, NO, w)
      && SameAt(c, m, EnvOf(c.sys, vals), Unfinished(c, vals), vals, BoundsEnv(c.sys, g, m), ValueEnv(c.sys, g, m), w)
      && forall t: Symbol :: ReadsFor(c, g, m, t) <==> Reads(c, m, EnvOf(c.sys, vals), Unfinished(c, vals), t)
  {
    EarlyBelow(c, vals, rank, fixed, m);
    hide Reads, EarlyOf, LateOf, Mixed, SameAt, EnvAs, IsInScope;
    ReadsSame(c, m, c.sys.modules, NO, vals, Mixed(c, rank, vals, fixed, m));
  }

  /** What m reads is given, early or late. */
  lemma SelfReads(c: Config, vals: Values, rank: Symbol -> nat, fixed: iset<Symbol>, m: Symbol, t: Symbol)
    requires Ranked(c, rank) && Reads(c, m, EnvOf(c.sys, vals), Unfinished(c, vals), t)
    ensures rank(t) < rank(m)
    ensures !t.Named? || t in fixed || t in EarlyOf(c, vals, fixed, m) || t in LateOf(c, vals, fixed, m)
  {
    EarlyIsClosed(c, vals, fixed, m);
    LateIsClosed(c, vals, fixed, m);
    ReadsDepend(c, m, EnvOf(c.sys, vals), Unfinished(c, vals), t);
    hide BoundReads, ValueReads, EarlyOf, LateOf, EnvOf, Unfinished;
  }

  /** So does what is late. */
  lemma LateReads(c: Config, vals: Values, rank: Symbol -> nat, fixed: iset<Symbol>, m: Symbol, s: Symbol, t: Symbol)
    requires Ranked(c, rank) && s in LateOf(c, vals, fixed, m) && Reads(c, s, Unfinished(c, vals), Unfinished(c, vals), t)
    ensures rank(t) < rank(m)
    ensures !t.Named? || t in fixed || t in EarlyOf(c, vals, fixed, m) || t in LateOf(c, vals, fixed, m)
  {
    LateBelow(c, vals, rank, fixed, m);
    LateIsClosed(c, vals, fixed, m);
    ReadsDepend(c, s, Unfinished(c, vals), Unfinished(c, vals), t);
    hide Reads, EarlyOf, LateOf, Unfinished;
  }

  /** If what is late is stable, only what is early or late is evaluated. */
  lemma SettledScope(c: Config, rank: Symbol -> nat, vals: Values, fixed: iset<Symbol>, m: Symbol)
    requires Ranked(c, rank) && IsSolution(c, vals) && LateStable(c, vals, fixed, m)
    ensures forall s: Symbol :: s in RunGoal(c, rank, vals, fixed, m).scope && s.Named? && s !in fixed ==>
      s == m || s in EarlyOf(c, vals, fixed, m) || s in LateOf(c, vals, fixed, m)
  {
    var g, early, late := RunGoal(c, rank, vals, fixed, m), EarlyOf(c, vals, fixed, m), LateOf(c, vals, fixed, m);
    var e := iset s: Symbol | !s.Named? || s in fixed || s == m || s in early || s in late;
    hide ReadsFor, Reads, EarlyOf, LateOf, Mixed, IsInScope, Given, LateStable;
    var u := Unscoped(c, rank, vals, fixed, m);
    forall s: Symbol, t: Symbol | s in e && s !in fixed && ReadsFor(c, u, s, t)
      ensures t in e
    {
      ScopeFree(c, rank, vals, fixed, m, s, t);
      SettledReads(c, rank, vals, fixed, m, s, t);
    }
    assert ScopeClosed(c, u, m, e);
    ScopeLeast(c, u, m, e);
  }

  lemma SettledReads(c: Config, rank: Symbol -> nat, vals: Values, fixed: iset<Symbol>, m: Symbol, s: Symbol, t: Symbol)
    requires Ranked(c, rank) && IsSolution(c, vals) && LateStable(c, vals, fixed, m)
    requires !s.Named? || s == m || s in EarlyOf(c, vals, fixed, m) || s in LateOf(c, vals, fixed, m)
    requires ReadsFor(c, RunGoal(c, rank, vals, fixed, m), s, t)
    ensures !t.Named? || t in fixed || t == m || t in EarlyOf(c, vals, fixed, m) || t in LateOf(c, vals, fixed, m)
  {
    SymbolNamed(s);
    if s == m {
      SettledSelf(c, rank, vals, fixed, m);
      SelfReads(c, vals, rank, fixed, m, t);
    } else if s in EarlyOf(c, vals, fixed, m) {
      EarlyReadsFor(c, rank, vals, fixed, m, s);
      EarlyIsClosed(c, vals, fixed, m);
      EarlyBelow(c, vals, rank, fixed, m);
      hide BoundReads, Reads, EarlyOf, LateOf, EnvOf;
    } else {
      SettledLate(c, rank, vals, fixed, m, s);
      LateReads(c, vals, rank, fixed, m, s, t);
    }
  }

  lemma SettledSelf(c: Config, rank: Symbol -> nat, vals: Values, fixed: iset<Symbol>, m: Symbol)
    requires Ranked(c, rank) && IsSolution(c, vals) && LateStable(c, vals, fixed, m) && HasType(m)
    ensures var w, g := Mixed(c, rank, vals, fixed, m), RunGoal(c, rank, vals, fixed, m);
      && BoundsEnv(c.sys, g, m) == EnvAs(c.sys, c.sys.modules, w) && ValueEnv(c.sys, g, m) == EnvAs(c.sys, NO, w)
      && SameAt(c, m, EnvOf(c.sys, vals), Unfinished(c, vals), vals, BoundsEnv(c.sys, g, m), ValueEnv(c.sys, g, m), w)
      && forall t: Symbol :: ReadsFor(c, g, m, t) <==> Reads(c, m, EnvOf(c.sys, vals), Unfinished(c, vals), t)
  {
    hide Reads, LateStable, IsSolution, EarlyOf, LateOf;
    forall t: Symbol | Reads(c, m, EnvOf(c.sys, vals), Unfinished(c, vals), t)
      ensures vals(t) == Mixed(c, rank, vals, fixed, m)(t)
    {
      SelfReads(c, vals, rank, fixed, m, t);
      LateValue(c, rank, vals, fixed, m, t);
    }
    hide *;
    SelfReadSame(c, rank, vals, fixed, m);
  }

  lemma SettledLate(c: Config, rank: Symbol -> nat, vals: Values, fixed: iset<Symbol>, m: Symbol, s: Symbol)
    requires Ranked(c, rank) && IsSolution(c, vals) && LateStable(c, vals, fixed, m) && s in LateOf(c, vals, fixed, m) && HasType(s)
    ensures var w, env, g := Mixed(c, rank, vals, fixed, m), Unfinished(c, vals), RunGoal(c, rank, vals, fixed, m);
      && BoundsEnv(c.sys, g, s) == ValueEnv(c.sys, g, s) == EnvAs(c.sys, NO, w)
      && SameAt(c, s, env, env, vals, EnvAs(c.sys, NO, w), EnvAs(c.sys, NO, w), w)
      && forall t: Symbol :: ReadsFor(c, g, s, t) <==> Reads(c, s, env, env, t)
  {
    hide Reads, LateStable, IsSolution, EarlyOf, LateOf;
    forall t: Symbol | Reads(c, s, Unfinished(c, vals), Unfinished(c, vals), t)
      ensures vals(t) == Mixed(c, rank, vals, fixed, m)(t)
    {
      LateReads(c, vals, rank, fixed, m, s, t);
      LateValue(c, rank, vals, fixed, m, t);
    }
    hide *;
    LateReadSame(c, rank, vals, fixed, m, s);
  }

  lemma SameAtTrans(c: Config, s: Symbol, p: Env, q: Env, a: Values, p': Env, q': Env, b: Values, p'': Env, q'': Env, d: Values)
    requires SameAt(c, s, p, q, a, p', q', b)
    ensures SameAt(c, s, p', q', b, p, q, a)
    ensures SameAt(c, s, p, q, a, p'', q'', d) <==> SameAt(c, s, p', q', b, p'', q'', d)
  {
    hide StepFrom, WrittenFrom, VisibleOf, DirDepOf, RevDepOf, ImpliedOf;
  }

  /** A symbol that was just evaluated is found just when the run gives it what the
      configuration does. */
  lemma FreshFound(c: Config, g: Goal, vals: Values, st: States, s: Symbol)
    requires Target(c, g) && IsSolution(c, vals) && s.Named? && s !in g.fixed && Fresh(c, g, st, s)
    ensures !HasType(s) ==> Found(c, vals, st, s)
    ensures HasType(s) ==> (Found(c, vals, st, s) <==>
      SameAt(c, s, BoundsEnv(c.sys, g, s), ValueEnv(c.sys, g, s), g.vals, EnvOf(c.sys, vals), EnvOf(c.sys, vals), vals))
    ensures Found(c, vals, st, s) ==> g.vals(s) == vals(s)
  {
    TargetStep(c, g, s);
    assert vals(s) == Step(c, s, vals);
    hide Target, IsSolution, BoundsEnv, ValueEnv, EnvOf, VisibleOf, DirDepOf, RevDepOf, ImpliedOf, TristateFrom, TextFrom, WrittenUnseen;
  }

  /** Every symbol that the run evaluated is found. */
  ghost predicate AllFound(c: Config, vals: Values, v0: set<Symbol>, v: set<Symbol>, st: States) {
    forall s <- v :: s !in v0 ==> Found(c, vals, st, s)
  }

  ghost function FixedBy(valid: set<Symbol>): iset<Symbol> {
    iset s: Symbol | s in valid
  }

  lemma SettledFound(c: Config, rank: Symbol -> nat, vals: Values, fixed: iset<Symbol>, m: Symbol, st: States, s: Symbol)
    requires Ranked(c, rank) && IsSolution(c, vals) && Settles(c, vals, fixed, m) && s.Named? && s !in fixed
    requires s == m || s in EarlyOf(c, vals, fixed, m) || s in LateOf(c, vals, fixed, m)
    requires Fresh(c, RunGoal(c, rank, vals, fixed, m), st, s)
    ensures Found(c, vals, st, s)
  {
    var g, w, env, no := RunGoal(c, rank, vals, fixed, m), Mixed(c, rank, vals, fixed, m), EnvOf(c.sys, vals), Unfinished(c, vals);
    RunTarget(c, rank, vals, fixed, m);
    FreshFound(c, g, vals, st, s);
    EarlyBelow(c, vals, rank, fixed, m);
    LateBelow(c, vals, rank, fixed, m);
    if HasType(s) {
      if s == m {
        assert Stable(c, vals, m, m);
        SettledSelf(c, rank, vals, fixed, m);
        hide Target, IsSolution, EarlyOf, LateOf, Mixed, SameAt, Fresh, Found, EnvAs, Reads, IsInScope;
        SameAtTrans(c, m, env, no, vals, BoundsEnv(c.sys, g, m), ValueEnv(c.sys, g, m), w, env, env, vals);
      } else if s in EarlyOf(c, vals, fixed, m) {
        EarlyReadSame(c, rank, vals, fixed, m, s);
        hide Target, IsSolution, EarlyOf, LateOf, Mixed, SameAt, Fresh, Found, EnvAs, Reads, IsInScope;
        SameAtTrans(c, s, env, env, vals, BoundsEnv(c.sys, g, s), ValueEnv(c.sys, g, s), w, env, env, vals);
      } else {
        assert Stable(c, vals, m, s);
        SettledLate(c, rank, vals, fixed, m, s);
        hide Target, IsSolution, EarlyOf, LateOf, Mixed, SameAt, Fresh, Found, EnvAs, Reads, IsInScope;
        SameAtTrans(c, s, no, no, vals, BoundsEnv(c.sys, g, s), ValueEnv(c.sys, g, s), w, env, env, vals);
      }
    }
  }

  /** If what m and the symbols in v that are neither fixed nor early read is in v, then
      what is late is among them. */
  lemma LateCovered(c: Config, vals: Values, v0: set<Symbol>, v: set<Symbol>, m: Symbol)
    requires forall s: Symbol, t: Symbol ::
      LateEnvReads(c, vals, m, s, t) && (s == m || (s in v && s !in v0 && s !in EarlyOf(c, vals, FixedBy(v0), m))) ==> t.Named? ==> t in v
    ensures forall s: Symbol :: s in LateOf(c, vals, FixedBy(v0), m) ==> s in v && s !in v0
  {
    var fixed, early := FixedBy(v0), EarlyOf(c, vals, FixedBy(v0), m);
    var l := iset s: Symbol | s in v && s !in v0 && s !in early && s != m;
    forall t: Symbol | HasType(m) && ValueReads(c, m, EnvOf(c.sys, vals), Unfinished(c, vals), t)
      ensures GivenTo(fixed, m, t) || t in early || t in l
    {
      SelfValueReads(c, vals, m, t);
    }
    forall s: Symbol, t: Symbol | s in l && s !in fixed && Reads(c, s, Unfinished(c, vals), Unfinished(c, vals), t)
      ensures GivenTo(fixed, m, t) || t in early || t in l
    {
      assert LateEnvReads(c, vals, m, s, t);
    }
    hide Reads, ValueReads, EarlyOf, LateOf, Unfinished, EnvOf, LateEnvReads, GivenTo;
    assert LateClosed(c, vals, fixed, m, l);
    LateLeast(c, vals, fixed, m, l);
  }

  /** If all is found, what is late was evaluated. */
  lemma LateEvaluated(c: Config, rank: Symbol -> nat, vals: Values, v0: set<Symbol>, st0: States, v: set<Symbol>, st: States, m: Symbol)
    requires Ranked(c, rank) && IsSolution(c, vals) && m in v && m !in v0 && m.Named?
    requires Grown(c, RunGoal(c, rank, vals, FixedBy(v0), m), {}, v0, st0, v, st)
    requires forall s <- v :: s.Named? ==> Mixed(c, rank, vals, FixedBy(v0), m)(s) == vals(s)
    ensures forall s: Symbol :: s in LateOf(c, vals, FixedBy(v0), m) ==> s in v && s !in v0
    ensures forall s: Symbol, t: Symbol :: (s == m || s in LateOf(c, vals, FixedBy(v0), m)) && LateEnvReads(c, vals, m, s, t) ==>
      vals(t) == Mixed(c, rank, vals, FixedBy(v0), m)(t)
  {
    var early, w := EarlyOf(c, vals, FixedBy(v0), m), Mixed(c, rank, vals, FixedBy(v0), m);
    hide Reads, EarlyOf, LateOf, Mixed, Unfinished, IsInScope, EnvOf, Fresh, ReadIn, IsSolution, LateEnvReads, Ranked;
    forall s: Symbol, t: Symbol | LateEnvReads(c, vals, m, s, t) && (s == m || (s in v && s !in v0 && s !in early))
      ensures (t.Named? ==> t in v) && vals(t) == w(t)
    {
      EvaluatedReads(c, rank, vals, v0, v, m, s);
    }
    LateCovered(c, vals, v0, v, m);
    LateBelow(c, vals, rank, FixedBy(v0), m);
  }

  /** What s reads if m is finished for the bounds of m only. */
  ghost predicate LateEnvReads(c: Config, vals: Values, m: Symbol, s: Symbol, t: Symbol) {
    Reads(c, s, if s == m then EnvOf(c.sys, vals) else Unfinished(c, vals), Unfinished(c, vals), t)
  }

  lemma SelfValueReads(c: Config, vals: Values, m: Symbol, t: Symbol)
    requires HasType(m) && ValueReads(c, m, EnvOf(c.sys, vals), Unfinished(c, vals), t)
    ensures LateEnvReads(c, vals, m, m, t)
  {
    hide BoundReads, ValueReads, EnvOf, Unfinished;
  }

  lemma EvaluatedReads(c: Config, rank: Symbol -> nat, vals: Values, v0: set<Symbol>, v: set<Symbol>, m: Symbol, s: Symbol)
    requires Ranked(c, rank) && IsSolution(c, vals) && (s == m || s !in EarlyOf(c, vals, FixedBy(v0), m))
    requires ReadIn(c, RunGoal(c, rank, vals, FixedBy(v0), m), s, v)
    requires forall u <- v :: u.Named? ==> Mixed(c, rank, vals, FixedBy(v0), m)(u) == vals(u)
    ensures forall t: Symbol :: LateEnvReads(c, vals, m, s, t) ==> vals(t) == Mixed(c, rank, vals, FixedBy(v0), m)(t)
    ensures forall t: Symbol :: t.Named? && LateEnvReads(c, vals, m, s, t) ==> t in v
  {
    var fixed, g, w := FixedBy(v0), RunGoal(c, rank, vals, FixedBy(v0), m), Mixed(c, rank, vals, FixedBy(v0), m);
    EarlyBelow(c, vals, rank, fixed, m);
    if HasType(s) {
      forall t: Symbol | ReadsFor(c, g, s, t)
        ensures w(t) == vals(t)
      {
        if !t.Named? {
          EarlyValue(c, rank, vals, fixed, m, t);
        }
      }
      hide Reads, EarlyOf, Mixed, IsInScope, SameAt, EnvAs, IsSolution;
      ReadsSame(c, s, if s == m then c.sys.modules else NO, NO, w, vals);
    }
  }

  lemma FoundSettles(c: Config, rank: Symbol -> nat, vals: Values, v0: set<Symbol>, st0: States, v: set<Symbol>, st: States, m: Symbol)
    requires Ranked(c, rank) && IsSolution(c, vals) && m in v && m !in v0 && m.Named?
    requires Grown(c, RunGoal(c, rank, vals, FixedBy(v0), m), {}, v0, st0, v, st) && AllFound(c, vals, v0, v, st)
    ensures Settles(c, vals, FixedBy(v0), m)
  {
    var fixed, g, w := FixedBy(v0), RunGoal(c, rank, vals, FixedBy(v0), m), Mixed(c, rank, vals, FixedBy(v0), m);
    RunTarget(c, rank, vals, fixed, m);
    forall s <- v | s.Named?
      ensures w(s) == vals(s)
    {
      if s in v0 {
        EarlyValue(c, rank, vals, fixed, m, s);
      } else {
        FreshFound(c, g, vals, st, s);
      }
    }
    LateEvaluated(c, rank, vals, v0, st0, v, st, m);
    LateBelow(c, vals, rank, fixed, m);
    forall s: Symbol | s == m || s in LateOf(c, vals, fixed, m)
      ensures Stable(c, vals, m, s)
    {
      if HasType(s) {
        FreshFound(c, g, vals, st, s);
        FoundStable(c, rank, vals, fixed, m, s);
      }
    }
  }

  lemma FoundStable(c: Config, rank: Symbol -> nat, vals: Values, fixed: iset<Symbol>, m: Symbol, s: Symbol)
    requires Ranked(c, rank) && HasType(s) && (s == m || s in LateOf(c, vals, fixed, m))
    requires forall t: Symbol :: LateEnvReads(c, vals, m, s, t) ==> vals(t) == Mixed(c, rank, vals, fixed, m)(t)
    requires var g := RunGoal(c, rank, vals, fixed, m);
      SameAt(c, s, BoundsEnv(c.sys, g, s), ValueEnv(c.sys, g, s), g.vals, EnvOf(c.sys, vals), EnvOf(c.sys, vals), vals)
    ensures Stable(c, vals, m, s)
  {
    var g, w, env, no := RunGoal(c, rank, vals, fixed, m), Mixed(c, rank, vals, fixed, m), EnvOf(c.sys, vals), Unfinished(c, vals);
    LateBelow(c, vals, rank, fixed, m);
    hide Reads, EarlyOf, LateOf, Mixed, SameAt, EnvAs, IsInScope;
    if s == m {
      SelfReadSame(c, rank, vals, fixed, m);
      SameAtTrans(c, m, env, no, vals, BoundsEnv(c.sys, g, m), ValueEnv(c.sys, g, m), w, env, env, vals);
    } else {
      LateReadSame(c, rank, vals, fixed, m, s);
      SameAtTrans(c, s, no, no, vals, BoundsEnv(c.sys, g, s), ValueEnv(c.sys, g, s), w, env, env, vals);
    }
  }

  /** A run that evaluates the modules symbol finds every value, bound and mark just when
      nothing that is evaluated for its value changes if m is printed as n. */
  lemma RunExact(c: Config, rank: Symbol -> nat, vals: Values, v0: set<Symbol>, st0: States, v: set<Symbol>, st: States, m: Symbol)
    requires Ranked(c, rank) && IsSolution(c, vals) && m in v && m !in v0 && m.Named?
    requires Grown(c, RunGoal(c, rank, vals, FixedBy(v0), m), {}, v0, st0, v, st)
    ensures AllFound(c, vals, v0, v, st) <==> Settles(c, vals, FixedBy(v0), m)
  {
    var fixed, g := FixedBy(v0), RunGoal(c, rank, vals, FixedBy(v0), m);
    if AllFound(c, vals, v0, v, st) {
      FoundSettles(c, rank, vals, v0, st0, v, st, m);
    }
    if Settles(c, vals, fixed, m) {
      SettledScope(c, rank, vals, fixed, m);
      hide Settles, EarlyOf, LateOf, Fresh, ReadIn, RunGoal, IsSolution, Done;
      forall s <- v | s !in v0
        ensures Found(c, vals, st, s)
      {
        if s.Named? {
          SettledFound(c, rank, vals, fixed, m, st, s);
        } else {
          UnnamedFound(c, vals, st, s);
        }
      }
    }
  }

  lemma UnnamedFound(c: Config, vals: Values, st: States, s: Symbol)
    requires !s.Named?
    ensures Found(c, vals, st, s)
  {
  }

  lemma RunStarts(c: Config, rank: Symbol -> nat, vals: Values, m: Symbol, valid: set<Symbol>, st: States)
    requires Ranked(c, rank) && IsSolution(c, vals) && m !in valid && NowIn(Some(m), c.sys.modules, st) == c.sys.modules
    requires forall s <- valid :: CurrIn(st, s) == vals(s)
    ensures var g := RunGoal(c, rank, vals, FixedBy(valid), m);
      && g.m == Some(m) && g.after == NO && PrintsBounds(g, m) == c.sys.modules && OnlySelf(g, m, valid) && m in g.scope
      && On(c, g, c.sys.modules, valid, st) && DoneBelow(g, g.rank(m), valid, st)
      && g.vals == Mixed(c, rank, vals, FixedBy(valid), m)
  {
    var g := RunGoal(c, rank, vals, FixedBy(valid), m);
    RunTarget(c, rank, vals, FixedBy(valid), m);
    ScopeEncloses(c, rank, vals, FixedBy(valid), m);
    hide Target, IsInScope, EarlyOf;
    forall s <- valid | s.Named?
      ensures g.vals(s) == vals(s)
    {
      EarlyValue(c, rank, vals, FixedBy(valid), m, s);
    }
    hide Ranked, IsSolution, MixedAt;
  }

  lemma RunKeeps(c: Config, g: Goal, v0: set<Symbol>, st0: States, v: set<Symbol>, st: States)
    requires Grown(c, g, {}, v0, st0, v, st)
    ensures forall s <- v0 :: StateIn(st, s) == StateIn(st0, s)
    ensures forall s: Symbol :: !HasType(s) ==> StateIn(st, s).write == StateIn(st0, s).write
  {
    hide Fresh, ReadIn;
  }

  lemma FoundValue(c: Config, vals: Values, v0: set<Symbol>, v: set<Symbol>, st: States, m: Symbol)
    requires AllFound(c, vals, v0, v, st) && m in v && m !in v0 && m.Named?
    ensures CurrIn(st, m) == vals(m)
  {
  }

  /** Evaluates a modules symbol that is not valid, while it and the mode of evaluation
      still agree. When plain, there are no choices: all is found exactly when the symbols
      settle, and then the mode stays. */
  method CalcModules(ev: Evaluator, m: Symbol, ghost plain: bool, ghost vals: Values, ghost rank: Symbol -> nat)
    requires ev.ChoicesClosed() && AllClosed(ev.decls) && Closed(ev.decls, m)
    requires plain ==> ev.Plain() && ev.modulesSym == Some(m) && m !in ev.valid && ev.Now() == ev.modulesVal
    requires plain ==> Ranked(ev.Cfg(), rank) && IsSolution(ev.Cfg(), vals) && vals(m).tri == ev.modulesVal
    requires plain ==> forall s <- ev.valid :: CurrIn(ev.state, s) == vals(s)
    modifies ev`modulesVal, ev`valid, ev`state, ev`pending, ev`user, ev`stored
    ensures plain ==> ev.Plain() && ev.user == old(ev.user) && old(ev.valid) <= ev.valid && (m.Named? ==> m in ev.valid)
    ensures plain ==> forall s <- old(ev.valid) :: StateIn(ev.state, s) == StateIn(old(ev.state), s)
    ensures plain ==> forall s: Symbol :: !HasType(s) ==> StateIn(ev.state, s).write == StateIn(old(ev.state), s).write
    ensures plain && m.Named? ==>
      (AllFound(old(ev.Cfg()), vals, old(ev.valid), ev.valid, ev.state) <==> Settles(old(ev.Cfg()), vals, FixedBy(old(ev.valid)), m))
    ensures plain && m.Named? ==> CurrIn(ev.state, m) == Mixed(old(ev.Cfg()), rank, vals, FixedBy(old(ev.valid)), m)(m)
    ensures plain && m.Named? && Settles(old(ev.Cfg()), vals, FixedBy(old(ev.valid)), m) ==>
      ev.modulesVal == old(ev.modulesVal) && CurrIn(ev.state, m) == vals(m)
    ensures plain && !m.Named? ==> ev.valid == old(ev.valid) && ev.state == old(ev.state) && ev.modulesVal == old(ev.modulesVal)
  {
    ghost var c, fixed := ev.Cfg(), FixedBy(ev.valid);
    ghost var g := RunGoal(c, rank, vals, fixed, m);
    ev.SeenIs(g);
    if plain {
      RunTarget(c, rank, vals, fixed, m);
      RunEarly(c, rank, vals, fixed, m);
      RunStarts(c, rank, vals, m, ev.valid, ev.state);
    }
    ev.HeadingIs(g);
    hide *;
    ev.CalcValue(m, plain, g);
    ev.HeadingIs(g);
    if plain && m.Named? {
      RunExact(c, rank, vals, old(ev.valid), old(ev.state), ev.valid, ev.state, m);
      if AllFound(c, vals, old(ev.valid), ev.valid, ev.state) {
        FoundValue(c, vals, old(ev.valid), ev.valid, ev.state, m);
      }
    }
    if plain {
      RunKeeps(c, g, old(ev.valid), old(ev.state), ev.valid, ev.state);
    }
  }

  /** All values can be found when nothing is valid yet. */
  ghost predicate Anew(c: Config, vals: Values, m: Option<Symbol>) {
    m.Some? && m.value.Named? ==> Settles(c, vals, FixedBy({}), m.value)
  }

  /** What was found is ready for more. */
  lemma FoundReady(c: Config, vals: Values, rank: Symbol -> nat, m: Option<Symbol>, st0: States, v: set<Symbol>, st: States)
    requires Steady(c, vals, rank, m) && Marked(m, v) && AllFound(c, vals, {}, v, st)
    requires forall s: Symbol :: !HasType(s) ==> StateIn(st, s).write == StateIn(st0, s).write
    ensures Ready(c, vals, rank, m, v, st) && Extended(c, vals, {}, {}, st0, v, st)
  {
    hide Steady, Marked, VisibleOf, DirDepOf, RevDepOf, ImpliedOf, EnvOf, Written;
  }

  /** Forgets all values and evaluates the modules symbol anew: everything is found then
      exactly when the symbols settle. */
  method ClearAllValid(ev: Evaluator, ghost plain: bool, ghost vals: Values, ghost rank: Symbol -> nat)
    requires ev.ChoicesClosed() && AllClosed(ev.decls)
    requires plain ==> ev.Plain() && Steady(ev.Cfg(), vals, rank, ev.modulesSym) && ev.Now() == ev.modulesVal
    modifies ev`modulesVal, ev`valid, ev`state, ev`pending, ev`user, ev`stored
    ensures plain ==> ev.Plain() && ev.user == old(ev.user) && Marked(ev.modulesSym, ev.valid)
    ensures plain ==> (AllFound(old(ev.Cfg()), vals, {}, ev.valid, ev.state) <==> Anew(old(ev.Cfg()), vals, ev.modulesSym))
    ensures plain && Anew(old(ev.Cfg()), vals, ev.modulesSym) ==>
      && ev.modulesVal == old(ev.modulesVal)
      && Ready(ev.Cfg(), vals, rank, ev.modulesSym, ev.valid, ev.state)
      && Extended(ev.Cfg(), vals, {}, {}, old(ev.state), ev.valid, ev.state)
  {
    ghost var c, m := ev.Cfg(), ev.modulesSym;
    hide AllClosed, Ranked, IsSolution, Settles, AllFound, Mixed, Extended, Ready, Found;
    ev.valid := {};
    ev.SeenIs(Aimless());
    ev.SameCfg(c);
    if ev.modulesSym.Some? {
      CalcModules(ev, ev.modulesSym.value, plain, vals, rank);
    }
    ev.SameCfg(c);
    if plain && Anew(c, vals, m) {
      NothingFound(c, vals, ev.state);
      FoundReady(c, vals, rank, m, old(ev.state), ev.valid, ev.state);
    } else {
      NothingFound(c, vals, ev.state);
    }
  }

  lemma NothingFound(c: Config, vals: Values, st: States)
    ensures AllFound(c, vals, {}, {}, st)
  {
  }

  /* ----- conditions that are easy to check ----- */

  /** With modules off nothing changes. */
  lemma SettlesWithoutModules(c: Config, vals: Values, fixed: iset<Symbol>, m: Symbol)
    requires c.sys.modules == NO
    ensures Settles(c, vals, fixed, m)
  {
    hide StepFrom, WrittenFrom, SameBounds;
    assert Unfinished(c, vals) == EnvOf(c.sys, vals);
    forall s: Symbol
      ensures Stable(c, vals, m, s)
    {
      SameBoundsSelf(c.sys, s, EnvOf(c.sys, vals));
    }
  }

  lemma SameBoundsSelf(k: System, s: Symbol, p: Env)
    ensures SameBounds(k, s, p, p)
  {
  }

  /** A comparison in e has an operand that is m. */
  predicate ComparesMod(e: Expr, vals: Values) {
    match e
    case Sym(_) => false
    case Not(x) => ComparesMod(x, vals)
    case And(l, r) => ComparesMod(l, vals) || ComparesMod(r, vals)
    case Or(l, r) => ComparesMod(l, vals) || ComparesMod(r, vals)
    case Compare(_, a, b) => (a.Typed() && vals(a).tri == MOD) || (b.Typed() && vals(b).tri == MOD)
  }

  lemma {:induction false} EvalUnprinted(e: Expr, k: System, p: Tristate, q: Tristate, vals: Values)
    requires !ComparesMod(e, vals)
    ensures Eval(e, EnvAs(k, p, vals)) == Eval(e, EnvAs(k, q, vals))
  {
    match e
    case Sym(_) =>
    case Not(x) => EvalUnprinted(x, k, p, q, vals);
    case And(l, r) => EvalUnprinted(l, k, p, q, vals); EvalUnprinted(r, k, p, q, vals);
    case Or(l, r) => EvalUnprinted(l, k, p, q, vals); EvalUnprinted(r, k, p, q, vals);
    case Compare(_, a, b) =>
      assert StringAs(p, a, vals(a)) == StringAs(q, a, vals(a)) && StringAs(p, b, vals(b)) == StringAs(q, b, vals(b));
  }

  lemma {:induction false} StrongestEqual(es: seq<Option<Expr>>, p: Env, q: Env)
    requires forall e <- es :: EvalOpt(e, p) == EvalOpt(e, q)
    ensures Strongest(es, p) == Strongest(es, q)
  {
    if es != [] {
      StrongestEqual(es[..|es| - 1], p, q);
    }
  }

  lemma {:induction false} DefaultsEqual(ds: seq<DefaultProp>, p: Env, q: Env)
    requires forall d <- ds :: Eval(d.value, p) == Eval(d.value, q) && EvalOpt(d.cond, p) == EvalOpt(d.cond, q)
    ensures ActiveDefault(ds, p) == ActiveDefault(ds, q)
    ensures var d := ActiveDefault(ds, p);
      d.Some? ==> Eval(d.value.value, p) == Eval(d.value.value, q) && EvalOpt(d.value.cond, p) == EvalOpt(d.value.cond, q)
  {
    if ds != [] {
      DefaultsEqual(ds[1..], p, q);
    }
  }

  /** A symbol whose conditions compare nothing that is m is stable. */
  lemma UnprintedStable(c: Config, vals: Values, m: Symbol, s: Symbol)
    requires forall e: Expr :: ExprOf(DeclOf(c.sys, s), e) ==> !ComparesMod(e, vals)
    ensures Stable(c, vals, m, s)
  {
    var d, p, q := DeclOf(c.sys, s), EnvOf(c.sys, vals), Unfinished(c, vals);
    forall e: Expr | ExprOf(d, e)
      ensures Eval(e, p) == Eval(e, q)
    {
      EvalUnprinted(e, c.sys, c.sys.modules, NO, vals);
    }
    hide *;
    BoundsUnprinted(c.sys, s, p, q);
    DefaultUnprinted(c.sys, s, p, q);
    StableWhen(c, vals, m, s);
  }

  /** Bounds and default are all that the mode can change. */
  lemma StableWhen(c: Config, vals: Values, m: Symbol, s: Symbol)
    requires var p, q := EnvOf(c.sys, vals), Unfinished(c, vals);
      SameBounds(c.sys, s, p, q) && DefaultTri(c.sys, s, p) == DefaultTri(c.sys, s, q) && DefaultSource(c.sys, s, p) == DefaultSource(c.sys, s, q)
    ensures Stable(c, vals, m, s)
  {
    hide EnvAs, VisibleOf, DirDepOf, RevDepOf, ImpliedOf, DefaultTri, DefaultSource;
  }

  lemma BoundsUnprinted(k: System, s: Symbol, p: Env, q: Env)
    requires forall e: Expr :: ExprOf(DeclOf(k, s), e) ==> Eval(e, p) == Eval(e, q)
    ensures SameBounds(k, s, p, q)
  {
    hide Eval;
    var d := DeclOf(k, s);
    forall e <- d.prompts
      ensures EvalOpt(e, p) == EvalOpt(e, q)
    {
    }
    StrongestEqual(d.prompts, p, q);
  }

  lemma DefaultUnprinted(k: System, s: Symbol, p: Env, q: Env)
    requires forall e: Expr :: ExprOf(DeclOf(k, s), e) ==> Eval(e, p) == Eval(e, q)
    ensures DefaultTri(k, s, p) == DefaultTri(k, s, q) && DefaultSource(k, s, p) == DefaultSource(k, s, q)
  {
    hide Eval;
    var d := DeclOf(k, s);
    forall x <- d.defaults
      ensures Eval(x.value, p) == Eval(x.value, q) && EvalOpt(x.cond, p) == EvalOpt(x.cond, q)
    {
      assert ExprOf(d, x.value) && (x.cond.Some? ==> ExprOf(d, x.cond.value));
    }
    DefaultsEqual(d.defaults, p, q);
  }

  /** If neither the modules symbol nor what is evaluated for its value compares anything
      that is m, the run finds everything. */
  lemma SettlesUnprinted(c: Config, vals: Values, fixed: iset<Symbol>, m: Symbol)
    requires forall s: Symbol, e: Expr ::
      (s == m || s in LateOf(c, vals, fixed, m)) && ExprOf(DeclOf(c.sys, s), e) ==> !ComparesMod(e, vals)
    ensures Settles(c, vals, fixed, m)
  {
    hide LateOf, ComparesMod, Stable, ExprOf;
    forall s: Symbol | s == m || s in LateOf(c, vals, fixed, m)
      ensures Stable(c, vals, m, s)
    {
      UnprintedStable(c, vals, m, s);
    }
  }

  /* ----- examples ----- */

  /** The modules symbol m is y by default under a condition on the tristate t, which is m. */
  function TestsTristate(t: Symbol, m: Symbol, cond: Expr): map<Symbol, Decl> {
    map[t := EMPTY_DECL.(defaults := [DefaultProp(Sym(SymMod), None)]),
        m := EMPTY_DECL.(defaults := [DefaultProp(Sym(SymYes), Some(cond))])]
  }

  lemma TristateIsMod(c: Config, t: Symbol, m: Symbol, cond: Expr, p: Env, q: Env, w: Values)
    requires t == Named(0, Tri, false) && m == Named(1, Boolean, false) && c.sys.modules == YES && c.user == map[]
    requires c.sys.decls == TestsTristate(t, m, cond) && q.tri(SymMod) == MOD
    ensures StepFrom(c, t, p, q, w).tri == MOD
  {
    assert DeclOf(c.sys, t) == EMPTY_DECL.(defaults := [DefaultProp(Sym(SymMod), None)]);
  }

  /** The value of the modules symbol is y just when its condition is. */
  lemma TestedValue(c: Config, t: Symbol, m: Symbol, cond: Expr, p: Env, q: Env, w: Values)
    requires t == Named(0, Tri, false) && m == Named(1, Boolean, false) && c.sys.modules == YES && c.user == map[]
    requires c.sys.decls == TestsTristate(t, m, cond) && q.tri(SymYes) == YES && Eval(cond, q) != MOD
    ensures StepFrom(c, m, p, q, w) == Value("n", Eval(cond, q))
  {
    var d := DefaultProp(Sym(SymYes), Some(cond));
    assert DeclOf(c.sys, m) == EMPTY_DECL.(defaults := [d]) && EvalOpt(d.cond, q) == Eval(cond, q);
    assert ActiveDefault([d], q) == if Eval(cond, q) != NO then Some(d) else None by {
      assert [d][1..] == [];
    }
    hide Eval;
    assert DefaultTri(c.sys, m, q) == Eval(cond, q) by {
      assert Eval(Sym(SymYes), q) == YES by {
        EvalSym(SymYes, q);
      }
    }
  }

  lemma EvalSym(s: Symbol, q: Env)
    ensures Eval(Sym(s), q) == q.tri(s)
  {
  }

  lemma ConstantValues(c: Config, w: Values)
    requires forall s: Symbol :: !s.Named? ==> w(s) == Step(c, s, w)
    ensures w(SymYes) == Value("y", YES) && w(SymMod) == Value("m", MOD) && w(SymNo) == Value("n", NO)
  {
    assert w(SymYes) == Step(c, SymYes, w) && w(SymMod) == Step(c, SymMod, w) && w(SymNo) == Step(c, SymNo, w);
  }

  /** A tristate at m equals m only while it is not printed as n. */
  lemma ComparedValue(k: System, p: Tristate, w: Values, t: Symbol)
    requires LettersAreText(k.num) && t.Type() == Tri && w(t).tri == MOD && w(SymMod) == Value("m", MOD)
    ensures Eval(Compare(Equal, t, SymMod), EnvAs(k, p, w)) == if p == NO then NO else YES
  {
    assert ParseString(k.num, SymMod.Type(), "m").Text?;
    StrCmpZero(if p == NO then "n" else "m", "m");
  }

  /** The configuration with `default y if t = m`. */
  ghost predicate TestsMod(c: Config, t: Symbol, m: Symbol) {
    && t == Named(0, Tri, false) && m == Named(1, Boolean, false) && c.sys.modules == YES && c.user == map[]
    && c.sys.decls == TestsTristate(t, m, Compare(Equal, t, SymMod)) && LettersAreText(c.sys.num)
  }

  /** There t is m, and the modules symbol is n as long as t is printed as n. */
  lemma TestedSteps(c: Config, t: Symbol, m: Symbol, p: Tristate, b: Env, w: Values)
    requires TestsMod(c, t, m) && forall s: Symbol :: !s.Named? ==> w(s) == Step(c, s, w)
    ensures StepFrom(c, t, b, EnvAs(c.sys, p, w), w).tri == MOD
    ensures w(t).tri == MOD ==> StepFrom(c, m, b, EnvAs(c.sys, p, w), w).tri == if p == NO then NO else YES
  {
    var cond, q := Compare(Equal, t, SymMod), EnvAs(c.sys, p, w);
    ConstantValues(c, w);
    TristateIsMod(c, t, m, cond, b, q, w);
    if w(t).tri == MOD {
      ComparedValue(c.sys, p, w, t);
      hide StepFrom, Eval;
      TestedValue(c, t, m, cond, b, q, w);
    }
  }

  lemma MixedStepIs(c: Config, vals: Values, m: Symbol, s: Symbol, w: Values)
    ensures var early := s in EarlyOf(c, vals, FixedBy({}), m);
      MixedStep(c, vals, FixedBy({}), m, s, w) ==
        StepFrom(c, s, EnvAs(c.sys, if early || s == m then c.sys.modules else NO, w), EnvAs(c.sys, if early then c.sys.modules else NO, w), w)
  {
  }

  lemma MixedModules(c: Config, vals: Values, rank: Symbol -> nat, t: Symbol, m: Symbol)
    requires TestsMod(c, t, m) && Ranked(c, rank)
    ensures Mixed(c, rank, vals, FixedBy({}), m)(m).tri == NO
  {
    var w := Mixed(c, rank, vals, FixedBy({}), m);
    EarlyBelow(c, vals, rank, FixedBy({}), m);
    assert c.sys.modules == YES && m !in EarlyOf(c, vals, FixedBy({}), m) && forall s: Symbol :: s !in FixedBy({});
    forall s: Symbol
      ensures w(s) == MixedStep(c, vals, FixedBy({}), m, s, w) && (!s.Named? ==> w(s) == Step(c, s, w))
    {
      MixedSolves(c, rank, vals, FixedBy({}), m, s);
    }
    var early := t in EarlyOf(c, vals, FixedBy({}), m);
    MixedStepIs(c, vals, m, t, w);
    MixedStepIs(c, vals, m, m, w);
    hide *;
    TestedSteps(c, t, m, if early then c.sys.modules else NO, EnvAs(c.sys, if early || t == m then c.sys.modules else NO, w), w);
    TestedSteps(c, t, m, NO, EnvAs(c.sys, c.sys.modules, w), w);
  }

  /** With `default y if t = m` the modules symbol comes out n instead of y, because t is
      printed as n before it is finished. */
  lemma UnfinishedPrinted(c: Config, vals: Values, rank: Symbol -> nat, t: Symbol, m: Symbol)
    requires TestsMod(c, t, m) && Ranked(c, rank) && IsSolution(c, vals)
    ensures vals(t).tri == MOD && vals(m).tri == YES
    ensures !Settles(c, vals, FixedBy({}), m) && Mixed(c, rank, vals, FixedBy({}), m)(m).tri == NO
  {
    MixedModules(c, vals, rank, t, m);
    assert forall s: Symbol :: vals(s) == Step(c, s, vals);
    hide TestsTristate, StepFrom, Mixed, TristateFrom, TextFrom, WrittenFrom, SameBounds;
    TestedSteps(c, t, m, YES, EnvOf(c.sys, vals), vals);
    TestedSteps(c, t, m, NO, EnvOf(c.sys, vals), vals);
    assert !Stable(c, vals, m, m);
  }
}
