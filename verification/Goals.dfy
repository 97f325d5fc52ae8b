/** What one run of evaluation reads, sees and is to find. */
module Goals {
  import opened Exprs
  import opened Symbols

  /* ----- what the evaluation of a symbol reads ----- */

  /** What is read for the bounds of s: prompts and dependencies, and implications if the
      direct dependency is not n. */
  ghost predicate BoundReads(k: System, s: Symbol, env: Env, t: Symbol) {
    var d := DeclOf(k, s);
    || (exists p <- d.prompts :: OccursOpt(t, p))
    || OccursOpt(t, d.dirDep) || OccursOpt(t, d.revDep)
    || (DirDepOf(k, s, env) != NO && OccursOpt(t, d.implied))
  }

  /** The conditions of defaults are read up to the first that is not n. */
  ghost predicate CondReads(ds: seq<DefaultProp>, env: Env, t: Symbol) {
    ds != [] && (OccursOpt(t, ds[0].cond) || (EvalOpt(ds[0].cond, env) == NO && CondReads(ds[1..], env, t)))
  }

  /** Of the active default a bool or tristate symbol reads the expression, others the
      symbol that it consists of. */
  ghost predicate SourceReads(d: Option<DefaultProp>, typed: bool, t: Symbol) {
    d.Some? && if typed then Occurs(t, d.value.value) else d.value.value == Sym(t)
  }

  /** What is read for the value of s: its defaults, unless the user decides. */
  ghost predicate ValueReads(c: Config, s: Symbol, bounds: Env, env: Env, t: Symbol) {
    var ds := DeclOf(c.sys, s).defaults;
    && !(VisibleOf(c.sys, s, bounds) != NO && s in c.user)
    && (CondReads(ds, env, t) || SourceReads(ActiveDefault(ds, env), s.Typed(), t))
  }

  ghost predicate Reads(c: Config, s: Symbol, bounds: Env, env: Env, t: Symbol) {
    HasType(s) && (BoundReads(c.sys, s, bounds, t) || ValueReads(c, s, bounds, env, t))
  }

  lemma {:induction false} CondReadsIn(ds: seq<DefaultProp>, env: Env, t: Symbol)
    requires CondReads(ds, env, t)
    ensures exists d <- ds :: OccursOpt(t, d.cond)
  {
    if !OccursOpt(t, ds[0].cond) {
      CondReadsIn(ds[1..], env, t);
    }
  }

  /** Nothing is read but dependencies. */
  lemma ReadsDepend(c: Config, s: Symbol, bounds: Env, env: Env, t: Symbol)
    requires BoundReads(c.sys, s, bounds, t) || ValueReads(c, s, bounds, env, t)
    ensures DependsOn(c.sys.decls, s, t)
  {
    var ds := DeclOf(c.sys, s).defaults;
    if CondReads(ds, env, t) {
      CondReadsIn(ds, env, t);
    }
    ActiveDefaultIn(ds, env);
  }

  /* ----- only what is read matters ----- */

  lemma {:induction false} CondsSame(ds: seq<DefaultProp>, a: Env, b: Env, d: iset<Symbol>)
    requires SameOn(d, a, b) && forall t: Symbol :: CondReads(ds, a, t) ==> t in d
    ensures ActiveDefault(ds, a) == ActiveDefault(ds, b)
    ensures forall t: Symbol :: CondReads(ds, b, t) <==> CondReads(ds, a, t)
    ensures var p := ActiveDefault(ds, a); p.Some? ==> EvalOpt(p.value.cond, a) == EvalOpt(p.value.cond, b)
  {
    if ds != [] {
      WithinOpt(ds[0].cond, d);
      EvalSameOpt(ds[0].cond, d, a, b);
      if EvalOpt(ds[0].cond, a) == NO {
        CondsSame(ds[1..], a, b, d);
      }
    }
  }

  lemma BoundsSame(k: System, s: Symbol, a: Env, b: Env, d: iset<Symbol>)
    requires SameOn(d, a, b) && forall t: Symbol :: BoundReads(k, s, a, t) ==> t in d
    ensures VisibleOf(k, s, a) == VisibleOf(k, s, b) && DirDepOf(k, s, a) == DirDepOf(k, s, b)
    ensures RevDepOf(k, s, a) == RevDepOf(k, s, b) && ImpliedOf(k, s, a) == ImpliedOf(k, s, b)
    ensures forall t: Symbol :: BoundReads(k, s, b, t) <==> BoundReads(k, s, a, t)
  {
    var c := DeclOf(k, s);
    forall p <- c.prompts | p.Some?
      ensures Within(p.value, d)
    {
      assert forall t: Symbol :: Occurs(t, p.value) ==> OccursOpt(t, p);
    }
    StrongestSame(c.prompts, d, a, b);
    WithinOpt(c.dirDep, d);
    WithinOpt(c.revDep, d);
    EvalSameOpt(c.dirDep, d, a, b);
    EvalSameOpt(c.revDep, d, a, b);
    if DirDepOf(k, s, a) != NO {
      WithinOpt(c.implied, d);
      EvalSameOpt(c.implied, d, a, b);
    }
  }

  lemma DefaultPartsSame(k: System, s: Symbol, a: Env, b: Env, d: iset<Symbol>)
    requires SameOn(d, a, b)
    requires var ds := DeclOf(k, s).defaults;
      forall t: Symbol :: CondReads(ds, a, t) || SourceReads(ActiveDefault(ds, a), s.Typed(), t) ==> t in d
    ensures s.Typed() ==> DefaultTri(k, s, a) == DefaultTri(k, s, b)
    ensures DefaultSource(k, s, a) == DefaultSource(k, s, b)
    ensures !s.Typed() && DefaultSource(k, s, a).Some? ==> DefaultSource(k, s, a).value in d
    ensures var ds := DeclOf(k, s).defaults;
      && ActiveDefault(ds, a) == ActiveDefault(ds, b)
      && forall t: Symbol :: CondReads(ds, b, t) <==> CondReads(ds, a, t)
  {
    var ds := DeclOf(k, s).defaults;
    CondsSame(ds, a, b, d);
    var p := ActiveDefault(ds, a);
    if p.Some? && s.Typed() {
      EvalSame(p.value.value, d, a, b);
    }
  }

  /** Two runs that agree on what one of them reads for s read the same and give s the same
      bounds, value and mark. */
  lemma ReadsSame(c: Config, s: Symbol, p: Tristate, q: Tristate, a: Values, b: Values)
    requires HasType(s)
    requires forall t: Symbol :: Reads(c, s, EnvAs(c.sys, p, a), EnvAs(c.sys, q, a), t) ==> a(t) == b(t)
    ensures SameAt(c, s, EnvAs(c.sys, p, a), EnvAs(c.sys, q, a), a, EnvAs(c.sys, p, b), EnvAs(c.sys, q, b), b)
    ensures forall t: Symbol :: Reads(c, s, EnvAs(c.sys, p, b), EnvAs(c.sys, q, b), t) <==> Reads(c, s, EnvAs(c.sys, p, a), EnvAs(c.sys, q, a), t)
  {
    var d := iset t: Symbol | a(t) == b(t);
    var pa, pb, qa, qb := EnvAs(c.sys, p, a), EnvAs(c.sys, p, b), EnvAs(c.sys, q, a), EnvAs(c.sys, q, b);
    BoundsSame(c.sys, s, pa, pb, d);
    if !(VisibleOf(c.sys, s, pa) != NO && s in c.user) {
      DefaultPartsSame(c.sys, s, qa, qb, d);
    }
  }

  /** The bounds of s are the same, and so are its value and mark. */
  predicate SameAt(c: Config, s: Symbol, p: Env, q: Env, a: Values, p': Env, q': Env, b: Values) {
    && SameBounds(c.sys, s, p, p')
    && StepFrom(c, s, p, q, a) == StepFrom(c, s, p', q', b)
    && (HasType(s) ==> (WrittenFrom(c.sys, s, p, q) <==> WrittenFrom(c.sys, s, p', q')))
  }

  predicate SameBounds(k: System, s: Symbol, p: Env, p': Env) {
    && VisibleOf(k, s, p) == VisibleOf(k, s, p') && DirDepOf(k, s, p) == DirDepOf(k, s, p')
    && RevDepOf(k, s, p) == RevDepOf(k, s, p') && ImpliedOf(k, s, p) == ImpliedOf(k, s, p')
  }

  /* ----- what a run is to find ----- */

  /** The values that a run is to find, given those of the symbols that are fixed because
      they are finished already. Only symbols in scope are evaluated. The symbols in early
      see m printed by a modules symbol with the value before, all others by one with the
      value after; for the modules symbol m itself that is so of its bounds and of its
      value. The ranks order the dependencies. */
  datatype Goal = Goal(vals: Values, rank: Symbol -> nat, fixed: iset<Symbol>, scope: iset<Symbol>, early: iset<Symbol>,
                       m: Option<Symbol>, before: Tristate, after: Tristate)

  ghost function PrintsBounds(g: Goal, s: Symbol): Tristate {
    if s in g.early || g.m == Some(s) then g.before else g.after
  }

  ghost function PrintsValue(g: Goal, s: Symbol): Tristate {
    if s in g.early then g.before else g.after
  }

  ghost function BoundsEnv(k: System, g: Goal, s: Symbol): Env {
    EnvAs(k, PrintsBounds(g, s), g.vals)
  }

  ghost function ValueEnv(k: System, g: Goal, s: Symbol): Env {
    EnvAs(k, PrintsValue(g, s), g.vals)
  }

  ghost predicate ReadsFor(c: Config, g: Goal, s: Symbol, t: Symbol) {
    Reads(c, s, BoundsEnv(c.sys, g, s), ValueEnv(c.sys, g, s), t)
  }

  /** Symbols that are not evaluated when asked for. */
  ghost predicate Given(g: Goal, t: Symbol) {
    !t.Named? || t in g.fixed || g.m == Some(t)
  }

  /** The values agree with what each evaluation sees, along acyclic dependencies. */
  ghost predicate Agreeing(c: Config, g: Goal) {
    && (forall s: Symbol :: !s.Named? || s !in g.fixed ==>
          g.vals(s) == StepFrom(c, s, BoundsEnv(c.sys, g, s), ValueEnv(c.sys, g, s), g.vals))
    && (forall s: Symbol, t: Symbol :: s !in g.fixed && DependsOn(c.sys.decls, s, t) ==> g.rank(t) < g.rank(s))
  }

  /** What is read in the scope is in it, and what is read early is early. */
  ghost predicate Enclosed(c: Config, g: Goal) {
    && (forall s: Symbol, t: Symbol :: s in g.scope && s !in g.fixed && ReadsFor(c, g, s, t) ==> Given(g, t) || t in g.scope)
    && (g.before != g.after ==>
      && (forall s: Symbol, t: Symbol :: s in g.early && s !in g.fixed && ReadsFor(c, g, s, t) ==> Given(g, t) || t in g.early)
      && (forall s: Symbol, t: Symbol :: g.m == Some(s) && BoundReads(c.sys, s, BoundsEnv(c.sys, g, s), t) ==> Given(g, t) || t in g.early))
  }

  ghost predicate Target(c: Config, g: Goal) {
    Agreeing(c, g) && Enclosed(c, g)
  }

  /** How far a run is: now is the value of the modules symbol. Once it is that of the
      second part, everything early is finished. */
  ghost predicate Going(g: Goal, valid: set<Symbol>, now: Tristate) {
    && (forall s: Symbol :: s in g.fixed ==> s in valid)
    && (now == g.before || (now == g.after && forall s: Symbol :: s in g.early ==> s in valid))
  }

  /** The modules symbol has been evaluated or is being evaluated. */
  ghost predicate Marked(m: Option<Symbol>, valid: set<Symbol>) {
    m.Some? && m.value.Named? ==> m.value in valid
  }

  /** t may be asked for where ranks are below k. */
  ghost predicate Askable(g: Goal, valid: set<Symbol>, now: Tristate, k: nat, t: Symbol) {
    g.rank(t) < k && (t.Named? ==> t in valid || (t in g.scope && PrintsBounds(g, t) == now))
  }

  ghost predicate AskExpr(g: Goal, valid: set<Symbol>, now: Tristate, k: nat, e: Expr) {
    forall t: Symbol :: Occurs(t, e) ==> Askable(g, valid, now, k, t)
  }

  ghost predicate AskOpt(g: Goal, valid: set<Symbol>, now: Tristate, k: nat, e: Option<Expr>) {
    e.Some? ==> AskExpr(g, valid, now, k, e.value)
  }

  /** What the bounds of s need may be asked for. */
  ghost predicate AskBounds(k: System, g: Goal, valid: set<Symbol>, now: Tristate, s: Symbol) {
    && PrintsBounds(g, s) == now
    && forall t: Symbol :: BoundReads(k, s, BoundsEnv(k, g, s), t) ==> Askable(g, valid, now, g.rank(s), t)
  }

  /** What the value of s needs may be asked for. */
  ghost predicate AskValue(c: Config, g: Goal, valid: set<Symbol>, now: Tristate, s: Symbol) {
    && PrintsValue(g, s) == now
    && forall t: Symbol :: ValueReads(c, s, BoundsEnv(c.sys, g, s), ValueEnv(c.sys, g, s), t) ==> Askable(g, valid, now, g.rank(s), t)
  }

  lemma AskMore(g: Goal, valid: set<Symbol>, valid': set<Symbol>, now: Tristate)
    requires valid <= valid'
    ensures forall k: nat, t: Symbol :: Askable(g, valid, now, k, t) ==> Askable(g, valid', now, k, t)
    ensures Going(g, valid, now) ==> Going(g, valid', now)
    ensures forall m: Option<Symbol> :: Marked(m, valid) ==> Marked(m, valid')
  {
  }

  lemma AskExprMore(g: Goal, valid: set<Symbol>, valid': set<Symbol>, now: Tristate, k: nat, e: Expr)
    requires valid <= valid' && AskExpr(g, valid, now, k, e)
    ensures AskExpr(g, valid', now, k, e)
  {
  }

  lemma AskBoundsMore(k: System, g: Goal, valid: set<Symbol>, valid': set<Symbol>, now: Tristate, s: Symbol)
    requires valid <= valid' && AskBounds(k, g, valid, now, s)
    ensures AskBounds(k, g, valid', now, s)
  {
    hide BoundReads, BoundsEnv;
  }

  lemma AskValueMore(c: Config, g: Goal, valid: set<Symbol>, valid': set<Symbol>, now: Tristate, s: Symbol)
    requires valid <= valid' && AskValue(c, g, valid, now, s)
    ensures AskValue(c, g, valid', now, s)
  {
    hide ValueReads, BoundsEnv, ValueEnv;
  }

  /** A symbol that may be evaluated now may ask for what its bounds need. */
  lemma MayAskBounds(c: Config, g: Goal, valid: set<Symbol>, now: Tristate, s: Symbol)
    requires Target(c, g) && Going(g, valid, now) && Marked(g.m, valid) && HasType(s)
    requires s in g.scope && s !in g.fixed && PrintsBounds(g, s) == now
    ensures AskBounds(c.sys, g, valid, now, s)
  {
    hide BoundReads, ValueReads, BoundsEnv, ValueEnv;
    forall t: Symbol | BoundReads(c.sys, s, BoundsEnv(c.sys, g, s), t)
      ensures Askable(g, valid, now, g.rank(s), t)
    {
      ReadsDepend(c, s, BoundsEnv(c.sys, g, s), ValueEnv(c.sys, g, s), t);
      assert ReadsFor(c, g, s, t);
    }
  }

  /** And what its value needs; the modules symbol once its bounds are known. */
  lemma MayAskValue(c: Config, g: Goal, valid: set<Symbol>, now: Tristate, s: Symbol)
    requires Target(c, g) && Going(g, valid, now) && Marked(g.m, valid) && HasType(s)
    requires s in g.scope && s !in g.fixed && PrintsValue(g, s) == now
    requires g.m == Some(s) && g.before != g.after ==> forall t: Symbol :: t in g.early ==> t in valid
    ensures AskValue(c, g, valid, now, s)
  {
    hide BoundReads, ValueReads, BoundsEnv, ValueEnv;
    forall t: Symbol | ValueReads(c, s, BoundsEnv(c.sys, g, s), ValueEnv(c.sys, g, s), t)
      ensures Askable(g, valid, now, g.rank(s), t)
    {
      ReadsDepend(c, s, BoundsEnv(c.sys, g, s), ValueEnv(c.sys, g, s), t);
      assert ReadsFor(c, g, s, t);
    }
  }

  lemma TargetStep(c: Config, g: Goal, s: Symbol)
    requires Target(c, g) && (!s.Named? || s !in g.fixed)
    ensures g.vals(s) == StepFrom(c, s, BoundsEnv(c.sys, g, s), ValueEnv(c.sys, g, s), g.vals)
  {
  }
}
