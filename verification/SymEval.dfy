/** The memoised evaluation of symbols: a symbol is marked valid before its
    dependencies are looked at, and valid symbols are not evaluated again. */
module SymEval {
  import opened Exprs
  import opened Symbols
  import opened Goals

  /** The fields of a symbol that evaluation writes; pick is the selected member of a
      choice. */
  datatype State = State(curr: Value, visible: Tristate, dir: Tristate, rev: Tristate, implied: Tristate, write: bool, pick: Option<Symbol>)

  const BLANK := State(Value("", NO), NO, NO, NO, NO, false, None)

  /** A choice: its members, and the members it prefers under conditions. */
  datatype ChoiceDecl = ChoiceDecl(members: seq<Symbol>, defaults: seq<ChoiceDefault>)

  datatype ChoiceDefault = ChoiceDefault(cond: Option<Expr>, target: Symbol)

  type States = map<Symbol, State>

  function StateIn(st: States, s: Symbol): State {
    if s in st then st[s] else BLANK
  }

  /** The user's value of a symbol while it does not count. */
  function StoredIn(stored: map<Symbol, Value>, s: Symbol): Value {
    if s in stored then stored[s] else Value("", NO)
  }

  /** Exactly the members that the user has not set become n. */
  ghost predicate Cleared(members: seq<Symbol>, user: map<Symbol, Value>, was: map<Symbol, Value>, now: map<Symbol, Value>) {
    forall m: Symbol ::
      StoredIn(now, m) == (if m in members && m !in user then StoredIn(was, m).(tri := NO) else StoredIn(was, m))
  }

  /** The current value of a symbol; y, m and n are always up to date. */
  function CurrIn(st: States, s: Symbol): Value {
    match s
    case SymYes => Value("y", YES)
    case SymMod => Value("m", MOD)
    case SymNo => Value("n", NO)
    case Named(_, _, _) => StateIn(st, s).curr
  }

  /** The fields of s, apart from the write flag, hold what the values of all symbols
      require. */
  ghost predicate Done(c: Config, vals: Values, st: States, s: Symbol) {
    var f, env := StateIn(st, s), EnvOf(c.sys, vals);
    s.Named? ==>
      && f.curr == vals(s)
      && (HasType(s) ==>
          && f.visible == VisibleOf(c.sys, s, env)
          && f.dir == DirDepOf(c.sys, s, env)
          && f.rev == RevDepOf(c.sys, s, env)
          && f.implied == ImpliedOf(c.sys, s, env))
  }

  /** The value of the modules symbol as it stands, finished or not. */
  function NowIn(m: Option<Symbol>, modules: Tristate, st: States): Tristate {
    if m.Some? then CurrIn(st, m.value).tri else modules
  }

  /** Member i is visible and none before it is. */
  ghost predicate OnlyVisible(st: States, members: seq<Symbol>, i: nat)
    requires i < |members|
  {
    StateIn(st, members[i]).visible != NO && forall j: nat :: j < i ==> StateIn(st, members[j]).visible == NO
  }

  /** The four fields that CalcVisibility sets hold what the goal requires. */
  ghost predicate VisibilityDone(c: Config, g: Goal, st: States, s: Symbol) {
    var f, env := StateIn(st, s), BoundsEnv(c.sys, g, s);
    && f.visible == VisibleOf(c.sys, s, env)
    && f.dir == DirDepOf(c.sys, s, env)
    && f.rev == RevDepOf(c.sys, s, env)
    && f.implied == ImpliedOf(c.sys, s, env)
  }

  /** s has just been evaluated: all its fields hold what the goal requires, also the write
      flag, which writing a file clears again. */
  ghost predicate Fresh(c: Config, g: Goal, st: States, s: Symbol) {
    s.Named? ==>
      && StateIn(st, s).curr == g.vals(s)
      && (HasType(s) ==>
          && VisibilityDone(c, g, st, s)
          && (StateIn(st, s).write <==> WrittenFrom(c.sys, s, BoundsEnv(c.sys, g, s), ValueEnv(c.sys, g, s))))
  }

  /** Symbols of smaller rank that are marked valid have their values. */
  ghost predicate DoneBelow(g: Goal, k: nat, valid: set<Symbol>, st: States) {
    forall s <- valid :: s.Named? && g.rank(s) < k ==> CurrIn(st, s) == g.vals(s)
  }

  /** Everything that s reads is valid. */
  ghost predicate ReadIn(c: Config, g: Goal, s: Symbol, valid: set<Symbol>) {
    forall t: Symbol :: t.Named? && ReadsFor(c, g, s, t) ==> t in valid
  }

  /** Evaluation only adds finished symbols of the scope, after all that they read; self is
      the one in progress. Symbols without a type are never marked for writing. */
  ghost predicate Grown(c: Config, g: Goal, self: set<Symbol>, valid: set<Symbol>, st: States, valid': set<Symbol>, st': States) {
    && (forall s <- valid :: s !in self ==> StateIn(st', s) == StateIn(st, s))
    && (forall s <- valid' :: s !in valid ==> Fresh(c, g, st', s) && s in g.scope && ReadIn(c, g, s, valid'))
    && (forall s: Symbol :: !HasType(s) ==> StateIn(st', s).write == StateIn(st, s).write)
  }

  /** A run towards the goal is under way. */
  ghost predicate On(c: Config, g: Goal, now: Tristate, valid: set<Symbol>, st: States) {
    Target(c, g) && Going(g, valid, now) && now == NowIn(g.m, c.sys.modules, st)
  }

  ghost predicate ExprIn(e: Option<Expr>, valid: set<Symbol>) {
    forall t: Symbol :: t.Named? && OccursOpt(t, e) ==> t in valid
  }

  /** Every symbol with a type that is mentioned anywhere is declared. */
  ghost predicate Closed(decls: map<Symbol, Decl>, s: Symbol) {
    HasType(s) ==> s in decls
  }

  ghost predicate ClosedExpr(decls: map<Symbol, Decl>, e: Expr) {
    forall t: Symbol :: Occurs(t, e) ==> Closed(decls, t)
  }

  ghost predicate AllClosed(decls: map<Symbol, Decl>) {
    forall s <- decls.Keys, t: Symbol :: DependsOn(decls, s, t) ==> Closed(decls, t)
  }

  /** The expressions that decide a symbol. */
  predicate ExprOf(d: Decl, e: Expr) {
    || Some(e) in d.prompts
    || d.dirDep == Some(e) || d.revDep == Some(e) || d.implied == Some(e)
    || exists p <- d.defaults :: p.value == e || p.cond == Some(e)
  }

  /** Either fewer choice values are still to be set, or none was set and symbols have
      only become valid. */
  predicate Onward(p0: set<Symbol>, v0: set<Symbol>, p1: set<Symbol>, v1: set<Symbol>) {
    p1 <= p0 && (p1 == p0 ==> v0 <= v1)
  }

  lemma OnwardLess(all: set<Symbol>, p0: set<Symbol>, v0: set<Symbol>, p1: set<Symbol>, v1: set<Symbol>)
    requires Onward(p0, v0, p1, v1)
    ensures |p1| < |p0| || (p1 == p0 && |all - v1| <= |all - v0|)
  {
    if p1 == p0 {
      FewerLeft(all, v0, v1);
    } else {
      assert p0 == p1 + (p0 - p1) && p0 - p1 != {};
    }
  }

  lemma OnwardSame(p: set<Symbol>, v: set<Symbol>)
    ensures Onward(p, v, p, v)
  {
  }

  lemma OnwardWith(p: set<Symbol>, v: set<Symbol>, s: Symbol)
    ensures Onward(p, v, p, v + {s})
  {
  }

  /** One value that was to be set no longer is. */
  lemma OneLessPending(p: set<Symbol>, v: set<Symbol>, s: Symbol)
    requires s in p
    ensures |p - {s}| < |p| && forall v': set<Symbol> :: Onward(p, v, p - {s}, v')
  {
    assert p == (p - {s}) + {s};
  }

  lemma StrictlyLess(p0: set<Symbol>, p: set<Symbol>, v: set<Symbol>, p1: set<Symbol>, v1: set<Symbol>, s: Symbol)
    requires s in p0 && p == p0 - {s} && Onward(p, v, p1, v1)
    ensures p1 != p0
  {
  }

  lemma PendingLess(p0: set<Symbol>, p1: set<Symbol>)
    requires p1 <= p0
    ensures p1 != p0 ==> |p1| < |p0|
  {
    assert p0 == p1 + (p0 - p1);
    if p1 != p0 {
      assert p0 - p1 != {};
    }
  }

  lemma OnwardTrans(p0: set<Symbol>, v0: set<Symbol>, p1: set<Symbol>, v1: set<Symbol>, p2: set<Symbol>, v2: set<Symbol>)
    requires Onward(p0, v0, p1, v1) && Onward(p1, v1, p2, v2)
    ensures Onward(p0, v0, p2, v2)
  {
    if p2 == p0 {
      assert p1 == p0;
    }
  }

  /** A goal for runs of which nothing but termination is said. */
  ghost function Aimless(): Goal {
    Goal(s => Value("", NO), s => 0, iset{}, iset{}, iset{}, None, NO, NO)
  }

  class Evaluator {
    const decls: map<Symbol, Decl>
    const names: Symbol -> string
    const num: NumberParser
    const modulesSym: Option<Symbol>
    const choices: map<Symbol, ChoiceDecl>
    const memberOf: map<Symbol, Symbol>
    var user: map<Symbol, Value>
    var stored: map<Symbol, Value>
    var picked: map<Symbol, Symbol>
    var pending: set<Symbol>
    var modulesVal: Tristate
    var valid: set<Symbol>
    var state: States

    constructor (decls: map<Symbol, Decl>, names: Symbol -> string, num: NumberParser, modulesSym: Option<Symbol>,
                 choices: map<Symbol, ChoiceDecl>, memberOf: map<Symbol, Symbol>)
      ensures this.decls == decls && this.names == names && this.num == num && this.modulesSym == modulesSym
      ensures this.choices == choices && this.memberOf == memberOf
      ensures user == map[] && stored == map[] && picked == map[] && pending == {}
      ensures modulesVal == NO && valid == {} && state == map[]
    {
      this.decls, this.names, this.num, this.modulesSym := decls, names, num, modulesSym;
      this.choices, this.memberOf := choices, memberOf;
      user, stored, picked, pending := map[], map[], map[], {};
      modulesVal, valid, state := NO, {}, map[];
    }

    /** There are no choices. */
    ghost predicate Plain()
      reads this`pending
    {
      choices == map[] && memberOf == map[] && pending == {}
    }

    /** Without choices, and towards a goal for the modules symbol at hand. */
    ghost predicate Heading(g: Goal)
      reads this`pending
    {
      Plain() && g.m == modulesSym
    }

    /** The members of choices, the choices of members and the modules symbol are declared. */
    ghost predicate ChoicesClosed() {
      && (modulesSym.Some? ==> Closed(decls, modulesSym.value))
      && (forall c <- choices.Keys, m <- choices[c].members :: m in decls)
      && (forall c <- choices.Keys, d <- choices[c].defaults :: d.cond.Some? ==> ClosedExpr(decls, d.cond.value))
      && (forall m <- memberOf.Keys :: memberOf[m] in decls)
    }

    function Sys(): System
      reads this`modulesVal
    {
      System(decls, names, num, modulesVal)
    }

    function Cfg(): Config
      reads this`user, this`modulesVal
    {
      Config(Sys(), user)
    }

    ghost function Now(): Tristate
      reads this`modulesVal, this`state
    {
      NowIn(modulesSym, modulesVal, state)
    }

    /** What expressions see of the goal's values now. */
    ghost function Seen(g: Goal): Env
      reads this`modulesVal, this`state
    {
      EnvAs(Sys(), Now(), g.vals)
    }

    /** Evaluates an expression, and every symbol in it. When ok, it finds the value
        that the goal gives it. */
    method CalcExpr(e: Expr, ghost ok: bool, ghost g: Goal, ghost k: nat)
      returns (t: Tristate)
      requires AllClosed(decls) && ChoicesClosed() && ClosedExpr(decls, e)
      requires ok ==> Heading(g) && On(Cfg(), g, Now(), valid, state) && Marked(modulesSym, valid) && DoneBelow(g, k, valid, state)
      requires ok ==> AskExpr(g, valid, Now(), k, e)
      modifies this`modulesVal, this`valid, this`state, this`pending, this`user, this`stored
      ensures Onward(old(pending), old(valid), pending, valid)
      ensures ok ==> Heading(g) && Cfg() == old(Cfg()) && old(valid) <= valid && Now() == old(Now()) && Seen(g) == old(Seen(g))
      ensures ok ==> On(Cfg(), g, Now(), valid, state) && Marked(modulesSym, valid)
      ensures ok ==> Grown(Cfg(), g, {}, old(valid), old(state), valid, state)
      ensures ok ==> t == Eval(e, Seen(g)) && ExprIn(Some(e), valid)
      decreases |pending|, |decls.Keys - valid|, 1, Size(e)
    {
      SizeParts(e);
      hide *;
      PartsAsk(decls, e, g, valid, Now(), k);
      match e {
        case Sym(s) =>
          CalcOperand(s, ok, g, k);
          t := CurrIn(state, s).tri;
          SymFact(e, Sys(), Now(), g.vals, valid);
          SeenIs(g);
        case And(l, r) =>
          var a, b := CalcBoth(l, r, ok, g, k);
          t := Min(a, b);
          PartsIn(e, Seen(g), valid);
        case Or(l, r) =>
          var a, b := CalcBoth(l, r, ok, g, k);
          t := Max(a, b);
          PartsIn(e, Seen(g), valid);
        case Not(x) =>
          var a := CalcExpr(x, ok, g, k);
          t := 2 - a;
          PartsIn(e, Seen(g), valid);
        case Compare(_, _, _) =>
          t := CalcCompare(e, ok, g, k);
      }
    }

    lemma SeenIs(g: Goal)
      ensures Seen(g) == EnvAs(Sys(), Now(), g.vals) && Now() == NowIn(modulesSym, modulesVal, state)
      ensures Sys().num == num && Cfg().sys == Sys() && Cfg().sys.modules == modulesVal && Sys().decls == decls && Cfg().user == user
      ensures Heading(g) ==> g.m == modulesSym
    {
    }

    /** A comparison of two symbols, whose strings are looked at after both have been
        evaluated. */
    method CalcCompare(e: Expr, ghost ok: bool, ghost g: Goal, ghost k: nat)
      returns (t: Tristate)
      requires AllClosed(decls) && ChoicesClosed() && ClosedExpr(decls, e) && e.Compare?
      requires ok ==> Heading(g) && On(Cfg(), g, Now(), valid, state) && Marked(modulesSym, valid) && DoneBelow(g, k, valid, state)
      requires ok ==> AskExpr(g, valid, Now(), k, e)
      modifies this`modulesVal, this`valid, this`state, this`pending, this`user, this`stored
      ensures Onward(old(pending), old(valid), pending, valid)
      ensures ok ==> Heading(g) && Cfg() == old(Cfg()) && old(valid) <= valid && Now() == old(Now()) && Seen(g) == old(Seen(g))
      ensures ok ==> On(Cfg(), g, Now(), valid, state) && Marked(modulesSym, valid)
      ensures ok ==> Grown(Cfg(), g, {}, old(valid), old(state), valid, state)
      ensures ok ==> t == Eval(e, Seen(g)) && ExprIn(Some(e), valid)
      decreases |pending|, |decls.Keys - valid|, 1, 0
    {
      hide *;
      PartsAsk(decls, e, g, valid, Now(), k);
      var a, b := e.ls, e.rs;
      CalcOperands(a, b, ok, g, k);
      OnwardLess(decls.Keys, old(pending), old(valid), pending, valid);
      ghost var p, v := pending, valid;
      var left := GetString(a, ok, g);
      OnwardTrans(old(pending), old(valid), p, v, pending, valid);
      OnwardLess(decls.Keys, old(pending), old(valid), pending, valid);
      p, v := pending, valid;
      var right := GetString(b, ok, g);
      OnwardTrans(old(pending), old(valid), p, v, pending, valid);
      SeenIs(g);
      CompareFact(Sys(), Now(), g.vals, e, valid);
      var res := CompareStrings(num, a.Type(), left, b.Type(), right);
      t := FromBool(Holds(e.rel, Outcome(res, true)));
    }

    /** Two symbols, in order. */
    method CalcOperands(a: Symbol, b: Symbol, ghost ok: bool, ghost g: Goal, ghost k: nat)
      requires AllClosed(decls) && ChoicesClosed() && Closed(decls, a) && Closed(decls, b)
      requires ok ==> Heading(g) && On(Cfg(), g, Now(), valid, state) && Marked(modulesSym, valid) && DoneBelow(g, k, valid, state)
      requires ok ==> Askable(g, valid, Now(), k, a) && Askable(g, valid, Now(), k, b)
      modifies this`modulesVal, this`valid, this`state, this`pending, this`user, this`stored
      ensures Onward(old(pending), old(valid), pending, valid)
      ensures ok ==> Heading(g) && Cfg() == old(Cfg()) && old(valid) <= valid && Now() == old(Now()) && Seen(g) == old(Seen(g))
      ensures ok ==> On(Cfg(), g, Now(), valid, state) && Marked(modulesSym, valid)
      ensures ok ==> Grown(Cfg(), g, {}, old(valid), old(state), valid, state)
      ensures ok ==> (a.Named? ==> a in valid) && (b.Named? ==> b in valid)
      ensures ok ==> CurrIn(state, a) == g.vals(a) && CurrIn(state, b) == g.vals(b)
      decreases |pending|, |decls.Keys - valid|, 0, 4
    {
      hide *;
      CalcOperand(a, ok, g, k);
      OnwardLess(decls.Keys, old(pending), old(valid), pending, valid);
      ghost var p, v, st := pending, valid, state;
      if ok {
        StillDoneBelow(Cfg(), g, k, old(valid), old(state), valid, state);
        AskMore(g, old(valid), valid, Now());
      }
      CalcOperand(b, ok, g, k);
      OnwardTrans(old(pending), old(valid), p, v, pending, valid);
      if ok {
        GrownTrans(Cfg(), g, {}, old(valid), old(state), v, st, valid, state);
        StillCurrent(Cfg(), g, v, st, valid, state, a);
      }
    }

    /** The string of an evaluated symbol. That of a symbol at m depends on the modules
        symbol, which is evaluated if it has not been. */
    method GetString(s: Symbol, ghost ok: bool, ghost g: Goal)
      returns (str: string)
      requires AllClosed(decls) && ChoicesClosed()
      requires ok ==> Heading(g) && On(Cfg(), g, Now(), valid, state) && Marked(modulesSym, valid)
      modifies this`modulesVal, this`valid, this`state, this`pending, this`user, this`stored
      ensures Onward(old(pending), old(valid), pending, valid)
      ensures ok ==> Heading(g) && Cfg() == old(Cfg()) && valid == old(valid) && state == old(state)
      ensures ok ==> On(Cfg(), g, Now(), valid, state) && Marked(modulesSym, valid) && Now() == old(Now()) && Seen(g) == old(Seen(g))
      ensures ok ==> str == StringAs(Now(), s, CurrIn(state, s))
      decreases |pending|, |decls.Keys - valid|, 0, 4
    {
      hide Grown, On, AllClosed, Closed, Onward, CurrIn, Cfg, Marked;
      OnwardSame(pending, valid);
      if !s.Typed() {
        return CurrIn(state, s).val;
      }
      var tri, modules := CurrIn(state, s).tri, modulesVal;
      if tri == MOD && modulesSym.Some? {
        MarkedIs(modulesSym, valid);
        CalcValue(modulesSym.value, ok, g);
        modules := CurrIn(state, modulesSym.value).tri;
      }
      str := TriString(if tri == MOD && modules == NO then NO else tri);
    }

    /** The two operands of a junction, in order. */
    method CalcBoth(l: Expr, r: Expr, ghost ok: bool, ghost g: Goal, ghost k: nat)
      returns (a: Tristate, b: Tristate)
      requires AllClosed(decls) && ChoicesClosed() && ClosedExpr(decls, l) && ClosedExpr(decls, r)
      requires ok ==> Heading(g) && On(Cfg(), g, Now(), valid, state) && Marked(modulesSym, valid) && DoneBelow(g, k, valid, state)
      requires ok ==> AskExpr(g, valid, Now(), k, l) && AskExpr(g, valid, Now(), k, r)
      modifies this`modulesVal, this`valid, this`state, this`pending, this`user, this`stored
      ensures Onward(old(pending), old(valid), pending, valid)
      ensures ok ==> Heading(g) && Cfg() == old(Cfg()) && old(valid) <= valid && Now() == old(Now()) && Seen(g) == old(Seen(g))
      ensures ok ==> On(Cfg(), g, Now(), valid, state) && Marked(modulesSym, valid)
      ensures ok ==> Grown(Cfg(), g, {}, old(valid), old(state), valid, state)
      ensures ok ==> a == Eval(l, Seen(g)) && b == Eval(r, Seen(g)) && ExprIn(Some(l), valid) && ExprIn(Some(r), valid)
      decreases |pending|, |decls.Keys - valid|, 1, Size(l) + Size(r)
    {
      hide *;
      a := CalcExpr(l, ok, g, k);
      OnwardLess(decls.Keys, old(pending), old(valid), pending, valid);
      ghost var v, st := valid, state;
      if ok {
        StillDoneBelow(Cfg(), g, k, old(valid), old(state), valid, state);
        AskExprMore(g, old(valid), valid, Now(), k, r);
      }
      ghost var p := pending;
      b := CalcExpr(r, ok, g, k);
      OnwardTrans(old(pending), old(valid), p, v, pending, valid);
      if ok {
        GrownTrans(Cfg(), g, {}, old(valid), old(state), v, st, valid, state);
        StillIn(Some(l), v, valid);
      }
    }

    /** A symbol of smaller rank, whose value is then up to date. */
    method CalcOperand(s: Symbol, ghost ok: bool, ghost g: Goal, ghost k: nat)
      requires AllClosed(decls) && ChoicesClosed() && Closed(decls, s)
      requires ok ==> Heading(g) && On(Cfg(), g, Now(), valid, state) && Marked(modulesSym, valid) && DoneBelow(g, k, valid, state)
      requires ok ==> Askable(g, valid, Now(), k, s)
      modifies this`modulesVal, this`valid, this`state, this`pending, this`user, this`stored
      ensures Onward(old(pending), old(valid), pending, valid)
      ensures ok ==> Heading(g) && Cfg() == old(Cfg()) && old(valid) <= valid && Now() == old(Now()) && Seen(g) == old(Seen(g))
      ensures ok ==> On(Cfg(), g, Now(), valid, state) && Marked(modulesSym, valid)
      ensures ok ==> Grown(Cfg(), g, {}, old(valid), old(state), valid, state)
      ensures ok ==> (s.Named? ==> s in valid) && CurrIn(state, s) == g.vals(s)
      decreases |pending|, |decls.Keys - valid|, 0, 3
    {
      hide *;
      ghost var now := Now();
      SeenIs(g);
      if ok {
        AskedIs(g, valid, now, k, s);
        MarkedNot(modulesSym, valid, s);
        SmallerDone(g, k, g.rank(s), valid, state);
        AlreadyDone(Cfg(), g, k, now, valid, state, s);
      }
      CalcValue(s, ok, g);
      SeenIs(g);
      if ok {
        AskMore(g, old(valid), valid, now);
      }
    }

    /** One of the expressions that decide s, which may be missing. Afterwards the
        evaluation of s can go on. */
    method CalcOwn(s: Symbol, e: Option<Expr>, missing: Tristate, ghost ok: bool, ghost g: Goal)
      returns (t: Tristate)
      requires AllClosed(decls) && ChoicesClosed() && s in decls && (ok ==> s in valid) && OwnExpr(decls, s, e)
      requires ok ==> Heading(g) && On(Cfg(), g, Now(), valid, state) && Marked(modulesSym, valid) && DoneBelow(g, g.rank(s), valid, state)
      requires ok ==> AskOpt(g, valid, Now(), g.rank(s), e)
      modifies this`modulesVal, this`valid, this`state, this`pending, this`user, this`stored
      ensures Onward(old(pending), old(valid), pending, valid)
      ensures ok ==> Heading(g) && Cfg() == old(Cfg()) && old(valid) <= valid && Now() == old(Now()) && Seen(g) == old(Seen(g))
      ensures ok ==> On(Cfg(), g, Now(), valid, state) && Marked(modulesSym, valid)
      ensures ok ==> Grown(Cfg(), g, {}, old(valid), old(state), valid, state)
      ensures ok ==> DoneBelow(g, g.rank(s), valid, state)
      ensures ok ==> t == EvalOr(e, missing, Seen(g)) && ExprIn(e, valid)
      decreases |pending|, |decls.Keys - valid|, 2
    {
      hide *;
      t := missing;
      GrownNothing(Cfg(), g, valid, state);
      OnwardSame(pending, valid);
      OwnFacts(decls, s, e);
      EvalOrIs(e, missing, Seen(g), valid);
      if e.Some? {
        AskOptIs(g, valid, Now(), g.rank(s), e);
        t := CalcExpr(e.value, ok, g, g.rank(s));
        EvalOrIs(e, missing, Seen(g), valid);
        if ok {
          StillDoneBelow(Cfg(), g, g.rank(s), old(valid), old(state), valid, state);
        }
      }
    }

    method CalcPrompts(s: Symbol, ghost ok: bool, ghost g: Goal) returns (tri: Tristate)
      requires AllClosed(decls) && ChoicesClosed() && s in decls && (ok ==> s in valid)
      requires ok ==> Heading(g) && On(Cfg(), g, Now(), valid, state) && Marked(modulesSym, valid) && DoneBelow(g, g.rank(s), valid, state)
      requires ok ==> AskBounds(Sys(), g, valid, Now(), s)
      modifies this`modulesVal, this`valid, this`state, this`pending, this`user, this`stored
      ensures Onward(old(pending), old(valid), pending, valid)
      ensures ok ==> Heading(g) && Cfg() == old(Cfg()) && old(valid) <= valid && Now() == old(Now()) && Seen(g) == old(Seen(g))
      ensures ok ==> On(Cfg(), g, Now(), valid, state) && Marked(modulesSym, valid)
      ensures ok ==> Grown(Cfg(), g, {}, old(valid), old(state), valid, state)
      ensures ok ==> DoneBelow(g, g.rank(s), valid, state)
      ensures ok ==> tri == VisibleOf(Sys(), s, Seen(g)) && forall p <- decls[s].prompts :: ExprIn(p, valid)
      decreases |pending|, |decls.Keys - valid|, 3
    {
      hide Grown, DoneBelow, On, Marked, Cfg, Seen, Now, Strongest, AllClosed, OwnExpr, AskBounds, AskOpt, ExprIn, Onward;
      var prompts := decls[s].prompts;
      SeenIs(g);
      tri := NO;
      PromptsStart(prompts, Seen(g));
      GrownNothing(Cfg(), g, valid, state);
      OnwardSame(pending, valid);
      var i := 0;
      while i < |prompts|
        invariant i <= |prompts| && Onward(old(pending), old(valid), pending, valid)
        invariant ok ==> Heading(g) && Cfg() == old(Cfg()) && old(valid) <= valid && Now() == old(Now()) && Seen(g) == old(Seen(g))
        invariant ok ==> On(Cfg(), g, Now(), valid, state) && Marked(modulesSym, valid)
        invariant ok ==> Grown(Cfg(), g, {}, old(valid), old(state), valid, state) && DoneBelow(g, g.rank(s), valid, state)
        invariant ok ==> tri == Strongest(prompts[..i], Seen(g)) && forall p <- prompts[..i] :: ExprIn(p, valid)
      {
        PromptOwn(decls, s, i);
        SeenIs(g);
        OnwardLess(decls.Keys, old(pending), old(valid), pending, valid);
        ghost var p, v, st := pending, valid, state;
        if ok {
          AskPrompt(Sys(), g, old(valid), valid, Now(), s, i);
        }
        var t := CalcOwn(s, prompts[i], YES, ok, g);
        OnwardTrans(old(pending), old(valid), p, v, pending, valid);
        if ok {
          GrownTrans(Cfg(), g, {}, old(valid), old(state), v, st, valid, state);
          PromptsStep(prompts, i, Seen(g));
          AllStillIn(prompts, i, v, valid);
        }
        // A tristate value of a choice at y is not shown at m.
        if s in memberOf && s.Type() == Tri && t == MOD && CurrIn(state, memberOf[s]).tri == YES {
          t := NO;
        }
        tri := Max(tri, t);
        i := i + 1;
      }
      assert prompts[..i] == prompts;
      if tri == MOD && (s.Type() != Tri || modulesVal == NO) {
        tri := YES;
      }
    }

    function EffectiveTypeOf(s: Symbol): SymType
      reads this`modulesVal, this`state
    {
      if s.Type() == Tri && ((s in memberOf && StateIn(state, s).visible == YES) || modulesVal == NO) then Boolean else s.Type()
    }

    /** The upper bound that the prompts set. */
    method CalcVisible(s: Symbol, ghost ok: bool, ghost g: Goal)
      requires AllClosed(decls) && ChoicesClosed() && s in decls && (ok ==> s in valid)
      requires ok ==> Heading(g) && On(Cfg(), g, Now(), valid, state) && Marked(modulesSym, valid) && DoneBelow(g, g.rank(s), valid, state)
      requires ok ==> AskBounds(Sys(), g, valid, Now(), s)
      modifies this`modulesVal, this`valid, this`state, this`pending, this`user, this`stored
      ensures Onward(old(pending), old(valid), pending, valid)
      ensures ok ==> Heading(g) && Cfg() == old(Cfg()) && old(valid) <= valid && Now() == old(Now()) && Seen(g) == old(Seen(g))
      ensures ok ==> On(Cfg(), g, Now(), valid, state) && Marked(modulesSym, valid)
      ensures ok ==> Grown(Cfg(), g, {s}, old(valid), old(state), valid, state)
      ensures ok ==> DoneBelow(g, g.rank(s), valid, state)
      ensures ok ==> StateIn(state, s) == StateIn(old(state), s).(visible := VisibleOf(Sys(), s, Seen(g))) && forall p <- decls[s].prompts :: ExprIn(p, valid)
      decreases |pending|, |decls.Keys - valid|, 4
    {
      hide Grown, DoneBelow, On, Marked, Cfg, Now, Seen, Strongest, AllClosed, OwnExpr, AskBounds, AskOpt, ExprIn, Onward, NowIn;
      DependencyOwn(decls, s);
      GrownNothing(Cfg(), g, valid, state);
      OnwardSame(pending, valid);
      SeenIs(g);
      if ok {
        AskDependencies(Sys(), g, valid, Now(), s);
      }
      var tri := CalcPrompts(s, ok, g);
      ghost var st := state;
      SeenIs(g);
      state := state[s := StateIn(state, s).(visible := tri)];
      if ok {
        GrowSelf(Cfg(), g, s, old(valid), old(state), valid, st, state[s]);
        StillOn(Cfg(), g, valid, st, s, state[s]);
      }
      SeenIs(g);
    }

    /** The direct dependency, y if there is none. */
    method CalcDirDep(s: Symbol, ghost ok: bool, ghost g: Goal)
      requires AllClosed(decls) && ChoicesClosed() && s in decls && (ok ==> s in valid)
      requires ok ==> Heading(g) && On(Cfg(), g, Now(), valid, state) && Marked(modulesSym, valid) && DoneBelow(g, g.rank(s), valid, state)
      requires ok ==> AskBounds(Sys(), g, valid, Now(), s)
      modifies this`modulesVal, this`valid, this`state, this`pending, this`user, this`stored
      ensures Onward(old(pending), old(valid), pending, valid)
      ensures ok ==> Heading(g) && Cfg() == old(Cfg()) && old(valid) <= valid && Now() == old(Now()) && Seen(g) == old(Seen(g))
      ensures ok ==> On(Cfg(), g, Now(), valid, state) && Marked(modulesSym, valid)
      ensures ok ==> Grown(Cfg(), g, {s}, old(valid), old(state), valid, state)
      ensures ok ==> DoneBelow(g, g.rank(s), valid, state)
      ensures ok ==> StateIn(state, s) == StateIn(old(state), s).(dir := DirDepOf(Sys(), s, Seen(g))) && ExprIn(decls[s].dirDep, valid)
      decreases |pending|, |decls.Keys - valid|, 4
    {
      hide Grown, DoneBelow, On, Marked, Cfg, Now, Seen, Strongest, AllClosed, OwnExpr, AskBounds, AskOpt, ExprIn, Onward, NowIn;
      DependencyOwn(decls, s);
      GrownNothing(Cfg(), g, valid, state);
      OnwardSame(pending, valid);
      SeenIs(g);
      if ok {
        AskDependencies(Sys(), g, valid, Now(), s);
      }
      var tri := CalcOwn(s, decls[s].dirDep, YES, ok, g);
      tri := PromoteIf(tri, EffectiveTypeOf(s) == Boolean);
      ghost var st := state;
      SeenIs(g);
      state := state[s := StateIn(state, s).(dir := tri)];
      if ok {
        GrowSelf(Cfg(), g, s, old(valid), old(state), valid, st, state[s]);
        StillOn(Cfg(), g, valid, st, s, state[s]);
      }
      SeenIs(g);
    }

    /** The reverse dependency through selects. */
    method CalcRevDep(s: Symbol, ghost ok: bool, ghost g: Goal)
      requires AllClosed(decls) && ChoicesClosed() && s in decls && (ok ==> s in valid)
      requires ok ==> Heading(g) && On(Cfg(), g, Now(), valid, state) && Marked(modulesSym, valid) && DoneBelow(g, g.rank(s), valid, state)
      requires ok ==> AskBounds(Sys(), g, valid, Now(), s)
      modifies this`modulesVal, this`valid, this`state, this`pending, this`user, this`stored
      ensures Onward(old(pending), old(valid), pending, valid)
      ensures ok ==> Heading(g) && Cfg() == old(Cfg()) && old(valid) <= valid && Now() == old(Now()) && Seen(g) == old(Seen(g))
      ensures ok ==> On(Cfg(), g, Now(), valid, state) && Marked(modulesSym, valid)
      ensures ok ==> Grown(Cfg(), g, {s}, old(valid), old(state), valid, state)
      ensures ok ==> DoneBelow(g, g.rank(s), valid, state)
      ensures ok ==> StateIn(state, s) == StateIn(old(state), s).(rev := RevDepOf(Sys(), s, Seen(g))) && ExprIn(decls[s].revDep, valid)
      decreases |pending|, |decls.Keys - valid|, 4
    {
      hide Grown, DoneBelow, On, Marked, Cfg, Now, Seen, Strongest, AllClosed, OwnExpr, AskBounds, AskOpt, ExprIn, Onward, NowIn;
      DependencyOwn(decls, s);
      GrownNothing(Cfg(), g, valid, state);
      OnwardSame(pending, valid);
      SeenIs(g);
      if ok {
        AskDependencies(Sys(), g, valid, Now(), s);
      }
      var tri := CalcOwn(s, decls[s].revDep, NO, ok, g);
      tri := PromoteIf(tri, EffectiveTypeOf(s) == Boolean);
      ghost var st := state;
      SeenIs(g);
      state := state[s := StateIn(state, s).(rev := tri)];
      if ok {
        GrowSelf(Cfg(), g, s, old(valid), old(state), valid, st, state[s]);
        StillOn(Cfg(), g, valid, st, s, state[s]);
      }
      SeenIs(g);
    }

    /** The weak reverse dependency, which counts only with the direct one. */
    method CalcImplied(s: Symbol, ghost ok: bool, ghost g: Goal)
      requires AllClosed(decls) && ChoicesClosed() && s in decls && (ok ==> s in valid)
      requires ok ==> Heading(g) && On(Cfg(), g, Now(), valid, state) && Marked(modulesSym, valid) && DoneBelow(g, g.rank(s), valid, state)
      requires ok ==> AskBounds(Sys(), g, valid, Now(), s)
      requires ok ==> StateIn(state, s).dir == DirDepOf(Sys(), s, Seen(g))
      modifies this`modulesVal, this`valid, this`state, this`pending, this`user, this`stored
      ensures Onward(old(pending), old(valid), pending, valid)
      ensures ok ==> Heading(g) && Cfg() == old(Cfg()) && old(valid) <= valid && Now() == old(Now()) && Seen(g) == old(Seen(g))
      ensures ok ==> On(Cfg(), g, Now(), valid, state) && Marked(modulesSym, valid)
      ensures ok ==> Grown(Cfg(), g, {s}, old(valid), old(state), valid, state)
      ensures ok ==> DoneBelow(g, g.rank(s), valid, state)
      ensures ok ==> StateIn(state, s) == StateIn(old(state), s).(implied := ImpliedOf(Sys(), s, Seen(g))) && (DirDepOf(Sys(), s, Seen(g)) != NO ==> ExprIn(decls[s].implied, valid))
      decreases |pending|, |decls.Keys - valid|, 4
    {
      hide Grown, DoneBelow, On, Marked, Cfg, Now, Seen, Strongest, AllClosed, OwnExpr, AskBounds, AskOpt, ExprIn, Onward, NowIn;
      DependencyOwn(decls, s);
      GrownNothing(Cfg(), g, valid, state);
      OnwardSame(pending, valid);
      SeenIs(g);
      if ok {
        AskImplied(Sys(), g, valid, Now(), s);
      }
      var tri := NO;
      if decls[s].implied.Some? && StateIn(state, s).dir != NO {
        tri := CalcOwn(s, decls[s].implied, NO, ok, g);
      }
      EvalOrIs(decls[s].implied, NO, Seen(g), valid);
      tri := PromoteIf(tri, EffectiveTypeOf(s) == Boolean);
      ghost var st := state;
      SeenIs(g);
      state := state[s := StateIn(state, s).(implied := tri)];
      if ok {
        GrowSelf(Cfg(), g, s, old(valid), old(state), valid, st, state[s]);
        StillOn(Cfg(), g, valid, st, s, state[s]);
      }
      SeenIs(g);
    }

    /** Visibility, direct dependency, reverse dependency and implication, in this
        order, of a symbol that is being evaluated. */
    method CalcVisibility(s: Symbol, ghost ok: bool, ghost g: Goal)
      requires AllClosed(decls) && ChoicesClosed() && s in decls && (ok ==> s in valid)
      requires ok ==> Heading(g) && On(Cfg(), g, Now(), valid, state) && Marked(modulesSym, valid) && DoneBelow(g, g.rank(s), valid, state)
      requires ok ==> AskBounds(Sys(), g, valid, Now(), s)
      modifies this`modulesVal, this`valid, this`state, this`pending, this`user, this`stored
      ensures Onward(old(pending), old(valid), pending, valid)
      ensures ok ==> Heading(g) && Cfg() == old(Cfg()) && old(valid) <= valid && Now() == old(Now()) && Seen(g) == old(Seen(g))
      ensures ok ==> On(Cfg(), g, Now(), valid, state) && Marked(modulesSym, valid)
      ensures ok ==> Grown(Cfg(), g, {s}, old(valid), old(state), valid, state)
      ensures ok ==> DoneBelow(g, g.rank(s), valid, state)
      ensures ok ==> VisibilityDone(Cfg(), g, state, s) && BoundsIn(Sys(), s, Seen(g), valid)
      ensures ok ==> StateIn(state, s).curr == StateIn(old(state), s).curr && StateIn(state, s).write == StateIn(old(state), s).write
      ensures ok ==> StateIn(state, s).pick == StateIn(old(state), s).pick
      decreases |pending|, |decls.Keys - valid|, 5
    {
      hide Grown, DoneBelow, On, Marked, Cfg, Now, Seen, Strongest, AllClosed, AskBounds, ExprIn, Onward, NowIn,
           VisibleOf, DirDepOf, RevDepOf, ImpliedOf, BoundsIn, VisibilityDone, StateIn, Plain, Heading, ChoicesClosed;
      NoMembers(g);
      SeenIs(g);
      CalcVisible(s, ok, g);
      SeenIs(g);
      if s in memberOf {
        return;
      }
      OnwardLess(decls.Keys, old(pending), old(valid), pending, valid);
      ghost var p, v1, st := pending, valid, state;
      if ok {
        AskBoundsMore(Sys(), g, old(valid), valid, Now(), s);
      }
      CalcDirDep(s, ok, g);
      SeenIs(g);
      OnwardTrans(old(pending), old(valid), p, v1, pending, valid);
      OnwardLess(decls.Keys, old(pending), old(valid), pending, valid);
      if ok {
        GrownTrans(Cfg(), g, {s}, old(valid), old(state), v1, st, valid, state);
        AskBoundsMore(Sys(), g, v1, valid, Now(), s);
      }
      ghost var v2;
      p, v2, st := pending, valid, state;
      CalcRevDep(s, ok, g);
      SeenIs(g);
      OnwardTrans(old(pending), old(valid), p, v2, pending, valid);
      OnwardLess(decls.Keys, old(pending), old(valid), pending, valid);
      if ok {
        GrownTrans(Cfg(), g, {s}, old(valid), old(state), v2, st, valid, state);
        AskBoundsMore(Sys(), g, v2, valid, Now(), s);
      }
      ghost var v3;
      p, v3, st := pending, valid, state;
      CalcImplied(s, ok, g);
      OnwardTrans(old(pending), old(valid), p, v3, pending, valid);
      if ok {
        GrownTrans(Cfg(), g, {s}, old(valid), old(state), v3, st, valid, state);
        BoundsAreIn(Sys(), s, Seen(g), v1, v2, v3, valid);
        SeenIs(g);
        BoundsDone(Cfg(), g, old(valid), Now(), state, s);
      }
    }

    lemma SameCfg(c: Config)
      ensures c == Cfg() <==> c == Config(System(decls, names, num, modulesVal), user)
    {
    }

    lemma HeadingIs(g: Goal)
      ensures Heading(g) <==> Plain() && g.m == modulesSym
    {
    }

    lemma NoMembers(g: Goal)
      ensures Heading(g) ==> memberOf == map[] && choices == map[]
    {
    }

    /** The first default whose condition is not n, with the value of the condition. */
    method FindDefault(s: Symbol, ghost ok: bool, ghost g: Goal)
      returns (d: Option<DefaultProp>, cond: Tristate)
      requires AllClosed(decls) && ChoicesClosed() && s in decls && (ok ==> s in valid)
      requires ok ==> Heading(g) && On(Cfg(), g, Now(), valid, state) && Marked(modulesSym, valid) && DoneBelow(g, g.rank(s), valid, state)
      requires ok ==> forall t: Symbol :: CondReads(decls[s].defaults, Seen(g), t) ==> Askable(g, valid, Now(), g.rank(s), t)
      modifies this`modulesVal, this`valid, this`state, this`pending, this`user, this`stored
      ensures Onward(old(pending), old(valid), pending, valid)
      ensures ok ==> Heading(g) && Cfg() == old(Cfg()) && old(valid) <= valid && Now() == old(Now()) && Seen(g) == old(Seen(g))
      ensures ok ==> On(Cfg(), g, Now(), valid, state) && Marked(modulesSym, valid)
      ensures ok ==> Grown(Cfg(), g, {}, old(valid), old(state), valid, state)
      ensures ok ==> DoneBelow(g, g.rank(s), valid, state)
      ensures d.Some? ==> d.value in decls[s].defaults
      ensures ok ==> d == ActiveDefault(decls[s].defaults, Seen(g)) && CondsIn(decls[s].defaults, Seen(g), valid)
      ensures ok && d.Some? ==> cond == EvalOpt(d.value.cond, Seen(g))
      decreases |pending|, |decls.Keys - valid|, 3
    {
      hide Grown, DoneBelow, On, Marked, Cfg, Now, Seen, AllClosed, OwnExpr, AskOpt, ExprIn, Onward, NowIn, Heading, EnvAs, Askable;
      var defaults := decls[s].defaults;
      GrownNothing(Cfg(), g, valid, state);
      OnwardSame(pending, valid);
      d, cond := None, NO;
      var i := 0;
      assert defaults[0..] == defaults;
      while i < |defaults|
        invariant i <= |defaults| && Onward(old(pending), old(valid), pending, valid)
        invariant ok ==> Heading(g) && Cfg() == old(Cfg()) && old(valid) <= valid && Now() == old(Now()) && Seen(g) == old(Seen(g))
        invariant ok ==> On(Cfg(), g, Now(), valid, state) && Marked(modulesSym, valid)
        invariant ok ==> Grown(Cfg(), g, {}, old(valid), old(state), valid, state) && DoneBelow(g, g.rank(s), valid, state)
        invariant ok ==> ActiveDefault(defaults[i..], Seen(g)) == ActiveDefault(defaults, Seen(g))
        invariant ok ==> forall t: Symbol :: CondReads(defaults[i..], Seen(g), t) ==> CondReads(defaults, Seen(g), t)
        invariant ok ==> forall t: Symbol :: t.Named? && CondReads(defaults, Seen(g), t) ==> t in valid || CondReads(defaults[i..], Seen(g), t)
      {
        DefaultOwn(decls, s, defaults[i]);
        CondFirst(defaults, i, Seen(g));
        OnwardLess(decls.Keys, old(pending), old(valid), pending, valid);
        ghost var p, v, st := pending, valid, state;
        if ok {
          AskMore(g, old(valid), valid, Now());
          AskFrom(g, valid, Now(), g.rank(s), defaults[i].cond);
        }
        cond := CalcOwn(s, defaults[i].cond, YES, ok, g);
        OnwardTrans(old(pending), old(valid), p, v, pending, valid);
        if ok {
          GrownTrans(Cfg(), g, {}, old(valid), old(state), v, st, valid, state);
          InFrom(defaults[i].cond, valid);
        }
        if cond != NO {
          d := Some(defaults[i]);
          return;
        }
        i := i + 1;
      }
    }

    /** The tristate value of a visited symbol, and whether it is worth writing. */
    method CalcTristate(s: Symbol, ghost ok: bool, ghost g: Goal) returns (tri: Tristate, write: bool)
      requires AllClosed(decls) && ChoicesClosed() && s in decls && (ok ==> s in valid) && s.Typed()
      requires ok ==> Heading(g) && On(Cfg(), g, Now(), valid, state) && Marked(modulesSym, valid) && DoneBelow(g, g.rank(s), valid, state)
      requires ok ==> VisibilityDone(Cfg(), g, state, s) && AskValue(Cfg(), g, valid, Now(), s)
      modifies this`modulesVal, this`valid, this`state, this`pending, this`user, this`stored
      ensures Onward(old(pending), old(valid), pending, valid)
      ensures ok ==> Heading(g) && Cfg() == old(Cfg()) && old(valid) <= valid && Now() == old(Now()) && Seen(g) == old(Seen(g))
      ensures ok ==> On(Cfg(), g, Now(), valid, state) && Marked(modulesSym, valid)
      ensures ok ==> Grown(Cfg(), g, {}, old(valid), old(state), valid, state)
      ensures ok ==> tri == TristateFrom(Cfg(), s, BoundsEnv(Sys(), g, s), Seen(g))
      ensures ok ==> (write <==> VisibleOf(Sys(), s, BoundsEnv(Sys(), g, s)) != NO || WrittenUnseen(Sys(), s, BoundsEnv(Sys(), g, s), Seen(g)))
      ensures ok ==> ValueIn(Cfg(), s, BoundsEnv(Sys(), g, s), Seen(g), valid)
      decreases |pending|, |decls.Keys - valid|, 5
    {
      hide Grown, DoneBelow, On, Marked, Now, Seen, AllClosed, AskValue, Onward, NowIn, EnvAs, BoundsEnv, Strongest, VisibleOf, RevDepOf, ImpliedOf, DirDepOf;
      SeenIs(g);
      GrownNothing(Cfg(), g, valid, state);
      OnwardSame(pending, valid);
      var f := StateIn(state, s);
      write := f.visible != NO;
      if s in memberOf && f.visible == YES {
        tri := FromBool(StateIn(state, memberOf[s]).pick == Some(s));
      } else {
        if f.visible != NO && s in user {
          tri := Min(user[s].tri, f.visible);
        } else {
          if f.rev != NO {
            write := true;
          }
          tri := NO;
          if s !in choices {
            var more;
            tri, more := CalcDefault(s, ok, g);
            write := write || more;
          }
        }
        tri := Max(tri, f.rev);
      }
      if tri == MOD && (EffectiveTypeOf(s) == Boolean || f.implied == YES) {
        tri := YES;
      }
    }

    /** The active default and the implications of a symbol that is not a choice, and
        whether they make it worth writing. */
    method CalcDefault(s: Symbol, ghost ok: bool, ghost g: Goal) returns (tri: Tristate, write: bool)
      requires AllClosed(decls) && ChoicesClosed() && s in decls && (ok ==> s in valid) && s.Typed()
      requires ok ==> Heading(g) && On(Cfg(), g, Now(), valid, state) && Marked(modulesSym, valid) && DoneBelow(g, g.rank(s), valid, state)
      requires ok ==> VisibilityDone(Cfg(), g, state, s) && AskValue(Cfg(), g, valid, Now(), s)
      requires ok ==> !(VisibleOf(Sys(), s, BoundsEnv(Sys(), g, s)) != NO && s in user)
      modifies this`modulesVal, this`valid, this`state, this`pending, this`user, this`stored
      ensures Onward(old(pending), old(valid), pending, valid)
      ensures ok ==> Heading(g) && Cfg() == old(Cfg()) && old(valid) <= valid && Now() == old(Now()) && Seen(g) == old(Seen(g))
      ensures ok ==> On(Cfg(), g, Now(), valid, state) && Marked(modulesSym, valid)
      ensures ok ==> Grown(Cfg(), g, {}, old(valid), old(state), valid, state)
      ensures ok ==> tri == Max(DefaultTri(Sys(), s, Seen(g)), ImpliedOf(Sys(), s, BoundsEnv(Sys(), g, s)))
      ensures ok ==> (write <==> DefaultTri(Sys(), s, Seen(g)) != NO || ImpliedOf(Sys(), s, BoundsEnv(Sys(), g, s)) != NO)
      ensures ok ==> ValueIn(Cfg(), s, BoundsEnv(Sys(), g, s), Seen(g), valid)
      decreases |pending|, |decls.Keys - valid|, 4
    {
      hide Grown, DoneBelow, On, Marked, Now, Seen, AllClosed, AskValue, Onward, NowIn, EnvAs, BoundsEnv, Strongest, VisibleOf, RevDepOf, ImpliedOf, DirDepOf,
           CondReads, CondsIn, ExprIn, OwnExpr, AskOpt, ActiveDefault;
      SeenIs(g);
      if ok {
        AskDefaults(Cfg(), g, valid, Now(), s);
      }
      var f := StateIn(state, s);
      tri, write := NO, false;
      var d, cond := FindDefault(s, ok, g);
      ghost var p, v, st := pending, valid, state;
      GrownNothing(Cfg(), g, valid, state);
      if d.Some? {
        DefaultOwn(decls, s, d.value);
        OnwardLess(decls.Keys, old(pending), old(valid), pending, valid);
        if ok {
          AskMore(g, old(valid), valid, Now());
          AskFrom(g, valid, Now(), g.rank(s), Some(d.value.value));
        }
        var t := CalcOwn(s, Some(d.value.value), NO, ok, g);
        OnwardTrans(old(pending), old(valid), p, v, pending, valid);
        if ok {
          GrownTrans(Cfg(), g, {}, old(valid), old(state), v, st, valid, state);
          InFrom(Some(d.value.value), valid);
        }
        tri := Min(t, cond);
        if tri != NO {
          write := true;
        }
      }
      if ok {
        CondsStillIn(decls[s].defaults, Seen(g), v, valid);
        ValueIsIn(Cfg(), s, BoundsEnv(Sys(), g, s), Seen(g), valid);
      }
      if f.implied != NO {
        write := true;
        tri := Max(tri, f.implied);
      }
    }

    /** The string of a visited int, hex or string symbol, and whether it is worth
        writing. */
    method CalcText(s: Symbol, ghost ok: bool, ghost g: Goal) returns (val: string, write: bool)
      requires AllClosed(decls) && ChoicesClosed() && s in decls && (ok ==> s in valid) && IsStringType(s.Type())
      requires ok ==> Heading(g) && On(Cfg(), g, Now(), valid, state) && Marked(modulesSym, valid) && DoneBelow(g, g.rank(s), valid, state)
      requires ok ==> VisibilityDone(Cfg(), g, state, s) && AskValue(Cfg(), g, valid, Now(), s)
      modifies this`modulesVal, this`valid, this`state, this`pending, this`user, this`stored
      ensures Onward(old(pending), old(valid), pending, valid)
      ensures ok ==> Heading(g) && Cfg() == old(Cfg()) && old(valid) <= valid && Now() == old(Now()) && Seen(g) == old(Seen(g))
      ensures ok ==> On(Cfg(), g, Now(), valid, state) && Marked(modulesSym, valid)
      ensures ok ==> Grown(Cfg(), g, {}, old(valid), old(state), valid, state)
      ensures ok ==> val == TextFrom(Cfg(), s, BoundsEnv(Sys(), g, s), Seen(g), g.vals)
      ensures ok && !(VisibleOf(Sys(), s, BoundsEnv(Sys(), g, s)) != NO && s in user) ==>
                (write <==> VisibleOf(Sys(), s, BoundsEnv(Sys(), g, s)) != NO || WrittenUnseen(Sys(), s, BoundsEnv(Sys(), g, s), Seen(g)))
      ensures ok && VisibleOf(Sys(), s, BoundsEnv(Sys(), g, s)) != NO ==> write
      ensures ok ==> ValueIn(Cfg(), s, BoundsEnv(Sys(), g, s), Seen(g), valid)
      decreases |pending|, |decls.Keys - valid|, 5
    {
      hide Grown, DoneBelow, On, Marked, Now, Seen, AllClosed, AskValue, Onward, NowIn, EnvAs, BoundsEnv, Strongest, VisibleOf, RevDepOf, ImpliedOf, DirDepOf,
           CondReads, CondsIn, ActiveDefault;
      SeenIs(g);
      GrownNothing(Cfg(), g, valid, state);
      OnwardSame(pending, valid);
      var f := StateIn(state, s);
      write := f.visible != NO;
      if f.visible != NO && s in user {
        val := user[s].val;
        return;
      }
      if ok {
        AskDefaults(Cfg(), g, valid, Now(), s);
      }
      val := "";
      var d, cond := FindDefault(s, ok, g);
      ghost var p, v, st := pending, valid, state;
      if d.Some? && d.value.value.Sym? {
        write := true;
        var source := d.value.value.s;
        SourceOwn(decls, s, d.value);
        OnwardLess(decls.Keys, old(pending), old(valid), pending, valid);
        if ok {
          AskMore(g, old(valid), valid, Now());
        }
        CalcOperand(source, ok, g, g.rank(s));
        OnwardTrans(old(pending), old(valid), p, v, pending, valid);
        if ok {
          GrownTrans(Cfg(), g, {}, old(valid), old(state), v, st, valid, state);
        }
        val := CurrIn(state, source).val;
      }
      if ok {
        CondsStillIn(decls[s].defaults, Seen(g), v, valid);
        ValueIsIn(Cfg(), s, BoundsEnv(Sys(), g, s), Seen(g), valid);
      }
    }

    /** The value of a visited symbol by its type, and whether it is worth writing. */
    method CalcResult(s: Symbol, ghost ok: bool, ghost g: Goal) returns (result: Value, write: bool)
      requires AllClosed(decls) && ChoicesClosed() && s in decls && (ok ==> s in valid) && HasType(s) && s.Named?
      requires ok ==> Heading(g) && On(Cfg(), g, Now(), valid, state) && Marked(modulesSym, valid) && DoneBelow(g, g.rank(s), valid, state)
      requires ok ==> VisibilityDone(Cfg(), g, state, s) && AskValue(Cfg(), g, valid, Now(), s) && s !in g.fixed
      modifies this`modulesVal, this`valid, this`state, this`pending, this`user, this`stored
      ensures Onward(old(pending), old(valid), pending, valid)
      ensures ok ==> Heading(g) && Cfg() == old(Cfg()) && old(valid) <= valid && Now() == old(Now()) && Seen(g) == old(Seen(g))
      ensures ok ==> On(Cfg(), g, Now(), valid, state) && Marked(modulesSym, valid)
      ensures ok ==> Grown(Cfg(), g, {}, old(valid), old(state), valid, state)
      ensures ok ==> result == g.vals(s)
      ensures ok ==> (write && !decls[s].auto <==> WrittenFrom(Sys(), s, BoundsEnv(Sys(), g, s), ValueEnv(Sys(), g, s)))
      ensures ok ==> ValueIn(Cfg(), s, BoundsEnv(Sys(), g, s), ValueEnv(Sys(), g, s), valid)
      decreases |pending|, |decls.Keys - valid|, 6
    {
      hide Grown, DoneBelow, On, Marked, Now, Seen, AllClosed, AskValue, Onward, NowIn, EnvAs, BoundsEnv, ValueEnv, VisibleOf, RevDepOf, ImpliedOf, DirDepOf,
           VisibilityDone, WrittenUnseen, TristateFrom, TextFrom, ValueIn;
      SeenIs(g);
      if ok {
        OnStep(Cfg(), g, Now(), valid, state, s);
        SeesValue(Cfg(), g, valid, Now(), s);
      }
      if s.Typed() {
        var tri;
        tri, write := CalcTristate(s, ok, g);
        result := Value("n", tri);
      } else {
        var val;
        val, write := CalcText(s, ok, g);
        result := Value(val, NO);
      }
    }

    /** Evaluates a symbol that has just been marked valid. While its value is computed it
        has a default, in case the evaluation comes back to it; for the modules symbol that
        is what is seen of it then. */
    method CalcNew(s: Symbol, ghost ok: bool, ghost g: Goal)
      requires AllClosed(decls) && ChoicesClosed() && s in decls && (ok ==> s in valid) && HasType(s) && s.Named?
      requires ok ==> Heading(g) && On(Cfg(), g, Now(), valid, state) && Marked(modulesSym, valid) && DoneBelow(g, g.rank(s), valid, state)
      requires ok ==> AskBounds(Sys(), g, valid, Now(), s) && s in g.scope && s !in g.fixed
      requires ok && modulesSym != Some(s) ==> AskValue(Cfg(), g, valid, Now(), s)
      requires ok && modulesSym == Some(s) ==> g.after == NO && (g.before != g.after ==> IsEarly(Cfg(), g, s)) && OnlySelf(g, s, valid)
      modifies this`modulesVal, this`valid, this`state, this`pending, this`user, this`stored
      ensures Onward(old(pending), old(valid), pending, valid)
      ensures ok ==> Heading(g) && Cfg() == old(Cfg()) && old(valid) <= valid && Marked(modulesSym, valid)
      ensures ok ==> Grown(Cfg(), g, {s}, old(valid), old(state), valid, state) && Fresh(Cfg(), g, state, s) && ReadIn(Cfg(), g, s, valid)
      ensures ok && modulesSym != Some(s) ==> On(Cfg(), g, Now(), valid, state) && Now() == old(Now()) && Seen(g) == old(Seen(g))
      decreases |pending|, |decls.Keys - valid|, 7
    {
      hide *;
      SeenIs(g);
      ghost var c, now := Cfg(), Now();
      NoMembers(g);
      state := state[s := StateIn(state, s).(write := false)];
      ghost var st1 := state;
      if ok {
        BoundsPrint(Sys(), g, valid, now, s);
        ChangeSelf(c, g, s, valid, old(state), state[s]);
        StillOn(c, g, valid, old(state), s, state[s]);
      }
      SeenIs(g);
      CalcVisibility(s, ok, g);
      SeenIs(g);
      // The default in case the evaluation comes back to this symbol.
      ghost var p, v2, st2 := pending, valid, state;
      OnwardLess(decls.Keys, old(pending), old(valid), pending, valid);
      state := state[s := StateIn(state, s).(write := StateIn(state, s).visible != NO,
                                             curr := Value(if s.Typed() then "n" else "", NO), pick := None)];
      ghost var st3 := state;
      SeenIs(g);
      if ok {
        ChangeSelf(c, g, s, v2, st2, state[s]);
        KeepVisibility(c, g, st2, s, state[s]);
        SecondPart(c, g, old(valid), now, v2, st1, st2, s, state[s]);
      }
      var result, write := CalcResult(s, ok, g);
      SeenIs(g);
      OnwardTrans(old(pending), old(valid), p, v2, pending, valid);
      ghost var st4 := state;
      state := state[s := StateIn(state, s).(curr := result, pick := None, write := write && (s in choices || !decls[s].auto))];
      SeenIs(g);
      if ok {
        Finish(c, g, now, s, old(valid), old(state), st1, v2, st2, st3, valid, st4, state[s]);
        if modulesSym != Some(s) {
          StillOn(c, g, valid, st4, s, state[s]);
        }
      }
    }

    /** A symbol without a type, just marked valid, has its name as value. */
    method CalcUntyped(s: Symbol, ghost v0: set<Symbol>, ghost ok: bool, ghost g: Goal)
      requires s.Named? && !HasType(s) && s in valid
      requires ok ==> Heading(g) && On(Cfg(), g, Now(), v0, state) && valid == v0 + {s} && s !in v0 && s in g.scope
      modifies this`state
      ensures ok ==> Grown(Cfg(), g, {}, v0, old(state), valid, state) && CurrIn(state, s) == g.vals(s)
      ensures ok && modulesSym != Some(s) ==> On(Cfg(), g, Now(), valid, state) && Now() == old(Now()) && Seen(g) == old(Seen(g))
    {
      hide *;
      SeenIs(g);
      state := state[s := StateIn(state, s).(curr := Value(names(s), NO))];
      NamesOfSys();
      SeenIs(g);
      if ok {
        FinishUntyped(Cfg(), g, old(Now()), v0, old(state), state, s);
        if modulesSym != Some(s) {
          StillOn(Cfg(), g, v0, old(state), s, state[s]);
          AskMore(g, v0, valid, Now());
          OnMore(Cfg(), g, Now(), v0, valid, state);
        }
      }
    }

    lemma NamesOfSys()
      ensures Cfg().sys.names == names
    {
    }

    /** A symbol with a type, just marked valid. */
    method CalcTyped(s: Symbol, ghost v0: set<Symbol>, ghost ok: bool, ghost g: Goal)
      requires AllClosed(decls) && ChoicesClosed() && s in decls && (ok ==> s in valid) && HasType(s) && s.Named?
      requires ok ==> Heading(g) && On(Cfg(), g, Now(), valid, state) && Marked(modulesSym, valid) && DoneBelow(g, g.rank(s), valid, state)
      requires ok ==> AskBounds(Sys(), g, valid, Now(), s) && s in g.scope && s !in g.fixed && valid == v0 + {s} && s !in v0
      requires ok && modulesSym != Some(s) ==> AskValue(Cfg(), g, valid, Now(), s)
      requires ok && modulesSym == Some(s) ==> g.after == NO && (g.before != g.after ==> IsEarly(Cfg(), g, s)) && OnlySelf(g, s, valid)
      modifies this`modulesVal, this`valid, this`state, this`pending, this`user, this`stored
      ensures Onward(old(pending), old(valid), pending, valid)
      ensures ok ==> Heading(g) && user == old(user) && old(valid) <= valid && Marked(modulesSym, valid)
      ensures ok ==> Grown(old(Cfg()), g, {}, v0, old(state), valid, state) && CurrIn(state, s) == g.vals(s)
      ensures ok ==> modulesVal == if modulesSym == Some(s) then g.vals(s).tri else old(modulesVal)
      ensures ok && modulesSym != Some(s) ==> On(Cfg(), g, Now(), valid, state) && Now() == old(Now()) && Seen(g) == old(Seen(g))
      decreases |pending|, |decls.Keys - valid|, 9
    {
      NoMembers(g);
      hide *;
      SeenIs(g);
      CalcNew(s, ok, g);
      SeenIs(g);
      if ok {
        SelfDone(Cfg(), g, s, v0, old(state), valid, state);
      }
      if s in choices {
        OnwardLess(decls.Keys, old(pending), old(valid), pending, valid);
        ghost var p, v := pending, valid;
        FinishChoice(s);
        OnwardTrans(old(pending), old(valid), p, v, pending, valid);
      }
      if modulesSym == Some(s) {
        Publish(CurrIn(state, s).tri);
        SeenIs(g);
      }
    }

    /* ----- choices, for which only termination is claimed ----- */

    /** A choice whose mode is known: at y a member is selected, or the choice becomes n;
        visible members are written if the choice is; and values that were to be set are,
        after which the choice is to be evaluated again. */
    method FinishChoice(s: Symbol)
      requires AllClosed(decls) && ChoicesClosed() && s in choices && s in decls
      modifies this`modulesVal, this`valid, this`state, this`pending, this`user, this`stored
      ensures Onward(old(pending), old(valid), pending, valid)
      ensures s !in pending
      decreases |pending|, |decls.Keys - valid|, 8
    {
      hide AllClosed, ClosedExpr;
      if CurrIn(state, s).tri == YES {
        ghost var seen;
        var pick;
        pick, seen := SelectMember(s);
        var f := StateIn(state, s);
        state := state[s := f.(pick := pick, curr := if pick.None? then Value(f.curr.val, NO) else f.curr)];
      }
      var members, i := choices[s].members, 0;
      while i < |members|
        invariant i <= |members| && Onward(old(pending), old(valid), pending, valid)
      {
        if StateIn(state, s).write && StateIn(state, members[i]).visible != NO {
          state := state[members[i] := StateIn(state, members[i]).(write := true)];
        }
        i := i + 1;
      }
      if decls[s].auto {
        state := state[s := StateIn(state, s).(write := false)];
      }
      if s in pending {
        SetAllChoiceValues(s);
      }
    }

    /** Members that the user has not set become n, the choice counts as set by the user,
        and it is no longer pending nor valid. */
    method SetAllChoiceValues(s: Symbol)
      requires s in choices && s in pending
      modifies this`valid, this`pending, this`user, this`stored
      ensures pending == old(pending) - {s} && valid == old(valid) - {s}
      ensures user == if s in old(user) then old(user) else old(user)[s := StoredIn(stored, s)]
      ensures Cleared(choices[s].members, old(user), old(stored), stored)
    {
      var members, i := choices[s].members, 0;
      while i < |members|
        invariant i <= |members| && user == old(user) && valid == old(valid) && pending == old(pending)
        invariant Cleared(members[..i], user, old(stored), stored)
      {
        if members[i] !in user {
          stored := stored[members[i] := StoredIn(stored, members[i]).(tri := NO)];
        }
        i := i + 1;
      }
      assert members[..i] == members;
      if s !in user {
        user := user[s := StoredIn(stored, s)];
      }
      valid, pending := valid - {s}, pending - {s};
    }

    /** Looks at the visibility of all members. The user's value of the choice counts only
        if all visible members have one. */
    method ShowMembers(s: Symbol)
      requires AllClosed(decls) && ChoicesClosed() && s in choices
      modifies this`modulesVal, this`valid, this`state, this`pending, this`user, this`stored
      ensures Onward(old(pending), old(valid), pending, valid)
      decreases |pending|, |decls.Keys - valid|, 6
    {
      var members, i, allUser := choices[s].members, 0, true;
      assert forall m <- members :: m in decls;
      hide *;
      OnwardSame(pending, valid);
      while i < |members|
        invariant i <= |members| && Onward(old(pending), old(valid), pending, valid)
      {
        OnwardLess(decls.Keys, old(pending), old(valid), pending, valid);
        ghost var p, v := pending, valid;
        CalcVisibility(members[i], false, Aimless());
        OnwardTrans(old(pending), old(valid), p, v, pending, valid);
        if StateIn(state, members[i]).visible != NO && members[i] !in user {
          allUser := false;
        }
        i := i + 1;
      }
      if s in user && !allUser {
        user, stored := user - {s}, stored[s := user[s]];
      }
    }

    /** Selects the member the user picked, one that the choice prefers, or the first, each
        only if it is visible. */
    method SelectMember(s: Symbol) returns (pick: Option<Symbol>, ghost seen: States)
      requires AllClosed(decls) && ChoicesClosed() && s in choices
      modifies this`modulesVal, this`valid, this`state, this`pending, this`user, this`stored
      ensures Onward(old(pending), old(valid), pending, valid)
      ensures pick.Some? ==> StateIn(state, pick.value).visible != NO
      ensures pick == None ==> forall m <- choices[s].members :: StateIn(state, m).visible == NO
      ensures s in picked && StateIn(seen, picked[s]).visible != NO ==> pick == Some(picked[s])
      decreases |pending|, |decls.Keys - valid|, 7
    {
      hide *;
      ShowMembers(s);
      seen := state;
      if s in picked && StateIn(state, picked[s]).visible != NO {
        pick := Some(picked[s]);
        return;
      }
      OnwardLess(decls.Keys, old(pending), old(valid), pending, valid);
      ghost var p, v := pending, valid;
      pick := SelectPreferred(s);
      OnwardTrans(old(pending), old(valid), p, v, pending, valid);
      if pick.Some? {
        return;
      }
      pick := FirstVisible(choices[s].members);
    }

    /** The first visible member. */
    method FirstVisible(members: seq<Symbol>) returns (pick: Option<Symbol>)
      ensures pick.Some? ==> exists i: nat :: i < |members| && pick.value == members[i] && OnlyVisible(state, members, i)
      ensures pick.Some? ==> StateIn(state, pick.value).visible != NO
      ensures pick == None <==> forall m <- members :: StateIn(state, m).visible == NO
    {
      hide StateIn;
      var i := 0;
      while i < |members|
        invariant i <= |members|
        invariant forall m <- members[..i] :: StateIn(state, m).visible == NO
      {
        if StateIn(state, members[i]).visible != NO {
          assert forall j: nat :: j < i ==> members[..i][j] == members[j];
          assert OnlyVisible(state, members, i);
          return Some(members[i]);
        }
        i := i + 1;
      }
      assert members[..i] == members;
      pick := None;
    }

    /** The first member that is preferred under a condition that is not n and is visible. */
    method SelectPreferred(s: Symbol) returns (pick: Option<Symbol>)
      requires AllClosed(decls) && ChoicesClosed() && s in choices
      modifies this`modulesVal, this`valid, this`state, this`pending, this`user, this`stored
      ensures Onward(old(pending), old(valid), pending, valid)
      ensures pick.Some? ==> StateIn(state, pick.value).visible != NO
      decreases |pending|, |decls.Keys - valid|, 6
    {
      hide AllClosed, ClosedExpr, Grown, On, DoneBelow, AskExpr, Onward, StateIn, Cfg, Sys, Seen, Now, Eval;
      OnwardSame(pending, valid);
      var defaults, i := choices[s].defaults, 0;
      while i < |defaults|
        invariant i <= |defaults| && Onward(old(pending), old(valid), pending, valid)
      {
        var cond := YES;
        if defaults[i].cond.Some? {
          OnwardLess(decls.Keys, old(pending), old(valid), pending, valid);
          ghost var p, v := pending, valid;
          cond := CalcExpr(defaults[i].cond.value, false, Aimless(), 0);
          OnwardTrans(old(pending), old(valid), p, v, pending, valid);
        }
        if cond != NO && StateIn(state, defaults[i].target).visible != NO {
          return Some(defaults[i].target);
        }
        i := i + 1;
      }
      pick := None;
    }

    /** The choice of a value that is still to be set is evaluated first. */
    method CalcPending(s: Symbol)
      requires AllClosed(decls) && ChoicesClosed() && s in memberOf && s in pending
      modifies this`modulesVal, this`valid, this`state, this`pending, this`user, this`stored
      ensures Onward(old(pending), old(valid), pending, valid) && pending != old(pending)
      decreases |pending|, |decls.Keys - valid|, 0, 0
    {
      assert Closed(decls, memberOf[s]);
      hide *;
      OneLessPending(pending, valid, s);
      pending := pending - {s};
      ghost var p, v := pending, valid;
      CalcValue(memberOf[s], false, Aimless());
      OnwardTrans(old(pending), old(valid), p, v, pending, valid);
      StrictlyLess(old(pending), p, v, pending, valid, s);
    }

    /** Evaluates a symbol unless it is valid already. The modules symbol itself, if it is
        not valid, becomes the mode of evaluation at the end. */
    method CalcValue(s: Symbol, ghost ok: bool, ghost g: Goal)
      requires AllClosed(decls) && ChoicesClosed() && Closed(decls, s)
      requires ok ==> Heading(g) && On(Cfg(), g, Now(), valid, state) && (Marked(modulesSym, valid) || modulesSym == Some(s))
      requires ok && s.Named? && s !in valid ==> s in g.scope && PrintsBounds(g, s) == Now() && DoneBelow(g, g.rank(s), valid, state)
      requires ok && s.Named? && s !in valid && modulesSym == Some(s) ==> g.after == NO && (g.before != g.after ==> IsEarly(Cfg(), g, s)) && OnlySelf(g, s, valid)
      modifies this`modulesVal, this`valid, this`state, this`pending, this`user, this`stored
      ensures Onward(old(pending), old(valid), pending, valid)
      ensures ok ==> Heading(g) && user == old(user) && old(valid) <= valid && (s.Named? ==> s in valid)
      ensures ok && (!s.Named? || s in old(valid)) ==> valid == old(valid) && state == old(state) && modulesVal == old(modulesVal)
      ensures ok ==> Grown(old(Cfg()), g, {}, old(valid), old(state), valid, state)
      ensures ok && s.Named? && s !in old(valid) ==> CurrIn(state, s) == g.vals(s)
      ensures ok && s.Named? && s !in old(valid) && modulesSym == Some(s) && HasType(s) ==> modulesVal == g.vals(s).tri
      ensures ok && (modulesSym != Some(s) || !HasType(s)) ==> modulesVal == old(modulesVal)
      ensures ok && modulesSym != Some(s) ==> On(Cfg(), g, Now(), valid, state) && Marked(modulesSym, valid) && Now() == old(Now()) && Seen(g) == old(Seen(g))
      decreases |pending|, |decls.Keys - valid|, 0, 2
    {
      assert HasType(s) ==> s in decls;
      assert s in memberOf ==> Closed(decls, memberOf[s]);
      NoMembers(g);
      hide *;
      GrownNothing(Cfg(), g, valid, state);
      OnwardSame(pending, valid);
      if !s.Named? || s in valid {
        return;
      }
      if s in memberOf && s in pending {
        CalcPending(s);
      }
      OnwardLess(decls.Keys, old(pending), old(valid), pending, valid);
      PendingLess(old(pending), pending);
      ghost var p1, v1 := pending, valid;
      assert ok ==> p1 == old(pending) && v1 == old(valid);
      CalcMarked(s, ok, g);
      OnwardTrans(old(pending), old(valid), p1, v1, pending, valid);
    }

    /** Marks a symbol valid and evaluates it, even if it has become valid since its choice
        was looked at. */
    method CalcMarked(s: Symbol, ghost ok: bool, ghost g: Goal)
      requires AllClosed(decls) && ChoicesClosed() && Closed(decls, s) && s.Named?
      requires ok ==> Heading(g) && On(Cfg(), g, Now(), valid, state) && (Marked(modulesSym, valid) || modulesSym == Some(s))
      requires ok ==> s !in valid && s in g.scope && PrintsBounds(g, s) == Now() && DoneBelow(g, g.rank(s), valid, state)
      requires ok && modulesSym == Some(s) ==> g.after == NO && (g.before != g.after ==> IsEarly(Cfg(), g, s)) && OnlySelf(g, s, valid)
      modifies this`modulesVal, this`valid, this`state, this`pending, this`user, this`stored
      ensures Onward(old(pending), old(valid), pending, valid)
      ensures ok ==> Heading(g) && user == old(user) && old(valid) <= valid && s in valid
      ensures ok ==> Grown(old(Cfg()), g, {}, old(valid), old(state), valid, state) && CurrIn(state, s) == g.vals(s)
      ensures ok ==> modulesVal == if modulesSym == Some(s) && HasType(s) then g.vals(s).tri else old(modulesVal)
      ensures ok && modulesSym != Some(s) ==> On(Cfg(), g, Now(), valid, state) && Marked(modulesSym, valid) && Now() == old(Now()) && Seen(g) == old(Seen(g))
      decreases |pending|, |decls.Keys - valid|, if s in valid then 11 else 0, 1
    {
      hide *;
      HasDecl(s);
      ghost var v0 := valid;
      Mark(s, ok, g);
      ghost var v := valid;
      CalcMarkedNow(s, v0, ok, g);
      OnwardTrans(old(pending), v0, old(pending), v, pending, valid);
    }

    lemma HasDecl(s: Symbol)
      requires Closed(decls, s)
      ensures HasType(s) ==> s in decls
    {
    }

    /** Sets SYMBOL_VALID: the goal now lets s ask for all that decides it. */
    method Mark(s: Symbol, ghost ok: bool, ghost g: Goal)
      requires s.Named?
      requires ok ==> Heading(g) && On(Cfg(), g, Now(), valid, state) && (Marked(modulesSym, valid) || modulesSym == Some(s))
      requires ok ==> s !in valid && s in g.scope && PrintsBounds(g, s) == Now() && DoneBelow(g, g.rank(s), valid, state)
      requires ok && modulesSym == Some(s) ==> OnlySelf(g, s, valid)
      modifies this`valid
      ensures valid == old(valid) + {s} && Onward(pending, old(valid), pending, valid)
      ensures |decls.Keys - valid| <= |decls.Keys - old(valid)| && (s in decls && s !in old(valid) ==> |decls.Keys - valid| < |decls.Keys - old(valid)|)
      ensures ok ==> Heading(g) && On(Cfg(), g, Now(), old(valid), state) && On(Cfg(), g, Now(), valid, state)
      ensures ok ==> Marked(modulesSym, valid) && DoneBelow(g, g.rank(s), valid, state) && s !in g.fixed
      ensures ok && HasType(s) ==> AskBounds(Sys(), g, valid, Now(), s) && (modulesSym != Some(s) ==> AskValue(Cfg(), g, valid, Now(), s))
      ensures ok && modulesSym == Some(s) ==> OnlySelf(g, s, valid)
      ensures Cfg() == old(Cfg()) && Now() == old(Now()) && Seen(g) == old(Seen(g))
    {
      hide *;
      SeenIs(g);
      FewerLeft(decls.Keys, valid, valid + {s});
      OnwardWith(pending, valid, s);
      ghost var v0 := valid;
      valid := valid + {s};
      SeenIs(g);
      if ok {
        MarkValid(Cfg(), g, Now(), v0, state, s);
      }
    }

    /** The value of a symbol just marked valid. */
    method CalcMarkedNow(s: Symbol, ghost v0: set<Symbol>, ghost ok: bool, ghost g: Goal)
      requires AllClosed(decls) && ChoicesClosed() && s.Named? && s in valid && (HasType(s) ==> s in decls)
      requires ok ==> Heading(g) && On(Cfg(), g, Now(), v0, state) && On(Cfg(), g, Now(), valid, state)
      requires ok ==> Marked(modulesSym, valid) && DoneBelow(g, g.rank(s), valid, state)
      requires ok ==> s in g.scope && s !in g.fixed && valid == v0 + {s} && s !in v0
      requires ok && HasType(s) ==> AskBounds(Sys(), g, valid, Now(), s) && (modulesSym != Some(s) ==> AskValue(Cfg(), g, valid, Now(), s))
      requires ok && modulesSym == Some(s) ==> g.after == NO && (g.before != g.after ==> IsEarly(Cfg(), g, s)) && OnlySelf(g, s, valid)
      modifies this`modulesVal, this`valid, this`state, this`pending, this`user, this`stored
      ensures Onward(old(pending), old(valid), pending, valid)
      ensures ok ==> Heading(g) && user == old(user) && old(valid) <= valid && Marked(modulesSym, valid)
      ensures ok ==> Grown(old(Cfg()), g, {}, v0, old(state), valid, state) && CurrIn(state, s) == g.vals(s)
      ensures ok ==> modulesVal == if modulesSym == Some(s) && HasType(s) then g.vals(s).tri else old(modulesVal)
      ensures ok && modulesSym != Some(s) ==> On(Cfg(), g, Now(), valid, state) && Now() == old(Now()) && Seen(g) == old(Seen(g))
      decreases |pending|, |decls.Keys - valid|, if HasType(s) then 10 else 0, 0
    {
      hide *;
      OnwardSame(pending, valid);
      if HasType(s) {
        CalcTyped(s, v0, ok, g);
      } else {
        CalcUntyped(s, v0, ok, g);
      }
    }

    /** The value of the modules symbol becomes the mode of all evaluation. */
    method Publish(tri: Tristate)
      modifies this`modulesVal
      ensures modulesVal == tri
      ensures tri == old(modulesVal) ==> Cfg() == old(Cfg())
    {
      modulesVal := tri;
    }
  }

  function EvalOr(e: Option<Expr>, missing: Tristate, env: Env): Tristate {
    if e.Some? then Eval(e.value, env) else missing
  }

  /** If there is an expression e, it is one of those that decide s. */
  predicate OwnExpr(decls: map<Symbol, Decl>, s: Symbol, e: Option<Expr>) {
    e.Some? ==> s in decls && ExprOf(decls[s], e.value)
  }

  lemma OwnDependencies(decls: map<Symbol, Decl>, s: Symbol, e: Expr)
    requires s in decls && ExprOf(decls[s], e)
    ensures forall t: Symbol :: Occurs(t, e) ==> DependsOn(decls, s, t)
  {
    var d := decls[s];
    forall t: Symbol | Occurs(t, e)
      ensures DependsOn(decls, s, t)
    {
      assert OccursOpt(t, Some(e));
    }
  }

  lemma OwnFacts(decls: map<Symbol, Decl>, s: Symbol, e: Option<Expr>)
    requires AllClosed(decls) && s in decls && OwnExpr(decls, s, e)
    ensures e.Some? ==> ClosedExpr(decls, e.value)
  {
    if e.Some? {
      OwnDependencies(decls, s, e.value);
    }
  }

  lemma SizeParts(e: Expr)
    ensures e.And? ==> Size(e.l) + Size(e.r) < Size(e)
    ensures e.Or? ==> Size(e.l) + Size(e.r) < Size(e)
    ensures e.Not? ==> Size(e.e) < Size(e)
    ensures 0 < Size(e)
  {
  }

  lemma SymFact(e: Expr, k: System, now: Tristate, vals: Values, valid: set<Symbol>)
    requires e.Sym?
    ensures Eval(e, EnvAs(k, now, vals)) == vals(e.s).tri
    ensures (e.s.Named? ==> e.s in valid) ==> ExprIn(Some(e), valid)
  {
  }

  lemma CompareFact(k: System, now: Tristate, vals: Values, e: Expr, valid: set<Symbol>)
    requires e.Compare?
    ensures Eval(e, EnvAs(k, now, vals)) ==
      var res := CompareStrings(k.num, e.ls.Type(), StringAs(now, e.ls, vals(e.ls)), e.rs.Type(), StringAs(now, e.rs, vals(e.rs)));
      FromBool(Holds(e.rel, Outcome(res, true)))
    ensures (e.ls.Named? ==> e.ls in valid) && (e.rs.Named? ==> e.rs in valid) ==> ExprIn(Some(e), valid)
  {
  }

  lemma PartsIn(e: Expr, env: Env, valid: set<Symbol>)
    ensures e.And? ==> Eval(e, env) == Min(Eval(e.l, env), Eval(e.r, env))
    ensures e.Or? ==> Eval(e, env) == Max(Eval(e.l, env), Eval(e.r, env))
    ensures e.Not? ==> Eval(e, env) == 2 - Eval(e.e, env) && (ExprIn(Some(e.e), valid) ==> ExprIn(Some(e), valid))
    ensures (e.And? || e.Or?) && ExprIn(Some(e.l), valid) && ExprIn(Some(e.r), valid) ==> ExprIn(Some(e), valid)
  {
    match e
    case And(l, r) => assert forall t: Symbol :: OccursOpt(t, Some(e)) ==> OccursOpt(t, Some(l)) || OccursOpt(t, Some(r));
    case Or(l, r) => assert forall t: Symbol :: OccursOpt(t, Some(e)) ==> OccursOpt(t, Some(l)) || OccursOpt(t, Some(r));
    case Not(x) => assert forall t: Symbol :: OccursOpt(t, Some(e)) ==> OccursOpt(t, Some(x));
    case _ =>
  }

  lemma PartsAsk(decls: map<Symbol, Decl>, e: Expr, g: Goal, valid: set<Symbol>, now: Tristate, k: nat)
    requires ClosedExpr(decls, e)
    ensures match e
      case Sym(s) => Closed(decls, s) && (AskExpr(g, valid, now, k, e) ==> Askable(g, valid, now, k, s))
      case Not(x) => ClosedExpr(decls, x) && (AskExpr(g, valid, now, k, e) ==> AskExpr(g, valid, now, k, x))
      case And(l, r) => ClosedExpr(decls, l) && ClosedExpr(decls, r) && (AskExpr(g, valid, now, k, e) ==> AskExpr(g, valid, now, k, l) && AskExpr(g, valid, now, k, r))
      case Or(l, r) => ClosedExpr(decls, l) && ClosedExpr(decls, r) && (AskExpr(g, valid, now, k, e) ==> AskExpr(g, valid, now, k, l) && AskExpr(g, valid, now, k, r))
      case Compare(_, a, b) => Closed(decls, a) && Closed(decls, b) && (AskExpr(g, valid, now, k, e) ==> Askable(g, valid, now, k, a) && Askable(g, valid, now, k, b))
  {
    hide Askable, Closed;
    match e
    case Sym(s) => assert Occurs(s, e);
    case Compare(_, a, b) => assert Occurs(a, e) && Occurs(b, e);
    case Not(x) => assert forall t: Symbol :: Occurs(t, x) ==> Occurs(t, e);
    case And(l, r) => assert forall t: Symbol :: Occurs(t, l) || Occurs(t, r) ==> Occurs(t, e);
    case Or(l, r) => assert forall t: Symbol :: Occurs(t, l) || Occurs(t, r) ==> Occurs(t, e);
  }

  lemma EvalOrIs(e: Option<Expr>, missing: Tristate, env: Env, valid: set<Symbol>)
    ensures e.None? ==> EvalOr(e, missing, env) == missing && ExprIn(e, valid)
    ensures e.Some? ==> EvalOr(e, missing, env) == Eval(e.value, env) && ExprIn(e, valid) == ExprIn(Some(e.value), valid)
  {
  }

  lemma AskOptIs(g: Goal, valid: set<Symbol>, now: Tristate, k: nat, e: Option<Expr>)
    requires e.Some?
    ensures AskOpt(g, valid, now, k, e) == AskExpr(g, valid, now, k, e.value)
  {
  }

  lemma AskFrom(g: Goal, valid: set<Symbol>, now: Tristate, k: nat, e: Option<Expr>)
    requires forall t: Symbol :: OccursOpt(t, e) ==> Askable(g, valid, now, k, t)
    ensures AskOpt(g, valid, now, k, e)
  {
    hide Askable;
    assert forall t: Symbol :: e.Some? && Occurs(t, e.value) ==> OccursOpt(t, e);
  }

  lemma InFrom(e: Option<Expr>, valid: set<Symbol>)
    requires ExprIn(e, valid)
    ensures forall t: Symbol :: t.Named? && OccursOpt(t, e) ==> t in valid
  {
  }

  lemma AskedIs(g: Goal, valid: set<Symbol>, now: Tristate, k: nat, s: Symbol)
    requires Askable(g, valid, now, k, s)
    ensures g.rank(s) < k && (s.Named? ==> s in valid || (s in g.scope && PrintsBounds(g, s) == now))
  {
  }

  lemma MarkedIs(m: Option<Symbol>, valid: set<Symbol>)
    requires m.Some?
    ensures Marked(m, valid) ==> (m.value.Named? ==> m.value in valid)
  {
  }

  lemma MarkedNot(m: Option<Symbol>, valid: set<Symbol>, s: Symbol)
    requires Marked(m, valid)
    ensures s.Named? && s !in valid ==> m != Some(s)
  {
  }

  lemma SmallerDone(g: Goal, k: nat, j: nat, valid: set<Symbol>, st: States)
    requires DoneBelow(g, k, valid, st) && j <= k
    ensures DoneBelow(g, j, valid, st)
  {
  }

  lemma AlreadyDone(c: Config, g: Goal, k: nat, now: Tristate, valid: set<Symbol>, st: States, s: Symbol)
    requires On(c, g, now, valid, st) && DoneBelow(g, k, valid, st) && g.rank(s) < k
    ensures !s.Named? || s in valid ==> CurrIn(st, s) == g.vals(s)
  {
    if !s.Named? {
      TargetStep(c, g, s);
    }
  }

  lemma AskPrompt(k: System, g: Goal, v: set<Symbol>, valid: set<Symbol>, now: Tristate, s: Symbol, i: nat)
    requires AskBounds(k, g, v, now, s) && v <= valid && i < |DeclOf(k, s).prompts|
    ensures AskOpt(g, valid, now, g.rank(s), DeclOf(k, s).prompts[i])
  {
    AskBoundsMore(k, g, v, valid, now, s);
    hide Askable, BoundsEnv;
    var e := DeclOf(k, s).prompts[i];
    forall t: Symbol | OccursOpt(t, e)
      ensures Askable(g, valid, now, g.rank(s), t)
    {
      assert BoundReads(k, s, BoundsEnv(k, g, s), t);
    }
    AskFrom(g, valid, now, g.rank(s), e);
  }

  lemma BoundsPrint(k: System, g: Goal, valid: set<Symbol>, now: Tristate, s: Symbol)
    requires AskBounds(k, g, valid, now, s)
    ensures PrintsBounds(g, s) == now
  {
  }

  lemma AskDependencies(k: System, g: Goal, valid: set<Symbol>, now: Tristate, s: Symbol)
    requires AskBounds(k, g, valid, now, s)
    ensures AskOpt(g, valid, now, g.rank(s), DeclOf(k, s).dirDep) && AskOpt(g, valid, now, g.rank(s), DeclOf(k, s).revDep)
  {
    hide Askable, BoundsEnv;
    AskFrom(g, valid, now, g.rank(s), DeclOf(k, s).dirDep);
    AskFrom(g, valid, now, g.rank(s), DeclOf(k, s).revDep);
  }

  lemma AskImplied(k: System, g: Goal, valid: set<Symbol>, now: Tristate, s: Symbol)
    requires AskBounds(k, g, valid, now, s)
    ensures DirDepOf(k, s, EnvAs(k, now, g.vals)) != NO ==> AskOpt(g, valid, now, g.rank(s), DeclOf(k, s).implied)
  {
    hide Askable;
    if DirDepOf(k, s, EnvAs(k, now, g.vals)) != NO {
      AskFrom(g, valid, now, g.rank(s), DeclOf(k, s).implied);
    }
  }

  lemma AskDefaults(c: Config, g: Goal, valid: set<Symbol>, now: Tristate, s: Symbol)
    requires AskValue(c, g, valid, now, s) && !(VisibleOf(c.sys, s, BoundsEnv(c.sys, g, s)) != NO && s in c.user)
    ensures var ds, env := DeclOf(c.sys, s).defaults, EnvAs(c.sys, now, g.vals);
      forall t: Symbol :: CondReads(ds, env, t) || SourceReads(ActiveDefault(ds, env), s.Typed(), t) ==> Askable(g, valid, now, g.rank(s), t)
  {
    hide Askable, CondReads, SourceReads, BoundsEnv;
  }

  lemma StillIn(e: Option<Expr>, v: set<Symbol>, valid: set<Symbol>)
    requires ExprIn(e, v) && v <= valid
    ensures ExprIn(e, valid)
  {
  }

  lemma AllStillIn(es: seq<Option<Expr>>, i: nat, v: set<Symbol>, valid: set<Symbol>)
    requires i < |es| && (forall p <- es[..i] :: ExprIn(p, v)) && v <= valid && ExprIn(es[i], valid)
    ensures forall p <- es[..i + 1] :: ExprIn(p, valid)
  {
    forall p <- es[..i + 1]
      ensures ExprIn(p, valid)
    {
      assert es[..i + 1] == es[..i] + [es[i]];
    }
  }

  /** All that the bounds of s read is valid. */
  ghost predicate BoundsIn(k: System, s: Symbol, env: Env, valid: set<Symbol>) {
    forall t: Symbol :: t.Named? && BoundReads(k, s, env, t) ==> t in valid
  }

  ghost predicate CondsIn(ds: seq<DefaultProp>, env: Env, valid: set<Symbol>) {
    forall t: Symbol :: t.Named? && CondReads(ds, env, t) ==> t in valid
  }

  /** All that the value of s reads is valid. */
  ghost predicate ValueIn(c: Config, s: Symbol, bounds: Env, env: Env, valid: set<Symbol>) {
    forall t: Symbol :: t.Named? && ValueReads(c, s, bounds, env, t) ==> t in valid
  }

  lemma BoundsAreIn(k: System, s: Symbol, env: Env, v1: set<Symbol>, v2: set<Symbol>, v3: set<Symbol>, valid: set<Symbol>)
    requires s in k.decls && v1 <= v2 <= v3 <= valid
    requires (forall p <- k.decls[s].prompts :: ExprIn(p, v1)) && ExprIn(k.decls[s].dirDep, v2) && ExprIn(k.decls[s].revDep, v3)
    requires DirDepOf(k, s, env) != NO ==> ExprIn(k.decls[s].implied, valid)
    ensures BoundsIn(k, s, env, valid)
  {
    hide DirDepOf;
  }

  lemma CondFirst(ds: seq<DefaultProp>, i: nat, env: Env)
    requires i < |ds|
    ensures forall t: Symbol :: CondReads(ds[i..], env, t) <==>
      OccursOpt(t, ds[i].cond) || (EvalOpt(ds[i].cond, env) == NO && CondReads(ds[i + 1..], env, t))
    ensures ActiveDefault(ds[i..], env) == if EvalOpt(ds[i].cond, env) != NO then Some(ds[i]) else ActiveDefault(ds[i + 1..], env)
    ensures EvalOr(ds[i].cond, YES, env) == EvalOpt(ds[i].cond, env)
    ensures forall t: Symbol :: !CondReads([], env, t)
  {
    assert ds[i..][0] == ds[i] && ds[i..][1..] == ds[i + 1..];
  }

  lemma CondsStillIn(ds: seq<DefaultProp>, env: Env, v: set<Symbol>, valid: set<Symbol>)
    requires CondsIn(ds, env, v) && v <= valid
    ensures CondsIn(ds, env, valid)
  {
  }

  lemma ValueIsIn(c: Config, s: Symbol, bounds: Env, env: Env, valid: set<Symbol>)
    requires CondsIn(DeclOf(c.sys, s).defaults, env, valid)
    requires forall t: Symbol :: t.Named? && SourceReads(ActiveDefault(DeclOf(c.sys, s).defaults, env), s.Typed(), t) ==> t in valid
    ensures ValueIn(c, s, bounds, env, valid)
  {
    hide CondReads, SourceReads, VisibleOf;
  }

  lemma BoundsDone(c: Config, g: Goal, valid: set<Symbol>, now: Tristate, st: States, s: Symbol)
    requires AskBounds(c.sys, g, valid, now, s)
    requires var f, env := StateIn(st, s), EnvAs(c.sys, now, g.vals);
      && f.visible == VisibleOf(c.sys, s, env) && f.dir == DirDepOf(c.sys, s, env)
      && f.rev == RevDepOf(c.sys, s, env) && f.implied == ImpliedOf(c.sys, s, env)
    ensures VisibilityDone(c, g, st, s)
  {
  }

  /** What the value of s sees now is what the goal says. */
  lemma SeesValue(c: Config, g: Goal, valid: set<Symbol>, now: Tristate, s: Symbol)
    requires AskValue(c, g, valid, now, s)
    ensures ValueEnv(c.sys, g, s) == EnvAs(c.sys, now, g.vals)
  {
  }

  lemma OnStep(c: Config, g: Goal, now: Tristate, valid: set<Symbol>, st: States, s: Symbol)
    requires On(c, g, now, valid, st) && s !in g.fixed
    ensures g.vals(s) == StepFrom(c, s, BoundsEnv(c.sys, g, s), ValueEnv(c.sys, g, s), g.vals)
  {
    TargetStep(c, g, s);
  }

  lemma OnMore(c: Config, g: Goal, now: Tristate, v: set<Symbol>, valid: set<Symbol>, st: States)
    requires On(c, g, now, v, st) && v <= valid
    ensures On(c, g, now, valid, st)
  {
    hide Target;
  }

  /** A change to a symbol in progress other than the modules symbol, or not to its value,
      does not change what is seen. */
  lemma StillOn(c: Config, g: Goal, valid: set<Symbol>, st: States, s: Symbol, f: State)
    requires g.m != Some(s) || f.curr == StateIn(st, s).curr
    ensures NowIn(g.m, c.sys.modules, st[s := f]) == NowIn(g.m, c.sys.modules, st)
    ensures forall now: Tristate :: On(c, g, now, valid, st) ==> On(c, g, now, valid, st[s := f])
  {
    hide Target, Going;
  }

  /** What the bounds of the modules symbol need, and all that it reads in turn, is what the
      goal takes to be early. */
  ghost predicate IsEarly(c: Config, g: Goal, s: Symbol) {
    forall e: iset<Symbol> :: EarlyWithin(c, g, s, e) ==> g.early <= e
  }

  ghost predicate EarlyWithin(c: Config, g: Goal, m: Symbol, e: iset<Symbol>) {
    && (forall t: Symbol :: BoundReads(c.sys, m, BoundsEnv(c.sys, g, m), t) ==> Given(g, t) || t in e)
    && (forall s: Symbol, t: Symbol :: s in e && s !in g.fixed && ReadsFor(c, g, s, t) ==> Given(g, t) || t in e)
  }

  /** Nothing but fixed symbols was valid before s. */
  ghost predicate OnlySelf(g: Goal, s: Symbol, valid: set<Symbol>) {
    forall t <- valid :: t != s ==> t in g.fixed
  }

  /** Once the bounds of a symbol are known, its value can be computed; the modules symbol
      is then seen as n. */
  lemma SecondPart(c: Config, g: Goal, v1: set<Symbol>, now: Tristate, v2: set<Symbol>, st1: States, st2: States, s: Symbol, f: State)
    requires On(c, g, now, v2, st2) && Marked(g.m, v2) && v1 <= v2 && HasType(s) && s in g.scope && s !in g.fixed
    requires g.m != Some(s) ==> AskValue(c, g, v1, now, s)
    requires g.m == Some(s) ==> g.after == NO && f.curr.tri == NO && (g.before != g.after ==> IsEarly(c, g, s)) && OnlySelf(g, s, v1)
    requires Grown(c, g, {s}, v1, st1, v2, st2) && PrintsBounds(g, s) == now && BoundsIn(c.sys, s, EnvAs(c.sys, now, g.vals), v2)
    ensures var st3, now' := st2[s := f], NowIn(g.m, c.sys.modules, st2[s := f]);
      && On(c, g, now', v2, st3) && AskValue(c, g, v2, now', s)
      && (g.m != Some(s) ==> now' == now)
  {
    if g.m != Some(s) {
      hide *;
      StillOn(c, g, v2, st2, s, f);
      AskValueMore(c, g, v1, v2, now, s);
      OnNow(c, g, now, v2, st2);
    } else {
      if g.before != g.after {
        EarlyFinished(c, g, v1, now, v2, st1, st2, s);
      }
      SymbolNamed(s);
      SecondOn(c, g, now, v2, st2, s, f);
      hide *;
      OnParts(c, g, NO, v2, st2[s := f]);
      ValuePrints(c, g, now, v2, st2, s);
      MayAskValue(c, g, v2, NO, s);
    }
  }

  lemma PromptsStart(prompts: seq<Option<Expr>>, env: Env)
    ensures Strongest(prompts[..0], env) == NO
  {
  }

  lemma PromptsStep(prompts: seq<Option<Expr>>, i: nat, env: Env)
    requires i < |prompts|
    ensures Strongest(prompts[..i + 1], env) == Max(Strongest(prompts[..i], env), EvalOpt(prompts[i], env))
    ensures EvalOpt(prompts[i], env) == EvalOr(prompts[i], YES, env)
  {
    assert prompts[..i + 1][..i] == prompts[..i];
  }

  lemma PromptOwn(decls: map<Symbol, Decl>, s: Symbol, i: nat)
    requires s in decls && i < |decls[s].prompts|
    ensures OwnExpr(decls, s, decls[s].prompts[i])
  {
  }

  lemma DependencyOwn(decls: map<Symbol, Decl>, s: Symbol)
    requires s in decls
    ensures OwnExpr(decls, s, decls[s].dirDep) && OwnExpr(decls, s, decls[s].revDep) && OwnExpr(decls, s, decls[s].implied)
  {
  }

  lemma DefaultOwn(decls: map<Symbol, Decl>, s: Symbol, d: DefaultProp)
    requires s in decls && d in decls[s].defaults
    ensures OwnExpr(decls, s, d.cond) && OwnExpr(decls, s, Some(d.value))
  {
  }

  lemma SourceOwn(decls: map<Symbol, Decl>, s: Symbol, d: DefaultProp)
    requires AllClosed(decls) && s in decls && d in decls[s].defaults && d.value.Sym?
    ensures Closed(decls, d.value.s)
  {
    DefaultOwn(decls, s, d);
    OwnDependencies(decls, s, d.value);
    assert Occurs(d.value.s, d.value);
  }

  lemma FinishUntyped(c: Config, g: Goal, now: Tristate, v: set<Symbol>, st: States, st': States, s: Symbol)
    requires On(c, g, now, v, st) && s.Named? && !HasType(s) && s !in v && s in g.scope
    requires st' == st[s := StateIn(st, s).(curr := Value(c.sys.names(s), NO))]
    ensures Grown(c, g, {}, v, st, v + {s}, st') && CurrIn(st', s) == g.vals(s)
  {
    TargetStep(c, g, s);
    hide Target;
  }

  lemma MarkValid(c: Config, g: Goal, now: Tristate, v: set<Symbol>, st: States, s: Symbol)
    requires On(c, g, now, v, st) && s.Named? && s !in v && s in g.scope && PrintsBounds(g, s) == now && DoneBelow(g, g.rank(s), v, st)
    requires Marked(g.m, v) || g.m == Some(s)
    ensures OnlySelf(g, s, v) ==> OnlySelf(g, s, v + {s})
    ensures On(c, g, now, v + {s}, st) && DoneBelow(g, g.rank(s), v + {s}, st) && Marked(g.m, v + {s}) && s !in g.fixed
    ensures HasType(s) ==> AskBounds(c.sys, g, v + {s}, now, s) && (g.m != Some(s) ==> AskValue(c, g, v + {s}, now, s))
  {
    hide Target, AskBounds, AskValue, IsEarly;
    assert s !in g.fixed;
    AskMore(g, v, v + {s}, now);
    if HasType(s) {
      MayAskBounds(c, g, v + {s}, now, s);
      if g.m != Some(s) {
        MayAskValue(c, g, v + {s}, now, s);
      }
    }
  }

  /** A change to the symbol in progress disturbs nothing that is done. */
  lemma ChangeSelf(c: Config, g: Goal, s: Symbol, v: set<Symbol>, st: States, f: State)
    requires DoneBelow(g, g.rank(s), v, st)
    ensures DoneBelow(g, g.rank(s), v, st[s := f])
  {
  }

  lemma KeepVisibility(c: Config, g: Goal, st: States, s: Symbol, f: State)
    requires VisibilityDone(c, g, st, s)
    requires f == StateIn(st, s).(curr := f.curr, write := f.write, pick := f.pick)
    ensures VisibilityDone(c, g, st[s := f], s)
  {
  }

  /** The symbol in progress is done, and nothing else that was valid changed. */
  lemma Finish(c: Config, g: Goal, now: Tristate, s: Symbol, v0: set<Symbol>, st0: States, st1: States,
               v2: set<Symbol>, st2: States, st3: States, v4: set<Symbol>, st4: States, f: State)
    requires s in v0 && v0 <= v2 <= v4 && HasType(s)
    requires s in st1 && st1 == st0[s := st1[s]] && Grown(c, g, {s}, v0, st1, v2, st2)
    requires s in st3 && st3 == st2[s := st3[s]] && VisibilityDone(c, g, st3, s)
    requires Grown(c, g, {}, v2, st3, v4, st4)
    requires f == StateIn(st4, s).(curr := g.vals(s), write := f.write, pick := f.pick)
    requires f.write <==> WrittenFrom(c.sys, s, BoundsEnv(c.sys, g, s), ValueEnv(c.sys, g, s))
    requires PrintsBounds(g, s) == now && BoundsIn(c.sys, s, EnvAs(c.sys, now, g.vals), v2)
    requires ValueIn(c, s, BoundsEnv(c.sys, g, s), ValueEnv(c.sys, g, s), v4)
    ensures Grown(c, g, {s}, v0, st0, v4, st4[s := f]) && Fresh(c, g, st4[s := f], s) && ReadIn(c, g, s, v4)
  {
    var st5 := st4[s := f];
    FinishSelf(c, g, s, st3, st4, f);
    FinishReads(c, g, now, s, v2, v4);
    hide Fresh, VisibilityDone, WrittenFrom, ReadIn, BoundsIn, ValueIn, BoundsEnv, ValueEnv;
    forall u <- v4 | u !in v0
      ensures Fresh(c, g, st5, u) && u in g.scope && ReadIn(c, g, u, v4)
    {
      if u in v2 {
        assert StateIn(st5, u) == StateIn(st2, u);
        FreshSame(c, g, st2, st5, u);
        ReadInMore(c, g, u, v2, v4);
      } else {
        FreshSame(c, g, st4, st5, u);
      }
    }
    forall u <- v0 | u != s
      ensures StateIn(st5, u) == StateIn(st0, u)
    {
    }
    forall u: Symbol | !HasType(u)
      ensures StateIn(st5, u).write == StateIn(st0, u).write
    {
    }
  }

  lemma FinishReads(c: Config, g: Goal, now: Tristate, s: Symbol, v2: set<Symbol>, v4: set<Symbol>)
    requires PrintsBounds(g, s) == now && BoundsIn(c.sys, s, EnvAs(c.sys, now, g.vals), v2) && v2 <= v4
    requires ValueIn(c, s, BoundsEnv(c.sys, g, s), ValueEnv(c.sys, g, s), v4)
    ensures ReadIn(c, g, s, v4)
  {
    hide BoundReads, ValueReads;
  }

  lemma ReadInMore(c: Config, g: Goal, s: Symbol, v: set<Symbol>, valid: set<Symbol>)
    requires ReadIn(c, g, s, v) && v <= valid
    ensures ReadIn(c, g, s, valid)
  {
    hide ReadsFor;
  }

  lemma FinishSelf(c: Config, g: Goal, s: Symbol, st3: States, st4: States, f: State)
    requires VisibilityDone(c, g, st3, s) && StateIn(st4, s) == StateIn(st3, s)
    requires f == StateIn(st4, s).(curr := g.vals(s), write := f.write, pick := f.pick)
    requires f.write <==> WrittenFrom(c.sys, s, BoundsEnv(c.sys, g, s), ValueEnv(c.sys, g, s))
    ensures Fresh(c, g, st4[s := f], s)
  {
  }

  lemma FreshSame(c: Config, g: Goal, a: States, b: States, s: Symbol)
    requires StateIn(a, s) == StateIn(b, s)
    ensures Fresh(c, g, a, s) ==> Fresh(c, g, b, s)
  {
  }

  lemma SelfDone(c: Config, g: Goal, s: Symbol, v: set<Symbol>, st: States, v': set<Symbol>, st': States)
    requires Grown(c, g, {s}, v + {s}, st, v', st') && s !in v && s.Named? && Fresh(c, g, st', s) && s in g.scope && ReadIn(c, g, s, v')
    ensures Grown(c, g, {}, v, st, v', st') && CurrIn(st', s) == g.vals(s)
  {
    hide ReadIn, VisibilityDone, WrittenFrom;
  }

  lemma GrownNothing(c: Config, g: Goal, v: set<Symbol>, st: States)
    ensures forall self: set<Symbol> :: Grown(c, g, self, v, st, v, st)
  {
  }

  lemma SymbolNamed(s: Symbol)
    ensures HasType(s) ==> s.Named?
  {
  }

  lemma OnNow(c: Config, g: Goal, now: Tristate, valid: set<Symbol>, st: States)
    requires On(c, g, now, valid, st)
    ensures now == NowIn(g.m, c.sys.modules, st)
  {
  }

  lemma OnParts(c: Config, g: Goal, now: Tristate, valid: set<Symbol>, st: States)
    requires On(c, g, now, valid, st)
    ensures Target(c, g) && Going(g, valid, now) && now == NowIn(g.m, c.sys.modules, st)
  {
  }

  /** What was evaluated for the bounds of the modules symbol is all that is early. */
  lemma EarlyFinished(c: Config, g: Goal, v1: set<Symbol>, now: Tristate, v2: set<Symbol>, st1: States, st2: States, s: Symbol)
    requires IsEarly(c, g, s) && OnlySelf(g, s, v1) && g.m == Some(s)
    requires Grown(c, g, {s}, v1, st1, v2, st2) && PrintsBounds(g, s) == now && BoundsIn(c.sys, s, EnvAs(c.sys, now, g.vals), v2)
    ensures forall t: Symbol :: t in g.early ==> t in v2
  {
    hide BoundReads, Reads, Fresh;
    var e := iset t: Symbol | t in v2 && t !in v1;
    assert EarlyWithin(c, g, s, e);
  }

  lemma SecondOn(c: Config, g: Goal, now: Tristate, v2: set<Symbol>, st2: States, s: Symbol, f: State)
    requires On(c, g, now, v2, st2) && g.m == Some(s) && s.Named? && g.after == NO && f.curr.tri == NO
    requires g.before != g.after ==> forall t: Symbol :: t in g.early ==> t in v2
    ensures On(c, g, NO, v2, st2[s := f])
  {
    hide Target;
  }

  /** The modules symbol itself is not early. */
  lemma ValuePrints(c: Config, g: Goal, now: Tristate, v2: set<Symbol>, st2: States, s: Symbol)
    requires On(c, g, now, v2, st2) && g.m == Some(s) && g.after == NO && (g.before != g.after ==> IsEarly(c, g, s))
    ensures PrintsValue(g, s) == NO
  {
    hide BoundReads, Reads, Agreeing;
    if g.before != g.after {
      var e := iset t: Symbol | t in g.early && t != s;
      assert EarlyWithin(c, g, s, e);
      assert s !in e;
    }
  }

  lemma StillCurrent(c: Config, g: Goal, v: set<Symbol>, st: States, v': set<Symbol>, st': States, s: Symbol)
    requires Grown(c, g, {}, v, st, v', st') && (s.Named? ==> s in v)
    ensures CurrIn(st', s) == CurrIn(st, s)
  {
    hide Fresh, ReadIn;
  }

  /** Evaluation of others, followed by a change to a field of the symbol in progress. */
  lemma GrowSelf(c: Config, g: Goal, s: Symbol, v: set<Symbol>, st: States, v': set<Symbol>, st': States, f: State)
    requires s in v && v <= v' && Grown(c, g, {}, v, st, v', st')
    requires DoneBelow(g, g.rank(s), v', st') && f.write == StateIn(st', s).write
    ensures Grown(c, g, {s}, v, st, v', st'[s := f]) && DoneBelow(g, g.rank(s), v', st'[s := f])
    ensures StateIn(st', s) == StateIn(st, s)
  {
    hide ReadIn;
    forall u <- v' | u !in v
      ensures Fresh(c, g, st'[s := f], u)
    {
      FreshSame(c, g, st', st'[s := f], u);
    }
  }

  lemma GrownTrans(c: Config, g: Goal, self: set<Symbol>, v0: set<Symbol>, s0: States, v1: set<Symbol>, s1: States, v2: set<Symbol>, s2: States)
    requires v0 <= v1 <= v2
    requires Grown(c, g, self, v0, s0, v1, s1) && Grown(c, g, self, v1, s1, v2, s2)
    requires self <= v0
    ensures Grown(c, g, self, v0, s0, v2, s2)
  {
    hide Fresh, ReadIn;
    forall u <- v2 | u !in v0
      ensures Fresh(c, g, s2, u) && u in g.scope && ReadIn(c, g, u, v2)
    {
      if u in v1 {
        FreshSame(c, g, s1, s2, u);
        ReadInMore(c, g, u, v1, v2);
      }
    }
  }

  lemma StillDoneBelow(c: Config, g: Goal, k: nat, v0: set<Symbol>, s0: States, v1: set<Symbol>, s1: States)
    requires DoneBelow(g, k, v0, s0) && Grown(c, g, {}, v0, s0, v1, s1)
    ensures DoneBelow(g, k, v1, s1)
  {
    hide ReadIn, VisibilityDone;
    forall s <- v1 | s.Named? && g.rank(s) < k
      ensures CurrIn(s1, s) == g.vals(s)
    {
      if s in v0 {
        assert StateIn(s1, s) == StateIn(s0, s);
      }
    }
  }
}
