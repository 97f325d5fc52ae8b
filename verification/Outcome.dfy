/** What finalisation amounts to, said of single nodes: what a node inherits, what selects,
    implications, nodes and choices add to the dependencies of a symbol, and which symbols
    become values of choices. */
module Outcome {
  import opened Exprs
  import opened Places
  import opened Conditions
  import opened MenuTree
  import opened Propagation
  import opened MenuSpec

  /* ----- conditions ----- */

  /** Somewhere in f the node k is a child of m. */
  ghost predicate ChildOf(f: Forest, m: Menu, k: Menu) {
    f.Cons? && ((f.m == m && k in Roots(f.kids)) || ChildOf(f.kids, m, k) || ChildOf(f.rest, m, k))
  }

  /** At any depth a node is worth the minimum of its own condition, with the literal m as
      m && MODULES, and of its parent: the mode of a choice, the condition of a prompt, or else
      the parent's condition. */
  lemma {:induction false} ChildCondition(plan: Plan, parentdep: Option<Expr>, f: Forest, m: Menu, k: Menu, env: Env)
    requires AllMean(plan, parentdep, f, env) && ChildOf(f, m, k)
    ensures EvalOpt(DepIn(plan.want, k), env) == Min(
      if m.sym.Some? && m.sym.value in plan.choices then env.tri(m.sym.value)
      else if m.title.Some? then EvalOpt(Lookup(plan.want.visible, PromptOf(m)), env)
      else EvalOpt(DepIn(plan.want, m), env),
      EvalOpt(DepIn(plan.init, k), LimitM(env, plan.modules)))
    decreases f
  {
    hide NodeMeans, PassedOn, Lookup, LimitM;
    if f.m == m && k in Roots(f.kids) {
      RootCondition(plan, PassedOn(plan, m), f.kids, k, env);
      PassedOnIs(plan, m, env);
    } else if ChildOf(f.kids, m, k) {
      ChildCondition(plan, PassedOn(plan, f.m), f.kids, m, k, env);
    } else {
      ChildCondition(plan, parentdep, f.rest, m, k, env);
    }
  }

  lemma PassedOnIs(plan: Plan, m: Menu, env: Env)
    ensures EvalOpt(PassedOn(plan, m), env) ==
      if m.sym.Some? && m.sym.value in plan.choices then env.tri(m.sym.value)
      else if m.title.Some? then EvalOpt(Lookup(plan.want.visible, PromptOf(m)), env)
      else EvalOpt(DepIn(plan.want, m), env)
  {
  }

  lemma {:induction false} RootCondition(plan: Plan, parentdep: Option<Expr>, f: Forest, k: Menu, env: Env)
    requires AllMean(plan, parentdep, f, env) && k in Roots(f)
    ensures EvalOpt(DepIn(plan.want, k), env) == Min(EvalOpt(parentdep, env), EvalOpt(DepIn(plan.init, k), LimitM(env, plan.modules)))
    decreases f
  {
    if f.m != k {
      RootCondition(plan, parentdep, f.rest, k, env);
    }
  }

  /** Everywhere in a planned tree a property's condition is, place by place, the node's and its
      own joined, with FOO in the place of FOO!=n for a symbol other than a tristate. */
  lemma {:induction false} PropertyPlaces(plan: Plan, parentdep: Option<Expr>, f: Forest, m: Menu, p: Property, q: Path)
    requires AllInherit(plan, parentdep, f) && Planned(plan, f) && m in Nodes(f) && p in OwnOf(plan, m) && p.at == m
    requires var joint := Inherit(DepIn(plan.want, m), Lookup(plan.init.visible, p), plan.modules);
      joint.Some? && ValidPath(joint.value, q) && Leaf(At(joint.value, q))
    ensures var joint, now := Inherit(DepIn(plan.want, m), Lookup(plan.init.visible, p), plan.modules), Lookup(plan.want.visible, p);
      && now.Some? && ValidPath(now.value, q)
      && At(now.value, q) ==
           if m.sym.Some? && m.sym.value.Type() != Tri then Weakened(At(joint.value, q)) else At(joint.value, q)
    decreases f
  {
    if m == f.m {
      assert NodeInherits(plan, parentdep, m) && p in Mentioned(plan, m);
      hide Inherit, PropertyCond, Lookup;
      PropertyCondExact(DepIn(plan.want, m), Lookup(plan.init.visible, p), plan.modules, Binary(m), q);
    } else if m in Nodes(f.kids) {
      PropertyPlaces(plan, PassedOn(plan, f.m), f.kids, m, p, q);
    } else {
      PropertyPlaces(plan, parentdep, f.rest, m, p, q);
    }
  }

  /** The literal m counts as m && MODULES, and all else as it is. */
  lemma LiteralLimited(env: Env, modules: Symbol, s: Symbol)
    ensures LimitM(env, modules).tri(s) == if s == SymMod then Min(MOD, env.tri(modules)) else env.tri(s)
    ensures LimitM(env, modules).cmp == env.cmp
  {
  }

  /* ----- contributions ----- */

  /** k has a select, or an implication, of s that is worth at least t. */
  ghost predicate Pulls(plan: Plan, kind: PropKind, k: Menu, s: Symbol, env: Env, t: Tristate) {
    && k.sym.Some? && env.tri(k.sym.value) >= t
    && exists p <- OwnOf(plan, k) :: p.kind == kind && p.at == k && p.target == Some(s) && EvalOpt(Lookup(plan.want.visible, p), env) >= t
  }

  /** What finalising m adds to a dependency of s reaches t: one of its children pulls s, or
      m is a node of s without children and with a condition, or m is a visible choice that
      is not optional. */
  ghost predicate Adds(plan: Plan, m: Menu, which: Which, s: Symbol, env: Env, t: Tristate) {
    match which
    case Depends => m.sym == Some(s) && KidsOf(plan, m) == [] && DepIn(plan.want, m).Some? && Eval(DepIn(plan.want, m).value, env) >= t
    case Implies => exists k <- KidsOf(plan, m) :: Pulls(plan, Imply, k, s, env, t)
    case Selects =>
      || (exists k <- KidsOf(plan, m) :: Pulls(plan, Select, k, s, env, t))
      || (m.sym == Some(s) && s !in plan.optional && m.title.Some? && EvalOpt(PromptIn(plan.want, m), env) >= t && t <= MOD)
  }

  lemma {:induction false} PullExact(plan: Plan, kind: PropKind, k: Menu, ps: seq<Property>, s: Symbol, env: Env, t: Tristate)
    requires t != NO
    ensures Pull(kind, k, ps, plan.want.visible, s, env) >= t <==>
      && k.sym.Some? && env.tri(k.sym.value) >= t
      && exists p <- ps :: p.kind == kind && p.at == k && p.target == Some(s) && EvalOpt(Lookup(plan.want.visible, p), env) >= t
  {
    hide Lookup;
    if ps != [] {
      var before, last := ps[..|ps| - 1], ps[|ps| - 1];
      assert ps == before + [last];
      assert forall p <- ps :: p in before || p == last;
      PullExact(plan, kind, k, before, s, env, t);
    }
  }

  lemma {:induction false} KidsShareExact(plan: Plan, ks: seq<Menu>, which: Which, s: Symbol, env: Env, t: Tristate)
    requires t != NO
    ensures KidsShare(plan, ks, which, s, env) >= t <==>
      which != Depends && exists k <- ks :: Pulls(plan, KindOf(which), k, s, env, t)
  {
    if ks != [] && which != Depends {
      var before, last := ks[..|ks| - 1], ks[|ks| - 1];
      assert ks == before + [last];
      assert forall k <- ks :: k in before || k == last;
      KidsShareExact(plan, before, which, s, env, t);
      PullExact(plan, KindOf(which), last, OwnOf(plan, last), s, env, t);
      PullsIs(plan, KindOf(which), last, s, env, t);
      hide Pulls, Pull;
    }
  }

  lemma PullsIs(plan: Plan, kind: PropKind, k: Menu, s: Symbol, env: Env, t: Tristate)
    ensures Pulls(plan, kind, k, s, env, t) <==>
      && k.sym.Some? && env.tri(k.sym.value) >= t
      && exists p <- OwnOf(plan, k) :: p.kind == kind && p.at == k && p.target == Some(s) && EvalOpt(Lookup(plan.want.visible, p), env) >= t
  {
  }

  /** What the whole of finalisation adds reaches t just when what some node adds does. */
  lemma {:induction false} TotalExact(plan: Plan, ns: seq<Menu>, which: Which, s: Symbol, env: Env, t: Tristate)
    requires t != NO
    ensures Total(plan, ns, which, s, env) >= t <==> exists m <- ns :: Adds(plan, m, which, s, env, t)
  {
    if ns != [] {
      var before, last := ns[..|ns| - 1], ns[|ns| - 1];
      assert ns == before + [last];
      assert forall m <- ns :: m in before || m == last;
      TotalExact(plan, before, which, s, env, t);
      NodeShareExact(plan, last, which, s, env, t);
      hide Adds, NodeShare;
    }
  }

  lemma NodeShareExact(plan: Plan, m: Menu, which: Which, s: Symbol, env: Env, t: Tristate)
    requires t != NO
    ensures NodeShare(plan, m, which, s, env) >= t <==> Adds(plan, m, which, s, env, t)
  {
    KidsShareExact(plan, KidsOf(plan, m), which, s, env, t);
    hide Pulls, KidsShare;
  }

  /* ----- values of choices ----- */

  /** Every symbol directly below a choice in f, at any depth, is a value of a choice. */
  ghost predicate AllRegistered(choices: set<Symbol>, k: Book, f: Forest) {
    f.Cons? ==>
      && (f.m.sym.Some? && f.m.sym.value in choices ==> forall c <- Roots(f.kids) :: c.sym.Some? ==> c.sym.value in k.vals)
      && AllRegistered(choices, k, f.kids) && AllRegistered(choices, k, f.rest)
  }

  /** Looking at its children, a choice gets exactly those symbols as values that were not
      values yet, behind the ones it had, and no other choice gets any. */
  lemma {:induction false} RegisterAllVals(choices: set<Symbol>, k: Book, parent: Menu, ms: seq<Menu>)
    ensures var k' := RegisterAll(choices, k, parent, ms);
      if parent.sym.Some? && parent.sym.value in choices then
        && k'.vals == k.vals + (set c | c in ms && c.sym.Some? :: c.sym.value)
        && MembersOf(k.members, parent.sym.value) <= MembersOf(k'.members, parent.sym.value)
        && (forall s: Symbol :: s in k'.vals && s !in k.vals ==> s in MembersOf(k'.members, parent.sym.value))
        && (forall q: Symbol :: q != parent.sym.value ==> MembersOf(k'.members, q) == MembersOf(k.members, q))
      else k' == k
    ensures k.members.Keys <= choices ==> RegisterAll(choices, k, parent, ms).members.Keys <= choices
    decreases |ms|
  {
    if ms != [] {
      var k1 := Register(choices, k, parent, ms[0]);
      RegisterAllVals(choices, k1, parent, ms[1..]);
      assert ms == [ms[0]] + ms[1..];
      if parent.sym.Some? && parent.sym.value in choices {
        RegisterVals(choices, k, parent, ms[0]);
        assert (set c | c in ms && c.sym.Some? :: c.sym.value)
            == (if ms[0].sym.Some? then {ms[0].sym.value} else {}) + (set c | c in ms[1..] && c.sym.Some? :: c.sym.value);
      }
    }
  }

  lemma RegisterVals(choices: set<Symbol>, k: Book, parent: Menu, m: Menu)
    requires parent.sym.Some? && parent.sym.value in choices
    ensures var k' := Register(choices, k, parent, m);
      && k'.vals == k.vals + (if m.sym.Some? then {m.sym.value} else {})
      && MembersOf(k.members, parent.sym.value) <= MembersOf(k'.members, parent.sym.value)
      && (forall s: Symbol :: s in k'.vals && s !in k.vals ==> s in MembersOf(k'.members, parent.sym.value))
      && (forall q: Symbol :: q != parent.sym.value ==> MembersOf(k'.members, q) == MembersOf(k.members, q))
  {
  }

  lemma {:induction false} RegisteredAppend(choices: set<Symbol>, k: Book, f: Forest, g: Forest)
    ensures AllRegistered(choices, k, Append(f, g)) <==> AllRegistered(choices, k, f) && AllRegistered(choices, k, g)
  {
    if f.Cons? {
      RegisteredAppend(choices, k, f.rest, g);
    }
  }

  lemma {:induction false} RegisteredFlattened(choices: set<Symbol>, k: Book, f: Forest)
    requires AllRegistered(choices, k, f)
    ensures AllRegistered(choices, k, Flattened(f))
    decreases Count(f)
  {
    if f.Cons? {
      if f.kids.Cons? && !Titled(f.m) {
        AppendFacts(f.kids, f.rest);
        RegisteredAppend(choices, k, f.kids, f.rest);
        RegisteredFlattened(choices, k, Append(f.kids, f.rest));
      } else {
        RegisteredFlattened(choices, k, f.rest);
      }
    }
  }

  lemma {:induction false} RegisteredMore(choices: set<Symbol>, k: Book, k': Book, f: Forest)
    requires AllRegistered(choices, k, f) && k.vals <= k'.vals
    ensures AllRegistered(choices, k', f)
  {
    if f.Cons? {
      RegisteredMore(choices, k, k', f.kids);
      RegisteredMore(choices, k, k', f.rest);
    }
  }

  /** After finalising the first tree of f every symbol that is then directly below a choice
      in it is a value of a choice; and only choices have values. */
  lemma {:induction false} RegisteredNode(w: Conds, choices: set<Symbol>, k: Book, f: Forest)
    requires f.Cons?
    ensures var h, k' := Finish(w, f), RegisterNode(w, choices, k, f);
      && AllRegistered(choices, k', Cons(h.m, h.kids, Nil)) && k.vals <= k'.vals
      && (k.members.Keys <= choices ==> k'.members.Keys <= choices)
    decreases Count(f), 1
  {
    hide RegisterAll, Flattened;
    var (kids, inner) :=
      if f.kids.Cons? then (FinishList(w, f.kids), RegisterList(w, choices, k, f.kids))
      else (Taken(w, f).0, RegisterTaken(w, choices, k, f));
    if f.kids.Cons? {
      RegisteredList(w, choices, k, f.kids);
    } else if f.m.sym.Some? {
      RegisteredAbsorbed(w, choices, k, f.m, f.rest);
    } else {
      NothingRegisteredBelow(choices, k);
    }
    RegisterAllVals(choices, inner, f.m, Roots(Flattened(kids)));
    RegisteredTop(choices, inner, f.m, kids);
  }

  lemma NothingRegisteredBelow(choices: set<Symbol>, k: Book)
    ensures AllRegistered(choices, k, Nil)
  {
  }

  lemma RegisteredTop(choices: set<Symbol>, inner: Book, m: Menu, kids: Forest)
    requires AllRegistered(choices, inner, kids)
    ensures AllRegistered(choices, RegisterAll(choices, inner, m, Roots(Flattened(kids))), Cons(m, Flattened(kids), Nil))
  {
    var k' := RegisterAll(choices, inner, m, Roots(Flattened(kids)));
    RegisterAllVals(choices, inner, m, Roots(Flattened(kids)));
    RegisteredFlattened(choices, inner, kids);
    RegisteredMore(choices, inner, k', Flattened(kids));
    hide RegisterAll, Flattened, Roots;
  }

  lemma RegisteredBoth(choices: set<Symbol>, k: Book, m: Menu, kids: Forest, rest: Forest)
    requires AllRegistered(choices, k, Cons(m, kids, Nil)) && AllRegistered(choices, k, rest)
    ensures AllRegistered(choices, k, Cons(m, kids, rest))
  {
  }

  lemma {:induction false} RegisteredList(w: Conds, choices: set<Symbol>, k: Book, f: Forest)
    ensures var k' := RegisterList(w, choices, k, f);
      && AllRegistered(choices, k', FinishList(w, f)) && k.vals <= k'.vals
      && (k.members.Keys <= choices ==> k'.members.Keys <= choices)
    decreases Count(f), 2
  {
    hide AllRegistered;
    if f == Nil {
      NothingRegisteredBelow(choices, k);
    } else {
      var h, k1 := Finish(w, f), RegisterNode(w, choices, k, f);
      RegisteredNode(w, choices, k, f);
      RegisteredList(w, choices, k1, h.rest);
      RegisteredMore(choices, k1, RegisterList(w, choices, k1, h.rest), Cons(h.m, h.kids, Nil));
      RegisteredBoth(choices, RegisterList(w, choices, k1, h.rest), h.m, h.kids, FinishList(w, h.rest));
    }
  }

  lemma {:induction false} RegisteredAbsorbed(w: Conds, choices: set<Symbol>, k: Book, under: Menu, f: Forest)
    requires under.sym.Some?
    ensures var k' := RegisterAbsorbed(w, choices, k, under, f);
      && AllRegistered(choices, k', Absorbed(w, under, f).0) && k.vals <= k'.vals
      && (k.members.Keys <= choices ==> k'.members.Keys <= choices)
    decreases Count(f), 2
  {
    hide AllRegistered, Belongs;
    if f == Nil || !Belongs(under.sym.value, PromptIn(w, under), ShownIn(w, f.m)) {
      NothingRegisteredBelow(choices, k);
    } else {
      var h, k1 := Finish(w, f), RegisterNode(w, choices, k, f);
      RegisteredNode(w, choices, k, f);
      RegisteredAbsorbed(w, choices, k1, under, h.rest);
      RegisteredMore(choices, k1, RegisterAbsorbed(w, choices, k1, under, h.rest), Cons(h.m, h.kids, Nil));
      RegisteredBoth(choices, RegisterAbsorbed(w, choices, k1, under, h.rest), h.m, h.kids, Absorbed(w, under, h.rest).0);
    }
  }
}
