/** Menu tree finalisation: conditions are propagated from parents to children,
    items that depend on the symbol before them become its submenu, and nodes
    without a prompt give their children back to the enclosing menu. */
module Finalizing {
  import opened Exprs
  import opened Rewriting
  import opened Conditions
  import opened MenuTree
  import opened Propagation
  import opened MenuSpec

  /** The properties that finalisation of a node looks at: all of its symbol's, or its own
      prompt. */
  function PropsIn(props: Props, m: Menu): seq<Property> {
    if m.sym.Some? then (if m.sym.value in props then props[m.sym.value] else [])
    else if m.title.Some? then [PromptOf(m)]
    else []
  }

  function AtMenu(ps: seq<Property>, m: Menu): seq<Property> {
    if ps == [] then []
    else AtMenu(ps[..|ps| - 1], m) + (if ps[|ps| - 1].at == m then [ps[|ps| - 1]] else [])
  }

  /** Those of them that belong to the node. */
  function Mine(props: Props, m: Menu): seq<Property> {
    AtMenu(PropsIn(props, m), m)
  }

  /** Properties of a symbol are told apart by their position. */
  ghost predicate Numbered(props: Props) {
    forall s <- props.Keys, i :: 0 <= i < |props[s]| ==> props[s][i].id == i
  }

  /** Besides, what is registered is the node of a symbol that is a value. */
  ghost predicate Orderly(book: Book) {
    Numbered(book.props) && forall m <- book.at.Keys :: m.sym.Some? && m.sym.value in book.vals
  }

  lemma NumberedNoRepeats(props: Props, m: Menu)
    requires Numbered(props)
    ensures NoRepeats(PropsIn(props, m))
  {
    var ps := PropsIn(props, m);
    forall i, j | 0 <= i < j < |ps|
      ensures ps[i] != ps[j]
    {
      assert m.sym.Some? ==> ps[i].id == i && ps[j].id == j;
    }
  }

  lemma {:induction false} AtMenuIn(ps: seq<Property>, m: Menu)
    ensures forall p: Property :: p in AtMenu(ps, m) <==> p in ps && p.at == m
    ensures forall p <- AtMenu(ps, m) :: p.at == m
  {
    if ps != [] {
      AtMenuIn(ps[..|ps| - 1], m);
      assert ps == ps[..|ps| - 1] + [ps[|ps| - 1]];
    }
  }

  lemma {:induction false} AtMenuPull(kind: PropKind, m: Menu, ps: seq<Property>, visible: PropConds, es: Symbol, env: Env)
    ensures Pull(kind, m, AtMenu(ps, m), visible, es, env) == Pull(kind, m, ps, visible, es, env)
  {
    if ps != [] {
      AtMenuPull(kind, m, ps[..|ps| - 1], visible, es, env);
      var rest, last := AtMenu(ps[..|ps| - 1], m), ps[|ps| - 1];
      if last.at == m {
        assert (rest + [last])[..|rest + [last]| - 1] == rest;
      } else {
        assert rest + [] == rest;
      }
    }
  }

  /* ----- conditions on the way ----- */

  /** The conditions at m are those of c. */
  ghost predicate NodeIs(m: Menu, visible: PropConds, c: Conds)
    reads m`dep
  {
    m.dep == DepIn(c, m) && forall p <- visible.Keys + c.visible.Keys :: p.at == m ==> Lookup(visible, p) == Lookup(c.visible, p)
  }

  /** The condition of a new value of a choice: a value that is not tristate inside a
      tristate choice also requires the choice to be y. */
  function RestrictedTo(choice: Symbol, s: Symbol, was: Option<Expr>): Option<Expr> {
    if choice.Type() == Tri && s.Type() != Tri then AllocAnd(Some(Compare(Equal, choice, SymYes)), was) else was
  }

  /** A condition at m, restricted if m was registered with a choice. */
  function Limited(book: Book, m: Menu, was: Option<Expr>): Option<Expr> {
    if m in book.at && m.sym.Some? then RestrictedTo(book.at[m], m.sym.value, was) else was
  }

  /** The properties of which conditions speak at m. */
  ghost function Spoken(visible: PropConds, plan: Plan, m: Menu): set<Property> {
    visible.Keys + plan.want.visible.Keys + (set p | p in OwnOf(plan, m))
  }

  /** The conditions at m are exactly those wanted, restricted to the choice that m was
      registered with; without one its properties are as parsed. */
  ghost predicate NodeDone(m: Menu, visible: PropConds, book: Book, plan: Plan)
    reads m`dep
  {
    && m in plan.own
    && m.dep == Limited(book, m, DepIn(plan.want, m))
    && (forall p <- Spoken(visible, plan, m) :: p.at == m ==> Lookup(visible, p) == LimitedAt(book, plan, m, p))
    && (m !in book.at ==> Mine(book.props, m) == OwnOf(plan, m))
  }

  /** m has inherited, and is not registered yet. */
  ghost predicate Inherited(m: Menu, visible: PropConds, book: Book, plan: Plan)
    reads m`dep
  {
    NodeIs(m, visible, plan.want) && m in plan.own && Mine(book.props, m) == OwnOf(plan, m) && m !in book.at
  }

  ghost function LimitedAt(book: Book, plan: Plan, m: Menu, p: Property): Option<Expr> {
    if p in OwnOf(plan, m) then Limited(book, m, Lookup(plan.want.visible, p)) else Lookup(plan.want.visible, p)
  }

  /** Before finalisation of f: its roots have inherited, everything below is as parsed. */
  ghost predicate Ready(f: Forest, visible: PropConds, book: Book, plan: Plan)
    reads Nodes(f)`dep
  {
    && Planned(plan, f)
    && forall m <- Nodes(f) ::
      && m in plan.own && Mine(book.props, m) == OwnOf(plan, m) && m !in book.at
      && (m in TopLevel(f) ==> NodeIs(m, visible, plan.want))
      && (m in Below(f) ==> NodeIs(m, visible, plan.init))
  }

  ghost predicate Finished(ms: set<Menu>, visible: PropConds, book: Book, plan: Plan)
    reads ms`dep
  {
    forall m <- ms :: NodeDone(m, visible, book, plan)
  }

  /** While the parent's condition is passed on: the nodes in done have inherited. */
  ghost predicate Passing(ms: set<Menu>, done: set<Menu>, visible: PropConds, book: Book, plan: Plan)
    reads ms`dep
  {
    forall m <- ms :: m in plan.own && Mine(book.props, m) == OwnOf(plan, m) && m !in book.at && NodeIs(m, visible, if m in done then plan.want else plan.init)
  }

  /** Nothing changed at nodes outside s. */
  ghost predicate Elsewhere(s: set<Menu>, plan: Plan, v: PropConds, v': PropConds, p: Book, p': Book) {
    && SameConds(s, v, v')
    && (forall m <- plan.own.Keys :: m !in s ==> Mine(p'.props, m) == Mine(p.props, m))
    && (forall m <- p.at.Keys + p'.at.Keys :: m !in s ==> m in p.at && m in p'.at && p.at[m] == p'.at[m])
  }

  lemma ElsewhereNone(plan: Plan, v: PropConds, p: Book)
    ensures Elsewhere({}, plan, v, v, p, p)
  {
  }

  lemma ElsewhereTrans(s: set<Menu>, t: set<Menu>, plan: Plan, v0: PropConds, v1: PropConds, v2: PropConds, p0: Book, p1: Book, p2: Book)
    requires Elsewhere(s, plan, v0, v1, p0, p1) && Elsewhere(t, plan, v1, v2, p1, p2)
    ensures Elsewhere(s + t, plan, v0, v2, p0, p2)
  {
    hide Mine, Lookup;
    SameCondsTrans(s, t, v0, v1, v2);
  }

  lemma ElsewhereMore(s: set<Menu>, t: set<Menu>, plan: Plan, v: PropConds, v': PropConds, p: Book, p': Book)
    requires Elsewhere(s, plan, v, v', p, p') && s <= t
    ensures Elsewhere(t, plan, v, v', p, p')
  {
  }

  lemma NodeIsStill(m: Menu, s: set<Menu>, v: PropConds, v': PropConds, c: Conds)
    requires SameConds(s, v, v') && m !in s
    ensures NodeIs(m, v, c) ==> NodeIs(m, v', c)
  {
    forall p <- v'.Keys + c.visible.Keys | p.at == m
      ensures Lookup(v', p) == Lookup(v, p)
      ensures p !in v.Keys + c.visible.Keys ==> Lookup(v', p) == None && Lookup(c.visible, p) == None
    {
      assert p in v.Keys + v'.Keys || p !in v.Keys;
    }
  }

  lemma LimitedStill(s: set<Menu>, plan: Plan, v: PropConds, v': PropConds, p: Book, p': Book, m: Menu, was: Option<Expr>)
    requires Elsewhere(s, plan, v, v', p, p') && m !in s
    ensures Limited(p', m, was) == Limited(p, m, was) && (m in p'.at <==> m in p.at)
  {
    hide Mine, SameConds;
    assert m in p.at.Keys + p'.at.Keys || (m !in p.at && m !in p'.at);
  }

  lemma NoneLimited(book: Book, plan: Plan, m: Menu, p: Property)
    requires Lookup(plan.want.visible, p) == None && p !in OwnOf(plan, m)
    ensures LimitedAt(book, plan, m, p) == None
  {
  }

  lemma NodeDoneStill(m: Menu, s: set<Menu>, plan: Plan, v: PropConds, v': PropConds, k: Book, k': Book)
    requires NodeDone(m, v, k, plan) && Elsewhere(s, plan, v, v', k, k') && m !in s
    ensures NodeDone(m, v', k', plan)
  {
    hide Mine, RestrictedTo;
    LimitedStill(s, plan, v, v', k, k', m, DepIn(plan.want, m));
    forall p <- Spoken(v', plan, m) | p.at == m
      ensures Lookup(v', p) == LimitedAt(k', plan, m, p)
    {
      LimitedStill(s, plan, v, v', k, k', m, Lookup(plan.want.visible, p));
      assert Lookup(v', p) == Lookup(v, p) by {
        assert p in v.Keys + v'.Keys || (p !in v.Keys && p !in v'.Keys);
      }
      if p !in Spoken(v, plan, m) {
        NoneLimited(k', plan, m, p);
      }
    }
  }

  lemma ReadyStill(f: Forest, s: set<Menu>, plan: Plan, v: PropConds, v': PropConds, p: Book, p': Book)
    requires Ready(f, v, p, plan) && Elsewhere(s, plan, v, v', p, p') && s !! Nodes(f)
    ensures Ready(f, v', p', plan)
  {
    hide NodeIs, Mine, SameConds;
    forall m <- Nodes(f)
      ensures m in TopLevel(f) ==> NodeIs(m, v', plan.want)
      ensures m in Below(f) ==> NodeIs(m, v', plan.init)
      ensures Mine(p'.props, m) == OwnOf(plan, m) && m !in p'.at
    {
      NodeIsStill(m, s, v, v', plan.want);
      NodeIsStill(m, s, v, v', plan.init);
      LimitedStill(s, plan, v, v', p, p', m, None);
    }
  }

  lemma FinishedStill(ms: set<Menu>, s: set<Menu>, plan: Plan, v: PropConds, v': PropConds, p: Book, p': Book)
    requires Finished(ms, v, p, plan) && Elsewhere(s, plan, v, v', p, p') && s !! ms
    ensures Finished(ms, v', p', plan)
  {
    hide NodeDone, Elsewhere;
    forall m <- ms
      ensures NodeDone(m, v', p', plan)
    {
      NodeDoneStill(m, s, plan, v, v', p, p');
    }
  }

  lemma InheritedStill(m: Menu, s: set<Menu>, plan: Plan, v: PropConds, v': PropConds, p: Book, p': Book)
    requires Inherited(m, v, p, plan) && Elsewhere(s, plan, v, v', p, p') && m !in s
    ensures Inherited(m, v', p', plan)
  {
    hide NodeIs, Mine, SameConds;
    NodeIsStill(m, s, v, v', plan.want);
    LimitedStill(s, plan, v, v', p, p', m, None);
  }

  lemma FinishedUnion(a: set<Menu>, b: set<Menu>, v: PropConds, k: Book, plan: Plan)
    requires Finished(a, v, k, plan) && Finished(b, v, k, plan)
    ensures Finished(a + b, v, k, plan)
  {
  }

  lemma FinishedOne(m: Menu, v: PropConds, k: Book, plan: Plan)
    requires Inherited(m, v, k, plan)
    ensures Finished({m}, v, k, plan)
  {
    hide Mine;
  }

  lemma FinishedNone(v: PropConds, k: Book, plan: Plan)
    ensures Finished({}, v, k, plan)
  {
  }

  /** All nodes below the roots of a planned forest are known to the plan. */
  lemma {:induction false} PlannedOwn(plan: Plan, f: Forest)
    requires Planned(plan, f)
    ensures Below(f) <= plan.own.Keys
  {
    if f.Cons? {
      PlannedOwn(plan, f.kids);
      PlannedOwn(plan, f.rest);
      InheritOwn(plan, PassedOn(plan, f.m), f.kids);
      TopAndBelow(f.kids);
    }
  }

  lemma {:induction false} InheritOwn(plan: Plan, parentdep: Option<Expr>, f: Forest)
    requires AllInherit(plan, parentdep, f)
    ensures TopLevel(f) <= plan.own.Keys
  {
    if f.Cons? {
      InheritOwn(plan, parentdep, f.rest);
    }
  }

  lemma ReadySuffix(g: Forest, f: Forest, v: PropConds, p: Book, plan: Plan)
    requires Ready(f, v, p, plan) && SuffixOf(g, f)
    ensures Ready(g, v, p, plan)
  {
    hide NodeIs, Mine;
    PlannedSuffix(plan, g, f);
    SuffixNodes(g, f);
  }

  /** The first root has inherited; below it nothing has. */
  lemma ReadyHead(f: Forest, v: PropConds, p: Book, plan: Plan)
    requires f.Cons? && Ready(f, v, p, plan) && Distinct(f)
    ensures Inherited(f.m, v, p, plan) && Passing(Nodes(f.kids), {}, v, p, plan)
    ensures Planned(plan, f.kids) && AllInherit(plan, PassedOn(plan, f.m), f.kids) && KidsOf(plan, f.m) == Roots(f.kids)
    ensures Ready(f.rest, v, p, plan)
  {
    hide NodeIs, Mine, AllInherit;
    TopAndBelow(f);
    TopAndBelow(f.rest);
    ReadySuffix(f.rest, f, v, p, plan);
  }

  /** Once all roots have inherited they can be finalised. */
  lemma PassedReady(f: Forest, v: PropConds, p: Book, plan: Plan)
    requires Distinct(f) && Planned(plan, f) && Passing(Nodes(f), TopLevel(f), v, p, plan)
    ensures Ready(f, v, p, plan)
  {
    hide NodeIs, Mine, Planned;
    TopAndBelow(f);
  }

  /* ----- one node inherits ----- */

  /** The conditions at a node after its parent's was passed on. */
  ghost predicate PropagatedAt(m: Menu, dep: Option<Expr>, own: seq<Property>, v: PropConds, v': PropConds, modules: Symbol) {
    forall p <- v.Keys + v'.Keys :: Lookup(v', p) ==
      if p in own && p.at == m then PropertyCond(dep, Lookup(v, p), modules, Binary(m)) else Lookup(v, p)
  }

  lemma PropagatedIs(m: Menu, v: PropConds, v': PropConds, plan: Plan, parentdep: Option<Expr>)
    requires NodeInherits(plan, parentdep, m)
    requires forall p <- v.Keys + plan.init.visible.Keys :: p.at == m ==> Lookup(v, p) == Lookup(plan.init.visible, p)
    requires m.dep == DepIn(plan.want, m) && PropagatedAt(m, m.dep, OwnOf(plan, m), v, v', plan.modules)
    requires forall p <- OwnOf(plan, m) :: p.at == m ==> p in v'
    ensures NodeIs(m, v', plan.want)
  {
    hide PropertyCond, Inherit;
    forall p <- v'.Keys + plan.want.visible.Keys | p.at == m
      ensures Lookup(v', p) == Lookup(plan.want.visible, p)
    {
      assert Lookup(v, p) == Lookup(plan.init.visible, p) by {
        assert p in v.Keys + plan.init.visible.Keys || (p !in v && p !in plan.init.visible);
      }
      if p in v.Keys + v'.Keys {
        assert p in Mentioned(plan, m) || (p !in plan.init.visible && p !in plan.want.visible && p !in OwnOf(plan, m));
      } else {
        assert p in Mentioned(plan, m);
      }
    }
  }

  lemma PropagatedElsewhere(m: Menu, dep: Option<Expr>, own: seq<Property>, v: PropConds, v': PropConds, modules: Symbol)
    requires PropagatedAt(m, dep, own, v, v', modules)
    ensures SameConds({m}, v, v')
  {
  }

  /** One property more, at position i of the list. */
  lemma PropagatedStep(m: Menu, dep: Option<Expr>, ps: seq<Property>, i: nat, v0: PropConds, v1: PropConds, v2: PropConds, modules: Symbol)
    requires i < |ps| && NoRepeats(ps) && PropagatedAt(m, dep, ps[..i], v0, v1, modules)
    requires if ps[i].at == m then v2 == v1[ps[i] := PropertyCond(dep, Lookup(v1, ps[i]), modules, Binary(m))] else v2 == v1
    ensures PropagatedAt(m, dep, ps[..i + 1], v0, v2, modules)
  {
    hide PropertyCond;
    assert ps[..i + 1] == ps[..i] + [ps[i]] && ps[i] !in ps[..i];
    forall p <- v0.Keys + v2.Keys
      ensures Lookup(v2, p) ==
        if p in ps[..i + 1] && p.at == m then PropertyCond(dep, Lookup(v0, p), modules, Binary(m)) else Lookup(v0, p)
    {
      assert p !in v0.Keys + v1.Keys ==> Lookup(v0, p) == None && Lookup(v1, p) == None;
    }
  }

  lemma PropagatedNone(m: Menu, dep: Option<Expr>, v: PropConds, rev: Reverse, imp: Reverse, modules: Symbol)
    ensures PropagatedAt(m, dep, [], v, v, modules) && Pulled(Select, m, [], v, rev, rev) && Pulled(Imply, m, [], v, imp, imp)
  {
    PulledNone(Select, m, v, rev);
    PulledNone(Imply, m, v, imp);
  }

  lemma SetOne(p: Property, v: PropConds, v': PropConds)
    requires p in v' && v' == v[p := v'[p]]
    ensures SameExcept(p, v, v')
  {
  }

  lemma NodeIsParts(m: Menu, v: PropConds, c: Conds)
    requires NodeIs(m, v, c)
    ensures m.dep == DepIn(c, m) && forall p <- v.Keys + c.visible.Keys :: p.at == m ==> Lookup(v, p) == Lookup(c.visible, p)
  {
  }

  lemma WantedDep(plan: Plan, parentdep: Option<Expr>, m: Menu)
    requires NodeInherits(plan, parentdep, m)
    ensures DepIn(plan.want, m) == Inherit(parentdep, DepIn(plan.init, m), plan.modules)
  {
  }

  lemma MineAtMenu(props: Props, m: Menu)
    ensures Mine(props, m) == AtMenu(PropsIn(props, m), m)
  {
  }

  lemma {:induction false} PropagatedOwn(m: Menu, dep: Option<Expr>, ps: seq<Property>, own: seq<Property>, v: PropConds, v': PropConds, modules: Symbol)
    requires PropagatedAt(m, dep, ps, v, v', modules) && own == AtMenu(ps, m)
    ensures PropagatedAt(m, dep, own, v, v', modules)
  {
    AtMenuIn(ps, m);
  }

  lemma PassingStep(ms: set<Menu>, done: set<Menu>, menu: Menu, v: PropConds, v': PropConds, k: Book, plan: Plan)
    requires Passing(ms - {menu}, done, v, k, plan) && SameConds({menu}, v, v') && Inherited(menu, v', k, plan)
    ensures Passing(ms, done + {menu}, v', k, plan)
  {
    hide NodeIs, Mine, SameConds;
    forall m <- ms | m != menu
      ensures NodeIs(m, v', if m in done then plan.want else plan.init)
    {
      NodeIsStill(m, {menu}, v, v', if m in done then plan.want else plan.init);
    }
  }

  lemma OneKidRaises(plan: Plan, m: Menu, props: Props, v: PropConds, was: Revs, now: Revs)
    requires NodeIs(m, v, plan.want) && Mine(props, m) == OwnOf(plan, m) && now.dirDep == was.dirDep
    requires if m.sym.Some? then Pulled(Select, m, PropsIn(props, m), v, was.revDep, now.revDep)
                                 && Pulled(Imply, m, PropsIn(props, m), v, was.implied, now.implied)
             else now == was
    ensures Raises(KidsShareOf(plan, [m]), was, now)
  {
    hide NodeIs, EvalRev, Pull;
    forall which: Which, s: Symbol, env: Env | ConstantsFixed(env)
      ensures EvalRev(RevIn(now, which, s), env) == Max(EvalRev(RevIn(was, which, s), env), KidsShare(plan, [m], which, s, env))
    {
      OneKidShare(plan, m, props, v, which, s, env);
    }
  }

  lemma OneKidShare(plan: Plan, m: Menu, props: Props, v: PropConds, which: Which, s: Symbol, env: Env)
    requires NodeIs(m, v, plan.want) && Mine(props, m) == OwnOf(plan, m)
    ensures KidsShare(plan, [m], which, s, env) == if which == Depends then NO else Pull(KindOf(which), m, PropsIn(props, m), v, s, env)
    ensures m.sym.None? ==> KidsShare(plan, [m], which, s, env) == NO
  {
    assert [m][..0] == [];
    if which != Depends {
      var ps := PropsIn(props, m);
      AtMenuIn(ps, m);
      AtMenuPull(KindOf(which), m, ps, v, s, env);
      WantedVisible(m, v, plan, ps);
      PullSame(KindOf(which), m, OwnOf(plan, m), v, plan.want.visible, s, env);
      if m.sym.None? {
        NoSymbolPulls(KindOf(which), m, OwnOf(plan, m), plan.want.visible, s, env);
      }
    }
  }

  lemma WantedVisible(m: Menu, v: PropConds, plan: Plan, ps: seq<Property>)
    requires NodeIs(m, v, plan.want)
    ensures forall p <- AtMenu(ps, m) :: Lookup(v, p) == Lookup(plan.want.visible, p)
  {
    AtMenuIn(ps, m);
    forall p <- AtMenu(ps, m)
      ensures Lookup(v, p) == Lookup(plan.want.visible, p)
    {
      assert p in v.Keys + plan.want.visible.Keys || (p !in v && p !in plan.want.visible);
    }
  }

  lemma {:induction false} NoSymbolPulls(kind: PropKind, m: Menu, ps: seq<Property>, v: PropConds, s: Symbol, env: Env)
    requires m.sym.None?
    ensures Pull(kind, m, ps, v, s, env) == NO
  {
    if ps != [] {
      NoSymbolPulls(kind, m, ps[..|ps| - 1], v, s, env);
    }
  }

  lemma KidsRaiseNothing(plan: Plan, r: Revs)
    ensures Raises(KidsShareOf(plan, []), r, r)
  {
  }

  lemma KidsRaiseMore(plan: Plan, ks: seq<Menu>, m: Menu, r0: Revs, r1: Revs, r2: Revs)
    requires Raises(KidsShareOf(plan, ks), r0, r1) && Raises(KidsShareOf(plan, [m]), r1, r2)
    ensures Raises(KidsShareOf(plan, ks + [m]), r0, r2)
  {
    RaisesTrans(KidsShareOf(plan, ks), KidsShareOf(plan, [m]), r0, r1, r2);
    forall which: Which, s: Symbol, env: Env | ConstantsFixed(env)
      ensures Both(KidsShareOf(plan, ks), KidsShareOf(plan, [m]))(which, s, env) == KidsShareOf(plan, ks + [m])(which, s, env)
    {
      assert (ks + [m])[..|ks|] == ks && [m][..0] == [] && (ks + [m])[|ks|] == m;
      assert KidsShare(plan, [], which, s, env) == NO;
      assert KidsShare(plan, [m], which, s, env) ==
        if which == Depends then NO else Pull(KindOf(which), m, OwnOf(plan, m), plan.want.visible, s, env);
    }
    RaisesSame(Both(KidsShareOf(plan, ks), KidsShareOf(plan, [m])), KidsShareOf(plan, ks + [m]), r0, r2);
  }

  lemma RootsStep(roots: seq<Menu>, left: Forest)
    requires left.Cons?
    ensures roots + [left.m] + Roots(left.rest) == roots + Roots(left)
  {
  }

  lemma InheritHead(plan: Plan, parentdep: Option<Expr>, f: Forest)
    requires f.Cons? && AllInherit(plan, parentdep, f)
    ensures NodeInherits(plan, parentdep, f.m) && AllInherit(plan, parentdep, f.rest)
  {
  }

  lemma SuffixSelf(f: Forest)
    ensures SuffixOf(f, f)
  {
  }

  lemma {:induction false} SuffixStep(g: Forest, f: Forest)
    requires SuffixOf(g, f) && g.Cons?
    ensures SuffixOf(g.rest, f)
  {
    if g != f {
      SuffixStep(g, f.rest);
    }
  }

  lemma NodesOfCons(f: Forest)
    requires f.Cons?
    ensures f.m in Nodes(f) && Nodes(f.kids) <= Nodes(f) && Nodes(f.rest) <= Nodes(f) && Count(f.rest) < Count(f)
  {
  }

  lemma TopLevelNil(f: Forest)
    ensures f == Nil ==> TopLevel(f) == {} && Roots(f) == []
  {
  }

  lemma TopLevelCons(f: Forest)
    requires f.Cons? && Distinct(f)
    ensures TopLevel(f) == {f.m} + TopLevel(f.rest) && f.m !in TopLevel(f.rest) && Distinct(f.rest)
    ensures TopLevel(f.rest) <= Nodes(f.rest)
  {
    TopAndBelow(f.rest);
  }

  /** It has the value of the condition where the choice is y. */
  lemma RestrictedValue(choice: Symbol, s: Symbol, was: Option<Expr>, env: Env)
    requires choice.Type() == Tri && s.Type() != Tri && WellFormed(env)
    ensures EvalOpt(RestrictedTo(choice, s, was), env) == Min(FromBool(env.tri(choice) == YES), EvalOpt(was, env))
    ensures NormalOpt(was) ==> NormalOpt(RestrictedTo(choice, s, was))
  {
    assert choice.Typed();
    assert Eval(Compare(Equal, choice, SymYes), env) == FromBool(env.tri(choice) == YES);
  }

  /** The listed properties of m have become restricted, all others are as they were. */
  ghost predicate RestrictedAt(m: Menu, choice: Symbol, s: Symbol, own: seq<Property>, v: PropConds, v': PropConds) {
    forall p <- v.Keys + v'.Keys + (set p | p in own) :: Lookup(v', p) ==
      if p in own && p.at == m then RestrictedTo(choice, s, Lookup(v, p)) else Lookup(v, p)
  }

  lemma LinkedNumbered(props: Props, s: Symbol, m: Menu, choice: Symbol)
    requires Numbered(props)
    ensures Numbered(Linked(props, s, m, choice))
  {
  }

  lemma LinkedFacts(props: Props, s: Symbol, m: Menu, choice: Symbol, plan: Plan)
    requires Numbered(props) && m.sym == Some(s)
    ensures Numbered(Linked(props, s, m, choice))
    ensures forall u <- plan.own.Keys :: u != m ==> Mine(Linked(props, s, m, choice), u) == Mine(props, u)
  {
    LinkedNumbered(props, s, m, choice);
    hide Numbered;
    var own, link := OwnProps(props, s), Property(|OwnProps(props, s)|, ChoiceLink, false, m, Some(choice));
    forall u <- plan.own.Keys | u != m
      ensures Mine(Linked(props, s, m, choice), u) == Mine(props, u)
    {
      if u.sym == Some(s) {
        assert (own + [link])[..|own|] == own;
        assert AtMenu(own + [link], u) == AtMenu(own, u) + [];
      }
    }
  }

  /** Registering a node makes its conditions the limited ones. */
  lemma RegisteredDone(m: Menu, choice: Symbol, s: Symbol, v: PropConds, v': PropConds, was: Option<Expr>, k: Book, k': Book, plan: Plan)
    requires m.sym == Some(s) && m !in k.at && k'.at == k.at[m := choice]
    requires RestrictedAt(m, choice, s, OwnProps(k.props, s), v, v') && m.dep == RestrictedTo(choice, s, was)
    requires was == Limited(k, m, DepIn(plan.want, m)) && m in plan.own && Mine(k.props, m) == OwnOf(plan, m)
    requires forall p <- Spoken(v, plan, m) :: p.at == m ==> Lookup(v, p) == LimitedAt(k, plan, m, p)
    ensures NodeDone(m, v', k', plan)
  {
    hide RestrictedTo;
    AtMenuIn(OwnProps(k.props, s), m);
    forall p <- Spoken(v', plan, m) | p.at == m
      ensures Lookup(v', p) == LimitedAt(k', plan, m, p)
    {
      assert p in OwnOf(plan, m) <==> p in OwnProps(k.props, s);
      assert p in Spoken(v, plan, m) || Lookup(v, p) == None == Lookup(plan.want.visible, p);
    }
  }

  lemma RestrictedStep(m: Menu, choice: Symbol, s: Symbol, ps: seq<Property>, i: nat, v0: PropConds, v1: PropConds, v2: PropConds)
    requires i < |ps| && NoRepeats(ps) && RestrictedAt(m, choice, s, ps[..i], v0, v1)
    requires if ps[i].at == m then v2 == v1[ps[i] := RestrictedTo(choice, s, Lookup(v1, ps[i]))] else v2 == v1
    ensures RestrictedAt(m, choice, s, ps[..i + 1], v0, v2)
  {
    hide RestrictedTo;
    assert ps[..i + 1] == ps[..i] + [ps[i]] && ps[i] !in ps[..i];
    var more := ps[..i + 1];
    forall p <- v0.Keys + v2.Keys + (set p | p in more)
      ensures Lookup(v2, p) == if p in ps[..i + 1] && p.at == m then RestrictedTo(choice, s, Lookup(v0, p)) else Lookup(v0, p)
    {
      assert p !in v0.Keys + v1.Keys ==> Lookup(v0, p) == None && Lookup(v1, p) == None;
    }
  }

  lemma RestrictedNone(m: Menu, choice: Symbol, s: Symbol, own: seq<Property>, v: PropConds)
    ensures choice.Type() != Tri || s.Type() == Tri ==> RestrictedAt(m, choice, s, own, v, v)
  {
  }

  lemma RestrictedStart(m: Menu, choice: Symbol, s: Symbol, v: PropConds)
    ensures RestrictedAt(m, choice, s, [], v, v)
  {
  }

  lemma DoneParts(m: Menu, v: PropConds, k: Book, plan: Plan)
    requires NodeDone(m, v, k, plan)
    ensures m in plan.own && m.dep == Limited(k, m, DepIn(plan.want, m)) && (m !in k.at ==> Mine(k.props, m) == OwnOf(plan, m))
    ensures forall p <- Spoken(v, plan, m) :: p.at == m ==> Lookup(v, p) == LimitedAt(k, plan, m, p)
  {
  }

  lemma DoneAgain(m: Menu, v: PropConds, k: Book, plan: Plan)
    requires m in plan.own && m.dep == Limited(k, m, DepIn(plan.want, m)) && (m !in k.at ==> Mine(k.props, m) == OwnOf(plan, m))
    requires forall p <- Spoken(v, plan, m) :: p.at == m ==> Lookup(v, p) == LimitedAt(k, plan, m, p)
    ensures NodeDone(m, v, k, plan)
  {
  }

  lemma RegisteredElsewhere(choices: set<Symbol>, parent: Menu, m: Menu, k: Book, v: PropConds, v': PropConds, plan: Plan)
    requires Orderly(k) && NewMember(choices, k, parent, m)
    requires RestrictedAt(m, parent.sym.value, m.sym.value, OwnProps(k.props, m.sym.value), v, v')
    ensures Elsewhere({m}, plan, v, v', k, Register(choices, k, parent, m)) && m !in k.at
  {
    hide RestrictedTo, Linked, Mine, Numbered;
    LinkedFacts(k.props, m.sym.value, m, parent.sym.value, plan);
  }

  lemma RegisteredOrderly(choices: set<Symbol>, parent: Menu, m: Menu, k: Book)
    requires Orderly(k) && NewMember(choices, k, parent, m)
    ensures Orderly(Register(choices, k, parent, m))
  {
    hide Linked, Numbered;
    LinkedNumbered(k.props, m.sym.value, m, parent.sym.value);
  }

  /* ----- lists of trees cut in two ----- */

  /** A list of trees cut in two, up to the order of nodes. */
  ghost predicate Parts(a: Forest, b: Forest, whole: Forest) {
    && Preorder(a) + Preorder(b) == Preorder(whole)
    && Distinct(a) && Distinct(b) && Nodes(a) !! Nodes(b) && Nodes(a) + Nodes(b) == Nodes(whole)
    && Count(a) + Count(b) == Count(whole)
  }

  lemma PreorderParts(a: Forest, b: Forest, whole: Forest)
    requires Preorder(a) + Preorder(b) == Preorder(whole) && Distinct(whole)
    ensures Parts(a, b, whole)
  {
    AppendFacts(a, b);
    SamePreorder(Append(a, b), whole);
  }

  lemma ListStart(f: Forest)
    requires Distinct(f)
    ensures Parts(Nil, f, f) && Preorder(Nil) == [] && Nodes(Nil) == {}
    ensures forall h: Menu?, p: Menu? :: Segment(h, p, Nil, h)
  {
    assert [] + Preorder(f) == Preorder(f);
  }

  lemma PartsFacts(a: Forest, b: Forest, whole: Forest)
    requires Parts(a, b, whole)
    ensures Distinct(a) && Distinct(b) && Nodes(a) !! Nodes(b) && Nodes(a) + Nodes(b) == Nodes(whole)
    ensures Preorder(a) + Preorder(b) == Preorder(whole)
    ensures Count(a) + Count(b) == Count(whole)
  {
  }

  lemma SegmentIsList(h: Menu?, p: Menu?, f: Forest)
    requires Segment(h, p, f, null)
    ensures Represents(h, p, f)
  {
  }

  /** The trees done so far, with the first tree of h behind them. */
  ghost function WithTree(done: Forest, h: Forest): Forest
    requires h.Cons?
  {
    Append(done, Cons(h.m, h.kids, Nil))
  }

  lemma JoinSegment(h0: Menu?, p: Menu?, done: Forest, menu: Menu, h: Forest)
    requires Segment(h0, p, done, menu) && h.Cons? && h.m == menu
    requires menu.parent == p && Represents(menu.list, menu, h.kids)
    ensures Segment(h0, p, WithTree(done, h), menu.next)
  {
    SegmentOne(menu, p, h.kids);
    SegmentAppend(h0, p, done, menu, Cons(menu, h.kids, Nil), menu.next);
  }

  lemma WithTreeAppend(done: Forest, h: Forest, more: Forest)
    requires h.Cons?
    ensures Append(WithTree(done, h), more) == Append(done, Cons(h.m, h.kids, more))
  {
    AppendAssoc(done, Cons(h.m, h.kids, Nil), more);
  }

  lemma SplitSequence<T>(a: seq<T>, x: T, b: seq<T>, c: seq<T>)
    ensures (a + ([x] + b + [])) + c == a + ([x] + b + c)
    ensures a + ([x] + b + []) == a + ([x] + b)
  {
    assert [x] + b + [] == [x] + b;
  }

  lemma WithTreePreorder(done: Forest, h: Forest)
    requires h.Cons?
    ensures Preorder(WithTree(done, h)) == Preorder(done) + ([h.m] + Preorder(h.kids))
    ensures Preorder(WithTree(done, h)) + Preorder(h.rest) == Preorder(done) + Preorder(h)
    ensures Nodes(WithTree(done, h)) == Nodes(done) + ({h.m} + Nodes(h.kids))
    ensures LastOf(WithTree(done, h)) == h.m
  {
    AppendFacts(done, Cons(h.m, h.kids, Nil));
    SplitSequence(Preorder(done), h.m, Preorder(h.kids), Preorder(h.rest));
    LastAppend(done, h.m, h.kids);
  }

  /** One more tree is done. */
  lemma MoveOne(done: Forest, left: Forest, h: Forest, whole: Forest)
    requires Parts(done, left, whole) && Distinct(whole) && h.Cons? && Preorder(h) == Preorder(left)
    ensures Parts(WithTree(done, h), h.rest, whole) && Count(h.rest) < Count(left)
    ensures Preorder(WithTree(done, h)) == Preorder(done) + ([h.m] + Preorder(h.kids))
    ensures Nodes(WithTree(done, h)) == Nodes(done) + ({h.m} + Nodes(h.kids))
    ensures LastOf(WithTree(done, h)) == h.m
  {
    hide *;
    PartsFacts(done, left, whole);
    WithTreePreorder(done, h);
    PreorderParts(WithTree(done, h), h.rest, whole);
    SamePreorder(h, left);
    NodesOfCons(h);
  }

  lemma FlattenedStart(f: Forest)
    ensures Append(Nil, Flattened(f)) == Flattened(f)
  {
  }

  lemma FlattenedEnd(done: Forest, left: Forest)
    requires left == Nil
    ensures Append(done, Flattened(left)) == done
  {
    AppendNil(done);
  }

  /** Flattening one node keeps the order and shortens what is left. */
  lemma FlattenStep(done: Forest, left: Forest, h: Forest, whole: Forest)
    requires Parts(done, left, whole) && Distinct(whole) && left.Cons?
    requires if left.kids.Cons? && !Titled(left.m) then h == Cons(left.m, Nil, Append(left.kids, left.rest)) else h == left
    ensures Parts(WithTree(done, h), h.rest, whole) && Count(h.rest) < Count(left)
    ensures Append(WithTree(done, h), Flattened(h.rest)) == Append(done, Flattened(left))
  {
    FlattenOrder(left);
    WithTreeAppend(done, h, Flattened(h.rest));
    hide Parts, WithTree, Distinct, Append;
    MoveOne(done, left, h, whole);
  }

  lemma FlattenOrder(left: Forest)
    requires left.Cons?
    ensures Preorder(Cons(left.m, Nil, Append(left.kids, left.rest))) == Preorder(left)
  {
    AppendFacts(left.kids, left.rest);
    DropEmpty(left.m, Preorder(left.kids), Preorder(left.rest));
  }

  /* ----- what a call has done ----- */

  /** What finalisation keeps of conditions and dependencies, and the nodes finalised. */
  datatype State = State(visible: PropConds, book: Book, deps: Revs, finalized: multiset<Menu>)

  /** The nodes ns were finalised: they added their shares, and conditions changed only at
      nodes in s. */
  ghost predicate Did(plan: Plan, ns: seq<Menu>, s: set<Menu>, a: State, b: State) {
    && Orderly(b.book)
    && Elsewhere(s, plan, a.visible, b.visible, a.book, b.book)
    && Raises(TotalOf(plan, ns), a.deps, b.deps)
    && b.finalized == a.finalized + multiset(ns)
  }

  lemma DidNothing(plan: Plan, a: State)
    requires Orderly(a.book)
    ensures Did(plan, [], {}, a, a)
  {
    ElsewhereNone(plan, a.visible, a.book);
    RaisesNothing(plan, a.deps);
  }

  lemma DidMore(plan: Plan, ns: seq<Menu>, s: set<Menu>, ms: seq<Menu>, t: set<Menu>, a: State, b: State, c: State)
    requires Did(plan, ns, s, a, b) && Did(plan, ms, t, b, c)
    ensures Did(plan, ns + ms, s + t, a, c)
  {
    hide Orderly, Elsewhere, Raises;
    ElsewhereTrans(s, t, plan, a.visible, b.visible, c.visible, a.book, b.book, c.book);
    RaisesMore(plan, ns, ms, a.deps, b.deps, c.deps);
  }

  lemma DidWider(plan: Plan, ns: seq<Menu>, s: set<Menu>, t: set<Menu>, a: State, b: State)
    requires Did(plan, ns, s, a, b) && s <= t
    ensures Did(plan, ns, t, a, b) && Orderly(b.book)
  {
    hide Orderly, Elsewhere, Raises;
    ElsewhereMore(s, t, plan, a.visible, b.visible, a.book, b.book);
  }

  lemma DidElsewhere(plan: Plan, ns: seq<Menu>, s: set<Menu>, a: State, b: State)
    requires Did(plan, ns, s, a, b)
    ensures Elsewhere(s, plan, a.visible, b.visible, a.book, b.book) && Orderly(b.book)
  {
  }

  lemma ReadyShown(f: Forest, v: PropConds, p: Book, plan: Plan)
    requires f.Cons? && Ready(f, v, p, plan)
    ensures ShownIn(plan.want, f.m) == if f.m.title.Some? then Lookup(v, PromptOf(f.m)) else f.m.dep
  {
    ReadyPrompt(f, v, p, plan);
    assert NodeIs(f.m, v, plan.want);
  }

  lemma ReadyPrompt(f: Forest, v: PropConds, p: Book, plan: Plan)
    requires f.Cons? && Ready(f, v, p, plan)
    ensures f.m.dep == DepIn(plan.want, f.m)
    ensures PromptIn(plan.want, f.m) == if f.m.title.Some? then Lookup(v, PromptOf(f.m)) else None
  {
    assert NodeIs(f.m, v, plan.want);
    if f.m.title.Some? {
      var q := PromptOf(f.m);
      assert q in v.Keys + plan.want.visible.Keys || (q !in v && q !in plan.want.visible);
    }
  }

  /* ----- the scan ----- */

  /** moved and what will be absorbed from left is what is absorbed from f. */
  ghost predicate ScanSplit(w: Conds, under: Menu, f: Forest, moved: Forest, left: Forest)
    requires under.sym.Some?
  {
    var (more, rest) := Absorbed(w, under, left);
    Absorbed(w, under, f) == (Append(moved, more), rest)
  }

  lemma ScanStart(w: Conds, under: Menu, f: Forest)
    requires under.sym.Some?
    ensures ScanSplit(w, under, f, Nil, f) && LastOf(Nil) == null && Nodes(Nil) == {} && Preorder(Nil) == []
  {
  }

  lemma ScanNext(w: Conds, under: Menu, f: Forest, moved: Forest, left: Forest)
    requires under.sym.Some? && left.Cons? && ScanSplit(w, under, f, moved, left)
    ensures if Belongs(under.sym.value, PromptIn(w, under), ShownIn(w, left.m)) then
              ScanSplit(w, under, f, WithTree(moved, Finish(w, left)), Finish(w, left).rest)
            else (moved, left) == Absorbed(w, under, f)
  {
    hide Belongs, Finish;
    if Belongs(under.sym.value, PromptIn(w, under), ShownIn(w, left.m)) {
      var h := Finish(w, left);
      WithTreeAppend(moved, h, Absorbed(w, under, h.rest).0);
    } else {
      AppendNil(moved);
    }
  }

  lemma ScanEnd(w: Conds, under: Menu, f: Forest, moved: Forest, left: Forest)
    requires under.sym.Some? && ScanSplit(w, under, f, moved, left)
    ensures left == Nil ==> (moved, left) == Absorbed(w, under, f)
  {
    AppendNil(moved);
  }

  lemma LastOfNil(f: Forest)
    ensures LastOf(f) == null <==> f == Nil
    ensures f.Cons? ==> LastOf(f) in Nodes(f)
  {
    if f.Cons? {
      LastIn(f);
    }
  }

  lemma NothingMoved(parent: Menu, moved: Forest, menu: Menu?)
    requires Segment(parent.next, parent, moved, menu)
    ensures moved == Nil ==> parent.next == menu && Represents(null, parent, moved)
  {
  }

  lemma NoKidsAtAll(parent: Menu, kids: Forest)
    requires Represents(parent.list, parent, kids) && parent.list == null
    ensures kids == Nil
  {
  }

  lemma ListEnd(done: Forest, whole: Forest)
    requires Parts(done, Nil, whole)
    ensures Preorder(done) == Preorder(whole) && Nodes(done) == Nodes(whole)
  {
    assert Preorder(done) + [] == Preorder(done);
  }

  lemma RootsNil(f: Forest)
    ensures f == Nil ==> Roots(f) == []
  {
  }

  lemma FinishListStart(w: Conds, f: Forest)
    ensures Append(Nil, FinishList(w, f)) == FinishList(w, f)
  {
  }

  lemma FinishListStep(w: Conds, done: Forest, left: Forest)
    requires left.Cons?
    ensures var h := Finish(w, left); Append(WithTree(done, h), FinishList(w, h.rest)) == Append(done, FinishList(w, left))
  {
    hide Finish;
    var h := Finish(w, left);
    WithTreeAppend(done, h, FinishList(w, h.rest));
  }

  lemma FinishListEnd(w: Conds, done: Forest, left: Forest)
    ensures left == Nil ==> Append(done, FinishList(w, left)) == done
  {
    AppendNil(done);
  }

  lemma TakenAs(w: Conds, f: Forest)
    requires f.Cons? && f.kids == Nil
    ensures Taken(w, f) == if f.m.sym.Some? then Absorbed(w, f.m, f.rest) else (Nil, f.rest)
  {
  }

  lemma FinishAs(w: Conds, f: Forest, kids: Forest, rest: Forest)
    requires f.Cons? && (kids, rest) == if f.kids.Cons? then (FinishList(w, f.kids), f.rest) else Taken(w, f)
    ensures Finish(w, f) == Cons(f.m, Flattened(kids), rest)
  {
  }

  lemma DidParts(plan: Plan, ns: seq<Menu>, s: set<Menu>, a: State, b: State)
    requires Did(plan, ns, s, a, b)
    ensures Elsewhere(s, plan, a.visible, b.visible, a.book, b.book) && Orderly(b.book)
    ensures Raises(TotalOf(plan, ns), a.deps, b.deps) && b.finalized == a.finalized + multiset(ns)
  {
  }

  lemma DidAll(plan: Plan, m: Menu, ns: seq<Menu>, s: set<Menu>, a: State, b: State)
    requires Orderly(b.book) && Elsewhere(s, plan, a.visible, b.visible, a.book, b.book)
    requires Raises(TotalOf(plan, [m] + ns), a.deps, b.deps) && b.finalized == a.finalized + multiset{m} + multiset(ns)
    ensures Did(plan, [m] + ns, s, a, b)
  {
  }

  lemma NodeDep(m: Menu, v: PropConds, k: Book, plan: Plan)
    requires Inherited(m, v, k, plan)
    ensures m.dep == DepIn(plan.want, m)
  {
  }

  lemma NodePrompt(m: Menu, v: PropConds, k: Book, plan: Plan)
    requires Inherited(m, v, k, plan)
    ensures m.title.Some? ==> Lookup(v, PromptOf(m)) == PromptIn(plan.want, m)
  {
    if m.title.Some? {
      var q := PromptOf(m);
      assert q in v.Keys + plan.want.visible.Keys || (q !in v && q !in plan.want.visible);
    }
  }

  lemma ReadyPassedOn(f: Forest, v: PropConds, p: Book, plan: Plan)
    requires f.Cons? && Ready(f, v, p, plan)
    ensures PassedOn(plan, f.m) ==
      if f.m.sym.Some? && f.m.sym.value in plan.choices then Some(Sym(f.m.sym.value))
      else if f.m.title.Some? then Lookup(v, PromptOf(f.m))
      else f.m.dep
  {
    ReadyPrompt(f, v, p, plan);
  }

  /* ----- shares of one node ----- */

  /** The shares of a node's children and of its condition, with those of other nodes. */
  ghost function PartShareOf(plan: Plan, m: Menu, ns: seq<Menu>): Share {
    Both(Both(KidsShareOf(plan, KidsOf(plan, m)), TotalOf(plan, ns)), DirShareOf(plan, m))
  }

  lemma NoDirRaises(plan: Plan, m: Menu, r: Revs)
    requires KidsOf(plan, m) != [] || m.sym.None?
    ensures Raises(DirShareOf(plan, m), r, r)
  {
  }

  lemma ParentRaises(plan: Plan, m: Menu, kids: Forest, ns: seq<Menu>, was: Revs, now: Revs)
    requires kids.Cons? && KidsOf(plan, m) == Roots(kids)
    requires Raises(Both(KidsShareOf(plan, Roots(kids)), TotalOf(plan, ns)), was, now)
    ensures Raises(PartShareOf(plan, m, ns), was, now)
  {
    hide Raises;
    NoDirRaises(plan, m, now);
    RaisesTrans(Both(KidsShareOf(plan, Roots(kids)), TotalOf(plan, ns)), DirShareOf(plan, m), was, now, now);
  }

  lemma LeafRaises(plan: Plan, m: Menu, s: Symbol, ns: seq<Menu>, r0: Revs, r1: Revs, r2: Revs)
    requires m.sym == Some(s) && KidsOf(plan, m) == [] && Raises(TotalOf(plan, ns), r0, r1)
    requires r2 == r1.(dirDep := r1.dirDep[s := AllocOr(Lookup(r1.dirDep, s), DepIn(plan.want, m))])
    ensures Raises(PartShareOf(plan, m, ns), r0, r2)
  {
    hide KidsShareOf, TotalOf;
    KidsRaiseNothing(plan, r0);
    RaisesTrans(KidsShareOf(plan, []), TotalOf(plan, ns), r0, r0, r1);
    DirRaises(plan, m, s, r1, r2);
    RaisesTrans(Both(KidsShareOf(plan, []), TotalOf(plan, ns)), DirShareOf(plan, m), r0, r1, r2);
  }

  lemma DirRaises(plan: Plan, m: Menu, s: Symbol, was: Revs, now: Revs)
    requires m.sym == Some(s) && KidsOf(plan, m) == []
    requires now == was.(dirDep := was.dirDep[s := AllocOr(Lookup(was.dirDep, s), DepIn(plan.want, m))])
    ensures Raises(DirShareOf(plan, m), was, now)
  {
    forall env: Env
      ensures EvalRev(AllocOr(Lookup(was.dirDep, s), DepIn(plan.want, m)), env)
           == Max(EvalRev(Lookup(was.dirDep, s), env), EvalRev(DepIn(plan.want, m), env))
    {
      AllocOrValue(Lookup(was.dirDep, s), DepIn(plan.want, m), env);
    }
  }

  lemma AllocOrValue(a: Option<Expr>, b: Option<Expr>, env: Env)
    ensures EvalRev(AllocOr(a, b), env) == Max(EvalRev(a, env), EvalRev(b, env))
  {
  }

  lemma NothingGathered(plan: Plan, m: Menu, f: Forest, v: PropConds, p: Book, r: Revs)
    requires f.Cons? && f.m == m && f.kids == Nil && m.sym.None? && KidsOf(plan, m) == []
    ensures Finished(Nodes(Nil), v, p, plan) && Elsewhere(Nodes(Nil), plan, v, v, p, p) && Preorder(Nil) == []
    ensures Raises(PartShareOf(plan, m, Preorder(Nil)), r, r) && Cons(m, Nil, f.rest) == f
  {
    KidsRaiseNothing(plan, r);
    RaisesNothing(plan, r);
    NoDirRaises(plan, m, r);
    RaisesTrans(KidsShareOf(plan, []), TotalOf(plan, []), r, r, r);
    RaisesTrans(Both(KidsShareOf(plan, []), TotalOf(plan, [])), DirShareOf(plan, m), r, r, r);
  }

  lemma ModeRaises(plan: Plan, m: Menu, s: Symbol, was: Revs, now: Revs)
    requires m.sym == Some(s) && s !in plan.optional && m.title.Some?
    requires now == was.(revDep := was.revDep[s := AllocOr(Lookup(was.revDep, s), AllocAnd(PromptIn(plan.want, m), Some(Sym(SymMod))))])
    ensures Raises(ModeShareOf(plan, m), was, now)
  {
    var shown := PromptIn(plan.want, m);
    forall env: Env | ConstantsFixed(env)
      ensures EvalRev(AllocOr(Lookup(was.revDep, s), AllocAnd(shown, Some(Sym(SymMod)))), env)
           == Max(EvalRev(Lookup(was.revDep, s), env), Min(EvalOpt(shown, env), MOD))
    {
      AllocOrValue(Lookup(was.revDep, s), AllocAnd(shown, Some(Sym(SymMod))), env);
      AllocAndFacts(shown, Some(Sym(SymMod)), env);
      assert Eval(Sym(SymMod), env) == MOD;
    }
  }

  lemma NoModeRaises(plan: Plan, m: Menu, optional: set<Symbol>, r: Revs)
    requires optional == plan.optional && !(m.sym.Some? && m.sym.value !in optional && m.title.Some?)
    ensures Raises(ModeShareOf(plan, m), r, r)
  {
  }

  lemma WholeNodeRaises(plan: Plan, m: Menu, ns: seq<Menu>, r0: Revs, r1: Revs, r2: Revs)
    requires Raises(PartShareOf(plan, m, ns), r0, r1) && Raises(ModeShareOf(plan, m), r1, r2)
    ensures Raises(TotalOf(plan, [m] + ns), r0, r2)
  {
    RaisesTrans(PartShareOf(plan, m, ns), ModeShareOf(plan, m), r0, r1, r2);
    forall which: Which, s: Symbol, env: Env | ConstantsFixed(env)
      ensures Both(PartShareOf(plan, m, ns), ModeShareOf(plan, m))(which, s, env) == TotalOf(plan, [m] + ns)(which, s, env)
    {
      NodeAndOthers(plan, m, ns, which, s, env);
    }
    RaisesSame(Both(PartShareOf(plan, m, ns), ModeShareOf(plan, m)), TotalOf(plan, [m] + ns), r0, r2);
  }

  /** What was gathered makes up the finalised node once it is flattened. */
  lemma {:induction false} Gathered(w: Conds, f: Forest, kids: Forest, rest: Forest)
    requires f.Cons? && Distinct(f)
    requires (kids, rest) == if f.kids.Cons? then (FinishList(w, f.kids), f.rest) else Taken(w, f)
    ensures var g := Finish(w, f);
      && g == Cons(f.m, Flattened(kids), rest) && Preorder(g.kids) == Preorder(kids) && Nodes(g.kids) == Nodes(kids)
      && Distinct(Cons(f.m, kids, rest))
      && Nodes(f) == {f.m} + Nodes(kids) + Nodes(rest)
  {
    hide *;
    FinishAs(w, f, kids, rest);
    FinishOrder(w, f);
    FlattenedOrder(kids);
    SameWithin(f.m, Flattened(kids), kids, rest);
    SamePreorder(Cons(f.m, Flattened(kids), rest), f);
    SamePreorder(Cons(f.m, kids, rest), f);
    SamePreorder(Flattened(kids), kids);
    HeadApart(Cons(f.m, kids, rest));
  }

  lemma SameWithin(m: Menu, a: Forest, b: Forest, rest: Forest)
    requires Preorder(a) == Preorder(b)
    ensures Preorder(Cons(m, a, rest)) == Preorder(Cons(m, b, rest))
  {
  }

  /* ----- the plan for a parsed tree ----- */

  ghost function KidsMap(f: Forest): (k: map<Menu, seq<Menu>>)
    ensures k.Keys == Nodes(f)
  {
    if f == Nil then map[] else KidsMap(f.kids) + KidsMap(f.rest) + map[f.m := Roots(f.kids)]
  }

  ghost predicate OwnAsParsed(f: Forest, plan: Plan, props: Props) {
    forall m <- Nodes(f) :: OwnOf(plan, m) == Mine(props, m)
  }

  /** The plan starts from the conditions and properties as they are. */
  ghost predicate AsParsed(f: Forest, v: PropConds, book: Book, plan: Plan)
    reads Nodes(f)`dep
  {
    && plan.init.visible == v && book.at == map[]
    && forall m <- Nodes(f) :: m in plan.own && DepIn(plan.init, m) == m.dep && OwnOf(plan, m) == Mine(book.props, m)
  }

  /** The map tells the children of every node. */
  lemma {:induction false} KidsMapKnown(f: Forest, plan: Plan)
    requires Distinct(f) && (forall m <- Nodes(f) :: KidsMap(f)[m] == KidsOf(plan, m) && m in plan.own && forall p <- OwnOf(plan, m) :: p.at == m)
    ensures KidsKnown(plan, f)
  {
    if f.Cons? {
      KidsMapBelow(f);
      hide KidsMap, OwnOf, KidsOf;
      KidsMapKnown(f.kids, plan);
      KidsMapKnown(f.rest, plan);
    }
  }

  lemma KidsMapBelow(f: Forest)
    requires Distinct(f) && f.Cons?
    ensures Nodes(f) == {f.m} + Nodes(f.kids) + Nodes(f.rest) && KidsMap(f)[f.m] == Roots(f.kids)
    ensures forall m <- Nodes(f.kids) :: KidsMap(f)[m] == KidsMap(f.kids)[m]
    ensures forall m <- Nodes(f.rest) :: KidsMap(f)[m] == KidsMap(f.rest)[m]
  {
  }

  /** The plan wants at m what there was. */
  ghost predicate SameAt(plan: Plan, m: Menu) {
    && DepIn(plan.want, m) == DepIn(plan.init, m)
    && forall p <- plan.init.visible.Keys + plan.want.visible.Keys :: p.at == m ==> Lookup(plan.want.visible, p) == Lookup(plan.init.visible, p)
  }

  lemma PlanSpread(plan0: Plan, root: Menu, f: Forest)
    requires Distinct(Cons(root, f, Nil)) && plan0.want == plan0.init && plan0.kids == KidsMap(Cons(root, f, Nil))
    requires forall m <- Nodes(Cons(root, f, Nil)) :: m in plan0.own && forall p <- OwnOf(plan0, m) :: p.at == m
    ensures var plan := Spread(plan0, PassedOn(plan0, root), f);
      && Planned(plan, Cons(root, f, Nil)) && SameAt(plan, root) && plan == plan0.(want := plan.want)
  {
    var all := Cons(root, f, Nil);
    KidsMapKnown(all, plan0);
    hide AllInherit, NodeInherits, KidsMap, Spread;
    SpreadPlanned(plan0, PassedOn(plan0, root), f);
    SpreadElsewhere(plan0, PassedOn(plan0, root), f);
    var plan := Spread(plan0, PassedOn(plan0, root), f);
    NodeStill(Nodes(f), plan0, plan, None, root);
    SameDep(Nodes(f), plan0, plan, root);
    forall p <- plan.init.visible.Keys + plan.want.visible.Keys | p.at == root
      ensures Lookup(plan.want.visible, p) == Lookup(plan.init.visible, p)
    {
      SameCond(Nodes(f), plan0, plan, p);
    }
  }

  lemma PlanReady(plan0: Plan, plan: Plan, root: Menu, f: Forest, v: PropConds, book: Book)
    requires Distinct(Cons(root, f, Nil)) && plan == plan0.(want := plan.want)
    requires Planned(plan, Cons(root, f, Nil)) && SameAt(plan, root)
    requires AsParsed(Cons(root, f, Nil), v, book, plan)
    ensures Ready(Cons(root, f, Nil), v, book, plan)
  {
    hide Planned, Mine;
    var all := Cons(root, f, Nil);
    TopAndBelow(all);
    assert TopLevel(all) == {root};
  }

  lemma WholeTree(w: Conds, root: Menu, f: Forest)
    requires Distinct(Cons(root, f, Nil))
    ensures var g := Finish(w, Cons(root, f, Nil));
      g == Cons(root, g.kids, Nil) && Preorder(g.kids) == Preorder(f) && AllFlat(g.kids) && Distinct(g)
  {
    var all := Cons(root, f, Nil);
    var g := Finish(w, all);
    hide Finish, Distinct;
    FinishSuffix(w, all);
    FinishOrder(w, all);
    FinishFlat(w, all);
    SamePreorder(g, all);
    assert Preorder(g)[1..] == Preorder(g.kids) && Preorder(all)[1..] == Preorder(f);
  }

  lemma EachOnce(root: Menu, g: Forest, all: multiset<Menu>)
    requires Distinct(Cons(root, g, Nil)) && all == multiset{} + multiset([root] + Preorder(g))
    ensures all == multiset([root] + Preorder(g)) && forall m <- [root] + Preorder(g) :: all[m] == 1
  {
    DistinctOnce(g);
    PreorderNodes(g);
    assert all == multiset{root} + multiset(Preorder(g));
  }

  class Finalizer {
    const rw: Rewriter
    const modules: Symbol
    const choices: set<Symbol>
    const optional: set<Symbol>
    var book: Book
    var visible: PropConds
    var revDep: Reverse
    var implied: Reverse
    var dirDep: Reverse
    /** The nodes finalised so far, with repetition. */
    ghost var finalized: multiset<Menu>

    constructor (rw: Rewriter, modules: Symbol, choices: set<Symbol>, optional: set<Symbol>, props: Props, visible: PropConds)
      ensures this.rw == rw && this.modules == modules && this.choices == choices && this.optional == optional
      ensures book == Book(props, {}, map[], map[]) && this.visible == visible
      ensures revDep == map[] && implied == map[] && dirDep == map[]
      ensures finalized == multiset{}
    {
      this.rw, this.modules, this.choices, this.optional := rw, modules, choices, optional;
      book, this.visible := Book(props, {}, map[], map[]), visible;
      revDep, implied, dirDep := map[], map[], map[];
      finalized := multiset{};
    }

    ghost function Deps(): Revs
      reads this`revDep, this`implied, this`dirDep
    {
      Revs(revDep, implied, dirDep)
    }

    ghost predicate Follows(plan: Plan) {
      modules == plan.modules && choices == plan.choices && optional == plan.optional
    }

    /* ----- propagation ----- */

    /** Gives a child its final condition and passes it on to the child's properties,
        and through selects and implies to other symbols. */
    method PropagateTo(menu: Menu, parentdep: Option<Expr>)
      requires Orderly(book)
      modifies this`visible, this`revDep, this`implied, rw, menu`dep
      ensures menu.dep == Inherit(parentdep, old(menu.dep), modules)
      ensures PropagatedAt(menu, menu.dep, PropsIn(book.props, menu), old(visible), visible, modules)
      ensures forall p <- PropsIn(book.props, menu) :: p.at == menu ==> p in visible
      ensures menu.sym.Some? ==>
        && Pulled(Select, menu, PropsIn(book.props, menu), visible, old(revDep), revDep)
        && Pulled(Imply, menu, PropsIn(book.props, menu), visible, old(implied), implied)
      ensures menu.sym.None? ==> revDep == old(revDep) && implied == old(implied)
    {
      hide PropagatedAt, SameExcept, Pulled, PulledBy, Inherit, PropertyCond;
      menu.dep := Propagate(rw, parentdep, menu.dep, modules);
      ghost var dep := menu.dep;
      var ps := PropsIn(book.props, menu);
      NumberedNoRepeats(book.props, menu);
      var i := 0;
      PropagatedNone(menu, dep, visible, revDep, implied, modules);
      assert ps[..0] == [];
      while i < |ps|
        invariant i <= |ps| && menu.dep == dep
        invariant PropagatedAt(menu, dep, ps[..i], old(visible), visible, modules)
        invariant forall p <- ps[..i] :: p.at == menu ==> p in visible
        invariant menu.sym.Some? ==>
          && Pulled(Select, menu, ps[..i], visible, old(revDep), revDep)
          && Pulled(Imply, menu, ps[..i], visible, old(implied), implied)
        invariant menu.sym.None? ==> revDep == old(revDep) && implied == old(implied)
      {
        ghost var v, rev, imp := visible, revDep, implied;
        if ps[i].at == menu {
          PropagateProperty(menu, ps[i]);
          SetOne(ps[i], v, visible);
        } else {
          SkipOne(menu, ps[i], visible, revDep, implied);
        }
        PropagatedStep(menu, dep, ps, i, old(visible), v, visible, modules);
        if menu.sym.Some? {
          PulledStep(Select, menu, ps, i, v, visible, old(revDep), rev, revDep);
          PulledStep(Imply, menu, ps, i, v, visible, old(implied), imp, implied);
        }
        i := i + 1;
      }
      assert ps[..i] == ps;
    }

    method PropagateProperty(menu: Menu, p: Property)
      requires p.at == menu
      modifies this`visible, this`revDep, this`implied, rw
      ensures visible == old(visible)[p := PropertyCond(menu.dep, Lookup(old(visible), p), modules, Binary(menu))]
      ensures menu.sym.Some? ==>
        && PulledBy(Select, menu, p, visible, old(revDep), revDep)
        && PulledBy(Imply, menu, p, visible, old(implied), implied)
      ensures menu.sym.None? ==> revDep == old(revDep) && implied == old(implied)
    {
      hide Inherit, TransBool;
      var dep := Propagate(rw, menu.dep, Lookup(visible, p), modules);
      if menu.sym.Some? && menu.sym.value.Type() != Tri && dep.Some? {
        var t := new Tree(dep.value);
        TransBoolAt(t, []);
        dep := Some(t.root);
      }
      assert dep == PropertyCond(menu.dep, Lookup(visible, p), modules, Binary(menu));
      hide PropertyCond;
      visible := visible[p := dep];
      if p.target.Some? && menu.sym.Some? {
        var es := p.target.value;
        AddRev(Lookup(revDep, es), menu.sym.value, dep);
        AddRev(Lookup(implied, es), menu.sym.value, dep);
        if p.kind == Select {
          revDep := revDep[es := AllocOr(Lookup(revDep, es), AllocAnd(Some(Sym(menu.sym.value)), dep))];
        } else if p.kind == Imply {
          implied := implied[es := AllocOr(Lookup(implied, es), AllocAnd(Some(Sym(menu.sym.value)), dep))];
        }
      }
    }

    /** The same for one of several children, of which some have inherited already. */
    method PassOne(menu: Menu, parentdep: Option<Expr>, ghost ms: set<Menu>, ghost done: set<Menu>, ghost plan: Plan)
      requires menu in ms && menu !in done && NodeInherits(plan, parentdep, menu) && Passing(ms, done, visible, book, plan)
      requires Follows(plan) && Orderly(book)
      modifies this`visible, this`revDep, this`implied, rw, menu`dep
      ensures Passing(ms, done + {menu}, visible, book, plan)
      ensures Elsewhere({menu}, plan, old(visible), visible, book, book)
      ensures Raises(KidsShareOf(plan, [menu]), old(Deps()), Deps())
    {
      hide NodeIs, NodeInherits, PropagatedAt, Pulled, Inherit, PropertyCond, Mine, PropsIn, Numbered, Raises, KidsShareOf, SameConds;
      ghost var v, r, others, was := visible, Deps(), ms - {menu}, menu.dep;
      assert allocated(others);
      NodeIsParts(menu, v, plan.init);
      assert Passing(others, done, v, book, plan);
      WantedDep(plan, parentdep, menu);
      PropagateTo(menu, parentdep);
      AtMenuIn(PropsIn(book.props, menu), menu);
      MineAtMenu(book.props, menu);
      PropagatedOwn(menu, menu.dep, PropsIn(book.props, menu), OwnOf(plan, menu), v, visible, modules);
      PropagatedIs(menu, v, visible, plan, parentdep);
      PropagatedElsewhere(menu, menu.dep, OwnOf(plan, menu), v, visible, modules);
      PassingStep(ms, done, menu, v, visible, book, plan);
      OneKidRaises(plan, menu, book.props, visible, r, Deps());
    }

    /** Passes the parent's condition on to every child. */
    method PropagateAll(parent: Menu, parentdep: Option<Expr>, ghost kids: Forest, ghost plan: Plan)
      requires Represents(parent.list, parent, kids) && parent !in Nodes(kids) && Distinct(kids)
      requires Follows(plan) && Orderly(book)
      requires AllInherit(plan, parentdep, kids) && Planned(plan, kids) && Passing(Nodes(kids), {}, visible, book, plan)
      modifies this`visible, this`revDep, this`implied, rw, Nodes(kids)`dep
      ensures Represents(parent.list, parent, kids)
      ensures Ready(kids, visible, book, plan)
      ensures Elsewhere(Nodes(kids), plan, old(visible), visible, book, book)
      ensures Raises(KidsShareOf(plan, Roots(kids)), old(Deps()), Deps())
    {
      hide *;
      assert allocated(Nodes(kids));
      TopAndBelow(kids);
      ghost var v0, r0 := visible, Deps();
      ghost var done: set<Menu>, roots: seq<Menu> := {}, [];
      ElsewhereNone(plan, visible, book);
      KidsRaiseNothing(plan, r0);
      SuffixSelf(kids);
      var menu := parent.list;
      ghost var left := kids;
      assert roots + Roots(left) == Roots(kids);
      while menu != null
        invariant Represents(menu, parent, left) && Represents(parent.list, parent, kids)
        invariant SuffixOf(left, kids) && AllInherit(plan, parentdep, left)
        invariant done + TopLevel(left) == TopLevel(kids) && done !! TopLevel(left)
        invariant roots + Roots(left) == Roots(kids)
        invariant Passing(Nodes(kids), done, visible, book, plan)
        invariant Elsewhere(done, plan, v0, visible, book, book)
        invariant Raises(KidsShareOf(plan, roots), r0, Deps())
        decreases Count(left)
      {
        RepresentsHead(menu, parent, left);
        RepresentsParts(menu, parent, left);
        SuffixNodes(left, kids);
        NodesOfCons(left);
        TopLevelCons(left);
        InheritHead(plan, parentdep, left);
        SuffixStep(left, kids);
        ghost var v1, r1 := visible, Deps();
        PassOne(menu, parentdep, Nodes(kids), done, plan);
        ElsewhereTrans(done, {menu}, plan, v0, v1, visible, book, book, book);
        KidsRaiseMore(plan, roots, menu, r0, r1, Deps());
        RootsStep(roots, left);
        done, roots := done + {menu}, roots + [menu];
        left := left.rest;
        menu := menu.next;
      }
      RepresentsHead(menu, parent, left);
      TopLevelNil(left);
      assert done == TopLevel(kids) && roots == Roots(kids);
      PassedReady(kids, visible, book, plan);
      ElsewhereMore(done, Nodes(kids), plan, v0, visible, book, book);
    }

    /* ----- choices ----- */

    /** Makes a symbol inside a choice one of its values. */
    method RegisterChoiceValue(parent: Menu, menu: Menu)
      requires Orderly(book)
      modifies this`visible, this`book, menu`dep
      ensures book == Register(choices, old(book), parent, menu)
      ensures !NewMember(choices, old(book), parent, menu) ==> visible == old(visible) && menu.dep == old(menu.dep)
      ensures NewMember(choices, old(book), parent, menu) ==>
        var choice, s := parent.sym.value, menu.sym.value;
        && menu.dep == RestrictedTo(choice, s, old(menu.dep))
        && RestrictedAt(menu, choice, s, OwnProps(old(book).props, s), old(visible), visible)
    {
      hide RestrictedAt, NoRepeats, Linked, Numbered;
      if parent.sym.None? || parent.sym.value !in choices || menu.sym.None? || menu.sym.value in book.vals {
        return;
      }
      var choice, s := parent.sym.value, menu.sym.value;
      var own := OwnProps(book.props, s);
      NumberedNoRepeats(book.props, menu);
      RestrictedNone(menu, choice, s, own, visible);
      if choice.Type() == Tri && s.Type() != Tri {
        menu.dep := AllocAnd(Some(Compare(Equal, choice, SymYes)), menu.dep);
        RestrictProps(choice, s, menu, own);
      }
      book := Book(Linked(book.props, s, menu, choice), book.vals + {s},
                   book.members[choice := MembersOf(book.members, choice) + [s]], book.at[menu := choice]);
    }

    method RestrictProps(choice: Symbol, s: Symbol, menu: Menu, own: seq<Property>)
      requires choice.Type() == Tri && s.Type() != Tri && NoRepeats(own)
      modifies this`visible
      ensures RestrictedAt(menu, choice, s, own, old(visible), visible)
    {
      hide RestrictedAt, NoRepeats;
      ghost var was := visible;
      var i := 0;
      assert own[..0] == [];
      RestrictedStart(menu, choice, s, visible);
      while i < |own|
        invariant i <= |own| && RestrictedAt(menu, choice, s, own[..i], was, visible)
      {
        ghost var v := visible;
        if own[i].at == menu {
          visible := visible[own[i] := AllocAnd(Some(Compare(Equal, choice, SymYes)), Lookup(visible, own[i]))];
        }
        RestrictedStep(menu, choice, s, own, i, was, v, visible);
        i := i + 1;
      }
      assert own[..i] == own;
    }

    /** The same, seen from the plan: the node is limited to the choice. */
    method RegisterOne(parent: Menu, menu: Menu, ghost ms: set<Menu>, ghost plan: Plan)
      requires Orderly(book) && menu in ms && Finished(ms, visible, book, plan)
      modifies this`visible, this`book, menu`dep
      ensures Orderly(book) && Finished(ms, visible, book, plan)
      ensures book == Register(choices, old(book), parent, menu)
      ensures Elsewhere({menu}, plan, old(visible), visible, old(book), book)
    {
      hide NodeDone, Orderly, RestrictedAt, Mine, RestrictedTo, Elsewhere, Register, NewMember, Limited, LimitedAt, Spoken;
      ghost var v, k, others, was := visible, book, ms - {menu}, menu.dep;
      assert allocated(others);
      assert NodeDone(menu, v, k, plan) && Finished(others, v, k, plan);
      DoneParts(menu, v, k, plan);
      NewMemberIs(choices, k, parent, menu);
      RegisterChoiceValue(parent, menu);
      if NewMember(choices, k, parent, menu) {
        ghost var choice, s := parent.sym.value, menu.sym.value;
        RegisteredOrderly(choices, parent, menu, k);
        RegisteredElsewhere(choices, parent, menu, k, v, visible, plan);
        RegisteredDone(menu, choice, s, v, visible, was, k, book, plan);
        FinishedStill(others, {menu}, plan, v, visible, k, book);
        assert ms == others + {menu};
      } else {
        DoneAgain(menu, v, k, plan);
        ElsewhereNone(plan, v, k);
        ElsewhereMore({}, {menu}, plan, v, v, k, k);
        assert ms == others + {menu};
      }
    }

    /* ----- the recursion ----- */

    /** Gives the children of promptless nodes in a list back to the list. */
    method Flatten(parent: Menu, ghost kids: Forest, ghost plan: Plan) returns (ghost kids': Forest)
      requires Represents(parent.list, parent, kids) && Distinct(kids) && parent !in Nodes(kids)
      requires Orderly(book) && Finished(Nodes(kids), visible, book, plan)
      modifies this`visible, this`book, Nodes(kids)
      ensures Represents(parent.list, parent, kids') && kids' == Flattened(kids)
      ensures book == RegisterAll(choices, old(book), parent, Roots(Flattened(kids)))
      ensures Orderly(book) && Finished(Nodes(kids), visible, book, plan)
      ensures Elsewhere(Nodes(kids), plan, old(visible), visible, old(book), book)
    {
      hide *;
      assert allocated(Nodes(kids));
      ghost var v0, p0, ms := visible, book, Nodes(kids);
      ElsewhereNone(plan, v0, p0);
      ElsewhereMore({}, ms, plan, v0, v0, p0, p0);
      ListStart(kids);
      FlattenedStart(kids);
      var menu := parent.list;
      ghost var done, left := Nil, kids;
      while menu != null
        invariant Represents(menu, parent, left) && Segment(parent.list, parent, done, menu)
        invariant Parts(done, left, kids) && Append(done, Flattened(left)) == Flattened(kids)
        invariant Orderly(book) && Finished(ms, visible, book, plan) && Elsewhere(ms, plan, v0, visible, p0, book)
        invariant RegisterAll(choices, book, parent, Roots(Flattened(left))) == RegisterAll(choices, p0, parent, Roots(Flattened(kids)))
        decreases Count(left)
      {
        PartsFacts(done, left, kids);
        RepresentsHead(menu, parent, left);
        RepresentsParts(menu, parent, left);
        NodesOfCons(left);
        assert allocated(Nodes(done)) && allocated(Nodes(left)) && allocated(ms);
        ghost var v1, p1 := visible, book;
        RegisterOne(parent, menu, ms, plan);
        ElsewhereTrans(ms, {menu}, plan, v0, v1, visible, p0, p1, book);
        ElsewhereMore(ms + {menu}, ms, plan, v0, visible, p0, book);
        ghost var h := left;
        if menu.list != null && !Titled(menu) {
          Splice(menu, parent, left);
          h := Cons(menu, Nil, Append(left.kids, left.rest));
        }
        FlattenStep(done, left, h, kids);
        RegisterFirst(choices, p1, parent, left, h);
        RepresentsParts(menu, parent, h);
        JoinSegment(parent.list, parent, done, menu, h);
        done, left := WithTree(done, h), h.rest;
        menu := menu.next;
      }
      RepresentsHead(menu, parent, left);
      kids' := done;
      FlattenedEnd(done, left);
      RegisterNone(choices, book, parent, left);
      SegmentIsList(parent.list, parent, done);
    }

    /** The condition of a node's prompt, or of the node when it has none. */
    function Shown(menu: Menu): Option<Expr>
      reads this`visible, menu`dep
    {
      if menu.title.Some? then Lookup(visible, PromptOf(menu)) else menu.dep
    }

    ghost function Now(): State
      reads this`visible, this`book, this`revDep, this`implied, this`dirDep, this`finalized
    {
      State(visible, book, Deps(), finalized)
    }

    lemma NowIs()
      ensures Now() == State(visible, book, Deps(), finalized) && Deps() == Revs(revDep, implied, dirDep)
    {
    }

    lemma FollowsIs(plan: Plan)
      ensures Follows(plan) <==> modules == plan.modules && choices == plan.choices && optional == plan.optional
    {
    }

    /** Decides about the next item and, if it goes below parent, finalises it there.
        It takes some of its own following siblings with it. */
    method AbsorbOne(parent: Menu, sym: Symbol, basedep: Expr, menu: Menu, ghost par: Menu?, ghost left: Forest, ghost plan: Plan)
      returns (below: bool, ghost h: Forest)
      requires parent.sym == Some(sym) && basedep == Reduce(PromptIn(plan.want, parent))
      requires Represents(menu, par, left) && Distinct(left) && left.Cons? && parent !in Nodes(left)
      requires Follows(plan) && Orderly(book) && Ready(left, visible, book, plan)
      modifies this, rw, Nodes(left)
      ensures below <==> Belongs(sym, PromptIn(plan.want, parent), ShownIn(plan.want, menu))
      ensures !below ==> Represents(menu, par, left) && Ready(left, visible, book, plan) && Now() == old(Now()) && book == old(book)
      ensures below ==>
        && h == Finish(plan.want, left) && menu.parent == parent
        && Represents(menu.list, menu, h.kids) && Represents(menu.next, par, h.rest)
        && Ready(h.rest, visible, book, plan) && Finished({menu} + Nodes(h.kids), visible, book, plan)
        && Did(plan, [menu] + Preorder(h.kids), Nodes(h.kids), old(Now()), Now())
        && book == RegisterNode(plan.want, choices, old(book), left)
      decreases Count(left), 5
    {
      ghost var prompt, shown := PromptIn(plan.want, parent), ShownIn(plan.want, menu);
      RepresentsParts(menu, par, left);
      ReadyShown(left, visible, book, plan);
      assert Shown(menu) == shown;
      hide *;
      assert allocated(Nodes(left));
      var dep := Shown(menu);
      below := GoesBelow(rw, sym, prompt, basedep, dep);
      h := left;
      if below {
        h := AbsorbIt(parent, menu, par, left, plan);
      }
    }

    method AbsorbIt(parent: Menu, menu: Menu, ghost par: Menu?, ghost left: Forest, ghost plan: Plan) returns (ghost h: Forest)
      requires Represents(menu, par, left) && Distinct(left) && left.Cons? && left.m == menu && parent !in Nodes(left)
      requires Follows(plan) && Orderly(book) && Ready(left, visible, book, plan)
      modifies this, rw, Nodes(left)
      ensures h == Finish(plan.want, left) && menu.parent == parent
      ensures Represents(menu.list, menu, h.kids) && Represents(menu.next, par, h.rest)
      ensures Ready(h.rest, visible, book, plan) && Finished({menu} + Nodes(h.kids), visible, book, plan)
      ensures Did(plan, [menu] + Preorder(h.kids), Nodes(h.kids), old(Now()), Now())
      ensures book == RegisterNode(plan.want, choices, old(book), left)
      decreases Count(left), 4
    {
      hide *;
      h := MenuFinalize(menu, par, left, plan);
      FinishOrder(plan.want, left);
      SamePreorder(h, left);
      RepresentsParts(menu, par, h);
      HeadApart(h);
      FinishedOne(menu, visible, book, plan);
      FinishedUnion({menu}, Nodes(h.kids), visible, book, plan);
      assert allocated(Nodes(h.kids)) && allocated(Nodes(h.rest)) && allocated({menu} + Nodes(h.kids));
      menu.parent := parent;
    }

    /** One step of the scan over the items after parent: on success the item ends the
        trees moved so far. */
    method AbsorbNext(parent: Menu, sym: Symbol, basedep: Expr, item: Menu, ghost par: Menu?, ghost all: Forest,
                      ghost moved: Forest, ghost left: Forest, ghost plan: Plan, ghost start: State)
      returns (below: bool, ghost h: Forest)
      requires parent.sym == Some(sym) && basedep == Reduce(PromptIn(plan.want, parent))
      requires Represents(item, par, left) && Segment(parent.next, parent, moved, item) && parent !in Nodes(all)
      requires Parts(moved, left, all) && Distinct(all)
      requires Follows(plan) && Orderly(book)
      requires Ready(left, visible, book, plan) && Inherited(parent, visible, book, plan) && Finished(Nodes(moved), visible, book, plan)
      requires Did(plan, Preorder(moved), Nodes(moved), start, Now())
      modifies this, rw, Nodes(left)
      ensures left.Cons? && Orderly(book)
      ensures below <==> Belongs(sym, PromptIn(plan.want, parent), ShownIn(plan.want, left.m))
      ensures !below ==>
        && Represents(item, par, left) && Segment(parent.next, parent, moved, item)
        && Ready(left, visible, book, plan) && Inherited(parent, visible, book, plan) && Finished(Nodes(moved), visible, book, plan)
        && Did(plan, Preorder(moved), Nodes(moved), start, Now())
      ensures below ==>
        && h == Finish(plan.want, left) && h.m == item && Represents(item.next, par, h.rest)
        && Segment(parent.next, parent, WithTree(moved, h), item.next)
        && Parts(WithTree(moved, h), h.rest, all) && LastOf(WithTree(moved, h)) == item && Count(h.rest) < Count(left)
        && Ready(h.rest, visible, book, plan) && Inherited(parent, visible, book, plan)
        && Finished(Nodes(WithTree(moved, h)), visible, book, plan)
        && Did(plan, Preorder(WithTree(moved, h)), Nodes(WithTree(moved, h)), start, Now())
      ensures book == if below then RegisterNode(plan.want, choices, old(book), left) else old(book)
      decreases Count(left), 6
    {
      hide *;
      PartsFacts(moved, left, all);
      RepresentsHead(item, par, left);
      assert allocated(Nodes(moved)) && allocated(Nodes(left)) && allocated({parent});
      ghost var before, v, p := Now(), visible, book;
      NowIs();
      below, h := AbsorbOne(parent, sym, basedep, item, par, left, plan);
      NowIs();
      if below {
        JoinSegment(parent.next, parent, moved, item, h);
        FinishOrder(plan.want, left);
        SamePreorder(h, left);
        HeadApart(h);
        MoveOne(moved, left, h, all);
        DidElsewhere(plan, [item] + Preorder(h.kids), Nodes(h.kids), before, Now());
        FinishedStill(Nodes(moved), Nodes(h.kids), plan, v, visible, p, book);
        InheritedStill(parent, Nodes(h.kids), plan, v, visible, p, book);
        FinishedUnion(Nodes(moved), {item} + Nodes(h.kids), visible, book, plan);
        DidMore(plan, Preorder(moved), Nodes(moved), [item] + Preorder(h.kids), Nodes(h.kids), start, before, Now());
        DidWider(plan, Preorder(moved) + ([item] + Preorder(h.kids)), Nodes(moved) + Nodes(h.kids), Nodes(WithTree(moved, h)), start, Now());
      }
    }

    /** The loop of the scan; moved are the trees taken so far and left the trees still
        ahead. */
    method AbsorbLoop(parent: Menu, sym: Symbol, basedep: Expr, ghost par: Menu?, ghost all: Forest, ghost plan: Plan)
      returns (last: Menu?, ghost menu: Menu?, ghost moved: Forest, ghost left: Forest)
      requires parent.sym == Some(sym) && basedep == Reduce(PromptIn(plan.want, parent))
      requires Represents(parent.next, par, all) && Distinct(all) && parent !in Nodes(all)
      requires Follows(plan) && Orderly(book) && Ready(all, visible, book, plan) && Inherited(parent, visible, book, plan)
      modifies this, rw, Nodes(all)
      ensures Represents(menu, par, left) && Segment(parent.next, parent, moved, menu)
      ensures (moved, left) == Absorbed(plan.want, parent, all) && LastOf(moved) == last
      ensures Ready(left, visible, book, plan) && Inherited(parent, visible, book, plan) && Finished(Nodes(moved), visible, book, plan)
      ensures Did(plan, Preorder(moved), Nodes(moved), old(Now()), Now())
      ensures book == RegisterAbsorbed(plan.want, choices, old(book), parent, all)
      decreases Count(all), 7
    {
      hide *;
      ListStart(all);
      NowIs();
      DidNothing(plan, Now());
      FinishedNone(visible, book, plan);
      assert allocated(Nodes(all)) && allocated({parent});
      ghost var start, book0 := Now(), book;
      var item := parent.next;
      last, moved, left := null, Nil, all;
      ScanStart(plan.want, parent, left);
      while item != null
        invariant Represents(item, par, left) && Segment(parent.next, parent, moved, item)
        invariant LastOf(moved) == last && Parts(moved, left, all)
        invariant ScanSplit(plan.want, parent, all, moved, left)
        invariant Ready(left, visible, book, plan) && Inherited(parent, visible, book, plan) && Finished(Nodes(moved), visible, book, plan)
        invariant Did(plan, Preorder(moved), Nodes(moved), start, Now()) && Orderly(book)
        invariant RegisterAbsorbed(plan.want, choices, book, parent, left) == RegisterAbsorbed(plan.want, choices, book0, parent, all)
        decreases Count(left)
      {
        var below;
        ghost var h;
        RegisterNext(plan.want, choices, book, parent, left);
        PartsFacts(moved, left, all);
        below, h := AbsorbNext(parent, sym, basedep, item, par, all, moved, left, plan, start);
        ScanNext(plan.want, parent, all, moved, left);
        if !below {
          break;
        }
        moved, left := WithTree(moved, h), h.rest;
        last := item;
        item := item.next;
      }
      RepresentsHead(item, par, left);
      ScanEnd(plan.want, parent, all, moved, left);
      RegisterNext(plan.want, choices, book, parent, left);
      menu := item;
    }

    /** The scan over the items after parent. */
    method AbsorbScan(parent: Menu, sym: Symbol, ghost par: Menu?, ghost f: Forest, ghost plan: Plan)
      returns (last: Menu?, ghost menu: Menu?, ghost moved: Forest, ghost left: Forest)
      requires f.Cons? && f.m == parent && f.kids == Nil && parent.sym == Some(sym)
      requires Represents(parent, par, f) && Distinct(f)
      requires Follows(plan) && Orderly(book) && Ready(f, visible, book, plan)
      modifies this, rw, Nodes(f.rest)
      ensures Represents(menu, par, left) && Segment(parent.next, parent, moved, menu)
      ensures (moved, left) == Absorbed(plan.want, parent, f.rest) && LastOf(moved) == last
      ensures Ready(left, visible, book, plan) && Inherited(parent, visible, book, plan) && Finished(Nodes(moved), visible, book, plan)
      ensures Did(plan, Preorder(moved), Nodes(moved), old(Now()), Now())
      ensures book == RegisterAbsorbed(plan.want, choices, old(book), parent, f.rest)
      decreases Count(f), 0
    {
      hide *;
      ReadyPrompt(f, visible, book, plan);
      var prompt := if parent.title.Some? then Lookup(visible, PromptOf(parent)) else None;
      assert prompt == PromptIn(plan.want, parent);
      RepresentsParts(parent, par, f);
      ReadyHead(f, visible, book, plan);
      HeadApart(f);
      NowIs();
      assert allocated(Nodes(f.rest)) && allocated({parent});
      var basedep := ReduceNonZero(rw, prompt);
      NowIs();
      last, menu, moved, left := AbsorbLoop(parent, sym, basedep, par, f.rest, plan);
    }

    /** Moves the items after parent that belong below it there. */
    method AbsorbFollowing(parent: Menu, sym: Symbol, ghost par: Menu?, ghost f: Forest, ghost plan: Plan)
      returns (ghost moved: Forest, ghost left: Forest)
      requires f.Cons? && f.m == parent && f.kids == Nil && parent.sym == Some(sym)
      requires Represents(parent, par, f) && Distinct(f)
      requires Follows(plan) && Orderly(book) && Ready(f, visible, book, plan)
      modifies this, rw, Nodes(f)
      ensures (moved, left) == Absorbed(plan.want, parent, f.rest) && Represents(parent, par, Cons(parent, moved, left))
      ensures Ready(left, visible, book, plan) && Inherited(parent, visible, book, plan) && Finished(Nodes(moved), visible, book, plan)
      ensures Did(plan, Preorder(moved), Nodes(moved), old(Now()), Now())
      ensures book == RegisterAbsorbed(plan.want, choices, old(book), parent, f.rest)
      decreases Count(f), 1
    {
      hide *;
      RepresentsParts(parent, par, f);
      HeadApart(f);
      assert allocated(Nodes(f.rest));
      var last;
      ghost var menu;
      last, menu, moved, left := AbsorbScan(parent, sym, par, f, plan);
      AbsorbedOrder(plan.want, parent, f.rest);
      PreorderParts(moved, left, f.rest);
      PartsFacts(moved, left, f.rest);
      LastOfNil(moved);
      NothingMoved(parent, moved, menu);
      assert allocated(Nodes(moved)) && allocated(Nodes(left)) && allocated({parent});
      if last != null {
        CutSubmenu(parent, last, par, menu, moved, left);
      }
      RepresentsCons(parent, par, moved, left);
    }

    /** Passes the parent's condition on to every child, then finalises the children. */
    method FinalizeChildren(parent: Menu, parentdep: Option<Expr>, ghost kids: Forest, ghost plan: Plan) returns (ghost kids': Forest)
      requires Represents(parent.list, parent, kids) && Distinct(kids) && parent !in Nodes(kids)
      requires Follows(plan) && Orderly(book)
      requires AllInherit(plan, parentdep, kids) && Planned(plan, kids) && Passing(Nodes(kids), {}, visible, book, plan)
      modifies this, rw, Nodes(kids)
      ensures Represents(parent.list, parent, kids') && kids' == FinishList(plan.want, kids)
      ensures Finished(Nodes(kids), visible, book, plan)
      ensures Orderly(book) && Elsewhere(Nodes(kids), plan, old(visible), visible, old(book), book)
      ensures Raises(Both(KidsShareOf(plan, Roots(kids)), TotalOf(plan, Preorder(kids'))), old(Deps()), Deps())
      ensures finalized == old(finalized) + multiset(Preorder(kids'))
      ensures book == RegisterList(plan.want, choices, old(book), kids)
      decreases Count(kids), 5
    {
      hide *;
      ghost var v0, p0, r0 := visible, book, Deps();
      PropagateAll(parent, parentdep, kids, plan);
      ghost var v1, r1, middle := visible, Deps(), Now();
      NowIs();
      kids' := FinalizeList(parent, kids, plan);
      NowIs();
      DidParts(plan, Preorder(kids'), Nodes(kids), middle, Now());
      ElsewhereTrans(Nodes(kids), Nodes(kids), plan, v0, v1, visible, p0, p0, book);
      assert Nodes(kids) + Nodes(kids) == Nodes(kids);
      RaisesTrans(KidsShareOf(plan, Roots(kids)), TotalOf(plan, Preorder(kids')), r0, r1, Deps());
    }

    method FinalizeList(parent: Menu, ghost kids: Forest, ghost plan: Plan) returns (ghost kids': Forest)
      requires Represents(parent.list, parent, kids) && Distinct(kids) && parent !in Nodes(kids)
      requires Follows(plan) && Orderly(book) && Ready(kids, visible, book, plan)
      modifies this, rw, Nodes(kids)
      ensures Represents(parent.list, parent, kids') && kids' == FinishList(plan.want, kids)
      ensures Finished(Nodes(kids), visible, book, plan)
      ensures Did(plan, Preorder(kids'), Nodes(kids), old(Now()), Now())
      ensures book == RegisterList(plan.want, choices, old(book), kids)
      decreases Count(kids), 4
    {
      hide *;
      ListStart(kids);
      FinishListStart(plan.want, kids);
      NowIs();
      DidNothing(plan, Now());
      FinishedNone(visible, book, plan);
      ghost var start, book0 := Now(), book;
      var menu := parent.list;
      ghost var done, left := Nil, kids;
      while menu != null
        invariant Represents(menu, parent, left) && Segment(parent.list, parent, done, menu)
        invariant Parts(done, left, kids) && Append(done, FinishList(plan.want, left)) == FinishList(plan.want, kids)
        invariant Ready(left, visible, book, plan) && Finished(Nodes(done), visible, book, plan)
        invariant Did(plan, Preorder(done), Nodes(done), start, Now()) && Orderly(book)
        invariant RegisterList(plan.want, choices, book, left) == RegisterList(plan.want, choices, book0, kids)
        decreases Count(left)
      {
        PartsFacts(done, left, kids);
        RepresentsHead(menu, parent, left);
        assert allocated(Nodes(done)) && allocated(Nodes(left));
        ghost var before, v, p := Now(), visible, book;
        NowIs();
        RegisterListNext(plan.want, choices, book, left);
        ghost var h := MenuFinalize(menu, parent, left, plan);
        NowIs();
        RepresentsParts(menu, parent, h);
        JoinSegment(parent.list, parent, done, menu, h);
        FinishListStep(plan.want, done, left);
        FinishOrder(plan.want, left);
        SamePreorder(h, left);
        HeadApart(h);
        MoveOne(done, left, h, kids);
        DidElsewhere(plan, [menu] + Preorder(h.kids), Nodes(h.kids), before, Now());
        FinishedStill(Nodes(done), Nodes(h.kids), plan, v, visible, p, book);
        FinishedOne(menu, visible, book, plan);
        FinishedUnion({menu}, Nodes(h.kids), visible, book, plan);
        FinishedUnion(Nodes(done), {menu} + Nodes(h.kids), visible, book, plan);
        DidMore(plan, Preorder(done), Nodes(done), [menu] + Preorder(h.kids), Nodes(h.kids), start, before, Now());
        DidWider(plan, Preorder(done) + ([menu] + Preorder(h.kids)), Nodes(done) + Nodes(h.kids), Nodes(WithTree(done, h)), start, Now());
        done, left := WithTree(done, h), h.rest;
        menu := menu.next;
      }
      RepresentsHead(menu, parent, left);
      FinishListEnd(plan.want, done, left);
      RegisterListNext(plan.want, choices, book, left);
      ListEnd(done, kids);
      kids' := done;
      SegmentIsList(parent.list, parent, done);
    }

    /** The children of a node with their conditions, finalised; or the items behind it
        that belong below its symbol, whose direct dependency grows by its condition. */
    method Gather(parent: Menu, ghost par: Menu?, ghost f: Forest, ghost plan: Plan) returns (ghost kids: Forest, ghost rest: Forest)
      requires f.Cons? && f.m == parent && Represents(parent, par, f) && Distinct(f)
      requires Follows(plan) && Orderly(book) && Ready(f, visible, book, plan)
      modifies this, rw, Nodes(f)
      ensures (kids, rest) == if f.kids.Cons? then (FinishList(plan.want, f.kids), f.rest) else Taken(plan.want, f)
      ensures Represents(parent, par, Cons(parent, kids, rest))
      ensures Ready(rest, visible, book, plan) && Inherited(parent, visible, book, plan) && Finished(Nodes(kids), visible, book, plan)
      ensures Orderly(book) && Elsewhere(Nodes(kids), plan, old(visible), visible, old(book), book)
      ensures Raises(PartShareOf(plan, parent, Preorder(kids)), old(Deps()), Deps())
      ensures finalized == old(finalized) + multiset(Preorder(kids))
      ensures book == if f.kids.Cons? then RegisterList(plan.want, choices, old(book), f.kids) else RegisterTaken(plan.want, choices, old(book), f)
      decreases Count(f), 2
    {
      hide *;
      RepresentsParts(parent, par, f);
      HeadApart(f);
      ReadyHead(f, visible, book, plan);
      assert allocated(Nodes(f.kids)) && allocated(Nodes(f.rest)) && allocated({parent});
      if parent.list != null {
        kids, rest := GatherChildren(parent, par, f, plan);
      } else {
        NoKidsAtAll(parent, f.kids);
        TakenAs(plan.want, f);
        RegisterTakenIs(plan.want, choices, book, f);
        RootsNil(f.kids);
        if parent.sym.Some? {
          ghost var start, r0 := Now(), Deps();
          NowIs();
          kids, rest := AbsorbFollowing(parent, parent.sym.value, par, f, plan);
          ghost var r1 := Deps();
          NowIs();
          DidParts(plan, Preorder(kids), Nodes(kids), start, Now());
          NodeDep(parent, visible, book, plan);
          assert allocated(Nodes(kids)) && allocated(Nodes(rest)) && allocated(Nodes(Cons(parent, kids, rest)));
          AddDirDep(parent.sym.value, parent.dep);
          NowIs();
          LeafRaises(plan, parent, parent.sym.value, Preorder(kids), r0, r1, Deps());
        } else {
          kids, rest := Nil, f.rest;
          NothingGathered(plan, parent, f, visible, book, Deps());
        }
      }
    }

    method GatherChildren(parent: Menu, ghost par: Menu?, ghost f: Forest, ghost plan: Plan) returns (ghost kids: Forest, ghost rest: Forest)
      requires f.Cons? && f.m == parent && Represents(parent, par, f) && Distinct(f) && parent.list != null
      requires Follows(plan) && Orderly(book) && Ready(f, visible, book, plan)
      modifies this, rw, Nodes(f)
      ensures f.kids.Cons? && kids == FinishList(plan.want, f.kids) && rest == f.rest
      ensures Represents(parent, par, Cons(parent, kids, rest))
      ensures Ready(rest, visible, book, plan) && Inherited(parent, visible, book, plan) && Finished(Nodes(kids), visible, book, plan)
      ensures Orderly(book) && Elsewhere(Nodes(kids), plan, old(visible), visible, old(book), book)
      ensures Raises(PartShareOf(plan, parent, Preorder(kids)), old(Deps()), Deps())
      ensures finalized == old(finalized) + multiset(Preorder(kids))
      ensures book == RegisterList(plan.want, choices, old(book), f.kids)
      decreases Count(f), 1
    {
      ReadyPassedOn(f, visible, book, plan);
      var parentdep :=
        if parent.sym.Some? && parent.sym.value in choices then Some(Sym(parent.sym.value))
        else if parent.title.Some? then Lookup(visible, PromptOf(parent))
        else parent.dep;
      assert parentdep == PassedOn(plan, parent);
      hide *;
      kids, rest := GatherWith(parent, parentdep, par, f, plan);
    }

    method GatherWith(parent: Menu, parentdep: Option<Expr>, ghost par: Menu?, ghost f: Forest, ghost plan: Plan)
      returns (ghost kids: Forest, ghost rest: Forest)
      requires f.Cons? && f.m == parent && Represents(parent, par, f) && Distinct(f) && parent.list != null
      requires Follows(plan) && Orderly(book) && Ready(f, visible, book, plan) && parentdep == PassedOn(plan, parent)
      modifies this, rw, Nodes(f)
      ensures f.kids.Cons? && kids == FinishList(plan.want, f.kids) && rest == f.rest
      ensures Represents(parent, par, Cons(parent, kids, rest))
      ensures Ready(rest, visible, book, plan) && Inherited(parent, visible, book, plan) && Finished(Nodes(kids), visible, book, plan)
      ensures Orderly(book) && Elsewhere(Nodes(kids), plan, old(visible), visible, old(book), book)
      ensures Raises(PartShareOf(plan, parent, Preorder(kids)), old(Deps()), Deps())
      ensures finalized == old(finalized) + multiset(Preorder(kids))
      ensures book == RegisterList(plan.want, choices, old(book), f.kids)
      decreases Count(f), 0
    {
      hide *;
      RepresentsParts(parent, par, f);
      HeadApart(f);
      ReadyHead(f, visible, book, plan);
      assert allocated(Nodes(f.kids)) && allocated(Nodes(f.rest)) && allocated({parent});
      ghost var v, p, r := visible, book, Deps();
      kids := FinalizeChildren(parent, parentdep, f.kids, plan);
      FinishListOrder(plan.want, f.kids);
      SamePreorder(kids, f.kids);
      rest := f.rest;
      RepresentsCons(parent, par, kids, rest);
      ReadyStill(rest, Nodes(kids), plan, v, visible, p, book);
      InheritedStill(parent, Nodes(kids), plan, v, visible, p, book);
      ParentRaises(plan, parent, f.kids, Preorder(kids), r, Deps());
    }

    /** The direct dependency of a symbol gets weaker with every node that has one; a
        node without any does not count. */
    method AddDirDep(s: Symbol, dep: Option<Expr>)
      modifies this`dirDep
      ensures dirDep == old(dirDep)[s := AllocOr(Lookup(old(dirDep), s), dep)]
    {
      dirDep := dirDep[s := AllocOr(Lookup(dirDep, s), dep)];
    }

    /** A choice that is not optional is at least m where it is visible. */
    method AddMode(s: Symbol, shown: Option<Expr>)
      modifies this`revDep
      ensures revDep == old(revDep)[s := AllocOr(Lookup(old(revDep), s), AllocAnd(shown, Some(Sym(SymMod))))]
    {
      revDep := revDep[s := AllocOr(Lookup(revDep, s), AllocAnd(shown, Some(Sym(SymMod))))];
    }

    /** Flattens the children of a node and notes the mode of a choice. */
    method Settle(parent: Menu, ghost par: Menu?, ghost kids: Forest, ghost rest: Forest, ghost plan: Plan)
      requires Represents(parent, par, Cons(parent, kids, rest)) && Distinct(Cons(parent, kids, rest))
      requires Follows(plan) && Orderly(book)
      requires Ready(rest, visible, book, plan) && Inherited(parent, visible, book, plan) && Finished(Nodes(kids), visible, book, plan)
      modifies this`visible, this`book, this`revDep, Nodes(kids)
      ensures Represents(parent, par, Cons(parent, Flattened(kids), rest))
      ensures Ready(rest, visible, book, plan) && Inherited(parent, visible, book, plan) && Finished(Nodes(kids), visible, book, plan)
      ensures Orderly(book) && Elsewhere(Nodes(kids), plan, old(visible), visible, old(book), book)
      ensures Raises(ModeShareOf(plan, parent), old(Deps()), Deps())
      ensures book == RegisterAll(choices, old(book), parent, Roots(Flattened(kids)))
    {
      hide *;
      RepresentsParts(parent, par, Cons(parent, kids, rest));
      HeadApart(Cons(parent, kids, rest));
      FlattenedOrder(kids);
      SamePreorder(Flattened(kids), kids);
      assert allocated(Nodes(kids)) && allocated(Nodes(rest)) && allocated({parent});
      ghost var v, p, r := visible, book, Deps();
      NowIs();
      FollowsIs(plan);
      ghost var flat := Flatten(parent, kids, plan);
      RepresentsCons(parent, par, flat, rest);
      ReadyStill(rest, Nodes(kids), plan, v, visible, p, book);
      InheritedStill(parent, Nodes(kids), plan, v, visible, p, book);
      NodePrompt(parent, visible, book, plan);
      if parent.sym.Some? && parent.sym.value !in optional && parent.title.Some? {
        assert allocated(Nodes(Cons(parent, flat, rest)));
        NowIs();
        AddMode(parent.sym.value, Lookup(visible, PromptOf(parent)));
        NowIs();
        ModeRaises(plan, parent, parent.sym.value, r, Deps());
      } else {
        NoModeRaises(plan, parent, optional, r);
      }
    }

    /** Finalises a node: its subtree, or as many of its following siblings as belong
        below its symbol, which become its subtree. */
    method MenuFinalize(parent: Menu, ghost par: Menu?, ghost f: Forest, ghost plan: Plan) returns (ghost g: Forest)
      requires f.Cons? && f.m == parent && Represents(parent, par, f) && Distinct(f)
      requires Follows(plan) && Orderly(book) && Ready(f, visible, book, plan)
      modifies this, rw, Nodes(f)
      ensures g == Finish(plan.want, f) && Represents(parent, par, g)
      ensures Ready(g.rest, visible, book, plan) && Inherited(parent, visible, book, plan) && Finished(Nodes(g.kids), visible, book, plan)
      ensures Did(plan, [parent] + Preorder(g.kids), Nodes(g.kids), old(Now()), Now())
      ensures book == RegisterNode(plan.want, choices, old(book), f)
      decreases Count(f), 3
    {
      hide *;
      ghost var start, v0, p0, r0 := Now(), visible, book, Deps();
      NowIs();
      finalized := finalized + multiset{parent};
      ghost var kids, rest := Gather(parent, par, f, plan);
      ghost var v1, p1, r1 := visible, book, Deps();
      g := Finish(plan.want, f);
      Gathered(plan.want, f, kids, rest);
      RegisterNodeIs(plan.want, choices, p0, p1, f, kids);
      assert allocated(Nodes(kids)) && allocated(Nodes(rest));
      Settle(parent, par, kids, rest, plan);
      NowIs();
      ElsewhereTrans(Nodes(kids), Nodes(kids), plan, v0, v1, visible, p0, p1, book);
      assert Nodes(kids) + Nodes(kids) == Nodes(kids);
      WholeNodeRaises(plan, parent, Preorder(kids), r0, r1, Deps());
      DidAll(plan, parent, Preorder(kids), Nodes(kids), start, Now());
    }
  }

  /* ----- the whole tree ----- */

  /** Finalising the whole tree: conditions are inherited from parents as planned, and end
      up as wanted but for restrictions to choices; the tree takes the shape that follows
      from them; every node is finalised exactly once and adds exactly its share to the
      dependencies of symbols; writers visit the nodes in the order of the parsed files. */
  method FinalizeAll(fin: Finalizer, root: Menu, ghost f: Forest, ghost deps: map<Menu, Option<Expr>>)
    returns (visited: seq<Menu>, ghost g: Forest, ghost plan: Plan)
    requires root.next == null && Represents(root, null, Cons(root, f, Nil)) && Distinct(Cons(root, f, Nil))
    requires fin.finalized == multiset{} && Numbered(fin.book.props) && fin.book == Book(fin.book.props, {}, map[], map[])
    requires deps == map m | m in Nodes(Cons(root, f, Nil)) :: m.dep
    modifies fin, fin.rw, Nodes(Cons(root, f, Nil))
    ensures fin.Follows(plan) && plan.init == Conds(deps, old(fin.visible))
    ensures OwnAsParsed(Cons(root, f, Nil), plan, old(fin.book.props))
    ensures Planned(plan, Cons(root, f, Nil)) && SameAt(plan, root)
    ensures Cons(root, g, Nil) == Finish(plan.want, Cons(root, f, Nil)) && Represents(root, null, Cons(root, g, Nil))
    ensures visited == Preorder(f) == Preorder(g) && AllFlat(g)
    ensures Inherited(root, fin.visible, fin.book, plan) && Finished(Nodes(g), fin.visible, fin.book, plan)
    ensures fin.book == RegisterNode(plan.want, fin.choices, old(fin.book), Cons(root, f, Nil)) && ValuesOnce(fin.book)
    ensures Raises(TotalOf(plan, [root] + visited), old(fin.Deps()), fin.Deps())
    ensures fin.finalized == multiset([root] + visited) && forall m <- [root] + visited :: fin.finalized[m] == 1
  {
    ghost var all := Cons(root, f, Nil);
    hide *;
    assert allocated(Nodes(all));
    NothingRegistered(fin.book);
    plan := PlanFor(fin, root, f, deps);
    RegisterNodeOnce(plan.want, fin.choices, fin.book, all);
    g := FinalizeRoot(fin, root, f, plan);
    RepresentsParts(root, null, Cons(root, g, Nil));
    assert allocated(Nodes(g)) && allocated(Nodes(Cons(root, g, Nil)));
    visited := Traverse(root, g);
  }

  method FinalizeRoot(fin: Finalizer, root: Menu, ghost f: Forest, ghost plan: Plan) returns (ghost g: Forest)
    requires root.next == null && Represents(root, null, Cons(root, f, Nil)) && Distinct(Cons(root, f, Nil))
    requires fin.finalized == multiset{} && Orderly(fin.book) && fin.Follows(plan)
    requires Ready(Cons(root, f, Nil), fin.visible, fin.book, plan)
    modifies fin, fin.rw, Nodes(Cons(root, f, Nil))
    ensures Cons(root, g, Nil) == Finish(plan.want, Cons(root, f, Nil)) && Represents(root, null, Cons(root, g, Nil))
    ensures root.next == null && root.parent == null && Preorder(g) == Preorder(f) && AllFlat(g)
    ensures Inherited(root, fin.visible, fin.book, plan) && Finished(Nodes(g), fin.visible, fin.book, plan)
    ensures fin.book == RegisterNode(plan.want, fin.choices, old(fin.book), Cons(root, f, Nil))
    ensures Raises(TotalOf(plan, [root] + Preorder(g)), old(fin.Deps()), fin.Deps())
    ensures fin.finalized == multiset([root] + Preorder(g)) && forall m <- [root] + Preorder(g) :: fin.finalized[m] == 1
  {
    hide *;
    ghost var all, start := Cons(root, f, Nil), fin.Now();
    fin.NowIs();
    ghost var whole := fin.MenuFinalize(root, null, all, plan);
    fin.NowIs();
    DidParts(plan, [root] + Preorder(whole.kids), Nodes(whole.kids), start, fin.Now());
    WholeTree(plan.want, root, f);
    g := whole.kids;
    RepresentsParts(root, null, whole);
    EachOnce(root, g, fin.finalized);
  }

  lemma NothingRegistered(book: Book)
    requires Numbered(book.props) && book == Book(book.props, {}, map[], map[])
    ensures Orderly(book) && ValuesOnce(book) && book.at == map[]
  {
  }

  /** The plan before conditions are wanted. */
  ghost function FirstPlan(fin: Finalizer, root: Menu, f: Forest, deps: map<Menu, Option<Expr>>): Plan
    reads fin`book, fin`visible
  {
    var all, init := Cons(root, f, Nil), Conds(deps, fin.visible);
    Plan(init, init, map m | m in Nodes(all) :: Mine(fin.book.props, m), KidsMap(all), fin.modules, fin.choices, fin.optional)
  }

  lemma MineHere(props: Props, m: Menu)
    ensures forall p <- Mine(props, m) :: p.at == m
  {
    AtMenuIn(PropsIn(props, m), m);
  }

  lemma FirstPlanFacts(fin: Finalizer, root: Menu, f: Forest, deps: map<Menu, Option<Expr>>)
    requires deps == map m | m in Nodes(Cons(root, f, Nil)) :: m.dep
    ensures var plan0 := FirstPlan(fin, root, f, deps);
      forall m <- Nodes(Cons(root, f, Nil)) ::
        && DepIn(plan0.init, m) == m.dep && OwnOf(plan0, m) == Mine(fin.book.props, m) && m in plan0.own
        && forall p <- OwnOf(plan0, m) :: p.at == m
  {
    hide KidsMap;
    forall m <- Nodes(Cons(root, f, Nil))
      ensures forall p <- Mine(fin.book.props, m) :: p.at == m
    {
      MineHere(fin.book.props, m);
    }
  }

  /** The plan for a tree as it was parsed. */
  ghost method PlanFor(fin: Finalizer, root: Menu, f: Forest, deps: map<Menu, Option<Expr>>) returns (plan: Plan)
    requires Distinct(Cons(root, f, Nil)) && fin.book.at == map[]
    requires deps == map m | m in Nodes(Cons(root, f, Nil)) :: m.dep
    ensures fin.Follows(plan) && plan.init == Conds(deps, fin.visible)
    ensures OwnAsParsed(Cons(root, f, Nil), plan, fin.book.props)
    ensures Planned(plan, Cons(root, f, Nil)) && SameAt(plan, root)
    ensures Ready(Cons(root, f, Nil), fin.visible, fin.book, plan)
  {
    var plan0 := FirstPlan(fin, root, f, deps);
    FirstPlanFacts(fin, root, f, deps);
    plan := Spread(plan0, PassedOn(plan0, root), f);
    hide Inherit, PropertyCond, Mine, Planned, AllInherit, Spread, KidsMap, Ready;
    PlanSpread(plan0, root, f);
    PlanReady(plan0, plan, root, f, fin.visible, fin.book);
  }
}
