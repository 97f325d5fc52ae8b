/** What propagating a node's condition does to its properties and, through selects
    and implies, to the reverse dependencies of other symbols. */
module Propagation {
  import opened Exprs
  import opened Conditions
  import opened MenuTree

  function Lookup<K, V>(m: map<K, Option<V>>, k: K): Option<V> {
    if k in m then m[k] else None
  }

  /** An absent reverse dependency counts as n. */
  function EvalRev(e: Option<Expr>, env: Env): Tristate {
    if e.None? then NO else Eval(e.value, env)
  }

  /** Nodes of symbols that cannot be m. */
  predicate Binary(menu: Menu) {
    menu.sym.Some? && menu.sym.value.Type() != Tri
  }

  predicate NoRepeats(ps: seq<Property>) {
    forall i, j :: 0 <= i < j < |ps| ==> ps[i] != ps[j]
  }

  type PropConds = map<Property, Option<Expr>>

  /** Conditions of properties that belong to no node in s are the same. */
  ghost predicate SameConds(s: set<Menu>, a: PropConds, b: PropConds) {
    forall p <- a.Keys + b.Keys :: p.at == null || p.at !in s ==> Lookup(a, p) == Lookup(b, p)
  }

  lemma SameCondsTrans(s: set<Menu>, t: set<Menu>, a: PropConds, b: PropConds, c: PropConds)
    requires SameConds(s, a, b) && SameConds(t, b, c)
    ensures SameConds(s + t, a, c)
  {
    forall p <- a.Keys + c.Keys | p.at == null || p.at !in s + t
      ensures Lookup(a, p) == Lookup(c, p)
    {
      assert Lookup(a, p) == Lookup(b, p);
    }
  }

  ghost predicate SameExcept(p: Property, was: PropConds, now: PropConds) {
    forall q <- was.Keys + now.Keys :: q != p ==> Lookup(was, q) == Lookup(now, q)
  }

  /** What one property of a node adds to the reverse dependency of es. */
  ghost function PullOne(kind: PropKind, menu: Menu, p: Property, visible: map<Property, Option<Expr>>,
                         es: Symbol, env: Env): Tristate
  {
    if p.kind == kind && p.at == menu && p.target == Some(es) && menu.sym.Some? then
      Min(env.tri(menu.sym.value), EvalOpt(Lookup(visible, p), env))
    else NO
  }

  /** The strongest of what the properties add. */
  ghost function Pull(kind: PropKind, menu: Menu, ps: seq<Property>, visible: map<Property, Option<Expr>>,
                      es: Symbol, env: Env): Tristate
  {
    if ps == [] then NO
    else Max(Pull(kind, menu, ps[..|ps| - 1], visible, es, env), PullOne(kind, menu, ps[|ps| - 1], visible, es, env))
  }

  type Reverse = map<Symbol, Option<Expr>>

  /** A property added exactly its contribution to every reverse dependency. */
  ghost predicate PulledBy(kind: PropKind, menu: Menu, p: Property, visible: PropConds, was: Reverse, now: Reverse) {
    forall es: Symbol, env: Env ::
      EvalRev(Lookup(now, es), env)
      == Max(EvalRev(Lookup(was, es), env), PullOne(kind, menu, p, visible, es, env))
  }

  /** A list of properties added exactly its strongest contribution. */
  ghost predicate Pulled(kind: PropKind, menu: Menu, ps: seq<Property>, visible: PropConds, was: Reverse, now: Reverse) {
    forall es: Symbol, env: Env ::
      EvalRev(Lookup(now, es), env)
      == Max(EvalRev(Lookup(was, es), env), Pull(kind, menu, ps, visible, es, env))
  }

  lemma AddRev(rev: Option<Expr>, s: Symbol, dep: Option<Expr>)
    ensures forall env: Env ::
      EvalRev(AllocOr(rev, AllocAnd(Some(Sym(s)), dep)), env) == Max(EvalRev(rev, env), Min(env.tri(s), EvalOpt(dep, env)))
  {
    forall env: Env
      ensures EvalRev(AllocOr(rev, AllocAnd(Some(Sym(s)), dep)), env)
           == Max(EvalRev(rev, env), Min(env.tri(s), EvalOpt(dep, env)))
    {
      var pull := AllocAnd(Some(Sym(s)), dep);
      assert Eval(pull.value, env) == Min(env.tri(s), EvalOpt(dep, env));
    }
  }

  lemma PulledNone(kind: PropKind, menu: Menu, visible: PropConds, rev: Reverse)
    ensures Pulled(kind, menu, [], visible, rev, rev)
  {
  }

  lemma SkipOne(menu: Menu, p: Property, visible: PropConds, rev: Reverse, imp: Reverse)
    requires p.at != menu
    ensures PulledBy(Select, menu, p, visible, rev, rev) && PulledBy(Imply, menu, p, visible, imp, imp)
  {
  }

  lemma {:induction false} PullSame(kind: PropKind, menu: Menu, ps: seq<Property>, v: PropConds, v': PropConds, es: Symbol, env: Env)
    requires forall p <- ps :: Lookup(v, p) == Lookup(v', p)
    ensures Pull(kind, menu, ps, v, es, env) == Pull(kind, menu, ps, v', es, env)
  {
    if ps != [] {
      PullSame(kind, menu, ps[..|ps| - 1], v, v', es, env);
    }
  }

  lemma PullStep(kind: PropKind, menu: Menu, ps: seq<Property>, i: nat, v: PropConds, v': PropConds, es: Symbol, env: Env)
    requires i < |ps| && NoRepeats(ps)
    requires if ps[i].at == menu then SameExcept(ps[i], v, v') else v == v'
    ensures Pull(kind, menu, ps[..i + 1], v', es, env)
         == Max(Pull(kind, menu, ps[..i], v, es, env), PullOne(kind, menu, ps[i], v', es, env))
  {
    var qs := ps[..i + 1];
    assert qs[..i] == ps[..i] && qs[i] == ps[i];
    assert ps[i] !in ps[..i];
    forall p <- ps[..i]
      ensures Lookup(v, p) == Lookup(v', p)
    {
    }
    PullSame(kind, menu, ps[..i], v, v', es, env);
  }

  lemma PulledStep(kind: PropKind, menu: Menu, ps: seq<Property>, i: nat, v: PropConds, v': PropConds,
                   was: Reverse, mid: Reverse, now: Reverse)
    requires i < |ps| && NoRepeats(ps)
    requires if ps[i].at == menu then SameExcept(ps[i], v, v') else v == v'
    requires Pulled(kind, menu, ps[..i], v, was, mid) && PulledBy(kind, menu, ps[i], v', mid, now)
    ensures Pulled(kind, menu, ps[..i + 1], v', was, now)
  {
    hide PullOne, Pull, SameExcept, NoRepeats, EvalRev, Lookup;
    forall es: Symbol, env: Env
      ensures EvalRev(Lookup(now, es), env) == Max(EvalRev(Lookup(was, es), env), Pull(kind, menu, ps[..i + 1], v', es, env))
    {
      PullStep(kind, menu, ps, i, v, v', es, env);
    }
  }
}
