/** Finalisation of the menu tree as functions: the conditions that nodes and properties
    end up with, the shape of the tree that follows from them, and what every node adds
    to the dependencies of symbols. */
module MenuSpec {
  import opened Exprs
  import opened Conditions
  import opened MenuTree
  import opened Propagation

  /** Conditions of nodes and of properties. */
  datatype Conds = Conds(dep: map<Menu, Option<Expr>>, visible: PropConds)

  ghost function DepIn(c: Conds, m: Menu): Option<Expr> {
    Lookup(c.dep, m)
  }

  /** The condition of a node's prompt. */
  ghost function PromptIn(c: Conds, m: Menu): Option<Expr> {
    if m.title.Some? then Lookup(c.visible, PromptOf(m)) else None
  }

  /** The condition of a node's prompt, or of the node when it has none. */
  ghost function ShownIn(c: Conds, m: Menu): Option<Expr> {
    if m.title.Some? then Lookup(c.visible, PromptOf(m)) else DepIn(c, m)
  }

  /* ----- the shape of the tree ----- */

  /** Nodes without a prompt give their children back to the list they are in. */
  ghost function Flattened(f: Forest): (g: Forest)
    ensures Count(g) == Count(f)
    decreases Count(f)
  {
    if f == Nil then Nil
    else if f.kids.Cons? && !Titled(f.m) then
      AppendFacts(f.kids, f.rest);
      Cons(f.m, Nil, Flattened(Append(f.kids, f.rest)))
    else Cons(f.m, f.kids, Flattened(f.rest))
  }

  /** The first tree of f finalised, which may take some of the following trees. */
  ghost function Finish(w: Conds, f: Forest): (g: Forest)
    requires f.Cons?
    ensures g.Cons? && g.m == f.m && Count(g) == Count(f)
    decreases Count(f), 1
  {
    var (kids, rest) := if f.kids.Cons? then (FinishList(w, f.kids), f.rest) else Taken(w, f);
    Cons(f.m, Flattened(kids), rest)
  }

  ghost function FinishList(w: Conds, f: Forest): (g: Forest)
    ensures Count(g) == Count(f)
    decreases Count(f), 2
  {
    if f == Nil then Nil
    else
      var h := Finish(w, f);
      Cons(h.m, h.kids, FinishList(w, h.rest))
  }

  /** What a node without children takes: following items, if it has a symbol. */
  ghost function Taken(w: Conds, f: Forest): (p: (Forest, Forest))
    requires f.Cons? && f.kids == Nil
    ensures 1 + Count(p.0) + Count(p.1) == Count(f)
    decreases Count(f), 0
  {
    if f.m.sym.Some? then Absorbed(w, f.m, f.rest) else (Nil, f.rest)
  }

  /** The items that go below a node: finalised one by one as long as they belong there. */
  ghost function Absorbed(w: Conds, under: Menu, f: Forest): (p: (Forest, Forest))
    requires under.sym.Some?
    ensures Count(p.0) + Count(p.1) == Count(f)
    decreases Count(f), 2
  {
    if f == Nil || !Belongs(under.sym.value, PromptIn(w, under), ShownIn(w, f.m)) then (Nil, f)
    else
      var h := Finish(w, f);
      var (moved, left) := Absorbed(w, under, h.rest);
      (Cons(h.m, h.kids, moved), left)
  }

  /** Exactly the items that belong below the node are absorbed: each of them does, and
      the first that is left does not. */
  lemma {:induction false} AbsorbedBelong(w: Conds, under: Menu, f: Forest)
    requires under.sym.Some?
    ensures var (moved, left) := Absorbed(w, under, f);
      && (forall m <- TopLevel(moved) :: Belongs(under.sym.value, PromptIn(w, under), ShownIn(w, m)))
      && (left.Cons? ==> !Belongs(under.sym.value, PromptIn(w, under), ShownIn(w, left.m)))
    decreases Count(f)
  {
    hide Belongs;
    if f.Cons? && Belongs(under.sym.value, PromptIn(w, under), ShownIn(w, f.m)) {
      AbsorbedBelong(w, under, Finish(w, f).rest);
    }
  }

  /** So every absorbed item either depends on the symbol absolutely or is y only where the
      prompt above is not n, given operands that agree and distinct constants. */
  lemma AbsorbedJustified(w: Conds, under: Menu, f: Forest, m: Menu, env: Env)
    requires under.sym.Some? && m in TopLevel(Absorbed(w, under, f).0) && WellFormed(env)
    ensures var sym, prompt, item := under.sym.value, PromptIn(w, under), ShownIn(w, m);
      if Absolute(item, sym) then sym.Typed() && env.tri(sym) == NO ==> EvalOpt(item, env) == NO
      else ConstantsDistinct(ConstantsOpt(prompt) + ConstantsOpt(item), env)
           && OperandsAgreeOpt(prompt, env) && OperandsAgreeOpt(item, env) && EvalOpt(item, env) == YES
           ==> EvalOpt(prompt, env) != NO
  {
    hide Belongs, Absolute, WellFormed, ConstantsDistinct, Absorbed;
    AbsorbedBelong(w, under, f);
    BelongsJustified(under.sym.value, PromptIn(w, under), ShownIn(w, m), env);
  }

  /* ----- order and flatness ----- */

  lemma {:induction false} FlattenedOrder(f: Forest)
    ensures Preorder(Flattened(f)) == Preorder(f)
    decreases Count(f)
  {
    if f.Cons? {
      if f.kids.Cons? && !Titled(f.m) {
        AppendFacts(f.kids, f.rest);
        FlattenedOrder(Append(f.kids, f.rest));
        DropEmpty(f.m, Preorder(f.kids), Preorder(f.rest));
      } else {
        FlattenedOrder(f.rest);
      }
    }
  }

  lemma DropEmpty<T>(x: T, a: seq<T>, b: seq<T>)
    ensures [x] + [] + (a + b) == [x] + a + b
  {
  }

  /** Finalisation neither loses nor reorders nodes. */
  lemma {:induction false} FinishOrder(w: Conds, f: Forest)
    requires f.Cons?
    ensures Preorder(Finish(w, f)) == Preorder(f)
    decreases Count(f), 0
  {
    if f.kids.Cons? {
      FinishListOrder(w, f.kids);
      FlattenedOrder(FinishList(w, f.kids));
    } else {
      var (kids, rest) := Taken(w, f);
      if f.m.sym.Some? {
        AbsorbedOrder(w, f.m, f.rest);
      }
      FlattenedOrder(kids);
      DropEmpty(f.m, Preorder(kids), Preorder(rest));
    }
  }

  lemma {:induction false} FinishListOrder(w: Conds, f: Forest)
    ensures Preorder(FinishList(w, f)) == Preorder(f)
    decreases Count(f), 1
  {
    if f.Cons? {
      FinishOrder(w, f);
      FinishListOrder(w, Finish(w, f).rest);
    }
  }

  lemma {:induction false} AbsorbedOrder(w: Conds, under: Menu, f: Forest)
    requires under.sym.Some?
    ensures Preorder(Absorbed(w, under, f).0) + Preorder(Absorbed(w, under, f).1) == Preorder(f)
    decreases Count(f), 1
  {
    hide Belongs;
    if f.Cons? && Belongs(under.sym.value, PromptIn(w, under), ShownIn(w, f.m)) {
      var h := Finish(w, f);
      var (moved, left) := Absorbed(w, under, h.rest);
      FinishOrder(w, f);
      AbsorbedOrder(w, under, h.rest);
      assert [h.m] + Preorder(h.kids) + Preorder(moved) + Preorder(left) == [h.m] + Preorder(h.kids) + Preorder(h.rest);
    }
  }

  lemma {:induction false} FlattenedFlat(f: Forest)
    requires KidsFlat(f)
    ensures AllFlat(Flattened(f))
    decreases Count(f)
  {
    if f.Cons? {
      if f.kids.Cons? && !Titled(f.m) {
        AppendFacts(f.kids, f.rest);
        FlatAppend(f.kids, Nil);
        AppendNil(f.kids);
        KidsFlatAppend(f.kids, f.rest);
        FlattenedFlat(Append(f.kids, f.rest));
      } else {
        FlattenedFlat(f.rest);
      }
    }
  }

  lemma KidsFlatAppend(k: Forest, r: Forest)
    requires AllFlat(k) && KidsFlat(r)
    ensures KidsFlat(Append(k, r))
  {
    FlatAppend(k, r);
    FlatAppend(k, Nil);
  }

  /** Below a finalised node only nodes with a prompt have children. */
  lemma {:induction false} FinishFlat(w: Conds, f: Forest)
    requires f.Cons?
    ensures AllFlat(Finish(w, f).kids)
    decreases Count(f), 0
  {
    if f.kids.Cons? {
      FinishListFlat(w, f.kids);
      FlattenedFlat(FinishList(w, f.kids));
    } else {
      if f.m.sym.Some? {
        AbsorbedFlat(w, f.m, f.rest);
      }
      FlattenedFlat(Taken(w, f).0);
    }
  }

  lemma {:induction false} FinishListFlat(w: Conds, f: Forest)
    ensures KidsFlat(FinishList(w, f))
    decreases Count(f), 1
  {
    if f.Cons? {
      FinishFlat(w, f);
      FinishListFlat(w, Finish(w, f).rest);
    }
  }

  lemma {:induction false} AbsorbedFlat(w: Conds, under: Menu, f: Forest)
    requires under.sym.Some?
    ensures KidsFlat(Absorbed(w, under, f).0)
    decreases Count(f), 1
  {
    hide Belongs;
    if f.Cons? && Belongs(under.sym.value, PromptIn(w, under), ShownIn(w, f.m)) {
      FinishFlat(w, f);
      AbsorbedFlat(w, under, Finish(w, f).rest);
    }
  }

  /** What is left is untouched: some of the trees that followed. */
  lemma {:induction false} FinishSuffix(w: Conds, f: Forest)
    requires f.Cons?
    ensures SuffixOf(Finish(w, f).rest, f.rest)
    decreases Count(f), 0
  {
    if f.kids == Nil && f.m.sym.Some? {
      AbsorbedSuffix(w, f.m, f.rest);
    }
  }

  lemma {:induction false} AbsorbedSuffix(w: Conds, under: Menu, f: Forest)
    requires under.sym.Some?
    ensures SuffixOf(Absorbed(w, under, f).1, f)
    decreases Count(f), 1
  {
    hide Belongs;
    if f.Cons? && Belongs(under.sym.value, PromptIn(w, under), ShownIn(w, f.m)) {
      var h := Finish(w, f);
      FinishSuffix(w, f);
      AbsorbedSuffix(w, under, h.rest);
      SuffixTrans(Absorbed(w, under, h.rest).1, h.rest, f.rest);
    }
  }

  /* ----- which symbols become values of choices ----- */

  type Props = map<Symbol, seq<Property>>

  /** The properties of symbols, the symbols that are values of some choice, the values of
      every choice, and the choice that a node was registered with. */
  datatype Book = Book(props: Props, vals: set<Symbol>, members: map<Symbol, seq<Symbol>>, at: map<Menu, Symbol>)

  function OwnProps(props: Props, s: Symbol): seq<Property> {
    if s in props then props[s] else []
  }

  function MembersOf(members: map<Symbol, seq<Symbol>>, choice: Symbol): seq<Symbol> {
    if choice in members then members[choice] else []
  }

  /** The properties of a new value of a choice: one more, which links to the choice. */
  function Linked(props: Props, s: Symbol, m: Menu, choice: Symbol): Props {
    var own := OwnProps(props, s);
    props[s := own + [Property(|own|, ChoiceLink, false, m, Some(choice))]]
  }

  /** A symbol that is to become a value of the choice it stands in. */
  predicate NewMember(choices: set<Symbol>, k: Book, parent: Menu, m: Menu) {
    parent.sym.Some? && parent.sym.value in choices && m.sym.Some? && m.sym.value !in k.vals
  }

  /** m is looked at as a child of parent. */
  function Register(choices: set<Symbol>, k: Book, parent: Menu, m: Menu): Book {
    if NewMember(choices, k, parent, m) then
      var choice, s := parent.sym.value, m.sym.value;
      Book(Linked(k.props, s, m, choice), k.vals + {s}, k.members[choice := MembersOf(k.members, choice) + [s]], k.at[m := choice])
    else k
  }

  lemma NewMemberIs(choices: set<Symbol>, k: Book, parent: Menu, m: Menu)
    ensures NewMember(choices, k, parent, m) ==> parent.sym.Some? && m.sym.Some?
    ensures NewMember(choices, k, parent, m) ==> Register(choices, k, parent, m).at == k.at[m := parent.sym.value]
    ensures !NewMember(choices, k, parent, m) ==> Register(choices, k, parent, m) == k
  {
  }

  /** The children ms of parent are looked at in order. */
  function RegisterAll(choices: set<Symbol>, k: Book, parent: Menu, ms: seq<Menu>): Book
    decreases |ms|
  {
    if ms == [] then k else RegisterAll(choices, Register(choices, k, parent, ms[0]), parent, ms[1..])
  }

  /** Finalising the first tree of f: first its children, which may be following items, and
      then the node looks at the children it is left with. */
  ghost function RegisterNode(w: Conds, choices: set<Symbol>, k: Book, f: Forest): Book
    requires f.Cons?
    decreases Count(f), 1
  {
    var (kids, inner) :=
      if f.kids.Cons? then (FinishList(w, f.kids), RegisterList(w, choices, k, f.kids))
      else (Taken(w, f).0, RegisterTaken(w, choices, k, f));
    RegisterAll(choices, inner, f.m, Roots(Flattened(kids)))
  }

  ghost function RegisterList(w: Conds, choices: set<Symbol>, k: Book, f: Forest): Book
    decreases Count(f), 2
  {
    if f == Nil then k
    else RegisterList(w, choices, RegisterNode(w, choices, k, f), Finish(w, f).rest)
  }

  ghost function RegisterTaken(w: Conds, choices: set<Symbol>, k: Book, f: Forest): Book
    requires f.Cons? && f.kids == Nil
    decreases Count(f), 0
  {
    if f.m.sym.Some? then RegisterAbsorbed(w, choices, k, f.m, f.rest) else k
  }

  ghost function RegisterAbsorbed(w: Conds, choices: set<Symbol>, k: Book, under: Menu, f: Forest): Book
    requires under.sym.Some?
    decreases Count(f), 2
  {
    if f == Nil || !Belongs(under.sym.value, PromptIn(w, under), ShownIn(w, f.m)) then k
    else RegisterAbsorbed(w, choices, RegisterNode(w, choices, k, f), under, Finish(w, f).rest)
  }

  lemma RegisterNext(w: Conds, choices: set<Symbol>, k: Book, under: Menu, f: Forest)
    requires under.sym.Some?
    ensures RegisterAbsorbed(w, choices, k, under, f) ==
      if f.Cons? && Belongs(under.sym.value, PromptIn(w, under), ShownIn(w, f.m))
      then RegisterAbsorbed(w, choices, RegisterNode(w, choices, k, f), under, Finish(w, f).rest)
      else k
  {
    hide Belongs;
  }

  lemma RegisterListNext(w: Conds, choices: set<Symbol>, k: Book, f: Forest)
    ensures f == Nil ==> RegisterList(w, choices, k, f) == k
    ensures f.Cons? ==> RegisterList(w, choices, k, f) == RegisterList(w, choices, RegisterNode(w, choices, k, f), Finish(w, f).rest)
  {
  }

  /** The first of the flattened children is looked at before the others. */
  lemma RegisterFirst(choices: set<Symbol>, k: Book, parent: Menu, left: Forest, h: Forest)
    requires left.Cons? && if left.kids.Cons? && !Titled(left.m) then h == Cons(left.m, Nil, Append(left.kids, left.rest)) else h == left
    ensures RegisterAll(choices, k, parent, Roots(Flattened(left)))
         == RegisterAll(choices, Register(choices, k, parent, left.m), parent, Roots(Flattened(h.rest)))
  {
    hide Register;
    assert Roots(Flattened(left)) == [left.m] + Roots(Flattened(h.rest));
    assert Roots(Flattened(left))[1..] == Roots(Flattened(h.rest));
  }

  lemma RegisterNone(choices: set<Symbol>, k: Book, parent: Menu, f: Forest)
    ensures f == Nil ==> RegisterAll(choices, k, parent, Roots(Flattened(f))) == k
  {
  }

  lemma RegisterNodeIs(w: Conds, choices: set<Symbol>, k: Book, inner: Book, f: Forest, kids: Forest)
    requires f.Cons? && kids == if f.kids.Cons? then FinishList(w, f.kids) else Taken(w, f).0
    requires inner == if f.kids.Cons? then RegisterList(w, choices, k, f.kids) else RegisterTaken(w, choices, k, f)
    ensures RegisterNode(w, choices, k, f) == RegisterAll(choices, inner, f.m, Roots(Flattened(kids)))
  {
  }

  lemma RegisterTakenIs(w: Conds, choices: set<Symbol>, k: Book, f: Forest)
    requires f.Cons? && f.kids == Nil
    ensures RegisterTaken(w, choices, k, f) == if f.m.sym.Some? then RegisterAbsorbed(w, choices, k, f.m, f.rest) else k
  {
  }

  /** Every symbol that is a value is so of one choice, once. */
  ghost predicate ValuesOnce(k: Book) {
    && (forall c <- k.members.Keys, s <- k.members[c] :: s in k.vals)
    && (forall s <- k.vals :: exists c <- k.members.Keys :: s in k.members[c])
    && (forall c <- k.members.Keys, i, d <- k.members.Keys, j ::
          0 <= i < |k.members[c]| && 0 <= j < |k.members[d]| && k.members[c][i] == k.members[d][j] ==> c == d && i == j)
  }

  lemma RegisterOnce(choices: set<Symbol>, k: Book, parent: Menu, m: Menu)
    requires ValuesOnce(k)
    ensures ValuesOnce(Register(choices, k, parent, m))
  {
    var k' := Register(choices, k, parent, m);
    if NewMember(choices, k, parent, m) {
      var choice, s := parent.sym.value, m.sym.value;
      forall t <- k'.vals
        ensures exists c <- k'.members.Keys :: t in k'.members[c]
      {
        if t == s {
          assert s in k'.members[choice];
        } else {
          var c :| c in k.members.Keys && t in k.members[c];
          assert t in k'.members[c];
        }
      }
    }
  }

  lemma {:induction false} RegisterAllOnce(choices: set<Symbol>, k: Book, parent: Menu, ms: seq<Menu>)
    requires ValuesOnce(k)
    ensures ValuesOnce(RegisterAll(choices, k, parent, ms))
    decreases |ms|
  {
    if ms != [] {
      RegisterOnce(choices, k, parent, ms[0]);
      RegisterAllOnce(choices, Register(choices, k, parent, ms[0]), parent, ms[1..]);
    }
  }

  /** Finalisation keeps that so. */
  lemma {:induction false} RegisterNodeOnce(w: Conds, choices: set<Symbol>, k: Book, f: Forest)
    requires f.Cons? && ValuesOnce(k)
    ensures ValuesOnce(RegisterNode(w, choices, k, f))
    decreases Count(f), 1
  {
    hide ValuesOnce, Belongs;
    if f.kids.Cons? {
      RegisterListOnce(w, choices, k, f.kids);
      RegisterAllOnce(choices, RegisterList(w, choices, k, f.kids), f.m, Roots(Flattened(FinishList(w, f.kids))));
    } else {
      if f.m.sym.Some? {
        RegisterAbsorbedOnce(w, choices, k, f.m, f.rest);
      }
      RegisterAllOnce(choices, RegisterTaken(w, choices, k, f), f.m, Roots(Flattened(Taken(w, f).0)));
    }
  }

  lemma {:induction false} RegisterListOnce(w: Conds, choices: set<Symbol>, k: Book, f: Forest)
    requires ValuesOnce(k)
    ensures ValuesOnce(RegisterList(w, choices, k, f))
    decreases Count(f), 2
  {
    hide ValuesOnce, Belongs;
    if f.Cons? {
      RegisterNodeOnce(w, choices, k, f);
      RegisterListOnce(w, choices, RegisterNode(w, choices, k, f), Finish(w, f).rest);
    }
  }

  lemma {:induction false} RegisterAbsorbedOnce(w: Conds, choices: set<Symbol>, k: Book, under: Menu, f: Forest)
    requires under.sym.Some? && ValuesOnce(k)
    ensures ValuesOnce(RegisterAbsorbed(w, choices, k, under, f))
    decreases Count(f), 2
  {
    hide ValuesOnce, Belongs;
    if f.Cons? && Belongs(under.sym.value, PromptIn(w, under), ShownIn(w, f.m)) {
      RegisterNodeOnce(w, choices, k, f);
      RegisterAbsorbedOnce(w, choices, RegisterNode(w, choices, k, f), under, Finish(w, f).rest);
    }
  }

  /* ----- what the conditions become ----- */

  /** The conditions before finalisation and those wanted after it, the properties and
      the parsed children of every node, and what is known of the symbols. */
  datatype Plan = Plan(init: Conds, want: Conds, own: map<Menu, seq<Property>>, kids: map<Menu, seq<Menu>>,
                       modules: Symbol, choices: set<Symbol>, optional: set<Symbol>)

  ghost function OwnOf(plan: Plan, m: Menu): seq<Property> {
    if m in plan.own then plan.own[m] else []
  }

  ghost function KidsOf(plan: Plan, m: Menu): seq<Menu> {
    if m in plan.kids then plan.kids[m] else []
  }

  /** What children inherit from m: a choice's symbol, the condition of a prompt, or the
      node's condition. */
  ghost function PassedOn(plan: Plan, m: Menu): Option<Expr> {
    if m.sym.Some? && m.sym.value in plan.choices then Some(Sym(m.sym.value))
    else if m.title.Some? then Lookup(plan.want.visible, PromptOf(m))
    else DepIn(plan.want, m)
  }

  /** The wanted conditions of one node and its properties are the inherited ones. */
  ghost predicate NodeInherits(plan: Plan, parentdep: Option<Expr>, m: Menu) {
    && m in plan.own
    && DepIn(plan.want, m) == Inherit(parentdep, DepIn(plan.init, m), plan.modules)
    && forall p <- Mentioned(plan, m) :: p.at == m ==> Lookup(plan.want.visible, p) == WantedCond(plan, m, p)
  }

  /** All properties that the plan speaks of at m. */
  ghost function Mentioned(plan: Plan, m: Menu): set<Property> {
    plan.init.visible.Keys + plan.want.visible.Keys + (set p | p in OwnOf(plan, m))
  }

  ghost function WantedCond(plan: Plan, m: Menu, p: Property): Option<Expr> {
    if p in OwnOf(plan, m) then PropertyCond(DepIn(plan.want, m), Lookup(plan.init.visible, p), plan.modules, Binary(m))
    else Lookup(plan.init.visible, p)
  }

  ghost predicate AllInherit(plan: Plan, parentdep: Option<Expr>, f: Forest) {
    f.Cons? ==> NodeInherits(plan, parentdep, f.m) && AllInherit(plan, parentdep, f.rest)
  }

  /** Everything below the roots of f inherits from its parent. */
  ghost predicate Planned(plan: Plan, f: Forest) {
    f.Cons? ==>
      && KidsOf(plan, f.m) == Roots(f.kids)
      && AllInherit(plan, PassedOn(plan, f.m), f.kids)
      && Planned(plan, f.kids) && Planned(plan, f.rest)
  }

  lemma {:induction false} PlannedSuffix(plan: Plan, g: Forest, f: Forest)
    requires Planned(plan, f) && SuffixOf(g, f)
    ensures Planned(plan, g)
  {
    if g != f {
      PlannedSuffix(plan, g, f.rest);
    }
  }

  /* ----- the plan for a parsed tree ----- */

  ghost function SpreadNode(plan: Plan, parentdep: Option<Expr>, m: Menu): Plan {
    var dep := Inherit(parentdep, DepIn(plan.init, m), plan.modules);
    var visible := map p | p in OwnOf(plan, m) && p.at == m :: PropertyCond(dep, Lookup(plan.init.visible, p), plan.modules, Binary(m));
    plan.(want := Conds(plan.want.dep[m := dep], plan.want.visible + visible))
  }

  /** The plan with the wanted conditions of all nodes of f filled in, top down. */
  ghost function Spread(plan: Plan, parentdep: Option<Expr>, f: Forest): Plan
    decreases f
  {
    if f == Nil then plan
    else
      var here := SpreadNode(plan, parentdep, f.m);
      Spread(Spread(here, PassedOn(here, f.m), f.kids), parentdep, f.rest)
  }

  /** The two plans differ at most in the conditions wanted at nodes in s. */
  ghost predicate SameBut(s: set<Menu>, a: Plan, b: Plan) {
    && b == a.(want := b.want)
    && (forall m <- a.want.dep.Keys + b.want.dep.Keys :: m !in s ==> DepIn(b.want, m) == DepIn(a.want, m))
    && SameConds(s, a.want.visible, b.want.visible)
  }

  lemma {:induction false} SpreadElsewhere(plan: Plan, parentdep: Option<Expr>, f: Forest)
    ensures SameBut(Nodes(f), plan, Spread(plan, parentdep, f))
    decreases f
  {
    if f.Cons? {
      var here := SpreadNode(plan, parentdep, f.m);
      var below := Spread(here, PassedOn(here, f.m), f.kids);
      SpreadElsewhere(here, PassedOn(here, f.m), f.kids);
      SpreadElsewhere(below, parentdep, f.rest);
      SpreadNodeElsewhere(plan, parentdep, f.m);
      SameButTrans({f.m}, Nodes(f.kids), plan, here, below);
      SameButTrans({f.m} + Nodes(f.kids), Nodes(f.rest), plan, below, Spread(plan, parentdep, f));
    }
  }

  lemma SpreadNodeElsewhere(plan: Plan, parentdep: Option<Expr>, m: Menu)
    ensures SameBut({m}, plan, SpreadNode(plan, parentdep, m))
  {
  }

  lemma SameButTrans(s: set<Menu>, t: set<Menu>, a: Plan, b: Plan, c: Plan)
    requires SameBut(s, a, b) && SameBut(t, b, c)
    ensures SameBut(s + t, a, c)
  {
    hide Lookup;
    SameCondsTrans(s, t, a.want.visible, b.want.visible, c.want.visible);
    forall m <- a.want.dep.Keys + c.want.dep.Keys | m !in s + t
      ensures DepIn(c.want, m) == DepIn(a.want, m)
    {
      SameDep(s, a, b, m);
      SameDep(t, b, c, m);
    }
  }

  lemma SameDep(s: set<Menu>, a: Plan, b: Plan, m: Menu)
    requires SameBut(s, a, b) && m !in s
    ensures DepIn(b.want, m) == DepIn(a.want, m)
  {
  }

  lemma SameCond(s: set<Menu>, a: Plan, b: Plan, p: Property)
    requires SameBut(s, a, b) && (p.at == null || p.at !in s)
    ensures Lookup(b.want.visible, p) == Lookup(a.want.visible, p)
  {
  }

  /** What holds at a node still does after changes elsewhere. */
  lemma NodeStill(s: set<Menu>, a: Plan, b: Plan, parentdep: Option<Expr>, m: Menu)
    requires SameBut(s, a, b) && m !in s
    ensures NodeInherits(a, parentdep, m) ==> NodeInherits(b, parentdep, m)
    ensures PassedOn(b, m) == PassedOn(a, m)
  {
    hide Inherit, PropertyCond;
    SameDep(s, a, b, m);
    if m.title.Some? {
      SameCond(s, a, b, PromptOf(m));
    }
    if NodeInherits(a, parentdep, m) {
      forall p <- Mentioned(b, m) | p.at == m
        ensures Lookup(b.want.visible, p) == WantedCond(b, m, p)
      {
        SameCond(s, a, b, p);
        if p !in Mentioned(a, m) {
          assert Lookup(a.want.visible, p) == None && Lookup(a.init.visible, p) == None;
        }
      }
    }
  }

  lemma {:induction false} AllStill(s: set<Menu>, a: Plan, b: Plan, parentdep: Option<Expr>, f: Forest)
    requires SameBut(s, a, b) && s !! TopLevel(f) && AllInherit(a, parentdep, f)
    ensures AllInherit(b, parentdep, f)
  {
    hide NodeInherits, SameBut;
    if f.Cons? {
      NodeStill(s, a, b, parentdep, f.m);
      AllStill(s, a, b, parentdep, f.rest);
    }
  }

  lemma {:induction false} PlannedStill(s: set<Menu>, a: Plan, b: Plan, f: Forest)
    requires SameBut(s, a, b) && s !! Nodes(f) && Planned(a, f)
    ensures Planned(b, f)
  {
    hide NodeInherits, AllInherit, PassedOn;
    if f.Cons? {
      NodeStill(s, a, b, None, f.m);
      TopAndBelow(f.kids);
      AllStill(s, a, b, PassedOn(a, f.m), f.kids);
      PlannedStill(s, a, b, f.kids);
      PlannedStill(s, a, b, f.rest);
    }
  }

  /** At these nodes the plan wants what there is. */
  ghost predicate Unset(plan: Plan, s: set<Menu>) {
    forall p <- plan.init.visible.Keys + plan.want.visible.Keys :: p.at in s ==> Lookup(plan.want.visible, p) == Lookup(plan.init.visible, p)
  }

  lemma StillUnset(s: set<Menu>, a: Plan, b: Plan, u: set<Menu>)
    requires SameBut(s, a, b) && Unset(a, u) && s !! u
    ensures Unset(b, u)
  {
    forall p <- b.init.visible.Keys + b.want.visible.Keys | p.at in u
      ensures Lookup(b.want.visible, p) == Lookup(b.init.visible, p)
    {
      SameCond(s, a, b, p);
    }
  }

  lemma SpreadNodeInherits(plan: Plan, parentdep: Option<Expr>, m: Menu)
    requires m in plan.own && (forall p <- OwnOf(plan, m) :: p.at == m) && Unset(plan, {m})
    ensures NodeInherits(SpreadNode(plan, parentdep, m), parentdep, m)
  {
    hide Inherit, PropertyCond;
  }

  ghost predicate KidsKnown(plan: Plan, f: Forest) {
    f.Cons? ==>
      && KidsOf(plan, f.m) == Roots(f.kids) && f.m in plan.own && (forall p <- OwnOf(plan, f.m) :: p.at == f.m)
      && KidsKnown(plan, f.kids) && KidsKnown(plan, f.rest)
  }

  lemma {:induction false} KidsKnownStill(a: Plan, b: Plan, f: Forest)
    requires KidsKnown(a, f) && b == a.(want := b.want)
    ensures KidsKnown(b, f)
  {
    if f.Cons? {
      KidsKnownStill(a, b, f.kids);
      KidsKnownStill(a, b, f.rest);
    }
  }

  /** Filling in top down yields a plan in which everything inherits from its parent. */
  lemma {:induction false} SpreadPlanned(plan: Plan, parentdep: Option<Expr>, f: Forest)
    requires Distinct(f) && KidsKnown(plan, f) && Unset(plan, Nodes(f))
    ensures AllInherit(Spread(plan, parentdep, f), parentdep, f) && Planned(Spread(plan, parentdep, f), f)
    decreases f
  {
    hide NodeInherits, SameBut, Unset, PassedOn, SpreadNode;
    if f.Cons? {
      var m, here := f.m, SpreadNode(plan, parentdep, f.m);
      var below := Spread(here, PassedOn(here, m), f.kids);
      var all := Spread(below, parentdep, f.rest);
      HeadApart(f);
      SpreadNodeElsewhere(plan, parentdep, m);
      SpreadElsewhere(here, PassedOn(here, m), f.kids);
      SpreadElsewhere(below, parentdep, f.rest);
      UnsetParts(plan, f);
      SpreadNodeInherits(plan, parentdep, m);
      KidsKnownSame(plan, here, f, {m});
      StillUnset({m}, plan, here, Nodes(f.kids));
      StillUnset({m}, plan, here, Nodes(f.rest));
      SpreadPlanned(here, PassedOn(here, m), f.kids);
      KidsKnownSame(here, below, f, Nodes(f.kids));
      StillUnset(Nodes(f.kids), here, below, Nodes(f.rest));
      SpreadPlanned(below, parentdep, f.rest);
      NodeStill(Nodes(f.kids), here, below, parentdep, m);
      NodeStill(Nodes(f.rest), below, all, parentdep, m);
      TopAndBelow(f.kids);
      AllStill(Nodes(f.rest), below, all, PassedOn(here, m), f.kids);
      PlannedStill(Nodes(f.rest), below, all, f.kids);
      KidsSame(below, all, m, Nodes(f.rest));
    }
  }

  lemma UnsetParts(plan: Plan, f: Forest)
    requires f.Cons? && Unset(plan, Nodes(f))
    ensures Unset(plan, {f.m}) && Unset(plan, Nodes(f.kids)) && Unset(plan, Nodes(f.rest))
  {
  }

  lemma KidsKnownSame(a: Plan, b: Plan, f: Forest, s: set<Menu>)
    requires KidsKnown(a, f) && SameBut(s, a, b)
    ensures KidsKnown(b, f)
  {
    KidsKnownStill(a, b, f);
  }

  lemma KidsSame(a: Plan, b: Plan, m: Menu, s: set<Menu>)
    requires SameBut(s, a, b)
    ensures KidsOf(b, m) == KidsOf(a, m)
  {
  }

  /* ----- what the wanted conditions mean ----- */

  /** The prompt of every node is among the properties looked at for it. */
  ghost predicate PromptsListed(plan: Plan, f: Forest) {
    f.Cons? ==>
      && (f.m.title.Some? ==> PromptOf(f.m) in OwnOf(plan, f.m))
      && PromptsListed(plan, f.kids) && PromptsListed(plan, f.rest)
  }

  /** The constants in the conditions of a node and its properties before finalisation. */
  ghost function NodeConstants(plan: Plan, m: Menu): set<Symbol> {
    ConstantsOpt(DepIn(plan.init, m)) + set p, s | p in OwnOf(plan, m) && s in ConstantsOpt(Lookup(plan.init.visible, p)) :: s
  }

  ghost function AllConstants(plan: Plan, f: Forest): set<Symbol> {
    if f == Nil then {} else NodeConstants(plan, f.m) + AllConstants(plan, f.kids) + AllConstants(plan, f.rest)
  }

  /** At m: normal form, and the value of the inherited and the own condition together,
      for properties of a symbol that cannot be m up to promotion. */
  ghost predicate NodeMeans(plan: Plan, parentdep: Option<Expr>, m: Menu, env: Env) {
    var dep := DepIn(plan.want, m);
    && NormalOpt(dep)
    && EvalOpt(dep, env) == Min(EvalOpt(parentdep, env), EvalOpt(DepIn(plan.init, m), LimitM(env, plan.modules)))
    && forall p <- OwnOf(plan, m) :: p.at == m ==> PropertyMeans(plan, m, p, env)
  }

  ghost predicate AllMean(plan: Plan, parentdep: Option<Expr>, f: Forest, env: Env)
    decreases f
  {
    f.Cons? ==>
      && NodeMeans(plan, parentdep, f.m, env)
      && AllMean(plan, PassedOn(plan, f.m), f.kids, env) && AllMean(plan, parentdep, f.rest, env)
  }

  lemma NodeMeaning(plan: Plan, parentdep: Option<Expr>, m: Menu, env: Env)
    requires NodeInherits(plan, parentdep, m) && NormalOpt(parentdep)
    requires WellFormed(env) && ConstantsDistinct(ConstantsOpt(parentdep) + NodeConstants(plan, m), env)
    ensures NodeMeans(plan, parentdep, m, env)
    ensures ConstantsOpt(DepIn(plan.want, m)) <= ConstantsOpt(parentdep) + NodeConstants(plan, m)
    ensures forall p <- OwnOf(plan, m) :: p.at == m ==>
      ConstantsOpt(Lookup(plan.want.visible, p)) <= ConstantsOpt(parentdep) + NodeConstants(plan, m)
  {
    hide WellFormed, ConstantsDistinct, Inherit, PropertyCond, Lookup;
    var own, dep, all := DepIn(plan.init, m), DepIn(plan.want, m), ConstantsOpt(parentdep) + NodeConstants(plan, m);
    InheritShape(parentdep, own, plan.modules);
    DistinctFewer(ConstantsOpt(parentdep) + ConstantsOpt(own), all, env);
    InheritValue(parentdep, own, plan.modules, env);
    forall p <- OwnOf(plan, m) | p.at == m
      ensures PropertyMeans(plan, m, p, env)
      ensures ConstantsOpt(Lookup(plan.want.visible, p)) <= all
    {
      PropertyMeaning(plan, parentdep, m, p, env);
    }
  }

  ghost predicate PropertyMeans(plan: Plan, m: Menu, p: Property, env: Env) {
    var dep := DepIn(plan.want, m);
    var joint := Min(EvalOpt(dep, env), EvalOpt(Lookup(plan.init.visible, p), LimitM(env, plan.modules)));
    var now := Lookup(plan.want.visible, p);
    NormalOpt(now) && if m.sym.Some? && m.sym.value.Type() != Tri then Promote(EvalOpt(now, env)) == Promote(joint) else EvalOpt(now, env) == joint
  }

  lemma PropertyMeaning(plan: Plan, parentdep: Option<Expr>, m: Menu, p: Property, env: Env)
    requires NodeInherits(plan, parentdep, m) && p in OwnOf(plan, m) && p.at == m
    requires var dep := DepIn(plan.want, m);
      NormalOpt(dep) && ConstantsOpt(dep) <= ConstantsOpt(parentdep) + NodeConstants(plan, m)
    requires WellFormed(env) && ConstantsDistinct(ConstantsOpt(parentdep) + NodeConstants(plan, m), env)
    ensures PropertyMeans(plan, m, p, env)
    ensures ConstantsOpt(Lookup(plan.want.visible, p)) <= ConstantsOpt(parentdep) + NodeConstants(plan, m)
  {
    hide WellFormed, ConstantsDistinct, Inherit, PropertyCond, Lookup;
    var dep, own := DepIn(plan.want, m), Lookup(plan.init.visible, p);
    assert p in Mentioned(plan, m);
    assert Lookup(plan.want.visible, p) == PropertyCond(dep, own, plan.modules, Binary(m));
    assert ConstantsOpt(own) <= NodeConstants(plan, m);
    PropertyCondShape(dep, own, plan.modules, Binary(m));
    DistinctFewer(ConstantsOpt(dep) + ConstantsOpt(own), ConstantsOpt(parentdep) + NodeConstants(plan, m), env);
    PropertyCondValue(dep, own, plan.modules, Binary(m), env);
  }

  /** Everywhere below a parent in normal form the wanted conditions are in normal form and
      mean what is inherited together with what was there. */
  lemma {:induction false} PlanMeaning(plan: Plan, parentdep: Option<Expr>, f: Forest, env: Env)
    requires AllInherit(plan, parentdep, f) && Planned(plan, f) && PromptsListed(plan, f) && NormalOpt(parentdep)
    requires WellFormed(env) && ConstantsDistinct(ConstantsOpt(parentdep) + AllConstants(plan, f), env)
    ensures AllMean(plan, parentdep, f, env)
    decreases f
  {
    hide WellFormed, ConstantsDistinct, NodeInherits, NodeMeans, NodeConstants;
    if f.Cons? {
      var all := ConstantsOpt(parentdep) + AllConstants(plan, f);
      DistinctFewer(ConstantsOpt(parentdep) + NodeConstants(plan, f.m), all, env);
      NodeMeaning(plan, parentdep, f.m, env);
      PassedOnMeaning(plan, parentdep, f.m, env);
      DistinctFewer(ConstantsOpt(PassedOn(plan, f.m)) + AllConstants(plan, f.kids), all, env);
      PlanMeaning(plan, PassedOn(plan, f.m), f.kids, env);
      DistinctFewer(ConstantsOpt(parentdep) + AllConstants(plan, f.rest), all, env);
      PlanMeaning(plan, parentdep, f.rest, env);
    }
  }

  lemma PassedOnMeaning(plan: Plan, parentdep: Option<Expr>, m: Menu, env: Env)
    requires NodeMeans(plan, parentdep, m, env) && (m.title.Some? ==> PromptOf(m) in OwnOf(plan, m))
    requires ConstantsOpt(DepIn(plan.want, m)) <= ConstantsOpt(parentdep) + NodeConstants(plan, m)
    requires forall p <- OwnOf(plan, m) :: p.at == m ==>
      ConstantsOpt(Lookup(plan.want.visible, p)) <= ConstantsOpt(parentdep) + NodeConstants(plan, m)
    ensures NormalOpt(PassedOn(plan, m)) && ConstantsOpt(PassedOn(plan, m)) <= ConstantsOpt(parentdep) + NodeConstants(plan, m)
  {
    hide NodeConstants, Lookup;
  }

  /* ----- what nodes add to the dependencies of symbols ----- */

  /** Dependencies collected for symbols: by selects, by implications, from nodes. */
  datatype Revs = Revs(revDep: Reverse, implied: Reverse, dirDep: Reverse)

  datatype Which = Selects | Implies | Depends

  function RevIn(r: Revs, which: Which, s: Symbol): Option<Expr> {
    Lookup(match which case Selects => r.revDep case Implies => r.implied case Depends => r.dirDep, s)
  }

  type Share = (Which, Symbol, Env) -> Tristate

  /** Every dependency became exactly stronger by its share. */
  ghost predicate Raises(share: Share, was: Revs, now: Revs) {
    forall which: Which, s: Symbol, env: Env :: ConstantsFixed(env) ==>
      EvalRev(RevIn(now, which, s), env) == Max(EvalRev(RevIn(was, which, s), env), share(which, s, env))
  }

  function Both(a: Share, b: Share): Share {
    (which, s, env) => Max(a(which, s, env), b(which, s, env))
  }

  ghost predicate SameShare(a: Share, b: Share) {
    forall which: Which, s: Symbol, env: Env :: ConstantsFixed(env) ==> a(which, s, env) == b(which, s, env)
  }

  lemma RaisesTrans(a: Share, b: Share, r0: Revs, r1: Revs, r2: Revs)
    requires Raises(a, r0, r1) && Raises(b, r1, r2)
    ensures Raises(Both(a, b), r0, r2)
  {
    hide EvalRev, RevIn;
  }

  lemma RaisesSame(a: Share, b: Share, was: Revs, now: Revs)
    requires Raises(a, was, now) && SameShare(a, b)
    ensures Raises(b, was, now)
  {
    hide EvalRev, RevIn;
  }

  function KindOf(which: Which): PropKind {
    if which == Selects then Select else Imply
  }

  /** What a node adds when its conditions are passed to its children: their selects and
      implications. */
  ghost function KidsShare(plan: Plan, ks: seq<Menu>, which: Which, s: Symbol, env: Env): Tristate {
    if ks == [] || which == Depends then NO
    else
      var k := ks[|ks| - 1];
      Max(KidsShare(plan, ks[..|ks| - 1], which, s, env), Pull(KindOf(which), k, OwnOf(plan, k), plan.want.visible, s, env))
  }

  /** What a node without children adds to the direct dependency of its symbol. */
  ghost function DirShare(plan: Plan, m: Menu, which: Which, s: Symbol, env: Env): Tristate {
    if which == Depends && m.sym == Some(s) && KidsOf(plan, m) == [] then EvalRev(DepIn(plan.want, m), env) else NO
  }

  /** A choice that is not optional is at least m where it is visible. */
  ghost function ModeShare(plan: Plan, m: Menu, which: Which, s: Symbol, env: Env): Tristate {
    if which == Selects && m.sym == Some(s) && s !in plan.optional && m.title.Some? then Min(EvalOpt(PromptIn(plan.want, m), env), MOD)
    else NO
  }

  ghost function NodeShare(plan: Plan, m: Menu, which: Which, s: Symbol, env: Env): Tristate {
    Max(KidsShare(plan, KidsOf(plan, m), which, s, env), Max(DirShare(plan, m, which, s, env), ModeShare(plan, m, which, s, env)))
  }

  /** What finalising these nodes adds. */
  ghost function Total(plan: Plan, ns: seq<Menu>, which: Which, s: Symbol, env: Env): Tristate {
    if ns == [] then NO
    else Max(Total(plan, ns[..|ns| - 1], which, s, env), NodeShare(plan, ns[|ns| - 1], which, s, env))
  }

  ghost function TotalOf(plan: Plan, ns: seq<Menu>): Share {
    (which, s, env) => Total(plan, ns, which, s, env)
  }

  ghost function KidsShareOf(plan: Plan, ks: seq<Menu>): Share {
    (which, s, env) => KidsShare(plan, ks, which, s, env)
  }

  ghost function DirShareOf(plan: Plan, m: Menu): Share {
    (which, s, env) => DirShare(plan, m, which, s, env)
  }

  ghost function ModeShareOf(plan: Plan, m: Menu): Share {
    (which, s, env) => ModeShare(plan, m, which, s, env)
  }

  lemma {:induction false} TotalAppend(plan: Plan, a: seq<Menu>, b: seq<Menu>, which: Which, s: Symbol, env: Env)
    ensures Total(plan, a + b, which, s, env) == Max(Total(plan, a, which, s, env), Total(plan, b, which, s, env))
    decreases b
  {
    hide NodeShare;
    if b == [] {
      assert a + b == a;
    } else {
      assert (a + b)[..|a + b| - 1] == a + b[..|b| - 1];
      TotalAppend(plan, a, b[..|b| - 1], which, s, env);
    }
  }

  /* ----- direct dependencies ----- */

  /** The direct dependency collected from the conditions of a symbol's nodes, in order. */
  function Collected(ds: seq<Option<Expr>>): Option<Expr> {
    if ds == [] then None else AllocOr(Collected(ds[..|ds| - 1]), ds[|ds| - 1])
  }

  /** What "some node's condition holds" means: a node without a condition counts as y. */
  function SomeHolds(ds: seq<Option<Expr>>, env: Env): Tristate {
    if ds == [] then NO else Max(SomeHolds(ds[..|ds| - 1], env), EvalOpt(ds[|ds| - 1], env))
  }

  lemma {:induction false} CollectedValue(ds: seq<Option<Expr>>, env: Env)
    ensures None !in ds ==> EvalRev(Collected(ds), env) == SomeHolds(ds, env)
    ensures EvalRev(Collected(ds), env) <= SomeHolds(ds, env)
    ensures None in ds ==> SomeHolds(ds, env) == YES
    ensures Collected(ds) == None <==> forall d <- ds :: d == None
  {
    if ds != [] {
      var before, last := ds[..|ds| - 1], ds[|ds| - 1];
      assert ds == before + [last];
      CollectedValue(before, env);
      assert last in ds && forall d <- before :: d in ds;
    }
  }

  /** Nodes without a condition are dropped from the direct dependency instead of making
      it y. It means "some node's condition holds" just when there is no such node, or no
      other, or some condition is y anyway. */
  lemma UnconditionalForgotten(ds: seq<Option<Expr>>, env: Env)
    requires ds != []
    ensures EvalOpt(Collected(ds), env) == SomeHolds(ds, env) <==>
      None !in ds || (forall d <- ds :: d == None) || exists d <- ds :: d.Some? && Eval(d.value, env) == YES
  {
    CollectedValue(ds, env);
    CollectedYes(ds, env);
    if forall d <- ds :: d == None {
      assert ds[0] in ds;
    }
  }

  /** The direct dependency is y just when some condition is. */
  lemma {:induction false} CollectedYes(ds: seq<Option<Expr>>, env: Env)
    ensures EvalRev(Collected(ds), env) == YES <==> exists d <- ds :: d.Some? && Eval(d.value, env) == YES
  {
    if ds != [] {
      var before, last := ds[..|ds| - 1], ds[|ds| - 1];
      assert ds == before + [last];
      CollectedYes(before, env);
      assert last in ds && forall d <- before :: d in ds;
      assert forall d <- ds :: d in before || d == last;
    }
  }

  /** A symbol with one node that depends on s and one that depends on nothing: where s is
      n its direct dependency is n although the second node is always there. */
  lemma SecondNodeForgotten(s: Symbol, env: Env)
    requires env.tri(s) == NO
    ensures var ds := [Some(Sym(s)), None];
      EvalOpt(Collected(ds), env) == NO && SomeHolds(ds, env) == YES
  {
    var ds := [Some(Sym(s)), None];
    assert ds[..1] == [Some(Sym(s))] && ds[..1][..0] == [];
    assert Collected([Some(Sym(s))]) == Some(Sym(s));
    assert None in ds;
    CollectedValue(ds, env);
  }

  lemma RaisesNothing(plan: Plan, r: Revs)
    ensures Raises(TotalOf(plan, []), r, r)
  {
  }

  /** First some nodes, then others. */
  lemma RaisesMore(plan: Plan, a: seq<Menu>, b: seq<Menu>, r0: Revs, r1: Revs, r2: Revs)
    requires Raises(TotalOf(plan, a), r0, r1) && Raises(TotalOf(plan, b), r1, r2)
    ensures Raises(TotalOf(plan, a + b), r0, r2)
  {
    RaisesTrans(TotalOf(plan, a), TotalOf(plan, b), r0, r1, r2);
    forall which: Which, s: Symbol, env: Env | ConstantsFixed(env)
      ensures Both(TotalOf(plan, a), TotalOf(plan, b))(which, s, env) == TotalOf(plan, a + b)(which, s, env)
    {
      TotalAppend(plan, a, b, which, s, env);
    }
    RaisesSame(Both(TotalOf(plan, a), TotalOf(plan, b)), TotalOf(plan, a + b), r0, r2);
  }

  lemma NodeAndOthers(plan: Plan, m: Menu, ns: seq<Menu>, which: Which, s: Symbol, env: Env)
    ensures Total(plan, [m] + ns, which, s, env)
         == Max(Max(Max(KidsShare(plan, KidsOf(plan, m), which, s, env), Total(plan, ns, which, s, env)),
                    DirShare(plan, m, which, s, env)), ModeShare(plan, m, which, s, env))
  {
    hide KidsShare, DirShare, ModeShare;
    TotalAppend(plan, [m], ns, which, s, env);
    assert [m][..0] == [];
    assert Total(plan, [m], which, s, env) == NodeShare(plan, m, which, s, env);
  }
}
