/** The search for recursive dependencies: depth first, with a mark for the symbols on
    the way (CHECK) and one for those visited (CHECKED), and a stack from which a
    report is printed. */
module Cycle {
  import opened Exprs
  import opened Symbols

  /* ----- what is searched ----- */

  /** A property of a symbol: only a default carries a value the search looks at. */
  datatype Prop =
    | Default(visible: Option<Expr>, value: Expr)
    | Prompt(visible: Option<Expr>)
    | Select(visible: Option<Expr>)
    | Other(visible: Option<Expr>)

  datatype Node = Node(props: seq<Prop>, revDep: Option<Expr>)

  type Graph = map<Symbol, Node>

  /** Why one symbol leads to another: the fields of an entry of the stack. */
  datatype Frame = Frame(sym: Symbol, prop: Option<Prop>, inValue: bool)

  /** The reason is true: next occurs where the frame says. */
  ghost predicate Leads(g: Graph, f: Frame, next: Symbol) {
    && f.sym in g
    && match f.prop
       case None => OccursOpt(next, g[f.sym].revDep)
       case Some(p) =>
         && p in g[f.sym].props && !p.Select?
         && if f.inValue then p.Default? && Occurs(next, p.value) else OccursOpt(next, p.visible)
  }

  /** The reason holds for every symbol of an expression. */
  ghost predicate LeadsAll(g: Graph, f: Frame, e: Expr) {
    forall t: Symbol :: Occurs(t, e) ==> Leads(g, f, t)
  }

  ghost predicate AllDone(e: Expr, done: seq<Symbol>) {
    forall t: Symbol :: Occurs(t, e) ==> t in done
  }

  ghost predicate Follows(g: Graph, s: Symbol, t: Symbol) {
    exists f: Frame :: f.sym == s && Leads(g, f, t)
  }

  ghost predicate ClosedGraph(g: Graph) {
    forall s: Symbol, t: Symbol :: Follows(g, s, t) ==> t in g
  }

  /** A topological numbering exists. */
  ghost predicate Acyclic(g: Graph) {
    exists rank: Symbol -> nat :: Increasing(g, rank)
  }

  ghost predicate Increasing(g: Graph, rank: Symbol -> nat) {
    forall s: Symbol, t: Symbol :: Follows(g, s, t) ==> rank(t) < rank(s)
  }

  /** A printed report: frames, each leading to the symbol of the next, and the last
      back to the first. */
  ghost predicate RealCycle(g: Graph, report: seq<Frame>) {
    && report != []
    && (forall i: nat :: i + 1 < |report| ==> Leads(g, report[i], report[i + 1].sym))
    && Leads(g, report[|report| - 1], report[0].sym)
  }

  lemma {:induction false} ClimbsCycle(g: Graph, rank: Symbol -> nat, report: seq<Frame>, i: nat)
    requires Increasing(g, rank) && i < |report|
    requires forall j: nat :: j + 1 < |report| ==> Leads(g, report[j], report[j + 1].sym)
    ensures rank(report[i].sym) <= rank(report[0].sym)
  {
    if i > 0 {
      ClimbsCycle(g, rank, report, i - 1);
      assert Leads(g, report[i - 1], report[i - 1 + 1].sym);
      assert Follows(g, report[i - 1].sym, report[i].sym);
    }
  }

  /** A real cycle rules out a topological numbering. */
  lemma CycleNotAcyclic(g: Graph, report: seq<Frame>)
    requires RealCycle(g, report)
    ensures !Acyclic(g)
  {
    forall rank: Symbol -> nat | Increasing(g, rank)
      ensures false
    {
      assert Follows(g, report[|report| - 1].sym, report[0].sym);
      ClimbsCycle(g, rank, report, |report| - 1);
    }
  }

  /* ----- the state of the search ----- */

  /** The flags, the stack, the reports so far, and the order in which symbols were
      finished. */
  datatype Search = Search(check: set<Symbol>, checked: set<Symbol>, stack: seq<Frame>, reports: seq<seq<Frame>>, done: seq<Symbol>)

  function SymsOf(stack: seq<Frame>): set<Symbol> {
    set f <- stack :: f.sym
  }

  ghost predicate Chain(g: Graph, stack: seq<Frame>) {
    forall i: nat :: i + 1 < |stack| ==> Leads(g, stack[i], stack[i + 1].sym)
  }

  /** Each symbol leads only to symbols before it. */
  ghost predicate Sorted(g: Graph, done: seq<Symbol>) {
    forall i: nat, t: Symbol :: i < |done| && Follows(g, done[i], t) ==> t in done[..i]
  }

  ghost predicate Sound(g: Graph, s: Search) {
    && s.check == SymsOf(s.stack)
    && s.check <= s.checked
    && Chain(g, s.stack)
    && (forall r <- s.reports :: RealCycle(g, r))
    && (s.reports == [] ==> Finished(g, s))
  }

  /** As long as nothing is reported, what was visited is on the way or finished. */
  ghost predicate Finished(g: Graph, s: Search) {
    && Sorted(g, s.done)
    && (forall t <- s.done :: t in s.checked)
    && (forall t <- s.checked :: t in s.check || t in s.done)
  }

  /** What a call leaves alone, and what only grows. */
  ghost predicate Later(a: Search, b: Search) {
    && b.check == a.check && b.stack == a.stack
    && a.checked <= b.checked && a.reports <= b.reports && a.done <= b.done
  }

  /** A symbol returned by the search is on the way and was reported. */
  ghost predicate Returned(s: Search, r: Option<Symbol>) {
    r.Some? ==> r.value in s.check && s.reports != []
  }

  class Checker {
    const graph: Graph
    var check: set<Symbol>
    var checked: set<Symbol>
    var stack: seq<Frame>
    var reports: seq<seq<Frame>>
    ghost var done: seq<Symbol>

    constructor (graph: Graph)
      ensures this.graph == graph && Now() == Search({}, {}, [], [], [])
    {
      this.graph := graph;
      check, checked, stack, reports, done := {}, {}, [], [], [];
    }

    ghost function Now(): Search
      reads this
    {
      Search(check, checked, stack, reports, done)
    }

    /** Prints the part of the stack from the last symbol on; unexpected if the symbol
        is not on the stack. */
    method PrintRecursive(last: Symbol) returns (unexpected: bool)
      requires Sound(graph, Now()) && last in check && stack != [] && Leads(graph, stack[|stack| - 1], last)
      modifies this`reports
      ensures !unexpected && Sound(graph, Now()) && Later(old(Now()), Now())
      ensures exists i: nat :: i < |stack| && stack[i].sym == last && reports == old(reports) + [stack[i..]]
    {
      var i := |stack|;
      unexpected := true;
      while i > 0 && unexpected
        invariant 0 <= i <= |stack| && reports == old(reports)
        invariant unexpected ==> forall j :: i <= j < |stack| ==> stack[j].sym != last
        invariant !unexpected ==> i < |stack| && stack[i].sym == last
      {
        i := i - 1;
        if stack[i].sym == last {
          unexpected := false;
        }
      }
      if !unexpected {
        ReportReal(graph, stack, i, last);
        reports := reports + [stack[i..]];
      }
    }

    /** The symbol at which a reported cycle closes, if there was one in e. */
    method CheckExpr(e: Expr) returns (r: Option<Symbol>)
      requires ClosedGraph(graph) && Sound(graph, Now())
      requires stack != [] && LeadsAll(graph, stack[|stack| - 1], e)
      modifies this
      ensures Sound(graph, Now()) && Later(old(Now()), Now()) && Returned(Now(), r)
      ensures reports == [] ==> AllDone(e, done)
      decreases |graph.Keys - checked|, 1, Size(e)
    {
      hide Sound, ClosedGraph, LeadsAll, AllDone, Leads;
      OperandsLead(graph, stack[|stack| - 1], e);
      match e {
        case Or(l, r') => r := CheckBoth(l, r');
        case And(l, r') => r := CheckBoth(l, r');
        case Not(x) => r := CheckExpr(x);
        case Compare(_, a, b) =>
          r := CheckDeps(a);
          if r.Some? {
            return;
          }
          FewerLeft(graph.Keys, old(checked), checked);
          r := CheckDeps(b);
        case Sym(s) => r := CheckDeps(s);
      }
      OperandsDone(e, done);
    }

    method CheckBoth(l: Expr, r: Expr) returns (found: Option<Symbol>)
      requires ClosedGraph(graph) && Sound(graph, Now())
      requires stack != [] && LeadsAll(graph, stack[|stack| - 1], l) && LeadsAll(graph, stack[|stack| - 1], r)
      modifies this
      ensures Sound(graph, Now()) && Later(old(Now()), Now()) && Returned(Now(), found)
      ensures reports == [] ==> AllDone(l, done) && AllDone(r, done)
      decreases |graph.Keys - checked|, 1, Size(l) + Size(r)
    {
      hide Sound, ClosedGraph, LeadsAll, AllDone, Returned, Size;
      found := CheckExpr(l);
      SomeReported(Now(), found);
      if found.Some? {
        return;
      }
      FewerLeft(graph.Keys, old(checked), checked);
      ghost var middle := Now();
      found := CheckExpr(r);
      StillDone(l, middle.done, done);
    }

    method CheckOpt(e: Option<Expr>) returns (r: Option<Symbol>)
      requires ClosedGraph(graph) && Sound(graph, Now())
      requires stack != [] && forall t: Symbol :: OccursOpt(t, e) ==> Leads(graph, stack[|stack| - 1], t)
      modifies this
      ensures Sound(graph, Now()) && Later(old(Now()), Now()) && Returned(Now(), r)
      ensures reports == [] ==> forall t: Symbol :: OccursOpt(t, e) ==> t in done
      decreases |graph.Keys - checked|, 2
    {
      hide Sound, ClosedGraph, Leads;
      r := None;
      if e.Some? {
        assert forall t: Symbol :: Occurs(t, e.value) <==> OccursOpt(t, e);
        r := CheckExpr(e.value);
      }
    }

    /** Visits a symbol unless that has been done; comes back to one on the way just
        when there is a cycle through it. */
    method CheckDeps(sym: Symbol) returns (r: Option<Symbol>)
      requires ClosedGraph(graph) && Sound(graph, Now()) && sym in graph
      requires stack != [] ==> Leads(graph, stack[|stack| - 1], sym)
      modifies this
      ensures Sound(graph, Now()) && Later(old(Now()), Now()) && Returned(Now(), r)
      ensures reports == [] ==> sym in done
      decreases |graph.Keys - checked|, 0
    {
      hide Sound, ClosedGraph, Leads, Follows, Returned;
      if sym in check {
        OnTheWay(graph, Now(), sym);
        var unexpected := PrintRecursive(sym);
        r := Some(sym);
        Reported(Now(), sym);
        return;
      }
      ReturnedNone(Now());
      if sym in checked {
        AlreadyVisited(graph, Now(), sym);
        r := None;
        return;
      }
      FewerLeft(graph.Keys, checked, checked + {sym});
      Enter(graph, Now(), sym);
      check, checked := check + {sym}, checked + {sym};
      r := CheckSymDeps(sym);
      Leave(graph, Now(), sym, r);
      check := check - {sym};
      done := done + [sym];
      if r == Some(sym) {
        r := None;
      }
      ReturnedNone(Now());
    }

    /** Follows the reverse dependencies and the properties of a symbol, with an entry
        for it on the stack. */
    method CheckSymDeps(sym: Symbol) returns (r: Option<Symbol>)
      requires ClosedGraph(graph) && sym in graph && Sound(graph, Pushed(Now(), sym))
      modifies this
      ensures Sound(graph, Pushed(Now(), sym)) && Later(old(Now()), Now()) && Returned(Now(), r)
      ensures reports == [] ==> forall t: Symbol :: Follows(graph, sym, t) ==> t in done
      decreases |graph.Keys - checked|, 5
    {
      hide Sound, ClosedGraph, Leads, Follows, OccursOpt, PropMentions;
      stack := stack + [Frame(sym, None, false)];
      assert Now() == Pushed(old(Now()), sym);
      RevDepLeads(graph, sym);
      r := CheckOpt(graph[sym].revDep);
      if r.None? {
        FewerLeft(graph.Keys, old(checked), checked);
        r := CheckProps(sym);
      }
      if reports == [] {
        AllFollowed(graph, sym, done);
      }
      TopIrrelevant(graph, Now(), Frame(sym, None, false));
      stack := stack[..|stack| - 1];
      assert stack == old(stack);
    }

    /** The properties in order, without selects. */
    method CheckProps(sym: Symbol) returns (r: Option<Symbol>)
      requires ClosedGraph(graph) && sym in graph && Sound(graph, Now()) && OnTop(stack, sym)
      modifies this
      ensures Sound(graph, Now()) && LaterBelow(old(Now()), Now()) && Returned(Now(), r)
      ensures reports == [] ==> forall p <- graph[sym].props, t: Symbol :: PropMentions(p, t) ==> t in done
      decreases |graph.Keys - checked|, 4
    {
      hide Sound, ClosedGraph, Leads, Follows, OccursOpt, PropMentions;
      var props := graph[sym].props;
      var i := 0;
      r := None;
      while i < |props|
        invariant i <= |props| && r.None?
        invariant Sound(graph, Now()) && LaterBelow(old(Now()), Now())
        invariant reports == [] ==> forall p <- props[..i], t: Symbol :: PropMentions(p, t) ==> t in done
      {
        if props[i].Select? {
          SelectMentions(props[i]);
        } else {
          FewerLeft(graph.Keys, old(checked), checked);
          r := CheckProp(sym, props[i]);
          if r.Some? {
            return;
          }
        }
        assert forall p <- props[..i + 1] :: p in props[..i] || p == props[i];
        i := i + 1;
      }
    }

    /** The condition of a property, and the value of a default. */
    method CheckProp(sym: Symbol, p: Prop) returns (r: Option<Symbol>)
      requires ClosedGraph(graph) && sym in graph && p in graph[sym].props && !p.Select?
      requires Sound(graph, Now()) && OnTop(stack, sym)
      modifies this
      ensures Sound(graph, Now()) && LaterBelow(old(Now()), Now()) && Returned(Now(), r)
      ensures reports == [] ==> forall t: Symbol :: PropMentions(p, t) ==> t in done
      decreases |graph.Keys - checked|, 3
    {
      hide Sound, ClosedGraph, Leads, Follows, OccursOpt;
      PropLeads(graph, sym, p);
      SetTop(Frame(sym, Some(p), false));
      r := CheckOpt(p.visible);
      if r.Some? || !p.Default? {
        return;
      }
      FewerLeft(graph.Keys, old(checked), checked);
      SetTop(Frame(sym, Some(p), true));
      r := CheckExpr(p.value);
      if r.Some? {
        return;
      }
      SetTop(Frame(sym, Some(p), false));
    }

    /** Changes the entry of the symbol on top of the stack. */
    method SetTop(f: Frame)
      requires Sound(graph, Now()) && OnTop(stack, f.sym)
      modifies this`stack
      ensures Sound(graph, Now()) && LaterBelow(old(Now()), Now()) && stack[|stack| - 1] == f
    {
      hide Sound;
      TopIrrelevant(graph, Now(), f);
      stack := stack[..|stack| - 1] + [f];
    }

    /** Checks all symbols. The number of symbols for which something is returned is
        what the parser counts as errors. */
    method CheckAll(order: seq<Symbol>) returns (errors: int)
      requires ClosedGraph(graph) && Now() == Search({}, {}, [], [], [])
      requires forall s: Symbol :: s in order <==> s in graph
      modifies this
      ensures reports == [] <==> Acyclic(graph)
      ensures forall r <- reports :: RealCycle(graph, r)
      ensures errors == 0
    {
      hide ClosedGraph, Sorted, Chain, RealCycle, Acyclic;
      SearchStart(graph);
      hide Sound;
      errors := 0;
      var i := 0;
      while i < |order|
        invariant i <= |order| && errors == 0 && stack == [] && check == {}
        invariant Sound(graph, Now())
        invariant reports == [] ==> forall s <- order[..i] :: s in done
      {
        ghost var before := Now();
        var r := CheckDeps(order[i]);
        assert reports == [] ==> before.reports == [];
        assert forall s <- before.done :: s in done;
        assert forall s <- order[..i + 1] :: s in order[..i] || s == order[i];
        if r.Some? {
          errors := errors + 1;
        }
        i := i + 1;
      }
      Verdict(graph, Now());
    }
  }

  function Pushed(s: Search, sym: Symbol): Search {
    s.(stack := s.stack + [Frame(sym, None, false)])
  }

  predicate OnTop(stack: seq<Frame>, sym: Symbol) {
    stack != [] && stack[|stack| - 1].sym == sym
  }

  /** Later, but the entry on top may have changed its reason. */
  ghost predicate LaterBelow(a: Search, b: Search) {
    && a.stack != [] && b.stack != [] && Later(a, b.(stack := a.stack))
    && b.stack == a.stack[..|a.stack| - 1] + [b.stack[|b.stack| - 1]]
    && b.stack[|b.stack| - 1].sym == a.stack[|a.stack| - 1].sym
  }

  ghost predicate PropMentions(p: Prop, t: Symbol) {
    !p.Select? && (OccursOpt(t, p.visible) || (p.Default? && Occurs(t, p.value)))
  }

  lemma SelectMentions(p: Prop)
    requires p.Select?
    ensures forall t: Symbol :: !PropMentions(p, t)
  {
  }

  lemma OperandsLead(g: Graph, f: Frame, e: Expr)
    requires ClosedGraph(g) && LeadsAll(g, f, e)
    ensures match e
      case Sym(s) => s in g && Leads(g, f, s)
      case Compare(_, a, b) => a in g && b in g && Leads(g, f, a) && Leads(g, f, b)
      case Not(x) => LeadsAll(g, f, x)
      case And(l, r) => LeadsAll(g, f, l) && LeadsAll(g, f, r)
      case Or(l, r) => LeadsAll(g, f, l) && LeadsAll(g, f, r)
  {
    hide Leads;
    match e
    case Sym(s) =>
      assert Occurs(s, e) && Follows(g, f.sym, s);
    case Compare(_, a, b) =>
      assert Occurs(a, e) && Occurs(b, e) && Follows(g, f.sym, a) && Follows(g, f.sym, b);
    case Not(x) =>
      assert forall t: Symbol :: Occurs(t, x) ==> Occurs(t, e);
    case And(l, r) =>
      assert forall t: Symbol :: Occurs(t, l) || Occurs(t, r) ==> Occurs(t, e);
    case Or(l, r) =>
      assert forall t: Symbol :: Occurs(t, l) || Occurs(t, r) ==> Occurs(t, e);
  }

  lemma OperandsDone(e: Expr, done: seq<Symbol>)
    ensures AllDone(e, done) <==> match e
      case Sym(s) => s in done
      case Compare(_, a, b) => a in done && b in done
      case Not(x) => AllDone(x, done)
      case And(l, r) => AllDone(l, done) && AllDone(r, done)
      case Or(l, r) => AllDone(l, done) && AllDone(r, done)
  {
    if e.Sym? {
      assert Occurs(e.s, e);
    } else if e.Compare? {
      assert Occurs(e.ls, e) && Occurs(e.rs, e);
    } else if e.Not? {
      assert forall t: Symbol :: Occurs(t, e.e) <==> Occurs(t, e);
    } else {
      assert forall t: Symbol :: Occurs(t, e.l) || Occurs(t, e.r) <==> Occurs(t, e);
    }
  }

  lemma StillDone(e: Expr, was: seq<Symbol>, done: seq<Symbol>)
    requires was <= done
    ensures AllDone(e, was) ==> AllDone(e, done)
  {
  }

  lemma SomeReported(s: Search, r: Option<Symbol>)
    requires Returned(s, r)
    ensures r.Some? ==> s.reports != []
  {
  }

  lemma RevDepLeads(g: Graph, sym: Symbol)
    requires sym in g
    ensures forall t: Symbol :: OccursOpt(t, g[sym].revDep) ==> Leads(g, Frame(sym, None, false), t)
  {
  }

  lemma PropLeads(g: Graph, sym: Symbol, p: Prop)
    requires sym in g && p in g[sym].props && !p.Select?
    ensures forall t: Symbol :: OccursOpt(t, p.visible) ==> Leads(g, Frame(sym, Some(p), false), t)
    ensures p.Default? ==> forall t: Symbol :: Occurs(t, p.value) ==> Leads(g, Frame(sym, Some(p), true), t)
  {
  }

  lemma AllFollowed(g: Graph, sym: Symbol, done: seq<Symbol>)
    requires sym in g
    requires forall t: Symbol :: OccursOpt(t, g[sym].revDep) ==> t in done
    requires forall p <- g[sym].props, t: Symbol :: PropMentions(p, t) ==> t in done
    ensures forall t: Symbol :: Follows(g, sym, t) ==> t in done
  {
    forall f: Frame, t: Symbol | f.sym == sym && Leads(g, f, t)
      ensures t in done
    {
      if f.prop.Some? {
        assert PropMentions(f.prop.value, t);
      }
    }
  }

  lemma OnTheWay(g: Graph, s: Search, sym: Symbol)
    requires Sound(g, s) && sym in s.check
    ensures s.stack != []
  {
  }

  lemma AlreadyVisited(g: Graph, s: Search, sym: Symbol)
    requires Sound(g, s) && sym in s.checked && sym !in s.check
    ensures s.reports == [] ==> sym in s.done
  {
  }

  lemma Reported(s: Search, sym: Symbol)
    requires sym in s.check && s.reports != []
    ensures Returned(s, Some(sym))
  {
  }

  lemma ReturnedNone(s: Search)
    ensures Returned(s, None)
  {
  }

  lemma SymsOfPush(stack: seq<Frame>, f: Frame)
    ensures SymsOf(stack + [f]) == SymsOf(stack) + {f.sym}
  {
  }

  /** A symbol not visited before is put on the way. */
  lemma Enter(g: Graph, s: Search, sym: Symbol)
    requires Sound(g, s) && sym !in s.checked
    requires s.stack != [] ==> Leads(g, s.stack[|s.stack| - 1], sym)
    ensures Sound(g, Pushed(s.(check := s.check + {sym}, checked := s.checked + {sym}), sym))
    ensures sym !in SymsOf(s.stack)
  {
    hide RealCycle, Sorted, Leads;
    SymsOfPush(s.stack, Frame(sym, None, false));
  }

  lemma ChainPrefix(g: Graph, stack: seq<Frame>, f: Frame)
    requires Chain(g, stack + [f])
    ensures Chain(g, stack)
  {
    hide Leads;
    forall i: nat | i + 1 < |stack|
      ensures Leads(g, stack[i], stack[i + 1].sym)
    {
      assert Leads(g, (stack + [f])[i], (stack + [f])[i + 1].sym);
    }
  }

  lemma SortedMore(g: Graph, done: seq<Symbol>, sym: Symbol)
    requires Sorted(g, done) && forall t: Symbol :: Follows(g, sym, t) ==> t in done
    ensures Sorted(g, done + [sym])
  {
    hide Follows;
    forall i: nat, t: Symbol | i < |done| + 1 && Follows(g, (done + [sym])[i], t)
      ensures t in (done + [sym])[..i]
    {
      if i < |done| {
        assert (done + [sym])[..i] == done[..i];
      } else {
        assert (done + [sym])[..i] == done;
      }
    }
  }

  /** All that a symbol leads to is finished, so it is finished itself. */
  lemma Leave(g: Graph, s: Search, sym: Symbol, r: Option<Symbol>)
    requires Sound(g, Pushed(s, sym)) && sym in s.checked && sym !in SymsOf(s.stack) && Returned(s, r)
    requires s.reports == [] ==> forall t: Symbol :: Follows(g, sym, t) ==> t in s.done
    ensures var s' := s.(check := s.check - {sym}, done := s.done + [sym]);
      Sound(g, s') && (r != Some(sym) ==> Returned(s', r))
  {
    hide RealCycle, Sorted, Leads, Follows, Chain;
    SymsOfPush(s.stack, Frame(sym, None, false));
    ChainPrefix(g, s.stack, Frame(sym, None, false));
    if s.reports == [] {
      SortedMore(g, s.done, sym);
    }
  }

  /** The reason given by the entry on top is not yet part of any claim. */
  lemma TopIrrelevant(g: Graph, s: Search, f: Frame)
    requires Sound(g, s) && OnTop(s.stack, f.sym)
    ensures Sound(g, s.(stack := s.stack[..|s.stack| - 1] + [f]))
  {
    hide RealCycle, Sorted, Leads;
    var below, top := s.stack[..|s.stack| - 1], s.stack[|s.stack| - 1];
    assert s.stack == below + [top];
    SymsOfPush(below, f);
    SymsOfPush(below, top);
    var stack := below + [f];
    forall i: nat | i + 1 < |stack|
      ensures Leads(g, stack[i], stack[i + 1].sym)
    {
      assert Leads(g, s.stack[i], s.stack[i + 1].sym);
    }
  }

  /** From the entry of the reported symbol on, the stack is a cycle. */
  lemma ReportReal(g: Graph, stack: seq<Frame>, i: nat, last: Symbol)
    requires Chain(g, stack) && i < |stack| && stack[i].sym == last && Leads(g, stack[|stack| - 1], last)
    ensures RealCycle(g, stack[i..])
  {
    hide Leads;
    var report := stack[i..];
    forall j: nat | j + 1 < |report|
      ensures Leads(g, report[j], report[j + 1].sym)
    {
      assert Leads(g, stack[i + j], stack[i + j + 1].sym);
    }
  }

  lemma SearchStart(g: Graph)
    ensures Sound(g, Search({}, {}, [], [], []))
  {
  }

  function IndexIn(done: seq<Symbol>, s: Symbol): (i: nat)
    ensures s in done ==> i < |done| && done[i] == s && s !in done[..i]
  {
    if done == [] || done[0] == s then 0 else 1 + IndexIn(done[1..], s)
  }

  /** The order of finishing numbers the symbols topologically. */
  lemma SortedAcyclic(g: Graph, done: seq<Symbol>)
    requires Sorted(g, done) && forall s: Symbol :: s in g ==> s in done
    ensures Acyclic(g)
  {
    var rank: Symbol -> nat := s => IndexIn(done, s);
    forall s: Symbol, t: Symbol | Follows(g, s, t)
      ensures rank(t) < rank(s)
    {
      var i := IndexIn(done, s);
      assert s in g && Follows(g, done[i], t);
      assert t in done[..i];
      BeforeIndex(done, i, t);
    }
    assert Increasing(g, rank);
  }

  lemma {:induction false} BeforeIndex(done: seq<Symbol>, i: nat, t: Symbol)
    requires i <= |done| && t in done[..i]
    ensures IndexIn(done, t) < i
  {
    if done[0] != t {
      assert done[..i][1..] == done[1..][..i - 1];
      BeforeIndex(done[1..], i - 1, t);
    }
  }

  /** Nothing reported means acyclic, and a report is a cycle. */
  lemma Verdict(g: Graph, s: Search)
    requires Sound(g, s) && s.check == {}
    requires s.reports == [] ==> forall t: Symbol :: t in g ==> t in s.done
    ensures s.reports == [] <==> Acyclic(g)
    ensures forall r <- s.reports :: RealCycle(g, r)
  {
    hide RealCycle, Acyclic, Sorted, Chain;
    if s.reports == [] {
      SortedAcyclic(g, s.done);
    } else {
      assert s.reports[0] in s.reports;
      CycleNotAcyclic(g, s.reports[0]);
    }
  }

  /* ----- what a passed check means for evaluation ----- */

  function PromptsOf(props: seq<Prop>): seq<Option<Expr>> {
    if props == [] then []
    else (if props[0].Prompt? then [props[0].visible] else []) + PromptsOf(props[1..])
  }

  function DefaultsOf(props: seq<Prop>): seq<DefaultProp> {
    if props == [] then []
    else (if props[0].Default? then [DefaultProp(props[0].value, props[0].visible)] else []) + DefaultsOf(props[1..])
  }

  /** The declaration of a node, whose dependencies from implications and enclosing
      menus are kept elsewhere. */
  function DeclFrom(n: Node, dirDep: Option<Expr>, implied: Option<Expr>): Decl {
    Decl(PromptsOf(n.props), DefaultsOf(n.props), dirDep, n.revDep, implied, false)
  }

  function DeclsFrom(g: Graph, dirDep: Symbol -> Option<Expr>, implied: Symbol -> Option<Expr>): map<Symbol, Decl> {
    map s | s in g :: DeclFrom(g[s], dirDep(s), implied(s))
  }

  lemma {:induction false} PropsMention(props: seq<Prop>)
    ensures forall p <- PromptsOf(props), t: Symbol :: OccursOpt(t, p) ==> exists q <- props :: PropMentions(q, t)
    ensures forall d <- DefaultsOf(props), t: Symbol :: Occurs(t, d.value) || OccursOpt(t, d.cond) ==> exists q <- props :: PropMentions(q, t)
  {
    if props != [] {
      PropsMention(props[1..]);
      assert props[0] in props && forall q <- props[1..] :: q in props;
      forall t: Symbol | props[0].Prompt? && OccursOpt(t, props[0].visible)
        ensures PropMentions(props[0], t)
      {
      }
    }
  }

  lemma MentionFollows(g: Graph, s: Symbol, p: Prop, t: Symbol)
    requires s in g && p in g[s].props && PropMentions(p, t)
    ensures Follows(g, s, t)
  {
    assert Leads(g, Frame(s, Some(p), p.Default? && Occurs(t, p.value)), t);
  }

  /** A dependency of the evaluation is an edge the search follows, or comes from an
      implication or an enclosing menu. */
  lemma FollowedOrNot(g: Graph, dirDep: Symbol -> Option<Expr>, implied: Symbol -> Option<Expr>, s: Symbol, t: Symbol)
    requires DependsOn(DeclsFrom(g, dirDep, implied), s, t)
    ensures Follows(g, s, t) || OccursOpt(t, dirDep(s)) || OccursOpt(t, implied(s))
  {
    var d := DeclsFrom(g, dirDep, implied);
    if s in g {
      var props := g[s].props;
      PropsMention(props);
      if OccursOpt(t, g[s].revDep) {
        assert Leads(g, Frame(s, None, false), t);
      } else if q :| q in props && PropMentions(q, t) {
        MentionFollows(g, s, q, t);
      }
    }
  }

  /** What evaluation looks at among the properties. */
  function EvaluatedProps(props: seq<Prop>): seq<Prop> {
    if props == [] then []
    else (if props[0].Prompt? || props[0].Default? then [props[0]] else []) + EvaluatedProps(props[1..])
  }

  /** The graph of what evaluation depends on: without the properties that it ignores, and
      with the conditions of enclosing menus and the implications. */
  function EvaluatedGraph(g: Graph, dirDep: Symbol -> Option<Expr>, implied: Symbol -> Option<Expr>): Graph {
    map s | s in g :: Node(EvaluatedProps(g[s].props) + [Other(dirDep(s)), Other(implied(s))], g[s].revDep)
  }

  lemma {:induction false} EvaluatedMention(props: seq<Prop>, t: Symbol)
    ensures (exists q <- EvaluatedProps(props) :: PropMentions(q, t)) <==>
      (exists p <- PromptsOf(props) :: OccursOpt(t, p)) || (exists d <- DefaultsOf(props) :: Occurs(t, d.value) || OccursOpt(t, d.cond))
  {
    if props != [] {
      EvaluatedMention(props[1..], t);
      var p, rest := props[0], props[1..];
      FirstOrRest(if p.Prompt? || p.Default? then [p] else [], EvaluatedProps(rest), q => PropMentions(q, t));
      FirstOrRest(if p.Prompt? then [p.visible] else [], PromptsOf(rest), q => OccursOpt(t, q));
      FirstOrRest(if p.Default? then [DefaultProp(p.value, p.visible)] else [], DefaultsOf(rest),
                  (d: DefaultProp) => Occurs(t, d.value) || OccursOpt(t, d.cond));
    }
  }

  lemma FirstOrRest<T(!new)>(a: seq<T>, b: seq<T>, f: T -> bool)
    requires |a| <= 1
    ensures (exists x <- a + b :: f(x)) <==> (|a| == 1 && f(a[0])) || exists x <- b :: f(x)
  {
    if |a| == 1 && f(a[0]) {
      assert a[0] in a + b;
    }
    if x :| x in b && f(x) {
      assert x in a + b;
    }
  }

  lemma MentionedJustFollowed(g: Graph, s: Symbol, t: Symbol)
    requires s in g
    ensures Follows(g, s, t) <==> OccursOpt(t, g[s].revDep) || exists q <- g[s].props :: PropMentions(q, t)
  {
    if f: Frame :| f.sym == s && Leads(g, f, t) {
      if f.prop.Some? {
        assert PropMentions(f.prop.value, t);
      }
    }
    if OccursOpt(t, g[s].revDep) {
      assert Leads(g, Frame(s, None, false), t);
    }
    if q :| q in g[s].props && PropMentions(q, t) {
      MentionFollows(g, s, q, t);
    }
  }

  /** The edges of this graph are exactly the dependencies of the evaluation. */
  lemma EvaluatedEdges(g: Graph, dirDep: Symbol -> Option<Expr>, implied: Symbol -> Option<Expr>, s: Symbol, t: Symbol)
    ensures Follows(EvaluatedGraph(g, dirDep, implied), s, t) <==> DependsOn(DeclsFrom(g, dirDep, implied), s, t)
  {
    var e := EvaluatedGraph(g, dirDep, implied);
    if s in g {
      MentionedJustFollowed(e, s, t);
      EvaluatedMention(g[s].props, t);
      MoreMention(EvaluatedProps(g[s].props), dirDep(s), implied(s), t);
    }
  }

  lemma MoreMention(props: seq<Prop>, a: Option<Expr>, b: Option<Expr>, t: Symbol)
    ensures (exists q <- props + [Other(a), Other(b)] :: PropMentions(q, t)) <==>
      (exists q <- props :: PropMentions(q, t)) || OccursOpt(t, a) || OccursOpt(t, b)
  {
    var all := props + [Other(a), Other(b)];
    assert all[|props|] == Other(a) && all[|props| + 1] == Other(b);
    assert PropMentions(Other(a), t) == OccursOpt(t, a) && PropMentions(Other(b), t) == OccursOpt(t, b);
    assert forall q <- props :: q in all;
    assert Other(a) in all && Other(b) in all;
  }

  /** Evaluation has acyclic dependencies just when this graph is acyclic, which the search
      decides. The graph that is searched differs: it lacks the implications, and it has
      conditions that evaluation ignores. */
  lemma EvaluationAcyclic(g: Graph, dirDep: Symbol -> Option<Expr>, implied: Symbol -> Option<Expr>, c: Config)
    requires c.sys.decls == DeclsFrom(g, dirDep, implied)
    ensures Acyclic(EvaluatedGraph(g, dirDep, implied)) <==> exists rank: Symbol -> nat :: Ranked(c, rank)
  {
    hide Follows, DependsOn, EvaluatedGraph, DeclsFrom;
    var e := EvaluatedGraph(g, dirDep, implied);
    forall s: Symbol, t: Symbol
      ensures Follows(e, s, t) <==> DependsOn(c.sys.decls, s, t)
    {
      EvaluatedEdges(g, dirDep, implied, s, t);
    }
    if rank: Symbol -> nat :| Increasing(e, rank) {
      assert Ranked(c, rank);
    }
    if rank: Symbol -> nat :| Ranked(c, rank) {
      assert Increasing(e, rank);
    }
  }

  /** So a passed search of the real graph tells that evaluation is acyclic whenever every
      dependency through an enclosing menu or an implication is followed anyway. */
  lemma PassedCheckRanks(g: Graph, dirDep: Symbol -> Option<Expr>, implied: Symbol -> Option<Expr>, c: Config)
    requires Acyclic(g) && c.sys.decls == DeclsFrom(g, dirDep, implied)
    requires forall s: Symbol, t: Symbol :: OccursOpt(t, dirDep(s)) || OccursOpt(t, implied(s)) ==> Follows(g, s, t)
    ensures exists rank: Symbol -> nat :: Ranked(c, rank)
  {
    hide Follows, DependsOn;
    var rank: Symbol -> nat :| Increasing(g, rank);
    forall s: Symbol, t: Symbol | DependsOn(c.sys.decls, s, t)
      ensures rank(t) < rank(s)
    {
      FollowedOrNot(g, dirDep, implied, s, t);
    }
    assert Ranked(c, rank);
  }

  /** What the parser and finalisation make of two symbols with prompts of which a depends
      on b and implies b: the prompt and the implication have b as condition. */
  function ImplyGraph(a: Symbol, b: Symbol): Graph {
    map[a := Node([Prompt(Some(Sym(b))), Other(Some(Sym(b)))], None), b := Node([Prompt(None)], None)]
  }

  /** So has the direct dependency of a, and b is implied by a under that condition. */
  function ImplyDecls(a: Symbol, b: Symbol): map<Symbol, Decl> {
    DeclsFrom(ImplyGraph(a, b), (s: Symbol) => if s == a then Some(Sym(b)) else None,
              (s: Symbol) => if s == b then Some(And(Sym(a), Sym(b))) else None)
  }

  lemma ImplyAcyclic(a: Symbol, b: Symbol)
    requires a != b
    ensures Acyclic(ImplyGraph(a, b))
  {
    var rank: Symbol -> nat := s => if s == a then 1 else 0;
    assert Increasing(ImplyGraph(a, b), rank);
  }

  lemma ImplyDepends(a: Symbol, b: Symbol)
    requires a != b
    ensures DependsOn(ImplyDecls(a, b), a, b) && DependsOn(ImplyDecls(a, b), b, a)
  {
    var d := ImplyDecls(a, b);
    assert OccursOpt(b, d[a].dirDep);
    assert Occurs(a, Sym(a)) && OccursOpt(a, d[b].implied);
  }

  /** Implications are not followed: with a depending on b and implying b, the search
      reports nothing although a and b depend on each other. */
  lemma ImplyCycleUnseen(a: Symbol, b: Symbol, c: Config, rank: Symbol -> nat)
    requires a != b && c.sys.decls == ImplyDecls(a, b)
    ensures Acyclic(ImplyGraph(a, b)) && DependsOn(c.sys.decls, a, b) && DependsOn(c.sys.decls, b, a) && !Ranked(c, rank)
  {
    hide ImplyGraph, ImplyDecls, DependsOn;
    ImplyAcyclic(a, b);
    ImplyDepends(a, b);
  }

  /** And conditions that evaluation ignores are followed: an implication under the
      condition of its own symbol is reported although evaluation is acyclic. */
  lemma NeedlessReport(a: Symbol, c: Config)
    requires var g := map[a := Node([Other(Some(Sym(a)))], None)];
      c.sys.decls == DeclsFrom(g, (s: Symbol) => None, (s: Symbol) => None)
    ensures !Acyclic(map[a := Node([Other(Some(Sym(a)))], None)])
    ensures exists rank: Symbol -> nat :: Ranked(c, rank)
  {
    var g := map[a := Node([Other(Some(Sym(a)))], None)];
    var f := Frame(a, Some(Other(Some(Sym(a)))), false);
    assert Occurs(a, Sym(a)) && g[a].props[0] == Other(Some(Sym(a)));
    assert Leads(g, f, a);
    assert RealCycle(g, [f]);
    CycleNotAcyclic(g, [f]);
    var rank: Symbol -> nat := s => 0;
    var props := g[a].props;
    assert props[1..] == [];
    assert PromptsOf(props[1..]) == [] && DefaultsOf(props[1..]) == [] && !props[0].Prompt? && !props[0].Default?;
    assert PromptsOf(props) == [] && DefaultsOf(props) == [];
    assert c.sys.decls == map[a := Decl([], [], None, None, None, false)];
    assert forall s: Symbol, t: Symbol :: !DependsOn(c.sys.decls, s, t);
    assert Ranked(c, rank);
  }
}
