/** Exactly which items go below a symbol: what it takes to mention a symbol, to depend on it
    absolutely, and to have a superset of the conditions of its prompt; and what the finished
    tree looks like where it does. */
module Belonging {
  import opened Exprs
  import opened Simplify
  import opened Places
  import opened Matching
  import opened Conditions
  import opened MenuTree
  import opened MenuSpec

  /* ----- mentioning a symbol ----- */

  /** An operand that uses s. */
  predicate Uses(e: Expr, s: Symbol) {
    e == Sym(s) || (e.Compare? && (e.ls == s || e.rs == s))
  }

  ghost predicate UsedAt(e: Expr, p: Path, s: Symbol) {
    ValidPath(e, p) && Uses(At(e, p), s)
  }

  /** A condition contains a symbol just when some place in it uses it. */
  lemma ContainsExact(e: Expr, s: Symbol)
    ensures ContainsSymbol(e, s) <==> exists p: Path :: UsedAt(e, p, s)
  {
    hide ContainsSymbol, UsedAt;
    if ContainsSymbol(e, s) {
      var p := PlaceOf(e, s);
    } else if p: Path :| UsedAt(e, p, s) {
      PlaceContains(e, p, s);
    }
  }

  lemma {:induction false} PlaceOf(e: Expr, s: Symbol) returns (p: Path)
    requires ContainsSymbol(e, s)
    ensures UsedAt(e, p, s)
  {
    if Uses(e, s) {
      p := [];
    } else {
      var step := if e.Not? || ContainsSymbol(e.l, s) then Left else Right;
      var q := PlaceOf(Child(e, step), s);
      p := [step] + q;
      assert p[1..] == q;
    }
  }

  lemma {:induction false} PlaceContains(e: Expr, p: Path, s: Symbol)
    requires UsedAt(e, p, s)
    ensures ContainsSymbol(e, s)
  {
    if p != [] {
      PlaceContains(Child(e, p[0]), p[1..], s);
    }
  }

  /* ----- depending on a symbol ----- */

  /** The conjuncts that make a condition depend on s absolutely. */
  predicate Demands(e: Expr, s: Symbol) {
    e == Sym(s) || e == Compare(Equal, s, SymYes) || e == Compare(Equal, s, SymMod) || e == Compare(Unequal, s, SymNo)
  }

  /** The conjunct at p is one of these. */
  ghost predicate DemandedAt(e: Expr, p: Path, s: Symbol) {
    LeafPath(AndOp, e, p) && Demands(At(e, p), s)
  }

  /** A condition depends on s just when one of its conjuncts is s itself, s=y, s=m or s!=n. */
  lemma DependsExact(e: Expr, s: Symbol)
    ensures DependsSymbol(e, s) <==> exists p: Path :: DemandedAt(e, p, s)
  {
    hide DependsSymbol, DemandedAt;
    if DependsSymbol(e, s) {
      var p := DemandOf(e, s);
    } else if p: Path :| DemandedAt(e, p, s) {
      DemandDepends(e, p, s);
    }
  }

  lemma {:induction false} DemandOf(e: Expr, s: Symbol) returns (p: Path)
    requires DependsSymbol(e, s)
    ensures DemandedAt(e, p, s)
  {
    if e.And? {
      var step := if DependsSymbol(e.l, s) then Left else Right;
      var q := DemandOf(Child(e, step), s);
      p := [step] + q;
      assert p[1..] == q;
    } else {
      p := [];
    }
  }

  lemma {:induction false} DemandDepends(e: Expr, p: Path, s: Symbol)
    requires DemandedAt(e, p, s)
    ensures DependsSymbol(e, s) && ContainsSymbol(e, s)
  {
    if p != [] {
      DemandDepends(Child(e, p[0]), p[1..], s);
    }
  }

  /** Such an item belongs below s whatever the condition of the prompt. */
  lemma DemandBelongs(s: Symbol, prompt: Option<Expr>, item: Expr, p: Path)
    requires DemandedAt(item, p, s)
    ensures Belongs(s, prompt, Some(item))
  {
    DemandDepends(item, p, s);
    hide Superset;
  }

  /* ----- the superset rule ----- */

  /** Of two prepared conditions without y and n as operands, the first is a superset just
      when every conjunct of the second is one of its own, as often, and it has several. */
  lemma SupersetExact(prompt: Option<Expr>, dep: Option<Expr>)
    requires Clean(Reduce(prompt)) && Clean(Reduce(dep))
    ensures Superset(prompt, dep) <==>
      var have, need := Reduce(dep), Reduce(prompt);
      need == Sym(SymYes) || (have.And? && Operands(AndOp, need) <= Operands(AndOp, have))
  {
    hide Reduce;
    CancelledExact(Reduce(dep), Reduce(prompt));
  }

  /** The whole rule for conditions without y and n as operands. */
  lemma BelongsExact(s: Symbol, prompt: Option<Expr>, item: Option<Expr>)
    requires Clean(Reduce(prompt)) && Clean(Reduce(item))
    ensures Belongs(s, prompt, item) <==>
      && item.Some? && (exists p: Path :: UsedAt(item.value, p, s))
      && ((exists p: Path :: DemandedAt(item.value, p, s))
          || Reduce(prompt) == Sym(SymYes)
          || (Reduce(item).And? && Operands(AndOp, Reduce(prompt)) <= Operands(AndOp, Reduce(item))))
  {
    SupersetExact(prompt, item);
    if item.Some? {
      ContainsExact(item.value, s);
      DependsExact(item.value, s);
    }
    hide Superset, ContainsSymbol, DependsSymbol, UsedAt, DemandedAt, Reduce;
  }

  /* ----- what the finished tree looks like ----- */

  /** What decides about an item: the condition of its prompt, or without one its own. */
  ghost function ItemCond(w: Conds, m: Menu): Option<Expr> {
    if m.title.None? then if m in w.dep then w.dep[m] else None
    else if PromptOf(m) in w.visible then w.visible[PromptOf(m)] else None
  }

  /** The condition of a prompt; without a prompt there is none. */
  ghost function TitleCond(w: Conds, m: Menu): Option<Expr> {
    if m.title.Some? && PromptOf(m) in w.visible then w.visible[PromptOf(m)] else None
  }

  /** f is a list that has the node m with the children k. */
  ghost predicate HasTree(f: Forest, m: Menu, k: Forest) {
    f.Cons? && ((f.m == m && f.kids == k) || HasTree(f.rest, m, k))
  }

  /** The same, where the children of a node without a prompt count as being in the list. */
  ghost predicate HasLifted(f: Forest, m: Menu, k: Forest) {
    f.Cons? && ((f.m == m && f.kids == k) || (!Titled(f.m) && HasLifted(f.kids, m, k)) || HasLifted(f.rest, m, k))
  }

  ghost predicate IsLifted(f: Forest, m: Menu) {
    f.Cons? && (f.m == m || (!Titled(f.m) && IsLifted(f.kids, m)) || IsLifted(f.rest, m))
  }

  lemma {:induction false} AppendLifted(f: Forest, g: Forest, m: Menu, k: Forest)
    ensures HasLifted(Append(f, g), m, k) <==> HasLifted(f, m, k) || HasLifted(g, m, k)
    ensures IsLifted(Append(f, g), m) <==> IsLifted(f, m) || IsLifted(g, m)
  {
    if f.Cons? {
      AppendLifted(f.rest, g, m, k);
    }
  }

  /** Flattening lifts exactly the children of nodes without a prompt; every other node keeps
      its children. */
  lemma {:induction false} FlattenedExact(f: Forest, m: Menu, k: Forest)
    ensures HasTree(Flattened(f), m, k) <==> if Titled(m) then HasLifted(f, m, k) else k == Nil && IsLifted(f, m)
    decreases Count(f)
  {
    if f.Cons? {
      if f.kids.Cons? && !Titled(f.m) {
        AppendFacts(f.kids, f.rest);
        FlattenedExact(Append(f.kids, f.rest), m, k);
        AppendLifted(f.kids, f.rest, m, k);
      } else {
        FlattenedExact(f.rest, m, k);
        EmptyLifted(f.kids, m, k);
      }
    }
  }

  lemma EmptyLifted(f: Forest, m: Menu, k: Forest)
    ensures f == Nil ==> !HasLifted(f, m, k) && !IsLifted(f, m)
  {
  }

  /** A node with children of its own, or without a symbol, takes no following item. */
  lemma TakesNothing(w: Conds, f: Forest)
    requires f.Cons? && (f.kids.Cons? || f.m.sym.None?)
    ensures Finish(w, f).rest == f.rest
  {
  }

  /** A symbol without children takes the next item just when it belongs below it, and stops
      only at one that does not. */
  lemma TakesExact(w: Conds, f: Forest)
    requires f.Cons? && f.kids == Nil && f.m.sym.Some?
    ensures var g, s, prompt := Finish(w, f), f.m.sym.value, TitleCond(w, f.m);
      && (g.kids.Cons? <==> f.rest.Cons? && Belongs(s, prompt, ItemCond(w, f.rest.m)))
      && (g.kids.Cons? ==> g.kids.m == f.rest.m)
      && (g.kids == Nil ==> g.rest == f.rest)
      && (g.rest.Cons? ==> !Belongs(s, prompt, ItemCond(w, g.rest.m)))
  {
    hide Belongs;
    AbsorbedBelong(w, f.m, f.rest);
  }

  /** An item that depends absolutely on the symbol before it goes below it, whatever the
      condition of the symbol's prompt. */
  lemma DemandTaken(w: Conds, f: Forest, s: Symbol, p: Path)
    requires f.Cons? && f.kids == Nil && f.m.sym == Some(s) && f.rest.Cons?
    requires ItemCond(w, f.rest.m).Some? && DemandedAt(ItemCond(w, f.rest.m).value, p, s)
    ensures f.rest.m in TopLevel(Absorbed(w, f.m, f.rest).0)
    ensures Finish(w, f).kids.Cons? && Finish(w, f).kids.m == f.rest.m
  {
    hide Belongs, DemandedAt;
    DemandBelongs(s, TitleCond(w, f.m), ItemCond(w, f.rest.m).value, p);
    TakesExact(w, f);
  }

  /** What is absorbed is finished as it would be in its own list: together with what is left
      over it makes up the finished list. */
  lemma {:induction false} AbsorbedIsFinished(w: Conds, under: Menu, f: Forest)
    requires under.sym.Some?
    ensures var (moved, left) := Absorbed(w, under, f); FinishList(w, f) == Append(moved, FinishList(w, left))
    decreases Count(f)
  {
    hide Belongs;
    if f.Cons? && Belongs(under.sym.value, PromptIn(w, under), ShownIn(w, f.m)) {
      AbsorbedIsFinished(w, under, Finish(w, f).rest);
    }
  }

  /** A node with children of its own ends up with exactly those that its finished list of
      children gives at its level. */
  lemma FinishedChildren(w: Conds, f: Forest, m: Menu, k: Forest)
    requires f.Cons? && f.kids.Cons?
    ensures var list := FinishList(w, f.kids);
      HasTree(Finish(w, f).kids, m, k) <==> if Titled(m) then HasLifted(list, m, k) else k == Nil && IsLifted(list, m)
  {
    FlattenedExact(FinishList(w, f.kids), m, k);
  }

  /** Of two neighbours in g the second does not belong below the first, if that is a symbol
      that had no children in f. */
  ghost predicate NothingToTake(w: Conds, f: Forest, g: Forest) {
    g.Cons? && g.rest.Cons? ==>
      && (g.m.sym.Some? && HasTree(f, g.m, Nil) ==> !Belongs(g.m.sym.value, TitleCond(w, g.m), ItemCond(w, g.rest.m)))
      && NothingToTake(w, f, g.rest)
  }

  /** In a finished list nothing is left that a symbol could take. */
  lemma {:induction false} FinishedTakesNothing(w: Conds, all: Forest, f: Forest)
    requires Distinct(all) && SuffixOf(f, all)
    ensures NothingToTake(w, all, FinishList(w, f))
    decreases Count(f)
  {
    hide Belongs;
    if f.Cons? {
      var h := Finish(w, f);
      RestIsSuffix(w, all, f);
      FinishedTakesNothing(w, all, h.rest);
      if f.m.sym.Some? && HasTree(all, f.m, Nil) {
        OneTree(all, f, Nil);
        TakesExact(w, f);
      }
    }
  }

  lemma RestIsSuffix(w: Conds, all: Forest, f: Forest)
    requires f.Cons? && SuffixOf(f, all)
    ensures SuffixOf(Finish(w, f).rest, all)
  {
    FinishSuffix(w, f);
    SuffixTrans(Finish(w, f).rest, f.rest, f);
    SuffixTrans(Finish(w, f).rest, f, all);
  }

  /** A node that occurs once has its children once. */
  lemma {:induction false} OneTree(all: Forest, f: Forest, k: Forest)
    requires Distinct(all) && SuffixOf(f, all) && f.Cons? && HasTree(all, f.m, k)
    ensures f.kids == k
  {
    if f == all {
      TreeIsNode(all.rest, f.m, k);
    } else {
      SuffixNodes(f, all.rest);
      OneTree(all.rest, f, k);
    }
  }

  lemma {:induction false} TreeIsNode(f: Forest, m: Menu, k: Forest)
    ensures HasTree(f, m, k) ==> m in Nodes(f)
  {
    if f.Cons? {
      TreeIsNode(f.rest, m, k);
    }
  }
}
