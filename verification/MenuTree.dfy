/** Menu nodes linked by next, list and parent, the ordered tree they represent, and
    the traversal that the configuration writers drive by those links alone. */
module MenuTree {
  import opened Exprs

  datatype PropKind = Prompt | Comment | MenuTitle | Default | Select | Imply | Range | Definition | ChoiceLink | FromEnv

  /** What a node shows: its prompt, which for a symbol is also one of the symbol's
      properties. */
  datatype Title = Title(id: nat, kind: PropKind, hasText: bool)

  /** A property of a symbol or of a menu entry. Its condition changes during
      finalisation and is kept by the finaliser. The target is the selected, implied
      or linked symbol. */
  datatype Property = Property(id: nat, kind: PropKind, hasText: bool, at: Menu?, target: Option<Symbol>)

  class Menu {
    var next: Menu?
    var parent: Menu?
    var list: Menu?
    const sym: Option<Symbol>
    const title: Option<Title>
    var dep: Option<Expr>

    constructor (sym: Option<Symbol>, title: Option<Title>, dep: Option<Expr>, parent: Menu?)
      ensures next == null && list == null && this.parent == parent
      ensures this.sym == sym && this.title == title && this.dep == dep
    {
      this.sym, this.title, this.dep, this.parent := sym, title, dep, parent;
      next, list := null, null;
    }
  }

  function PromptOf(m: Menu): Property
    requires m.title.Some?
  {
    Property(m.title.value.id, m.title.value.kind, m.title.value.hasText, m, None)
  }

  /** A list of sibling trees. */
  datatype Forest = Nil | Cons(m: Menu, kids: Forest, rest: Forest)

  ghost function Nodes(f: Forest): set<Menu> {
    match f
    case Nil => {}
    case Cons(m, k, r) => {m} + Nodes(k) + Nodes(r)
  }

  function Preorder(f: Forest): seq<Menu> {
    match f
    case Nil => []
    case Cons(m, k, r) => [m] + Preorder(k) + Preorder(r)
  }

  function Count(f: Forest): nat {
    match f
    case Nil => 0
    case Cons(_, k, r) => 1 + Count(k) + Count(r)
  }

  function Append(f: Forest, g: Forest): Forest {
    match f
    case Nil => g
    case Cons(m, k, r) => Cons(m, k, Append(r, g))
  }

  /** No node occurs twice. */
  ghost predicate Distinct(f: Forest) {
    match f
    case Nil => true
    case Cons(m, k, r) =>
      && m !in Nodes(k) && m !in Nodes(r) && Nodes(k) !! Nodes(r)
      && Distinct(k) && Distinct(r)
  }

  /** The siblings from h up to but not including end, all with parent p, are f. */
  ghost predicate Segment(h: Menu?, p: Menu?, f: Forest, end: Menu?)
    reads Nodes(f)`next, Nodes(f)`parent, Nodes(f)`list
    decreases f
  {
    match f
    case Nil => h == end
    case Cons(m, k, r) => h == m && m.parent == p && Segment(m.list, m, k, null) && Segment(m.next, p, r, end)
  }

  /** The linked nodes from h on represent f below the parent p: child and sibling
      chains end, and every node's parent is the node that lists it. */
  ghost predicate Represents(h: Menu?, p: Menu?, f: Forest)
    reads Nodes(f)`next, Nodes(f)`parent, Nodes(f)`list
  {
    Segment(h, p, f, null)
  }

  lemma RepresentsHead(h: Menu?, p: Menu?, f: Forest)
    requires Represents(h, p, f)
    ensures h == null <==> f == Nil
    ensures h != null ==> Represents(h, h.parent, f) && h.parent == p && f.m == h
  {
  }

  lemma RepresentsParts(h: Menu?, p: Menu?, f: Forest)
    requires Represents(h, p, f) && f.Cons?
    ensures h == f.m && f.m.parent == p
    ensures Represents(f.m.list, f.m, f.kids) && Represents(f.m.next, p, f.rest)
    ensures f.m.list == null <==> f.kids == Nil
    ensures f.m.next == null <==> f.rest == Nil
    ensures f.rest.Cons? ==> f.m.next == f.rest.m
  {
  }

  lemma HeadApart(f: Forest)
    requires f.Cons? && Distinct(f)
    ensures Nodes(f) == {f.m} + Nodes(f.kids) + Nodes(f.rest)
    ensures f.m !in Nodes(f.kids) && f.m !in Nodes(f.rest) && Nodes(f.kids) !! Nodes(f.rest)
    ensures Distinct(f.kids) && Distinct(f.rest)
    ensures Count(f) == 1 + Count(f.kids) + Count(f.rest)
  {
  }

  lemma {:induction false} AppendContents(f: Forest, g: Forest)
    ensures Nodes(Append(f, g)) == Nodes(f) + Nodes(g)
    ensures Count(Append(f, g)) == Count(f) + Count(g)
  {
    if f.Cons? {
      AppendContents(f.rest, g);
    }
  }

  lemma {:induction false} AppendPreorder(f: Forest, g: Forest)
    ensures Preorder(Append(f, g)) == Preorder(f) + Preorder(g)
  {
    if f.Cons? {
      AppendPreorder(f.rest, g);
    }
  }

  lemma {:induction false} AppendDistinct(f: Forest, g: Forest)
    ensures Distinct(Append(f, g)) <==> Distinct(f) && Distinct(g) && Nodes(f) !! Nodes(g)
  {
    if f.Cons? {
      AppendDistinct(f.rest, g);
      AppendContents(f.rest, g);
      AppendContents(f, g);
      DistinctHead(f.m, f.kids, f.rest);
      DistinctHead(f.m, f.kids, Append(f.rest, g));
      hide Distinct;
      assert Append(f, g) == Cons(f.m, f.kids, Append(f.rest, g)) && f == Cons(f.m, f.kids, f.rest);
      assert Nodes(f) == {f.m} + Nodes(f.kids) + Nodes(f.rest);
    }
  }

  lemma DistinctHead(m: Menu, k: Forest, r: Forest)
    ensures Distinct(Cons(m, k, r)) <==>
      m !in Nodes(k) && m !in Nodes(r) && Nodes(k) !! Nodes(r) && Distinct(k) && Distinct(r)
  {
  }

  lemma AppendFacts(f: Forest, g: Forest)
    ensures Nodes(Append(f, g)) == Nodes(f) + Nodes(g)
    ensures Preorder(Append(f, g)) == Preorder(f) + Preorder(g)
    ensures Count(Append(f, g)) == Count(f) + Count(g)
    ensures Distinct(Append(f, g)) <==> Distinct(f) && Distinct(g) && Nodes(f) !! Nodes(g)
  {
    AppendContents(f, g);
    AppendPreorder(f, g);
    AppendDistinct(f, g);
  }

  lemma {:induction false} AppendNil(f: Forest)
    ensures Append(f, Nil) == f
  {
    if f.Cons? {
      AppendNil(f.rest);
    }
  }

  lemma {:induction false} AppendAssoc(f: Forest, g: Forest, h: Forest)
    ensures Append(Append(f, g), h) == Append(f, Append(g, h))
  {
    if f.Cons? {
      AppendAssoc(f.rest, g, h);
    }
  }

  lemma {:induction false} SegmentAppend(h: Menu?, p: Menu?, f: Forest, mid: Menu?, g: Forest, end: Menu?)
    requires Segment(h, p, f, mid) && Segment(mid, p, g, end)
    ensures Segment(h, p, Append(f, g), end)
  {
    if f.Cons? {
      SegmentAppend(f.m.next, p, f.rest, mid, g, end);
    }
  }

  /** The preorder lists exactly the nodes; none repeats just when there are as many
      nodes as places. */
  lemma {:induction false} PreorderNodes(f: Forest)
    ensures Nodes(f) == set m <- Preorder(f)
    ensures |Preorder(f)| == Count(f)
  {
    if f.Cons? {
      PreorderNodes(f.kids);
      PreorderNodes(f.rest);
    }
  }

  lemma UnionSize(a: set<Menu>, b: set<Menu>)
    ensures |a + b| <= |a| + |b|
    ensures a !! b <==> |a + b| == |a| + |b|
  {
    assert |a + b| + |a * b| == |a| + |b|;
    if !(a !! b) {
      var x :| x in a && x in b;
      assert x in a * b;
    }
  }

  lemma {:induction false} DistinctBySize(f: Forest)
    ensures |Nodes(f)| <= Count(f)
    ensures Distinct(f) <==> |Nodes(f)| == Count(f)
  {
    if f.Cons? {
      DistinctBySize(f.kids);
      DistinctBySize(f.rest);
      UnionSize({f.m}, Nodes(f.kids));
      UnionSize({f.m} + Nodes(f.kids), Nodes(f.rest));
    }
  }

  /** Two forests with the same preorder have the same nodes, equally distinct. */
  lemma {:induction false} SamePreorder(f: Forest, g: Forest)
    requires Preorder(f) == Preorder(g)
    ensures Nodes(f) == Nodes(g) && Distinct(f) == Distinct(g) && Count(f) == Count(g)
  {
    PreorderNodes(f);
    PreorderNodes(g);
    DistinctBySize(f);
    DistinctBySize(g);
  }

  lemma {:induction false} DistinctOnce(f: Forest)
    requires Distinct(f)
    ensures forall m: Menu :: multiset(Preorder(f))[m] == if m in Nodes(f) then 1 else 0
  {
    if f.Cons? {
      DistinctOnce(f.kids);
      DistinctOnce(f.rest);
      MultisetOfParts(f.m, Preorder(f.kids), Preorder(f.rest));
    }
  }

  lemma MultisetOfParts<T>(x: T, a: seq<T>, b: seq<T>)
    ensures multiset([x] + a + b) == multiset{x} + multiset(a) + multiset(b)
  {
  }

  /* ----- which nodes may have children ----- */

  predicate Titled(m: Menu) {
    m.title.Some? && m.title.value.hasText
  }

  /** Only nodes with a prompt have children, at every depth. */
  ghost predicate AllFlat(f: Forest) {
    match f
    case Nil => true
    case Cons(m, k, r) => (k == Nil || Titled(m)) && AllFlat(k) && AllFlat(r)
  }

  /** The same below each tree's root. */
  ghost predicate KidsFlat(f: Forest) {
    match f
    case Nil => true
    case Cons(_, k, r) => AllFlat(k) && KidsFlat(r)
  }

  lemma {:induction false} FlatAppend(f: Forest, g: Forest)
    ensures AllFlat(Append(f, g)) <==> AllFlat(f) && AllFlat(g)
    ensures KidsFlat(Append(f, g)) <==> KidsFlat(f) && KidsFlat(g)
    ensures AllFlat(f) ==> KidsFlat(f)
  {
    if f.Cons? {
      FlatAppend(f.rest, g);
    }
  }

  /* ----- roots and what is below them ----- */

  ghost function TopLevel(f: Forest): set<Menu> {
    if f == Nil then {} else {f.m} + TopLevel(f.rest)
  }

  ghost function Below(f: Forest): set<Menu> {
    if f == Nil then {} else Nodes(f.kids) + Below(f.rest)
  }

  ghost function Roots(f: Forest): seq<Menu> {
    if f == Nil then [] else [f.m] + Roots(f.rest)
  }

  lemma {:induction false} TopAndBelow(f: Forest)
    ensures TopLevel(f) + Below(f) == Nodes(f)
    ensures Distinct(f) ==> TopLevel(f) !! Below(f)
    ensures forall m: Menu :: m in Roots(f) <==> m in TopLevel(f)
  {
    if f.Cons? {
      TopAndBelow(f.rest);
    }
  }

  /** f without some of its first trees. */
  ghost predicate SuffixOf(g: Forest, f: Forest) {
    g == f || (f.Cons? && SuffixOf(g, f.rest))
  }

  lemma {:induction false} SuffixTrans(h: Forest, g: Forest, f: Forest)
    requires SuffixOf(h, g) && SuffixOf(g, f)
    ensures SuffixOf(h, f)
  {
    if g != f {
      SuffixTrans(h, g, f.rest);
    }
  }

  lemma {:induction false} SuffixNodes(g: Forest, f: Forest)
    requires SuffixOf(g, f)
    ensures TopLevel(g) <= TopLevel(f) && Below(g) <= Below(f) && Nodes(g) <= Nodes(f)
    ensures Distinct(f) ==> Distinct(g)
  {
    if g != f {
      SuffixNodes(g, f.rest);
    }
  }

  /* ----- cutting a segment off ----- */

  /** The last tree's root, or null. */
  ghost function LastOf(f: Forest): Menu? {
    if f == Nil then null else if f.rest == Nil then f.m else LastOf(f.rest)
  }

  lemma {:induction false} LastAppend(f: Forest, m: Menu, k: Forest)
    ensures LastOf(Append(f, Cons(m, k, Nil))) == m
  {
    if f.Cons? {
      LastAppend(f.rest, m, k);
    }
  }

  lemma {:induction false} LastIn(f: Forest)
    requires f.Cons?
    ensures LastOf(f) != null && LastOf(f) in Nodes(f)
  {
    if f.rest.Cons? {
      LastIn(f.rest);
    }
  }

  /** A nonempty segment is everything before its last tree, and that tree. */
  lemma {:induction false} SplitLast(h: Menu?, p: Menu?, f: Forest, end: Menu?)
    returns (before: Forest, last: Menu, kids: Forest)
    requires Segment(h, p, f, end) && f.Cons? && Distinct(f)
    ensures last == LastOf(f) && f == Append(before, Cons(last, kids, Nil))
    ensures Segment(h, p, before, last)
    ensures last.parent == p && last.next == end && Represents(last.list, last, kids)
    ensures last !in Nodes(before) && last !in Nodes(kids) && last in Nodes(f)
    ensures Nodes(before) <= Nodes(f) && Nodes(kids) <= Nodes(f)
  {
    if f.rest == Nil {
      before, last, kids := Nil, f.m, f.kids;
    } else {
      before, last, kids := SplitLast(f.m.next, p, f.rest, end);
      before := Cons(f.m, f.kids, before);
    }
  }

  /** Turns the trees between parent and the rest of its siblings into its list. */
  method CutSubmenu(parent: Menu, last: Menu, ghost par: Menu?, ghost menu: Menu?, ghost moved: Forest, ghost left: Forest)
    requires Represents(menu, par, left) && Segment(parent.next, parent, moved, menu) && LastOf(moved) == last
    requires Distinct(moved) && Nodes(moved) !! Nodes(left) && parent !in Nodes(moved) && parent !in Nodes(left)
    modifies parent`list, parent`next, last`next
    ensures Represents(parent.list, parent, moved) && Represents(parent.next, par, left) && parent.next == menu
  {
    ghost var before, l, kids := SplitLast(parent.next, parent, moved, menu);
    CutTail(parent, last, par, before, kids, left);
  }

  method CutTail(parent: Menu, last: Menu, ghost par: Menu?, ghost before: Forest, ghost kids: Forest, ghost left: Forest)
    requires Segment(parent.next, parent, before, last) && last.parent == parent
    requires Represents(last.list, last, kids) && Represents(last.next, par, left)
    requires last !in Nodes(before) + Nodes(kids) + Nodes(left)
    requires parent !in Nodes(before) + Nodes(kids) + Nodes(left) && parent != last
    modifies parent`list, parent`next, last`next
    ensures Represents(parent.list, parent, Append(before, Cons(last, kids, Nil)))
    ensures Represents(parent.next, par, left) && parent.next == old(last.next)
  {
    parent.list := parent.next;
    parent.next := last.next;
    last.next := null;
    SegmentAppend(parent.list, parent, before, last, Cons(last, kids, Nil), null);
  }

  /** Gives the children of menu back to its own parent, right after it. */
  method Splice(menu: Menu, parent: Menu, ghost b: Forest)
    requires Represents(menu, parent, b) && b.Cons? && b.kids.Cons? && Distinct(b)
    modifies Nodes(b)`next, Nodes(b)`parent, Nodes(b)`list
    ensures Represents(menu, parent, Cons(menu, Nil, Append(b.kids, b.rest)))
  {
    hide *;
    RepresentsParts(menu, parent, b);
    HeadApart(b);
    RepresentsHead(menu.list, menu, b.kids);
    assert allocated(Nodes(b.kids)) && allocated(Nodes(b.rest));
    var last := menu.list;
    ghost var done, left := Nil, b.kids;
    SegmentEmpty(last, parent);
    AppendEmpty(b.kids);
    while true
      invariant menu.list == b.kids.m && menu.parent == parent && Represents(menu.next, parent, b.rest)
      invariant last != null && Segment(menu.list, parent, done, last) && Represents(last, menu, left)
      invariant Append(done, left) == b.kids
      decreases Count(left)
    {
      AppendFacts(done, left);
      RepresentsHead(last, menu, left);
      RepresentsParts(last, menu, left);
      HeadApart(left);
      assert allocated(Nodes(done)) && allocated(Nodes(left.kids)) && allocated(Nodes(left.rest));
      last.parent := parent;
      if last.next == null {
        break;
      }
      ShiftOne(done, left);
      SegmentOne(last, parent, left.kids);
      SegmentAppend(menu.list, parent, done, last, Cons(last, left.kids, Nil), last.next);
      done, left := Append(done, Cons(last, left.kids, Nil)), left.rest;
      last := last.next;
    }
    last.next := menu.next;
    menu.next := menu.list;
    menu.list := null;
    RepresentsCons(last, parent, left.kids, b.rest);
    SegmentAppend(menu.next, parent, done, last, Cons(last, left.kids, b.rest), null);
    AppendAround(done, left, b.rest);
    RepresentsEmpty(menu.list, menu);
    RepresentsCons(menu, parent, Nil, Append(b.kids, b.rest));
  }

  lemma SegmentEmpty(h: Menu?, p: Menu?)
    ensures Segment(h, p, Nil, h)
  {
  }

  lemma RepresentsEmpty(h: Menu?, p: Menu?)
    requires h == null
    ensures Represents(h, p, Nil)
  {
  }

  lemma AppendEmpty(f: Forest)
    ensures Append(Nil, f) == f
  {
  }

  lemma SegmentOne(m: Menu, p: Menu?, k: Forest)
    requires m.parent == p && Represents(m.list, m, k)
    ensures Segment(m, p, Cons(m, k, Nil), m.next)
  {
  }

  lemma RepresentsCons(m: Menu, p: Menu?, k: Forest, r: Forest)
    requires m.parent == p && Represents(m.list, m, k) && Represents(m.next, p, r)
    ensures Represents(m, p, Cons(m, k, r))
  {
  }

  lemma ShiftOne(a: Forest, b: Forest)
    requires b.Cons?
    ensures Append(Append(a, Cons(b.m, b.kids, Nil)), b.rest) == Append(a, b)
    ensures Count(b.rest) < Count(b)
  {
    AppendAssoc(a, Cons(b.m, b.kids, Nil), b.rest);
  }

  lemma AppendAround(a: Forest, b: Forest, c: Forest)
    requires b.Cons? && b.rest == Nil
    ensures Append(a, Cons(b.m, b.kids, c)) == Append(Append(a, b), c)
  {
    AppendAssoc(a, b, c);
  }

  /* ----- the stackless traversal ----- */

  /** What remains to be visited once the trees from the current node on are done:
      the later siblings of each ancestor, innermost first. */
  datatype Later = Done | After(up: Menu, rest: Forest, outer: Later)

  ghost function LaterNodes(w: Later): set<Menu> {
    if w.Done? then {} else {w.up} + Nodes(w.rest) + LaterNodes(w.outer)
  }

  /** w describes what follows the subtree of p, up to root. */
  ghost predicate Pending(p: Menu?, w: Later, root: Menu)
    reads LaterNodes(w), root
    decreases w
  {
    match w
    case Done => p == root && root.next == null && root.parent == null
    case After(up, rest, outer) =>
      p == up && Represents(up.next, up.parent, rest) && Pending(up.parent, outer, root)
  }

  ghost function LaterPreorder(w: Later): seq<Menu> {
    if w.Done? then [] else Preorder(w.rest) + LaterPreorder(w.outer)
  }

  ghost function LaterCount(w: Later): nat {
    if w.Done? then 0 else Count(w.rest) + LaterCount(w.outer)
  }

  ghost function Depth(w: Later): nat {
    if w.Done? then 0 else 1 + Depth(w.outer)
  }

  /** From a node without next, the next of the nearest ancestor that has one. */
  method Climb(from: Menu, root: Menu, ghost around: Later) returns (menu: Menu?, ghost here: Forest, ghost later: Later)
    requires Pending(from.parent, around, root)
    ensures menu == null ==> here == Nil && later == Done
    ensures menu != null ==> here.Cons? && Represents(menu, menu.parent, here) && Pending(menu.parent, later, root)
    ensures Preorder(here) + LaterPreorder(later) == LaterPreorder(around)
    ensures Count(here) + LaterCount(later) <= LaterCount(around)
  {
    menu, here, later := from.parent, Nil, around;
    while menu != null
      invariant here == Nil
      invariant if menu != null then Pending(menu, later, root) else later == Done
      invariant LaterPreorder(later) == LaterPreorder(around)
      invariant LaterCount(later) <= LaterCount(around)
      decreases if menu == null then 0 else 1 + Depth(later)
    {
      if later.After? {
        RepresentsHead(menu.next, menu.parent, later.rest);
      }
      if menu.next != null {
        menu, here, later := menu.next, later.rest, later.outer;
        return;
      }
      menu, later := menu.parent, if later.Done? then Done else later.outer;
    }
  }

  /** Visits every node below root by following list, then next, then the next of
      the nearest ancestor that has one. */
  method Traverse(root: Menu, ghost f: Forest) returns (visited: seq<Menu>)
    requires Represents(root.list, root, f)
    requires root.next == null && root.parent == null
    ensures visited == Preorder(f)
  {
    visited := [];
    var menu := root.list;
    ghost var here, later := f, Done;
    RepresentsHead(root.list, root, f);
    while menu != null
      invariant menu != null ==> here.Cons? && Represents(menu, menu.parent, here) && Pending(menu.parent, later, root)
      invariant menu == null ==> here == Nil && later == Done
      invariant visited + (Preorder(here) + LaterPreorder(later)) == Preorder(f)
      decreases Count(here) + LaterCount(later)
    {
      VisitOne(visited, here, later);
      RepresentsHead(menu.list, menu, here.kids);
      RepresentsHead(menu.next, menu.parent, here.rest);
      visited := visited + [menu];
      if menu.list != null {
        later := After(menu, here.rest, later);
        menu, here := menu.list, here.kids;
      } else if menu.next != null {
        menu, here := menu.next, here.rest;
      } else {
        menu, here, later := Climb(menu, root, later);
      }
    }
  }

  lemma Reassociate<T>(v: seq<T>, x: T, a: seq<T>, b: seq<T>, c: seq<T>)
    ensures v + (([x] + a + b) + c) == (v + [x]) + (a + (b + c))
    ensures [] + b == b
  {
  }

  lemma VisitOne(visited: seq<Menu>, here: Forest, later: Later)
    requires here.Cons?
    ensures visited + (Preorder(here) + LaterPreorder(later))
         == (visited + [here.m]) + (Preorder(here.kids) + (Preorder(here.rest) + LaterPreorder(later)))
    ensures here.kids == Nil ==>
        Preorder(here.kids) + (Preorder(here.rest) + LaterPreorder(later)) == Preorder(here.rest) + LaterPreorder(later)
    ensures here.rest == Nil ==> Preorder(here.rest) + LaterPreorder(later) == LaterPreorder(later)
  {
    Reassociate(visited, here.m, Preorder(here.kids), Preorder(here.rest), LaterPreorder(later));
  }
}
