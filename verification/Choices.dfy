/** A choice and its members: which member is selected, what values all of them get,
    and that the order of evaluation does not matter. */
module Choices {
  import opened Exprs
  import opened Symbols
  import Laws

  /** A member; tri if it is declared tristate. */
  datatype Member = Member(tri: bool, prompts: seq<Option<Expr>>, defaults: seq<DefaultProp>, user: Option<Tristate>)

  datatype Preference = Preference(cond: Option<Expr>, target: nat)

  /** A choice with the user's value for it and the member the user picked. Its conditions
      and those of its members are over the choice itself and symbols outside, which have
      the values vals. */
  datatype Choice = Choice(sym: Symbol, sys: System, vals: Values, prompts: seq<Option<Expr>>, rev: Option<Expr>, user: Option<Tristate>,
                           picked: Option<nat>, preferences: seq<Preference>, members: seq<Member>)

  /** The user's pick and the defaults of the choice are members of it; the conditions of
      the choice do not mention it; and the condition of a member's prompt, inherited from
      the choice, mentions it or is n when the choice is. */
  ghost predicate Valid(c: Choice) {
    && c.sym.Typed()
    && (c.picked.Some? ==> c.picked.value < |c.members|)
    && (forall p <- c.preferences :: p.target < |c.members|)
    && (forall p <- c.prompts :: !OccursOpt(c.sym, p)) && !OccursOpt(c.sym, c.rev)
    && (forall m <- c.members, p <- m.prompts :: OccursOpt(c.sym, p) || EvalOpt(p, Seen(c, NO)) == NO)
  }

  /** All values while the choice has the given one. */
  function At(c: Choice, level: Tristate): Values {
    (s: Symbol) => if s == c.sym then Value("n", level) else c.vals(s)
  }

  /** What conditions see then. */
  function Seen(c: Choice, level: Tristate): Env {
    EnvOf(c.sys, At(c, level))
  }

  lemma LevelIrrelevant(c: Choice, e: Option<Expr>, a: Tristate, b: Tristate)
    requires !OccursOpt(c.sym, e)
    ensures EvalOpt(e, Seen(c, a)) == EvalOpt(e, Seen(c, b))
  {
    if e.Some? {
      EvalAgree(c.sys, At(c, a), At(c, b), e.value);
    }
  }

  function MaxOf(ts: seq<Tristate>): Tristate {
    if ts == [] then NO else Max(MaxOf(ts[..|ts| - 1]), ts[|ts| - 1])
  }

  /* ----- the choice by itself ----- */

  predicate TwoValued(c: Choice) {
    c.sym.Type() != Tri || c.sys.modules == NO
  }

  /** The mode of the choice before a member is selected. */
  function Level(c: Choice): Tristate {
    var env := Seen(c, NO);
    var visible := PromoteIf(Strongest(c.prompts, env), TwoValued(c));
    var base := if visible != NO && c.user.Some? then Min(c.user.value, visible) else NO;
    PromoteIf(Max(base, PromoteIf(if c.rev.Some? then Eval(c.rev.value, env) else NO, TwoValued(c))), TwoValued(c))
  }

  /* ----- members, given the mode of the choice ----- */

  /** A prompt of a tristate member at m does not count when the choice is y. */
  function PromptTri(c: Choice, m: Member, level: Tristate, cond: Option<Expr>): Tristate {
    var t := EvalOpt(cond, Seen(c, level));
    if m.tri && t == MOD && level == YES then NO else t
  }

  lemma PromptTriIs(c: Choice, m: Member, level: Tristate, cond: Option<Expr>)
    ensures var t := EvalOpt(cond, Seen(c, level));
      PromptTri(c, m, level, cond) == if m.tri && t == MOD && level == YES then NO else t
  {
  }

  function PromptTris(c: Choice, m: Member, level: Tristate, prompts: seq<Option<Expr>>): (r: seq<Tristate>)
    ensures |r| == |prompts|
  {
    seq(|prompts|, i requires 0 <= i < |prompts| => PromptTri(c, m, level, prompts[i]))
  }

  function Shown(c: Choice, m: Member, level: Tristate): Tristate {
    PromoteIf(MaxOf(PromptTris(c, m, level, m.prompts)), !m.tri || c.sys.modules == NO)
  }

  /** The first default whose condition is not n. */
  function MemberDefault(c: Choice, level: Tristate, ds: seq<DefaultProp>): Tristate {
    var d := ActiveDefault(ds, Seen(c, level));
    if d.Some? then Min(Eval(d.value.value, Seen(c, level)), EvalOpt(d.value.cond, Seen(c, level))) else NO
  }

  /* ----- the selection ----- */

  function ShownIndex(c: Choice, i: nat): bool {
    i < |c.members| && Shown(c, c.members[i], YES) != NO
  }

  function FirstPreference(c: Choice, ps: seq<Preference>): Option<nat> {
    if ps == [] then None
    else if EvalOpt(ps[0].cond, Seen(c, YES)) != NO && ShownIndex(c, ps[0].target) then Some(ps[0].target)
    else FirstPreference(c, ps[1..])
  }

  function FirstShown(c: Choice, i: nat): Option<nat>
    decreases |c.members| - i
  {
    if i >= |c.members| then None
    else if ShownIndex(c, i) then Some(i)
    else FirstShown(c, i + 1)
  }

  /** The user's pick, else a default of the choice, else the first: each only if shown. */
  function Selected(c: Choice): Option<nat> {
    if c.picked.Some? && ShownIndex(c, c.picked.value) then c.picked
    else if FirstPreference(c, c.preferences).Some? then FirstPreference(c, c.preferences)
    else FirstShown(c, 0)
  }

  /** The selected member of a choice at y. */
  function FinalSelected(c: Choice): Option<nat> {
    if Level(c) == YES then Selected(c) else None
  }

  /** The value of the choice: n if it would be y but nothing can be selected. */
  function FinalLevel(c: Choice): Tristate {
    if Level(c) == YES && Selected(c).None? then NO else Level(c)
  }

  /** The value of a member, whose reverse dependencies are not looked at. */
  function MemberValue(c: Choice, i: nat): Tristate
    requires i < |c.members|
  {
    var m := c.members[i];
    var visible := Shown(c, m, FinalLevel(c));
    if visible == YES then FromBool(FinalSelected(c) == Some(i))
    else
      var t := if visible != NO && m.user.Some? then Min(m.user.value, visible) else MemberDefault(c, FinalLevel(c), m.defaults);
      PromoteIf(t, !m.tri || c.sys.modules == NO)
  }

  /* ----- exactly one ----- */

  lemma {:induction false} MaxOfTwoValued(ts: seq<Tristate>)
    requires forall i: nat :: i < |ts| ==> ts[i] != MOD
    ensures MaxOf(ts) != MOD
  {
    if ts != [] {
      MaxOfTwoValued(ts[..|ts| - 1]);
    }
  }

  /** In a choice at y a member is shown at y or not at all. */
  lemma ShownTwoValued(c: Choice, m: Member)
    ensures Shown(c, m, YES) != MOD
  {
    if m.tri {
      MaxOfTwoValued(PromptTris(c, m, YES, m.prompts));
    }
  }

  lemma {:induction false} FirstPreferenceShown(c: Choice, ps: seq<Preference>)
    ensures FirstPreference(c, ps).Some? ==> ShownIndex(c, FirstPreference(c, ps).value)
  {
    if ps != [] {
      FirstPreferenceShown(c, ps[1..]);
    }
  }

  lemma {:induction false} FirstShownShown(c: Choice, i: nat)
    ensures FirstShown(c, i).Some? ==> ShownIndex(c, FirstShown(c, i).value)
    ensures FirstShown(c, i).None? ==> forall j :: i <= j < |c.members| ==> !ShownIndex(c, j)
    decreases |c.members| - i
  {
    if i < |c.members| {
      FirstShownShown(c, i + 1);
    }
  }

  /** Selection finds a shown member if there is one. */
  lemma SelectedShown(c: Choice)
    ensures Selected(c).Some? ==> ShownIndex(c, Selected(c).value)
    ensures Selected(c).None? <==> forall i: nat :: i < |c.members| ==> !ShownIndex(c, i)
  {
    FirstPreferenceShown(c, c.preferences);
    FirstShownShown(c, 0);
  }

  /** No default of a member that is not shown makes it other than n. */
  predicate HiddenQuiet(c: Choice) {
    forall i: nat :: i < |c.members| && !ShownIndex(c, i) ==> MemberDefault(c, YES, c.members[i].defaults) == NO
  }

  /** In a choice at y the selected member is y. */
  lemma SelectedIsYes(c: Choice)
    requires FinalLevel(c) == YES
    ensures FinalSelected(c).Some? && FinalSelected(c).value < |c.members|
    ensures MemberValue(c, FinalSelected(c).value) == YES
  {
    SelectedShown(c);
    ShownTwoValued(c, c.members[Selected(c).value]);
  }

  /** All others are n just when no hidden member has a default at work. */
  lemma ChoiceExclusive(c: Choice)
    requires FinalLevel(c) == YES
    ensures (forall i: nat :: i < |c.members| && FinalSelected(c) != Some(i) ==> MemberValue(c, i) == NO) <==> HiddenQuiet(c)
  {
    SelectedShown(c);
    forall i: nat | i < |c.members|
      ensures ShownIndex(c, i) ==> MemberValue(c, i) == FromBool(FinalSelected(c) == Some(i))
      ensures !ShownIndex(c, i) ==> FinalSelected(c) != Some(i)
      ensures !ShownIndex(c, i) ==>
        (MemberValue(c, i) == NO <==> MemberDefault(c, YES, c.members[i].defaults) == NO)
    {
      ShownTwoValued(c, c.members[i]);
    }
  }

  /** Without defaults on members exactly one member is y and all others are n. */
  lemma NoDefaultsExclusive(c: Choice)
    requires FinalLevel(c) == YES && forall m <- c.members :: m.defaults == []
    ensures FinalSelected(c).Some? && FinalSelected(c).value < |c.members|
    ensures forall i: nat :: i < |c.members| ==> MemberValue(c, i) == FromBool(FinalSelected(c) == Some(i))
  {
    SelectedIsYes(c);
    ChoiceExclusive(c);
    assert forall i: nat :: i < |c.members| ==> c.members[i].defaults == [];
    assert HiddenQuiet(c);
  }

  /** A hidden member with a default is y beside the selected one. */
  lemma TwoMembersYes(c: Choice)
    requires c.sym == Named(0, Boolean, false) && c.vals(SymYes).tri == YES && c.vals(SymNo).tri == NO
    requires c.prompts == [None] && c.rev == None && c.user == Some(YES) && c.picked == None && c.preferences == []
    requires var shown, hidden, mode := Some(And(Sym(c.sym), Sym(SymYes))), Some(And(Sym(c.sym), Sym(SymNo))), Some(Sym(c.sym));
      c.members == [Member(false, [shown], [], None), Member(false, [hidden], [DefaultProp(Sym(SymYes), mode)], None)]
    ensures Valid(c) && MemberValue(c, 0) == YES && MemberValue(c, 1) == YES
  {
    var a, b := c.members[0], c.members[1];
    var p, q := a.prompts[0], b.prompts[0];
    assert OccursOpt(c.sym, p) && OccursOpt(c.sym, q);
    assert Strongest([None], Seen(c, NO)) == Max(Strongest([], Seen(c, NO)), YES);
    assert EvalOpt(p, Seen(c, YES)) == YES && EvalOpt(q, Seen(c, YES)) == NO;
    assert MaxOf([YES]) == Max(MaxOf([]), YES) && MaxOf([NO]) == Max(MaxOf([]), NO);
    assert PromptTris(c, a, YES, [p]) == [YES] && PromptTris(c, b, YES, [q]) == [NO];
    assert Level(c) == YES && ShownIndex(c, 0) && FinalSelected(c) == Some(0);
    assert ActiveDefault(b.defaults, Seen(c, YES)) == Some(b.defaults[0]);
  }

  /* ----- who is selected, and what everything is worth ----- */

  /** Preference i is the first whose condition is not n and whose target is shown. */
  ghost predicate FirstWanted(c: Choice, i: nat) {
    && i < |c.preferences| && Wanted(c, i)
    && forall j: nat :: j < i ==> !Wanted(c, j)
  }

  predicate Wanted(c: Choice, i: nat)
    requires i < |c.preferences|
  {
    EvalOpt(c.preferences[i].cond, Seen(c, YES)) != NO && ShownIndex(c, c.preferences[i].target)
  }

  ghost predicate LeastShown(c: Choice, i: nat) {
    ShownIndex(c, i) && forall j: nat :: j < i ==> !ShownIndex(c, j)
  }

  /** The user's pick is selected if it is shown; otherwise the target of the first preference
      at work whose target is shown; without one the first member that is shown. */
  lemma SelectionOrder(c: Choice)
    ensures c.picked.Some? && ShownIndex(c, c.picked.value) ==> Selected(c) == c.picked
    ensures !(c.picked.Some? && ShownIndex(c, c.picked.value)) ==>
      && (forall i: nat :: FirstWanted(c, i) ==> Selected(c) == Some(c.preferences[i].target))
      && ((forall i: nat :: i < |c.preferences| ==> !Wanted(c, i)) ==>
            && (forall i: nat :: LeastShown(c, i) ==> Selected(c) == Some(i))
            && ((forall i: nat :: !ShownIndex(c, i)) ==> Selected(c) == None))
  {
    hide Shown;
    assert c.preferences[0..] == c.preferences;
    PreferenceOrder(c, 0);
    ShownOrder(c, 0);
  }

  lemma {:induction false} PreferenceOrder(c: Choice, k: nat)
    requires k <= |c.preferences| && forall j: nat :: j < k ==> !Wanted(c, j)
    ensures forall i: nat :: FirstWanted(c, i) ==> FirstPreference(c, c.preferences[k..]) == Some(c.preferences[i].target)
    ensures (forall i: nat :: i < |c.preferences| ==> !Wanted(c, i)) ==> FirstPreference(c, c.preferences[k..]) == None
    decreases |c.preferences| - k
  {
    hide ShownIndex;
    if k < |c.preferences| {
      assert c.preferences[k..][1..] == c.preferences[k + 1..];
      if !Wanted(c, k) {
        PreferenceOrder(c, k + 1);
      } else {
        assert FirstWanted(c, k);
      }
    }
  }

  lemma {:induction false} ShownOrder(c: Choice, k: nat)
    requires forall j: nat :: j < k ==> !ShownIndex(c, j)
    ensures forall i: nat :: LeastShown(c, i) ==> FirstShown(c, k) == Some(i)
    ensures (forall i: nat :: !ShownIndex(c, i)) ==> FirstShown(c, k) == None
    decreases |c.members| - k
  {
    hide Shown;
    if k < |c.members| && !ShownIndex(c, k) {
      ShownOrder(c, k + 1);
    }
  }

  lemma {:induction false} MaxOfExact(ts: seq<Tristate>, t: Tristate)
    requires t != NO
    ensures MaxOf(ts) >= t <==> exists u <- ts :: u >= t
  {
    if ts != [] {
      var before, last := ts[..|ts| - 1], ts[|ts| - 1];
      assert ts == before + [last];
      assert last in ts && (forall u <- before :: u in ts) && forall u <- ts :: u in before || u == last;
      MaxOfExact(before, t);
    }
  }

  /** Some prompt of a member is worth at least t; in a choice at y a prompt of a tristate
      member that is worth m does not count. */
  predicate Offered(c: Choice, m: Member, level: Tristate, t: Tristate) {
    exists p <- m.prompts :: EvalOpt(p, Seen(c, level)) >= t && !(m.tri && level == YES && EvalOpt(p, Seen(c, level)) == MOD)
  }

  lemma ShownExact(c: Choice, m: Member, level: Tristate)
    ensures Shown(c, m, level) >= MOD <==> Offered(c, m, level, MOD)
    ensures Shown(c, m, level) == YES <==>
      Offered(c, m, level, YES) || (Offered(c, m, level, MOD) && (!m.tri || c.sys.modules == NO))
  {
    var ts := PromptTris(c, m, level, m.prompts);
    MaxOfExact(ts, MOD);
    MaxOfExact(ts, YES);
    PromptsOffered(c, m, level, MOD);
    PromptsOffered(c, m, level, YES);
    hide MaxOf, PromptTris, Offered;
  }

  lemma PromptsOffered(c: Choice, m: Member, level: Tristate, t: Tristate)
    requires t != NO
    ensures (exists u <- PromptTris(c, m, level, m.prompts) :: u >= t) <==> Offered(c, m, level, t)
  {
    hide EvalOpt, Seen;
    var ts := PromptTris(c, m, level, m.prompts);
    if u :| u in ts && u >= t {
      var i: nat :| i < |ts| && ts[i] == u;
      assert m.prompts[i] in m.prompts;
    }
    if p :| p in m.prompts && EvalOpt(p, Seen(c, level)) >= t && !(m.tri && level == YES && EvalOpt(p, Seen(c, level)) == MOD) {
      var i: nat :| i < |m.prompts| && m.prompts[i] == p;
      assert ts[i] in ts;
    }
  }

  /** The choice is raised to t: by a select, or by the user as far as a prompt allows it. */
  predicate RaisedTo(c: Choice, t: Tristate) {
    var env := Seen(c, NO);
    || (c.rev.Some? && Eval(c.rev.value, env) >= t)
    || (c.user.Some? && c.user.value >= t && exists p <- c.prompts :: EvalOpt(p, env) >= t)
  }

  /** The mode of a choice before a member is selected; a choice at y with nothing to select
      becomes n. */
  lemma LevelExact(c: Choice)
    ensures Level(c) >= MOD <==> RaisedTo(c, MOD)
    ensures Level(c) == YES <==> RaisedTo(c, YES) || (RaisedTo(c, MOD) && (c.sym.Type() != Tri || c.sys.modules == NO))
    ensures FinalLevel(c) == if Level(c) == YES && (forall i: nat :: i < |c.members| ==> !ShownIndex(c, i)) then NO else Level(c)
  {
    SelectedShown(c);
    Laws.StrongestExact(c.prompts, Seen(c, NO), MOD);
    Laws.StrongestExact(c.prompts, Seen(c, NO), YES);
    hide Strongest, Seen, Eval, Selected, ShownIndex, EvalOpt;
  }

  /** A member is raised to t: by the user, as far as a prompt allows it, or else by its first
      default at work. */
  ghost predicate MemberRaised(c: Choice, m: Member, t: Tristate) {
    var level := FinalLevel(c);
    if m.user.Some? && Offered(c, m, level, MOD) then m.user.value >= t && Offered(c, m, level, t)
    else exists i: nat :: Laws.FirstDefault(m.defaults, Seen(c, level), i)
           && Eval(m.defaults[i].value, Seen(c, level)) >= t && EvalOpt(m.defaults[i].cond, Seen(c, level)) >= t
  }

  /** A member shown at y is y or n as it is selected or not; any other has the value it is
      raised to. */
  lemma MemberExact(c: Choice, i: nat)
    requires i < |c.members|
    ensures var m := c.members[i];
      if Shown(c, m, FinalLevel(c)) == YES then MemberValue(c, i) == FromBool(FinalSelected(c) == Some(i))
      else
        && (MemberValue(c, i) >= MOD <==> MemberRaised(c, m, MOD))
        && (MemberValue(c, i) == YES <==> MemberRaised(c, m, YES) || (MemberRaised(c, m, MOD) && (!m.tri || c.sys.modules == NO)))
  {
    var m, level := c.members[i], FinalLevel(c);
    ShownExact(c, m, level);
    MemberDefaultExact(c, level, m.defaults, MOD);
    MemberDefaultExact(c, level, m.defaults, YES);
    hide Shown, FinalLevel, FinalSelected, MemberDefault, Offered, Seen, Eval, EvalOpt;
  }

  lemma MemberDefaultExact(c: Choice, level: Tristate, ds: seq<DefaultProp>, t: Tristate)
    requires t != NO
    ensures MemberDefault(c, level, ds) >= t <==>
      exists i: nat :: Laws.FirstDefault(ds, Seen(c, level), i) && Eval(ds[i].value, Seen(c, level)) >= t && EvalOpt(ds[i].cond, Seen(c, level)) >= t
  {
    var env := Seen(c, level);
    hide Seen;
    var i := Laws.ActiveExact(ds, env);
    if j: nat :| Laws.FirstDefault(ds, env, j) && Eval(ds[j].value, env) >= t && EvalOpt(ds[j].cond, env) >= t {
      assert ds[j] in ds;
      Laws.FirstIsOne(ds, env, i, j);
    }
  }

  /* ----- evaluation ----- */

  class Group {
    const c: Choice
    var choiceValid: bool
    var choiceUser: bool
    var level: Tristate
    var selected: Option<nat>
    var valid: set<nat>
    var visible: seq<Tristate>
    var curr: seq<Tristate>

    constructor (c: Choice)
      requires Valid(c)
      ensures this.c == c && Inv() && !choiceValid && valid == {}
    {
      this.c := c;
      choiceValid, choiceUser, level, selected, valid := false, c.user.Some?, NO, None, {};
      visible := seq(|c.members|, i => NO);
      curr := seq(|c.members|, i => NO);
    }

    ghost predicate Inv()
      reads this
    {
      && Ready() && (choiceValid ==> Settled()) && |c.members| == |curr|
      && forall i <- valid :: i < |c.members| && curr[i] == MemberValue(c, i)
    }

    ghost predicate Ready()
      reads this`visible
    {
      Valid(c) && |visible| == |c.members|
    }

    ghost predicate Settled()
      reads this`level, this`selected
    {
      level == FinalLevel(c) && selected == FinalSelected(c)
    }

    /** The parts that evaluating an expression may change. */
    ghost function Mode(): (bool, bool, Tristate, Option<nat>, seq<Tristate>)
      reads this`choiceValid, this`choiceUser, this`level, this`selected, this`visible
    {
      (choiceValid, choiceUser, level, selected, visible)
    }

    /** Evaluates an expression, and the choice if the expression mentions it. */
    method CalcExpr(e: Expr) returns (t: Tristate)
      requires Ready()
      modifies this`choiceValid, this`choiceUser, this`level, this`selected, this`visible
      ensures Ready() && t == Eval(e, Seen(c, level))
      ensures Occurs(c.sym, e) ==> choiceValid
      ensures old(choiceValid) || !Occurs(c.sym, e) ==> Mode() == old(Mode())
      ensures !old(choiceValid) && choiceValid ==> Settled()
      decreases !choiceValid, 1, Size(e)
    {
      hide FinalLevel, FinalSelected, CompareStrings, Valid;
      match e {
        case Sym(s) =>
          t := CalcSym(s);
        case Not(x) =>
          t := CalcExpr(x);
          t := 2 - t;
        case And(l, r) =>
          var a, b := CalcBoth(l, r);
          t := Min(a, b);
        case Or(l, r) =>
          var a, b := CalcBoth(l, r);
          t := Max(a, b);
        case Compare(rel, a, b) =>
          var x := CalcSym(a);
          var y := CalcSym(b);
          var mode := level;
          var res := CompareStrings(c.sys.num, a.Type(), StringValue(c.sys, a, At(c, mode)(a)), b.Type(), StringValue(c.sys, b, At(c, mode)(b)));
          t := FromBool(Holds(rel, Outcome(res, true)));
      }
    }

    /** A symbol: the choice is evaluated first. */
    method CalcSym(s: Symbol) returns (t: Tristate)
      requires Ready()
      modifies this`choiceValid, this`choiceUser, this`level, this`selected, this`visible
      ensures Ready() && t == Seen(c, level).tri(s)
      ensures s == c.sym ==> choiceValid
      ensures old(choiceValid) || s != c.sym ==> Mode() == old(Mode())
      ensures !old(choiceValid) && choiceValid ==> Settled()
      decreases !choiceValid, 1, 0
    {
      hide FinalLevel, FinalSelected, Valid;
      if s == c.sym {
        CalcChoice();
        t := level;
      } else {
        t := c.vals(s).tri;
      }
    }

    /** Both operands, one after the other. */
    method CalcBoth(l: Expr, r: Expr) returns (a: Tristate, b: Tristate)
      requires Ready()
      modifies this`choiceValid, this`choiceUser, this`level, this`selected, this`visible
      ensures Ready() && a == Eval(l, Seen(c, level)) && b == Eval(r, Seen(c, level))
      ensures Occurs(c.sym, l) || Occurs(c.sym, r) ==> choiceValid
      ensures old(choiceValid) || !(Occurs(c.sym, l) || Occurs(c.sym, r)) ==> Mode() == old(Mode())
      ensures !old(choiceValid) && choiceValid ==> Settled()
      decreases !choiceValid, 1, Size(l) + Size(r)
    {
      hide Settled, Eval, Seen, Valid;
      a := CalcExpr(l);
      ghost var before := level;
      b := CalcExpr(r);
      if !Occurs(c.sym, l) {
        LevelIrrelevant(c, Some(l), before, level);
      }
    }

    /** A condition, y if there is none. */
    method CalcCond(e: Option<Expr>) returns (t: Tristate)
      requires Ready()
      modifies this`choiceValid, this`choiceUser, this`level, this`selected, this`visible
      ensures Ready() && t == EvalOpt(e, Seen(c, level))
      ensures OccursOpt(c.sym, e) ==> choiceValid
      ensures old(choiceValid) || !OccursOpt(c.sym, e) ==> Mode() == old(Mode())
      ensures !old(choiceValid) && choiceValid ==> Settled()
      decreases !choiceValid, 2
    {
      hide FinalLevel, FinalSelected, Valid;
      t := YES;
      if e.Some? {
        t := CalcExpr(e.value);
      }
    }

    /** The visibility of a member, which needs the choice if a prompt of the member may
        show. */
    method CalcVisibility(i: nat)
      requires Ready() && i < |c.members|
      modifies this`choiceValid, this`choiceUser, this`level, this`selected, this`visible
      ensures Ready() && visible[i] == Shown(c, c.members[i], level)
      ensures old(choiceValid) ==>
        && choiceValid && level == old(level) && selected == old(selected) && visible == old(visible)[i := visible[i]]
        && choiceUser == old(choiceUser)
      ensures !old(choiceValid) && choiceValid ==> Settled()
      ensures choiceValid || NeverShown(c, c.members[i], c.members[i].prompts)
      decreases !choiceValid, 3
    {
      hide FinalLevel, FinalSelected, Valid, PromptTri, NeverShown, OccursOpt;
      var m := c.members[i];
      var tri, k := NO, 0;
      assert MaxOf([]) == NO;
      NeverNone(c, m);
      while k < |m.prompts|
        invariant k <= |m.prompts| && Ready()
        invariant tri == MaxOf(PromptTris(c, m, level, m.prompts[..k]))
        invariant old(choiceValid) ==> Mode() == old(Mode())
        invariant !old(choiceValid) && choiceValid ==> Settled()
        invariant choiceValid || NeverShown(c, m, m.prompts[..k])
      {
        ghost var before, was := level, choiceValid;
        var t := CalcCond(m.prompts[k]);
        if m.tri && t == MOD && level == YES {
          t := NO;
        }
        if NeverShown(c, m, m.prompts[..k]) {
          MoreNever(c, i, k);
          NeverShownAt(c, m, m.prompts[..k], before);
          NeverShownAt(c, m, m.prompts[..k], level);
        }
        PromptTriIs(c, m, level, m.prompts[k]);
        MaxOfMore(c, m, level, m.prompts, k);
        tri := Max(tri, t);
        k := k + 1;
      }
      assert m.prompts[..k] == m.prompts;
      if tri == MOD && (!m.tri || c.sys.modules == NO) {
        tri := YES;
      }
      visible := visible[i := tri];
    }

    /** The mode of the choice and, at y, its selected member. */
    method CalcChoice()
      requires Ready()
      modifies this`choiceValid, this`choiceUser, this`level, this`selected, this`visible
      ensures choiceValid && Ready()
      ensures old(choiceValid) ==> Mode() == old(Mode())
      ensures !old(choiceValid) ==> Settled()
      ensures !old(choiceValid) ==>
        (choiceUser <==> old(choiceUser) && (Level(c) == YES ==> forall i: nat :: i < |c.members| && ShownIndex(c, i) ==> c.members[i].user.Some?))
      decreases !choiceValid, 0
    {
      if choiceValid {
        return;
      }
      hide MaxOf, ShownIndex, Shown, FirstShown, FirstPreference, OccursOpt;
      choiceValid := true;
      ghost var stale := level;
      var seen, k := NO, 0;
      assert c.prompts[..0] == [];
      while k < |c.prompts|
        invariant k <= |c.prompts| && choiceValid && Ready() && level == stale && choiceUser == old(choiceUser)
        invariant seen == Strongest(c.prompts[..k], Seen(c, NO))
      {
        LevelIrrelevant(c, c.prompts[k], level, NO);
        var t := CalcCond(c.prompts[k]);
        assert c.prompts[..k + 1][..k] == c.prompts[..k] && c.prompts[..k + 1][k] == c.prompts[k];
        seen := Max(seen, t);
        k := k + 1;
      }
      assert c.prompts[..k] == c.prompts;
      seen := PromoteIf(seen, TwoValued(c));
      var rev := NO;
      LevelIrrelevant(c, c.rev, level, NO);
      if c.rev.Some? {
        rev := CalcExpr(c.rev.value);
      }
      rev := PromoteIf(rev, TwoValued(c));
      var tri := if seen != NO && c.user.Some? then Min(c.user.value, seen) else NO;
      tri := PromoteIf(Max(tri, rev), TwoValued(c));
      level, selected := tri, None;
      if tri == YES {
        SelectMember();
      }
    }

    /** Looks at the members in a choice at y and selects one, or makes the choice n. */
    method SelectMember()
      requires Ready() && choiceValid && level == YES
      modifies this`choiceValid, this`choiceUser, this`level, this`selected, this`visible
      ensures choiceValid && Ready()
      ensures selected == Selected(c) && level == if selected.None? then NO else YES
      ensures choiceUser <==> old(choiceUser) && forall i: nat :: i < |c.members| && ShownIndex(c, i) ==> c.members[i].user.Some?
      decreases !choiceValid, 4
    {
      hide Shown, FinalLevel, FinalSelected, NeverShown, OccursOpt;
      var i := 0;
      while i < |c.members|
        invariant i <= |c.members| == |visible|
        invariant choiceValid && level == YES
        invariant forall j :: 0 <= j < i ==> visible[j] == Shown(c, c.members[j], YES)
        invariant choiceUser <==> old(choiceUser) && forall j: nat :: j < i && ShownIndex(c, j) ==> c.members[j].user.Some?
      {
        CalcVisibility(i);
        if visible[i] != NO {
          choiceUser := choiceUser && c.members[i].user.Some?;
        }
        i := i + 1;
      }
      ghost var counts := choiceUser;
      if c.picked.Some? && visible[c.picked.value] != NO {
        selected := c.picked;
        return;
      }
      i := 0;
      assert c.preferences[0..] == c.preferences;
      while i < |c.preferences|
        invariant i <= |c.preferences| && level == YES && choiceValid && |visible| == |c.members| && choiceUser == counts
        invariant forall j :: 0 <= j < |c.members| ==> visible[j] == Shown(c, c.members[j], YES)
        invariant FirstPreference(c, c.preferences[i..]) == FirstPreference(c, c.preferences)
      {
        var p := c.preferences[i];
        var cond := CalcCond(p.cond);
        if cond != NO && visible[p.target] != NO {
          selected := Some(p.target);
          return;
        }
        i := i + 1;
      }
      i := 0;
      while i < |c.members|
        invariant i <= |c.members| && level == YES && choiceValid && choiceUser == counts
        invariant FirstShown(c, i) == FirstShown(c, 0)
      {
        if visible[i] != NO {
          selected := Some(i);
          return;
        }
        i := i + 1;
      }
      selected, level := None, NO;
    }

    /** Evaluates one member unless that has been done. */
    method CalcMember(i: nat)
      requires Inv() && i < |c.members|
      modifies this
      ensures Inv() && valid == old(valid) + {i} && curr[i] == MemberValue(c, i)
      ensures old(choiceValid) ==> choiceValid
    {
      if i in valid {
        return;
      }
      hide MemberValue, FinalLevel, FinalSelected;
      var tri := CalcTri(i);
      curr, valid := curr[i := tri], valid + {i};
    }

    /** The value of a member from its visibility, the selection, the user and defaults. */
    method CalcTri(i: nat) returns (tri: Tristate)
      requires Ready() && (choiceValid ==> Settled()) && i < |c.members|
      modifies this`choiceValid, this`choiceUser, this`level, this`selected, this`visible
      ensures Ready() && (choiceValid ==> Settled()) && (old(choiceValid) ==> choiceValid)
      ensures tri == MemberValue(c, i)
    {
      hide Shown, FinalLevel, FinalSelected, NeverShown, Valid, MemberDefault;
      var m := c.members[i];
      CalcVisibility(i);
      if NeverShown(c, m, m.prompts) {
        NeverShownHidden(c, m, level);
        NeverShownHidden(c, m, FinalLevel(c));
      }
      if visible[i] == YES {
        return FromBool(selected == Some(i));
      }
      if visible[i] != NO && m.user.Some? {
        tri := Min(m.user.value, visible[i]);
      } else {
        tri := CalcDefault(m);
      }
      if tri == MOD && (!m.tri || c.sys.modules == NO) {
        tri := YES;
      }
    }

    /** The value of the first default whose condition is not n. */
    method CalcDefault(m: Member) returns (tri: Tristate)
      requires Ready() && (choiceValid ==> Settled())
      modifies this`choiceValid, this`choiceUser, this`level, this`selected, this`visible
      ensures Ready() && (choiceValid ==> Settled()) && (old(choiceValid) ==> choiceValid)
      ensures tri == MemberDefault(c, FinalLevel(c), m.defaults)
    {
      hide FinalLevel, FinalSelected, EvalOpt, Eval, OccursOpt, Valid;
      tri := NO;
      var k := 0;
      assert m.defaults[0..] == m.defaults;
      while k < |m.defaults|
        invariant k <= |m.defaults| && Ready() && (choiceValid ==> Settled())
        invariant old(choiceValid) ==> choiceValid
        invariant ActiveDefault(m.defaults[k..], Seen(c, FinalLevel(c))) == ActiveDefault(m.defaults, Seen(c, FinalLevel(c)))
      {
        var d := m.defaults[k];
        var cond := CalcCond(d.cond);
        AsFinal(d.cond);
        if cond != NO {
          tri := CalcExpr(d.value);
          ValueAsFinal(d.value);
          tri := Min(tri, cond);
          return;
        }
        k := k + 1;
      }
    }

    lemma ValueAsFinal(e: Expr)
      requires (choiceValid ==> Settled()) && (Occurs(c.sym, e) ==> choiceValid)
      ensures Eval(e, Seen(c, level)) == Eval(e, Seen(c, FinalLevel(c)))
    {
      hide FinalLevel, FinalSelected;
      AsFinal(Some(e));
    }

    /** What has been evaluated has its final value: the choice is, if it is mentioned. */
    lemma AsFinal(e: Option<Expr>)
      requires (choiceValid ==> Settled()) && (OccursOpt(c.sym, e) ==> choiceValid)
      ensures EvalOpt(e, Seen(c, level)) == EvalOpt(e, Seen(c, FinalLevel(c)))
    {
      hide FinalLevel, FinalSelected, EvalOpt, OccursOpt;
      if !choiceValid {
        LevelIrrelevant(c, e, level, FinalLevel(c));
      }
    }

    /** In whatever order the choice (None) and its members are evaluated, they get the
        same values. */
    method CalcAll(order: seq<Option<nat>>)
      requires Inv() && forall o <- order :: o.Some? ==> o.value < |c.members|
      modifies this
      ensures Inv()
      ensures None in order ==> choiceValid
      ensures forall o <- order :: o.Some? ==> o.value in valid
    {
      hide MemberValue;
      var i := 0;
      while i < |order|
        invariant i <= |order| && Inv()
        invariant None in order[..i] ==> choiceValid
        invariant forall o <- order[..i] :: o.Some? ==> o.value in valid
      {
        if order[i].Some? {
          CalcMember(order[i].value);
        } else {
          CalcChoice();
        }
        i := i + 1;
      }
    }
  }

  lemma MaxOfMore(c: Choice, m: Member, level: Tristate, prompts: seq<Option<Expr>>, k: nat)
    requires k < |prompts|
    ensures MaxOf(PromptTris(c, m, level, prompts[..k + 1]))
         == Max(MaxOf(PromptTris(c, m, level, prompts[..k])), PromptTri(c, m, level, prompts[k]))
  {
    var all := PromptTris(c, m, level, prompts[..k + 1]);
    assert all[..k] == PromptTris(c, m, level, prompts[..k]);
  }

  /** None of the prompts ever shows, nor mentions the choice. */
  ghost predicate NeverShown(c: Choice, m: Member, prompts: seq<Option<Expr>>) {
    forall p <- prompts :: !OccursOpt(c.sym, p) && EvalOpt(p, Seen(c, NO)) == NO
  }

  lemma NeverNone(c: Choice, m: Member)
    ensures NeverShown(c, m, m.prompts[..0]) && PromptTris(c, m, NO, m.prompts[..0]) == []
  {
  }

  lemma MoreNever(c: Choice, i: nat, k: nat)
    requires Valid(c) && i < |c.members| && k < |c.members[i].prompts|
    requires NeverShown(c, c.members[i], c.members[i].prompts[..k])
    ensures OccursOpt(c.sym, c.members[i].prompts[k]) || NeverShown(c, c.members[i], c.members[i].prompts[..k + 1])
  {
    var m := c.members[i];
    assert m in c.members && m.prompts[k] in m.prompts;
    assert m.prompts[..k + 1] == m.prompts[..k] + [m.prompts[k]];
  }

  lemma {:induction false} NeverShownAt(c: Choice, m: Member, prompts: seq<Option<Expr>>, level: Tristate)
    requires NeverShown(c, m, prompts)
    ensures MaxOf(PromptTris(c, m, level, prompts)) == NO
  {
    if prompts != [] {
      var k := |prompts| - 1;
      NeverShownAt(c, m, prompts[..k], level);
      assert PromptTris(c, m, level, prompts)[..k] == PromptTris(c, m, level, prompts[..k]);
      LevelIrrelevant(c, prompts[k], level, NO);
    }
  }

  /** Such a member is hidden whatever the mode of the choice. */
  lemma NeverShownHidden(c: Choice, m: Member, level: Tristate)
    requires NeverShown(c, m, m.prompts)
    ensures Shown(c, m, level) == NO
  {
    NeverShownAt(c, m, m.prompts, level);
  }
}
