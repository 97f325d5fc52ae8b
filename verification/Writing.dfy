/** The operations that drive evaluation: forgetting and recomputing values, setting a
    value, computing a default, and writing the minimal configuration. */
module Writing {
  import opened Exprs
  import opened Symbols
  import MenuTree
  import ConfLines
  import opened Goals
  import opened SymEval
  import opened Modules
  import opened Saving
  import opened Persistence

  /** Symbols without a type are not marked for writing. */
  ghost predicate Unmarked(st: States) {
    forall s: Symbol :: !HasType(s) ==> !StateIn(st, s).write
  }

  ghost predicate ClosedOpt(decls: map<Symbol, Decl>, m: Option<Symbol>) {
    m.Some? ==> Closed(decls, m.value)
  }

  lemma StillValue(c: Config, vals: Values, v: set<Symbol>, st: States, v': set<Symbol>, st': States, s: Symbol)
    requires Extended(c, vals, {}, v, st, v', st') && (s.Named? ==> s in v)
    ensures CurrIn(st', s) == CurrIn(st, s)
  {
    hide Found;
  }

  /** In whatever order symbols are evaluated, each gets the value that the memo-free
      evaluation gives it. */
  method CalcAll(ev: Evaluator, order: seq<Symbol>, ghost vals: Values, ghost rank: Symbol -> nat)
    requires ev.Plain() && ev.ChoicesClosed() && AllClosed(ev.decls) && forall s <- order :: Closed(ev.decls, s)
    requires Ready(ev.Cfg(), vals, rank, ev.modulesSym, ev.valid, ev.state)
    modifies ev`modulesVal, ev`valid, ev`state, ev`pending, ev`user, ev`stored
    ensures ev.Plain() && ev.user == old(ev.user) && ev.modulesVal == old(ev.modulesVal)
    ensures Ready(ev.Cfg(), vals, rank, ev.modulesSym, ev.valid, ev.state)
    ensures forall s <- order :: CurrIn(ev.state, s) == vals(s)
  {
    hide AllClosed, Closed, Extended, Steady, Done, Ready;
    var i := 0;
    while i < |order|
      invariant i <= |order| && ev.Plain() && ev.user == old(ev.user) && ev.modulesVal == old(ev.modulesVal)
      invariant Ready(ev.Cfg(), vals, rank, ev.modulesSym, ev.valid, ev.state)
      invariant forall s <- order[..i] :: (s.Named? ==> s in ev.valid) && CurrIn(ev.state, s) == vals(s)
    {
      ghost var v, st := ev.valid, ev.state;
      CalcTop(ev, order[i], true, vals, rank);
      forall s <- order[..i]
        ensures CurrIn(ev.state, s) == vals(s)
      {
        StillValue(ev.Cfg(), vals, v, st, ev.valid, ev.state, s);
      }
      i := i + 1;
    }
  }

  /** The tristate and the string that the active default gives. */
  method DefaultParts(ev: Evaluator, s: Symbol, ghost vals: Values, ghost rank: Symbol -> nat) returns (val: Tristate, str: string)
    requires ev.Plain() && ev.ChoicesClosed() && AllClosed(ev.decls) && s in ev.decls && s in ev.valid
    requires Ready(ev.Cfg(), vals, rank, ev.modulesSym, ev.valid, ev.state)
    modifies ev`modulesVal, ev`valid, ev`state, ev`pending, ev`user, ev`stored
    ensures ev.Plain() && ev.user == old(ev.user) && ev.modulesVal == old(ev.modulesVal) && old(ev.valid) <= ev.valid
    ensures Extended(ev.Cfg(), vals, {}, old(ev.valid), old(ev.state), ev.valid, ev.state)
    ensures val == if s.Typed() then DefaultTri(ev.Sys(), s, EnvOf(ev.Sys(), vals)) else NO
    ensures str == if s.Typed() then "" else SourceText(ev.Sys(), s, vals)
  {
    hide Extended, Grown, Steady, Ready, EnvOf, AllClosed, OwnExpr, Closed, On, Marked, DoneBelow, Ranked, Askable, Whole, CondReads, AskOpt;
    val, str := NO, "";
    ghost var c, g := ev.Cfg(), Whole(ev.Cfg(), vals, rank, ev.modulesSym);
    ev.SeenIs(g);
    ReadyOn(c, vals, rank, ev.modulesSym, ev.valid, ev.state);
    ReadyAsks(c, vals, rank, ev.modulesSym, ev.valid, ev.state, s);
    SteadyRanked(c, vals, rank, ev.modulesSym);
    var d, cond := ev.FindDefault(s, true, g);
    ghost var v, st := ev.valid, ev.state;
    GrownNothing(c, g, v, st);
    if d.Some? {
      DefaultOwn(ev.decls, s, d.value);
      OwnAsks(c, vals, rank, ev.modulesSym, v, s, Some(d.value.value));
      if s.Typed() {
        var t := ev.CalcOwn(s, Some(d.value.value), NO, true, g);
        val := Min(t, cond);
      } else if d.value.value.Sym? {
        var source := d.value.value.s;
        SourceOwn(ev.decls, s, d.value);
        AskSource(g, v, c.sys.modules, rank(s), source);
        ev.CalcOperand(source, true, g, rank(s));
        str := CurrIn(ev.state, source).val;
      }
    }
    GrownTrans(c, g, {}, old(ev.valid), old(ev.state), v, st, ev.valid, ev.state);
    GrownExtended(c, vals, rank, ev.modulesSym, {}, old(ev.valid), old(ev.state), ev.valid, ev.state);
  }

  lemma SteadyRanked(c: Config, vals: Values, rank: Symbol -> nat, m: Option<Symbol>)
    requires Steady(c, vals, rank, m)
    ensures Ranked(c, rank) && IsSolution(c, vals)
  {
  }

  lemma AskSource(g: Goal, valid: set<Symbol>, now: Tristate, k: nat, s: Symbol)
    requires AskOpt(g, valid, now, k, Some(Sym(s)))
    ensures Askable(g, valid, now, k, s)
  {
    assert Occurs(s, Sym(s));
  }

  function SourceText(k: System, s: Symbol, vals: Values): string {
    var source := DefaultSource(k, s, EnvOf(k, vals));
    if source.Some? then vals(source.value).val else ""
  }

  /** Computing the visibility of a finished symbol again changes nothing, unless the
      symbol has no type. */
  method VisibilityAgain(ev: Evaluator, s: Symbol, ghost vals: Values, ghost rank: Symbol -> nat)
    requires ev.Plain() && ev.ChoicesClosed() && AllClosed(ev.decls) && s in ev.decls && s in ev.valid
    requires Ready(ev.Cfg(), vals, rank, ev.modulesSym, ev.valid, ev.state)
    modifies ev`modulesVal, ev`valid, ev`state, ev`pending, ev`user, ev`stored
    ensures ev.Plain() && ev.user == old(ev.user) && ev.modulesVal == old(ev.modulesVal) && old(ev.valid) <= ev.valid
    ensures Ready(ev.Cfg(), vals, rank, ev.modulesSym, ev.valid, ev.state)
    ensures Extended(ev.Cfg(), vals, if HasType(s) then {} else {s}, old(ev.valid), old(ev.state), ev.valid, ev.state)
    ensures VisibilityDone(ev.Cfg(), Whole(ev.Cfg(), vals, rank, ev.modulesSym), ev.state, s)
  {
    hide *;
    ghost var c, g := ev.Cfg(), Whole(ev.Cfg(), vals, rank, ev.modulesSym);
    ev.SeenIs(g);
    ev.HeadingIs(g);
    ReadyOn(c, vals, rank, ev.modulesSym, ev.valid, ev.state);
    ReadyAsks(c, vals, rank, ev.modulesSym, ev.valid, ev.state, s);
    ev.CalcVisibility(s, true, g);
    ev.SeenIs(g);
    ev.HeadingIs(g);
    GrownExtended(c, vals, rank, ev.modulesSym, {s}, old(ev.valid), old(ev.state), ev.valid, ev.state);
    SameAgain(ev.Cfg(), vals, rank, ev.modulesSym, old(ev.valid), old(ev.state), ev.valid, ev.state, s);
  }

  lemma SameAgain(c: Config, vals: Values, rank: Symbol -> nat, m: Option<Symbol>,
                  v: set<Symbol>, st: States, v': set<Symbol>, st': States, s: Symbol)
    requires Ready(c, vals, rank, m, v, st) && Extended(c, vals, {s}, v, st, v', st') && v <= v' && s in v
    requires VisibilityDone(c, Whole(c, vals, rank, m), st', s)
    requires StateIn(st', s).curr == StateIn(st, s).curr && StateIn(st', s).write == StateIn(st, s).write
    requires StateIn(st', s).pick == StateIn(st, s).pick
    ensures Ready(c, vals, rank, m, v', st')
    ensures HasType(s) ==> Extended(c, vals, {}, v, st, v', st')
  {
    hide Steady, VisibleOf, DirDepOf, RevDepOf, ImpliedOf, Written;
    SymbolNamed(s);
    forall u <- v'
      ensures Done(c, vals, st', u)
    {
    }
    if HasType(s) {
      assert Done(c, vals, st, s) && StateIn(st', s) == StateIn(st, s);
    }
  }

  /** The value s would have without the user's. */
  method StringDefault(ev: Evaluator, s: Symbol, ghost vals: Values, ghost rank: Symbol -> nat) returns (str: string)
    requires ev.Plain() && ev.ChoicesClosed() && AllClosed(ev.decls) && s in ev.decls && s in ev.valid && ClosedOpt(ev.decls, ev.modulesSym)
    requires Ready(ev.Cfg(), vals, rank, ev.modulesSym, ev.valid, ev.state)
    modifies ev`modulesVal, ev`valid, ev`state, ev`pending, ev`user, ev`stored
    ensures ev.Plain() && ev.user == old(ev.user) && ev.modulesVal == old(ev.modulesVal) && old(ev.valid) <= ev.valid
    ensures Ready(ev.Cfg(), vals, rank, ev.modulesSym, ev.valid, ev.state)
    ensures Extended(ev.Cfg(), vals, if HasType(s) then {} else {s}, old(ev.valid), old(ev.state), ev.valid, ev.state)
    ensures str == DefaultString(ev.Sys(), s, vals)
  {
    hide Ready, Extended, AllClosed, Closed, EnvOf, VisibleOf, DirDepOf, RevDepOf, ImpliedOf, DefaultTri, DefaultSource, Done;
    VisibilityAgain(ev, s, vals, rank);
    VisibilityIs(ev.Cfg(), vals, rank, ev.modulesSym, ev.state, s);
    ghost var v, st := ev.valid, ev.state;
    var modules := ev.modulesVal;
    ExtendedNothing(ev.Cfg(), vals, v, st);
    if ev.modulesSym.Some? {
      ReadySteady(ev.Cfg(), vals, rank, ev.modulesSym, ev.valid, ev.state);
      ModulesCurrent(ev.Cfg(), vals, rank, ev.modulesSym);
      CalcTop(ev, ev.modulesSym.value, true, vals, rank);
      modules := CurrIn(ev.state, ev.modulesSym.value).tri;
    }
    ghost var v1, st1 := ev.valid, ev.state;
    var val, text := DefaultParts(ev, s, vals, rank);
    ReadyExtended(ev.Cfg(), vals, rank, ev.modulesSym, v1, st1, ev.valid, ev.state);
    ExtendedLater(ev.Cfg(), vals, s, old(ev.valid), old(ev.state), v, st, v1, st1, ev.valid, ev.state);
    var f := StateIn(ev.state, s);
    val := Max(val, f.rev);
    if val == MOD && modules == NO {
      val := YES;
    }
    if s.Type() == Boolean && val == MOD {
      val := YES;
    }
    if val < f.implied {
      val := f.implied;
    }
    str := if s.Typed() then TriString(val) else if IsStringType(s.Type()) then text else "";
  }

  lemma VisibilityIs(c: Config, vals: Values, rank: Symbol -> nat, m: Option<Symbol>, st: States, s: Symbol)
    requires VisibilityDone(c, Whole(c, vals, rank, m), st, s)
    ensures var f, env := StateIn(st, s), EnvOf(c.sys, vals);
      && f.visible == VisibleOf(c.sys, s, env) && f.dir == DirDepOf(c.sys, s, env)
      && f.rev == RevDepOf(c.sys, s, env) && f.implied == ImpliedOf(c.sys, s, env)
  {
  }

  lemma ReadySteady(c: Config, vals: Values, rank: Symbol -> nat, m: Option<Symbol>, valid: set<Symbol>, st: States)
    requires Ready(c, vals, rank, m, valid, st)
    ensures Steady(c, vals, rank, m) && Marked(m, valid) && NowIn(m, c.sys.modules, st) == c.sys.modules
  {
    ReadyOn(c, vals, rank, m, valid, st);
  }

  lemma ModulesCurrent(c: Config, vals: Values, rank: Symbol -> nat, m: Option<Symbol>)
    requires Steady(c, vals, rank, m) && m.Some?
    ensures vals(m.value).tri == c.sys.modules
  {
  }

  lemma ExtendedLater(c: Config, vals: Values, s: Symbol, v0: set<Symbol>, st0: States, v1: set<Symbol>, st1: States,
                   v2: set<Symbol>, st2: States, v3: set<Symbol>, st3: States)
    requires s in v0 && v0 <= v1 <= v2 <= v3
    requires Extended(c, vals, if HasType(s) then {} else {s}, v0, st0, v1, st1)
    requires Extended(c, vals, {}, v1, st1, v2, st2) && Extended(c, vals, {}, v2, st2, v3, st3)
    ensures Extended(c, vals, if HasType(s) then {} else {s}, v0, st0, v3, st3)
    ensures StateIn(st3, s) == StateIn(st1, s)
  {
    hide Found;
    ExtendedTrans(c, vals, {}, v1, st1, v2, st2, v3, st3);
    ExtendedMore(c, vals, s, v0, st0, v1, st1, v3, st3);
  }

  lemma ExtendedMore(c: Config, vals: Values, s: Symbol, v0: set<Symbol>, st0: States, v1: set<Symbol>, st1: States, v2: set<Symbol>, st2: States)
    requires s in v0 && v0 <= v1 <= v2
    requires Extended(c, vals, if HasType(s) then {} else {s}, v0, st0, v1, st1) && Extended(c, vals, {}, v1, st1, v2, st2)
    ensures Extended(c, vals, if HasType(s) then {} else {s}, v0, st0, v2, st2)
  {
    hide Found;
    forall u <- v2 | u !in v0
      ensures Found(c, vals, st2, u)
    {
      if u in v1 {
        FoundSame(c, vals, st1, st2, u);
      }
    }
  }

  /* ----- setting a value ----- */

  /** Whether a bool or tristate symbol may take a value, by its computed bounds. A value
      of a choice that is shown at y can only become y. */
  method TristateWithinRange(ev: Evaluator, s: Symbol, val: Tristate, ghost plain: bool, ghost vals: Values, ghost rank: Symbol -> nat)
    returns (ok: bool)
    requires plain ==> ev.Plain() && Ready(ev.Cfg(), vals, rank, ev.modulesSym, ev.valid, ev.state) && s in ev.valid && HasType(s)
    ensures plain ==> ok == WithinRange(ev.Sys(), s, EnvOf(ev.Sys(), vals), val)
    ensures s in ev.memberOf && StateIn(ev.state, s).visible == YES && s.Typed() ==>
      (ok <==> val == YES && StateIn(ev.state, s).visible > StateIn(ev.state, s).rev)
    ensures ok ==> StateIn(ev.state, s).visible > StateIn(ev.state, s).rev
  {
    SymbolNamed(s);
    hide Steady, EnvOf, VisibleOf, DirDepOf, RevDepOf, ImpliedOf;
    assert plain ==> Done(ev.Cfg(), vals, ev.state, s);
    var f, ty := StateIn(ev.state, s), ev.EffectiveTypeOf(s);
    if f.visible == NO {
      return false;
    }
    if ty != Boolean && ty != Tri {
      return false;
    }
    if ty == Boolean && val == MOD {
      return false;
    }
    if f.visible <= f.rev {
      return false;
    }
    if f.implied == YES && val == MOD {
      return false;
    }
    if s in ev.memberOf && f.visible == YES {
      return val == YES;
    }
    ok := val >= f.rev && val <= f.visible;
  }

  /** The user picks a value of a choice: the choice and all its visible values count as
      set by the user, with the values they had. */
  method PickMember(ev: Evaluator, s: Symbol, choice: Symbol)
    modifies ev`user, ev`picked
    ensures ev.picked == old(ev.picked)[choice := s]
    ensures var members := if choice in ev.choices then ev.choices[choice].members else [];
      && ev.user.Keys == old(ev.user).Keys + {choice} + (set m | m in members && StateIn(ev.state, m).visible != NO)
      && forall t <- ev.user.Keys :: ev.user[t] == if t in old(ev.user) then old(ev.user)[t] else StoredIn(ev.stored, t)
  {
    var members := if choice in ev.choices then ev.choices[choice].members else [];
    ghost var was := ev.user;
    ev.picked := ev.picked[choice := s];
    if choice !in ev.user {
      ev.user := ev.user[choice := StoredIn(ev.stored, choice)];
    }
    var i := 0;
    while i < |members|
      invariant i <= |members| && ev.picked == old(ev.picked)[choice := s]
      invariant ev.user.Keys == was.Keys + {choice} + (set m | m in members[..i] && StateIn(ev.state, m).visible != NO)
      invariant forall t <- ev.user.Keys :: ev.user[t] == if t in was then was[t] else StoredIn(ev.stored, t)
    {
      assert members[..i + 1] == members[..i] + [members[i]];
      if StateIn(ev.state, members[i]).visible != NO && members[i] !in ev.user {
        ev.user := ev.user[members[i] := StoredIn(ev.stored, members[i])];
      }
      i := i + 1;
    }
    assert members[..i] == members;
  }

  /** Sets the user's value of s and forgets all values, unless s has the value already
      or may not take it. When plain, the target values afterwards are those of the new
      configuration. */
  method SetTristateValue(ev: Evaluator, s: Symbol, val: Tristate, ghost plain: bool, ghost vals: Values, ghost vals': Values, ghost rank: Symbol -> nat)
    returns (ok: bool)
    requires ev.ChoicesClosed() && AllClosed(ev.decls) && ClosedOpt(ev.decls, ev.modulesSym)
    requires plain ==> ev.Plain() && HasType(s) && s in ev.valid
    requires plain ==> Ready(ev.Cfg(), vals, rank, ev.modulesSym, ev.valid, ev.state)
    requires plain && vals(s).tri != val ==>
      Steady(Assign(ev.Cfg(), s, val), vals', rank, ev.modulesSym) && Anew(Assign(ev.Cfg(), s, val), vals', ev.modulesSym)
    modifies ev`modulesVal, ev`valid, ev`state, ev`pending, ev`user, ev`stored, ev`picked
    ensures !ok ==> ev.user == old(ev.user) && ev.picked == old(ev.picked) && ev.valid == old(ev.valid) && ev.state == old(ev.state)
    ensures ok ==> ev.picked == if s in ev.memberOf && val == YES then old(ev.picked)[ev.memberOf[s] := s] else old(ev.picked)
    ensures plain ==> ev.Plain()
    ensures plain ==> (ok <==> vals(s).tri == val || WithinRange(old(ev.Sys()), s, EnvOf(old(ev.Sys()), vals), val))
    ensures plain ==> ev.Cfg() == if ok then Assign(old(ev.Cfg()), s, val) else old(ev.Cfg())
    ensures plain && (!ok || vals(s).tri == val) ==> ev.valid == old(ev.valid) && ev.state == old(ev.state)
    ensures plain && ok && vals(s).tri != val ==> Ready(ev.Cfg(), vals', rank, ev.modulesSym, ev.valid, ev.state)
  {
    SymbolNamed(s);
    assert plain ==> Done(ev.Cfg(), vals, ev.state, s);
    hide Steady, EnvOf, Ready, WithinRange, AllClosed, Closed, HasType, VisibleOf, DirDepOf, RevDepOf, ImpliedOf, Extended;
    var oldval := CurrIn(ev.state, s).tri;
    if oldval != val {
      var inRange := TristateWithinRange(ev, s, val, plain, vals, rank);
      if !inRange {
        return false;
      }
    }
    if s in ev.memberOf && val == YES {
      PickMember(ev, s, ev.memberOf[s]);
    }
    ev.user := ev.user[s := Value(if s in ev.user then ev.user[s].val else "", val)];
    assert plain ==> ev.Cfg() == Assign(old(ev.Cfg()), s, val);
    if oldval != val {
      ClearAllValid(ev, plain, vals', rank);
    }
    ok := true;
  }

  /** An assignment that changes the value and is accepted takes effect at the next
      evaluation, and leaves alone every evaluated symbol that does not depend on s. */
  method SetAndEvaluate(ev: Evaluator, s: Symbol, val: Tristate, order: seq<Symbol>, ghost keep: iset<Symbol>,
                        ghost vals: Values, ghost vals': Values, ghost rank: Symbol -> nat)
    returns (ok: bool)
    requires ev.Plain() && ev.ChoicesClosed() && AllClosed(ev.decls) && ClosedOpt(ev.decls, ev.modulesSym) && HasType(s) && s in ev.valid
    requires forall t <- order :: Closed(ev.decls, t)
    requires Ready(ev.Cfg(), vals, rank, ev.modulesSym, ev.valid, ev.state)
    requires Steady(Assign(ev.Cfg(), s, val), vals', rank, ev.modulesSym) && Anew(Assign(ev.Cfg(), s, val), vals', ev.modulesSym)
    requires s in order && vals(s).tri != val
    requires s !in keep && forall u: Symbol, w: Symbol :: u in keep && DependsOn(ev.decls, u, w) ==> w in keep
    modifies ev`modulesVal, ev`valid, ev`state, ev`pending, ev`user, ev`stored, ev`picked
    ensures ok <==> WithinRange(old(ev.Sys()), s, EnvOf(old(ev.Sys()), vals), val)
    ensures ok ==> CurrIn(ev.state, s).tri == val
    ensures ok ==> forall t <- order :: t in keep ==> CurrIn(ev.state, t) == vals(t)
  {
    ghost var c := ev.Cfg();
    hide Ready, WithinRange, AllClosed, Closed, HasType, VisibleOf, DirDepOf, RevDepOf, ImpliedOf, EnvOf, IsSolution, Ranked, DependsOn;
    ReadySteady(c, vals, rank, ev.modulesSym, ev.valid, ev.state);
    ok := SetTristateValue(ev, s, val, true, vals, vals', rank);
    if ok {
      CalcAll(ev, order, vals', rank);
      AcceptedTakesEffect(c, rank, vals, vals', s, val);
      forall t <- order | t in keep
        ensures vals'(t) == vals(t)
      {
        OthersKeep(c, Assign(c, s, val), rank, vals, vals', keep, t);
      }
    }
  }

  /* ----- the minimal configuration ----- */

  /** Symbols that have been looked at are no longer marked; all others are as
      evaluation left them. */
  ghost predicate Marks(c: Config, vals: Values, valid: set<Symbol>, st: States, seen: seq<Symbol>) {
    && Unmarked(st)
    && (forall s <- valid :: s !in seen ==> Found(c, vals, st, s))
    && (forall s <- seen :: (s.Named? ==> s in valid) && !StateIn(st, s).write)
  }

  lemma MarksExtended(c: Config, vals: Values, v: set<Symbol>, st: States, v': set<Symbol>, st': States, seen: seq<Symbol>)
    requires Marks(c, vals, v, st, seen) && Extended(c, vals, {}, v, st, v', st') && v <= v'
    ensures Marks(c, vals, v', st', seen)
  {
    hide Found;
    forall s <- v' | s !in seen
      ensures Found(c, vals, st', s)
    {
      if s in v {
        FoundSame(c, vals, st, st', s);
      }
    }
    forall s <- seen
      ensures !StateIn(st', s).write
    {
      assert s in v || !HasType(s);
    }
  }

  /** A symbol that is not marked has been looked at or is not saved. */
  lemma NotMarked(c: Config, vals: Values, valid: set<Symbol>, st: States, seen: seq<Symbol>, s: Symbol)
    requires Marks(c, vals, valid, st, seen) && !StateIn(st, s).write && (s.Named? ==> s in valid)
    ensures Marks(c, vals, valid, st, seen + [s])
    ensures s in seen || !Saved(c, s, vals, {s})
  {
    hide VisibleOf, RevDepOf, DirDepOf, ImpliedOf, Written, DefaultString, StringValue;
    SymbolNamed(s);
  }

  /** A marked symbol is looked at for the first time, and is saved if the user can
      change it and it differs from the default. */
  lemma MarkedOnce(c: Config, vals: Values, rank: Symbol -> nat, m: Option<Symbol>, valid: set<Symbol>, st: States, st': States, seen: seq<Symbol>, s: Symbol)
    requires Marks(c, vals, valid, st, seen) && StateIn(st, s).write && (s.Named? ==> s in valid)
    requires Ready(c, vals, rank, m, valid, st) && st' == st[s := StateIn(st, s).(write := false)]
    ensures Ready(c, vals, rank, m, valid, st') && Marks(c, vals, valid, st', seen + [s])
    ensures s !in seen && s in valid && HasType(s)
    ensures Saved(c, s, vals, {s}) <==>
      StateIn(st, s).visible > StateIn(st, s).rev && StringValue(c.sys, s, vals(s)) != DefaultString(c.sys, s, vals)
  {
    hide Steady, VisibleOf, RevDepOf, DirDepOf, ImpliedOf, Written, DefaultString, StringValue;
    SymbolNamed(s);
    forall u <- valid
      ensures Done(c, vals, st', u)
    {
      assert Done(c, vals, st, u);
    }
    forall u <- valid | u !in seen + [s]
      ensures Found(c, vals, st', u)
    {
      FoundSame(c, vals, st, st', u);
    }
  }

  lemma SavedMore(prefix: string, c: Config, vals: Values, order: seq<Symbol>, i: nat)
    requires i < |order|
    ensures SavedLines(prefix, c, vals, order[..i + 1]) ==
      SavedLines(prefix, c, vals, order[..i])
      + (if order[i] !in order[..i] && Saved(c, order[i], vals, {order[i]}) then [LineOf(prefix, c, vals, order[i])] else [])
  {
    assert order[..i + 1][..i] == order[..i];
  }

  /** Writes the minimal configuration, given the symbols of the menu nodes in order. */
  method WriteDefconfig(ev: Evaluator, prefix: string, order: seq<Symbol>, ghost vals: Values, ghost rank: Symbol -> nat)
    returns (lines: seq<string>)
    requires ev.Plain() && ev.ChoicesClosed() && AllClosed(ev.decls) && ClosedOpt(ev.decls, ev.modulesSym) && forall s <- order :: Closed(ev.decls, s)
    requires Steady(ev.Cfg(), vals, rank, ev.modulesSym) && Anew(ev.Cfg(), vals, ev.modulesSym) && ev.Now() == ev.modulesVal && Unmarked(ev.state)
    modifies ev`modulesVal, ev`valid, ev`state, ev`pending, ev`user, ev`stored
    ensures ev.Plain() && ev.user == old(ev.user) && ev.modulesVal == old(ev.modulesVal)
    ensures Ready(ev.Cfg(), vals, rank, ev.modulesSym, ev.valid, ev.state)
    ensures lines == SavedLines(prefix, ev.Cfg(), vals, order)
  {
    hide AllClosed, Closed, Extended, Steady, Done, Ready, Marks, Saved, SavedLines, Unmarked;
    ghost var c := ev.Cfg();
    ClearAllValid(ev, true, vals, rank);
    MarksStart(c, vals, old(ev.state), ev.valid, ev.state);
    SavedNone(prefix, c, vals);
    lines := [];
    var i := 0;
    while i < |order|
      invariant i <= |order| && ev.Plain() && ev.user == old(ev.user) && ev.modulesVal == old(ev.modulesVal) && ev.Cfg() == c
      invariant Ready(c, vals, rank, ev.modulesSym, ev.valid, ev.state)
      invariant Marks(c, vals, ev.valid, ev.state, order[..i])
      invariant lines == SavedLines(prefix, c, vals, order[..i])
    {
      var line := WriteOne(ev, prefix, order[i], order[..i], vals, rank);
      SavedMore(prefix, c, vals, order, i);
      assert order[..i + 1] == order[..i] + [order[i]];
      lines := lines + line;
      i := i + 1;
    }
    assert order[..i] == order;
  }

  lemma SavedNone(prefix: string, c: Config, vals: Values)
    ensures SavedLines(prefix, c, vals, []) == []
  {
  }

  lemma MarksStart(c: Config, vals: Values, st: States, v': set<Symbol>, st': States)
    requires Unmarked(st) && Extended(c, vals, {}, {}, st, v', st')
    ensures Marks(c, vals, v', st', [])
  {
    hide Found;
  }

  /** The string of a finished symbol. */
  method StringOf(ev: Evaluator, s: Symbol, ghost seen: seq<Symbol>, ghost vals: Values, ghost rank: Symbol -> nat) returns (str: string)
    requires ev.Plain() && ev.ChoicesClosed() && AllClosed(ev.decls) && CurrIn(ev.state, s) == vals(s)
    requires Ready(ev.Cfg(), vals, rank, ev.modulesSym, ev.valid, ev.state)
    requires Marks(ev.Cfg(), vals, ev.valid, ev.state, seen)
    modifies ev`modulesVal, ev`valid, ev`state, ev`pending, ev`user, ev`stored
    ensures ev.Plain() && ev.user == old(ev.user) && ev.modulesVal == old(ev.modulesVal) && old(ev.valid) <= ev.valid
    ensures Ready(ev.Cfg(), vals, rank, ev.modulesSym, ev.valid, ev.state)
    ensures Marks(ev.Cfg(), vals, ev.valid, ev.state, seen)
    ensures str == StringValue(ev.Sys(), s, vals(s))
  {
    hide *;
    ghost var c, g := ev.Cfg(), Whole(ev.Cfg(), vals, rank, ev.modulesSym);
    ev.SeenIs(g);
    ev.HeadingIs(g);
    ReadyOn(c, vals, rank, ev.modulesSym, ev.valid, ev.state);
    str := ev.GetString(s, true, g);
    ev.SeenIs(g);
    ev.HeadingIs(g);
    StringIs(ev.Sys(), s, vals(s));
    ExtendedNothing(ev.Cfg(), vals, ev.valid, ev.state);
    ReadyExtended(ev.Cfg(), vals, rank, ev.modulesSym, old(ev.valid), old(ev.state), ev.valid, ev.state);
    MarksExtended(ev.Cfg(), vals, old(ev.valid), old(ev.state), ev.valid, ev.state, seen);
  }

  lemma StringIs(k: System, s: Symbol, v: Value)
    ensures StringValue(k, s, v) == StringAs(k.modules, s, v)
  {
  }

  /** What is written for one menu node, which may be nothing. */
  method WriteOne(ev: Evaluator, prefix: string, s: Symbol, ghost seen: seq<Symbol>, ghost vals: Values, ghost rank: Symbol -> nat)
    returns (line: seq<string>)
    requires ev.Plain() && ev.ChoicesClosed() && AllClosed(ev.decls) && ClosedOpt(ev.decls, ev.modulesSym) && Closed(ev.decls, s)
    requires Ready(ev.Cfg(), vals, rank, ev.modulesSym, ev.valid, ev.state)
    requires Marks(ev.Cfg(), vals, ev.valid, ev.state, seen)
    modifies ev`modulesVal, ev`valid, ev`state, ev`pending, ev`user, ev`stored
    ensures ev.Plain() && ev.user == old(ev.user) && ev.modulesVal == old(ev.modulesVal)
    ensures Ready(ev.Cfg(), vals, rank, ev.modulesSym, ev.valid, ev.state)
    ensures Marks(ev.Cfg(), vals, ev.valid, ev.state, seen + [s])
    ensures line == if s !in seen && Saved(ev.Cfg(), s, vals, {s}) then [LineOf(prefix, ev.Cfg(), vals, s)] else []
  {
    assert HasType(s) ==> s in ev.decls;
    hide AllClosed, Closed, Extended, Steady, Done, Ready, Marks, Saved, HasType, StringValue, DefaultString;
    ghost var c := ev.Cfg();
    line := [];
    CalcTop(ev, s, true, vals, rank);
    MarksExtended(c, vals, old(ev.valid), old(ev.state), ev.valid, ev.state, seen);
    if !StateIn(ev.state, s).write {
      NotMarked(c, vals, ev.valid, ev.state, seen, s);
      return;
    }
    var f := StateIn(ev.state, s);
    ghost var st := ev.state;
    ev.state := ev.state[s := f.(write := false)];
    MarkedOnce(c, vals, rank, ev.modulesSym, ev.valid, st, ev.state, seen, s);
    if !(f.visible > f.rev) {
      return;
    }
    var str := StringOf(ev, s, seen + [s], vals, rank);
    ghost var v1, st1 := ev.valid, ev.state;
    var byDefault := StringDefault(ev, s, vals, rank);
    MarksExtended(c, vals, v1, st1, ev.valid, ev.state, seen + [s]);
    if str != byDefault {
      line := [ConfLines.PrintLine(prefix, ev.names(s), s.Type(), str)];
    }
  }

  /** The symbols of the menu nodes. */
  function SymbolsOf(nodes: seq<MenuTree.Menu>): seq<Symbol> {
    if nodes == [] then []
    else SymbolsOf(nodes[..|nodes| - 1]) + (if nodes[|nodes| - 1].sym.Some? then [nodes[|nodes| - 1].sym.value] else [])
  }

  /** Writes the minimal configuration of a whole menu tree. */
  method WriteTree(root: MenuTree.Menu, ghost f: MenuTree.Forest, ev: Evaluator, prefix: string, ghost vals: Values, ghost rank: Symbol -> nat)
    returns (lines: seq<string>)
    requires MenuTree.Represents(root.list, root, f) && root.next == null && root.parent == null
    requires ev.Plain() && ev.ChoicesClosed() && AllClosed(ev.decls) && ClosedOpt(ev.decls, ev.modulesSym)
    requires forall s <- SymbolsOf(MenuTree.Preorder(f)) :: Closed(ev.decls, s)
    requires Steady(ev.Cfg(), vals, rank, ev.modulesSym) && Anew(ev.Cfg(), vals, ev.modulesSym) && ev.Now() == ev.modulesVal && Unmarked(ev.state)
    modifies ev`modulesVal, ev`valid, ev`state, ev`pending, ev`user, ev`stored
    ensures ev.Plain() && ev.user == old(ev.user) && ev.modulesVal == old(ev.modulesVal)
    ensures lines == SavedLines(prefix, ev.Cfg(), vals, SymbolsOf(MenuTree.Preorder(f)))
  {
    hide *;
    var nodes := MenuTree.Traverse(root, f);
    lines := WriteDefconfig(ev, prefix, SymbolsOf(nodes), vals, rank);
  }

  /** If no symbol is lost, the minimal configuration read back from nothing and
      evaluated gives every symbol the value it had. */
  method SaveAndRestore(ev: Evaluator, prefix: string, find: string -> Option<Symbol>, order: seq<Symbol>, all: seq<Symbol>,
                        ghost vals: Values, ghost rank: Symbol -> nat)
    requires ev.Plain() && ev.ChoicesClosed() && AllClosed(ev.decls) && ClosedOpt(ev.decls, ev.modulesSym)
    requires (forall s <- order :: Closed(ev.decls, s)) && forall s <- all :: Closed(ev.decls, s)
    requires Steady(ev.Cfg(), vals, rank, ev.modulesSym) && Anew(ev.Cfg(), vals, ev.modulesSym) && ev.Now() == ev.modulesVal && Unmarked(ev.state)
    requires UserPrintable(ev.Cfg()) && Findable(prefix, ev.Sys(), find, order)
    requires NoneLost(ev.Cfg(), vals, order)
    requires Anew(Reread(prefix, find, ev.Cfg(), vals, order), vals, ev.modulesSym)
    modifies ev`modulesVal, ev`valid, ev`state, ev`pending, ev`user, ev`stored, ev`picked
    ensures forall s <- all :: CurrIn(ev.state, s) == vals(s)
  {
    hide AllClosed, Closed, Steady, Ready, Anew, Unmarked, UserPrintable, Findable, NoneLost, SavedLines, ReadLines, Evaluate, NowIn;
    ghost var c := ev.Cfg();
    assert ev.choices.Keys == {} && Groups(ev.choices.Keys, ev.memberOf) == UNGROUPED;
    var lines := WriteDefconfig(ev, prefix, order, vals, rank);
    assert ev.Cfg() == c;
    ReadySteady(c, vals, rank, ev.modulesSym, ev.valid, ev.state);
    ReadSimple(ev, prefix, find, lines);
    assert ev.Cfg() == Reread(prefix, find, c, vals, order);
    RestoredTarget(prefix, find, c, rank, ev.modulesSym, vals, order);
    ClearAllValid(ev, true, vals, rank);
    CalcAll(ev, all, vals, rank);
  }

  /** The configuration with the user's values as they are read back. */
  ghost function Reread(prefix: string, find: string -> Option<Symbol>, c: Config, vals: Values, order: seq<Symbol>): Config {
    c.(user := ReadLines(prefix, find, UNGROUPED, SavedLines(prefix, c, vals, order)).user)
  }

  ghost predicate NoneLost(c: Config, vals: Values, order: seq<Symbol>) {
    var nodes := Elements(order);
    forall s: Symbol :: !Lost(c, s, vals, nodes)
  }

  lemma RestoredTarget(prefix: string, find: string -> Option<Symbol>, c: Config, rank: Symbol -> nat,
                       m: Option<Symbol>, vals: Values, order: seq<Symbol>)
    requires Steady(c, vals, rank, m) && UserPrintable(c) && Findable(prefix, c.sys, find, order)
    requires NoneLost(c, vals, order)
    ensures Steady(Reread(prefix, find, c, vals, order), vals, rank, m)
  {
    var c' := Reread(prefix, find, c, vals, order);
    var vals': Values := s => Evaluate(c', rank, s);
    assert Ranked(c', rank);
    SolutionExists(c', rank);
    var nodes := Elements(order);
    hide Evaluate, SavedLines, ReadLines, UserPrintable, Findable, DependsOn, Lost, Step;
    SavedFileExact(prefix, find, c, rank, vals, vals', order, nodes);
    forall s: Symbol
      ensures vals(s) == Step(c', s, vals)
    {
      StepAgree(c', vals, vals', s);
    }
  }
}
