/** What follows from the values alone: the two computations of a default agree,
    accepted assignments take effect, and the minimal configuration that the source
    saves determines every value. */
module Saving {
  import opened Exprs
  import opened Symbols
  import opened ConfLines
  import opened Duplicates
  import opened Conditions
  import opened Submenus
  import Laws

  /* ----- well-formed valuations ----- */

  /** The values of every configuration form a well-formed valuation. */
  lemma SolutionWellFormed(c: Config, vals: Values)
    requires IsSolution(c, vals) && LettersAreText(c.sys.num)
    ensures WellFormed(EnvOf(c.sys, vals))
  {
    var env := EnvOf(c.sys, vals);
    forall s: Symbol
      ensures vals(s) == Step(c, s, vals)
    {
    }
    forall s: Symbol | s.Typed()
      ensures (env.cmp(s, SymYes).res == 0 <==> env.tri(s) == YES)
           && (env.cmp(s, SymMod).res == 0 <==> env.tri(s) == MOD)
           && (env.cmp(s, SymNo).res == 0 <==> env.tri(s) == NO)
    {
      TypedAgainstLetter(c, vals, s, SymYes);
      TypedAgainstLetter(c, vals, s, SymMod);
      TypedAgainstLetter(c, vals, s, SymNo);
    }
    forall a: Symbol, b: Symbol | a.YMN() && b.YMN()
      ensures env.cmp(a, b).res == 0 <==> a == b
    {
      StrCmpZero(vals(a).val, vals(b).val);
    }
  }

  lemma TypedAgainstLetter(c: Config, vals: Values, s: Symbol, letter: Symbol)
    requires IsSolution(c, vals) && LettersAreText(c.sys.num) && s.Typed() && letter.YMN()
    ensures EnvOf(c.sys, vals).cmp(s, letter).res == 0 <==> vals(s).tri == vals(letter).tri
  {
    assert vals(letter) == Step(c, letter, vals);
    assert vals(s) == Step(c, s, vals);
    StrCmpZero(StringValue(c.sys, s, vals(s)), vals(letter).val);
  }

  /** The tristate that a constant is equal to, if any: numbers count by value. */
  function Denoted(num: NumberParser, name: string): Option<Tristate> {
    var q := num(Unknown, name);
    if q.Text? then
      if name == "n" then Some(NO) else if name == "m" then Some(MOD) else if name == "y" then Some(YES) else None
    else
      var v := if q.Signed? then q.s else q.u;
      if 0 <= v <= 2 then Some(v) else None
  }

  /** A tristate symbol equals a constant just when it has the denoted value. */
  lemma EqualsDenoted(c: Config, vals: Values, s: Symbol, b: Symbol)
    requires IsSolution(c, vals) && s.Type() == Tri && b.Type() == Unknown
    ensures EnvOf(c.sys, vals).cmp(s, b).res == 0 <==> Denoted(c.sys.num, vals(b).val) == Some(vals(s).tri)
  {
    assert vals(b) == Step(c, b, vals) && vals(s) == Step(c, s, vals);
    StrCmpZero(StringValue(c.sys, s, vals(s)), vals(b).val);
    TristateOfShape(c, s, EnvOf(c.sys, vals));
  }

  /** So constants are distinct if no two of them, and none of them and one of y, m and n,
      denote the same tristate. */
  lemma DistinctConstants(c: Config, vals: Values, constants: set<Symbol>)
    requires IsSolution(c, vals) && forall b <- constants :: b.Type() == Unknown
    requires forall a: Symbol, b: Symbol ::
      (a in constants || a.YMN()) && (b in constants || b.YMN()) && a != b && Denoted(c.sys.num, vals(a).val).Some? ==>
        Denoted(c.sys.num, vals(a).val) != Denoted(c.sys.num, vals(b).val)
    ensures ConstantsDistinct(constants, EnvOf(c.sys, vals))
  {
    hide Denoted, IsSolution;
    forall s: Symbol, a: Symbol | s.Type() == Tri && (a in constants || a.YMN())
      ensures EnvOf(c.sys, vals).cmp(s, a).res == 0 <==> Denoted(c.sys.num, vals(a).val) == Some(vals(s).tri)
    {
      EqualsDenoted(c, vals, s, a);
    }
  }

  /** For the values at hand that is so just when no tristate symbol has a value that two of
      them denote. */
  lemma DistinctJustWhen(c: Config, vals: Values, constants: set<Symbol>)
    requires IsSolution(c, vals) && forall b <- constants :: b.Type() == Unknown
    ensures ConstantsDistinct(constants, EnvOf(c.sys, vals)) <==>
      forall s: Symbol, a: Symbol, b: Symbol ::
        s.Type() == Tri && a != b && (a in constants || a.YMN()) && (b in constants || b.YMN()) ==>
          !(Denoted(c.sys.num, vals(a).val) == Denoted(c.sys.num, vals(b).val) == Some(vals(s).tri))
  {
    hide Denoted, IsSolution, EnvOf;
    forall s: Symbol, a: Symbol | s.Type() == Tri && (a in constants || a.YMN())
      ensures EnvOf(c.sys, vals).cmp(s, a).res == 0 <==> Denoted(c.sys.num, vals(a).val) == Some(vals(s).tri)
    {
      EqualsDenoted(c, vals, s, a);
    }
  }

  /* ----- examples with one declared symbol ----- */

  /** A configuration with modules on and the single declaration d of s. */
  function Single(s: Symbol, d: Decl, names: Symbol -> string, num: NumberParser, user: map<Symbol, Value>): Config {
    Config(System(map[s := d], names, num, YES), user)
  }

  ghost function SingleValues(c: Config, s: Symbol): Values {
    var rank := SingleRank(s);
    (t: Symbol) => Evaluate(c, rank, t)
  }

  function SingleRank(s: Symbol): Symbol -> nat {
    (t: Symbol) => if t == s then 1 else 0
  }

  lemma SingleSolved(c: Config, s: Symbol)
    requires s.Named? && c.sys.decls.Keys == {s}
    requires forall t: Symbol :: DependsOn(c.sys.decls, s, t) ==> t.YMN()
    ensures Ranked(c, SingleRank(s)) && IsSolution(c, SingleValues(c, s))
  {
    var rank := SingleRank(s);
    forall u: Symbol, t: Symbol | DependsOn(c.sys.decls, u, t)
      ensures rank(t) < rank(u)
    {
      assert u == s;
    }
    SolutionExists(c, rank);
  }

  /** The only number is "5". */
  function OnlyFive(ty: SymType, str: string): Parsed {
    if str == "5" then Signed(5) else Text
  }

  /** A configuration whose values satisfy all assumptions, with a constant besides y, m
      and n. */
  lemma AssumptionsHold(c: Config)
    requires c == Single(Named(0, Tri, false), EMPTY_DECL.(defaults := [DefaultProp(Sym(SymMod), None)]), (s: Symbol) => "5", OnlyFive, map[])
    ensures var vals := SingleValues(c, Named(0, Tri, false));
      IsSolution(c, vals) && WellFormed(EnvOf(c.sys, vals)) && ConstantsDistinct({Named(1, Unknown, true)}, EnvOf(c.sys, vals))
  {
    var s := Named(0, Tri, false);
    SingleSolved(c, s);
    FiveDistinct(c, SingleValues(c, s), Named(1, Unknown, true));
  }

  lemma FiveDistinct(c: Config, vals: Values, five: Symbol)
    requires IsSolution(c, vals) && c.sys.num == OnlyFive && c.sys.names(five) == "5" && five == Named(1, Unknown, true)
    ensures WellFormed(EnvOf(c.sys, vals)) && ConstantsDistinct({five}, EnvOf(c.sys, vals))
  {
    var num := c.sys.num;
    assert LettersAreText(num);
    assert Denoted(num, "5") == None && Denoted(num, "n") == Some(NO) && Denoted(num, "m") == Some(MOD) && Denoted(num, "y") == Some(YES);
    ConstantValues(c, vals, five);
    hide IsSolution, EnvOf, Denoted, OnlyFive, LettersAreText, WellFormed, ConstantsDistinct;
    SolutionWellFormed(c, vals);
    DistinctConstants(c, vals, {five});
  }

  lemma ConstantValues(c: Config, vals: Values, b: Symbol)
    requires IsSolution(c, vals) && b.Named? && b.Type() == Unknown
    ensures vals(b).val == c.sys.names(b) && vals(SymYes).val == "y" && vals(SymMod).val == "m" && vals(SymNo).val == "n"
  {
    assert vals(b) == Step(c, b, vals) && vals(SymYes) == Step(c, SymYes, vals);
    assert vals(SymMod) == Step(c, SymMod, vals) && vals(SymNo) == Step(c, SymNo, vals);
  }

  lemma DefaultMod(c: Config, vals: Values, s: Symbol)
    requires IsSolution(c, vals) && s.Type() == Tri && c.sys.modules == YES && c.user == map[]
    requires c.sys.decls == map[s := EMPTY_DECL.(defaults := [DefaultProp(Sym(SymMod), None)])]
    ensures vals(s).tri == MOD
  {
    assert vals(s) == Step(c, s, vals) && vals(SymMod) == Step(c, SymMod, vals);
    assert VisibleOf(c.sys, s, EnvOf(c.sys, vals)) == NO;
    assert DefaultTri(c.sys, s, EnvOf(c.sys, vals)) == MOD;
  }

  /** A tristate at m equals a constant that reads as 1. */
  lemma ModEqualsOne(c: Config, vals: Values, s: Symbol, b: Symbol)
    requires IsSolution(c, vals) && s.Type() == Tri && vals(s).tri == MOD
    requires b.Named? && b.Type() == Unknown && c.sys.num(Unknown, c.sys.names(b)) == Signed(1)
    ensures EnvOf(c.sys, vals).cmp(s, b).res == 0
  {
    ConstantValues(c, vals, b);
    assert Denoted(c.sys.num, c.sys.names(b)) == Some(MOD);
    hide *;
    EqualsDenoted(c, vals, s, b);
  }

  /** A configuration in which a tristate equals the constants "1" and "0x1", so that
      joining two conditions over them changes the value. */
  lemma EqualConstantsArise(num: NumberParser, c: Config)
    requires num(Unknown, "1") == Signed(1) && num(Unknown, "0x1") == Signed(1)
    requires var names := (s: Symbol) => if s == Named(1, Unknown, true) then "1" else "0x1";
      c == Single(Named(0, Tri, false), EMPTY_DECL.(defaults := [DefaultProp(Sym(SymMod), None)]), names, num, map[])
    ensures var s, one, hexOne := Named(0, Tri, false), Named(1, Unknown, true), Named(2, Unknown, true);
      var vals := SingleValues(c, s);
      var env, e := EnvOf(c.sys, vals), And(Compare(Equal, s, one), Compare(Unequal, s, hexOne));
      && IsSolution(c, vals) && env.cmp(s, one).res == 0 && env.cmp(s, hexOne).res == 0
      && Eval(e, env) == NO && Eval(Dups(e), env) == YES
  {
    var s, one, hexOne := Named(0, Tri, false), Named(1, Unknown, true), Named(2, Unknown, true);
    ModByDefault(c, s);
    hide *;
    SingleSolved(c, s);
    EqualsBoth(c, SingleValues(c, s), s, one, hexOne);
    JoinNeedsDistinctConstants(s, one, hexOne, EnvOf(c.sys, SingleValues(c, s)));
  }

  lemma ModByDefault(c: Config, s: Symbol)
    requires s.Named? && c.sys.decls == map[s := EMPTY_DECL.(defaults := [DefaultProp(Sym(SymMod), None)])]
    ensures c.sys.decls.Keys == {s} && forall t: Symbol :: DependsOn(c.sys.decls, s, t) ==> t.YMN()
  {
  }

  lemma EqualsBoth(c: Config, vals: Values, s: Symbol, one: Symbol, hexOne: Symbol)
    requires IsSolution(c, vals) && s.Type() == Tri && c.sys.modules == YES && c.user == map[]
    requires c.sys.decls == map[s := EMPTY_DECL.(defaults := [DefaultProp(Sym(SymMod), None)])]
    requires forall b <- [one, hexOne] :: b.Named? && b.Type() == Unknown && c.sys.num(Unknown, c.sys.names(b)) == Signed(1)
    ensures EnvOf(c.sys, vals).cmp(s, one).res == 0 && EnvOf(c.sys, vals).cmp(s, hexOne).res == 0
  {
    DefaultMod(c, vals, s);
    assert one in [one, hexOne] && hexOne in [one, hexOne];
    hide *;
    ModEqualsOne(c, vals, s, one);
    ModEqualsOne(c, vals, s, hexOne);
  }

  /** A configuration in which the submenu rule goes wrong over an undefined symbol u: the
      item (a || b) && u!=n is absorbed below a, whose prompt depends on u, and is y while
      the prompt is n. */
  lemma UndefinedOperand(num: NumberParser, c: Config)
    requires LettersAreText(num)
    requires c == Single(Named(0, Tri, false), EMPTY_DECL.(defaults := [DefaultProp(Sym(SymYes), None)]), (s: Symbol) => "U", num, map[])
    ensures var a, b, u := Named(0, Tri, false), Named(2, Tri, false), Named(1, Unknown, false);
      var vals := SingleValues(c, a);
      var env, prompt, item := EnvOf(c.sys, vals), Some(Sym(u)), Some(And(Or(Sym(a), Sym(b)), Compare(Unequal, u, SymNo)));
      && IsSolution(c, vals) && Belongs(a, prompt, item) && !Absolute(item, a)
      && EvalOpt(item, env) == YES && EvalOpt(prompt, env) == NO
  {
    var a, b, u := Named(0, Tri, false), Named(2, Tri, false), Named(1, Unknown, false);
    var vals := SingleValues(c, a);
    SingleSolved(c, a);
    UndefinedDisagrees(c, vals, a, u);
    hide SingleValues;
    SolutionWellFormed(c, vals);
    hide WellFormed, EnvOf, IsSolution, Agrees;
    assert BadPrompt(u, true) == Sym(u) && BadItem(u, a, b, true) == And(Or(Sym(a), Sym(b)), Compare(Unequal, u, SymNo));
    BadPairBelongs(u, a, b, true);
    BadPairValues(u, a, b, EnvOf(c.sys, vals));
  }

  lemma UndefinedDisagrees(c: Config, vals: Values, a: Symbol, u: Symbol)
    requires IsSolution(c, vals) && LettersAreText(c.sys.num) && c.sys.names(u) == "U" && u == Named(1, Unknown, false)
    requires a.Type() == Tri && DeclOf(c.sys, a) == EMPTY_DECL.(defaults := [DefaultProp(Sym(SymYes), None)])
    ensures !Agrees(u, SymNo, EnvOf(c.sys, vals)) && EnvOf(c.sys, vals).tri(u) == NO && EnvOf(c.sys, vals).tri(a) == YES
  {
    var env := EnvOf(c.sys, vals);
    assert vals(u) == Step(c, u, vals) && vals(a) == Step(c, a, vals);
    assert vals(SymNo) == Step(c, SymNo, vals) && vals(SymYes) == Step(c, SymYes, vals);
    StrCmpZero("U", "n");
    assert VisibleOf(c.sys, a, env) == NO && DefaultTri(c.sys, a, env) == YES;
  }

  /* ----- defaults ----- */

  /** The separate computation of the value a symbol would have by default. */
  function DefaultString(k: System, s: Symbol, vals: Values): string {
    var env := EnvOf(k, vals);
    var base := Max(if s.Typed() then DefaultTri(k, s, env) else NO, RevDepOf(k, s, env));
    var up := PromoteIf(PromoteIf(base, k.modules == NO), s.Type() == Boolean);
    var implied := ImpliedOf(k, s, env);
    if s.Typed() then TriString(if up < implied then implied else up)
    else if IsStringType(s.Type()) then
      var source := DefaultSource(k, s, env);
      if source.Some? then vals(source.value).val else ""
    else ""
  }

  /** Whether the user's value counts. */
  predicate UserDecides(c: Config, s: Symbol, env: Env) {
    VisibleOf(c.sys, s, env) != NO && s in c.user
  }

  lemma TristateShape(k: System, s: Symbol, env: Env)
    requires s.Typed()
    ensures EffectiveType(k, s) == Boolean ==>
      RevDepOf(k, s, env) != MOD && ImpliedOf(k, s, env) != MOD && VisibleOf(k, s, env) != MOD
    ensures k.modules == NO ==> EffectiveType(k, s) == Boolean
  {
  }

  lemma TristateOfShape(c: Config, s: Symbol, env: Env)
    requires s.Typed()
    ensures c.sys.modules == NO ==> TristateOf(c, s, env) != MOD
  {
  }

  /** Where the user does not decide, the two computations agree. */
  lemma DefaultsAgree(c: Config, s: Symbol, vals: Values)
    requires IsSolution(c, vals) && HasType(s)
    requires !UserDecides(c, s, EnvOf(c.sys, vals))
    ensures DefaultString(c.sys, s, vals) == StringValue(c.sys, s, vals(s))
  {
    assert vals(s) == Step(c, s, vals);
    if s.Typed() {
      TristateShape(c.sys, s, EnvOf(c.sys, vals));
    }
  }

  /* ----- assignments ----- */

  predicate WithinRange(k: System, s: Symbol, env: Env, val: Tristate) {
    var visible, rev, implied := VisibleOf(k, s, env), RevDepOf(k, s, env), ImpliedOf(k, s, env);
    && visible != NO
    && s.Typed()
    && !(EffectiveType(k, s) == Boolean && val == MOD)
    && visible > rev
    && !(implied == YES && val == MOD)
    && rev <= val <= visible
  }

  function Assign(c: Config, s: Symbol, val: Tristate): Config {
    c.(user := c.user[s := Value(if s in c.user then c.user[s].val else "", val)])
  }

  /** Symbols whose dependencies lie among themselves, with no user value changed
    among them, keep their values. */
  lemma {:induction false} OthersKeep(c: Config, c': Config, rank: Symbol -> nat, vals: Values, vals': Values, keep: iset<Symbol>, t: Symbol)
    requires Ranked(c, rank) && IsSolution(c, vals) && IsSolution(c', vals') && c'.sys == c.sys
    requires forall u: Symbol :: u in keep ==> SameUser(c, c', u)
    requires forall u: Symbol, w: Symbol :: u in keep && DependsOn(c.sys.decls, u, w) ==> w in keep
    requires t in keep
    ensures vals'(t) == vals(t)
    decreases rank(t)
  {
    forall u: Symbol | DependsOn(c.sys.decls, t, u)
      ensures vals'(u) == vals(u)
    {
      OthersKeep(c, c', rank, vals, vals', keep, u);
    }
    StepAgree(c', vals', vals, t);
  }

  predicate SameUser(c: Config, c': Config, s: Symbol) {
    (s in c.user <==> s in c'.user) && (s in c.user ==> c.user[s] == c'.user[s])
  }

  /** What decides s is the same before and after an assignment to s. */
  lemma PartsKeep(c: Config, rank: Symbol -> nat, vals: Values, vals': Values, s: Symbol, val: Tristate)
    requires Ranked(c, rank) && IsSolution(c, vals) && IsSolution(Assign(c, s, val), vals')
    ensures PartsOf(c.sys, s, EnvOf(c.sys, vals')) == PartsOf(c.sys, s, EnvOf(c.sys, vals))
  {
    var keep := iset t: Symbol | rank(t) < rank(s);
    forall t: Symbol | DependsOn(c.sys.decls, s, t)
      ensures vals'(t) == vals(t)
    {
      OthersKeep(c, Assign(c, s, val), rank, vals, vals', keep, t);
    }
    PartsAgree(c.sys, vals', vals, s);
  }

  /** The default of a symbol is what it would be if the user had not set it. */
  lemma DefaultIsUnset(c: Config, rank: Symbol -> nat, vals: Values, vals': Values, s: Symbol)
    requires Ranked(c, rank) && IsSolution(c, vals) && IsSolution(c.(user := c.user - {s}), vals') && HasType(s)
    ensures DefaultString(c.sys, s, vals) == StringValue(c.sys, s, vals'(s))
  {
    var without, keep := c.(user := c.user - {s}), iset t: Symbol | rank(t) < rank(s);
    forall t: Symbol | DependsOn(c.sys.decls, s, t)
      ensures vals'(t) == vals(t)
    {
      OthersKeep(c, without, rank, vals, vals', keep, t);
    }
    DefaultStringAgree(c.sys, s, vals, vals');
    DefaultsAgree(without, s, vals');
  }

  /** An accepted assignment takes effect when the symbols are evaluated again. */
  lemma AcceptedTakesEffect(c: Config, rank: Symbol -> nat, vals: Values, vals': Values, s: Symbol, val: Tristate)
    requires Ranked(c, rank) && IsSolution(c, vals) && IsSolution(Assign(c, s, val), vals')
    requires WithinRange(c.sys, s, EnvOf(c.sys, vals), val)
    ensures vals'(s).tri == val
  {
    PartsKeep(c, rank, vals, vals', s, val);
    assert vals'(s) == Step(Assign(c, s, val), s, vals');
  }

  /** Of the values up to what a prompt allows, where that is more than what selects the symbol,
      exactly those are accepted that are the value after the next evaluation. */
  lemma AcceptedJustWhenEffective(c: Config, rank: Symbol -> nat, vals: Values, vals': Values, s: Symbol, val: Tristate)
    requires Ranked(c, rank) && IsSolution(c, vals) && IsSolution(Assign(c, s, val), vals') && s.Typed()
    ensures var env := EnvOf(c.sys, vals);
      WithinRange(c.sys, s, env, val) <==>
      VisibleOf(c.sys, s, env) > RevDepOf(c.sys, s, env) && val <= VisibleOf(c.sys, s, env) && vals'(s).tri == val
  {
    PartsKeep(c, rank, vals, vals', s, val);
    assert vals'(s) == Step(Assign(c, s, val), s, vals');
    TristateShape(c.sys, s, EnvOf(c.sys, vals));
  }

  /** In terms of the declaration: a prompt is stronger than every select, no select is stronger
      than the value, a prompt is as strong as the value, and m is not asked for where it does
      not last. A prompt at m is enough for y where the symbol behaves as a bool. */
  lemma AcceptedExact(k: System, s: Symbol, env: Env, val: Tristate)
    requires s.Typed()
    ensures WithinRange(k, s, env, val) <==>
      && (exists t: Tristate :: t != NO && Allows(k, s, env, t) && !Forces(k, s, env, t))
      && (forall t: Tristate :: t > val ==> !Forces(k, s, env, t))
      && (val == NO || Allows(k, s, env, val))
      && (val == MOD ==> !Laws.NeverMod(k, s, env))
  {
    Laws.BoundsExact(k, s, env);
    assert EffectiveType(k, s) == Boolean <==> BehavesAsBool(k, s);
    var visible, rev := VisibleOf(k, s, env), RevDepOf(k, s, env);
    assert (visible >= MOD <==> Allows(k, s, env, MOD)) && (visible == YES <==> Allows(k, s, env, YES));
    assert (rev >= MOD <==> Forces(k, s, env, MOD)) && (rev == YES <==> Forces(k, s, env, YES));
    hide VisibleOf, RevDepOf, ImpliedOf, Allows, Forces, EffectiveType, Laws.Implied;
    RoomExact(k, s, env, visible, rev, val);
  }

  lemma RoomExact(k: System, s: Symbol, env: Env, visible: Tristate, rev: Tristate, val: Tristate)
    requires (visible >= MOD <==> Allows(k, s, env, MOD)) && (visible == YES <==> Allows(k, s, env, YES))
    requires (rev >= MOD <==> Forces(k, s, env, MOD)) && (rev == YES <==> Forces(k, s, env, YES))
    ensures visible > rev <==> exists t: Tristate :: t != NO && Allows(k, s, env, t) && !Forces(k, s, env, t)
    ensures rev <= val <==> forall t: Tristate :: t > val ==> !Forces(k, s, env, t)
  {
    hide Allows, Forces;
  }

  lemma AcceptedRoom(k: System, s: Symbol, env: Env)
    requires s.Typed()
    ensures VisibleOf(k, s, env) > RevDepOf(k, s, env) <==> exists t: Tristate :: t != NO && Allows(k, s, env, t) && !Forces(k, s, env, t)
  {
    Laws.BoundsExact(k, s, env);
    assert EffectiveType(k, s) == Boolean <==> BehavesAsBool(k, s);
    RoomExact(k, s, env, VisibleOf(k, s, env), RevDepOf(k, s, env), NO);
  }

  predicate BehavesAsBool(k: System, s: Symbol) {
    s.Type() == Boolean || k.modules == NO
  }

  /** Some prompt allows t. */
  predicate Allows(k: System, s: Symbol, env: Env, t: Tristate) {
    Laws.Prompted(k, s, env, t) || (BehavesAsBool(k, s) && Laws.Prompted(k, s, env, MOD))
  }

  /** Some select forces t. */
  predicate Forces(k: System, s: Symbol, env: Env, t: Tristate) {
    Laws.Selected(k, s, env, t) || (BehavesAsBool(k, s) && Laws.Selected(k, s, env, MOD))
  }

  /* ----- assigning the modules symbol ----- */

  /** A set of symbols closed under dependencies and without tristates. */
  ghost predicate ModulesFree(k: System, keep: iset<Symbol>) {
    && (forall u: Symbol :: u in keep ==> u.Type() != Tri)
    && forall u: Symbol, w: Symbol :: u in keep && DependsOn(k.decls, u, w) ==> w in keep
  }

  /** Symbols that are not tristate print the same whatever modules are. */
  lemma PrintsSame(c: Config, vals: Values, k: System, s: Symbol)
    requires IsSolution(c, vals) && s.Type() != Tri
    ensures StringValue(c.sys, s, vals(s)) == StringValue(k, s, vals(s))
  {
    assert vals(s) == Step(c, s, vals);
    if s.Typed() {
      TristateShape(c.sys, s, EnvOf(c.sys, vals));
    }
  }

  /** Valuations under different values of modules agree where the values do. */
  lemma SameUnderModules(c: Config, c': Config, vals: Values, vals': Values, d: iset<Symbol>)
    requires IsSolution(c, vals) && c'.sys == c.sys.(modules := c'.sys.modules)
    requires forall t: Symbol :: t in d ==> vals'(t) == vals(t) && t.Type() != Tri
    ensures SameOn(d, EnvOf(c.sys, vals), EnvOf(c'.sys, vals'))
  {
    hide IsSolution, StringAs;
    forall t: Symbol | t in d
      ensures StringAs(c.sys.modules, t, vals(t)) == StringAs(c'.sys.modules, t, vals'(t))
    {
      PrintsSame(c, vals, c'.sys, t);
    }
  }

  lemma {:induction false} KeepUnderModules(c: Config, c': Config, rank: Symbol -> nat, vals: Values, vals': Values, keep: iset<Symbol>, t: Symbol)
    requires Ranked(c, rank) && IsSolution(c, vals) && IsSolution(c', vals') && c'.sys == c.sys.(modules := c'.sys.modules)
    requires ModulesFree(c.sys, keep) && t in keep && forall u: Symbol :: u in keep ==> SameUser(c, c', u)
    ensures vals'(t) == vals(t)
    decreases rank(t)
  {
    forall u: Symbol | DependsOn(c.sys.decls, t, u)
      ensures vals'(u) == vals(u)
    {
      KeepUnderModules(c, c', rank, vals, vals', keep, u);
    }
    StepUnderModules(c, c', vals, vals', t);
  }

  lemma StepUnderModules(c: Config, c': Config, vals: Values, vals': Values, t: Symbol)
    requires IsSolution(c, vals) && IsSolution(c', vals') && c'.sys == c.sys.(modules := c'.sys.modules)
    requires t.Type() != Tri && SameUser(c, c', t)
    requires forall u: Symbol :: DependsOn(c.sys.decls, t, u) ==> vals'(u) == vals(u) && u.Type() != Tri
    ensures vals'(t) == vals(t)
  {
    hide DependsOn;
    SameUnderModules(c, c', vals, vals', Dependencies(c.sys.decls, t));
    PartsSame(c.sys, c'.sys, t, EnvOf(c.sys, vals), EnvOf(c'.sys, vals'));
    assert vals(t) == Step(c, t, vals) && vals'(t) == Step(c', t, vals');
    if DefaultSource(c.sys, t, EnvOf(c.sys, vals)).Some? {
      SourceIsDependency(c.sys, t, EnvOf(c.sys, vals));
    }
  }

  /** An accepted assignment to a bool modules symbol takes effect, and with it the mode of
      evaluation, if no tristate decides about the symbol. */
  lemma ModulesTakeEffect(c: Config, rank: Symbol -> nat, vals: Values, vals': Values, m: Symbol, val: Tristate, keep: iset<Symbol>)
    requires Ranked(c, rank) && IsSolution(c, vals) && m.Type() == Boolean && m !in keep
    requires ModulesFree(c.sys, keep) && forall t: Symbol :: DependsOn(c.sys.decls, m, t) ==> t in keep
    requires WithinRange(c.sys, m, EnvOf(c.sys, vals), val)
    requires IsSolution(Assign(c, m, val).(sys := c.sys.(modules := val)), vals')
    ensures vals'(m).tri == val
    ensures forall t: Symbol :: t in keep ==> vals'(t) == vals(t)
  {
    var c' := Assign(c, m, val).(sys := c.sys.(modules := val));
    forall t: Symbol | t in keep
      ensures vals'(t) == vals(t)
    {
      KeepUnderModules(c, c', rank, vals, vals', keep, t);
    }
    SameUnderModules(c, c', vals, vals', Dependencies(c.sys.decls, m));
    PartsSame(c.sys, c'.sys, m, EnvOf(c.sys, vals), EnvOf(c'.sys, vals'));
    assert vals'(m) == Step(c', m, vals');
  }

  /** Setting a symbol to the value it has is accepted without a range check. The value
      then survives the next evaluation except in one case: the prompt allows only m
      and the y came from a default, with neither a select nor an implication for y. */
  lemma SameValueMayDrop(c: Config, rank: Symbol -> nat, vals: Values, vals': Values, s: Symbol, val: Tristate)
    requires Ranked(c, rank) && IsSolution(c, vals) && IsSolution(Assign(c, s, val), vals')
    requires s.Typed() && vals(s).tri == val
    ensures var env := EnvOf(c.sys, vals);
      vals'(s).tri == val <==>
      !(val == YES && VisibleOf(c.sys, s, env) == MOD && RevDepOf(c.sys, s, env) != YES && ImpliedOf(c.sys, s, env) != YES)
  {
    PartsKeep(c, rank, vals, vals', s, val);
    assert vals'(s) == Step(Assign(c, s, val), s, vals');
    assert vals(s) == Step(c, s, vals);
    TristateShape(c.sys, s, EnvOf(c.sys, vals));
  }

  /** Such a case: a prompt only for m, and y by default. */
  lemma CurrentValueDrops(c: Config, val': Values)
    requires c == Single(Named(0, Tri, false), EMPTY_DECL.(prompts := [Some(Sym(SymMod))], defaults := [DefaultProp(Sym(SymYes), None)]),
                         c.sys.names, c.sys.num, map[])
    requires IsSolution(Assign(c, Named(0, Tri, false), YES), val')
    ensures var s, vals := Named(0, Tri, false), SingleValues(c, Named(0, Tri, false));
      IsSolution(c, vals) && vals(s).tri == YES && val'(s).tri != YES
  {
    var s := Named(0, Tri, false);
    var vals := SingleValues(c, s);
    SingleSolved(c, s);
    hide SingleValues;
    var env := EnvOf(c.sys, vals);
    assert vals(s) == Step(c, s, vals) && vals(SymMod) == Step(c, SymMod, vals) && vals(SymYes) == Step(c, SymYes, vals);
    OnePrompt(c.sys, s, Some(Sym(SymMod)), env);
    assert VisibleOf(c.sys, s, env) == MOD;
    assert DefaultTri(c.sys, s, env) == YES;
    SameValueMayDrop(c, SingleRank(s), vals, val', s, YES);
  }

  lemma OnePrompt(k: System, s: Symbol, p: Option<Expr>, env: Env)
    requires DeclOf(k, s).prompts == [p]
    ensures Strongest(DeclOf(k, s).prompts, env) == EvalOpt(p, env)
  {
    assert [p][..0] == [];
  }

  /* ----- the minimal configuration ----- */

  /** Whether the minimal configuration has a line for s, given the symbols that have
      a node in the menu tree. */
  predicate Saved(c: Config, s: Symbol, vals: Values, nodes: set<Symbol>) {
    var env := EnvOf(c.sys, vals);
    && s in nodes && HasType(s)
    && Written(c.sys, s, env)
    && VisibleOf(c.sys, s, env) > RevDepOf(c.sys, s, env)
    && StringValue(c.sys, s, vals(s)) != DefaultString(c.sys, s, vals)
  }

  /** The configuration after starting from nothing and reading the saved lines. */
  function Restored(c: Config, vals: Values, nodes: set<Symbol>): Config {
    c.(user := map s | s in nodes && Saved(c, s, vals, nodes) :: MeantValue(s.Type(), StringValue(c.sys, s, vals(s))))
  }

  /** The user's value is in force, differs from the default, and is not saved: the
      symbol is set automatically, it is selected as far as it is visible, or it has no
      node in the menu tree. */
  predicate Lost(c: Config, s: Symbol, vals: Values, nodes: set<Symbol>) {
    var env := EnvOf(c.sys, vals);
    && HasType(s) && UserDecides(c, s, env)
    && StringValue(c.sys, s, vals(s)) != DefaultString(c.sys, s, vals)
    && (DeclOf(c.sys, s).auto || VisibleOf(c.sys, s, env) <= RevDepOf(c.sys, s, env) || s !in nodes)
  }

  /** The user's value is in force after reading back just when it was saved. */
  lemma SavedWhenDeciding(c: Config, s: Symbol, vals: Values, nodes: set<Symbol>)
    requires IsSolution(c, vals) && HasType(s)
    ensures Saved(c, s, vals, nodes) ==> UserDecides(c, s, EnvOf(c.sys, vals))
    ensures UserDecides(c, s, EnvOf(c.sys, vals)) && !Lost(c, s, vals, nodes) && !Saved(c, s, vals, nodes) ==>
      StringValue(c.sys, s, vals(s)) == DefaultString(c.sys, s, vals)
  {
    if !UserDecides(c, s, EnvOf(c.sys, vals)) {
      DefaultsAgree(c, s, vals);
    }
  }

  /** Two values of a symbol that print the same are the same. */
  lemma StringDetermines(c: Config, c': Config, s: Symbol, vals: Values, vals': Values)
    requires c'.sys == c.sys && IsSolution(c, vals) && IsSolution(c', vals') && HasType(s)
    requires StringValue(c.sys, s, vals(s)) == StringValue(c.sys, s, vals'(s))
    ensures vals(s) == vals'(s)
  {
    assert vals(s) == Step(c, s, vals) && vals'(s) == Step(c', s, vals');
    if s.Typed() {
      TristateShape(c.sys, s, EnvOf(c.sys, vals));
      TristateOfShape(c, s, EnvOf(c.sys, vals));
      TristateOfShape(c', s, EnvOf(c.sys, vals'));
    }
  }

  /** Equal values of the dependencies give equal defaults. */
  lemma DefaultStringAgree(k: System, s: Symbol, a: Values, b: Values)
    requires AgreeOn(k, a, b, s)
    ensures PartsOf(k, s, EnvOf(k, a)) == PartsOf(k, s, EnvOf(k, b))
    ensures DefaultString(k, s, a) == DefaultString(k, s, b)
  {
    PartsAgree(k, a, b, s);
    if DefaultSource(k, s, EnvOf(k, a)).Some? {
      SourceIsDependency(k, s, EnvOf(k, a));
    }
  }

  /** A value comes back once it has been read as the user's, given that the user
      decided about it. */
  lemma SavedComesBack(c: Config, c': Config, s: Symbol, vals: Values, vals': Values)
    requires c'.sys == c.sys && HasType(s) && s in c'.user && UserDecides(c, s, EnvOf(c.sys, vals))
    requires vals(s) == Step(c, s, vals) && vals'(s) == Step(c', s, vals')
    requires c'.user[s] == MeantValue(s.Type(), StringValue(c.sys, s, vals(s)))
    requires AgreeOn(c.sys, vals, vals', s)
    ensures vals'(s) == vals(s)
  {
    var env := EnvOf(c.sys, vals);
    PartsAgree(c.sys, vals, vals', s);
    if s.Typed() {
      TristateShape(c.sys, s, env);
      TristateOfShape(c, s, env);
      assert c'.user[s].tri == vals(s).tri;
    }
  }

  /** A value that was not saved comes back just when it is the default. */
  lemma UnsavedIsDefault(c: Config, s: Symbol, vals: Values, vals': Values, nodes: set<Symbol>)
    requires IsSolution(c, vals) && IsSolution(Restored(c, vals, nodes), vals') && HasType(s)
    requires AgreeOn(c.sys, vals, vals', s) && !Saved(c, s, vals, nodes)
    ensures vals'(s) == vals(s) <==> StringValue(c.sys, s, vals(s)) == DefaultString(c.sys, s, vals)
  {
    var c' := Restored(c, vals, nodes);
    DefaultsAgree(c', s, vals');
    DefaultStringAgree(c.sys, s, vals, vals');
    if StringValue(c.sys, s, vals(s)) == StringValue(c.sys, s, vals'(s)) {
      StringDetermines(c, c', s, vals, vals');
    }
  }

  /** If nothing is lost, every value comes back: by induction over the dependencies. */
  lemma {:induction false} NothingLost(c: Config, rank: Symbol -> nat, vals: Values, vals': Values, nodes: set<Symbol>, s: Symbol)
    requires Ranked(c, rank) && IsSolution(c, vals) && IsSolution(Restored(c, vals, nodes), vals')
    requires forall t: Symbol :: !Lost(c, t, vals, nodes)
    ensures vals'(s) == vals(s)
    decreases rank(s)
  {
    forall t: Symbol | DependsOn(c.sys.decls, s, t)
      ensures vals'(t) == vals(t)
    {
      NothingLost(c, rank, vals, vals', nodes, t);
    }
    if !HasType(s) {
      assert vals(s) == Step(c, s, vals) && vals'(s) == Step(Restored(c, vals, nodes), s, vals');
    } else if Saved(c, s, vals, nodes) {
      SavedWhenDeciding(c, s, vals, nodes);
      SavedComesBack(c, Restored(c, vals, nodes), s, vals, vals');
    } else {
      UnsavedIsDefault(c, s, vals, vals', nodes);
      if UserDecides(c, s, EnvOf(c.sys, vals)) {
        SavedWhenDeciding(c, s, vals, nodes);
      } else {
        DefaultsAgree(c, s, vals);
      }
    }
  }

  /** Saving the minimal configuration and reading it back restores every value just
      when no symbol is lost. */
  lemma SavedefconfigExact(c: Config, rank: Symbol -> nat, vals: Values, vals': Values, nodes: set<Symbol>)
    requires Ranked(c, rank) && IsSolution(c, vals) && IsSolution(Restored(c, vals, nodes), vals')
    ensures (forall s: Symbol :: vals'(s) == vals(s)) <==> (forall s: Symbol :: !Lost(c, s, vals, nodes))
  {
    if forall s: Symbol :: !Lost(c, s, vals, nodes) {
      forall s: Symbol
        ensures vals'(s) == vals(s)
      {
        NothingLost(c, rank, vals, vals', nodes, s);
      }
    }
    if forall s: Symbol :: vals'(s) == vals(s) {
      forall s: Symbol
        ensures !Lost(c, s, vals, nodes)
      {
        if Lost(c, s, vals, nodes) {
          UnsavedIsDefault(c, s, vals, vals', nodes);
        }
      }
    }
  }

  /** A value is saved, or lost, just when the symbol would have another one if the user had
      not set it. */
  lemma SavedJustWhenNeeded(c: Config, rank: Symbol -> nat, vals: Values, vals': Values, s: Symbol, nodes: set<Symbol>)
    requires Ranked(c, rank) && IsSolution(c, vals) && IsSolution(c.(user := c.user - {s}), vals') && HasType(s)
    ensures Saved(c, s, vals, nodes) || Lost(c, s, vals, nodes) <==> vals'(s) != vals(s)
    ensures !(Saved(c, s, vals, nodes) && Lost(c, s, vals, nodes))
  {
    DefaultIsUnset(c, rank, vals, vals', s);
    SavedWhenDeciding(c, s, vals, nodes);
    if StringValue(c.sys, s, vals(s)) == StringValue(c.sys, s, vals'(s)) {
      StringDetermines(c, c.(user := c.user - {s}), s, vals, vals');
    } else if !UserDecides(c, s, EnvOf(c.sys, vals)) {
      DefaultsAgree(c, s, vals);
    }
  }

  /** The minimum is one: where it restores every value, no line of it can be left out. */
  lemma NoLineTooMany(c: Config, rank: Symbol -> nat, vals: Values, vals': Values, vals'': Values, s: Symbol, nodes: set<Symbol>)
    requires Ranked(c, rank) && IsSolution(c, vals) && IsSolution(Restored(c, vals, nodes), vals')
    requires forall t: Symbol :: vals'(t) == vals(t)
    requires Saved(c, s, vals, nodes) && IsSolution(Restored(c, vals, nodes).(user := Restored(c, vals, nodes).user - {s}), vals'')
    ensures vals''(s) != vals(s)
  {
    DefaultIsUnset(Restored(c, vals, nodes), rank, vals', vals'', s);
    DefaultStringAgree(c.sys, s, vals, vals');
  }

  /** In terms of the declaration: a value is lost that the user decides and the default would
      not give, if the symbol is set automatically, or no prompt is stronger than every select,
      or the symbol has no node. */
  lemma LostExact(c: Config, s: Symbol, vals: Values, nodes: set<Symbol>)
    requires IsSolution(c, vals)
    ensures var env := EnvOf(c.sys, vals);
      Lost(c, s, vals, nodes) <==>
        && HasType(s) && Laws.Chosen(c, s, env)
        && StringValue(c.sys, s, vals(s)) != DefaultString(c.sys, s, vals)
        && (DeclOf(c.sys, s).auto || s !in nodes
            || if s.Typed() then forall t: Tristate :: t != NO && Allows(c.sys, s, env, t) ==> Forces(c.sys, s, env, t)
               else Laws.Selected(c.sys, s, env, YES))
  {
    var env := EnvOf(c.sys, vals);
    Laws.ShownExact(c.sys, s, env);
    if s.Typed() {
      AcceptedRoom(c.sys, s, env);
    }
    hide StringValue, DefaultString, EnvOf, Allows, Forces;
  }

  /** Two ways to be safe: with modules off a bool or tristate symbol is lost only if
      it is set automatically or has no node. */
  lemma TypedRarelyLost(c: Config, s: Symbol, vals: Values, nodes: set<Symbol>)
    requires IsSolution(c, vals) && s.Typed() && c.sys.modules == NO
    requires Lost(c, s, vals, nodes)
    ensures DeclOf(c.sys, s).auto || s !in nodes
  {
    assert vals(s) == Step(c, s, vals);
    TristateShape(c.sys, s, EnvOf(c.sys, vals));
  }

  /** A symbol is lost: a string that is selected keeps the user's value while it is
      evaluated, is not saved, and does not come back. */
  lemma SelectedStringLost(c: Config, vals': Values)
    requires c == Single(Named(0, String, false), EMPTY_DECL.(prompts := [None], revDep := Some(Sym(SymYes))),
                         c.sys.names, c.sys.num, map[Named(0, String, false) := Value("text", NO)])
    requires IsSolution(Restored(c, SingleValues(c, Named(0, String, false)), {Named(0, String, false)}), vals')
    ensures var s, vals := Named(0, String, false), SingleValues(c, Named(0, String, false));
      IsSolution(c, vals) && Lost(c, s, vals, {s}) && vals(s).val == "text" && exists t: Symbol :: vals'(t) != vals(t)
  {
    var s := Named(0, String, false);
    var vals := SingleValues(c, s);
    SingleSolved(c, s);
    hide SingleValues;
    var env := EnvOf(c.sys, vals);
    assert vals(s) == Step(c, s, vals) && vals(SymYes) == Step(c, SymYes, vals);
    OnePrompt(c.sys, s, None, env);
    assert VisibleOf(c.sys, s, env) == YES && RevDepOf(c.sys, s, env) == YES;
    assert DefaultString(c.sys, s, vals) == "";
    SavedefconfigExact(c, SingleRank(s), vals, vals', {s});
  }
}
