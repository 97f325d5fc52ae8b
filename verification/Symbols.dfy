/** Symbols with their declarations and user values, and what their values must be:
    a value for every symbol that agrees with one evaluation step everywhere. */
module Symbols {
  import opened Exprs

  /* ----- string values and their comparison ----- */

  /** How the source reads a string as a number: not at all, signed or unsigned. */
  datatype Parsed = Text | Signed(s: int) | Unsigned(u: nat)

  /** The library number parser, by type of the symbol and string. */
  type NumberParser = (SymType, string) -> Parsed

  const WORD: nat := 0x1_0000_0000_0000_0000

  /** A signed value seen through the unsigned member of the union. */
  function AsUnsigned(p: Parsed): int {
    match p
    case Unsigned(u) => u
    case Signed(s) => if s < 0 then s + WORD else s
    case Text => 0
  }

  function Sign(a: int, b: int): int {
    if a > b then 1 else if a < b then -1 else 0
  }

  /** The sign of strcmp. */
  function StrCmp(a: string, b: string): int {
    if a == [] then (if b == [] then 0 else -1)
    else if b == [] then 1
    else if a[0] != b[0] then Sign(a[0] as int, b[0] as int)
    else StrCmp(a[1..], b[1..])
  }

  lemma {:induction false} StrCmpZero(a: string, b: string)
    ensures StrCmp(a, b) == 0 <==> a == b
  {
    if a != [] && b != [] {
      StrCmpZero(a[1..], b[1..]);
      assert a == [a[0]] + a[1..] && b == [b[0]] + b[1..];
    }
  }

  function ParseString(num: NumberParser, ty: SymType, str: string): Parsed {
    if ty == Boolean || ty == Tri then
      Signed(if str == "n" then 0 else if str == "m" then 1 else if str == "y" then 2 else -1)
    else num(ty, str)
  }

  function CompareStrings(num: NumberParser, ty1: SymType, s1: string, ty2: SymType, s2: string): int {
    if ty1 == String && ty2 == String then StrCmp(s1, s2)
    else
      var p, q := ParseString(num, ty1, s1), ParseString(num, ty2, s2);
      if p.Text? || q.Text? then StrCmp(s1, s2)
      else if p.Unsigned? || q.Unsigned? then Sign(AsUnsigned(p), AsUnsigned(q))
      else Sign(p.s, q.s)
  }

  /** The number parser leaves the letters y, m and n alone. */
  ghost predicate LettersAreText(num: NumberParser) {
    forall ty: SymType :: num(ty, "y").Text? && num(ty, "m").Text? && num(ty, "n").Text?
  }

  /* ----- configuration ----- */

  datatype Value = Value(val: string, tri: Tristate)

  datatype DefaultProp = DefaultProp(value: Expr, cond: Option<Expr>)

  /** What the Kconfig files say about one symbol. Choices and ranges are not part of
      this model. */
  datatype Decl = Decl(
    prompts: seq<Option<Expr>>,
    defaults: seq<DefaultProp>,
    dirDep: Option<Expr>,
    revDep: Option<Expr>,
    implied: Option<Expr>,
    auto: bool)

  const EMPTY_DECL := Decl([], [], None, None, None, false)

  /** Everything but the user's values: declarations, names, how numbers are read,
      and the value of modules. */
  datatype System = System(
    decls: map<Symbol, Decl>,
    names: Symbol -> string,
    num: NumberParser,
    modules: Tristate)

  /** A system together with the values set by the user. */
  datatype Config = Config(sys: System, user: map<Symbol, Value>)

  function DeclOf(k: System, s: Symbol): Decl {
    if s in k.decls then k.decls[s] else EMPTY_DECL
  }

  predicate IsStringType(ty: SymType) {
    ty == Int || ty == Hex || ty == String
  }

  /** The type a symbol behaves as: without modules a tristate behaves as a bool. */
  function EffectiveType(k: System, s: Symbol): SymType {
    if s.Type() == Tri && k.modules == NO then Boolean else s.Type()
  }

  function TriString(t: Tristate): string {
    if t == NO then "n" else if t == MOD then "m" else "y"
  }

  /** The string of a symbol's value: m is printed as n while the modules symbol is n. */
  function StringAs(modules: Tristate, s: Symbol, v: Value): string {
    if s.Typed() then TriString(if v.tri == MOD && modules == NO then NO else v.tri) else v.val
  }

  /** The string a symbol is printed and compared as. */
  function StringValue(k: System, s: Symbol, v: Value): string {
    StringAs(k.modules, s, v)
  }

  type Values = Symbol -> Value

  /** What expressions see of the values while the modules symbol has the given value. */
  function EnvAs(k: System, modules: Tristate, vals: Values): Env {
    Env(s => vals(s).tri, (a, b) => Compared(k, modules, vals, a, b))
  }

  function Compared(k: System, modules: Tristate, vals: Values, a: Symbol, b: Symbol): Outcome {
    Outcome(CompareStrings(k.num, a.Type(), StringAs(modules, a, vals(a)), b.Type(), StringAs(modules, b, vals(b))), true)
  }

  function EnvOf(k: System, vals: Values): Env {
    EnvAs(k, k.modules, vals)
  }

  /* ----- one evaluation step ----- */

  function PromoteIf(t: Tristate, promote: bool): Tristate {
    if t == MOD && promote then YES else t
  }

  /** The strongest prompt condition. */
  function Strongest(conds: seq<Option<Expr>>, env: Env): Tristate {
    if conds == [] then NO
    else Max(Strongest(conds[..|conds| - 1], env), EvalOpt(conds[|conds| - 1], env))
  }

  function VisibleOf(k: System, s: Symbol, env: Env): Tristate {
    PromoteIf(Strongest(DeclOf(k, s).prompts, env), s.Type() != Tri || k.modules == NO)
  }

  function DirDepOf(k: System, s: Symbol, env: Env): Tristate {
    PromoteIf(EvalOpt(DeclOf(k, s).dirDep, env), EffectiveType(k, s) == Boolean)
  }

  function RevDepOf(k: System, s: Symbol, env: Env): Tristate {
    var e := DeclOf(k, s).revDep;
    PromoteIf(if e.Some? then Eval(e.value, env) else NO, EffectiveType(k, s) == Boolean)
  }

  function ImpliedOf(k: System, s: Symbol, env: Env): Tristate {
    var e := DeclOf(k, s).implied;
    PromoteIf(if e.Some? && DirDepOf(k, s, env) != NO then Eval(e.value, env) else NO, EffectiveType(k, s) == Boolean)
  }

  /** The first default whose condition is not n. */
  function ActiveDefault(ds: seq<DefaultProp>, env: Env): Option<DefaultProp> {
    if ds == [] then None
    else if EvalOpt(ds[0].cond, env) != NO then Some(ds[0])
    else ActiveDefault(ds[1..], env)
  }

  function DefaultTri(k: System, s: Symbol, env: Env): Tristate {
    var d := ActiveDefault(DeclOf(k, s).defaults, env);
    if d.Some? then Min(Eval(d.value.value, env), EvalOpt(d.value.cond, env)) else NO
  }

  /** The symbol a string default copies its value from. */
  function DefaultSource(k: System, s: Symbol, env: Env): Option<Symbol> {
    var d := ActiveDefault(DeclOf(k, s).defaults, env);
    if d.Some? && d.value.value.Sym? then Some(d.value.value.s) else None
  }

  /** The value of a bool or tristate symbol, given what its bounds and what its default
      see. */
  function TristateFrom(c: Config, s: Symbol, bounds: Env, env: Env): Tristate {
    var visible, rev, implied := VisibleOf(c.sys, s, bounds), RevDepOf(c.sys, s, bounds), ImpliedOf(c.sys, s, bounds);
    var chosen :=
      if visible != NO && s in c.user then Min(c.user[s].tri, visible)
      else Max(DefaultTri(c.sys, s, env), implied);
    PromoteIf(Max(chosen, rev), EffectiveType(c.sys, s) == Boolean || implied == YES)
  }

  function TristateOf(c: Config, s: Symbol, env: Env): Tristate {
    TristateFrom(c, s, env, env)
  }

  function TextFrom(c: Config, s: Symbol, bounds: Env, env: Env, vals: Values): string {
    if VisibleOf(c.sys, s, bounds) != NO && s in c.user then c.user[s].val
    else
      var source := DefaultSource(c.sys, s, env);
      if source.Some? then vals(source.value).val else ""
  }

  /** The value of a symbol, given the values of others and what its expressions see. */
  function StepFrom(c: Config, s: Symbol, bounds: Env, env: Env, vals: Values): Value {
    match s
    case SymYes => Value("y", YES)
    case SymMod => Value("m", MOD)
    case SymNo => Value("n", NO)
    case Named(_, ty, _) =>
      if s.Typed() then Value("n", TristateFrom(c, s, bounds, env))
      else if IsStringType(ty) then Value(TextFrom(c, s, bounds, env, vals), NO)
      else Value(c.sys.names(s), NO)
  }

  /** The value of a symbol given the values of all others. */
  function Step(c: Config, s: Symbol, vals: Values): Value {
    StepFrom(c, s, EnvOf(c.sys, vals), EnvOf(c.sys, vals), vals)
  }

  /** Every symbol has the value one more step would give it. */
  ghost predicate IsSolution(c: Config, vals: Values) {
    forall s: Symbol :: vals(s) == Step(c, s, vals)
  }

  predicate HasType(s: Symbol) {
    s.Typed() || IsStringType(s.Type())
  }

  /** Whether a symbol with a type is written to a configuration file. */
  predicate Written(k: System, s: Symbol, env: Env) {
    WrittenFrom(k, s, env, env)
  }

  predicate WrittenFrom(k: System, s: Symbol, bounds: Env, env: Env) {
    !DeclOf(k, s).auto && (VisibleOf(k, s, bounds) != NO || WrittenUnseen(k, s, bounds, env))
  }

  /** What makes a symbol worth writing apart from being visible. */
  predicate WrittenUnseen(k: System, s: Symbol, bounds: Env, env: Env) {
    if s.Typed() then RevDepOf(k, s, bounds) != NO || DefaultTri(k, s, env) != NO || ImpliedOf(k, s, bounds) != NO
    else DefaultSource(k, s, env).Some?
  }

  /* ----- dependencies ----- */

  ghost predicate OccursOpt(s: Symbol, e: Option<Expr>) {
    e.Some? && Occurs(s, e.value)
  }

  /** t occurs in some expression that decides the value of s. */
  ghost predicate DependsOn(decls: map<Symbol, Decl>, s: Symbol, t: Symbol) {
    var d := if s in decls then decls[s] else EMPTY_DECL;
    || (exists p <- d.prompts :: OccursOpt(t, p))
    || (exists p <- d.defaults :: Occurs(t, p.value) || OccursOpt(t, p.cond))
    || OccursOpt(t, d.dirDep) || OccursOpt(t, d.revDep) || OccursOpt(t, d.implied)
  }

  /** rank is a topological numbering of the dependencies. */
  ghost predicate Ranked(c: Config, rank: Symbol -> nat) {
    forall s: Symbol, t: Symbol :: DependsOn(c.sys.decls, s, t) ==> rank(t) < rank(s)
  }

  /** The two valuations agree on the symbols in d and on comparisons between them. */
  ghost predicate SameOn(d: iset<Symbol>, a: Env, b: Env) {
    && (forall t: Symbol :: t in d ==> a.tri(t) == b.tri(t))
    && (forall t: Symbol, u: Symbol :: t in d && u in d ==> a.cmp(t, u) == b.cmp(t, u))
  }

  ghost predicate Within(e: Expr, d: iset<Symbol>) {
    forall t: Symbol :: Occurs(t, e) ==> t in d
  }

  /** Only occurring symbols matter. */
  lemma {:induction false} EvalSame(e: Expr, d: iset<Symbol>, a: Env, b: Env)
    requires SameOn(d, a, b) && Within(e, d)
    ensures Eval(e, a) == Eval(e, b)
  {
    match e
    case Sym(s) => assert Occurs(s, e);
    case Not(x) => EvalSame(x, d, a, b);
    case And(l, r) => EvalSame(l, d, a, b); EvalSame(r, d, a, b);
    case Or(l, r) => EvalSame(l, d, a, b); EvalSame(r, d, a, b);
    case Compare(_, s, t) => assert Occurs(s, e) && Occurs(t, e);
  }

  lemma EvalSameOpt(e: Option<Expr>, d: iset<Symbol>, a: Env, b: Env)
    requires SameOn(d, a, b) && (e.Some? ==> Within(e.value, d))
    ensures EvalOpt(e, a) == EvalOpt(e, b)
    ensures e.Some? ==> Eval(e.value, a) == Eval(e.value, b)
  {
    if e.Some? {
      EvalSame(e.value, d, a, b);
    }
  }

  ghost predicate Agree(a: Values, b: Values, e: Expr) {
    forall t: Symbol :: Occurs(t, e) ==> a(t) == b(t)
  }

  /** Only the values of occurring symbols matter. */
  lemma EvalAgree(k: System, a: Values, b: Values, e: Expr)
    requires Agree(a, b, e)
    ensures Eval(e, EnvOf(k, a)) == Eval(e, EnvOf(k, b))
  {
    EvalSame(e, (iset t: Symbol | a(t) == b(t)), EnvOf(k, a), EnvOf(k, b));
  }

  ghost predicate AgreeOn(k: System, a: Values, b: Values, s: Symbol) {
    forall t: Symbol :: DependsOn(k.decls, s, t) ==> a(t) == b(t)
  }

  lemma {:induction false} StrongestSame(conds: seq<Option<Expr>>, d: iset<Symbol>, a: Env, b: Env)
    requires SameOn(d, a, b) && forall p <- conds :: p.Some? ==> Within(p.value, d)
    ensures Strongest(conds, a) == Strongest(conds, b)
  {
    if conds != [] {
      StrongestSame(conds[..|conds| - 1], d, a, b);
      EvalSameOpt(conds[|conds| - 1], d, a, b);
    }
  }

  lemma {:induction false} DefaultSame(ds: seq<DefaultProp>, d: iset<Symbol>, a: Env, b: Env)
    requires SameOn(d, a, b) && forall p <- ds :: Within(p.value, d) && (p.cond.Some? ==> Within(p.cond.value, d))
    ensures ActiveDefault(ds, a) == ActiveDefault(ds, b)
    ensures var p := ActiveDefault(ds, a); p.Some? ==> p.value in ds
  {
    if ds != [] {
      EvalSameOpt(ds[0].cond, d, a, b);
      DefaultSame(ds[1..], d, a, b);
    }
  }

  /** All the parts of a step. */
  datatype Parts = Parts(visible: Tristate, dir: Tristate, rev: Tristate, implied: Tristate,
                         def: Tristate, source: Option<Symbol>)

  function PartsOf(k: System, s: Symbol, env: Env): Parts {
    Parts(VisibleOf(k, s, env), DirDepOf(k, s, env), RevDepOf(k, s, env), ImpliedOf(k, s, env),
          DefaultTri(k, s, env), DefaultSource(k, s, env))
  }

  ghost function Dependencies(decls: map<Symbol, Decl>, s: Symbol): iset<Symbol> {
    iset t: Symbol | DependsOn(decls, s, t)
  }

  /** The parts depend on the dependencies, and on the value of modules only for a
      tristate. */
  lemma PartsSame(k: System, k': System, s: Symbol, a: Env, b: Env)
    requires k' == k.(modules := k'.modules) && (k'.modules == k.modules || s.Type() != Tri)
    requires SameOn(Dependencies(k.decls, s), a, b)
    ensures PartsOf(k, s, a) == PartsOf(k', s, b)
  {
    var c, d := DeclOf(k, s), Dependencies(k.decls, s);
    forall p <- c.prompts | p.Some?
      ensures Within(p.value, d)
    {
      assert forall t: Symbol :: Occurs(t, p.value) ==> OccursOpt(t, p);
    }
    StrongestSame(c.prompts, d, a, b);
    forall p <- c.defaults
      ensures Within(p.value, d) && (p.cond.Some? ==> Within(p.cond.value, d))
    {
      assert forall t: Symbol :: p.cond.Some? && Occurs(t, p.cond.value) ==> OccursOpt(t, p.cond);
    }
    DefaultSame(c.defaults, d, a, b);
    var def := ActiveDefault(c.defaults, a);
    if def.Some? {
      EvalSame(def.value.value, d, a, b);
      EvalSameOpt(def.value.cond, d, a, b);
    }
    assert forall t: Symbol :: OccursOpt(t, c.dirDep) || OccursOpt(t, c.revDep) || OccursOpt(t, c.implied) ==> t in d;
    WithinOpt(c.dirDep, d);
    WithinOpt(c.revDep, d);
    WithinOpt(c.implied, d);
    EvalSameOpt(c.dirDep, d, a, b);
    EvalSameOpt(c.revDep, d, a, b);
    EvalSameOpt(c.implied, d, a, b);
  }

  lemma WithinOpt(e: Option<Expr>, d: iset<Symbol>)
    requires forall t: Symbol :: OccursOpt(t, e) ==> t in d
    ensures e.Some? ==> Within(e.value, d)
  {
    assert forall t: Symbol :: e.Some? && Occurs(t, e.value) ==> OccursOpt(t, e);
  }

  /** A growing set of visited symbols leaves fewer to visit. */
  lemma FewerLeft(all: set<Symbol>, v: set<Symbol>, v': set<Symbol>)
    requires v <= v'
    ensures |all - v'| <= |all - v|
    ensures forall s :: s in all && s in v' && s !in v ==> |all - v'| < |all - v|
  {
    assert all - v == (all - v') + ((all - v) * v');
  }

  lemma PartsAgree(k: System, a: Values, b: Values, s: Symbol)
    requires AgreeOn(k, a, b, s)
    ensures PartsOf(k, s, EnvOf(k, a)) == PartsOf(k, s, EnvOf(k, b))
  {
    PartsSame(k, k, s, EnvOf(k, a), EnvOf(k, b));
  }

  lemma SourceIsDependency(k: System, s: Symbol, env: Env)
    requires DefaultSource(k, s, env).Some?
    ensures DependsOn(k.decls, s, DefaultSource(k, s, env).value)
  {
    var ds := DeclOf(k, s).defaults;
    ActiveDefaultIn(ds, env);
    var d := ActiveDefault(ds, env).value;
    assert Occurs(d.value.s, d.value);
  }

  lemma {:induction false} ActiveDefaultIn(ds: seq<DefaultProp>, env: Env)
    ensures ActiveDefault(ds, env).Some? ==> ActiveDefault(ds, env).value in ds
  {
    if ds != [] {
      ActiveDefaultIn(ds[1..], env);
    }
  }

  /** A step depends on nothing but the dependencies. */
  lemma StepAgree(c: Config, a: Values, b: Values, s: Symbol)
    requires AgreeOn(c.sys, a, b, s)
    ensures Step(c, s, a) == Step(c, s, b)
  {
    PartsAgree(c.sys, a, b, s);
    var source := DefaultSource(c.sys, s, EnvOf(c.sys, a));
    if source.Some? {
      SourceIsDependency(c.sys, s, EnvOf(c.sys, a));
    }
  }

  /** With acyclic dependencies the values are determined. */
  lemma {:induction false} SolutionUnique(c: Config, rank: Symbol -> nat, a: Values, b: Values, s: Symbol)
    requires Ranked(c, rank) && IsSolution(c, a) && IsSolution(c, b)
    ensures a(s) == b(s)
    decreases rank(s)
  {
    forall t: Symbol | DependsOn(c.sys.decls, s, t)
      ensures a(t) == b(t)
    {
      SolutionUnique(c, rank, a, b, t);
    }
    StepAgree(c, a, b, s);
  }

  /** The memo-free evaluation: recursion along the dependencies. */
  ghost function Evaluate(c: Config, rank: Symbol -> nat, s: Symbol): Value
    decreases rank(s)
  {
    Step(c, s, t => if rank(t) < rank(s) then Evaluate(c, rank, t) else Value("", NO))
  }

  /** It yields a solution, so acyclic configurations have exactly one. */
  lemma SolutionExists(c: Config, rank: Symbol -> nat)
    requires Ranked(c, rank)
    ensures IsSolution(c, s => Evaluate(c, rank, s))
  {
    var vals: Values := s => Evaluate(c, rank, s);
    forall s: Symbol
      ensures vals(s) == Step(c, s, vals)
    {
      StepAgree(c, t => if rank(t) < rank(s) then Evaluate(c, rank, t) else Value("", NO), vals, s);
    }
  }
}
