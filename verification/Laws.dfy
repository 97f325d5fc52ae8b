/** What the values of a configuration are, said without the steps that compute them: by what
    raises a bool or tristate symbol to m or to y, by what an int, hex or string symbol takes
    its text from, and by the order of strings and numbers in comparisons. */
module Laws {
  import opened Exprs
  import opened Symbols

  /* ----- bool and tristate symbols ----- */

  /** Some prompt of s is worth at least t. */
  predicate Prompted(k: System, s: Symbol, env: Env, t: Tristate) {
    exists p <- DeclOf(k, s).prompts :: EvalOpt(p, env) >= t
  }

  /** The user's value counts. */
  predicate Chosen(c: Config, s: Symbol, env: Env) {
    s in c.user && Prompted(c.sys, s, env, MOD)
  }

  /** A select of s is worth at least t. */
  predicate Selected(k: System, s: Symbol, env: Env, t: Tristate) {
    var e := DeclOf(k, s).revDep;
    e.Some? && Eval(e.value, env) >= t
  }

  /** An implication of s is worth at least t, and its direct dependency is not n. */
  predicate Implied(k: System, s: Symbol, env: Env, t: Tristate) {
    var d := DeclOf(k, s);
    d.implied.Some? && Eval(d.implied.value, env) >= t && EvalOpt(d.dirDep, env) != NO
  }

  /** Default i is the first whose condition is not n. */
  ghost predicate FirstDefault(ds: seq<DefaultProp>, env: Env, i: nat) {
    i < |ds| && EvalOpt(ds[i].cond, env) != NO && forall j: nat :: j < i ==> EvalOpt(ds[j].cond, env) == NO
  }

  /** The first default whose condition is not n is worth at least t together with it. */
  ghost predicate Defaulted(k: System, s: Symbol, env: Env, t: Tristate) {
    var ds := DeclOf(k, s).defaults;
    exists i: nat :: FirstDefault(ds, env, i) && Eval(ds[i].value, env) >= t && EvalOpt(ds[i].cond, env) >= t
  }

  /** s is raised to t: by a select; by the user, as far as a prompt allows it; or, where the
      user's value does not count, by a default or an implication. */
  ghost predicate Raised(c: Config, s: Symbol, env: Env, t: Tristate) {
    || Selected(c.sys, s, env, t)
    || if Chosen(c, s, env) then c.user[s].tri >= t && Prompted(c.sys, s, env, t)
       else Defaulted(c.sys, s, env, t) || Implied(c.sys, s, env, t)
  }

  /** m does not last: the symbol is a bool, or behaves as one without modules, or an
      implication makes it y. */
  predicate NeverMod(k: System, s: Symbol, env: Env) {
    s.Type() == Boolean || k.modules == NO || Implied(k, s, env, YES)
  }

  lemma {:induction false} StrongestExact(conds: seq<Option<Expr>>, env: Env, t: Tristate)
    requires t != NO
    ensures Strongest(conds, env) >= t <==> exists e <- conds :: EvalOpt(e, env) >= t
  {
    if conds != [] {
      var before, last := conds[..|conds| - 1], conds[|conds| - 1];
      assert conds == before + [last];
      assert forall e <- conds :: e in before || e == last;
      StrongestExact(before, env, t);
    }
  }

  lemma {:induction false} ActiveExact(ds: seq<DefaultProp>, env: Env) returns (i: nat)
    ensures ActiveDefault(ds, env).Some? ==> FirstDefault(ds, env, i) && ActiveDefault(ds, env) == Some(ds[i])
    ensures ActiveDefault(ds, env).None? ==> forall d <- ds :: EvalOpt(d.cond, env) == NO
  {
    i := 0;
    if ds != [] && EvalOpt(ds[0].cond, env) == NO {
      var j := ActiveExact(ds[1..], env);
      i := j + 1;
      assert ds == [ds[0]] + ds[1..];
      assert forall k: nat :: 0 < k < i && k < |ds| ==> ds[k] == ds[1..][k - 1];
    }
  }

  lemma FirstIsOne(ds: seq<DefaultProp>, env: Env, i: nat, j: nat)
    requires FirstDefault(ds, env, i) && FirstDefault(ds, env, j)
    ensures i == j
  {
  }

  lemma DefaultExact(k: System, s: Symbol, env: Env, t: Tristate)
    requires t != NO
    ensures DefaultTri(k, s, env) >= t <==> Defaulted(k, s, env, t)
  {
    var ds := DeclOf(k, s).defaults;
    var i := ActiveExact(ds, env);
    if Defaulted(k, s, env, t) {
      var j: nat :| FirstDefault(ds, env, j) && Eval(ds[j].value, env) >= t && EvalOpt(ds[j].cond, env) >= t;
      assert ds[j] in ds;
      FirstIsOne(ds, env, i, j);
    }
  }

  /** The bounds, by what they are at least. */
  lemma BoundsExact(k: System, s: Symbol, env: Env)
    requires s.Typed()
    ensures var two := s.Type() == Boolean || k.modules == NO;
      && (VisibleOf(k, s, env) >= MOD <==> Prompted(k, s, env, MOD))
      && (VisibleOf(k, s, env) == YES <==> Prompted(k, s, env, YES) || (two && Prompted(k, s, env, MOD)))
      && (RevDepOf(k, s, env) >= MOD <==> Selected(k, s, env, MOD))
      && (RevDepOf(k, s, env) == YES <==> Selected(k, s, env, YES) || (two && Selected(k, s, env, MOD)))
      && (DirDepOf(k, s, env) >= MOD <==> EvalOpt(DeclOf(k, s).dirDep, env) != NO)
      && (DirDepOf(k, s, env) == YES <==> EvalOpt(DeclOf(k, s).dirDep, env) == YES || (two && EvalOpt(DeclOf(k, s).dirDep, env) == MOD))
      && (ImpliedOf(k, s, env) >= MOD <==> Implied(k, s, env, MOD))
      && (ImpliedOf(k, s, env) == YES <==> Implied(k, s, env, YES) || (two && Implied(k, s, env, MOD)))
  {
    StrongestExact(DeclOf(k, s).prompts, env, MOD);
    StrongestExact(DeclOf(k, s).prompts, env, YES);
    hide Eval, Strongest;
  }

  /** A bool or tristate symbol is at least m just when it is raised to m, and y just when it
      is raised to y, or to m where m does not last. */
  lemma TristateExact(c: Config, vals: Values, s: Symbol)
    requires IsSolution(c, vals) && s.Typed()
    ensures var env := EnvOf(c.sys, vals);
      && (vals(s).tri >= MOD <==> Raised(c, s, env, MOD))
      && (vals(s).tri == YES <==> Raised(c, s, env, YES) || (Raised(c, s, env, MOD) && NeverMod(c.sys, s, env)))
  {
    var env := EnvOf(c.sys, vals);
    assert vals(s) == Step(c, s, vals);
    BoundsExact(c.sys, s, env);
    DefaultExact(c.sys, s, env, MOD);
    DefaultExact(c.sys, s, env, YES);
    hide EnvOf, VisibleOf, RevDepOf, ImpliedOf, DefaultTri, IsSolution, Prompted, Selected, Defaulted, Eval;
  }

  /** A symbol is never below what selects it; and where neither the user nor a default nor an
      implication counts it is exactly that, with m promoted for what behaves as a bool. */
  lemma SelectedExact(c: Config, vals: Values, s: Symbol)
    requires IsSolution(c, vals) && s.Typed()
    ensures var env, e := EnvOf(c.sys, vals), DeclOf(c.sys, s).revDep;
      var t := if e.Some? then Eval(e.value, env) else NO;
      && vals(s).tri >= t
      && (!Chosen(c, s, env) && !Defaulted(c.sys, s, env, MOD) && !Implied(c.sys, s, env, MOD) ==>
            vals(s).tri == if t == MOD && (s.Type() == Boolean || c.sys.modules == NO) then YES else t)
  {
    TristateExact(c, vals, s);
    hide Eval, EnvOf, Defaulted, Prompted;
    assert Defaulted(c.sys, s, EnvOf(c.sys, vals), YES) ==> Defaulted(c.sys, s, EnvOf(c.sys, vals), MOD) by {
      DefaultedLess(c.sys, s, EnvOf(c.sys, vals));
    }
  }

  lemma DefaultedLess(k: System, s: Symbol, env: Env)
    ensures Defaulted(k, s, env, YES) ==> Defaulted(k, s, env, MOD)
  {
  }

  /** An implication counts like a default, but not at all where the direct dependency is n. */
  lemma ImpliedExact(c: Config, vals: Values, s: Symbol)
    requires IsSolution(c, vals) && s.Typed() && !Chosen(c, s, EnvOf(c.sys, vals))
    ensures var env, d := EnvOf(c.sys, vals), DeclOf(c.sys, s);
      && (d.implied.Some? && EvalOpt(d.dirDep, env) != NO ==> vals(s).tri >= Eval(d.implied.value, env))
      && (EvalOpt(d.dirDep, env) == NO && !Defaulted(c.sys, s, env, MOD) && !Selected(c.sys, s, env, MOD) ==> vals(s).tri == NO)
  {
    TristateExact(c, vals, s);
    hide Eval, EnvOf, Defaulted, Prompted;
  }

  /* ----- int, hex and string symbols ----- */

  lemma ShownExact(k: System, s: Symbol, env: Env)
    ensures VisibleOf(k, s, env) != NO <==> Prompted(k, s, env, MOD)
  {
    StrongestExact(DeclOf(k, s).prompts, env, MOD);
    hide Strongest;
  }

  /** s takes its text from the symbol t, its first default whose condition is not n. */
  ghost predicate TakesFrom(k: System, s: Symbol, env: Env, t: Symbol) {
    var ds := DeclOf(k, s).defaults;
    exists i: nat :: FirstDefault(ds, env, i) && ds[i].value == Sym(t)
  }

  lemma SourceExact(k: System, s: Symbol, env: Env, t: Symbol)
    ensures DefaultSource(k, s, env) == Some(t) <==> TakesFrom(k, s, env, t)
  {
    var ds := DeclOf(k, s).defaults;
    var i := ActiveExact(ds, env);
    if TakesFrom(k, s, env, t) {
      var j: nat :| FirstDefault(ds, env, j) && ds[j].value == Sym(t);
      assert ds[j] in ds;
      FirstIsOne(ds, env, i, j);
    }
  }

  /** The text is the user's where a prompt shows, else that of the default, else empty. */
  lemma TextExact(c: Config, vals: Values, s: Symbol)
    requires IsSolution(c, vals) && IsStringType(s.Type())
    ensures var env := EnvOf(c.sys, vals);
      && (Chosen(c, s, env) ==> vals(s).val == c.user[s].val)
      && (!Chosen(c, s, env) ==> forall t: Symbol :: TakesFrom(c.sys, s, env, t) ==> vals(s).val == vals(t).val)
      && (!Chosen(c, s, env) && (forall t: Symbol :: !TakesFrom(c.sys, s, env, t)) ==> vals(s).val == "")
  {
    var env := EnvOf(c.sys, vals);
    assert vals(s) == Step(c, s, vals);
    ShownExact(c.sys, s, env);
    forall t: Symbol
      ensures DefaultSource(c.sys, s, env) == Some(t) <==> TakesFrom(c.sys, s, env, t)
    {
      SourceExact(c.sys, s, env, t);
    }
    hide TakesFrom, DefaultSource, VisibleOf, EnvOf;
  }

  /** The constants have their letter and their value; a symbol that is neither bool nor
      tristate counts as n in conditions, and one without a type has its name for a text. */
  lemma PlainExact(c: Config, vals: Values, s: Symbol)
    requires IsSolution(c, vals)
    ensures vals(SymYes) == Value("y", YES) && vals(SymMod) == Value("m", MOD) && vals(SymNo) == Value("n", NO)
    ensures s.Named? && !s.Typed() ==> vals(s).tri == NO && Eval(Sym(s), EnvOf(c.sys, vals)) == NO
    ensures s.Named? && !HasType(s) ==> vals(s).val == c.sys.names(s)
  {
    assert vals(s) == Step(c, s, vals);
  }

  /* ----- which symbols are written ----- */

  ghost predicate Valued(k: System, s: Symbol, env: Env) {
    if s.Typed() then Selected(k, s, env, MOD) || Defaulted(k, s, env, MOD) || Implied(k, s, env, MOD)
    else exists t: Symbol :: TakesFrom(k, s, env, t)
  }

  /** A symbol is written unless it is set automatically: where a prompt shows, or something
      but the user gives it a value. */
  lemma WrittenExact(k: System, s: Symbol, env: Env)
    requires HasType(s)
    ensures Written(k, s, env) <==> !DeclOf(k, s).auto && (Prompted(k, s, env, MOD) || Valued(k, s, env))
  {
    ShownExact(k, s, env);
    if s.Typed() {
      BoundsExact(k, s, env);
      DefaultExact(k, s, env, MOD);
    } else {
      forall t: Symbol
        ensures DefaultSource(k, s, env) == Some(t) <==> TakesFrom(k, s, env, t)
      {
        SourceExact(k, s, env, t);
      }
    }
    hide TakesFrom, DefaultSource, VisibleOf, RevDepOf, ImpliedOf, DefaultTri, Prompted, Selected, Implied, Defaulted;
  }

  /* ----- comparisons ----- */

  /** The order of texts: a is a proper beginning of b, or has the smaller character at the
      first place where they differ. */
  ghost predicate Precedes(a: string, b: string) {
    exists k: nat :: DiffersAt(a, b, k) && (k == |a| || a[k] < b[k])
  }

  /** a and b are the same up to k, and b goes on. */
  ghost predicate DiffersAt(a: string, b: string, k: nat) {
    k <= |a| && k < |b| && a[..k] == b[..k]
  }

  lemma {:induction false} StrCmpExact(a: string, b: string)
    ensures StrCmp(a, b) < 0 <==> Precedes(a, b)
    ensures StrCmp(a, b) > 0 <==> Precedes(b, a)
  {
    if a == [] || b == [] {
      assert b != [] ==> DiffersAt([], b, 0);
      assert a != [] ==> DiffersAt([], a, 0);
    } else if a[0] != b[0] {
      FirstDecides(a, b);
      FirstDecides(b, a);
    } else {
      StrCmpExact(a[1..], b[1..]);
      RestDecides(a, b);
      RestDecides(b, a);
    }
  }

  lemma FirstDecides(a: string, b: string)
    requires a != [] && b != [] && a[0] != b[0]
    ensures Precedes(a, b) <==> a[0] < b[0]
  {
    assert DiffersAt(a, b, 0);
    forall k: nat | k > 0
      ensures !DiffersAt(a, b, k)
    {
      if k <= |a| && k <= |b| {
        assert a[..k][0] == a[0] && b[..k][0] == b[0];
      }
    }
  }

  lemma RestDecides(a: string, b: string)
    requires a != [] && b != [] && a[0] == b[0]
    ensures Precedes(a, b) <==> Precedes(a[1..], b[1..])
  {
    if k: nat :| DiffersAt(a[1..], b[1..], k) && (k == |a[1..]| || a[1..][k] < b[1..][k]) {
      RestDiffers(a, b, k);
    }
    if k: nat :| DiffersAt(a, b, k) && (k == |a| || a[k] < b[k]) {
      if k > 0 {
        RestDiffers(a, b, k - 1);
      }
    }
  }

  lemma RestDiffers(a: string, b: string, k: nat)
    requires a != [] && b != [] && a[0] == b[0]
    ensures DiffersAt(a, b, k + 1) <==> DiffersAt(a[1..], b[1..], k)
  {
    if k < |a| && k + 1 < |b| {
      Shifted(a, k);
      Shifted(b, k);
    }
  }

  lemma Shifted(a: string, k: nat)
    requires k < |a|
    ensures a[..k + 1] == [a[0]] + a[1..][..k] && a[..k + 1][1..] == a[1..][..k]
  {
  }

  /** The relations in terms of two of them. */
  lemma RelationsExact(a: Symbol, b: Symbol, env: Env)
    requires env.cmp(a, b).ordered
    ensures var less, equal := Eval(Compare(Less, a, b), env), Eval(Compare(Equal, a, b), env);
      && Eval(Compare(Unequal, a, b), env) == 2 - equal && Eval(Compare(LessEq, a, b), env) == Max(less, equal)
      && Eval(Compare(Greater, a, b), env) == 2 - Max(less, equal) && Eval(Compare(GreaterEq, a, b), env) == 2 - less
  {
  }

  /** Two bool or tristate symbols are compared by their values. */
  lemma TristatesCompared(c: Config, vals: Values, a: Symbol, b: Symbol)
    requires IsSolution(c, vals) && a.Typed() && b.Typed()
    ensures var env := EnvOf(c.sys, vals);
      && (Eval(Compare(Equal, a, b), env) == YES <==> vals(a).tri == vals(b).tri)
      && (Eval(Compare(Less, a, b), env) == YES <==> vals(a).tri < vals(b).tri)
      && (Eval(Compare(LessEq, a, b), env) == YES <==> vals(a).tri <= vals(b).tri)
  {
    PrintedAsIs(c, vals, a);
    PrintedAsIs(c, vals, b);
    StringsOfTristates(c.sys.num, a.Type(), vals(a).tri, b.Type(), vals(b).tri);
    hide CompareStrings, TriString, Step, StringAs;
  }

  /** Without modules nothing is m that could be printed as n. */
  lemma PrintedAsIs(c: Config, vals: Values, s: Symbol)
    requires IsSolution(c, vals) && s.Typed()
    ensures StringAs(c.sys.modules, s, vals(s)) == TriString(vals(s).tri)
  {
    assert vals(s) == Step(c, s, vals);
    hide VisibleOf, RevDepOf, ImpliedOf, DefaultTri, EnvOf, IsSolution;
  }

  lemma StringsOfTristates(num: NumberParser, a: SymType, t: Tristate, b: SymType, u: Tristate)
    requires (a == Boolean || a == Tri) && (b == Boolean || b == Tri)
    ensures CompareStrings(num, a, TriString(t), b, TriString(u)) == Sign(t, u)
  {
  }

  /** But against the letters y, m and n by the alphabet: what is m is less than n. */
  lemma LettersByAlphabet(c: Config, vals: Values, a: Symbol)
    requires IsSolution(c, vals) && a.Typed() && LettersAreText(c.sys.num) && c.sys.modules != NO
    ensures Eval(Compare(Less, a, SymNo), EnvOf(c.sys, vals)) == YES <==> vals(a).tri == MOD
  {
    assert vals(a) == Step(c, a, vals) && vals(SymNo) == Step(c, SymNo, vals);
    assert ParseString(c.sys.num, SymNo.Type(), "n").Text?;
    OneLetter('m', 'n');
    OneLetter('y', 'n');
    OneLetter('n', 'n');
  }

  lemma OneLetter(a: char, b: char)
    ensures StrCmp([a], [b]) == Sign(a as int, b as int)
  {
    assert [a][1..] == [] && [b][1..] == [];
  }

  /** n is the number read, seen without a sign in a word of 64 bits. */
  predicate InWord(p: Parsed, n: int) {
    match p
    case Text => false
    case Unsigned(u) => n == u
    case Signed(i) => n == i >= 0 || (i < 0 && n == i + 0x1_0000_0000_0000_0000)
  }

  /** Int, hex and string symbols are compared as numbers where both texts are read as numbers
      and not both symbols are strings, and as texts otherwise. */
  lemma TextsCompared(c: Config, vals: Values, a: Symbol, b: Symbol)
    requires IsSolution(c, vals) && IsStringType(a.Type()) && IsStringType(b.Type())
    ensures var env, p, q := EnvOf(c.sys, vals), c.sys.num(a.Type(), vals(a).val), c.sys.num(b.Type(), vals(b).val);
      var less, equal := Eval(Compare(Less, a, b), env) == YES, Eval(Compare(Equal, a, b), env) == YES;
      if (a.Type() == b.Type() == String) || p.Text? || q.Text? then (less <==> Precedes(vals(a).val, vals(b).val)) && (equal <==> vals(a).val == vals(b).val)
      else if p.Signed? && q.Signed? then (less <==> p.s < q.s) && (equal <==> p.s == q.s)
      else forall m: int, n: int :: InWord(p, m) && InWord(q, n) ==> (less <==> m < n) && (equal <==> m == n)
  {
    StrCmpExact(vals(a).val, vals(b).val);
    StrCmpZero(vals(a).val, vals(b).val);
    hide StrCmp, Precedes;
  }
}
