/** What a configuration file says, by its lines: which values the user has then, which member
    of a choice is picked, how strong a choice is and whether it counts as set. */
module Reading {
  import opened Exprs
  import opened Symbols
  import opened ConfLines
  import opened SymEval
  import opened Persistence

  datatype Setting = Setting(s: Symbol, v: Value)

  /** The value that a line gives to a symbol, if it gives any. */
  function SettingOf(prefix: string, find: string -> Option<Symbol>, line: string): Option<Setting> {
    var parsed := ParseLine(prefix, line);
    if parsed.Ignored? || find(parsed.name).None? then None
    else
      var s := find(parsed.name).value;
      var v := LineValue(s.Type(), parsed);
      if v.Some? then Some(Setting(s, v.value)) else None
  }

  /** The settings of the lines that have one, in order. */
  function Settings(prefix: string, find: string -> Option<Symbol>, lines: seq<string>): (r: seq<Option<Setting>>)
    ensures |r| == |lines|
  {
    seq(|lines|, i requires 0 <= i < |lines| => SettingOf(prefix, find, lines[i]))
  }

  /** The values of choices belong to choices and are none themselves. */
  ghost predicate Grouped(g: Groups) {
    forall s <- g.memberOf.Keys :: g.memberOf[s] in g.choices && s !in g.choices
  }

  /* ----- what lines do ----- */

  /** Gives s a value. */
  predicate Gives(x: Option<Setting>, s: Symbol) {
    x.Some? && x.value.s == s
  }

  /** Gives a value of the choice c the value t. */
  predicate GivesMember(g: Groups, x: Option<Setting>, c: Symbol, t: Tristate) {
    x.Some? && x.value.s in g.memberOf && g.memberOf[x.value.s] == c && x.value.v.tri == t
  }

  /** Raises the choice c to t, directly or through one of its values. */
  predicate RaisesChoice(g: Groups, x: Option<Setting>, c: Symbol, t: Tristate) {
    x.Some? && x.value.v.tri >= t && (x.value.s == c || (x.value.s in g.memberOf && g.memberOf[x.value.s] == c))
  }

  /** The last line with this property. */
  ghost predicate LastGiving(xs: seq<Option<Setting>>, s: Symbol, k: nat) {
    k < |xs| && Gives(xs[k], s) && forall j :: k < j < |xs| ==> !Gives(xs[j], s)
  }

  ghost predicate LastPicking(g: Groups, xs: seq<Option<Setting>>, c: Symbol, k: nat) {
    k < |xs| && GivesMember(g, xs[k], c, YES) && forall j :: k < j < |xs| ==> !GivesMember(g, xs[j], c, YES)
  }

  /** From line k on the choice is not given a value directly any more. */
  ghost predicate NotGivenAfter(xs: seq<Option<Setting>>, c: Symbol, k: nat) {
    forall j :: k < j < |xs| ==> !Gives(xs[j], c)
  }

  /** A line has raised the choice to t, and it has not been given another value since. */
  ghost predicate ReachedBy(g: Groups, xs: seq<Option<Setting>>, c: Symbol, t: Tristate) {
    exists k: nat :: k < |xs| && RaisesChoice(g, xs[k], c, t) && NotGivenAfter(xs, c, k)
  }

  /** Line k puts a value at m while the choice is at y. */
  ghost predicate Spoils(g: Groups, xs: seq<Option<Setting>>, c: Symbol, k: nat) {
    k < |xs| && GivesMember(g, xs[k], c, MOD) && ReachedBy(g, xs[..k], c, YES)
  }

  /* ----- the main result ----- */

  /** What the input holds after lines with these settings. */
  ghost predicate Reads(g: Groups, xs: seq<Option<Setting>>, i: Input) {
    && (forall s: Symbol :: s !in g.choices ==> ValueRead(xs, i, s))
    && (forall c <- g.choices :: ChoiceRead(g, xs, i, c))
  }

  /** A symbol that is no choice has the value of the last line for it, if there is one. */
  ghost predicate ValueRead(xs: seq<Option<Setting>>, i: Input, s: Symbol) {
    && (s in i.user <==> exists k: nat :: LastGiving(xs, s, k))
    && (forall k: nat :: LastGiving(xs, s, k) ==> i.user[s] == xs[k].value.v)
    && s !in i.stored && s !in i.picked
  }

  /** Of a choice the member of the last line that sets one to y is picked. The choice is as
      strong as the strongest line for it or a member, since it was last set directly. It counts
      as set unless a line put a member at m while it was at y, and it was not set directly
      since. */
  ghost predicate ChoiceRead(g: Groups, xs: seq<Option<Setting>>, i: Input, c: Symbol) {
    && (c in i.picked <==> exists k: nat :: LastPicking(g, xs, c, k))
    && (forall k: nat :: LastPicking(g, xs, c, k) ==> i.picked[c] == xs[k].value.s)
    && (forall t: Tristate :: t != NO ==> (TriIn(i, c) >= t <==> ReachedBy(g, xs, c, t)))
    && (c in i.user <==> forall k: nat :: Spoils(g, xs, c, k) ==> !NotGivenAfter(xs, c, k))
  }

  lemma NothingRead(g: Groups)
    ensures Reads(g, [], StartInput(g))
  {
  }

  /* ----- one more line ----- */

  lemma GivingMore(xs: seq<Option<Setting>>, x: Option<Setting>, s: Symbol)
    ensures forall k: nat :: LastGiving(xs + [x], s, k) <==> if Gives(x, s) then k == |xs| else LastGiving(xs, s, k)
    ensures forall k: nat :: k < |xs| ==> (NotGivenAfter(xs + [x], s, k) <==> !Gives(x, s) && NotGivenAfter(xs, s, k))
    ensures NotGivenAfter(xs + [x], s, |xs|)
  {
    var ys := xs + [x];
    assert forall j :: 0 <= j < |xs| ==> ys[j] == xs[j];
    assert ys[|xs|] == x;
    hide Gives;
    forall k: nat | k < |xs|
      ensures NotGivenAfter(ys, s, k) <==> !Gives(x, s) && NotGivenAfter(xs, s, k)
    {
      if NotGivenAfter(ys, s, k) {
        assert !Gives(ys[|xs|], s);
        assert forall j :: k < j < |xs| ==> !Gives(ys[j], s);
      }
    }
  }

  lemma PickingMore(g: Groups, xs: seq<Option<Setting>>, x: Option<Setting>, c: Symbol)
    ensures forall k: nat :: LastPicking(g, xs + [x], c, k) <==> if GivesMember(g, x, c, YES) then k == |xs| else LastPicking(g, xs, c, k)
  {
    var ys := xs + [x];
    assert forall j :: 0 <= j < |xs| ==> ys[j] == xs[j];
    assert ys[|xs|] == x;
    hide GivesMember;
  }

  lemma ReachedMore(g: Groups, xs: seq<Option<Setting>>, x: Option<Setting>, c: Symbol, t: Tristate)
    ensures ReachedBy(g, xs + [x], c, t) <==> RaisesChoice(g, x, c, t) || (!Gives(x, c) && ReachedBy(g, xs, c, t))
  {
    var ys := xs + [x];
    GivingMore(xs, x, c);
    assert ys[|xs|] == x;
    hide RaisesChoice, Gives, NotGivenAfter;
    if RaisesChoice(g, x, c, t) {
      assert RaisesChoice(g, ys[|xs|], c, t);
    } else if !Gives(x, c) && ReachedBy(g, xs, c, t) {
      var k: nat :| k < |xs| && RaisesChoice(g, xs[k], c, t) && NotGivenAfter(xs, c, k);
      assert ys[k] == xs[k];
    }
    if ReachedBy(g, ys, c, t) {
      var k: nat :| k < |ys| && RaisesChoice(g, ys[k], c, t) && NotGivenAfter(ys, c, k);
      if k < |xs| {
        assert ys[k] == xs[k];
      }
    }
  }

  /** No line spoils the choice after which it was not set again. */
  ghost predicate Unspoilt(g: Groups, xs: seq<Option<Setting>>, c: Symbol) {
    forall k: nat :: Spoils(g, xs, c, k) ==> !NotGivenAfter(xs, c, k)
  }

  lemma SpoiltMore(g: Groups, xs: seq<Option<Setting>>, x: Option<Setting>, c: Symbol)
    requires Grouped(g) && c in g.choices
    ensures Unspoilt(g, xs + [x], c) <==>
      Gives(x, c) || (Unspoilt(g, xs, c) && !(GivesMember(g, x, c, MOD) && ReachedBy(g, xs, c, YES)))
  {
    var ys := xs + [x];
    GivingMore(xs, x, c);
    assert ys[|xs|] == x && ys[..|xs|] == xs;
    assert Gives(x, c) ==> !GivesMember(g, x, c, MOD);
    assert Spoils(g, ys, c, |xs|) <==> GivesMember(g, x, c, MOD) && ReachedBy(g, xs, c, YES);
    forall k: nat | k < |xs|
      ensures Spoils(g, ys, c, k) <==> Spoils(g, xs, c, k)
    {
      assert ys[k] == xs[k] && ys[..k] == xs[..k];
    }
    hide ReachedBy, Gives, GivesMember, NotGivenAfter, Grouped;
    assert forall k: nat :: Spoils(g, xs, c, k) ==> k < |xs|;
    assert forall k: nat :: Spoils(g, ys, c, k) ==> k <= |xs|;
  }

  /** What a line with a setting does to the input. */
  function After(g: Groups, i: Input, x: Setting): Input {
    UpdateChoice(i.(user := i.user[x.s := x.v]), g, x.s)
  }

  lemma ValueMore(g: Groups, xs: seq<Option<Setting>>, i: Input, x: Setting, s: Symbol)
    requires Grouped(g) && s !in g.choices && ValueRead(xs, i, s)
    ensures ValueRead(xs + [Some(x)], After(g, i, x), s)
  {
    GivingMore(xs, Some(x), s);
    var ys, i' := xs + [Some(x)], After(g, i, x);
    assert ys[|xs|] == Some(x);
    assert s in i'.user <==> x.s == s || s in i.user;
    assert s in i'.user ==> i'.user[s] == if x.s == s then x.v else i.user[s];
    assert s !in i'.stored && s !in i'.picked;
    assert forall k: nat :: LastGiving(xs, s, k) ==> ys[k] == xs[k];
    hide UpdateChoice, After, Grouped;
    hide LastGiving;
    assert Gives(Some(x), s) ==> LastGiving(ys, s, |xs|);
  }

  lemma ChoiceMore(g: Groups, xs: seq<Option<Setting>>, i: Input, x: Setting, c: Symbol)
    requires Grouped(g) && c in g.choices && ChoiceRead(g, xs, i, c)
    ensures ChoiceRead(g, xs + [Some(x)], After(g, i, x), c)
  {
    ChoiceParts(g, xs, i, c);
    ChoiceAfter(g, i, x, c);
    hide *;
    PickedMore(g, xs, i, After(g, i, x), Some(x), c);
    LevelMore(g, xs, i, After(g, i, x), Some(x), c);
    SpoiltMore(g, xs, Some(x), c);
    GivenParts(g, x, c);
    ChoiceParts(g, xs + [Some(x)], After(g, i, x), c);
  }

  lemma GivenParts(g: Groups, x: Setting, c: Symbol)
    ensures Gives(Some(x), c) <==> x.s == c
    ensures forall t: Tristate :: GivesMember(g, Some(x), c, t) <==> x.s in g.memberOf && g.memberOf[x.s] == c && x.v.tri == t
  {
  }

  ghost predicate PickedRight(g: Groups, xs: seq<Option<Setting>>, i: Input, c: Symbol) {
    && (c in i.picked <==> exists k: nat :: LastPicking(g, xs, c, k))
    && (forall k: nat :: LastPicking(g, xs, c, k) ==> i.picked[c] == xs[k].value.s)
  }

  ghost predicate LevelRight(g: Groups, xs: seq<Option<Setting>>, i: Input, c: Symbol) {
    forall t: Tristate :: t != NO ==> (TriIn(i, c) >= t <==> ReachedBy(g, xs, c, t))
  }

  lemma ChoiceParts(g: Groups, xs: seq<Option<Setting>>, i: Input, c: Symbol)
    ensures ChoiceRead(g, xs, i, c) <==> PickedRight(g, xs, i, c) && LevelRight(g, xs, i, c) && (c in i.user <==> Unspoilt(g, xs, c))
    ensures LevelRight(g, xs, i, c) ==> (TriIn(i, c) == YES <==> ReachedBy(g, xs, c, YES))
  {
    hide LastPicking, ReachedBy, Spoils, NotGivenAfter, TriIn;
  }

  lemma PickedMore(g: Groups, xs: seq<Option<Setting>>, i: Input, i': Input, x: Option<Setting>, c: Symbol)
    requires PickedRight(g, xs, i, c)
    requires c in i'.picked <==> GivesMember(g, x, c, YES) || c in i.picked
    requires c in i'.picked ==> i'.picked[c] == if GivesMember(g, x, c, YES) then x.value.s else i.picked[c]
    ensures PickedRight(g, xs + [x], i', c)
  {
    var ys := xs + [x];
    PickingMore(g, xs, x, c);
    LastWithin(g, xs, c);
    assert ys[|xs|] == x && forall k: nat :: k < |xs| ==> ys[k] == xs[k];
    hide LastPicking, GivesMember;
    assert GivesMember(g, x, c, YES) ==> LastPicking(g, ys, c, |xs|);
  }

  lemma LevelMore(g: Groups, xs: seq<Option<Setting>>, i: Input, i': Input, x: Option<Setting>, c: Symbol)
    requires LevelRight(g, xs, i, c)
    requires TriIn(i', c) ==
      if Gives(x, c) then x.value.v.tri
      else if x.Some? && x.value.s in g.memberOf && g.memberOf[x.value.s] == c then Max(TriIn(i, c), x.value.v.tri) else TriIn(i, c)
    ensures LevelRight(g, xs + [x], i', c)
  {
    forall t: Tristate | t != NO
      ensures TriIn(i', c) >= t <==> ReachedBy(g, xs + [x], c, t)
    {
      ReachedMore(g, xs, x, c, t);
      hide ReachedBy, TriIn;
    }
  }

  /** What it does to a choice. */
  lemma ChoiceAfter(g: Groups, i: Input, x: Setting, c: Symbol)
    requires Grouped(g) && c in g.choices
    ensures var i', member := After(g, i, x), x.s in g.memberOf && g.memberOf[x.s] == c;
      && TriIn(i', c) == (if x.s == c then x.v.tri else if member then Max(TriIn(i, c), x.v.tri) else TriIn(i, c))
      && (c in i'.user <==> x.s == c || (c in i.user && !(member && x.v.tri == MOD && TriIn(i, c) == YES)))
      && (c in i'.picked <==> (member && x.v.tri == YES) || c in i.picked)
      && (c in i'.picked ==> i'.picked[c] == if member && x.v.tri == YES then x.s else i.picked[c])
  {
  }

  /** A line that gives nothing changes nothing of what is read. */
  lemma NothingMore(g: Groups, xs: seq<Option<Setting>>, i: Input, i': Input)
    requires Reads(g, xs, i)
    requires forall s: Symbol :: s !in g.choices ==>
      (s in i'.user <==> s in i.user) && (s in i.user ==> i'.user[s] == i.user[s]) && (s in i'.stored <==> s in i.stored)
    requires forall c <- g.choices :: TriIn(i', c) == TriIn(i, c) && (c in i'.user <==> c in i.user)
    requires i'.picked == i.picked && Grouped(g)
    ensures Reads(g, xs + [None], i')
  {
    hide ValueRead, ChoiceRead, TriIn, Grouped;
    forall s: Symbol | s !in g.choices
      ensures ValueRead(xs + [None], i', s)
    {
      NoValueMore(xs, i, i', s);
    }
    forall c <- g.choices
      ensures ChoiceRead(g, xs + [None], i', c)
    {
      NoChoiceMore(g, xs, i, i', c);
    }
  }

  lemma NoValueMore(xs: seq<Option<Setting>>, i: Input, i': Input, s: Symbol)
    requires ValueRead(xs, i, s) && i'.picked == i.picked
    requires (s in i'.user <==> s in i.user) && (s in i.user ==> i'.user[s] == i.user[s]) && (s in i'.stored <==> s in i.stored)
    ensures ValueRead(xs + [None], i', s)
  {
    var ys := xs + [None];
    GivingMore(xs, None, s);
    assert forall k: nat :: LastGiving(xs, s, k) ==> ys[k] == xs[k];
    assert !Gives(None, s);
    hide LastGiving;
  }

  lemma NoChoiceMore(g: Groups, xs: seq<Option<Setting>>, i: Input, i': Input, c: Symbol)
    requires Grouped(g) && c in g.choices && ChoiceRead(g, xs, i, c)
    requires TriIn(i', c) == TriIn(i, c) && (c in i'.user <==> c in i.user) && i'.picked == i.picked
    ensures ChoiceRead(g, xs + [None], i', c)
  {
    ChoiceParts(g, xs, i, c);
    assert !Gives(None, c) && forall t: Tristate :: !GivesMember(g, None, c, t);
    hide *;
    PickedMore(g, xs, i, i', None, c);
    LevelMore(g, xs, i, i', None, c);
    SpoiltMore(g, xs, None, c);
    ChoiceParts(g, xs + [None], i', c);
  }

  lemma LastWithin(g: Groups, xs: seq<Option<Setting>>, s: Symbol)
    ensures forall k: nat :: LastGiving(xs, s, k) || LastPicking(g, xs, s, k) ==> k < |xs|
  {
  }

  /** A line gives nothing but n to a symbol without three values. */
  lemma UntypedGiven(prefix: string, find: string -> Option<Symbol>, line: string)
    ensures var x := SettingOf(prefix, find, line); x.Some? && !x.value.s.Typed() ==> x.value.v.tri == NO
  {
    hide ParseLine, Unquote, StringValid;
  }

  lemma LineRead(prefix: string, find: string -> Option<Symbol>, g: Groups, xs: seq<Option<Setting>>, i: Input, line: string)
    requires Grouped(g) && Reads(g, xs, i)
    requires forall x <- xs :: x.Some? && !x.value.s.Typed() ==> x.value.v.tri == NO
    ensures Reads(g, xs + [SettingOf(prefix, find, line)], ApplyLine(prefix, find, g, i, line))
  {
    var x := SettingOf(prefix, find, line);
    if x.Some? {
      assert ApplyLine(prefix, find, g, i, line) == After(g, i, x.value) by {
        hide ParseLine, LineValue, UpdateChoice;
      }
      hide ValueRead, ChoiceRead, ApplyLine, SettingOf, After, Grouped;
      forall s: Symbol | s !in g.choices
        ensures ValueRead(xs + [x], After(g, i, x.value), s)
      {
        ValueMore(g, xs, i, x.value, s);
      }
      forall c <- g.choices
        ensures ChoiceRead(g, xs + [x], After(g, i, x.value), c)
      {
        ChoiceMore(g, xs, i, x.value, c);
      }
    } else {
      NoSetting(prefix, find, g, xs, i, line);
    }
  }

  lemma NoSetting(prefix: string, find: string -> Option<Symbol>, g: Groups, xs: seq<Option<Setting>>, i: Input, line: string)
    requires Grouped(g) && Reads(g, xs, i) && SettingOf(prefix, find, line).None?
    requires forall x <- xs :: x.Some? && !x.value.s.Typed() ==> x.value.v.tri == NO
    ensures Reads(g, xs + [None], ApplyLine(prefix, find, g, i, line))
  {
    var i' := ApplyLine(prefix, find, g, i, line);
    if i' != i {
      var s := SkippedSymbol(prefix, find, g, i, line);
      if s in g.memberOf {
        UntypedIsNo(g, xs, i, s);
        StaysAt(g, i, s);
      }
    }
    hide Reads, ApplyLine, SettingOf, UpdateChoice;
    NothingMore(g, xs, i, i');
  }

  /** The only lines without a setting that do anything are for a symbol without three values. */
  lemma SkippedSymbol(prefix: string, find: string -> Option<Symbol>, g: Groups, i: Input, line: string) returns (s: Symbol)
    requires SettingOf(prefix, find, line).None? && ApplyLine(prefix, find, g, i, line) != i
    ensures !s.Typed() && s in g.memberOf && ApplyLine(prefix, find, g, i, line) == UpdateChoice(i, g, s)
  {
    hide ParseLine, Unquote, StringValid;
    s := find(ParseLine(prefix, line).name).value;
  }

  lemma UntypedIsNo(g: Groups, xs: seq<Option<Setting>>, i: Input, s: Symbol)
    requires Grouped(g) && Reads(g, xs, i) && s in g.memberOf && !s.Typed()
    requires forall x <- xs :: x.Some? && !x.value.s.Typed() ==> x.value.v.tri == NO
    ensures TriIn(i, s) == NO
  {
    assert s !in g.choices && ValueRead(xs, i, s);
    if s in i.user {
      var k: nat :| LastGiving(xs, s, k);
      assert xs[k] in xs;
    }
  }

  lemma StaysAt(g: Groups, i: Input, s: Symbol)
    requires Grouped(g) && s in g.memberOf && TriIn(i, s) == NO
    ensures var i' := UpdateChoice(i, g, s);
      && i'.picked == i.picked
      && (forall u: Symbol :: u !in g.choices ==>
            (u in i'.user <==> u in i.user) && (u in i.user ==> i'.user[u] == i.user[u]) && (u in i'.stored <==> u in i.stored))
      && forall c <- g.choices :: TriIn(i', c) == TriIn(i, c) && (c in i'.user <==> c in i.user)
  {
  }

  /** Reading a file gives exactly what its lines say. */
  lemma {:induction false} ReadLinesExact(prefix: string, find: string -> Option<Symbol>, g: Groups, lines: seq<string>)
    requires Grouped(g)
    ensures Reads(g, Settings(prefix, find, lines), ReadLines(prefix, find, g, lines))
  {
    hide ApplyLine, SettingOf, Reads;
    if lines == [] {
      NothingRead(g);
      assert Settings(prefix, find, lines) == [];
    } else {
      var before, last := lines[..|lines| - 1], lines[|lines| - 1];
      ReadLinesExact(prefix, find, g, before);
      var xs, x := Settings(prefix, find, before), SettingOf(prefix, find, last);
      assert Settings(prefix, find, lines) == xs + [x];
      forall x <- xs
        ensures x.Some? && !x.value.s.Typed() ==> x.value.v.tri == NO
      {
        var k: nat :| k < |xs| && xs[k] == x;
        UntypedGiven(prefix, find, before[k]);
      }
      LineRead(prefix, find, g, xs, ReadLines(prefix, find, g, before), last);
    }
  }

  /** Of the text for a bool or tristate symbol only the first letter counts: it must be y or n,
      or m for a tristate. */
  lemma FirstLetter(ty: SymType, text: string, t: Tristate)
    requires ty == Boolean || ty == Tri
    ensures ReadValue(ty, text) == Some(Value("", t)) <==>
      text != [] && (t == MOD ==> ty == Tri) && text[0] == (if t == NO then 'n' else if t == MOD then 'm' else 'y')
    ensures ReadValue(ty, text).None? <==> text == [] || (text[0] != 'y' && text[0] != 'n' && (text[0] != 'm' || ty == Boolean))
  {
  }

  /* ----- single lines ----- */

  predicate AssignedLine(prefix: string, line: string, name: string, rest: string) {
    (line == [] || line[0] != '#') && '=' !in name && line == prefix + (name + ['='] + rest)
  }

  /** A line assigns text to name just when it is the prefix, a name without =, = and the text
      up to the end of the line. */
  lemma AssignedExact(prefix: string, line: string, name: string, text: string)
    ensures ParseLine(prefix, line) == Assigned(name, text) <==>
      exists rest: string :: AssignedLine(prefix, line, name, rest) && text == CutEnd(rest)
  {
    hide ParseLine, AssignedLine, CutEnd;
    if ParseLine(prefix, line) == Assigned(name, text) {
      var rest := AssignedForm(prefix, line, name, text);
    }
    if rest: string :| AssignedLine(prefix, line, name, rest) && text == CutEnd(rest) {
      AssignedFormRead(prefix, line, name, rest);
    }
  }

  lemma AssignedForm(prefix: string, line: string, name: string, text: string) returns (rest: string)
    requires ParseLine(prefix, line) == Assigned(name, text)
    ensures AssignedLine(prefix, line, name, rest) && text == CutEnd(rest)
  {
    hide CutEnd, IndexOf;
    var body := line[|prefix|..];
    var i := IndexOf(body, '=');
    rest := body[i + 1..];
    assert line == prefix + body && body == name + ['='] + rest;
    assert '=' !in name by {
      forall k | 0 <= k < |name|
        ensures name[k] != '='
      {
        assert body[k] == name[k];
      }
    }
  }

  lemma AssignedFormRead(prefix: string, line: string, name: string, rest: string)
    requires AssignedLine(prefix, line, name, rest)
    ensures ParseLine(prefix, line) == Assigned(name, CutEnd(rest))
  {
    hide CutEnd, IndexOf;
    var body := name + ['='] + rest;
    assert line[|prefix|..] == body && line[..|prefix|] == prefix;
    IndexOfAppend(name, '=', rest);
    assert body[..|name|] == name && body[|name| + 1..] == rest;
  }

  predicate NotSetLine(prefix: string, line: string, name: string, ch: char, rest: string) {
    ' ' !in name && line == ['#', ch] + (prefix + (name + [' '] + ("is not set" + rest)))
  }

  /** A line says that name is not set just when it is #, any character, the prefix, a name
      without a space, and " is not set" with anything behind. */
  lemma NotSetExact(prefix: string, line: string, name: string)
    ensures ParseLine(prefix, line) == NotSet(name) <==> exists ch: char, rest: string :: NotSetLine(prefix, line, name, ch, rest)
  {
    hide ParseLine, NotSetLine;
    if ParseLine(prefix, line) == NotSet(name) {
      var ch, rest := NotSetForm(prefix, line, name);
    }
    if ch: char, rest: string :| NotSetLine(prefix, line, name, ch, rest) {
      NotSetFormRead(prefix, line, name, ch, rest);
    }
  }

  lemma NotSetForm(prefix: string, line: string, name: string) returns (ch: char, rest: string)
    requires ParseLine(prefix, line) == NotSet(name)
    ensures NotSetLine(prefix, line, name, ch, rest)
  {
    hide IndexOf;
    var body := line[2 + |prefix|..];
    var i := IndexOf(body, ' ');
    var tail := body[i + 1..];
    ch, rest := line[1], tail[|NOT_SET|..];
    assert tail == "is not set" + rest && body == name + [' '] + tail;
    assert line[2..] == prefix + body && line == ['#', ch] + line[2..];
    assert ' ' !in name by {
      forall k | 0 <= k < |name|
        ensures name[k] != ' '
      {
        assert body[k] == name[k];
      }
    }
  }

  lemma NotSetFormRead(prefix: string, line: string, name: string, ch: char, rest: string)
    requires NotSetLine(prefix, line, name, ch, rest)
    ensures ParseLine(prefix, line) == NotSet(name)
  {
    hide IndexOf;
    var tail := "is not set" + rest;
    var body := name + [' '] + tail;
    assert line[2..] == prefix + body && line[2..][..|prefix|] == prefix && line[2 + |prefix|..] == body;
    IndexOfAppend(name, ' ', tail);
    assert body[..|name|] == name && body[|name| + 1..] == tail && tail[..|NOT_SET|] == NOT_SET;
  }

  /** The text ends before the first line break, and before a carriage return in front of it. */
  lemma CutExact(text: string, rest: string)
    requires '\n' !in text
    ensures CutEnd(text) == text
    ensures CutEnd(text + ['\n'] + rest) == if text != [] && text[|text| - 1] == '\r' then text[..|text| - 1] else text
  {
    IndexOfAppend(text, '\n', rest);
    var line := text + ['\n'] + rest;
    assert line[..|text|] == text;
    if text != [] {
      assert line[|text| - 1] == text[|text| - 1] && line[..|text| - 1] == text[..|text| - 1];
    }
    assert IndexOf(text, '\n') == |text|;
    assert text[..|text|] == text;
  }

  /* ----- quoted text ----- */

  /** A character as it stands, or with a backslash before it. */
  datatype Piece = Piece(escaped: bool, ch: char)

  function Spelled(ps: seq<Piece>): string {
    if ps == [] then [] else (if ps[0].escaped then ['\\', ps[0].ch] else [ps[0].ch]) + Spelled(ps[1..])
  }

  function Meant(ps: seq<Piece>): string {
    if ps == [] then [] else [ps[0].ch] + Meant(ps[1..])
  }

  /** Quotes and backslashes need a backslash; any other character may have one. */
  predicate WellSpelled(ps: seq<Piece>) {
    forall p <- ps :: !p.escaped ==> p.ch != '"' && p.ch != '\\'
  }

  ghost predicate QuotedAs(s: string, t: string, ps: seq<Piece>, rest: string) {
    WellSpelled(ps) && s == Spelled(ps) + ['"'] + rest && t == Meant(ps)
  }

  /** The text read from behind a quote is what is spelled up to the next quote that has no
      backslash before it; a backslash stands for nothing, whatever follows it. */
  lemma UnquoteExact(s: string, t: string)
    ensures Unquote(s) == Some(t) <==> exists ps: seq<Piece>, rest: string :: QuotedAs(s, t, ps, rest)
  {
    hide Unquote, QuotedAs;
    if Unquote(s) == Some(t) {
      var ps, rest := SpelledBy(s, t);
    }
    if ps: seq<Piece>, rest: string :| QuotedAs(s, t, ps, rest) {
      SpelledRead(s, t, ps, rest);
    }
  }

  lemma {:induction false} SpelledBy(s: string, t: string) returns (ps: seq<Piece>, rest: string)
    requires Unquote(s) == Some(t)
    ensures QuotedAs(s, t, ps, rest)
    decreases s
  {
    if s[0] == '"' {
      ps, rest := [], s[1..];
      assert s == [] + ['"'] + rest;
    } else {
      var n := if s[0] == '\\' then 2 else 1;
      var p := Piece(n == 2, s[n - 1]);
      var qs;
      qs, rest := SpelledBy(s[n..], t[1..]);
      ps := [p] + qs;
      assert ps[1..] == qs && ps[0] == p;
      assert s == s[..n] + s[n..] && t == [p.ch] + t[1..];
      assert s[..n] == if p.escaped then ['\\', p.ch] else [p.ch];
    }
  }

  lemma {:induction false} SpelledRead(s: string, t: string, ps: seq<Piece>, rest: string)
    requires QuotedAs(s, t, ps, rest)
    ensures Unquote(s) == Some(t)
    decreases ps
  {
    if ps == [] {
      assert s == ['"'] + rest;
    } else {
      var n := if ps[0].escaped then 2 else 1;
      var tail := Spelled(ps[1..]) + ['"'] + rest;
      assert s[n..] == tail && s[n - 1] == ps[0].ch;
      SpelledRead(tail, Meant(ps[1..]), ps[1..], rest);
    }
  }
}
