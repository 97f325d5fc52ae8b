/** Writing a minimal configuration file and reading one, line by line. */
module Persistence {
  import opened Exprs
  import opened Symbols
  import opened ConfLines
  import opened SymEval
  import opened Saving

  /* ----- reading ----- */

  /** What is read: the user's values, values stored for symbols that do not count as set
      by the user, and the values that the user picked of choices. */
  datatype Input = Input(user: map<Symbol, Value>, stored: map<Symbol, Value>, picked: map<Symbol, Symbol>)

  /** Which symbols are choices, and the choice of each value of one. */
  datatype Groups = Groups(choices: set<Symbol>, memberOf: map<Symbol, Symbol>)

  /** Before the first line every choice counts as set by the user, to n. */
  function StartInput(g: Groups): Input {
    Input(map c | c in g.choices :: Value("", NO), map[], map[])
  }

  /** The tristate of a symbol's value, whether or not it counts as set by the user. */
  function TriIn(i: Input, s: Symbol): Tristate {
    if s in i.user then i.user[s].tri else if s in i.stored then i.stored[s].tri else NO
  }

  /** After a line for s: if it is a value of a choice, the choice is at least at its
      value and, at y, has it picked. A value at m in a choice at y makes the choice not
      count as set. */
  function UpdateChoice(i: Input, g: Groups, s: Symbol): Input {
    if s !in g.memberOf then i
    else
      var c, t := g.memberOf[s], TriIn(i, s);
      var now := Value("", Max(TriIn(i, c), t));
      if (t == MOD && TriIn(i, c) == YES) || c !in i.user then Input(i.user - {c}, i.stored[c := now], if t == YES then i.picked[c := s] else i.picked)
      else Input(i.user[c := now], i.stored, if t == YES then i.picked[c := s] else i.picked)
  }

  /** What a line does: nothing if its name is unknown or its text is not a value of its
      symbol, and no value is set by a string without quotes. */
  function ApplyLine(prefix: string, find: string -> Option<Symbol>, g: Groups, i: Input, line: string): Input {
    var parsed := ParseLine(prefix, line);
    if parsed.Ignored? || find(parsed.name).None? then i
    else
      var s := find(parsed.name).value;
      var v := LineValue(s.Type(), parsed);
      if v.Some? then UpdateChoice(i.(user := i.user[s := v.value]), g, s)
      else if parsed.Assigned? && Malformed(s.Type(), parsed.text) then i
      else UpdateChoice(i, g, s)
  }

  /** Text for which the source reports an error and skips the line. */
  predicate Malformed(ty: SymType, text: string) {
    ReadValue(ty, text).None? && ty != Unknown && !(ty == String && (text == [] || text[0] != '"'))
  }

  /** The input after reading a file: later lines win. */
  function ReadLines(prefix: string, find: string -> Option<Symbol>, g: Groups, lines: seq<string>): Input {
    if lines == [] then StartInput(g)
    else ApplyLine(prefix, find, g, ReadLines(prefix, find, g, lines[..|lines| - 1]), lines[|lines| - 1])
  }

  /** Reading a file forgets the user's values and applies its lines in order. */
  method ReadSimple(ev: Evaluator, prefix: string, find: string -> Option<Symbol>, lines: seq<string>)
    modifies ev`user, ev`stored, ev`picked, ev`valid
    ensures Input(ev.user, ev.stored, ev.picked) == ReadLines(prefix, find, Groups(ev.choices.Keys, ev.memberOf), lines)
    ensures ev.valid == {}
  {
    hide ParseLine, LineValue, ReadValue, Malformed, UpdateChoice;
    ghost var g := Groups(ev.choices.Keys, ev.memberOf);
    ev.user := map c | c in ev.choices :: Value("", NO);
    ev.stored, ev.picked, ev.valid := map[], map[], {};
    var i := 0;
    while i < |lines|
      invariant i <= |lines| && ev.valid == {}
      invariant Input(ev.user, ev.stored, ev.picked) == ReadLines(prefix, find, g, lines[..i])
    {
      assert lines[..i + 1][..i] == lines[..i];
      ReadOne(ev, prefix, find, lines[i]);
      i := i + 1;
    }
    assert lines[..i] == lines;
  }

  method ReadOne(ev: Evaluator, prefix: string, find: string -> Option<Symbol>, line: string)
    modifies ev`user, ev`stored, ev`picked
    ensures Input(ev.user, ev.stored, ev.picked)
         == ApplyLine(prefix, find, Groups(ev.choices.Keys, ev.memberOf), old(Input(ev.user, ev.stored, ev.picked)), line)
  {
    hide ParseLine, ReadValue, UpdateChoice;
    var parsed := ParseLine(prefix, line);
    if parsed.Ignored? {
      return;
    }
    var sym := find(parsed.name);
    if sym.None? {
      return;
    }
    match parsed {
      case NotSet(_) =>
        if sym.value.Typed() {
          ev.user := ev.user[sym.value := Value("", NO)];
        }
      case Assigned(_, text) =>
        var v := ReadValue(sym.value.Type(), text);
        if v.Some? {
          ev.user := ev.user[sym.value := v.value];
        } else if sym.value.Type() != Unknown && !(sym.value.Type() == String && (text == [] || text[0] != '"')) {
          return;
        }
      case Ignored =>
    }
    SetChoice(ev, sym.value);
  }

  /** The effect of a line for s on the choice that s is a value of. */
  method SetChoice(ev: Evaluator, s: Symbol)
    modifies ev`user, ev`stored, ev`picked
    ensures Input(ev.user, ev.stored, ev.picked)
         == UpdateChoice(old(Input(ev.user, ev.stored, ev.picked)), Groups(ev.choices.Keys, ev.memberOf), s)
  {
    if s !in ev.memberOf {
      return;
    }
    var c := ev.memberOf[s];
    var t := if s in ev.user then ev.user[s].tri else if s in ev.stored then ev.stored[s].tri else NO;
    var was := if c in ev.user then ev.user[c].tri else if c in ev.stored then ev.stored[c].tri else NO;
    if t == YES {
      ev.picked := ev.picked[c := s];
    }
    if c in ev.user && !(t == MOD && was == YES) {
      ev.user := ev.user[c := Value("", Max(was, t))];
    } else {
      ev.user, ev.stored := ev.user - {c}, ev.stored[c := Value("", Max(was, t))];
    }
  }

  /** Without choices. */
  const UNGROUPED := Groups({}, map[])

  /* ----- writing the minimal configuration ----- */

  function LineOf(prefix: string, c: Config, vals: Values, s: Symbol): string {
    PrintLine(prefix, c.sys.names(s), s.Type(), StringValue(c.sys, s, vals(s)))
  }

  /** The lines for the symbols of the menu nodes in order; a symbol with several
      nodes is written at the first. */
  function SavedLines(prefix: string, c: Config, vals: Values, order: seq<Symbol>): seq<string> {
    if order == [] then []
    else
      var s, before := order[|order| - 1], order[..|order| - 1];
      SavedLines(prefix, c, vals, before)
      + (if s !in before && Saved(c, s, vals, {s}) then [LineOf(prefix, c, vals, s)] else [])
  }

  function Elements(order: seq<Symbol>): set<Symbol> {
    set s <- order
  }

  /** Names that lines can carry and that lead back to their symbol. */
  ghost predicate Findable(prefix: string, k: System, find: string -> Option<Symbol>, order: seq<Symbol>) {
    && (prefix != [] ==> prefix[0] != '#')
    && forall s <- order ::
      var name := k.names(s);
      PlainName(name) && find(name) == Some(s) && (prefix == [] ==> name == [] || name[0] != '#')
  }

  /** The user's values have the form in which they are accepted and stored. */
  ghost predicate UserPrintable(c: Config) {
    forall s <- c.user.Keys :: IsStringType(s.Type()) ==> Printable(s.Type(), c.user[s].val)
  }

  /** A saved value can be printed. */
  lemma SavedPrintable(c: Config, s: Symbol, vals: Values, nodes: set<Symbol>)
    requires IsSolution(c, vals) && UserPrintable(c) && Saved(c, s, vals, nodes)
    ensures Printable(s.Type(), StringValue(c.sys, s, vals(s)))
  {
    SavedWhenDeciding(c, s, vals, nodes);
    assert vals(s) == Step(c, s, vals);
    if s.Type() == Boolean {
      TristateShape(c.sys, s, EnvOf(c.sys, vals));
    }
  }

  /** Reading the line of a saved symbol adds the value that restoring it needs. */
  lemma LineApplied(prefix: string, find: string -> Option<Symbol>, c: Config, vals: Values, s: Symbol, input: Input)
    requires IsSolution(c, vals) && UserPrintable(c) && Findable(prefix, c.sys, find, [s]) && Saved(c, s, vals, {s})
    ensures ApplyLine(prefix, find, UNGROUPED, input, LineOf(prefix, c, vals, s))
         == input.(user := input.user[s := MeantValue(s.Type(), StringValue(c.sys, s, vals(s)))])
  {
    SavedPrintable(c, s, vals, {s});
    assert s in [s];
    hide IsSolution, UserPrintable, Printable, Saved, ParseLine, LineValue, PrintLine, MeantValue, StringValue, PlainName;
    LineRoundTrip(prefix, c.sys.names(s), s.Type(), StringValue(c.sys, s, vals(s)));
  }

  /** Restoring one more symbol adds its value if it is saved. */
  lemma RestoredStep(c: Config, vals: Values, before: seq<Symbol>, s: Symbol)
    ensures var was := Restored(c, vals, Elements(before)).user;
      Restored(c, vals, Elements(before + [s])).user ==
      if Saved(c, s, vals, {s}) then was[s := MeantValue(s.Type(), StringValue(c.sys, s, vals(s)))] else was
  {
    hide MeantValue, StringValue, Written, VisibleOf, RevDepOf, DefaultString, HasType;
    assert Elements(before + [s]) == Elements(before) + {s};
  }

  lemma NothingRestored(c: Config, vals: Values)
    ensures Restored(c, vals, Elements([])).user == map[]
  {
    assert Elements([]) == {};
  }

  lemma FindableParts(prefix: string, k: System, find: string -> Option<Symbol>, before: seq<Symbol>, s: Symbol)
    requires Findable(prefix, k, find, before + [s])
    ensures Findable(prefix, k, find, before) && Findable(prefix, k, find, [s])
    ensures s in before ==> Elements(before + [s]) == Elements(before)
  {
    assert s in before + [s] && forall t <- before :: t in before + [s];
  }

  /** Reading the saved lines gives exactly the user values that restoring needs. */
  lemma {:induction false} SavedLinesRead(prefix: string, find: string -> Option<Symbol>, c: Config, vals: Values, order: seq<Symbol>)
    requires IsSolution(c, vals) && UserPrintable(c) && Findable(prefix, c.sys, find, order)
    ensures ReadLines(prefix, find, UNGROUPED, SavedLines(prefix, c, vals, order)) == Input(Restored(c, vals, Elements(order)).user, map[], map[])
  {
    hide IsSolution, UserPrintable, Findable, Elements, Saved, ApplyLine, LineOf, Restored, MeantValue, StringValue;
    NothingRestored(c, vals);
    if order != [] {
      var s, before := order[|order| - 1], order[..|order| - 1];
      assert order == before + [s];
      FindableParts(prefix, c.sys, find, before, s);
      SavedLinesRead(prefix, find, c, vals, before);
      var lines := SavedLines(prefix, c, vals, before);
      RestoredStep(c, vals, before, s);
      if s !in before && Saved(c, s, vals, {s}) {
        LineApplied(prefix, find, c, vals, s, ReadLines(prefix, find, UNGROUPED, lines));
        var all := lines + [LineOf(prefix, c, vals, s)];
        assert all[..|all| - 1] == lines;
      } else {
        assert lines + [] == lines;
      }
    }
  }

  /** The file written for a configuration, read into an empty one, gives back all
      values just when no symbol is lost. */
  lemma SavedFileExact(prefix: string, find: string -> Option<Symbol>, c: Config, rank: Symbol -> nat,
                       vals: Values, vals': Values, order: seq<Symbol>, nodes: set<Symbol>)
    requires Ranked(c, rank) && IsSolution(c, vals) && UserPrintable(c) && Findable(prefix, c.sys, find, order)
    requires nodes == Elements(order)
    requires IsSolution(c.(user := ReadLines(prefix, find, UNGROUPED, SavedLines(prefix, c, vals, order)).user), vals')
    ensures (forall s: Symbol :: vals'(s) == vals(s)) <==> (forall s: Symbol :: !Lost(c, s, vals, nodes))
  {
    hide Ranked, IsSolution, Lost, Findable, UserPrintable, SavedLines, ReadLines;
    SavedLinesRead(prefix, find, c, vals, order);
    SavedefconfigExact(c, rank, vals, vals', nodes);
  }
}
