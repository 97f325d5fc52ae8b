/** Lines of a configuration file: quoting of strings, printing of a symbol and
    reading a line back. */
module ConfLines {
  import opened Exprs
  import opened Symbols

  predicate Special(ch: char) {
    ch == '"' || ch == '\\'
  }

  /** A backslash before every quote and backslash. */
  function Escape(s: string): string {
    if s == [] then []
    else if Special(s[0]) then ['\\', s[0]] + Escape(s[1..])
    else [s[0]] + Escape(s[1..])
  }

  /** Exactly the quotes and backslashes get a backslash. */
  lemma {:induction false} EscapeChar(s: string, ch: char, t: string)
    ensures Escape(s + [ch] + t) == Escape(s) + (if ch == '"' || ch == '\\' then ['\\', ch] else [ch]) + Escape(t)
  {
    if s == [] {
      assert [] + [ch] + t == [ch] + t && ([ch] + t)[1..] == t;
    } else {
      assert (s + [ch] + t)[1..] == s[1..] + [ch] + t;
      EscapeChar(s[1..], ch, t);
    }
  }

  function Quoted(s: string): string {
    "\"" + Escape(s) + "\""
  }

  /** The text up to the first unescaped quote with the escapes removed, if there is
      such a quote. */
  function Unquote(s: string): Option<string> {
    if s == [] then None
    else if s[0] == '"' then Some([])
    else if s[0] == '\\' then
      if |s| == 1 then None else Prepend(s[1], Unquote(s[2..]))
    else Prepend(s[0], Unquote(s[1..]))
  }

  function Prepend(ch: char, r: Option<string>): Option<string> {
    if r.None? then None else Some([ch] + r.value)
  }

  /** Reading up to the closing quote undoes the escaping, whatever follows. */
  lemma {:induction false} UnquoteEscape(s: string, rest: string)
    ensures Unquote(Escape(s) + ['"'] + rest) == Some(s)
  {
    if s != [] {
      UnquoteEscape(s[1..], rest);
      var t := Escape(s[1..]) + ['"'] + rest;
      if Special(s[0]) {
        assert Escape(s) + ['"'] + rest == ['\\', s[0]] + t;
        assert (['\\', s[0]] + t)[2..] == t;
      } else {
        assert Escape(s) + ['"'] + rest == [s[0]] + t;
        assert ([s[0]] + t)[1..] == t;
      }
      assert s == [s[0]] + s[1..];
    }
  }

  lemma {:induction false} EscapeAppend(a: string, b: string)
    ensures Escape(a + b) == Escape(a) + Escape(b)
  {
    if a == [] {
      assert a + b == b;
    } else {
      EscapeAppend(a[1..], b);
      assert (a + b)[1..] == a[1..] + b;
      var head := if Special(a[0]) then ['\\', a[0]] else [a[0]];
      assert Escape(a + b) == head + Escape(a[1..] + b);
      assert Escape(a) == head + Escape(a[1..]);
      assert head + (Escape(a[1..]) + Escape(b)) == (head + Escape(a[1..])) + Escape(b);
    }
  }

  /** The index of the first special character at or after i, or the length. */
  method NextSpecial(s: string, i: nat) returns (j: nat)
    requires i <= |s|
    ensures i <= j <= |s|
    ensures forall k :: i <= k < j ==> !Special(s[k])
    ensures j < |s| ==> Special(s[j])
  {
    j := i;
    while j < |s| && !Special(s[j])
      invariant i <= j <= |s|
      invariant forall k :: i <= k < j ==> !Special(s[k])
    {
      j := j + 1;
    }
  }

  lemma {:induction false} EscapePlain(s: string)
    requires forall k :: 0 <= k < |s| ==> !Special(s[k])
    ensures Escape(s) == s
  {
    if s != [] {
      EscapePlain(s[1..]);
    }
  }

  /** Escape of a text read up to j and of the special character there. */
  lemma EscapeChunk(s: string, i: nat, j: nat)
    requires i <= j <= |s| && forall k :: i <= k < j ==> !Special(s[k])
    ensures Escape(s[..j]) == Escape(s[..i]) + s[i..j]
    ensures j < |s| && Special(s[j]) ==> Escape(s[..j + 1]) == Escape(s[..i]) + s[i..j] + ['\\', s[j]]
  {
    assert s[..j] == s[..i] + s[i..j];
    EscapeAppend(s[..i], s[i..j]);
    EscapePlain(s[i..j]);
    if j < |s| && Special(s[j]) {
      assert s[..j + 1] == s[..j] + [s[j]];
      EscapeAppend(s[..j], [s[j]]);
      assert Escape([s[j]]) == ['\\', s[j]];
    }
  }

  /** strcat: appends at the terminator, which is at n. */
  method StrCat(buf: array<char>, n: nat, s: string) returns (m: nat)
    requires n + |s| < buf.Length
    modifies buf
    ensures m == n + |s|
    ensures buf[..m] == old(buf[..n]) + s && buf[m] == '\0'
  {
    var i := 0;
    while i < |s|
      invariant i <= |s|
      invariant buf[..n + i] == old(buf[..n]) + s[..i]
    {
      buf[n + i] := s[i];
      i := i + 1;
    }
    m := n + |s|;
    buf[m] := '\0';
  }

  /** The first pass: the size of the quoted text with its terminator. */
  method EscapedSize(s: string) returns (reslen: nat)
    ensures reslen == |Quoted(s)| + 1
  {
    reslen := |s| + 2 + 1;
    var p := 0;
    while true
      invariant p <= |s|
      invariant reslen == |Escape(s[..p])| + (|s| - p) + 3
      decreases |s| - p
    {
      var q := NextSpecial(s, p);
      EscapeChunk(s, p, q);
      p := q;
      if p == |s| {
        break;
      }
      reslen := reslen + 1;
      p := p + 1;
    }
    assert s[..p] == s;
  }

  /** Appends the text up to the next special character, and that character escaped. */
  method AppendChunk(s: string, res: array<char>, n: nat, p: nat) returns (m: nat, q: nat)
    requires p <= |s| && n == 1 + |Escape(s[..p])| && res.Length == |Escape(s)| + 3
    requires n <= res.Length && res[..n] == "\"" + Escape(s[..p])
    modifies res
    ensures p <= q <= |s| && m == 1 + |Escape(s[..q])| && m < res.Length - 1
    ensures res[..m] == "\"" + Escape(s[..q])
    ensures q < |s| ==> p < q
  {
    hide Escape, Special;
    q := NextSpecial(s, p);
    EscapeChunk(s, p, q);
    EscapeSplit(s, p, q);
    m := StrCat(res, n, s[p..q]);
    if q < |s| {
      m := StrCat(res, m, "\\");
      m := StrCat(res, m, [s[q]]);
      assert res[..m] == "\"" + Escape(s[..q + 1]);
      q := q + 1;
    }
  }

  /** Escapes in two passes; the buffer is exactly as long as the quoted text and its
      terminator. */
  method EscapeStringValue(s: string) returns (res: array<char>)
    ensures fresh(res)
    ensures res.Length == |Quoted(s)| + 1
    ensures res[..res.Length - 1] == Quoted(s) && res[res.Length - 1] == '\0'
  {
    var reslen := EscapedSize(s);
    res := new char[reslen];
    res[0] := '\0';
    var n := StrCat(res, 0, "\"");
    var p := 0;
    assert s[..p] == [];
    while p < |s|
      invariant p <= |s| && n == 1 + |Escape(s[..p])| && n < res.Length - 1
      invariant res[..n] == "\"" + Escape(s[..p])
    {
      n, p := AppendChunk(s, res, n, p);
    }
    assert s[..p] == s;
    n := StrCat(res, n, "\"");
  }

  lemma EscapeSplit(s: string, i: nat, j: nat)
    requires i <= j <= |s| && forall k :: i <= k < j ==> !Special(s[k])
    ensures |Escape(s[..j])| + |Escape(s[j..])| == |Escape(s)|
    ensures |Escape(s[..i])| + (j - i) <= |Escape(s)|
    ensures j < |s| && Special(s[j]) ==> |Escape(s[..i])| + (j - i) + 2 <= |Escape(s)|
    ensures j < |s| ==> |Escape(s[..j + 1])| + |Escape(s[j + 1..])| == |Escape(s)|
  {
    EscapeChunk(s, i, j);
    assert s == s[..j] + s[j..];
    EscapeAppend(s[..j], s[j..]);
    if j < |s| {
      assert s == s[..j + 1] + s[j + 1..];
      EscapeAppend(s[..j + 1], s[j + 1..]);
    }
  }

  /* ----- reading a quoted string in place ----- */

  function PrependAll(a: string, r: Option<string>): Option<string> {
    if r.None? then None else Some(a + r.value)
  }

  /** strpbrk: the next special character before the terminator, or -1. */
  method FindSpecial(buf: array<char>, i: nat, ghost end: nat) returns (j: int)
    requires i <= end < buf.Length && buf[end] == '\0' && forall k :: i <= k < end ==> buf[k] != '\0'
    ensures j == -1 || i <= j < end
    ensures j == -1 ==> forall k :: i <= k < end ==> !Special(buf[k])
    ensures j != -1 ==> Special(buf[j]) && forall k :: i <= k < j ==> !Special(buf[k])
  {
    j := i;
    while buf[j] != '\0'
      invariant i <= j <= end
      invariant forall k :: i <= k < j ==> !Special(buf[k])
      decreases end - j
    {
      if Special(buf[j]) {
        return;
      }
      j := j + 1;
    }
    j := -1;
  }

  /** memmove of the rest of the string, with its terminator, one place down. */
  method ShiftDown(buf: array<char>, i: nat, ghost end: nat)
    requires i < end < buf.Length && buf[end] == '\0' && forall k :: i <= k < end ==> buf[k] != '\0'
    modifies buf
    ensures buf[..i] == old(buf[..i]) && buf[i..end] == old(buf[i + 1..end + 1])
    ensures buf[end..] == old(buf[end..])
  {
    var k := i;
    while buf[k] != '\0'
      invariant i <= k <= end
      invariant forall j :: 0 <= j < i || k <= j < buf.Length ==> buf[j] == old(buf[j])
      invariant forall j :: i <= j < k ==> buf[j] == old(buf[j + 1])
      decreases end - k
    {
      buf[k] := buf[k + 1];
      k := k + 1;
    }
    assert buf[..i] == old(buf[..i]) && buf[i..end] == old(buf[i + 1..end + 1]) && buf[end..] == old(buf[end..]);
  }

  lemma {:induction false} UnquotePlain(a: string, b: string)
    requires forall k :: 0 <= k < |a| ==> !Special(a[k])
    ensures Unquote(a + b) == PrependAll(a, Unquote(b))
  {
    var r := Unquote(b);
    if a == [] {
      assert a + b == b;
      if r.Some? {
        assert a + r.value == r.value;
      }
    } else {
      UnquotePlain(a[1..], b);
      assert (a + b)[1..] == a[1..] + b;
      assert Unquote(a + b) == Prepend(a[0], Unquote(a[1..] + b));
      if r.Some? {
        assert [a[0]] + (a[1..] + r.value) == a + r.value;
      }
    }
  }

  /** A text without special characters has no closing quote. */
  lemma UnquoteOpen(a: string)
    requires forall k :: 0 <= k < |a| ==> !Special(a[k])
    ensures Unquote(a) == None
  {
    UnquotePlain(a, []);
    assert a + [] == a;
  }

  lemma UnquoteCut(a: string)
    requires forall k :: 0 <= k < |a| ==> !Special(a[k])
    ensures Unquote(a + ['\\']) == None
  {
    var b := ['\\'];
    UnquotePlain(a, b);
    assert b[0] == '\\' && |b| == 1;
    assert Unquote(b) == None;
  }

  lemma UnquoteClosed(a: string, b: string)
    requires forall k :: 0 <= k < |a| ==> !Special(a[k])
    ensures Unquote(a + (['"'] + b)) == Some(a)
  {
    UnquotePlain(a, ['"'] + b);
    assert Unquote(['"'] + b) == Some([]);
    assert a + [] == a;
  }

  lemma UnquoteEscaped(a: string, ch: char, b: string)
    requires forall k :: 0 <= k < |a| ==> !Special(a[k])
    ensures Unquote(a + (['\\', ch] + b)) == PrependAll(a + [ch], Unquote(b))
  {
    UnquotePlain(a, ['\\', ch] + b);
    assert (['\\', ch] + b)[2..] == b;
    var r := Unquote(b);
    if r.Some? {
      assert a + ([ch] + r.value) == a + [ch] + r.value;
    }
  }

  lemma PrependTwice(a: string, b: string, r: Option<string>)
    ensures PrependAll(a, PrependAll(b, r)) == PrependAll(a + b, r)
  {
    if r.Some? {
      assert a + (b + r.value) == a + b + r.value;
    }
  }

  /** Removes the backslash at q; the bytes behind the new terminator stay zero. */
  method RemoveBackslash(buf: array<char>, p: nat, q: nat, ghost e: nat, ghost end: nat)
    requires p <= q < e <= end < buf.Length
    requires (forall k :: e <= k <= end ==> buf[k] == '\0') && (forall k :: p <= k < e ==> buf[k] != '\0')
    modifies buf
    ensures buf[..q] == old(buf[..q])
    ensures buf[q..e - 1] == old(buf[q + 1..e])
    ensures (forall k :: e - 1 <= k <= end ==> buf[k] == '\0') && (forall k :: p <= k < e - 1 ==> buf[k] != '\0')
  {
    ghost var was := buf[..];
    ShiftDown(buf, q, e);
    forall k | q <= k < e
      ensures buf[k] == was[k + 1]
    {
      assert buf[q..e][k - q] == was[q + 1..e + 1][k - q];
    }
    forall k | e <= k <= end
      ensures buf[k] == was[k]
    {
      assert buf[e..][k - e] == was[e..][k - e];
    }
    forall k | p <= k < q
      ensures buf[k] == was[k]
    {
      assert buf[..q][k] == was[..q][k];
    }
  }

  /** Removes the escapes of a quoted string where it stands, up to the closing quote,
      which becomes the terminator; fails if there is none. */
  method UnquoteInPlace(buf: array<char>, p: nat, ghost end: nat) returns (ok: bool, stop: nat)
    requires p <= end < buf.Length && buf[end] == '\0' && forall k :: p <= k < end ==> buf[k] != '\0'
    modifies buf
    ensures ok == Unquote(old(buf[p..end])).Some?
    ensures ok ==> p <= stop < buf.Length && buf[stop] == '\0' && buf[p..stop] == Unquote(old(buf[p..end])).value
  {
    ghost var text, e := buf[p..end], end;
    var p2 := p;
    stop := p;
    PrependNothing(Unquote(text));
    assert buf[p..p2] == [];
    while true
      invariant p <= p2 <= e + 1 && p <= e <= end && p2 <= end
      invariant forall k :: e <= k <= end ==> buf[k] == '\0'
      invariant forall k :: p <= k < e ==> buf[k] != '\0'
      invariant if p2 <= e then Unquote(text) == PrependAll(buf[p..p2], Unquote(buf[p2..e])) else Unquote(text) == None
      decreases end - p2
    {
      hide Unquote, PrependAll, Special;
      var q := FindSpecial(buf, p2, if p2 <= e then e else p2);
      if q == -1 {
        if p2 <= e {
          UnquoteOpen(buf[p2..e]);
          PrependNone(buf[p..p2]);
        }
        ok := false;
        return;
      }
      ghost var head, plain, rest := buf[p..p2], buf[p2..q], buf[q + 1..e];
      CutAt(buf[..], p, p2, q, e);
      PlainBetween(buf[..], p2, q);
      SpecialCases(buf[q]);
      if buf[q] == '"' {
        Closed(head, plain, rest);
        buf[q] := '\0';
        assert buf[p..q] == head + plain;
        ok, stop := true, q;
        return;
      }
      StepUnescape(text, head, plain, rest);
      RemoveBackslash(buf, p, q, e, end);
      e := e - 1;
      p2 := q + 1;
      assert buf[p..q] == head + plain && buf[q..e] == rest;
      if rest != [] {
        assert buf[p..p2] == head + plain + [rest[0]] && buf[p2..e] == rest[1..];
      }
    }
  }

  lemma CutAt(s: string, p: nat, p2: nat, q: nat, e: nat)
    requires p <= p2 <= q < e <= |s|
    ensures s[p2..e] == s[p2..q] + ([s[q]] + s[q + 1..e]) && s[p..q] == s[p..p2] + s[p2..q]
  {
  }

  lemma PlainBetween(s: string, i: nat, j: nat)
    requires i <= j <= |s| && forall k :: i <= k < j ==> !Special(s[k])
    ensures forall k :: 0 <= k < |s[i..j]| ==> !Special(s[i..j][k])
  {
  }

  lemma PrependNothing(r: Option<string>)
    ensures PrependAll([], r) == r
  {
    if r.Some? {
      assert [] + r.value == r.value;
    }
  }

  lemma PrependNone(a: string)
    ensures PrependAll(a, None) == None
  {
  }

  lemma SpecialCases(ch: char)
    requires Special(ch)
    ensures ch == '"' || ch == '\\'
  {
  }

  lemma Closed(head: string, plain: string, rest: string)
    requires forall k :: 0 <= k < |plain| ==> !Special(plain[k])
    ensures PrependAll(head, Unquote(plain + (['"'] + rest))) == Some(head + plain)
  {
    UnquoteClosed(plain, rest);
  }

  lemma {:induction false} StepUnescape(text: string, head: string, plain: string, rest: string)
    requires forall k :: 0 <= k < |plain| ==> !Special(plain[k])
    requires Unquote(text) == PrependAll(head, Unquote(plain + (['\\'] + rest)))
    ensures rest == [] ==> Unquote(text) == None
    ensures rest != [] ==> Unquote(text) == PrependAll(head + plain + [rest[0]], Unquote(rest[1..]))
  {
    hide Unquote, PrependAll;
    if rest == [] {
      UnquoteCut(plain);
      assert plain + (['\\'] + rest) == plain + ['\\'];
      PrependNone(head);
    } else {
      UnquoteEscaped(plain, rest[0], rest[1..]);
      assert ['\\'] + rest == ['\\', rest[0]] + rest[1..];
      PrependTwice(head, plain + [rest[0]], Unquote(rest[1..]));
      assert head + (plain + [rest[0]]) == head + plain + [rest[0]];
    }
  }

  /* ----- lines ----- */

  /** strchr: where ch first occurs. */
  function IndexOf(s: string, ch: char): (i: nat)
    ensures i <= |s|
    ensures i < |s| ==> s[i] == ch
    ensures forall k :: 0 <= k < i ==> s[k] != ch
  {
    if s == [] || s[0] == ch then 0 else 1 + IndexOf(s[1..], ch)
  }

  lemma {:induction false} IndexOfAppend(a: string, ch: char, b: string)
    requires ch !in a
    ensures IndexOf(a + [ch] + b, ch) == |a|
  {
    if a == [] {
      assert a + [ch] + b == [ch] + b;
    } else {
      IndexOfAppend(a[1..], ch, b);
      assert (a + [ch] + b)[1..] == a[1..] + [ch] + b;
    }
  }

  predicate Digit(ch: char) {
    '0' <= ch <= '9'
  }

  predicate HexDigit(ch: char) {
    Digit(ch) || 'a' <= ch <= 'f' || 'A' <= ch <= 'F'
  }

  predicate AllDigits(s: string) {
    forall ch <- s :: Digit(ch)
  }

  /** Whether a string is acceptable for a symbol of this type. */
  predicate StringValid(ty: SymType, s: string) {
    match ty
    case String => true
    case Int =>
      var t := if s != [] && s[0] == '-' then s[1..] else s;
      t != [] && Digit(t[0]) && !(t[0] == '0' && |t| > 1) && AllDigits(t)
    case Hex =>
      var t := if |s| >= 2 && s[0] == '0' && (s[1] == 'x' || s[1] == 'X') then s[2..] else s;
      t != [] && forall ch <- t :: HexDigit(ch)
    case Unknown => false
    case _ => s != [] && s[0] in "yYmMnN"
  }

  const DIGITS := "0123456789"

  /** A number in decimal notation. */
  function Decimal(n: nat): string {
    if n < 10 then [DIGITS[n]] else Decimal(n / 10) + [DIGITS[n % 10]]
  }

  lemma {:induction false} DecimalShape(n: nat)
    ensures Decimal(n) != [] && AllDigits(Decimal(n)) && (Decimal(n)[0] == '0' <==> n == 0) && (n == 0 ==> |Decimal(n)| == 1)
  {
    if n >= 10 {
      DecimalShape(n / 10);
    }
  }

  /** Digits without a leading zero are the notation of some number. */
  lemma {:induction false} DigitsAreDecimal(t: string) returns (n: nat)
    requires t != [] && AllDigits(t) && (t[0] == '0' ==> |t| == 1)
    ensures t == Decimal(n)
  {
    var rest, last := t[..|t| - 1], t[|t| - 1];
    assert t == rest + [last] && last in t;
    var d: nat := last as int - '0' as int;
    assert DIGITS[d] == last;
    if rest == [] {
      n := d;
    } else {
      assert forall ch <- rest :: ch in t;
      var m := DigitsAreDecimal(rest);
      DecimalShape(m);
      n := 10 * m + d;
      assert n / 10 == m && n % 10 == d;
    }
  }

  /** The texts accepted for an int symbol are the decimal numbers, with or without a sign. */
  lemma ValidInt(s: string)
    ensures StringValid(Int, s) <==> exists n: nat :: s == Decimal(n) || s == "-" + Decimal(n)
  {
    if StringValid(Int, s) {
      var t := if s != [] && s[0] == '-' then s[1..] else s;
      var n := DigitsAreDecimal(t);
    }
    if n: nat :| s == Decimal(n) || s == "-" + Decimal(n) {
      DecimalShape(n);
      assert Decimal(n)[0] in Decimal(n);
      assert s != Decimal(n) ==> s[1..] == Decimal(n);
    }
  }

  /** Hexadecimal digits t, with or without 0x before them. */
  predicate HexText(s: string, t: string) {
    t != [] && (s == t || s == "0x" + t || s == "0X" + t) && forall ch <- t :: ch in DIGITS + "abcdefABCDEF"
  }

  /** Those for a hex symbol are hexadecimal numbers. */
  lemma ValidHex(s: string)
    ensures StringValid(Hex, s) <==> exists t: string :: HexText(s, t)
  {
    assert forall ch: char :: HexDigit(ch) <==> ch in DIGITS + "abcdefABCDEF";
    if StringValid(Hex, s) {
      var t := if |s| >= 2 && s[0] == '0' && (s[1] == 'x' || s[1] == 'X') then s[2..] else s;
      assert s == t || s == [s[0], s[1]] + t;
      assert HexText(s, t);
    }
    if t: string :| HexText(s, t) {
      HexTextValid(s, t);
    }
  }

  lemma HexTextValid(s: string, t: string)
    requires HexText(s, t)
    ensures StringValid(Hex, s)
  {
    if s == t {
      assert |s| >= 2 ==> s[1] in t;
    } else {
      assert s[2..] == t;
    }
  }

  /** The user value that the text after '=' sets for a symbol of this type. */
  function ReadValue(ty: SymType, text: string): Option<Value> {
    match ty
    case Tri =>
      if text != [] && text[0] == 'm' then Some(Value("", MOD)) else ReadBool(text)
    case Boolean => ReadBool(text)
    case String =>
      if text == [] || text[0] != '"' then None
      else
        var s := Unquote(text[1..]);
        if s.Some? then Some(Value(s.value, NO)) else None
    case Unknown => None
    case _ => if StringValid(ty, text) then Some(Value(text, NO)) else None
  }

  function ReadBool(text: string): Option<Value> {
    if text != [] && text[0] == 'y' then Some(Value("", YES))
    else if text != [] && text[0] == 'n' then Some(Value("", NO))
    else None
  }

  /** What one line of a configuration file says. */
  datatype Line = Ignored | NotSet(name: string) | Assigned(name: string, text: string)

  const NOT_SET := "is not set"

  predicate StartsWith(s: string, t: string) {
    |t| <= |s| && s[..|t|] == t
  }

  /** The text up to the end of the line, without a carriage return before it. */
  function CutEnd(s: string): string {
    var i := IndexOf(s, '\n');
    if i < |s| && i > 0 && s[i - 1] == '\r' then s[..i - 1] else s[..i]
  }

  function ParseNotSet(rest: string): Line {
    var i := IndexOf(rest, ' ');
    if i == |rest| || !StartsWith(rest[i + 1..], NOT_SET) then Ignored else NotSet(rest[..i])
  }

  function ParseAssigned(rest: string): Line {
    var i := IndexOf(rest, '=');
    if i == |rest| then Ignored else Assigned(rest[..i], CutEnd(rest[i + 1..]))
  }

  function ParseLine(prefix: string, line: string): Line {
    if line != [] && line[0] == '#' then
      if |line| < 2 || !StartsWith(line[2..], prefix) then Ignored
      else ParseNotSet(line[2 + |prefix|..])
    else if StartsWith(line, prefix) then ParseAssigned(line[|prefix|..])
    else Ignored
  }

  /** The line printed for a symbol; strings are quoted first. */
  function PrintLine(prefix: string, name: string, ty: SymType, value: string): string {
    if (ty == Boolean || ty == Tri) && value != [] && value[0] == 'n' then
      "# " + prefix + name + " " + NOT_SET + "\n"
    else prefix + name + "=" + (if ty == String then Quoted(value) else value) + "\n"
  }

  /** The forms that are printed. */
  lemma PrintedForms(prefix: string, name: string, text: string)
    ensures forall ty <- [Boolean, Tri] ::
      && PrintLine(prefix, name, ty, "n") == "# " + prefix + name + " is not set\n"
      && PrintLine(prefix, name, ty, "m") == prefix + name + "=m\n"
      && PrintLine(prefix, name, ty, "y") == prefix + name + "=y\n"
    ensures PrintLine(prefix, name, String, text) == prefix + name + "=" + ("\"" + Escape(text) + "\"") + "\n"
    ensures forall ty <- [Int, Hex] :: PrintLine(prefix, name, ty, text) == prefix + name + "=" + text + "\n"
  {
    TriForm(prefix, name, Boolean);
    TriForm(prefix, name, Tri);
    hide Escape;
  }

  lemma TriForm(prefix: string, name: string, ty: SymType)
    requires ty == Boolean || ty == Tri
    ensures PrintLine(prefix, name, ty, "n") == "# " + prefix + name + " is not set\n"
    ensures PrintLine(prefix, name, ty, "m") == prefix + name + "=m\n"
    ensures PrintLine(prefix, name, ty, "y") == prefix + name + "=y\n"
  {
    PartsJoin("# " + prefix + name, " ", NOT_SET, "\n");
    assert " " + NOT_SET + "\n" == " is not set\n";
    PartsJoin(prefix + name, "=", "m", "\n");
    PartsJoin(prefix + name, "=", "y", "\n");
  }

  lemma PartsJoin(a: string, b: string, c: string, d: string)
    ensures a + b + c + d == a + (b + c + d)
  {
  }

  /** A name that lines can carry. */
  predicate PlainName(name: string) {
    ' ' !in name && '=' !in name
  }

  /** The effect of a line on the user value of its symbol. */
  function LineValue(ty: SymType, line: Line): Option<Value> {
    match line
    case Ignored => None
    case NotSet(_) => if ty == Boolean || ty == Tri then Some(Value("", NO)) else None
    case Assigned(_, text) => ReadValue(ty, text)
  }

  /** Strings that a line can carry for a symbol of the given type. */
  predicate Printable(ty: SymType, value: string) {
    match ty
    case Boolean => value == "n" || value == "y"
    case Tri => value == "n" || value == "m" || value == "y"
    case String => '\n' !in value
    case Unknown => false
    case _ => StringValid(ty, value)
  }

  /** The user value meant by a printed string. */
  function MeantValue(ty: SymType, value: string): Value {
    if ty == Boolean || ty == Tri then Value("", if value == "y" then YES else if value == "m" then MOD else NO)
    else Value(value, NO)
  }

  lemma {:induction false} EscapeKeeps(s: string, ch: char)
    requires ch !in s && ch != '\\'
    ensures ch !in Escape(s)
  {
    if s != [] {
      EscapeKeeps(s[1..], ch);
    }
  }

  lemma NoLineBreak(ty: SymType, value: string)
    requires Printable(ty, value)
    ensures ty != String ==> '\n' !in value && '\r' !in value
  {
    if ty == Int {
      var t := if value != [] && value[0] == '-' then value[1..] else value;
      assert value == t || value == [value[0]] + t;
      assert AllDigits(t);
      assert '\n' !in t && '\r' !in t;
    } else if ty == Hex {
      var t := if |value| >= 2 && value[0] == '0' && (value[1] == 'x' || value[1] == 'X') then value[2..] else value;
      assert value == t || value == [value[0], value[1]] + t;
      assert forall ch <- t :: HexDigit(ch);
      assert '\n' !in t && '\r' !in t;
    }
  }

  /** A printed line is read back as the same name and, for a string that the symbol
      can have, the same value. */
  lemma LineRoundTrip(prefix: string, name: string, ty: SymType, value: string)
    requires PlainName(name) && (prefix != [] ==> prefix[0] != '#') && (prefix == [] ==> name == [] || name[0] != '#')
    requires Printable(ty, value)
    ensures var line := ParseLine(prefix, PrintLine(prefix, name, ty, value));
            !line.Ignored? && line.name == name && LineValue(ty, line) == Some(MeantValue(ty, value))
  {
    hide ParseLine, Quoted, Unquote, StringValid, PlainName;
    if (ty == Boolean || ty == Tri) && value == "n" {
      NotSetRoundTrip(prefix, name);
    } else {
      var text := if ty == String then Quoted(value) else value;
      TextPlain(ty, value);
      AssignedRoundTrip(prefix, name, text);
      QuotedBack(value);
    }
  }

  lemma QuotedBack(value: string)
    ensures var text := Quoted(value);
            text != [] && text[0] == '"' && Unquote(text[1..]) == Some(value)
  {
    hide Unquote, Escape;
    UnquoteEscape(value, []);
    assert Quoted(value)[1..] == Escape(value) + ['"'] + [];
  }

  lemma TextPlain(ty: SymType, value: string)
    requires Printable(ty, value)
    ensures var text := if ty == String then Quoted(value) else value;
            '\n' !in text && text != [] && text[|text| - 1] != '\r'
  {
    NoLineBreak(ty, value);
    if ty == String {
      EscapeKeeps(value, '\n');
    }
  }

  lemma NotSetRoundTrip(prefix: string, name: string)
    requires PlainName(name)
    ensures ParseLine(prefix, "# " + prefix + name + " " + NOT_SET + "\n") == NotSet(name)
  {
    hide ParseNotSet;
    var rest := name + [' '] + (NOT_SET + ['\n']);
    var line := "# " + prefix + name + " " + NOT_SET + "\n";
    assert line == ['#', ' '] + (prefix + rest);
    assert line[2..] == prefix + rest;
    assert line[2 + |prefix|..] == rest;
    NotSetRest(name);
  }

  lemma NotSetRest(name: string)
    requires PlainName(name)
    ensures ParseNotSet(name + [' '] + (NOT_SET + ['\n'])) == NotSet(name)
  {
    hide IndexOf;
    var tail := NOT_SET + ['\n'];
    var rest := name + [' '] + tail;
    IndexOfAppend(name, ' ', tail);
    assert rest[|name| + 1..] == tail && rest[..|name|] == name;
    assert tail[..|NOT_SET|] == NOT_SET;
  }

  lemma AssignedRoundTrip(prefix: string, name: string, text: string)
    requires PlainName(name) && (prefix != [] ==> prefix[0] != '#') && (prefix == [] ==> name == [] || name[0] != '#')
    requires '\n' !in text && text != [] && text[|text| - 1] != '\r'
    ensures ParseLine(prefix, prefix + name + "=" + text + "\n") == Assigned(name, text)
  {
    hide ParseAssigned, IndexOf;
    var rest := name + ['='] + (text + ['\n']);
    var line := prefix + name + "=" + text + "\n";
    assert line == prefix + rest;
    assert line[|prefix|..] == rest;
    AssignedRest(name, text);
    if prefix == [] && name != [] {
      assert line[0] == name[0];
    }
  }

  lemma AssignedRest(name: string, text: string)
    requires '=' !in name && '\n' !in text && text != [] && text[|text| - 1] != '\r'
    ensures ParseAssigned(name + ['='] + (text + ['\n'])) == Assigned(name, text)
  {
    var tail := text + ['\n'];
    var rest := name + ['='] + tail;
    IndexOfAppend(name, '=', tail);
    assert rest[|name| + 1..] == tail && rest[..|name|] == name;
    IndexOfAppend(text, '\n', []);
    assert text + ['\n'] + [] == tail && tail[..|text|] == text;
  }
}
