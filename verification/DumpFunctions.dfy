/**
 The list of functions, exactly when it is right.  `outToken` leaves a double quote
 after the first byte of a name as it is, so such a quote ends a string where the
 name goes on, and from there on the reader takes the insides of strings for the
 gaps between them, until the next one.
 */
module DumpFunctions {
  import opened Options
  import opened Utf8
  import opened DumpTree
  import opened TokenReader
  import opened DumpScan
  import opened DumpExact
  import opened DumpTheorems

  // ----- The reader as an automaton

  /** Reading on, inside a string of which `cur` has been collected, or outside. */
  function Scan(inside: bool, cur: Bytes, s: Bytes): seq<Bytes>
    decreases |s|
  {
    if s == [] then (if inside then [cur] else [])
    else if s[0] == '"' then (if inside then [cur] + Scan(false, [], s[1..]) else Scan(true, [], s[1..]))
    else if !inside then Scan(false, [], s[1..])
    else if s[0] == '\\' && |s| > 1 then Scan(true, cur + [s[1]], s[2..])
    else Scan(true, cur + [s[0]], s[1..])
  }

  /** What is read after the end of the string. */
  function Later(s: Bytes): seq<Bytes> {
    LaterAt(s, Length(InQuotes, s))
  }

  function LaterAt(s: Bytes, n: nat): seq<Bytes> {
    if n < |s| then Quoted(s[n + 1..]) else []
  }

  lemma LaterSkips(s: Bytes, k: nat, rest: Bytes)
    requires k <= |s| && rest == s[k..] && Length(InQuotes, s) == k + Length(InQuotes, rest)
    ensures Later(s) == Later(rest)
  {
    LaterFrom(s, k, rest, Length(InQuotes, rest));
  }

  lemma LaterFrom(s: Bytes, k: nat, rest: Bytes, n: nat)
    requires k <= |s| && rest == s[k..]
    ensures LaterAt(s, k + n) == LaterAt(rest, n)
  {
    if k + n < |s| {
      assert rest[n + 1..] == s[k + n + 1..];
    }
  }

  lemma Collects(cur: Bytes, c: char, text: Bytes)
    ensures (cur + [c]) + text == cur + ([c] + text)
  {
  }

  lemma {:induction false} ScanInside(cur: Bytes, s: Bytes)
    ensures Scan(true, cur, s) == [cur + Text(InQuotes, s)] + Later(s)
    decreases |s|, 1
  {
    if s == [] || s[0] == '"' {
      ScanEnd(cur, s);
    } else if s[0] == '\\' && |s| == 1 {
      ScanLone(cur, s);
    } else {
      var k := if s[0] == '\\' then 2 else 1;
      ScanInside(cur + [s[k - 1]], s[k..]);
      OneByte(cur, s, k, s[k..]);
    }
  }

  /** One byte of a string, escaped or not. */
  lemma OneByte(cur: Bytes, s: Bytes, k: nat, rest: Bytes)
    requires s != [] && s[0] != '"' && k == (if s[0] == '\\' then 2 else 1) && k <= |s| && rest == s[k..]
    ensures Scan(true, cur, s) == Scan(true, cur + [s[k - 1]], rest)
    ensures [cur + Text(InQuotes, s)] + Later(s) == [(cur + [s[k - 1]]) + Text(InQuotes, rest)] + Later(rest)
  {
    OneByteText(s, k, rest);
    LaterSkips(s, k, rest);
    Collects(cur, s[k - 1], Text(InQuotes, rest));
  }

  lemma OneByteText(s: Bytes, k: nat, rest: Bytes)
    requires s != [] && s[0] != '"' && k == (if s[0] == '\\' then 2 else 1) && k <= |s| && rest == s[k..]
    ensures Text(InQuotes, s) == [s[k - 1]] + Text(InQuotes, rest) && Length(InQuotes, s) == k + Length(InQuotes, rest)
  {
  }

  /** A backslash at the very end is kept. */
  lemma ScanLone(cur: Bytes, s: Bytes)
    requires |s| == 1 && s[0] == '\\'
    ensures Scan(true, cur, s) == [cur + Text(InQuotes, s)] + Later(s)
  {
    assert s == [s[0]] && s[1..] == [];
    assert Text(InQuotes, s) == s && Length(InQuotes, s) == 1;
    assert Scan(true, cur, s) == [cur + s];
    NothingLater(cur + s, Later(s));
  }

  lemma NothingLater(text: Bytes, later: seq<Bytes>)
    requires later == []
    ensures [text] + later == [text]
  {
  }

  lemma {:induction false} ScanEnd(cur: Bytes, s: Bytes)
    requires s == [] || s[0] == '"'
    ensures Scan(true, cur, s) == [cur + Text(InQuotes, s)] + Later(s)
    decreases |s|, 0
  {
    assert Text(InQuotes, s) == [] && Length(InQuotes, s) == 0;
    assert cur + [] == cur;
    if s == [] {
      NothingLater(cur, Later(s));
    } else {
      ScanOutside(s[1..]);
    }
  }

  lemma {:induction false} ScanOutside(s: Bytes)
    ensures Quoted(s) == Scan(false, [], s)
    decreases |s|, 1
  {
    if s != [] {
      if s[0] == '"' {
        ScanInside([], s[1..]);
        QuotedOpens(s);
      } else {
        ScanOutside(s[1..]);
      }
    }
  }

  lemma QuotedOpens(s: Bytes)
    requires s != [] && s[0] == '"'
    ensures Quoted(s) == [[] + Text(InQuotes, s[1..])] + Later(s[1..])
  {
    var t := s[1..];
    var n := Length(InQuotes, t);
    assert [] + Text(InQuotes, t) == Text(InQuotes, t);
    if n < |t| {
      assert s[n + 2..] == t[n + 1..];
    }
  }

  // ----- Reading a list of names, on the names alone

  predicate HasQuote(u: Bytes) {
    u != [] && (u[0] == '"' || HasQuote(u[1..]))
  }

  predicate Odd(u: Bytes) {
    u != [] && (if u[0] == '"' then !Odd(u[1..]) else Odd(u[1..]))
  }

  /** The strings completed by a text and the quote behind it. */
  function Parts(inside: bool, cur: Bytes, u: Bytes): seq<Bytes>
    decreases |u|
  {
    if u == [] then (if inside then [cur] else [])
    else if u[0] == '"' then (if inside then [cur] + Parts(false, [], u[1..]) else Parts(true, [], u[1..]))
    else if inside then Parts(true, cur + [u[0]], u[1..])
    else Parts(false, [], u[1..])
  }

  /** Whether the reader is inside a string after a text and the quote behind it. */
  predicate Side(inside: bool, u: Bytes) {
    inside == Odd(u)
  }

  /** The strings completed by a name and its closing quote, behind its opening quote: its first byte is guarded. */
  function NameParts(t: Bytes): seq<Bytes> {
    if t == [] then [[]] else Parts(true, [t[0]], t[1..])
  }

  predicate NameOdd(t: Bytes) {
    t != [] && Odd(t[1..])
  }

  /** The strings read from a list of names, the reader being inside a string before it or outside. */
  function Names(inside: bool, items: Items): seq<Bytes>
    requires AllStr(items)
    decreases items
  {
    if items.Empty? then (if inside then [[]] else [])
    else if inside then
      [[' ']] + (Parts(false, [], items.value.text) + Names(Side(false, items.value.text), items.rest))
    else NameParts(items.value.text) + Names(NameOdd(items.value.text), items.rest)
  }

  // ----- That is how they are read

  lemma ScanQuote(inside: bool, cur: Bytes, s: Bytes)
    ensures Scan(inside, cur, ['"'] + s) == if inside then [cur] + Scan(false, [], s) else Scan(true, [], s)
  {
    assert (['"'] + s)[1..] == s;
  }

  lemma ScanByte(inside: bool, cur: Bytes, c: char, s: Bytes)
    requires c != '"' && c != '\\'
    ensures Scan(inside, cur, [c] + s) == if inside then Scan(true, cur + [c], s) else Scan(false, [], s)
  {
    assert ([c] + s)[1..] == s;
  }

  lemma ScanInEscape(cur: Bytes, c: char, s: Bytes)
    ensures Scan(true, cur, ['\\', c] + s) == Scan(true, cur + [c], s)
  {
    assert (['\\', c] + s)[2..] == s;
  }

  lemma ScanOutEscape(c: char, s: Bytes)
    ensures Scan(false, [], ['\\'] + s) == Scan(false, [], s)
    ensures c != '"' ==> Scan(false, [], ['\\', c] + s) == Scan(false, [], s)
  {
    assert (['\\'] + s)[1..] == s;
    var t := ['\\', c] + s;
    assert t[1..] == [c] + s && ([c] + s)[1..] == s;
  }

  /** One byte of escaped text. */
  lemma ScanEscaped(inside: bool, cur: Bytes, c: char, s: Bytes)
    requires c != '"'
    ensures Scan(inside, cur, (if Special(c) then ['\\', c] else [c]) + s)
            == if inside then Scan(true, cur + [c], s) else Scan(false, [], s)
  {
    if !Special(c) {
      ScanByte(inside, cur, c, s);
    } else if inside {
      ScanInEscape(cur, c, s);
    } else {
      ScanOutEscape(c, s);
      SameOutside(cur, ['\\', c] + s);
    }
  }

  lemma SameOutside(cur: Bytes, s: Bytes)
    ensures Scan(false, cur, s) == Scan(false, [], s)
  {
  }

  /** Escaped text and the quote behind it: an odd number of quotes in it leaves the reader on the side it was. */
  lemma {:induction false} TextScans(inside: bool, cur: Bytes, u: Bytes, tail: Bytes)
    ensures Scan(inside, cur, Esc(u) + (['"'] + tail)) == Parts(inside, cur, u) + Scan(Side(inside, u), [], tail)
    decreases |u|
  {
    var close := ['"'] + tail;
    if u == [] {
      ScanQuote(inside, cur, tail);
      assert Esc(u) + close == close;
    } else {
      var s := Esc(u[1..]) + close;
      EscCons(u, close);
      if u[0] == '"' {
        ScanQuote(inside, cur, s);
        TextScans(!inside, [], u[1..], tail);
        if inside {
          Assoc([cur], Parts(false, [], u[1..]), Scan(Side(false, u[1..]), [], tail));
        }
      } else {
        ScanEscaped(inside, cur, u[0], s);
        TextScans(inside, if inside then cur + [u[0]] else [], u[1..], tail);
      }
    }
  }

  /** A name and its closing quote, read inside the string that its opening quote starts. */
  lemma NameScans(t: Bytes, tail: Bytes)
    ensures Scan(true, [], Guarded(t) + (['"'] + tail)) == NameParts(t) + Scan(NameOdd(t), [], tail)
  {
    var close := ['"'] + tail;
    if t == [] {
      TextScans(true, [], t, tail);
      assert Guarded(t) == Esc(t);
    } else {
      NameStart(t, close);
      TextScans(true, [t[0]], t[1..], tail);
    }
  }

  lemma NameStart(t: Bytes, close: Bytes)
    requires t != []
    ensures Scan(true, [], Guarded(t) + close) == Scan(true, [t[0]], Esc(t[1..]) + close)
  {
    var s := Esc(t[1..]) + close;
    assert [] + [t[0]] == [t[0]];
    if NeedsGuard(t) {
      GuardShape(t, close);
      ScanInEscape([], t[0], s);
    } else {
      assert Guarded(t) == Esc(t);
      EscCons(t, close);
      ScanEscaped(true, [], t[0], s);
    }
  }

  /** The same when its opening quote has ended a string. */
  lemma NameOutside(t: Bytes, tail: Bytes)
    ensures Scan(false, [], Guarded(t) + (['"'] + tail)) == Parts(false, [], t) + Scan(Side(false, t), [], tail)
  {
    var close := ['"'] + tail;
    TextScans(false, [], t, tail);
    if NeedsGuard(t) {
      Assoc(['\\'], Esc(t), close);
      ScanOutEscape('x', Esc(t) + close);
    } else {
      assert Guarded(t) == Esc(t);
    }
  }

  /** A list behind a closing quote. */
  function Behind(items: Items): Bytes {
    if items.Empty? then [] else [' '] + PrintItems(items)
  }

  lemma PrintedName(items: Items)
    requires items.Item? && items.value.Str?
    ensures PrintItems(items) == ['"'] + (Guarded(items.value.text) + (['"'] + Behind(items.rest)))
  {
  }

  lemma {:induction false} NamesScan(inside: bool, items: Items)
    requires AllStr(items)
    ensures Scan(inside, [], Behind(items)) == Names(inside, items)
    decreases items
  {
    if items.Item? {
      var t, tail := items.value.text, Behind(items.rest);
      var name := Guarded(t) + (['"'] + tail);
      PrintedName(items);
      GapScans(inside, name);
      if inside {
        NameOutside(t, tail);
        NamesScan(Side(false, t), items.rest);
      } else {
        NameScans(t, tail);
        NamesScan(NameOdd(t), items.rest);
      }
    }
  }

  /** The gap before a name, and its opening quote. */
  lemma GapScans(inside: bool, name: Bytes)
    ensures Scan(inside, [], [' '] + (['"'] + name))
            == if inside then [[' ']] + Scan(false, [], name) else Scan(true, [], name)
  {
    ScanByte(inside, [], ' ', ['"'] + name);
    assert [] + [' '] == [' '];
    ScanQuote(inside, [' '], name);
    SameOutside([' '], ['"'] + name);
  }

  /** What `quoted_strings` reads from a printed list of names. */
  lemma ListReads(items: Items)
    requires AllStr(items)
    ensures Quoted(PrintItems(items)) == Names(false, items)
  {
    ScanOutside(PrintItems(items));
    NamesScan(false, items);
    if items.Item? {
      ScanByte(false, [], ' ', PrintItems(items));
    }
  }

  // ----- The sizes of what is read

  /** Strings shorter than the text. */
  predicate Shorter(parts: seq<Bytes>, n: int) {
    forall i :: 0 <= i < |parts| ==> |parts[i]| < n
  }

  lemma ShorterMore(parts: seq<Bytes>, n: int, m: int)
    requires Shorter(parts, n) && n <= m
    ensures Shorter(parts, m)
  {
  }

  lemma {:induction false} PartSizes(inside: bool, cur: Bytes, u: Bytes)
    ensures !HasQuote(u) ==> Parts(inside, cur, u) == (if inside then [cur + u] else []) && !Odd(u)
    ensures HasQuote(u) ==> Shorter(Parts(inside, cur, u), |cur| + |u|)
    ensures inside || Odd(u) ==> Parts(inside, cur, u) != []
    decreases |u|
  {
    if u == [] {
      assert cur + u == cur;
    } else {
      var rest := u[1..];
      if u[0] == '"' {
        PartSizes(!inside, [], rest);
        assert [] + rest == rest;
        if HasQuote(rest) {
          ShorterMore(Parts(!inside, [], rest), |rest|, |cur| + |u|);
        }
      } else if inside {
        PartSizes(true, cur + [u[0]], rest);
        Collects(cur, u[0], rest);
        assert u == [u[0]] + rest;
      } else {
        PartSizes(false, [], rest);
        if HasQuote(rest) {
          ShorterMore(Parts(false, [], rest), |rest|, |cur| + |u|);
        }
      }
    }
  }

  /** A name is read as itself, or in strings that are all shorter. */
  lemma NameSizes(t: Bytes)
    ensures NameParts(t) != []
    ensures Readable(InQuotes, t) ==> NameParts(t) == [t] && !NameOdd(t)
    ensures !Readable(InQuotes, t) ==> Shorter(NameParts(t), |t|) && t != [] && t != [' ']
  {
    if t != [] {
      PartSizes(true, [t[0]], t[1..]);
      QuoteIllegible(t[1..]);
      assert t == [t[0]] + t[1..];
    }
  }

  /** Outside a string, what is read of a text is shorter than it. */
  lemma OutsideSizes(t: Bytes)
    ensures Shorter(Parts(false, [], t), |t|)
    ensures t == [] ==> Parts(false, [], t) == []
    ensures Odd(t) ==> Parts(false, [], t) != []
  {
    PartSizes(false, [], t);
  }

  lemma {:induction false} QuoteIllegible(u: Bytes)
    ensures Legible(InQuotes, u) <==> !HasQuote(u)
    decreases |u|
  {
    if u != [] {
      QuoteIllegible(u[1..]);
    }
  }

  // ----- The last two strings

  /**
   The last two names are read as they are.  If quotes in earlier names have left
   the reader inside a string, that happens only for a blank and an empty name.
   */
  predicate RightOutside(items: Items)
    requires AllStr(items)
  {
    if items.Empty? then true
    else if items.rest.Empty? then Readable(InQuotes, items.value.text)
    else if items.rest.rest.Empty? then
      assert AllStr(items.rest);
      Readable(InQuotes, items.value.text) && Readable(InQuotes, items.rest.value.text)
    else if NameOdd(items.value.text) then RightInside(items.rest)
    else RightOutside(items.rest)
  }

  predicate RightInside(items: Items)
    requires AllStr(items)
  {
    if items.Empty? || items.rest.Empty? then false
    else if items.rest.rest.Empty? then
      assert AllStr(items.rest);
      items.value.text == [' '] && items.rest.value.text == []
    else if Odd(items.value.text) then RightOutside(items.rest)
    else RightInside(items.rest)
  }

  predicate SameEnd(a: seq<Bytes>, b: seq<Bytes>)
    requires |a| >= 2 && |b| >= 2
  {
    a[|a| - 1] == b[|b| - 1] && a[|a| - 2] == b[|b| - 2]
  }

  lemma SameFunction(a: seq<Bytes>, b: seq<Bytes>)
    requires |a| >= 2 && |b| >= 2
    ensures FunctionHit(a) == FunctionHit(b) <==> SameEnd(a, b)
  {
    assert FunctionHit(a)[0] == Named(Some(a[|a| - 2]), a[|a| - 1]);
    assert FunctionHit(b)[0] == Named(Some(b[|b| - 2]), b[|b| - 1]);
  }

  lemma Two(inside: bool, items: Items)
    requires AllStr(items) && items.Item?
    ensures |Names(inside, items)| >= if inside || items.rest.Item? then 2 else 1
    decreases items
  {
    OutsideSizes(items.value.text);
    NameSizes(items.value.text);
    if items.rest.Item? {
      Two(NameOdd(items.value.text), items.rest);
      Two(Side(false, items.value.text), items.rest);
    }
  }

  /** The last name of all, the reader being outside before it. */
  function LastOutside(u: Bytes): seq<Bytes> {
    NameParts(u) + (if NameOdd(u) then [[]] else [])
  }

  function LastInside(u: Bytes): seq<Bytes> {
    [[' ']] + (Parts(false, [], u) + (if Odd(u) then [] else [[]]))
  }

  lemma LastNameOutside(before: seq<Bytes>, u: Bytes)
    ensures var parts := before + LastOutside(u);
            && parts != []
            && (Readable(InQuotes, u) ==> parts == before + [u])
            && (!Readable(InQuotes, u) ==> parts[|parts| - 1] != u)
  {
    NameSizes(u);
    var parts := before + LastOutside(u);
    if !Readable(InQuotes, u) {
      var names := NameParts(u);
      if NameOdd(u) {
        assert parts[|parts| - 1] == [];
      } else {
        assert parts[|parts| - 1] == names[|names| - 1];
      }
    }
  }

  lemma LastNameInside(before: seq<Bytes>, u: Bytes)
    ensures var parts := before + LastInside(u);
            && |parts| >= 2
            && (u == [] ==> parts == before + [[' ']] + [[]])
            && (u != [] ==> parts[|parts| - 1] != u)
  {
    OutsideSizes(u);
    var parts := before + LastInside(u);
    var outs := Parts(false, [], u);
    if u != [] {
      if Odd(u) {
        assert parts[|parts| - 1] == outs[|outs| - 1];
      } else {
        assert parts[|parts| - 1] == [];
      }
    }
  }

  /** Two names, the reader being outside before the first. */
  lemma PairOutside(t: Bytes, u: Bytes)
    ensures var parts := NameParts(t) + (if NameOdd(t) then LastInside(u) else LastOutside(u));
            && |parts| >= 2
            && (SameEnd(parts, [t, u]) <==> Readable(InQuotes, t) && Readable(InQuotes, u))
  {
    var names := NameParts(t);
    NameSizes(t);
    NameSizes(u);
    if NameOdd(t) {
      LastNameInside(names, u);
    } else {
      LastNameOutside(names, u);
      assert !Readable(InQuotes, t) ==> names[|names| - 1] != t;
    }
  }

  /** Two names, the reader being inside a string before the first. */
  lemma PairInside(t: Bytes, u: Bytes)
    ensures var parts := [[' ']] + (Parts(false, [], t) + (if Odd(t) then LastOutside(u) else LastInside(u)));
            && |parts| >= 2
            && (SameEnd(parts, [t, u]) <==> t == [' '] && u == [])
  {
    var outs := Parts(false, [], t);
    var before := [[' ']] + outs;
    OutsideSizes(t);
    if Odd(t) {
      Assoc([[' ']], outs, LastOutside(u));
      FragmentBefore(before, outs, t, u);
    } else {
      Assoc([[' ']], outs, LastInside(u));
      GapBefore(before, t, u);
    }
  }

  /** A fragment of the first name comes before the last. */
  lemma FragmentBefore(before: seq<Bytes>, outs: seq<Bytes>, t: Bytes, u: Bytes)
    requires before == [[' ']] + outs && outs != [] && Shorter(outs, |t|)
    ensures var parts := before + LastOutside(u); |parts| >= 2 && !SameEnd(parts, [t, u])
  {
    LastNameOutside(before, u);
    assert before[|before| - 1] == outs[|outs| - 1];
  }

  /** The gap before the last name is read as a string, and the last one as the empty string. */
  lemma GapBefore(before: seq<Bytes>, t: Bytes, u: Bytes)
    ensures var parts := before + LastInside(u); |parts| >= 2 && (SameEnd(parts, [t, u]) <==> t == [' '] && u == [])
  {
    LastNameInside(before, u);
    if u == [] {
      var parts := before + LastInside(u);
      assert parts[|parts| - 2] == [' '];
    }
  }

  lemma EndConcat(a: seq<Bytes>, b: seq<Bytes>, c: seq<Bytes>, d: seq<Bytes>)
    requires |b| >= 2 && |d| >= 2
    ensures SameEnd(a + b, c + d) <==> SameEnd(b, d)
  {
  }

  lemma {:induction false} EndsRight(items: Items)
    requires AllStr(items) && items.Item? && items.rest.Item?
    ensures |Texts(items)| >= 2 && |Names(false, items)| >= 2 && |Names(true, items)| >= 2
    ensures SameEnd(Names(false, items), Texts(items)) <==> RightOutside(items)
    ensures SameEnd(Names(true, items), Texts(items)) <==> RightInside(items)
    decreases items
  {
    var t, rest := items.value.text, items.rest;
    Two(false, items);
    Two(true, items);
    if rest.rest.Empty? {
      var u := rest.value.text;
      LastTwo(t, rest);
      PairOutside(t, u);
      PairInside(t, u);
    } else {
      EndsRight(rest);
      assert Texts(items) == [t] + Texts(rest);
      EndConcat(NameParts(t), Names(NameOdd(t), rest), [t], Texts(rest));
      var outs, tail := Parts(false, [], t), Names(Side(false, t), rest);
      Assoc([[' ']], outs, tail);
      EndConcat([[' ']] + outs, tail, [t], Texts(rest));
    }
  }

  lemma LastTwo(t: Bytes, last: Items)
    requires last.Item? && last.value.Str? && last.rest.Empty?
    ensures Texts(Item(Str(t), last)) == [t, last.value.text]
    ensures Names(false, last) == LastOutside(last.value.text) && Names(true, last) == LastInside(last.value.text)
  {
    assert Texts(last) == [last.value.text] + Texts(last.rest);
    assert Names(false, last.rest) == [] && Names(true, last.rest) == [[]];
  }

  lemma EndsExactly(items: Items)
    requires AllStr(items)
    ensures FunctionHit(Names(false, items)) == FunctionHit(Texts(items)) <==> RightOutside(items)
  {
    if items.Item? {
      if items.rest.Item? {
        EndsRight(items);
        SameFunction(Names(false, items), Texts(items));
      } else {
        LastTwo([], items);
        OnlyText(items);
        OneName(items.value.text);
      }
    }
  }

  /** What is reported for a list of names is right exactly when its last two names are read as they are. */
  lemma NamesExactlyWhen(items: Items)
    requires AllStr(items)
    ensures FunctionHit(Quoted(PrintItems(items))) == FunctionHit(Texts(items)) <==> RightOutside(items)
  {
    ListReads(items);
    EndsExactly(items);
  }

  lemma OnlyText(items: Items)
    requires items.Item? && items.value.Str? && items.rest.Empty?
    ensures Texts(items) == [items.value.text]
  {
    assert Texts(items.rest) == [];
  }

  lemma OneName(t: Bytes)
    ensures FunctionHit(LastOutside(t)) == FunctionHit([t]) <==> Readable(InQuotes, t)
  {
    var parts := LastOutside(t);
    LastNameOutside([], t);
    assert [] + parts == parts;
    if !Readable(InQuotes, t) {
      assert FunctionHit(parts)[0].name == parts[|parts| - 1];
      assert FunctionHit([t])[0].name == t;
    }
  }

  // ----- Trees

  /** Function names are lists of String nodes. */
  predicate FuncNames(v: Tree) {
    match v
    case Node(_, fields) => FuncNamesIn(fields)
    case List(items) => FuncNamesAmong(items)
    case _ => true
  }

  predicate FuncNamesIn(fs: Fields) {
    match fs
    case End => true
    case Labelled(name, value, rest) =>
      (name == "funcname" && value.List? ==> AllStr(value.items)) && FuncNames(value) && FuncNamesIn(rest)
    case Flag(_, rest) => FuncNamesIn(rest)
  }

  predicate FuncNamesAmong(items: Items) {
    items.Item? ==> FuncNames(items.value) && FuncNamesAmong(items.rest)
  }

  /** Every function is named right. */
  predicate FunctionsRight(v: Tree)
    requires FuncNames(v)
  {
    match v
    case Node(_, fields) => FunctionsRightIn(fields)
    case List(items) => FunctionsRightAmong(items)
    case _ => true
  }

  predicate FunctionsRightIn(fs: Fields)
    requires FuncNamesIn(fs)
  {
    match fs
    case End => true
    case Labelled(name, value, rest) => LabelRight(name, value) && FunctionsRight(value) && FunctionsRightIn(rest)
    case Flag(_, rest) => FunctionsRightIn(rest)
  }

  predicate FunctionsRightAmong(items: Items)
    requires FuncNamesAmong(items)
  {
    items.Item? ==> FunctionsRight(items.value) && FunctionsRightAmong(items.rest)
  }

  predicate LabelRight(name: Bytes, value: Tree)
    requires name == "funcname" && value.List? ==> AllStr(value.items)
  {
    name == "funcname" && value.List? ==> RightOutside(value.items)
  }

  lemma LabelFunctions(name: Bytes, value: Tree, after: Bytes)
    requires IsIdent(name) && Shaped(value) && (name == "funcname" && value.List? ==> AllStr(value.items))
    ensures At(Functions, LabelText(name, value, after)) == LabelHits(Functions, name, value) <==> LabelRight(name, value)
  {
    LabelMatch(Functions, name, value, after);
    if name == Word(Functions) && value.List? {
      FunctionsAt(value.items, after);
      NamesExactlyWhen(value.items);
    }
  }

  lemma FunctionsAt(items: Items, after: Bytes)
    requires ShapedItems(items)
    ensures At(Functions, LabelText(Word(Functions), List(items), after)) == FunctionHit(Quoted(PrintItems(items)))
  {
    var rest := PrintItems(items) + ")" + after;
    assert Print(List(items)) + after == ['('] + rest;
    assert LabelText(Word(Functions), List(items), after) == Needle(Functions) + rest;
    AtNeedle(Functions, rest);
    BodyRoundTrip(End, items, after);
  }

  lemma NothingBefore(a: seq<Hit>, b: seq<Hit>)
    ensures [] + a == a && [] + b == b
  {
  }

  lemma {:induction false} RightTree(v: Tree, after: Bytes)
    requires Shaped(v) && FuncNames(v) && AfterValue(v, after)
    ensures Hits(Functions, Print(v), after) == Walk(Functions, v) <==> FunctionsRight(v)
    decreases v
  {
    match v
    case Node(tag, fields) =>
      NodeSplit(Functions, tag, fields, after);
      NodeMatch(Functions, tag, fields, after);
      RightFields(fields, ['}'] + after);
      NothingBefore(Hits(Functions, PrintFields(fields), ['}'] + after), WalkFields(Functions, fields));
    case List(items) =>
      ListSplit(Functions, items, after);
      RightItems(items, [')'] + after);
    case Token(text) =>
      NeverStray(Functions, text, Exposed(after));
      LeafHits(Functions, v, after);
    case Str(text) =>
      NeverStray(Functions, text, false);
      LeafHits(Functions, v, after);
    case _ => LeafHits(Functions, v, after);
  }

  lemma {:induction false} RightFields(fs: Fields, after: Bytes)
    requires ShapedFields(fs) && FuncNamesIn(fs) && after != [] && after[0] == '}'
    ensures Hits(Functions, PrintFields(fs), after) == WalkFields(Functions, fs) <==> FunctionsRightIn(fs)
    decreases fs
  {
    match fs
    case End =>
    case Labelled(name, value, rest) =>
      var tail := PrintFields(rest) + after;
      FieldsFollow(rest, after);
      FieldSplit(Functions, name, value, rest, after);
      LabelFunctions(name, value, tail);
      RightTree(value, tail);
      RightFields(rest, after);
      LabelCovers(Functions, name, value, tail);
      SearchCovers(Functions, value, tail);
      FieldsCovers(Functions, rest, after);
      var a, b := At(Functions, LabelText(name, value, tail)), Hits(Functions, Print(value), tail);
      var c, d := LabelHits(Functions, name, value), Walk(Functions, value);
      SplitIff(a, b, c, d);
      SplitIff(a + b, Hits(Functions, PrintFields(rest), after), c + d, WalkFields(Functions, rest));
    case Flag(word, rest) =>
      FlagSplit(Functions, word, rest, after);
      RightFields(rest, after);
  }

  lemma {:induction false} RightItems(items: Items, after: Bytes)
    requires ShapedItems(items) && FuncNamesAmong(items) && after != [] && after[0] == ')'
    ensures Hits(Functions, PrintItems(items), after) == WalkItems(Functions, items) <==> FunctionsRightAmong(items)
    decreases items
  {
    match items
    case Empty =>
    case Item(value, rest) =>
      var follow := if rest.Empty? then after else [' '] + (PrintItems(rest) + after);
      ItemSplit(Functions, value, rest, after);
      RightTree(value, follow);
      RightItems(rest, after);
      SearchCovers(Functions, value, follow);
      ItemsCovers(Functions, rest, after);
      SplitIff(Hits(Functions, Print(value), follow), Hits(Functions, PrintItems(rest), after),
               Walk(Functions, value), WalkItems(Functions, rest));
  }

  /**
   The functions are exactly the tree's, with their schemas and in its order, if
   and only if in every list of names the last two are read as they are.
   */
  lemma FunctionsExactlyWhen(v: Tree)
    requires Shaped(v) && FuncNames(v) && !v.Token?
    ensures Analyze(Print(v)).Report?
    ensures Analyze(Print(v)).functions == Walk(Functions, v) <==> FunctionsRight(v)
  {
    FirstByte(v);
    RightTree(v, []);
  }
}
