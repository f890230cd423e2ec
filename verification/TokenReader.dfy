/** `read_token` and `quoted_strings`, and the printed texts they invert. */
module TokenReader {
  import opened Options
  import opened Utf8
  import opened DumpTree

  /** A bare token runs to whitespace or a bracket, a quoted string to the closing quote. */
  datatype Mode = Bareword | InQuotes

  predicate Ends(m: Mode, c: char) {
    match m
    case InQuotes => c == '"'
    case Bareword =>
      || c == ' ' || c == '\t' || c == '\n' || c as int == 0x0C || c == '\r'
      || c == '}' || c == ')' || c == '{' || c == '('
  }

  predicate AtEnd(m: Mode, s: Bytes) {
    s == [] || Ends(m, s[0])
  }

  /** Bytes that end a token or string although `outToken` does not escape them. */
  predicate Misread(m: Mode, c: char) {
    Ends(m, c) && !Special(c)
  }

  predicate Legible(m: Mode, t: Bytes) {
    t == [] || (!Misread(m, t[0]) && Legible(m, t[1..]))
  }

  lemma {:induction false} LegibleMeans(m: Mode, t: Bytes)
    ensures Legible(m, t) <==> forall i :: 0 <= i < |t| ==> !Misread(m, t[i])
  {
    if t != [] {
      LegibleMeans(m, t[1..]);
      assert t == [t[0]] + t[1..];
    }
  }

  /** The text as printed, its first byte guarded where `outToken` guards it, reads back. */
  predicate Readable(m: Mode, t: Bytes) {
    t == [] || ((NeedsGuard(t) || !Misread(m, t[0])) && Legible(m, t[1..]))
  }

  /**
   What the loops collect.  A trailing backslash is dropped from a token and
   kept in a string.
   */
  function Text(m: Mode, s: Bytes): Bytes
    decreases |s|
  {
    if AtEnd(m, s) then []
    else if s[0] != '\\' then [s[0]] + Text(m, s[1..])
    else if |s| > 1 then [s[1]] + Text(m, s[2..])
    else if m == InQuotes then s else []
  }

  function Length(m: Mode, s: Bytes): (n: nat)
    ensures n <= |s|
    decreases |s|
  {
    if AtEnd(m, s) then 0
    else if s[0] != '\\' then 1 + Length(m, s[1..])
    else if |s| > 1 then 2 + Length(m, s[2..])
    else 1
  }

  function Read(s: Bytes): (Option<Bytes>, nat) {
    if "<>" <= s then (None, 2)
    else if "\"\"" <= s then (Some([]), 2)
    else (Some(Text(Bareword, s)), Length(Bareword, s))
  }

  /** `Text` and `Length` at an index, as the loops run. */
  function TextAt(m: Mode, s: Bytes, i: nat): Bytes
    decreases |s| - i
  {
    if i >= |s| || Ends(m, s[i]) then []
    else if s[i] != '\\' then [s[i]] + TextAt(m, s, i + 1)
    else if i + 1 < |s| then [s[i + 1]] + TextAt(m, s, i + 2)
    else if m == InQuotes then [s[i]] else []
  }

  function EndAt(m: Mode, s: Bytes, i: nat): (n: nat)
    ensures i <= |s| ==> i <= n <= |s|
    decreases |s| - i
  {
    if i >= |s| || Ends(m, s[i]) then i
    else if s[i] != '\\' then EndAt(m, s, i + 1)
    else if i + 1 < |s| then EndAt(m, s, i + 2)
    else i + 1
  }

  lemma {:induction false} AtIndex(m: Mode, s: Bytes, i: nat)
    requires i <= |s|
    ensures TextAt(m, s, i) == Text(m, s[i..])
    ensures EndAt(m, s, i) == i + Length(m, s[i..])
    decreases |s| - i
  {
    var t := s[i..];
    if !AtEnd(m, t) {
      if s[i] != '\\' {
        AtIndex(m, s, i + 1);
        assert t[1..] == s[i + 1..];
      } else if i + 1 < |s| {
        AtIndex(m, s, i + 2);
        assert t[2..] == s[i + 2..];
      }
    }
  }

  lemma AtStart(m: Mode, s: Bytes)
    ensures TextAt(m, s, 0) == Text(m, s) && EndAt(m, s, 0) == Length(m, s)
  {
    AtIndex(m, s, 0);
    assert s[0..] == s;
  }

  /** Bytes above 0x7F are copied, whichever way they are grouped into characters. */
  lemma {:induction false} CopyHigh(m: Mode, s: Bytes, i: nat, n: nat)
    requires i + n <= |s| && forall k :: i <= k < i + n ==> !Ascii(s[k])
    ensures TextAt(m, s, i) == s[i..i + n] + TextAt(m, s, i + n)
    ensures EndAt(m, s, i) == EndAt(m, s, i + n)
    decreases n
  {
    if n > 0 {
      CopyHigh(m, s, i + 1, n - 1);
      SliceCons(s, i, i + n, TextAt(m, s, i + n));
    }
  }

  lemma SliceCons(s: Bytes, i: nat, j: nat, rest: Bytes)
    requires i < j <= |s|
    ensures s[i..j] + rest == [s[i]] + (s[i + 1..j] + rest)
  {
  }

  /**
   Every backslash that is read stands before an ASCII byte.  An escaped byte
   above 0x7F is pushed like any other, and then the index is inside a character,
   where the next slice panics.
   */
  predicate ClearAt(m: Mode, s: Bytes, i: nat)
    decreases |s| - i
  {
    i >= |s| || Ends(m, s[i])
    || (if s[i] == '\\' && i + 1 < |s| then Ascii(s[i + 1]) && ClearAt(m, s, i + 2) else ClearAt(m, s, i + 1))
  }

  /** Reading a token here does not panic. */
  predicate TokenClear(s: Bytes) {
    "<>" <= s || "\"\"" <= s || ClearAt(Bareword, s, 0)
  }

  lemma {:induction false} ClearHigh(m: Mode, s: Bytes, i: nat, n: nat)
    requires i + n <= |s| && forall k :: i <= k < i + n ==> !Ascii(s[k])
    ensures ClearAt(m, s, i) <==> ClearAt(m, s, i + n)
    decreases n
  {
    if n > 0 {
      ClearHigh(m, s, i + 1, n - 1);
    }
  }

  /** The character behind index `i`, and the rest, agree with the text from `i` on. */
  ghost predicate Advances(m: Mode, s: Bytes, i: nat, pushed: Bytes, next: nat) {
    && ValidAt(s, next)
    && TextAt(m, s, i) == pushed + TextAt(m, s, next)
    && EndAt(m, s, i) == EndAt(m, s, next)
    && (ClearAt(m, s, i) <==> ClearAt(m, s, next))
  }

  /** The next index is inside a character: the byte before it was escaped and starts one. */
  predicate Splits(s: Bytes, next: nat) {
    next < |s| && Continuation(s[next])
  }

  /** One character of either loop: what it pushes and where it leaves the index. */
  method Advance(m: Mode, s: Bytes, i: nat) returns (pushed: Bytes, next: nat)
    requires i < |s| && ValidAt(s, i) && !Ends(m, s[i])
    ensures i < next <= |s|
    ensures Splits(s, next) ==> !ClearAt(m, s, i)
    ensures !Splits(s, next) ==> Advances(m, s, i, pushed, next)
  {
    if !Ascii(s[i]) {
      var n := LenAt(s, i);
      CopyHigh(m, s, i, n);
      ClearHigh(m, s, i, n);
      pushed, next := s[i..i + n], i + n;
      assert ValidAt(s, next);
    } else if s[i] == '\\' && i + 1 < |s| {
      EscapedByte(s, i);
      pushed, next := [s[i + 1]], i + 2;
    } else {
      pushed, next := if s[i] == '\\' && m == Bareword then [] else [s[i]], i + 1;
      assert ValidAt(s, next);
    }
  }

  /** Behind an escaped ASCII byte a character starts; behind the first byte of a longer one it goes on. */
  lemma EscapedByte(s: Bytes, i: nat)
    requires ValidAt(s, i) && i + 1 < |s| && Ascii(s[i])
    ensures Ascii(s[i + 1]) ==> ValidAt(s, i + 2)
    ensures !Ascii(s[i + 1]) ==> Splits(s, i + 2)
  {
    assert LenAt(s, i) == 1;
    assert LenAt(s, i + 1) > 0;
  }

  /**
   The loop that `read_token` and the inside of `quoted_strings` share: on every
   string it collects the unescaped text up to the first unescaped end, or panics
   on a slice inside a character exactly when a backslash it reads stands before
   a byte above 0x7F.
   */
  method Run(m: Mode, s: Bytes, from: nat) returns (r: Checked<(Bytes, nat)>)
    requires from <= |s| && ValidAt(s, from)
    ensures r.Panic? <==> !ClearAt(m, s, from)
    ensures r.Done? ==> r.value.0 == TextAt(m, s, from) && r.value.1 == EndAt(m, s, from)
  {
    var out: Bytes, i := [], from;
    while i < |s| && !Ends(m, s[i])
      invariant from <= i <= |s|
      invariant Splits(s, i) ==> !ClearAt(m, s, from)
      invariant !Splits(s, i) ==> Advances(m, s, from, out, i)
    {
      if !Ascii(s[i]) && !Boundary(s, i) {
        return Panic;
      }
      var pushed, next := Advance(m, s, i);
      Assoc(out, pushed, TextAt(m, s, next));
      out, i := out + pushed, next;
    }
    assert TextAt(m, s, i) == [] && EndAt(m, s, i) == i;
    return Done((out, i));
  }

  /**
   `read_token`, on every string: it reads what the byte-wise `Read` reads, or
   panics exactly when a backslash within the token stands before a byte above
   0x7F.
   */
  method ReadToken(s: Bytes) returns (r: Checked<(Option<Bytes>, nat)>)
    requires Valid(s)
    ensures r.Panic? <==> !TokenClear(s)
    ensures r.Done? ==> r.value == Read(s) && r.value.1 <= |s|
  {
    if "<>" <= s {
      return Done((None, 2));
    }
    if "\"\"" <= s {
      return Done((Some([]), 2));
    }
    ValidFromStart(s);
    var read :- Run(Bareword, s, 0);
    AtStart(Bareword, s);
    return Done((Some(read.0), read.1));
  }

  // ----- read_token inverts the token encoder

  lemma TextCons(m: Mode, c: char, s: Bytes)
    ensures c != '\\' && !Ends(m, c) ==> Text(m, [c] + s) == [c] + Text(m, s) && Length(m, [c] + s) == 1 + Length(m, s)
    ensures Ends(m, c) ==> Text(m, [c] + s) == []
    ensures Text(m, ['\\', c] + s) == [c] + Text(m, s) && Length(m, ['\\', c] + s) == 2 + Length(m, s)
  {
    assert ([c] + s)[1..] == s;
    assert (['\\', c] + s)[2..] == s;
  }

  lemma EscCons(t: Bytes, after: Bytes)
    requires t != []
    ensures Esc(t) + after == (if Special(t[0]) then ['\\', t[0]] else [t[0]]) + (Esc(t[1..]) + after)
    ensures |Esc(t)| == (if Special(t[0]) then 2 else 1) + |Esc(t[1..])|
  {
    var first := if Special(t[0]) then ['\\', t[0]] else [t[0]];
    assert Esc(t) == first + Esc(t[1..]);
    Assoc(first, Esc(t[1..]), after);
  }

  /** Escaped text that misreads nothing reads back whole. */
  lemma {:induction false} TextEsc(m: Mode, t: Bytes, after: Bytes)
    requires AtEnd(m, after) && Legible(m, t)
    ensures Text(m, Esc(t) + after) == t && Length(m, Esc(t) + after) == |Esc(t)|
    decreases |t|
  {
    if t == [] {
      assert Esc(t) + after == after;
    } else {
      EscCons(t, after);
      TextEsc(m, t[1..], after);
      TextCons(m, t[0], Esc(t[1..]) + after);
      assert t == [t[0]] + t[1..];
    }
  }

  /** Otherwise it reads back only up to the first byte it misreads. */
  lemma {:induction false} TextEscShort(m: Mode, t: Bytes, after: Bytes)
    requires !Legible(m, t)
    ensures |Text(m, Esc(t) + after)| < |t|
    decreases |t|
  {
    EscCons(t, after);
    TextCons(m, t[0], Esc(t[1..]) + after);
    if !Misread(m, t[0]) {
      TextEscShort(m, t[1..], after);
    }
  }

  lemma {:induction false} TextGuarded(m: Mode, t: Bytes, after: Bytes)
    requires AtEnd(m, after)
    ensures Readable(m, t) ==> Text(m, Guarded(t) + after) == t && Length(m, Guarded(t) + after) == |Guarded(t)|
    ensures !Readable(m, t) ==> |Text(m, Guarded(t) + after)| < |t|
  {
    if t == [] {
      assert Guarded(t) + after == after;
    } else if NeedsGuard(t) {
      TextBehindGuard(m, t, after);
    } else {
      assert Guarded(t) == Esc(t);
      if Legible(m, t) {
        TextEsc(m, t, after);
      } else {
        TextEscShort(m, t, after);
      }
    }
  }

  lemma GuardShape(t: Bytes, after: Bytes)
    requires NeedsGuard(t)
    ensures Guarded(t) + after == ['\\', t[0]] + (Esc(t[1..]) + after)
    ensures |Guarded(t)| == 2 + |Esc(t[1..])|
  {
    assert Guarded(t) == ['\\', t[0]] + Esc(t[1..]);
    Assoc(['\\', t[0]], Esc(t[1..]), after);
  }

  lemma TextBehindGuard(m: Mode, t: Bytes, after: Bytes)
    requires AtEnd(m, after) && NeedsGuard(t)
    ensures Legible(m, t[1..]) ==> Text(m, Guarded(t) + after) == t && Length(m, Guarded(t) + after) == |Guarded(t)|
    ensures !Legible(m, t[1..]) ==> |Text(m, Guarded(t) + after)| < |t|
  {
    var rest := Esc(t[1..]) + after;
    GuardShape(t, after);
    TextCons(m, t[0], rest);
    assert t == [t[0]] + t[1..];
    if Legible(m, t[1..]) {
      TextEsc(m, t[1..], after);
    } else {
      TextEscShort(m, t[1..], after);
    }
  }

  /** A nonempty token never starts like NULL or like the empty string. */
  lemma GuardedStart(t: Bytes)
    requires t != []
    ensures Guarded(t) != [] && Guarded(t)[0] != '<' && Guarded(t)[0] != '"'
  {
    if !NeedsGuard(t) {
      assert Guarded(t) == Esc(t);
    }
  }

  lemma ReadPlain(s: Bytes)
    requires s != [] && s[0] != '<' && s[0] != '"'
    ensures Read(s) == (Some(Text(Bareword, s)), Length(Bareword, s))
  {
  }

  lemma ReadGuarded(t: Bytes, after: Bytes)
    requires AtEnd(Bareword, after) && t != []
    ensures Read(Guarded(t) + after).0.Some?
    ensures Read(Guarded(t) + after).0 == Some(t) <==> Legible(Bareword, t)
    ensures Legible(Bareword, t) ==> Read(Guarded(t) + after).1 == |Guarded(t)|
  {
    GuardedStart(t);
    ReadPlain(Guarded(t) + after);
    TextGuarded(Bareword, t, after);
    assert NeedsGuard(t) ==> !Misread(Bareword, t[0]);
  }

  /** Nothing in the text is CR or FF. */
  predicate NoCrFf(t: Bytes) {
    forall i :: 0 <= i < |t| ==> t[i] != '\r' && t[i] as int != 0x0C
  }

  /** The bytes that end a token and that `outToken` does not escape are CR and FF, and no others. */
  lemma LegibleBareword(t: Bytes)
    ensures Legible(Bareword, t) <==> NoCrFf(t)
  {
    LegibleMeans(Bareword, t);
    assert forall c: char :: Misread(Bareword, c) <==> c == '\r' || c as int == 0x0C;
  }

  /** The end of the text, whitespace or a bracket. */
  predicate TokenEnds(after: Bytes) {
    || after == []
    || after[0] == ' ' || after[0] == '\t' || after[0] == '\n' || after[0] == '\r' || after[0] as int == 0x0C
    || after[0] == '{' || after[0] == '}' || after[0] == '(' || after[0] == ')'
  }

  /**
   The token round trip: a printed token, followed by whitespace, a bracket or the
   end of the text, is read back exactly when it holds no CR and no FF, and then
   its whole printed length is consumed.  NULL is read as no token; every other
   text, the empty one included, is read as a token.
   */
  lemma TokenRoundTrip(t: Bytes, after: Bytes)
    requires TokenEnds(after)
    ensures Read(Print(Null) + after) == (None, 2)
    ensures Read(Print(Token(t)) + after).0.Some?
    ensures Read(Print(Token(t)) + after).0 == Some(t)
            <==> forall i :: 0 <= i < |t| ==> t[i] != '\r' && t[i] as int != 0x0C
    ensures NoCrFf(t) ==> Read(Print(Token(t)) + after).1 == |Print(Token(t))|
  {
    assert Print(Null) + after == "<>" + after;
    LegibleBareword(t);
    if t == [] {
      assert "\"\"" <= "\"\"" + after && ("\"\"" + after)[0] == '"';
    } else {
      ReadGuarded(t, after);
    }
  }

  /** A backslash that nothing follows is dropped from a token, and kept in a string. */
  lemma {:induction false} TrailingBackslash(t: Bytes)
    requires forall i :: 0 <= i < |t| ==> IdentByte(t[i])
    ensures Text(Bareword, t + "\\") == t && Length(Bareword, t + "\\") == |t| + 1
    ensures Text(InQuotes, t + "\\") == t + "\\"
    decreases |t|
  {
    var s := t + "\\";
    if t == [] {
      assert s == "\\";
    } else {
      TrailingBackslash(t[1..]);
      assert s == [t[0]] + (t[1..] + "\\");
      TextCons(Bareword, t[0], t[1..] + "\\");
      TextCons(InQuotes, t[0], t[1..] + "\\");
      assert t == [t[0]] + t[1..];
    }
  }

  // ----- quoted_strings

  function Quoted(s: Bytes): seq<Bytes>
    decreases |s|
  {
    if s == [] then []
    else if s[0] != '"' then Quoted(s[1..])
    else
      var close := 1 + Length(InQuotes, s[1..]);
      [Text(InQuotes, s[1..])] + (if close < |s| then Quoted(s[close + 1..]) else [])
  }

  /** `Quoted` at an index, as the loop runs; the index may be one past the end. */
  function QuotedAt(s: Bytes, i: nat): seq<Bytes>
    decreases |s| - i
  {
    if i >= |s| then []
    else if s[i] != '"' then QuotedAt(s, i + 1)
    else [TextAt(InQuotes, s, i + 1)] + QuotedAt(s, EndAt(InQuotes, s, i + 1) + 1)
  }

  lemma {:induction false} QuotedAtIndex(s: Bytes, i: nat)
    requires i <= |s|
    ensures QuotedAt(s, i) == Quoted(s[i..])
    decreases |s| - i
  {
    if i < |s| {
      if s[i] != '"' {
        QuotedAtIndex(s, i + 1);
        QuotedSkip(s, i);
      } else {
        var close := EndAt(InQuotes, s, i + 1);
        if close < |s| {
          QuotedAtIndex(s, close + 1);
        }
        QuotedStep(s, i);
      }
    }
  }

  lemma QuotedSkip(s: Bytes, i: nat)
    requires i < |s| && s[i] != '"'
    ensures Quoted(s[i..]) == Quoted(s[i + 1..])
  {
    assert s[i..][1..] == s[i + 1..];
  }

  /** What `Quoted` does at an opening quote, by index. */
  lemma QuotedStep(s: Bytes, i: nat)
    requires i < |s| && s[i] == '"'
    ensures var close := EndAt(InQuotes, s, i + 1);
            Quoted(s[i..]) == [TextAt(InQuotes, s, i + 1)] + (if close < |s| then Quoted(s[close + 1..]) else [])
  {
    var t := s[i..];
    assert t[1..] == s[i + 1..];
    AtIndex(InQuotes, s, i + 1);
    var close := EndAt(InQuotes, s, i + 1);
    if close < |s| {
      assert t[close - i + 1..] == s[close + 1..];
    }
  }

  /** Reading the strings from here on does not panic. */
  predicate QuotedClearAt(s: Bytes, i: nat)
    decreases |s| - i
  {
    i >= |s|
    || (if s[i] != '"' then QuotedClearAt(s, i + 1)
        else ClearAt(InQuotes, s, i + 1) && QuotedClearAt(s, EndAt(InQuotes, s, i + 1) + 1))
  }

  /** One string, from its opening quote to behind its closing quote. */
  method NextString(body: Bytes, i: nat) returns (r: Checked<(Bytes, nat)>)
    requires Valid(body) && i < |body| && body[i] == '"'
    ensures r.Panic? ==> !QuotedClearAt(body, i)
    ensures r.Done? ==>
              && i < r.value.1 <= |body| + 1 && QuotedAt(body, i) == [r.value.0] + QuotedAt(body, r.value.1)
              && (QuotedClearAt(body, i) <==> QuotedClearAt(body, r.value.1))
  {
    BehindQuote(body, i);
    StringStep(body, i);
    var read :- Run(InQuotes, body, i + 1);
    var (text, close) := read;
    assert QuotedAt(body, i) == [text] + QuotedAt(body, close + 1);
    return Done((text, close + 1));
  }

  lemma BehindQuote(body: Bytes, i: nat)
    requires Valid(body) && i < |body| && body[i] == '"'
    ensures ValidAt(body, i + 1)
  {
    ValidFromStart(body);
    ValidAfter(body, 0, i);
  }

  lemma StringStep(body: Bytes, i: nat)
    requires i < |body| && body[i] == '"'
    ensures var j := EndAt(InQuotes, body, i + 1);
            && QuotedAt(body, i) == [TextAt(InQuotes, body, i + 1)] + QuotedAt(body, j + 1)
            && (QuotedClearAt(body, i) <==> ClearAt(InQuotes, body, i + 1) && QuotedClearAt(body, j + 1))
  {
  }

  /**
   `quoted_strings`, on every string: all quoted strings in order, unescaped, or a
   panic exactly when a backslash within one of them stands before a byte above
   0x7F.
   */
  method QuotedStrings(body: Bytes) returns (r: Checked<seq<Bytes>>)
    requires Valid(body)
    ensures r.Panic? <==> !QuotedClearAt(body, 0)
    ensures r.Done? ==> r.value == Quoted(body)
  {
    var out: seq<Bytes>, i := [], 0;
    while i < |body|
      invariant 0 <= i <= |body| + 1
      invariant QuotedAt(body, 0) == out + QuotedAt(body, i)
      invariant QuotedClearAt(body, 0) <==> QuotedClearAt(body, i)
    {
      if body[i] != '"' {
        i := i + 1;
        continue;
      }
      var next :- NextString(body, i);
      Assoc(out, [next.0], QuotedAt(body, next.1));
      out, i := out + [next.0], next.1;
    }
    QuotedFromStart(body);
    return Done(out);
  }

  lemma QuotedFromStart(body: Bytes)
    ensures QuotedAt(body, 0) == Quoted(body)
  {
    QuotedAtIndex(body, 0);
    assert body[0..] == body;
  }

  /** A list of String nodes. */
  predicate AllStr(items: Items) {
    items.Item? ==> items.value.Str? && AllStr(items.rest)
  }

  /** The texts of the String nodes directly in a list. */
  function Texts(items: Items): seq<Bytes> {
    if items.Empty? then []
    else (if items.value.Str? then [items.value.text] else []) + Texts(items.rest)
  }

  /** No name in the list has a double quote after its first byte. */
  predicate NamesReadable(items: Items) {
    items.Item? ==> items.value.Str? && Readable(InQuotes, items.value.text) && NamesReadable(items.rest)
  }

  /** `outToken` escapes a double quote at the start of a text and nowhere else. */
  lemma ReadableInQuotes(t: Bytes)
    ensures Readable(InQuotes, t) <==> forall i :: 0 < i < |t| ==> t[i] != '"'
  {
    if t != [] {
      LegibleMeans(InQuotes, t[1..]);
      assert forall i :: 0 < i < |t| ==> t[i] == t[1..][i - 1];
      assert forall i :: 0 <= i < |t| - 1 ==> t[1..][i] == t[i + 1];
    }
  }

  /** What a printed list of names reads as, one name at a time. */
  lemma QuotedFirst(t: Bytes, tail: Bytes)
    ensures Readable(InQuotes, t) ==> Quoted(Print(Str(t)) + tail) == [t] + Quoted(tail)
    ensures !Readable(InQuotes, t) ==> Quoted(Print(Str(t)) + tail) != [] && |Quoted(Print(Str(t)) + tail)[0]| < |t|
  {
    var after := "\"" + tail;
    var s := Print(Str(t)) + tail;
    assert s[1..] == Guarded(t) + after;
    TextGuarded(InQuotes, t, after);
    if Readable(InQuotes, t) {
      assert s[1 + |Guarded(t)| + 1..] == tail;
    }
  }

  /**
   `quoted_strings` reads back a printed list of names, in order, exactly when
   no name has a double quote after its first byte.
   */
  lemma {:induction false} NameListRoundTrip(items: Items)
    requires AllStr(items)
    ensures Quoted(PrintItems(items)) == Texts(items) <==> NamesReadable(items)
    decreases items
  {
    if items.Item? {
      var t := items.value.text;
      var tail := if items.rest.Empty? then [] else " " + PrintItems(items.rest);
      QuotedFirst(t, tail);
      assert PrintItems(items) == Print(Str(t)) + tail;
      if items.rest.Item? {
        assert tail[1..] == PrintItems(items.rest);
        NameListRoundTrip(items.rest);
      }
      assert Quoted(tail) == if items.rest.Empty? then [] else Quoted(PrintItems(items.rest));
      assert ([t] + Quoted(tail))[1..] == Quoted(tail);
      assert Texts(items) == [t] + Texts(items.rest);
      assert Texts(items)[1..] == Texts(items.rest);
    }
  }
}
