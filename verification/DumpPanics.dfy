/**
 When `analyze_dump` panics.  A backslash before a byte above 0x7F, where a token
 or a string is read, leaves the index inside a character, and the next slice
 panics; nothing else does.  The dump of a tree never holds one.
 */
module DumpPanics {
  import opened Options
  import opened Utf8
  import opened DumpTree
  import opened TokenReader
  import opened DumpScan
  import opened DumpExact

  // ----- What is read where

  /** If the first marker is at this index, reading a token behind it does not panic. */
  ghost predicate FirstClear(q: Query, body: Bytes, p: nat) {
    FoundAt(q, body, p) && Misses(q, body, 0, p) ==> TokenClear(body[p + |Needle(q)|..])
  }

  /** Reading a field does not panic: only what follows the first marker is read. */
  ghost predicate FieldClear(q: Query, body: Bytes) {
    forall p: nat :: FirstClear(q, body, p)
  }

  /** Reading what follows a marker does not panic.  The schema is read only if there is a name. */
  ghost predicate ReadClear(q: Query, s: Bytes) {
    match q
    case Relations =>
      && FieldClear(RelName, Body(Brace, s))
      && (FirstText(Hits(RelName, Body(Brace, s), [])).Some? ==> FieldClear(SchemaName, Body(Brace, s)))
    case Ctes => TokenClear(s)
    case Functions => QuotedClearAt(Body(Paren, s), 0)
    case _ => true
  }

  /** If there is a marker at this index, reading what follows it does not panic. */
  ghost predicate MarkerClear(q: Query, dump: Bytes, p: nat) {
    FoundAt(q, dump, p) ==> ReadClear(q, dump[p + |Needle(q)|..])
  }

  /** No reading at any of the markers panics. */
  ghost predicate AllClear(q: Query, dump: Bytes) {
    forall p: nat :: MarkerClear(q, dump, p)
  }

  /** Analyzing the dump does not panic. */
  ghost predicate DumpClear(dump: Bytes) {
    AllClear(Relations, dump) && AllClear(Ctes, dump) && AllClear(Functions, dump)
  }

  // ----- Text that is safe wherever reading starts

  /**
   From `i` on, read the way the loops read it, the text consists of well-formed
   characters, and a backslash escapes one ASCII byte.
   */
  predicate SafeFrom(s: Bytes, i: nat)
    decreases |s| - i
  {
    i >= |s|
    || (&& LenAt(s, i) > 0
        && (if s[i] == '\\' && i + 1 < |s| then Ascii(s[i + 1]) && SafeFrom(s, i + 2)
            else SafeFrom(s, i + LenAt(s, i))))
  }

  /** Reading may start after any ASCII byte that is no backslash. */
  lemma {:induction false} SafeSuffix(s: Bytes, i: nat, k: nat)
    requires SafeFrom(s, i) && i <= k < |s| && Ascii(s[k]) && s[k] != '\\'
    ensures SafeFrom(s, k + 1)
    decreases |s| - i
  {
    if i < k && !(s[i] == '\\' && k == i + 1) {
      SafeSuffix(s, if s[i] == '\\' then i + 2 else i + LenAt(s, i), k);
    }
  }

  lemma {:induction false} SafeShift(s: Bytes, p: nat, i: nat)
    requires p + i <= |s| && SafeFrom(s, p + i)
    ensures SafeFrom(s[p..], i)
    decreases |s| - p - i
  {
    var t := s[p..];
    if i < |t| {
      assert LenAt(t, i) == LenAt(s, p + i);
      SafeShift(s, p, if t[i] == '\\' && i + 1 < |t| then i + 2 else i + LenAt(t, i));
    }
  }

  /** Text may be cut in front of any ASCII byte. */
  lemma {:induction false} SafeCut(s: Bytes, k: nat, i: nat)
    requires i <= k <= |s| && SafeFrom(s, i) && (k < |s| ==> Ascii(s[k]))
    ensures SafeFrom(s[..k], i)
    decreases k - i
  {
    var t := s[..k];
    if i < k {
      var n := LenAt(s, i);
      assert forall m :: i < m < i + n ==> Continuation(s[m]);
      assert i + n <= k;
      assert LenAt(t, i) == n;
      if t[i] == '\\' && i + 1 == k {
        assert SafeFrom(t, k);
      } else {
        SafeCut(s, k, if t[i] == '\\' then i + 2 else i + n);
      }
    }
  }

  lemma {:induction false} ExtentStops(b: Bracket, s: Bytes, depth: nat)
    ensures Extent(b, s, depth) < |s| ==> s[Extent(b, s, depth)] == Close(b)
    decreases |s|
  {
    if s != [] {
      if s[0] == '\\' {
        if |s| > 1 {
          ExtentStops(b, s[2..], depth);
        }
      } else if s[0] != Close(b) || depth != 0 {
        ExtentStops(b, s[1..], if s[0] == Open(b) then depth + 1 else if s[0] == Close(b) then depth - 1 else depth);
      }
    }
  }

  lemma BodySafe(b: Bracket, s: Bytes)
    requires SafeFrom(s, 0)
    ensures SafeFrom(Body(b, s), 0)
  {
    ExtentStops(b, s, 0);
    SafeCut(s, Extent(b, s, 0), 0);
  }

  lemma NeedleEnd(q: Query)
    requires WordOk(q)
    ensures var c := Needle(q)[|Needle(q)| - 1]; Ascii(c) && c != '\\'
  {
    WordIsIdent(q);
    var n := Needle(q);
    if Tail(q) == [] {
      assert n[|n| - 1] == Word(q)[|Word(q)| - 1];
    } else {
      assert n[|n| - 1] == Tail(q)[|Tail(q)| - 1];
    }
  }

  lemma PrefixByte(w: Bytes, s: Bytes, p: nat, k: nat)
    requires p <= |s| && w <= s[p..] && k < |w|
    ensures p + |w| <= |s| && s[p + k] == w[k]
  {
    assert s[p + k] == s[p..][k];
  }

  /** A marker ends in an ASCII byte that is no backslash. */
  lemma MarkerEnd(q: Query, s: Bytes, p: nat)
    requires WordOk(q) && FoundAt(q, s, p)
    ensures p + |Needle(q)| <= |s|
    ensures var c := s[p + |Needle(q)| - 1]; Ascii(c) && c != '\\'
  {
    NeedleEnd(q);
    PrefixByte(Needle(q), s, p, |Needle(q)| - 1);
  }

  /** What follows a marker may be read. */
  lemma AfterNeedleSafe(q: Query, s: Bytes, p: nat)
    requires WordOk(q) && SafeFrom(s, 0) && FoundAt(q, s, p)
    ensures p + |Needle(q)| <= |s| && SafeFrom(s, p + |Needle(q)|)
  {
    MarkerEnd(q, s, p);
    SafeSuffix(s, 0, p + |Needle(q)| - 1);
  }

  // ----- Safe text does not panic

  lemma {:induction false} SafeIsClear(m: Mode, s: Bytes, i: nat)
    requires SafeFrom(s, i)
    ensures ClearAt(m, s, i)
    decreases |s| - i
  {
    if i < |s| && !Ends(m, s[i]) {
      if s[i] == '\\' && i + 1 < |s| {
        SafeIsClear(m, s, i + 2);
      } else {
        var n := LenAt(s, i);
        SafeIsClear(m, s, i + n);
        if n > 1 {
          ClearHigh(m, s, i, n);
        }
      }
    }
  }

  lemma {:induction false} SafeQuotes(s: Bytes, i: nat)
    requires SafeFrom(s, 0)
    ensures QuotedClearAt(s, i)
    decreases |s| - i
  {
    if i < |s| {
      if s[i] != '"' {
        SafeQuotes(s, i + 1);
      } else {
        SafeSuffix(s, 0, i);
        SafeIsClear(InQuotes, s, i + 1);
        SafeQuotes(s, EndAt(InQuotes, s, i + 1) + 1);
      }
    }
  }

  lemma SafeBehind(q: Query, s: Bytes, p: nat)
    requires WordOk(q) && SafeFrom(s, 0) && FoundAt(q, s, p)
    ensures p + |Needle(q)| <= |s| && SafeFrom(s[p + |Needle(q)|..], 0)
  {
    AfterNeedleSafe(q, s, p);
    SafeShift(s, p + |Needle(q)|, 0);
  }

  lemma SafeField(q: Query, body: Bytes)
    requires WordOk(q) && SafeFrom(body, 0)
    ensures FieldClear(q, body)
  {
    forall p: nat
      ensures FirstClear(q, body, p)
    {
      if FoundAt(q, body, p) {
        SafeBehind(q, body, p);
        SafeIsClear(Bareword, body[p + |Needle(q)|..], 0);
      }
    }
  }

  lemma SafeRead(q: Query, s: Bytes)
    requires SafeFrom(s, 0)
    ensures ReadClear(q, s)
  {
    match q
    case Relations =>
      BodySafe(Brace, s);
      SafeField(RelName, Body(Brace, s));
      SafeField(SchemaName, Body(Brace, s));
    case Ctes => SafeIsClear(Bareword, s, 0);
    case Functions =>
      BodySafe(Paren, s);
      SafeQuotes(Body(Paren, s), 0);
    case _ =>
  }

  lemma SafeSearch(q: Query, dump: Bytes)
    requires WordOk(q) && SafeFrom(dump, 0)
    ensures AllClear(q, dump)
  {
    forall p: nat
      ensures MarkerClear(q, dump, p)
    {
      if FoundAt(q, dump, p) {
        SafeBehind(q, dump, p);
        SafeRead(q, dump[p + |Needle(q)|..]);
      }
    }
  }

  // ----- Printed trees are safe to read

  /** Safe text that does not end in the middle of an escape. */
  predicate Whole(s: Bytes)
    decreases |s|
  {
    s == []
    || (FirstLen(s) > 0
        && if s[0] == '\\' then |s| > 1 && Ascii(s[1]) && Whole(s[2..]) else Whole(s[FirstLen(s)..]))
  }

  lemma {:induction false} WholeIsSafe(s: Bytes, i: nat)
    requires i <= |s| && Whole(s[i..])
    ensures SafeFrom(s, i)
    decreases |s| - i
  {
    if i < |s| {
      var t := s[i..];
      assert FirstLen(t) == LenAt(s, i);
      var n := if s[i] == '\\' then 2 else LenAt(s, i);
      DropTwice(s, i, n);
      WholeIsSafe(s, i + n);
    }
  }

  lemma DropTwice(s: Bytes, i: nat, n: nat)
    requires i + n <= |s|
    ensures s[i..][n..] == s[i + n..]
  {
  }

  lemma {:induction false} WholeConcat(a: Bytes, b: Bytes)
    requires Whole(a) && Whole(b)
    ensures Whole(a + b)
    decreases |a|
  {
    if a == [] {
      assert a + b == b;
    } else {
      FirstLenPrefix(a, b);
      if a[0] == '\\' {
        WholeConcat(a[2..], b);
        DropConcat(a, b, 2);
      } else {
        var n := FirstLen(a);
        WholeConcat(a[n..], b);
        DropConcat(a, b, n);
      }
    }
  }

  lemma {:induction false} PlainWhole(w: Bytes)
    requires forall i :: 0 <= i < |w| ==> Ascii(w[i]) && w[i] != '\\'
    ensures Whole(w)
    decreases |w|
  {
    if w != [] {
      PlainWhole(w[1..]);
    }
  }

  /** Escaping leaves bytes above 0x7F as they are. */
  lemma {:induction false} EscHigh(high: Bytes, rest: Bytes)
    requires forall i :: 0 <= i < |high| ==> !Ascii(high[i])
    ensures Esc(high + rest) == high + Esc(rest)
    decreases |high|
  {
    if high == [] {
      assert high + rest == rest;
    } else {
      EscHigh(high[1..], rest);
      assert (high + rest)[1..] == high[1..] + rest;
      Assoc([high[0]], high[1..], Esc(rest));
      assert [high[0]] + high[1..] == high;
    }
  }

  lemma WholeEscape(c: char, s: Bytes)
    requires Ascii(c) && Whole(s)
    ensures Whole(['\\', c] + s)
  {
    var t := ['\\', c] + s;
    assert t[2..] == s && FirstLen(t) == 1;
  }

  lemma WholeByte(c: char, s: Bytes)
    requires Ascii(c) && c != '\\' && Whole(s)
    ensures Whole([c] + s)
  {
    var t := [c] + s;
    assert t[1..] == s && FirstLen(t) == 1;
  }

  /** A character above 0x7F. */
  lemma WholeHigh(first: Bytes, s: Bytes)
    requires first != [] && FirstLen(first) == |first| && !Ascii(first[0]) && Whole(s)
    ensures Whole(first + s)
  {
    assert first[|first|..] == [];
    assert Whole(first);
    WholeConcat(first, s);
  }

  lemma FirstCharacter(t: Bytes)
    requires t != [] && FirstLen(t) > 0 && !Ascii(t[0])
    ensures var n := FirstLen(t);
            && t == t[..n] + t[n..] && FirstLen(t[..n]) == n
            && (forall i :: 0 <= i < n ==> !Ascii(t[..n][i]))
  {
  }

  lemma {:induction false} EscWhole(t: Bytes)
    requires Valid(t)
    ensures Whole(Esc(t))
    decreases |t|
  {
    if t != [] {
      var n := FirstLen(t);
      EscWhole(t[n..]);
      if !Ascii(t[0]) {
        FirstCharacter(t);
        EscHigh(t[..n], t[n..]);
        WholeHigh(t[..n], Esc(t[n..]));
      } else if Special(t[0]) {
        WholeEscape(t[0], Esc(t[1..]));
      } else {
        WholeByte(t[0], Esc(t[1..]));
      }
    }
  }

  lemma GuardedWhole(t: Bytes)
    requires Valid(t)
    ensures Whole(Guarded(t))
  {
    EscWhole(t);
    if NeedsGuard(t) {
      EscWhole(t[1..]);
      GuardShape(t, []);
      assert Guarded(t) + [] == Guarded(t) && Esc(t[1..]) + [] == Esc(t[1..]);
      WholeEscape(t[0], Esc(t[1..]));
    } else {
      assert Guarded(t) == Esc(t);
    }
  }

  lemma LeafWhole(v: Tree)
    requires Shaped(v) && ValidTexts(v) && !v.Node? && !v.List?
    ensures Whole(Print(v))
  {
    match v
    case Null => PlainWhole("<>");
    case Bare(word) => PlainWhole(word);
    case Token(text) =>
      if text == [] {
        PlainWhole("\"\"");
      } else {
        GuardedWhole(text);
      }
    case Str(text) =>
      GuardedWhole(text);
      PlainWhole("\"");
      WholeConcat("\"", Guarded(text));
      WholeConcat("\"" + Guarded(text), "\"");
  }

  lemma {:induction false} PrintWhole(v: Tree)
    requires Shaped(v) && ValidTexts(v)
    ensures Whole(Print(v))
    decreases v, 0
  {
    match v
    case Node(tag, fields) =>
      PlainWhole("{" + tag);
      FieldsWhole(fields);
      PlainWhole("}");
      WholeConcat("{" + tag, PrintFields(fields));
      WholeConcat("{" + tag + PrintFields(fields), "}");
    case List(items) =>
      PlainWhole("(");
      ItemsWhole(items);
      PlainWhole(")");
      WholeConcat("(", PrintItems(items));
      WholeConcat("(" + PrintItems(items), ")");
    case _ => LeafWhole(v);
  }

  lemma {:induction false} FieldsWhole(fs: Fields)
    requires ShapedFields(fs) && ValidTextsFields(fs)
    ensures Whole(PrintFields(fs))
    decreases fs, 0
  {
    match fs
    case End =>
    case Labelled(name, value, rest) =>
      var head := " :" + name + " ";
      PlainWhole(head);
      PrintWhole(value);
      FieldsWhole(rest);
      WholeConcat(head, Print(value));
      WholeConcat(head + Print(value), PrintFields(rest));
    case Flag(word, rest) =>
      PlainWhole(" " + word);
      FieldsWhole(rest);
      WholeConcat(" " + word, PrintFields(rest));
  }

  lemma {:induction false} ItemsWhole(items: Items)
    requires ShapedItems(items) && ValidTextsItems(items)
    ensures Whole(PrintItems(items))
    decreases items, 0
  {
    match items
    case Empty =>
    case Item(value, rest) =>
      PrintWhole(value);
      ItemsWhole(rest);
      if rest.Empty? {
        assert PrintItems(items) == Print(value);
      } else {
        PlainWhole(" ");
        WholeConcat(" ", PrintItems(rest));
        WholeConcat(Print(value), " " + PrintItems(rest));
      }
  }

  /** The dump of every shaped tree whose texts are strings is a string, and analyzing it does not panic. */
  lemma PrintedTreesAreClear(v: Tree)
    requires Shaped(v) && ValidTexts(v)
    ensures Valid(Print(v)) && DumpClear(Print(v))
  {
    var s := Print(v);
    PrintWhole(v);
    WholeIsValid(s);
    assert s[0..] == s;
    WholeIsSafe(s, 0);
    SafeSearch(Relations, s);
    SafeSearch(Ctes, s);
    SafeSearch(Functions, s);
  }

  lemma {:induction false} WholeIsValid(s: Bytes)
    requires Whole(s)
    ensures Valid(s)
    decreases |s|
  {
    if s != [] {
      if s[0] == '\\' {
        WholeIsValid(s[2..]);
        assert s[1..][1..] == s[2..];
        assert FirstLen(s) == 1 && FirstLen(s[1..]) == 1;
      } else {
        WholeIsValid(s[FirstLen(s)..]);
      }
    }
  }
}
