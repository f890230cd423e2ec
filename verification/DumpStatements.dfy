/**
 The statement count and kind, exactly when they are right.  A text that spells
 `{RAWSTMT` is taken for a statement only if a `:stmt` node follows it within the
 node that the text stands in.
 */
module DumpStatements {
  import opened Options
  import opened Utf8
  import opened DumpTree
  import opened TokenReader
  import opened DumpScan
  import opened DumpExact

  /** A text that holds the statement marker. */
  predicate Spells(t: Bytes) {
    Stray(Statements, t, false)
  }

  lemma {:induction false} SpellsAnywhere(t: Bytes, exposed: bool)
    ensures Stray(Statements, t, exposed) <==> Spells(t)
    decreases |t|
  {
    if t != [] {
      SpellsAnywhere(t[1..], exposed);
    }
  }

  // ----- The condition, on the tree alone

  /** No text is taken for a statement; `follows` says that a :stmt node follows in the node around this value. */
  predicate Unfooled(v: Tree, follows: bool)
    decreases v
  {
    match v
    case Token(text) => !(follows && Spells(text))
    case Str(text) => !(follows && Spells(text))
    case Node(_, fields) => UnfooledFields(fields)
    case List(items) => UnfooledItems(items, follows)
    case _ => true
  }

  predicate UnfooledFields(fs: Fields)
    decreases fs
  {
    match fs
    case End => true
    case Labelled(_, value, rest) => Unfooled(value, WalkFields(StatementTag, rest) != []) && UnfooledFields(rest)
    case Flag(_, rest) => UnfooledFields(rest)
  }

  predicate UnfooledItems(items: Items, follows: bool)
    decreases items
  {
    match items
    case Empty => true
    case Item(value, rest) =>
      && Unfooled(value, follows || WalkItems(StatementTag, rest) != [])
      && UnfooledItems(rest, follows)
  }

  // ----- What follows in the node around

  /** The :stmt nodes found from here to the end of the node around. */
  function Later(after: Bytes): seq<Hit> {
    Hits(StatementTag, Body(Brace, after), [])
  }

  /** Text that the bracket scan passes over in one piece. */
  lemma LaterSkips(s: Bytes, after: Bytes)
    requires Extent(Brace, s + after, 0) == |s| + Extent(Brace, after, 0)
    ensures Later(s + after) == Hits(StatementTag, s, Body(Brace, after)) + Later(after)
  {
    BodySkips(s, after);
    HitsToEnd(StatementTag, s, Body(Brace, after));
  }

  lemma BodySkips(s: Bytes, after: Bytes)
    requires Extent(Brace, s + after, 0) == |s| + Extent(Brace, after, 0)
    ensures Body(Brace, s + after) == s + Body(Brace, after)
  {
    TakeConcat(s, after, Extent(Brace, after, 0));
  }

  lemma HitsToEnd(q: Query, s: Bytes, body: Bytes)
    ensures Hits(q, s + body, []) == Hits(q, s, body) + Hits(q, body, [])
  {
    HitsConcat(q, s, body, []);
    assert body + [] == body;
  }

  lemma TakeConcat(s: Bytes, after: Bytes, n: nat)
    requires n <= |after|
    ensures (s + after)[..|s| + n] == s + after[..n]
  {
  }

  lemma LaterByte(c: char, after: Bytes)
    requires c == ' ' || c == '"' || c == ')'
    ensures Later([c] + after) == Later(after)
  {
    ExtentCons(Brace, c, after, 0);
    LaterSkips([c], after);
    Quiet(StatementTag, [c], Body(Brace, after));
  }

  lemma BodyFollows(after: Bytes)
    requires AfterText(after)
    ensures AfterText(Body(Brace, after))
  {
    if after != [] {
      var rest := after[1..];
      assert after == [after[0]] + rest;
      ExtentCons(Brace, after[0], rest, 0);
      if after[0] == ' ' {
        assert rest == [rest[0]] + rest[1..];
        ExtentCons(Brace, rest[0], rest[1..], 0);
      }
    }
  }

  lemma LaterEsc(t: Bytes, after: Bytes)
    requires AfterText(after)
    ensures Later(Esc(t) + after) == Later(after)
  {
    var body := Body(Brace, after);
    ExtentEsc(Brace, t, after, 0);
    LaterSkips(Esc(t), after);
    BodyFollows(after);
    NeverStray(StatementTag, t, Exposed(body));
    EscHits(StatementTag, t, body);
  }

  lemma LaterFields(fs: Fields, after: Bytes)
    requires ShapedFields(fs) && after != [] && after[0] == '}'
    ensures Later(PrintFields(fs) + after) == WalkFields(StatementTag, fs)
  {
    var pf := PrintFields(fs);
    ExtentFields(Brace, fs, after, 0);
    assert (pf + after)[..|pf|] == pf;
    AlwaysClean(StatementTag, fs);
    ExactFields(StatementTag, fs, []);
  }

  lemma LaterItems(items: Items, after: Bytes)
    requires ShapedItems(items) && after != [] && after[0] == ')'
    ensures Later(PrintItems(items) + after) == WalkItems(StatementTag, items) + Later(after)
  {
    ExtentItems(Brace, items, after, 0);
    LaterSkips(PrintItems(items), after);
    assert after == [after[0]] + after[1..];
    ExtentCons(Brace, ')', after[1..], 0);
    AlwaysCleanItems(StatementTag, items);
    ExactItems(StatementTag, items, Body(Brace, after));
  }

  // ----- Texts

  lemma {:induction false} EscWord(w: Bytes, u: Bytes)
    requires forall i :: 0 <= i < |w| ==> IdentByte(w[i])
    ensures Esc(w + u) == w + Esc(u)
    decreases |w|
  {
    if w == [] {
      assert w + u == u;
    } else {
      EscWord(w[1..], u);
      DropConcat(w, u, 1);
      Assoc([w[0]], w[1..], Esc(u));
      assert [w[0]] + w[1..] == w;
    }
  }

  /** Where a text spells the marker, what is read is the first :stmt node that follows the text. */
  lemma SpelledRead(t: Bytes, after: Bytes)
    requires AfterText(after) && StrayAt(Statements, t, Exposed(after))
    ensures At(Statements, [t[0]] + (Esc(t[1..]) + after)) == First(Later(after))
  {
    var w := Word(Statements);
    var u := t[1..][|w|..];
    assert t[1..] == w + u;
    WordIsIdent(Statements);
    EscWord(w, u);
    Assoc(w, Esc(u), after);
    MarkerShape('{', w, [], Esc(u) + after);
    assert [] + (Esc(u) + after) == Esc(u) + after;
    AtNeedle(Statements, Esc(u) + after);
    LaterEsc(u, after);
  }

  lemma {:induction false} TextFound(t: Bytes, after: Bytes)
    requires AfterText(after)
    ensures Hits(Statements, Esc(t), after) == [] <==> !(Later(after) != [] && Spells(t))
    decreases |t|
  {
    SpellsAnywhere(t, Exposed(after));
    if t != [] {
      EscStep(Statements, t, after);
      EscSite(Statements, t, after);
      TextFound(t[1..], after);
      SpellsAnywhere(t[1..], Exposed(after));
      if StrayAt(Statements, t, Exposed(after)) {
        SpelledRead(t, after);
      }
    }
  }

  lemma LeafFound(v: Tree, after: Bytes)
    requires Shaped(v) && AfterValue(v, after) && !v.Node? && !v.List?
    ensures Hits(Statements, Print(v), after) == [] <==> Unfooled(v, Later(after) != [])
  {
    match v
    case Token(text) =>
      if text == [] {
        LeafHits(Statements, v, after);
      } else {
        GuardedHits(Statements, text, after);
        TextFound(text, after);
      }
    case Str(text) =>
      StrHits(Statements, text, after);
      TextFound(text, ['"'] + after);
      LaterByte('"', after);
    case _ => LeafHits(Statements, v, after);
  }

  // ----- Trees

  /** What the scan finds is what the walk finds, or more. */
  predicate Found(exact: bool, got: seq<Hit>, want: seq<Hit>) {
    if exact then got == want else |got| > |want|
  }

  lemma FoundConcat(e1: bool, a: seq<Hit>, c: seq<Hit>, e2: bool, b: seq<Hit>, d: seq<Hit>)
    requires Found(e1, a, c) && Found(e2, b, d)
    ensures Found(e1 && e2, a + b, c + d)
  {
  }

  lemma {:induction false} FoundTree(v: Tree, after: Bytes)
    requires Shaped(v) && AfterValue(v, after)
    ensures Found(Unfooled(v, Later(after) != []), Hits(Statements, Print(v), after), Walk(Statements, v))
    decreases v
  {
    match v
    case Node(tag, fields) =>
      NodeSplit(Statements, tag, fields, after);
      StatementSite(tag, fields, after);
      FoundFields(fields, ['}'] + after);
      var own := NodeHits(Statements, tag, fields);
      FoundConcat(true, own, own, UnfooledFields(fields),
                  Hits(Statements, PrintFields(fields), ['}'] + after), WalkFields(Statements, fields));
    case List(items) =>
      ListSplit(Statements, items, after);
      FoundItems(items, [')'] + after);
      LaterByte(')', after);
    case _ => LeafFound(v, after);
  }

  lemma {:induction false} FoundFields(fs: Fields, after: Bytes)
    requires ShapedFields(fs) && after != [] && after[0] == '}'
    ensures Found(UnfooledFields(fs), Hits(Statements, PrintFields(fs), after), WalkFields(Statements, fs))
    decreases fs
  {
    match fs
    case End =>
    case Labelled(name, value, rest) =>
      var tail := PrintFields(rest) + after;
      FieldsFollow(rest, after);
      FieldSplit(Statements, name, value, rest, after);
      LabelMatch(Statements, name, value, tail);
      LaterFields(rest, after);
      FoundTree(value, tail);
      FoundFields(rest, after);
      FoundConcat(Unfooled(value, Later(tail) != []), Hits(Statements, Print(value), tail), Walk(Statements, value),
                  UnfooledFields(rest), Hits(Statements, PrintFields(rest), after), WalkFields(Statements, rest));
    case Flag(word, rest) =>
      FlagSplit(Statements, word, rest, after);
      FoundFields(rest, after);
  }

  lemma {:induction false} FoundItems(items: Items, after: Bytes)
    requires ShapedItems(items) && after != [] && after[0] == ')'
    ensures Found(UnfooledItems(items, Later(after) != []), Hits(Statements, PrintItems(items), after),
                  WalkItems(Statements, items))
    decreases items
  {
    match items
    case Empty =>
    case Item(value, rest) =>
      var follow := if rest.Empty? then after else [' '] + (PrintItems(rest) + after);
      ItemSplit(Statements, value, rest, after);
      LaterRest(rest, after);
      FoundTree(value, follow);
      FoundItems(rest, after);
      FoundConcat(Unfooled(value, Later(follow) != []), Hits(Statements, Print(value), follow), Walk(Statements, value),
                  UnfooledItems(rest, Later(after) != []), Hits(Statements, PrintItems(rest), after),
                  WalkItems(Statements, rest));
  }

  lemma LaterRest(rest: Items, after: Bytes)
    requires ShapedItems(rest) && after != [] && after[0] == ')'
    ensures Later(if rest.Empty? then after else [' '] + (PrintItems(rest) + after))
            == WalkItems(StatementTag, rest) + Later(after)
  {
    if rest.Item? {
      LaterByte(' ', PrintItems(rest) + after);
      LaterItems(rest, after);
    }
  }

  /**
   The statement count is right if and only if no text that spells the marker is
   followed by a :stmt node within its node; otherwise it is too high.  When the
   count is right, so is the kind.
   */
  lemma StatementsExactlyWhen(v: Tree)
    requires Shaped(v) && !v.Token?
    ensures var r := Analyze(Print(v));
            && r.Report?
            && r.statements >= |Walk(Statements, v)|
            && (r.statements == |Walk(Statements, v)| <==> Unfooled(v, false))
            && (Unfooled(v, false) ==> r.kind == KindOf(Walk(Statements, v)))
  {
    FirstByte(v);
    FoundTree(v, []);
  }

  // ----- What the parser produces

  /** A value without :stmt nodes has no statement, and none of its texts is taken for one. */
  lemma {:induction false} NoStatements(v: Tree)
    requires Walk(StatementTag, v) == []
    ensures Walk(Statements, v) == [] && Unfooled(v, false)
    decreases v
  {
    match v
    case Node(_, fields) => NoStatementsFields(fields);
    case List(items) => NoStatementsItems(items);
    case _ =>
  }

  lemma {:induction false} NoStatementsFields(fs: Fields)
    requires WalkFields(StatementTag, fs) == []
    ensures WalkFields(Statements, fs) == [] && UnfooledFields(fs)
    decreases fs
  {
    match fs
    case End =>
    case Labelled(_, value, rest) =>
      NoStatements(value);
      NoStatementsFields(rest);
    case Flag(_, rest) => NoStatementsFields(rest);
  }

  lemma {:induction false} NoStatementsItems(items: Items)
    requires WalkItems(StatementTag, items) == []
    ensures WalkItems(Statements, items) == [] && UnfooledItems(items, false)
    decreases items
  {
    if items.Item? {
      NoStatements(items.value);
      NoStatementsItems(items.rest);
    }
  }

  /** A RAWSTMT node: its statement first, and no :stmt node anywhere else in it. */
  predicate RawStatement(v: Tree) {
    && v.Node? && v.tag == "RAWSTMT" && v.fields.Labelled? && v.fields.name == "stmt" && v.fields.value.Node?
    && Walk(StatementTag, v.fields.value) == [] && WalkFields(StatementTag, v.fields.rest) == []
  }

  /** The list that the parser returns: the raw statements of the text. */
  predicate RawStatements(items: Items) {
    items.Item? ==> RawStatement(items.value) && RawStatements(items.rest)
  }

  function Kinds(items: Items): seq<Hit>
    requires RawStatements(items)
  {
    if items.Empty? then [] else [Value(Some(items.value.fields.value.tag))] + Kinds(items.rest)
  }

  lemma RawStatementWalk(v: Tree, follows: bool)
    requires RawStatement(v)
    ensures Walk(Statements, v) == [Value(Some(v.fields.value.tag))] && Unfooled(v, follows)
  {
    var value, rest := v.fields.value, v.fields.rest;
    NoStatements(value);
    NoStatementsFields(rest);
    assert WalkFields(StatementTag, v.fields) == [Value(Some(value.tag))];
    assert WalkFields(Statements, v.fields) == [];
  }

  lemma {:induction false} RawStatementsWalk(items: Items)
    requires RawStatements(items)
    ensures WalkItems(Statements, items) == Kinds(items) && UnfooledItems(items, false)
    decreases items
  {
    if items.Item? {
      RawStatementWalk(items.value, WalkItems(StatementTag, items.rest) != []);
      RawStatementsWalk(items.rest);
    }
  }

  /**
   On every list of raw statements, whatever their texts: the statement count is
   the number of statements, and the kind is "select" if and only if there is
   one and it is a SELECTSTMT.
   */
  lemma CountsEveryDump(items: Items)
    requires ShapedItems(items) && RawStatements(items)
    ensures var r := Analyze(Print(List(items)));
            && r.Report?
            && r.statements == |Kinds(items)|
            && (r.kind == "select" || r.kind == "other")
            && (r.kind == "select"
                <==> items.Item? && items.rest.Empty? && items.value.fields.value.tag == "SELECTSTMT")
  {
    RawStatementsWalk(items);
    StatementsExactlyWhen(List(items));
    if items.Item? {
      assert |Kinds(items)| == 1 + |Kinds(items.rest)|;
    }
  }
}
