/** What `analyze_dump` reports about a printed tree, exactly and at least. */
module DumpTheorems {
  import opened Options
  import opened Utf8
  import opened DumpTree
  import opened TokenReader
  import opened DumpScan
  import opened DumpExact

  /** No text in the tree is taken for a marker, and every reported name reads back. */
  predicate Faithful(v: Tree) {
    && Exactly(Statements, v) && Exactly(Relations, v) && Exactly(Ctes, v) && Exactly(Functions, v)
    && Exactly(Dml("INSERTSTMT"), v) && Exactly(Dml("UPDATESTMT"), v)
    && Exactly(Dml("DELETESTMT"), v) && Exactly(Dml("MERGESTMT"), v)
  }

  lemma ExactTop(q: Query, v: Tree)
    requires WordOk(q) && Shaped(v) && !v.Token? && Exactly(q, v)
    ensures Hits(q, Print(v), []) == Walk(q, v)
  {
    Exact(q, v, []);
  }

  /**
   The exact theorem: scanning the printed text for markers reports what the
   walk of the tree reports, relation by relation, name by name.  Each list
   depends only on the texts that its own markers could be mistaken for; if no
   text is taken for any marker, the whole report is the walk's.
   */
  lemma AnalyzeIsStructure(v: Tree)
    requires Shaped(v) && !v.Token?
    ensures Analyze(Print(v)).Report?
    ensures Exactly(Relations, v) ==> Analyze(Print(v)).relations == Walk(Relations, v)
    ensures Exactly(Ctes, v) ==> Analyze(Print(v)).ctes == Walk(Ctes, v)
    ensures Exactly(Functions, v) ==> Analyze(Print(v)).functions == Walk(Functions, v)
    ensures Faithful(v) ==> Analyze(Print(v)) == Structure(v)
  {
    FirstByte(v);
    if Exactly(Relations, v) {
      ExactTop(Relations, v);
    }
    if Exactly(Ctes, v) {
      ExactTop(Ctes, v);
    }
    if Exactly(Functions, v) {
      ExactTop(Functions, v);
    }
    if Faithful(v) {
      ExactTop(Statements, v);
      FaithfulWrites(v);
    }
  }

  lemma FaithfulWrites(v: Tree)
    requires Shaped(v) && !v.Token? && Faithful(v)
    ensures Writes(Print(v)) == WritesIn(v)
  {
    AlwaysCleanTree(Into, v);
    ExactTop(Into, v);
    DmlTagsOk();
    ExactTop(Dml("INSERTSTMT"), v);
    ExactTop(Dml("UPDATESTMT"), v);
    ExactTop(Dml("DELETESTMT"), v);
    ExactTop(Dml("MERGESTMT"), v);
  }

  // ----- A condition that mentions no marker

  predicate Lacks(t: Bytes, c: char) {
    forall i :: 0 <= i < |t| ==> t[i] != c
  }

  /**
   Tokens without ':' and '{', relation, schema and CTE names without CR and FF,
   function names without '"' after the first byte.  String nodes are free.
   */
  predicate Plain(v: Tree) {
    match v
    case Token(text) => Lacks(text, ':') && Lacks(text, '{')
    case Node(_, fields) => PlainFields(fields)
    case List(items) => PlainItems(items)
    case _ => true
  }

  predicate PlainFields(fs: Fields) {
    match fs
    case End => true
    case Labelled(name, value, rest) =>
      && Plain(value)
      && (NameLabel(name) && value.Token? ==> NoCrFf(value.text))
      && (name == "funcname" && value.List? ==> NamesReadable(value.items))
      && PlainFields(rest)
    case Flag(_, rest) => PlainFields(rest)
  }

  predicate PlainItems(items: Items) {
    match items
    case Empty => true
    case Item(value, rest) => Plain(value) && PlainItems(rest)
  }

  /** A text without the marker's first byte is never taken for it, and no string is taken for a marker that ends in a space or bracket. */
  lemma {:induction false} LacksLead(q: Query, t: Bytes, exposed: bool)
    requires Lacks(t, Lead(q)) || (Tail(q) != "" && !exposed)
    ensures !Stray(q, t, exposed)
    decreases |t|
  {
    if t != [] {
      LacksLead(q, t[1..], exposed);
    }
  }

  lemma {:induction false} PlainIsClean(q: Query, v: Tree)
    requires Plain(v) && Tail(q) != ""
    ensures Clean(q, v)
    decreases v, 0
  {
    match v
    case Str(text) => LacksLead(q, text, false);
    case Node(_, fields) => PlainFieldsClean(q, fields);
    case List(items) => PlainItemsClean(q, items);
    case _ =>
  }

  lemma {:induction false} PlainFieldsClean(q: Query, fs: Fields)
    requires PlainFields(fs) && Tail(q) != ""
    ensures CleanFields(q, fs)
    decreases fs, 0
  {
    match fs
    case End =>
    case Labelled(_, value, rest) =>
      if value.Token? {
        LacksLead(q, value.text, rest != End);
      }
      PlainIsClean(q, value);
      PlainFieldsClean(q, rest);
    case Flag(_, rest) => PlainFieldsClean(q, rest);
  }

  lemma {:induction false} PlainItemsClean(q: Query, items: Items)
    requires PlainItems(items) && Tail(q) != ""
    ensures CleanItems(q, items)
    decreases items, 0
  {
    if items.Item? {
      PlainIsClean(q, items.value);
      PlainItemsClean(q, items.rest);
    }
  }

  /**
   So on every plain tree the lists of the report are the walk's, whatever its
   strings say: no string literal is ever taken for a table, a CTE or a function.
   */
  lemma PlainTreesAreExact(v: Tree)
    requires Shaped(v) && !v.Token? && Plain(v)
    ensures var r := Analyze(Print(v));
            && r.Report?
            && r.relations == Walk(Relations, v)
            && r.ctes == Walk(Ctes, v)
            && r.functions == Walk(Functions, v)
  {
    PlainIsClean(Relations, v);
    PlainIsClean(RelName, v);
    PlainIsClean(SchemaName, v);
    PlainIsClean(Ctes, v);
    PlainIsClean(Functions, v);
    AnalyzeIsStructure(v);
  }

  lemma DmlTagsOk()
    ensures WordOk(Dml("INSERTSTMT")) && WordOk(Dml("UPDATESTMT"))
    ensures WordOk(Dml("DELETESTMT")) && WordOk(Dml("MERGESTMT"))
  {
  }

  // ----- writes, for every tree

  /** A data-modifying marker is found exactly when a node has the tag or a text holds the marker. */
  lemma {:induction false} DmlFound(tag: Bytes, v: Tree, after: Bytes)
    requires IsIdent(tag) && Shaped(v) && AfterValue(v, after)
    ensures Hits(Dml(tag), Print(v), after) == []
            <==> && Walk(Dml(tag), v) == [] && Clean(Dml(tag), v)
                 && (v.Token? ==> !Stray(Dml(tag), v.text, Exposed(after)))
    decreases v, 0
  {
    var q := Dml(tag);
    match v
    case Node(node, fields) =>
      NodeSplit(q, node, fields, after);
      NodeMatch(q, node, fields, after);
      DmlFoundFields(tag, fields, ['}'] + after);
    case List(items) =>
      ListSplit(q, items, after);
      DmlFoundItems(tag, items, [')'] + after);
    case Token(text) =>
      if text == [] {
        LeafHits(q, v, after);
      } else {
        GuardedHits(q, text, after);
        EscHits(q, text, after);
      }
    case Str(text) =>
      StrHits(q, text, after);
      EscHits(q, text, "\"" + after);
    case _ => LeafHits(q, v, after);
  }

  lemma {:induction false} DmlFoundFields(tag: Bytes, fs: Fields, after: Bytes)
    requires IsIdent(tag) && ShapedFields(fs) && after != [] && after[0] == '}'
    ensures Hits(Dml(tag), PrintFields(fs), after) == [] <==> WalkFields(Dml(tag), fs) == [] && CleanFields(Dml(tag), fs)
    decreases fs, 0
  {
    var q := Dml(tag);
    match fs
    case End =>
    case Labelled(name, value, rest) =>
      var tail := PrintFields(rest) + after;
      FieldsFollow(rest, after);
      FieldSplit(q, name, value, rest, after);
      LabelSite(q, name, value, tail);
      DmlFound(tag, value, tail);
      DmlFoundFields(tag, rest, after);
    case Flag(word, rest) =>
      FlagSplit(q, word, rest, after);
      DmlFoundFields(tag, rest, after);
  }

  lemma {:induction false} DmlFoundItems(tag: Bytes, items: Items, after: Bytes)
    requires IsIdent(tag) && ShapedItems(items) && after != [] && after[0] == ')'
    ensures Hits(Dml(tag), PrintItems(items), after) == [] <==> WalkItems(Dml(tag), items) == [] && CleanItems(Dml(tag), items)
    decreases items, 0
  {
    match items
    case Empty =>
    case Item(value, rest) =>
      ItemSplit(Dml(tag), value, rest, after);
      DmlFound(tag, value, if rest.Empty? then after else [' '] + (PrintItems(rest) + after));
      DmlFoundItems(tag, rest, after);
  }

  /** A text somewhere in the tree spells the opening of a data-modifying node. */
  predicate SpellsDml(v: Tree) {
    || !Clean(Dml("INSERTSTMT"), v) || !Clean(Dml("UPDATESTMT"), v)
    || !Clean(Dml("DELETESTMT"), v) || !Clean(Dml("MERGESTMT"), v)
  }

  /**
   `writes` is reported exactly when the tree has an intoClause node or a
   data-modifying node at some depth, or a text that spells the opening of one;
   so no write goes unreported, whatever the texts are.
   */
  lemma WritesExactly(v: Tree)
    requires Shaped(v) && !v.Token?
    ensures Analyze(Print(v)).Report?
    ensures Analyze(Print(v)).writes <==> WritesIn(v) || SpellsDml(v)
  {
    FirstByte(v);
    AlwaysCleanTree(Into, v);
    ExactTop(Into, v);
    DmlTagsOk();
    DmlFound("INSERTSTMT", v, []);
    DmlFound("UPDATESTMT", v, []);
    DmlFound("DELETESTMT", v, []);
    DmlFound("MERGESTMT", v, []);
  }

  // ----- Nothing is under-reported, for every tree

  /**
   What was found covers what is there.  For the name of a relation the first
   find decides: it is a name, or it is what the tree has first.
   */
  predicate Covers(q: Query, got: seq<Hit>, want: seq<Hit>) {
    if q.RelName? then
      && (got == [] ==> want == [])
      && (got != [] ==> got[0].Value? && (got[0].text.Some? || (want != [] && got[0] == want[0])))
    else |got| >= |want|
  }

  lemma CoversConcat(q: Query, a: seq<Hit>, b: seq<Hit>, c: seq<Hit>, d: seq<Hit>)
    requires Covers(q, a, c) && Covers(q, b, d)
    ensures Covers(q, a + b, c + d)
  {
    if q.RelName? && a == [] {
      assert a + b == b && c + d == d;
    }
  }

  /** What a marker that ends in a space finds in the escaped text of a token: the end of the text, or nothing. */
  lemma {:induction false} TokenSpells(q: Query, t: Bytes, after: Bytes)
    requires WordOk(q) && Tail(q) == " " && AfterField(after)
    ensures Stray(q, t, Exposed(after)) ==> Exposed(after)
    ensures Hits(q, Esc(t), after)
            == if Stray(q, t, Exposed(after)) then At(q, [Lead(q)] + (Word(q) + after)) else []
    decreases |t|
  {
    if t != [] {
      EscStep(q, t, after);
      EscSite(q, t, after);
      TokenSpells(q, t[1..], after);
      if StrayAt(q, t, Exposed(after)) {
        WordIsIdent(q);
        EscIdent(t[1..]);
        WordNotStray(q, t[1..], Exposed(after));
      }
    }
  }

  /** What follows a text that ends like a label marker is never NULL. */
  lemma StrayReads(q: Query, after: Bytes)
    requires Lead(q) == ':' && Tail(q) == " " && AfterField(after) && Exposed(after)
    ensures At(q, [Lead(q)] + (Word(q) + after)) == ReadHit(q, after[1..])
    ensures Read(after[1..]).0.Some?
  {
    assert after == [' '] + after[1..];
    assert [Lead(q)] + (Word(q) + after) == Needle(q) + after[1..];
    AtNeedle(q, after[1..]);
    assert after[1..][0] == after[1];
  }

  /** What a label marker finds in the escaped text of a token. */
  lemma TokenStrays(q: Query, t: Bytes, after: Bytes)
    requires Lead(q) == ':' && Tail(q) == " " && AfterField(after)
    ensures Stray(q, t, Exposed(after)) ==> Exposed(after) && Read(after[1..]).0.Some?
    ensures Hits(q, Esc(t), after)
            == if Stray(q, t, Exposed(after)) then ReadHit(q, after[1..]) else []
  {
    TokenSpells(q, t, after);
    if Stray(q, t, Exposed(after)) {
      StrayReads(q, after);
    }
  }

  lemma {:induction false} WordNotStray(q: Query, w: Bytes, exposed: bool)
    requires forall i :: 0 <= i < |w| ==> IdentByte(w[i])
    ensures !Stray(q, w, exposed)
  {
    if w != [] {
      WordNotStray(q, w[1..], exposed);
    }
  }

  lemma LeafCovers(q: Query, v: Tree, after: Bytes)
    requires WordOk(q) && Shaped(v) && AfterValue(v, after) && !v.Node? && !v.List?
    ensures Covers(q, Hits(q, Print(v), after), [])
  {
    if q.RelName? {
      if v.Token? && v.text != [] {
        GuardedHits(q, v.text, after);
        TokenStrays(q, v.text, after);
      } else {
        if v.Str? {
          NoStrayInQuotes(q, v.text);
        }
        LeafHits(q, v, after);
      }
    }
  }

  lemma {:induction false} NoStrayInQuotes(q: Query, t: Bytes)
    requires Tail(q) != ""
    ensures !Stray(q, t, false)
  {
    if t != [] {
      NoStrayInQuotes(q, t[1..]);
    }
  }

  lemma {:induction false} QuotedNonempty(s: Bytes, i: nat)
    requires i < |s| && s[i] == '"'
    ensures Quoted(s) != []
    decreases i
  {
    if s[0] != '"' {
      QuotedNonempty(s[1..], i - 1);
    }
  }

  lemma {:induction false} PrintedQuote(items: Items) returns (i: nat)
    requires Texts(items) != []
    ensures i < |PrintItems(items)| && PrintItems(items)[i] == '"'
    decreases items
  {
    if items.value.Str? {
      i := 0;
    } else {
      assert Texts(items) == Texts(items.rest);
      i := PrintedQuote(items.rest);
      var pv := Print(items.value);
      assert PrintItems(items) == pv + (" " + PrintItems(items.rest));
      i := |pv| + 1 + i;
    }
  }

  lemma LabelCovers(q: Query, name: Bytes, value: Tree, after: Bytes)
    requires WordOk(q) && IsIdent(name) && Shaped(value) && AfterValue(value, after)
    requires NameLabel(name) ==> value.Null? || value.Token?
    ensures Covers(q, At(q, LabelText(name, value, after)), LabelHits(q, name, value))
  {
    LabelMatch(q, name, value, after);
    if Needle(q) <= LabelText(name, value, after) {
      if Tail(q) == " " {
        TokenCovers(q, value, after);
      } else if Tail(q) == " {" {
        NodeRead(q, value, after);
      } else {
        ListCovers(q, value, after);
      }
    }
  }

  lemma TokenCovers(q: Query, value: Tree, after: Bytes)
    requires Lead(q) == ':' && Tail(q) == " " && AfterValue(value, after)
    requires value.Null? || value.Token?
    ensures Covers(q, At(q, LabelText(Word(q), value, after)), LabelHits(q, Word(q), value))
  {
    TokenAt(q, value, after);
    TokenRoundTrip(if value.Token? then value.text else [], after);
    assert Read(Print(value) + after).0.None? <==> value.Null?;
  }

  lemma ListCovers(q: Query, value: Tree, after: Bytes)
    requires q.Functions? && value.List? && Shaped(value)
    ensures |At(q, LabelText(Word(q), value, after))| >= |LabelHits(q, Word(q), value)|
  {
    var rest := PrintItems(value.items) + ")" + after;
    assert Print(value) + after == ['('] + rest;
    assert LabelText(Word(q), value, after) == Needle(q) + rest;
    AtNeedle(q, rest);
    BodyRoundTrip(End, value.items, after);
    if Texts(value.items) != [] {
      var i := PrintedQuote(value.items);
      QuotedNonempty(PrintItems(value.items), i);
    }
  }

  lemma {:induction false} NodeCovers(q: Query, tag: Bytes, fields: Fields, after: Bytes)
    requires WordOk(q) && IsIdent(tag) && ShapedFields(fields)
    ensures Covers(q, At(q, NodeText(tag, fields, after)), NodeHits(q, tag, fields))
    decreases fields, 1
  {
    if q.Statements? {
      StatementSite(tag, fields, after);
    } else {
      NodeMatch(q, tag, fields, after);
      if q.Relations? && fields != End && tag == "RANGEVAR" {
        RelationsAt(fields, after);
        FieldsCovers(RelName, fields, []);
      }
    }
  }

  /** Whatever the texts are, each kind of marker finds at least what the walk finds. */
  lemma {:induction false} SearchCovers(q: Query, v: Tree, after: Bytes)
    requires WordOk(q) && Shaped(v) && AfterValue(v, after)
    ensures Covers(q, Hits(q, Print(v), after), Walk(q, v))
    decreases v, 0
  {
    match v
    case Node(tag, fields) =>
      NodeSplit(q, tag, fields, after);
      NodeCovers(q, tag, fields, after);
      FieldsCovers(q, fields, ['}'] + after);
      CoversConcat(q, At(q, NodeText(tag, fields, after)), Hits(q, PrintFields(fields), ['}'] + after),
                   NodeHits(q, tag, fields), WalkFields(q, fields));
    case List(items) =>
      ListSplit(q, items, after);
      ItemsCovers(q, items, [')'] + after);
    case _ => LeafCovers(q, v, after);
  }

  lemma {:induction false} FieldsCovers(q: Query, fs: Fields, after: Bytes)
    requires WordOk(q) && ShapedFields(fs) && (after == [] || after[0] == '}')
    ensures Covers(q, Hits(q, PrintFields(fs), after), WalkFields(q, fs))
    decreases fs, 0
  {
    match fs
    case End =>
    case Labelled(name, value, rest) =>
      var tail := PrintFields(rest) + after;
      FieldsFollow(rest, after);
      FieldSplit(q, name, value, rest, after);
      LabelCovers(q, name, value, tail);
      SearchCovers(q, value, tail);
      FieldsCovers(q, rest, after);
      var a, b := At(q, LabelText(name, value, tail)), Hits(q, Print(value), tail);
      var c, d := LabelHits(q, name, value), Walk(q, value);
      CoversConcat(q, a, b, c, d);
      CoversConcat(q, a + b, Hits(q, PrintFields(rest), after), c + d, WalkFields(q, rest));
    case Flag(word, rest) =>
      FlagSplit(q, word, rest, after);
      FieldsCovers(q, rest, after);
  }

  lemma {:induction false} ItemsCovers(q: Query, items: Items, after: Bytes)
    requires WordOk(q) && ShapedItems(items) && after != [] && after[0] == ')'
    ensures Covers(q, Hits(q, PrintItems(items), after), WalkItems(q, items))
    decreases items, 0
  {
    match items
    case Empty =>
    case Item(value, rest) =>
      var follow := if rest.Empty? then after else [' '] + (PrintItems(rest) + after);
      ItemSplit(q, value, rest, after);
      SearchCovers(q, value, follow);
      ItemsCovers(q, rest, after);
      CoversConcat(q, Hits(q, Print(value), follow), Hits(q, PrintItems(rest), after), Walk(q, value), WalkItems(q, rest));
  }

  /**
   Nothing is under-reported, for trees with arbitrary texts: at least as many
   relations as RANGEVAR nodes with a name, as many CTE names, functions and
   statements as the walk finds, and never "select" unless at most one statement
   is there.
   */
  lemma NothingUnderReported(v: Tree)
    requires Shaped(v) && !v.Token?
    ensures var r := Analyze(Print(v));
            && r.Report?
            && |r.relations| >= |Walk(Relations, v)|
            && |r.ctes| >= |Walk(Ctes, v)|
            && |r.functions| >= |Walk(Functions, v)|
            && r.statements >= |Walk(Statements, v)|
            && (r.kind == "select" ==> |Walk(Statements, v)| <= 1)
  {
    FirstByte(v);
    SearchCovers(Relations, v, []);
    SearchCovers(Ctes, v, []);
    SearchCovers(Functions, v, []);
    SearchCovers(Statements, v, []);
  }

  // ----- CTE names, exactly when

  lemma SplitEqual(a: seq<Hit>, b: seq<Hit>, c: seq<Hit>, d: seq<Hit>)
    requires a + b == c + d && |a| >= |c| && |b| >= |d|
    ensures a == c && b == d
  {
    assert (a + b)[..|a|] == a && (c + d)[..|c|] == c;
    assert (a + b)[|a|..] == b && (c + d)[|c|..] == d;
  }

  lemma SplitIff(a: seq<Hit>, b: seq<Hit>, c: seq<Hit>, d: seq<Hit>)
    requires |a| >= |c| && |b| >= |d|
    ensures a + b == c + d <==> a == c && b == d
  {
    if a + b == c + d {
      SplitEqual(a, b, c, d);
    }
  }

  lemma {:induction false} CtesOnlyIf(v: Tree, after: Bytes)
    requires Shaped(v) && AfterValue(v, after) && Hits(Ctes, Print(v), after) == Walk(Ctes, v)
    ensures Clean(Ctes, v)
    ensures v.Token? ==> !Stray(Ctes, v.text, Exposed(after))
    decreases v, 0
  {
    match v
    case Node(tag, fields) =>
      NodeSplit(Ctes, tag, fields, after);
      NodeMatch(Ctes, tag, fields, after);
      assert NodeHits(Ctes, tag, fields) + WalkFields(Ctes, fields) == WalkFields(Ctes, fields);
      assert At(Ctes, NodeText(tag, fields, after)) == [];
      CtesOnlyIfFields(fields, ['}'] + after);
    case List(items) =>
      ListSplit(Ctes, items, after);
      CtesOnlyIfItems(items, [')'] + after);
    case Token(text) =>
      if text != [] {
        GuardedHits(Ctes, text, after);
        TokenStrays(Ctes, text, after);
      }
    case Str(text) => NoStrayInQuotes(Ctes, text);
    case _ =>
  }

  lemma {:induction false} CtesOnlyIfFields(fs: Fields, after: Bytes)
    requires ShapedFields(fs) && (after == [] || after[0] == '}')
    requires Hits(Ctes, PrintFields(fs), after) == WalkFields(Ctes, fs)
    ensures CleanFields(Ctes, fs)
    decreases fs, 0
  {
    match fs
    case End =>
    case Labelled(name, value, rest) =>
      var tail := PrintFields(rest) + after;
      FieldsFollow(rest, after);
      FieldSplit(Ctes, name, value, rest, after);
      LabelCovers(Ctes, name, value, tail);
      SearchCovers(Ctes, value, tail);
      FieldsCovers(Ctes, rest, after);
      var a, b := At(Ctes, LabelText(name, value, tail)), Hits(Ctes, Print(value), tail);
      var c, d := LabelHits(Ctes, name, value), Walk(Ctes, value);
      SplitEqual(a + b, Hits(Ctes, PrintFields(rest), after), c + d, WalkFields(Ctes, rest));
      SplitEqual(a, b, c, d);
      CteLabelOnlyIf(name, value, tail);
      CtesOnlyIf(value, tail);
      CtesOnlyIfFields(rest, after);
    case Flag(word, rest) =>
      FlagSplit(Ctes, word, rest, after);
      CtesOnlyIfFields(rest, after);
  }

  lemma SameCte(a: Option<Bytes>, b: Option<Bytes>)
    requires CteHit(a) == CteHit(b)
    ensures a == b
  {
    assert a.Some? && b.Some? ==> CteHit(a)[0] == CteHit(b)[0];
  }

  lemma CteLabelOnlyIf(name: Bytes, value: Tree, after: Bytes)
    requires IsIdent(name) && Shaped(value) && AfterValue(value, after)
    requires NameLabel(name) ==> value.Null? || value.Token?
    requires At(Ctes, LabelText(name, value, after)) == LabelHits(Ctes, name, value)
    ensures LabelClean(Ctes, name, value)
  {
    if name == Word(Ctes) && value.Token? {
      TokenAt(Ctes, value, after);
      TokenRoundTrip(value.text, after);
      SameCte(Read(Print(value) + after).0, TextOf(value));
    }
  }

  lemma {:induction false} CtesOnlyIfItems(items: Items, after: Bytes)
    requires ShapedItems(items) && after != [] && after[0] == ')'
    requires Hits(Ctes, PrintItems(items), after) == WalkItems(Ctes, items)
    ensures CleanItems(Ctes, items)
    decreases items, 0
  {
    match items
    case Empty =>
    case Item(value, rest) =>
      var follow := if rest.Empty? then after else [' '] + (PrintItems(rest) + after);
      ItemSplit(Ctes, value, rest, after);
      SearchCovers(Ctes, value, follow);
      ItemsCovers(Ctes, rest, after);
      SplitEqual(Hits(Ctes, Print(value), follow), Hits(Ctes, PrintItems(rest), after), Walk(Ctes, value), WalkItems(Ctes, rest));
      CtesOnlyIf(value, follow);
      CtesOnlyIfItems(rest, after);
  }

  /**
   The CTE names are exactly right if and only if no token that another field
   follows ends in ":ctename" and no CTE name holds a CR or FF.
   */
  lemma CtesExactlyWhen(v: Tree)
    requires Shaped(v) && !v.Token?
    ensures Analyze(Print(v)).Report?
    ensures Analyze(Print(v)).ctes == Walk(Ctes, v) <==> Clean(Ctes, v)
  {
    FirstByte(v);
    if Clean(Ctes, v) {
      ExactTop(Ctes, v);
    }
    if Hits(Ctes, Print(v), []) == Walk(Ctes, v) {
      CtesOnlyIf(v, []);
    }
  }
}
