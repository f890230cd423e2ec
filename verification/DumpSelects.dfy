/**
 Statements as the parser would print them, and what is reported for them, written
 out: what each kind of entry looks like, and which statements are reported wrong.
 */
module DumpSelects {
  import opened Options
  import opened Utf8
  import opened DumpTree
  import opened TokenReader
  import opened DumpScan
  import opened DumpExact
  import opened DumpTheorems
  import opened DumpStatements
  import opened DumpRelations

  // ----- A SELECT with one item in one of its clauses

  /** A node with one field. */
  function Wrap(tag: Bytes, field: Bytes, value: Tree): Tree {
    Node(tag, Labelled(field, value, End))
  }

  function Clause(field: Bytes, item: Tree): Tree {
    Wrap("SELECTSTMT", field, List(Item(item, Empty)))
  }

  /** What the parser returns for a statement. */
  function Statement(stmt: Tree): Tree {
    List(Item(Wrap("RAWSTMT", "stmt", stmt), Empty))
  }

  function Select(field: Bytes, item: Tree): Tree {
    Statement(Clause(field, item))
  }

  /** A marker that the wrapping does not match. */
  predicate Outside(q: Query, tag: Bytes, field: Bytes) {
    WordOk(q) && (Lead(q) == ':' ==> field != Word(q)) && (q.Dml? ==> !(q.tag <= tag)) && (q.Relations? ==> tag != "RANGEVAR")
  }

  lemma WrapWalk(q: Query, tag: Bytes, field: Bytes, value: Tree)
    requires Outside(q, tag, field) && !q.Statements? && !value.Token?
    ensures Walk(q, Wrap(tag, field, value)) == Walk(q, value)
    ensures Clean(q, Wrap(tag, field, value)) <==> Clean(q, value)
  {
    var fs := Labelled(field, value, End);
    assert WalkFields(q, fs) == LabelHits(q, field, value) + Walk(q, value) + WalkFields(q, End);
    assert NodeHits(q, tag, fs) == [];
    assert CleanFields(q, fs) <==> Clean(q, value);
  }

  lemma OneItemWalk(q: Query, item: Tree)
    ensures Walk(q, List(Item(item, Empty))) == Walk(q, item)
    ensures Clean(q, List(Item(item, Empty))) <==> Clean(q, item)
  {
    var items := Item(item, Empty);
    assert WalkItems(q, items) == Walk(q, item) + WalkItems(q, Empty);
    assert CleanItems(q, items) <==> Clean(q, item) && CleanItems(q, Empty);
  }

  predicate Passes(q: Query, field: Bytes) {
    Outside(q, "RAWSTMT", "stmt") && Outside(q, "SELECTSTMT", field)
  }

  lemma SelectWalk(q: Query, field: Bytes, item: Tree)
    requires Passes(q, field) && !q.Statements? && !item.Token?
    ensures Walk(q, Select(field, item)) == Walk(q, item)
    ensures Clean(q, Select(field, item)) <==> Clean(q, item)
  {
    OneItemWalk(q, item);
    WrapWalk(q, "SELECTSTMT", field, List(Item(item, Empty)));
    WrapWalk(q, "RAWSTMT", "stmt", Clause(field, item));
    OneItemWalk(q, Wrap("RAWSTMT", "stmt", Clause(field, item)));
  }

  lemma WrapShaped(tag: Bytes, field: Bytes, value: Tree)
    requires IsIdent(tag) && IsIdent(field) && !NameLabel(field) && Shaped(value)
    ensures Shaped(Wrap(tag, field, value))
  {
    assert ShapedFields(Labelled(field, value, End));
  }

  lemma OneItemShaped(item: Tree)
    requires Shaped(item) && !item.Token?
    ensures Shaped(List(Item(item, Empty)))
  {
    assert ShapedItems(Item(item, Empty));
  }

  /** Words that the tables of marker words do not hold. */
  lemma Words()
    ensures IsIdent("RAWSTMT") && IsIdent("SELECTSTMT") && IsIdent("RESTARGET") && IsIdent("A_CONST")
    ensures IsIdent("stmt") && IsIdent("val") && IsIdent("targetList") && IsIdent("fromClause")
    ensures !NameLabel("stmt") && !NameLabel("val") && !NameLabel("targetList") && !NameLabel("fromClause")
  {
    assert |"relname"| == 7 && |"schemaname"| == 10 && |"ctename"| == 7;
    assert |"stmt"| == 4 && |"val"| == 3;
    assert "targetList"[0] == 't' && "fromClause"[0] == 'f' && "schemaname"[0] == 's';
  }

  lemma SelectShaped(field: Bytes, item: Tree)
    requires IsIdent(field) && !NameLabel(field) && Shaped(item) && !item.Token?
    ensures Shaped(Select(field, item))
  {
    Words();
    OneItemShaped(item);
    WrapShaped("SELECTSTMT", field, List(Item(item, Empty)));
    WrapShaped("RAWSTMT", "stmt", Clause(field, item));
    OneItemShaped(Wrap("RAWSTMT", "stmt", Clause(field, item)));
  }

  /** The parser's shape: the statement is the only :stmt node. */
  lemma SelectIsRaw(field: Bytes, item: Tree)
    requires field != "stmt" && Walk(StatementTag, item) == [] && !item.Token?
    ensures RawStatements(Select(field, item).items)
  {
    OneItemWalk(StatementTag, item);
    WrapWalk(StatementTag, "SELECTSTMT", field, List(Item(item, Empty)));
    assert RawStatements(Empty);
    assert WalkFields(StatementTag, End) == [];
    assert RawStatement(Wrap("RAWSTMT", "stmt", Clause(field, item)));
  }

  // ----- A string literal that is reported as a write

  /** The target of `SELECT 'text'`. */
  function Target(text: Bytes): Tree {
    Wrap("RESTARGET", "val", Wrap("A_CONST", "val", Str(text)))
  }

  function SelectString(text: Bytes): Tree {
    Select("targetList", Target(text))
  }

  lemma TargetShaped(text: Bytes)
    ensures Shaped(Target(text)) && !Target(text).Token?
  {
    Words();
    WrapShaped("A_CONST", "val", Str(text));
    WrapShaped("RESTARGET", "val", Wrap("A_CONST", "val", Str(text)));
  }

  predicate WriteMarker(q: Query) {
    q.Into? || (q.Dml? && IsDmlTag(q.tag))
  }

  lemma WriteMarkersPass(q: Query)
    requires WriteMarker(q)
    ensures Passes(q, "targetList") && Outside(q, "RESTARGET", "val") && Outside(q, "A_CONST", "val")
  {
    DmlTagsOk();
    if q.Dml? {
      FirstLetters(q.tag);
    } else {
      assert Word(q)[0] == 'i' && "stmt"[0] == 's' && "targetList"[0] == 't' && "val"[0] == 'v';
    }
  }

  lemma FirstLetters(tag: Bytes)
    requires IsDmlTag(tag)
    ensures !(tag <= "RAWSTMT") && !(tag <= "SELECTSTMT") && !(tag <= "RESTARGET") && !(tag <= "A_CONST")
  {
    assert tag[0] == 'I' || tag[0] == 'U' || tag[0] == 'D' || tag[0] == 'M';
    assert "RAWSTMT"[0] == 'R' && "SELECTSTMT"[0] == 'S' && "RESTARGET"[0] == 'R' && "A_CONST"[0] == 'A';
  }

  lemma StringWalk(q: Query, text: Bytes)
    requires WriteMarker(q)
    ensures Walk(q, SelectString(text)) == []
    ensures Clean(q, SelectString(text)) <==> !Stray(q, text, false)
  {
    WriteMarkersPass(q);
    WrapWalk(q, "A_CONST", "val", Str(text));
    WrapWalk(q, "RESTARGET", "val", Wrap("A_CONST", "val", Str(text)));
    SelectWalk(q, "targetList", Target(text));
  }

  /** The text spells an opening brace and one of the four tags, somewhere. */
  predicate SpellsTag(text: Bytes) {
    || Stray(Dml("INSERTSTMT"), text, false) || Stray(Dml("UPDATESTMT"), text, false)
    || Stray(Dml("DELETESTMT"), text, false) || Stray(Dml("MERGESTMT"), text, false)
  }

  lemma StringQuiet(text: Bytes)
    ensures !WritesIn(SelectString(text)) && (SpellsDml(SelectString(text)) <==> SpellsTag(text))
  {
    StringWalk(Into, text);
    StringWalk(Dml("INSERTSTMT"), text);
    StringWalk(Dml("UPDATESTMT"), text);
    StringWalk(Dml("DELETESTMT"), text);
    StringWalk(Dml("MERGESTMT"), text);
  }

  /**
   `SELECT 'text'` writes nothing, and is reported as writing if and only if the
   text spells the opening of a data-modifying node: escaping only adds a byte in
   front of the brace.
   */
  lemma StringWritesExactlyWhen(text: Bytes)
    ensures var v := SelectString(text);
            && Shaped(v) && !v.Token? && !WritesIn(v)
            && Analyze(Print(v)).Report?
            && (Analyze(Print(v)).writes <==> SpellsTag(text))
  {
    Words();
    TargetShaped(text);
    SelectShaped("targetList", Target(text));
    StringQuiet(text);
    WritesExactly(SelectString(text));
  }

  lemma StringIsRaw(text: Bytes)
    ensures RawStatements(SelectString(text).items)
  {
    assert "targetList"[0] != "stmt"[0] && "val"[0] != "stmt"[0];
    WrapWalk(StatementTag, "A_CONST", "val", Str(text));
    WrapWalk(StatementTag, "RESTARGET", "val", Wrap("A_CONST", "val", Str(text)));
    SelectIsRaw("targetList", Target(text));
  }

  /** `SELECT '{INSERTSTMT'` is such a statement. */
  lemma StringReportedAsWrite()
    ensures var v := SelectString(['{'] + "INSERTSTMT");
            && RawStatements(v.items) && Shaped(v) && !WritesIn(v)
            && Analyze(Print(v)).Report? && Analyze(Print(v)).writes
  {
    var text := ['{'] + "INSERTSTMT";
    assert text[1..] == "INSERTSTMT";
    assert StrayAt(Dml("INSERTSTMT"), text, false);
    StringIsRaw(text);
    StringWritesExactlyWhen(text);
  }

  // ----- A relation that is reported wrong

  function Relation(schema: Bytes, name: Bytes): Tree {
    Node("RANGEVAR", RangeVar(Token(schema), Token(name), End))
  }

  /** What the parser returns for `SELECT FROM "schema"."name"`. */
  function SelectFrom(schema: Bytes, name: Bytes): Tree {
    Select("fromClause", Relation(schema, name))
  }

  lemma RelationShaped(schema: Bytes, name: Bytes)
    ensures Shaped(Relation(schema, name)) && RangeVars(Relation(schema, name))
  {
    WordIsIdent(Relations);
    WordIsIdent(RelName);
    WordIsIdent(SchemaName);
    var own := OwnField(Token(name), End);
    assert ShapedFields(End) && RangeVarsIn(End);
    assert ShapedFields(own) && RangeVarsIn(own);
    assert ShapedFields(RangeVar(Token(schema), Token(name), End)) && RangeVarsIn(RangeVar(Token(schema), Token(name), End));
  }

  lemma RelationWalk(schema: Bytes, name: Bytes)
    ensures Walk(Relations, Relation(schema, name)) == [Named(Some(schema), name)]
  {
    var fields := RangeVar(Token(schema), Token(name), End);
    RelationShaped(schema, name);
    WalkedNames(Token(schema), Token(name), End);
    WalkedField(Word(SchemaName), Token(schema), OwnField(Token(name), End));
    WalkedField(Word(RelName), Token(name), End);
  }

  lemma RelationRight(schema: Bytes, name: Bytes)
    requires NoCrFf(schema) && NoCrFf(name)
    ensures RelationsRight(Relation(schema, name))
            <==> && (!EndsWith(schema, NameLabelText()) || name == NameLabelText())
                 && !EndsWith(schema, OpenerText())
  {
    OwnRight(name);
    NamedRightMeans(schema, name);
    RangeVarRight(Token(schema), Token(name));
  }

  lemma NamedRightMeans(schema: Bytes, name: Bytes)
    requires NoCrFf(schema) && NoCrFf(name)
    ensures NamedRight(Token(schema), Token(name)) <==> !EndsWith(schema, NameLabelText()) || name == NameLabelText()
  {
  }

  lemma RangeVarRight(schema: Tree, name: Tree)
    requires RelationsRightIn(OwnField(name, End)) && (schema.Null? || schema.Token?)
    ensures RelationsRight(Node("RANGEVAR", RangeVar(schema, name, End)))
            <==> NamedRight(schema, name) && !Phantom(schema, OwnField(name, End))
  {
    var fields := RangeVar(schema, name, End);
    assert RelationsRight(schema);
    assert RelationsRightIn(fields) <==> !Phantom(schema, OwnField(name, End));
  }

  lemma OwnRight(name: Bytes)
    ensures FirstNameIn(OwnField(Token(name), End)) == SomeName && RelationsRightIn(OwnField(Token(name), End))
  {
    assert LabelFind(Word(RelName), Token(name)) == SomeName;
    assert FirstNameIn(End) == Nothing && RelationsRightIn(End);
    assert !Phantom(Token(name), End) && RelationsRight(Token(name));
  }

  lemma SelectRight(field: Bytes, item: Tree)
    requires !item.Token?
    ensures RelationsRight(Select(field, item)) <==> RelationsRight(item)
    ensures RangeVars(item) ==> RangeVars(Select(field, item))
  {
    var list := List(Item(item, Empty));
    var clause := Clause(field, item);
    assert RelationsRightAmong(Empty) && RangeVarsAmong(Empty);
    assert RelationsRight(list) <==> RelationsRight(item);
    assert RangeVars(item) ==> RangeVars(list);
    assert RelationsRightIn(Labelled(field, list, End)) <==> RelationsRight(list);
    assert RangeVars(list) ==> RangeVarsIn(Labelled(field, list, End));
    assert "SELECTSTMT"[0] != "RANGEVAR"[0];
    assert RelationsRight(clause) <==> RelationsRight(list);
    assert RelationsRightIn(Labelled("stmt", clause, End)) <==> RelationsRight(clause);
    assert RangeVars(clause) ==> RangeVarsIn(Labelled("stmt", clause, End));
    assert "RAWSTMT"[2] != "RANGEVAR"[2];
    var raw := Wrap("RAWSTMT", "stmt", clause);
    assert RelationsRight(raw) <==> RelationsRight(clause);
  }

  /**
   What is reported for `SELECT FROM "schema"."name"`: the one relation that is
   there, if and only if the schema ends neither in ":relname" (unless that is
   the name) nor in "{RANGEVAR".
   */
  lemma RelationReportedExactlyWhen(schema: Bytes, name: Bytes)
    requires NoCrFf(schema) && NoCrFf(name)
    ensures Shaped(SelectFrom(schema, name)) && Analyze(Print(SelectFrom(schema, name))).Report?
    ensures Analyze(Print(SelectFrom(schema, name))).relations == [Named(Some(schema), name)]
            <==> && (!EndsWith(schema, NameLabelText()) || name == NameLabelText())
                 && !EndsWith(schema, OpenerText())
  {
    Words();
    var item := Relation(schema, name);
    RelationShaped(schema, name);
    SelectShaped("fromClause", item);
    SelectRight("fromClause", item);
    RelationRight(schema, name);
    RelationWalk(schema, name);
    assert "RAWSTMT"[2] != "RANGEVAR"[2];
    SelectWalk(Relations, "fromClause", item);
    RelationsExactlyWhen(SelectFrom(schema, name));
  }

  // ----- A schema named "{RANGEVAR"

  lemma WrapHits(tag: Bytes, field: Bytes, value: Tree, after: Bytes)
    requires IsIdent(tag) && IsIdent(field) && !NameLabel(field) && tag != "RANGEVAR" && Shaped(value)
    ensures Hits(Relations, Print(Wrap(tag, field, value)), after) == Hits(Relations, Print(value), ['}'] + after)
  {
    var fs := Labelled(field, value, End);
    assert ShapedFields(End) && ShapedFields(fs);
    NodeSplit(Relations, tag, fs, after);
    NodeMatch(Relations, tag, fs, after);
    LastFieldHits(field, value, ['}'] + after);
    NothingInFront(Hits(Relations, Print(value), ['}'] + after));
  }

  lemma LastFieldHits(field: Bytes, value: Tree, after: Bytes)
    requires IsIdent(field) && Shaped(value)
    ensures Hits(Relations, PrintFields(Labelled(field, value, End)), after) == Hits(Relations, Print(value), after)
  {
    OtherField(Relations, field, value, End, after);
    assert PrintFields(End) + after == after;
    assert Hits(Relations, Print(value), after) + [] == Hits(Relations, Print(value), after);
  }

  lemma OneItemHits(item: Tree, after: Bytes)
    ensures Hits(Relations, Print(List(Item(item, Empty))), after) == Hits(Relations, Print(item), [')'] + after)
  {
    var close := [')'] + after;
    ListSplit(Relations, Item(item, Empty), after);
    ItemSplit(Relations, item, Empty, close);
    assert Hits(Relations, Print(item), close) + [] == Hits(Relations, Print(item), close);
  }

  /** What is found in a SELECT is what is found in its one item. */
  lemma SelectHits(field: Bytes, item: Tree) returns (after: Bytes)
    requires IsIdent(field) && !NameLabel(field) && Shaped(item) && !item.Token?
    ensures Hits(Relations, Print(Select(field, item)), []) == Hits(Relations, Print(item), after)
  {
    Words();
    var list, clause := List(Item(item, Empty)), Clause(field, item);
    OneItemShaped(item);
    WrapShaped("SELECTSTMT", field, list);
    assert "RAWSTMT"[2] != "RANGEVAR"[2] && "SELECTSTMT"[0] != "RANGEVAR"[0];
    OneItemHits(Wrap("RAWSTMT", "stmt", clause), []);
    var a1 := [')'] + [];
    WrapHits("RAWSTMT", "stmt", clause, a1);
    var a2 := ['}'] + a1;
    WrapHits("SELECTSTMT", field, list, a2);
    var a3 := ['}'] + a2;
    OneItemHits(item, a3);
    after := [')'] + a3;
  }

  /** What the name alone is reported as: an unqualified relation. */
  lemma UnqualifiedAt(name: Bytes, after: Bytes)
    requires NoCrFf(name)
    ensures At(Relations, NodeText("RANGEVAR", OwnField(Token(name), End), after)) == [Named(None, name)]
  {
    var own := OwnField(Token(name), End);
    WordIsIdent(RelName);
    assert ShapedFields(End) && ShapedFields(own);
    RelationsAt(own, after);
    OwnText(RelName, Token(name), End);
    ReadsBackMeans(Token(name), End);
    NoSchema(name);
  }

  lemma NoSchema(name: Bytes)
    ensures Hits(SchemaName, PrintFields(OwnField(Token(name), End)), []) == []
  {
    WordIsIdent(RelName);
    assert |Word(RelName)| != |Word(SchemaName)|;
    OtherField(SchemaName, Word(RelName), Token(name), End, []);
    assert PrintFields(End) + [] == [];
    TokenFinds(SchemaName, [':'] + Word(SchemaName), name, []);
  }

  lemma SchemaPhantom(name: Bytes, after: Bytes)
    requires NoCrFf(name)
    ensures Hits(Relations, Print(Token(OpenerText())), PrintFields(OwnField(Token(name), End)) + (['}'] + after))
            == [Named(None, name)]
  {
    var own, close := OwnField(Token(name), End), ['}'] + after;
    WordIsIdent(RelName);
    LabelShape(Word(RelName), Token(name), End);
    assert OpenerText()[0..] == OpenerText();
    TokenFinds(Relations, OpenerText(), OpenerText(), PrintFields(own) + close);
    UnqualifiedAt(name, after);
  }

  lemma NameQuiet(name: Bytes, after: Bytes)
    ensures Hits(Relations, PrintFields(OwnField(Token(name), End)), ['}'] + after) == []
  {
    var close := ['}'] + after;
    WordIsIdent(RelName);
    LastFieldHits(Word(RelName), Token(name), close);
    TokenFinds(Relations, OpenerText(), name, close);
  }

  lemma PhantomFields(name: Bytes, after: Bytes)
    requires NoCrFf(name)
    ensures Hits(Relations, PrintFields(RangeVar(Token(OpenerText()), Token(name), End)), ['}'] + after)
            == [Named(None, name)]
  {
    WordIsIdent(SchemaName);
    OtherField(Relations, Word(SchemaName), Token(OpenerText()), OwnField(Token(name), End), ['}'] + after);
    SchemaPhantom(name, after);
    NameQuiet(name, after);
  }

  lemma OpenerReads()
    ensures NoCrFf(OpenerText()) && !Hides(Token(OpenerText()))
  {
    var t := OpenerText();
    WordIsIdent(Relations);
    assert Special('{');
    assert |t| == 9 && |NameLabelText()| == 8;
    assert t[1..][0] == t[1] == 'R' && NameLabelText()[0] == ':';
  }

  lemma PhantomHits(name: Bytes, after: Bytes)
    requires NoCrFf(name)
    ensures Hits(Relations, Print(Relation(OpenerText(), name)), after)
            == [Named(Some(OpenerText()), name)] + [Named(None, name)]
  {
    var fields := RangeVar(Token(OpenerText()), Token(name), End);
    NodeSplit(Relations, "RANGEVAR", fields, after);
    PhantomFields(name, after);
    OpenerSite(name, after);
  }

  lemma OpenerSite(name: Bytes, after: Bytes)
    requires NoCrFf(name)
    ensures At(Relations, NodeText("RANGEVAR", RangeVar(Token(OpenerText()), Token(name), End), after))
            == [Named(Some(OpenerText()), name)]
  {
    RelationShaped(OpenerText(), name);
    OpenerReads();
    RangeVarSite(Token(OpenerText()), Token(name), End, after);
    WalkedNames(Token(OpenerText()), Token(name), End);
  }

  /** In a schema named "{RANGEVAR" a relation is reported a second time, without a schema. */
  lemma PhantomRelation(name: Bytes)
    requires NoCrFf(name)
    ensures var v := SelectFrom(OpenerText(), name);
            && Walk(Relations, v) == [Named(Some(OpenerText()), name)]
            && Analyze(Print(v)).Report?
            && Analyze(Print(v)).relations == [Named(Some(OpenerText()), name), Named(None, name)]
  {
    SelectFromWalk(OpenerText(), name);
    PhantomSelect(name);
  }

  lemma PhantomSelect(name: Bytes)
    requires NoCrFf(name)
    ensures Hits(Relations, Print(SelectFrom(OpenerText(), name)), [])
            == [Named(Some(OpenerText()), name)] + [Named(None, name)]
  {
    Words();
    RelationShaped(OpenerText(), name);
    var after := SelectHits("fromClause", Relation(OpenerText(), name));
    PhantomHits(name, after);
  }

  lemma SelectFromWalk(schema: Bytes, name: Bytes)
    ensures Walk(Relations, SelectFrom(schema, name)) == [Named(Some(schema), name)]
    ensures Analyze(Print(SelectFrom(schema, name))).Report?
  {
    Words();
    RelationShaped(schema, name);
    SelectShaped("fromClause", Relation(schema, name));
    FirstByte(SelectFrom(schema, name));
    assert "RAWSTMT"[2] != "RANGEVAR"[2];
    SelectWalk(Relations, "fromClause", Relation(schema, name));
    RelationWalk(schema, name);
  }
}
