/**
 What each kind of entry of a report looks like, on the trees the parser builds for
 a call, a WITH query, an unqualified relation, a SELECT INTO and a
 data-modifying statement.
 */
module DumpEntries {
  import opened Options
  import opened Utf8
  import opened DumpTree
  import opened TokenReader
  import opened DumpScan
  import opened DumpExact
  import opened DumpTheorems
  import opened DumpRelations
  import opened DumpSelects

  lemma StatementWalk(q: Query, stmt: Tree)
    requires Outside(q, "RAWSTMT", "stmt") && !q.Statements? && !stmt.Token?
    ensures Walk(q, Statement(stmt)) == Walk(q, stmt)
    ensures Clean(q, Statement(stmt)) <==> Clean(q, stmt)
  {
    WrapWalk(q, "RAWSTMT", "stmt", stmt);
    OneItemWalk(q, Wrap("RAWSTMT", "stmt", stmt));
  }

  lemma StatementShaped(stmt: Tree)
    requires Shaped(stmt) && !stmt.Token?
    ensures Shaped(Statement(stmt)) && !Statement(stmt).Token?
  {
    Words();
    WrapShaped("RAWSTMT", "stmt", stmt);
    OneItemShaped(Wrap("RAWSTMT", "stmt", stmt));
  }

  // ----- Functions

  /** A list of String nodes. */
  function NameItems(names: seq<Bytes>): Items {
    if names == [] then Empty else Item(Str(names[0]), NameItems(names[1..]))
  }

  /** No double quote after the first byte of any name. */
  predicate PlainNames(names: seq<Bytes>) {
    forall i :: 0 <= i < |names| ==> forall k :: 0 < k < |names[i]| ==> names[i][k] != '"'
  }

  lemma {:induction false} NameItemsTexts(names: seq<Bytes>)
    ensures ShapedItems(NameItems(names)) && Texts(NameItems(names)) == names
    ensures WalkItems(Functions, NameItems(names)) == []
    ensures PlainNames(names) ==> NamesReadable(NameItems(names)) && CleanItems(Functions, NameItems(names))
    decreases |names|
  {
    if names != [] {
      NameItemsTexts(names[1..]);
      assert names == [names[0]] + names[1..];
      ReadableInQuotes(names[0]);
      NeverStray(Functions, names[0], false);
      assert PlainNames(names) ==> PlainNames(names[1..]);
    }
  }

  /** A call of a function by its name, schema and all. */
  function Call(names: seq<Bytes>): Tree {
    Node("FUNCCALL", Labelled("funcname", List(NameItems(names)), Labelled("args", Null, End)))
  }

  /** What the parser returns for selecting from a call. */
  function SelectCall(names: seq<Bytes>): Tree {
    Select("targetList", Wrap("RESTARGET", "val", Call(names)))
  }

  lemma CallWords()
    ensures IsIdent("FUNCCALL") && IsIdent("funcname") && IsIdent("args")
    ensures !NameLabel("funcname") && !NameLabel("args")
    ensures Word(Functions) == "funcname" && Word(Functions) != "args"
  {
    assert |"relname"| == 7 && |"schemaname"| == 10 && |"ctename"| == 7;
    assert |"funcname"| == 8 && |"args"| == 4;
  }

  lemma CallWalk(names: seq<Bytes>)
    requires PlainNames(names)
    ensures Walk(Functions, Call(names)) == FunctionHit(names)
    ensures Clean(Functions, Call(names)) && Shaped(Call(names))
  {
    var items := NameItems(names);
    var args := Labelled("args", Null, End);
    var fs := Labelled("funcname", List(items), args);
    NameItemsTexts(names);
    CallWords();
    assert WalkFields(Functions, args) == [] && CleanFields(Functions, args) && ShapedFields(args);
    assert LabelHits(Functions, "funcname", List(items)) == FunctionHit(names);
    assert Walk(Functions, List(items)) == [];
    assert WalkFields(Functions, fs) == FunctionHit(names) + [] + [];
    assert CleanFields(Functions, fs) && ShapedFields(fs);
  }

  lemma CallPasses()
    ensures Passes(Functions, "targetList") && Outside(Functions, "RESTARGET", "val")
  {
    assert Word(Functions)[0] == 'f' && "stmt"[0] == 's' && "targetList"[0] == 't' && "val"[0] == 'v';
  }

  lemma SelectCallWalk(names: seq<Bytes>)
    requires PlainNames(names)
    ensures var v := SelectCall(names);
            Shaped(v) && !v.Token? && Walk(Functions, v) == FunctionHit(names) && Clean(Functions, v)
  {
    Words();
    CallPasses();
    CallWalk(names);
    var target := Wrap("RESTARGET", "val", Call(names));
    WrapWalk(Functions, "RESTARGET", "val", Call(names));
    SelectWalk(Functions, "targetList", target);
    WrapShaped("RESTARGET", "val", Call(names));
    SelectShaped("targetList", target);
  }

  /**
   What is reported for a call, when no name has a double quote after its first
   byte: the last name is the function's, the one before it the schema's, and an
   unqualified function has no schema.
   */
  lemma CallReported(names: seq<Bytes>)
    requires PlainNames(names)
    ensures Shaped(SelectCall(names)) && Analyze(Print(SelectCall(names))).Report?
    ensures names == [] ==> Analyze(Print(SelectCall(names))).functions == []
    ensures var reported := Analyze(Print(SelectCall(names))).functions;
            names != [] ==>
            && |reported| == 1 && reported[0].Named?
            && reported[0].name == names[|names| - 1]
            && reported[0].schema == (if |names| == 1 then None else Some(names[|names| - 2]))
  {
    SelectCallWalk(names);
    AnalyzeIsStructure(SelectCall(names));
  }

  /** `schema.name(..)` */
  lemma QualifiedCallReported(schema: Bytes, name: Bytes)
    requires PlainNames([schema, name])
    ensures Analyze(Print(SelectCall([schema, name]))).Report?
    ensures Analyze(Print(SelectCall([schema, name]))).functions == [Named(Some(schema), name)]
  {
    CallReported([schema, name]);
  }

  /** `name(..)` */
  lemma PlainCallReported(name: Bytes)
    requires PlainNames([name])
    ensures Analyze(Print(SelectCall([name]))).Report?
    ensures Analyze(Print(SelectCall([name]))).functions == [Named(None, name)]
  {
    CallReported([name]);
  }

  // ----- CTE names

  function Cte(name: Tree): Tree {
    Node("COMMONTABLEEXPR", Labelled("ctename", name, Labelled("ctequery", Null, End)))
  }

  /** What the parser returns for `WITH name AS (..) SELECT`. */
  function SelectWith(cte: Tree): Tree {
    Statement(Wrap("SELECTSTMT", "withClause", Wrap("WITHCLAUSE", "ctes", List(Item(cte, Empty)))))
  }

  lemma CteWords()
    ensures IsIdent("COMMONTABLEEXPR") && IsIdent("WITHCLAUSE") && IsIdent("SELECTSTMT")
    ensures IsIdent("ctename") && IsIdent("ctequery") && IsIdent("withClause") && IsIdent("ctes")
    ensures !NameLabel("ctequery") && !NameLabel("withClause") && !NameLabel("ctes")
    ensures Word(Ctes) == "ctename" && Outside(Ctes, "RAWSTMT", "stmt")
    ensures Outside(Ctes, "SELECTSTMT", "withClause") && Outside(Ctes, "WITHCLAUSE", "ctes")
  {
    assert |"relname"| == 7 && |"schemaname"| == 10 && |"ctename"| == 7;
    assert |"ctequery"| == 8 && |"ctes"| == 4 && |"stmt"| == 4;
    assert "withClause"[0] == 'w' && "schemaname"[0] == 's' && "ctename"[0] == 'c';
  }

  lemma CteWalk(name: Tree)
    requires name.Null? || name.Token?
    ensures Walk(Ctes, Cte(name)) == (if name.Token? then [Value(Some(name.text))] else []) && Shaped(Cte(name))
    ensures Clean(Ctes, Cte(name)) <==> name.Token? ==> NoCrFf(name.text) && !EndsWith(name.text, ":ctename")
  {
    var query := Labelled("ctequery", Null, End);
    var fs := Labelled("ctename", name, query);
    CteWords();
    if name.Token? {
      EndsIn(Ctes, ":ctename", name.text);
    }
    assert WalkFields(Ctes, query) == [] && CleanFields(Ctes, query) && ShapedFields(query);
    assert WalkFields(Ctes, fs) == LabelHits(Ctes, "ctename", name) + [] + [];
    assert CleanFields(Ctes, fs) <==> name.Token? ==> NoCrFf(name.text) && !Stray(Ctes, name.text, true);
    assert ShapedFields(fs);
  }

  lemma SelectWithWalk(cte: Tree)
    requires Shaped(cte) && !cte.Token?
    ensures var v := SelectWith(cte);
            && Shaped(v) && !v.Token? && Walk(Ctes, v) == Walk(Ctes, cte)
            && (Clean(Ctes, v) <==> Clean(Ctes, cte))
  {
    var list := List(Item(cte, Empty));
    var clause := Wrap("WITHCLAUSE", "ctes", list);
    var select := Wrap("SELECTSTMT", "withClause", clause);
    CteWords();
    OneItemWalk(Ctes, cte);
    WrapWalk(Ctes, "WITHCLAUSE", "ctes", list);
    WrapWalk(Ctes, "SELECTSTMT", "withClause", clause);
    StatementWalk(Ctes, select);
    OneItemShaped(cte);
    WrapShaped("WITHCLAUSE", "ctes", list);
    WrapShaped("SELECTSTMT", "withClause", clause);
    StatementShaped(select);
  }

  /** The CTE of a WITH query is reported, and nothing else, if and only if its name holds no CR or FF and does not end in ":ctename". */
  lemma CteReportedExactlyWhen(name: Bytes)
    ensures var v := SelectWith(Cte(Token(name)));
            && Shaped(v) && Analyze(Print(v)).Report?
            && (Analyze(Print(v)).ctes == [Value(Some(name))] <==> NoCrFf(name) && !EndsWith(name, ":ctename"))
  {
    CteWalk(Token(name));
    SelectWithWalk(Cte(Token(name)));
    CtesExactlyWhen(SelectWith(Cte(Token(name))));
  }

  /** A CTE whose name is NULL is not. */
  lemma NamelessCteUnreported()
    ensures var v := SelectWith(Cte(Null)); Analyze(Print(v)).Report? && Analyze(Print(v)).ctes == []
  {
    CteWalk(Null);
    SelectWithWalk(Cte(Null));
    CtesExactlyWhen(SelectWith(Cte(Null)));
  }

  // ----- An unqualified relation

  function Unqualified(name: Bytes): Tree {
    Node("RANGEVAR", RangeVar(Null, Token(name), End))
  }

  lemma UnqualifiedWalk(name: Bytes)
    ensures Shaped(Unqualified(name)) && RangeVars(Unqualified(name))
    ensures Walk(Relations, Unqualified(name)) == [Named(None, name)]
    ensures NoCrFf(name) ==> RelationsRight(Unqualified(name))
  {
    var own, fields := OwnField(Token(name), End), RangeVar(Null, Token(name), End);
    WordIsIdent(Relations);
    WordIsIdent(RelName);
    WordIsIdent(SchemaName);
    assert ShapedFields(End) && RangeVarsIn(End);
    assert ShapedFields(own) && RangeVarsIn(own);
    assert ShapedFields(fields) && RangeVarsIn(fields);
    WalkedNames(Null, Token(name), End);
    WalkedField(Word(SchemaName), Null, own);
    WalkedField(Word(RelName), Token(name), End);
    OwnRight(name);
    if NoCrFf(name) {
      assert NamedRight(Null, Token(name));
      RangeVarRight(Null, Token(name));
    }
  }

  /** Selecting from one relation reports that relation. */
  lemma FromReported(item: Tree)
    requires Shaped(item) && !item.Token? && RangeVars(item) && RelationsRight(item)
    ensures var v := Select("fromClause", item);
            Analyze(Print(v)).Report? && Analyze(Print(v)).relations == Walk(Relations, item)
  {
    Words();
    SelectShaped("fromClause", item);
    SelectRight("fromClause", item);
    assert "RAWSTMT"[2] != "RANGEVAR"[2];
    SelectWalk(Relations, "fromClause", item);
    RelationsExactlyWhen(Select("fromClause", item));
  }

  /** A relation without a schema is reported without one. */
  lemma UnqualifiedReported(name: Bytes)
    requires NoCrFf(name)
    ensures var v := Select("fromClause", Unqualified(name));
            && Analyze(Print(v)).Report?
            && Analyze(Print(v)).relations == [Named(None, name)]
  {
    UnqualifiedWalk(name);
    FromReported(Unqualified(name));
  }

  function Nameless(): Tree {
    Node("RANGEVAR", RangeVar(Null, Null, End))
  }

  lemma NamelessWalk()
    ensures Shaped(Nameless()) && RangeVars(Nameless()) && RelationsRight(Nameless())
    ensures Walk(Relations, Nameless()) == []
  {
    var own, fields := OwnField(Null, End), RangeVar(Null, Null, End);
    WordIsIdent(Relations);
    WordIsIdent(RelName);
    WordIsIdent(SchemaName);
    assert ShapedFields(End) && RangeVarsIn(End) && RelationsRightIn(End);
    assert ShapedFields(own) && RangeVarsIn(own) && RelationsRightIn(own);
    assert ShapedFields(fields) && RangeVarsIn(fields);
    WalkedNames(Null, Null, End);
    WalkedField(Word(SchemaName), Null, own);
    WalkedField(Word(RelName), Null, End);
    RangeVarRight(Null, Null);
  }

  /** A relation without a name is not reported. */
  lemma NamelessUnreported()
    ensures var v := Select("fromClause", Nameless());
            && Analyze(Print(v)).Report?
            && Analyze(Print(v)).relations == []
  {
    NamelessWalk();
    FromReported(Nameless());
  }

  // ----- Writes

  function SelectInto(into: Tree): Tree {
    Statement(Wrap("SELECTSTMT", "intoClause", into))
  }

  lemma IntoShaped(into: Tree)
    requires Shaped(into)
    ensures Shaped(SelectInto(into)) && !SelectInto(into).Token?
  {
    Words();
    assert "intoClause"[0] == 'i' && "relname"[0] == 'r' && "schemaname"[0] == 's' && "ctename"[0] == 'c';
    WrapShaped("SELECTSTMT", "intoClause", into);
    StatementShaped(Wrap("SELECTSTMT", "intoClause", into));
  }

  lemma IntoWalk(fields: Fields)
    ensures Walk(Into, SelectInto(Node("INTOCLAUSE", fields))) != []
  {
    var into := Node("INTOCLAUSE", fields);
    var fs := Labelled("intoClause", into, End);
    assert Word(Into)[0] == 'i' && "stmt"[0] == 's';
    assert WalkFields(Into, fs) == [Seen] + Walk(Into, into) + WalkFields(Into, End);
    StatementWalk(Into, Wrap("SELECTSTMT", "intoClause", into));
  }

  /** `SELECT .. INTO` is reported as writing. */
  lemma IntoReported(fields: Fields)
    requires ShapedFields(fields)
    ensures var v := SelectInto(Node("INTOCLAUSE", fields));
            Analyze(Print(v)).Report? && Analyze(Print(v)).writes
  {
    assert IsIdent("INTOCLAUSE");
    IntoShaped(Node("INTOCLAUSE", fields));
    IntoWalk(fields);
    WritesExactly(SelectInto(Node("INTOCLAUSE", fields)));
  }

  lemma NoIntoWalk(q: Query)
    requires WriteMarker(q)
    ensures Walk(q, SelectInto(Null)) == [] && Clean(q, SelectInto(Null))
  {
    DmlTagsOk();
    if q.Dml? {
      FirstLetters(q.tag);
    } else {
      assert Word(q)[0] == 'i' && "stmt"[0] == 's';
    }
    var fs := Labelled("intoClause", Null, End);
    assert WalkFields(q, fs) == [] && CleanFields(q, fs);
    assert NodeHits(q, "SELECTSTMT", fs) == [];
    StatementWalk(q, Wrap("SELECTSTMT", "intoClause", Null));
  }

  /** A SELECT whose intoClause is NULL, as every other SELECT's is, is not. */
  lemma NoIntoReported()
    ensures Analyze(Print(SelectInto(Null))).Report? && !Analyze(Print(SelectInto(Null))).writes
  {
    IntoShaped(Null);
    NoIntoWalk(Into);
    NoIntoWalk(Dml("INSERTSTMT"));
    NoIntoWalk(Dml("UPDATESTMT"));
    NoIntoWalk(Dml("DELETESTMT"));
    NoIntoWalk(Dml("MERGESTMT"));
    WritesExactly(SelectInto(Null));
  }

  lemma DmlWalk(tag: Bytes, fields: Fields)
    requires IsDmlTag(tag)
    ensures Walk(Dml(tag), Statement(Node(tag, fields))) != []
  {
    FirstLetters(tag);
    DmlTagsOk();
    StatementWalk(Dml(tag), Node(tag, fields));
  }

  /** An INSERT, UPDATE, DELETE or MERGE is. */
  lemma DmlReported(tag: Bytes, fields: Fields)
    requires tag == "INSERTSTMT" || tag == "UPDATESTMT" || tag == "DELETESTMT" || tag == "MERGESTMT"
    requires ShapedFields(fields)
    ensures var v := Statement(Node(tag, fields)); Analyze(Print(v)).Report? && Analyze(Print(v)).writes
  {
    DmlTagsOk();
    StatementShaped(Node(tag, fields));
    DmlWalk(tag, fields);
    WritesExactly(Statement(Node(tag, fields)));
  }
}
