/**
 The list of relations, exactly when it is right.  Two things can go wrong: a
 schema that ends in `:relname` hides the name behind it, and a token that ends in
 `{RANGEVAR` is taken for a relation if a name follows within its node.
 */
module DumpRelations {
  import opened Options
  import opened Utf8
  import opened DumpTree
  import opened TokenReader
  import opened DumpScan
  import opened DumpExact
  import opened DumpTheorems

  // ----- What PostgreSQL prints for a relation

  /** A RANGEVAR node starts with its schema and its name. */
  predicate RangeVarFields(fs: Fields) {
    && fs.Labelled? && fs.name == "schemaname"
    && fs.rest.Labelled? && fs.rest.name == "relname"
  }

  predicate RangeVars(v: Tree) {
    match v
    case Node(tag, fields) => (tag == "RANGEVAR" ==> RangeVarFields(fields)) && RangeVarsIn(fields)
    case List(items) => RangeVarsAmong(items)
    case _ => true
  }

  predicate RangeVarsIn(fs: Fields) {
    match fs
    case End => true
    case Labelled(_, value, rest) => RangeVars(value) && RangeVarsIn(rest)
    case Flag(_, rest) => RangeVarsIn(rest)
  }

  predicate RangeVarsAmong(items: Items) {
    items.Item? ==> RangeVars(items.value) && RangeVarsAmong(items.rest)
  }

  // ----- The condition, on the tree alone

  predicate EndsWith(t: Bytes, m: Bytes) {
    |t| >= |m| && t[|t| - |m|..] == m
  }

  /** The text of the label that `field` looks for, without the space after it. */
  function NameLabelText(): Bytes {
    [':'] + Word(RelName)
  }

  /** A schema that hides the name label behind it. */
  predicate Hides(schema: Tree) {
    schema.Token? && EndsWith(schema.text, NameLabelText())
  }

  predicate ReadsBack(value: Tree) {
    value.Token? ==> NoCrFf(value.text)
  }

  /** Schema and name are read as they are. */
  predicate NamedRight(schema: Tree, name: Tree) {
    if Hides(schema) then name == Token(NameLabelText()) && ReadsBack(schema)
    else name.Token? ==> ReadsBack(name) && ReadsBack(schema)
  }

  /** What a search for the name label finds first: nothing, a NULL, or a name. */
  datatype Sight = Nothing | NullName | SomeName

  function Or(a: Sight, b: Sight): Sight {
    if a == Nothing then b else a
  }

  function FirstName(v: Tree): Sight
    decreases v, 0
  {
    match v
    case Node(_, fields) => FirstNameIn(fields)
    case List(items) => FirstNameAmong(items)
    case _ => Nothing
  }

  /** At its own label, or at a token that ends like the label and has a field behind it. */
  function FirstNameIn(fs: Fields): Sight
    decreases fs, 0
  {
    match fs
    case End => Nothing
    case Labelled(name, value, rest) => Or(Or(LabelFind(name, value), ValueFind(value, rest)), FirstNameIn(rest))
    case Flag(_, rest) => FirstNameIn(rest)
  }

  function LabelFind(name: Bytes, value: Tree): Sight {
    if name != "relname" then Nothing else if value.Null? then NullName else SomeName
  }

  function ValueFind(value: Tree, rest: Fields): Sight
    decreases value, 1
  {
    if !value.Token? then FirstName(value)
    else if rest != End && EndsWith(value.text, NameLabelText()) then SomeName
    else Nothing
  }

  function FirstNameAmong(items: Items): Sight
    decreases items, 0
  {
    if items.Empty? then Nothing else Or(FirstName(items.value), FirstNameAmong(items.rest))
  }

  /** The text of the relation marker, without the space after it. */
  function OpenerText(): Bytes {
    ['{'] + Word(Relations)
  }

  /** A token taken for a relation: it ends like the opener, and a name is the first to be found behind it. */
  predicate Phantom(value: Tree, rest: Fields) {
    value.Token? && EndsWith(value.text, OpenerText()) && FirstNameIn(rest) == SomeName
  }

  /** Every relation is named right, and no token is taken for one. */
  predicate RelationsRight(v: Tree) {
    match v
    case Node(tag, fields) =>
      && (tag == "RANGEVAR" && RangeVarFields(fields) ==> NamedRight(fields.value, fields.rest.value))
      && RelationsRightIn(fields)
    case List(items) => RelationsRightAmong(items)
    case _ => true
  }

  predicate RelationsRightIn(fs: Fields) {
    match fs
    case End => true
    case Labelled(_, value, rest) => !Phantom(value, rest) && RelationsRight(value) && RelationsRightIn(rest)
    case Flag(_, rest) => RelationsRightIn(rest)
  }

  predicate RelationsRightAmong(items: Items) {
    items.Item? ==> RelationsRight(items.value) && RelationsRightAmong(items.rest)
  }

  // ----- Markers at the end of tokens

  lemma {:induction false} EndsIn(q: Query, m: Bytes, t: Bytes)
    requires Tail(q) == " " && m == [Lead(q)] + Word(q)
    ensures Stray(q, t, true) <==> EndsWith(t, m)
    decreases |t|
  {
    if t != [] {
      EndsIn(q, m, t[1..]);
      var k := |t| - |m|;
      if k == 0 {
        assert t == [t[0]] + t[1..];
        assert t[0..] == t;
        assert m[1..] == Word(q);
      } else if k > 0 {
        assert t[1..][k - 1..] == t[k..];
      }
    }
  }

  lemma {:induction false} EndsHidden(q: Query, t: Bytes)
    requires Tail(q) == " "
    ensures !Stray(q, t, false)
    decreases |t|
  {
    if t != [] {
      EndsHidden(q, t[1..]);
    }
  }

  lemma TokenHits(q: Query, text: Bytes, after: Bytes)
    ensures Hits(q, Print(Token(text)), after) == Hits(q, Esc(text), after)
  {
    if text == [] {
      Quiet(q, "\"\"", after);
    } else {
      GuardedHits(q, text, after);
    }
  }

  /** What a marker that ends in a space finds in a token, given whether a field follows it. */
  lemma TokenFinds(q: Query, m: Bytes, text: Bytes, after: Bytes)
    requires WordOk(q) && Tail(q) == " " && m == [Lead(q)] + Word(q) && AfterField(after)
    ensures Hits(q, Print(Token(text)), after)
            == if Exposed(after) && EndsWith(text, m) then At(q, [Lead(q)] + (Word(q) + after)) else []
  {
    TokenHits(q, text, after);
    TokenSpells(q, text, after);
    if Exposed(after) {
      EndsIn(q, m, text);
    } else {
      EndsHidden(q, text);
    }
  }

  // ----- The first name

  function Summary(hits: seq<Hit>): Sight {
    if hits == [] then Nothing
    else if FirstText(hits).None? then NullName
    else SomeName
  }

  lemma SummaryConcat(a: seq<Hit>, b: seq<Hit>)
    ensures Summary(a + b) == Or(Summary(a), Summary(b))
  {
    if a == [] {
      assert a + b == b;
    }
  }

  lemma TokenFind(text: Bytes, rest: Fields, after: Bytes)
    requires ShapedFields(rest) && (after == [] || after[0] == '}')
    ensures Summary(Hits(RelName, Print(Token(text)), PrintFields(rest) + after)) == ValueFind(Token(text), rest)
  {
    var tail := PrintFields(rest) + after;
    FieldsFollow(rest, after);
    TokenFinds(RelName, NameLabelText(), text, tail);
    if Exposed(tail) {
      StrayReads(RelName, tail);
    }
  }

  lemma LabelFinds(name: Bytes, value: Tree, after: Bytes)
    requires IsIdent(name) && Shaped(value) && AfterValue(value, after)
    requires NameLabel(name) ==> value.Null? || value.Token?
    ensures Summary(At(RelName, LabelText(name, value, after))) == LabelFind(name, value)
  {
    LabelMatch(RelName, name, value, after);
    if name == Word(RelName) {
      TokenAt(RelName, value, after);
      TokenRoundTrip(if value.Token? then value.text else [], after);
      assert Read(Print(value) + after).0.None? <==> value.Null?;
    }
  }

  lemma {:induction false} FindTree(v: Tree, after: Bytes)
    requires Shaped(v) && AfterValue(v, after) && !v.Token?
    ensures Summary(Hits(RelName, Print(v), after)) == FirstName(v)
    decreases v
  {
    match v
    case Node(tag, fields) =>
      NodeSplit(RelName, tag, fields, after);
      NodeMatch(RelName, tag, fields, after);
      FindFields(fields, ['}'] + after);
    case List(items) =>
      ListSplit(RelName, items, after);
      FindItems(items, [')'] + after);
    case Str(text) =>
      NoStrayInQuotes(RelName, text);
      LeafHits(RelName, v, after);
    case _ => LeafHits(RelName, v, after);
  }

  lemma {:induction false} FindFields(fs: Fields, after: Bytes)
    requires ShapedFields(fs) && (after == [] || after[0] == '}')
    ensures Summary(Hits(RelName, PrintFields(fs), after)) == FirstNameIn(fs)
    decreases fs
  {
    match fs
    case End =>
    case Labelled(name, value, rest) =>
      var tail := PrintFields(rest) + after;
      FieldsFollow(rest, after);
      FieldSplit(RelName, name, value, rest, after);
      LabelFinds(name, value, tail);
      if value.Token? {
        TokenFind(value.text, rest, after);
      } else {
        FindTree(value, tail);
      }
      FindFields(rest, after);
      var a, b := At(RelName, LabelText(name, value, tail)), Hits(RelName, Print(value), tail);
      SummaryConcat(a, b);
      SummaryConcat(a + b, Hits(RelName, PrintFields(rest), after));
    case Flag(word, rest) =>
      FlagSplit(RelName, word, rest, after);
      FindFields(rest, after);
  }

  lemma {:induction false} FindItems(items: Items, after: Bytes)
    requires ShapedItems(items) && after != [] && after[0] == ')'
    ensures Summary(Hits(RelName, PrintItems(items), after)) == FirstNameAmong(items)
    decreases items
  {
    match items
    case Empty =>
    case Item(value, rest) =>
      var follow := if rest.Empty? then after else [' '] + (PrintItems(rest) + after);
      ItemSplit(RelName, value, rest, after);
      FindTree(value, follow);
      FindItems(rest, after);
      SummaryConcat(Hits(RelName, Print(value), follow), Hits(RelName, PrintItems(rest), after));
  }

  // ----- One relation

  lemma FirstOf(a: seq<Hit>, b: seq<Hit>)
    ensures a == [] ==> FirstText(a + b) == FirstText(b)
    ensures a != [] ==> FirstText(a + b) == FirstText(a)
  {
    if a == [] {
      assert a + b == b;
    }
  }

  /** A field in front is what `field` reads. */
  lemma OwnText(q: Query, value: Tree, rest: Fields)
    requires (q.RelName? || q.SchemaName?) && ShapedFields(rest) && (value.Null? || value.Token?)
    ensures FirstText(Hits(q, PrintFields(Labelled(Word(q), value, rest)), []))
            == Read(Print(value) + PrintFields(rest)).0
  {
    var after := PrintFields(rest);
    OwnFieldHits(q, value, rest);
    TokenAt(q, value, after);
    FirstOfThree([Value(Read(Print(value) + after).0)], Hits(q, Print(value), after), Hits(q, after, []));
  }

  lemma OwnFieldHits(q: Query, value: Tree, rest: Fields)
    requires q.RelName? || q.SchemaName?
    ensures var after := PrintFields(rest);
            Hits(q, PrintFields(Labelled(Word(q), value, rest)), [])
            == At(q, LabelText(Word(q), value, after)) + Hits(q, Print(value), after) + Hits(q, after, [])
  {
    WordIsIdent(q);
    FieldSplit(q, Word(q), value, rest, []);
    NothingAfter(PrintFields(rest));
  }

  lemma NothingAfter(s: Bytes)
    ensures s + [] == s
  {
  }

  lemma FirstOfThree(a: seq<Hit>, b: seq<Hit>, c: seq<Hit>)
    requires a != []
    ensures FirstText((a + b) + c) == FirstText(a)
  {
  }

  /** Reading gives the value exactly when it reads back, and NULL only for NULL. */
  lemma ReadsBackMeans(value: Tree, rest: Fields)
    requires ShapedFields(rest) && (value.Null? || value.Token?)
    ensures Read(Print(value) + PrintFields(rest)).0 == TextOf(value) <==> ReadsBack(value)
    ensures Read(Print(value) + PrintFields(rest)).0.None? <==> value.Null?
  {
    FieldsFollow(rest, []);
    assert PrintFields(rest) + [] == PrintFields(rest);
    TokenRoundTrip(if value.Token? then value.text else [], PrintFields(rest));
  }

  /** An identifier reads as a token. */
  lemma WordReads(w: Bytes, follow: Bytes)
    requires IsIdent(w) && AtEnd(Bareword, follow)
    ensures Read([':'] + (w + follow)).0 == Some([':'] + w)
  {
    EscIdent(w);
    LegibleBareword(w);
    TextEsc(Bareword, w, follow);
    TextCons(Bareword, ':', w + follow);
    ReadPlain([':'] + (w + follow));
  }

  /** Behind a field comes the label of the next. */
  lemma LabelShape(w: Bytes, value: Tree, rest: Fields)
    requires IsIdent(w)
    ensures var text := PrintFields(Labelled(w, value, rest));
            |text| > 1 && text[0] == ' ' && text[1] == ':' && Read(text[1..]).0 == Some([':'] + w)
  {
    var text := PrintFields(Labelled(w, value, rest));
    var follow := [' '] + (Print(value) + PrintFields(rest));
    assert text == [' '] + ([':'] + (w + follow));
    assert text[1..] == [':'] + (w + follow);
    WordReads(w, follow);
  }

  function OwnField(name: Tree, rest: Fields): Fields {
    Labelled(Word(RelName), name, rest)
  }

  function RangeVar(schema: Tree, name: Tree, rest: Fields): Fields {
    Labelled(Word(SchemaName), schema, OwnField(name, rest))
  }

  /** A field whose label is not looked for adds only what its value is taken for. */
  lemma OtherField(q: Query, w: Bytes, value: Tree, rest: Fields, after: Bytes)
    requires WordOk(q) && IsIdent(w) && Shaped(value) && (Lead(q) != ':' || w != Word(q))
    ensures Hits(q, PrintFields(Labelled(w, value, rest)), after)
            == Hits(q, Print(value), PrintFields(rest) + after) + Hits(q, PrintFields(rest), after)
  {
    var tail := PrintFields(rest) + after;
    FieldSplit(q, w, value, rest, after);
    OtherLabel(q, w, value, tail);
    NothingInFront(Hits(q, Print(value), tail));
  }

  lemma OtherLabel(q: Query, w: Bytes, value: Tree, after: Bytes)
    requires WordOk(q) && IsIdent(w) && Shaped(value) && (Lead(q) != ':' || w != Word(q))
    ensures At(q, LabelText(w, value, after)) == []
  {
    LabelMatch(q, w, value, after);
  }

  lemma NothingInFront(hits: seq<Hit>)
    ensures [] + hits == hits
  {
  }

  /** What the schema in front of the name is taken for. */
  lemma SchemaFinds(schema: Tree, name: Tree, rest: Fields)
    requires ShapedFields(OwnField(name, rest)) && (schema.Null? || schema.Token?)
    ensures Hits(RelName, Print(schema), PrintFields(OwnField(name, rest)))
            == if Hides(schema) then [Value(Some(NameLabelText()))] else []
  {
    var after := PrintFields(OwnField(name, rest));
    WordIsIdent(RelName);
    LabelShape(Word(RelName), name, rest);
    if schema.Token? {
      TokenFinds(RelName, NameLabelText(), schema.text, after);
      StrayReads(RelName, after);
    } else {
      LeafHits(RelName, schema, after);
    }
  }

  lemma ShapedOwn(schema: Tree, name: Tree, rest: Fields)
    requires ShapedFields(RangeVar(schema, name, rest))
    ensures ShapedFields(OwnField(name, rest)) && ShapedFields(rest)
    ensures (schema.Null? || schema.Token?) && (name.Null? || name.Token?)
    ensures IsIdent(Word(SchemaName)) && Word(SchemaName) != Word(RelName)
  {
    WordIsIdent(SchemaName);
    assert NameLabel(Word(SchemaName)) && NameLabel(Word(RelName));
    assert |Word(SchemaName)| != |Word(RelName)|;
  }

  /**
   The name that `field` reads for a relation: its own, unless the schema ends in
   ":relname"; then it is always ":relname".
   */
  lemma RelationNameRead(schema: Tree, name: Tree, rest: Fields)
    requires ShapedFields(RangeVar(schema, name, rest))
    ensures FirstText(Hits(RelName, PrintFields(RangeVar(schema, name, rest)), []))
            == if Hides(schema) then Some(NameLabelText()) else Read(Print(name) + PrintFields(rest)).0
  {
    var own := OwnField(name, rest);
    ShapedOwn(schema, name, rest);
    OtherField(RelName, Word(SchemaName), schema, own, []);
    assert PrintFields(own) + [] == PrintFields(own);
    SchemaFinds(schema, name, rest);
    OwnText(RelName, name, rest);
    FirstOf(Hits(RelName, Print(schema), PrintFields(own)), Hits(RelName, PrintFields(own), []));
  }

  /** So it is the relation's own exactly when the schema hides nothing, or the name happens to be ":relname". */
  lemma RelationNameExactlyWhen(schema: Tree, name: Tree, rest: Fields)
    requires ShapedFields(RangeVar(schema, name, rest)) && ReadsBack(name)
    ensures FirstText(Hits(RelName, PrintFields(RangeVar(schema, name, rest)), [])) == TextOf(name)
            <==> !Hides(schema) || name == Token(NameLabelText())
  {
    ShapedOwn(schema, name, rest);
    RelationNameRead(schema, name, rest);
    ReadsBackMeans(name, rest);
  }

  lemma WalkedNames(schema: Tree, name: Tree, rest: Fields)
    requires ShapedFields(RangeVar(schema, name, rest))
    ensures FirstText(WalkFields(RelName, RangeVar(schema, name, rest))) == TextOf(name)
    ensures FirstText(WalkFields(SchemaName, RangeVar(schema, name, rest))) == TextOf(schema)
  {
    ShapedOwn(schema, name, rest);
    assert |Word(SchemaName)| != |Word(RelName)|;
    assert WalkFields(RelName, OwnField(name, rest))[0] == Value(TextOf(name));
    assert WalkFields(RelName, RangeVar(schema, name, rest)) == WalkFields(RelName, OwnField(name, rest));
    assert WalkFields(SchemaName, RangeVar(schema, name, rest))[0] == Value(TextOf(schema));
  }

  lemma SameRelation(a: seq<Hit>, b: seq<Hit>, c: seq<Hit>, d: seq<Hit>)
    ensures RelationHit(a, b) == RelationHit(c, d)
            <==> FirstText(a) == FirstText(c) && (FirstText(a).Some? ==> FirstText(b) == FirstText(d))
  {
    if FirstText(a).Some? && FirstText(c).Some? {
      assert RelationHit(a, b)[0] == Named(FirstText(b), FirstText(a).value);
      assert RelationHit(c, d)[0] == Named(FirstText(d), FirstText(c).value);
    }
  }

  /** One RANGEVAR node is reported right exactly when its schema and name are. */
  lemma RangeVarSite(schema: Tree, name: Tree, rest: Fields, after: Bytes)
    requires ShapedFields(RangeVar(schema, name, rest))
    ensures var fields := RangeVar(schema, name, rest);
            At(Relations, NodeText("RANGEVAR", fields, after)) == NodeHits(Relations, "RANGEVAR", fields)
            <==> NamedRight(schema, name)
  {
    var fields := RangeVar(schema, name, rest);
    var pf := PrintFields(fields);
    ShapedOwn(schema, name, rest);
    RelationsAt(fields, after);
    RelationNameRead(schema, name, rest);
    OwnText(SchemaName, schema, OwnField(name, rest));
    ReadsBackMeans(schema, OwnField(name, rest));
    ReadsBackMeans(name, rest);
    WalkedNames(schema, name, rest);
    SameRelation(Hits(RelName, pf, []), Hits(SchemaName, pf, []), WalkFields(RelName, fields), WalkFields(SchemaName, fields));
  }

  /** A token is reported as a relation exactly when it is a phantom. */
  lemma TokenSite(text: Bytes, rest: Fields, after: Bytes)
    requires ShapedFields(rest)
    ensures Hits(Relations, Print(Token(text)), PrintFields(rest) + (['}'] + after)) == []
            <==> !Phantom(Token(text), rest)
  {
    var tail := PrintFields(rest) + (['}'] + after);
    FieldsFollow(rest, ['}'] + after);
    TokenFinds(Relations, OpenerText(), text, tail);
    if Exposed(tail) {
      RelationsAt(rest, after);
      FindFields(rest, []);
    }
  }

  // ----- Trees

  lemma {:induction false} RightTree(v: Tree, after: Bytes)
    requires Shaped(v) && RangeVars(v) && AfterValue(v, after) && !v.Token?
    ensures Hits(Relations, Print(v), after) == Walk(Relations, v) <==> RelationsRight(v)
    decreases v, 0
  {
    match v
    case Node(tag, fields) =>
      NodeSplit(Relations, tag, fields, after);
      RightNode(tag, fields, after);
      RightFields(fields, after);
      NodeCovers(Relations, tag, fields, after);
      FieldsCovers(Relations, fields, ['}'] + after);
      SplitIff(At(Relations, NodeText(tag, fields, after)), Hits(Relations, PrintFields(fields), ['}'] + after),
               NodeHits(Relations, tag, fields), WalkFields(Relations, fields));
    case List(items) =>
      ListSplit(Relations, items, after);
      RightItems(items, [')'] + after);
    case Str(text) =>
      NoStrayInQuotes(Relations, text);
      LeafHits(Relations, v, after);
    case _ => LeafHits(Relations, v, after);
  }

  lemma RightNode(tag: Bytes, fields: Fields, after: Bytes)
    requires IsIdent(tag) && ShapedFields(fields) && (tag == "RANGEVAR" ==> RangeVarFields(fields))
    ensures At(Relations, NodeText(tag, fields, after)) == NodeHits(Relations, tag, fields)
            <==> (tag == "RANGEVAR" ==> NamedRight(fields.value, fields.rest.value))
  {
    if tag == "RANGEVAR" {
      assert fields == RangeVar(fields.value, fields.rest.value, fields.rest.rest);
      RangeVarSite(fields.value, fields.rest.value, fields.rest.rest, after);
    } else {
      NodeMatch(Relations, tag, fields, after);
    }
  }

  lemma WalkedField(name: Bytes, value: Tree, rest: Fields)
    ensures WalkFields(Relations, Labelled(name, value, rest)) == Walk(Relations, value) + WalkFields(Relations, rest)
  {
    NothingInFront(Walk(Relations, value));
  }

  lemma {:induction false} RightFields(fs: Fields, after: Bytes)
    requires ShapedFields(fs) && RangeVarsIn(fs)
    ensures Hits(Relations, PrintFields(fs), ['}'] + after) == WalkFields(Relations, fs) <==> RelationsRightIn(fs)
    decreases fs, 0
  {
    var close := ['}'] + after;
    match fs
    case End =>
    case Labelled(name, value, rest) =>
      var tail := PrintFields(rest) + close;
      FieldsFollow(rest, close);
      OtherField(Relations, name, value, rest, close);
      WalkedField(name, value, rest);
      RightValue(value, rest, after);
      RightFields(rest, after);
      SearchCovers(Relations, value, tail);
      FieldsCovers(Relations, rest, close);
      SplitIff(Hits(Relations, Print(value), tail), Hits(Relations, PrintFields(rest), close),
               Walk(Relations, value), WalkFields(Relations, rest));
    case Flag(word, rest) =>
      FlagSplit(Relations, word, rest, close);
      RightFields(rest, after);
  }

  lemma {:induction false} RightValue(value: Tree, rest: Fields, after: Bytes)
    requires Shaped(value) && RangeVars(value) && ShapedFields(rest)
    ensures Hits(Relations, Print(value), PrintFields(rest) + (['}'] + after)) == Walk(Relations, value)
            <==> !Phantom(value, rest) && RelationsRight(value)
    decreases value, 1
  {
    FieldsFollow(rest, ['}'] + after);
    if value.Token? {
      TokenSite(value.text, rest, after);
    } else {
      RightTree(value, PrintFields(rest) + (['}'] + after));
    }
  }

  lemma {:induction false} RightItems(items: Items, after: Bytes)
    requires ShapedItems(items) && RangeVarsAmong(items) && after != [] && after[0] == ')'
    ensures Hits(Relations, PrintItems(items), after) == WalkItems(Relations, items) <==> RelationsRightAmong(items)
    decreases items, 0
  {
    match items
    case Empty =>
    case Item(value, rest) =>
      var follow := if rest.Empty? then after else [' '] + (PrintItems(rest) + after);
      ItemSplit(Relations, value, rest, after);
      RightTree(value, follow);
      RightItems(rest, after);
      SearchCovers(Relations, value, follow);
      ItemsCovers(Relations, rest, after);
      SplitIff(Hits(Relations, Print(value), follow), Hits(Relations, PrintItems(rest), after),
               Walk(Relations, value), WalkItems(Relations, rest));
  }

  /**
   The relations are exactly the tree's, with their schemas and in its order, if
   and only if every relation is named right and no token is taken for one.
   */
  lemma RelationsExactlyWhen(v: Tree)
    requires Shaped(v) && RangeVars(v) && !v.Token?
    ensures Analyze(Print(v)).Report?
    ensures Analyze(Print(v)).relations == Walk(Relations, v) <==> RelationsRight(v)
  {
    FirstByte(v);
    RightTree(v, []);
  }
}
