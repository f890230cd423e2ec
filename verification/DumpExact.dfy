/**
 Searching the printed dump for markers finds what a walk of the tree finds.
 The walk knows nothing of text: it visits nodes and labelled fields in
 pre-order and reads tags, labels and values directly.
 */
module DumpExact {
  import opened Options
  import opened Utf8
  import opened DumpTree
  import opened TokenReader
  import opened DumpScan

  // ----- The walk

  function Walk(q: Query, v: Tree): seq<Hit>
    decreases v, 0
  {
    match v
    case Node(tag, fields) => NodeHits(q, tag, fields) + WalkFields(q, fields)
    case List(items) => WalkItems(q, items)
    case _ => []
  }

  function WalkFields(q: Query, fs: Fields): seq<Hit>
    decreases fs, 0
  {
    match fs
    case End => []
    case Labelled(name, value, rest) => LabelHits(q, name, value) + Walk(q, value) + WalkFields(q, rest)
    case Flag(_, rest) => WalkFields(q, rest)
  }

  function WalkItems(q: Query, items: Items): seq<Hit>
    decreases items, 0
  {
    match items
    case Empty => []
    case Item(value, rest) => Walk(q, value) + WalkItems(q, rest)
  }

  function NodeHits(q: Query, tag: Bytes, fields: Fields): seq<Hit>
    decreases fields, 1
  {
    match q
    case Statements => if "RAWSTMT" <= tag then First(WalkFields(StatementTag, fields)) else []
    case Relations =>
      if tag == "RANGEVAR" then RelationHit(WalkFields(RelName, fields), WalkFields(SchemaName, fields)) else []
    case Dml(dml) => if dml <= tag then [Seen] else []
    case _ => []
  }

  function LabelHits(q: Query, name: Bytes, value: Tree): seq<Hit> {
    if Lead(q) != ':' || name != Word(q) then []
    else match q
      case Ctes => CteHit(TextOf(value))
      case RelName => [Value(TextOf(value))]
      case SchemaName => [Value(TextOf(value))]
      case Functions => if value.List? then FunctionHit(Texts(value.items)) else []
      case StatementTag => if value.Node? then [Value(Some(value.tag))] else []
      case _ => if value.Node? then [Seen] else []
  }

  function TextOf(value: Tree): Option<Bytes> {
    if value.Token? then Some(value.text) else None
  }

  /** The tree has an intoClause node, or a node of a data-modifying statement. */
  predicate WritesIn(v: Tree) {
    || Walk(Into, v) != []
    || Walk(Dml("INSERTSTMT"), v) != [] || Walk(Dml("UPDATESTMT"), v) != []
    || Walk(Dml("DELETESTMT"), v) != [] || Walk(Dml("MERGESTMT"), v) != []
  }

  /** The report a walk of the tree gives. */
  function Structure(v: Tree): Report {
    Assemble(Walk(Statements, v), WritesIn(v), Walk(Relations, v), Walk(Functions, v), Walk(Ctes, v))
  }

  // ----- Texts that look like markers

  /**
   The marker stands at the start of this text: in full, or up to the space
   that ends it where the text itself ends and a space follows it.
   */
  predicate StrayAt(q: Query, t: Bytes, exposed: bool) {
    && t != []
    && t[0] == Lead(q)
    && (if Tail(q) == "" then Word(q) <= t[1..] else Tail(q) == " " && exposed && t[1..] == Word(q))
  }

  /** The marker stands somewhere in this text. */
  predicate Stray(q: Query, t: Bytes, exposed: bool) {
    t != [] && (StrayAt(q, t, exposed) || Stray(q, t[1..], exposed))
  }

  /** No text in the tree is taken for the marker, and what the marker labels reads back. */
  predicate Clean(q: Query, v: Tree) {
    match v
    case Str(text) => !Stray(q, text, false)
    case Node(_, fields) => CleanFields(q, fields)
    case List(items) => CleanItems(q, items)
    case _ => true
  }

  predicate CleanFields(q: Query, fs: Fields) {
    match fs
    case End => true
    case Labelled(name, value, rest) =>
      && (value.Token? ==> !Stray(q, value.text, rest != End))
      && LabelClean(q, name, value)
      && Clean(q, value)
      && CleanFields(q, rest)
    case Flag(_, rest) => CleanFields(q, rest)
  }

  predicate CleanItems(q: Query, items: Items) {
    match items
    case Empty => true
    case Item(value, rest) => Clean(q, value) && CleanItems(q, rest)
  }

  predicate LabelClean(q: Query, name: Bytes, value: Tree) {
    name == Word(q) ==>
      && ((q.Ctes? || q.RelName? || q.SchemaName?) && value.Token? ==> NoCrFf(value.text))
      && (q.Functions? && value.List? ==> NamesReadable(value.items))
  }

  /** Clean for everything that reading this marker looks at. */
  predicate Exactly(q: Query, v: Tree) {
    Clean(q, v) && (q.Relations? ==> Clean(RelName, v) && Clean(SchemaName, v))
  }

  predicate ExactlyFields(q: Query, fs: Fields) {
    CleanFields(q, fs) && (q.Relations? ==> CleanFields(RelName, fs) && CleanFields(SchemaName, fs))
  }

  predicate ExactlyItems(q: Query, items: Items) {
    CleanItems(q, items) && (q.Relations? ==> CleanItems(RelName, items) && CleanItems(SchemaName, items))
  }

  // ----- Extents: a printed node or list is skipped whole

  lemma ExtentCons(b: Bracket, c: char, s: Bytes, d: nat)
    ensures c != '\\' && c != Open(b) && c != Close(b) ==> Extent(b, [c] + s, d) == 1 + Extent(b, s, d)
    ensures c == Open(b) ==> Extent(b, [c] + s, d) == 1 + Extent(b, s, d + 1)
    ensures c == Close(b) ==> Extent(b, [c] + s, d) == if d == 0 then 0 else 1 + Extent(b, s, d - 1)
    ensures Extent(b, ['\\', c] + s, d) == 2 + Extent(b, s, d)
  {
    assert ([c] + s)[1..] == s;
    assert (['\\', c] + s)[2..] == s;
  }

  /** Text without brackets and backslashes. */
  predicate Flat(w: Bytes) {
    forall i :: 0 <= i < |w| ==> w[i] == ' ' || !Special(w[i])
  }

  lemma {:induction false} ExtentFlat(b: Bracket, w: Bytes, after: Bytes, d: nat)
    requires Flat(w)
    ensures Extent(b, w + after, d) == |w| + Extent(b, after, d)
    decreases |w|
  {
    if w == [] {
      assert w + after == after;
    } else {
      assert w + after == [w[0]] + (w[1..] + after);
      ExtentCons(b, w[0], w[1..] + after, d);
      ExtentFlat(b, w[1..], after, d);
    }
  }

  lemma {:induction false} ExtentEsc(b: Bracket, t: Bytes, after: Bytes, d: nat)
    ensures Extent(b, Esc(t) + after, d) == |Esc(t)| + Extent(b, after, d)
    decreases |t|
  {
    if t == [] {
      assert Esc(t) + after == after;
    } else {
      var rest := Esc(t[1..]) + after;
      assert Esc(t) + after == (if Special(t[0]) then ['\\', t[0]] else [t[0]]) + rest;
      ExtentCons(b, t[0], rest, d);
      ExtentEsc(b, t[1..], after, d);
    }
  }

  lemma ExtentGuarded(b: Bracket, t: Bytes, after: Bytes, d: nat)
    ensures Extent(b, Guarded(t) + after, d) == |Guarded(t)| + Extent(b, after, d)
  {
    if NeedsGuard(t) {
      var rest := Esc(t[1..]) + after;
      assert Esc(t) == [t[0]] + Esc(t[1..]);
      assert Guarded(t) + after == ['\\', t[0]] + rest;
      ExtentCons(b, t[0], rest, d);
      ExtentEsc(b, t[1..], after, d);
    } else {
      assert Guarded(t) == Esc(t);
      ExtentEsc(b, t, after, d);
    }
  }

  lemma ExtentLeaf(b: Bracket, v: Tree, after: Bytes, d: nat)
    requires Shaped(v) && !v.Node? && !v.List?
    ensures Extent(b, Print(v) + after, d) == |Print(v)| + Extent(b, after, d)
  {
    match v
    case Null => ExtentFlat(b, "<>", after, d);
    case Bare(word) => ExtentFlat(b, word, after, d);
    case Token(text) =>
      if text == [] {
        ExtentFlat(b, "\"\"", after, d);
      } else {
        ExtentGuarded(b, text, after, d);
      }
    case Str(text) => ExtentStr(b, text, after, d);
  }

  lemma ExtentStr(b: Bracket, text: Bytes, after: Bytes, d: nat)
    ensures Extent(b, Print(Str(text)) + after, d) == |Print(Str(text))| + Extent(b, after, d)
  {
    var inner := Guarded(text) + (['"'] + after);
    StrShape(Guarded(text), after);
    ExtentCons(b, '"', inner, d);
    ExtentGuarded(b, text, ['"'] + after, d);
    ExtentCons(b, '"', after, d);
  }

  lemma StrShape(text: Bytes, after: Bytes)
    ensures ("\"" + text + "\"") + after == ['"'] + (text + (['"'] + after))
    ensures |"\"" + text + "\""| == |text| + 2
  {
  }

  lemma {:induction false} ExtentPrint(b: Bracket, v: Tree, after: Bytes, d: nat)
    requires Shaped(v)
    ensures Extent(b, Print(v) + after, d) == |Print(v)| + Extent(b, after, d)
    decreases v, 0
  {
    match v
    case Node(tag, fields) => ExtentNode(b, tag, fields, after, d);
    case List(items) => ExtentList(b, items, after, d);
    case _ => ExtentLeaf(b, v, after, d);
  }

  lemma NodeShape(tag: Bytes, body: Bytes, after: Bytes)
    ensures ("{" + tag + body + "}") + after == ['{'] + (tag + (body + (['}'] + after)))
    ensures |"{" + tag + body + "}"| == |tag| + |body| + 2
  {
  }

  lemma {:induction false} ExtentNode(b: Bracket, tag: Bytes, fields: Fields, after: Bytes, d: nat)
    requires IsIdent(tag) && ShapedFields(fields)
    ensures Extent(b, Print(Node(tag, fields)) + after, d) == |Print(Node(tag, fields))| + Extent(b, after, d)
    decreases fields, 1
  {
    var d' := if b == Brace then d + 1 else d;
    var body := PrintFields(fields);
    ExtentFields(b, fields, ['}'] + after, d');
    NodeShape(tag, body, after);
    ExtentAround(b, '{', tag, body, '}', after, d);
  }

  /** An opening bracket, flat text, text that is skipped whole, and the closing bracket. */
  lemma ExtentAround(b: Bracket, open: char, tag: Bytes, body: Bytes, close: char, after: Bytes, d: nat)
    requires (open == '{' && close == '}') || (open == '(' && close == ')')
    requires Flat(tag)
    requires var d' := if open == Open(b) then d + 1 else d;
             Extent(b, body + ([close] + after), d') == |body| + Extent(b, [close] + after, d')
    ensures Extent(b, [open] + (tag + (body + ([close] + after))), d) == |tag| + |body| + 2 + Extent(b, after, d)
  {
    var d' := if open == Open(b) then d + 1 else d;
    var inner := body + ([close] + after);
    ExtentCons(b, open, tag + inner, d);
    ExtentFlat(b, tag, inner, d');
    ExtentCons(b, close, after, d');
  }

  lemma ListShape(body: Bytes, after: Bytes)
    ensures ("(" + body + ")") + after == ['('] + (body + ([')'] + after))
    ensures |"(" + body + ")"| == |body| + 2
  {
  }

  lemma {:induction false} ExtentList(b: Bracket, items: Items, after: Bytes, d: nat)
    requires ShapedItems(items)
    ensures Extent(b, Print(List(items)) + after, d) == |Print(List(items))| + Extent(b, after, d)
    decreases items, 1
  {
    var d' := if b == Paren then d + 1 else d;
    var body := PrintItems(items);
    ExtentItems(b, items, [')'] + after, d');
    ListShape(body, after);
    ExtentAround(b, '(', [], body, ')', after, d);
    assert [] + (body + ([')'] + after)) == body + ([')'] + after);
  }

  lemma FieldShape(head: Bytes, value: Bytes, rest: Bytes, after: Bytes)
    ensures (head + value + rest) + after == head + (value + (rest + after))
    ensures |head + value + rest| == |head| + |value| + |rest|
  {
  }

  lemma {:induction false} ExtentFields(b: Bracket, fs: Fields, after: Bytes, d: nat)
    requires ShapedFields(fs)
    ensures Extent(b, PrintFields(fs) + after, d) == |PrintFields(fs)| + Extent(b, after, d)
    decreases fs, 0
  {
    match fs
    case End => assert PrintFields(fs) + after == after;
    case Labelled(name, value, rest) =>
      var tail := PrintFields(rest) + after;
      var head := " :" + name + " ";
      FieldShape(head, Print(value), PrintFields(rest), after);
      ExtentFlat(b, head, Print(value) + tail, d);
      ExtentPrint(b, value, tail, d);
      ExtentFields(b, rest, after, d);
    case Flag(word, rest) =>
      assert PrintFields(fs) + after == (" " + word) + (PrintFields(rest) + after);
      ExtentFlat(b, " " + word, PrintFields(rest) + after, d);
      ExtentFields(b, rest, after, d);
  }

  lemma {:induction false} ExtentItems(b: Bracket, items: Items, after: Bytes, d: nat)
    requires ShapedItems(items)
    ensures Extent(b, PrintItems(items) + after, d) == |PrintItems(items)| + Extent(b, after, d)
    decreases items, 0
  {
    match items
    case Empty => assert PrintItems(items) + after == after;
    case Item(value, rest) =>
      if rest.Empty? {
        assert PrintItems(items) == Print(value);
        ExtentPrint(b, value, after, d);
      } else {
        var tail := PrintItems(rest) + after;
        assert PrintItems(items) + after == Print(value) + (" " + tail);
        ExtentPrint(b, value, " " + tail, d);
        ExtentFlat(b, " ", tail, d);
        ExtentItems(b, rest, after, d);
      }
  }

  /**
   `node_body` returns exactly the printed fields of its node, and `paren_body`
   the printed items of its list, at every nesting depth and whatever escaped
   brackets the texts hold.
   */
  lemma BodyRoundTrip(fs: Fields, items: Items, after: Bytes)
    requires ShapedFields(fs) && ShapedItems(items)
    ensures Body(Brace, PrintFields(fs) + "}" + after) == PrintFields(fs)
    ensures Body(Paren, PrintItems(items) + ")" + after) == PrintItems(items)
  {
    ExtentFields(Brace, fs, "}" + after, 0);
    ExtentCons(Brace, '}', after, 0);
    assert PrintFields(fs) + "}" + after == PrintFields(fs) + ("}" + after);
    ExtentItems(Paren, items, ")" + after, 0);
    ExtentCons(Paren, ')', after, 0);
    assert PrintItems(items) + ")" + after == PrintItems(items) + (")" + after);
  }

  // ----- Markers in texts

  /** What follows a text: a closing quote, or what follows a field value. */
  predicate AfterText(after: Bytes) {
    AfterField(after) || after[0] == '"'
  }

  predicate Exposed(after: Bytes) {
    after != [] && after[0] == ' '
  }

  lemma TailFollows(q: Query, after: Bytes)
    requires AfterText(after) && Tail(q) != []
    ensures Tail(q) <= after <==> Tail(q) == " " && Exposed(after)
  {
    assert Tail(q)[0] == ' ';
    if Exposed(after) {
      TwoBytes(Tail(q), after);
    }
  }

  lemma TwoBytes(tail: Bytes, rest: Bytes)
    requires rest != [] && rest[0] == ' '
    requires tail == "" || tail == " " || (|rest| >= 2 && (tail == " {" || tail == " ("))
    ensures tail <= rest <==> (|tail| == 2 ==> rest[1] == tail[1])
  {
    assert tail == rest[..|tail|] <==> tail <= rest;
  }

  /** Escaped text is found by a marker exactly where the text itself has the marker. */
  lemma EscSite(q: Query, t: Bytes, after: Bytes)
    requires WordOk(q) && AfterText(after) && t != []
    ensures Needle(q) <= [t[0]] + (Esc(t[1..]) + after) <==> StrayAt(q, t, Exposed(after))
  {
    MarkerMatch(q, t[0], t[1..], after);
    if Tail(q) != [] {
      TailFollows(q, after);
    }
  }

  lemma EscStep(q: Query, t: Bytes, after: Bytes)
    requires t != []
    ensures Hits(q, Esc(t), after) == At(q, [t[0]] + (Esc(t[1..]) + after)) + Hits(q, Esc(t[1..]), after)
  {
    var rest := Esc(t[1..]);
    HitsCons(q, t[0], rest, after);
    if Special(t[0]) {
      HitsCons(q, '\\', [t[0]] + rest, after);
      assert Esc(t) == ['\\'] + ([t[0]] + rest);
    }
  }

  lemma {:induction false} EscHits(q: Query, t: Bytes, after: Bytes)
    requires WordOk(q) && AfterText(after)
    ensures !Stray(q, t, Exposed(after)) ==> Hits(q, Esc(t), after) == []
    ensures Stray(q, t, Exposed(after)) && q.Dml? ==> Hits(q, Esc(t), after) != []
    decreases |t|
  {
    if t != [] {
      EscStep(q, t, after);
      EscSite(q, t, after);
      EscHits(q, t[1..], after);
    }
  }

  lemma GuardedHits(q: Query, t: Bytes, after: Bytes)
    ensures Hits(q, Guarded(t), after) == Hits(q, Esc(t), after)
  {
    if NeedsGuard(t) {
      HitsCons(q, '\\', Esc(t), after);
    } else {
      assert Guarded(t) == Esc(t);
    }
  }

  lemma StrHits(q: Query, t: Bytes, after: Bytes)
    ensures Hits(q, Print(Str(t)), after) == Hits(q, Esc(t), "\"" + after)
  {
    HitsConcat(q, "\"" + Guarded(t), "\"", after);
    HitsCons(q, '"', Guarded(t), "\"" + after);
    HitsCons(q, '"', [], after);
    assert ['"'] + [] == "\"";
    GuardedHits(q, t, "\"" + after);
  }

  /** What is found in a printed leaf. */
  lemma LeafHits(q: Query, v: Tree, after: Bytes)
    requires WordOk(q) && Shaped(v) && AfterValue(v, after) && !v.Node? && !v.List?
    requires v.Token? ==> !Stray(q, v.text, Exposed(after))
    requires v.Str? ==> !Stray(q, v.text, false)
    ensures Hits(q, Print(v), after) == []
  {
    match v
    case Null => Quiet(q, "<>", after);
    case Bare(word) => Quiet(q, word, after);
    case Token(text) =>
      if text == [] {
        Quiet(q, "\"\"", after);
      } else {
        GuardedHits(q, text, after);
        EscHits(q, text, after);
      }
    case Str(text) =>
      StrHits(q, text, after);
      EscHits(q, text, "\"" + after);
  }

  // ----- Markers at labels

  lemma {:induction false} IdentReads(w: Bytes, after: Bytes)
    requires forall i :: 0 <= i < |w| ==> IdentByte(w[i])
    requires after == [] || !IdentByte(after[0])
    ensures Ident(w + after) == w
    decreases |w|
  {
    if w == [] {
      assert w + after == after;
    } else {
      IdentReads(w[1..], after);
      assert (w + after)[1..] == w[1..] + after;
    }
  }

  /** The text at a label, as its marker sees it. */
  function LabelText(name: Bytes, value: Tree, after: Bytes): Bytes {
    [':'] + (name + ([' '] + (Print(value) + after)))
  }

  lemma LabelMatch(q: Query, name: Bytes, value: Tree, after: Bytes)
    requires WordOk(q) && IsIdent(name) && Shaped(value)
    ensures Needle(q) <= LabelText(name, value, after)
            <==> && Lead(q) == ':' && name == Word(q)
                 && (Tail(q) == " {" ==> value.Node?) && (Tail(q) == " (" ==> value.List?)
  {
    var rest := [' '] + (Print(value) + after);
    EscIdent(name);
    MarkerMatch(q, ':', name, rest);
    FirstByte(value);
    assert rest[..2] == [' ', Print(value)[0]];
    TwoBytes(Tail(q), rest);
  }

  lemma LabelRead(q: Query, value: Tree, after: Bytes)
    requires Lead(q) == ':'
    requires Shaped(value) && AfterValue(value, after)
    requires q.Ctes? || q.RelName? || q.SchemaName? ==> value.Null? || value.Token?
    requires LabelClean(q, Word(q), value)
    requires (Tail(q) == " {" ==> value.Node?) && (Tail(q) == " (" ==> value.List?)
    ensures At(q, LabelText(Word(q), value, after)) == LabelHits(q, Word(q), value)
  {
    if Tail(q) == " " {
      TokenRead(q, value, after);
    } else if Tail(q) == " {" {
      NodeRead(q, value, after);
    } else {
      ListRead(q, value, after);
    }
  }

  /** Where a label marker that ends in a space is found, the value is read as a token. */
  lemma TokenAt(q: Query, value: Tree, after: Bytes)
    requires Lead(q) == ':' && Tail(q) == " "
    ensures At(q, LabelText(Word(q), value, after)) == ReadHit(q, Print(value) + after)
  {
    var rest := Print(value) + after;
    MarkerShape(':', Word(q), [' '], rest);
    AtNeedle(q, rest);
  }

  /** A marker and what follows it, however the text is bracketed. */
  lemma MarkerShape(c: char, word: Bytes, tail: Bytes, rest: Bytes)
    ensures [c] + (word + (tail + rest)) == ([c] + (word + tail)) + rest
  {
    Assoc([c], word + tail, rest);
    Assoc(word, tail, rest);
  }

  lemma TokenRead(q: Query, value: Tree, after: Bytes)
    requires Lead(q) == ':' && Tail(q) == " " && AfterValue(value, after)
    requires value.Null? || value.Token?
    requires LabelClean(q, Word(q), value)
    ensures At(q, LabelText(Word(q), value, after)) == LabelHits(q, Word(q), value)
  {
    TokenAt(q, value, after);
    TokenRoundTrip(if value.Token? then value.text else [], after);
    assert Read(Print(value) + after).0 == TextOf(value);
  }

  /** A label marker that ends in a bracket, and what follows it. */
  lemma BracketShape(word: Bytes, c: char, rest: Bytes)
    ensures [':'] + (word + ([' '] + ([c] + rest))) == ([':'] + (word + [' ', c])) + rest
  {
    Assoc([' '], [c], rest);
    assert [' '] + [c] == [' ', c];
    MarkerShape(':', word, [' ', c], rest);
  }

  lemma NodeRead(q: Query, value: Tree, after: Bytes)
    requires Lead(q) == ':' && Tail(q) == " {" && value.Node? && Shaped(value)
    ensures At(q, LabelText(Word(q), value, after)) == LabelHits(q, Word(q), value)
  {
    var follow := PrintFields(value.fields) + (['}'] + after);
    var rest := value.tag + follow;
    NodeShape(value.tag, PrintFields(value.fields), after);
    BracketShape(Word(q), '{', rest);
    AtNeedle(q, rest);
    FieldsFollow(value.fields, ['}'] + after);
    IdentReads(value.tag, follow);
  }

  lemma ListRead(q: Query, value: Tree, after: Bytes)
    requires q.Functions? && value.List? && Shaped(value) && NamesReadable(value.items)
    ensures At(q, LabelText(Word(q), value, after)) == LabelHits(q, Word(q), value)
  {
    var rest := PrintItems(value.items) + ([')'] + after);
    ListShape(PrintItems(value.items), after);
    BracketShape(Word(q), '(', rest);
    AtNeedle(q, rest);
    Assoc(PrintItems(value.items), ")", after);
    BodyRoundTrip(End, value.items, after);
    ReadNames(value.items);
  }

  lemma {:induction false} ReadNames(items: Items)
    requires NamesReadable(items)
    ensures Quoted(PrintItems(items)) == Texts(items)
  {
    AllNames(items);
    NameListRoundTrip(items);
  }

  lemma {:induction false} AllNames(items: Items)
    requires NamesReadable(items)
    ensures AllStr(items)
  {
    if items.Item? {
      AllNames(items.rest);
    }
  }

  lemma LabelSite(q: Query, name: Bytes, value: Tree, after: Bytes)
    requires WordOk(q) && IsIdent(name) && Shaped(value) && AfterValue(value, after)
    requires NameLabel(name) ==> value.Null? || value.Token?
    requires LabelClean(q, name, value)
    ensures At(q, LabelText(name, value, after)) == LabelHits(q, name, value)
  {
    LabelMatch(q, name, value, after);
    if Needle(q) <= LabelText(name, value, after) {
      LabelRead(q, value, after);
    }
  }

  // ----- Markers at nodes

  function NodeText(tag: Bytes, fields: Fields, after: Bytes): Bytes {
    ['{'] + (tag + (PrintFields(fields) + (['}'] + after)))
  }

  lemma NodeMatch(q: Query, tag: Bytes, fields: Fields, after: Bytes)
    requires WordOk(q) && IsIdent(tag) && ShapedFields(fields)
    ensures Needle(q) <= NodeText(tag, fields, after)
            <==> Lead(q) == '{' && if Tail(q) == [] then Word(q) <= tag else tag == Word(q) && fields != End
  {
    var rest := PrintFields(fields) + (['}'] + after);
    EscIdent(tag);
    FieldsFollow(fields, ['}'] + after);
    MarkerMatch(q, '{', tag, rest);
    assert Tail(q) == " " ==> (Tail(q) <= rest <==> rest[0] == ' ');
  }

  /** What `node_body` returns where a marker ended inside a tag or just after it. */
  lemma NodeBodyIs(start: Bytes, fields: Fields, after: Bytes)
    requires Flat(start) && ShapedFields(fields)
    ensures Body(Brace, start + (PrintFields(fields) + (['}'] + after))) == start + PrintFields(fields)
  {
    var pf, close := PrintFields(fields), ['}'] + after;
    ExtentFlat(Brace, start, pf + close, 0);
    ExtentFields(Brace, fields, close, 0);
    ExtentCons(Brace, '}', after, 0);
    assert start + (pf + close) == (start + pf) + close;
  }

  lemma QuietThen(q: Query, w: Bytes, s: Bytes, after: Bytes)
    requires forall i :: 0 <= i < |w| ==> w[i] != Lead(q)
    ensures Hits(q, w + s, after) == Hits(q, s, after)
  {
    HitsConcat(q, w, s, after);
    Quiet(q, w, s + after);
  }

  /** A marker that ends inside a tag leaves the rest of the tag. */
  lemma OpenerInTag(w: Bytes, start: Bytes, follow: Bytes)
    ensures ['{'] + ((w + start) + follow) == (['{'] + (w + [])) + (start + follow)
  {
    assert w + [] == w;
    assert (w + start) + follow == w + (start + follow);
  }

  /** A marker that ends in a space takes the first byte of the fields. */
  lemma OpenerAndSpace(w: Bytes, body: Bytes, close: Bytes)
    ensures ['{'] + (w + (([' '] + body) + close)) == (['{'] + (w + [' '])) + (body + close)
  {
    assert ([' '] + body) + close == [' '] + (body + close);
    assert w + ([' '] + (body + close)) == (w + [' ']) + (body + close);
  }

  lemma StatementsAt(tag: Bytes, fields: Fields, after: Bytes)
    requires IsIdent(tag) && ShapedFields(fields) && "RAWSTMT" <= tag
    ensures At(Statements, NodeText(tag, fields, after)) == First(Hits(StatementTag, PrintFields(fields), []))
  {
    var start := tag[|Word(Statements)|..];
    var follow := PrintFields(fields) + (['}'] + after);
    assert tag == Word(Statements) + start;
    OpenerInTag(Word(Statements), start, follow);
    AtNeedle(Statements, start + follow);
    NodeBodyIs(start, fields, after);
    QuietThen(StatementTag, start, PrintFields(fields), []);
  }

  /** The space that ends the RANGEVAR marker is the first byte of the fields. */
  lemma RelationsAt(fields: Fields, after: Bytes)
    requires ShapedFields(fields) && fields != End
    ensures At(Relations, NodeText("RANGEVAR", fields, after))
            == RelationHit(Hits(RelName, PrintFields(fields), []), Hits(SchemaName, PrintFields(fields), []))
  {
    var pf, close := PrintFields(fields), ['}'] + after;
    FieldsFollow(fields, close);
    var body := pf[1..];
    assert pf == [' '] + body;
    RangeVarBody(body, fields, after);
    AtNeedle(Relations, body + close);
    SpaceHits(RelName, body, []);
    SpaceHits(SchemaName, body, []);
  }

  lemma RangeVarBody(body: Bytes, fields: Fields, after: Bytes)
    requires ShapedFields(fields) && PrintFields(fields) == [' '] + body
    ensures NodeText("RANGEVAR", fields, after) == Needle(Relations) + (body + (['}'] + after))
    ensures Body(Brace, body + (['}'] + after)) == body
  {
    var close := ['}'] + after;
    OpenerAndSpace(Word(Relations), body, close);
    Assoc([' '], body, close);
    ExtentFields(Brace, fields, close, 0);
    ExtentCons(Brace, '}', after, 0);
    ExtentCons(Brace, ' ', body + close, 0);
    assert (body + close)[..|body|] == body;
  }

  // ----- The walk and the search agree

  lemma {:induction false} NodeSite(q: Query, tag: Bytes, fields: Fields, after: Bytes)
    requires WordOk(q) && IsIdent(tag) && ShapedFields(fields) && ExactlyFields(q, fields)
    ensures At(q, NodeText(tag, fields, after)) == NodeHits(q, tag, fields)
    decreases fields, 2
  {
    match q
    case Statements => StatementSite(tag, fields, after);
    case Relations => RelationSite(tag, fields, after);
    case _ => NodeMatch(q, tag, fields, after);
  }

  lemma {:induction false} StatementSite(tag: Bytes, fields: Fields, after: Bytes)
    requires IsIdent(tag) && ShapedFields(fields)
    ensures At(Statements, NodeText(tag, fields, after)) == NodeHits(Statements, tag, fields)
    decreases fields, 1
  {
    NodeMatch(Statements, tag, fields, after);
    if "RAWSTMT" <= tag {
      StatementsAt(tag, fields, after);
      AlwaysClean(StatementTag, fields);
      ExactFields(StatementTag, fields, []);
    }
  }

  lemma {:induction false} RelationSite(tag: Bytes, fields: Fields, after: Bytes)
    requires IsIdent(tag) && ShapedFields(fields) && CleanFields(RelName, fields) && CleanFields(SchemaName, fields)
    ensures At(Relations, NodeText(tag, fields, after)) == NodeHits(Relations, tag, fields)
    decreases fields, 1
  {
    NodeMatch(Relations, tag, fields, after);
    if Needle(Relations) <= NodeText(tag, fields, after) {
      RelationHere(fields, after);
    } else if fields == End {
      assert RelationHit(WalkFields(RelName, fields), WalkFields(SchemaName, fields)) == [];
    }
  }

  lemma {:induction false} RelationHere(fields: Fields, after: Bytes)
    requires ShapedFields(fields) && CleanFields(RelName, fields) && CleanFields(SchemaName, fields) && fields != End
    ensures At(Relations, NodeText("RANGEVAR", fields, after))
            == RelationHit(WalkFields(RelName, fields), WalkFields(SchemaName, fields))
    decreases fields, 0, 1
  {
    RelationsAt(fields, after);
    ExactFields(RelName, fields, []);
    ExactFields(SchemaName, fields, []);
  }

  lemma {:induction false} Exact(q: Query, v: Tree, after: Bytes)
    requires WordOk(q) && Shaped(v) && Exactly(q, v) && AfterValue(v, after)
    requires v.Token? ==> !Stray(q, v.text, Exposed(after))
    ensures Hits(q, Print(v), after) == Walk(q, v)
    decreases v, 0
  {
    match v
    case Node(tag, fields) =>
      var pf, close := PrintFields(fields), ['}'] + after;
      FieldsFollow(fields, close);
      NodeSite(q, tag, fields, after);
      ExactFields(q, fields, close);
      NodeSplit(q, tag, fields, after);
    case List(items) =>
      ExactItems(q, items, [')'] + after);
      ListSplit(q, items, after);
    case _ => LeafHits(q, v, after);
  }

  lemma ThenClose(q: Query, s: Bytes, c: char, after: Bytes)
    requires c != Lead(q)
    ensures Hits(q, s + [c], after) == Hits(q, s, [c] + after)
  {
    HitsConcat(q, s, [c], after);
    Quiet(q, [c], after);
    assert Hits(q, s, [c] + after) + [] == Hits(q, s, [c] + after);
  }

  lemma NodeTextSplit(q: Query, tag: Bytes, pf: Bytes, after: Bytes)
    requires IsIdent(tag)
    ensures Hits(q, ['{'] + (tag + (pf + ['}'])), after)
            == At(q, ['{'] + (tag + (pf + (['}'] + after)))) + Hits(q, pf, ['}'] + after)
  {
    var rest := tag + (pf + ['}']);
    HitsCons(q, '{', rest, after);
    NodeAssoc(tag, pf, after);
    QuietThen(q, tag, pf + ['}'], after);
    ThenClose(q, pf, '}', after);
  }

  lemma NodeAssoc(tag: Bytes, pf: Bytes, after: Bytes)
    ensures tag + (pf + ['}']) + after == tag + (pf + (['}'] + after))
  {
    assert pf + ['}'] + after == pf + (['}'] + after);
  }

  lemma NodeSplit(q: Query, tag: Bytes, fields: Fields, after: Bytes)
    requires IsIdent(tag)
    ensures Hits(q, Print(Node(tag, fields)), after)
            == At(q, NodeText(tag, fields, after)) + Hits(q, PrintFields(fields), ['}'] + after)
  {
    var pf := PrintFields(fields);
    assert Print(Node(tag, fields)) == ['{'] + (tag + (pf + ['}']));
    NodeTextSplit(q, tag, pf, after);
  }

  lemma ListSplit(q: Query, items: Items, after: Bytes)
    ensures Hits(q, Print(List(items)), after) == Hits(q, PrintItems(items), [')'] + after)
  {
    var pi := PrintItems(items);
    assert Print(List(items)) == ['('] + (pi + [')']);
    ListTextSplit(q, pi, after);
  }

  lemma ListTextSplit(q: Query, pi: Bytes, after: Bytes)
    ensures Hits(q, ['('] + (pi + [')']), after) == Hits(q, pi, [')'] + after)
  {
    HitsCons(q, '(', pi + [')'], after);
    ThenClose(q, pi, ')', after);
  }

  lemma FieldSplit(q: Query, name: Bytes, value: Tree, rest: Fields, after: Bytes)
    requires IsIdent(name)
    ensures var tail := PrintFields(rest) + after;
            Hits(q, PrintFields(Labelled(name, value, rest)), after)
            == At(q, LabelText(name, value, tail)) + Hits(q, Print(value), tail) + Hits(q, PrintFields(rest), after)
  {
    LabelledShape(name, Print(value), PrintFields(rest));
    FieldTextSplit(q, name, Print(value), PrintFields(rest), after);
  }

  lemma LabelledShape(name: Bytes, pv: Bytes, pf: Bytes)
    ensures " :" + name + " " + pv + pf == [' '] + ([':'] + (name + ([' '] + (pv + pf))))
  {
    Assoc(" :" + name + " ", pv, pf);
    Assoc(" :" + name, " ", pv + pf);
    Assoc(" :", name, " " + (pv + pf));
    Assoc([' '], [':'], name + (" " + (pv + pf)));
  }

  lemma FieldTextSplit(q: Query, name: Bytes, pv: Bytes, pf: Bytes, after: Bytes)
    requires IsIdent(name)
    ensures Hits(q, [' '] + ([':'] + (name + ([' '] + (pv + pf)))), after)
            == At(q, [':'] + (name + ([' '] + (pv + (pf + after))))) + Hits(q, pv, pf + after) + Hits(q, pf, after)
  {
    LabelFirst(q, name + ([' '] + (pv + pf)), after);
    LabelAssoc(name, pv, pf, after);
    FieldValues(q, name, pv, pf, after);
  }

  lemma FieldValues(q: Query, name: Bytes, pv: Bytes, pf: Bytes, after: Bytes)
    requires IsIdent(name)
    ensures Hits(q, name + ([' '] + (pv + pf)), after) == Hits(q, pv, pf + after) + Hits(q, pf, after)
  {
    QuietThen(q, name, [' '] + (pv + pf), after);
    HitsCons(q, ' ', pv + pf, after);
    HitsConcat(q, pv, pf, after);
  }

  lemma LabelFirst(q: Query, s: Bytes, after: Bytes)
    ensures Hits(q, [' '] + ([':'] + s), after) == At(q, [':'] + (s + after)) + Hits(q, s, after)
  {
    HitsCons(q, ' ', [':'] + s, after);
    HitsCons(q, ':', s, after);
  }

  lemma LabelAssoc(name: Bytes, pv: Bytes, pf: Bytes, after: Bytes)
    ensures name + ([' '] + (pv + pf)) + after == name + ([' '] + (pv + (pf + after)))
  {
    assert pv + pf + after == pv + (pf + after);
    assert [' '] + (pv + pf) + after == [' '] + (pv + pf + after);
  }

  lemma FlagSplit(q: Query, word: Bytes, rest: Fields, after: Bytes)
    requires IsIdent(word)
    ensures Hits(q, PrintFields(Flag(word, rest)), after) == Hits(q, PrintFields(rest), after)
  {
    var pf := PrintFields(rest);
    assert PrintFields(Flag(word, rest)) == [' '] + (word + pf);
    FlagTextSplit(q, word, pf, after);
  }

  lemma FlagTextSplit(q: Query, word: Bytes, pf: Bytes, after: Bytes)
    requires IsIdent(word)
    ensures Hits(q, [' '] + (word + pf), after) == Hits(q, pf, after)
  {
    HitsCons(q, ' ', word + pf, after);
    QuietThen(q, word, pf, after);
  }

  lemma ItemSplit(q: Query, value: Tree, rest: Items, after: Bytes)
    ensures Hits(q, PrintItems(Item(value, rest)), after)
            == Hits(q, Print(value), if rest.Empty? then after else [' '] + (PrintItems(rest) + after))
               + Hits(q, PrintItems(rest), after)
  {
    var pv, pi := Print(value), PrintItems(rest);
    if rest.Empty? {
      assert PrintItems(Item(value, rest)) == pv;
    } else {
      assert PrintItems(Item(value, rest)) == pv + ([' '] + pi);
      ItemTextSplit(q, pv, pi, after);
    }
  }

  lemma ItemTextSplit(q: Query, pv: Bytes, pi: Bytes, after: Bytes)
    ensures Hits(q, pv + ([' '] + pi), after) == Hits(q, pv, [' '] + (pi + after)) + Hits(q, pi, after)
  {
    HitsConcat(q, pv, [' '] + pi, after);
    Assoc([' '], pi, after);
    SpaceHits(q, pi, after);
  }

  lemma SpaceHits(q: Query, s: Bytes, after: Bytes)
    ensures Hits(q, [' '] + s, after) == Hits(q, s, after)
  {
    HitsCons(q, ' ', s, after);
  }

  lemma {:induction false} ExactFields(q: Query, fs: Fields, after: Bytes)
    requires WordOk(q) && ShapedFields(fs) && ExactlyFields(q, fs)
    requires after == [] || after[0] == '}'
    ensures Hits(q, PrintFields(fs), after) == WalkFields(q, fs)
    decreases fs, 0, 0
  {
    match fs
    case End =>
    case Labelled(name, value, rest) =>
      FieldsFollow(rest, after);
      FieldSplit(q, name, value, rest, after);
      ExactValue(q, name, value, rest, PrintFields(rest) + after);
      ExactFields(q, rest, after);
    case Flag(word, rest) =>
      FlagSplit(q, word, rest, after);
      ExactFields(q, rest, after);
  }

  /** A label and its value. */
  lemma {:induction false} ExactValue(q: Query, name: Bytes, value: Tree, rest: Fields, tail: Bytes)
    requires WordOk(q) && ShapedFields(Labelled(name, value, rest)) && ExactlyFields(q, Labelled(name, value, rest))
    requires AfterField(tail) && Delimited(tail) && (Exposed(tail) <==> rest != End)
    ensures At(q, LabelText(name, value, tail)) == LabelHits(q, name, value)
    ensures Hits(q, Print(value), tail) == Walk(q, value)
    decreases value, 1
  {
    LabelSite(q, name, value, tail);
    Exact(q, value, tail);
  }

  lemma {:induction false} ExactItems(q: Query, items: Items, after: Bytes)
    requires WordOk(q) && ShapedItems(items) && ExactlyItems(q, items)
    requires after != [] && after[0] == ')'
    ensures Hits(q, PrintItems(items), after) == WalkItems(q, items)
    decreases items, 0
  {
    match items
    case Empty =>
    case Item(value, rest) =>
      ItemSplit(q, value, rest, after);
      Exact(q, value, if rest.Empty? then after else [' '] + (PrintItems(rest) + after));
      ExactItems(q, rest, after);
  }

  /** A marker that ends in a bracket is never mistaken: no text is followed by one. */
  lemma {:induction false} NeverStray(q: Query, t: Bytes, exposed: bool)
    requires Tail(q) == " {" || Tail(q) == " ("
    ensures !Stray(q, t, exposed)
  {
    if t != [] {
      NeverStray(q, t[1..], exposed);
    }
  }

  lemma {:induction false} AlwaysClean(q: Query, fs: Fields)
    requires q.StatementTag? || q.Into?
    ensures CleanFields(q, fs)
    decreases fs, 0
  {
    match fs
    case End =>
    case Labelled(_, value, rest) =>
      if value.Token? {
        NeverStray(q, value.text, rest != End);
      }
      AlwaysCleanTree(q, value);
      AlwaysClean(q, rest);
    case Flag(_, rest) => AlwaysClean(q, rest);
  }

  lemma {:induction false} AlwaysCleanTree(q: Query, v: Tree)
    requires q.StatementTag? || q.Into?
    ensures Clean(q, v)
    decreases v, 0
  {
    match v
    case Str(text) => NeverStray(q, text, false);
    case Node(_, fields) => AlwaysClean(q, fields);
    case List(items) => AlwaysCleanItems(q, items);
    case _ =>
  }

  lemma {:induction false} AlwaysCleanItems(q: Query, items: Items)
    requires q.StatementTag? || q.Into?
    ensures CleanItems(q, items)
    decreases items, 0
  {
    if items.Item? {
      AlwaysCleanTree(q, items.value);
      AlwaysCleanItems(q, items.rest);
    }
  }
}
