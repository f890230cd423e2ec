/** The loops of `analyze_dump`, on every string. */
module DumpAnalyze {
  import opened Options
  import opened Utf8
  import opened DumpTree
  import opened TokenReader
  import opened DumpScan
  import opened DumpExact
  import opened DumpTheorems
  import opened DumpStatements
  import opened DumpRelations
  import opened DumpPanics
  import F = DumpFunctions

  // ----- Behind a marker

  /** The first marker of `s` is at `p`, and `rest` is what follows it. */
  ghost predicate FirstMarker(q: Query, s: Bytes, p: nat, rest: Bytes) {
    FoundAt(q, s, p) && Misses(q, s, 0, p) && p + |Needle(q)| <= |s| && rest == s[p + |Needle(q)|..]
  }

  /** A marker behind an index is a marker of the text that starts there. */
  lemma MarkerShift(q: Query, s: Bytes, start: nat, rest: Bytes, k: nat)
    requires start <= |s| && rest == s[start..]
    ensures MarkerClear(q, s, start + k) <==> MarkerClear(q, rest, k)
  {
    if start + k <= |s| {
      DropTwice(s, start, k);
      if FoundAt(q, rest, k) {
        DropTwice(s, start, k + |Needle(q)|);
      }
    }
  }

  /** What is behind a marker starts on a character boundary. */
  lemma BehindMarker(q: Query, s: Bytes, p: nat, rest: Bytes)
    requires WordOk(q) && Valid(s) && FirstMarker(q, s, p, rest)
    ensures |rest| < |s| && Valid(rest)
  {
    MarkerEnd(q, s, p);
    AfterAscii(s, p + |Needle(q)|);
  }

  /** No marker stands before the first one, or overlaps it. */
  lemma ClearUpTo(q: Query, s: Bytes, p: nat, k: nat)
    requires WordOk(q) && FoundAt(q, s, p) && Misses(q, s, 0, p) && k < p + |Needle(q)| && k != p
    ensures MarkerClear(q, s, k)
  {
    NoOverlap(q, s, p);
    assert !FoundAt(q, s, k);
  }

  lemma ClearFrom(q: Query, s: Bytes, start: nat, rest: Bytes, k: nat)
    requires start <= |s| && rest == s[start..] && AllClear(q, rest) && k >= start
    ensures MarkerClear(q, s, k)
  {
    assert MarkerClear(q, rest, k - start);
    MarkerShift(q, s, start, rest, k - start);
  }

  lemma ClearAll(q: Query, s: Bytes, p: nat, rest: Bytes)
    requires WordOk(q) && FirstMarker(q, s, p, rest) && MarkerClear(q, s, p) && AllClear(q, rest)
    ensures AllClear(q, s)
  {
    var start := p + |Needle(q)|;
    forall k: nat
      ensures MarkerClear(q, s, k)
    {
      if k >= start {
        ClearFrom(q, s, start, rest, k);
      } else if k != p {
        ClearUpTo(q, s, p, k);
      }
    }
  }

  lemma ClearRest(q: Query, s: Bytes, start: nat, rest: Bytes)
    requires start <= |s| && rest == s[start..] && AllClear(q, s)
    ensures AllClear(q, rest)
  {
    forall k: nat
      ensures MarkerClear(q, rest, k)
    {
      MarkerShift(q, s, start, rest, k);
    }
  }

  lemma MarkerClearMeans(q: Query, s: Bytes, p: nat, rest: Bytes)
    requires FirstMarker(q, s, p, rest)
    ensures MarkerClear(q, s, p) <==> ReadClear(q, rest)
  {
  }

  /** Whether a search panics is decided at its first marker and behind it. */
  lemma ClearBehind(q: Query, s: Bytes, p: nat, rest: Bytes)
    requires WordOk(q) && FirstMarker(q, s, p, rest)
    ensures AllClear(q, s) <==> ReadClear(q, rest) && AllClear(q, rest)
  {
    MarkerClearMeans(q, s, p, rest);
    if AllClear(q, s) {
      assert MarkerClear(q, s, p);
      ClearRest(q, s, p + |Needle(q)|, rest);
    } else if MarkerClear(q, s, p) && AllClear(q, rest) {
      ClearAll(q, s, p, rest);
    }
  }

  /** A field is read at its first marker, and only there. */
  lemma FieldFirst(q: Query, s: Bytes, p: nat, rest: Bytes)
    requires FirstMarker(q, s, p, rest)
    ensures FieldClear(q, s) <==> TokenClear(rest)
  {
    assert FirstClear(q, s, p) <==> TokenClear(rest);
    forall k: nat
      ensures k == p || FirstClear(q, s, k)
    {
      assert k < p ==> !FoundAt(q, s, k);
      assert p < k ==> !Misses(q, s, 0, k);
    }
  }

  lemma HitsBehind(q: Query, s: Bytes, p: nat, rest: Bytes)
    requires WordOk(q) && FirstMarker(q, s, p, rest)
    ensures Hits(q, s, []) == ReadHit(q, rest) + Hits(q, rest, [])
  {
    NextHit(q, s, 0, p);
    HitsFrom(q, s, p + |Needle(q)|, rest, ReadHit(q, rest));
  }

  lemma HitsFrom(q: Query, s: Bytes, e: nat, rest: Bytes, found: seq<Hit>)
    requires e <= |s| && rest == s[e..] && HitsAt(q, s, 0) == found + HitsAt(q, s, e)
    ensures Hits(q, s, []) == found + Hits(q, rest, [])
  {
    HitsFromStart(q, s);
    HitsIndex(q, s, e);
  }

  /** Nothing is found, and so nothing is read. */
  lemma NothingFound(q: Query, s: Bytes)
    requires Misses(q, s, 0, |s|)
    ensures Hits(q, s, []) == [] && AllClear(q, s) && FieldClear(q, s)
  {
    HitsFromStart(q, s);
    SkipMisses(q, s, 0, |s|);
    forall p: nat
      ensures !FoundAt(q, s, p) && MarkerClear(q, s, p) && FirstClear(q, s, p)
    {
      if p == |s| {
        assert s[p..] == [];
      }
    }
  }

  /** The text behind the first marker, if there is one. */
  method Behind(q: Query, text: Bytes) returns (rest: Option<Bytes>, ghost p: nat)
    requires WordOk(q)
    ensures rest.None? ==> Misses(q, text, 0, |text|)
    ensures rest.Some? ==> FirstMarker(q, text, p, rest.value)
  {
    var found := Find(q, text, 0);
    if found.None? {
      return None, 0;
    }
    MarkerFits(q, text, found.value);
    return Some(text[found.value + |Needle(q)|..]), found.value;
  }

  lemma MarkerFits(q: Query, s: Bytes, p: nat)
    requires FoundAt(q, s, p)
    ensures p + |Needle(q)| <= |s|
  {
  }

  lemma BodyValid(b: Bracket, s: Bytes)
    requires Valid(s)
    ensures Valid(Body(b, s))
  {
    ExtentStops(b, s, 0);
    CutValid(s, Extent(b, s, 0));
  }

  // ----- The loops

  lemma FieldReads(q: Query, s: Bytes, p: nat, rest: Bytes)
    requires (q.RelName? || q.SchemaName?) && FirstMarker(q, s, p, rest)
    ensures FirstText(Hits(q, s, [])) == Read(rest).0
  {
    HitsBehind(q, s, p, rest);
    FirstOf(ReadHit(q, rest), Hits(q, rest, []));
  }

  /** `field` */
  method Field(q: Query, body: Bytes) returns (r: Checked<Option<Bytes>>)
    requires (q.RelName? || q.SchemaName?) && Valid(body)
    ensures r.Panic? <==> !FieldClear(q, body)
    ensures r.Done? ==> r.value == FirstText(Hits(q, body, []))
    ensures r.Done? && !Misses(q, body, 0, |body|) ==>
              exists p, rest :: FirstMarker(q, body, p, rest) && r.value == Read(rest).0
    ensures r.Done? && Misses(q, body, 0, |body|) ==> r.value == None
  {
    var rest, p := Behind(q, body);
    if rest.None? {
      NothingFound(q, body);
      return Done(None);
    }
    BehindMarker(q, body, p, rest.value);
    FieldFirst(q, body, p, rest.value);
    FieldReads(q, body, p, rest.value);
    var token :- ReadToken(rest.value);
    return Done(token.0);
  }

  /** `body.find(":stmt {")` and the tag behind it */
  method StatementKind(body: Bytes) returns (hits: seq<Hit>)
    ensures hits == First(Hits(StatementTag, body, []))
    ensures Misses(StatementTag, body, 0, |body|) ==> hits == []
    ensures !Misses(StatementTag, body, 0, |body|) ==>
              exists p, rest :: FirstMarker(StatementTag, body, p, rest) && hits == [Value(Some(Ident(rest)))]
  {
    var rest, p := Behind(StatementTag, body);
    if rest.None? {
      NothingFound(StatementTag, body);
      return [];
    }
    FirstStatement(body, p, rest.value);
    hits := [Value(Some(Ident(rest.value)))];
  }

  lemma FirstStatement(s: Bytes, p: nat, rest: Bytes)
    requires FirstMarker(StatementTag, s, p, rest)
    ensures First(Hits(StatementTag, s, [])) == [Value(Some(Ident(rest)))]
  {
    HitsBehind(StatementTag, s, p, rest);
    FirstHit(Value(Some(Ident(rest))), Hits(StatementTag, rest, []));
  }

  lemma FirstHit(hit: Hit, hits: seq<Hit>)
    ensures First([hit] + hits) == [hit]
  {
  }

  method ReadRelation(rest: Bytes) returns (r: Checked<seq<Hit>>)
    requires Valid(rest)
    ensures r.Panic? <==> !ReadClear(Relations, rest)
    ensures r.Done? ==> r.value == ReadHit(Relations, rest)
  {
    var body := BracketBody(Brace, rest);
    BodyValid(Brace, rest);
    var name :- Field(RelName, body);
    if name.None? {
      return Done([]);
    }
    var schema :- Field(SchemaName, body);
    return Done([Named(schema, name.value)]);
  }

  /** What one iteration of a loop pushes. */
  method ReadMarker(q: Query, rest: Bytes) returns (r: Checked<seq<Hit>>)
    requires (q.Statements? || q.Relations? || q.Ctes? || q.Functions?) && Valid(rest)
    ensures r.Panic? <==> !ReadClear(q, rest)
    ensures r.Done? ==> r.value == ReadHit(q, rest)
  {
    match q
    case Statements =>
      var body := BracketBody(Brace, rest);
      var kind := StatementKind(body);
      r := Done(kind);
    case Relations =>
      r := ReadRelation(rest);
    case Ctes =>
      var token :- ReadToken(rest);
      r := Done(CteHit(token.0));
    case Functions =>
      var body := BracketBody(Paren, rest);
      BodyValid(Paren, rest);
      var parts :- QuotedStrings(body);
      r := Done(FunctionHit(parts));
  }

  /** What is left to find in the text behind a marker, if a marker was found. */
  function Left(q: Query, rest: Option<Bytes>): seq<Hit> {
    if rest.Some? then Hits(q, rest.value, []) else []
  }

  ghost predicate LeftClear(q: Query, rest: Option<Bytes>) {
    rest.Some? ==> AllClear(q, rest.value)
  }

  /** What one iteration finds, and what it leaves to be searched. */
  ghost predicate Steps(q: Query, text: Bytes, rest: Option<Bytes>, hits: seq<Hit>) {
    && (rest.Some? ==> |rest.value| < |text| && Valid(rest.value))
    && Hits(q, text, []) == hits + Left(q, rest)
    && (AllClear(q, text) <==> LeftClear(q, rest))
  }

  lemma LastStep(q: Query, text: Bytes)
    requires Misses(q, text, 0, |text|)
    ensures Steps(q, text, None, [])
  {
    NothingFound(q, text);
  }

  lemma MarkerStep(q: Query, text: Bytes, p: nat, rest: Bytes)
    requires WordOk(q) && Valid(text) && FirstMarker(q, text, p, rest)
    ensures Valid(rest)
    ensures if ReadClear(q, rest) then Steps(q, text, Some(rest), ReadHit(q, rest)) else !AllClear(q, text)
  {
    BehindMarker(q, text, p, rest);
    HitsBehind(q, text, p, rest);
    ClearBehind(q, text, p, rest);
    StepFrom(q, text, rest);
  }

  lemma StepFrom(q: Query, text: Bytes, rest: Bytes)
    requires |rest| < |text| && Valid(rest)
    requires Hits(q, text, []) == ReadHit(q, rest) + Hits(q, rest, [])
    requires AllClear(q, text) <==> ReadClear(q, rest) && AllClear(q, rest)
    ensures if ReadClear(q, rest) then Steps(q, text, Some(rest), ReadHit(q, rest)) else !AllClear(q, text)
  {
    LeftSome(q, rest);
    if ReadClear(q, rest) {
      assert Steps(q, text, Some(rest), ReadHit(q, rest));
    }
  }

  lemma LeftSome(q: Query, rest: Bytes)
    ensures Left(q, Some(rest)) == Hits(q, rest, []) && (LeftClear(q, Some(rest)) <==> AllClear(q, rest))
  {
  }

  /** One iteration: find the next marker and read behind it. */
  method Next(q: Query, text: Bytes) returns (r: Checked<(Option<Bytes>, seq<Hit>)>)
    requires (q.Statements? || q.Relations? || q.Ctes? || q.Functions?) && Valid(text)
    ensures r.Panic? ==> !AllClear(q, text)
    ensures r.Done? ==> Steps(q, text, r.value.0, r.value.1)
  {
    var rest, p := Behind(q, text);
    if rest.None? {
      LastStep(q, text);
      return Done((None, []));
    }
    MarkerStep(q, text, p, rest.value);
    var hits :- ReadMarker(q, rest.value);
    return Done((rest, hits));
  }

  /**
   One of the four loops, on every string: everything its marker finds, in order,
   or a panic exactly when reading at one of the markers panics.
   */
  method Search(q: Query, dump: Bytes) returns (r: Checked<seq<Hit>>)
    requires (q.Statements? || q.Relations? || q.Ctes? || q.Functions?) && Valid(dump)
    ensures r.Panic? <==> !AllClear(q, dump)
    ensures r.Done? ==> r.value == Hits(q, dump, [])
  {
    var rest: Option<Bytes>, out: seq<Hit> := Some(dump), [];
    while rest.Some?
      invariant rest.Some? ==> Valid(rest.value)
      invariant Hits(q, dump, []) == out + Left(q, rest)
      invariant AllClear(q, dump) <==> LeftClear(q, rest)
      decreases if rest.Some? then |rest.value| + 1 else 0
    {
      var next :- Next(q, rest.value);
      Assoc(out, next.1, Left(q, next.0));
      rest, out := next.0, out + next.1;
    }
    return Done(out);
  }

  /** `dump.contains(marker)` */
  method Occurs(q: Query, dump: Bytes) returns (found: bool)
    requires (q.Into? || q.Dml?) && WordOk(q)
    ensures found == Contains(q, dump)
  {
    var rest, p := Behind(q, dump);
    found := rest.Some?;
    if found {
      HitsBehind(q, dump, p, rest.value);
    } else {
      NothingFound(q, dump);
    }
  }

  /**
   `analyze_dump`, on every string: the scan's report, or a panic exactly when a
   token or string that it reads has a backslash before a byte above 0x7F.
   */
  method AnalyzeDump(dump: Bytes) returns (r: Checked<Report>)
    requires Valid(dump)
    ensures r.Panic? <==> !DumpClear(dump)
    ensures r.Done? ==> r.value == Analyze(dump)
  {
    if dump == [] {
      NothingFound(Relations, dump);
      NothingFound(Ctes, dump);
      NothingFound(Functions, dump);
      return Done(Unparseable);
    }
    var kinds := Search(Statements, dump);
    var relations :- Search(Relations, dump);
    var ctes :- Search(Ctes, dump);
    var functions :- Search(Functions, dump);
    DmlTagsOk();
    var into := Occurs(Into, dump);
    var insert := Occurs(Dml("INSERTSTMT"), dump);
    var update := Occurs(Dml("UPDATESTMT"), dump);
    var delete := Occurs(Dml("DELETESTMT"), dump);
    var merge := Occurs(Dml("MERGESTMT"), dump);
    return Done(Assemble(kinds.value, into || insert || update || delete || merge, relations, functions, ctes));
  }

  /**
   End to end: on the dump of any shaped tree whose texts are strings, the loops
   do not panic, and each part of the report is right exactly when its condition
   on the tree holds.
   */
  method AnalyzeTree(v: Tree) returns (report: Report)
    requires Shaped(v) && ValidTexts(v) && !v.Token?
    ensures report.Report?
    ensures report.writes <==> WritesIn(v) || SpellsDml(v)
    ensures report.statements == |Walk(Statements, v)| <==> Unfooled(v, false)
    ensures Unfooled(v, false) ==> report.kind == KindOf(Walk(Statements, v))
    ensures report.ctes == Walk(Ctes, v) <==> Clean(Ctes, v)
    ensures RangeVars(v) ==> (report.relations == Walk(Relations, v) <==> RelationsRight(v))
    ensures F.FuncNames(v) ==> (report.functions == Walk(Functions, v) <==> F.FunctionsRight(v))
    ensures |report.relations| >= |Walk(Relations, v)|
    ensures Plain(v) ==>
              && report.relations == Walk(Relations, v) && report.ctes == Walk(Ctes, v)
              && report.functions == Walk(Functions, v)
    ensures v.List? && RawStatements(v.items) ==>
              && report.statements == |Kinds(v.items)|
              && (report.kind == "select"
                  <==> v.items.Item? && v.items.rest.Empty? && v.items.value.fields.value.tag == "SELECTSTMT")
  {
    PrintedTreesAreClear(v);
    var r := AnalyzeDump(Print(v));
    report := r.value;
    WritesExactly(v);
    StatementsExactlyWhen(v);
    CtesExactlyWhen(v);
    NothingUnderReported(v);
    if RangeVars(v) {
      RelationsExactlyWhen(v);
    }
    if F.FuncNames(v) {
      F.FunctionsExactlyWhen(v);
    }
    if Plain(v) {
      PlainTreesAreExact(v);
    }
    if v.List? && RawStatements(v.items) {
      CountsEveryDump(v.items);
    }
  }
}
