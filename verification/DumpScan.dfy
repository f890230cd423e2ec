/**
 How `analyze_dump` reads a dump: it looks for marker substrings and reads what
 follows each of them, using `node_body`, `paren_body`, `field` and
 `read_ident` for the extent and content of what it found.
 */
module DumpScan {
  import opened Options
  import opened Utf8
  import opened DumpTree
  import opened TokenReader

  // ----- node_body and paren_body

  datatype Bracket = Brace | Paren

  function Open(b: Bracket): char {
    if b == Brace then '{' else '('
  }

  function Close(b: Bracket): char {
    if b == Brace then '}' else ')'
  }

  /** Bytes up to the closing bracket that matches none in `s`, or all of them. */
  function Extent(b: Bracket, s: Bytes, depth: nat): (n: nat)
    ensures n <= |s|
    decreases |s|
  {
    if s == [] then 0
    else if s[0] == '\\' then (if |s| > 1 then 2 + Extent(b, s[2..], depth) else 1)
    else if s[0] == Close(b) && depth == 0 then 0
    else
      1 + Extent(b, s[1..], if s[0] == Open(b) then depth + 1 else if s[0] == Close(b) then depth - 1 else depth)
  }

  function Body(b: Bracket, s: Bytes): Bytes {
    s[..Extent(b, s, 0)]
  }

  /** `Extent` as the loops run: where they stop when they are at `i`. */
  function ExtentAt(b: Bracket, s: Bytes, i: nat, depth: nat): nat
    requires i <= |s|
    decreases |s| - i
  {
    if i == |s| then i
    else if s[i] == '\\' then (if i + 1 < |s| then ExtentAt(b, s, i + 2, depth) else |s|)
    else if s[i] == Close(b) && depth == 0 then i
    else
      ExtentAt(b, s, i + 1, if s[i] == Open(b) then depth + 1 else if s[i] == Close(b) then depth - 1 else depth)
  }

  lemma {:induction false} ExtentIndex(b: Bracket, s: Bytes, i: nat, depth: nat)
    requires i <= |s|
    ensures ExtentAt(b, s, i, depth) == i + Extent(b, s[i..], depth)
    decreases |s| - i
  {
    var t := s[i..];
    if t != [] {
      if s[i] == '\\' {
        if i + 1 < |s| {
          ExtentIndex(b, s, i + 2, depth);
          assert t[2..] == s[i + 2..];
        }
      } else if s[i] != Close(b) || depth != 0 {
        ExtentIndex(b, s, i + 1, if s[i] == Open(b) then depth + 1 else if s[i] == Close(b) then depth - 1 else depth);
        assert t[1..] == s[i + 1..];
      }
    }
  }

  /** `node_body` for braces, `paren_body` for parentheses. */
  method BracketBody(b: Bracket, s: Bytes) returns (body: Bytes)
    ensures body == Body(b, s)
  {
    ExtentIndex(b, s, 0, 0);
    assert s[0..] == s;
    var depth: nat := 0;
    var i := 0;
    while i < |s|
      invariant 0 <= i <= |s| + 1
      invariant i <= |s| ==> ExtentAt(b, s, i, depth) == ExtentAt(b, s, 0, 0)
      invariant i > |s| ==> ExtentAt(b, s, 0, 0) == |s|
    {
      if s[i] == '\\' {
        i := i + 1;
      } else if s[i] == Open(b) {
        depth := depth + 1;
      } else if s[i] == Close(b) {
        if depth == 0 {
          return s[..i];
        }
        depth := depth - 1;
      }
      i := i + 1;
    }
    assert s[..|s|] == s;
    return s;
  }

  // ----- What is looked for, and what is read where it is found

  datatype Query =
    | Statements      // {RAWSTMT, then the tag of its statement
    | Relations       // {RANGEVAR and a space, then its name and schema
    | Ctes            // :ctename
    | Functions       // :funcname ( then the names in the list
    | RelName         // :relname, within a RANGEVAR
    | SchemaName      // :schemaname, within a RANGEVAR
    | StatementTag    // :stmt { within a RAWSTMT
    | Into            // :intoClause {
    | Dml(tag: Bytes) // {INSERTSTMT and the like

  datatype Hit = Named(schema: Option<Bytes>, name: Bytes) | Value(text: Option<Bytes>) | Seen

  function Lead(q: Query): char {
    if q.Statements? || q.Relations? || q.Dml? then '{' else ':'
  }

  function Word(q: Query): Bytes {
    match q
    case Statements => "RAWSTMT"
    case Relations => "RANGEVAR"
    case Ctes => "ctename"
    case Functions => "funcname"
    case RelName => "relname"
    case SchemaName => "schemaname"
    case StatementTag => "stmt"
    case Into => "intoClause"
    case Dml(tag) => tag
  }

  function Tail(q: Query): Bytes {
    match q
    case Statements => ""
    case Dml(_) => ""
    case Functions => " ("
    case StatementTag => " {"
    case Into => " {"
    case _ => " "
  }

  function Needle(q: Query): Bytes {
    [Lead(q)] + (Word(q) + Tail(q))
  }

  predicate WordOk(q: Query) {
    q.Dml? ==> IsIdent(q.tag)
  }

  lemma WordIsIdent(q: Query)
    requires WordOk(q)
    ensures IsIdent(Word(q))
  {
  }

  /** The text `field` returns, given everything its marker would find. */
  function FirstText(hits: seq<Hit>): Option<Bytes> {
    if hits != [] && hits[0].Value? then hits[0].text else None
  }

  function First(hits: seq<Hit>): seq<Hit> {
    if hits == [] then [] else [hits[0]]
  }

  function RelationHit(names: seq<Hit>, schemas: seq<Hit>): seq<Hit> {
    match FirstText(names)
    case None => []
    case Some(name) => [Named(FirstText(schemas), name)]
  }

  /** The last name in the list is the function, the one before it the schema. */
  function FunctionHit(parts: seq<Bytes>): seq<Hit> {
    if parts == [] then []
    else [Named(if |parts| > 1 then Some(parts[|parts| - 2]) else None, parts[|parts| - 1])]
  }

  function CteHit(token: Option<Bytes>): seq<Hit> {
    if token.None? then [] else [Value(token)]
  }

  /** `read_ident` */
  function Ident(s: Bytes): Bytes {
    if s == [] || !IdentByte(s[0]) then [] else [s[0]] + Ident(s[1..])
  }

  function Rank(q: Query): nat {
    if q.Statements? || q.Relations? then 1 else 0
  }

  /** What is reported for one marker, given the text after it. */
  function ReadHit(q: Query, s: Bytes): seq<Hit>
    decreases Rank(q), 0, 0
  {
    match q
    case Statements => First(Hits(StatementTag, Body(Brace, s), []))
    case Relations => RelationHit(Hits(RelName, Body(Brace, s), []), Hits(SchemaName, Body(Brace, s), []))
    case Ctes => CteHit(Read(s).0)
    case Functions => FunctionHit(Quoted(Body(Paren, s)))
    case StatementTag => [Value(Some(Ident(s)))]
    case RelName => [Value(Read(s).0)]
    case SchemaName => [Value(Read(s).0)]
    case Into => [Seen]
    case Dml(_) => [Seen]
  }

  function At(q: Query, text: Bytes): seq<Hit>
    decreases Rank(q), 0, 1
  {
    if Needle(q) <= text then ReadHit(q, text[|Needle(q)|..]) else []
  }

  /** Everything found at the positions of `s`, when `s` is followed by `after`. */
  function Hits(q: Query, s: Bytes, after: Bytes): seq<Hit>
    decreases Rank(q), |s|, 1
  {
    if s == [] then [] else At(q, s + after) + Hits(q, s[1..], after)
  }

  datatype Report =
    | Unparseable
    | Report(statements: nat, kind: string, writes: bool, relations: seq<Hit>, functions: seq<Hit>, ctes: seq<Hit>)

  function KindOf(kinds: seq<Hit>): string {
    if |kinds| == 1 && kinds[0] == Value(Some("SELECTSTMT")) then "select" else "other"
  }

  function Assemble(kinds: seq<Hit>, writes: bool, relations: seq<Hit>, functions: seq<Hit>, ctes: seq<Hit>): Report {
    Report(|kinds|, KindOf(kinds), writes, relations, functions, ctes)
  }

  predicate IsDmlTag(tag: Bytes) {
    tag == "INSERTSTMT" || tag == "UPDATESTMT" || tag == "DELETESTMT" || tag == "MERGESTMT"
  }

  function Contains(q: Query, dump: Bytes): bool {
    Hits(q, dump, []) != []
  }

  /** `SELECT ... INTO` and data-modifying statements at any depth. */
  predicate Writes(dump: Bytes) {
    || Contains(Into, dump)
    || Contains(Dml("INSERTSTMT"), dump) || Contains(Dml("UPDATESTMT"), dump)
    || Contains(Dml("DELETESTMT"), dump) || Contains(Dml("MERGESTMT"), dump)
  }

  /** `analyze_dump` */
  function Analyze(dump: Bytes): Report {
    if dump == [] then Unparseable
    else
      Assemble(Hits(Statements, dump, []), Writes(dump),
               Hits(Relations, dump, []), Hits(Functions, dump, []), Hits(Ctes, dump, []))
  }

  // ----- Laws of searching

  lemma AtNeedle(q: Query, rest: Bytes)
    ensures At(q, Needle(q) + rest) == ReadHit(q, rest)
  {
    assert (Needle(q) + rest)[|Needle(q)|..] == rest;
  }

  lemma HitsCons(q: Query, c: char, s: Bytes, after: Bytes)
    ensures Hits(q, [c] + s, after) == At(q, [c] + (s + after)) + Hits(q, s, after)
    ensures c != Lead(q) ==> Hits(q, [c] + s, after) == Hits(q, s, after)
  {
    assert ([c] + s)[1..] == s;
    assert [c] + s + after == [c] + (s + after);
    if c != Lead(q) {
      assert ([c] + s + after)[0] == c && Needle(q)[0] == Lead(q);
    }
  }

  lemma {:induction false} HitsConcat(q: Query, a: Bytes, b: Bytes, after: Bytes)
    ensures Hits(q, a + b, after) == Hits(q, a, b + after) + Hits(q, b, after)
    decreases |a|
  {
    if a == [] {
      assert a + b == b;
    } else {
      HitsConcat(q, a[1..], b, after);
      assert (a + b)[1..] == a[1..] + b;
      Assoc(a, b, after);
      Assoc(At(q, a + (b + after)), Hits(q, a[1..], b + after), Hits(q, b, after));
    }
  }

  /** Text without the marker's first byte holds no marker. */
  lemma {:induction false} Quiet(q: Query, w: Bytes, after: Bytes)
    requires forall i :: 0 <= i < |w| ==> w[i] != Lead(q)
    ensures Hits(q, w, after) == []
    decreases |w|
  {
    if w != [] {
      HitsCons(q, w[0], w[1..], after);
      assert w == [w[0]] + w[1..];
      Quiet(q, w[1..], after);
    }
  }

  lemma PrefixCons(c: char, p: Bytes, d: char, s: Bytes)
    ensures [c] + p <= [d] + s <==> c == d && p <= s
  {
    var a, b := [c] + p, [d] + s;
    assert a[1..] == p && b[1..] == s;
    if a <= b {
      assert a == b[..|a|];
      assert a[0] == b[0];
      assert b[..|a|][1..] == s[..|p|];
    }
  }

  /**
   A marker word, with or without the space that ends it, stands at the start
   of escaped text only where the text itself has it: spaces in the text are
   hidden behind backslashes.
   */
  lemma {:induction false} WordMatch(w: Bytes, tail: Bytes, u: Bytes, after: Bytes)
    requires forall i :: 0 <= i < |w| ==> IdentByte(w[i])
    requires tail == [] || tail[0] == ' '
    requires after == [] || !IdentByte(after[0])
    ensures w + tail <= Esc(u) + after <==> if tail == [] then w <= u else u == w && tail <= after
    decreases |w|
  {
    if w == [] {
      assert w + tail == tail;
      if u == [] {
        assert Esc(u) + after == after;
      } else {
        assert (Esc(u) + after)[0] == Esc(u)[0] != ' ';
      }
    } else if u == [] {
      assert Esc(u) + after == after;
      assert (w + tail)[0] == w[0];
    } else if Special(u[0]) {
      assert (Esc(u) + after)[0] == '\\' && (w + tail)[0] == w[0];
    } else {
      WordMatch(w[1..], tail, u[1..], after);
      ByteMatch(w, tail, u, after);
    }
  }

  /** The first byte of the word and of the text, and what follows them. */
  lemma ByteMatch(w: Bytes, tail: Bytes, u: Bytes, after: Bytes)
    requires w != [] && u != [] && !Special(u[0])
    ensures w + tail <= Esc(u) + after <==> w[0] == u[0] && w[1..] + tail <= Esc(u[1..]) + after
    ensures w <= u <==> w[0] == u[0] && w[1..] <= u[1..]
    ensures u == w <==> w[0] == u[0] && u[1..] == w[1..]
  {
    EscapedFirst(u, after);
    PrefixCons(w[0], w[1..] + tail, u[0], Esc(u[1..]) + after);
    Assoc([w[0]], w[1..], tail);
    PrefixCons(w[0], w[1..], u[0], u[1..]);
    assert w == [w[0]] + w[1..] && u == [u[0]] + u[1..];
  }

  lemma EscapedFirst(u: Bytes, after: Bytes)
    requires u != [] && !Special(u[0])
    ensures Esc(u) + after == [u[0]] + (Esc(u[1..]) + after)
  {
    Assoc([u[0]], Esc(u[1..]), after);
  }

  /** A marker at a given first byte and the escaped text behind it. */
  lemma MarkerMatch(q: Query, c: char, u: Bytes, after: Bytes)
    requires WordOk(q)
    requires after == [] || !IdentByte(after[0])
    ensures Needle(q) <= [c] + (Esc(u) + after)
            <==> c == Lead(q) && if Tail(q) == [] then Word(q) <= u else u == Word(q) && Tail(q) <= after
  {
    WordIsIdent(q);
    PrefixCons(Lead(q), Word(q) + Tail(q), c, Esc(u) + after);
    WordMatch(Word(q), Tail(q), u, after);
  }

  // ----- The loops of analyze_dump

  predicate FoundAt(q: Query, s: Bytes, p: nat) {
    p <= |s| && Needle(q) <= s[p..]
  }

  /** No marker stands at an index from `i` up to `p`. */
  ghost predicate Misses(q: Query, s: Bytes, i: nat, p: nat) {
    forall k :: i <= k < p ==> !FoundAt(q, s, k)
  }

  lemma MissesMore(q: Query, s: Bytes, i: nat, p: nat)
    requires Misses(q, s, i, p) && !FoundAt(q, s, p)
    ensures Misses(q, s, i, p + 1)
  {
  }

  /** `str::find` from an index on. */
  method Find(q: Query, dump: Bytes, from: nat) returns (p: Option<nat>)
    requires from <= |dump|
    ensures p.Some? ==> from <= p.value < |dump| && FoundAt(q, dump, p.value)
    ensures Misses(q, dump, from, if p.Some? then p.value else |dump|)
  {
    p := None;
    var i := from;
    while i < |dump|
      invariant from <= i <= |dump|
      invariant Misses(q, dump, from, i)
    {
      if FoundAt(q, dump, i) {
        p := Some(i);
        return;
      }
      MissesMore(q, dump, from, i);
      i := i + 1;
    }
  }

  /** `Hits` from an index on, as the loops run. */
  function HitsAt(q: Query, s: Bytes, i: nat): seq<Hit>
    decreases |s| - i
  {
    if i >= |s| then [] else HitAt(q, s, i) + HitsAt(q, s, i + 1)
  }

  /** What is found at one index. */
  function HitAt(q: Query, s: Bytes, i: nat): seq<Hit> {
    if FoundAt(q, s, i) then ReadHit(q, s[i + |Needle(q)|..]) else []
  }

  lemma {:induction false} HitsIndex(q: Query, s: Bytes, i: nat)
    requires i <= |s|
    ensures HitsAt(q, s, i) == Hits(q, s[i..], [])
    decreases |s| - i
  {
    if i < |s| {
      HitsIndex(q, s, i + 1);
      HitsHead(q, s, i, s[i..]);
    }
  }

  lemma HitsHead(q: Query, s: Bytes, i: nat, t: Bytes)
    requires i < |s| && t == s[i..]
    ensures Hits(q, t, []) == HitAt(q, s, i) + Hits(q, s[i + 1..], [])
  {
    assert t[1..] == s[i + 1..];
    AtIndex(q, s, i, t);
  }

  lemma AtIndex(q: Query, s: Bytes, i: nat, t: Bytes)
    requires i < |s| && t == s[i..]
    ensures At(q, t + []) == HitAt(q, s, i)
  {
    assert t + [] == t;
    if FoundAt(q, s, i) {
      assert t[|Needle(q)|..] == s[i + |Needle(q)|..];
    }
  }

  lemma HitsFromStart(q: Query, s: Bytes)
    ensures HitsAt(q, s, 0) == Hits(q, s, [])
  {
    HitsIndex(q, s, 0);
    assert s[0..] == s;
  }

  lemma {:induction false} SkipMisses(q: Query, s: Bytes, i: nat, p: nat)
    requires i <= p <= |s| && Misses(q, s, i, p)
    ensures HitsAt(q, s, i) == HitsAt(q, s, p)
    decreases p - i
  {
    if i < p {
      SkipMisses(q, s, i + 1, p);
    }
  }

  lemma NeedleOnce(q: Query, k: nat)
    requires WordOk(q) && 1 <= k < |Needle(q)|
    ensures Needle(q)[k] != Lead(q) == Needle(q)[0]
  {
    WordIsIdent(q);
    if k - 1 < |Word(q)| {
      assert Needle(q)[k] == Word(q)[k - 1];
    } else {
      assert Needle(q)[k] == Tail(q)[k - 1 - |Word(q)|];
    }
  }

  /** A marker never overlaps itself: its first byte occurs in it once. */
  lemma NoOverlap(q: Query, s: Bytes, p: nat)
    requires WordOk(q) && FoundAt(q, s, p)
    ensures Misses(q, s, p + 1, p + |Needle(q)|)
  {
    var n := Needle(q);
    forall k | p + 1 <= k < p + |n|
      ensures !FoundAt(q, s, k)
    {
      assert s[k..][0] == s[k] == s[p..][k - p] == n[k - p];
      NeedleOnce(q, k - p);
    }
  }

  lemma NextHit(q: Query, s: Bytes, i: nat, p: nat)
    requires WordOk(q) && i <= p && Misses(q, s, i, p) && FoundAt(q, s, p)
    ensures p + |Needle(q)| <= |s|
    ensures HitsAt(q, s, i) == ReadHit(q, s[p + |Needle(q)|..]) + HitsAt(q, s, p + |Needle(q)|)
  {
    MarkerLength(q, s, p);
    NoOverlap(q, s, p);
    HitHere(q, s, p);
    SkipBoth(q, s, i, p, p + |Needle(q)|, ReadHit(q, s[p + |Needle(q)|..]));
  }

  lemma SkipBoth(q: Query, s: Bytes, i: nat, p: nat, e: nat, found: seq<Hit>)
    requires i <= p < e <= |s| && Misses(q, s, i, p) && Misses(q, s, p + 1, e)
    requires HitsAt(q, s, p) == found + HitsAt(q, s, p + 1)
    ensures HitsAt(q, s, i) == found + HitsAt(q, s, e)
  {
    SkipMisses(q, s, i, p);
    SkipMisses(q, s, p + 1, e);
  }

  lemma MarkerLength(q: Query, s: Bytes, p: nat)
    requires FoundAt(q, s, p)
    ensures 0 < |Needle(q)| && p + |Needle(q)| <= |s|
  {
  }

  lemma HitHere(q: Query, s: Bytes, p: nat)
    requires FoundAt(q, s, p)
    ensures HitsAt(q, s, p) == ReadHit(q, s[p + |Needle(q)|..]) + HitsAt(q, s, p + 1)
  {
    MarkerLength(q, s, p);
    Unroll(q, s, p);
  }

  lemma Unroll(q: Query, s: Bytes, i: nat)
    requires i < |s|
    ensures HitsAt(q, s, i) == HitAt(q, s, i) + HitsAt(q, s, i + 1)
  {
  }
}
