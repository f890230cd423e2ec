/** Dollar quoting of function bodies (`dollar_quote`), and the lexer it is meant for. */
module DollarQuote {
  import opened Options
  import opened Utf8

  /** A string constant as the lexer sees it: its content, and the text after it. */
  datatype Constant = Constant(content: Bytes, rest: Bytes)

  // ----- The lexer (section 4.1.2.4 of the PostgreSQL documentation)

  predicate TagStart(c: char) {
    'a' <= c <= 'z' || 'A' <= c <= 'Z' || c == '_'
  }

  predicate TagByte(c: char) {
    TagStart(c) || '0' <= c <= '9'
  }

  predicate IsTag(t: Bytes) {
    && (t == [] || TagStart(t[0]))
    && (forall i :: 0 <= i < |t| ==> TagByte(t[i]))
  }

  /** Bytes up to the next dollar sign. */
  function UpToDollar(s: Bytes): Bytes {
    if s == [] || s[0] == '$' then [] else [s[0]] + UpToDollar(s[1..])
  }

  /** What stands before the first occurrence of the delimiter, and what after it. */
  function Split(s: Bytes, delim: Bytes): Option<Constant>
    decreases |s|
  {
    if delim <= s then Some(Constant([], s[|delim|..]))
    else if s == [] then None
    else match Split(s[1..], delim)
      case None => None
      case Some(c) => Some(Constant([s[0]] + c.content, c.rest))
  }

  function Delimiter(tag: Bytes): Bytes {
    "$" + tag + "$"
  }

  /** Lex a dollar-quoted constant at the start of `s`. */
  function Lex(s: Bytes): Option<Constant> {
    if s == [] || s[0] != '$' then None
    else
      var tag := UpToDollar(s[1..]);
      if !IsTag(tag) || |tag| + 2 > |s| then None
      else Split(s[|tag| + 2..], Delimiter(tag))
  }

  /** The first dollar-quoted constant of a statement. */
  function LexStatement(s: Bytes): Option<Constant> {
    if s == [] || s[0] == '$' then Lex(s) else LexStatement(s[1..])
  }

  // ----- dollar_quote

  predicate Occurs(d: Bytes, s: Bytes)
    decreases |s|
  {
    d <= s || (s != [] && Occurs(d, s[1..]))
  }

  lemma {:induction false} OccursFits(d: Bytes, s: Bytes)
    requires Occurs(d, s)
    ensures |d| <= |s|
    decreases |s|
  {
    if !(d <= s) {
      OccursFits(d, s[1..]);
    }
  }

  function Quote(tag: Bytes, body: Bytes): Bytes {
    Delimiter(tag) + "\n" + body + "\n" + Delimiter(tag)
  }

  /** The first tag tried, and the tag after k retries. */
  function FirstTag(hex: Bytes): Bytes {
    "body_" + hex
  }

  predicate IsHex(hex: Bytes) {
    forall i :: 0 <= i < |hex| ==> '0' <= hex[i] <= '9' || 'a' <= hex[i] <= 'f'
  }

  function Xs(k: nat): Bytes {
    if k == 0 then [] else Xs(k - 1) + ['x']
  }

  /** The tag after k retries occurs in the body. */
  predicate Taken(body: Bytes, hex: Bytes, k: nat) {
    Occurs("$" + ("body_" + hex + Xs(k)) + "$", body)
  }

  /** It is the first one that does not. */
  ghost predicate FirstFree(body: Bytes, hex: Bytes, k: nat) {
    !Taken(body, hex, k) && forall j: nat :: j < k ==> Taken(body, hex, j)
  }

  /** Occurring is standing somewhere in the text. */
  lemma {:induction false} OccursExactly(d: Bytes, s: Bytes)
    ensures Occurs(d, s) <==> exists i: nat :: StandsAt(d, s, i)
    decreases |s|
  {
    if s != [] {
      var t := s[1..];
      OccursExactly(d, t);
      forall i: nat
        ensures StandsAt(d, t, i) <==> StandsAt(d, s, i + 1)
      {
        if i + |d| <= |t| {
          assert t[i..i + |d|] == s[i + 1..i + 1 + |d|];
        }
      }
      if Occurs(d, s) && !(d <= s) {
        var i: nat :| StandsAt(d, t, i);
        assert StandsAt(d, s, i + 1);
      }
      if exists i: nat :: StandsAt(d, s, i) {
        var i: nat :| StandsAt(d, s, i);
        assert i > 0 ==> StandsAt(d, t, i - 1);
      }
    }
    assert StandsAt(d, s, 0) <==> d <= s;
  }

  predicate StandsAt(d: Bytes, s: Bytes, i: nat) {
    i + |d| <= |s| && s[i..i + |d|] == d
  }

  /**
   `dollar_quote`, with the clock's hexadecimal reading as an argument.  It
   terminates for every body, because a tag that occurs is shorter than the body
   and each retry makes it longer; and for every text that may follow, the lexer
   reads back newline, body, newline and stops exactly there.
   */
  method Run(body: Bytes, hex: Bytes) returns (tag: Bytes, quoted: Bytes)
    requires IsHex(hex)
    ensures IsTag(tag) && (|tag| <= |FirstTag(hex)| || |tag| < |body|)
    ensures exists k: nat :: tag == FirstTag(hex) + Xs(k) && FirstFree(body, hex, k)
    ensures !Occurs(Delimiter(tag), body)
    ensures quoted == Quote(tag, body)
    ensures forall suffix :: Lex(quoted + suffix) == Some(Constant("\n" + body + "\n", suffix))
  {
    ghost var tries: nat := 0;
    tag := FirstTag(hex);
    FirstTagOk(hex);
    while Occurs(Delimiter(tag), body)
      invariant IsTag(tag) && tag != [] && tag == FirstTag(hex) + Xs(tries)
      invariant |tag| <= |FirstTag(hex)| || |tag| < |body|
      invariant forall j: nat :: j < tries ==> Taken(body, hex, j)
      decreases |body| - |tag|
    {
      OccursFits(Delimiter(tag), body);
      assert Taken(body, hex, tries);
      tag := tag + ['x'];
      tries := tries + 1;
    }
    assert FirstFree(body, hex, tries);
    quoted := Delimiter(tag) + "\n" + body + "\n" + Delimiter(tag);
    forall suffix
      ensures Lex(quoted + suffix) == Some(Constant("\n" + body + "\n", suffix))
    {
      LexInvertsQuote(tag, body, suffix);
    }
  }

  lemma FirstTagOk(hex: Bytes)
    requires IsHex(hex)
    ensures IsTag(FirstTag(hex)) && FirstTag(hex) != []
  {
  }

  // ----- The lexer inverts it

  lemma DelimiterBytes(tag: Bytes)
    requires IsTag(tag)
    ensures forall i :: 0 <= i < |Delimiter(tag)| ==> Delimiter(tag)[i] != '\n'
    ensures Delimiter(tag) != []
  {
  }

  lemma NotYet(d: Bytes, u: Bytes, rest: Bytes)
    requires (forall i :: 0 <= i < |d| ==> d[i] != '\n') && !Occurs(d, u) && rest != [] && rest[0] == '\n'
    ensures !(d <= u + rest)
  {
    var s := u + rest;
    assert |d| <= |u| ==> s[..|d|] == u[..|d|];
    assert |d| > |u| ==> d[|u|] != s[|u|];
  }

  /**
   The newline in front of the closing delimiter belongs to no delimiter, so no
   occurrence can straddle it: the first one is the closing one.
   */
  lemma {:induction false} NoStraddle(d: Bytes, u: Bytes, suffix: Bytes)
    requires d != [] && (forall i :: 0 <= i < |d| ==> d[i] != '\n') && !Occurs(d, u)
    ensures Split(u + (['\n'] + (d + suffix)), d) == Some(Constant(u + ['\n'], suffix))
    decreases |u|
  {
    var s := u + (['\n'] + (d + suffix));
    NotYet(d, u, ['\n'] + (d + suffix));
    if u == [] {
      assert s == ['\n'] + (d + suffix);
      SplitSkips('\n', d + suffix, d);
      assert (d + suffix)[|d|..] == suffix;
      assert ['\n'] + [] == u + ['\n'];
    } else {
      NoStraddle(d, u[1..], suffix);
      assert s[1..] == u[1..] + (['\n'] + (d + suffix));
      assert [u[0]] + (u[1..] + ['\n']) == u + ['\n'];
    }
  }

  lemma {:induction false} ReadTag(tag: Bytes, rest: Bytes)
    requires forall i :: 0 <= i < |tag| ==> tag[i] != '$'
    ensures UpToDollar(tag + (['$'] + rest)) == tag
    decreases |tag|
  {
    var s := tag + (['$'] + rest);
    if tag == [] {
      assert s == ['$'] + rest;
    } else {
      ReadTag(tag[1..], rest);
      assert s[1..] == tag[1..] + (['$'] + rest);
    }
  }

  /** The opening delimiter is read whole, and the lexer goes on behind it. */
  lemma LexOpening(tag: Bytes, rest: Bytes)
    requires IsTag(tag)
    ensures Lex(Delimiter(tag) + rest) == Split(rest, Delimiter(tag))
  {
    var s := Delimiter(tag) + rest;
    assert s[1..] == tag + (['$'] + rest);
    ReadTag(tag, rest);
    assert s[|tag| + 2..] == rest;
  }

  lemma QuoteShape(tag: Bytes, body: Bytes, suffix: Bytes)
    ensures Quote(tag, body) + suffix == Delimiter(tag) + (['\n'] + (body + (['\n'] + (Delimiter(tag) + suffix))))
  {
    var d := Delimiter(tag);
    assert Quote(tag, body) == d + (['\n'] + (body + (['\n'] + d)));
    assert ['\n'] + (body + (['\n'] + d)) + suffix == ['\n'] + (body + (['\n'] + (d + suffix)));
  }

  lemma SplitSkips(c: char, s: Bytes, d: Bytes)
    requires d != [] && d[0] != c
    ensures Split([c] + s, d)
            == match Split(s, d)
               case None => None
               case Some(k) => Some(Constant([c] + k.content, k.rest))
  {
    assert ([c] + s)[1..] == s && ([c] + s)[0] == c;
  }

  lemma LexInvertsQuote(tag: Bytes, body: Bytes, suffix: Bytes)
    requires IsTag(tag) && !Occurs(Delimiter(tag), body)
    ensures Lex(Quote(tag, body) + suffix) == Some(Constant("\n" + body + "\n", suffix))
  {
    var d := Delimiter(tag);
    var inner := body + (['\n'] + (d + suffix));
    QuoteShape(tag, body, suffix);
    LexOpening(tag, ['\n'] + inner);
    DelimiterBytes(tag);
    NoStraddle(d, body, suffix);
    SplitSkips('\n', inner, d);
    assert ['\n'] + (body + ['\n']) == "\n" + body + "\n";
  }

  /** Without the newlines the closing delimiter can be completed too early by the body's own end. */
  lemma NewlineIsNeeded()
    ensures !Occurs(Delimiter("t"), "$t")
    ensures Lex(Delimiter("t") + "$t" + Delimiter("t")) == Some(Constant("", "t$"))
  {
    var s := Delimiter("t") + "$t" + Delimiter("t");
    assert s == Delimiter("t") + "$t$t$";
    LexOpening("t", "$t$t$");
    assert Delimiter("t") == "$t$";
    assert "$t$" <= "$t$t$" && "$t$t$"[3..] == "t$";
    assert !("$t$" <= "$t") && "$t"[1..] == "t" && "t"[1..] == "";
  }

  // ----- The statement it goes into

  predicate IsHexDigit(c: char) {
    c in "0123456789abcdefABCDEF"
  }

  /** A valid identifier is the prefix and thirty-two hexadecimal digits in either case. */
  lemma ValidExactly(s: Bytes, prefix: Bytes)
    ensures ValidSqlIdent(s, prefix)
            <==> exists hex :: s == prefix + hex && |hex| == 32 && forall i :: 0 <= i < 32 ==> IsHexDigit(hex[i])
  {
    if ValidSqlIdent(s, prefix) {
      var hex := s[|prefix|..];
      assert s == prefix + hex;
      forall i | 0 <= i < 32
        ensures IsHexDigit(hex[i])
      {
        assert hex[i] == s[|prefix| + i];
      }
    }
  }

  /** `valid_sql_ident` */
  predicate ValidSqlIdent(s: Bytes, prefix: Bytes) {
    && prefix <= s && |s| == |prefix| + 32
    && (forall i :: |prefix| <= i < |s| ==> '0' <= s[i] <= '9' || 'a' <= s[i] <= 'f' || 'A' <= s[i] <= 'F')
  }

  function Signature(ident: Bytes): (s: Bytes)
    ensures '$' !in ident ==> '$' !in s
  {
    "allgres_functions." + ident + "(p_args jsonb) " + "RETURNS jsonb "
  }

  function Properties(): (s: Bytes)
    ensures '$' !in s
  {
    "LANGUAGE plpgsql " + "SECURITY INVOKER AS "
  }

  /** The text in front of the quoted body. */
  function StatementHead(ident: Bytes): (head: Bytes)
    ensures '$' !in ident ==> '$' !in head
  {
    "CREATE OR REPLACE FUNCTION " + Signature(ident) + Properties()
  }

  function BuildStatement(ident: Bytes, quoted: Bytes): Bytes {
    StatementHead(ident) + quoted + ";"
  }

  /** The statement, clause by clause. */
  lemma StatementIs(ident: Bytes, quoted: Bytes)
    ensures BuildStatement(ident, quoted)
            == "CREATE OR REPLACE FUNCTION " + ("allgres_functions." + (ident + ("(p_args jsonb) " + ("RETURNS jsonb "
               + ("LANGUAGE plpgsql " + ("SECURITY INVOKER AS " + (quoted + ";")))))))
  {
    var name := "allgres_functions." + ident + "(p_args jsonb) " + "RETURNS jsonb ";
    assert Signature(ident) == name;
    assert name == "allgres_functions." + (ident + ("(p_args jsonb) " + "RETURNS jsonb "));
  }

  /** Two statements for valid identifiers are the same only if both the identifiers and the bodies are. */
  lemma StatementTells(a: Bytes, b: Bytes, qa: Bytes, qb: Bytes)
    requires ValidSqlIdent(a, "fn_") && ValidSqlIdent(b, "fn_") && BuildStatement(a, qa) == BuildStatement(b, qb)
    ensures a == b && qa == qb
  {
    var front := "CREATE OR REPLACE FUNCTION " + "allgres_functions.";
    var back := "(p_args jsonb) " + "RETURNS jsonb " + "LANGUAGE plpgsql " + "SECURITY INVOKER AS ";
    Framed(front, a, back, qa);
    Framed(front, b, back, qb);
  }

  lemma Framed(front: Bytes, ident: Bytes, back: Bytes, quoted: Bytes)
    requires front == "CREATE OR REPLACE FUNCTION " + "allgres_functions."
    requires back == "(p_args jsonb) " + "RETURNS jsonb " + "LANGUAGE plpgsql " + "SECURITY INVOKER AS "
    ensures var s := BuildStatement(ident, quoted);
            && |s| == |front| + |ident| + |back| + |quoted| + 1
            && s[|front|..|front| + |ident|] == ident
            && s[|front| + |ident| + |back|..|s| - 1] == quoted
  {
    assert BuildStatement(ident, quoted) == front + ident + back + quoted + ";";
    PartsOf(front, ident, back, quoted, ";");
  }

  lemma PartsOf(a: Bytes, b: Bytes, c: Bytes, d: Bytes, e: Bytes)
    ensures var s := a + b + c + d + e;
            && |s| == |a| + |b| + |c| + |d| + |e|
            && s[|a|..|a| + |b|] == b && s[|a| + |b| + |c|..|s| - |e|] == d
  {
  }

  lemma {:induction false} SkipTo(head: Bytes, s: Bytes)
    requires '$' !in head && s != [] && s[0] == '$'
    ensures LexStatement(head + s) == Lex(s)
    decreases |head|
  {
    if head == [] {
      assert head + s == s;
    } else {
      SkipTo(head[1..], s);
      assert (head + s)[1..] == head[1..] + s;
    }
  }

  /**
   The one quoted constant in the statement built for a valid identifier is the
   body between newlines, and nothing but the semicolon follows it.
   */
  lemma BuiltBodyIsTheBody(ident: Bytes, tag: Bytes, body: Bytes)
    requires ValidSqlIdent(ident, "fn_") && IsTag(tag) && !Occurs(Delimiter(tag), body)
    ensures LexStatement(BuildStatement(ident, Quote(tag, body))) == Some(Constant("\n" + body + "\n", ";"))
  {
    var quoted := Quote(tag, body) + ";";
    assert BuildStatement(ident, Quote(tag, body)) == StatementHead(ident) + quoted;
    NoDollar(ident);
    assert quoted[0] == '$';
    SkipTo(StatementHead(ident), quoted);
    LexInvertsQuote(tag, body, ";");
  }

  lemma NoDollar(ident: Bytes)
    requires ValidSqlIdent(ident, "fn_")
    ensures forall i :: 0 <= i < |ident| ==> ident[i] != '$'
  {
    forall i | 0 <= i < |ident|
      ensures ident[i] != '$'
    {
      if i < 3 {
        assert ident[i] == "fn_"[i];
      }
    }
  }
}
