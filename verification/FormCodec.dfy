/**
 Percent and form decoding (section 2.1 of RFC 3986): `percent_decode` of the web
 worker, the separately written `decode` of the form parser, and what each of
 them is used for.
 */
module FormCodec {
  import opened Options

  /** Bytes as numbers: escapes are computed with. */
  type Byte = b: int | 0 <= b < 256
  type Octets = seq<Byte>

  const PERCENT: Byte := 37
  const AMPERSAND: Byte := 38
  const PLUS: Byte := 43
  const EQUALS: Byte := 61
  const SPACE: Byte := 32

  /** The signs, as the source writes them. */
  lemma Signs()
    ensures PERCENT == '%' as int && AMPERSAND == '&' as int && PLUS == '+' as int
    ensures EQUALS == '=' as int && SPACE == ' ' as int
  {
  }

  // ----- Decoding

  function HexDigit(b: Byte): Option<int> {
    if 48 <= b <= 57 then Some(b - 48)
    else if 65 <= b <= 70 then Some(b - 55)
    else if 97 <= b <= 102 then Some(b - 87)
    else None
  }

  /** `u8::from_str_radix(_, 16)` on two bytes; it takes a leading plus sign. */
  function Radix16(a: Byte, b: Byte): Option<Byte> {
    match HexDigit(b)
    case None => None
    case Some(low) =>
      if a == PLUS then Some(low)
      else match HexDigit(a)
        case None => None
        case Some(high) => Some(16 * high + low)
  }

  function Decode(s: Octets): Octets
    decreases |s|
  {
    if s == [] then []
    else if s[0] == PERCENT && |s| > 2 && Radix16(s[1], s[2]).Some? then [Radix16(s[1], s[2]).value] + Decode(s[3..])
    else [if s[0] == PLUS then SPACE else s[0]] + Decode(s[1..])
  }

  predicate EscapeAt(s: Octets, i: nat) {
    i + 2 < |s| && s[i] == PERCENT && Radix16(s[i + 1], s[i + 2]).Some?
  }

  /** The byte that one turn of either loop pushes. */
  function ByteAt(s: Octets, i: nat): Byte
    requires i < |s|
  {
    if EscapeAt(s, i) then Radix16(s[i + 1], s[i + 2]).value else if s[i] == PLUS then SPACE else s[i]
  }

  /** `Decode` as the loops run. */
  function DecodeAt(s: Octets, i: nat): Octets
    decreases |s| - i
  {
    if i >= |s| then [] else [ByteAt(s, i)] + DecodeAt(s, if EscapeAt(s, i) then i + 3 else i + 1)
  }

  lemma {:induction false} DecodeIndex(s: Octets, i: nat)
    requires i <= |s|
    ensures DecodeAt(s, i) == Decode(s[i..])
    decreases |s| - i
  {
    if i < |s| {
      var t := s[i..];
      assert t[1..] == s[i + 1..];
      DecodeIndex(s, i + 1);
      if i + 2 < |s| {
        assert t[3..] == s[i + 3..];
        DecodeIndex(s, i + 3);
      }
    }
  }

  lemma DecodeFromStart(s: Octets)
    ensures DecodeAt(s, 0) == Decode(s)
  {
    DecodeIndex(s, 0);
    assert s[0..] == s;
  }

  /** `percent_decode` of the web worker: the percent sign first. */
  method PercentDecode(s: Octets) returns (out: Octets)
    ensures out == Decode(s)
  {
    out := [];
    var i := 0;
    while i < |s|
      invariant 0 <= i <= |s|
      invariant DecodeAt(s, 0) == out + DecodeAt(s, i)
    {
      var pushed, next := s[i], i + 1;
      if s[i] == PERCENT && i + 2 < |s| {
        var hex := Radix16(s[i + 1], s[i + 2]);
        if hex.Some? {
          pushed, next := hex.value, i + 3;
        }
      } else if s[i] == PLUS {
        pushed := SPACE;
      }
      assert pushed == ByteAt(s, i) && next == if EscapeAt(s, i) then i + 3 else i + 1;
      out, i := out + [pushed], next;
    }
    DecodeFromStart(s);
  }

  /** `decode` of the form parser: the plus sign first. */
  method FormDecode(s: Octets) returns (out: Octets)
    ensures out == Decode(s)
  {
    out := [];
    var i := 0;
    while i < |s|
      invariant 0 <= i <= |s|
      invariant DecodeAt(s, 0) == out + DecodeAt(s, i)
    {
      var pushed, next := s[i], i + 1;
      if s[i] == PLUS {
        pushed := SPACE;
      } else if s[i] == PERCENT && i + 2 < |s| {
        var hex := Radix16(s[i + 1], s[i + 2]);
        if hex.Some? {
          pushed, next := hex.value, i + 3;
        }
      }
      assert pushed == ByteAt(s, i) && next == if EscapeAt(s, i) then i + 3 else i + 1;
      out, i := out + [pushed], next;
    }
    DecodeFromStart(s);
  }

  // ----- Encoding

  predicate Unreserved(b: Byte) {
    48 <= b <= 57 || 65 <= b <= 90 || 97 <= b <= 122 || b == 45 || b == 46 || b == 95 || b == 126
  }

  function HexChar(n: int): Byte
    requires 0 <= n < 16
  {
    if n < 10 then 48 + n else 55 + n
  }

  /** One byte: itself, or `+` for a space in a form, or `%XX`. */
  function EncodeByte(form: bool, b: Byte): Octets {
    if Unreserved(b) then [b]
    else if form && b == ' ' as int then [PLUS]
    else [PERCENT, HexChar(b / 16), HexChar(b % 16)]
  }

  function Encode(form: bool, t: Octets): Octets {
    if t == [] then [] else EncodeByte(form, t[0]) + Encode(form, t[1..])
  }

  lemma ByteRoundTrip(form: bool, b: Byte, rest: Octets)
    ensures Decode(EncodeByte(form, b) + rest) == [b] + Decode(rest)
  {
    var e := EncodeByte(form, b);
    var s := e + rest;
    if |e| == 1 {
      assert s[1..] == rest;
    } else {
      assert s[3..] == rest;
      assert 16 * (b / 16) + b % 16 == b;
      assert s[1] != PLUS;
    }
  }

  /** Decoding inverts both encodings, for every text. */
  lemma {:induction false} DecodeInvertsEncode(form: bool, t: Octets)
    ensures Decode(Encode(form, t)) == t
    decreases |t|
  {
    if t != [] {
      ByteRoundTrip(form, t[0], Encode(form, t[1..]));
      DecodeInvertsEncode(form, t[1..]);
    }
  }

  /** A hexadecimal digit in either case. */
  predicate WritesDigit(b: Byte, n: int) {
    0 <= n < 16 && (b == "0123456789abcdef"[n] as int || b == "0123456789ABCDEF"[n] as int)
  }

  /** The sixteen digits in both cases have their values, and no other byte has one. */
  lemma DigitsExactly(b: Byte, n: int)
    ensures HexDigit(b) == Some(n) <==> WritesDigit(b, n)
  {
  }

  /**
   What an encoder may write for a text: each byte as two hexadecimal digits in
   either case, or as it is if it is no percent or plus sign, or, in a form, a
   space as a plus sign.
   */
  predicate Encodes(form: bool, t: Octets, e: Octets)
    decreases |t|
  {
    if t == [] then e == []
    else
      || (e != [] && e[0] == t[0] && t[0] != '%' as int && t[0] != '+' as int && Encodes(form, t[1..], e[1..]))
      || (form && e != [] && e[0] == '+' as int && t[0] == ' ' as int && Encodes(form, t[1..], e[1..]))
      || (|e| > 2 && e[0] == '%' as int && WritesDigit(e[1], t[0] / 16) && WritesDigit(e[2], t[0] % 16)
          && Encodes(form, t[1..], e[3..]))
  }

  /** The encoder above is one of them. */
  lemma {:induction false} EncodeIsOne(form: bool, t: Octets)
    ensures Encodes(form, t, Encode(form, t))
    decreases |t|
  {
    if t != [] {
      EncodeIsOne(form, t[1..]);
      var rest := Encode(form, t[1..]);
      if |EncodeByte(form, t[0])| == 1 {
        assert (EncodeByte(form, t[0]) + rest)[1..] == rest;
      } else {
        EscapeIsOne(form, t, rest);
      }
    }
  }

  lemma EscapeIsOne(form: bool, t: Octets, rest: Octets)
    requires t != [] && Encodes(form, t[1..], rest)
    ensures Encodes(form, t, [PERCENT, HexChar(t[0] / 16), HexChar(t[0] % 16)] + rest)
  {
    var e := [PERCENT, HexChar(t[0] / 16), HexChar(t[0] % 16)] + rest;
    assert e[3..] == rest;
    HexCharWrites(t[0] / 16);
    HexCharWrites(t[0] % 16);
  }

  lemma HexCharWrites(n: int)
    requires 0 <= n < 16
    ensures WritesDigit(HexChar(n), n)
  {
  }

  /** Whatever the encoder chooses, decoding gives the text back. */
  lemma {:induction false} DecodeInvertsEvery(form: bool, t: Octets, e: Octets)
    requires Encodes(form, t, e)
    ensures Decode(e) == t
    decreases |t|
  {
    if t != [] {
      assert t == [t[0]] + t[1..];
      if |e| > 2 && e[0] == '%' as int && Encodes(form, t[1..], e[3..])
         && WritesDigit(e[1], t[0] / 16) && WritesDigit(e[2], t[0] % 16) {
        DecodeInvertsEvery(form, t[1..], e[3..]);
        DecodeEscape(t[0], e);
      } else {
        DecodeInvertsEvery(form, t[1..], e[1..]);
      }
    }
  }

  lemma DecodeEscape(b: Byte, e: Octets)
    requires |e| > 2 && e[0] == '%' as int && WritesDigit(e[1], b / 16) && WritesDigit(e[2], b % 16)
    ensures Decode(e) == [b] + Decode(e[3..])
  {
    DigitsExactly(e[1], b / 16);
    DigitsExactly(e[2], b % 16);
    assert e[1] != PLUS;
    assert 16 * (b / 16) + b % 16 == b;
  }

  predicate NoByte(s: Octets, c: Byte) {
    forall i :: 0 <= i < |s| ==> s[i] != c
  }

  lemma {:induction false} EncodedBytes(form: bool, t: Octets)
    ensures NoByte(Encode(form, t), AMPERSAND) && NoByte(Encode(form, t), EQUALS)
    decreases |t|
  {
    if t != [] {
      EncodedBytes(form, t[1..]);
    }
  }

  // ----- Splitting

  /** `str::split`: one piece more than there are separators. */
  function Pieces(s: Octets): (r: seq<Octets>)
    ensures r != []
  {
    if s == [] then [[]]
    else if s[0] == AMPERSAND then [[]] + Pieces(s[1..])
    else
      var tail := Pieces(s[1..]);
      [[s[0]] + tail[0]] + tail[1..]
  }

  /** `str::split_once('=')` */
  function SplitOnce(s: Octets): Option<(Octets, Octets)> {
    if s == [] then None
    else if s[0] == EQUALS then Some(([], s[1..]))
    else match SplitOnce(s[1..])
      case None => None
      case Some(kv) => Some(([s[0]] + kv.0, kv.1))
  }

  lemma {:induction false} PiecesFirst(p: Octets, rest: Octets)
    requires NoByte(p, AMPERSAND)
    ensures Pieces(p) == [p]
    ensures Pieces(p + ([AMPERSAND] + rest)) == [p] + Pieces(rest)
    decreases |p|
  {
    var s := p + ([AMPERSAND] + rest);
    if p == [] {
      assert s == [AMPERSAND] + rest;
      assert s[1..] == rest;
    } else {
      PiecesFirst(p[1..], rest);
      assert s[1..] == p[1..] + ([AMPERSAND] + rest);
      assert [p[0]] + p[1..] == p;
    }
  }

  lemma {:induction false} SplitOnceAt(k: Octets, v: Octets)
    requires NoByte(k, EQUALS)
    ensures SplitOnce(k + ([EQUALS] + v)) == Some((k, v))
    decreases |k|
  {
    var s := k + ([EQUALS] + v);
    if k == [] {
      assert s == [EQUALS] + v;
      assert s[1..] == v;
    } else {
      SplitOnceAt(k[1..], v);
      assert s[1..] == k[1..] + ([EQUALS] + v);
      assert [k[0]] + k[1..] == k;
    }
  }

  // ----- parse_form_body and query_param

  /** The pairs of a body: pieces without an equals sign are dropped. */
  function Pairs(pieces: seq<Octets>): seq<(Octets, Octets)> {
    if pieces == [] then []
    else (match SplitOnce(pieces[0]) case None => [] case Some(kv) => [kv]) + Pairs(pieces[1..])
  }

  /** Collecting into a map: a later pair replaces an earlier one. */
  function Collect(pairs: seq<(Octets, Octets)>): map<Octets, Octets> {
    if pairs == [] then map[]
    else map[Decode(pairs[0].0) := Decode(pairs[0].1)] + Collect(pairs[1..])
  }

  function ParseFormBody(body: Octets): map<Octets, Octets> {
    Collect(Pairs(Pieces(body)))
  }

  function FindKey(pairs: seq<(Octets, Octets)>, key: Octets): Option<Octets> {
    if pairs == [] then None
    else if pairs[0].0 == key then Some(Decode(pairs[0].1))
    else FindKey(pairs[1..], key)
  }

  function QueryParam(query: Octets, key: Octets): Option<Octets> {
    FindKey(Pairs(Pieces(query)), key)
  }

  // ----- What they make of an encoded list of pairs

  function EncodePair(form: bool, kv: (Octets, Octets)): Octets {
    Encode(form, kv.0) + ([EQUALS] + Encode(form, kv.1))
  }

  function EncodePairs(form: bool, kvs: seq<(Octets, Octets)>): Octets {
    if kvs == [] then []
    else if |kvs| == 1 then EncodePair(form, kvs[0])
    else EncodePair(form, kvs[0]) + ([AMPERSAND] + EncodePairs(form, kvs[1..]))
  }

  function Encoded(form: bool, kvs: seq<(Octets, Octets)>): seq<(Octets, Octets)> {
    if kvs == [] then [] else [(Encode(form, kvs[0].0), Encode(form, kvs[0].1))] + Encoded(form, kvs[1..])
  }

  lemma PairBytes(form: bool, kv: (Octets, Octets))
    ensures NoByte(EncodePair(form, kv), AMPERSAND)
    ensures SplitOnce(EncodePair(form, kv)) == Some((Encode(form, kv.0), Encode(form, kv.1)))
  {
    EncodedBytes(form, kv.0);
    EncodedBytes(form, kv.1);
    SplitOnceAt(Encode(form, kv.0), Encode(form, kv.1));
  }

  lemma {:induction false} PairsOfEncoded(form: bool, kvs: seq<(Octets, Octets)>)
    ensures Pairs(Pieces(EncodePairs(form, kvs))) == Encoded(form, kvs)
    decreases |kvs|
  {
    if kvs == [] {
      var none: seq<Octets> := [[]];
      assert none[1..] == [];
      assert Pairs(none) == [];
    } else {
      var p := EncodePair(form, kvs[0]);
      PairBytes(form, kvs[0]);
      if |kvs| == 1 {
        PiecesFirst(p, []);
        var one: seq<Octets> := [p];
        assert one[1..] == [] && kvs[1..] == [];
      } else {
        var rest := EncodePairs(form, kvs[1..]);
        PiecesFirst(p, rest);
        PairsOfEncoded(form, kvs[1..]);
        assert ([p] + Pieces(rest))[1..] == Pieces(rest);
      }
    }
  }

  /** The map of a list of pairs, the last of equal keys winning. */
  function LastWins(kvs: seq<(Octets, Octets)>): map<Octets, Octets> {
    if kvs == [] then map[] else map[kvs[0].0 := kvs[0].1] + LastWins(kvs[1..])
  }

  lemma {:induction false} CollectEncoded(form: bool, kvs: seq<(Octets, Octets)>)
    ensures Collect(Encoded(form, kvs)) == LastWins(kvs)
    decreases |kvs|
  {
    if kvs != [] {
      DecodeInvertsEncode(form, kvs[0].0);
      DecodeInvertsEncode(form, kvs[0].1);
      CollectEncoded(form, kvs[1..]);
      assert Encoded(form, kvs)[1..] == Encoded(form, kvs[1..]);
    }
  }

  /**
   A form body made of any list of pairs is read back as the map of that list;
   where a key occurs more than once, its last value is the one in the map.
   */
  lemma FormRoundTrip(form: bool, kvs: seq<(Octets, Octets)>)
    ensures ParseFormBody(EncodePairs(form, kvs)) == LastWins(kvs)
    ensures forall i :: 0 <= i < |kvs| && (forall j :: i < j < |kvs| ==> kvs[j].0 != kvs[i].0) ==>
              kvs[i].0 in LastWins(kvs) && LastWins(kvs)[kvs[i].0] == kvs[i].1
  {
    PairsOfEncoded(form, kvs);
    CollectEncoded(form, kvs);
    forall i | 0 <= i < |kvs| && (forall j :: i < j < |kvs| ==> kvs[j].0 != kvs[i].0)
      ensures kvs[i].0 in LastWins(kvs) && LastWins(kvs)[kvs[i].0] == kvs[i].1
    {
      LastOne(kvs, i);
    }
  }

  lemma {:induction false} LastOne(kvs: seq<(Octets, Octets)>, i: nat)
    requires i < |kvs| && forall j :: i < j < |kvs| ==> kvs[j].0 != kvs[i].0
    ensures kvs[i].0 in LastWins(kvs) && LastWins(kvs)[kvs[i].0] == kvs[i].1
    decreases |kvs|
  {
    var tail := kvs[1..];
    if i == 0 {
      NotThere(tail, kvs[0].0);
    } else {
      assert tail[i - 1] == kvs[i];
      LastOne(tail, i - 1);
    }
  }

  lemma {:induction false} NotThere(kvs: seq<(Octets, Octets)>, key: Octets)
    requires forall j :: 0 <= j < |kvs| ==> kvs[j].0 != key
    ensures key !in LastWins(kvs)
    decreases |kvs|
  {
    if kvs != [] {
      NotThere(kvs[1..], key);
    }
  }

  /** The value of the first pair with a key. */
  function FirstOf(kvs: seq<(Octets, Octets)>, key: Octets): Option<Octets> {
    if kvs == [] then None
    else if kvs[0].0 == key then Some(kvs[0].1)
    else FirstOf(kvs[1..], key)
  }

  lemma {:induction false} UnreservedEncode(form: bool, key: Octets)
    requires forall i :: 0 <= i < |key| ==> Unreserved(key[i])
    ensures Encode(form, key) == key
    decreases |key|
  {
    if key != [] {
      UnreservedEncode(form, key[1..]);
    }
  }

  lemma {:induction false} FindEncoded(form: bool, kvs: seq<(Octets, Octets)>, key: Octets)
    requires Encode(form, key) == key
    ensures FindKey(Encoded(form, kvs), key) == FirstOf(kvs, key)
    decreases |kvs|
  {
    if kvs != [] {
      DecodeInvertsEncode(form, kvs[0].0);
      DecodeInvertsEncode(form, kvs[0].1);
      DecodeInvertsEncode(form, key);
      FindEncoded(form, kvs[1..], key);
      assert Encoded(form, kvs)[1..] == Encoded(form, kvs[1..]);
    }
  }

  /** A query made of any list of pairs gives, for a plain key such as "ticket", the first value with that key. */
  lemma QueryReadsFirst(form: bool, kvs: seq<(Octets, Octets)>, key: Octets)
    requires forall i :: 0 <= i < |key| ==> Unreserved(key[i])
    ensures QueryParam(EncodePairs(form, kvs), key) == FirstOf(kvs, key)
  {
    UnreservedEncode(form, key);
    PairsOfEncoded(form, kvs);
    FindEncoded(form, kvs, key);
  }

  // ----- Pieces that are no pairs, and keys that are encoded

  /** A piece without an equals sign is dropped, wherever it stands. */
  lemma {:induction false} PairlessPiece(piece: Octets, rest: Octets)
    requires forall i :: 0 <= i < |piece| ==> piece[i] != '=' as int && piece[i] != '&' as int
    ensures ParseFormBody(piece + ([AMPERSAND] + rest)) == ParseFormBody(rest)
    ensures ParseFormBody(piece) == map[]
  {
    PiecesFirst(piece, rest);
    NoSplit(piece);
    var one: seq<Octets> := [piece];
    assert one[1..] == [] && ([piece] + Pieces(rest))[1..] == Pieces(rest);
    assert Pairs(one) == [] && [] + Pairs(Pieces(rest)) == Pairs(Pieces(rest));
  }

  lemma {:induction false} NoSplit(s: Octets)
    requires forall i :: 0 <= i < |s| ==> s[i] != '=' as int
    ensures SplitOnce(s) == None
    decreases |s|
  {
    if s != [] {
      NoSplit(s[1..]);
    }
  }

  /**
   The first pair of a query decides if its key is, byte for byte, the one asked
   for; a key that would only decode to it is passed over.  The value runs to the
   next ampersand, equals signs and all.
   */
  lemma QueryFirstPair(k: Octets, v: Octets, rest: Octets, key: Octets)
    requires forall i :: 0 <= i < |k| ==> k[i] != '=' as int && k[i] != '&' as int
    requires forall i :: 0 <= i < |v| ==> v[i] != '&' as int
    ensures QueryParam(k + ([EQUALS] + v) + ([AMPERSAND] + rest), key)
            == if k == key then Some(Decode(v)) else QueryParam(rest, key)
  {
    var piece := k + ([EQUALS] + v);
    SplitOnceAt(k, v);
    NoAmpersand(k, v);
    PiecesFirst(piece, rest);
    var tail := Pieces(rest);
    PairsFirst(piece, (k, v), tail);
    FirstPair((k, v), Pairs(tail), key);
    QueryIs(rest, tail, key);
    QueryIs(piece + ([AMPERSAND] + rest), [piece] + tail, key);
  }

  lemma QueryIs(query: Octets, pieces: seq<Octets>, key: Octets)
    requires Pieces(query) == pieces
    ensures QueryParam(query, key) == FindKey(Pairs(pieces), key)
  {
  }

  lemma NoAmpersand(k: Octets, v: Octets)
    requires NoByte(k, AMPERSAND) && NoByte(v, AMPERSAND)
    ensures NoByte(k + ([EQUALS] + v), AMPERSAND)
  {
    assert NoByte([EQUALS] + v, AMPERSAND);
  }

  lemma PairsFirst(piece: Octets, pair: (Octets, Octets), pieces: seq<Octets>)
    requires SplitOnce(piece) == Some(pair)
    ensures Pairs([piece] + pieces) == [pair] + Pairs(pieces)
  {
    assert ([piece] + pieces)[1..] == pieces;
  }

  lemma FirstPair(pair: (Octets, Octets), pairs: seq<(Octets, Octets)>, key: Octets)
    ensures FindKey([pair] + pairs, key) == if pair.0 == key then Some(Decode(pair.1)) else FindKey(pairs, key)
  {
    assert ([pair] + pairs)[1..] == pairs;
  }

  /** A percent sign that starts no escape stays, and what follows it is read on its own. */
  lemma StrayPercent(s: Octets)
    requires |s| < 2 || HexDigit(s[1]).None? || (HexDigit(s[0]).None? && s[0] != '+' as int)
    ensures Decode([PERCENT] + s) == [PERCENT] + Decode(s)
  {
    assert ([PERCENT] + s)[1..] == s;
  }

  // ----- Escapes that are no hexadecimal numbers

  predicate IsHex(b: Byte) {
    HexDigit(b).Some?
  }

  /** Decoding as section 2.1 of RFC 3986 has it: an escape is a percent sign and two hexadecimal digits. */
  function Strict(s: Octets): Octets
    decreases |s|
  {
    if s == [] then []
    else if s[0] == PERCENT && |s| > 2 && IsHex(s[1]) && IsHex(s[2]) then
      [16 * HexDigit(s[1]).value + HexDigit(s[2]).value] + Strict(s[3..])
    else [if s[0] == PLUS then SPACE else s[0]] + Strict(s[1..])
  }

  /** A percent sign, a plus sign and one hexadecimal digit. */
  predicate PlusEscapeAt(s: Octets, i: nat) {
    i + 2 < |s| && s[i] == '%' as int && s[i + 1] == '+' as int && IsHex(s[i + 2])
  }

  predicate HasPlusEscape(s: Octets) {
    s != [] && (PlusEscapeAt(s, 0) || HasPlusEscape(s[1..]))
  }

  lemma {:induction false} HasPlusEscapeMeans(s: Octets)
    ensures HasPlusEscape(s) <==> exists i: nat :: PlusEscapeAt(s, i)
    decreases |s|
  {
    if s != [] {
      var t := s[1..];
      HasPlusEscapeMeans(t);
      assert forall i: nat :: PlusEscapeAt(t, i) ==> PlusEscapeAt(s, i + 1);
      assert forall i: nat :: i > 0 && PlusEscapeAt(s, i) ==> PlusEscapeAt(t, i - 1);
    }
  }

  /** No escape starts at a byte that is no percent sign. */
  lemma SkipByte(s: Octets)
    requires s != [] && s[0] != PERCENT
    ensures HasPlusEscape(s) <==> HasPlusEscape(s[1..])
  {
  }

  /** A plus escape makes one byte of the three that the strict reading keeps. */
  lemma AtPlusEscape(s: Octets)
    requires PlusEscapeAt(s, 0)
    ensures |Decode(s)| == 1 + |Decode(s[3..])| && |Strict(s)| == 3 + |Strict(s[3..])|
  {
    var t := s[1..];
    assert t[0] == PLUS && t[1..] == s[2..];
    var u := s[2..];
    assert u[0] == s[2] && u[1..] == s[3..];
    assert |Strict(u)| == 1 + |Strict(s[3..])|;
  }

  lemma {:induction false} StrictIsLonger(s: Octets)
    ensures !HasPlusEscape(s) ==> Strict(s) == Decode(s)
    ensures |Strict(s)| >= |Decode(s)| + if HasPlusEscape(s) then 2 else 0
    decreases |s|
  {
    if s != [] {
      if PlusEscapeAt(s, 0) {
        AtPlusEscape(s);
        StrictIsLonger(s[3..]);
      } else if EscapeAt(s, 0) {
        assert s[1..][1..] == s[2..] && s[2..][1..] == s[3..];
        SkipByte(s[1..]);
        SkipByte(s[2..]);
        StrictIsLonger(s[3..]);
      } else {
        StrictIsLonger(s[1..]);
      }
    }
  }

  /**
   Both decoders read percent escapes as the standard has them if and only if no
   percent sign is followed by a plus sign and a hexadecimal digit: the radix
   parser takes a leading plus sign.
   */
  lemma HexOnlyExactlyWhen(s: Octets)
    ensures Decode(s) == Strict(s) <==> !exists i: nat :: PlusEscapeAt(s, i)
  {
    HasPlusEscapeMeans(s);
    StrictIsLonger(s);
  }

  /** What such an escape decodes to. */
  lemma PlusIsADigit(low: Byte, rest: Octets)
    requires IsHex(low)
    ensures Decode([PERCENT, PLUS, low] + rest) == [HexDigit(low).value] + Decode(rest)
    ensures Decode([PERCENT, PLUS, low] + rest) != Strict([PERCENT, PLUS, low] + rest)
  {
    var s := [PERCENT, PLUS, low] + rest;
    assert s[3..] == rest;
    assert PlusEscapeAt(s, 0);
    HexOnlyExactlyWhen(s);
  }
}
