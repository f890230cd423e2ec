/**
 Rust strings as byte sequences.  A byte is written as the character with the
 same code, so that byte strings can use string literals; `Valid` is the
 well-formedness every `&str` has (section 4 of RFC 3629).
 */
module Utf8 {
  import opened Options

  type Bytes = seq<char>

  predicate Ascii(c: char) {
    c as int < 0x80
  }

  /** A byte 10xxxxxx, which never starts a character. */
  predicate Continuation(c: char) {
    0x80 <= c as int < 0xC0
  }

  predicate Between(lo: int, c: char, hi: int) {
    lo <= c as int <= hi
  }

  /** Length of the well-formed character at index `i`, 0 if there is none. */
  function LenAt(s: Bytes, i: nat): (n: nat)
    requires i < |s|
    ensures i + n <= |s| && n <= 4
    ensures n > 0 ==> !Continuation(s[i])
    ensures forall k :: i < k < i + n ==> Continuation(s[k])
    ensures n > 0 ==> (n == 1 <==> Ascii(s[i]))
  {
    if Ascii(s[i]) then 1
    else if i + 2 <= |s| && Between(0xC2, s[i], 0xDF) && Continuation(s[i + 1]) then 2
    else if i + 3 <= |s| && Lead3(s[i], s[i + 1]) && Continuation(s[i + 2]) then 3
    else if i + 4 <= |s| && Lead4(s[i], s[i + 1]) && Continuation(s[i + 2]) && Continuation(s[i + 3]) then 4
    else 0
  }

  function FirstLen(s: Bytes): (n: nat)
    ensures n <= |s| && n <= 4
  {
    if s == [] then 0 else LenAt(s, 0)
  }

  predicate Lead3(a: char, b: char) {
    || (a as int == 0xE0 && Between(0xA0, b, 0xBF))
    || (Between(0xE1, a, 0xEC) && Continuation(b))
    || (a as int == 0xED && Between(0x80, b, 0x9F))
    || (Between(0xEE, a, 0xEF) && Continuation(b))
  }

  predicate Lead4(a: char, b: char) {
    || (a as int == 0xF0 && Between(0x90, b, 0xBF))
    || (Between(0xF1, a, 0xF3) && Continuation(b))
    || (a as int == 0xF4 && Between(0x80, b, 0x8F))
  }

  // ----- Section 3 of RFC 3629

  /** A code point that is no surrogate. */
  predicate Scalar(c: int) {
    0 <= c < 0xD800 || 0xE000 <= c < 0x11_0000
  }

  /** Its encoding. */
  function Encoding(c: int): Bytes
    requires Scalar(c)
  {
    if c < 0x80 then [c as char]
    else if c < 0x800 then [(0xC0 + c / 0x40) as char, (0x80 + c % 0x40) as char]
    else if c < 0x1_0000 then
      [(0xE0 + c / 0x1000) as char, (0x80 + c / 0x40 % 0x40) as char, (0x80 + c % 0x40) as char]
    else
      [(0xF0 + c / 0x4_0000) as char, (0x80 + c / 0x1000 % 0x40) as char, (0x80 + c / 0x40 % 0x40) as char,
       (0x80 + c % 0x40) as char]
  }

  /** The encoding of a scalar value is one character, whatever follows it. */
  lemma EncodedIsCharacter(c: int, rest: Bytes)
    requires Scalar(c)
    ensures FirstLen(Encoding(c) + rest) == |Encoding(c)|
  {
    if c < 0x80 {
      assert FirstLen([c as char] + rest) == 1;
    } else if c < 0x800 {
      TwoEncoded(c, rest);
    } else if c < 0x1_0000 {
      ThreeEncoded(c, rest);
    } else {
      FourEncoded(c, rest);
    }
  }

  lemma TwoEncoded(c: int, rest: Bytes)
    requires 0x80 <= c < 0x800
    ensures FirstLen(Encoding(c) + rest) == 2
  {
    var s := Encoding(c) + rest;
    assert s[0] as int == 0xC0 + c / 0x40 && s[1] as int == 0x80 + c % 0x40;
  }

  lemma ThreeEncoded(c: int, rest: Bytes)
    requires 0x800 <= c < 0x1_0000 && Scalar(c)
    ensures FirstLen(Encoding(c) + rest) == 3
  {
    var s := Encoding(c) + rest;
    assert s[0] as int == 0xE0 + c / 0x1000 && s[1] as int == 0x80 + c / 0x40 % 0x40 && s[2] as int == 0x80 + c % 0x40;
  }

  lemma FourEncoded(c: int, rest: Bytes)
    requires 0x1_0000 <= c < 0x11_0000
    ensures FirstLen(Encoding(c) + rest) == 4
  {
    var s := Encoding(c) + rest;
    assert s[0] as int == 0xF0 + c / 0x4_0000 && s[1] as int == 0x80 + c / 0x1000 % 0x40;
    assert s[2] as int == 0x80 + c / 0x40 % 0x40 && s[3] as int == 0x80 + c % 0x40;
  }

  /** The scalar value that a character encodes. */
  function Value(s: Bytes): int
    requires FirstLen(s) > 0
  {
    var n := FirstLen(s);
    if n == 1 then s[0] as int
    else if n == 2 then (s[0] as int - 0xC0) * 0x40 + (s[1] as int - 0x80)
    else if n == 3 then (s[0] as int - 0xE0) * 0x1000 + (s[1] as int - 0x80) * 0x40 + (s[2] as int - 0x80)
    else (s[0] as int - 0xF0) * 0x4_0000 + (s[1] as int - 0x80) * 0x1000 + (s[2] as int - 0x80) * 0x40 + (s[3] as int - 0x80)
  }

  /** And every character is the encoding of one: no overlong form, no surrogate, nothing above U+10FFFF. */
  lemma CharacterIsEncoded(s: Bytes)
    requires FirstLen(s) > 0
    ensures Scalar(Value(s)) && Encoding(Value(s)) == s[..FirstLen(s)]
  {
    match FirstLen(s)
    case 2 => Two(s[0], s[1], Value(s));
    case 3 => Three(s[0], s[1], s[2], Value(s));
    case 4 => Four(s[0], s[1], s[2], s[3], Value(s));
    case _ =>
  }

  lemma Sextets(a: int, b: int, c: int, d: int)
    requires 0 <= a && 0 <= b < 0x40 && 0 <= c < 0x40 && 0 <= d < 0x40
    ensures var v := a * 0x4_0000 + b * 0x1000 + c * 0x40 + d;
            && v / 0x4_0000 == a && v / 0x1000 == a * 0x40 + b && v / 0x40 == a * 0x1000 + b * 0x40 + c
            && v / 0x1000 % 0x40 == b && v / 0x40 % 0x40 == c && v % 0x40 == d
  {
  }

  lemma Two(x: char, y: char, c: int)
    requires Between(0xC2, x, 0xDF) && Continuation(y) && c == (x as int - 0xC0) * 0x40 + (y as int - 0x80)
    ensures Scalar(c) && Encoding(c) == [x, y]
  {
    Sextets(0, 0, x as int - 0xC0, y as int - 0x80);
  }

  lemma Three(x: char, y: char, z: char, c: int)
    requires Lead3(x, y) && Continuation(z)
    requires c == (x as int - 0xE0) * 0x1000 + (y as int - 0x80) * 0x40 + (z as int - 0x80)
    ensures Scalar(c) && Encoding(c) == [x, y, z]
  {
    Sextets(0, x as int - 0xE0, y as int - 0x80, z as int - 0x80);
  }

  lemma Four(w: char, x: char, y: char, z: char, c: int)
    requires Lead4(w, x) && Continuation(y) && Continuation(z)
    requires c == (w as int - 0xF0) * 0x4_0000 + (x as int - 0x80) * 0x1000 + (y as int - 0x80) * 0x40 + (z as int - 0x80)
    ensures Scalar(c) && Encoding(c) == [w, x, y, z]
  {
    Sextets(w as int - 0xF0, x as int - 0x80, y as int - 0x80, z as int - 0x80);
  }

  predicate Valid(s: Bytes)
    decreases |s|
  {
    s == [] || (FirstLen(s) > 0 && Valid(s[FirstLen(s)..]))
  }

  /** `Valid` from an index on. */
  predicate ValidAt(s: Bytes, i: nat)
    decreases |s| - i
  {
    i >= |s| || (LenAt(s, i) > 0 && ValidAt(s, i + LenAt(s, i)))
  }

  lemma {:induction false} ValidIndex(s: Bytes, i: nat)
    requires i <= |s| && Valid(s[i..])
    ensures ValidAt(s, i)
    decreases |s| - i
  {
    if i < |s| {
      var t := s[i..];
      var n := LenAt(s, i);
      assert FirstLen(t) == n;
      assert t[n..] == s[i + n..];
      ValidIndex(s, i + n);
    }
  }

  lemma ValidFromStart(s: Bytes)
    requires Valid(s)
    ensures ValidAt(s, 0)
  {
    assert s[0..] == s;
    ValidIndex(s, 0);
  }

  /** Behind an ASCII byte a character starts, or the string ends. */
  lemma {:induction false} ValidAfter(s: Bytes, i: nat, k: nat)
    requires ValidAt(s, i) && i <= k < |s| && Ascii(s[k])
    ensures ValidAt(s, k + 1) && Boundary(s, k + 1)
    decreases |s| - i
  {
    var n := LenAt(s, i);
    if i < k {
      assert i + n <= k;
      ValidAfter(s, i + n, k);
    }
  }

  /** `str::is_char_boundary`: slicing a string anywhere else panics. */
  predicate Boundary(s: Bytes, i: nat) {
    i == 0 || i == |s| || (i < |s| && !Continuation(s[i]))
  }

  /** Cutting a string at a character boundary gives two strings. */
  lemma {:induction false} CutValid(s: Bytes, i: nat)
    requires Valid(s) && i <= |s| && Boundary(s, i)
    ensures Valid(s[..i]) && Valid(s[i..])
    decreases |s|
  {
    if i == 0 || i == |s| {
      assert s[..|s|] == s && s[0..] == s;
    } else {
      var n := FirstLen(s);
      var t := s[n..];
      assert i >= n;
      assert i < |s| ==> t[i - n] == s[i];
      CutValid(t, i - n);
      assert s[i..] == t[i - n..];
      assert FirstLen(s[..i]) == n;
      assert s[..i][n..] == t[..i - n];
    }
  }

  /** And nowhere else: the boundaries are exactly where a prefix is a string. */
  lemma {:induction false} BoundaryExactly(s: Bytes, i: nat)
    requires Valid(s) && i <= |s|
    ensures Boundary(s, i) <==> Valid(s[..i])
    decreases |s|
  {
    if Boundary(s, i) {
      CutValid(s, i);
    } else {
      var n := FirstLen(s);
      if i < n {
        assert FirstLen(s[..i]) == 0;
      } else {
        BoundaryExactly(s[n..], i - n);
        assert s[n..][i - n] == s[i];
        assert FirstLen(s[..i]) == n;
        assert s[..i][n..] == s[n..][..i - n];
      }
    }
  }

  /** What follows an ASCII byte of a string is a string. */
  lemma AfterAscii(s: Bytes, e: nat)
    requires Valid(s) && 0 < e <= |s| && Ascii(s[e - 1])
    ensures Valid(s[e..])
  {
    ValidFromStart(s);
    ValidAfter(s, 0, e - 1);
    CutValid(s, e);
  }

  lemma FirstLenPrefix(a: Bytes, b: Bytes)
    requires FirstLen(a) > 0
    ensures FirstLen(a + b) == FirstLen(a)
  {
    assert forall k :: 0 <= k < |a| ==> (a + b)[k] == a[k];
  }

  lemma DropConcat(a: Bytes, b: Bytes, n: nat)
    requires n <= |a|
    ensures (a + b)[n..] == a[n..] + b
  {
  }

  lemma {:induction false} ConcatValid(a: Bytes, b: Bytes)
    requires Valid(a) && Valid(b)
    ensures Valid(a + b)
    decreases |a|
  {
    if a == [] {
      assert a + b == b;
    } else {
      var n := FirstLen(a);
      ConcatValid(a[n..], b);
      FirstLenPrefix(a, b);
      DropConcat(a, b, n);
    }
  }

  /**
   `truncate_utf8`: the cut ends on a character boundary, nothing longer that
   fits does, and the cut loses at most three bytes against the limit.
   */
  method Truncate(s: Bytes, max: nat) returns (end: nat)
    requires Valid(s)
    ensures end <= |s| && end <= max && Boundary(s, end)
    ensures forall k :: end < k <= |s| && k <= max ==> !Boundary(s, k)
    ensures |s| <= max ==> end == |s|
    ensures |s| > max ==> max - end <= 3
    ensures Valid(s[..end])
  {
    if |s| <= max {
      end := |s|;
      assert s[..end] == s;
      return;
    }
    end := max;
    while end > 0 && !Boundary(s, end)
      invariant 0 <= end <= max
      invariant forall k :: end < k <= max ==> !Boundary(s, k)
    {
      end := end - 1;
    }
    CutValid(s, end);
    if max - end > 3 {
      FourContinuations(s, end + 1);
      ghost var k :| end + 1 <= k < end + 5 && !Continuation(s[k]);
      assert Boundary(s, k);
      assert false;
    }
  }

  /** No string holds four continuation bytes in a row. */
  lemma {:induction false} FourContinuations(s: Bytes, i: nat)
    requires Valid(s) && i + 4 <= |s|
    ensures exists k :: i <= k < i + 4 && !Continuation(s[k])
    decreases |s|
  {
    var n := FirstLen(s);
    if i == 0 {
      assert !Continuation(s[0]);
    } else if i < n {
      if n < |s| {
        assert s[n..] != [];
        assert FirstLen(s[n..]) > 0;
        assert !Continuation(s[n..][0]);
        assert !Continuation(s[n]);
        assert i <= n < i + 4;
      }
    } else {
      FourContinuations(s[n..], i - n);
      var k :| i - n <= k < i - n + 4 && !Continuation(s[n..][k]);
      assert !Continuation(s[k + n]);
    }
  }

  function WithoutNul(s: Bytes): Bytes {
    if s == [] then []
    else (if s[0] == '\0' then [] else [s[0]]) + WithoutNul(s[1..])
  }

  lemma {:induction false} WithoutNulValid(s: Bytes)
    requires Valid(s)
    ensures Valid(WithoutNul(s)) && |WithoutNul(s)| <= |s|
    decreases |s|
  {
    if s != [] {
      var n := FirstLen(s);
      WithoutNulPrefix(s, n);
      WithoutNulValid(s[n..]);
      if s[0] == '\0' {
        assert WithoutNul(s) == WithoutNul(s[1..]);
      } else {
        assert FirstLen(s[..n]) == n;
        assert s[..n][n..] == [];
        ConcatValid(s[..n], WithoutNul(s[n..]));
      }
    }
  }

  /** NUL removal copies the first character, except NUL itself. */
  lemma {:induction false} WithoutNulPrefix(s: Bytes, n: nat)
    requires n <= |s|
    requires forall i :: 0 < i < n ==> s[i] != '\0'
    ensures n > 0 && s[0] != '\0' ==> WithoutNul(s) == s[..n] + WithoutNul(s[n..])
    decreases n
  {
    if n == 1 {
      assert s[..1] == [s[0]];
    } else if n > 1 && s[0] != '\0' {
      assert s[1..][0] == s[1];
      WithoutNulPrefix(s[1..], n - 1);
      assert [s[0]] + s[1..][..n - 1] == s[..n];
      assert s[1..][n - 1..] == s[n..];
    }
  }

  /** Text without NUL is left alone, and removal drops exactly the NUL bytes, wherever they stand. */
  lemma {:induction false} WithoutNulExactly(a: Bytes, b: Bytes)
    ensures '\0' !in WithoutNul(a)
    ensures '\0' !in a ==> WithoutNul(a) == a
    ensures WithoutNul(a + (['\0'] + b)) == WithoutNul(a) + WithoutNul(b)
    decreases |a|
  {
    var s := a + (['\0'] + b);
    if a == [] {
      assert s == ['\0'] + b;
      assert s[1..] == b;
    } else {
      WithoutNulExactly(a[1..], b);
      assert s[1..] == a[1..] + (['\0'] + b);
      assert a == [a[0]] + a[1..];
      Assoc(if a[0] == '\0' then [] else [a[0]], WithoutNul(a[1..]), WithoutNul(b));
    }
  }

  /**
   A response body is truncated on the pool thread and again on the SPI thread
   after NUL removal; the second truncation keeps everything.
   */
  method StoredBody(body: Bytes, max: nat) returns (stored: Bytes)
    requires Valid(body)
    ensures Valid(stored) && |stored| <= max
    ensures exists cut: nat | cut <= |body| ::
              && cut <= max && Boundary(body, cut)
              && (forall k :: cut < k <= |body| && k <= max ==> !Boundary(body, k))
              && stored == WithoutNul(body[..cut])
  {
    var cut := Truncate(body, max);
    var clean := WithoutNul(body[..cut]);
    WithoutNulValid(body[..cut]);
    var again := Truncate(clean, max);
    assert clean[..again] == clean;
    stored := clean[..again];
  }
}
