/**
 PostgreSQL's textual node dump, as the tree it prints and the text it prints
 it as.  Tokens are escaped the way `outToken` does; strings inside a list are
 printed between double quotes.
 */
module DumpTree {
  import opened Utf8

  datatype Tree =
    | Null                            // <>
    | Bare(word: Bytes)               // a number, boolean, enum or flag character
    | Token(text: Bytes)              // a C string field, escaped
    | Str(text: Bytes)                // a String node, escaped and quoted
    | Node(tag: Bytes, fields: Fields)
    | List(items: Items)

  datatype Fields =
    | End
    | Labelled(name: Bytes, value: Tree, rest: Fields)
    | Flag(word: Bytes, rest: Fields) // an unlabelled word, as in {A_CONST NULL ...}

  datatype Items = Empty | Item(value: Tree, rest: Items)

  // ----- Bytes

  /** `is_ascii_alphanumeric() || '_'` */
  predicate IdentByte(c: char) {
    'a' <= c <= 'z' || 'A' <= c <= 'Z' || '0' <= c <= '9' || c == '_'
  }

  lemma LowerCase(c: char)
    ensures c in "abcdefghijklmnopqrstuvwxyz" <==> 'a' <= c <= 'z'
  {
    var letters := "abcdefghijklmnopqrstuvwxyz";
    assert 'a' <= c <= 'z' ==> letters[c as int - 'a' as int] == c;
  }

  lemma UpperCase(c: char)
    ensures c in "ABCDEFGHIJKLMNOPQRSTUVWXYZ" <==> 'A' <= c <= 'Z'
  {
    var letters := "ABCDEFGHIJKLMNOPQRSTUVWXYZ";
    assert 'A' <= c <= 'Z' ==> letters[c as int - 'A' as int] == c;
  }

  lemma Decimal(c: char)
    ensures c in "0123456789" <==> '0' <= c <= '9'
  {
    var digits := "0123456789";
    assert '0' <= c <= '9' ==> digits[c as int - '0' as int] == c;
  }

  /** Letters, digits and the underscore. */
  lemma IdentBytes(c: char)
    ensures IdentByte(c)
            <==> || c in "abcdefghijklmnopqrstuvwxyz" || c in "ABCDEFGHIJKLMNOPQRSTUVWXYZ"
                 || c in "0123456789" || c in "_"
  {
    LowerCase(c);
    UpperCase(c);
    Decimal(c);
  }

  predicate IsIdent(s: Bytes) {
    s != [] && forall i :: 0 <= i < |s| ==> IdentByte(s[i])
  }

  predicate IsBare(s: Bytes) {
    s != [] && forall i :: 0 <= i < |s| ==> IdentByte(s[i]) || s[i] == '+' || s[i] == '-' || s[i] == '.'
  }

  /** The bytes `outToken` escapes wherever they stand. */
  predicate Special(c: char) {
    c == ' ' || c == '\n' || c == '\t' || c == '(' || c == ')' || c == '{' || c == '}' || c == '\\'
  }

  lemma SpecialBytes(c: char)
    ensures Special(c) <==> c in " \n\t(){}\\"
  {
  }

  /** Texts whose first byte `outToken` escapes so that it cannot be taken for NULL, a string or a number. */
  predicate NeedsGuard(t: Bytes) {
    && t != []
    && (|| t[0] == '<' || t[0] == '"' || '0' <= t[0] <= '9'
        || ((t[0] == '+' || t[0] == '-') && |t| > 1 && ('0' <= t[1] <= '9' || t[1] == '.')))
  }

  // ----- Printing

  function Esc(t: Bytes): (r: Bytes)
    ensures t != [] ==> r != [] && (r[0] == '\\' || r[0] == t[0])
    ensures t != [] && !Special(t[0]) ==> r[0] == t[0]
    ensures t == [] ==> r == []
  {
    if t == [] then [] else (if Special(t[0]) then ['\\', t[0]] else [t[0]]) + Esc(t[1..])
  }

  /** Escaped text, with the guard in front of a first byte that needs one. */
  function Guarded(t: Bytes): Bytes {
    (if NeedsGuard(t) then "\\" else "") + Esc(t)
  }

  function Print(v: Tree): Bytes {
    match v
    case Null => "<>"
    case Bare(word) => word
    case Token(text) => if text == [] then "\"\"" else Guarded(text)
    case Str(text) => "\"" + Guarded(text) + "\""
    case Node(tag, fields) => "{" + tag + PrintFields(fields) + "}"
    case List(items) => "(" + PrintItems(items) + ")"
  }

  function PrintFields(fs: Fields): Bytes {
    match fs
    case End => []
    case Labelled(name, value, rest) => " :" + name + " " + Print(value) + PrintFields(rest)
    case Flag(word, rest) => " " + word + PrintFields(rest)
  }

  function PrintItems(items: Items): Bytes {
    match items
    case Empty => []
    case Item(value, rest) => Print(value) + (if rest.Empty? then [] else " " + PrintItems(rest))
  }

  // ----- The trees PostgreSQL prints

  /** Labels whose values are C strings. */
  predicate NameLabel(name: Bytes) {
    name == "relname" || name == "schemaname" || name == "ctename"
  }

  /** Tags and labels are identifiers, escaped tokens are field values, name fields hold tokens or NULL. */
  predicate Shaped(v: Tree) {
    match v
    case Bare(word) => IsBare(word)
    case Node(tag, fields) => IsIdent(tag) && ShapedFields(fields)
    case List(items) => ShapedItems(items)
    case _ => true
  }

  predicate ShapedFields(fs: Fields) {
    match fs
    case End => true
    case Labelled(name, value, rest) =>
      && IsIdent(name)
      && Shaped(value)
      && (NameLabel(name) ==> value.Null? || value.Token?)
      && ShapedFields(rest)
    case Flag(word, rest) => IsIdent(word) && ShapedFields(rest)
  }

  predicate ShapedItems(items: Items) {
    match items
    case Empty => true
    case Item(value, rest) => !value.Token? && Shaped(value) && ShapedItems(rest)
  }

  /** Every text in the tree is a string. */
  predicate ValidTexts(v: Tree) {
    match v
    case Token(text) => Valid(text)
    case Str(text) => Valid(text)
    case Node(_, fields) => ValidTextsFields(fields)
    case List(items) => ValidTextsItems(items)
    case _ => true
  }

  predicate ValidTextsFields(fs: Fields) {
    match fs
    case End => true
    case Labelled(_, value, rest) => ValidTexts(value) && ValidTextsFields(rest)
    case Flag(_, rest) => ValidTextsFields(rest)
  }

  predicate ValidTextsItems(items: Items) {
    match items
    case Empty => true
    case Item(value, rest) => ValidTexts(value) && ValidTextsItems(rest)
  }

  // ----- What the printed text looks like

  /** What may follow a printed value. */
  predicate Delimited(after: Bytes) {
    after == [] || after[0] == ' ' || after[0] == '}' || after[0] == ')'
  }

  /** What follows a printed field value: the end of the node, or a space and a label or flag. */
  predicate AfterField(after: Bytes) {
    || after == []
    || after[0] == '}'
    || (|after| >= 2 && after[0] == ' ' && (after[1] == ':' || IdentByte(after[1])))
  }

  predicate AfterValue(v: Tree, after: Bytes) {
    Delimited(after) && (v.Token? ==> AfterField(after))
  }

  /** Printing an identifier needs no escapes. */
  lemma {:induction false} EscIdent(t: Bytes)
    requires forall i :: 0 <= i < |t| ==> IdentByte(t[i])
    ensures Esc(t) == t
  {
    if t != [] {
      EscIdent(t[1..]);
    }
  }

  /** A field list prints as something that may follow a field value. */
  lemma FieldsFollow(fs: Fields, after: Bytes)
    requires ShapedFields(fs)
    requires after == [] || after[0] == '}'
    ensures AfterField(PrintFields(fs) + after) && Delimited(PrintFields(fs) + after)
    ensures fs != End ==> PrintFields(fs) != [] && PrintFields(fs)[0] == ' '
    ensures fs == End ==> PrintFields(fs) + after == after
  {
  }

  /** How a printed value starts tells nodes and lists from everything else. */
  lemma FirstByte(v: Tree)
    requires Shaped(v)
    ensures Print(v) != []
    ensures v.Node? <==> Print(v)[0] == '{'
    ensures v.List? <==> Print(v)[0] == '('
  {
    match v
    case Token(text) =>
      if text != [] && !NeedsGuard(text) {
        assert Guarded(text) == Esc(text);
      }
    case _ =>
  }
}
