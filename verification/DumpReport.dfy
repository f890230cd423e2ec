/** The whole report: exactly when it is right, and on what the parser hands over, a list of raw statements. */
module DumpReport {
  import opened Options
  import opened Utf8
  import opened DumpTree
  import opened TokenReader
  import opened DumpScan
  import opened DumpExact
  import opened DumpTheorems
  import opened DumpStatements
  import opened DumpRelations
  import F = DumpFunctions

  /**
   The whole report is the walk's if and only if: no text that spells `{RAWSTMT` is
   followed by a :stmt node within its node; every relation is named right and no
   token is taken for one; the last two names of every function are read as they
   are; no token that another field follows ends in ":ctename" and no CTE name
   holds a CR or FF; and a text spells the opening of a data-modifying node only
   in a tree that writes.
   */
  lemma ReportExactlyWhen(v: Tree)
    requires Shaped(v) && !v.Token? && RangeVars(v) && F.FuncNames(v)
    ensures Analyze(Print(v)) == Structure(v)
            <==> && Unfooled(v, false) && RelationsRight(v) && F.FunctionsRight(v) && Clean(Ctes, v)
                 && (SpellsDml(v) ==> WritesIn(v))
  {
    StatementsExactlyWhen(v);
    RelationsExactlyWhen(v);
    F.FunctionsExactlyWhen(v);
    CtesExactlyWhen(v);
    WritesExactly(v);
  }

  /** Only the empty dump, which stands for text that did not parse, has no report. */
  lemma UnparseableExactlyWhen(dump: Bytes)
    ensures Analyze(dump) == Unparseable <==> dump == ""
  {
  }

  /**
   On every list of raw statements whose tokens hold no ':' or '{' and whose names
   are readable, and whatever its string literals say: relations, CTE names and
   functions are the walk's, in its order; the count is the number of statements;
   the kind is "select" if and only if there is one and it is a SELECTSTMT; and
   `writes` is true if and only if the tree writes or a text spells the opening
   of a data-modifying node.
   */
  lemma EveryDump(items: Items)
    requires ShapedItems(items) && RawStatements(items) && PlainItems(items)
    ensures var v := List(items);
            var r := Analyze(Print(v));
            && r.Report?
            && r.relations == Walk(Relations, v)
            && r.ctes == Walk(Ctes, v)
            && r.functions == Walk(Functions, v)
            && r.statements == |Kinds(items)|
            && (r.kind == "select"
                <==> items.Item? && items.rest.Empty? && items.value.fields.value.tag == "SELECTSTMT")
            && (r.writes <==> WritesIn(v) || SpellsDml(v))
  {
    PlainTreesAreExact(List(items));
    CountsEveryDump(items);
    WritesExactly(List(items));
  }
}
