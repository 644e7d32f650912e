/**
 * Whole queries, from text to statement: the shape of query text the parser
 * is written for, what it tokenizes to, and what parse returns for it.
 */
module Queries {
  import opened Wrappers
  import opened Tokenizer
  import opened Parser
  import opened Plan

  /**
   * The words of `SELECT COUNT([DISTINCT] column) FROM table[;]` as written,
   * in whatever case the user chose; `semicolon` says whether the query
   * ends in ';'.
   */
  datatype QueryForm = QueryForm(
    select: string, count: string, distinctKw: Option<string>,
    column: string, from: string, table: string, semicolon: bool)

  /** The query text: `select count(` then `[distinct ]column) from table[;]`. */
  function QueryText(q: QueryForm): string
  {
    var semi := if q.semicolon then ";" else "";
    var tail := q.column + (")" + (" " + (q.from + (" " + (q.table + semi)))));
    var inner := if q.distinctKw.Some? then q.distinctKw.value + (" " + tail) else tail;
    q.select + (" " + (q.count + ("(" + inner)))
  }

  /** The tokens the query's words become. */
  function QueryTokens(q: QueryForm): seq<string>
  {
    var dk := if q.distinctKw.Some? then [q.distinctKw.value] else [];
    var semi := if q.semicolon then [";"] else [];
    [q.select, q.count, "("] + dk + [q.column, ")", q.from, q.table] + semi
  }

  /** Every word is a plain word: no whitespace, no parenthesis, no ';'. */
  predicate WellFormed(q: QueryForm)
  {
    && Plain(q.select) && Plain(q.count) && Plain(q.column) && Plain(q.from) && Plain(q.table)
    && (q.distinctKw.Some? ==> Plain(q.distinctKw.value))
  }

  /** The query's keywords are the ones parse expects, in any case. */
  predicate KeywordsMatch(q: QueryForm)
  {
    && Matches(q.select, "select") && Matches(q.count, "count") && Matches(q.from, "from")
    && (q.distinctKw.Some? ==> Lower(q.distinctKw.value) == "distinct")
  }

  lemma TokenizeEmpty()
    ensures Tokenize("") == []
  {
    assert Pad("") == "";
  }

  /** The text of the table name and what follows it tokenizes word by word. */
  lemma TokenizeTableTail(q: QueryForm)
    requires WellFormed(q)
    ensures var semi := if q.semicolon then ";" else "";
      && Tokenize(" " + (q.table + semi)) == [q.table] + (if q.semicolon then [";"] else [])
      && StartsSpaced(" " + (q.table + semi))
  {
    var semi := if q.semicolon then ";" else "";
    if q.semicolon {
      TokenizeSemicolon();
    } else {
      TokenizeEmpty();
    }
    TokenizeWordThen(q.table, semi);
    TokenizeSpaceThen(q.table + semi);
  }

  /** The text from the column name on tokenizes word by word, `)` split off. */
  lemma TokenizeColumnTail(q: QueryForm)
    requires WellFormed(q)
    ensures var semi := if q.semicolon then ";" else "";
      Tokenize(q.column + (")" + (" " + (q.from + (" " + (q.table + semi))))))
      == [q.column, ")", q.from, q.table] + (if q.semicolon then [";"] else [])
  {
    var semi := if q.semicolon then ";" else "";
    var s5 := " " + (q.table + semi);
    TokenizeTableTail(q);
    var s4 := q.from + s5;
    TokenizeWordThen(q.from, s5);
    var s3 := " " + s4;
    TokenizeSpaceThen(s4);
    var s2 := ")" + s3;
    TokenizeParenThen(')', s3);
    assert [')'] + s3 == s2;
    TokenizeWordThen(q.column, s2);
  }

  /** The text after `(` tokenizes into the optional DISTINCT and the column tail. */
  lemma TokenizeInner(q: QueryForm)
    requires WellFormed(q)
    ensures var semi := if q.semicolon then ";" else "";
      var tail := q.column + (")" + (" " + (q.from + (" " + (q.table + semi)))));
      var inner := if q.distinctKw.Some? then q.distinctKw.value + (" " + tail) else tail;
      && Tokenize(inner) == (if q.distinctKw.Some? then [q.distinctKw.value] else [])
           + [q.column, ")", q.from, q.table] + (if q.semicolon then [";"] else [])
      && inner != [] && !IsWhitespace(inner[0]) && inner[0] != '('
  {
    var semi := if q.semicolon then ";" else "";
    var tail := q.column + (")" + (" " + (q.from + (" " + (q.table + semi)))));
    TokenizeColumnTail(q);
    if q.distinctKw.Some? {
      TokenizeSpaceThen(tail);
      TokenizeWordThen(q.distinctKw.value, " " + tail);
      assert (q.distinctKw.value + (" " + tail))[0] == q.distinctKw.value[0];
    } else {
      assert tail[0] == q.column[0];
    }
  }

  /** `select count(` in front of text that starts with a plain character: three more tokens. */
  lemma TokenizeHeader(select: string, count: string, inner: string)
    requires Plain(select) && Plain(count)
    requires inner != [] && !IsWhitespace(inner[0]) && inner[0] != '('
    ensures Tokenize(select + (" " + (count + ("(" + inner)))) == [select, count, "("] + Tokenize(inner)
  {
    var s2 := "(" + inner;
    TokenizeParenThen('(', inner);
    assert ['('] + inner == s2;
    var s1 := count + s2;
    TokenizeWordThen(count, s2);
    TokenizeSpaceThen(s1);
    TokenizeWordThen(select, " " + s1);
  }

  /** A well-formed query text tokenizes into exactly its words, `(` and `)` split off. */
  lemma TokenizeQuery(q: QueryForm)
    requires WellFormed(q)
    ensures Tokenize(QueryText(q)) == QueryTokens(q)
  {
    var semi := if q.semicolon then ";" else "";
    var tail := q.column + (")" + (" " + (q.from + (" " + (q.table + semi)))));
    var inner := if q.distinctKw.Some? then q.distinctKw.value + (" " + tail) else tail;
    TokenizeInner(q);
    TokenizeHeader(q.select, q.count, inner);
  }

  /**
   * Round trip: parse on the tokens of a well-formed query returns the table,
   * the column and whether DISTINCT was written, and stops at the end of the
   * input. A column literally named `distinct` (in any case) without the
   * DISTINCT keyword is excluded: parse reads it as the keyword.
   */
  lemma ParseQuery(q: QueryForm)
    requires WellFormed(q) && KeywordsMatch(q)
    requires q.distinctKw.None? ==> Lower(q.column) != "distinct"
    ensures ParseAt(Tokenize(QueryText(q)), 0) ==
      (Ok(SqlStatement(q.table, q.column, q.distinctKw.Some?)), |Tokenize(QueryText(q))|)
  {
    TokenizeQuery(q);
    var tokens := QueryTokens(q);
    var d := if q.distinctKw.Some? then 1 else 0;
    assert Lower("(") == "(" && Lower(")") == ")";
    assert DistinctAt(tokens, 3) == d;
    assert tokens[4 + d] == ")" && tokens[5 + d] == q.from && tokens[6 + d] == q.table && tokens[3 + d] == q.column;
    assert Accepts(tokens, 0);
    ParseAtAccepts(tokens, 0);
  }

  // ---------------------------------------------------------------------------
  // The parser's own test queries (parser.rs:99-138)
  // ---------------------------------------------------------------------------

  // The words of the three test queries are plain and their keywords match.

  lemma UpperKeywordsPlain()
    ensures Plain("SELECT") && Plain("COUNT") && Plain("DISTINCT") && Plain("FROM")
  {
  }

  lemma LowerKeywordsPlain()
    ensures Plain("select") && Plain("count") && Plain("distinct") && Plain("from")
  {
  }

  lemma NamesPlain()
    ensures Plain("col1") && Plain("col2") && Plain("col3") && Plain("table1")
  {
  }

  lemma UpperKeywordsMatch()
    ensures Matches("SELECT", "select") && Matches("COUNT", "count") && Matches("FROM", "from")
    ensures Lower("DISTINCT") == "distinct"
  {
  }

  lemma LowerKeywordsMatch()
    ensures Matches("select", "select") && Matches("count", "count") && Matches("from", "from")
    ensures Lower("distinct") == "distinct"
  {
  }

  lemma Col2NotDistinct()
    ensures Lower("col2") != "distinct"
  {
    assert Lower("col2") == "col2";
  }

  lemma CountText(q: QueryForm)
    requires q == QueryForm("SELECT", "COUNT", None, "col2", "FROM", "table1", true)
    ensures QueryText(q) == "SELECT COUNT(col2) FROM table1;"
  {
  }

  lemma ParseCountExample()
    ensures ParseAt(Tokenize("SELECT COUNT(col2) FROM table1;"), 0).0 == Ok(SqlStatement("table1", "col2", false))
  {
    var q := QueryForm("SELECT", "COUNT", None, "col2", "FROM", "table1", true);
    CountText(q);
    UpperKeywordsPlain();
    NamesPlain();
    UpperKeywordsMatch();
    Col2NotDistinct();
    ParseQuery(q);
  }

  lemma CountDistinctText(q: QueryForm)
    requires q == QueryForm("SELECT", "COUNT", Some("DISTINCT"), "col1", "FROM", "table1", true)
    ensures QueryText(q) == "SELECT COUNT(DISTINCT col1) FROM table1;"
  {
  }

  lemma ParseCountDistinctExample()
    ensures ParseAt(Tokenize("SELECT COUNT(DISTINCT col1) FROM table1;"), 0).0 == Ok(SqlStatement("table1", "col1", true))
  {
    var q := QueryForm("SELECT", "COUNT", Some("DISTINCT"), "col1", "FROM", "table1", true);
    CountDistinctText(q);
    UpperKeywordsPlain();
    NamesPlain();
    UpperKeywordsMatch();
    ParseQuery(q);
  }

  lemma CountDistinctLowercaseText(q: QueryForm)
    requires q == QueryForm("select", "count", Some("distinct"), "col3", "from", "table1", true)
    ensures QueryText(q) == "select count(distinct col3) from table1;"
  {
  }

  lemma ParseCountDistinctLowercaseExample()
    ensures ParseAt(Tokenize("select count(distinct col3) from table1;"), 0).0 == Ok(SqlStatement("table1", "col3", true))
  {
    var q := QueryForm("select", "count", Some("distinct"), "col3", "from", "table1", true);
    CountDistinctLowercaseText(q);
    LowerKeywordsPlain();
    NamesPlain();
    LowerKeywordsMatch();
    ParseQuery(q);
  }

  /** The same query through the parser object: `Parser::new` then `parse`. */
  method ParseCountWithParser() returns (r: Result<SqlStatement, string>)
    ensures r == Ok(SqlStatement("table1", "col2", false))
  {
    var parser := new Parser("SELECT COUNT(col2) FROM table1;");
    ParseCountExample();
    r := parser.Parse();
  }

  // ---------------------------------------------------------------------------
  // The planner's own test queries (plan.rs:99-141)
  // ---------------------------------------------------------------------------

  lemma PlanNamesPlain()
    ensures Plain("col") && Plain("table") && Lower("col") != "distinct"
  {
    assert Lower("col") == "col";
  }

  lemma PlanCountText(q: QueryForm)
    requires q == QueryForm("SELECT", "COUNT", None, "col", "FROM", "table", true)
    ensures QueryText(q) == "SELECT COUNT(col) FROM table;"
  {
  }

  lemma PlanCountExample()
    ensures var r := ParseAt(Tokenize("SELECT COUNT(col) FROM table;"), 0).0;
      && r.Ok?
      && NewPlan(r.value) == LogicalPlan(SelectStatement(AggregateExpression(Count, Column("col", false)), "table"))
  {
    var q := QueryForm("SELECT", "COUNT", None, "col", "FROM", "table", true);
    PlanCountText(q);
    UpperKeywordsPlain();
    PlanNamesPlain();
    UpperKeywordsMatch();
    ParseQuery(q);
  }

  lemma PlanCountDistinctText(q: QueryForm)
    requires q == QueryForm("SELECT", "COUNT", Some("DISTINCT"), "col1", "FROM", "table1", false)
    ensures QueryText(q) == "SELECT COUNT(DISTINCT col1) FROM table1"
  {
  }

  /** Without the trailing ';' the query parses just the same. */
  lemma PlanCountDistinctExample()
    ensures var r := ParseAt(Tokenize("SELECT COUNT(DISTINCT col1) FROM table1"), 0).0;
      && r.Ok?
      && NewPlan(r.value) == LogicalPlan(SelectStatement(AggregateExpression(Count, Column("col1", true)), "table1"))
  {
    var q := QueryForm("SELECT", "COUNT", Some("DISTINCT"), "col1", "FROM", "table1", false);
    PlanCountDistinctText(q);
    UpperKeywordsPlain();
    NamesPlain();
    UpperKeywordsMatch();
    ParseQuery(q);
  }
}
