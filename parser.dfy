/**
 * The `SELECT COUNT([DISTINCT] col) FROM table [;]` parser of src/parser.rs:
 * a token vector with a cursor that `peek`, `consume` and `expect` move, and
 * `parse`, a fixed walk over them.
 */
module Parser {
  import opened Wrappers
  import opened Tokenizer

  /** `SqlStatement`. */
  datatype SqlStatement = SqlStatement(tableName: string, columnName: string, distinct: bool)

  /** `to_lowercase` on one character, for ASCII letters. */
  function LowerChar(c: char): char
  {
    if 'A' <= c <= 'Z' then (c as int + 32) as char else c
  }

  /** `to_lowercase` on a string, for ASCII letters. */
  function Lower(s: string): string
  {
    seq(|s|, i requires 0 <= i < |s| => LowerChar(s[i]))
  }

  // ---------------------------------------------------------------------------
  // The cursor steps as functions of (tokens, position)
  // ---------------------------------------------------------------------------

  /** The outcome of `expect(expected)` at pos, and the position after it. */
  function ExpectAt(tokens: seq<string>, pos: nat, expected: string): (r: (Result<(), string>, nat))
    requires pos <= |tokens|
    ensures pos <= r.1 <= |tokens|
  {
    if pos < |tokens| then
      var token := tokens[pos];
      (if Lower(token) == Lower(expected) then Ok(()) else Err("Expected " + expected + ", found " + token), pos + 1)
    else
      (Err("Expected " + expected + ", found end of input"), pos)
  }

  /**
   * expect succeeds exactly on a token equal to the keyword ignoring case; it
   * moves past any token, matching or not, and reports what it found.
   */
  lemma ExpectAtMeaning(tokens: seq<string>, pos: nat, expected: string)
    requires pos <= |tokens|
    ensures ExpectAt(tokens, pos, expected).0.Ok? <==> pos < |tokens| && Matches(tokens[pos], expected)
    ensures ExpectAt(tokens, pos, expected).1 == if pos < |tokens| then pos + 1 else pos
    ensures pos < |tokens| && !Matches(tokens[pos], expected) ==>
      ExpectAt(tokens, pos, expected).0 == Err("Expected " + expected + ", found " + tokens[pos])
    ensures pos == |tokens| ==> ExpectAt(tokens, pos, expected).0 == Err("Expected " + expected + ", found end of input")
  {
  }

  /** The outcome of `parse` started at pos, and the position it stops at. */
  function ParseAt(tokens: seq<string>, pos: nat): (r: (Result<SqlStatement, string>, nat))
    requires pos <= |tokens|
    ensures pos <= r.1 <= |tokens|
  {
    var s1 := ExpectAt(tokens, pos, "select");
    if s1.0.Err? then (Err(s1.0.error), s1.1) else
    var s2 := ExpectAt(tokens, s1.1, "count");
    if s2.0.Err? then (Err(s2.0.error), s2.1) else
    var s3 := ExpectAt(tokens, s2.1, "(");
    if s3.0.Err? then (Err(s3.0.error), s3.1) else
    ParseColumnAt(tokens, s3.1)
  }

  /** From after `(`: an optional DISTINCT, the column, `)` and `from`. */
  function ParseColumnAt(tokens: seq<string>, pos: nat): (r: (Result<SqlStatement, string>, nat))
    requires pos <= |tokens|
    ensures pos <= r.1 <= |tokens|
  {
    var distinct := pos < |tokens| && Lower(tokens[pos]) == "distinct";
    var p := if distinct then pos + 1 else pos;
    if p == |tokens| then (Err("Expected column name"), p) else
    var column := tokens[p];
    var s1 := ExpectAt(tokens, p + 1, ")");
    if s1.0.Err? then (Err(s1.0.error), s1.1) else
    var s2 := ExpectAt(tokens, s1.1, "from");
    if s2.0.Err? then (Err(s2.0.error), s2.1) else
    ParseTableAt(tokens, s2.1, column, distinct)
  }

  /** From after `from`: the table name and an optional `;`. */
  function ParseTableAt(tokens: seq<string>, pos: nat, column: string, distinct: bool): (r: (Result<SqlStatement, string>, nat))
    requires pos <= |tokens|
    ensures pos <= r.1 <= |tokens|
  {
    if pos == |tokens| then (Err("Expected table name"), pos) else
    var table := tokens[pos];
    var p := if pos + 1 < |tokens| && tokens[pos + 1] == ";" then pos + 2 else pos + 1;
    (Ok(SqlStatement(table, column, distinct)), p)
  }

  // ---------------------------------------------------------------------------
  // The grammar the walk accepts, stated on the tokens from pos on
  // ---------------------------------------------------------------------------

  /** A token matches a keyword as `expect` compares them: equal ignoring ASCII case. */
  predicate Matches(token: string, keyword: string)
  {
    Lower(token) == Lower(keyword)
  }

  /** 1 when the token at q is the DISTINCT keyword, else 0. */
  function DistinctAt(tokens: seq<string>, q: nat): nat
  {
    if q < |tokens| && Lower(tokens[q]) == "distinct" then 1 else 0
  }

  /** The three tokens at pos are `select count (`, in any case. */
  predicate HeaderAt(tokens: seq<string>, pos: nat)
  {
    && pos + 3 <= |tokens|
    && Matches(tokens[pos], "select") && Matches(tokens[pos + 1], "count") && Matches(tokens[pos + 2], "(")
  }

  /** From q on: `[distinct] column ) from table`; whatever follows the table is not looked at. */
  predicate ColumnAt(tokens: seq<string>, q: nat)
  {
    var d := DistinctAt(tokens, q);
    && q + 4 + d <= |tokens|
    && Matches(tokens[q + 1 + d], ")") && Matches(tokens[q + 2 + d], "from")
  }

  /**
   * `select count ( [distinct] column ) from table` from pos on, keywords in
   * any case; whatever follows the table name is not looked at.
   */
  predicate Accepts(tokens: seq<string>, pos: nat)
  {
    HeaderAt(tokens, pos) && ColumnAt(tokens, pos + 3)
  }

  /** The statement an accepted token sequence denotes. */
  function StatementOf(tokens: seq<string>, pos: nat): SqlStatement
    requires Accepts(tokens, pos)
  {
    var d := DistinctAt(tokens, pos + 3);
    SqlStatement(tokens[pos + 6 + d], tokens[pos + 3 + d], d == 1)
  }

  /** Where parse stops on an accepted sequence: after the table, and after a ';' right behind it. */
  function EndOf(tokens: seq<string>, pos: nat): nat
    requires Accepts(tokens, pos)
  {
    var d := DistinctAt(tokens, pos + 3);
    if pos + 7 + d < |tokens| && tokens[pos + 7 + d] == ";" then pos + 8 + d else pos + 7 + d
  }

  /** The header: parse goes on at pos + 3 exactly when `select count (` is there. */
  lemma HeaderStage(tokens: seq<string>, pos: nat)
    requires pos <= |tokens|
    ensures HeaderAt(tokens, pos) ==> ParseAt(tokens, pos) == ParseColumnAt(tokens, pos + 3)
    ensures !HeaderAt(tokens, pos) ==> ParseAt(tokens, pos).0.Err?
    ensures pos == |tokens| ==> ParseAt(tokens, pos).0 == Err("Expected " + "select" + ", found end of input")
    ensures pos < |tokens| && !Matches(tokens[pos], "select") ==>
      ParseAt(tokens, pos).0 == Err("Expected " + "select" + ", found " + tokens[pos])
  {
    var s1 := ExpectAt(tokens, pos, "select");
    ExpectAtMeaning(tokens, pos, "select");
    if s1.0.Ok? {
      var s2 := ExpectAt(tokens, s1.1, "count");
      ExpectAtMeaning(tokens, s1.1, "count");
      if s2.0.Ok? {
        ExpectAtMeaning(tokens, s2.1, "(");
      }
    }
  }

  /** After `(`: parse goes on at the table exactly when `[distinct] column ) from` is there. */
  lemma ColumnStage(tokens: seq<string>, q: nat)
    requires q <= |tokens|
    ensures var d := DistinctAt(tokens, q);
      ColumnAt(tokens, q) ==> ParseColumnAt(tokens, q) == ParseTableAt(tokens, q + 3 + d, tokens[q + d], d == 1)
    ensures var d := DistinctAt(tokens, q);
      !ColumnAt(tokens, q) ==> ParseColumnAt(tokens, q).0.Err?
    ensures q + DistinctAt(tokens, q) == |tokens| ==> ParseColumnAt(tokens, q).0 == Err("Expected column name")
  {
    var d := DistinctAt(tokens, q);
    var p := q + d;
    if p < |tokens| {
      var s1 := ExpectAt(tokens, p + 1, ")");
      ExpectAtMeaning(tokens, p + 1, ")");
      if s1.0.Ok? {
        ExpectAtMeaning(tokens, s1.1, "from");
      }
    }
  }

  /**
   * parse succeeds exactly on the grammar, returns the statement the tokens
   * denote, and stops after the table name (and after a ';' right behind it).
   */
  lemma ParseAtAccepts(tokens: seq<string>, pos: nat)
    requires pos <= |tokens|
    ensures ParseAt(tokens, pos).0.Ok? <==> Accepts(tokens, pos)
    ensures Accepts(tokens, pos) ==> ParseAt(tokens, pos) == (Ok(StatementOf(tokens, pos)), EndOf(tokens, pos))
  {
    HeaderStage(tokens, pos);
    if HeaderAt(tokens, pos) {
      ColumnStage(tokens, pos + 3);
      if ColumnAt(tokens, pos + 3) {
        var d := DistinctAt(tokens, pos + 3);
        assert ParseAt(tokens, pos) == ParseTableAt(tokens, pos + 6 + d, tokens[pos + 3 + d], d == 1);
      }
    }
  }

  /** The errors parse reports when the input runs out or a keyword is out of place. */
  lemma ParseAtErrors(tokens: seq<string>, pos: nat)
    requires pos <= |tokens|
    ensures pos == |tokens| ==> ParseAt(tokens, pos).0 == Err("Expected select, found end of input")
    ensures pos < |tokens| && !Matches(tokens[pos], "select") ==>
      ParseAt(tokens, pos).0 == Err("Expected select, found " + tokens[pos])
    ensures HeaderAt(tokens, pos) && pos + 3 + DistinctAt(tokens, pos + 3) == |tokens| ==>
      ParseAt(tokens, pos).0 == Err("Expected column name")
    ensures var d := DistinctAt(tokens, pos + 3);
      (HeaderAt(tokens, pos) && pos + 6 + d == |tokens|
       && Matches(tokens[pos + 4 + d], ")") && Matches(tokens[pos + 5 + d], "from")) ==>
      ParseAt(tokens, pos).0 == Err("Expected table name")
  {
    HeaderStage(tokens, pos);
    ExpectAtMeaning(tokens, pos, "select");
    assert "Expected " + "select" + ", found end of input" == "Expected select, found end of input";
    assert "Expected " + "select" + ", found " == "Expected select, found ";
    if HeaderAt(tokens, pos) {
      ColumnStage(tokens, pos + 3);
    }
  }

  /** parse does not require the end of input: tokens after an accepted statement change nothing. */
  lemma ParseIgnoresTrailing(tokens: seq<string>, more: seq<string>, pos: nat)
    requires pos <= |tokens| && ParseAt(tokens, pos).0.Ok?
    ensures ParseAt(tokens + more, pos).0 == ParseAt(tokens, pos).0
  {
    var all := tokens + more;
    ParseAtAccepts(tokens, pos);
    assert forall k :: 0 <= k < |tokens| ==> all[k] == tokens[k];
    assert DistinctAt(all, pos + 3) == DistinctAt(tokens, pos + 3);
    assert Accepts(all, pos);
    ParseAtAccepts(all, pos);
  }

  // ---------------------------------------------------------------------------
  // The parser object (parser.rs:3-93)
  // ---------------------------------------------------------------------------

  /** `Parser`: the tokens of one query and a cursor into them. */
  class Parser {
    const tokens: seq<string>
    var position: nat

    ghost predicate Valid()
      reads this
    {
      position <= |tokens|
    }

    /** `Parser::new`: tokenize the query and start at the first token. */
    constructor (sql: string)
      ensures Valid()
      ensures tokens == Tokenize(sql) && position == 0
    {
      tokens := Tokenize(sql);
      position := 0;
    }

    /** `peek`: the token under the cursor, if any; nothing moves. */
    method Peek() returns (t: Option<string>)
      ensures position < |tokens| ==> t == Some(tokens[position])
      ensures position >= |tokens| ==> t == None
    {
      if position < |tokens| {
        t := Some(tokens[position]);
      } else {
        t := None;
      }
    }

    /** `consume`: the token under the cursor, moving past it; at the end, None and no move. */
    method Consume() returns (t: Option<string>)
      requires Valid()
      modifies this`position
      ensures Valid()
      ensures old(position) < |tokens| ==> t == Some(tokens[old(position)]) && position == old(position) + 1
      ensures old(position) == |tokens| ==> t == None && position == old(position)
    {
      if position < |tokens| {
        var token := tokens[position];
        position := position + 1;
        t := Some(token);
      } else {
        t := None;
      }
    }

    /**
     * `expect`: consume a token and compare it with `expected` ignoring case.
     * A mismatching token is consumed too; at the end nothing is.
     */
    method Expect(expected: string) returns (r: Result<(), string>)
      requires Valid()
      modifies this`position
      ensures Valid()
      ensures (r, position) == ExpectAt(tokens, old(position), expected)
    {
      var token := Consume();
      match token
      case Some(t) =>
        if Lower(t) == Lower(expected) {
          r := Ok(());
        } else {
          r := Err("Expected " + expected + ", found " + t);
        }
      case None =>
        r := Err("Expected " + expected + ", found end of input");
    }

    /** `parse`: the walk ParseAt describes, on the object's own cursor. */
    method Parse() returns (r: Result<SqlStatement, string>)
      requires Valid()
      modifies this`position
      ensures Valid()
      ensures (r, position) == ParseAt(tokens, old(position))
    {
      ghost var start := position;
      var e := Expect("select");
      if e.Err? {
        return Err(e.error);
      }
      e := Expect("count");
      if e.Err? {
        return Err(e.error);
      }
      e := Expect("(");
      if e.Err? {
        return Err(e.error);
      }
      r := ParseColumn();
    }

    /** The part of `parse` from the optional DISTINCT to the end (parser.rs:37-69). */
    method ParseColumn() returns (r: Result<SqlStatement, string>)
      requires Valid()
      modifies this`position
      ensures Valid()
      ensures (r, position) == ParseColumnAt(tokens, old(position))
    {
      ghost var start := position;
      var next := Peek();
      var distinct := false;
      if next.Some? && Lower(next.value) == "distinct" {
        var _ := Consume();
        distinct := true;
      }
      assert distinct == (start < |tokens| && Lower(tokens[start]) == "distinct");

      var column := Consume();
      if column.None? {
        return Err("Expected column name");
      }

      var e := Expect(")");
      if e.Err? {
        return Err(e.error);
      }
      e := Expect("from");
      if e.Err? {
        return Err(e.error);
      }
      r := ParseTable(column.value, distinct);
    }

    /** The part of `parse` from the table name on (parser.rs:54-69). */
    method ParseTable(column: string, distinct: bool) returns (r: Result<SqlStatement, string>)
      requires Valid()
      modifies this`position
      ensures Valid()
      ensures (r, position) == ParseTableAt(tokens, old(position), column, distinct)
    {
      var table := Consume();
      if table.None? {
        return Err("Expected table name");
      }
      var next := Peek();
      if next.Some? && next.value == ";" {
        var _ := Consume();
      }
      r := Ok(SqlStatement(table.value, column, distinct));
    }
  }
}
