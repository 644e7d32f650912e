/**
 * The logical planner of src/plan.rs: the plan built from a parsed
 * statement, and the two relational operators on an in-memory relation,
 * `select` (keep the rows whose column equals a value) and `projection`
 * (keep chosen columns of every row).
 */
module Plan {
  import opened Parser

  /** `Column`: a column name and whether it is counted DISTINCT. */
  datatype Column = Column(name: string, distinct: bool)

  /** `Aggregation`: the only aggregate is COUNT. */
  datatype Aggregation = Count

  /** `AggregateExpression`. */
  datatype AggregateExpression = AggregateExpression(aggregate: Aggregation, column: Column)

  /** `SelectStatement`. */
  datatype SelectStatement = SelectStatement(projection: AggregateExpression, table: string)

  /** `LogicalPlan`. */
  datatype LogicalPlan = LogicalPlan(statement: SelectStatement)

  /** `Relation`: column descriptions and rows of string cells. */
  datatype Relation = Relation(columns: seq<Column>, rows: seq<seq<string>>)

  // ---------------------------------------------------------------------------
  // LogicalPlan::new (plan.rs:40-55)
  // ---------------------------------------------------------------------------

  /** The statement a plan was built from. */
  function StatementOfPlan(p: LogicalPlan): SqlStatement
  {
    SqlStatement(p.statement.table, p.statement.projection.column.name, p.statement.projection.column.distinct)
  }

  /**
   * `LogicalPlan::new`: a COUNT (the only aggregate) over the statement's
   * column of the statement's table; the plan loses nothing of the statement.
   */
  function NewPlan(s: SqlStatement): (p: LogicalPlan)
    ensures StatementOfPlan(p) == s
  {
    LogicalPlan(SelectStatement(AggregateExpression(Count, Column(s.columnName, s.distinct)), s.tableName))
  }

  /** Every plan is the plan of the statement it reads back as: NewPlan is a bijection. */
  lemma EveryPlanIsNewPlan(p: LogicalPlan)
    ensures NewPlan(StatementOfPlan(p)) == p
  {
  }

  // ---------------------------------------------------------------------------
  // Relation::select (plan.rs:58-71)
  // ---------------------------------------------------------------------------

  /** Every row has a cell at idx: `row[idx]` does not panic on any row. */
  predicate HasColumn(rows: seq<seq<string>>, idx: nat)
  {
    forall row :: row in rows ==> idx < |row|
  }

  /** The rows whose cell at idx equals expr, in their order. */
  function FilterRows(rows: seq<seq<string>>, idx: nat, expr: string): (kept: seq<seq<string>>)
    requires HasColumn(rows, idx)
    ensures |kept| <= |rows|
    ensures forall row :: row in kept <==> row in rows && row[idx] == expr
    ensures HasColumn(kept, idx)
  {
    if rows == [] then []
    else if rows[0][idx] == expr then [rows[0]] + FilterRows(rows[1..], idx, expr)
    else FilterRows(rows[1..], idx, expr)
  }

  /** `select`: the rows whose column idx holds exactly expr, the columns unchanged. */
  function Select(rel: Relation, idx: nat, expr: string): (r: Relation)
    requires HasColumn(rel.rows, idx)
    ensures r.columns == rel.columns
    ensures |r.rows| <= |rel.rows|
    ensures forall row :: row in r.rows <==> row in rel.rows && row[idx] == expr
  {
    Relation(rel.columns, FilterRows(rel.rows, idx, expr))
  }

  lemma HasColumnAppend(a: seq<seq<string>>, b: seq<seq<string>>, idx: nat)
    requires HasColumn(a, idx) && HasColumn(b, idx)
    ensures HasColumn(a + b, idx)
  {
    forall row | row in a + b
      ensures idx < |row|
    {
      assert row in a || row in b;
    }
  }

  /** Filtering distributes over concatenation: the kept rows keep their order. */
  lemma {:induction false} FilterAppend(a: seq<seq<string>>, b: seq<seq<string>>, idx: nat, expr: string)
    requires HasColumn(a, idx) && HasColumn(b, idx)
    ensures HasColumn(a + b, idx)
    ensures FilterRows(a + b, idx, expr) == FilterRows(a, idx, expr) + FilterRows(b, idx, expr)
    decreases |a|
  {
    HasColumnAppend(a, b, idx);
    if a == [] {
      assert a + b == b;
    } else {
      var ab := a + b;
      var rest := a[1..];
      assert ab[0] == a[0];
      assert ab[1..] == rest + b;
      assert HasColumn(rest, idx) by {
        assert forall row :: row in rest ==> row in a;
      }
      FilterAppend(rest, b, idx, expr);
      var tail := FilterRows(rest + b, idx, expr);
      assert tail == FilterRows(rest, idx, expr) + FilterRows(b, idx, expr);
      if a[0][idx] == expr {
        assert FilterRows(ab, idx, expr) == [a[0]] + tail;
        assert FilterRows(a, idx, expr) == [a[0]] + FilterRows(rest, idx, expr);
      } else {
        assert FilterRows(ab, idx, expr) == tail;
        assert FilterRows(a, idx, expr) == FilterRows(rest, idx, expr);
      }
    }
  }

  /** Each row is kept exactly as often as it occurs, when it matches, and not at all otherwise. */
  lemma {:induction false} FilterCounts(rows: seq<seq<string>>, idx: nat, expr: string, row: seq<string>)
    requires HasColumn(rows, idx) && idx < |row|
    ensures multiset(FilterRows(rows, idx, expr))[row] == if row[idx] == expr then multiset(rows)[row] else 0
  {
    if rows != [] {
      assert rows == [rows[0]] + rows[1..];
      FilterCounts(rows[1..], idx, expr, row);
    }
  }

  /** A row kept by select occurs in it as many times as in the relation. */
  lemma SelectCounts(rel: Relation, idx: nat, expr: string, row: seq<string>)
    requires HasColumn(rel.rows, idx) && idx < |row|
    ensures multiset(Select(rel, idx, expr).rows)[row] == if row[idx] == expr then multiset(rel.rows)[row] else 0
  {
    FilterCounts(rel.rows, idx, expr, row);
  }

  /** Every row of the relation that matches is kept: filtering keeps all of them when all match. */
  lemma {:induction false} FilterAllMatch(rows: seq<seq<string>>, idx: nat, expr: string)
    requires HasColumn(rows, idx)
    requires forall row :: row in rows ==> row[idx] == expr
    ensures FilterRows(rows, idx, expr) == rows
  {
    if rows != [] {
      assert rows[0] in rows;
      FilterAllMatch(rows[1..], idx, expr);
    }
  }

  /** select is idempotent. */
  lemma SelectIdempotent(rel: Relation, idx: nat, expr: string)
    requires HasColumn(rel.rows, idx)
    ensures HasColumn(Select(rel, idx, expr).rows, idx)
    ensures Select(Select(rel, idx, expr), idx, expr) == Select(rel, idx, expr)
  {
    FilterAllMatch(FilterRows(rel.rows, idx, expr), idx, expr);
  }

  /** Two filters can be applied in either order. */
  lemma {:induction false} FilterCommute(rows: seq<seq<string>>, i: nat, a: string, j: nat, b: string)
    requires HasColumn(rows, i) && HasColumn(rows, j)
    ensures HasColumn(FilterRows(rows, i, a), j) && HasColumn(FilterRows(rows, j, b), i)
    ensures FilterRows(FilterRows(rows, i, a), j, b) == FilterRows(FilterRows(rows, j, b), i, a)
  {
    if rows != [] {
      assert rows[0] in rows;
      FilterCommute(rows[1..], i, a, j, b);
    }
  }

  /** Two selects commute. */
  lemma SelectCommute(rel: Relation, i: nat, a: string, j: nat, b: string)
    requires HasColumn(rel.rows, i) && HasColumn(rel.rows, j)
    ensures HasColumn(Select(rel, i, a).rows, j) && HasColumn(Select(rel, j, b).rows, i)
    ensures Select(Select(rel, i, a), j, b) == Select(Select(rel, j, b), i, a)
  {
    FilterCommute(rel.rows, i, a, j, b);
  }

  // ---------------------------------------------------------------------------
  // Relation::projection (plan.rs:73-91)
  // ---------------------------------------------------------------------------

  /** Every row has a cell at every chosen index: `row[col_idx]` does not panic. */
  predicate HasColumns(rows: seq<seq<string>>, cols: seq<nat>)
  {
    forall row, k :: row in rows && 0 <= k < |cols| ==> cols[k] < |row|
  }

  /** The cells of one row at the chosen indices, in the order they are chosen. */
  function ProjectRow<T>(row: seq<T>, cols: seq<nat>): (out: seq<T>)
    requires forall k :: 0 <= k < |cols| ==> cols[k] < |row|
    ensures |out| == |cols|
    ensures forall k :: 0 <= k < |cols| ==> out[k] == row[cols[k]]
  {
    if cols == [] then [] else [row[cols[0]]] + ProjectRow(row, cols[1..])
  }

  /** Every row projected, in order. */
  function ProjectRows(rows: seq<seq<string>>, cols: seq<nat>): (out: seq<seq<string>>)
    requires HasColumns(rows, cols)
    ensures |out| == |rows|
    ensures forall i :: 0 <= i < |rows| ==> out[i] == ProjectRow(rows[i], cols)
  {
    if rows == [] then [] else
    assert rows[0] in rows;
    [ProjectRow(rows[0], cols)] + ProjectRows(rows[1..], cols)
  }

  /**
   * `projection`: one output row per input row, holding that row's cells at
   * the chosen indices in the chosen order; the column list is passed through
   * unchanged.
   */
  function Projection(rel: Relation, cols: seq<nat>): (r: Relation)
    requires HasColumns(rel.rows, cols)
    ensures r.columns == rel.columns
    ensures |r.rows| == |rel.rows|
    ensures forall i :: 0 <= i < |r.rows| ==> |r.rows[i]| == |cols|
    ensures forall i, k :: 0 <= i < |r.rows| && 0 <= k < |cols| ==> r.rows[i][k] == rel.rows[i][cols[k]]
  {
    Relation(rel.columns, ProjectRows(rel.rows, cols))
  }

  /** On one row: picking twice is picking once at the composed indices. */
  lemma ProjectRowCompose<T>(row: seq<T>, first: seq<nat>, second: seq<nat>)
    requires forall k :: 0 <= k < |first| ==> first[k] < |row|
    requires forall k :: 0 <= k < |second| ==> second[k] < |first|
    ensures forall k :: 0 <= k < |second| ==> ProjectRow(first, second)[k] < |row|
    ensures ProjectRow(ProjectRow(row, first), second) == ProjectRow(row, ProjectRow(first, second))
  {
    var c := ProjectRow(first, second);
    var lhs := ProjectRow(ProjectRow(row, first), second);
    var rhs := ProjectRow(row, c);
    assert |lhs| == |rhs|;
    assert forall k :: 0 <= k < |second| ==> lhs[k] == rhs[k];
  }

  /**
   * Projecting twice is projecting once on the composed index list, which is
   * the first index list projected by the second.
   */
  lemma ProjectionCompose(rel: Relation, first: seq<nat>, second: seq<nat>)
    requires HasColumns(rel.rows, first)
    requires forall k :: 0 <= k < |second| ==> second[k] < |first|
    ensures HasColumns(Projection(rel, first).rows, second)
    ensures HasColumns(rel.rows, ProjectRow(first, second))
    ensures Projection(Projection(rel, first), second) == Projection(rel, ProjectRow(first, second))
  {
    var p := Projection(rel, first);
    var c := ProjectRow(first, second);
    assert HasColumns(p.rows, second) by {
      forall row, k | row in p.rows && 0 <= k < |second|
        ensures second[k] < |row|
      {
      }
    }
    assert HasColumns(rel.rows, c) by {
      forall row, k | row in rel.rows && 0 <= k < |c|
        ensures c[k] < |row|
      {
        ProjectRowCompose(row, first, second);
      }
    }
    var lhs := ProjectRows(p.rows, second);
    var rhs := ProjectRows(rel.rows, c);
    forall i | 0 <= i < |rel.rows|
      ensures lhs[i] == rhs[i]
    {
      assert rel.rows[i] in rel.rows;
      ProjectRowCompose(rel.rows[i], first, second);
    }
    assert lhs == rhs;
  }

  /** Selecting on a projected column is selecting on the original column, then projecting. */
  lemma {:induction false} FilterProjectRows(rows: seq<seq<string>>, cols: seq<nat>, k: nat, expr: string)
    requires HasColumns(rows, cols) && k < |cols|
    ensures HasColumn(ProjectRows(rows, cols), k)
    ensures HasColumn(rows, cols[k])
    ensures HasColumns(FilterRows(rows, cols[k], expr), cols)
    ensures FilterRows(ProjectRows(rows, cols), k, expr) == ProjectRows(FilterRows(rows, cols[k], expr), cols)
  {
    var p := ProjectRows(rows, cols);
    assert HasColumn(p, k) by {
      forall row | row in p
        ensures k < |row|
      {
      }
    }
    if rows != [] {
      assert rows[0] in rows;
      FilterProjectRows(rows[1..], cols, k, expr);
      assert p[0] == ProjectRow(rows[0], cols);
      assert p[1..] == ProjectRows(rows[1..], cols);
    }
  }

  /** select after projection equals projection after select on the underlying column. */
  lemma SelectProjection(rel: Relation, cols: seq<nat>, k: nat, expr: string)
    requires HasColumns(rel.rows, cols) && k < |cols|
    ensures HasColumn(Projection(rel, cols).rows, k)
    ensures HasColumn(rel.rows, cols[k])
    ensures HasColumns(Select(rel, cols[k], expr).rows, cols)
    ensures Select(Projection(rel, cols), k, expr) == Projection(Select(rel, cols[k], expr), cols)
  {
    FilterProjectRows(rel.rows, cols, k, expr);
  }
}
