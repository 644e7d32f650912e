# peppermint core in Dafny

peppermint is a small Rust toy database. This project models three parts of it and proves their properties:

- **HyperLogLog bucket updates** (`src/hll.rs`). The estimator has `2^n_bits` buckets. Each added value is hashed. The top `n_bits` bits of the 64-bit hash pick a bucket, and that bucket is raised to the hash's rank.
  - The rank is `64 - leading_zeros`, the bit length of the whole hash.
  - The class `Hll.HyperLogLog` keeps the buckets in an `array` that `AddElem` updates in place.
  - The same update on a `seq` (`AddHash`, and `AddAll` for a stream of hashes) is what the lemmas about order, duplicates and monotonicity talk about.
- **The SQL front end** (`src/parser.rs`).
  - `Parser::new` pads `(`, `)` and `;` with spaces and splits on whitespace (`Tokenizer.Tokenize`).
  - The `Parser` object is a token vector and a cursor that `peek`, `consume` and `expect` move.
  - `parse` walks `SELECT COUNT([DISTINCT] col) FROM table [;]`. The class `Parser.Parser` mirrors these methods.
  - `Parse` is written as three methods, one per stage of the walk: the `select count (` header, then `ParseColumn` from the optional DISTINCT to `from`, then `ParseTable`. The cursor moves exactly as the single Rust method moves it.
  - `Parser.ParseAt` is the walk written as a function of the tokens and the start position. `Parser.Accepts`, `StatementOf` and `EndOf` say in grammar terms which inputs it accepts.
  - The module `Queries` ties text to result. It builds the text of any well-formed query, tokenizes it and parses it. It also replays the repository's own test queries.
- **The logical planner** (`src/plan.rs`).
  - `LogicalPlan::new` maps a parsed statement onto a COUNT plan.
  - `Relation::select` keeps the rows whose column equals a value.
  - `Relation::projection` keeps chosen cells of every row.
  - These are pure functions over `seq<seq<string>>`.

### Where the code departs from textbook HyperLogLog

- **Negative precision.** A negative `n_bits` panics: `n_bits.try_into().unwrap()` fails on a negative `i16` (hll.rs:22). `1 << n_bits` is an `i32` shift, which overflows from 31 on. So `new` requires `0 <= nBits <= 30`.
- **Zero precision.** With `n_bits = 0`, `add_elem` shifts a `u64` by 64 (hll.rs:39). So `AddElem` requires `nBits >= 1`.
- **Rank.** Textbook HyperLogLog ranks the hash suffix left after the index bits, in `[0, 64 - p]`. This code ranks the whole 64-bit hash (hll.rs:68-70), in `[0, 64]`. The model takes the code's rank. `Hll.IndexBoundsRank` and `Hll.UpperBucketsSaturate` show a consequence: every bucket except bucket 0 only ever holds 0 or a rank above `64 - n_bits`.

### Conventions

- Whitespace for `split_whitespace` is the exact list of Unicode White_Space characters (`Tokenizer.IsWhitespace`).
- Error messages are built with plain string concatenation, which is what `format!` produces for these arguments.

## Model

| member | source | states |
|---|---|---|
| `Hll.ComputeBinary` | src/hll.rs:63-65 | The hash is its own binary form, and the rank `add_elem` takes of that form is the bit length of the hash itself. |
| `Hll.PositionOfLeftmostOne` | src/hll.rs:68-70 | The rank is at most 64. It is 0 exactly when the hash is 0. Otherwise `2^(rank-1) <= hash < 2^rank`. |
| `Hll.RankIsBitLength` | src/hll.rs:68-70 | `64 - leading_zeros` equals the bit length of the hash, defined independently by halving. |
| `Hll.BucketIndex` | src/hll.rs:39 | For `1 <= n_bits <= 64`, `hash >> (64 - n_bits)` is below `2^n_bits`, so the bucket write is in bounds. |
| `Hll.IndexBoundsRank` | src/hll.rs:37-39 | Index and rank come from the same hash, so an index of at least 1 means the rank is above `64 - n_bits`. |
| `Hll.AddHash` | src/hll.rs:34-41 | One add keeps the bucket count. The chosen bucket becomes `max(old, rank)`, every other bucket is unchanged, and no bucket decreases. |
| `Hll.AddHashIdempotent` | src/hll.rs:40 | Adding the same hash twice leaves the buckets as adding it once. |
| `Hll.AddHashCommutes` | src/hll.rs:40 | Two adds give the same buckets in either order. |
| `Hll.MaxRankIsMaximum` | src/hll.rs:37-40 | The reference value for a bucket is the largest rank among the hashes that index it, or 0 when none does. It bounds every such rank and is reached by one of them. |
| `Hll.AddAllBucket` | src/hll.rs:34-41 | After a stream of adds, each bucket is the max of its starting value and the reference value. |
| `Hll.AddAllMonotone` | src/hll.rs:40 | Every bucket is non-decreasing along any stream of adds: a prefix's buckets are below the longer prefix's. |
| `Hll.SameHashesSameBuckets` | src/hll.rs:34-41 | Two hash streams with the same set of hashes leave the same buckets. |
| `Hll.SameValuesSameBuckets` | src/hll.rs:34-41 | Streams of values with the same set of values leave the same buckets, whatever their order and duplicates, because the hash is a function of the value. |
| `Hll.UpperBucketsSaturate` | src/hll.rs:37-40 | From fresh buckets, a bucket other than bucket 0 holds 0 or a rank in `(64 - n_bits, 64]`. |
| `Hll.HyperLogLog.constructor` | src/hll.rs:19-27 | For `0 <= n_bits <= 30`, there are exactly `2^n_bits` fresh buckets, all 0, and the cached cardinality is 0. |
| `Hll.HyperLogLog.GetCardinality` | src/hll.rs:29-31 | Returns the cached cardinality and changes nothing. |
| `Hll.HyperLogLog.AddElem` | src/hll.rs:34-41 | The bucket array afterwards is `AddHash` of the array before, at the value's hash. Only `buckets` may change, so `n_bits` and the cached cardinality stay. |
| `Hll.FreshCardinality` | src/hll.rs:80-81 | A fresh estimator reports cardinality 0. |
| `Tokenizer.PadIsPadEach` | src/parser.rs:19-21 | The three chained `replace` calls equal padding each character on its own. |
| `Tokenizer.SplitWhitespace` | src/parser.rs:22 | Every word is non-empty and free of whitespace. |
| `Tokenizer.SplitBlank` | src/parser.rs:22 | Text made only of whitespace splits into no words. |
| `Tokenizer.SplitWord` | src/parser.rs:22 | A non-empty run of non-whitespace characters splits into exactly one word, itself. |
| `Tokenizer.SplitInterleave` | src/parser.rs:22 | Words separated by any non-empty runs of whitespace split back into exactly those words, in order: the split cuts at every whitespace run and nowhere else. |
| `Tokenizer.Tokenize` | src/parser.rs:17-24 | Every token is non-empty and free of whitespace. A token that contains `(` or `)` is exactly that parenthesis. |
| `Tokenizer.TokenizeKeepsText` | src/parser.rs:18-24 | The tokens concatenated are the query with its whitespace removed: no character is lost, added or reordered. |
| `Tokenizer.TokenizeAppend` | src/parser.rs:18-24 | Two pieces of query text whose padded forms meet at whitespace tokenize independently. |
| `Tokenizer.TokenizeWordThen` | src/parser.rs:18-24 | A plain word followed by text that pads to leading whitespace is one token ahead of that text's tokens. |
| `Tokenizer.TokenizeParenThen` | src/parser.rs:19-20 | A parenthesis is always a token of its own, whatever follows it. |
| `Tokenizer.TokenizeSemicolon` | src/parser.rs:21 | `;` on its own is the token `;`. |
| `Parser.ExpectAtMeaning` | src/parser.rs:86-92 | expect succeeds exactly when the next token equals the keyword ignoring case. It consumes a token on a match and on a mismatch, and consumes nothing at the end. Its errors name the keyword and the token found, or the end of input. |
| `Parser.HeaderStage` | src/parser.rs:33-35 | parse goes on after `select count (` exactly when those three tokens are there, in any case. Otherwise it fails. When the first token is missing or is not `select`, the message names `select` and the token found, or the end of input. |
| `Parser.ColumnStage` | src/parser.rs:37-52 | After `(`, parse goes on to the table exactly when `[distinct] column ) from` is there. Otherwise it fails, with "Expected column name" when the input ends before the column. |
| `Parser.ParseAtAccepts` | src/parser.rs:32-70 | parse succeeds exactly on `select count ( [distinct] col ) from table` (keywords in any case). It returns that table, column and DISTINCT flag, and stops after the table, or after a `;` right behind it. |
| `Parser.ParseAtErrors` | src/parser.rs:33-56 | Empty input, a wrong first keyword, a missing column and a missing table give the messages the source builds. |
| `Parser.ParseIgnoresTrailing` | src/parser.rs:58-69 | parse never requires the end of input: tokens after an accepted statement do not change its result. |
| `Parser.Parser.constructor` | src/parser.rs:17-30 | A new parser holds the query's tokens and starts at position 0. |
| `Parser.Parser.Peek` | src/parser.rs:72-74 | Returns the token under the cursor, or None past the end. Nothing changes. |
| `Parser.Parser.Consume` | src/parser.rs:76-84 | Before the end, returns the current token and advances by exactly one. At the end, returns None and stays. The position never passes the token count. |
| `Parser.Parser.Expect` | src/parser.rs:86-92 | The result and the new position are those of `ExpectAt`. |
| `Parser.Parser.Parse` | src/parser.rs:32-70 | The result and the final cursor position are those of `ParseAt` from the starting position. |
| `Parser.Parser.ParseColumn` | src/parser.rs:37-69 | From the optional DISTINCT on, the result and the final position are those of `ParseColumnAt`. |
| `Parser.Parser.ParseTable` | src/parser.rs:54-69 | From the table name on, the result and the final position are those of `ParseTableAt`. |
| `Queries.TokenizeQuery` | src/parser.rs:17-24 | The text of any query with plain words tokenizes into exactly its words, `(` and `)` split off, and `;` when present. |
| `Queries.TokenizeHeader` | src/parser.rs:17-24 | `select count(` in front of text that starts with a plain character gives the three tokens `select`, `count` and `(` ahead of that text's tokens. |
| `Queries.ParseQuery` | src/parser.rs:32-70 | Round trip: parsing the tokens of a well-formed query gives back its table, column and DISTINCT flag, and consumes all tokens. The one exception is a column named `distinct` without the keyword. |
| `Queries.ParseCountExample` | src/parser.rs:100-110 | `SELECT COUNT(col2) FROM table1;` parses to table1, col2, not distinct. |
| `Queries.ParseCountDistinctExample` | src/parser.rs:113-124 | `SELECT COUNT(DISTINCT col1) FROM table1;` parses to table1, col1, distinct. |
| `Queries.ParseCountDistinctLowercaseExample` | src/parser.rs:127-138 | Lowercase keywords are accepted: `select count(distinct col3) from table1;` parses to table1, col3, distinct. |
| `Queries.ParseCountWithParser` | src/parser.rs:100-109 | The parser object returns the same statement for the first test query. |
| `Queries.PlanCountExample` | src/plan.rs:99-119 | `SELECT COUNT(col) FROM table;` plans to COUNT of column col, not distinct, over table. |
| `Queries.PlanCountDistinctExample` | src/plan.rs:121-141 | Without a trailing `;`, `SELECT COUNT(DISTINCT col1) FROM table1` plans to COUNT DISTINCT of col1 over table1. |
| `Plan.NewPlan` | src/plan.rs:41-54 | Reading the statement back from the plan gives it unchanged: the column name, DISTINCT flag and table are carried over field for field. The aggregate is COUNT, the only one there is. |
| `Plan.EveryPlanIsNewPlan` | src/plan.rs:41-54 | Every plan is the plan of the statement read back from it, so `new` is a bijection between statements and plans. |
| `Plan.Select` | src/plan.rs:58-71 | Requires every row to have column idx, since `row[idx]` panics otherwise. Columns are unchanged, there are no more rows than before, and a row is in the result exactly when it is in the input and its cell at idx equals expr. |
| `Plan.FilterAppend` | src/plan.rs:59-64 | Filtering a concatenation is concatenating the filtered parts, so kept rows stay in their original order. |
| `Plan.SelectCounts` | src/plan.rs:59-64 | A matching row occurs in the result as often as in the input. A non-matching row does not occur. |
| `Plan.SelectIdempotent` | src/plan.rs:58-71 | Selecting twice with the same arguments equals selecting once. |
| `Plan.SelectCommute` | src/plan.rs:58-71 | Two selects give the same relation in either order. |
| `Plan.Projection` | src/plan.rs:73-91 | Requires every chosen index in bounds for every row. Keeps the row count. Output row i has one cell per chosen index, cell k being input row i's cell `cols[k]`. The column list is passed through unnarrowed. |
| `Plan.ProjectRowCompose` | src/plan.rs:77-82 | On one row, picking cells twice equals picking once at the composed indices. |
| `Plan.ProjectionCompose` | src/plan.rs:73-91 | Projecting twice equals projecting once on the composed index list, which is the first index list projected by the second. |
| `Plan.SelectProjection` | src/plan.rs:58-91 | Selecting on column k of a projection equals projecting after selecting on the underlying column `cols[k]`. |

## Left out

- `compute_cardinality` (src/hll.rs:44-53) is `f64` arithmetic (`powi`, a sum, `recip`) with a truncating cast. It is not part of this model. So the `cardinality` field only ever holds what the constructor set, and the hash-specific estimates the tests expect (src/hll.rs:86, 146) are not stated.
- `calculate_hash` (src/hll.rs:56-60) is `std`'s `DefaultHasher`. It becomes the constructor parameter `hash`, an arbitrary total function from values to 64-bit numbers.
- The bucket width is `u64` in the source. Buckets are `nat` here, and `Valid()` keeps each at most 64.
- The edge tests at src/hll.rs:131-151 expect results from `new(-2)` and from adding to `new(0)`. Both panic in the code. They are modelled as the preconditions of the constructor and of `AddElem`, not as outcomes.
- `Hll.HyperLogLog.AddElem`: requires `n_bits >= 1` instead of modelling the panic of a 64-bit shift.
- `to_lowercase` (src/parser.rs:38, 88) folds only ASCII `A`-`Z` here. Unicode case mappings that change a string's length or touch non-ASCII letters are not modelled.
- `Queries.ParseQuery` needs all query words to be plain (no whitespace, parentheses or `;`). Query text outside that shape is covered by `Parser.ParseAtAccepts` on its tokens.
- `src/morris.rs` is not part of this model. Its increment is a random draw against a floating-point probability.
- `src/main.rs` is not part of this model. It is a printing driver.
