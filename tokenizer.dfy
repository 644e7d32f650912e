/**
 * The tokenizer of `Parser::new` (src/parser.rs:17-24): pad '(' and ')' with
 * spaces on both sides and ';' with a space before it, then split on
 * whitespace.
 */
module Tokenizer {

  /** `char::is_whitespace`: the characters with Unicode's White_Space property. */
  predicate IsWhitespace(c: char)
  {
    || ('\t' <= c <= '\r')
    || c == ' '
    || c == '\U{85}'
    || c == '\U{A0}'
    || c == '\U{1680}'
    || ('\U{2000}' <= c <= '\U{200A}')
    || c == '\U{2028}'
    || c == '\U{2029}'
    || c == '\U{202F}'
    || c == '\U{205F}'
    || c == '\U{3000}'
  }

  /** The concatenation of a sequence of sequences. */
  function Flatten<T>(xss: seq<seq<T>>): seq<T>
  {
    if xss == [] then [] else xss[0] + Flatten(xss[1..])
  }

  // ---------------------------------------------------------------------------
  // Padding: the three `replace` calls
  // ---------------------------------------------------------------------------

  /** `str::replace` with a one-character pattern. */
  function ReplaceChar(s: string, c: char, rep: string): string
  {
    if s == [] then [] else (if s[0] == c then rep else [s[0]]) + ReplaceChar(s[1..], c, rep)
  }

  /** `.replace("(", " ( ").replace(")", " ) ").replace(";", " ;")`. */
  function Pad(sql: string): string
  {
    ReplaceChar(ReplaceChar(ReplaceChar(sql, '(', " ( "), ')', " ) "), ';', " ;")
  }

  /** What the three replacements do to one character. */
  function PadChar(c: char): string
  {
    if c == '(' then " ( " else if c == ')' then " ) " else if c == ';' then " ;" else [c]
  }

  /** The padding done one character at a time. */
  function PadEach(s: string): string
  {
    if s == [] then [] else PadChar(s[0]) + PadEach(s[1..])
  }

  lemma {:induction false} ReplaceCharAppend(a: string, b: string, c: char, rep: string)
    ensures ReplaceChar(a + b, c, rep) == ReplaceChar(a, c, rep) + ReplaceChar(b, c, rep)
  {
    if a != [] {
      assert (a + b)[1..] == a[1..] + b;
      ReplaceCharAppend(a[1..], b, c, rep);
    } else {
      assert a + b == b;
    }
  }

  lemma ReplaceOne(c: char, d: char, rep: string)
    ensures ReplaceChar([c], d, rep) == if c == d then rep else [c]
  {
    assert [c][1..] == [];
    assert ReplaceChar([c], d, rep) == (if c == d then rep else [c]) + ReplaceChar([], d, rep);
  }

  lemma PadOne(c: char)
    ensures Pad([c]) == PadChar(c)
  {
    ReplaceOne(c, '(', " ( ");
    ReplaceOne(c, ')', " ) ");
    ReplaceOne(c, ';', " ;");
    assert ReplaceChar(" ( ", ')', " ) ") == " ( " by {
      assert " ( "[1..] == "( ";
      assert "( "[1..] == " ";
    }
    assert ReplaceChar(" ( ", ';', " ;") == " ( " by {
      assert " ( "[1..] == "( ";
      assert "( "[1..] == " ";
    }
    assert ReplaceChar(" ) ", ';', " ;") == " ) " by {
      assert " ) "[1..] == ") ";
      assert ") "[1..] == " ";
    }
  }

  /** The three whole-string replacements pad character by character. */
  lemma {:induction false} PadIsPadEach(s: string)
    ensures Pad(s) == PadEach(s)
  {
    if s != [] {
      var c, rest := s[0], s[1..];
      assert s == [c] + rest;
      ReplaceCharAppend([c], rest, '(', " ( ");
      var r1 := ReplaceChar([c], '(', " ( ");
      var t1 := ReplaceChar(rest, '(', " ( ");
      ReplaceCharAppend(r1, t1, ')', " ) ");
      var r2 := ReplaceChar(r1, ')', " ) ");
      var t2 := ReplaceChar(t1, ')', " ) ");
      ReplaceCharAppend(r2, t2, ';', " ;");
      PadOne(c);
      PadIsPadEach(rest);
    }
  }

  lemma {:induction false} PadEachAppend(a: string, b: string)
    ensures PadEach(a + b) == PadEach(a) + PadEach(b)
  {
    if a != [] {
      assert (a + b)[1..] == a[1..] + b;
      PadEachAppend(a[1..], b);
    } else {
      assert a + b == b;
    }
  }

  // ---------------------------------------------------------------------------
  // Splitting: `split_whitespace`
  // ---------------------------------------------------------------------------

  /** The length of the run of non-whitespace characters that starts s. */
  function WordLength(s: string): (n: nat)
    ensures n <= |s|
    ensures forall k :: 0 <= k < n ==> !IsWhitespace(s[k])
    ensures n < |s| ==> IsWhitespace(s[n])
  {
    if s == [] || IsWhitespace(s[0]) then 0 else 1 + WordLength(s[1..])
  }

  /** `split_whitespace`: the maximal runs of non-whitespace characters, in order. */
  function SplitWhitespace(s: string): (ws: seq<string>)
    ensures forall w :: w in ws ==> w != [] && forall c :: c in w ==> !IsWhitespace(c)
    decreases |s|
  {
    if s == [] then []
    else if IsWhitespace(s[0]) then SplitWhitespace(s[1..])
    else
      var n := WordLength(s);
      [s[..n]] + SplitWhitespace(s[n..])
  }

  /** The characters of s that are not whitespace. */
  function RemoveWhitespace(s: string): string
  {
    if s == [] then [] else (if IsWhitespace(s[0]) then [] else [s[0]]) + RemoveWhitespace(s[1..])
  }

  lemma {:induction false} RemoveWhitespaceAppend(a: string, b: string)
    ensures RemoveWhitespace(a + b) == RemoveWhitespace(a) + RemoveWhitespace(b)
  {
    if a != [] {
      assert (a + b)[1..] == a[1..] + b;
      RemoveWhitespaceAppend(a[1..], b);
    } else {
      assert a + b == b;
    }
  }

  lemma {:induction false} RemoveWhitespaceOfWord(w: string)
    requires forall k :: 0 <= k < |w| ==> !IsWhitespace(w[k])
    ensures RemoveWhitespace(w) == w
  {
    if w != [] {
      RemoveWhitespaceOfWord(w[1..]);
    }
  }

  /** Splitting loses nothing but the whitespace. */
  lemma {:induction false} SplitKeepsText(s: string)
    ensures Flatten(SplitWhitespace(s)) == RemoveWhitespace(s)
    decreases |s|
  {
    if s != [] {
      if IsWhitespace(s[0]) {
        SplitKeepsText(s[1..]);
      } else {
        var n := WordLength(s);
        assert s == s[..n] + s[n..];
        RemoveWhitespaceAppend(s[..n], s[n..]);
        RemoveWhitespaceOfWord(s[..n]);
        SplitKeepsText(s[n..]);
        var ws := SplitWhitespace(s);
        assert ws[0] == s[..n] && ws[1..] == SplitWhitespace(s[n..]);
      }
    }
  }

  /** The padding adds nothing but spaces. */
  lemma {:induction false} PadKeepsText(s: string)
    ensures RemoveWhitespace(PadEach(s)) == RemoveWhitespace(s)
  {
    if s != [] {
      var c := s[0];
      RemoveWhitespaceAppend(PadChar(c), PadEach(s[1..]));
      assert RemoveWhitespace(PadChar(c)) == RemoveWhitespace([c]) by {
        var p := PadChar(c);
        if c == '(' || c == ')' {
          assert p == [' '] + [c] + [' '];
          RemoveWhitespaceAppend([' '] + [c], [' ']);
          RemoveWhitespaceAppend([' '], [c]);
        } else if c == ';' {
          assert p == [' '] + [c];
          RemoveWhitespaceAppend([' '], [c]);
        }
      }
      RemoveWhitespaceAppend([c], s[1..]);
      assert s == [c] + s[1..];
      PadKeepsText(s[1..]);
    }
  }

  // ---------------------------------------------------------------------------
  // Parentheses become tokens of their own
  // ---------------------------------------------------------------------------

  /** Every c in s has whitespace (or an end of s) on both sides. */
  ghost predicate Isolated(s: string, c: char)
  {
    forall i :: 0 <= i < |s| - 1 ==>
      (s[i] == c ==> IsWhitespace(s[i + 1])) && (s[i + 1] == c ==> IsWhitespace(s[i]))
  }

  lemma EnclosedIsolated(s: string, c: char)
    requires Enclosed(s, c)
    ensures Isolated(s, c)
  {
  }

  /** Every c in s has a space on both sides, inside s. */
  ghost predicate Enclosed(s: string, c: char)
  {
    forall i :: 0 <= i < |s| && s[i] == c ==> 0 < i < |s| - 1 && s[i - 1] == ' ' && s[i + 1] == ' '
  }

  lemma EnclosedAppend(a: string, b: string, c: char)
    requires Enclosed(a, c) && Enclosed(b, c)
    ensures Enclosed(a + b, c)
  {
    var s := a + b;
    forall i | 0 <= i < |s| && s[i] == c
      ensures 0 < i < |s| - 1 && s[i - 1] == ' ' && s[i + 1] == ' '
    {
      if i < |a| {
        assert a[i] == c;
      } else {
        assert b[i - |a|] == c;
      }
    }
  }

  lemma {:induction false} PadEachEncloses(s: string, c: char)
    requires c == '(' || c == ')'
    ensures Enclosed(PadEach(s), c)
  {
    if s != [] {
      PadEachEncloses(s[1..], c);
      EnclosedAppend(PadChar(s[0]), PadEach(s[1..]), c);
    }
  }

  /** A run of two or more non-whitespace characters holds no isolated c. */
  lemma IsolatedNotInLongWord(s: string, c: char, n: nat)
    requires Isolated(s, c) && n <= |s|
    requires forall k :: 0 <= k < n ==> !IsWhitespace(s[k])
    ensures n >= 2 ==> forall p :: 0 <= p < n ==> s[p] != c
  {
    if n >= 2 {
      forall p | 0 <= p < n
        ensures s[p] != c
      {
        if p + 1 < n {
          assert !IsWhitespace(s[p + 1]);
        } else {
          assert !IsWhitespace(s[p - 1]) && s[p - 1 + 1] == s[p];
        }
      }
    }
  }

  lemma {:induction false} SplitSeparatesIsolated(s: string, c: char)
    requires Isolated(s, c) && !IsWhitespace(c)
    ensures forall w :: w in SplitWhitespace(s) && c in w ==> w == [c]
    decreases |s|
  {
    if s != [] {
      if IsWhitespace(s[0]) {
        SplitSeparatesIsolated(s[1..], c);
      } else {
        var n := WordLength(s);
        IsolatedNotInLongWord(s, c, n);
        if c in s[..n] {
          assert n == 1;
        }
        SplitSeparatesIsolated(s[n..], c);
      }
    }
  }

  // ---------------------------------------------------------------------------
  // The tokenizer
  // ---------------------------------------------------------------------------

  /**
   * `Parser::new`'s token vector. Every token is non-empty and free of
   * whitespace, and a token holding a parenthesis is that parenthesis alone.
   */
  function Tokenize(sql: string): (tokens: seq<string>)
    ensures forall t :: t in tokens ==> t != [] && forall c :: c in t ==> !IsWhitespace(c)
    ensures forall t :: t in tokens && '(' in t ==> t == "("
    ensures forall t :: t in tokens && ')' in t ==> t == ")"
  {
    PadIsPadEach(sql);
    PadEachEncloses(sql, '(');
    PadEachEncloses(sql, ')');
    EnclosedIsolated(Pad(sql), '(');
    EnclosedIsolated(Pad(sql), ')');
    SplitSeparatesIsolated(Pad(sql), '(');
    SplitSeparatesIsolated(Pad(sql), ')');
    SplitWhitespace(Pad(sql))
  }

  /** Tokenizing keeps every non-whitespace character of the query, in order. */
  lemma TokenizeKeepsText(sql: string)
    ensures Flatten(Tokenize(sql)) == RemoveWhitespace(sql)
  {
    PadIsPadEach(sql);
    SplitKeepsText(Pad(sql));
    PadKeepsText(sql);
  }

  // ---------------------------------------------------------------------------
  // Tokenizing a concatenation
  // ---------------------------------------------------------------------------

  /** Nothing glues the end of a to the start of b into one word. */
  predicate Separated(a: string, b: string)
  {
    a == [] || b == [] || IsWhitespace(a[|a| - 1]) || IsWhitespace(b[0])
  }

  lemma {:induction false} SplitAppend(a: string, b: string)
    requires Separated(a, b)
    ensures SplitWhitespace(a + b) == SplitWhitespace(a) + SplitWhitespace(b)
    decreases |a|
  {
    if a != [] {
      var s := a + b;
      assert s[0] == a[0];
      if IsWhitespace(a[0]) {
        assert s[1..] == a[1..] + b;
        SplitAppend(a[1..], b);
      } else {
        var n := WordLength(a);
        assert WordLength(s) == n by {
          WordLengthAppend(a, b);
        }
        assert s[..n] == a[..n];
        assert s[n..] == a[n..] + b;
        SplitAppend(a[n..], b);
        assert SplitWhitespace(s) == [a[..n]] + SplitWhitespace(a[n..] + b);
      }
    } else {
      assert a + b == b;
    }
  }

  /** Text made only of whitespace has no words. */
  lemma {:induction false} SplitBlank(sep: string)
    requires forall k :: 0 <= k < |sep| ==> IsWhitespace(sep[k])
    ensures SplitWhitespace(sep) == []
  {
    if sep != [] {
      SplitBlank(sep[1..]);
    }
  }

  /** A non-empty run of non-whitespace characters is a single word. */
  lemma SplitWord(w: string)
    requires w != [] && forall k :: 0 <= k < |w| ==> !IsWhitespace(w[k])
    ensures SplitWhitespace(w) == [w]
  {
    WordLengthOfPlain(w);
    assert w[..|w|] == w && w[|w|..] == [];
  }

  /** Each word followed by its own separator. */
  function Interleave(ws: seq<string>, seps: seq<string>): string
    requires |seps| == |ws|
  {
    if ws == [] then [] else ws[0] + (seps[0] + Interleave(ws[1..], seps[1..]))
  }

  /**
   * Words separated by any amount of whitespace split back into exactly
   * those words: `split_whitespace` cuts at every run of whitespace and
   * nowhere else.
   */
  lemma {:induction false} SplitInterleave(ws: seq<string>, seps: seq<string>)
    requires |seps| == |ws|
    requires forall i :: 0 <= i < |ws| ==> ws[i] != [] && forall k :: 0 <= k < |ws[i]| ==> !IsWhitespace(ws[i][k])
    requires forall i :: 0 <= i < |seps| ==> seps[i] != [] && forall k :: 0 <= k < |seps[i]| ==> IsWhitespace(seps[i][k])
    ensures SplitWhitespace(Interleave(ws, seps)) == ws
  {
    if ws != [] {
      var w, sep := ws[0], seps[0];
      var rest := Interleave(ws[1..], seps[1..]);
      SplitInterleave(ws[1..], seps[1..]);
      SplitBlank(sep);
      SplitAppend(sep, rest);
      SplitWord(w);
      SplitAppend(w, sep + rest);
      assert ws == [w] + ws[1..];
    }
  }

  lemma {:induction false} WordLengthAppend(a: string, b: string)
    requires a != [] && Separated(a, b)
    ensures WordLength(a + b) == WordLength(a)
  {
    if !IsWhitespace(a[0]) && |a| > 1 {
      assert (a + b)[1..] == a[1..] + b;
      WordLengthAppend(a[1..], b);
    }
  }

  /** Pieces whose padded forms are separated tokenize independently. */
  lemma TokenizeAppend(a: string, b: string)
    requires Separated(Pad(a), Pad(b))
    ensures Tokenize(a + b) == Tokenize(a) + Tokenize(b)
  {
    PadIsPadEach(a + b);
    PadIsPadEach(a);
    PadIsPadEach(b);
    PadEachAppend(a, b);
    SplitAppend(Pad(a), Pad(b));
  }

  lemma PadAppend(a: string, b: string)
    ensures Pad(a + b) == Pad(a) + Pad(b)
  {
    PadIsPadEach(a + b);
    PadIsPadEach(a);
    PadIsPadEach(b);
    PadEachAppend(a, b);
  }

  // ---------------------------------------------------------------------------
  // Tokenizing a query piece by piece
  // ---------------------------------------------------------------------------

  /** A name or keyword: non-empty, no whitespace, no '(', ')' or ';'. */
  predicate Plain(w: string)
  {
    && w != []
    && forall k :: 0 <= k < |w| ==> !IsWhitespace(w[k]) && w[k] != '(' && w[k] != ')' && w[k] != ';'
  }

  /** The padded form of s starts with whitespace. */
  predicate StartsSpaced(s: string)
  {
    var p := Pad(s);
    p != [] && IsWhitespace(p[0])
  }

  lemma {:induction false} PadPlain(w: string)
    requires forall k :: 0 <= k < |w| ==> w[k] != '(' && w[k] != ')' && w[k] != ';'
    ensures Pad(w) == w
  {
    PadIsPadEach(w);
    PadEachPlain(w);
  }

  lemma {:induction false} PadEachPlain(w: string)
    requires forall k :: 0 <= k < |w| ==> w[k] != '(' && w[k] != ')' && w[k] != ';'
    ensures PadEach(w) == w
  {
    if w != [] {
      PadEachPlain(w[1..]);
      assert w == [w[0]] + w[1..];
    }
  }

  lemma {:induction false} WordLengthOfPlain(w: string)
    requires forall k :: 0 <= k < |w| ==> !IsWhitespace(w[k])
    ensures WordLength(w) == |w|
  {
    if w != [] {
      WordLengthOfPlain(w[1..]);
    }
  }

  /** A plain word followed by something that pads to a leading space. */
  lemma TokenizeWordThen(w: string, rest: string)
    requires Plain(w) && (rest == [] || StartsSpaced(rest))
    ensures Tokenize(w + rest) == [w] + Tokenize(rest)
  {
    PadPlain(w);
    SplitWord(w);
    TokenizeAppend(w, rest);
  }

  lemma SplitParen(c: char)
    requires c == '(' || c == ')'
    ensures SplitWhitespace([' ', c, ' ']) == [[c]]
  {
    var p := [' ', c, ' '];
    var q := [c, ' '];
    assert p[1..] == q;
    assert WordLength(q) == 1 by {
      assert q[1..] == [' '];
    }
    assert q[..1] == [c] && q[1..] == [' '];
    assert SplitWhitespace([' ']) == SplitWhitespace([]);
  }

  /** A parenthesis is a token of its own whatever follows it. */
  lemma TokenizeParenThen(c: char, rest: string)
    requires c == '(' || c == ')'
    ensures Tokenize([c] + rest) == [[c]] + Tokenize(rest)
    ensures StartsSpaced([c] + rest)
  {
    PadOne(c);
    assert Pad([c]) == [' ', c, ' '];
    SplitParen(c);
    TokenizeAppend([c], rest);
    PadAppend([c], rest);
  }

  /** A space contributes no token and pads to itself. */
  lemma TokenizeSpaceThen(rest: string)
    ensures Tokenize(" " + rest) == Tokenize(rest)
    ensures StartsSpaced(" " + rest)
  {
    PadPlain(" ");
    assert SplitWhitespace(" ") == SplitWhitespace(" "[1..]);
    assert " "[1..] == [];
    TokenizeAppend(" ", rest);
    PadAppend(" ", rest);
  }

  /** A final ';' is a token of its own, and pads to a leading space. */
  lemma TokenizeSemicolon()
    ensures Tokenize(";") == [";"]
    ensures StartsSpaced(";")
  {
    PadOne(';');
    var p := PadChar(';');
    assert p == [' ', ';'];
    assert p[1..] == [';'];
    assert WordLength(p[1..]) == 1 by {
      assert p[1..][1..] == [];
    }
    assert p[1..][1..] == [];
    assert p[1..][..1] == [';'];
    assert SplitWhitespace(p[1..]) == [[';']] + SplitWhitespace([]);
    assert SplitWhitespace(p) == SplitWhitespace(p[1..]);
  }
}
