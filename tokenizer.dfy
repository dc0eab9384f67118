/** The quote-aware splitter of the interactive prompt: a space outside double quotes ends a token,
    a double quote switches quoting on or off and is dropped, empty tokens are skipped. There is
    no escape for a quote inside a quoted part.

    The reference definition reads the input in three steps: each character becomes a separator,
    nothing (a quote) or a kept character (`Marks`); the marks are cut at the separators into
    fields (`Fields`); the empty fields are dropped (`NonEmpty`). */
module Tokenizer {
  import opened Seqs

  /** How many double quotes `s` holds. */
  function QuoteCount(s: string): nat
  {
    if s == [] then 0
    else QuoteCount(s[..|s| - 1]) + (if s[|s| - 1] == '"' then 1 else 0)
  }

  /** After reading `s`, the reader is inside quotes exactly when it has seen an odd number of them. */
  predicate InQuotes(s: string)
  {
    QuoteCount(s) % 2 == 1
  }

  datatype Mark = Sep | Keep(c: char)

  /** What the character `c` contributes, read inside quotes or not. */
  function MarkOf(quoted: bool, c: char): seq<Mark>
  {
    if c == '"' then []
    else if c == ' ' && !quoted then [Sep]
    else [Keep(c)]
  }

  function Marks(s: string): seq<Mark>
  {
    if s == [] then []
    else Marks(s[..|s| - 1]) + MarkOf(InQuotes(s[..|s| - 1]), s[|s| - 1])
  }

  /** The kept characters of `m`, cut at every separator: one more field than separators. */
  function Fields(m: seq<Mark>): (f: seq<string>)
    ensures |f| >= 1
  {
    if m == [] then [""]
    else
      var f := Fields(m[..|m| - 1]);
      match m[|m| - 1]
      case Sep => f + [""]
      case Keep(c) => f[..|f| - 1] + [f[|f| - 1] + [c]]
  }

  /** No mark keeps a double quote. */
  lemma {:induction false} MarksNoQuote(s: string)
    ensures Keep('"') !in Marks(s)
  {
    if s != [] {
      MarksNoQuote(s[..|s| - 1]);
    }
  }

  /** Every character of every field is kept by some mark. */
  lemma {:induction false} FieldsFromMarks(m: seq<Mark>)
    ensures forall j, k :: 0 <= j < |Fields(m)| && 0 <= k < |Fields(m)[j]| ==> Keep(Fields(m)[j][k]) in m
  {
    if m != [] {
      var init := m[..|m| - 1];
      FieldsFromMarks(init);
      var f := Fields(init);
      var r := Fields(m);
      forall j, k | 0 <= j < |r| && 0 <= k < |r[j]| ensures Keep(r[j][k]) in m {
        if m[|m| - 1].Sep? || j < |f| - 1 || k < |f[|f| - 1]| {
          assert r[j][k] == f[j][k];
          assert Keep(r[j][k]) in init;
        } else {
          assert m[|m| - 1] == Keep(r[j][k]);
        }
      }
    }
  }

  /** `f` without its empty strings. */
  function NonEmpty(f: seq<string>): (r: seq<string>)
    ensures forall j :: 0 <= j < |r| ==> r[j] != "" && r[j] in f
  {
    if f == [] then []
    else
      var r := NonEmpty(f[..|f| - 1]) + (if f[|f| - 1] == "" then [] else [f[|f| - 1]]);
      assert forall w :: w in f[..|f| - 1] ==> w in f;
      r
  }

  /** The tokens of one input line. */
  function Tokens(s: string): seq<string>
  {
    NonEmpty(Fields(Marks(s)))
  }

  /** An empty line has no tokens. */
  lemma {:induction false} EmptyTokens()
    ensures Tokens("") == []
  {
    assert Marks("") == [];
    assert Fields([]) == [""];
    assert [""][..0] == [];
  }

  /** The input with every double quote and every space outside quotes deleted. */
  function Kept(s: string): string
  {
    if s == [] then []
    else
      var before, c := s[..|s| - 1], s[|s| - 1];
      Kept(before) + (if c == '"' || (c == ' ' && !InQuotes(before)) then "" else [c])
  }

  /** The characters that `m` keeps, in order. */
  function Chars(m: seq<Mark>): string
  {
    if m == [] then []
    else Chars(m[..|m| - 1]) + (match m[|m| - 1] case Sep => "" case Keep(c) => [c])
  }

  function Concat(ws: seq<string>): string
  {
    if ws == [] then [] else Concat(ws[..|ws| - 1]) + ws[|ws| - 1]
  }

  lemma {:induction false} ConcatAppend(a: seq<string>, b: seq<string>)
    ensures Concat(a + b) == Concat(a) + Concat(b)
  {
    if b != [] {
      assert (a + b)[..|a + b| - 1] == a + b[..|b| - 1];
      ConcatAppend(a, b[..|b| - 1]);
    } else {
      assert a + b == a;
    }
  }

  /** Dropping empty fields does not change what they spell. */
  lemma {:induction false} NonEmptyConcat(f: seq<string>)
    ensures Concat(NonEmpty(f)) == Concat(f)
  {
    if f != [] {
      var init := f[..|f| - 1];
      NonEmptyConcat(init);
      ConcatAppend(NonEmpty(init), if f[|f| - 1] == "" then [] else [f[|f| - 1]]);
    }
  }

  /** The fields spell the kept characters. */
  lemma {:induction false} FieldsConcat(m: seq<Mark>)
    ensures Concat(Fields(m)) == Chars(m)
  {
    if m != [] {
      var init, x := m[..|m| - 1], m[|m| - 1];
      assert m == init + [x];
      FieldsConcat(init);
      CharsSnoc(init, x);
      var f := Fields(init);
      match x
      case Sep =>
        FieldsSnocSep(init);
        ConcatAppend(f, [""]);
      case Keep(c) =>
        FieldsSnocKeep(init, c);
        var g := f[..|f| - 1];
        assert f == g + [f[|f| - 1]];
        ConcatAppend(g, [f[|f| - 1]]);
        ConcatAppend(g, [f[|f| - 1] + [c]]);
    }
  }

  /** The marks keep exactly the characters `Kept` keeps. */
  lemma {:induction false} MarksChars(s: string)
    ensures Chars(Marks(s)) == Kept(s)
  {
    if s != [] {
      var before, c := s[..|s| - 1], s[|s| - 1];
      MarksChars(before);
      var m := Marks(before);
      assert Marks(s) == m + MarkOf(InQuotes(before), c);
      if c == '"' {
        assert m + [] == m;
      } else if c == ' ' && !InQuotes(before) {
        CharsSnoc(m, Sep);
      } else {
        CharsSnoc(m, Keep(c));
      }
    }
  }

  /** One more mark adds its character, if it keeps one. */
  lemma {:induction false} CharsSnoc(m: seq<Mark>, x: Mark)
    ensures Chars(m + [x]) == Chars(m) + (match x case Sep => "" case Keep(c) => [c])
  {
    assert (m + [x])[..|m|] == m;
  }

  /** No token is empty and none contains a double quote. */
  lemma {:induction false} TokensShape(s: string)
    ensures forall t :: t in Tokens(s) ==> t != "" && '"' !in t
  {
    var m := Marks(s);
    MarksNoQuote(s);
    FieldsFromMarks(m);
    forall t | t in Tokens(s) ensures t != "" && '"' !in t {
      assert t in Fields(m);
    }
  }

  /** `TokensShape` for the token at one index. */
  lemma {:induction false} TokenAt(s: string, k: nat)
    ensures k < |Tokens(s)| ==> Tokens(s)[k] != "" && '"' !in Tokens(s)[k]
  {
    if k < |Tokens(s)| {
      TokensShape(s);
      assert Tokens(s)[k] in Tokens(s);
    }
  }

  /** Joined back together, the tokens are the input with every double quote and every space outside
      quotes deleted: in particular spaces inside quotes are kept. */
  lemma {:induction false} TokensSpellKept(s: string)
    ensures Concat(Tokens(s)) == Kept(s)
  {
    NonEmptyConcat(Fields(Marks(s)));
    FieldsConcat(Marks(s));
    MarksChars(s);
  }

  /** The marks of a quoted run: every character is kept, spaces included. */
  lemma {:induction false} QuotedMarks(w: string)
    requires '"' !in w
    ensures QuoteCount("\"" + w) == 1
    ensures Marks("\"" + w) == seq(|w|, k requires 0 <= k < |w| => Keep(w[k]))
  {
    if w != [] {
      var init := w[..|w| - 1];
      assert ("\"" + w)[..|w|] == "\"" + init;
      QuotedMarks(init);
    }
  }

  /** A line that is one quoted phrase (with no quote inside it) is one token, spaces and all. */
  lemma {:induction false} QuotedPhrase(w: string)
    requires '"' !in w && w != ""
    ensures Tokens("\"" + w + "\"") == [w]
  {
    var s := "\"" + w + "\"";
    assert s[..|s| - 1] == "\"" + w;
    QuotedMarks(w);
    QuotedFields(w);
    assert Marks(s) == Marks("\"" + w);
    NonEmptySnoc([], w);
    assert [] + [w] == [w];
  }

  lemma {:induction false} QuotedFields(w: string)
    ensures Fields(seq(|w|, k requires 0 <= k < |w| => Keep(w[k]))) == [w]
  {
    if w != [] {
      var init := w[..|w| - 1];
      var m := seq(|w|, k requires 0 <= k < |w| => Keep(w[k]));
      assert m[..|m| - 1] == seq(|init|, k requires 0 <= k < |init| => Keep(init[k]));
      QuotedFields(init);
      assert init + [w[|w| - 1]] == w;
    }
  }

  lemma {:induction false} QuoteCountAppend(a: string, b: string)
    ensures QuoteCount(a + b) == QuoteCount(a) + QuoteCount(b)
  {
    if b == [] {
      assert a + b == a;
    } else {
      assert (a + b)[..|a + b| - 1] == a + b[..|b| - 1];
      QuoteCountAppend(a, b[..|b| - 1]);
    }
  }

  lemma {:induction false} EvenShift(even: nat, n: nat)
    requires even % 2 == 0
    ensures (even + n) % 2 == n % 2
  {
  }

  /** After a part with balanced quotes, the quoting state is that of the rest alone. */
  lemma {:induction false} QuotesAfterBalanced(a: string, b: string)
    requires !InQuotes(a)
    ensures InQuotes(a + b) == InQuotes(b)
  {
    QuoteCountAppend(a, b);
    EvenShift(QuoteCount(a), QuoteCount(b));
  }

  /** After a part with balanced quotes, the rest is read as if from the start of the line. */
  lemma {:induction false} MarksAppend(a: string, b: string)
    requires !InQuotes(a)
    ensures Marks(a + b) == Marks(a) + Marks(b)
  {
    if b == [] {
      calc {
        Marks(a + b);
        { assert a + b == a; }
        Marks(a);
        Marks(a) + Marks(b);
      }
    } else {
      MarksAppend(a, b[..|b| - 1]);
      MarksAppendStep(a, b);
    }
  }

  /** The step of `MarksAppend`: one more character after the balanced part. */
  lemma {:induction false} MarksAppendStep(a: string, b: string)
    requires !InQuotes(a) && b != []
    requires Marks(a + b[..|b| - 1]) == Marks(a) + Marks(b[..|b| - 1])
    ensures Marks(a + b) == Marks(a) + Marks(b)
  {
    var init, c := b[..|b| - 1], b[|b| - 1];
    var x := a + init;
    LastSplit(b);
    AppendAssoc(a, init, [c]);
    MarksSnoc(x, c);
    QuotesAfterBalanced(a, init);
    MarksSnoc(init, c);
    AppendAssoc(Marks(a), Marks(init), MarkOf(InQuotes(init), c));
  }

  /** One more character adds its marks. */
  lemma {:induction false} MarksSnoc(s: string, c: char)
    ensures Marks(s + [c]) == Marks(s) + MarkOf(InQuotes(s), c)
  {
    assert (s + [c])[..|s|] == s;
  }

  /** A separator between two runs of marks cuts their fields apart. */
  lemma {:induction false} FieldsAppendSep(m: seq<Mark>, n: seq<Mark>)
    ensures Fields(m + [Sep] + n) == Fields(m) + Fields(n)
  {
    if n == [] {
      assert m + [Sep] + n == m + [Sep];
      FieldsSnocSep(m);
    } else {
      var init, x := n[..|n| - 1], n[|n| - 1];
      var p := m + [Sep] + init;
      assert m + [Sep] + n == p + [x];
      assert n == init + [x];
      FieldsAppendSep(m, init);
      var f, g := Fields(m), Fields(init);
      assert Fields(p) == f + g;
      match x
      case Sep =>
        FieldsSnocSep(p);
        FieldsSnocSep(init);
        assert (f + g) + [""] == f + (g + [""]);
      case Keep(c) =>
        FieldsSnocKeep(p, c);
        FieldsSnocKeep(init, c);
        ExtendLast(f, g, c);
    }
  }

  /** Extending the last string of `f + g` extends the last string of `g`. */
  lemma {:induction false} ExtendLast(f: seq<string>, g: seq<string>, c: char)
    requires g != []
    ensures var h := f + g;
      h[..|h| - 1] + [h[|h| - 1] + [c]] == f + (g[..|g| - 1] + [g[|g| - 1] + [c]])
  {
    var h := f + g;
    assert h[..|h| - 1] == f + g[..|g| - 1];
  }

  /** A separator starts a new, empty field. */
  lemma {:induction false} FieldsSnocSep(m: seq<Mark>)
    ensures Fields(m + [Sep]) == Fields(m) + [""]
  {
    assert (m + [Sep])[..|m|] == m;
  }

  /** A kept character extends the last field. */
  lemma {:induction false} FieldsSnocKeep(m: seq<Mark>, c: char)
    ensures var f := Fields(m); Fields(m + [Keep(c)]) == f[..|f| - 1] + [f[|f| - 1] + [c]]
  {
    assert (m + [Keep(c)])[..|m|] == m;
  }

  lemma {:induction false} NonEmptyAppend(f: seq<string>, g: seq<string>)
    ensures NonEmpty(f + g) == NonEmpty(f) + NonEmpty(g)
  {
    if g == [] {
      assert f + g == f;
    } else {
      var init := g[..|g| - 1];
      assert (f + g)[..|f + g| - 1] == f + init;
      NonEmptyAppend(f, init);
    }
  }

  /** A space outside quotes separates the tokens before it from those after it. */
  lemma {:induction false} TokensSplit(a: string, b: string)
    requires !InQuotes(a)
    ensures Tokens(a + " " + b) == Tokens(a) + Tokens(b)
  {
    assert (a + " ")[..|a|] == a;
    MarksAppend(a + " ", b);
    assert Marks(a + " ") == Marks(a) + [Sep];
    assert QuoteCount(a + " ") == QuoteCount(a);
    FieldsAppendSep(Marks(a), Marks(b));
    NonEmptyAppend(Fields(Marks(a)), Fields(Marks(b)));
  }

  /** A word with no space and no quote is one token. */
  lemma {:induction false} PlainWord(w: string)
    requires w != "" && ' ' !in w && '"' !in w
    ensures QuoteCount(w) == 0
    ensures Tokens(w) == [w]
  {
    PlainMarks(w);
    QuotedFields(w);
    NonEmptySnoc([], w);
    assert [] + [w] == [w];
  }

  lemma {:induction false} PlainMarks(w: string)
    requires ' ' !in w && '"' !in w
    ensures QuoteCount(w) == 0
    ensures Marks(w) == seq(|w|, k requires 0 <= k < |w| => Keep(w[k]))
  {
    if w != [] {
      var init := w[..|w| - 1];
      PlainMarks(init);
    }
  }

  lemma {:induction false} QuoteSnoc(s: string, c: char)
    ensures InQuotes(s + [c]) == if c == '"' then !InQuotes(s) else InQuotes(s)
  {
    assert (s + [c])[..|s|] == s;
  }

  /** How reading one more character changes the fields. */
  lemma {:induction false} FieldsStep(s: string, c: char)
    ensures var f, g := Fields(Marks(s)), Fields(Marks(s + [c]));
      if c == '"' then g == f
      else if c == ' ' && !InQuotes(s) then g == f + [""]
      else g == f[..|f| - 1] + [f[|f| - 1] + [c]]
  {
    var m := Marks(s);
    assert (s + [c])[..|s|] == s;
    var x := MarkOf(InQuotes(s), c);
    if x != [] {
      assert (m + x)[..|m|] == m;
    } else {
      assert m + x == m;
    }
  }

  lemma {:induction false} NonEmptySnoc(f: seq<string>, w: string)
    ensures NonEmpty(f + [w]) == NonEmpty(f) + if w == "" then [] else [w]
  {
    assert (f + [w])[..|f|] == f;
  }

  /** The non-empty fields are those before the last one, then the last one if it is not empty. */
  lemma {:induction false} NonEmptyLast(f: seq<string>)
    requires |f| >= 1
    ensures NonEmpty(f) == NonEmpty(f[..|f| - 1]) + if f[|f| - 1] == "" then [] else [f[|f| - 1]]
  {
  }

  /** The interactive prompt's splitting loop. */
  method Tokenize(input: string) returns (parts: seq<string>)
    ensures parts == Tokens(input)
  {
    parts := [];
    var current := "";
    var inQuotes := false;
    ghost var fields: seq<string> := [""];
    for i := 0 to |input|
      invariant inQuotes == InQuotes(input[..i])
      invariant fields == Fields(Marks(input[..i]))
      invariant parts == NonEmpty(fields[..|fields| - 1]) && current == fields[|fields| - 1]
    {
      var c := input[i];
      assert input[..i + 1] == input[..i] + [c];
      QuoteSnoc(input[..i], c);
      FieldsStep(input[..i], c);
      if c == '"' && !inQuotes {
        inQuotes := true;
      } else if c == '"' && inQuotes {
        inQuotes := false;
      } else if c == ' ' && !inQuotes {
        NonEmptyLast(fields);
        if current != "" {
          parts := parts + [current];
          current := "";
        }
        ghost var g := fields + [""];
        assert g[..|g| - 1] == fields;
        fields := g;
      } else {
        ghost var g := fields[..|fields| - 1] + [current + [c]];
        assert g[..|g| - 1] == fields[..|fields| - 1];
        current := current + [c];
        fields := g;
      }
    }
    assert input[..|input|] == input;
    NonEmptyLast(fields);
    if current != "" {
      parts := parts + [current];
    }
  }
}
