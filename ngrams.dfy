/** `create_ngrams`, from the lines on: every contiguous span of one to `length` words of every
    line, each classified as a date, an amount or neither. */
module NGrams {
  import opened Seqs
  import opened LineSegmenter
  import opened Dates
  import opened Patterns
  import TextParser

  /** `line[i:i + n]`, for a span that fits in the line. */
  function Span(line: seq<Word>, i: nat, n: nat): seq<Word>
    requires i + n <= |line|
  {
    line[i..i + n]
  }

  /** `[line[i:i + n] for i in range(len(line) - n + 1)]`, from offset `i` on. */
  function Slices(line: seq<Word>, n: nat, i: nat): seq<seq<Word>>
    requires n >= 1
    decreases |line| - i
  {
    if i + n > |line| then [] else [Span(line, i, n)] + Slices(line, n, i + 1)
  }

  /** The spans of one line, shortest first: lengths 1 to `length`, each at every offset. */
  function LineTokens(line: seq<Word>, length: int): seq<seq<Word>>
    decreases length
  {
    if length < 1 then [] else LineTokens(line, length - 1) + Slices(line, length, 0)
  }

  /** The comprehension
      `[line[i:i + N] for line in lines for N in range(1, length + 1) for i in range(len(line) - N + 1)]`. */
  function Tokens(lines: seq<seq<Word>>, length: int): seq<seq<Word>>
  {
    if lines == [] then [] else Tokens(lines[..|lines| - 1], length) + LineTokens(Last(lines), length)
  }

  function Max0(x: int): nat
  {
    if x > 0 then x else 0
  }

  /** The number of spans of a line of `len` words: the sum of `max(0, len - n + 1)` for `n`
      from 1 to `length`. */
  function SpanCount(len: nat, length: int): nat
    decreases length
  {
    if length < 1 then 0 else SpanCount(len, length - 1) + Max0(len - length + 1)
  }

  /** The number of spans of all of `lines`. */
  function TotalCount(lines: seq<seq<Word>>, length: int): nat
  {
    if lines == [] then 0 else TotalCount(lines[..|lines| - 1], length) + SpanCount(|Last(lines)|, length)
  }

  lemma {:induction false} SlicesAt(line: seq<Word>, n: nat, i0: nat)
    requires n >= 1
    ensures |Slices(line, n, i0)| == Max0(|line| - n + 1 - i0)
    ensures forall k | 0 <= k < |Slices(line, n, i0)| :: Slices(line, n, i0)[k] == Span(line, i0 + k, n)
    decreases |line| - i0
  {
    if i0 + n <= |line| {
      SlicesAt(line, n, i0 + 1);
    }
  }

  lemma {:induction false} LineTokensCount(line: seq<Word>, length: int)
    ensures |LineTokens(line, length)| == SpanCount(|line|, length)
    decreases length
  {
    if length >= 1 {
      LineTokensCount(line, length - 1);
      SlicesAt(line, length, 0);
    }
  }

  /** The span of `n` words at offset `i` of a line sits after every shorter span. */
  lemma {:induction false} LineTokenAt(line: seq<Word>, length: int, n: nat, i: nat)
    requires 1 <= n <= length && i + n <= |line|
    ensures SpanCount(|line|, n - 1) + i < |LineTokens(line, length)|
    ensures LineTokens(line, length)[SpanCount(|line|, n - 1) + i] == Span(line, i, n)
    decreases length
  {
    LineTokensCount(line, length);
    if n == length {
      LineTokensCount(line, length - 1);
      SlicesAt(line, length, 0);
    } else {
      LineTokenAt(line, length - 1, n, i);
      MonotoneCount(|line|, n, length - 1);
    }
  }

  lemma {:induction false} MonotoneCount(len: nat, a: int, b: int)
    requires a <= b
    ensures SpanCount(len, a) <= SpanCount(len, b)
    decreases b - a
  {
    if a < b {
      MonotoneCount(len, a, b - 1);
    }
  }

  /** A line of `len` words contributes `SpanCount(len, length)` tokens, and the token list
      is as long as those counts added up. */
  lemma {:induction false} TokensCount(lines: seq<seq<Word>>, length: int)
    ensures |Tokens(lines, length)| == TotalCount(lines, length)
  {
    if lines != [] {
      TokensCount(lines[..|lines| - 1], length);
      LineTokensCount(Last(lines), length);
    }
  }

  /** The span `lines[j][i:i + n]` is the token at `TotalCount(lines[..j], length) +
      SpanCount(|lines[j]|, n - 1) + i`: after the spans of all earlier lines, then after the
      shorter spans of its own line, then after the spans of its own length that start
      further left. */
  predicate PlacedAt(lines: seq<seq<Word>>, length: int, j: nat, n: nat, i: nat)
    requires j < |lines| && i + n <= |lines[j]|
  {
    var k := TotalCount(lines[..j], length) + SpanCount(|lines[j]|, n - 1) + i;
    k < |Tokens(lines, length)| && Tokens(lines, length)[k] == Span(lines[j], i, n)
  }

  /** Where a span lands in the token list: tokens are ordered by line, then length, then
      offset. */
  lemma {:induction false} TokenAt(lines: seq<seq<Word>>, length: int, j: nat, n: nat, i: nat)
    requires j < |lines| && 1 <= n <= length && i + n <= |lines[j]|
    ensures PlacedAt(lines, length, j, n, i)
    decreases |lines|
  {
    if j == |lines| - 1 {
      TokenAtLast(lines, length, j, n, i);
    } else {
      TokenAt(lines[..|lines| - 1], length, j, n, i);
      TokenAtEarlier(lines, length, j, n, i);
    }
  }

  /** A span of the last line sits after the tokens of all earlier lines. */
  lemma TokenAtLast(lines: seq<seq<Word>>, length: int, j: nat, n: nat, i: nat)
    requires j == |lines| - 1 && 1 <= n <= length && i + n <= |lines[j]|
    ensures PlacedAt(lines, length, j, n, i)
  {
    var init := lines[..j];
    var before := Tokens(init, length);
    var own := LineTokens(lines[j], length);
    assert Tokens(lines, length) == before + own;
    TokensCount(init, length);
    LineTokenAt(lines[j], length, n, i);
    var pos := SpanCount(|lines[j]|, n - 1) + i;
    assert (before + own)[|before| + pos] == own[pos];
  }

  /** A span of an earlier line keeps its place when a line is appended. */
  lemma TokenAtEarlier(lines: seq<seq<Word>>, length: int, j: nat, n: nat, i: nat)
    requires j < |lines| - 1 && i + n <= |lines[j]|
    requires PlacedAt(lines[..|lines| - 1], length, j, n, i)
    ensures PlacedAt(lines, length, j, n, i)
  {
    var init := lines[..|lines| - 1];
    var before := Tokens(init, length);
    var own := LineTokens(Last(lines), length);
    assert Tokens(lines, length) == before + own;
    assert init[..j] == lines[..j];
    assert init[j] == lines[j];
    var t := TotalCount(lines[..j], length) + SpanCount(|lines[j]|, n - 1) + i;
    assert (before + own)[t] == before[t];
  }

  /** Every token is a span of one line: `lines[j][i:i + n]` with `1 <= n <= length`. */
  lemma {:induction false} TokenIsSpan(lines: seq<seq<Word>>, length: int, t: nat)
    requires t < |Tokens(lines, length)|
    ensures exists j, n, i | 0 <= j < |lines| && 1 <= n <= length && 0 <= i && i + n <= |lines[j]| ::
      Tokens(lines, length)[t] == Span(lines[j], i, n)
    decreases |lines|
  {
    var init := lines[..|lines| - 1];
    var last := Last(lines);
    var tokens := Tokens(lines, length);
    if t < |Tokens(init, length)| {
      TokenIsSpan(init, length, t);
      var j, n, i :| 0 <= j < |init| && 1 <= n <= length && 0 <= i && i + n <= |init[j]| &&
        Tokens(init, length)[t] == Span(init[j], i, n);
      assert init[j] == lines[j];
      assert tokens[t] == Span(lines[j], i, n);
    } else {
      var n, i := LineTokenIsSpan(last, length, t - |Tokens(init, length)|);
      assert tokens[t] == Span(lines[|lines| - 1], i, n);
    }
  }

  lemma {:induction false} LineTokenIsSpan(line: seq<Word>, length: int, t: nat) returns (n: nat, i: nat)
    requires t < |LineTokens(line, length)|
    ensures 1 <= n <= length && i + n <= |line|
    ensures LineTokens(line, length)[t] == Span(line, i, n)
    decreases length
  {
    var shorter := LineTokens(line, length - 1);
    if t < |shorter| {
      n, i := LineTokenIsSpan(line, length - 1, t);
    } else {
      SlicesAt(line, length, 0);
      n, i := length, t - |shorter|;
    }
  }

  /** An n-gram: its words and what they were read as. */
  datatype NGram = NGram(words: seq<Word>, parses: map<string, string>)

  /** `' '.join([word['text'] for word in token])`. */
  function WordsText(token: seq<Word>): string
  {
    if token == [] then []
    else if |token| == 1 then token[0].text
    else WordsText(token[..|token| - 1]) + " " + Last(token).text
  }

  /** The texts of the words of a token, in order. */
  function WordTexts(token: seq<Word>): seq<string>
  {
    if token == [] then [] else WordTexts(token[..|token| - 1]) + [Last(token).text]
  }

  predicate IsSpace(c: char)
  {
    c == ' '
  }

  /** The joined text of a token whose words hold no space splits back at its spaces into the
      words' texts. */
  lemma {:induction false} WordsTextSplit(token: seq<Word>)
    requires token != []
    requires forall i, k | 0 <= i < |token| && 0 <= k < |token[i].text| :: token[i].text[k] != ' '
    ensures Split(WordsText(token), IsSpace) == WordTexts(token)
    decreases |token|
  {
    var init := token[..|token| - 1];
    var last := Last(token);
    assert forall k | 0 <= k < |last.text| :: !IsSpace(last.text[k]);
    if |token| == 1 {
      assert init == [];
      SplitSeparatorFree(last.text, IsSpace);
    } else {
      assert forall i | 0 <= i < |init| :: init[i] == token[i];
      WordsTextSplit(init);
      SplitAfterSeparator(WordsText(init), ' ', last.text, IsSpace);
    }
  }

  /** What the classification loop promises of one n-gram: only the keys `date` and
      `amount`; `date` exactly when a date is detected, holding the first date found;
      `amount` exactly when no date but an amount is detected, holding one of the amounts
      found (which one depends on Python's set order). */
  predicate IsClassified(g: NGram, engine: DateEngine)
  {
    var text := WordsText(g.words);
    && (forall key | key in g.parses :: key == "date" || key == "amount")
    && ("date" in g.parses <==> TextParser.Parse(text, "date", engine))
    && ("date" in g.parses ==> g.parses["date"] == DateStrings(text, engine)[0])
    && ("amount" in g.parses <==>
          !TextParser.Parse(text, "date", engine) && TextParser.Parse(text, "amount", engine))
    && ("amount" in g.parses ==>
          g.parses["amount"] in FindAll(AmountPattern, text, 0) && IsAmount(g.parses["amount"]))
  }

  /** A classified n-gram carries at most one parse. */
  lemma AtMostOneParse(g: NGram, engine: DateEngine)
    requires IsClassified(g, engine)
    ensures |g.parses| <= 1
  {
    AtMostOneKey(g.parses);
  }

  /** A map whose only possible keys are `date` and `amount`, never both, has one key at most. */
  lemma AtMostOneKey(m: map<string, string>)
    requires forall key | key in m :: key == "date" || key == "amount"
    requires !("date" in m && "amount" in m)
    ensures |m| <= 1
  {
    var keys := m.Keys;
    if "date" in keys {
      assert keys == {"date"};
    } else if "amount" in keys {
      assert keys == {"amount"};
    } else {
      assert keys == {};
    }
  }

  /** The body of the classification loop for one token. */
  method Classify(token: seq<Word>, engine: DateEngine) returns (g: NGram)
    ensures g.words == token && IsClassified(g, engine) && |g.parses| <= 1
  {
    var text := WordsText(token);
    var parses: map<string, string> := map[];
    if TextParser.Parse(text, "date", engine) {
      var found := TextParser.Find(text, "date", engine);
      parses := parses["date" := found[0]];
    } else if TextParser.Parse(text, "amount", engine) {
      var found := TextParser.Find(text, "amount", engine);
      TextParser.AmountMatches(text);
      parses := parses["amount" := found[0]];
    }
    g := NGram(token, parses);
    AtMostOneParse(g, engine);
  }

  /** The classification loop of `create_ngrams`, over the tokens of `lines`. */
  method CreateNGrams(lines: seq<seq<Word>>, length: int, engine: DateEngine) returns (ngrams: seq<NGram>)
    ensures |ngrams| == |Tokens(lines, length)|
    ensures forall k | 0 <= k < |ngrams| ::
      ngrams[k].words == Tokens(lines, length)[k] && IsClassified(ngrams[k], engine)
    ensures forall k | 0 <= k < |ngrams| :: |ngrams[k].parses| <= 1
  {
    var tokens := Tokens(lines, length);
    ngrams := [];
    for k := 0 to |tokens|
      invariant |ngrams| == k
      invariant forall t | 0 <= t < k :: ngrams[t].words == tokens[t] && IsClassified(ngrams[t], engine)
      invariant forall t | 0 <= t < k :: |ngrams[t].parses| <= 1
    {
      var g := Classify(tokens[k], engine);
      ngrams := ngrams + [g];
    }
  }
}
