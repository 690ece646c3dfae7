/** `TextParser`: detection (`parse`), extraction (`find`) and substitution (`replace`) of
    dates and amounts in a piece of text.  The parser's only field, its template of regular
    expressions, is built once and never changed, so it is a constant here. */
module TextParser {
  import opened Seqs
  import opened Dates
  import opened Patterns

  /** The template: the regular expressions declared for each key. */
  const TEMPLATE: map<string, seq<Pattern>> :=
    map["amount" := [AmountPattern], "date" := [DayFirstDatePattern, YearFirstDatePattern]]

  /** Some pattern of `patterns` has a match in `text`. */
  predicate AnyMatch(patterns: seq<Pattern>, text: string)
  {
    exists k | 0 <= k < |patterns| :: HasMatch(patterns[k], text)
  }

  /** `re.findall(p, text)` is not empty. */
  predicate HasMatch(p: Pattern, text: string)
  {
    FindAll(p, text, 0) != []
  }

  /** The matches of every pattern, pattern after pattern, as `values.extend` collects them. */
  function AllMatches(patterns: seq<Pattern>, text: string): seq<string>
  {
    if patterns == [] then []
    else AllMatches(patterns[..|patterns| - 1], text) + FindAll(Seqs.Last(patterns), text, 0)
  }

  lemma {:induction false} AllMatchesNonEmpty(patterns: seq<Pattern>, text: string)
    ensures AllMatches(patterns, text) != [] <==> AnyMatch(patterns, text)
  {
    if patterns != [] {
      var init := patterns[..|patterns| - 1];
      AllMatchesNonEmpty(init, text);
      AnyMatchSnoc(patterns, text);
    }
  }

  lemma AnyMatchSnoc(patterns: seq<Pattern>, text: string)
    requires patterns != []
    ensures AnyMatch(patterns, text) <==>
      AnyMatch(patterns[..|patterns| - 1], text) || HasMatch(Seqs.Last(patterns), text)
  {
    var init := patterns[..|patterns| - 1];
    var n := |patterns| - 1;
    if AnyMatch(patterns, text) {
      var k :| 0 <= k < |patterns| && HasMatch(patterns[k], text);
      if k < n {
        assert init[k] == patterns[k];
      }
    }
    if AnyMatch(init, text) {
      var k :| 0 <= k < |init| && HasMatch(init[k], text);
      assert patterns[k] == init[k];
    }
    if HasMatch(patterns[n], text) {
      assert AnyMatch(patterns, text);
    }
  }

  /** The amount key has one pattern, so its matches are those of that pattern. */
  lemma AmountMatches(text: string)
    ensures AllMatches(TEMPLATE["amount"], text) == FindAll(AmountPattern, text, 0)
  {
    var ps := TEMPLATE["amount"];
    assert ps == [AmountPattern];
    assert ps[..0] == [];
  }

  /** `parse(text, key)`.  For `date` only the discovery routine is consulted, never the two
      date patterns of the template; a discovery failure reads as `False`. */
  function Parse(text: string, key: string, engine: DateEngine): (r: bool)
    ensures key == "date" ==> (r <==> DateStrings(text, engine) != [])
    ensures key != "date" ==> (r <==> key in TEMPLATE && AllMatches(TEMPLATE[key], text) != [])
  {
    if key == "date" then DateDetected(text, engine)
    else if key !in TEMPLATE then false
    else
      AllMatchesNonEmpty(TEMPLATE[key], text);
      AnyMatch(TEMPLATE[key], text)
  }

  /** An amount is detected exactly when the amount pattern matches at some position. */
  lemma ParseAmountIffSearch(text: string, engine: DateEngine)
    ensures Parse(text, "amount", engine) <==>
      exists j | 0 <= j < |text| :: MatchAt(AmountPattern, text, j).Some?
  {
    FindAllNonEmptyIffSearch(AmountPattern, text, 0);
    assert TEMPLATE["amount"] == [AmountPattern];
    if HasMatch(AmountPattern, text) {
      assert HasMatch(TEMPLATE["amount"][0], text);
    }
  }

  /** An amount is detected exactly when some part of the text has the amount shape. */
  lemma ParseAmountIffAmountInText(text: string, engine: DateEngine)
    ensures Parse(text, "amount", engine) <==>
      exists a, b | 0 <= a <= b <= |text| :: IsAmount(text[a..b])
  {
    ParseAmountIffSearch(text, engine);
    if Parse(text, "amount", engine) {
      var j :| 0 <= j < |text| && MatchAt(AmountPattern, text, j).Some?;
      var e := MatchAt(AmountPattern, text, j).value;
      assert IsAmount(text[j..e]);
    }
    if exists a, b | 0 <= a <= b <= |text| :: IsAmount(text[a..b]) {
      var a, b :| 0 <= a <= b <= |text| && IsAmount(text[a..b]);
      AmountFound(text, a, b);
      assert MatchAt(AmountPattern, text, a).Some?;
    }
  }

  /** `find(text, key)`.  For `date`: the non-future discovered dates as `MM-DD-YYYY`, in
      discovery order, and nothing when discovery fails.  For a template key: every match of
      its patterns, each once, in an order Python leaves unspecified.  Otherwise nothing. */
  method Find(text: string, key: string, engine: DateEngine) returns (values: seq<string>)
    ensures key == "date" ==> values == DateStrings(text, engine)
    ensures key != "date" && key !in TEMPLATE ==> values == []
    ensures key != "date" && key in TEMPLATE ==>
      && NoDuplicates(values)
      && (forall i | 0 <= i < |values| :: values[i] in AllMatches(TEMPLATE[key], text))
      && (forall m | m in AllMatches(TEMPLATE[key], text) :: m in values)
    ensures key == "amount" ==>
      forall i | 0 <= i < |values| :: IsAmount(values[i]) && IsSubstring(values[i], text)
    ensures values != [] <==> Parse(text, key, engine)
  {
    if key == "date" {
      return DateStrings(text, engine);
    }
    values := [];
    if key !in TEMPLATE {
      return;
    }
    var patterns := TEMPLATE[key];
    for n := 0 to |patterns|
      invariant values == AllMatches(patterns[..n], text)
    {
      assert patterns[..n + 1][..n] == patterns[..n];
      values := values + FindAll(patterns[n], text, 0);
    }
    assert patterns[..|patterns|] == patterns;
    AllMatchesNonEmpty(patterns, text);
    if key == "amount" {
      assert patterns == [AmountPattern];
      assert values == FindAll(AmountPattern, text, 0);
      FindAllAmounts(text, 0);
    }
    var all := values;
    values := Dedup(values);
    assert all != [] ==> all[0] in values;
  }

  /** Python's `s.replace('  ', ' ')`: each non-overlapping pair of spaces, left to right,
      becomes one space. */
  function CollapseOnce(s: string): string
  {
    if |s| < 2 then s
    else if s[0] == ' ' && s[1] == ' ' then " " + CollapseOnce(s[2..])
    else [s[0]] + CollapseOnce(s[1..])
  }

  /** `'  ' in s`. */
  predicate HasDoubleSpace(s: string)
  {
    exists i | 0 <= i < |s| - 1 :: s[i] == ' ' && s[i + 1] == ' '
  }

  /** Reference meaning of the collapse loop: every run of spaces shrunk to one space. */
  function Squeeze(s: string): string
  {
    if |s| < 2 then s
    else if s[0] == ' ' && s[1] == ' ' then Squeeze(s[1..])
    else [s[0]] + Squeeze(s[1..])
  }

  lemma SqueezeCons(c: char, x: string)
    ensures Squeeze([c] + x) ==
      if c == ' ' && |x| > 0 && x[0] == ' ' then Squeeze(x) else [c] + Squeeze(x)
  {
    assert ([c] + x)[1..] == x;
  }

  lemma {:induction false} SqueezeHead(s: string)
    ensures |Squeeze(s)| > 0 <==> |s| > 0
    ensures |s| > 0 ==> Squeeze(s)[0] == s[0]
    decreases |s|
  {
    if |s| >= 2 {
      SqueezeHead(s[1..]);
    }
  }

  lemma {:induction false} CollapseHead(s: string)
    ensures |CollapseOnce(s)| > 0 <==> |s| > 0
    ensures |s| > 0 ==> CollapseOnce(s)[0] == s[0]
  {
  }

  /** One round of `replace('  ', ' ')` keeps the squeezed text. */
  lemma {:induction false} CollapseKeepsSqueeze(s: string)
    ensures Squeeze(CollapseOnce(s)) == Squeeze(s)
    decreases |s|
  {
    if |s| >= 2 {
      if s[0] == ' ' && s[1] == ' ' {
        var u := s[2..];
        CollapseKeepsSqueeze(u);
        CollapseHead(u);
        SqueezeCons(' ', CollapseOnce(u));
        SqueezeCons(' ', u);
        assert s[1..] == [' '] + u;
      } else {
        var u := s[1..];
        CollapseKeepsSqueeze(u);
        CollapseHead(u);
        SqueezeCons(s[0], CollapseOnce(u));
        assert CollapseOnce(s) == [s[0]] + CollapseOnce(u);
      }
    }
  }

  /** A round of `replace('  ', ' ')` on a text holding a double space shortens it, so the
      collapse loop terminates. */
  lemma {:induction false} CollapseShrinks(s: string)
    ensures |CollapseOnce(s)| <= |s|
    ensures HasDoubleSpace(s) ==> |CollapseOnce(s)| < |s|
    decreases |s|
  {
    if |s| >= 2 {
      if s[0] == ' ' && s[1] == ' ' {
        CollapseShrinks(s[2..]);
      } else {
        CollapseShrinks(s[1..]);
        if HasDoubleSpace(s) {
          var i :| 0 <= i < |s| - 1 && s[i] == ' ' && s[i + 1] == ' ';
          assert s[1..][i - 1] == ' ' && s[1..][i] == ' ';
        }
      }
    }
  }

  /** The squeezed text never holds two spaces in a row. */
  lemma {:induction false} SqueezeHasNoDoubleSpace(s: string)
    ensures !HasDoubleSpace(Squeeze(s))
    decreases |s|
  {
    if |s| >= 2 {
      SqueezeHasNoDoubleSpace(s[1..]);
      if !(s[0] == ' ' && s[1] == ' ') {
        var y := Squeeze(s[1..]);
        SqueezeHead(s[1..]);
        var r := [s[0]] + y;
        forall i | 0 <= i < |r| - 1
          ensures !(r[i] == ' ' && r[i + 1] == ' ')
        {
          assert r[i + 1] == y[i];
          if i > 0 {
            assert r[i] == y[i - 1];
          }
        }
      }
    }
  }

  /** A text without a double space is its own squeeze. */
  lemma {:induction false} SqueezeWithoutDoubleSpace(s: string)
    requires !HasDoubleSpace(s)
    ensures Squeeze(s) == s
    decreases |s|
  {
    if |s| >= 2 {
      assert !(s[0] == ' ' && s[1] == ' ');
      forall i | 0 <= i < |s| - 2
        ensures !(s[1..][i] == ' ' && s[1..][i + 1] == ' ')
      {
        assert s[1..][i] == s[i + 1] && s[1..][i + 1] == s[i + 2];
      }
      SqueezeWithoutDoubleSpace(s[1..]);
      assert s == [s[0]] + s[1..];
    }
  }

  /** The patterns applied in turn, as the substitution loop of `replace` does. */
  function SubAll(patterns: seq<Pattern>, text: string, repl: string): (r: string)
    ensures repl == [] ==> |r| <= |text|
  {
    if patterns == [] then text
    else
      var before := SubAll(patterns[..|patterns| - 1], text, repl);
      SubCountsMatches(Seqs.Last(patterns), before, 0);
      Sub(Seqs.Last(patterns), before, repl, 0)
  }

  /** `replace(text, new, key)`.  An unknown key leaves the text exactly as it is.  A template
      key substitutes every match of each of its patterns (for `date`: the two date patterns,
      not the discovery routine), then collapses every run of spaces to one space. */
  method Replace(text: string, repl: string, key: string) returns (r: string)
    ensures key !in TEMPLATE ==> r == text
    ensures key in TEMPLATE ==> r == Squeeze(SubAll(TEMPLATE[key], text, repl))
    ensures key in TEMPLATE ==> !HasDoubleSpace(r)
  {
    if key !in TEMPLATE {
      return text;
    }
    var patterns := TEMPLATE[key];
    r := text;
    for n := 0 to |patterns|
      invariant r == SubAll(patterns[..n], text, repl)
    {
      assert patterns[..n + 1][..n] == patterns[..n];
      r := Sub(patterns[n], r, repl, 0);
    }
    assert patterns[..|patterns|] == patterns;
    ghost var substituted := r;
    while HasDoubleSpace(r)
      invariant Squeeze(r) == Squeeze(substituted)
      decreases |r|
    {
      CollapseKeepsSqueeze(r);
      CollapseShrinks(r);
      r := CollapseOnce(r);
    }
    SqueezeWithoutDoubleSpace(r);
  }
}
