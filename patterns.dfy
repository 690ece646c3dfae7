/** The three regular expressions of the text parser's template, as deterministic scanners,
    and the two `re` operations used on them: `findall` and `sub`.

      amount:      \d+[,\d]*\.\d+
      day first:   \d{1,2}[\/\\\.\,-]\d{1,2}[\/\\\.\,-]\d{2,4}
      year first:  \d{2,4}[\/\\\.\,-]\d{1,2}[\/\\\.\,-]\d{1,2}

    None of the three can match the empty string, and at a given position the backtracking
    matcher finds exactly the match the greedy scans below find (or none):
    - In the amount pattern, `\d+[,\d]*` is a digit followed by any run of digits and commas,
      and it must be followed by a dot, which is neither; so the only place the dot can sit is
      right after the longest such run.  The final `\d+` takes every digit it can.
    - In the date patterns, each bounded digit run other than the last is followed by a
      separator, which is not a digit: a shorter run than the greedy one would leave a digit
      where the separator must be.  The last run takes as many digits as it can. */
module Patterns {
  import opened Wrappers
  import Seqs
  import Dates

  datatype Pattern = AmountPattern | DayFirstDatePattern | YearFirstDatePattern

  predicate IsDigit(c: char)
  {
    Dates.IsDigit(c)
  }

  predicate IsDigitOrComma(c: char)
  {
    IsDigit(c) || c == ','
  }

  /** The class `[\/\\\.\,-]`. */
  predicate IsDateSeparator(c: char)
  {
    c == '/' || c == '\\' || c == '.' || c == ',' || c == '-'
  }

  /** Length of the longest run of `cls` characters starting at `i`. */
  function Run(s: string, i: nat, cls: char -> bool): (n: nat)
    requires i <= |s|
    ensures i + n <= |s|
    ensures forall k | i <= k < i + n :: cls(s[k])
    ensures i + n == |s| || !cls(s[i + n])
    decreases |s| - i
  {
    if i == |s| || !cls(s[i]) then 0 else 1 + Run(s, i + 1, cls)
  }

  /** At most `max` characters of the digit run starting at `i` (a greedy `\d{1,max}`). */
  function Digits(s: string, i: nat, max: nat): (n: nat)
    requires i <= |s|
    ensures n <= max && i + n <= |s|
    ensures forall k | i <= k < i + n :: IsDigit(s[k])
    ensures n < max ==> i + n == |s| || !IsDigit(s[i + n])
  {
    var r := Run(s, i, IsDigit);
    if r <= max then r else max
  }

  /** A match of `\d+[,\d]*\.\d+` starting at `i`: its end, if there is one. */
  function AmountAt(s: string, i: nat): (e: Option<nat>)
    requires i <= |s|
    ensures e.Some? ==> i < e.value <= |s| && IsAmount(s[i..e.value])
  {
    if i == |s| || !IsDigit(s[i]) then None
    else
      var j := i + Run(s, i, IsDigitOrComma);
      if j == |s| || s[j] != '.' then None
      else
        var e := j + 1 + Run(s, j + 1, IsDigit);
        if e == j + 1 then None
        else
          AmountSpan(s, i, j, e);
          Some(e)
  }

  /** A digit, a run of digits and commas, a dot and a non-empty run of digits form an amount. */
  lemma AmountSpan(s: string, i: nat, j: nat, e: nat)
    requires i < j && j + 1 < e <= |s| && IsDigit(s[i]) && s[j] == '.'
    requires forall t | i <= t < j :: IsDigitOrComma(s[t])
    requires forall t | j + 1 <= t < e :: IsDigit(s[t])
    ensures IsAmount(s[i..e])
  {
    var m := s[i..e];
    assert forall t | 0 <= t < |m| :: m[t] == s[i + t];
    assert forall t | 0 <= t < j - i :: m[t] != '.' by {
      forall t | 0 <= t < j - i
        ensures m[t] != '.'
      {
        assert IsDigitOrComma(s[i + t]);
      }
    }
    FirstIndexAt(m, j - i);
  }

  /** An amount-shaped text is always matched: where the amount shape begins at `a`, the
      scanner finds a match starting there. */
  lemma AmountFound(s: string, a: nat, b: nat)
    requires a <= b <= |s| && IsAmount(s[a..b])
    ensures AmountAt(s, a).Some?
  {
    var m := s[a..b];
    var d := Seqs.FirstIndex(m, IsDot);
    assert forall t | 0 <= t < |m| :: m[t] == s[a + t];
    assert s[a + d] == '.';
    assert forall k | a <= k < a + d :: IsDigitOrComma(s[k]) by {
      forall k | a <= k < a + d
        ensures IsDigitOrComma(s[k])
      {
        assert s[k] == m[k - a];
      }
    }
    RunLength(s, a, d, IsDigitOrComma);
    assert IsDigit(s[a + d + 1]) by {
      assert s[a + d + 1] == m[d + 1];
    }
  }

  /** A run of `n` characters of the class that then stops is what `Run` measures. */
  lemma RunLength(s: string, i: nat, n: nat, cls: char -> bool)
    requires i + n <= |s|
    requires forall k | i <= k < i + n :: cls(s[k])
    requires i + n == |s| || !cls(s[i + n])
    ensures Run(s, i, cls) == n
  {
  }

  predicate IsDot(c: char)
  {
    c == '.'
  }

  lemma FirstIndexAt(m: string, j: nat)
    requires j < |m| && m[j] == '.'
    requires forall t | 0 <= t < j :: m[t] != '.'
    ensures Seqs.FirstIndex(m, IsDot) == j
  {
  }

  /** The strings `\d+[,\d]*\.\d+` matches in full: a digit, digits and commas, the first
      dot, and one or more digits. */
  predicate IsAmount(m: string)
  {
    var j := Seqs.FirstIndex(m, IsDot);
    && |m| >= 3
    && IsDigit(m[0])
    && j < |m| - 1
    && (forall t | 0 <= t < j :: IsDigitOrComma(m[t]))
    && (forall t | j < t < |m| :: IsDigit(m[t]))
  }

  /** A match of `\d{1,2} S \d{1,2} S \d{2,4}` at `i` (S a date separator). */
  function DayFirstAt(s: string, i: nat): (e: Option<nat>)
    requires i <= |s|
    ensures e.Some? ==> i < e.value <= |s|
  {
    var a := Digits(s, i, 2);
    var p := i + a;
    if a < 1 || p == |s| || !IsDateSeparator(s[p]) then None
    else
      var b := Digits(s, p + 1, 2);
      var q := p + 1 + b;
      if b < 1 || q == |s| || !IsDateSeparator(s[q]) then None
      else
        var c := Digits(s, q + 1, 4);
        if c < 2 then None else Some(q + 1 + c)
  }

  /** A match of `\d{2,4} S \d{1,2} S \d{1,2}` at `i`. */
  function YearFirstAt(s: string, i: nat): (e: Option<nat>)
    requires i <= |s|
    ensures e.Some? ==> i < e.value <= |s|
  {
    var a := Digits(s, i, 4);
    var p := i + a;
    if a < 2 || p == |s| || !IsDateSeparator(s[p]) then None
    else
      var b := Digits(s, p + 1, 2);
      var q := p + 1 + b;
      if b < 1 || q == |s| || !IsDateSeparator(s[q]) then None
      else
        var c := Digits(s, q + 1, 2);
        if c < 1 then None else Some(q + 1 + c)
  }

  /** Where a match of `p` that starts exactly at `i` ends, if there is one. */
  function MatchAt(p: Pattern, s: string, i: nat): (e: Option<nat>)
    requires i <= |s|
    ensures e.Some? ==> i < e.value <= |s|
  {
    match p
    case AmountPattern => AmountAt(s, i)
    case DayFirstDatePattern => DayFirstAt(s, i)
    case YearFirstDatePattern => YearFirstAt(s, i)
  }

  /** `re.findall(p, s[i:])`: the leftmost match, then the search goes on from its end. */
  function FindAll(p: Pattern, s: string, i: nat): (r: seq<string>)
    requires i <= |s|
    ensures |r| <= |s| - i
    decreases |s| - i
  {
    if i == |s| then []
    else
      match MatchAt(p, s, i)
      case Some(e) => [s[i..e]] + FindAll(p, s, e)
      case None => FindAll(p, s, i + 1)
  }

  /** `re.sub(p, repl, s[i:])`, with `repl` inserted literally. */
  function Sub(p: Pattern, s: string, repl: string, i: nat): (r: string)
    requires i <= |s|
    decreases |s| - i
  {
    if i == |s| then []
    else
      match MatchAt(p, s, i)
      case Some(e) => repl + Sub(p, s, repl, e)
      case None => [s[i]] + Sub(p, s, repl, i + 1)
  }

  predicate IsSubstring(m: string, s: string)
  {
    exists i, j | 0 <= i <= j <= |s| :: s[i..j] == m
  }

  /** Every amount `findall` returns has the amount shape and occurs in the text. */
  lemma {:induction false} FindAllAmounts(s: string, i: nat)
    requires i <= |s|
    ensures forall k | 0 <= k < |FindAll(AmountPattern, s, i)| ::
      IsAmount(FindAll(AmountPattern, s, i)[k]) && IsSubstring(FindAll(AmountPattern, s, i)[k], s)
    decreases |s| - i
  {
    if i < |s| {
      match MatchAt(AmountPattern, s, i)
      case Some(e) =>
        FindAllAmounts(s, e);
      case None =>
        FindAllAmounts(s, i + 1);
    }
  }

  /** `findall` finds something exactly when the pattern matches at some position:
      it is `re.search` succeeding. */
  lemma {:induction false} FindAllNonEmptyIffSearch(p: Pattern, s: string, i: nat)
    requires i <= |s|
    ensures FindAll(p, s, i) != [] <==> exists j | i <= j < |s| :: MatchAt(p, s, j).Some?
    decreases |s| - i
  {
    if i < |s| {
      var m := MatchAt(p, s, i);
      if m.Some? {
        assert FindAll(p, s, i) == [s[i..m.value]] + FindAll(p, s, m.value);
      } else {
        assert FindAll(p, s, i) == FindAll(p, s, i + 1);
        FindAllNonEmptyIffSearch(p, s, i + 1);
        forall j | i <= j < |s| && MatchAt(p, s, j).Some?
          ensures i + 1 <= j
        {
        }
      }
    }
  }

  /** Where `findall` finds nothing, `sub` changes nothing. */
  lemma {:induction false} SubWithoutMatch(p: Pattern, s: string, repl: string, i: nat)
    requires i <= |s|
    requires FindAll(p, s, i) == []
    ensures Sub(p, s, repl, i) == s[i..]
    decreases |s| - i
  {
    if i < |s| {
      assert MatchAt(p, s, i).None?;
      SubWithoutMatch(p, s, repl, i + 1);
      assert s[i..] == [s[i]] + s[i + 1..];
    }
  }

  /** `sub` and `findall` scan alike: deleting the matches removes exactly the characters of
      the matches `findall` reports. */
  lemma {:induction false} SubCountsMatches(p: Pattern, s: string, i: nat)
    requires i <= |s|
    ensures |Sub(p, s, [], i)| + SumLengths(FindAll(p, s, i)) == |s| - i
    decreases |s| - i
  {
    if i == |s| {
      assert Sub(p, s, [], i) == [] && FindAll(p, s, i) == [];
    } else if MatchAt(p, s, i).Some? {
      SubCountsMatches(p, s, MatchAt(p, s, i).value);
      MatchStep(p, s, i);
    } else {
      SubCountsMatches(p, s, i + 1);
      MissStep(p, s, i);
    }
  }

  /** A match at `i`: `sub` drops it and `findall` reports it. */
  lemma MatchStep(p: Pattern, s: string, i: nat)
    requires i < |s| && MatchAt(p, s, i).Some?
    requires var e := MatchAt(p, s, i).value;
      |Sub(p, s, [], e)| + SumLengths(FindAll(p, s, e)) == |s| - e
    ensures |Sub(p, s, [], i)| + SumLengths(FindAll(p, s, i)) == |s| - i
  {
    var e := MatchAt(p, s, i).value;
    var rest := FindAll(p, s, e);
    assert FindAll(p, s, i) == [s[i..e]] + rest;
    SumLengthsCons(s[i..e], rest);
    assert Sub(p, s, [], i) == [] + Sub(p, s, [], e);
  }

  /** No match at `i`: `sub` keeps the character and `findall` moves on. */
  lemma MissStep(p: Pattern, s: string, i: nat)
    requires i < |s| && MatchAt(p, s, i).None?
    requires |Sub(p, s, [], i + 1)| + SumLengths(FindAll(p, s, i + 1)) == |s| - (i + 1)
    ensures |Sub(p, s, [], i)| + SumLengths(FindAll(p, s, i)) == |s| - i
  {
    assert FindAll(p, s, i) == FindAll(p, s, i + 1);
    assert Sub(p, s, [], i) == [s[i]] + Sub(p, s, [], i + 1);
  }

  lemma SumLengthsCons(m: string, ms: seq<string>)
    ensures SumLengths([m] + ms) == |m| + SumLengths(ms)
  {
    assert ([m] + ms)[1..] == ms;
  }

  function SumLengths(ms: seq<string>): nat
  {
    if ms == [] then 0 else |ms[0]| + SumLengths(ms[1..])
  }
}
