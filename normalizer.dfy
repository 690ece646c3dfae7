/** `normalize(text, key)`: the canonical string form of a matched amount or date. */
module Normalizer {
  import opened Wrappers
  import opened Seqs
  import opened Dates
  import opened Patterns

  /** The date branch has no exception handler: a failure of the discovery routine reaches
      the caller. */
  datatype NormalizeError = DiscoveryFailed

  /** The amount branch: commas removed; then `.00` appended when there is no dot, and
      otherwise the part before the first dot, a dot, and at most two characters of the part
      after it (up to the next dot). */
  function NormalizeAmount(text: string): string
  {
    var t := Remove(text, ',');
    var splits := Split(t, IsDot);
    if |splits| == 1 then t + ".00" else splits[0] + "." + Take(splits[1], 2)
  }

  /** The two cases of the amount branch, read off the first dot of the comma-free text. */
  lemma NormalizeAmountCases(text: string)
    ensures var t := Remove(text, ',');
      var i := FirstIndex(t, IsDot);
      && (i == |t| ==> NormalizeAmount(text) == t + ".00")
      && (i < |t| ==> NormalizeAmount(text) == t[..i] + "." + FractionOf(t[i + 1..]))
  {
    var t := Remove(text, ',');
    var i := FirstIndex(t, IsDot);
    SplitHead(t, IsDot);
    if i < |t| {
      SplitHead(t[i + 1..], IsDot);
    }
  }

  /** What the fraction keeps of the text after the first dot: at most two characters, taken
      before any further dot. */
  function FractionOf(rest: string): string
  {
    Take(rest[..FirstIndex(rest, IsDot)], 2)
  }

  /** The dot-free case: the comma-free text with `.00` appended. */
  lemma NormalizeAmountWithoutDot(text: string)
    requires '.' !in text
    ensures NormalizeAmount(text) == Remove(text, ',') + ".00"
  {
    var t := Remove(text, ',');
    assert forall k | 0 <= k < |t| :: !IsDot(t[k]);
    NormalizeAmountCases(text);
  }

  /** The case with a dot: everything before the first dot, a dot, then the first two
      characters (fewer if there are fewer) of what lies between it and the next dot; the
      rest is dropped, and the fraction is never padded. */
  lemma NormalizeAmountWithDot(text: string)
    requires '.' in text
    ensures var t := Remove(text, ',');
      var i := FirstIndex(t, IsDot);
      var rest := t[i + 1..];
      && i < |t|
      && NormalizeAmount(text) == t[..i] + "." + Take(rest[..FirstIndex(rest, IsDot)], 2)
  {
    DotKept(text);
    NormalizeAmountCases(text);
  }

  /** Removing the commas keeps the dots. */
  lemma DotKept(text: string)
    requires '.' in text
    ensures FirstIndex(Remove(text, ','), IsDot) < |Remove(text, ',')|
  {
    var t := Remove(text, ',');
    var k :| 0 <= k < |text| && text[k] == '.';
    assert text[k] != ',';
    assert '.' in t;
    var j :| 0 <= j < |t| && t[j] == '.';
    assert IsDot(t[j]);
    assert FirstIndex(t, IsDot) <= j;
  }

  /** A normalised amount has no comma, one dot, and at most two characters after it. */
  lemma NormalizeAmountShape(text: string)
    ensures var r := NormalizeAmount(text);
      var i := FirstIndex(r, IsDot);
      ',' !in r && i < |r| && |r| - i - 1 <= 2 && '.' !in r[i + 1..]
  {
    var (a, b) := AmountParts(text);
    assert NormalizeAmount(text)[|a| + 1..] == b;
    DotJoin(a, b);
    NoCommaInJoin(a, b);
  }

  /** The two parts a normalised amount is made of, before and after its dot: neither holds
      a dot or a comma, and the second has at most two characters. */
  function AmountParts(text: string): (ab: (string, string))
    ensures Plain(ab.0) && Plain(ab.1) && |ab.1| <= 2
    ensures NormalizeAmount(text) == ab.0 + "." + ab.1
  {
    var t := Remove(text, ',');
    var i := FirstIndex(t, IsDot);
    NormalizeAmountCases(text);
    BeforeDotPlain(t);
    if i == |t| then
      assert t[..i] == t;
      (t, "00")
    else
      FractionPlain(t, i);
      (t[..i], FractionOf(t[i + 1..]))
  }

  /** What precedes the first dot of a comma-free text holds neither. */
  lemma BeforeDotPlain(t: string)
    requires ',' !in t
    ensures Plain(t[..FirstIndex(t, IsDot)])
  {
    var a := t[..FirstIndex(t, IsDot)];
    forall k | 0 <= k < |a|
      ensures a[k] != '.' && a[k] != ','
    {
      assert a[k] == t[k];
    }
  }

  /** The kept fraction of a comma-free text holds neither a dot nor a comma. */
  lemma FractionPlain(t: string, i: nat)
    requires ',' !in t && i < |t|
    ensures Plain(FractionOf(t[i + 1..])) && |FractionOf(t[i + 1..])| <= 2
  {
    var rest := t[i + 1..];
    var b := FractionOf(rest);
    forall k | 0 <= k < |b|
      ensures b[k] != '.' && b[k] != ','
    {
      assert b[k] == rest[k] == t[i + 1 + k];
    }
  }

  /** Neither a dot nor a comma occurs. */
  predicate Plain(s: string)
  {
    forall k | 0 <= k < |s| :: s[k] != '.' && s[k] != ','
  }

  /** Where the dot sits in `a + "." + b` for dot-free `a` and `b`, and how it splits. */
  lemma DotJoin(a: string, b: string)
    requires forall k | 0 <= k < |a| :: a[k] != '.'
    requires forall k | 0 <= k < |b| :: b[k] != '.'
    ensures var s := a + "." + b;
      && FirstIndex(s, IsDot) == |a|
      && Split(s, IsDot) == [a, b]
  {
    var s := a + "." + b;
    forall t | 0 <= t < |a|
      ensures s[t] != '.'
    {
      assert s[t] == a[t];
    }
    FirstIndexAt(s, |a|);
    SplitHead(s, IsDot);
    assert s[|a| + 1..] == b;
    assert forall k | 0 <= k < |b| :: !IsDot(b[k]);
    SplitHead(b, IsDot);
    assert s[..|a|] == a;
  }

  lemma NoCommaInJoin(a: string, b: string)
    requires Plain(a) && Plain(b)
    ensures ',' !in a + "." + b && Remove(a + "." + b, ',') == a + "." + b
  {
    var s := a + "." + b;
    forall k | 0 <= k < |s|
      ensures s[k] != ','
    {
      if k < |a| {
        assert s[k] == a[k];
      } else if k > |a| {
        assert s[k] == b[k - |a| - 1];
      }
    }
  }

  /** Normalising an amount twice gives what normalising it once gives. */
  lemma NormalizeAmountIdempotent(text: string)
    ensures NormalizeAmount(NormalizeAmount(text)) == NormalizeAmount(text)
  {
    var (a, b) := AmountParts(text);
    DotJoin(a, b);
    NoCommaInJoin(a, b);
  }

  /** `normalize(text, key)`.  `amount` is normalised as above; every other key is read as a
      date: the first non-future date discovered, as `MM-DD-YYYY`, or the text unchanged when
      there is none.  Unlike `parse` and `find`, a discovery failure is not caught. */
  function Normalize(text: string, key: string, engine: DateEngine): (r: Result<string, NormalizeError>)
    ensures key == "amount" ==> r == Ok(NormalizeAmount(text))
    ensures key != "amount" && engine.findDates(text).Failed? ==> r == Err(DiscoveryFailed)
    ensures key != "amount" && DateDetected(text, engine) ==> r == Ok(DateStrings(text, engine)[0])
    ensures key != "amount" && engine.findDates(text).Found? && !DateDetected(text, engine) ==>
      r == Ok(text)
  {
    if key == "amount" then Ok(NormalizeAmount(text))
    else
      match engine.findDates(text)
      case Failed => Err(DiscoveryFailed)
      case Found(dates) =>
        var matches := NotFuture(dates, engine.now);
        if matches != [] then Ok(Format(matches[0])) else Ok(text)
  }

  /** An amount with one dot, once its commas are gone: the part before the dot, the dot,
      and the first two characters after it. */
  lemma NormalizeOneDot(text: string, a: string, b: string)
    requires '.' !in a && '.' !in b
    requires Remove(text, ',') == a + "." + b
    ensures NormalizeAmount(text) == a + "." + Take(b, 2)
  {
    DotJoin(a, b);
  }
}
