/** The date side of the text parser: Python's naive `datetime` values, the free-text date
    discovery routine and the clock, both injected, and `strftime('%m-%d-%Y')`. */
module Dates {
  import Seqs

  type Year = y: int | 1 <= y <= 9999 witness 1
  type Month = m: int | 1 <= m <= 12 witness 1
  type Day = d: int | 1 <= d <= 31 witness 1
  type Hour = h: int | 0 <= h < 24
  type Minute = m: int | 0 <= m < 60
  type Second = s: int | 0 <= s < 60
  type Microsecond = u: int | 0 <= u < 1000000

  /** A naive `datetime.datetime`. */
  datatype DateTime = DateTime(year: Year, month: Month, day: Day, hour: Hour, minute: Minute,
                               second: Second, microsecond: Microsecond)

  /** `a <= b` on naive datetimes: lexicographic on the fields. */
  predicate NotAfter(a: DateTime, b: DateTime)
  {
    if a.year != b.year then a.year < b.year
    else if a.month != b.month then a.month < b.month
    else if a.day != b.day then a.day < b.day
    else if a.hour != b.hour then a.hour < b.hour
    else if a.minute != b.minute then a.minute < b.minute
    else if a.second != b.second then a.second < b.second
    else a.microsecond <= b.microsecond
  }

  /** The comparison is a total order. */
  lemma NotAfterTotalOrder(a: DateTime, b: DateTime, c: DateTime)
    ensures NotAfter(a, a)
    ensures NotAfter(a, b) || NotAfter(b, a)
    ensures NotAfter(a, b) && NotAfter(b, a) ==> a == b
    ensures NotAfter(a, b) && NotAfter(b, c) ==> NotAfter(a, c)
  {
  }

  /** What collecting `datefinder.find_dates(text)` into a list and comparing each date with
      the clock gives: the dates in discovery order, or an exception. */
  datatype Discovery = Found(dates: seq<DateTime>) | Failed

  /** The two foreign collaborators of date classification: the discovery routine and the
      value `datetime.today()` returns. */
  datatype DateEngine = DateEngine(findDates: string -> Discovery, now: DateTime)

  /** `[date for date in dates if date <= now]`. */
  function NotFuture(dates: seq<DateTime>, now: DateTime): (r: seq<DateTime>)
    ensures |r| <= |dates|
    ensures forall i | 0 <= i < |r| :: r[i] in dates && NotAfter(r[i], now)
    ensures forall i | 0 <= i < |dates| && NotAfter(dates[i], now) :: dates[i] in r
    ensures r == [] <==> forall i | 0 <= i < |dates| :: !NotAfter(dates[i], now)
    ensures dates != [] && NotAfter(dates[0], now) ==> r[0] == dates[0]
  {
    if dates == [] then []
    else (if NotAfter(dates[0], now) then [dates[0]] else []) + NotFuture(dates[1..], now)
  }

  /** The filter keeps the order of the dates: filtering a concatenation filters each part. */
  lemma {:induction false} NotFutureAppend(a: seq<DateTime>, b: seq<DateTime>, now: DateTime)
    ensures NotFuture(a + b, now) == NotFuture(a, now) + NotFuture(b, now)
  {
    if a == [] {
      assert a + b == b;
    } else {
      var h := if NotAfter(a[0], now) then [a[0]] else [];
      assert a == [a[0]] + a[1..];
      assert a + b == [a[0]] + (a[1..] + b);
      NotFutureCons(a[0], a[1..] + b, now);
      NotFutureCons(a[0], a[1..], now);
      NotFutureAppend(a[1..], b, now);
      Seqs.ConcatAssoc(h, NotFuture(a[1..], now), NotFuture(b, now));
    }
  }

  /** One date in front: kept in front when it is not in the future. */
  lemma NotFutureCons(d: DateTime, rest: seq<DateTime>, now: DateTime)
    ensures NotFuture([d] + rest, now) == (if NotAfter(d, now) then [d] else []) + NotFuture(rest, now)
  {
    assert ([d] + rest)[1..] == rest;
  }

  /** The first date kept is the first date, in discovery order, that is not in the future. */
  lemma NotFutureFirst(dates: seq<DateTime>, now: DateTime)
    requires exists i | 0 <= i < |dates| :: NotAfter(dates[i], now)
    ensures NotFuture(dates, now) != []
    ensures exists i | 0 <= i < |dates| ::
      && NotFuture(dates, now)[0] == dates[i]
      && NotAfter(dates[i], now)
      && forall k | 0 <= k < i :: !NotAfter(dates[k], now)
  {
    var j :| 0 <= j < |dates| && NotAfter(dates[j], now);
    var i := Seqs.FirstIndex(dates, d => NotAfter(d, now));
    assert i <= j;
    NotFutureAt(dates, now, i);
  }

  /** Where every date before position `i` lies in the future and the one at `i` does not,
      the filter starts with the date at `i`. */
  lemma NotFutureAt(dates: seq<DateTime>, now: DateTime, i: nat)
    requires i < |dates| && NotAfter(dates[i], now)
    requires forall k | 0 <= k < i :: !NotAfter(dates[k], now)
    ensures NotFuture(dates, now) != [] && NotFuture(dates, now)[0] == dates[i]
  {
    FutureFrontDropped(dates, now, i);
    assert dates[i..][0] == dates[i];
  }

  /** Dates in the future at the front are all dropped. */
  lemma FutureFrontDropped(dates: seq<DateTime>, now: DateTime, i: nat)
    requires i <= |dates|
    requires forall k | 0 <= k < i :: !NotAfter(dates[k], now)
    ensures NotFuture(dates, now) == NotFuture(dates[i..], now)
  {
    var before, after := dates[..i], dates[i..];
    assert dates == before + after;
    NotFutureAppend(before, after, now);
    assert forall k | 0 <= k < |before| :: !NotAfter(before[k], now) by {
      forall k | 0 <= k < |before|
        ensures !NotAfter(before[k], now)
      {
        assert before[k] == dates[k];
      }
    }
    assert NotFuture(before, now) == [];
  }

  function DigitChar(d: int): char
    requires 0 <= d < 10
  {
    (48 + d) as char
  }

  function DigitValue(c: char): int
  {
    c as int - 48
  }

  predicate IsDigit(c: char)
  {
    '0' <= c <= '9'
  }

  /** `n` in decimal, zero-padded to `width` digits. */
  function Padded(n: nat, width: nat): (s: string)
    requires n < Power10(width)
    ensures |s| == width
    ensures forall i | 0 <= i < |s| :: IsDigit(s[i])
  {
    if width == 0 then [] else Padded(n / 10, width - 1) + [DigitChar(n % 10)]
  }

  function Power10(k: nat): (p: nat)
    ensures p >= 1
  {
    if k == 0 then 1 else 10 * Power10(k - 1)
  }

  /** The value of a string of decimal digits. */
  function DecimalValue(s: string): int
  {
    if s == [] then 0 else 10 * DecimalValue(s[..|s| - 1]) + DigitValue(Seqs.Last(s))
  }

  lemma {:induction false} PaddedValue(n: nat, width: nat)
    requires n < Power10(width)
    ensures DecimalValue(Padded(n, width)) == n
  {
    if width > 0 {
      PaddedValue(n / 10, width - 1);
      var s := Padded(n, width);
      assert s[..|s| - 1] == Padded(n / 10, width - 1);
    }
  }

  /** `date.strftime('%m-%d-%Y')`, with the year zero-padded to four digits. */
  function Format(d: DateTime): (s: string)
    ensures |s| == 10 && s[2] == '-' && s[5] == '-'
    ensures forall i | 0 <= i < 10 && i != 2 && i != 5 :: IsDigit(s[i])
  {
    Padded(d.month, 2) + "-" + Padded(d.day, 2) + "-" + Padded(d.year, 4)
  }

  /** Reads a `MM-DD-YYYY` string back as (month, day, year). */
  function Unformat(s: string): (int, int, int)
    requires |s| == 10
  {
    (DecimalValue(s[0..2]), DecimalValue(s[3..5]), DecimalValue(s[6..10]))
  }

  /** The formatted string keeps the calendar date: it can be read back exactly. */
  lemma FormatRoundTrip(d: DateTime)
    ensures Unformat(Format(d)) == (d.month as int, d.day as int, d.year as int)
  {
    var s := Format(d);
    assert s[0..2] == Padded(d.month, 2);
    assert s[3..5] == Padded(d.day, 2);
    assert s[6..10] == Padded(d.year, 4);
    PaddedValue(d.month, 2);
    PaddedValue(d.day, 2);
    PaddedValue(d.year, 4);
  }

  /** Two dates format the same exactly when they fall on the same calendar day. */
  lemma FormatSameDay(d: DateTime, e: DateTime)
    ensures Format(d) == Format(e) <==> (d.year, d.month, d.day) == (e.year, e.month, e.day)
  {
    FormatRoundTrip(d);
    FormatRoundTrip(e);
  }

  /** The date strings `find(text, 'date')` returns: the non-future discovered dates,
      formatted, in discovery order; nothing when discovery fails. */
  function DateStrings(text: string, engine: DateEngine): (r: seq<string>)
    ensures r != [] <==> DateDetected(text, engine)
    ensures forall i | 0 <= i < |r| :: |r[i]| == 10
  {
    match engine.findDates(text)
    case Failed => []
    case Found(dates) => FormatAll(NotFuture(dates, engine.now))
  }

  function FormatAll(dates: seq<DateTime>): (r: seq<string>)
    ensures |r| == |dates|
    ensures forall i | 0 <= i < |r| :: r[i] == Format(dates[i])
  {
    if dates == [] then [] else [Format(dates[0])] + FormatAll(dates[1..])
  }

  /** `parse(text, 'date')`: some discovered date is not later than now. */
  predicate DateDetected(text: string, engine: DateEngine)
  {
    match engine.findDates(text)
    case Failed => false
    case Found(dates) => NotFuture(dates, engine.now) != []
  }

  /** A text whose only discovered date is 2021-09-01: with the clock at 2021-08-01 the date
      lies in the future and nothing is detected; with the clock at 2021-09-02 it is detected. */
  lemma ClockExample(text: string)
    ensures var d := DateTime(2021, 9, 1, 0, 0, 0, 0);
      && !DateDetected(text, DateEngine(_ => Found([d]), DateTime(2021, 8, 1, 0, 0, 0, 0)))
      && DateDetected(text, DateEngine(_ => Found([d]), DateTime(2021, 9, 2, 0, 0, 0, 0)))
  {
  }
}
