/** Calendar values as Python's `datetime` holds them, the `%d/%m/%Y` parser the
    scraper applies to dates, and the fixed `%Y-%m-%dT%H:%M:%S+10:00` rendering
    of timestamps in stored rows. */
module Dates {
  import opened Strings
  import opened Wrappers

  datatype Moment = Moment(year: int, month: int, day: int, hour: int, minute: int, second: int)

  predicate IsLeapYear(y: int) {
    y % 4 == 0 && (y % 100 != 0 || y % 400 == 0)
  }

  function DaysInMonth(year: int, month: int): int {
    if month == 2 then (if IsLeapYear(year) then 29 else 28)
    else if month == 4 || month == 6 || month == 9 || month == 11 then 30
    else 31
  }

  /** The range `datetime` accepts: years 1 to 9999 and a real calendar day. */
  predicate ValidMoment(m: Moment) {
    1 <= m.year <= 9999 && 1 <= m.month <= 12 && 1 <= m.day <= DaysInMonth(m.year, m.month) &&
    0 <= m.hour < 24 && 0 <= m.minute < 60 && 0 <= m.second < 60
  }

  /** A Python `datetime` value (without microseconds, which no rendering here shows). */
  type DateTime = m: Moment | ValidMoment(m) witness Moment(1970, 1, 1, 0, 0, 0)

  predicate IsMidnight(m: Moment) { m.hour == 0 && m.minute == 0 && m.second == 0 }

  // ---------- %d/%m/%Y ----------

  /** A day or month field as `strptime` accepts it: one digit, or two digits
      (possibly with a leading zero). */
  function NumberField(n: nat, width: nat): string
    requires width == 1 || width == 2
    requires n < Pow10(width)
  {
    if width == 1 then ShowNat(n) else ZeroPad(n, 2)
  }

  /** `datetime.strptime(s, '%d/%m/%Y')`: a one- or two-digit day, '/', a one- or
      two-digit month, '/', a four-digit year, and nothing else; the result must be
      a real calendar date. `None` stands for the `ValueError` it raises otherwise. */
  function ParseDate(s: string): (r: Option<DateTime>)
    ensures r.Some? ==> IsMidnight(r.value)
  {
    var dl := if |s| > 1 && s[1] == '/' then 1 else 2;
    var ml := if |s| > dl + 2 && s[dl + 2] == '/' then 1 else 2;
    if |s| == dl + ml + 6 && AllDigits(s[..dl]) && s[dl] == '/' &&
       AllDigits(s[dl + 1..dl + 1 + ml]) && s[dl + 1 + ml] == '/' && AllDigits(s[dl + 2 + ml..])
    then
      var m := Moment(DigitsValue(s[dl + 2 + ml..]), DigitsValue(s[dl + 1..dl + 1 + ml]),
                      DigitsValue(s[..dl]), 0, 0, 0);
      if ValidMoment(m) then Some(m) else None
    else None
  }

  /** A fixed-width digit string is the zero-padded rendering of its value. */
  lemma {:induction false} DigitsAreZeroPad(t: string)
    requires AllDigits(t)
    ensures DigitsValue(t) < Pow10(|t|)
    ensures ZeroPad(DigitsValue(t), |t|) == t
    decreases |t|
  {
    if t != [] {
      var init := t[..|t| - 1];
      DigitsAreZeroPad(init);
      var n := DigitsValue(t);
      assert n / 10 == DigitsValue(init) && n % 10 == DigitValue(t[|t| - 1]);
      assert DigitChar(n % 10) == t[|t| - 1];
      assert init + [t[|t| - 1]] == t;
    }
  }

  /** A one- or two-digit field is the `NumberField` rendering of its value. */
  lemma FieldIsNumberField(t: string)
    requires AllDigits(t) && (|t| == 1 || |t| == 2)
    ensures DigitsValue(t) < Pow10(|t|) && NumberField(DigitsValue(t), |t|) == t
  {
    DigitsAreZeroPad(t);
    if |t| == 1 {
      assert t[..0] == [];
      assert ShowNat(DigitsValue(t)) == [DigitChar(DigitsValue(t))];
    }
  }

  /** A text with '/' at the two separator positions is its three fields joined by '/'. */
  lemma SplitDate(s: string, dl: nat, ml: nat)
    requires dl + ml + 2 <= |s| && s[dl] == '/' && s[dl + 1 + ml] == '/'
    ensures s == s[..dl] + "/" + s[dl + 1..dl + 1 + ml] + "/" + s[dl + 2 + ml..]
  {
    var rest := s[dl + 1..];
    assert s == s[..dl] + [s[dl]] + rest;
    assert rest == rest[..ml] + [rest[ml]] + rest[ml + 1..];
    assert rest[..ml] == s[dl + 1..dl + 1 + ml] && rest[ml + 1..] == s[dl + 2 + ml..];
  }

  /** Every date text the parser accepts is the date written with some choice of
      one- or two-digit day and month fields and a four-digit year. */
  lemma ParseDateSound(s: string)
    requires ParseDate(s).Some?
    ensures var d := ParseDate(s).value;
            exists dl, ml :: (dl == 1 || dl == 2) && (ml == 1 || ml == 2) &&
              d.day < Pow10(dl) && d.month < Pow10(ml) &&
              s == NumberField(d.day, dl) + "/" + NumberField(d.month, ml) + "/" + ZeroPad(d.year, 4)
  {
    var d := ParseDate(s).value;
    var dl := if |s| > 1 && s[1] == '/' then 1 else 2;
    var ml := if |s| > dl + 2 && s[dl + 2] == '/' then 1 else 2;
    var ds, ms, ys := s[..dl], s[dl + 1..dl + 1 + ml], s[dl + 2 + ml..];
    assert d.day == DigitsValue(ds) && d.month == DigitsValue(ms) && d.year == DigitsValue(ys);
    FieldIsNumberField(ds);
    FieldIsNumberField(ms);
    DigitsAreZeroPad(ys);
    SplitDate(s, dl, ml);
  }

  /** Where the three fields and the two separators of a written date lie. */
  lemma DateParts(ds: string, ms: string, ys: string)
    ensures var s, dl, ml := ds + "/" + ms + "/" + ys, |ds|, |ms|;
            |s| == dl + ml + 2 + |ys| && s[..dl] == ds && s[dl] == '/' &&
            s[dl + 1..dl + 1 + ml] == ms && s[dl + 1 + ml] == '/' && s[dl + 2 + ml..] == ys
  {
    var s, dl, ml := ds + "/" + ms + "/" + ys, |ds|, |ms|;
    assert s == ds + (['/'] + ms + ['/'] + ys);
    assert s[dl + 1..] == ms + (['/'] + ys);
    assert s[dl + 1..dl + 1 + ml] == s[dl + 1..][..ml];
  }

  /** Every calendar date written day/month/year with two-digit (or, below ten,
      one-digit) day and month and a four-digit year parses back to itself. */
  lemma ParseDateComplete(d: DateTime, dl: nat, ml: nat)
    requires IsMidnight(d)
    requires (dl == 1 || dl == 2) && (ml == 1 || ml == 2)
    requires d.day < Pow10(dl) && d.month < Pow10(ml)
    ensures ParseDate(NumberField(d.day, dl) + "/" + NumberField(d.month, ml) + "/" + ZeroPad(d.year, 4)) == Some(d)
  {
    var ds, ms, ys := NumberField(d.day, dl), NumberField(d.month, ml), ZeroPad(d.year, 4);
    if dl == 1 { assert ShowNat(d.day) == [DigitChar(d.day)]; }
    if ml == 1 { assert ShowNat(d.month) == [DigitChar(d.month)]; }
    var s := ds + "/" + ms + "/" + ys;
    assert |ds| == dl && |ms| == ml;
    DateParts(ds, ms, ys);
    assert dl == 2 ==> s[1] != '/';
    assert ml == 2 ==> s[dl + 2] != '/';
  }

  // ---------- %Y-%m-%dT%H:%M:%S+10:00 ----------

  /** The fixed offset every stored timestamp carries. */
  const Offset: string := "+10:00"

  /** `strftime('%Y-%m-%dT%H:%M:%S+10:00')` with zero-padded components. */
  function FormatTimestamp(t: DateTime): (r: string)
    ensures |r| == 25 && r[19..] == Offset
  {
    ZeroPad(t.year, 4) + "-" + ZeroPad(t.month, 2) + "-" + ZeroPad(t.day, 2) + "T" +
    ZeroPad(t.hour, 2) + ":" + ZeroPad(t.minute, 2) + ":" + ZeroPad(t.second, 2) + Offset
  }

  /** The inverse of `FormatTimestamp`: reads a timestamp back from its stored text. */
  function ParseTimestamp(s: string): Option<DateTime>
  {
    if |s| == 25 && s[4] == '-' && s[7] == '-' && s[10] == 'T' && s[13] == ':' && s[16] == ':' &&
       s[19..] == Offset && AllDigits(s[..4]) && AllDigits(s[5..7]) && AllDigits(s[8..10]) &&
       AllDigits(s[11..13]) && AllDigits(s[14..16]) && AllDigits(s[17..19])
    then
      var m := Moment(DigitsValue(s[..4]), DigitsValue(s[5..7]), DigitsValue(s[8..10]),
                      DigitsValue(s[11..13]), DigitsValue(s[14..16]), DigitsValue(s[17..19]));
      if ValidMoment(m) then Some(m) else None
    else None
  }

  /** Reading a rendered timestamp gives back the moment it was rendered from, so
      distinct moments are stored as distinct texts. */
  lemma FormatTimestampRoundTrip(t: DateTime)
    ensures ParseTimestamp(FormatTimestamp(t)) == Some(t)
  {
    var s := FormatTimestamp(t);
    assert s[..4] == ZeroPad(t.year, 4);
    assert s[5..7] == ZeroPad(t.month, 2);
    assert s[8..10] == ZeroPad(t.day, 2);
    assert s[11..13] == ZeroPad(t.hour, 2);
    assert s[14..16] == ZeroPad(t.minute, 2);
    assert s[17..19] == ZeroPad(t.second, 2);
  }

  /** Every text `ParseTimestamp` accepts is the rendering of what it reads. */
  lemma ParseTimestampSound(s: string)
    requires ParseTimestamp(s).Some?
    ensures FormatTimestamp(ParseTimestamp(s).value) == s
  {
    DigitsAreZeroPad(s[..4]);
    DigitsAreZeroPad(s[5..7]);
    DigitsAreZeroPad(s[8..10]);
    DigitsAreZeroPad(s[11..13]);
    DigitsAreZeroPad(s[14..16]);
    DigitsAreZeroPad(s[17..19]);
    assert s == s[..4] + "-" + s[5..7] + "-" + s[8..10] + "T" + s[11..13] + ":" + s[14..16] + ":" + s[17..19] + s[19..];
  }
}
