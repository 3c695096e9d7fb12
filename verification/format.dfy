/** The formatting helpers the dashboard and the knowledge export share:
    `fmt_pace` and `fmt_date`, of which the two files carry identical
    copies, and the h/m/s split both `fmt_duration` variants use; with them
    the dashboard's own `parse_date`. */
module Format {
  import opened Wrappers
  import opened Text

  /** Hours, minutes and seconds of a non-negative number of seconds, as
      `seconds // 3600`, `(seconds % 3600) // 60` and `seconds % 60`. */
  function Hms(seconds: nat): (r: (nat, nat, nat))
    ensures r.0 * 3600 + r.1 * 60 + r.2 == seconds
    ensures r.1 < 60 && r.2 < 60
  {
    (seconds / 3600, (seconds % 3600) / 60, seconds % 60)
  }

  /** The split of `h * 3600 + m * 60 + s` gives the three parts back when
      the minutes and seconds are below 60. */
  lemma HmsOf(n: nat, h: nat, m: nat, s: nat)
    requires m < 60 && s < 60 && n == h * 3600 + m * 60 + s
    ensures Hms(n) == (h, m, s)
  {
    DivModOfSum(h, 3600, m * 60 + s);
    DivModOfSum(m, 60, s);
    assert n == (h * 60 + m) * 60 + s;
    DivModOfSum(h * 60 + m, 60, s);
  }

  /** A leading field as `str(v)` writes it: digits without a leading
      zero. */
  function ReadPlain(p: string): (r: Option<nat>)
    ensures r.Some? ==> p == NatToString(r.value)
  {
    match ParseNat(p)
    case Some(v) => if p == NatToString(v) then Some(v) else None
    case None => None
  }

  /** A minutes or seconds field as `f"{v:02d}"` writes it for `v < 60`:
      two digits, below 60. */
  function ReadSixty(p: string): (r: Option<nat>)
    ensures r.Some? ==> r.value < 60 && p == Pad2(r.value)
  {
    match ParseNat(p)
    case Some(v) => if v < 60 && p == Pad2(v) then Some(v) else None
    case None => None
  }

  lemma ReadPlainOf(v: nat)
    ensures ReadPlain(NatToString(v)) == Some(v)
  {
    NatToStringRoundTrip(v);
  }

  lemma ReadSixtyOf(v: nat)
    requires v < 60
    ensures ReadSixty(Pad2(v)) == Some(v)
  {
    Pad2Facts(v);
  }

  // ---------------------------------------------------------------------
  // fmt_pace
  // ---------------------------------------------------------------------

  /** `fmt_pace`: a pace in seconds per kilometre as `m'ss"`, or `--` when
      it is not positive. `int()` of a positive number is its floor. */
  function FmtPace(secondsPerKm: real): (r: string)
    ensures r == "--" <==> secondsPerKm <= 0.0
  {
    if secondsPerKm <= 0.0 then "--"
    else
      var n := secondsPerKm.Floor;
      var r := NatToString(n / 60) + "'" + Pad2(n % 60) + "\"";
      assert r[|NatToString(n / 60)|] == '\'';
      r
  }

  /** Reads a pace written as `m'ss"` back into whole seconds: the minutes
      without a leading zero, the seconds as two digits below 60. */
  function ParsePace(t: string): Option<int> {
    if |t| >= 5 && t[|t| - 1] == '"' && t[|t| - 4] == '\'' then
      match (ReadPlain(t[..|t| - 4]), ReadSixty(t[|t| - 3..|t| - 1]))
      case (Some(m), Some(s)) => Some(60 * m + s)
      case _ => None
    else None
  }

  /** A positive pace formats to minutes and two-digit seconds that add back
      up to its whole number of seconds. */
  lemma PaceRoundTrip(secondsPerKm: real)
    requires secondsPerKm > 0.0
    ensures ParsePace(FmtPace(secondsPerKm)) == Some(secondsPerKm.Floor)
  {
    var n := secondsPerKm.Floor;
    var m, s := n / 60, n % 60;
    var ms, ss := NatToString(m), Pad2(s);
    var t := ms + "'" + ss + "\"";
    assert FmtPace(secondsPerKm) == t;
    Pad2Facts(s);
    assert t[..|t| - 4] == ms;
    assert t[|t| - 3..|t| - 1] == ss;
    ReadPlainOf(m);
    ReadSixtyOf(s);
  }

  /** Only the text `fmt_pace` writes reads as a positive pace: whatever
      reads as `n > 0` seconds is exactly the text for `n` seconds. */
  lemma PaceReadsOnlyFormatted(t: string, n: int)
    requires ParsePace(t) == Some(n) && n > 0
    ensures FmtPace(n as real) == t
  {
    var ms, ss := t[..|t| - 4], t[|t| - 3..|t| - 1];
    var m, s := ReadPlain(ms).value, ReadSixty(ss).value;
    assert n == m * 60 + s;
    PaceShape(t);
    assert FmtPace(n as real) == NatToString(m) + "'" + Pad2(s) + "\"" by {
      DivModOfSum(m, 60, s);
      assert (n as real).Floor == n;
    }
  }

  /** A text ending in `'`, two characters and `"` is what stands before the
      `'`, the `'`, the two characters and the `"`. */
  lemma PaceShape(t: string)
    requires |t| >= 5 && t[|t| - 1] == '"' && t[|t| - 4] == '\''
    ensures t == t[..|t| - 4] + "'" + t[|t| - 3..|t| - 1] + "\""
  {
    var k := |t| - 4;
    assert t[k..] == [t[k]] + t[k + 1..k + 3] + [t[k + 3]];
    assert t == t[..k] + t[k..];
  }

  // ---------------------------------------------------------------------
  // fmt_date and parse_date
  // ---------------------------------------------------------------------

  /** `fmt_date`: `s[:4] + "-" + s[4:6] + "-" + s[6:]` of `s = str(d)`. */
  function FmtDate(d: int): string {
    var s := IntToString(d);
    Slice(s, 0, 4) + "-" + Slice(s, 4, 6) + "-" + Slice(s, 6, |s|)
  }

  datatype Date = Date(year: int, month: int, day: int)

  predicate IsLeapYear(y: int) {
    y % 4 == 0 && (y % 100 != 0 || y % 400 == 0)
  }

  function DaysInMonth(y: int, m: int): int
    requires 1 <= m <= 12
  {
    if m == 2 then (if IsLeapYear(y) then 29 else 28)
    else if m == 4 || m == 6 || m == 9 || m == 11 then 30
    else 31
  }

  /** What Python's `date(y, m, d)` accepts. */
  predicate ValidDate(y: int, m: int, d: int) {
    1 <= y <= 9999 && 1 <= m <= 12 && 1 <= d <= DaysInMonth(y, m)
  }

  /** `parse_date`: the same three slices of `str(d)` read as year, month and
      day; `None` where `int()` or `date()` raises `ValueError`. */
  function ParseDate(d: int): Option<Date> {
    var s := IntToString(d);
    match (ParseInt(Slice(s, 0, 4)), ParseInt(Slice(s, 4, 6)), ParseInt(Slice(s, 6, |s|)))
    case (Some(y), Some(m), Some(dd)) =>
      if ValidDate(y, m, dd) then Some(Date(y, m, dd)) else None
    case _ => None
  }

  lemma Pow10Values()
    ensures Pow10(2) == 100 && Pow10(3) == 1000 && Pow10(4) == 10000
    ensures Pow10(7) == 10000000 && Pow10(8) == 100000000
  {
    assert Pow10(1) == 10;
    assert Pow10(5) == 100000;
    assert Pow10(6) == 1000000;
  }

  /** A number between `10^(k-1)` and `10^k` is spelled with `k` digits. */
  lemma SpellingLength(n: nat, k: nat)
    requires 1 <= k && Pow10(k - 1) <= n < Pow10(k)
    ensures |NatToString(n)| == k
  {
    var s := NatToString(n);
    if |s| < k {
      Pow10Monotone(|s|, k - 1);
    } else if |s| > k {
      Pow10Monotone(k, |s| - 1);
    }
  }

  lemma EightDigitSpelling(d: int)
    requires 10000000 <= d <= 99999999
    ensures var s := IntToString(d); |s| == 8 && AllDigits(s) && DigitsValue(s) == d
  {
    Pow10Values();
    SpellingLength(d, 8);
    NatToStringRoundTrip(d);
  }

  lemma YearSlice(d: int)
    requires 10000000 <= d <= 99999999
    ensures |IntToString(d)| == 8
    ensures IntToString(d)[..4] == NatToString(d / 10000)
  {
    var s := IntToString(d);
    EightDigitSpelling(d);
    Pow10Values();
    DigitsSplit(s, 4);
    DivModOfSum(DigitsValue(s[..4]), 10000, DigitsValue(s[4..]));
    var y := d / 10000;
    assert 1000 <= y < 10000;
    SpellingLength(y, 4);
    NatToStringRoundTrip(y);
    DigitsInjective(s[..4], NatToString(y));
  }

  lemma MonthSlice(d: int)
    requires 10000000 <= d <= 99999999
    ensures |IntToString(d)| == 8
    ensures IntToString(d)[4..6] == Pad2(d / 100 % 100)
  {
    var s := IntToString(d);
    EightDigitSpelling(d);
    Pow10Values();
    var hi := s[..6];
    DigitsSplit(s, 6);
    DivModOfSum(DigitsValue(hi), 100, DigitsValue(s[6..]));
    assert d / 100 == DigitsValue(hi);
    DigitsSplit(hi, 4);
    assert hi[..4] == s[..4] && hi[4..] == s[4..6];
    DivModOfSum(DigitsValue(s[..4]), 100, DigitsValue(s[4..6]));
    var m := d / 100 % 100;
    assert DigitsValue(s[4..6]) == m;
    ZeroPadValue(m, 2);
    DigitsInjective(s[4..6], Pad2(m));
  }

  lemma DaySlice(d: int)
    requires 10000000 <= d <= 99999999
    ensures |IntToString(d)| == 8
    ensures IntToString(d)[6..] == Pad2(d % 100)
  {
    var s := IntToString(d);
    EightDigitSpelling(d);
    Pow10Values();
    DigitsSplit(s, 6);
    DivModOfSum(DigitsValue(s[..6]), 100, DigitsValue(s[6..]));
    ZeroPadValue(d % 100, 2);
    DigitsInjective(s[6..], Pad2(d % 100));
  }

  /** `fmt_date` of an eight-digit YYYYMMDD integer writes its year, month
      and day separated by dashes. */
  lemma FmtDateFields(d: int)
    requires 10000000 <= d <= 99999999
    ensures FmtDate(d) == NatToString(d / 10000) + "-" + Pad2(d / 100 % 100) + "-" + Pad2(d % 100)
  {
    EightDigitSpelling(d);
    YearSlice(d);
    MonthSlice(d);
    DaySlice(d);
  }

  /** `parse_date` of an eight-digit integer reads the same year, month and
      day, and fails exactly when they do not form a calendar date. */
  lemma ParseDateFields(d: int)
    requires 10000000 <= d <= 99999999
    ensures ParseDate(d) == if ValidDate(d / 10000, d / 100 % 100, d % 100)
      then Some(Date(d / 10000, d / 100 % 100, d % 100)) else None
  {
    var s := IntToString(d);
    var y, m, dd := d / 10000, d / 100 % 100, d % 100;
    YearSlice(d);
    MonthSlice(d);
    DaySlice(d);
    assert Slice(s, 0, 4) == NatToString(y);
    assert Slice(s, 4, 6) == Pad2(m);
    assert Slice(s, 6, |s|) == Pad2(dd);
    NatToStringRoundTrip(y);
    ZeroPadValue(m, 2);
    ZeroPadValue(dd, 2);
    assert ParseInt(NatToString(y)) == Some(y);
    assert ParseInt(Pad2(m)) == Some(m);
    assert ParseInt(Pad2(dd)) == Some(dd);
  }

  /** Every date from year 1000 on survives being written as YYYYMMDD and
      parsed back. */
  lemma ParseDateRoundTrip(dt: Date)
    requires ValidDate(dt.year, dt.month, dt.day) && 1000 <= dt.year
    ensures ParseDate(dt.year * 10000 + dt.month * 100 + dt.day) == Some(dt)
  {
    DateNumber(dt.year, dt.month, dt.day);
    ParseDateFields(dt.year * 10000 + dt.month * 100 + dt.day);
  }

  /** The YYYYMMDD number of a year from 1000 on has eight digits and gives
      back its three fields by division. */
  lemma DateNumber(y: int, m: int, dd: int)
    requires 1000 <= y <= 9999 && 1 <= m <= 12 && 1 <= dd <= 31
    ensures var d := y * 10000 + m * 100 + dd;
      10000000 <= d <= 99999999 && d / 10000 == y && d / 100 % 100 == m && d % 100 == dd
  {
    var md := m * 100 + dd;
    var d := y * 10000 + md;
    assert 0 <= md < 10000;
    assert 10000000 <= y * 10000 <= 99990000;
    DivModOfSum(y, 10000, md);
    var ym := y * 100 + m;
    assert y * 10000 == y * 100 * 100;
    assert d == ym * 100 + dd;
    DivModOfSum(ym, 100, dd);
    DivModOfSum(y, 100, m);
  }
}
