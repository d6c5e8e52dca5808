/** Instants, and the text the meter stores and compares for them. An instant counts
    nanoseconds from 0000-01-01T00:00:00Z; earlier instants are negative. */
module Timestamp {
  import opened Wrappers
  import opened Calendar
  import opened Text

  type Instant = int

  const SECOND: int := 1_000_000_000
  const DAY: int := 86400

  /** Whole seconds, floored: what survives a layout without fractions. */
  function Seconds(t: Instant): int {
    t / SECOND
  }

  function DateOf(t: Instant): (d: Date)
    ensures Valid(d)
  {
    CivilHolds(Seconds(t) / DAY);
    CivilFromDays(Seconds(t) / DAY)
  }

  function Year(t: Instant): int {
    DateOf(t).year
  }

  /** time.Time formats years 0 to 9999 in four digits, later ones in as many as they
      need, and earlier ones after a minus sign. */
  function YearText(y: int): string
    decreases y < 0
  {
    if y < 0 then "-" + YearText(-y)
    else if y < 10000 then Pad(y, 4)
    else Decimal(y)
  }

  /** Month, day, hour, minute and second. */
  function Fields(t: Instant): (f: seq<nat>)
    ensures |f| == 5 && forall k :: 0 <= k < 5 ==> f[k] < 100
  {
    var d, sod := DateOf(t), Seconds(t) % DAY;
    CivilHolds(Seconds(t) / DAY);
    [d.month, d.day, sod / 3600, sod % 3600 / 60, sod % 60]
  }

  function FieldText(f: seq<nat>, separators: string): string
    requires |f| <= |separators|
  {
    if f == [] then "" else Pad(f[0], 2) + ([separators[0]] + FieldText(f[1..], separators[1..]))
  }

  /** t.UTC().Format(time.RFC3339). */
  function Format(t: Instant): string {
    YearText(Year(t)) + ("-" + FieldText(Fields(t), "-T::Z"))
  }

  /** The first instant of year 10000. */
  const YEAR_10000: Instant := 3652425 * DAY * SECOND

  /** The instants whose year RFC 3339 can write. */
  predicate FourDigitYear(t: Instant) {
    0 <= t < YEAR_10000
  }

  ghost predicate OrderAgrees(a: Instant, b: Instant) {
    && (Less(Format(a), Format(b)) <==> Seconds(a) < Seconds(b))
    && (Format(a) == Format(b) <==> Seconds(a) == Seconds(b))
  }

  predicate FieldsLess(a: seq<nat>, b: seq<nat>)
    requires |a| == |b|
  {
    a != [] && (a[0] < b[0] || (a[0] == b[0] && FieldsLess(a[1..], b[1..])))
  }

  lemma {:induction false} FieldTextOrder(a: seq<nat>, b: seq<nat>, separators: string)
    requires |a| == |b| <= |separators|
    requires forall k :: 0 <= k < |a| ==> a[k] < 100 && b[k] < 100
    ensures Less(FieldText(a, separators), FieldText(b, separators)) <==> FieldsLess(a, b)
    ensures FieldText(a, separators) == FieldText(b, separators) <==> a == b
  {
    if a != [] {
      FieldTextOrder(a[1..], b[1..], separators[1..]);
      assert Pow10(2) == 10 * Pow10(1);
      PadMonotone(a[0], b[0], 2);
      FieldThenRest(Pad(a[0], 2), Pad(b[0], 2), separators[0],
                    FieldText(a[1..], separators[1..]), FieldText(b[1..], separators[1..]));
      assert a == [a[0]] + a[1..] && b == [b[0]] + b[1..];
    } else {
      assert b == [];
    }
  }

  /** Instants are ordered by second as their year and fields are. */
  lemma FieldsOrder(a: Instant, b: Instant)
    ensures Seconds(a) < Seconds(b) <==>
            Year(a) < Year(b) || (Year(a) == Year(b) && FieldsLess(Fields(a), Fields(b)))
    ensures Seconds(a) == Seconds(b) <==> Year(a) == Year(b) && Fields(a) == Fields(b)
  {
    var m, n := Seconds(a) / DAY, Seconds(b) / DAY;
    var c, d := Seconds(a) % DAY, Seconds(b) % DAY;
    CivilMonotone(m, n);
    ClockOrder(c, d);
    var f, g := Fields(a), Fields(b);
    assert f[1..][0] == f[1] && g[1..][0] == g[1];
    assert f[1..][1..] == ClockFields(c) && g[1..][1..] == ClockFields(d);
    if m == n && c == d { assert f == g; }
    if f == g { assert f[0] == g[0] && f[1] == g[1] && f[1..][1..] == g[1..][1..]; }
  }

  function ClockFields(sod: nat): seq<nat> {
    [sod / 3600, sod % 3600 / 60, sod % 60]
  }

  lemma ClockOrder(c: nat, d: nat)
    requires c < DAY && d < DAY
    ensures c < d <==> FieldsLess(ClockFields(c), ClockFields(d))
    ensures c == d <==> ClockFields(c) == ClockFields(d)
  {
    var f, g := ClockFields(c), ClockFields(d);
    assert c == 3600 * f[0] + 60 * f[1] + f[2] && f[1] < 60 && f[2] < 60;
    assert d == 3600 * g[0] + 60 * g[1] + g[2] && g[1] < 60 && g[2] < 60;
    var f1, g1 := f[1..], g[1..];
    var f2, g2 := f1[1..], g1[1..];
    assert FieldsLess(f2, g2) <==> f[2] < g[2];
    assert FieldsLess(f1, g1) <==> f[1] < g[1] || (f[1] == g[1] && FieldsLess(f2, g2));
  }

  /** A year starts with its first day. */
  lemma YearStarts(t: Instant, y: int)
    ensures Year(t) >= y <==> t >= DaysBeforeYear(y) * (DAY * SECOND)
  {
    CivilHolds(Seconds(t) / DAY);
    hide CivilFromDays, DaysBeforeYear;
    var d := DateOf(t);
    WithinYear(d);
    if d.year < y { YearsGrow(d.year, y); }
    if y < d.year { YearsGrow(y, d.year); }
    assert Seconds(t) / DAY >= DaysBeforeYear(y) <==> t >= DaysBeforeYear(y) * (DAY * SECOND);
  }

  /** The bounds are those of the years 0 to 9999. */
  lemma FourDigitYearMeans(t: Instant)
    ensures t >= 0 <==> Year(t) >= 0
    ensures t < YEAR_10000 <==> Year(t) <= 9999
  {
    YearStarts(t, 0);
    YearStarts(t, 10000);
    assert DaysBeforeYear(10000) == 3652425 && DaysBeforeYear(0) == 0;
  }

  /** Text order is time order to the second, for all instants with four-digit years. */
  lemma TextOrder(a: Instant, b: Instant)
    requires FourDigitYear(a) && FourDigitYear(b)
    ensures OrderAgrees(a, b)
  {
    FourDigitYearMeans(a);
    FourDigitYearMeans(b);
    FourDigits(Year(a), Year(b));
    FieldTextOrder(Fields(a), Fields(b), "-T::Z");
    FieldThenRest(Pad(Year(a), 4), Pad(Year(b), 4), '-',
                  FieldText(Fields(a), "-T::Z"), FieldText(Fields(b), "-T::Z"));
    FieldsOrder(a, b);
  }

  lemma FourDigits(m: nat, n: nat)
    requires m < 10000 && n < 10000
    ensures Less(Pad(m, 4), Pad(n, 4)) <==> m < n
    ensures Pad(m, 4) == Pad(n, 4) <==> m == n
  {
    assert Pow10(4) == 10 * Pow10(3) && Pow10(3) == 10 * Pow10(2) && Pow10(2) == 10 * Pow10(1);
    PadMonotone(m, n, 4);
  }

  lemma TwoDigitValue(n: nat)
    requires n < 100
    ensures (forall k :: 0 <= k < 2 ==> IsDigit(Pad(n, 2)[k])) && Value(Pad(n, 2)) == n
  {
    assert Pow10(2) == 10 * Pow10(1);
    PadValue(n, 2);
  }

  lemma FourDigitValue(n: nat)
    requires n < 10000
    ensures (forall k :: 0 <= k < 4 ==> IsDigit(Pad(n, 4)[k])) && Value(Pad(n, 4)) == n
  {
    assert Pow10(4) == 10 * Pow10(3) && Pow10(3) == 10 * Pow10(2) && Pow10(2) == 10 * Pow10(1);
    PadValue(n, 4);
  }

  // ---------- the clock ----------

  /** One second later: seconds and minutes run to 59 and hours to 23, and the second after
      23:59:59 is midnight of the next day. */
  lemma ClockSuccessor(t: Instant)
    ensures var f, g := Fields(t), Fields(t + 1_000_000_000);
            var d, e := DateOf(t), DateOf(t + 1_000_000_000);
            && f[2] < 24 && f[3] < 60 && f[4] < 60
            && if f[4] < 59 then e == d && g[2] == f[2] && g[3] == f[3] && g[4] == f[4] + 1
               else if f[3] < 59 then e == d && g[2] == f[2] && g[3] == f[3] + 1 && g[4] == 0
               else if f[2] < 23 then e == d && g[2] == f[2] + 1 && g[3] == 0 && g[4] == 0
               else e == NextDay(d) && g[2] == 0 && g[3] == 0 && g[4] == 0
  {
    hide CivilFromDays, NextDay, DateOf, Fields;
    var s := Seconds(t);
    assert Seconds(t + 1_000_000_000) == s + 1;
    ClockOf(t);
    ClockOf(t + 1_000_000_000);
    DaysTick(s);
    FieldsTick(s % 86400);
    if s % 86400 == 86399 { CivilSuccessor(s / 86400); }
  }

  /** An hour has 3600 seconds and a day 86400. */
  lemma ClockOf(t: Instant)
    ensures var f, c := Fields(t), Seconds(t) % 86400;
            && DateOf(t) == CivilFromDays(Seconds(t) / 86400)
            && f[0] == DateOf(t).month && f[1] == DateOf(t).day
            && f[2] == c / 3600 && f[3] == c % 3600 / 60 && f[4] == c % 60
  {
    hide CivilFromDays;
  }

  lemma DaysTick(s: int)
    ensures if s % 86400 == 86399 then (s + 1) % 86400 == 0 && (s + 1) / 86400 == s / 86400 + 1
            else (s + 1) % 86400 == s % 86400 + 1 && (s + 1) / 86400 == s / 86400
  {
  }

  lemma FieldsTick(c: nat)
    requires c < 86400
    ensures c / 3600 < 24 && c % 3600 / 60 < 60
    ensures c == 86399 <==> c / 3600 == 23 && c % 3600 / 60 == 59 && c % 60 == 59
    ensures c % 60 < 59 ==>
              (c + 1) / 3600 == c / 3600 && (c + 1) % 3600 / 60 == c % 3600 / 60 && (c + 1) % 60 == c % 60 + 1
    ensures c % 60 == 59 && c % 3600 / 60 < 59 ==>
              (c + 1) / 3600 == c / 3600 && (c + 1) % 3600 / 60 == c % 3600 / 60 + 1 && (c + 1) % 60 == 0
    ensures c % 60 == 59 && c % 3600 / 60 == 59 ==>
              (c + 1) / 3600 == c / 3600 + 1 && (c + 1) % 3600 / 60 == 0 && (c + 1) % 60 == 0
  {
    var h, m, x := PartsOf(c);
    if x < 59 {
      ClockParts(c + 1, h, m, x + 1);
    } else if m < 59 {
      ClockParts(c + 1, h, m + 1, 0);
    } else {
      ClockParts(c + 1, h + 1, 0, 0);
    }
  }

  lemma PartsOf(c: nat) returns (h: nat, m: nat, x: nat)
    ensures h == c / 3600 && m == c % 3600 / 60 < 60 && x == c % 60
    ensures c == 3600 * h + 60 * m + x
  {
    h, m, x := c / 3600, c % 3600 / 60, c % 60;
  }

  lemma ClockParts(c: nat, h: nat, m: nat, x: nat)
    requires m < 60 && x < 60 && c == 3600 * h + 60 * m + x
    ensures c / 3600 == h && c % 3600 / 60 == m && c % 60 == x
  {
    assert c / 3600 == h && c % 3600 == 60 * m + x;
    assert c == 60 * (60 * h + m) + x;
  }

  /** The clock starts at midnight of 0000-01-01. */
  lemma ClockStart()
    ensures DateOf(0) == Date(0, 1, 1) && Fields(0) == [1, 1, 0, 0, 0]
  {
    hide CivilFromDays, DateOf, Fields;
    ClockOf(0);
    assert Seconds(0) == 0 && 0 / 86400 == 0;
    CivilStart();
    assert Fields(0) == [Fields(0)[0], Fields(0)[1], Fields(0)[2], Fields(0)[3], Fields(0)[4]];
  }

  /** What is left of a second is dropped. */
  lemma FractionIsDropped(t: Instant, u: Instant)
    requires t / 1_000_000_000 == u / 1_000_000_000
    ensures Format(t) == Format(u)
  {
    hide CivilFromDays, FieldText;
    assert Seconds(t) == Seconds(u);
    assert DateOf(t) == DateOf(u) && Fields(t) == Fields(u);
  }

  // ---------- the text ----------

  /** The number two digits spell. */
  function Two(s: string, k: nat): int
    requires k + 2 <= |s|
  {
    10 * (s[k] as int - 48) + (s[k + 1] as int - 48)
  }

  /** The stored text, character by character: the year, then -MM-DDThh:mm:ssZ. */
  lemma FormatSpells(t: Instant)
    ensures var y, d, f := YearText(DateOf(t).year), DateOf(t), Fields(t);
            var u := Format(t)[|y|..];
            && |Format(t)| == |y| + 16 && Format(t)[..|y|] == y
            && u[0] == '-' && u[3] == '-' && u[6] == 'T' && u[9] == ':' && u[12] == ':' && u[15] == 'Z'
            && (forall k :: 0 <= k < 15 && k !in {0, 3, 6, 9, 12} ==> '0' <= u[k] <= '9')
            && Two(u, 1) == d.month && Two(u, 4) == d.day
            && Two(u, 7) == f[2] && Two(u, 10) == f[3] && Two(u, 13) == f[4]
  {
    hide DateOf, YearText;
    var f, y := Fields(t), YearText(Year(t));
    FiveFields(f);
    assert f[0] == DateOf(t).month && f[1] == DateOf(t).day;
    var tail := FieldText(f, "-T::Z");
    assert Format(t) == y + ("-" + tail);
    hide FieldText, Fields, Format;
    assert Format(t)[|y|..] == "-" + tail;
    assert forall k :: 0 <= k < 15 ==> ("-" + tail)[k + 1] == tail[k];
  }

  /** The year: four digits when they are enough, more when there is need for them, and a
      minus sign in front of a negative one. */
  lemma YearSpells(y: int)
    ensures 0 <= y < 10000 ==>
              && |YearText(y)| == 4 && (forall k :: 0 <= k < 4 ==> '0' <= YearText(y)[k] <= '9')
              && 100 * Two(YearText(y), 0) + Two(YearText(y), 2) == y
    ensures y >= 10000 ==>
              && (forall k :: 0 <= k < |YearText(y)| ==> '0' <= YearText(y)[k] <= '9')
              && Value(YearText(y)) == y && YearText(y)[0] != '0'
    ensures y < 0 ==> YearText(y) != "" && YearText(y)[0] == '-' && YearText(y)[1..] == YearText(0 - y)
  {
    if 0 <= y < 10000 {
      FourDigitsSpell(y);
    } else if y >= 10000 {
      DecimalValue(y);
      DecimalLeads(y);
    }
  }

  lemma FourDigitsSpell(y: nat)
    requires y < 10000
    ensures (forall k :: 0 <= k < 4 ==> '0' <= Pad(y, 4)[k] <= '9')
    ensures 100 * Two(Pad(y, 4), 0) + Two(Pad(y, 4), 2) == y
  {
    hide Pad;
    PadStep(y, 4);
    PadStep(y / 10, 3);
    PadStep(y / 10 / 10, 2);
    PadStep(y / 10 / 10 / 10, 1);
    var s := Pad(y, 4);
    assert s[2] == s[..3][2] && s[1] == s[..3][..2][1] && s[0] == s[..3][..2][..1][0];
    assert y / 10 / 10 == y / 100 && y / 10 / 10 / 10 == y / 1000 < 10;
  }

  lemma TwoDigitsSpell(n: nat)
    requires n < 100
    ensures (forall k :: 0 <= k < 2 ==> '0' <= Pad(n, 2)[k] <= '9') && Two(Pad(n, 2), 0) == n
  {
    hide Pad;
    PadStep(n, 2);
    PadStep(n / 10, 1);
    assert Pad(n, 2)[0] == Pad(n, 2)[..1][0];
  }

  lemma FiveFields(f: seq<nat>)
    requires |f| == 5 && forall k :: 0 <= k < 5 ==> f[k] < 100
    ensures var s := FieldText(f, "-T::Z");
            && |s| == 15 && s[2] == '-' && s[5] == 'T' && s[8] == ':' && s[11] == ':' && s[14] == 'Z'
            && (forall k :: 0 <= k < 14 && k !in {2, 5, 8, 11} ==> '0' <= s[k] <= '9')
            && Two(s, 0) == f[0] && Two(s, 3) == f[1] && Two(s, 6) == f[2] && Two(s, 9) == f[3] && Two(s, 12) == f[4]
  {
    var p := seq(5, k requires 0 <= k < 5 => Pad(f[k], 2));
    forall k | 0 <= k < 5
      ensures (forall j :: 0 <= j < 2 ==> '0' <= p[k][j] <= '9') && |p[k]| == 2 && Two(p[k], 0) == f[k]
    {
      TwoDigitsSpell(f[k]);
    }
    FieldTextIs(f);
    hide FieldText, Pad;
  }

  lemma FieldTextIs(f: seq<nat>)
    requires |f| == 5
    ensures FieldText(f, "-T::Z") ==
            Pad(f[0], 2) + "-" + Pad(f[1], 2) + "T" + Pad(f[2], 2) + ":" + Pad(f[3], 2) + ":" + Pad(f[4], 2) + "Z"
  {
    hide Pad;
    assert "-T::Z"[1..] == "T::Z" && "T::Z"[1..] == "::Z" && "::Z"[1..] == ":Z" && ":Z"[1..] == "Z";
    assert FieldText(f[1..][1..][1..][1..], "Z") == Pad(f[4], 2) + "Z";
    assert FieldText(f[1..][1..][1..], ":Z") == Pad(f[3], 2) + (":" + FieldText(f[1..][1..][1..][1..], "Z"));
    assert FieldText(f[1..][1..], "::Z") == Pad(f[2], 2) + (":" + FieldText(f[1..][1..][1..], ":Z"));
    assert FieldText(f[1..], "T::Z") == Pad(f[1], 2) + ("T" + FieldText(f[1..][1..], "::Z"));
  }

  // ---------- reading the text back ----------

  function ReadNumber(s: string, w: nat, separator: char): Option<(nat, string)> {
    if |s| > w && (forall k :: 0 <= k < w ==> IsDigit(s[k])) && s[w] == separator then
      Some((Value(s[..w]), s[w + 1..]))
    else None
  }

  function ReadPairs(s: string, separators: string): Option<seq<nat>> {
    if separators == "" then if s == "" then Some([]) else None
    else
      match ReadNumber(s, 2, separators[0])
      case None => None
      case Some((n, rest)) =>
        match ReadPairs(rest, separators[1..])
        case None => None
        case Some(ns) => Some([n] + ns)
  }

  /** A UTC date-time in the grammar of section 5.6 of RFC 3339, as seconds. */
  function ReadTimestamp(s: string): Option<int> {
    match ReadNumber(s, 4, '-')
    case None => None
    case Some((year, rest)) =>
      match ReadPairs(rest, "-T::Z")
      case None => None
      case Some(f) =>
        if |f| == 5 && Valid(Date(year, f[0], f[1])) && f[2] < 24 && f[3] < 60 && f[4] < 60 then
          Some(DayNumber(year, f[0], f[1]) * DAY + f[2] * 3600 + f[3] * 60 + f[4])
        else None
  }

  lemma ReadOne(p: string, w: nat, separator: char, rest: string)
    requires |p| == w && forall k :: 0 <= k < w ==> IsDigit(p[k])
    ensures ReadNumber(p + ([separator] + rest), w, separator) == Some((Value(p), rest))
  {
    var s := p + ([separator] + rest);
    assert s[..w] == p && s[w + 1..] == rest && s[w] == separator;
  }

  lemma {:induction false} ReadFieldText(f: seq<nat>, separators: string)
    requires |f| == |separators| && forall k :: 0 <= k < |f| ==> f[k] < 100
    ensures ReadPairs(FieldText(f, separators), separators) == Some(f)
  {
    hide Pad, Pow10, Value, ReadNumber;
    if f != [] {
      TwoDigitValue(f[0]);
      ReadOne(Pad(f[0], 2), 2, separators[0], FieldText(f[1..], separators[1..]));
      ReadFieldText(f[1..], separators[1..]);
      assert f == [f[0]] + f[1..];
    }
  }

  /** The stored text is a date-time of RFC 3339 that reads back as the instant, floored
      to the second. */
  lemma FormatReadsBack(t: Instant)
    requires FourDigitYear(t)
    ensures ReadTimestamp(Format(t)) == Some(Seconds(t))
  {
    hide Fields, DateOf, FieldText, Pad, ReadNumber, ReadPairs;
    FourDigitYearMeans(t);
    FourDigitValue(Year(t));
    ReadOne(Pad(Year(t), 4), 4, '-', FieldText(Fields(t), "-T::Z"));
    ReadFieldText(Fields(t), "-T::Z");
    FieldsAddUp(t);
  }

  lemma FieldsAddUp(t: Instant)
    ensures var d, f := DateOf(t), Fields(t);
            && Valid(Date(Year(t), f[0], f[1])) && f[2] < 24 && f[3] < 60 && f[4] < 60
            && DayNumber(Year(t), f[0], f[1]) * DAY + f[2] * 3600 + f[3] * 60 + f[4] == Seconds(t)
  {
    CivilHolds(Seconds(t) / DAY);
    hide CivilFromDays, DayNumber, DaysInMonth;
    ClockAddsUp(Seconds(t) % DAY);
  }

  lemma ClockAddsUp(sod: nat)
    requires sod < DAY
    ensures sod / 3600 < 24 && sod % 3600 / 60 < 60 && sod / 3600 * 3600 + sod % 3600 / 60 * 60 + sod % 60 == sod
  {
  }

  // ---------- order on all instants ----------

  /** An instant of a negative year comes before all of year 0 and later, in both orders. */
  lemma NegativeYearFirst(a: Instant, b: Instant)
    requires a < 0 <= b
    ensures OrderAgrees(a, b) && OrderAgrees(b, a) && Seconds(a) < Seconds(b) && Less(Format(a), Format(b))
  {
    FourDigitYearMeans(a);
    FourDigitYearMeans(b);
    FieldsOrder(a, b);
    assert Format(a)[0] == '-';
    assert Format(b)[0] == YearText(Year(b))[0];
    if Year(b) < 10000 { FourDigitValue(Year(b)); }
    LessByHead(Format(a), Format(b));
    LessByHead(Format(b), Format(a));
  }

  /** The filter of all three usage queries, over stored text. */
  predicate TextBetween(text: string, from: string, to: string) {
    AtMost(from, text) && AtMost(text, to)
  }

  predicate Within(t: Instant, from: Instant, to: Instant) {
    Seconds(from) <= Seconds(t) <= Seconds(to)
  }

  /** The textual range filter selects exactly the instants of the window, to the second.
      The lower bound may lie in any year before 10000, negative ones included. */
  lemma WindowIsExact(t: Instant, from: Instant, to: Instant)
    requires FourDigitYear(t) && FourDigitYear(to) && from < YEAR_10000
    ensures TextBetween(Format(t), Format(from), Format(to)) <==> Within(t, from, to)
    ensures Within(t, from, to) <==> from / 1_000_000_000 <= t / 1_000_000_000 <= to / 1_000_000_000
  {
    TextOrder(t, to);
    if from < 0 {
      NegativeYearFirst(from, t);
    } else {
      TextOrder(from, t);
    }
  }

  /** The first instant of year -1. */
  const YEAR_MINUS_1: Instant := -365 * DAY * SECOND

  /** The bounds cannot be relaxed: over a span of time around year 0, text order is time
      order exactly when the span lies between year -1 and year 9999. */
  lemma SpanIsExact(low: Instant, high: Instant)
    requires low <= 0 <= high
    ensures (forall a, b :: low <= a <= high && low <= b <= high ==> OrderAgrees(a, b))
            <==> YEAR_MINUS_1 <= low && high < YEAR_10000
  {
    hide OrderAgrees;
    if YEAR_MINUS_1 <= low && high < YEAR_10000 {
      forall a, b | low <= a <= high && low <= b <= high ensures OrderAgrees(a, b) {
        OrderWithin(a, b);
      }
    }
    if high >= YEAR_10000 {
      LateBoundary();
      FiveDigitsBreakOrder(YEAR_10000 - 1, YEAR_10000);
    }
    if low < YEAR_MINUS_1 {
      EarlyBoundary();
      NegativeYearsBreakOrder(YEAR_MINUS_1 - 1, YEAR_MINUS_1);
    }
  }

  lemma OrderWithin(a: Instant, b: Instant)
    requires YEAR_MINUS_1 <= a < YEAR_10000 && YEAR_MINUS_1 <= b < YEAR_10000
    ensures OrderAgrees(a, b)
  {
    if a >= 0 && b >= 0 {
      TextOrder(a, b);
    } else if b >= 0 {
      NegativeYearFirst(a, b);
    } else if a >= 0 {
      NegativeYearFirst(b, a);
    } else {
      LastNegativeYear(a);
      LastNegativeYear(b);
      OneYearOrder(a, b);
    }
  }

  lemma OneYearOrder(a: Instant, b: Instant)
    requires Year(a) == Year(b)
    ensures OrderAgrees(a, b)
  {
    hide DateOf;
    var y := YearText(Year(a));
    LessIrreflexive(y);
    FieldTextOrder(Fields(a), Fields(b), "-T::Z");
    FieldThenRest(y, y, '-', FieldText(Fields(a), "-T::Z"), FieldText(Fields(b), "-T::Z"));
    FieldsOrder(a, b);
  }

  lemma LastNegativeYear(t: Instant)
    requires YEAR_MINUS_1 <= t < 0
    ensures Year(t) == -1
  {
    YearStarts(t, -1);
    YearStarts(t, 0);
    assert DaysBeforeYear(-1) == -365 && DaysBeforeYear(0) == 0;
  }

  lemma LateBoundary()
    ensures Year(YEAR_10000 - 1) == 9999 && Year(YEAR_10000) == 10000
  {
    FourDigitYearMeans(YEAR_10000 - 1);
    FourDigitYearMeans(YEAR_10000);
    YearStarts(YEAR_10000 - 1, 9999);
    YearStarts(YEAR_10000, 10001);
    assert DaysBeforeYear(9999) < 3652425 - 300 && DaysBeforeYear(10001) > 3652425 + 300;
  }

  lemma EarlyBoundary()
    ensures Year(YEAR_MINUS_1 - 1) == -2 && Year(YEAR_MINUS_1) == -1
  {
    LastNegativeYear(YEAR_MINUS_1);
    YearStarts(YEAR_MINUS_1 - 1, -2);
    YearStarts(YEAR_MINUS_1 - 1, -1);
    assert DaysBeforeYear(-1) == -365 && DaysBeforeYear(-2) == -730;
  }

  /** Among negative years the digits run the wrong way. */
  lemma NegativeYearsBreakOrder(a: Instant, b: Instant)
    requires -10000 < Year(a) < Year(b) < 0
    ensures !OrderAgrees(a, b)
  {
    hide DateOf, Fields, FieldText;
    FieldsOrder(a, b);
    MinusYears(-Year(b), -Year(a));
    FieldThenRest(YearText(Year(b)), YearText(Year(a)), '-',
                  FieldText(Fields(b), "-T::Z"), FieldText(Fields(a), "-T::Z"));
    LessAsymmetric(Format(b), Format(a));
  }

  lemma MinusYears(m: nat, n: nat)
    requires 0 < m < n < 10000
    ensures |YearText(0 - m)| == |YearText(0 - n)| && Less(YearText(0 - m), YearText(0 - n))
  {
    FourDigits(m, n);
    assert YearText(0 - m) == "-" + Pad(m, 4) && YearText(0 - n) == "-" + Pad(n, 4);
    LessByField("-", "-", Pad(m, 4), Pad(n, 4));
  }

  lemma FiveDigitsBreakOrder(a: Instant, b: Instant)
    requires Year(a) == 9999 && Year(b) == 10000
    ensures !OrderAgrees(a, b)
  {
    FieldsOrder(a, b);
    hide DateOf, Fields, FieldText;
    PadDigits(Year(a));
    DecimalDigits(Year(b), 1, 4);
    assert Format(a)[0] == YearText(Year(a))[0] && Format(b)[0] == YearText(Year(b))[0];
    LessByHead(Format(a), Format(b));
  }

  lemma PadStep(n: nat, w: nat)
    requires w >= 1
    ensures Pad(n, w)[w - 1] == Digit(n % 10) && Pad(n, w)[..w - 1] == Pad(n / 10, w - 1)
  {
  }

  lemma PadDigits(y: nat)
    requires y < 10000
    ensures Pad(y, 4)[0] == Digit(y / 1000) && Pad(y, 4)[1] == Digit(y / 100 % 10)
  {
    hide Pad;
    PadStep(y, 4);
    PadStep(y / 10, 3);
    PadStep(y / 10 / 10, 2);
    PadStep(y / 10 / 10 / 10, 1);
    assert y / 10 / 10 == y / 100 && y / 10 / 10 / 10 == y / 1000 < 10;
  }

  lemma DecimalStep(n: nat)
    requires n >= 10
    ensures Decimal(n / 10) <= Decimal(n)
  {
  }

  lemma PowerOfNone()
    ensures Pow10(0) == 1
  {
  }

  lemma Scaled(x: nat, k: nat)
    requires x >= 1
    ensures x * Pow10(k + 1) == 10 * (x * Pow10(k)) && x * Pow10(k) >= 1
  {
    var p := Pow10(k);
    assert x * (10 * p) == 10 * (x * p);
  }

  lemma TenthBetween(n: nat, low: nat, high: nat)
    requires 10 * low <= n < 10 * high
    ensures low <= n / 10 < high
  {
  }

  /** A number's text starts with the text of its leading digits. */
  lemma {:induction false} DecimalDigits(n: nat, lead: nat, more: nat)
    requires 1 <= lead && lead * Pow10(more) <= n < (lead + 1) * Pow10(more)
    ensures Decimal(lead) <= Decimal(n)
  {
    hide Pow10, Decimal;
    if more > 0 {
      Scaled(lead, more - 1);
      Scaled(lead + 1, more - 1);
      TenthBetween(n, lead * Pow10(more - 1), (lead + 1) * Pow10(more - 1));
      DecimalDigits(n / 10, lead, more - 1);
      DecimalStep(n);
    } else {
      PowerOfNone();
      assert n == lead;
    }
  }

  function LaterOf(a: Instant, b: Instant): Instant {
    if a < b then b else a
  }

  /** Over the instants with four-digit years, a start before year 0 is as good as year 0:
      what is written no later than the start is written no later than every instant from
      there on. */
  lemma StartTextIsFirst(start: string, from: Instant, t: Instant)
    requires FourDigitYear(t) && from <= t && AtMost(start, Format(LaterOf(from, 0)))
    ensures AtMost(start, Format(t))
  {
    hide Format;
    TextOrder(LaterOf(from, 0), t);
    assert Seconds(LaterOf(from, 0)) <= Seconds(t);
    AtMostTransitive(start, Format(LaterOf(from, 0)), Format(t));
  }

  /** An earlier instant is written no later. */
  lemma EarlierTextIsFirst(from: Instant, from': Instant)
    requires from' <= from < YEAR_10000
    ensures AtMost(Format(from'), Format(LaterOf(from, 0)))
  {
    hide Format;
    if from' < 0 {
      NegativeYearFirst(from', LaterOf(from, 0));
    } else {
      TextOrder(from', from);
    }
  }

  // ---------- moving by days ----------

  /** The first day a time.Time can show: 1 March of year -292277022400. */
  const FIRST_DAY: int := 60 - 292277022400 / 400 * 146097

  /** Its seconds are a 64-bit count from there. */
  const FIRST: int := FIRST_DAY * DAY

  const WRAP: int := 0x1_0000_0000_0000_0000

  function Wrapped(seconds: int): (r: int)
    ensures r == seconds <==> FIRST <= seconds < FIRST + WRAP
    ensures FIRST <= r < FIRST + WRAP && (r - seconds) % 18_446_744_073_709_551_616 == 0
  {
    FIRST + (seconds - FIRST) % WRAP
  }

  lemma RangeStart()
    ensures CivilFromDays(FIRST_DAY) == Date(-292277022400, 3, 1)
    ensures FIRST == FIRST_DAY * 86400 && WRAP == 18446744073709551616
  {
    var d := Date(-292277022400, 3, 1);
    hide CivilFromDays;
    assert DaysBeforeMonth(d.year, 3) == 60;
    assert DayNumber(d.year, d.month, d.day) == FIRST_DAY;
    CivilRoundTrip(d);
  }

  /** t.AddDate(0, 0, days) in UTC: the calendar date with its day moved, normalised, in
      arithmetic that wraps around. It is a move by whole days exactly while the result is
      in range. */
  function AddDays(t: Instant, days: int): (r: Instant)
    ensures Seconds(r) == Wrapped(Seconds(t) + days * DAY)
    ensures r == t + days * 86_400_000_000_000 <==> FIRST <= Seconds(t) + days * DAY < FIRST + WRAP
  {
    var d := DateOf(t);
    CivilHolds(Seconds(t) / DAY);
    hide CivilFromDays, DayNumber;
    DayMoves(d, days);
    Wrapped(DayNumber(d.year, d.month, d.day + days) * DAY + Seconds(t) % DAY) * SECOND + t % SECOND
  }

  lemma DayMoves(d: Date, days: int)
    requires Valid(d)
    ensures DayNumber(d.year, d.month, d.day + days) == DayNumber(d.year, d.month, d.day) + days
  {
  }

  /** The least number of days that takes a time of year 0 or later out of range. */
  function FirstTooMany(t: Instant): (n: nat)
    requires t >= 0
    ensures forall k: nat :: k < n <==> FIRST <= Seconds(t) - k * DAY
  {
    (Seconds(t) - FIRST) / DAY + 1
  }

  lemma BackInRange(t: Instant, days: nat)
    requires FourDigitYear(t) && days < FirstTooMany(t)
    ensures AddDays(t, 0 - days) == t - days * 86_400_000_000_000 <= t
  {
    assert Seconds(t) + (0 - days) * DAY == Seconds(t) - days * DAY;
  }

  lemma ThisCenturyText(t: Instant)
    requires 2000 <= Year(t) < 2100
    ensures |Format(t)| >= 2 && Format(t)[..2] == "20"
  {
    hide DateOf, Fields, FieldText, Pad;
    PadDigits(Year(t));
  }

  lemma FarText(t: Instant)
    requires 290_000_000_000 <= Year(t) < 300_000_000_000
    ensures |Format(t)| >= 2 && Format(t)[..2] == "29"
  {
    hide DateOf, Fields, FieldText, Decimal, Pow10;
    TwoDigits();
    DecimalDigits(Year(t), 29, 10);
    assert Format(t)[..2] == Decimal(Year(t))[..2];
  }

  /** Just beyond, the result is in the year 290000000000 or later, whose text comes after
      that of any time of this century. */
  lemma BackTooFar(t: Instant, days: nat)
    requires 2000 <= Year(t) < 2100 && FourDigitYear(t)
    requires FirstTooMany(t) <= days < FirstTooMany(t) + 800_000_000_000
    ensures Less(Format(t), Format(AddDays(t, 0 - days)))
  {
    hide Format, Year, AddDays, Seconds;
    var far := AddDays(t, 0 - days);
    assert Seconds(t) + (0 - days) * DAY == Seconds(t) - days * DAY;
    WrapsOnce(Seconds(t) - days * DAY);
    FarYear(far);
    FarText(far);
    ThisCenturyText(t);
    assert "20"[1..] == "0" && "29"[1..] == "9";
    LessByPrefix(Format(t), Format(far), 2);
  }

  lemma LessByPrefix(a: string, b: string, k: nat)
    requires k <= |a| && k <= |b| && Less(a[..k], b[..k])
    ensures Less(a, b)
  {
    assert a == a[..k] + a[k..] && b == b[..k] + b[k..];
    LessByField(a[..k], b[..k], a[k..], b[k..]);
  }

  lemma WrapsOnce(seconds: int)
    requires FIRST - WRAP <= seconds < FIRST
    ensures Wrapped(seconds) == seconds + WRAP
  {
  }

  lemma TwoDigits()
    ensures Decimal(29) == "29" && Pow10(10) == 10_000_000_000
  {
  }

  lemma FarYear(t: Instant)
    requires FIRST + WRAP - 800_000_000_001 * DAY <= Seconds(t) < FIRST + WRAP
    ensures 290_000_000_000 <= Year(t) < 300_000_000_000
  {
    YearStarts(t, 290_000_000_000);
    YearStarts(t, 300_000_000_000);
  }
}
