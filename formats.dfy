/** The grammars of the receipt's text fields, each written as a predicate
    over the whole string (the source anchors every pattern with ^ and $). */
module Formats {
  import opened Chars

  /** `^[\w\s\-&]+$`: one or more word, space, hyphen or ampersand characters. */
  predicate ValidRetailer(s: string)
  {
    |s| > 0 && forall i | 0 <= i < |s| :: IsWord(s[i]) || IsSpace(s[i]) || s[i] == '-' || s[i] == '&'
  }

  /** `^[\w\s\-]+$`: as the retailer, but without the ampersand. */
  predicate ValidDescription(s: string)
  {
    |s| > 0 && forall i | 0 <= i < |s| :: IsWord(s[i]) || IsSpace(s[i]) || s[i] == '-'
  }

  // ---------------------------------------------------------------------------
  // Money: `^\d+\.\d{2}$`

  /** One or more digits, a dot, and exactly two digits. */
  predicate IsAmount(s: string)
  {
    |s| >= 4 && s[|s| - 3] == '.' && AllDigits(s[..|s| - 3]) && AllDigits(s[|s| - 2..])
  }

  /** The exact value of an amount in cents. */
  function AmountCents(s: string): (c: nat)
    requires IsAmount(s)
  {
    DigitsValue(s[..|s| - 3]) * 100 + DigitsValue(s[|s| - 2..])
  }

  /** The amount spelling of a number of cents: `str(c // 100) + "." + "%02d" % (c % 100)`. */
  function FormatAmount(c: nat): (s: string)
    ensures IsAmount(s)
  {
    var s := NatToDigits(c / 100) + "." + PadDigits(c % 100, 2);
    assert s[..|s| - 3] == NatToDigits(c / 100) && s[|s| - 2..] == PadDigits(c % 100, 2);
    s
  }

  /** Every number of cents has an amount spelling that reads back as itself,
      so the cents value of an accepted amount is well defined and every value occurs. */
  lemma AmountRoundTrip(c: nat)
    ensures AmountCents(FormatAmount(c)) == c
  {
    var s := FormatAmount(c);
    assert s[..|s| - 3] == NatToDigits(c / 100) && s[|s| - 2..] == PadDigits(c % 100, 2);
    DigitsRoundTrip(c / 100);
  }

  /** The two digits after the dot are the cents modulo a dollar. */
  lemma AmountFraction(s: string)
    requires IsAmount(s)
    ensures DigitsValue(s[|s| - 2..]) == AmountCents(s) % 100
  {
    var f := s[|s| - 2..];
    TwoDigitsValue(f);
    DivModHundred(DigitsValue(s[..|s| - 3]), DigitsValue(f));
  }

  // ---------------------------------------------------------------------------
  // Time of day: `^([01]?[0-9]|2[0-3]):([0-5][0-9])$`

  /** `[01]?[0-9]|2[0-3]`: one digit, or two digits from 00 to 23. */
  predicate ValidHourText(h: string)
  {
    || (|h| == 1 && IsDigit(h[0]))
    || (|h| == 2 && (h[0] == '0' || h[0] == '1') && IsDigit(h[1]))
    || (|h| == 2 && h[0] == '2' && '0' <= h[1] <= '3')
  }

  /** `[0-5][0-9]`. */
  predicate ValidMinuteText(m: string)
  {
    |m| == 2 && '0' <= m[0] <= '5' && IsDigit(m[1])
  }

  predicate ValidTime(t: string)
  {
    |t| >= 4 && t[|t| - 3] == ':' && ValidHourText(t[..|t| - 3]) && ValidMinuteText(t[|t| - 2..])
  }

  /** The hour of an accepted time: the number before the colon. */
  function HourOf(t: string): (h: nat)
    requires ValidTime(t)
    ensures h < 24
  {
    var hh := t[..|t| - 3];
    if |hh| == 1 then
      OneDigitValue(hh);
      DigitsValue(hh)
    else
      TwoDigitsValue(hh);
      DigitsValue(hh)
  }

  function MinuteOf(t: string): (m: nat)
    requires ValidTime(t)
    ensures m < 60
  {
    TwoDigitsValue(t[|t| - 2..]);
    DigitsValue(t[|t| - 2..])
  }

  /** `t` spells hour `h` and minute `m` of a 24-hour clock: the hour with two
      digits, or with one when it is below ten, then a colon and two minute digits. */
  predicate SpellsTime(t: string, h: nat, m: nat)
  {
    && h < 24 && m < 60
    && (|| t == PadDigits(h, 2) + ":" + PadDigits(m, 2)
        || (h < 10 && t == PadDigits(h, 1) + ":" + PadDigits(m, 2)))
  }

  /** The time grammar accepts exactly the spellings of the 24 * 60 clock times,
      and an accepted time spells its own hour and minute. */
  lemma ValidTimeExactly(t: string)
    ensures ValidTime(t) <==> exists h: nat, m: nat :: SpellsTime(t, h, m)
    ensures ValidTime(t) ==> SpellsTime(t, HourOf(t), MinuteOf(t))
  {
    if ValidTime(t) {
      ValidTimeSpellsItself(t);
    }
    if h: nat, m: nat :| SpellsTime(t, h, m) {
      SpellingIsValidTime(t, h, m);
    }
  }

  lemma ValidTimeSpellsItself(t: string)
    requires ValidTime(t)
    ensures SpellsTime(t, HourOf(t), MinuteOf(t))
  {
    var hh, mm := t[..|t| - 3], t[|t| - 2..];
    PadDigitsOfValue(hh);
    PadDigitsOfValue(mm);
    assert t == hh + ":" + mm;
  }

  lemma SpellingIsValidTime(t: string, h: nat, m: nat)
    requires SpellsTime(t, h, m)
    ensures ValidTime(t)
  {
    var mm := PadDigits(m, 2);
    assert mm == PadDigits(m / 10, 1) + [DigitChar(m % 10)];
    assert mm[0] == DigitChar(m / 10);
    assert t[|t| - 2..] == mm;
    if t == PadDigits(h, 2) + ":" + mm {
      var hh := PadDigits(h, 2);
      assert hh == PadDigits(h / 10, 1) + [DigitChar(h % 10)];
      assert hh[0] == DigitChar(h / 10);
      assert t[..|t| - 3] == hh;
    } else {
      assert t[..|t| - 3] == PadDigits(h, 1);
    }
  }

  // ---------------------------------------------------------------------------
  // Calendar date: `datetime.strptime(s, "%Y-%m-%d")`, in its strict form

  predicate IsLeapYear(y: int)
  {
    y % 4 == 0 && (y % 100 != 0 || y % 400 == 0)
  }

  function DaysInMonth(y: int, m: int): (d: nat)
    requires 1 <= m <= 12
    ensures 28 <= d <= 31
    ensures d == 29 <==> m == 2 && IsLeapYear(y)
  {
    if m == 2 then (if IsLeapYear(y) then 29 else 28)
    else if m == 4 || m == 6 || m == 9 || m == 11 then 30
    else 31
  }

  /** A date of the proleptic Gregorian calendar within `datetime`'s years 1 to 9999. */
  predicate IsCalendarDate(y: int, m: int, d: int)
  {
    1 <= y <= 9999 && 1 <= m <= 12 && 1 <= d <= DaysInMonth(y, m)
  }

  /** `DDDD-DD-DD`. */
  predicate DateShape(s: string)
  {
    && |s| == 10
    && AllDigits(s[..4]) && s[4] == '-'
    && AllDigits(s[5..7]) && s[7] == '-'
    && AllDigits(s[8..])
  }

  function YearOf(s: string): (y: nat)
    requires DateShape(s)
    ensures y < 10000
  {
    DigitsValueBound(s[..4]);
    DigitsValue(s[..4])
  }

  function MonthOf(s: string): (m: nat)
    requires DateShape(s)
    ensures m < 100
  {
    TwoDigitsValue(s[5..7]);
    DigitsValue(s[5..7])
  }

  /** The day: the last two characters of the date. */
  function DayOf(s: string): (d: nat)
    requires DateShape(s)
    ensures d < 100
  {
    TwoDigitsValue(s[|s| - 2..]);
    DigitsValue(s[|s| - 2..])
  }

  /** The year, month and day of a `DDDD-DD-DD` text, digit by digit. */
  lemma DateDigits(s: string)
    requires DateShape(s)
    ensures YearOf(s) == 1000 * DigitValue(s[0]) + 100 * DigitValue(s[1]) + 10 * DigitValue(s[2]) + DigitValue(s[3])
    ensures MonthOf(s) == 10 * DigitValue(s[5]) + DigitValue(s[6])
    ensures DayOf(s) == 10 * DigitValue(s[8]) + DigitValue(s[9])
  {
    var y := s[..4];
    assert y[..3][..2] == y[..2];
    assert DigitsValue(y) == DigitsValue(y[..3]) * 10 + DigitValue(s[3]);
    assert DigitsValue(y[..3]) == DigitsValue(y[..2]) * 10 + DigitValue(s[2]);
    TwoDigitsValue(y[..2]);
    TwoDigitsValue(s[5..7]);
    TwoDigitsValue(s[|s| - 2..]);
  }

  predicate ValidDate(s: string)
  {
    DateShape(s) && IsCalendarDate(YearOf(s), MonthOf(s), DayOf(s))
  }

  function FormatDate(y: nat, m: nat, d: nat): (s: string)
    requires y < 10000 && m < 100 && d < 100
  {
    PadDigits(y, 4) + "-" + PadDigits(m, 2) + "-" + PadDigits(d, 2)
  }

  /** Formatting a date and reading it back gives its year, month and day;
      the formatted text is accepted exactly when the date is on the calendar. */
  lemma FormatDateRoundTrip(y: nat, m: nat, d: nat)
    requires y < 10000 && m < 100 && d < 100
    ensures DateShape(FormatDate(y, m, d))
    ensures YearOf(FormatDate(y, m, d)) == y
    ensures MonthOf(FormatDate(y, m, d)) == m
    ensures DayOf(FormatDate(y, m, d)) == d
    ensures ValidDate(FormatDate(y, m, d)) <==> IsCalendarDate(y, m, d)
  {
    var s := FormatDate(y, m, d);
    assert s[..4] == PadDigits(y, 4);
    assert s[5..7] == PadDigits(m, 2);
    assert s[8..] == PadDigits(d, 2);
  }

  /** Every `DDDD-DD-DD` text is the formatting of the numbers it holds. */
  lemma DateShapeIsFormatted(s: string)
    requires DateShape(s)
    ensures s == FormatDate(YearOf(s), MonthOf(s), DayOf(s))
  {
    var ys, ms, ds := s[..4], s[5..7], s[8..];
    assert ds == s[|s| - 2..];
    PadDigitsOfValue(ys);
    PadDigitsOfValue(ms);
    PadDigitsOfValue(ds);
    var f := FormatDate(YearOf(s), MonthOf(s), DayOf(s));
    assert f == ys + "-" + ms + "-" + ds;
    assert forall i | 0 <= i < 10 :: f[i] == s[i];
  }

  /** The date check accepts exactly the formatted calendar dates. */
  lemma ValidDateExactly(s: string)
    ensures ValidDate(s) <==> exists y: nat, m: nat, d: nat :: IsCalendarDate(y, m, d) && s == FormatDate(y, m, d)
  {
    if ValidDate(s) {
      DateShapeIsFormatted(s);
      var y, m, d := YearOf(s), MonthOf(s), DayOf(s);
      assert IsCalendarDate(y, m, d) && s == FormatDate(y, m, d);
    }
    if y: nat, m: nat, d: nat :| IsCalendarDate(y, m, d) && s == FormatDate(y, m, d) {
      FormatDateRoundTrip(y, m, d);
    }
  }
}
