// Local calendar days and the `YYYY-MM-DD` text they are stored under.
// A day is counted from 1970-01-01; `Civil` is what the JavaScript Date object
// reports for it (full year, month 1-12, day of month).
module Calendar {
  import opened Text

  datatype Civil = Civil(year: nat, month: nat, day: nat)

  predicate Leap(y: nat) { y % 4 == 0 && (y % 100 != 0 || y % 400 == 0) }

  function MonthLength(y: nat, m: nat): nat {
    if m == 2 then (if Leap(y) then 29 else 28)
    else if m == 4 || m == 6 || m == 9 || m == 11 then 30
    else 31
  }

  predicate ValidCivil(c: Civil) {
    1 <= c.month <= 12 && 1 <= c.day <= MonthLength(c.year, c.month)
  }

  function NextDay(c: Civil): (r: Civil)
    requires ValidCivil(c)
    ensures ValidCivil(r) && Earlier(c, r)
  {
    if c.day < MonthLength(c.year, c.month) then c.(day := c.day + 1)
    else if c.month < 12 then Civil(c.year, c.month + 1, 1)
    else Civil(c.year + 1, 1, 1)
  }

  function CivilOfDay(n: nat): (c: Civil)
    ensures ValidCivil(c)
  {
    if n == 0 then Civil(1970, 1, 1) else NextDay(CivilOfDay(n - 1))
  }

  /** Chronological order of dates. */
  predicate Earlier(a: Civil, b: Civil) {
    || a.year < b.year
    || (a.year == b.year && (a.month < b.month || (a.month == b.month && a.day < b.day)))
  }

  // ------------------------------------------------ the calendar of the Date object

  /** `DayFromYear` of section 21.4.1.3 of ECMA-262: the day number of 1 January. */
  function DayFromYear(y: nat): int
    requires y >= 1970
  { 365 * (y - 1970) + (y - 1969) / 4 - (y - 1901) / 100 + (y - 1601) / 400 }

  /** Days before each month of a common year. */
  const BEFORE_MONTH: seq<nat> := [0, 31, 59, 90, 120, 151, 181, 212, 243, 273, 304, 334]

  function DayWithinYear(c: Civil): nat
    requires ValidCivil(c)
  { BEFORE_MONTH[c.month - 1] + (if Leap(c.year) && c.month > 2 then 1 else 0) + c.day - 1 }

  lemma YearLength(y: nat)
    requires y >= 1970
    ensures DayFromYear(y + 1) == DayFromYear(y) + if Leap(y) then 366 else 365
  {
    FourthYears(y);
    HundredthYears(y);
    FourHundredthYears(y);
  }

  lemma FourthYears(y: nat)
    requires y >= 1970
    ensures (y - 1968) / 4 == (y - 1969) / 4 + if y % 4 == 0 then 1 else 0
  {
  }

  lemma HundredthYears(y: nat)
    requires y >= 1970
    ensures (y - 1900) / 100 == (y - 1901) / 100 + if y % 100 == 0 then 1 else 0
  {
  }

  lemma FourHundredthYears(y: nat)
    requires y >= 1970
    ensures (y - 1600) / 400 == (y - 1601) / 400 + if y % 400 == 0 then 1 else 0
  {
  }

  lemma NextDayNumber(c: Civil)
    requires ValidCivil(c) && c.year >= 1970
    ensures DayFromYear(NextDay(c).year) + DayWithinYear(NextDay(c)) == DayFromYear(c.year) + DayWithinYear(c) + 1
  {
    hide DayFromYear;
    if c.month == 12 && c.day == 31 { YearLength(c.year); }
  }

  /** Counting days on is inverted by the closed formula, for every day. */
  lemma {:induction false} CalendarIsEcmaScript(n: nat)
    ensures CivilOfDay(n).year >= 1970
    ensures DayFromYear(CivilOfDay(n).year) + DayWithinYear(CivilOfDay(n)) == n
  {
    if n > 0 {
      CalendarIsEcmaScript(n - 1);
      NextDayNumber(CivilOfDay(n - 1));
    }
  }

  /** Days whose year has four digits: the ones `localDate` writes in a sortable form. */
  type Day = n: nat | CivilOfDay(n).year <= 9999 witness 0

  /** `String(n).padStart(2, "0")`. */
  function Pad2(n: nat): string {
    var s := Print(n);
    if |s| < 2 then "0" + s else s
  }

  /** The text `localDate` produces for a date. */
  function DateText(c: Civil): string {
    Print(c.year) + "-" + Pad2(c.month) + "-" + Pad2(c.day)
  }

  function DateKey(n: nat): string { DateText(CivilOfDay(n)) }

  // ------------------------------------------------------- chronological order

  lemma {:induction false} LaterDayIsLater(m: nat, n: nat)
    requires m < n
    ensures Earlier(CivilOfDay(m), CivilOfDay(n))
    decreases n
  {
    if m < n - 1 { LaterDayIsLater(m, n - 1); }
  }

  lemma {:induction false} YearsDoNotDecrease(m: nat, n: nat)
    requires m <= n
    ensures CivilOfDay(m).year <= CivilOfDay(n).year
    ensures CivilOfDay(m).year >= 1970
  {
    if m < n { LaterDayIsLater(m, n); }
    if m > 0 { LaterDayIsLater(0, m); }
  }

  /** Two-digit numerals sort by value. */
  lemma PadOrder(m: nat, n: nat)
    requires m < 100 && n < 100
    ensures |Pad2(m)| == 2 && |Pad2(n)| == 2
    ensures m < n ==> Less(Pad2(m), Pad2(n))
    ensures Pad2(m) == Pad2(n) ==> m == n
  {
    PadDigits(m);
    PadDigits(n);
  }

  lemma PadDigits(m: nat)
    requires m < 100
    ensures Pad2(m) == [('0' as int + m / 10) as char, ('0' as int + m % 10) as char]
  {
    if m >= 10 {
      assert Print(m) == Print(m / 10) + [('0' as int + m % 10) as char];
      assert Print(m / 10) == [('0' as int + m / 10) as char];
    }
  }

  /** What follows the year in the stored text. */
  function MonthDayText(c: Civil): string { Pad2(c.month) + "-" + Pad2(c.day) }

  lemma DateTextSplits(c: Civil)
    ensures DateText(c) == Print(c.year) + ("-" + MonthDayText(c))
  {
    hide Print, Pad2;
    var y, m, d := Print(c.year), Pad2(c.month), Pad2(c.day);
    assert y + "-" + m + "-" + d == y + ("-" + (m + "-" + d));
  }

  /** The text reads back as year, two-digit month and two-digit day, separated by dashes. */
  lemma DateTextReadsBack(c: Civil)
    requires ValidCivil(c)
    ensures var parts := Split(DateText(c), '-');
            && |parts| == 3 && |parts[1]| == |parts[2]| == 2
            && IsNumeral(parts[0]) && IsNumeral(parts[1]) && IsNumeral(parts[2])
            && Value(parts[0]) == c.year && Value(parts[1]) == c.month && Value(parts[2]) == c.day
  {
    hide Split;
    PadValue(c.month);
    PadValue(c.day);
    var parts := [Print(c.year), Pad2(c.month), Pad2(c.day)];
    forall p | p in parts ensures '-' !in p {
      assert p == parts[0] || p == parts[1] || p == parts[2];
      assert IsNumeral(p);
    }
    assert parts[1..] == [Pad2(c.month), Pad2(c.day)] && parts[1..][1..] == [Pad2(c.day)];
    assert Join(parts[1..], '-') == Pad2(c.month) + ['-'] + Pad2(c.day);
    DateTextSplits(c);
    assert Join(parts, '-') == DateText(c);
    SplitOfJoin(parts, '-');
  }

  lemma PadValue(m: nat)
    requires m < 100
    ensures |Pad2(m)| == 2 && IsNumeral(Pad2(m)) && Value(Pad2(m)) == m
  {
    PadDigits(m);
    var s := Pad2(m);
    assert s[..1] == [s[0]] && s[..1][..0] == [];
    assert Value(s[..1]) == m / 10;
  }

  lemma MonthDayOrder(a: Civil, b: Civil)
    requires ValidCivil(a) && ValidCivil(b) && Earlier(a, b) && a.year == b.year
    ensures Less(MonthDayText(a), MonthDayText(b))
  {
    PadOrder(a.month, b.month);
    PadOrder(a.day, b.day);
    var da, db := "-" + Pad2(a.day), "-" + Pad2(b.day);
    assert MonthDayText(a) == Pad2(a.month) + da && MonthDayText(b) == Pad2(b.month) + db;
    if a.month == b.month {
      LessAfterPrefix(Pad2(a.month), da, db);
      LessAfterPrefix("-", Pad2(a.day), Pad2(b.day));
    } else {
      LessIrreflexive(Pad2(a.month));
      LessBeforeSuffix(Pad2(a.month), Pad2(b.month), da, db);
    }
  }

  /**
   * The stored text sorts chronologically exactly when the years are equal or
   * their numerals are in string order: years of one length always are, the
   * years 9999 and 10000 are not.
   */
  lemma TextOrderIsChronological(a: Civil, b: Civil)
    requires ValidCivil(a) && ValidCivil(b) && Earlier(a, b)
    ensures Less(DateText(a), DateText(b)) <==> a.year == b.year || Less(Print(a.year), Print(b.year))
  {
    DateTextSplits(a);
    DateTextSplits(b);
    if a.year == b.year {
      MonthDayOrder(a, b);
      LessAfterPrefix("-", MonthDayText(a), MonthDayText(b));
      LessAfterPrefix(Print(a.year), "-" + MonthDayText(a), "-" + MonthDayText(b));
    } else {
      assert Value(Print(a.year)) != Value(Print(b.year));
      NumeralsBeforeDash(Print(a.year), Print(b.year), MonthDayText(a), MonthDayText(b));
    }
  }

  /** A dash sorts below every digit, so distinct numerals keep their order before it. */
  lemma {:induction false} NumeralsBeforeDash(x: string, y: string, s: string, t: string)
    requires x != y
    requires forall i :: 0 <= i < |x| ==> IsDigit(x[i])
    requires forall i :: 0 <= i < |y| ==> IsDigit(y[i])
    ensures Less(x + ("-" + s), y + ("-" + t)) == Less(x, y)
  {
    if x != [] && y != [] && x[0] == y[0] {
      assert x == [x[0]] + x[1..] && y == [y[0]] + y[1..];
      assert (x + ("-" + s))[1..] == x[1..] + ("-" + s);
      assert (y + ("-" + t))[1..] == y[1..] + ("-" + t);
      NumeralsBeforeDash(x[1..], y[1..], s, t);
    }
  }

  lemma {:induction false} FourDigits(y: nat)
    requires 1000 <= y <= 9999
    ensures |Print(y)| == 4
  {
    assert |Print(y / 1000)| == 1;
    assert y / 10 / 10 / 10 == y / 1000;
    assert |Print(y / 10 / 10)| == 2;
    assert |Print(y / 10)| == 3;
  }

  /** Keys of four-digit-year days are in the order of the days. */
  lemma KeysInOrder(m: Day, n: Day)
    requires m < n
    ensures Less(DateKey(m), DateKey(n))
  {
    var a, b := CivilOfDay(m), CivilOfDay(n);
    LaterDayIsLater(m, n);
    YearsDoNotDecrease(m, n);
    FourDigits(a.year);
    FourDigits(b.year);
    if a.year != b.year { NumeralOrder(Print(a.year), Print(b.year)); }
    TextOrderIsChronological(a, b);
  }

  lemma KeysInjective(m: Day, n: Day)
    requires DateKey(m) == DateKey(n)
    ensures m == n
  {
    LessIrreflexive(DateKey(m));
    if m < n { KeysInOrder(m, n); } else if n < m { KeysInOrder(n, m); }
  }

  /** The first day of the year 10000 would sort before the day it follows. */
  lemma YearTenThousandSortsFirst()
    ensures NextDay(Civil(9999, 12, 31)) == Civil(10000, 1, 1)
    ensures Less(DateText(Civil(10000, 1, 1)), DateText(Civil(9999, 12, 31)))
  {
    hide Print, DateText, MonthDayText;
    assert Print(9999)[0] == '9' by { FirstDigit(9999); FirstDigit(999); FirstDigit(99); OneDigit(9); }
    assert Print(10000)[0] == '1' by { FirstDigit(10000); FirstDigit(1000); FirstDigit(100); FirstDigit(10); OneDigit(1); }
    DateTextSplits(Civil(10000, 1, 1));
    DateTextSplits(Civil(9999, 12, 31));
  }

  lemma {:induction false} OneDigit(n: nat)
    requires n < 10
    ensures Print(n) == [('0' as int + n) as char]
  {
  }

  lemma {:induction false} FirstDigit(n: nat)
    requires n >= 10
    ensures Print(n)[0] == Print(n / 10)[0]
  {
  }

  // -------------------------------------------------------------- day windows

  const TREND_DAYS: nat := 7

  /** `f` at `count` consecutive numbers from `start` on. */
  function Listed(f: nat -> string, start: nat, count: nat): (r: seq<string>)
    ensures |r| == count
    ensures forall i :: 0 <= i < count ==> r[i] == f(start + i)
  {
    if count == 0 then [] else Listed(f, start, count - 1) + [f(start + count - 1)]
  }

  /** The last `count` local dates ending today, oldest first. */
  method RecentDates(today: nat, count: nat) returns (out: seq<string>)
    requires count <= today + 1
    ensures out == Listed(DateKey, today + 1 - count, count)
  {
    hide DateKey;
    out := [];
    var i := count - 1;
    while i >= 0
      invariant -1 <= i < count
      invariant out == Listed(DateKey, today + 1 - count, count - 1 - i)
    {
      out := out + [DateKey(today - i)];
      i := i - 1;
    }
  }
}
