/** Timestamp literals (RFC 3339, sections 5.6 and 5.7, in UTC): lexing one, and printing it canonically. */
module Timestamps {
  import opened Wrappers
  import opened Calendar
  import Scalars

  datatype LexError = InvalidTimestamp | TimestampBeforeEpoch

  const MICROS_PER_SECOND: nat := 1_000_000

  // ----- digits

  predicate IsDigit(c: char) {
    '0' <= c <= '9'
  }

  function Digit(n: nat): (c: char)
    requires n < 10
    ensures IsDigit(c)
  {
    '0' + n as char
  }

  function DigitValue(c: char): (n: nat)
    requires IsDigit(c)
    ensures n < 10 && Digit(n) == c
  {
    c as int - '0' as int
  }

  /** `n` in `width` digits, padded with zeros. */
  function Digits(n: nat, width: nat): (s: string)
    ensures |s| == width && forall k :: 0 <= k < width ==> IsDigit(s[k])
  {
    if width == 0 then "" else Digits(n / 10, width - 1) + [Digit(n % 10)]
  }

  function Number(s: string): nat
    requires forall k :: 0 <= k < |s| ==> IsDigit(s[k])
  {
    if s == "" then 0 else 10 * Number(s[..|s| - 1]) + DigitValue(s[|s| - 1])
  }

  function Pow10(n: nat): (p: nat)
    ensures p >= 1
  {
    if n == 0 then 1 else 10 * Pow10(n - 1)
  }

  lemma {:induction false} NumberLast(front: string, last: char)
    requires IsDigit(last) && forall k :: 0 <= k < |front| ==> IsDigit(front[k])
    ensures Number(front + [last]) == Number(front) * 10 + DigitValue(last)
  {
    assert (front + [last])[..|front|] == front;
  }

  lemma {:induction false} NumberOfDigits(n: nat, width: nat)
    requires n < Pow10(width)
    ensures Number(Digits(n, width)) == n
  {
    if width > 0 {
      var front := Digits(n / 10, width - 1);
      NumberOfDigits(n / 10, width - 1);
      NumberLast(front, Digit(n % 10));
    }
  }

  lemma {:induction false} NumberBound(s: string)
    requires forall k :: 0 <= k < |s| ==> IsDigit(s[k])
    ensures Number(s) < Pow10(|s|)
  {
    if s != "" {
      NumberBound(s[..|s| - 1]);
    }
  }

  lemma {:induction false} Powers()
    ensures Pow10(2) == 100 && Pow10(3) == 1_000 && Pow10(4) == 10_000 && Pow10(6) == MICROS_PER_SECOND
  {
  }

  // ----- the literal

  /** `YYYY-MM-DDThh:mm:ssZ`, with a fraction of 3 or 6 digits if any. */
  predicate Matches(s: string) {
    && |s| in {20, 24, 27}
    && (forall k :: 0 <= k < 19 && k !in {4, 7, 10, 13, 16} ==> IsDigit(s[k]))
    && s[4] == '-' && s[7] == '-' && s[10] == 'T' && s[13] == ':' && s[16] == ':' && s[|s| - 1] == 'Z'
    && (|s| > 20 ==> s[19] == '.' && forall k :: 20 <= k < |s| - 1 ==> IsDigit(s[k]))
  }

  function FieldAt(s: string, from: nat, to: nat): nat
    requires Matches(s) && from <= to <= |s| && forall k :: from <= k < to ==> IsDigit(s[k])
  {
    Number(s[from..to])
  }

  /** The fraction in microseconds: three digits count milliseconds. */
  function Fraction(s: string): nat
    requires Matches(s)
  {
    if |s| == 20 then 0
    else if |s| == 24 then FieldAt(s, 20, 23) * 1_000
    else FieldAt(s, 20, 26)
  }

  /** `timestamp`: the instant a literal names, or why it names none. */
  function Lex(s: string): Result<nat, LexError>
    requires Matches(s)
  {
    var (year, month, day) := (FieldAt(s, 0, 4), FieldAt(s, 5, 7), FieldAt(s, 8, 10));
    var (hour, minute, second) := (FieldAt(s, 11, 13), FieldAt(s, 14, 16), FieldAt(s, 17, 19));
    if !(1 <= month <= 12 && 1 <= day <= DaysInMonth(year, month) && hour <= 23 && minute <= 59 && second <= 59) then
      Err(InvalidTimestamp)
    else if year < 1970 then Err(TimestampBeforeEpoch)
    else
      FromEpoch(Date(year, month, day));
      var seconds := DaysFromCivil(Date(year, month, day)) * 86_400 + hour * 3_600 + minute * 60 + second;
      Ok(seconds * MICROS_PER_SECOND + Fraction(s))
  }

  /** `Rfc3339`: the date and time, with as short a fraction as tells the microseconds. */
  function Print(micros: nat): string {
    var fraction, seconds := micros % MICROS_PER_SECOND, micros / MICROS_PER_SECOND;
    DaysOfCivil(seconds / 86_400);
    var (year, month, day) := CivilFromDays(seconds / 86_400);
    var time := seconds % 86_400;
    Written(year, month, day, time / 3_600, time / 60 % 60, time % 60, PrintFraction(fraction))
  }

  function Written(year: nat, month: nat, day: nat, hour: nat, minute: nat, second: nat, fraction: string): string {
    Digits(year, 4) + "-" + Digits(month, 2) + "-" + Digits(day, 2) + "T"
    + Digits(hour, 2) + ":" + Digits(minute, 2) + ":" + Digits(second, 2) + fraction + "Z"
  }

  function PrintFraction(fraction: nat): string {
    if fraction == 0 then ""
    else if fraction % 1_000 == 0 then "." + Digits(fraction / 1_000, 3)
    else "." + Digits(fraction, 6)
  }

  // ----- the largest timestamp

  /** Dates count up, year after year. */
  lemma {:induction false} LaterYear(d: Date, e: Date)
    requires IsDate(d) && IsDate(e) && d.year < e.year
    ensures DaysFromCivil(d) < DaysFromCivil(e)
  {
    hide DaysFromCivil;
    December(d);
    var last := Date(d.year, 12, 31);
    NextDayCounts(last);
    FirstIsLeast(Date(d.year + 1, 1, 1), e);
  }

  /** No day of a year, or of a later one, is before its first. */
  lemma {:induction false} FirstIsLeast(first: Date, d: Date)
    requires IsDate(first) && IsDate(d) && first.month == 1 && first.day == 1 && first.year <= d.year
    ensures DaysFromCivil(first) <= DaysFromCivil(d)
    decreases d.year - first.year
  {
    if first.year == d.year {
      January(d);
    } else {
      hide DaysFromCivil;
      var last := Date(first.year, 12, 31);
      December(first);
      NextDayCounts(last);
      FirstIsLeast(Date(first.year + 1, 1, 1), d);
    }
  }

  lemma {:induction false} January(d: Date)
    requires IsDate(d)
    ensures IsDate(Date(d.year, 1, 1)) && DaysFromCivil(Date(d.year, 1, 1)) <= DaysFromCivil(d)
  {
  }

  lemma {:induction false} December(d: Date)
    requires IsDate(d)
    ensures IsDate(Date(d.year, 12, 31)) && DaysFromCivil(d) <= DaysFromCivil(Date(d.year, 12, 31))
  {
  }

  const LAST_DAY: nat := 2_932_896

  lemma {:induction false} LastDayIs()
    ensures DaysFromCivil(Date(9999, 12, 31)) == LAST_DAY
  {
  }

  /** 9999-12-31 is the last day of a four-digit year. */
  lemma {:induction false} LastDay(d: Date)
    requires IsDate(d)
    ensures d.year <= 9999 <==> DaysFromCivil(d) <= LAST_DAY
  {
    hide DaysFromCivil;
    LastDayIs();
    var last := Date(9999, 12, 31);
    December(d);
    if d.year < 9999 {
      LaterYear(d, last);
    } else if d.year > 9999 {
      LaterYear(last, d);
    }
  }

  /** The largest timestamp is the last microsecond of the last four-digit year. */
  lemma {:induction false} MaxTimestamp()
    ensures Scalars.MAX_TIMESTAMP_MICROS == (LAST_DAY * 86_400 + 86_399) * MICROS_PER_SECOND + 999_999
  {
  }

  lemma {:induction false} SplitMicros(micros: nat)
    ensures var seconds := micros / MICROS_PER_SECOND;
            && micros == seconds * MICROS_PER_SECOND + micros % MICROS_PER_SECOND
            && seconds == seconds / 86_400 * 86_400 + seconds % 86_400
            && seconds % 86_400 == seconds % 86_400 / 3_600 * 3_600 + seconds % 86_400 / 60 % 60 * 60 + seconds % 86_400 % 60
            && (micros <= Scalars.MAX_TIMESTAMP_MICROS <==> seconds / 86_400 <= LAST_DAY)
  {
  }

  // ----- printing, then lexing

  /** A literal's fields are where lexing looks for them. */
  lemma {:induction false} WrittenFields(year: nat, month: nat, day: nat, hour: nat, minute: nat, second: nat, fraction: string)
    requires year < 10_000 && month < 100 && day < 100 && hour < 100 && minute < 100 && second < 100
    requires |fraction| in {0, 4, 7} && (fraction != "" ==> fraction[0] == '.')
    requires forall k :: 1 <= k < |fraction| ==> IsDigit(fraction[k])
    ensures var s := Written(year, month, day, hour, minute, second, fraction);
            && Matches(s) && s[19..|s| - 1] == fraction
            && FieldAt(s, 0, 4) == year && FieldAt(s, 5, 7) == month && FieldAt(s, 8, 10) == day
            && FieldAt(s, 11, 13) == hour && FieldAt(s, 14, 16) == minute && FieldAt(s, 17, 19) == second
  {
    hide Digits, Number;
    var s := Written(year, month, day, hour, minute, second, fraction);
    Powers();
    NumberOfDigits(year, 4);
    NumberOfDigits(month, 2);
    NumberOfDigits(day, 2);
    NumberOfDigits(hour, 2);
    NumberOfDigits(minute, 2);
    NumberOfDigits(second, 2);
    assert s[0..4] == Digits(year, 4) && s[5..7] == Digits(month, 2) && s[8..10] == Digits(day, 2);
    assert s[11..13] == Digits(hour, 2) && s[14..16] == Digits(minute, 2) && s[17..19] == Digits(second, 2);
    assert s[19..|s| - 1] == fraction;
    assert forall k :: 20 <= k < |s| - 1 ==> s[k] == s[19..|s| - 1][k - 19];
  }

  lemma {:induction false} PrintedFraction(s: string, fraction: nat)
    requires Matches(s) && fraction < MICROS_PER_SECOND && s[19..|s| - 1] == PrintFraction(fraction)
    ensures Fraction(s) == fraction
  {
    hide Digits, Number;
    Powers();
    if fraction != 0 && fraction % 1_000 == 0 {
      NumberOfDigits(fraction / 1_000, 3);
      assert s[20..23] == s[19..|s| - 1][1..];
    } else if fraction != 0 {
      NumberOfDigits(fraction, 6);
      assert s[20..26] == s[19..|s| - 1][1..];
    }
  }

  /** What is printed lexes back, up to the largest timestamp. */
  lemma {:induction false} LexPrinted(micros: nat)
    requires micros <= Scalars.MAX_TIMESTAMP_MICROS
    ensures Matches(Print(micros)) && Lex(Print(micros)) == Ok(micros)
  {
    hide Digits, Number, CivilFromDays, DaysFromCivil, Written, PrintFraction, Fraction;
    var fraction, seconds := micros % MICROS_PER_SECOND, micros / MICROS_PER_SECOND;
    var days, time := seconds / 86_400, seconds % 86_400;
    DaysOfCivil(days);
    var (year, month, day) := CivilFromDays(days);
    SplitMicros(micros);
    LastDay(Date(year, month, day));
    FractionShape(fraction);
    WrittenFields(year, month, day, time / 3_600, time / 60 % 60, time % 60, PrintFraction(fraction));
    PrintedFraction(Print(micros), fraction);
  }

  lemma {:induction false} FractionShape(fraction: nat)
    ensures var f := PrintFraction(fraction);
            |f| in {0, 4, 7} && (f != "" ==> f[0] == '.') && forall k :: 1 <= k < |f| ==> IsDigit(f[k])
  {
  }

  // ----- lexing, then printing

  /** What lexes is at most the largest timestamp. */
  lemma {:induction false} LexedBound(s: string)
    requires Matches(s) && Lex(s).Ok?
    ensures Lex(s).value <= Scalars.MAX_TIMESTAMP_MICROS
  {
    hide Number, DaysFromCivil, DaysInMonth;
    Powers();
    NumberBound(s[0..4]);
    FractionBound(s);
    var (year, month, day) := (FieldAt(s, 0, 4), FieldAt(s, 5, 7), FieldAt(s, 8, 10));
    LastDay(Date(year, month, day));
    MaxTimestamp();
  }

  lemma {:induction false} FractionBound(s: string)
    requires Matches(s)
    ensures Fraction(s) < MICROS_PER_SECOND
  {
    hide Number;
    Powers();
    if |s| == 24 {
      NumberBound(s[20..23]);
    } else if |s| == 27 {
      NumberBound(s[20..26]);
    }
  }

  lemma {:induction false} DigitsOfNumber(s: string)
    requires forall k :: 0 <= k < |s| ==> IsDigit(s[k])
    ensures Digits(Number(s), |s|) == s
  {
    if s != "" {
      DigitsOfNumber(s[..|s| - 1]);
    }
  }

  // ----- what a literal names, from its text alone

  /** A date of the calendar in any year. */
  predicate RealDate(year: nat, month: nat, day: nat) {
    1 <= month <= 12 && 1 <= day <= DaysInMonth(year, month)
  }

  predicate RealTime(hour: nat, minute: nat, second: nat) {
    hour < 24 && minute < 60 && second < 60
  }

  /** The six digits of the microseconds: the fraction as written, and zeros up to six. */
  function MicrosText(fraction: string): string
    requires |fraction| in {0, 4, 7}
  {
    (if fraction == "" then "" else fraction[1..]) + Zeros(if fraction == "" then 6 else 7 - |fraction|)
  }

  function Zeros(n: nat): (s: string)
    ensures |s| == n
  {
    seq(n, _ => '0')
  }

  /** Every literal is the text of a date, a time, and a fraction. */
  lemma {:induction false} LiteralParts(s: string)
    returns (year: nat, month: nat, day: nat, hour: nat, minute: nat, second: nat, fraction: string)
    requires Matches(s)
    ensures year < 10_000 && month < 100 && day < 100 && hour < 100 && minute < 100 && second < 100
    ensures |fraction| in {0, 4, 7} && (fraction != "" ==> fraction[0] == '.')
    ensures forall k :: 1 <= k < |fraction| ==> IsDigit(fraction[k])
    ensures s == Written(year, month, day, hour, minute, second, fraction)
  {
    hide Digits, Number, Pow10, IsDigit, Written;
    Powers();
    year := PartAt(s, 0, 4);
    month := PartAt(s, 5, 7);
    day := PartAt(s, 8, 10);
    hour := PartAt(s, 11, 13);
    minute := PartAt(s, 14, 16);
    second := PartAt(s, 17, 19);
    fraction := s[19..|s| - 1];
    StampPieces(s);
    ThreePieces(s);
    Assembled(year, month, day, hour, minute, second, fraction);
  }

  lemma {:induction false} Assembled(year: nat, month: nat, day: nat, hour: nat, minute: nat, second: nat, fraction: string)
    ensures Written(year, month, day, hour, minute, second, fraction) ==
            (Digits(year, 4) + "-" + Digits(month, 2) + "-" + Digits(day, 2) + "T"
             + Digits(hour, 2) + ":" + Digits(minute, 2) + ":" + Digits(second, 2)) + fraction + "Z"
  {
  }

  lemma {:induction false} StampPieces(s: string)
    requires Matches(s)
    ensures s[..19] == s[0..4] + "-" + s[5..7] + "-" + s[8..10] + "T" + s[11..13] + ":" + s[14..16] + ":" + s[17..19]
  {
    hide IsDigit;
  }

  lemma {:induction false} PartAt(s: string, from: nat, to: nat) returns (n: nat)
    requires from <= to <= |s| && forall k :: from <= k < to ==> IsDigit(s[k])
    ensures n < Pow10(to - from) && s[from..to] == Digits(n, to - from)
  {
    n := Number(s[from..to]);
    NumberBound(s[from..to]);
    DigitsOfNumber(s[from..to]);
  }

  lemma {:induction false} ThousandDigits(n: nat)
    ensures Digits(n * 1_000, 6) == Digits(n, 3) + Zeros(3)
  {
    assert Digits(n * 10, 4) == Digits(n, 3) + ['0'];
    assert Digits(n * 100, 5) == Digits(n * 10, 4) + ['0'];
    assert Digits(n * 1_000, 6) == Digits(n * 100, 5) + ['0'];
  }

  lemma {:induction false} ZeroDigits(width: nat)
    ensures Digits(0, width) == Zeros(width)
  {
    if width > 0 {
      ZeroDigits(width - 1);
    }
  }

  /** The microseconds are the fraction's digits, padded with zeros. */
  lemma {:induction false} FractionDigits(s: string)
    requires Matches(s)
    ensures Fraction(s) < MICROS_PER_SECOND && Digits(Fraction(s), 6) == MicrosText(s[19..|s| - 1])
  {
    hide Digits, Number;
    FractionBound(s);
    var fraction := s[19..|s| - 1];
    if |s| == 20 {
      ZeroDigits(6);
      assert fraction == "" && "" + Zeros(6) == Zeros(6);
    } else if |s| == 24 {
      assert s[20..23] == fraction[1..];
      DigitsOfNumber(s[20..23]);
      ThousandDigits(Number(s[20..23]));
    } else {
      assert s[20..26] == fraction[1..];
      DigitsOfNumber(s[20..26]);
      assert fraction[1..] + Zeros(0) == fraction[1..];
    }
  }

  /**
   Which literals lex, what each names, and what is wrong with each of the others: its date or its
   time is none of the calendar or the clock, or else its year is before 1970.
   */
  lemma {:induction false} LexWritten(year: nat, month: nat, day: nat, hour: nat, minute: nat, second: nat, fraction: string)
    requires year < 10_000 && month < 100 && day < 100 && hour < 100 && minute < 100 && second < 100
    requires |fraction| in {0, 4, 7} && (fraction != "" ==> fraction[0] == '.')
    requires forall k :: 1 <= k < |fraction| ==> IsDigit(fraction[k])
    ensures var s := Written(year, month, day, hour, minute, second, fraction);
            var named := RealDate(year, month, day) && RealTime(hour, minute, second);
            && Matches(s)
            && (Lex(s) == Err(InvalidTimestamp) <==> !named)
            && (Lex(s) == Err(TimestampBeforeEpoch) <==> named && year < 1970)
            && (Lex(s).Ok? ==>
                  && CivilFromDays(Lex(s).value / MICROS_PER_SECOND / 86_400) == (year, month, day)
                  && Lex(s).value / MICROS_PER_SECOND % 86_400 == hour * 3_600 + minute * 60 + second
                  && Digits(Lex(s).value % MICROS_PER_SECOND, 6) == MicrosText(fraction))
  {
    hide Digits, Number, CivilFromDays, DaysFromCivil, Fraction, DaysInMonth, MicrosText, Written, Matches;
    var s := Written(year, month, day, hour, minute, second, fraction);
    WrittenFields(year, month, day, hour, minute, second, fraction);
    if Lex(s).Ok? {
      FractionDigits(s);
      var date := Date(year, month, day);
      FromEpoch(date);
      CivilOfDays(date);
      Clock(DaysFromCivil(date), hour, minute, second, Fraction(s));
    }
  }

  // ----- lexing, then printing

  /** A fraction is printed as short as one that names the same microseconds can be written. */
  lemma {:induction false} ShortestFraction(micros: nat, fraction: string)
    requires |fraction| in {0, 4, 7} && (fraction != "" ==> fraction[0] == '.')
    requires micros < MICROS_PER_SECOND && Digits(micros, 6) == MicrosText(fraction)
    ensures |PrintFraction(micros)| <= |fraction|
    ensures |PrintFraction(micros)| == |fraction| ==> PrintFraction(micros) == fraction
  {
    hide Digits, Number;
    Powers();
    NumberOfDigits(micros, 6);
    if fraction == "" {
      assert "" + Zeros(6) == Zeros(6);
      ZeroDigits(6);
      NumberOfDigits(0, 6);
    } else if |fraction| == 4 {
      ThousandsOnly(micros, fraction[1..]);
      assert fraction == "." + fraction[1..];
    } else {
      assert fraction[1..] + Zeros(0) == fraction[1..];
      assert fraction == "." + fraction[1..];
    }
  }

  lemma {:induction false} ThousandsOnly(micros: nat, front: string)
    requires |front| == 3 && micros < MICROS_PER_SECOND && Digits(micros, 6) == front + Zeros(3)
    ensures micros % 1_000 == 0 && front == Digits(micros / 1_000, 3)
  {
    assert Digits(micros, 6) == Digits(micros / 10, 5) + [Digit(micros % 10)];
    assert Digits(micros / 10, 5) == Digits(micros / 10 / 10, 4) + [Digit(micros / 10 % 10)];
    assert Digits(micros / 10 / 10, 4) == Digits(micros / 10 / 10 / 10, 3) + [Digit(micros / 10 / 10 % 10)];
    var all := Digits(micros, 6);
    assert all[5] == Digit(micros % 10) && all[4] == Digit(micros / 10 % 10) && all[3] == Digit(micros / 10 / 10 % 10);
    assert all[5] == '0' && all[4] == '0' && all[3] == '0';
    assert all[..3] == front && all[..3] == Digits(micros / 10 / 10 / 10, 3);
  }

  /** Two literals of the same instant differ at most in how many zeros end the fraction. */
  lemma {:induction false} LexedSame(a: string, b: string)
    requires Matches(a) && Matches(b) && Lex(a).Ok? && Lex(a) == Lex(b)
    ensures a[..19] == b[..19] && MicrosText(a[19..|a| - 1]) == MicrosText(b[19..|b| - 1])
    ensures |a| == |b| ==> a == b
  {
    hide Lex, Print, MicrosText;
    PrintLexed(a);
    PrintLexed(b);
    if |a| == |b| {
      var f, g := a[19..|a| - 1], b[19..|b| - 1];
      assert f == g by {
        SameFraction(f, g);
      }
      ThreePieces(a);
      ThreePieces(b);
    }
  }

  lemma {:induction false} ThreePieces(s: string)
    requires Matches(s)
    ensures s == s[..19] + s[19..|s| - 1] + "Z"
  {
    assert s[|s| - 1..] == "Z";
  }

  lemma {:induction false} SameFraction(f: string, g: string)
    requires |f| == |g| && |f| in {0, 4, 7} && MicrosText(f) == MicrosText(g)
    requires f != "" ==> f[0] == g[0] == '.'
    ensures f == g
  {
    if f != "" {
      assert MicrosText(f)[..|f| - 1] == f[1..] && MicrosText(g)[..|f| - 1] == g[1..];
      assert f == "." + f[1..] && g == "." + g[1..];
    }
  }

  /** What lexes prints as the one shortest literal that names the same instant. */
  lemma {:induction false} PrintLexed(s: string)
    requires Matches(s) && Lex(s).Ok?
    ensures Matches(Print(Lex(s).value)) && Lex(Print(Lex(s).value)) == Lex(s)
    ensures Print(Lex(s).value)[..19] == s[..19] && Digits(Lex(s).value % MICROS_PER_SECOND, 6) == MicrosText(s[19..|s| - 1])
    ensures |Print(Lex(s).value)| <= |s| && (|Print(Lex(s).value)| == |s| ==> Print(Lex(s).value) == s)
  {
    hide Digits, Number, CivilFromDays, DaysFromCivil, Fraction, DaysInMonth, PrintFraction, MicrosText;
    var year, month, day, hour, minute, second, fraction := LiteralParts(s);
    LexWritten(year, month, day, hour, minute, second, fraction);
    LexedBound(s);
    LexPrinted(Lex(s).value);
    ClockParts(hour, minute, second);
    hide Lex, Print;
    var micros := Lex(s).value;
    assert Print(micros) == Written(year, month, day, hour, minute, second, PrintFraction(micros % MICROS_PER_SECOND)) by {
      PrintedAs(micros, year, month, day, hour, minute, second);
    }
    SameStamp(year, month, day, hour, minute, second, fraction, PrintFraction(micros % MICROS_PER_SECOND));
    ShortestFraction(micros % MICROS_PER_SECOND, fraction);
  }

  lemma {:induction false} PrintedAs(micros: nat, year: nat, month: nat, day: nat, hour: nat, minute: nat, second: nat)
    requires CivilFromDays(micros / MICROS_PER_SECOND / 86_400) == (year, month, day)
    requires var time := micros / MICROS_PER_SECOND % 86_400; time / 3_600 == hour && time / 60 % 60 == minute && time % 60 == second
    ensures Print(micros) == Written(year, month, day, hour, minute, second, PrintFraction(micros % MICROS_PER_SECOND))
  {
    hide Digits, CivilFromDays, Written, PrintFraction;
  }

  /** Two literals of one date and time differ in the fraction alone. */
  lemma {:induction false} SameStamp(year: nat, month: nat, day: nat, hour: nat, minute: nat, second: nat, f: string, g: string)
    ensures var a, b := Written(year, month, day, hour, minute, second, f), Written(year, month, day, hour, minute, second, g);
            && |a| == 20 + |f| && |b| == 20 + |g| && a[..19] == b[..19] && a[19..|a| - 1] == f && b[19..|b| - 1] == g
  {
    hide Digits;
  }

  lemma {:induction false} ClockParts(hour: nat, minute: nat, second: nat)
    requires RealTime(hour, minute, second)
    ensures var time := hour * 3_600 + minute * 60 + second;
            time / 3_600 == hour && time / 60 % 60 == minute && time % 60 == second
  {
    var minutes := hour * 60 + minute;
    var time := 60 * minutes + second;
    assert time / 60 == minutes && time % 60 == second;
    assert minutes % 60 == minute;
  }

  lemma {:induction false} Clock(days: nat, hour: nat, minute: nat, second: nat, fraction: nat)
    requires hour <= 23 && minute <= 59 && second <= 59 && fraction < MICROS_PER_SECOND
    ensures var seconds := days * 86_400 + hour * 3_600 + minute * 60 + second;
            var micros := seconds * MICROS_PER_SECOND + fraction;
            && micros / MICROS_PER_SECOND == seconds && micros % MICROS_PER_SECOND == fraction
            && seconds / 86_400 == days
            && seconds % 86_400 / 3_600 == hour && seconds % 86_400 / 60 % 60 == minute && seconds % 86_400 % 60 == second
  {
  }
}
