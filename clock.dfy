/** Broken-down local time (`datetime.datetime` without time zone) and the two
    `strftime` layouts the program prints: "%Y-%m-%d_%H-%M-%S" in result-folder names and
    "%Y-%m-%d %H:%M:%S" in the file table. */
module Clock {
  import opened Text

  datatype DateTime = DateTime(year: nat, month: nat, day: nat, hour: nat, minute: nat, second: nat)

  predicate IsLeapYear(year: nat)
  {
    year % 4 == 0 && (year % 100 != 0 || year % 400 == 0)
  }

  function DaysInMonth(year: nat, month: nat): nat
  {
    if month == 2 then (if IsLeapYear(year) then 29 else 28)
    else if month == 4 || month == 6 || month == 9 || month == 11 then 30
    else 31
  }

  /** The ranges a `datetime` keeps its fields in (years 1 to 9999). */
  predicate Valid(t: DateTime)
  {
    && 1 <= t.year <= 9999
    && 1 <= t.month <= 12
    && 1 <= t.day <= DaysInMonth(t.year, t.month)
    && t.hour < 24 && t.minute < 60 && t.second < 60
  }

  /** A number printed in decimal and padded with zeros to `width` digits (`%0Nd`). */
  function Field(n: nat, width: nat): string
  {
    ZeroPad(Numeral(n, 10), width)
  }

  /** A decimal numeral has no more digits than the width of the first power of ten above it. */
  lemma {:induction false} NumeralWidth(n: nat, width: nat)
    requires 1 <= width && n < Power(10, width)
    ensures |Numeral(n, 10)| <= width
    decreases n
  {
    if n >= 10 {
      assert width >= 2;
      assert n / 10 < Power(10, width - 1);
      NumeralWidth(n / 10, width - 1);
    }
  }

  lemma FieldWidth(n: nat, width: nat)
    requires 1 <= width && n < Power(10, width)
    ensures |Field(n, width)| == width
    ensures NumeralValue(Field(n, width), 10) == n
  {
    NumeralWidth(n, width);
    ZeroPadValue(Numeral(n, 10), width, 10);
    NumeralValueOfNumeral(n, 10);
  }

  /** `t.strftime("%Y-%m-%d" + [between] + "%H" + [timeSep] + "%M" + [timeSep] + "%S")`. */
  function Stamp(t: DateTime, between: char, timeSep: char): string
  {
    DatePart(t) + [between] + TimePart(t, timeSep)
  }

  /** "%Y-%m-%d" */
  function DatePart(t: DateTime): string
  {
    Field(t.year, 4) + "-" + Field(t.month, 2) + "-" + Field(t.day, 2)
  }

  /** "%H" + [timeSep] + "%M" + [timeSep] + "%S" */
  function TimePart(t: DateTime, timeSep: char): string
  {
    Field(t.hour, 2) + [timeSep] + Field(t.minute, 2) + [timeSep] + Field(t.second, 2)
  }

  /** Reads the six numbers back from the fixed positions of a stamp. */
  function StampFields(s: string): DateTime
    requires |s| == 19
  {
    DateTime(NumeralValue(s[0..4], 10), NumeralValue(s[5..7], 10), NumeralValue(s[8..10], 10),
             NumeralValue(s[11..13], 10), NumeralValue(s[14..16], 10), NumeralValue(s[17..19], 10))
  }

  lemma PowersOfTen()
    ensures Power(10, 2) == 100 && Power(10, 4) == 10000
  {
    assert Power(10, 1) == 10;
    assert Power(10, 3) == 1000;
  }

  /** Three numerals of widths 4, 2 and 2 joined by a separator read back from their places. */
  lemma WideNarrowNarrow(a: string, b: string, c: string, sep: char, x: nat, y: nat, z: nat)
    requires |a| == 4 && |b| == 2 && |c| == 2
    requires NumeralValue(a, 10) == x && NumeralValue(b, 10) == y && NumeralValue(c, 10) == z
    ensures var s := a + [sep] + b + [sep] + c;
      && |s| == 10 && s[4] == sep && s[7] == sep
      && NumeralValue(s[0..4], 10) == x && NumeralValue(s[5..7], 10) == y && NumeralValue(s[8..10], 10) == z
  {
    var s := a + [sep] + b + [sep] + c;
    assert s[0..4] == a && s[5..7] == b && s[8..10] == c;
  }

  /** Three numerals of width 2 joined by a separator read back from their places. */
  lemma NarrowThree(a: string, b: string, c: string, sep: char, x: nat, y: nat, z: nat)
    requires |a| == 2 && |b| == 2 && |c| == 2
    requires NumeralValue(a, 10) == x && NumeralValue(b, 10) == y && NumeralValue(c, 10) == z
    ensures var s := a + [sep] + b + [sep] + c;
      && |s| == 8 && s[2] == sep && s[5] == sep
      && NumeralValue(s[0..2], 10) == x && NumeralValue(s[3..5], 10) == y && NumeralValue(s[6..8], 10) == z
  {
    var s := a + [sep] + b + [sep] + c;
    assert s[0..2] == a && s[3..5] == b && s[6..8] == c;
  }

  lemma DatePartLayout(t: DateTime)
    requires 1 <= t.year <= 9999 && 1 <= t.month <= 12 && 1 <= t.day <= 31
    ensures |DatePart(t)| == 10 && DatePart(t)[4] == '-' && DatePart(t)[7] == '-'
    ensures NumeralValue(DatePart(t)[0..4], 10) == t.year
    ensures NumeralValue(DatePart(t)[5..7], 10) == t.month
    ensures NumeralValue(DatePart(t)[8..10], 10) == t.day
  {
    var y, m, d := t.year, t.month, t.day;
    PowersOfTen();
    FieldWidth(y, 4);
    FieldWidth(m, 2);
    FieldWidth(d, 2);
    WideNarrowNarrow(Field(y, 4), Field(m, 2), Field(d, 2), '-', y, m, d);
  }

  lemma TimePartLayout(t: DateTime, timeSep: char)
    requires t.hour < 24 && t.minute < 60 && t.second < 60
    ensures |TimePart(t, timeSep)| == 8 && TimePart(t, timeSep)[2] == timeSep && TimePart(t, timeSep)[5] == timeSep
    ensures NumeralValue(TimePart(t, timeSep)[0..2], 10) == t.hour
    ensures NumeralValue(TimePart(t, timeSep)[3..5], 10) == t.minute
    ensures NumeralValue(TimePart(t, timeSep)[6..8], 10) == t.second
  {
    var h, m, sec := t.hour, t.minute, t.second;
    PowersOfTen();
    FieldWidth(h, 2);
    FieldWidth(m, 2);
    FieldWidth(sec, 2);
    NarrowThree(Field(h, 2), Field(m, 2), Field(sec, 2), timeSep, h, m, sec);
  }

  /** A date and a time joined by one character read back from their places. */
  lemma DateAndTime(d: string, c: string, between: char, timeSep: char, t: DateTime)
    requires |d| == 10 && d[4] == '-' && d[7] == '-'
    requires |c| == 8 && c[2] == timeSep && c[5] == timeSep
    requires NumeralValue(d[0..4], 10) == t.year && NumeralValue(d[5..7], 10) == t.month
    requires NumeralValue(d[8..10], 10) == t.day && NumeralValue(c[0..2], 10) == t.hour
    requires NumeralValue(c[3..5], 10) == t.minute && NumeralValue(c[6..8], 10) == t.second
    ensures var s := d + [between] + c;
      && |s| == 19 && StampFields(s) == t
      && s[4] == '-' && s[7] == '-' && s[10] == between && s[13] == timeSep && s[16] == timeSep
  {
    var s := d + [between] + c;
    assert s[0..4] == d[0..4] && s[5..7] == d[5..7] && s[8..10] == d[8..10];
    assert s[11..13] == c[0..2] && s[14..16] == c[3..5] && s[17..19] == c[6..8];
  }

  /** A stamp is nineteen characters with its separators at fixed places, and its six
      numbers read back as the time it was made from, so the stamp loses nothing. */
  lemma StampRoundTrip(t: DateTime, between: char, timeSep: char)
    requires Valid(t)
    ensures |Stamp(t, between, timeSep)| == 19
    ensures StampFields(Stamp(t, between, timeSep)) == t
    ensures Stamp(t, between, timeSep)[4] == '-' && Stamp(t, between, timeSep)[7] == '-'
    ensures Stamp(t, between, timeSep)[10] == between
    ensures Stamp(t, between, timeSep)[13] == timeSep && Stamp(t, between, timeSep)[16] == timeSep
  {
    assert t.day <= 31;
    DatePartLayout(t);
    TimePartLayout(t, timeSep);
    DateAndTime(DatePart(t), TimePart(t, timeSep), between, timeSep, t);
  }

  /** Two different times never print the same stamp. */
  lemma StampInjective(t: DateTime, u: DateTime, between: char, timeSep: char)
    requires Valid(t) && Valid(u) && t != u
    ensures Stamp(t, between, timeSep) != Stamp(u, between, timeSep)
  {
    StampRoundTrip(t, between, timeSep);
    StampRoundTrip(u, between, timeSep);
  }
}
