/** `datetime.now()` and the two `strftime` formats the application writes:
    `%Y-%m-%d` (a calendar day) and `%Y-%m-%d %H:%M:%S` (a timestamp).
    The clock itself is an input: every operation that reads it takes a `DateTime`. */
module Clock {
  import opened Text

  datatype DateTime = DateTime(year: nat, month: nat, day: nat, hour: nat, minute: nat, second: nat)

  /** A reading of the clock with a four-digit year. */
  predicate ValidDateTime(t: DateTime)
  {
    1000 <= t.year <= 9999 && 1 <= t.month <= 12 && 1 <= t.day <= 31 &&
    t.hour < 24 && t.minute < 60 && t.second < 60
  }

  predicate SameDay(t: DateTime, u: DateTime)
  {
    t.year == u.year && t.month == u.month && t.day == u.day
  }

  function Digit(n: nat): (c: char)
    requires n < 10
    ensures '0' <= c <= '9' && c as int - '0' as int == n
  {
    ('0' as int + n) as char
  }

  function DigitValue(c: char): int
  {
    c as int - '0' as int
  }

  /** A zero-padded two-digit field (`%m`, `%d`, `%H`, `%M`, `%S`). */
  function Pad2(n: nat): (r: string)
    requires n < 100
    ensures |r| == 2 && DigitValue(r[0]) * 10 + DigitValue(r[1]) == n
  {
    [Digit(n / 10), Digit(n % 10)]
  }

  /** The four-digit year field `%Y`. */
  function Pad4(n: nat): (r: string)
    requires n < 10000
    ensures |r| == 4
    ensures DigitValue(r[0]) * 1000 + DigitValue(r[1]) * 100 + DigitValue(r[2]) * 10 + DigitValue(r[3]) == n
  {
    Pad2(n / 100) + Pad2(n % 100)
  }

  /** `t.strftime("%Y-%m-%d")` */
  function FormatDate(t: DateTime): (r: string)
    requires ValidDateTime(t)
    ensures |r| == 10 && r[4] == '-' && r[7] == '-'
  {
    Pad4(t.year) + "-" + Pad2(t.month) + "-" + Pad2(t.day)
  }

  /** `t.strftime("%Y-%m-%d %H:%M:%S")`: its first ten characters are the date. */
  function FormatTimestamp(t: DateTime): (r: string)
    requires ValidDateTime(t)
    ensures |r| == 19 && StartsWith(r, FormatDate(t))
  {
    FormatDate(t) + " " + Pad2(t.hour) + ":" + Pad2(t.minute) + ":" + Pad2(t.second)
  }

  /** Two clock readings give the same `%Y-%m-%d` text exactly when they fall on the same day. */
  lemma FormatDateInjective(t: DateTime, u: DateTime)
    requires ValidDateTime(t) && ValidDateTime(u)
    ensures FormatDate(t) == FormatDate(u) <==> SameDay(t, u)
  {
    if FormatDate(t) == FormatDate(u) {
      var a, b := FormatDate(t), FormatDate(u);
      assert Pad4(t.year) == a[..4] == b[..4] == Pad4(u.year);
      assert Pad2(t.month) == a[5..7] == b[5..7] == Pad2(u.month);
      assert Pad2(t.day) == a[8..10] == b[8..10] == Pad2(u.day);
    }
  }

  /** The prefix test `timestamp.startswith(today)` performed by the de-duplication
      checks recognises exactly the timestamps written on that day. */
  lemma TimestampOnDay(t: DateTime, d: DateTime)
    requires ValidDateTime(t) && ValidDateTime(d)
    ensures StartsWith(FormatTimestamp(t), FormatDate(d)) <==> SameDay(t, d)
  {
    var ts := FormatTimestamp(t);
    assert ts[..10] == FormatDate(t);
    FormatDateInjective(t, d);
  }
}
