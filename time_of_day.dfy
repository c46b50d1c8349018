/**
 * The `HH:MM` strings the time manager hands to the schedule engine, and why
 * comparing them as strings compares the times of day.
 */
module TimeOfDay {
  import opened ArduinoString

  /** The leading zero `getTime` adds to a one-digit part. */
  function Pad(s: string): string
  {
    if |s| == 1 then "0" + s else s
  }

  /** `getTime`: the clock's hour and minute, each padded to two digits, joined by ':'. */
  function GetTime(hour: nat, minute: nat): (t: string)
    ensures IsValidTime(hour, minute) ==> t == TwoDigits(hour) + ":" + TwoDigits(minute)
  {
    Pad(Decimal(hour)) + ":" + Pad(Decimal(minute))
  }

  /** The two decimal digits of a value below 100. */
  function TwoDigits(n: nat): (r: string)
    requires n < 100
  {
    [Digit(n / 10), Digit(n % 10)]
  }

  predicate IsValidTime(hour: nat, minute: nat)
  {
    hour < 24 && minute < 60
  }

  function DigitValue(c: char): int
  {
    c as int - '0' as int
  }

  /** The hour and minute written in the `HH` and `MM` fields of an `HH:MM` string. */
  function ParseTime(s: string): (int, int)
    requires |s| == 5
  {
    (DigitValue(s[0]) * 10 + DigitValue(s[1]), DigitValue(s[3]) * 10 + DigitValue(s[4]))
  }

  lemma PadDecimal(n: nat)
    requires n < 100
    ensures Pad(Decimal(n)) == TwoDigits(n)
  {
    if n >= 10 {
      assert Decimal(n / 10) == [Digit(n / 10)];
    }
  }

  /**
   * For a valid hour and minute `getTime` gives exactly five characters:
   * two digits, ':', two digits.
   */
  lemma GetTimeShape(hour: nat, minute: nat)
    requires IsValidTime(hour, minute)
    ensures GetTime(hour, minute) == TwoDigits(hour) + ":" + TwoDigits(minute)
    ensures |GetTime(hour, minute)| == 5 && GetTime(hour, minute)[2] == ':'
    ensures forall i :: 0 <= i < 5 && i != 2 ==> '0' <= GetTime(hour, minute)[i] <= '9'
  {
    PadDecimal(hour);
    PadDecimal(minute);
  }

  /** Reading back the fields of a formatted time gives the hour and minute again. */
  lemma ParseGetTime(hour: nat, minute: nat)
    requires IsValidTime(hour, minute)
    ensures |GetTime(hour, minute)| == 5
    ensures ParseTime(GetTime(hour, minute)) == (hour, minute)
  {
    GetTimeShape(hour, minute);
  }

  /** Distinct valid times of day format to distinct strings. */
  lemma GetTimeInjective(h1: nat, m1: nat, h2: nat, m2: nat)
    requires IsValidTime(h1, m1) && IsValidTime(h2, m2)
    requires GetTime(h1, m1) == GetTime(h2, m2)
    ensures h1 == h2 && m1 == m2
  {
    ParseGetTime(h1, m1);
    ParseGetTime(h2, m2);
  }

  lemma LessCons(c: char, d: char, s: string, t: string)
    ensures Less([c] + s, [d] + t) == if c != d then c < d else Less(s, t)
  {
    assert ([c] + s)[1..] == s;
    assert ([d] + t)[1..] == t;
  }

  /** Two-digit fields compare as their values do; equal fields leave the decision to what follows. */
  lemma LessTwoDigits(a: nat, b: nat, s: string, t: string)
    requires a < 100 && b < 100
    ensures Less(TwoDigits(a) + s, TwoDigits(b) + t) == if a != b then a < b else Less(s, t)
  {
    var x, y := TwoDigits(a), TwoDigits(b);
    assert x + s == [x[0]] + ([x[1]] + s);
    assert y + t == [y[0]] + ([y[1]] + t);
    LessCons(x[0], y[0], [x[1]] + s, [y[1]] + t);
    LessCons(x[1], y[1], s, t);
    assert a == a / 10 * 10 + a % 10;
    assert b == b / 10 * 10 + b % 10;
  }

  /**
   * For valid times, the string order of two `getTime` results is the
   * chronological order of the (hour, minute) pairs: the property the
   * schedule engine's `>` between ring times relies on.
   */
  lemma GetTimeOrder(h1: nat, m1: nat, h2: nat, m2: nat)
    requires IsValidTime(h1, m1) && IsValidTime(h2, m2)
    ensures Less(GetTime(h1, m1), GetTime(h2, m2)) <==> h1 < h2 || (h1 == h2 && m1 < m2)
  {
    GetTimeShape(h1, m1);
    GetTimeShape(h2, m2);
    var r1, r2 := ":" + TwoDigits(m1), ":" + TwoDigits(m2);
    assert GetTime(h1, m1) == TwoDigits(h1) + r1;
    assert GetTime(h2, m2) == TwoDigits(h2) + r2;
    LessTwoDigits(h1, h2, r1, r2);
    LessCons(':', ':', TwoDigits(m1), TwoDigits(m2));
    assert TwoDigits(m1) == TwoDigits(m1) + [];
    assert TwoDigits(m2) == TwoDigits(m2) + [];
    LessTwoDigits(m1, m2, [], []);
  }
}
