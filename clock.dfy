/** The countdown display of the word game: the seconds left are shown as
    minutes, a colon, and the seconds padded to two digits ("5:00", "0:07").
    The arithmetic follows the browser's: minutes are the floor of t / 60,
    seconds are t % 60 with JavaScript's remainder (truncated toward zero),
    rendered by Number.prototype.toString and padStart(2, '0'). */
module Clock {

  datatype Option<T> = None | Some(value: T)

  predicate IsDigit(ch: char) { '0' <= ch <= '9' }

  /** The first n characters of s are decimal digits. */
  predicate DigitsUpTo(s: string, n: nat)
    requires n <= |s|
  {
    forall k :: 0 <= k < n ==> IsDigit(s[k])
  }

  function DigitValue(ch: char): int
  {
    ch as int - '0' as int
  }

  function Digit(d: nat): (ch: char)
    requires d < 10
    ensures IsDigit(ch) && DigitValue(ch) == d
  {
    (d + '0' as int) as char
  }

  /** Number.prototype.toString of a non-negative integer: its decimal
      digits, most significant first, without leading zeros. */
  function Decimal(n: nat): (s: string)
    ensures 1 <= |s| && DigitsUpTo(s, |s|)
    ensures |s| == 1 <==> n < 10
    ensures s[0] == '0' <==> n == 0
  {
    if n < 10 then [Digit(n)] else Decimal(n / 10) + [Digit(n % 10)]
  }

  /** The value of the decimal digits s[0..n). */
  function ValueOf(s: string, n: nat): int
    requires n <= |s|
  {
    if n == 0 then 0 else ValueOf(s, n - 1) * 10 + DigitValue(s[n - 1])
  }

  /** Number.prototype.toString of any integer: a minus sign exactly for
      a negative number, then the decimal digits of its magnitude, with no
      leading zero. */
  function NumberText(x: int): (s: string)
    ensures |s| >= 1 && (s[0] == '-' <==> x < 0)
    ensures x >= 0 ==> DigitsUpTo(s, |s|) && ValueOf(s, |s|) == x
    ensures x < 0 ==> DigitsUpTo(s[1..], |s| - 1) && ValueOf(s[1..], |s| - 1) == -x
    ensures x >= 0 ==> (s[0] == '0' ==> |s| == 1)
    ensures x < 0 ==> |s| >= 2 && s[1] != '0'
  {
    if x < 0 then
      DecimalRoundTrip(-x);
      assert ("-" + Decimal(-x))[1..] == Decimal(-x);
      "-" + Decimal(-x)
    else
      DecimalRoundTrip(x);
      Decimal(x)
  }

  /** n copies of a character. */
  function Repeat(ch: char, n: nat): (r: string)
    ensures |r| == n && forall k :: 0 <= k < n ==> r[k] == ch
  {
    if n == 0 then "" else [ch] + Repeat(ch, n - 1)
  }

  /** String.prototype.padStart with a one-character filler: s, preceded
      by as many fillers as it takes to reach the width. */
  function PadStart(s: string, width: nat, fill: char): (r: string)
    ensures |r| == if |s| < width then width else |s|
    ensures r[|r| - |s|..] == s
    ensures forall k :: 0 <= k < |r| - |s| ==> r[k] == fill
  {
    if |s| < width then Repeat(fill, width - |s|) + s else s
  }

  /** JavaScript's % for a positive divisor: the sign follows the dividend. */
  function JsRemainder(a: int, b: int): (r: int)
    requires b > 0
    ensures -b < r < b
    ensures a >= 0 ==> r == a % b
    ensures a <= 0 ==> r <= 0
  {
    if a >= 0 then a % b else -((-a) % b)
  }

  /** The remainder the timer takes, by 60, in terms of Dafny's Euclidean
      remainder: the same for a non-negative dividend or a multiple of 60,
      and 60 less otherwise, so that JsRemainder(-1, 60) == -1. */
  lemma JsRemainder60(a: int)
    ensures JsRemainder(a, 60) == if a >= 0 || a % 60 == 0 then a % 60 else a % 60 - 60
  {
  }

  /** The text updateTimerDisplay shows for t seconds left.  Math.floor of
      t / 60 is Dafny's division, which rounds down for a positive divisor.
      For a non-negative time it is the decimal minutes, a colon, and the
      seconds as two digits. */
  function TimerText(t: int): (r: string)
    ensures t >= 0 ==> r == Decimal(t / 60) + ":" + TwoDigits(t % 60)
  {
    var minutes, seconds := t / 60, JsRemainder(t, 60);
    PaddedSeconds(t % 60);
    NonNegativeText(minutes);
    NumberText(minutes) + ":" + PadStart(NumberText(seconds), 2, '0')
  }

  /** toString of a non-negative number is its decimal digits alone. */
  lemma NonNegativeText(x: int)
    ensures x >= 0 ==> NumberText(x) == Decimal(x)
  {
  }

  /** Reads a "minutes:seconds" display back: digits, a colon, and two digits
      whose value is below 60. */
  function ParseTimer(text: string): Option<int>
  {
    if |text| >= 4 && text[|text| - 3] == ':' && DigitsUpTo(text, |text| - 3)
       && IsDigit(text[|text| - 2]) && IsDigit(text[|text| - 1])
       && DigitValue(text[|text| - 2]) * 10 + DigitValue(text[|text| - 1]) < 60
    then Some(ValueOf(text, |text| - 3) * 60
              + DigitValue(text[|text| - 2]) * 10 + DigitValue(text[|text| - 1]))
    else None
  }

  /** The value of a prefix depends on that prefix alone. */
  lemma {:induction false} ValueOfPrefix(s: string, u: string, n: nat)
    requires n <= |s| && n <= |u|
    requires forall k :: 0 <= k < n ==> s[k] == u[k]
    ensures ValueOf(s, n) == ValueOf(u, n)
  {
    if n > 0 {
      ValueOfPrefix(s, u, n - 1);
    }
  }

  /** Decimal and ValueOf are inverse. */
  lemma {:induction false} DecimalRoundTrip(n: nat)
    ensures ValueOf(Decimal(n), |Decimal(n)|) == n
  {
    if n >= 10 {
      var s, d := Decimal(n), Decimal(n / 10);
      DecimalRoundTrip(n / 10);
      ValueOfPrefix(s, d, |d|);
      assert n == (n / 10) * 10 + n % 10;
    }
  }

  /** The two digits of a number below 100. */
  function TwoDigits(n: nat): string
    requires n < 100
  {
    [Digit(n / 10), Digit(n % 10)]
  }

  /** padStart(2, '0') of the decimal seconds gives their two digits. */
  lemma PaddedSeconds(sec: nat)
    requires sec < 60
    ensures PadStart(NumberText(sec), 2, '0') == TwoDigits(sec)
  {
    if sec < 10 {
      assert sec / 10 == 0 && sec % 10 == sec;
      assert Repeat('0', 1) == ['0'];
    } else {
      assert sec / 10 < 10;
      assert Decimal(sec) == [Digit(sec / 10)] + [Digit(sec % 10)];
    }
  }

  /** A display assembled from q minutes and sec seconds reads back as
      q * 60 + sec. */
  lemma ParseAssembled(q: nat, sec: nat)
    requires sec < 60
    ensures ParseTimer(Decimal(q) + ":" + TwoDigits(sec)) == Some(q * 60 + sec)
  {
    var m := Decimal(q);
    var text := m + ":" + TwoDigits(sec);
    assert sec == (sec / 10) * 10 + sec % 10;
    DecimalRoundTrip(q);
    ValueOfPrefix(text, m, |m|);
    assert |text| - 3 == |m|;
    assert DigitValue(text[|text| - 2]) == sec / 10;
    assert DigitValue(text[|text| - 1]) == sec % 10;
  }

  /** Every display of a non-negative time reads back as that time. */
  lemma TimerTextRoundTrip(t: nat)
    ensures ParseTimer(TimerText(t)) == Some(t)
  {
    var q, sec := t / 60, t % 60;
    assert q * 60 + sec == t;
    ParseAssembled(q, sec);
  }

  /** The layout of a "minutes:seconds" display: at least one digit, a
      colon, and exactly two digits. */
  predicate TimerLayout(r: string)
  {
    |r| >= 4 && r[|r| - 3] == ':' && DigitsUpTo(r, |r| - 3)
    && IsDigit(r[|r| - 2]) && IsDigit(r[|r| - 1])
  }

  /** A non-negative time is shown as at least one digit of minutes, a
      colon, and exactly two digits of seconds. */
  lemma TimerTextShape(t: nat)
    ensures TimerLayout(TimerText(t))
  {
    var r := TimerText(t);
    TimerTextRoundTrip(t);
    assert ParseTimer(r).Some?;
  }

  /** Distinct non-negative times have distinct displays. */
  lemma TimerTextInjective(t1: nat, t2: nat)
    requires t1 != t2
    ensures TimerText(t1) != TimerText(t2)
  {
    TimerTextRoundTrip(t1);
    TimerTextRoundTrip(t2);
  }

  /** The start of a game shows five minutes; a minute and five seconds
      show as "1:05"; the last second before time runs out shows "0:01". */
  lemma TimerTextExamples()
    ensures TimerText(300) == "5:00"
    ensures TimerText(65) == "1:05"
    ensures TimerText(1) == "0:01"
  {
    assert 300 / 60 == 5 && 300 % 60 == 0;
    assert 65 / 60 == 1 && 65 % 60 == 5;
    assert 1 / 60 == 0 && 1 % 60 == 1;
    assert TwoDigits(0) == "00" && TwoDigits(5) == "05" && TwoDigits(1) == "01";
  }
}
