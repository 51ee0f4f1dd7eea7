/** The `MM:SS` text the countdown label shows: `formatTime` in
    src/AlarmGUI.java, which prints Java's truncating quotient and remainder by
    60 with the `%02d` conversion of `String.format`. */
module ClockFormat {

  import opened Optional
  import opened JavaInt
  import opened JavaText

  /** The `%02d` conversion: the decimal form of `n`, padded with zeros on the
      left to two characters. A negative number prints its minus sign first
      and, being at least two characters long already, gets no padding. */
  function Pad2(n: int): (r: string)
    ensures |r| >= 2
    ensures 0 <= n ==> AllDigits(r) && DigitsValue(r) == n
    ensures 0 <= n < 100 <==> |r| == 2 && AllDigits(r)
    ensures n < 0 <==> r[0] == '-'
    ensures n < 0 ==> AllDigits(r[1..]) && DigitsValue(r[1..]) == -n && r[1] != '0'
    ensures r[0] == '0' ==> 0 <= n < 10
  {
    if n < 0 then
      assert ("-" + Decimal(-n))[1..] == Decimal(-n);
      "-" + Decimal(-n)
    else if n < 10 then
      LeadingZero(Decimal(n));
      "0" + Decimal(n)
    else Decimal(n)
  }

  /** Two fields of a clock display joined by a colon. */
  function Colon(a: string, b: string): (r: string)
    ensures |r| == |a| + 1 + |b|
    ensures r[..|a|] == a && r[|a|] == ':' && r[|a| + 1..] == b
    ensures forall c :: c in r <==> c == ':' || c in a || c in b
  {
    a + ":" + b
  }

  /** `formatTime(seconds)`: whole minutes, a colon, then the seconds left over,
      each through `%02d`. */
  function FormatTime(seconds: int): (r: string)
    requires IsInt(seconds)
    ensures |r| >= 5 && ':' in r
    ensures 0 <= seconds ==> r[|r| - 3] == ':'
    ensures 0 <= seconds ==> AllDigits(r[|r| - 2..]) && DigitsValue(r[|r| - 2..]) < 60
    ensures 0 <= seconds ==> (|r| == 5 <==> seconds < 6000)
    ensures seconds < 0 <==> '-' in r
  {
    var mins, secs := Div(seconds, 60), Rem(seconds, 60);
    assert seconds < 0 ==> mins < 0 || secs < 0;
    assert 0 <= seconds ==> 0 <= secs < 60 && (mins < 100 <==> seconds < 6000);
    Colon(Pad2(mins), Pad2(secs))
  }

  /** Reads a countdown text back: digits for the minutes, a colon, and two
      digits for a seconds value below 60. The inverse of `FormatTime` on the
      values a countdown is meant to show. */
  function ReadClock(t: string): Option<int> {
    if |t| >= 4 && t[|t| - 3] == ':' && AllDigits(t[..|t| - 3]) && AllDigits(t[|t| - 2..])
       && DigitsValue(t[|t| - 2..]) < 60
    then Some(60 * DigitsValue(t[..|t| - 3]) + DigitsValue(t[|t| - 2..]))
    else None
  }

  /** For every non-negative number of seconds, reading the countdown text
      back gives the same number of seconds; the seconds part is the Dafny
      remainder, which agrees with Java's on non-negative numbers. */
  lemma FormatTimeRoundTrip(seconds: int)
    requires IsInt(seconds) && 0 <= seconds
    ensures ReadClock(FormatTime(seconds)) == Some(seconds)
    ensures FormatTime(seconds) == Pad2(seconds / 60) + ":" + Pad2(seconds % 60)
  {
    var q, r := seconds / 60, seconds % 60;
    assert FormatTime(seconds) == Colon(Pad2(q), Pad2(r));
    ReadColon(Pad2(q), Pad2(r));
  }

  /** Reading back a digit field, a colon and a two-digit field below 60. */
  lemma ReadColon(m: string, s: string)
    requires 0 < |m| && AllDigits(m)
    requires |s| == 2 && AllDigits(s) && DigitsValue(s) < 60
    ensures ReadClock(Colon(m, s)) == Some(60 * DigitsValue(m) + DigitsValue(s))
  {
    var t := Colon(m, s);
    assert |t| - 3 == |m| && |t| - 2 == |m| + 1;
    assert t[..|t| - 3] == m && t[|t| - 2..] == s && t[|t| - 3] == ':';
  }

  /** A count below ten seconds prints as "00:0" followed by its digit. */
  lemma FormatTimeUnderTen(n: int)
    requires 0 <= n < 10
    ensures FormatTime(n) == "00:0" + [DigitChar(n)]
  {
    assert FormatTime(n) == Colon(Pad2(0), Pad2(n)) by {
      assert Div(n, 60) == 0 && Rem(n, 60) == n;
    }
    assert Pad2(0) == "00" by {
      assert Decimal(0) == "0";
    }
    assert Pad2(n) == "0" + [DigitChar(n)];
  }

  /** A negative countdown is printed with a minus sign in the seconds part
      only, since Java's `/` rounds toward zero: one second below zero reads
      "00:-1". */
  lemma FormatTimeMinusOne()
    ensures FormatTime(-1) == "00:-1"
  {
    assert FormatTime(-1) == Colon(Pad2(0), Pad2(-1)) by {
      assert Div(-1, 60) == 0 && Rem(-1, 60) == -1;
    }
    assert Pad2(0) == "00" by {
      assert Decimal(0) == "0";
    }
    assert Pad2(-1) == "-1" by {
      assert Decimal(1) == "1";
    }
    assert Colon("00", "-1") == "00:-1";
  }

}
