/** The three pieces of `java.lang` text handling the alarm controller relies
    on: `String.trim`, `Integer.parseInt` (radix 10) and `Integer.toString`. */
module JavaText {

  import opened Optional
  import opened JavaInt

  // ---------------------------------------------------------------------
  // Decimal digits
  // ---------------------------------------------------------------------

  predicate IsDigit(c: char) {
    '0' <= c <= '9'
  }

  predicate AllDigits(s: string) {
    forall i :: 0 <= i < |s| ==> IsDigit(s[i])
  }

  /** The character of a single decimal digit. */
  function DigitChar(d: nat): (c: char)
    requires d < 10
    ensures IsDigit(c)
  {
    (('0' as int) + d) as char
  }

  /** The value of a single decimal digit character. */
  function DigitValue(c: char): (d: nat)
    requires IsDigit(c)
    ensures d < 10
    ensures DigitChar(d) == c
  {
    (c as int) - ('0' as int)
  }

  /** The number a run of decimal digits denotes, most significant digit first. */
  function DigitsValue(s: string): nat
    requires AllDigits(s)
  {
    if |s| == 0 then 0 else 10 * DigitsValue(s[..|s| - 1]) + DigitValue(s[|s| - 1])
  }

  /** `Integer.toString` of a non-negative number: the shortest run of digits
      denoting `n`. */
  function Decimal(n: nat): (r: string)
    ensures AllDigits(r) && DigitsValue(r) == n
    ensures |r| == 1 <==> n < 10
    ensures 10 <= n < 100 ==> |r| == 2
    ensures 100 <= n ==> |r| > 2
    ensures r[0] == '0' ==> n == 0
  {
    if n < 10 then [DigitChar(n)]
    else
      var r := Decimal(n / 10) + [DigitChar(n % 10)];
      assert r[..|r| - 1] == Decimal(n / 10);
      r
  }

  /** `Integer.toString` of any number: a minus sign before the magnitude when negative. */
  function IntToString(v: int): (r: string)
    ensures |r| > 0
    ensures r[0] == '-' <==> v < 0
    ensures 0 <= v ==> AllDigits(r) && DigitsValue(r) == v
    ensures v < 0 ==> AllDigits(r[1..]) && DigitsValue(r[1..]) == -v && r[1] != '0'
    ensures r[0] == '0' ==> v == 0
  {
    if v < 0 then
      assert ("-" + Decimal(-v))[1..] == Decimal(-v);
      "-" + Decimal(-v)
    else Decimal(v)
  }

  /** A zero in front of a run of digits does not change the number it denotes. */
  lemma {:induction false} LeadingZero(s: string)
    requires AllDigits(s)
    ensures AllDigits("0" + s) && DigitsValue("0" + s) == DigitsValue(s)
  {
    var t := "0" + s;
    if |s| > 0 {
      assert t[..|t| - 1] == "0" + s[..|s| - 1];
      LeadingZero(s[..|s| - 1]);
    }
  }

  /** Extending a run of digits on the right never lowers the number it denotes. */
  lemma {:induction false} PrefixValue(s: string, k: nat)
    requires AllDigits(s) && k <= |s|
    ensures AllDigits(s[..k]) && DigitsValue(s[..k]) <= DigitsValue(s)
  {
    if k < |s| {
      assert s[..|s| - 1][..k] == s[..k];
      PrefixValue(s[..|s| - 1], k);
    } else {
      assert s[..k] == s;
    }
  }

  // ---------------------------------------------------------------------
  // String.trim
  // ---------------------------------------------------------------------

  /** The characters `String.trim` strips: every code point up to and including
      the space character (all ASCII control characters and the space). */
  predicate IsTrimmable(c: char) {
    c <= ' '
  }

  predicate AllTrimmable(s: string) {
    forall i :: 0 <= i < |s| ==> IsTrimmable(s[i])
  }

  /** How many trimmable characters `s` starts with. */
  function Leading(s: string): (k: nat)
    ensures k <= |s| && AllTrimmable(s[..k])
    ensures k < |s| ==> !IsTrimmable(s[k])
  {
    if |s| > 0 && IsTrimmable(s[0]) then
      var k := 1 + Leading(s[1..]);
      assert s[..k] == [s[0]] + s[1..][..k - 1];
      k
    else 0
  }

  /** How many trimmable characters `s` ends with. */
  function Trailing(s: string): (k: nat)
    ensures k <= |s| && AllTrimmable(s[|s| - k..])
    ensures k < |s| ==> !IsTrimmable(s[|s| - k - 1])
  {
    if |s| > 0 && IsTrimmable(s[|s| - 1]) then
      var k := 1 + Trailing(s[..|s| - 1]);
      assert s[|s| - k..] == s[..|s| - 1][|s| - k..] + [s[|s| - 1]];
      k
    else 0
  }

  /** `String.trim`: `s` with leading and trailing trimmable characters removed.
      The result is the slice of `s` after its leading trimmable characters
      with only trimmable characters after it; it neither begins nor ends with
      a trimmable character. */
  function Trim(s: string): (r: string)
    ensures var k := Leading(s);
      && k + |r| <= |s|
      && r == s[k..k + |r|]
      && AllTrimmable(s[k + |r|..])
    ensures |r| > 0 ==> !IsTrimmable(r[0]) && !IsTrimmable(r[|r| - 1])
  {
    var k, t := Leading(s), Trailing(s);
    if k == |s| then []
    else
      assert !IsTrimmable(s[k]);
      assert k < |s| - t;
      s[k..|s| - t]
  }

  /** Trimming twice is trimming once. */
  lemma TrimIdempotent(s: string)
    ensures Trim(Trim(s)) == Trim(s)
  {
    var r := Trim(s);
    if |r| > 0 {
      assert Leading(r) == 0 && Trailing(r) == 0;
      assert r[Leading(r)..|r| - Trailing(r)] == r;
    }
  }

  /** Text made only of trimmable characters trims to nothing, and nothing
      else does. */
  lemma TrimEmpty(s: string)
    ensures Trim(s) == [] <==> AllTrimmable(s)
  {
    var k := Leading(s);
    if Trim(s) == [] {
      assert s == s[..k] + s[k..];
    } else {
      assert !IsTrimmable(s[k]);
    }
  }

  /** Printed numbers have nothing to trim. */
  lemma TrimPrinted(v: int)
    ensures Trim(IntToString(v)) == IntToString(v)
  {
    var s := IntToString(v);
    assert !IsTrimmable(s[0]) && !IsTrimmable(s[|s| - 1]);
    assert Leading(s) == 0 && Trailing(s) == 0;
    assert s[Leading(s)..|s| - Trailing(s)] == s;
  }

  // ---------------------------------------------------------------------
  // Integer.parseInt
  // ---------------------------------------------------------------------

  /** `Integer.parseInt(s)` with radix 10: an optional `-` or `+`, then at least
      one decimal digit and nothing else, denoting a value that fits in an
      `int`. `None` stands for the `NumberFormatException` thrown otherwise. */
  function ParseInt(s: string): (r: Option<int>)
    ensures r.Some? ==> IsInt(r.value)
    ensures r.Some? ==> 0 < |s| && (IsDigit(s[0]) || s[0] == '-' || s[0] == '+')
    ensures r.Some? && r.value < 0 ==> s[0] == '-'
  {
    if |s| == 0 then None
    else
      var negative := s[0] == '-';
      var digits := if s[0] == '-' || s[0] == '+' then s[1..] else s;
      if |digits| == 0 || !AllDigits(digits) then None
      else
        var m: int := DigitsValue(digits);
        var v := if negative then -m else m;
        if IsInt(v) then Some(v) else None
  }

  /** Printing any `int` and parsing it back yields the same `int`. */
  lemma ParseIntToString(v: int)
    requires IsInt(v)
    ensures ParseInt(IntToString(v)) == Some(v)
  {
    var s := IntToString(v);
    if v < 0 {
      assert s[1..] == Decimal(-v);
    }
  }

  /** A leading `+` or any number of leading zeros does not change what
      `Integer.parseInt` reads. */
  lemma ParseIntPlusAndZero(s: string)
    requires 0 < |s| && AllDigits(s)
    ensures ParseInt("+" + s) == ParseInt(s)
    ensures ParseInt("0" + s) == ParseInt(s)
  {
    assert ("+" + s)[1..] == s;
    LeadingZero(s);
  }

  /** The scanning loop of `Integer.parseInt`: reads the sign, then the digits
      left to right, and gives up as soon as a character is not a digit or the
      magnitude read so far exceeds what the sign allows. */
  method ParseIntScan(s: string) returns (r: Option<int>)
    ensures r == ParseInt(s)
  {
    if |s| == 0 {
      return None;
    }
    var negative := s[0] == '-';
    var start := if s[0] == '-' || s[0] == '+' then 1 else 0;
    if start == |s| {
      return None;
    }
    var limit := if negative then -IntMin else IntMax;
    var digits := s[start..];
    assert start == 0 ==> digits == s;
    var acc := 0;
    var i := 0;
    while i < |digits|
      invariant 0 <= i <= |digits|
      invariant AllDigits(digits[..i])
      invariant acc == DigitsValue(digits[..i])
      invariant acc <= limit
    {
      if !IsDigit(digits[i]) {
        assert !AllDigits(digits);
        return None;
      }
      var d := DigitValue(digits[i]);
      NextDigit(digits, i);
      if acc * 10 + d > limit {
        assert ParseInt(s) == None by {
          if AllDigits(digits) {
            PrefixValue(digits, i + 1);
          }
        }
        return None;
      }
      acc := acc * 10 + d;
      i := i + 1;
    }
    var v: int := if negative then -acc else acc;
    assert ParseInt(s) == Some(v) by {
      assert digits[..i] == digits;
    }
    r := Some(v);
  }

  /** Reading one more digit: ten times the value so far, plus the digit. */
  lemma NextDigit(s: string, i: nat)
    requires i < |s| && AllDigits(s[..i]) && IsDigit(s[i])
    ensures AllDigits(s[..i + 1])
    ensures DigitsValue(s[..i + 1]) == 10 * DigitsValue(s[..i]) + DigitValue(s[i])
  {
    assert s[..i + 1][..i] == s[..i];
  }

}
