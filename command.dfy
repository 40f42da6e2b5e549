/** The text command the feeder's firmware receives, `DISPENSE:<hopper>:<grams>`, with
    the grams rounded to an integer the way Python's `round` does (halves to even)
    and both numbers written as Python's `str` writes an `int`. The reader of the
    command is given alongside as the writer's inverse. */
module Command {
  import opened Wrappers

  // ---------------------------------------------------------------- rounding

  /** `round(x)` for a float `x`: the nearest integer, a tie going to the even one. */
  function RoundHalfEven(x: real): (r: int)
    ensures -0.5 <= x - r as real <= 0.5
    ensures (x - r as real == 0.5 || r as real - x == 0.5) ==> r % 2 == 0
    ensures x >= 0.0 ==> r >= 0
  {
    var f := x.Floor;
    var frac := x - f as real;
    if frac < 0.5 then f
    else if frac > 0.5 then f + 1
    else if f % 2 == 0 then f
    else f + 1
  }

  /** The two properties above pin the rounding down: an integer within a half of `x`, even
      when exactly a half away, is `RoundHalfEven(x)`. */
  lemma RoundHalfEvenUnique(x: real, n: int)
    requires -0.5 <= x - n as real <= 0.5
    requires (x - n as real == 0.5 || n as real - x == 0.5) ==> n % 2 == 0
    ensures n == RoundHalfEven(x)
  {
  }

  // ---------------------------------------------------------------- decimal text

  predicate IsDigit(c: char)
  {
    '0' <= c <= '9'
  }

  predicate AllDigits(s: string)
  {
    forall i :: 0 <= i < |s| ==> IsDigit(s[i])
  }

  function DigitChar(d: int): (c: char)
    requires 0 <= d < 10
    ensures IsDigit(c) && c as int - '0' as int == d
  {
    ('0' as int + d) as char
  }

  /** The decimal digits of `n`, without leading zeros. */
  function NatToDecimal(n: nat): (r: string)
    ensures |r| > 0 && AllDigits(r)
    ensures r[0] == '0' ==> n == 0 && r == "0"
  {
    if n < 10 then [DigitChar(n)]
    else NatToDecimal(n / 10) + [DigitChar(n % 10)]
  }

  /** The number a string of decimal digits denotes. */
  function DecimalValue(s: string): nat
    requires AllDigits(s)
  {
    if s == [] then 0
    else DecimalValue(s[..|s| - 1]) * 10 + (s[|s| - 1] as int - '0' as int)
  }

  lemma {:induction false} DecimalRoundTrip(n: nat)
    ensures DecimalValue(NatToDecimal(n)) == n
  {
    if n >= 10 {
      DecimalRoundTrip(n / 10);
      var r := NatToDecimal(n);
      assert r[..|r| - 1] == NatToDecimal(n / 10);
    }
  }

  /** `str(i)` for an `int`: a minus sign before the digits of a negative number. */
  function IntToDecimal(i: int): (r: string)
    ensures |r| > 0 && (r[0] == '-' <==> i < 0)
    ensures ':' !in r
  {
    if i < 0 then "-" + NatToDecimal(-i) else NatToDecimal(i)
  }

  /** `int(s)` on the text `IntToDecimal` writes, and nothing on other text. */
  function ParseInt(s: string): Option<int>
  {
    if |s| > 1 && s[0] == '-' && AllDigits(s[1..]) then Some(-(DecimalValue(s[1..]) as int))
    else if |s| > 0 && AllDigits(s) then Some(DecimalValue(s))
    else None
  }

  lemma ParseIntRoundTrip(i: int)
    ensures ParseInt(IntToDecimal(i)) == Some(i)
  {
    if i < 0 {
      assert IntToDecimal(i)[1..] == NatToDecimal(-i);
      DecimalRoundTrip(-i);
    } else {
      DecimalRoundTrip(i);
    }
  }

  // ---------------------------------------------------------------- the command

  const Prefix: string := "DISPENSE:"

  /** Splits at the first colon. */
  function SplitAtColon(s: string): Option<(string, string)>
  {
    if s == [] then None
    else if s[0] == ':' then Some(([], s[1..]))
    else
      match SplitAtColon(s[1..])
      case Some((a, b)) => Some(([s[0]] + a, b))
      case None => None
  }

  lemma {:induction false} SplitAtColonJoin(a: string, b: string)
    requires ':' !in a
    ensures SplitAtColon(a + ":" + b) == Some((a, b))
  {
    if a == [] {
      assert a + ":" + b == [':'] + b;
    } else {
      assert (a + ":" + b)[1..] == a[1..] + ":" + b;
      SplitAtColonJoin(a[1..], b);
      assert [a[0]] + a[1..] == a;
    }
  }

  /** The command that dispenses `grams`, rounded, from hopper `hopper`. */
  function DispenseCommand(hopper: int, grams: real): (r: string)
    ensures |r| > |Prefix| && r[..|Prefix|] == Prefix
  {
    Prefix + IntToDecimal(hopper) + ":" + IntToDecimal(RoundHalfEven(grams))
  }

  /** The reader's side: hopper and grams of a well-formed command. */
  function ParseCommand(s: string): Option<(int, int)>
  {
    if |s| < |Prefix| || s[..|Prefix|] != Prefix then None
    else
      match SplitAtColon(s[|Prefix|..])
      case None => None
      case Some((h, g)) =>
        match (ParseInt(h), ParseInt(g))
        case (Some(hopper), Some(grams)) => Some((hopper, grams))
        case _ => None
  }

  /** Reading a written command gives back the hopper and the rounded grams. */
  lemma CommandRoundTrip(hopper: int, grams: real)
    ensures ParseCommand(DispenseCommand(hopper, grams)) == Some((hopper, RoundHalfEven(grams)))
  {
    var h := IntToDecimal(hopper);
    var g := IntToDecimal(RoundHalfEven(grams));
    assert DispenseCommand(hopper, grams)[|Prefix|..] == h + ":" + g;
    SplitAtColonJoin(h, g);
    ParseIntRoundTrip(hopper);
    ParseIntRoundTrip(RoundHalfEven(grams));
  }

  /** Two commands are the same text exactly when they name the same hopper and the same
      rounded grams. */
  lemma CommandInjective(h1: int, g1: real, h2: int, g2: real)
    ensures DispenseCommand(h1, g1) == DispenseCommand(h2, g2) <==>
      h1 == h2 && RoundHalfEven(g1) == RoundHalfEven(g2)
  {
    CommandRoundTrip(h1, g1);
    CommandRoundTrip(h2, g2);
  }
}
