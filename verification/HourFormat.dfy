/** The "HH:00" hour labels used by the availability editor and the schedule grid:
    the decimal form of an hour, padded on the left with '0' to two characters
    (JavaScript's `padStart(2, '0')`), followed by ":00". */
module HourFormat {
  import opened Domain

  predicate IsDigit(c: char) { '0' <= c <= '9' }

  predicate AllDigits(s: string) { forall k :: 0 <= k < |s| ==> IsDigit(s[k]) }

  function DigitChar(d: nat): (c: char)
    requires d < 10
    ensures IsDigit(c) && (c as int) - ('0' as int) == d
  {
    (('0' as int) + d) as char
  }

  /** Decimal digits of `n`, most significant first, without leading zeros. */
  function NatToDecimal(n: nat): (r: string)
    ensures |r| >= 1 && AllDigits(r)
    ensures n >= 10 ==> |r| >= 2 && r[0] != '0'
  {
    if n < 10 then [DigitChar(n)] else NatToDecimal(n / 10) + [DigitChar(n % 10)]
  }

  /** `n.toString()` for an integer: a minus sign before the digits of a negative number. */
  function IntToDecimal(i: int): string {
    if i < 0 then "-" + NatToDecimal(-i) else NatToDecimal(i)
  }

  /** `s.padStart(2, '0')`. */
  function PadStart2(s: string): string {
    if |s| < 2 then seq(2 - |s|, _ => '0') + s else s
  }

  /** The label `${h.toString().padStart(2, '0')}:00`. */
  function HourLabel(h: int): string {
    PadStart2(IntToDecimal(h)) + ":00"
  }

  /** The sixteen rows of the availability editor, 07:00 to 22:00. */
  const EditorHours: seq<string> := seq(16, i => HourLabel(i + 7))

  // ----- Reading an hour back: the inverse used to state what a label encodes -----

  /** The text before the first ':' (`s.split(':')[0]`). */
  function BeforeColon(s: string): (r: string)
    ensures |r| <= |s| && r == s[..|r|] && ':' !in r
    ensures |r| < |s| ==> s[|r|] == ':'
  {
    if s == [] || s[0] == ':' then [] else [s[0]] + BeforeColon(s[1..])
  }

  function DigitsValue(s: string): nat
    requires AllDigits(s)
  {
    if s == [] then 0
    else
      assert IsDigit(s[|s| - 1]);
      10 * DigitsValue(s[..|s| - 1]) + ((s[|s| - 1] as int) - ('0' as int))
  }

  /** The hour part of a well-formed "HH:mm" text: an optional '-' and one or more digits before
      the first ':'. Anything else has no hour (it is left out of the model: the application
      never produces it). */
  function ParseHour(s: string): Option<int> {
    var p := BeforeColon(s);
    if |p| >= 2 && p[0] == '-' && AllDigits(p[1..]) then Some(0 - DigitsValue(p[1..]) as int)
    else if |p| >= 1 && AllDigits(p) then Some(DigitsValue(p))
    else None
  }

  lemma {:induction false} DigitsValueOfDecimal(n: nat)
    ensures DigitsValue(NatToDecimal(n)) == n
  {
    if n >= 10 {
      var s := NatToDecimal(n);
      assert s[..|s| - 1] == NatToDecimal(n / 10);
      DigitsValueOfDecimal(n / 10);
    }
  }

  lemma {:induction false} LeadingZeroIgnored(s: string)
    requires AllDigits(s)
    ensures DigitsValue("0" + s) == DigitsValue(s)
  {
    if s != [] {
      assert ("0" + s)[..|"0" + s| - 1] == "0" + s[..|s| - 1];
      LeadingZeroIgnored(s[..|s| - 1]);
    }
  }

  /** Every label reads back as the hour it was made from. */
  lemma HourLabelRoundTrip(h: int)
    ensures ParseHour(HourLabel(h)) == Some(h)
  {
    var p := PadStart2(IntToDecimal(h));
    assert ':' !in p;
    BeforeColonOfPrefix(p, ":00");
    if h < 0 {
      NegativeLabelHour(h, p);
    } else if h < 10 {
      SmallLabelHour(h, p);
    } else {
      DigitsValueOfDecimal(h);
    }
  }

  lemma NegativeLabelHour(h: int, p: string)
    requires h < 0 && p == PadStart2(IntToDecimal(h))
    ensures |p| >= 2 && p[0] == '-' && AllDigits(p[1..]) && DigitsValue(p[1..]) == -h
  {
    DigitsValueOfDecimal(-h);
    assert p == "-" + NatToDecimal(-h);
    assert p[1..] == NatToDecimal(-h);
  }

  lemma SmallLabelHour(h: int, p: string)
    requires 0 <= h < 10 && p == PadStart2(IntToDecimal(h))
    ensures |p| == 2 && p[0] == '0' && AllDigits(p) && DigitsValue(p) == h
  {
    assert p == "0" + NatToDecimal(h);
    DigitsValueOfDecimal(h);
    LeadingZeroIgnored(NatToDecimal(h));
  }

  lemma {:induction false} BeforeColonOfPrefix(p: string, rest: string)
    requires ':' !in p && |rest| > 0 && rest[0] == ':'
    ensures BeforeColon(p + rest) == p
  {
    if p != [] {
      assert (p + rest)[1..] == p[1..] + rest;
      BeforeColonOfPrefix(p[1..], rest);
    } else {
      assert p + rest == rest;
    }
  }

  /** Distinct hours have distinct labels, so a label names exactly one hour. */
  lemma HourLabelInjective(a: int, b: int)
    requires HourLabel(a) == HourLabel(b)
    ensures a == b
  {
    HourLabelRoundTrip(a);
    HourLabelRoundTrip(b);
  }

  /** Hours 0 to 99 give five-character labels "HH:00". */
  lemma HourLabelShape(h: int)
    requires 0 <= h < 100
    ensures |HourLabel(h)| == 5 && HourLabel(h)[2..] == ":00"
    ensures IsDigit(HourLabel(h)[0]) && IsDigit(HourLabel(h)[1])
  {
    var d := NatToDecimal(h);
    if h >= 10 {
      assert d == NatToDecimal(h / 10) + [DigitChar(h % 10)];
      assert |d| == 2;
    }
  }
}
