/**
 * Text forms of the primitive field values the entities write into their field
 * maps: `Integer.toString`/`Integer.parseInt`, `Boolean.toString`/
 * `Boolean.parseBoolean`, `String.format("%02d", n)`, and the decimal form of
 * money amounts (`Double.toString`/`Double.parseDouble` for amounts held in
 * whole cents).
 */
module Codec {
  import opened Options
  import opened Text
  import opened Seqs

  predicate IsDigit(c: char) {
    '0' <= c <= '9'
  }

  predicate AllDigits(s: string) {
    forall i :: 0 <= i < |s| ==> IsDigit(s[i])
  }

  function DigitChar(d: nat): (c: char)
    requires d < 10
    ensures IsDigit(c)
  {
    ('0' as int + d) as char
  }

  function DigitValue(c: char): (d: nat)
    requires IsDigit(c)
    ensures d < 10
  {
    c as int - '0' as int
  }

  /** Decimal digits of a natural number, most significant first, no leading zeros. */
  function NatText(n: nat): (s: string)
    ensures |s| > 0 && AllDigits(s)
    decreases n
  {
    if n < 10 then [DigitChar(n)] else NatText(n / 10) + [DigitChar(n % 10)]
  }

  function DigitsValue(s: string): nat
    requires AllDigits(s)
    decreases |s|
  {
    if |s| == 0 then 0 else DigitsValue(s[..|s| - 1]) * 10 + DigitValue(s[|s| - 1])
  }

  /** A non-empty run of decimal digits, read as a number. */
  function ParseNat(s: string): Option<nat> {
    if |s| > 0 && AllDigits(s) then Some(DigitsValue(s)) else None
  }

  lemma {:induction false} NatTextValue(n: nat)
    ensures DigitsValue(NatText(n)) == n
    decreases n
  {
    if n >= 10 {
      var s := NatText(n);
      assert s[..|s| - 1] == NatText(n / 10);
      NatTextValue(n / 10);
    }
  }

  /** Reading back the digits of a natural number gives the number. */
  lemma NatRoundTrip(n: nat)
    ensures ParseNat(NatText(n)) == Some(n)
  {
    NatTextValue(n);
  }

  /** `Integer.toString`. */
  function IntText(i: int): string {
    if i < 0 then "-" + NatText(-i) else NatText(i)
  }

  /** `Integer.parseInt`: an optional sign followed by at least one digit. */
  function ParseInt(s: string): Option<int> {
    if |s| > 0 && (s[0] == '-' || s[0] == '+') then
      match ParseNat(s[1..])
      case None => None
      case Some(n) =>
        var v: int := if s[0] == '-' then -(n as int) else n;
        Some(v)
    else
      match ParseNat(s)
      case None => None
      case Some(n) => Some(n)
  }

  /** Every integer's text reads back as that integer. */
  lemma IntRoundTrip(i: int)
    ensures ParseInt(IntText(i)) == Some(i)
  {
    if i < 0 {
      var s := IntText(i);
      assert s[1..] == NatText(-i);
      NatRoundTrip(-i);
    } else {
      NatRoundTrip(i);
    }
  }

  /** `Boolean.toString`. */
  function BoolText(b: bool): string {
    if b then "true" else "false"
  }

  /** `Boolean.parseBoolean`: true exactly for "true" in any letter case. */
  function ParseBool(s: string): bool {
    Lower(s) == "true"
  }

  lemma BoolRoundTrip(b: bool)
    ensures ParseBool(BoolText(b)) == b
  {
    if !b {
      assert Lower("false")[0] == 'f';
    } else {
      assert Lower("true") == "true";
    }
  }

  /** `String.format("%02d", n)`: zero-padded to width two. */
  function Pad2(n: int): (s: string)
    ensures 0 <= n < 100 ==> s == [DigitChar(n / 10), DigitChar(n % 10)]
  {
    if 0 <= n < 10 then
      "0" + NatText(n)
    else
      var s := IntText(n);
      assert 10 <= n < 100 ==> s == NatText(n / 10) + [DigitChar(n % 10)];
      s
  }

  /** The cents part of a money amount: one digit when the second is zero, as Java prints doubles. */
  function FractionText(f: nat): (s: string)
    requires f < 100
    ensures 1 <= |s| <= 2 && AllDigits(s)
  {
    if f % 10 == 0 then [DigitChar(f / 10)] else [DigitChar(f / 10), DigitChar(f % 10)]
  }

  /**
   * An amount held in cents, written the way `Double.toString` writes it for
   * amounts below ten million: "80.0", "12.5", "0.05", "-3.25".
   */
  function MoneyText(cents: int): string {
    if cents < 0 then "-" + UnsignedMoneyText(-cents) else UnsignedMoneyText(cents)
  }

  function UnsignedMoneyText(cents: nat): string {
    NatText(cents / 100) + "." + FractionText(cents % 100)
  }

  /** Digits, optionally followed by a point and one or two digits, as cents. */
  function ParseUnsignedMoney(s: string): Option<int> {
    var k := IndexOf(s, '.');
    if k == |s| then
      match ParseNat(s)
      case None => None
      case Some(n) => Some(n * 100)
    else
      var frac := s[k + 1..];
      match ParseNat(s[..k])
      case None => None
      case Some(whole) =>
        if |frac| == 1 && IsDigit(frac[0]) then Some(whole * 100 + DigitValue(frac[0]) * 10)
        else if |frac| == 2 && AllDigits(frac) then Some(whole * 100 + DigitValue(frac[0]) * 10 + DigitValue(frac[1]))
        else None
  }

  /** `Double.parseDouble` restricted to amounts with at most two decimals. */
  function ParseMoney(s: string): Option<int> {
    if |s| > 0 && s[0] == '-' then
      match ParseUnsignedMoney(s[1..])
      case None => None
      case Some(c) => Some(-c)
    else
      ParseUnsignedMoney(s)
  }

  lemma UnsignedMoneyRoundTrip(cents: nat)
    ensures ParseUnsignedMoney(UnsignedMoneyText(cents)) == Some(cents)
  {
    var whole := NatText(cents / 100);
    var frac := FractionText(cents % 100);
    var s := UnsignedMoneyText(cents);
    assert s == whole + ['.'] + frac;
    forall i | 0 <= i < |whole|
      ensures whole[i] != '.'
    {
      assert IsDigit(whole[i]);
    }
    IndexOfAfter(whole, '.', frac);
    assert s[..|whole|] == whole;
    assert s[|whole| + 1..] == frac;
    NatRoundTrip(cents / 100);
  }

  /** Every amount's text reads back as that amount. */
  lemma MoneyRoundTrip(cents: int)
    ensures ParseMoney(MoneyText(cents)) == Some(cents)
  {
    if cents < 0 {
      UnsignedMoneyRoundTrip(-cents);
      MinusRead(UnsignedMoneyText(-cents), -cents);
    } else {
      UnsignedMoneyStartsWithDigit(cents);
      UnsignedMoneyRoundTrip(cents);
      PlainRead(UnsignedMoneyText(cents));
    }
  }

  lemma UnsignedMoneyStartsWithDigit(cents: nat)
    ensures |UnsignedMoneyText(cents)| > 0 && IsDigit(UnsignedMoneyText(cents)[0])
  {
    var whole := NatText(cents / 100);
    assert UnsignedMoneyText(cents)[0] == whole[0];
  }

  /** A minus sign before an unsigned amount's text negates it. */
  lemma MinusRead(u: string, c: int)
    requires ParseUnsignedMoney(u) == Some(c)
    ensures ParseMoney("-" + u) == Some(-c)
  {
    assert ("-" + u)[1..] == u;
  }

  /** A text not starting with a minus sign is read as unsigned. */
  lemma PlainRead(u: string)
    requires |u| > 0 && u[0] != '-'
    ensures ParseMoney(u) == ParseUnsignedMoney(u)
  {
  }

  // ---------------------------------------------------------------------------
  // The generated texts are visible characters only
  // ---------------------------------------------------------------------------

  lemma DigitsPrintable(s: string)
    requires AllDigits(s)
    ensures Printable(s)
  {
    forall i | 0 <= i < |s| ensures '!' <= s[i] <= '~' {
      assert IsDigit(s[i]);
    }
  }

  lemma IntTextPrintable(i: int)
    ensures Printable(IntText(i)) && |IntText(i)| > 0
  {
    if i < 0 {
      DigitsPrintable(NatText(-i));
      PrintableConcat("-", NatText(-i));
    } else {
      DigitsPrintable(NatText(i));
    }
  }

  lemma MoneyTextPrintable(cents: int)
    ensures Printable(MoneyText(cents)) && |MoneyText(cents)| > 0
  {
    var n: nat := if cents < 0 then -cents else cents;
    DigitsPrintable(NatText(n / 100));
    DigitsPrintable(FractionText(n % 100));
    PrintableConcat(NatText(n / 100), ".");
    PrintableConcat(NatText(n / 100) + ".", FractionText(n % 100));
    if cents < 0 {
      PrintableConcat("-", UnsignedMoneyText(n));
    }
  }

  lemma BoolTextPrintable(b: bool)
    ensures Printable(BoolText(b)) && |BoolText(b)| > 0
  {
  }

  lemma Pad2Printable(n: int)
    ensures Printable(Pad2(n)) && |Pad2(n)| > 0
  {
    if 0 <= n < 10 {
      DigitsPrintable(NatText(n));
      PrintableConcat("0", NatText(n));
    } else {
      IntTextPrintable(n);
    }
  }
}
