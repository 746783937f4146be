/**
 * Names the converter derives for the advertisements it creates:
 * `<pool>-l2-advertisement` and `<pool>-bgp-advertisement-<index>`, the index
 * written in decimal as the `%d` verb writes a non-negative integer.
 */
module Names {

  const L2AdvertisementSuffix: string := "-l2-advertisement"
  const BgpAdvertisementInfix: string := "-bgp-advertisement-"

  predicate IsDigit(c: char) {
    '0' <= c <= '9'
  }

  predicate AllDigits(s: string) {
    forall i :: 0 <= i < |s| ==> IsDigit(s[i])
  }

  function DigitChar(d: nat): (c: char)
    requires d < 10
    ensures IsDigit(c)
  {
    ('0' as int + d) as char
  }

  function DigitValue(c: char): nat
    requires IsDigit(c)
  {
    c as int - '0' as int
  }

  /** Decimal text of `n`: non-empty and made of digits only. */
  function DecimalString(n: nat): (s: string)
    ensures |s| > 0 && AllDigits(s)
  {
    if n < 10 then [DigitChar(n)] else DecimalString(n / 10) + [DigitChar(n % 10)]
  }

  /** Reads a digit string back as a number; the inverse of DecimalString. */
  function DecimalValue(s: string): nat
    requires AllDigits(s)
  {
    if s == [] then 0 else 10 * DecimalValue(s[..|s| - 1]) + DigitValue(s[|s| - 1])
  }

  lemma {:induction false} DecimalRoundTrip(n: nat)
    ensures DecimalValue(DecimalString(n)) == n
  {
    var s := DecimalString(n);
    if n >= 10 {
      assert s[..|s| - 1] == DecimalString(n / 10);
      DecimalRoundTrip(n / 10);
    }
  }

  lemma DecimalStringInjective(i: nat, j: nat)
    requires DecimalString(i) == DecimalString(j)
    ensures i == j
  {
    DecimalRoundTrip(i);
    DecimalRoundTrip(j);
  }

  function L2AdvertisementName(pool: string): string {
    pool + L2AdvertisementSuffix
  }

  function BgpAdvertisementName(pool: string, index: nat): string {
    pool + BgpAdvertisementInfix + DecimalString(index)
  }

  /** Distinct pools never share an L2Advertisement name. */
  lemma L2AdvertisementNameInjective(a: string, b: string)
    requires L2AdvertisementName(a) == L2AdvertisementName(b)
    ensures a == b
  {
    assert a == L2AdvertisementName(a)[..|a|];
    assert b == L2AdvertisementName(b)[..|b|];
  }

  /**
   * Two texts `x + dx` and `y + dy` that agree, where `x` and `y` end in a
   * non-digit and `dx`, `dy` are digits, have the digits in the same place.
   */
  lemma DigitSuffixAligned(x: string, dx: string, y: string, dy: string)
    requires |x| > 0 && |y| > 0 && !IsDigit(x[|x| - 1]) && !IsDigit(y[|y| - 1])
    requires AllDigits(dx) && AllDigits(dy)
    requires x + dx == y + dy
    ensures dx == dy && x == y
  {
    var s := x + dx;
    assert forall q :: |x| <= q < |s| ==> IsDigit(s[q]);
    assert forall q :: |y| <= q < |s| ==> IsDigit(s[q]);
    assert !IsDigit(s[|x| - 1]) && !IsDigit(s[|y| - 1]);
    assert dx == s[|x|..] == dy;
    assert x == s[..|x|] == y;
  }

  /**
   * A BGPAdvertisement name determines both its pool and its index: no two
   * (pool, index) pairs give the same name, even across pools.
   */
  lemma BgpAdvertisementNameInjective(a: string, i: nat, b: string, j: nat)
    requires BgpAdvertisementName(a, i) == BgpAdvertisementName(b, j)
    ensures a == b && i == j
  {
    var x, y := a + BgpAdvertisementInfix, b + BgpAdvertisementInfix;
    assert x[|x| - 1] == '-' && y[|y| - 1] == '-';
    DigitSuffixAligned(x, DecimalString(i), y, DecimalString(j));
    assert a == x[..|a|] && b == y[..|b|];
    DecimalStringInjective(i, j);
  }
}
