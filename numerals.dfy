/**
 * Decimal integers in tokens: what `int(token)` accepts and what `'%d' % k`
 * writes, for the forms the wire format uses.
 */
module Numerals {
  import opened Wrappers

  predicate IsDigit(c: char) {
    '0' <= c <= '9'
  }

  predicate AllDigits(s: string) {
    forall k :: 0 <= k < |s| ==> IsDigit(s[k])
  }

  /** The value of a run of decimal digits (leading zeros allowed, as in `int("007")`). */
  function DigitsValue(s: string): nat
    requires AllDigits(s)
  {
    if s == [] then 0 else DigitsValue(s[..|s| - 1]) * 10 + (s[|s| - 1] as int - '0' as int)
  }

  /**
   * `int(token)`: an optional sign followed by one or more ASCII digits;
   * anything else is the ValueError, here None.
   */
  function ParseInt(s: string): (r: Option<int>)
    ensures r.Some? <==> s != [] && (IsDigit(s[0]) || (|s| >= 2 && (s[0] == '-' || s[0] == '+'))) && AllDigits(s[1..])
    ensures r.Some? && r.value < 0 ==> s[0] == '-'
    ensures r.Some? && s[0] != '-' ==> r.value >= 0
  {
    if |s| >= 2 && (s[0] == '-' || s[0] == '+') && AllDigits(s[1..]) then
      Some(if s[0] == '-' then 0 - DigitsValue(s[1..]) as int else DigitsValue(s[1..]) as int)
    else if |s| >= 1 && AllDigits(s) then
      Some(DigitsValue(s))
    else
      None
  }

  function Digit(d: nat): (c: char)
    requires d < 10
    ensures IsDigit(c) && c as int - '0' as int == d
  {
    ('0' as int + d) as char
  }

  /** `'%d' % k` for a non-negative k: its decimal digits, without leading zeros. */
  function NatToString(k: nat): (s: string)
    ensures |s| >= 1 && AllDigits(s)
    ensures |s| > 1 ==> s[0] != '0'
  {
    if k < 10 then [Digit(k)] else NatToString(k / 10) + [Digit(k % 10)]
  }

  lemma {:induction false} DigitsValueOfNatToString(k: nat)
    ensures DigitsValue(NatToString(k)) == k
  {
    if k >= 10 {
      DigitsValueOfNatToString(k / 10);
      var s := NatToString(k);
      assert s[..|s| - 1] == NatToString(k / 10);
    }
  }

  /** What `'%d'` writes, `int()` reads back. */
  lemma ParseNatToString(k: nat)
    ensures ParseInt(NatToString(k)) == Some(k)
  {
    DigitsValueOfNatToString(k);
  }

  /** A signed numeral reads as the signed value: the negative indices `read_vector` accepts. */
  lemma ParseSigned(k: nat)
    ensures ParseInt("-" + NatToString(k)) == Some(0 - k as int)
    ensures ParseInt("+" + NatToString(k)) == Some(k)
  {
    DigitsValueOfNatToString(k);
    assert ("-" + NatToString(k))[1..] == NatToString(k);
    assert ("+" + NatToString(k))[1..] == NatToString(k);
  }
}
