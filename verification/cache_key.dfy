/**
 * `getCacheKey` of service/ExchangeRateService.java: the point-cache key of an
 * exchange rate is the bank id in decimal, a dash, the source currency code, a
 * dash, and the target currency code.
 */
module CacheKey {

  predicate IsDigit(ch: char)
  {
    '0' <= ch <= '9'
  }

  function DigitChar(d: nat): (ch: char)
    requires d < 10
    ensures IsDigit(ch)
  {
    (48 + d) as char
  }

  /** Decimal rendering of a natural number, most significant digit first, no leading zeros. */
  function NatToString(n: nat): (s: string)
    ensures 0 < |s|
    ensures n >= 10 ==> 2 <= |s|
    ensures forall i :: 0 <= i < |s| ==> IsDigit(s[i])
  {
    if n < 10 then [DigitChar(n)] else NatToString(n / 10) + [DigitChar(n % 10)]
  }

  /** `String.valueOf(long)`: decimal with a leading minus sign for a negative id. */
  function LongToString(b: int): string
  {
    if b < 0 then "-" + NatToString(-b) else NatToString(b)
  }

  /** `getCacheKey(bankId, fromCurrencyCode, toCurrencyCode)`. */
  function Key(bankId: int, from: string, to: string): (k: string)
    ensures |k| == |LongToString(bankId)| + |from| + |to| + 2
  {
    LongToString(bankId) + "-" + from + "-" + to
  }

  /** Different numbers have different decimal renderings. */
  lemma {:induction false} NatToStringInjective(a: nat, b: nat)
    requires NatToString(a) == NatToString(b)
    ensures a == b
    decreases a
  {
    var s := NatToString(a);
    if a >= 10 && b >= 10 {
      assert NatToString(a / 10) == s[..|s| - 1] == NatToString(b / 10);
      NatToStringInjective(a / 10, b / 10);
      assert DigitChar(a % 10) == s[|s| - 1] == DigitChar(b % 10);
    }
  }

  /** Different bank ids render differently, negative ones included. */
  lemma LongToStringInjective(a: int, b: int)
    requires LongToString(a) == LongToString(b)
    ensures a == b
  {
    var s := LongToString(a);
    assert IsDigit(LongToString(a)[0]) <==> a >= 0;
    assert IsDigit(LongToString(b)[0]) <==> b >= 0;
    if a < 0 && b < 0 {
      assert NatToString(-a) == s[1..] == NatToString(-b);
      NatToStringInjective(-a, -b);
    } else if a >= 0 && b >= 0 {
      NatToStringInjective(a, b);
    }
  }

  /**
   * With three-character currency codes the key determines the bank id and
   * both codes. Codes of other lengths can collide (`KeyCollidesForDashedCodes`).
   */
  lemma KeyInjective(b1: int, from1: string, to1: string, b2: int, from2: string, to2: string)
    requires |from1| == 3 && |to1| == 3 && |from2| == 3 && |to2| == 3
    ensures Key(b1, from1, to1) == Key(b2, from2, to2) <==> b1 == b2 && from1 == from2 && to1 == to2
  {
    var k1, k2 := Key(b1, from1, to1), Key(b2, from2, to2);
    if k1 == k2 {
      var l1, l2 := LongToString(b1), LongToString(b2);
      var n := |l1|;
      assert |l2| == n;
      assert k1[..n] == l1 && k2[..n] == l2;
      LongToStringInjective(b1, b2);
      assert k1[n + 1..n + 4] == from1 && k2[n + 1..n + 4] == from2;
      assert k1[n + 5..] == to1 && k2[n + 5..] == to2;
    }
  }

  /** Bank 1, USD to EUR. */
  lemma KeyOfUsdEur()
    ensures Key(1, "USD", "EUR") == "1-USD-EUR"
  {
  }

  /** Without the fixed code length the derivation is not injective: a dash inside a code moves the boundary. */
  lemma KeyCollidesForDashedCodes()
    ensures Key(1, "A-B", "C") == Key(1, "A", "B-C")
  {
  }
}
