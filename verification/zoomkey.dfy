/**
 The exact zoom key of a recipe's query map: the text `fmt.Sprintf("z%d", z)`
 builds in pg.go, i.e. the letter `z` followed by the decimal form of the zoom.
 Decimal formatting is given an inverse, so that the key is shown injective in
 the zoom and distinct from the wildcard key `z*`.
 */
module ZoomKey {
  import opened Wrappers

  /** The wildcard key that matches every zoom. */
  const Wildcard: string := "z*"

  predicate IsDigit(c: char) {
    '0' <= c <= '9'
  }

  predicate AllDigits(s: string) {
    forall i :: 0 <= i < |s| ==> IsDigit(s[i])
  }

  function DigitChar(d: nat): (c: char)
    requires d < 10
    ensures IsDigit(c)
    ensures c as int - '0' as int == d
  {
    ('0' as int + d) as char
  }

  /** The decimal digits of `n`, most significant first, without leading zeros. */
  function NatDigits(n: nat): (s: string)
    ensures |s| >= 1
    ensures AllDigits(s)
    ensures s[0] == '0' ==> n == 0
  {
    if n < 10 then [DigitChar(n)] else NatDigits(n / 10) + [DigitChar(n % 10)]
  }

  /** The number a string of decimal digits denotes (reference reading of a numeral). */
  function DigitsValue(s: string): nat
    requires AllDigits(s)
  {
    if |s| == 0 then 0
    else DigitsValue(s[..|s| - 1]) * 10 + (s[|s| - 1] as int - '0' as int)
  }

  /** Reading back the digits of `n` gives `n`. */
  lemma {:induction false} DigitsRoundTrip(n: nat)
    ensures DigitsValue(NatDigits(n)) == n
  {
    if n >= 10 {
      var s := NatDigits(n);
      var p := NatDigits(n / 10);
      assert s == p + [DigitChar(n % 10)];
      assert s[..|s| - 1] == p;
      DigitsRoundTrip(n / 10);
    }
  }

  /** Go's `%d` verb: a minus sign for negative values, then the digits of the magnitude. */
  function FormatInt(z: int): (s: string)
    ensures |s| >= 1
    ensures s[0] == '-' <==> z < 0
    ensures AllDigits(if z < 0 then s[1..] else s)
  {
    if z < 0 then "-" + NatDigits(-z) else NatDigits(z)
  }

  /** Inverse of `FormatInt`: an optional minus sign followed by at least one digit. */
  function ParseInt(s: string): (r: Option<int>)
    ensures r.Some? ==> |s| >= 1
  {
    if |s| >= 2 && s[0] == '-' && AllDigits(s[1..]) then Some(-(DigitsValue(s[1..]) as int))
    else if |s| >= 1 && AllDigits(s) then Some(DigitsValue(s))
    else None
  }

  /** Parsing a formatted zoom gives the zoom back. */
  lemma {:induction false} FormatParseRoundTrip(z: int)
    ensures ParseInt(FormatInt(z)) == Some(z)
  {
    if z < 0 {
      var s := FormatInt(z);
      assert s[1..] == NatDigits(-z);
      DigitsRoundTrip(-z);
    } else {
      var s := NatDigits(z);
      assert IsDigit(s[0]);
      DigitsRoundTrip(z);
    }
  }

  /** The exact key looked up for zoom `z`: `"z" + decimal(z)`. */
  function Exact(z: int): (k: string)
    ensures |k| >= 2 && k[0] == 'z'
    ensures k[1..] == FormatInt(z)
    ensures ParseInt(k[1..]) == Some(z)
  {
    FormatParseRoundTrip(z);
    "z" + FormatInt(z)
  }

  /** Different zooms never share an exact key. */
  lemma ExactInjective(a: int, b: int)
    requires Exact(a) == Exact(b)
    ensures a == b
  {
    assert Some(a) == ParseInt(Exact(a)[1..]) == ParseInt(Exact(b)[1..]) == Some(b);
  }

  /** No exact key is the wildcard key. */
  lemma ExactIsNotWildcard(z: int)
    ensures Exact(z) != Wildcard
  {
    var k := Exact(z);
    if z < 0 {
      assert k[1] == '-';
    } else {
      assert IsDigit(NatDigits(z)[0]);
      assert k[1] == NatDigits(z)[0];
    }
  }
}
