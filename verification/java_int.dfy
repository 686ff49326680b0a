/** Java's 32-bit `int`, `Integer.parseInt` and `Integer.toString`, as the
    migrators use them for the source database port. */
module JavaInt {
  import opened Wrappers

  const INT_MIN: int := -0x8000_0000
  const INT_MAX: int := 0x7fff_ffff

  /** A Java `int`. */
  type Int32 = x: int | INT_MIN <= x <= INT_MAX

  predicate IsDigit(c: char) {
    '0' <= c <= '9'
  }

  predicate AllDigits(s: string) {
    forall i :: 0 <= i < |s| ==> IsDigit(s[i])
  }

  function DigitChar(d: nat): (c: char)
    requires d < 10
    ensures IsDigit(c) && c as int - '0' as int == d
  {
    ('0' as int + d) as char
  }

  /** The number a string of decimal digits denotes, most significant first. */
  function DigitsValue(s: string): nat
    requires AllDigits(s)
    decreases |s|
  {
    if s == [] then 0
    else DigitsValue(s[..|s| - 1]) * 10 + (s[|s| - 1] as int - '0' as int)
  }

  function Pow10(k: nat): (r: nat)
    ensures r >= 1
  {
    if k == 0 then 1 else 10 * Pow10(k - 1)
  }

  /** Decimal digits of `n`, without leading zeros. */
  function NatToDecimal(n: nat): (r: string)
    ensures 0 < |r| && AllDigits(r)
    decreases n
  {
    if n < 10 then [DigitChar(n)] else NatToDecimal(n / 10) + [DigitChar(n % 10)]
  }

  /** `Integer.toString(n)`: an optional minus sign followed by the digits. */
  function FormatInt(n: int): (r: string)
    ensures 0 < |r|
    ensures forall i :: 0 <= i < |r| ==> IsDigit(r[i]) || (i == 0 && r[i] == '-')
    ensures r[0] == '-' <==> n < 0
  {
    if n < 0 then "-" + NatToDecimal(-n) else NatToDecimal(n)
  }

  /** `Integer.parseInt(s)`: an optional leading `-` or `+`, then at least one
      decimal digit, denoting a value within the `int` range. `None` stands for
      the `NumberFormatException` thrown otherwise. */
  function ParseInt(s: string): (r: Option<Int32>)
    ensures r.Some? ==> 0 < |s| && forall i :: 0 <= i < |s| ==>
      IsDigit(s[i]) || (i == 0 && (s[i] == '-' || s[i] == '+'))
  {
    if |s| == 0 then None
    else
      var signed := s[0] == '-' || s[0] == '+';
      var digits := if signed then s[1..] else s;
      if |digits| == 0 || !AllDigits(digits) then None
      else
        var magnitude: int := DigitsValue(digits);
        var v := if s[0] == '-' then -magnitude else magnitude;
        if INT_MIN <= v <= INT_MAX then Some(v) else None
  }

  lemma {:induction false} DigitsValueBound(s: string)
    requires AllDigits(s)
    ensures DigitsValue(s) < Pow10(|s|)
    decreases |s|
  {
    if s != [] {
      DigitsValueBound(s[..|s| - 1]);
    }
  }

  /** Any string of one to nine digits is accepted: such numbers fit in an `int`. */
  lemma ShortDigitStringsParse(s: string)
    requires 0 < |s| <= 9 && AllDigits(s)
    ensures ParseInt(s) == Some(DigitsValue(s))
  {
    DigitsValueBound(s);
    var k := |s|;
    assert Pow10(k) <= Pow10(9) by {
      var j := k;
      while j < 9
        invariant k <= j <= 9 && Pow10(k) <= Pow10(j)
      {
        j := j + 1;
      }
    }
  }

  /** `3307` is read as a port; `33o7` throws. */
  lemma PortExamplesParse()
    ensures ParseInt("3307") == Some(3307)
    ensures ParseInt("33o7") == None
  {
    assert AllDigits("3307");
    ShortDigitStringsParse("3307");
    assert DigitsValue("3307") == 3307 by {
      assert "3307"[..3] == "330" && "330"[..2] == "33" && "33"[..1] == "3" && "3"[..0] == "";
    }
    assert !IsDigit("33o7"[2]);
  }

  lemma {:induction false} DigitsOfNatToDecimal(n: nat)
    ensures DigitsValue(NatToDecimal(n)) == n
    decreases n
  {
    var r := NatToDecimal(n);
    if n >= 10 {
      DigitsOfNatToDecimal(n / 10);
      assert r[..|r| - 1] == NatToDecimal(n / 10);
    }
  }

  /** `Integer.parseInt` reads back every value `Integer.toString` writes. */
  lemma ParseFormatRoundTrip(n: Int32)
    ensures ParseInt(FormatInt(n)) == Some(n)
  {
    var m: int := n;
    DigitsOfNatToDecimal(if m < 0 then -m else m);
    if n < 0 {
      assert FormatInt(n)[1..] == NatToDecimal(-m);
    }
  }

  /** The decimal form of a number never contains `%`, `$`, `\` or a line break, so it
      is safe to substitute into a help template. */
  lemma FormatIntIsPlain(n: int)
    ensures '%' !in FormatInt(n) && '\n' !in FormatInt(n) && '$' !in FormatInt(n) && '\\' !in FormatInt(n)
  {
  }
}
