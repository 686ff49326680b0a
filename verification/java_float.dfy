/** Java `float` and `double` values as IEEE 754 binary32 / binary64 fields.
    The migrators never compute with them: they copy them, write literal
    constants such as `20` or `90f`, and widen one `int` column to `float`
    (a widening conversion, section 5.1.2 of the Java Language Specification,
    which rounds to nearest, ties to even). */
module JavaFloat {
  import opened JavaInt

  /** A binary32 value: sign, biased exponent (0..255), 23-bit fraction. */
  datatype Float32 = Float32(negative: bool, exponent: nat, fraction: nat) {
    predicate Valid() {
      exponent < 256 && fraction < Pow2(23)
    }

    /** Zero, subnormal or normal: the encodings that denote a real number. */
    predicate Finite() {
      Valid() && exponent < 255
    }
  }

  /** A binary64 value: sign, biased exponent (0..2047), 52-bit fraction. */
  datatype Float64 = Float64(negative: bool, exponent: nat, fraction: nat) {
    predicate Valid() {
      exponent < 2048 && fraction < Pow2(52)
    }

    predicate Finite() {
      Valid() && exponent < 2047
    }
  }

  function Pow2(k: nat): (r: nat)
    ensures r >= 1
  {
    if k == 0 then 1 else 2 * Pow2(k - 1)
  }

  /** `significand * 2^shift` as a real, for a shift of either sign. */
  function Scaled(significand: nat, shift: int): real {
    if shift >= 0 then (significand * Pow2(shift)) as real
    else significand as real / Pow2(-shift) as real
  }

  /** The position of the highest set bit of `m`. */
  function Log2Floor(m: nat): (e: nat)
    requires m >= 1
    ensures Pow2(e) <= m < Pow2(e + 1)
    decreases m
  {
    if m == 1 then 0 else 1 + Log2Floor(m / 2)
  }

  /** The real number a finite binary32 encoding denotes. */
  function Float32Value(f: Float32): real
    requires f.Finite()
  {
    var magnitude :=
      if f.exponent == 0 then Scaled(f.fraction, -149)
      else Scaled(Pow2(23) + f.fraction, f.exponent - 150);
    if f.negative then -magnitude else magnitude
  }

  /** The real number a finite binary64 encoding denotes. */
  function Float64Value(f: Float64): real
    requires f.Finite()
  {
    var magnitude :=
      if f.exponent == 0 then Scaled(f.fraction, -1074)
      else Scaled(Pow2(52) + f.fraction, f.exponent - 1075);
    if f.negative then -magnitude else magnitude
  }

  function Abs(n: int): nat {
    if n < 0 then -n else n
  }

  /** The bits of `m` below its highest bit `e`, left-aligned in a field of
      `width` bits: the fraction field of an exactly representable value. */
  function FractionBits(m: nat, e: nat, width: nat): (r: nat)
    requires e <= width && Pow2(e) <= m < Pow2(e + 1)
    ensures r < Pow2(width)
  {
    FractionFits(m, e, width);
    (m - Pow2(e)) * Pow2(width - e)
  }

  /** The top 24 bits of `m` (highest bit `e` > 23), rounded to nearest with
      ties to even on the bits shifted out. */
  function RoundedSignificand(m: nat, e: nat): (q': nat)
    requires 23 < e <= 31 && Pow2(e) <= m < Pow2(e + 1)
    ensures Pow2(23) <= q' <= Pow2(24)
  {
    var shift: nat := e - 23;
    var q := m / Pow2(shift);
    var rem := m % Pow2(shift);
    var half := Pow2(shift - 1);
    SignificandBounds(m, e);
    if rem > half || (rem == half && q % 2 == 1) then q + 1 else q
  }

  /** Widening `int` to `float`: exact up to 24 significant bits, rounded to
      nearest (ties to even) beyond. */
  function IntToFloat(n: Int32): (f: Float32)
    ensures f.Finite()
    ensures f.negative <==> n < 0
  {
    if n == 0 then Float32(false, 0, 0)
    else
      var m := Abs(n);
      var e := Log2Floor(m);
      IntExponentBound(n);
      if e <= 23 then Float32(n < 0, e + 127, FractionBits(m, e, 23))
      else
        var q' := RoundedSignificand(m, e);
        if q' == Pow2(24) then Float32(n < 0, e + 128, 0)
        else Float32(n < 0, e + 127, q' - Pow2(23))
  }

  /** Widening `int` to `double`, always exact. */
  function IntToDouble(n: Int32): (f: Float64)
    ensures f.Finite()
    ensures f.negative <==> n < 0
  {
    if n == 0 then Float64(false, 0, 0)
    else
      var m := Abs(n);
      var e := Log2Floor(m);
      IntExponentBound(n);
      Float64(n < 0, e + 1023, FractionBits(m, e, 52))
  }

  lemma {:induction false} Pow2Add(a: nat, b: nat)
    ensures Pow2(a + b) == Pow2(a) * Pow2(b)
    decreases a
  {
    if a > 0 {
      Pow2Add(a - 1, b);
    }
  }

  lemma Pow2Monotone(a: nat, b: nat)
    requires b <= a
    ensures Pow2(b) <= Pow2(a)
  {
    Pow2Add(b, a - b);
    MulMonotone(1, Pow2(a - b), Pow2(b));
  }

  lemma Pow2Table()
    ensures Pow2(8) == 0x100 && Pow2(16) == 0x1_0000 && Pow2(23) == 0x80_0000
    ensures Pow2(24) == 0x100_0000 && Pow2(25) == 0x200_0000 && Pow2(31) == 0x8000_0000
    ensures Pow2(32) == 0x1_0000_0000
  {
    assert Pow2(7) == 0x80 && Pow2(8) == 0x100;
    Pow2Add(8, 8);
    Pow2Add(16, 7);
    Pow2Add(16, 8);
    Pow2Add(24, 1);
    Pow2Add(24, 7);
    Pow2Add(24, 8);
  }

  lemma MulMonotone(a: nat, b: nat, c: nat)
    requires a <= b
    ensures a * c <= b * c
  {
    assert b * c - a * c == (b - a) * c;
  }

  lemma MulStrict(a: nat, b: nat, c: nat)
    requires a < b && c > 0
    ensures a * c < b * c
  {
    assert b * c - a * c == (b - a) * c;
  }

  /** An `int` has at most 31 magnitude bits. */
  lemma IntExponentBound(n: Int32)
    requires n != 0
    ensures Log2Floor(Abs(n)) <= 31
  {
    var e := Log2Floor(Abs(n));
    Pow2Table();
    if e > 31 {
      Pow2Monotone(e, 32);
    }
  }

  /** Below the highest bit, the remaining bits scaled to `width` fit in `width` bits. */
  lemma FractionFits(m: nat, e: nat, width: nat)
    requires e <= width && Pow2(e) <= m < Pow2(e + 1)
    ensures (m - Pow2(e)) * Pow2(width - e) < Pow2(width)
  {
    Pow2Add(e, 1);
    Pow2Add(e, width - e);
    MulStrict(m - Pow2(e), Pow2(e), Pow2(width - e));
  }

  /** The integer quotient respects bounds that bracket the dividend. */
  lemma DivBounds(m: nat, d: nat, lo: nat, hi: nat)
    requires d > 0 && lo * d <= m < hi * d
    ensures lo <= m / d < hi
  {
    var q, r := m / d, m % d;
    assert m == q * d + r && r < d;
    if q < lo {
      MulMonotone(q + 1, lo, d);
    }
    if q >= hi {
      MulMonotone(hi, q, d);
    }
  }

  /** For more than 24 bits, the truncated significand has exactly 24 bits,
      and the exponent stays well below the infinity encoding. */
  lemma SignificandBounds(m: nat, e: nat)
    requires 23 < e <= 31 && Pow2(e) <= m < Pow2(e + 1)
    ensures Pow2(23) <= m / Pow2(e - 23) < Pow2(24)
  {
    Pow2Add(23, e - 23);
    Pow2Add(24, e - 23);
    DivBounds(m, Pow2(e - 23), Pow2(23), Pow2(24));
  }

  lemma Log2FloorUnique(m: nat, e: nat)
    requires Pow2(e) <= m < Pow2(e + 1)
    ensures Log2Floor(m) == e
  {
    var d := Log2Floor(m);
    if d < e {
      Pow2Monotone(e, d + 1);
    } else if d > e {
      Pow2Monotone(d, e + 1);
    }
  }

  /** A normal encoding built from `m`'s bits below its highest bit `e`
      denotes `m` itself. */
  lemma ExactSignificand(m: nat, e: nat, width: nat)
    requires e <= width && Pow2(e) <= m < Pow2(e + 1)
    ensures Scaled(Pow2(width) + FractionBits(m, e, width), e as int - width as int) == m as real
  {
    var scale := Pow2(width - e);
    var low := m - Pow2(e);
    Pow2Add(width - e, e);
    assert Pow2(width) == scale * Pow2(e);
    assert FractionBits(m, e, width) == low * scale;
    var sig := Pow2(width) + low * scale;
    assert sig == (Pow2(e) + low) * scale;
    assert sig == m * scale;
    if e == width {
      assert scale == 1;
      assert Scaled(sig, 0) == (sig * Pow2(0)) as real;
    } else {
      assert Scaled(sig, e as int - width as int) == sig as real / scale as real;
      RealOfProduct(m, scale);
    }
  }

  lemma RealOfProduct(a: nat, b: nat)
    requires b > 0
    ensures (a * b) as real / b as real == a as real
  {
    assert (a * b) as real == a as real * b as real;
  }

  /** Widening to `float` is exact for every `int` of at most 24 bits. */
  lemma IntToFloatExact(n: Int32)
    requires -0x100_0000 <= n <= 0x100_0000
    ensures Float32Value(IntToFloat(n)) == n as real
  {
    if n != 0 {
      var m := Abs(n);
      var e := Log2Floor(m);
      Pow2Table();
      if e <= 23 {
        ExactSignificand(m, e, 23);
        assert (e + 127) as int - 150 == e as int - 23;
      } else {
        if e > 24 {
          Pow2Monotone(e, 25);
        }
        assert m == Pow2(24);
        assert m / Pow2(1) == Pow2(23) && m % Pow2(1) == 0;
      }
    }
  }

  /** Widening to `double` is exact for every `int`. */
  lemma IntToDoubleExact(n: Int32)
    ensures Float64Value(IntToDouble(n)) == n as real
  {
    if n != 0 {
      var m := Abs(n);
      var e := Log2Floor(m);
      IntExponentBound(n);
      ExactSignificand(m, e, 52);
      var f := IntToDouble(n);
      assert f.exponent == e + 1023 && f.fraction == FractionBits(m, e, 52);
      assert (e + 1023) as int - 1075 == e as int - 52;
    }
  }

  /** Beyond 24 bits, widening to `float` loses precision: 2^24 + 1 and 2^24
      become the same `float`. */
  lemma IntToFloatRounds()
    ensures IntToFloat(0x100_0001) == IntToFloat(0x100_0000)
  {
    Pow2Table();
    Log2FloorUnique(0x100_0001, 24);
    Log2FloorUnique(0x100_0000, 24);
  }
}
