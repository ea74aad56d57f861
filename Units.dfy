/**
 * Machine integer widths used by the light's HTTP document and the CLI,
 * and the conversion between Kelvin and the light's native mired scale
 * (src/main.rs:26-32). Both conversions are integer divisions of one
 * million; Rust panics on a zero divisor, which the preconditions exclude.
 */
module Units {

  type u8 = x: int | 0 <= x < 0x100
  type i8 = x: int | -0x80 <= x < 0x80
  type u16 = x: int | 0 <= x < 0x1_0000
  type u32 = x: int | 0 <= x < 0x1_0000_0000
  type i64 = x: int | -0x8000_0000_0000_0000 <= x < 0x8000_0000_0000_0000

  const MIRED_SCALE: int := 1_000_000

  /** The Kelvin range the CLI accepts (src/main.rs:75). */
  const MIN_KELVIN: int := 2900
  const MAX_KELVIN: int := 7000

  /** Euclidean division pins the quotient between two multiples of the divisor. */
  lemma DivBetween(n: nat, d: int)
    requires d > 0
    ensures (n / d) * d <= n < (n / d + 1) * d
  {
    assert n == (n / d) * d + n % d;
  }

  lemma MulLeft(a: int, b: int, c: int)
    requires a <= b && c >= 0
    ensures a * c <= b * c
  {
  }

  /** Rust's `as u16` on a non-negative value keeps its low 16 bits. */
  function AsU16(x: nat): (r: u16)
    ensures x < 0x1_0000 ==> r == x
    ensures (x - r) % 0x1_0000 == 0
  {
    x % 0x1_0000
  }

  /**
   * `(1_000_000 / kelvin) as u16`: the quotient is truncated to 16 bits,
   * which changes it only when kelvin < 16.
   */
  function KelvinToMireds(kelvin: u32): (m: u16)
    requires kelvin > 0
    ensures kelvin >= 16 ==> m * kelvin <= MIRED_SCALE < (m + 1) * kelvin
  {
    var q := MIRED_SCALE / kelvin;
    DivBetween(MIRED_SCALE, kelvin);
    assert kelvin >= 16 ==> q < 0x1_0000 by {
      if kelvin >= 16 && q >= 0x1_0000 {
        MulLeft(0x1_0000, q, kelvin);
        MulLeft(16, kelvin, 0x1_0000);
      }
    }
    AsU16(q)
  }

  /** `1_000_000 / mireds as u32`; never exceeds one million. */
  function MiredsToKelvin(mireds: u16): (k: u32)
    requires mireds > 0
    ensures k * mireds <= MIRED_SCALE < (k + 1) * mireds
  {
    DivBetween(MIRED_SCALE, mireds);
    MIRED_SCALE / mireds
  }

  predicate ValidKelvin(kelvin: int) {
    MIN_KELVIN <= kelvin <= MAX_KELVIN
  }

  /**
   * Every validated temperature converts to between 142 and 344 mireds, so
   * the `as u16` cast in kelvin_to_mireds never loses anything for it.
   */
  lemma ValidKelvinMireds(kelvin: u32)
    requires ValidKelvin(kelvin)
    ensures KelvinToMireds(kelvin) == MIRED_SCALE / kelvin
    ensures 142 <= KelvinToMireds(kelvin) <= 344
  {
    var q := MIRED_SCALE / kelvin;
    DivBetween(MIRED_SCALE, kelvin);
    if q > 344 {
      MulLeft(345, q, kelvin);
      MulLeft(MIN_KELVIN, kelvin, 345);
      assert false;
    }
    if q < 142 {
      MulLeft(q + 1, 142, kelvin);
      MulLeft(kelvin, MAX_KELVIN, 142);
      assert false;
    }
  }

  /**
   * Converting a validated temperature to mireds and back (what `status`
   * reports after `temperature` or `on`) never gives less than the
   * temperature set, and at most 49 Kelvin more.
   */
  lemma KelvinRoundTrip(kelvin: u32)
    requires ValidKelvin(kelvin)
    ensures KelvinToMireds(kelvin) > 0
    ensures kelvin <= MiredsToKelvin(KelvinToMireds(kelvin)) < kelvin + 50
  {
    ValidKelvinMireds(kelvin);
    var m := KelvinToMireds(kelvin);
    var back := MiredsToKelvin(m);
    if back < kelvin {
      MulLeft(back + 1, kelvin, m);
      assert false;
    }
    var excess := back - kelvin;
    assert excess * m < kelvin by {
      assert back * m == excess * m + kelvin * m;
    }
    if excess >= 50 {
      MulLeft(50, excess, m);
      MulLeft(142, m, 50);
      assert false;
    }
  }

  /** For an unvalidated tiny input the `as u16` cast does wrap: 1_000_000 / 10 = 100_000. */
  lemma KelvinToMiredsWrapsBelow16()
    ensures KelvinToMireds(10) == 100_000 - 0x1_0000
  {
  }
}
