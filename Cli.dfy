/**
 * The command line of the tool (src/main.rs:69-146): the temperature
 * validator given to the argument parser, the five subcommands and the
 * address each one carries. The argument parser itself is not modelled;
 * `Command.Parsed` states what its value parsers guarantee.
 */
module Cli {
  import opened Wrappers
  import opened Units

  const U32_MAX: int := 0xFFFF_FFFF

  predicate IsDigit(c: char) {
    '0' <= c <= '9'
  }

  predicate AllDigits(s: string) {
    forall i :: 0 <= i < |s| ==> IsDigit(s[i])
  }

  function DigitValue(c: char): (d: nat)
    requires IsDigit(c)
    ensures d < 10
  {
    c as int - '0' as int
  }

  function DigitChar(d: nat): (c: char)
    requires d < 10
    ensures IsDigit(c) && DigitValue(c) == d
  {
    ('0' as int + d) as char
  }

  /** The value of a string of decimal digits, most significant first. */
  function DigitsValue(s: string): nat
    requires AllDigits(s)
  {
    if s == [] then 0 else DigitsValue(s[..|s| - 1]) * 10 + DigitValue(s[|s| - 1])
  }

  function Pow10(k: nat): (p: nat)
    ensures p >= 1
  {
    if k == 0 then 1 else 10 * Pow10(k - 1)
  }

  lemma {:induction false} Pow10Monotone(j: nat, k: nat)
    requires j <= k
    ensures Pow10(j) <= Pow10(k)
  {
    if j < k {
      Pow10Monotone(j, k - 1);
    }
  }

  /** A string of k digits has a value below 10^k. */
  lemma {:induction false} DigitsValueBound(s: string)
    requires AllDigits(s)
    ensures DigitsValue(s) < Pow10(|s|)
  {
    if s != [] {
      DigitsValueBound(s[..|s| - 1]);
    }
  }

  /** At most nine digits never exceed 999 999 999. */
  lemma NineDigitsFit(s: string)
    requires AllDigits(s) && |s| <= 9
    ensures DigitsValue(s) < 1_000_000_000
  {
    DigitsValueBound(s);
    Pow10Monotone(|s|, 9);
    assert Pow10(9) == 1_000_000_000;
  }

  /** The shortest decimal numeral of `n`. */
  function Decimal(n: nat): (s: string)
    ensures |s| > 0 && AllDigits(s)
  {
    if n < 10 then [DigitChar(n)] else Decimal(n / 10) + [DigitChar(n % 10)]
  }

  /**
   * The syntax Rust's `str::parse::<u32>` accepts: an optional `+` sign
   * followed by at least one ASCII digit, and nothing else.
   */
  predicate IsNumeral(s: string) {
    && |s| > 0
    && (s[0] == '+' ==> |s| > 1)
    && AllDigits(if s[0] == '+' then s[1..] else s)
  }

  function StripLeadingZeros(s: string): (t: string)
    ensures |s| > 0 ==> |t| > 0
    ensures AllDigits(s) ==> AllDigits(t)
  {
    if |s| > 1 && s[0] == '0' then StripLeadingZeros(s[1..]) else s
  }

  /** A numeral with its sign and redundant leading zeros removed. */
  function Normalize(s: string): string
    requires IsNumeral(s)
  {
    StripLeadingZeros(if s[0] == '+' then s[1..] else s)
  }

  /**
   * `s.parse::<u32>()`: `None` for an empty string, a lone sign, any
   * character that is not a digit (a leading `+` excepted) and a value that
   * does not fit in 32 bits.
   */
  function ParseU32(s: string): (r: Option<u32>)
    ensures r.Some? ==> IsNumeral(s)
    ensures IsNumeral(s) && |s| <= 9 ==> r.Some?
  {
    if !IsNumeral(s) then None
    else
      var digits := if s[0] == '+' then s[1..] else s;
      var v := DigitsValue(digits);
      assert |digits| <= 9 ==> v < 1_000_000_000 by {
        if |digits| <= 9 {
          NineDigitsFit(digits);
        }
      }
      if v <= U32_MAX then Some(v) else None
  }

  /** Why the temperature validator refused its argument. */
  datatype TemperatureError =
    | NotANumber(text: string)   // "'<text>' is not a valid number"
    | OutOfRange(value: u32)     // "temperature must be between 2900 and 7000, got <value>"

  /** validate_temperature: a Kelvin value accepted by `on` and `temperature`. */
  function ValidateTemperature(s: string): (r: Result<u32, TemperatureError>)
    ensures r.Ok? ==> ValidKelvin(r.value)
    ensures r.Err? && r.error.OutOfRange? ==> !ValidKelvin(r.error.value)
    ensures r.Err? && r.error.NotANumber? ==> r.error.text == s
  {
    match ParseU32(s)
    case None => Err(NotANumber(s))
    case Some(v) => if MIN_KELVIN <= v <= MAX_KELVIN then Ok(v) else Err(OutOfRange(v))
  }

  // ---- Properties of the numeral syntax ----

  lemma {:induction false} DecimalValue(n: nat)
    ensures DigitsValue(Decimal(n)) == n
    ensures Decimal(n)[0] != '0' || n == 0
  {
    if n >= 10 {
      DecimalValue(n / 10);
      var s := Decimal(n);
      assert s[..|s| - 1] == Decimal(n / 10);
    }
  }

  lemma {:induction false} LeadingZeroValue(s: string)
    requires |s| > 0 && AllDigits(s) && s[0] == '0'
    ensures DigitsValue(s) == DigitsValue(s[1..])
  {
    if |s| > 1 {
      var init := s[..|s| - 1];
      LeadingZeroValue(init);
      assert init[1..] == s[1..][..|s| - 2];
    }
  }

  lemma {:induction false} StripLeadingZerosValue(s: string)
    requires AllDigits(s)
    ensures DigitsValue(StripLeadingZeros(s)) == DigitsValue(s)
    ensures |s| > 0 ==> StripLeadingZeros(s)[0] != '0' || StripLeadingZeros(s) == "0"
  {
    if |s| > 1 && s[0] == '0' {
      LeadingZeroValue(s);
      StripLeadingZerosValue(s[1..]);
    }
  }

  lemma {:induction false} PositiveLead(s: string)
    requires |s| > 0 && AllDigits(s) && s[0] != '0'
    ensures DigitsValue(s) >= 1
  {
    if |s| > 1 {
      PositiveLead(s[..|s| - 1]);
    }
  }

  /** A digit string without a redundant leading zero is the shortest numeral of its value. */
  lemma {:induction false} CanonicalNumeral(s: string)
    requires |s| > 0 && AllDigits(s)
    requires s[0] != '0' || s == "0"
    ensures Decimal(DigitsValue(s)) == s
  {
    if |s| > 1 {
      var init := s[..|s| - 1];
      PositiveLead(init);
      CanonicalNumeral(init);
      var n := DigitsValue(s);
      assert n / 10 == DigitsValue(init) && n % 10 == DigitValue(s[|s| - 1]);
      assert DigitChar(n % 10) == s[|s| - 1];
    }
  }

  /**
   * `ParseU32` yields `v` exactly for the numerals of `v`: an optional `+`,
   * any number of leading zeros and then the shortest decimal form of `v`.
   */
  lemma ParseU32Exact(s: string, v: u32)
    ensures ParseU32(s) == Some(v) <==> IsNumeral(s) && Normalize(s) == Decimal(v)
  {
    if IsNumeral(s) {
      var digits := if s[0] == '+' then s[1..] else s;
      StripLeadingZerosValue(digits);
      DecimalValue(v);
      if ParseU32(s) == Some(v) {
        CanonicalNumeral(StripLeadingZeros(digits));
      }
    }
  }

  /** Every `u32` is accepted in its plain decimal form and with a `+` sign. */
  lemma ParseU32Decimal(v: u32)
    ensures ParseU32(Decimal(v)) == Some(v)
    ensures ParseU32("+" + Decimal(v)) == Some(v)
  {
    DecimalValue(v);
    assert ("+" + Decimal(v))[1..] == Decimal(v);
    ParseU32Exact(Decimal(v), v);
    ParseU32Exact("+" + Decimal(v), v);
  }

  /** The shortest numeral of 429496729, built digit by digit. */
  lemma DecimalPrefix()
    ensures Decimal(429496729) == "429496729"
  {
    assert Decimal(4) == "4";
    assert Decimal(42) == "42";
    assert Decimal(429) == "429";
    assert Decimal(4294) == "4294";
    assert Decimal(42949) == "42949";
    assert Decimal(429496) == "429496";
    assert Decimal(4294967) == "4294967";
    assert Decimal(42949672) == "42949672";
    assert Decimal(429496729) == "429496729";
  }

  /** The largest `u32` is still accepted. */
  lemma ParseU32Max()
    ensures ParseU32("4294967295") == Some(U32_MAX)
  {
    DecimalPrefix();
    assert Decimal(U32_MAX) == "4294967295";
    ParseU32Decimal(U32_MAX);
  }

  /** A numeral one past the largest `u32` is rejected, like any non-numeral. */
  lemma ParseU32Overflow()
    ensures ParseU32("4294967296") == None
  {
    DecimalPrefix();
    var s := Decimal(U32_MAX + 1);
    assert s == "4294967296";
    DecimalValue(U32_MAX + 1);
    assert s[0] != '+' && IsNumeral(s);
    assert DigitsValue(s) > U32_MAX;
  }

  // ---- Properties of validate_temperature ----

  /** A temperature in 2900..=7000 is accepted, unchanged, exactly from its numerals. */
  lemma ValidateTemperatureAccepts(s: string, kelvin: u32)
    requires ValidKelvin(kelvin)
    ensures ValidateTemperature(s) == Ok(kelvin) <==> IsNumeral(s) && Normalize(s) == Decimal(kelvin)
  {
    ParseU32Exact(s, kelvin);
  }

  /** A numeral of a 32-bit value outside 2900..=7000 is refused as out of range. */
  lemma ValidateTemperatureOutOfRange(s: string, v: u32)
    requires IsNumeral(s) && Normalize(s) == Decimal(v)
    requires !ValidKelvin(v)
    ensures ValidateTemperature(s) == Err(OutOfRange(v))
  {
    ParseU32Exact(s, v);
  }

  /** Text that is not a numeral is refused as not a number, whatever it says. */
  lemma ValidateTemperatureNotNumeral(s: string)
    requires !IsNumeral(s)
    ensures ValidateTemperature(s) == Err(NotANumber(s))
  {
  }

  /** The CLI's defaults (src/main.rs:99, 102). */
  const DEFAULT_BRIGHTNESS: u8 := 10
  const DEFAULT_TEMPERATURE: string := "3000"

  /** The default temperature passes its own validator. */
  lemma DefaultTemperatureValid()
    ensures ValidateTemperature(DEFAULT_TEMPERATURE) == Ok(3000)
  {
    assert Decimal(3000) == "3000";
    ParseU32Decimal(3000);
  }

  /**
   * `on` with no flags (brightness 10, temperature "3000", the default
   * address) is a command the argument parser can produce.
   */
  lemma DefaultOnParsed()
    ensures ValidateTemperature(DEFAULT_TEMPERATURE).Ok?
    ensures On(DEFAULT_BRIGHTNESS, ValidateTemperature(DEFAULT_TEMPERATURE).value, DEFAULT_IP_ADDRESS).Parsed()
  {
    DefaultTemperatureValid();
  }

  /** Both ends of the range are accepted; a `+` sign is allowed. */
  lemma ValidateTemperatureBoundaries()
    ensures ValidateTemperature("2900") == Ok(2900)
    ensures ValidateTemperature("+7000") == Ok(7000)
  {
    assert Decimal(2900) == "2900";
    ParseU32Decimal(2900);
    assert Decimal(7000) == "7000";
    ParseU32Decimal(7000);
  }

  /** One Kelvin beyond either end is refused as out of range. */
  lemma ValidateTemperatureJustOutside()
    ensures ValidateTemperature("2899") == Err(OutOfRange(2899))
    ensures ValidateTemperature("7001") == Err(OutOfRange(7001))
  {
    assert Decimal(2899) == "2899";
    ParseU32Decimal(2899);
    assert Decimal(7001) == "7001";
    ParseU32Decimal(7001);
  }

  /** A unit suffix or an empty argument is not a number. */
  lemma ValidateTemperatureText()
    ensures ValidateTemperature("3000K") == Err(NotANumber("3000K"))
    ensures ValidateTemperature("") == Err(NotANumber(""))
  {
    assert !IsDigit("3000K"[4]);
  }

  // ---- Commands ----

  /** An IPv4 address, octet by octet. */
  datatype Ipv4Addr = Ipv4Addr(a: u8, b: u8, c: u8, d: u8)

  /** Used when neither `--ip-address` nor ELGATO_LIGHT_IP is given. */
  const DEFAULT_IP_ADDRESS: Ipv4Addr := Ipv4Addr(192, 168, 0, 25)

  datatype Command =
    | On(brightness: u8, temperature: u32, ipAddress: Ipv4Addr)
    | Off(ipAddress: Ipv4Addr)
    | Brightness(delta: i8, ipAddress: Ipv4Addr)
    | Temperature(temperature: u32, ipAddress: Ipv4Addr)
    | Status(ipAddress: Ipv4Addr)
  {
    /**
     * What the argument parser guarantees of a command it produced:
     * `on` takes a brightness in 0..=100 and both `on` and `temperature`
     * take a temperature that passed `ValidateTemperature`.
     */
    predicate Parsed()
      ensures Parsed() && (On? || Temperature?) ==> 16 <= temperature
    {
      match this
      case On(b, t, _) => b <= 100 && ValidKelvin(t)
      case Temperature(t, _) => ValidKelvin(t)
      case _ => true
    }

    /** Command::ip_address: the light every variant is addressed to. */
    function IpAddress(): (ip: Ipv4Addr)
      ensures ip == ipAddress
    {
      match this
      case On(_, _, ip) => ip
      case Off(ip) => ip
      case Brightness(_, ip) => ip
      case Temperature(_, ip) => ip
      case Status(ip) => ip
    }
  }
}
