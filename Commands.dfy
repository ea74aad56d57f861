/**
 * What each subcommand does to the light (the arms of `main`,
 * src/main.rs:154-223), stated as a pure function of the command, the
 * link to the light and the document the light holds: the documents it
 * PUTs and the outcome it reports. `Main.Execute` is proved to behave as
 * `Step` says; the lemmas below state what `Step` promises.
 */
module Commands {
  import opened Wrappers
  import opened Units
  import opened Cli
  import opened Api

  /** What a successful command prints, as data. */
  datatype Report =
    | TurnedOn(brightness: u8, temperature: u32)         // "Light on (brightness: ..%, temperature: ..K)"
    | TurnedOff                                          // "Light off"
    | BrightnessSet(brightness: u8)                      // "Brightness: ..%"
    | TemperatureSet(temperature: u32)                   // "Temperature: ..K"
    | Shown(power: string, brightness: u8, temperature: u32)  // the three status lines

  datatype Error =
    | Device(cause: DeviceError)
    | NoLights         // "No lights found in response"
    | DivisionByZero   // the panic of mireds_to_kelvin on a temperature of 0

  /** The documents a command PUT, in order, and what it reported. */
  datatype Effect = Effect(sent: seq<LightStatus>, result: Result<Report, Error>)

  /** Rust's `Ord::clamp`. */
  function Clamp(x: int, lo: int, hi: int): (r: int)
    requires lo <= hi
    ensures lo <= r <= hi
    ensures lo <= x <= hi ==> r == x
    ensures x < lo ==> r == lo
    ensures x > hi ==> r == hi
  {
    if x < lo then lo else if x > hi then hi else x
  }

  /**
   * `(brightness as i16 + delta as i16).clamp(0, 100) as u8`: the sum of a
   * u8 and an i8 always fits an i16, so only the clamp matters.
   */
  function RelativeBrightness(current: u8, delta: i8): (b: u8)
    ensures b <= 100
  {
    Clamp(current + delta, 0, 100)
  }

  /** "if light.on == 0 { light.on = 1 }". */
  function PowerOn(light: Light): (r: Light)
    ensures light.on == 0 ==> r.on == 1
    ensures light.on != 0 ==> r.on == light.on
    ensures r.brightness == light.brightness && r.temperature == light.temperature
  {
    if light.on == 0 then light.(on := 1) else light
  }

  /** The first light as the `brightness` command leaves it. */
  function Brightened(light: Light, delta: i8): Light {
    PowerOn(light).(brightness := RelativeBrightness(light.brightness, delta))
  }

  /** The first light as the `temperature` command leaves it. */
  function Retempered(light: Light, kelvin: u32): Light
    requires kelvin > 0
  {
    PowerOn(light).(temperature := KelvinToMireds(kelvin))
  }

  /** A status document with its first light replaced and everything else kept. */
  function WithFirstLight(s: LightStatus, light: Light): (r: LightStatus)
    requires |s.lights| > 0
    ensures r.numberOfLights == s.numberOfLights
    ensures |r.lights| == |s.lights| && r.lights[0] == light
    ensures forall i :: 1 <= i < |s.lights| ==> r.lights[i] == s.lights[i]
  {
    s.(lights := s.lights[0 := light])
  }

  /** The document `on` sends: one lit light. */
  function OnDocument(brightness: u8, kelvin: u32): LightStatus
    requires kelvin > 0
  {
    LightStatus(1, [Light(1, brightness, KelvinToMireds(kelvin))])
  }

  /** The document `off` sends: one dark light with brightness and temperature 0. */
  const OFF_DOCUMENT: LightStatus := LightStatus(1, [Light(0, 0, 0)])

  /** The status line "Power: On" or "Power: Off". */
  function PowerLabel(on: u8): (text: string)
    ensures text == "On" <==> on == 1
    ensures text == "Off" <==> on != 1
  {
    if on == 1 then "On" else "Off"
  }

  /** PUT `doc` over `link`, then report `report`. */
  function Put(link: Link, doc: LightStatus, report: Report): Effect {
    match Store(link)
    case Err(e) => Effect([], Err(Device(e)))
    case Ok(_) => Effect([doc], Ok(report))
  }

  /** One run of the tool with `cmd` against a light holding `status` over `link`. */
  function Step(cmd: Command, link: Link, status: LightStatus): (e: Effect)
    requires cmd.Parsed()
    ensures |e.sent| <= 1
    ensures e.sent != [] <==> e.result.Ok? && !e.result.value.Shown?
    ensures e.sent != [] ==> link.put
  {
    match cmd
    case On(brightness, kelvin, _) =>
      Put(link, OnDocument(brightness, kelvin), TurnedOn(brightness, kelvin))
    case Off(_) =>
      Put(link, OFF_DOCUMENT, TurnedOff)
    case Brightness(delta, _) =>
      (match Fetch(link, status)
       case Err(e) => Effect([], Err(Device(e)))
       case Ok(s) =>
         if |s.lights| == 0 then Effect([], Err(NoLights))
         else
           var light := Brightened(s.lights[0], delta);
           Put(link, WithFirstLight(s, light), BrightnessSet(light.brightness)))
    case Temperature(kelvin, _) =>
      (match Fetch(link, status)
       case Err(e) => Effect([], Err(Device(e)))
       case Ok(s) =>
         if |s.lights| == 0 then Effect([], Err(NoLights))
         else Put(link, WithFirstLight(s, Retempered(s.lights[0], kelvin)), TemperatureSet(kelvin)))
    case Status(_) =>
      match Fetch(link, status)
      case Err(e) => Effect([], Err(Device(e)))
      case Ok(s) =>
        if |s.lights| == 0 then Effect([], Err(NoLights))
        else
          var light := s.lights[0];
          if light.temperature == 0 then Effect([], Err(DivisionByZero))
          else Effect([], Ok(Shown(PowerLabel(light.on), light.brightness, MiredsToKelvin(light.temperature))))
  }

  // ---- Relative brightness ----

  /** The new brightness is the old one plus the delta, saturated to 0..=100. */
  lemma RelativeBrightnessSaturates(current: u8, delta: i8)
    ensures 0 <= current + delta <= 100 ==> RelativeBrightness(current, delta) == current + delta
    ensures current + delta < 0 ==> RelativeBrightness(current, delta) == 0
    ensures current + delta > 100 ==> RelativeBrightness(current, delta) == 100
  {
  }

  /** 95 + 20 gives 100 and 3 - 10 gives 0: neither an error nor a wrap. */
  lemma RelativeBrightnessExamples()
    ensures RelativeBrightness(95, 20) == 100
    ensures RelativeBrightness(3, -10) == 0
    ensures RelativeBrightness(255, -128) == 100
  {
  }

  /** A larger delta never gives a dimmer light. */
  lemma RelativeBrightnessMonotone(current: u8, d1: i8, d2: i8)
    requires d1 <= d2
    ensures RelativeBrightness(current, d1) <= RelativeBrightness(current, d2)
  {
  }

  // ---- on / off ----

  /** `on` and `off` never read the light: their effect does not depend on its state. */
  lemma OnOffIgnoreState(cmd: Command, link: Link, s1: LightStatus, s2: LightStatus)
    requires cmd.Parsed() && (cmd.On? || cmd.Off?)
    ensures Step(cmd, link, s1) == Step(cmd, link, s2)
  {
  }

  /**
   * `on` sends exactly one document, holding exactly one lit light with the
   * requested brightness (at most 100) and the mired value of the requested
   * temperature (142..=344).
   */
  lemma OnSendsOneLight(brightness: u8, kelvin: u32, ip: Ipv4Addr, link: Link, status: LightStatus)
    requires brightness <= 100 && ValidKelvin(kelvin)
    ensures var e := Step(On(brightness, kelvin, ip), link, status);
      if !link.put then e == Effect([], Err(Device(SendFailed)))
      else
        && e.result == Ok(TurnedOn(brightness, kelvin))
        && |e.sent| == 1 && e.sent[0].numberOfLights == 1 && |e.sent[0].lights| == 1
        && e.sent[0].lights[0] == Light(1, brightness, MIRED_SCALE / kelvin)
        && 142 <= e.sent[0].lights[0].temperature <= 344
  {
    ValidKelvinMireds(kelvin);
  }

  /** `off` sends exactly one document with one dark light whose brightness and temperature are 0. */
  lemma OffSendsOneDarkLight(ip: Ipv4Addr, link: Link, status: LightStatus)
    ensures var e := Step(Off(ip), link, status);
      if !link.put then e == Effect([], Err(Device(SendFailed)))
      else e == Effect([LightStatus(1, [Light(0, 0, 0)])], Ok(TurnedOff))
  {
  }

  // ---- brightness / temperature ----

  /**
   * `brightness` sends one document in which the first light is lit and its
   * brightness is the saturated sum; its temperature, every other light and
   * numberOfLights are as read.
   */
  lemma BrightnessChangesOnlyFirstLight(delta: i8, ip: Ipv4Addr, status: LightStatus)
    requires |status.lights| > 0
    ensures var e := Step(Brightness(delta, ip), UP, status);
      && |e.sent| == 1
      && var s := e.sent[0];
      && s.numberOfLights == status.numberOfLights
      && |s.lights| == |status.lights|
      && (forall i :: 1 <= i < |s.lights| ==> s.lights[i] == status.lights[i])
      && (status.lights[0].on == 0 ==> s.lights[0].on == 1)
      && (status.lights[0].on != 0 ==> s.lights[0].on == status.lights[0].on)
      && s.lights[0].brightness == RelativeBrightness(status.lights[0].brightness, delta)
      && s.lights[0].temperature == status.lights[0].temperature
      && e.result == Ok(BrightnessSet(s.lights[0].brightness))
  {
  }

  /**
   * `temperature` sends one document in which the first light is lit and its
   * temperature is the mired value of the request; its brightness, every
   * other light and numberOfLights are as read.
   */
  lemma TemperatureChangesOnlyFirstLight(kelvin: u32, ip: Ipv4Addr, status: LightStatus)
    requires ValidKelvin(kelvin)
    requires |status.lights| > 0
    ensures var e := Step(Temperature(kelvin, ip), UP, status);
      && |e.sent| == 1
      && var s := e.sent[0];
      && s.numberOfLights == status.numberOfLights
      && |s.lights| == |status.lights|
      && (forall i :: 1 <= i < |s.lights| ==> s.lights[i] == status.lights[i])
      && (status.lights[0].on == 0 ==> s.lights[0].on == 1)
      && (status.lights[0].on != 0 ==> s.lights[0].on == status.lights[0].on)
      && s.lights[0].temperature == MIRED_SCALE / kelvin
      && s.lights[0].brightness == status.lights[0].brightness
      && e.result == Ok(TemperatureSet(kelvin))
  {
    ValidKelvinMireds(kelvin);
  }

  /** Setting the same temperature again sends the document the light already holds. */
  lemma TemperatureIdempotent(kelvin: u32, ip: Ipv4Addr, status: LightStatus)
    requires ValidKelvin(kelvin)
    requires |status.lights| > 0
    ensures var e := Step(Temperature(kelvin, ip), UP, status);
      |e.sent| == 1 && Step(Temperature(kelvin, ip), UP, e.sent[0]).sent == e.sent
  {
    var s := Step(Temperature(kelvin, ip), UP, status).sent[0];
    assert s.lights[0 := s.lights[0]] == s.lights;
  }

  /** A brightness change and a temperature change leave the same document in either order. */
  lemma AdjustmentsCommute(delta: i8, kelvin: u32, ip: Ipv4Addr, status: LightStatus)
    requires ValidKelvin(kelvin)
    requires |status.lights| > 0
    ensures var b := Step(Brightness(delta, ip), UP, status).sent[0];
      var t := Step(Temperature(kelvin, ip), UP, status).sent[0];
      Step(Temperature(kelvin, ip), UP, b).sent == Step(Brightness(delta, ip), UP, t).sent
  {
    var b := Step(Brightness(delta, ip), UP, status).sent[0];
    var t := Step(Temperature(kelvin, ip), UP, status).sent[0];
    assert WithFirstLight(b, Retempered(b.lights[0], kelvin)).lights
        == WithFirstLight(t, Brightened(t.lights[0], delta)).lights;
  }

  // ---- status ----

  /** `status` never sends anything, whatever the light holds and however the link fares. */
  lemma StatusIsReadOnly(ip: Ipv4Addr, link: Link, status: LightStatus)
    ensures Step(Status(ip), link, status).sent == []
  {
  }

  /**
   * `status` reports "On" exactly when the first light's `on` is 1, its
   * brightness as read, and its temperature converted back to Kelvin.
   */
  lemma StatusReportsFirstLight(ip: Ipv4Addr, link: Link, status: LightStatus)
    requires link.get == Answers
    requires |status.lights| > 0 && status.lights[0].temperature > 0
    ensures Step(Status(ip), link, status).sent == []
    ensures var r := Step(Status(ip), link, status).result;
      && r.Ok? && r.value.Shown?
      && (r.value.power == "On" <==> status.lights[0].on == 1)
      && r.value.brightness == status.lights[0].brightness
      && r.value.temperature * status.lights[0].temperature <= MIRED_SCALE
      && MIRED_SCALE < (r.value.temperature + 1) * status.lights[0].temperature
  {
  }

  // ---- errors ----

  /**
   * A command that reads the light and gets a document with no lights fails
   * with NoLights and sends nothing.
   */
  lemma EmptyLightsFail(cmd: Command, link: Link, status: LightStatus)
    requires cmd.Parsed() && (cmd.Brightness? || cmd.Temperature? || cmd.Status?)
    requires link.get == Answers
    requires status.lights == []
    ensures Step(cmd, link, status) == Effect([], Err(NoLights))
  {
  }

  /**
   * `status` on any answered document whose first light has temperature 0
   * divides by zero in mireds_to_kelvin, and sends nothing.
   */
  lemma StatusZeroTemperaturePanics(ip: Ipv4Addr, link: Link, status: LightStatus)
    requires link.get == Answers
    requires |status.lights| > 0 && status.lights[0].temperature == 0
    ensures Step(Status(ip), link, status) == Effect([], Err(DivisionByZero))
  {
  }

  /** A command that reads the light and cannot fetch its status fails with that error and sends nothing. */
  lemma FetchFailureSendsNothing(cmd: Command, link: Link, status: LightStatus)
    requires cmd.Parsed() && !cmd.On? && !cmd.Off?
    requires link.get != Answers
    ensures Step(cmd, link, status)
         == Effect([], Err(Device(if link.get == Unreachable then ConnectFailed else ParseFailed)))
  {
  }

  /**
   * When the light answers the GET but the PUT does not reach it,
   * `brightness` and `temperature` fail with the send error; nothing is stored.
   */
  lemma PutFailureAfterRead(cmd: Command, status: LightStatus)
    requires cmd.Parsed() && (cmd.Brightness? || cmd.Temperature?)
    requires |status.lights| > 0
    ensures Step(cmd, Link(Answers, false), status) == Effect([], Err(Device(SendFailed)))
  {
  }

  // ---- sequences of commands ----

  /**
   * After `on`, `status` reports the light on, the brightness set and a
   * temperature from the one set up to 49 Kelvin above it (mireds are coarser
   * than Kelvin).
   */
  lemma OnThenStatus(brightness: u8, kelvin: u32, ip: Ipv4Addr)
    requires brightness <= 100 && ValidKelvin(kelvin)
    ensures var r := Step(Status(ip), UP, OnDocument(brightness, kelvin)).result;
      && r.Ok? && r.value.Shown?
      && r.value.power == "On" && r.value.brightness == brightness
      && kelvin <= r.value.temperature < kelvin + 50
  {
    KelvinRoundTrip(kelvin);
  }

  /**
   * A light that stores what `off` sends reports temperature 0, and then
   * `status` divides by zero: mireds_to_kelvin panics.
   */
  lemma OffThenStatus(ip: Ipv4Addr)
    ensures Step(Status(ip), UP, OFF_DOCUMENT) == Effect([], Err(DivisionByZero))
  {
  }

  /**
   * `brightness` lights a dark light (on == 0) with on == 1, but keeps any
   * other non-zero `on`; `status` then prints "On" only when that value is 1.
   */
  lemma BrightnessThenStatusPower(delta: i8, ip: Ipv4Addr, status: LightStatus)
    requires |status.lights| > 0 && status.lights[0].temperature > 0
    ensures var s := Step(Brightness(delta, ip), UP, status).sent[0];
      var r := Step(Status(ip), UP, s).result;
      r.Ok? && r.value.Shown?
      && (r.value.power == "On" <==> status.lights[0].on <= 1)
  {
  }
}
