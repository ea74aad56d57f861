/**
 * The body of `main` (src/main.rs:149-226): pick the light by the
 * command's address, then run the command's arm, which builds or
 * reads-modifies-writes a status document and talks to the light through
 * `LightDevice`. Each arm is proved to do what `Commands.Step` says.
 */
module Main {
  import opened Wrappers
  import opened Units
  import opened Cli
  import opened Api
  import opened Commands

  /** One arm of the `match cli.command` in `main`, against the light `dev`. */
  method Execute(cmd: Command, dev: LightDevice) returns (r: Result<Report, Error>)
    requires cmd.Parsed()
    modifies dev
    ensures var e := Step(cmd, old(dev.link), old(dev.status));
      && r == e.result
      && dev.sent == old(dev.sent) + e.sent
      && dev.status == (if e.sent == [] then old(dev.status) else e.sent[0])
      && dev.link == old(dev.link)
    ensures cmd.Status? ==> unchanged(dev)
  {
    match cmd
    case On(brightness, temperature, _) =>
      var status := LightStatus(1, [Light(1, brightness, KelvinToMireds(temperature))]);
      var put := dev.SetStatus(status);
      if put.Err? {
        return Err(Device(put.error));
      }
      r := Ok(TurnedOn(brightness, temperature));
    case Off(_) =>
      var status := LightStatus(1, [Light(0, 0, 0)]);
      var put := dev.SetStatus(status);
      if put.Err? {
        return Err(Device(put.error));
      }
      r := Ok(TurnedOff);
    case Brightness(delta, _) =>
      var got := dev.GetStatus();
      if got.Err? {
        return Err(Device(got.error));
      }
      var status := got.value;
      if |status.lights| == 0 {
        return Err(NoLights);
      }
      var light := status.lights[0];
      if light.on == 0 {
        light := light.(on := 1);
      }
      var newBrightness: u8 := Clamp(light.brightness + delta, 0, 100);
      light := light.(brightness := newBrightness);
      status := status.(lights := status.lights[0 := light]);
      var put := dev.SetStatus(status);
      if put.Err? {
        return Err(Device(put.error));
      }
      r := Ok(BrightnessSet(newBrightness));
    case Temperature(temperature, _) =>
      var got := dev.GetStatus();
      if got.Err? {
        return Err(Device(got.error));
      }
      var status := got.value;
      if |status.lights| == 0 {
        return Err(NoLights);
      }
      var light := status.lights[0];
      if light.on == 0 {
        light := light.(on := 1);
      }
      light := light.(temperature := KelvinToMireds(temperature));
      status := status.(lights := status.lights[0 := light]);
      var put := dev.SetStatus(status);
      if put.Err? {
        return Err(Device(put.error));
      }
      r := Ok(TemperatureSet(temperature));
    case Status(_) =>
      var got := dev.GetStatus();
      if got.Err? {
        return Err(Device(got.error));
      }
      var status := got.value;
      if |status.lights| == 0 {
        return Err(NoLights);
      }
      var light := status.lights[0];
      var power := PowerLabel(light.on);
      if light.temperature == 0 {
        return Err(DivisionByZero);
      }
      r := Ok(Shown(power, light.brightness, MiredsToKelvin(light.temperature)));
  }

  /**
   * `main` after argument parsing: the command goes to the light at
   * `cmd.IpAddress()` among `lights` (an address with no light behaves like
   * a light that cannot be reached), and no other light is touched.
   */
  method Run(cmd: Command, lights: map<Ipv4Addr, LightDevice>) returns (r: Result<Report, Error>)
    requires cmd.Parsed()
    requires forall a, b :: a in lights && b in lights && a != b ==> lights[a] != lights[b]
    modifies lights.Values
    ensures cmd.IpAddress() !in lights ==>
      r == Step(cmd, DOWN, LightStatus(0, [])).result
    ensures cmd.IpAddress() in lights ==>
      var dev := lights[cmd.IpAddress()];
      var e := Step(cmd, old(dev.link), old(dev.status));
      && r == e.result
      && dev.sent == old(dev.sent) + e.sent
      && dev.status == (if e.sent == [] then old(dev.status) else e.sent[0])
      && dev.link == old(dev.link)
    ensures cmd.Status? ==> unchanged(lights.Values)
    ensures forall a :: a in lights && a != cmd.IpAddress() ==> unchanged(lights[a])
  {
    var ip := cmd.IpAddress();
    if ip !in lights {
      r := Err(Device(if cmd.On? || cmd.Off? then SendFailed else ConnectFailed));
      return;
    }
    r := Execute(cmd, lights[ip]);
  }
}
