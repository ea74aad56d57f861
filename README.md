# elgato-light in Dafny

A model of `elgato-light`, a command-line tool that controls one Elgato
light over its local HTTP API. The light is chosen by a single IPv4
address: the `--ip-address` flag, the `ELGATO_LIGHT_IP` variable, or the
default `192.168.0.25`. There are five subcommands:

- `on` PUTs a fresh one-light document with the requested brightness and
  temperature.
- `off` PUTs a one-light document whose `on`, brightness and temperature
  are all 0.
- `brightness` GETs the light's document and lights its first light if it
  is dark. It then adds a signed delta to the brightness, saturating to
  0..=100, and PUTs the document back.
- `temperature` GETs the document and lights the first light if it is
  dark. It then replaces the temperature and PUTs the document back.
- `status` only GETs the document and reports the first light.

Temperatures are entered in Kelvin and sent in mireds (one million divided
by Kelvin, as integers).

Modules, one per part of `src/main.rs`:

- `Units`: the Rust integer widths, `kelvin_to_mireds` and
  `mireds_to_kelvin`, including the `as u16` truncation.
- `Cli`: Rust's `str::parse::<u32>` and `validate_temperature`. Also the
  `Command` enum, `Command::ip_address`, and `Command.Parsed`, which states
  what the argument parser guarantees (an `on` brightness of at most 100,
  validated temperatures).
- `Api`: the `LightStatus`/`Light` document and `LightDevice`. A
  `LightDevice` is one light seen through its HTTP endpoint. `GetStatus`
  reads its document and `SetStatus` replaces it. A ghost log records
  every document that was PUT. How each request fares is the device's
  `link`: a GET may be answered, unreachable or unparsable; a PUT either
  reaches the light or does not.
- `Commands`: `Step`, a pure function giving what each subcommand PUTs
  and reports for a given link and document. The lemmas about it are
  listed below.
- `Main`: the arms of `main`, written imperatively as in the source, and
  proved to behave as `Step` says. `Run` selects the light by
  `Command::ip_address` and leaves every other light untouched.

Behaviour of the code as written, kept in the model:

- `mireds_to_kelvin` divides by the reported temperature. If a light
  reports temperature 0, `status` panics; the model returns
  `DivisionByZero`. A light that stored what `off` sends would report
  exactly that (`Commands.OffThenStatus`). Real lights may well never
  report 0, so this is not claimed as a defect.
- `brightness` and `temperature` treat any non-zero `on` as lit and keep
  it. `status` prints "On" only for `on == 1`
  (`Commands.BrightnessThenStatusPower`).

## Model

| member | source | states |
|---|---|---|
| `Units.AsU16` | src/main.rs:27 | the `as u16` cast leaves a value below 65536 unchanged and otherwise keeps it modulo 65536 |
| `Units.KelvinToMireds` | src/main.rs:26-28 | for every kelvin of at least 16, the result m is the integer quotient of one million: m·kelvin ≤ 1 000 000 < (m+1)·kelvin |
| `Units.MiredsToKelvin` | src/main.rs:30-32 | for a non-zero mired value, the result k is the integer quotient: k·mireds ≤ 1 000 000 < (k+1)·mireds |
| `Units.ValidKelvinMireds` | src/main.rs:26-28 | every temperature in 2900..=7000 converts to between 142 and 344 mireds, so the `as u16` cast loses nothing |
| `Units.KelvinRoundTrip` | src/main.rs:26-32 | converting a validated temperature to mireds and back gives at least that temperature and less than 50 Kelvin more |
| `Units.KelvinToMiredsWrapsBelow16` | src/main.rs:27 | for an unvalidated input of 10 Kelvin, the cast wraps 100 000 mireds to 34 464 |
| `Cli.ParseU32` | src/main.rs:72-74 | `parse::<u32>`: only a numeral (an optional `+` then at least one digit) is accepted, and every numeral of at most nine characters is. Its exact behaviour is stated by `Cli.ParseU32Exact`, `Cli.ParseU32Max` and `Cli.ParseU32Overflow` |
| `Cli.ParseU32Exact` | src/main.rs:72-74 | `parse::<u32>` yields v exactly for an optional `+`, any leading zeros and then the shortest decimal form of v |
| `Cli.ParseU32Decimal` | src/main.rs:72-74 | every u32 is accepted back from its decimal form, with or without a `+` |
| `Cli.ParseU32Max` | src/main.rs:72-74 | 4294967295 is still accepted |
| `Cli.ParseU32Overflow` | src/main.rs:72-74 | 4294967296 is rejected |
| `Cli.ValidateTemperature` | src/main.rs:71-82 | an accepted value lies in 2900..=7000; an out-of-range refusal carries a value outside it; a not-a-number refusal carries the text given |
| `Cli.ValidateTemperatureAccepts` | src/main.rs:71-82 | a temperature in 2900..=7000 is returned, unchanged, exactly for the numerals of that temperature |
| `Cli.ValidateTemperatureOutOfRange` | src/main.rs:75-81 | the numeral of a u32 outside 2900..=7000 is refused as out of range, with that value |
| `Cli.ValidateTemperatureNotNumeral` | src/main.rs:72-74 | text that is not a numeral is refused as not a number |
| `Cli.DefaultTemperatureValid` | src/main.rs:102 | the default "3000" passes the validator as 3000 |
| `Cli.DefaultOnParsed` | src/main.rs:99-106 | `on` with every default (brightness 10, temperature "3000", address 192.168.0.25) is a command the parser can produce: brightness within 0..=100 and a validated temperature |
| `Cli.ValidateTemperatureBoundaries` | src/main.rs:75 | "2900" and "+7000" are accepted: both ends are inclusive |
| `Cli.ValidateTemperatureJustOutside` | src/main.rs:75-81 | "2899" and "7001" are refused as out of range |
| `Cli.ValidateTemperatureText` | src/main.rs:72-74 | "3000K" and "" are refused as not a number |
| `Cli.Command.Parsed` | src/main.rs:99-124 | what clap's value parsers guarantee: an `on` brightness in 0..=100 and `on`/`temperature` temperatures in 2900..=7000. Its contract states that a parsed temperature is at least 16, so `kelvin_to_mireds` neither panics nor truncates; `Cli.DefaultOnParsed` shows that the defaults satisfy it |
| `Cli.Command.IpAddress` | src/main.rs:137-145 | every variant yields the address it carries |
| `Api.LightDevice.GetStatus` | src/main.rs:45-56 | a GET returns the light's document when answered, a connect error when unreachable and a parse error when the reply is not a document; it changes nothing |
| `Api.LightDevice.SetStatus` | src/main.rs:58-67 | a PUT that reaches the light replaces its document and is logged; one that does not fails with a send error and changes nothing |
| `Commands.Clamp` | src/main.rs:192 | `clamp(lo, hi)` lies in lo..=hi, is x inside it, lo below it and hi above it |
| `Commands.RelativeBrightness` | src/main.rs:192 | the new brightness never exceeds 100 |
| `Commands.PowerOn` | src/main.rs:189-191 | a dark light (`on` 0) gets `on` 1, a lit light keeps its `on` value, and brightness and temperature are untouched |
| `Commands.WithFirstLight` | src/main.rs:185-194 | writing back the first light keeps numberOfLights, the number of lights and every other light |
| `Commands.PowerLabel` | src/main.rs:218 | "On" exactly when `on == 1`, "Off" otherwise |
| `Commands.Step` | src/main.rs:154-223 | what each arm of `main` PUTs and reports. Its contract states that a run PUTs at most one document, that it PUTs one exactly when it succeeds with something other than a status report, and only over a link whose PUT gets through. Each path is stated by the `Commands` lemmas below: `OnSendsOneLight`, `OffSendsOneDarkLight`, `BrightnessChangesOnlyFirstLight`, `TemperatureChangesOnlyFirstLight`, `StatusReportsFirstLight`, `EmptyLightsFail`, `FetchFailureSendsNothing`, `PutFailureAfterRead` and `StatusZeroTemperaturePanics` |
| `Commands.RelativeBrightnessSaturates` | src/main.rs:192 | the new brightness is old + delta when that lies in 0..=100, 0 below and 100 above |
| `Commands.RelativeBrightnessExamples` | src/main.rs:192 | 95 + 20 gives 100, 3 − 10 gives 0, 255 − 128 gives 100 |
| `Commands.RelativeBrightnessMonotone` | src/main.rs:192 | a larger delta never gives a lower brightness |
| `Commands.OnOffIgnoreState` | src/main.rs:155-182 | `on` and `off` do not depend on what the light holds: they never read it |
| `Commands.OnSendsOneLight` | src/main.rs:155-170 | `on` PUTs one document: numberOfLights 1, one light with on 1, the brightness requested (≤ 100) and 1 000 000 / kelvin mireds (142..=344); a failed PUT sends nothing and reports the send error |
| `Commands.OffSendsOneDarkLight` | src/main.rs:171-182 | `off` PUTs one document: numberOfLights 1, one light with on, brightness and temperature 0 |
| `Commands.BrightnessChangesOnlyFirstLight` | src/main.rs:183-196 | `brightness` PUTs the read document with only the first light's `on` (0 becomes 1, any other value kept) and brightness (the saturated sum) changed, and reports that brightness |
| `Commands.TemperatureChangesOnlyFirstLight` | src/main.rs:197-209 | `temperature` PUTs the read document with only the first light's `on` (0 becomes 1, any other value kept) and temperature (1 000 000 / kelvin) changed |
| `Commands.TemperatureIdempotent` | src/main.rs:197-209 | setting the same temperature again PUTs the document the light already holds |
| `Commands.AdjustmentsCommute` | src/main.rs:183-209 | a brightness change and a temperature change leave the same document in either order |
| `Commands.StatusIsReadOnly` | src/main.rs:210-222 | `status` PUTs nothing, whatever the light holds and however the link fares |
| `Commands.StatusReportsFirstLight` | src/main.rs:210-222 | over every link whose GET is answered, however a PUT would fare, `status` PUTs nothing and reports "On" exactly when the first light's `on` is 1, its brightness, and its temperature converted to Kelvin |
| `Commands.EmptyLightsFail` | src/main.rs:183-215 | `brightness`, `temperature` and `status` on an answered document with no lights fail with "No lights found" and PUT nothing, however a PUT would fare |
| `Commands.StatusZeroTemperaturePanics` | src/main.rs:210-221 | `status` on any answered document whose first light has temperature 0 divides by zero and PUTs nothing |
| `Commands.FetchFailureSendsNothing` | src/main.rs:183-211 | a command that reads the light fails with the GET's error (connect or parse) and PUTs nothing |
| `Commands.PutFailureAfterRead` | src/main.rs:194-207 | when the GET is answered but the PUT does not reach the light, `brightness` and `temperature` fail with the send error |
| `Commands.OnThenStatus` | src/main.rs:155-222 | after `on`, `status` reports "On", the brightness set and a temperature from the one set to 49 Kelvin above it |
| `Commands.OffThenStatus` | src/main.rs:171-221 | `status` on the document `off` sends divides by zero |
| `Commands.BrightnessThenStatusPower` | src/main.rs:189-218 | after `brightness`, `status` prints "On" exactly when the light's old `on` was 0 or 1 |
| `Main.Execute` | src/main.rs:154-223 | each arm returns what `Step` reports and PUTs exactly the documents `Step` sends (at most one). The light then holds that document if one was sent, and otherwise keeps its old one. `status` leaves the light unchanged |
| `Main.Run` | src/main.rs:149-226 | the command goes to the light at `Command::ip_address` and behaves as `Step` says there: its result, the documents PUT, the light's new document and its unchanged link. `status` changes no light. An unknown address behaves as an unreachable light. No other light changes |

## Left out

- HTTP transport: `build_client`, the reqwest GET and PUT, the URL with port 9123, and the IPv4-only local binding. This is network I/O through a library. It is replaced by `LightDevice` and its `link`.
- Api.LightDevice.SetStatus: a failed PUT is assumed to leave the light unchanged. reqwest also reports "Failed to send command to light" when the light received and applied the document but the reply was lost; the model does not capture that case, so `Main.Execute` promising the old document after a send error rests on this assumption.
- The light's own behaviour: the model assumes a light stores exactly the document PUT to it. Real firmware may clamp or merge fields.
- JSON (de)serialisation and the `numberOfLights` rename. A reply that does not deserialise, including numbers out of the u8, u16 or i64 range, is the `Unparsable` GET outcome.
- The tokio runtime and `await`. The logic is sequential.
- Argument parsing by clap, help text, the `ELGATO_LIGHT_IP` environment variable and the choice of default address (the constant itself is kept). Their effect is kept only as `Command.Parsed`: an `on` brightness of at most 100, and validated temperatures. The i8 range of the `brightness` delta is its type.
- The printed text. `Commands.Report` stands for each success message. The `status` arm prints its Power and Brightness lines before `mireds_to_kelvin` panics; the model records only the panic.
- `anyhow` error chaining and process exit codes. Errors are `Commands.Error` values.
- Units.KelvinToMireds: a zero input (a Rust panic) is excluded by `requires kelvin > 0` rather than modelled, because only validated temperatures reach it.
- Discovery, a target cache, name filtering and sending one command to several lights. None of these exist in this source file.
