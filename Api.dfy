/**
 * The light's HTTP API (src/main.rs:10-67): the status document it serves
 * and accepts at /elgato/lights, and the light itself as an endpoint that
 * answers GET with its current document and stores the document of a PUT.
 * Transport, JSON and the client builder are not modelled; whether a
 * request reaches the light and whether its reply parses is the endpoint's
 * `link`.
 */
module Api {
  import opened Wrappers
  import opened Units

  /** One lamp: `on` is 1 when lit, `temperature` is in mireds. */
  datatype Light = Light(on: u8, brightness: u8, temperature: u16)

  /** The document exchanged with the light. */
  datatype LightStatus = LightStatus(numberOfLights: i64, lights: seq<Light>)

  /** How a GET to the light fares. */
  datatype GetFate =
    | Answers      // the light replies with its document
    | Unreachable  // no connection
    | Unparsable   // the reply is not a status document

  /**
   * How requests to the light fare: GET as `get` says, and a PUT (whose
   * reply is never read) reaches the light exactly when `put` holds.
   */
  datatype Link = Link(get: GetFate, put: bool)

  /** A light that answers every request, and one that answers none. */
  const UP: Link := Link(Answers, true)
  const DOWN: Link := Link(Unreachable, false)

  datatype DeviceError =
    | ConnectFailed  // "Failed to connect to light"
    | ParseFailed    // "Failed to parse light status"
    | SendFailed     // "Failed to send command to light"

  /** What get_status returns from a light in state `status` over `link`. */
  function Fetch(link: Link, status: LightStatus): Result<LightStatus, DeviceError> {
    match link.get
    case Answers => Ok(status)
    case Unreachable => Err(ConnectFailed)
    case Unparsable => Err(ParseFailed)
  }

  /** What set_status returns over `link`. */
  function Store(link: Link): Result<(), DeviceError> {
    if link.put then Ok(()) else Err(SendFailed)
  }

  class LightDevice {
    /** The document the light currently serves. */
    var status: LightStatus
    var link: Link
    /** Every document PUT to the light, oldest first. */
    ghost var sent: seq<LightStatus>

    constructor (status: LightStatus, link: Link)
      ensures this.status == status && this.link == link && sent == []
    {
      this.status := status;
      this.link := link;
      sent := [];
    }

    /** get_status: a GET that changes nothing. */
    method GetStatus() returns (r: Result<LightStatus, DeviceError>)
      ensures link.get == Answers ==> r == Ok(status)
      ensures link.get == Unreachable ==> r == Err(ConnectFailed)
      ensures link.get == Unparsable ==> r == Err(ParseFailed)
    {
      r := Fetch(link, status);
    }

    /** set_status: a PUT that, when it reaches the light, replaces its document. */
    method SetStatus(s: LightStatus) returns (r: Result<(), DeviceError>)
      modifies this
      ensures link == old(link)
      ensures r.Ok? <==> link.put
      ensures r.Err? ==> r.error == SendFailed
      ensures r.Ok? ==> status == s && sent == old(sent) + [s]
      ensures r.Err? ==> status == old(status) && sent == old(sent)
    {
      r := Store(link);
      if r.Ok? {
        status := s;
        sent := sent + [s];
      }
    }
  }
}
