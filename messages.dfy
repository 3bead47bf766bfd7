/** The decoded-message vocabulary the tracker consumes. The bit-level
    decoder that produces these values is an external library; only the
    shape of its output is modelled here. */
module Messages {
  import opened Common

  /** 24-bit ICAO transponder address */
  type Icao = x: int | 0 <= x < 0x100_0000

  /** Transponder identity code (four octal digits), as the decoder hands it over */
  type Squawk = u16

  datatype Parity = Even | Odd

  /** One half of a Compact Position Reporting pair: its parity and the
      encoded latitude and longitude bits, never interpreted by the tracker. */
  datatype CprFrame = CprFrame(parity: Parity, latitudeBits: nat, longitudeBits: nat)

  /** A resolved coordinate. Floating-point degrees are modelled as reals
      that the tracker only copies. */
  datatype Position = Position(latitude: real, longitude: real)

  datatype VerticalRateSource = BarometricPressureAltitude | GeometricAltitude

  datatype AdsbKind =
    | AircraftIdentification(callsign: string)
    | AirbornePosition(altitude: u16, cprFrame: CprFrame)
    | AirborneVelocity(heading: real, groundSpeed: real, verticalRate: i16,
                       verticalRateSource: VerticalRateSource)

  datatype ModeSKind = SurveillanceIdentity(squawk: Squawk)

  datatype MessageKind =
    | AdsbMessage(icaoAddress: Icao, adsb: AdsbKind)
    | ModeSMessage(icaoAddress: Icao, modeS: ModeSKind)
    | Unknown

  datatype Message = Message(downlinkFormat: byte, kind: MessageKind)

  /** Why the external decoder refused a frame; its contents are not used. */
  datatype ParserError = ParserError(reason: string)

  /** The external global CPR decoder: given the older and the newer half of a
      pair, a coordinate or nothing. */
  type Resolver = (CprFrame, CprFrame) -> Option<Position>

  /** `icao`: the aircraft a message is about, if the decoder recognised it. */
  function MessageIcao(message: Message): (r: Option<Icao>)
    ensures r.None? <==> message.kind.Unknown?
    ensures r.Some? ==> r.value == message.kind.icaoAddress
  {
    match message.kind
    case AdsbMessage(icaoAddress, _) => Some(icaoAddress)
    case ModeSMessage(icaoAddress, _) => Some(icaoAddress)
    case Unknown => None
  }
}
