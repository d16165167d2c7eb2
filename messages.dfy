/** The weather message carried by every packet (the `txwx.WeatherMessage`
    protocol buffer) and the constructors the transmitter fills it with.
    The protobuf wire encoding itself is not modelled: packets carry it as
    opaque bytes produced and consumed by function parameters. */
module Messages {
  import opened Wrappers
  import opened Position

  /** `WeatherMessage_Type`; any other enum value a decoder may yield is `OtherKind`. */
  datatype Kind = Metar | Taf | Beacon | OtherKind(tag: int)

  /** `txwx.ServerStatus`, the body of a beacon. */
  datatype ServerStatus = ServerStatus(
    timeOk: bool,
    weatherUpdatesOk: bool,
    metarsTracked: nat,
    tafsTracked: nat,
    freqBandStart: nat,
    freqBandEnd: nat,
    freqSchemeList: seq<nat>,
    freqSchemeDwell: seq<nat>,
    freqSchemeCurrentIndex: nat)

  datatype WeatherMessage = WeatherMessage(
    kind: Kind,
    txTime: nat,
    stationLat: real,
    stationLng: real,
    textData: string,
    observationTime: nat,
    serverStatus: Option<ServerStatus>)

  /** The part of an ADDS METAR or TAF record the station sends: its raw
      text and its time (observation time for a METAR, bulletin time for a
      TAF) in Unix seconds. */
  datatype Report = Report(text: string, time: int)

  const TwoTo32: int := 0x1_0000_0000

  /** Go's `uint32(x)` conversion of a signed or unsigned integer: the value
      modulo 2^32 (Dafny's `%` is Euclidean, which is what two's-complement
      truncation yields for negative values too). */
  function Uint32(x: int): (r: nat)
    ensures r < TwoTo32
    ensures 0 <= x < TwoTo32 ==> r == x
    ensures (r - x) % TwoTo32 == 0
  {
    x % TwoTo32
  }

  /** `createMETARWeatherMessage`, sent at Unix time `now` from `loc`. */
  function MetarMessage(m: Report, now: int, loc: Situation): (r: WeatherMessage)
    ensures r.kind == Metar && r.textData == m.text && r.serverStatus.None?
    ensures r.txTime == Uint32(now) && r.observationTime == Uint32(m.time)
    ensures r.stationLat == loc.lat && r.stationLng == loc.lng
  {
    WeatherMessage(Metar, Uint32(now), loc.lat, loc.lng, m.text, Uint32(m.time), None)
  }

  /** `createTAFWeatherMessage`. */
  function TafMessage(t: Report, now: int, loc: Situation): (r: WeatherMessage)
    ensures r.kind == Taf && r.textData == t.text && r.serverStatus.None?
    ensures r.txTime == Uint32(now) && r.observationTime == Uint32(t.time)
    ensures r.stationLat == loc.lat && r.stationLng == loc.lng
  {
    WeatherMessage(Taf, Uint32(now), loc.lat, loc.lng, t.text, Uint32(t.time), None)
  }

  /** First frequency channel of the hopping scheme, 915 MHz, as an offset
      from the 902 MHz band start in units of 1/65536 MHz. */
  const FixedChannel: nat := (915 - 902) * 65536

  /** The message `sendBeaconMessage` builds while `metarCount` METARs and
      `tafCount` TAFs are tracked. */
  function BeaconMessage(metarCount: nat, tafCount: nat, now: int, loc: Situation): (r: WeatherMessage)
    ensures r.kind == Beacon && r.textData == [] && r.serverStatus.Some?
    ensures r.serverStatus.value.timeOk && r.serverStatus.value.weatherUpdatesOk
    ensures r.serverStatus.value.metarsTracked == Uint32(metarCount)
    ensures r.serverStatus.value.tafsTracked == Uint32(tafCount)
    ensures r.serverStatus.value.freqSchemeList == [851968]
    ensures r.serverStatus.value.freqSchemeDwell == [10000] && r.serverStatus.value.freqSchemeCurrentIndex == 0
    ensures r.serverStatus.value.freqBandStart == 902 && r.serverStatus.value.freqBandEnd == 928
    ensures r.txTime == r.observationTime == Uint32(now)
    ensures r.stationLat == loc.lat && r.stationLng == loc.lng
  {
    var status := ServerStatus(
      timeOk := true,
      weatherUpdatesOk := true,
      metarsTracked := Uint32(metarCount),
      tafsTracked := Uint32(tafCount),
      freqBandStart := 902,
      freqBandEnd := 928,
      freqSchemeList := [FixedChannel],
      freqSchemeDwell := [10000],
      freqSchemeCurrentIndex := 0);
    WeatherMessage(Beacon, Uint32(now), loc.lat, loc.lng, [], Uint32(now), Some(status))
  }
}
