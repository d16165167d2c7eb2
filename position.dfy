/** The station-position state shared by the transmitter and the receiver:
    the last decoded GPS situation (`Location`) and the station point used
    for weather lookups (`stationGeoPt`), as the once-a-second
    `situationUpdater` poll and the receiver's manual override change them.

    The HTTP request and the JSON decoding are not modelled: each poll is an
    input saying whether the request failed, the body read failed, or what
    `Location` held after decoding (decoding errors are only logged, so that
    value is used in every case). Coordinates are reals; the `float32` /
    `float64` widths are modelled only where a conversion narrows. */
module Position {
  import opened Wrappers

  /** `MySituation`: the fields of the GPS situation the station uses. */
  datatype Situation = Situation(lat: real, lng: real, altitudeMsl: real, fixQuality: nat, gpsTime: int)

  /** `geo.Point`. */
  datatype GeoPoint = GeoPoint(lat: real, lng: real)

  /** The outcome of one poll of the situation service. */
  datatype Poll =
    | GetFailed
    | BodyFailed
    | Decoded(location: Situation)

  /** `Location`, `stationGeoPt`, and how many first-lock notices were logged. */
  datatype StationState = StationState(location: Situation, geoPt: Option<GeoPoint>, firstLockNotices: nat)

  /** The point a situation denotes: lat and lng widened to float64, exactly. */
  function PointOf(loc: Situation): GeoPoint
  {
    GeoPoint(loc.lat, loc.lng)
  }

  predicate HasFix(loc: Situation)
  {
    loc.fixQuality > 0
  }

  /** One poll: a failed request or body read changes nothing; otherwise the
      decoded situation replaces `Location`, and only a valid fix moves the
      station point. */
  function Tick(s: StationState, p: Poll): (r: StationState)
    ensures !p.Decoded? ==> r == s
    ensures p.Decoded? ==> r.location == p.location
    ensures r.geoPt.None? ==> s.geoPt.None?
    ensures r.geoPt != s.geoPt ==> p.Decoded? && HasFix(p.location) && r.geoPt == Some(PointOf(p.location))
  {
    match p
    case GetFailed => s
    case BodyFailed => s
    case Decoded(loc) =>
      if HasFix(loc) then
        StationState(loc, Some(PointOf(loc)),
                     if s.geoPt.None? then s.firstLockNotices + 1 else s.firstLockNotices)
      else
        s.(location := loc)
  }

  /** A sequence of polls, first to last. */
  function Run(s: StationState, polls: seq<Poll>): StationState
  {
    if polls == [] then s else Tick(Run(s, polls[..|polls| - 1]), polls[|polls| - 1])
  }

  /** The situation of the last poll that reported a valid fix, if any. */
  function LastFix(polls: seq<Poll>): (r: Option<Situation>)
    ensures r.Some? ==> HasFix(r.value) && Decoded(r.value) in polls
  {
    if polls == [] then None
    else
      var p := polls[|polls| - 1];
      if p.Decoded? && HasFix(p.location) then Some(p.location)
      else
        var r := LastFix(polls[..|polls| - 1]);
        assert r.Some? ==> Decoded(r.value) in polls[..|polls| - 1];
        r
  }

  /** Once known, the station point is never cleared. */
  lemma {:induction false} GeoPointNeverCleared(s: StationState, polls: seq<Poll>)
    requires s.geoPt.Some?
    ensures Run(s, polls).geoPt.Some?
  {
    if polls != [] {
      GeoPointNeverCleared(s, polls[..|polls| - 1]);
    }
  }

  /** The station point is the point of the last valid fix, or the one it
      started with if there was none. */
  lemma {:induction false} GeoPointIsLastFix(s: StationState, polls: seq<Poll>)
    ensures Run(s, polls).geoPt == if LastFix(polls).Some? then Some(PointOf(LastFix(polls).value)) else s.geoPt
  {
    if polls != [] {
      GeoPointIsLastFix(s, polls[..|polls| - 1]);
    }
  }

  /** The first-lock notice is logged once, on the transition from no point
      to a point, over any run of polls. */
  lemma {:induction false} FirstLockLoggedOnce(s: StationState, polls: seq<Poll>)
    ensures Run(s, polls).firstLockNotices ==
            s.firstLockNotices + if s.geoPt.None? && Run(s, polls).geoPt.Some? then 1 else 0
  {
    if polls != [] {
      var init := polls[..|polls| - 1];
      FirstLockLoggedOnce(s, init);
      if s.geoPt.Some? {
        GeoPointNeverCleared(s, init);
      }
    }
  }

  /** `Location` always holds the most recent decoded situation. */
  lemma {:induction false} LocationIsLastDecoded(s: StationState, polls: seq<Poll>, k: nat)
    requires k < |polls| && polls[k].Decoded?
    requires forall j :: k < j < |polls| ==> !polls[j].Decoded?
    ensures Run(s, polls).location == polls[k].location
  {
    if k < |polls| - 1 {
      LocationIsLastDecoded(s, polls[..|polls| - 1], k);
    } else {
      assert polls[|polls| - 1] == polls[k];
    }
  }

  /** The globals `Location` and `stationGeoPt`, updated in place. */
  class Station {
    var location: Situation
    var geoPt: Option<GeoPoint>
    var firstLockNotices: nat

    function State(): StationState
      reads this
    {
      StationState(location, geoPt, firstLockNotices)
    }

    /** The zero values the globals start with. */
    constructor ()
      ensures State() == StationState(Situation(0.0, 0.0, 0.0, 0, 0), None, 0)
    {
      location := Situation(0.0, 0.0, 0.0, 0, 0);
      geoPt := None;
      firstLockNotices := 0;
    }

    /** One iteration of `situationUpdater`'s loop. */
    method Poll(p: Poll)
      modifies this
      ensures State() == Tick(old(State()), p)
    {
      match p {
        case GetFailed =>
        case BodyFailed =>
        case Decoded(loc) =>
          location := loc;
          if location.fixQuality > 0 {
            if geoPt == None {
              firstLockNotices := firstLockNotices + 1;
            }
            geoPt := Some(GeoPoint(location.lat, location.lng));
          }
      }
    }

    /** `situationUpdater` over a finite stretch of ticks. */
    method PollAll(polls: seq<Poll>)
      modifies this
      ensures State() == Run(old(State()), polls)
    {
      for i := 0 to |polls|
        invariant State() == Run(old(State()), polls[..i])
      {
        assert polls[..i + 1][..i] == polls[..i];
        Poll(polls[i]);
      }
      assert polls[..|polls|] == polls;
    }

    /** The receiver's manual position (rx.go): a configured non-zero lat or
        lng seeds `Location` with the values narrowed to float32 and the
        station point with the configured float64 values. No first-lock
        notice is logged for it. */
    method SeedManual(manualLat: real, manualLng: real, toFloat32: real -> real)
      modifies this
      ensures State() == SeedManualState(old(State()), manualLat, manualLng, toFloat32)
    {
      if manualLat != 0.0 || manualLng != 0.0 {
        location := location.(lat := toFloat32(manualLat), lng := toFloat32(manualLng));
        geoPt := Some(GeoPoint(manualLat, manualLng));
      }
    }
  }

  function SeedManualState(s: StationState, manualLat: real, manualLng: real, toFloat32: real -> real): (r: StationState)
    ensures (manualLat == 0.0 && manualLng == 0.0) ==> r == s
    ensures (manualLat != 0.0 || manualLng != 0.0) ==> r.geoPt == Some(GeoPoint(manualLat, manualLng))
    ensures (manualLat != 0.0 || manualLng != 0.0) ==>
      r.location == s.location.(lat := toFloat32(manualLat), lng := toFloat32(manualLng))
    ensures r.firstLockNotices == s.firstLockNotices
  {
    if manualLat != 0.0 || manualLng != 0.0 then
      s.(location := s.location.(lat := toFloat32(manualLat), lng := toFloat32(manualLng)),
         geoPt := Some(GeoPoint(manualLat, manualLng)))
    else s
  }

  /** After a manual seed, a later GPS fix replaces the point but never logs
      the first-lock notice. */
  lemma ManualSeedSuppressesFirstLockNotice(s: StationState, manualLat: real, manualLng: real, toFloat32: real -> real, polls: seq<Poll>)
    requires manualLat != 0.0 || manualLng != 0.0
    ensures Run(SeedManualState(s, manualLat, manualLng, toFloat32), polls).firstLockNotices == s.firstLockNotices
  {
    var seeded := SeedManualState(s, manualLat, manualLng, toFloat32);
    FirstLockLoggedOnce(seeded, polls);
  }
}
