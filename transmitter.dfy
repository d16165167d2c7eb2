/** The transmitting station (tx.go): the weather lists it tracks, the
    packets it hands the radio and its `MessagesSent` counter, and one pass
    of its transmit loop.

    The radio is modelled by the sequence of packets passed to `TX`. The
    ADDS fetches around the station point are function parameters, the
    protobuf encoder a function parameter, the clock a `now` input per pass,
    the current `Location` an input, and the beacon ticker a boolean saying
    whether a tick is pending. */
module Transmitter {
  import opened Wrappers
  import opened Bytes
  import opened Crc
  import opened Framing
  import opened Text
  import opened Position
  import opened Messages
  import Seqs

  /** The run options `-beaconMode`, `-metars` and `-tafs`. */
  datatype Config = Config(beaconMode: bool, txMetars: bool, txTafs: bool)

  // ---- the TAF prefix ----

  /** How a build treats the "TAF " that ADDS puts in front of a TAF: as
      tx.go writes it, or as intended. */
  datatype TafStrip = AsWritten | Corrected

  /** The prefix strip as tx.go writes it: the slice `Text[:4]` panics
      (`None`) on a text shorter than four bytes; otherwise the four-byte
      slice is compared with the three-byte "TAF", so it never matches and
      the text passes unchanged. */
  function TafPrefixAsWritten(text: string): (r: Option<string>)
    ensures r.None? <==> |text| < 4
    ensures r.Some? ==> r.value == text
  {
    if |text| < 4 then None
    else if text[..4] == "TAF" then Some(Drop(text, 4))
    else Some(text)
  }

  /** `s[n:]`, or nothing when `s` is shorter than `n`. */
  function Drop(s: string, n: int): string
  {
    if 0 <= n <= |s| then s[n..] else []
  }

  /** The strip as intended: drop a leading "TAF " so that the receiver,
      which puts "TAF " back, shows the report once. */
  function StripTafPrefix(text: string): (r: string)
    ensures StartsWith(text, "TAF ") ==> "TAF " + r == text
    ensures !StartsWith(text, "TAF ") ==> r == text
  {
    if StartsWith(text, "TAF ") then text[4..] else text
  }

  /** The text a TAF is sent with, or `None` where the handling panics. */
  function TafText(strip: TafStrip, text: string): Option<string>
  {
    match strip
    case AsWritten => TafPrefixAsWritten(text)
    case Corrected => Some(StripTafPrefix(text))
  }

  // ---- what one pass sends ----

  /** The messages a stretch of the transmit loop hands to `txWeatherMessage`,
      in order, and whether it ended in a panic. */
  datatype Sent = Sent(msgs: seq<WeatherMessage>, panicked: bool)

  function MetarMessages(metars: seq<Report>, now: int, loc: Situation): (r: seq<WeatherMessage>)
    ensures |r| == |metars|
  {
    if metars == [] then []
    else MetarMessages(metars[..|metars| - 1], now, loc) + [MetarMessage(metars[|metars| - 1], now, loc)]
  }

  /** One turn of the TAF loop after `prev`: nothing once the loop has
      panicked; otherwise either a panic or the message for `t`. */
  function TafStep(strip: TafStrip, prev: Sent, t: Report, now: int, loc: Situation): Sent
  {
    if prev.panicked then prev
    else
      match TafText(strip, t.text)
      case None => Sent(prev.msgs, true)
      case Some(text) => Sent(prev.msgs + [TafMessage(t.(text := text), now, loc)], false)
  }

  /** The TAF loop over a snapshot. A loop that does not panic sends one
      message per TAF. */
  function TafSends(strip: TafStrip, tafs: seq<Report>, now: int, loc: Situation): (r: Sent)
    ensures |r.msgs| <= |tafs|
    ensures !r.panicked ==> |r.msgs| == |tafs|
  {
    if tafs == [] then Sent([], false)
    else TafStep(strip, TafSends(strip, tafs[..|tafs| - 1], now, loc), tafs[|tafs| - 1], now, loc)
  }

  lemma MetarMessagesSnoc(metars: seq<Report>, i: nat, now: int, loc: Situation)
    requires i < |metars|
    ensures MetarMessages(metars[..i + 1], now, loc) ==
            MetarMessages(metars[..i], now, loc) + [MetarMessage(metars[i], now, loc)]
  {
    assert metars[..i + 1][..i] == metars[..i];
  }

  lemma TafSendsSnoc(strip: TafStrip, tafs: seq<Report>, i: nat, now: int, loc: Situation)
    requires i < |tafs|
    ensures TafSends(strip, tafs[..i + 1], now, loc) ==
            TafStep(strip, TafSends(strip, tafs[..i], now, loc), tafs[i], now, loc)
  {
    assert tafs[..i + 1][..i] == tafs[..i];
  }

  /** The METARs of a pass under `cfg`. */
  function PassMetars(cfg: Config, metars: seq<Report>, now: int, loc: Situation): seq<WeatherMessage>
  {
    if cfg.txMetars then MetarMessages(metars, now, loc) else []
  }

  /** The TAF loop of a pass under `cfg`. */
  function PassTafs(cfg: Config, strip: TafStrip, tafs: seq<Report>, now: int, loc: Situation): Sent
  {
    if cfg.txTafs then TafSends(strip, tafs, now, loc) else Sent([], false)
  }

  /** The weather messages of one pass over the snapshot lists. */
  function WeatherSends(cfg: Config, strip: TafStrip, metars: seq<Report>, tafs: seq<Report>, now: int, loc: Situation): Sent
  {
    if cfg.beaconMode then Sent([], false)
    else
      var t := PassTafs(cfg, strip, tafs, now, loc);
      Sent(PassMetars(cfg, metars, now, loc) + t.msgs, t.panicked)
  }

  /** Everything one pass of the loop sends, in order: the weather messages
      and, unless the TAF loop panicked, a beacon if one is due. */
  function PassSends(cfg: Config, strip: TafStrip, metars: seq<Report>, tafs: seq<Report>, now: int, loc: Situation, beaconDue: bool): Sent
  {
    var w := WeatherSends(cfg, strip, metars, tafs, now, loc);
    if w.panicked then w
    else Sent(w.msgs + (if beaconDue then [BeaconMessage(|metars|, |tafs|, now, loc)] else []), false)
  }

  /** The packets that reach the radio when `msgs` are sent one by one:
      each message is framed, and dropped if the frame is too long. */
  function OnAir(marshal: WeatherMessage -> seq<byte>, msgs: seq<WeatherMessage>): seq<seq<byte>>
  {
    if msgs == [] then []
    else
      var packet := Frame(marshal(msgs[|msgs| - 1]));
      OnAir(marshal, msgs[..|msgs| - 1]) + (if FitsRadio(packet) then [packet] else [])
  }

  // ---- properties of a pass ----

  lemma {:induction false} MetarMessagesAt(metars: seq<Report>, now: int, loc: Situation, i: nat)
    requires i < |metars|
    ensures MetarMessages(metars, now, loc)[i] == MetarMessage(metars[i], now, loc)
  {
    if i < |metars| - 1 {
      MetarMessagesAt(metars[..|metars| - 1], now, loc, i);
    }
  }

  /** The i-th TAF message sent is built from the i-th snapshot TAF, whose
      handling did not panic, with the text that handling gives. */
  lemma {:induction false} TafSendsAt(strip: TafStrip, tafs: seq<Report>, now: int, loc: Situation, i: nat)
    requires i < |TafSends(strip, tafs, now, loc).msgs|
    ensures TafText(strip, tafs[i].text).Some?
    ensures TafSends(strip, tafs, now, loc).msgs[i] == TafMessage(tafs[i].(text := TafText(strip, tafs[i].text).value), now, loc)
  {
    var init := tafs[..|tafs| - 1];
    var prev := TafSends(strip, init, now, loc);
    if i < |prev.msgs| {
      TafSendsAt(strip, init, now, loc, i);
    }
  }

  /** The TAF loop panics exactly when the handling of some snapshot TAF
      does. */
  lemma {:induction false} TafPanicIff(strip: TafStrip, tafs: seq<Report>, now: int, loc: Situation)
    ensures TafSends(strip, tafs, now, loc).panicked <==>
            exists i :: 0 <= i < |tafs| && TafText(strip, tafs[i].text).None?
  {
    if tafs != [] {
      var init := tafs[..|tafs| - 1];
      TafPanicIff(strip, init, now, loc);
      if exists i :: 0 <= i < |init| && TafText(strip, init[i].text).None? {
        var i :| 0 <= i < |init| && TafText(strip, init[i].text).None?;
        assert tafs[i] == init[i];
      }
      if exists i :: 0 <= i < |tafs| && TafText(strip, tafs[i].text).None? {
        var i :| 0 <= i < |tafs| && TafText(strip, tafs[i].text).None?;
        if i < |init| {
          assert init[i] == tafs[i];
        }
      }
    }
  }

  /** Once the loop has panicked, the later TAFs change nothing. */
  lemma {:induction false} PanicSticky(strip: TafStrip, tafs: seq<Report>, k: nat, now: int, loc: Situation)
    requires k <= |tafs| && TafSends(strip, tafs[..k], now, loc).panicked
    ensures TafSends(strip, tafs, now, loc) == TafSends(strip, tafs[..k], now, loc)
    decreases |tafs|
  {
    if k == |tafs| {
      assert tafs[..k] == tafs;
    } else {
      var init := tafs[..|tafs| - 1];
      assert init[..k] == tafs[..k];
      PanicSticky(strip, init, k, now, loc);
    }
  }

  /** The first TAF whose handling panics ends the loop: the TAFs before it
      are all sent, it and the ones after it are not. */
  lemma PanicStopsTafs(strip: TafStrip, tafs: seq<Report>, k: nat, now: int, loc: Situation)
    requires k < |tafs| && TafText(strip, tafs[k].text).None?
    requires forall j :: 0 <= j < k ==> TafText(strip, tafs[j].text).Some?
    ensures TafSends(strip, tafs, now, loc) == Sent(TafSends(strip, tafs[..k], now, loc).msgs, true)
    ensures |TafSends(strip, tafs, now, loc).msgs| == k
  {
    var pre := tafs[..k];
    TafPanicIff(strip, pre, now, loc);
    assert forall j :: 0 <= j < k ==> pre[j] == tafs[j];
    TafSendsSnoc(strip, tafs, k, now, loc);
    PanicSticky(strip, tafs, k + 1, now, loc);
  }

  /** With the corrected strip the loop never panics and sends every TAF,
      each without its leading "TAF ". */
  lemma CorrectedSendsEveryTaf(tafs: seq<Report>, now: int, loc: Situation)
    ensures !TafSends(Corrected, tafs, now, loc).panicked
    ensures forall i :: 0 <= i < |tafs| ==>
      TafSends(Corrected, tafs, now, loc).msgs[i] == TafMessage(tafs[i].(text := StripTafPrefix(tafs[i].text)), now, loc)
  {
    TafPanicIff(Corrected, tafs, now, loc);
    forall i | 0 <= i < |tafs|
      ensures TafSends(Corrected, tafs, now, loc).msgs[i] == TafMessage(tafs[i].(text := StripTafPrefix(tafs[i].text)), now, loc)
    {
      TafSendsAt(Corrected, tafs, now, loc, i);
    }
  }

  /** As written, when every snapshot TAF has at least four bytes the loop
      sends every TAF with its text unchanged. */
  lemma AsWrittenSendsTextsUnchanged(tafs: seq<Report>, now: int, loc: Situation)
    requires forall i :: 0 <= i < |tafs| ==> |tafs[i].text| >= 4
    ensures !TafSends(AsWritten, tafs, now, loc).panicked
    ensures forall i :: 0 <= i < |tafs| ==> TafSends(AsWritten, tafs, now, loc).msgs[i] == TafMessage(tafs[i], now, loc)
  {
    TafPanicIff(AsWritten, tafs, now, loc);
    forall i | 0 <= i < |tafs|
      ensures TafSends(AsWritten, tafs, now, loc).msgs[i] == TafMessage(tafs[i], now, loc)
    {
      TafSendsAt(AsWritten, tafs, now, loc, i);
      assert tafs[i].(text := tafs[i].text) == tafs[i];
    }
  }

  /** As written, a snapshot TAF shorter than four bytes makes the loop
      panic. */
  lemma ShortTafPanics(tafs: seq<Report>, k: nat, now: int, loc: Situation)
    requires k < |tafs| && |tafs[k].text| < 4
    ensures TafSends(AsWritten, tafs, now, loc).panicked
  {
    TafPanicIff(AsWritten, tafs, now, loc);
  }

  /** Outside beacon mode a pass is its METARs, then its TAFs, then the beacon
      if one is due and nothing panicked. */
  lemma PassShape(cfg: Config, strip: TafStrip, metars: seq<Report>, tafs: seq<Report>, now: int, loc: Situation, beaconDue: bool)
    requires !cfg.beaconMode
    ensures PassSends(cfg, strip, metars, tafs, now, loc, beaconDue) ==
      Sent(PassMetars(cfg, metars, now, loc) + PassTafs(cfg, strip, tafs, now, loc).msgs +
           (if beaconDue && !PassTafs(cfg, strip, tafs, now, loc).panicked then [BeaconMessage(|metars|, |tafs|, now, loc)] else []),
           PassTafs(cfg, strip, tafs, now, loc).panicked)
  {
    var m := PassMetars(cfg, metars, now, loc);
    var ts := PassTafs(cfg, strip, tafs, now, loc);
    if !ts.panicked && beaconDue {
      Seqs.AppendAssoc(m, ts.msgs, [BeaconMessage(|metars|, |tafs|, now, loc)]);
    } else {
      Seqs.AppendEmpty(m + ts.msgs);
    }
  }

  /** A kind that is switched off is not sent at all. */
  lemma GatedKinds(cfg: Config, strip: TafStrip, metars: seq<Report>, tafs: seq<Report>, now: int, loc: Situation, beaconDue: bool)
    requires !cfg.beaconMode
    ensures !cfg.txMetars ==> forall m :: m in PassSends(cfg, strip, metars, tafs, now, loc, beaconDue).msgs ==> m.kind != Metar
    ensures !cfg.txTafs ==> forall m :: m in PassSends(cfg, strip, metars, tafs, now, loc, beaconDue).msgs ==> m.kind != Taf
  {
    PassShape(cfg, strip, metars, tafs, now, loc, beaconDue);
    NoBeaconInMetars(metars, now, loc);
    NoBeaconInTafs(strip, tafs, now, loc);
  }

  /** Outside beacon mode a pass sends, when enabled, every snapshot METAR in
      order, then, when enabled, the TAFs in order up to the first one whose
      handling panics (all of them when none does), then the beacon if one is
      due and nothing panicked; nothing else. A kind that is switched off is
      not sent at all. */
  lemma SendOrder(cfg: Config, strip: TafStrip, metars: seq<Report>, tafs: seq<Report>, now: int, loc: Situation, beaconDue: bool)
    requires !cfg.beaconMode
    ensures var r := PassSends(cfg, strip, metars, tafs, now, loc, beaconDue);
      |r.msgs| == (if cfg.txMetars then |metars| else 0) +
                  (if cfg.txTafs then |TafSends(strip, tafs, now, loc).msgs| else 0) +
                  (if beaconDue && !r.panicked then 1 else 0)
    ensures cfg.txMetars ==> forall i :: 0 <= i < |metars| ==>
      PassSends(cfg, strip, metars, tafs, now, loc, beaconDue).msgs[i] == MetarMessage(metars[i], now, loc)
    ensures cfg.txTafs ==> forall i :: 0 <= i < |TafSends(strip, tafs, now, loc).msgs| ==>
      TafText(strip, tafs[i].text).Some? &&
      PassSends(cfg, strip, metars, tafs, now, loc, beaconDue).msgs[(if cfg.txMetars then |metars| else 0) + i] ==
      TafMessage(tafs[i].(text := TafText(strip, tafs[i].text).value), now, loc)
    ensures !cfg.txMetars ==> forall m :: m in PassSends(cfg, strip, metars, tafs, now, loc, beaconDue).msgs ==> m.kind != Metar
    ensures !cfg.txTafs ==> forall m :: m in PassSends(cfg, strip, metars, tafs, now, loc, beaconDue).msgs ==> m.kind != Taf
  {
    PassShape(cfg, strip, metars, tafs, now, loc, beaconDue);
    GatedKinds(cfg, strip, metars, tafs, now, loc, beaconDue);
    var m := PassMetars(cfg, metars, now, loc);
    var ts := PassTafs(cfg, strip, tafs, now, loc);
    var msgs := PassSends(cfg, strip, metars, tafs, now, loc, beaconDue).msgs;
    if cfg.txMetars {
      forall i | 0 <= i < |metars|
        ensures msgs[i] == MetarMessage(metars[i], now, loc)
      {
        MetarMessagesAt(metars, now, loc, i);
        assert msgs[i] == m[i];
      }
    }
    if cfg.txTafs {
      forall i | 0 <= i < |ts.msgs|
        ensures TafText(strip, tafs[i].text).Some? &&
                msgs[|m| + i] == TafMessage(tafs[i].(text := TafText(strip, tafs[i].text).value), now, loc)
      {
        TafSendsAt(strip, tafs, now, loc, i);
        assert msgs[|m| + i] == ts.msgs[i];
      }
    }
  }

  /** A pass panics exactly when it runs the TAF loop and the handling of
      some snapshot TAF panics. */
  lemma PassPanicIff(cfg: Config, strip: TafStrip, metars: seq<Report>, tafs: seq<Report>, now: int, loc: Situation, beaconDue: bool)
    ensures PassSends(cfg, strip, metars, tafs, now, loc, beaconDue).panicked <==>
      !cfg.beaconMode && cfg.txTafs && exists i :: 0 <= i < |tafs| && TafText(strip, tafs[i].text).None?
  {
    TafPanicIff(strip, tafs, now, loc);
  }

  /** In beacon mode a pass does not panic and sends no METAR or TAF. */
  lemma BeaconModeSendsNoWeather(cfg: Config, strip: TafStrip, metars: seq<Report>, tafs: seq<Report>, now: int, loc: Situation, beaconDue: bool)
    requires cfg.beaconMode
    ensures !PassSends(cfg, strip, metars, tafs, now, loc, beaconDue).panicked
    ensures forall m :: m in PassSends(cfg, strip, metars, tafs, now, loc, beaconDue).msgs ==> m.kind == Beacon
  {
  }

  lemma {:induction false} NoBeaconInMetars(metars: seq<Report>, now: int, loc: Situation)
    ensures forall m :: m in MetarMessages(metars, now, loc) ==> m.kind == Metar
  {
    if metars != [] {
      NoBeaconInMetars(metars[..|metars| - 1], now, loc);
    }
  }

  lemma {:induction false} NoBeaconInTafs(strip: TafStrip, tafs: seq<Report>, now: int, loc: Situation)
    ensures forall m :: m in TafSends(strip, tafs, now, loc).msgs ==> m.kind == Taf
  {
    if tafs != [] {
      NoBeaconInTafs(strip, tafs[..|tafs| - 1], now, loc);
    }
  }

  /** A pass sends at most one beacon, and only after its weather messages:
      the last message is a beacon exactly when a tick was pending and the
      TAF loop did not panic, and no other message is one. */
  lemma AtMostOneBeaconLast(cfg: Config, strip: TafStrip, metars: seq<Report>, tafs: seq<Report>, now: int, loc: Situation, beaconDue: bool)
    ensures var r := PassSends(cfg, strip, metars, tafs, now, loc, beaconDue);
      (forall i :: 0 <= i < |r.msgs| - 1 ==> r.msgs[i].kind != Beacon) &&
      (beaconDue && !r.panicked <==> |r.msgs| > 0 && r.msgs[|r.msgs| - 1].kind == Beacon)
  {
    var weather := WeatherSends(cfg, strip, metars, tafs, now, loc).msgs;
    NoBeaconInMetars(metars, now, loc);
    NoBeaconInTafs(strip, tafs, now, loc);
    assert forall m :: m in weather ==> m.kind != Beacon;
    var r := PassSends(cfg, strip, metars, tafs, now, loc, beaconDue);
    forall i | 0 <= i < |r.msgs| - 1
      ensures r.msgs[i].kind != Beacon
    {
      assert r.msgs[i] in weather;
    }
    if !(beaconDue && !r.panicked) && |r.msgs| > 0 {
      assert r.msgs[|r.msgs| - 1] in weather;
    }
  }

  lemma OnAirSingle(marshal: WeatherMessage -> seq<byte>, msg: WeatherMessage)
    ensures OnAir(marshal, [msg]) ==
      (if FitsRadio(Frame(marshal(msg))) then [Frame(marshal(msg))] else [])
  {
    assert [msg][..0] == [];
  }

  lemma {:induction false} OnAirAppend(marshal: WeatherMessage -> seq<byte>, a: seq<WeatherMessage>, b: seq<WeatherMessage>)
    ensures OnAir(marshal, a + b) == OnAir(marshal, a) + OnAir(marshal, b)
    decreases |b|
  {
    if b != [] {
      assert (a + b)[..|a + b| - 1] == a + b[..|b| - 1];
      OnAirAppend(marshal, a, b[..|b| - 1]);
    } else {
      assert a + b == a;
    }
  }

  lemma OnAirSnoc(marshal: WeatherMessage -> seq<byte>, prev: seq<seq<byte>>, msgs: seq<WeatherMessage>, msg: WeatherMessage)
    ensures prev + OnAir(marshal, msgs + [msg]) == prev + OnAir(marshal, msgs) + OnAir(marshal, [msg])
  {
    OnAirAppend(marshal, msgs, [msg]);
  }

  /** A message too long for the radio is skipped and the rest still go out. */
  lemma OversizedMessageSkipped(marshal: WeatherMessage -> seq<byte>, a: seq<WeatherMessage>, big: WeatherMessage, b: seq<WeatherMessage>)
    requires !FitsRadio(Frame(marshal(big)))
    ensures OnAir(marshal, a + [big] + b) == OnAir(marshal, a) + OnAir(marshal, b)
  {
    OnAirAppend(marshal, a + [big], b);
    OnAirAppend(marshal, a, [big]);
    OnAirSingle(marshal, big);
  }

  /** Every packet on the air is under the size limit and is the frame of
      one of the messages, which a receiver gets back intact. */
  lemma {:induction false} OnAirDecodes(marshal: WeatherMessage -> seq<byte>, msgs: seq<WeatherMessage>, p: seq<byte>)
    requires p in OnAir(marshal, msgs)
    ensures FitsRadio(p)
    ensures exists m :: m in msgs && Parse(p) == Intact(marshal(m))
  {
    var init := msgs[..|msgs| - 1];
    var last := msgs[|msgs| - 1];
    if p in OnAir(marshal, init) {
      OnAirDecodes(marshal, init, p);
      var m :| m in init && Parse(p) == Intact(marshal(m));
      assert m in msgs;
    } else {
      assert p == Frame(marshal(last));
      SentPacketRoundTrip(marshal(last), []);
      assert p + [] == p;
    }
  }

  // ---- the station ----

  class Station {
    const cfg: Config
    /** The TAF prefix handling this build applies. */
    const strip: TafStrip
    const marshal: WeatherMessage -> seq<byte>
    /** `crc64Table`. */
    const table: array<bv64>
    /** `allMETARs` and `allTAFs`. */
    var allMetars: seq<Report>
    var allTafs: seq<Report>
    /** `globalStatus.MessagesSent`. */
    var messagesSent: nat
    /** The packets passed to the radio's `TX`, oldest first. */
    var radio: seq<seq<byte>>
    /** The transmit loop has panicked, which ends the program. */
    var crashed: bool

    /** The counter counts exactly the packets handed to the radio, and those
        are all under the size limit. */
    ghost predicate Valid()
      reads this, table
    {
      IsCrcTable(table[..]) && messagesSent == |radio| &&
      forall p :: p in radio ==> FitsRadio(p)
    }

    constructor (cfg: Config, strip: TafStrip, marshal: WeatherMessage -> seq<byte>)
      ensures Valid() && fresh(table)
      ensures this.cfg == cfg && this.strip == strip && this.marshal == marshal
      ensures allMetars == [] && allTafs == [] && radio == [] && !crashed
    {
      this.cfg := cfg;
      this.strip := strip;
      this.marshal := marshal;
      var t := MakeTable();
      table := t;
      allMetars := [];
      allTafs := [];
      messagesSent := 0;
      radio := [];
      crashed := false;
    }

    /** `txWeatherMessage`: frame the message; if the frame is under 150
        bytes, send it and count it, otherwise report it too long. */
    method TxWeatherMessage(msg: WeatherMessage) returns (sent: bool)
      requires Valid()
      modifies this
      ensures Valid()
      ensures sent == FitsRadio(Frame(marshal(msg)))
      ensures radio == old(radio) + OnAir(marshal, [msg])
      ensures allMetars == old(allMetars) && allTafs == old(allTafs) && crashed == old(crashed)
    {
      OnAirSingle(marshal, msg);
      var data := PreparePacket(marshal(msg), table);
      if |data| < PacketLimit {
        radio := radio + [data];
        messagesSent := messagesSent + 1;
        return true;
      }
      return false;
    }

    /** `sendBeaconMessage`. */
    method SendBeacon(now: int, loc: Situation) returns (sent: bool)
      requires Valid()
      modifies this
      ensures Valid()
      ensures radio == old(radio) + OnAir(marshal, [BeaconMessage(|allMetars|, |allTafs|, now, loc)])
      ensures allMetars == old(allMetars) && allTafs == old(allTafs) && crashed == old(crashed)
    {
      var msg := BeaconMessage(|allMetars|, |allTafs|, now, loc);
      sent := TxWeatherMessage(msg);
    }

    /** One pass of `updateWeather`: nothing happens until the station point
        is known; then each list is fetched only when its kind is enabled,
        and both lists are replaced together. */
    method UpdateWeather(station: Option<GeoPoint>, fetchMetars: GeoPoint -> seq<Report>, fetchTafs: GeoPoint -> seq<Report>)
      returns (waiting: bool)
      requires Valid()
      modifies this
      ensures Valid() && radio == old(radio) && crashed == old(crashed)
      ensures waiting == station.None?
      ensures waiting ==> allMetars == old(allMetars) && allTafs == old(allTafs)
      ensures !waiting ==> allMetars == (if cfg.txMetars then fetchMetars(station.value) else [])
      ensures !waiting ==> allTafs == (if cfg.txTafs then fetchTafs(station.value) else [])
    {
      if station.None? {
        return true;
      }
      var metars: seq<Report> := [];
      var tafs: seq<Report> := [];
      if cfg.txMetars {
        metars := fetchMetars(station.value);
      }
      if cfg.txTafs {
        tafs := fetchTafs(station.value);
      }
      allMetars, allTafs := metars, tafs;
      return false;
    }

    /** The METAR half of a pass: send each snapshot METAR in turn. */
    method SendMetars(metars: seq<Report>, now: int, loc: Situation)
      requires Valid()
      modifies this
      ensures Valid()
      ensures allMetars == old(allMetars) && allTafs == old(allTafs) && crashed == old(crashed)
      ensures radio == old(radio) + OnAir(marshal, MetarMessages(metars, now, loc))
    {
      for i := 0 to |metars|
        invariant Valid() && allMetars == old(allMetars) && allTafs == old(allTafs) && crashed == old(crashed)
        invariant radio == old(radio) + OnAir(marshal, MetarMessages(metars[..i], now, loc))
      {
        var msg := MetarMessage(metars[i], now, loc);
        var _ := TxWeatherMessage(msg);
        MetarMessagesSnoc(metars, i, now, loc);
        OnAirSnoc(marshal, old(radio), MetarMessages(metars[..i], now, loc), msg);
      }
      assert metars[..|metars|] == metars;
    }

    /** The TAF half of a pass: send each snapshot TAF in turn with the text
        the prefix handling gives, until that handling panics. */
    method SendTafs(tafs: seq<Report>, now: int, loc: Situation)
      requires Valid() && !crashed
      modifies this
      ensures Valid()
      ensures allMetars == old(allMetars) && allTafs == old(allTafs)
      ensures radio == old(radio) + OnAir(marshal, TafSends(strip, tafs, now, loc).msgs)
      ensures crashed == TafSends(strip, tafs, now, loc).panicked
    {
      var i := 0;
      ghost var sent := Sent([], false);
      while i < |tafs| && !crashed
        invariant 0 <= i <= |tafs| && sent == TafSends(strip, tafs[..i], now, loc)
        invariant Valid() && allMetars == old(allMetars) && allTafs == old(allTafs)
        invariant radio == old(radio) + OnAir(marshal, sent.msgs) && crashed == sent.panicked
      {
        TafSendsSnoc(strip, tafs, i, now, loc);
        SendTaf(tafs[i], now, loc, sent, old(radio));
        sent := TafStep(strip, sent, tafs[i], now, loc);
        i := i + 1;
      }
      if crashed {
        PanicSticky(strip, tafs, i, now, loc);
      } else {
        assert tafs[..|tafs|] == tafs;
      }
    }

    /** One turn of the TAF loop, after the turns that sent `prev` on top
        of `r0`: handle the prefix, then send the message, or panic. */
    method SendTaf(t: Report, now: int, loc: Situation, ghost prev: Sent, ghost r0: seq<seq<byte>>)
      requires Valid() && !crashed && !prev.panicked && radio == r0 + OnAir(marshal, prev.msgs)
      modifies this
      ensures Valid() && allMetars == old(allMetars) && allTafs == old(allTafs)
      ensures radio == r0 + OnAir(marshal, TafStep(strip, prev, t, now, loc).msgs)
      ensures crashed == TafStep(strip, prev, t, now, loc).panicked
    {
      var text := TafText(strip, t.text);
      if text.None? {
        crashed := true;
      } else {
        var msg := TafMessage(t.(text := text.value), now, loc);
        var _ := TxWeatherMessage(msg);
        OnAirSnoc(marshal, r0, prev.msgs, msg);
      }
    }

    /** One pass of the transmit loop in `main`: snapshot both lists; outside
        beacon mode send every METAR, then the TAFs, ignoring the errors of
        messages that are too long; then, unless the TAF loop panicked, send
        a beacon if the ticker fired. */
    method Pass(now: int, loc: Situation, beaconDue: bool)
      requires Valid() && !crashed
      modifies this
      ensures Valid()
      ensures allMetars == old(allMetars) && allTafs == old(allTafs)
      ensures radio == old(radio) + OnAir(marshal, PassSends(cfg, strip, old(allMetars), old(allTafs), now, loc, beaconDue).msgs)
      ensures crashed == PassSends(cfg, strip, old(allMetars), old(allTafs), now, loc, beaconDue).panicked
    {
      var metars := allMetars;
      var tafs := allTafs;
      ghost var weather := WeatherSends(cfg, strip, metars, tafs, now, loc).msgs;
      ghost var beacon := if beaconDue then [BeaconMessage(|metars|, |tafs|, now, loc)] else [];
      ghost var r0 := radio;
      if !cfg.beaconMode {
        SendWeather(metars, tafs, now, loc);
      }
      ghost var r1 := radio;
      assert r1 == r0 + OnAir(marshal, weather);
      if !crashed {
        if beaconDue {
          var _ := SendBeacon(now, loc);
        }
        assert radio == r1 + OnAir(marshal, beacon);
        OnAirAppend(marshal, weather, beacon);
        Seqs.AppendAssoc(r0, OnAir(marshal, weather), OnAir(marshal, beacon));
      }
    }

    /** The weather part of a pass outside beacon mode: the METARs, then
        the TAFs, each when enabled. */
    method SendWeather(metars: seq<Report>, tafs: seq<Report>, now: int, loc: Situation)
      requires Valid() && !crashed && !cfg.beaconMode
      modifies this
      ensures Valid()
      ensures allMetars == old(allMetars) && allTafs == old(allTafs)
      ensures radio == old(radio) + OnAir(marshal, WeatherSends(cfg, strip, metars, tafs, now, loc).msgs)
      ensures crashed == WeatherSends(cfg, strip, metars, tafs, now, loc).panicked
    {
      ghost var m := if cfg.txMetars then MetarMessages(metars, now, loc) else [];
      ghost var t := if cfg.txTafs then TafSends(strip, tafs, now, loc).msgs else [];
      ghost var r0 := radio;
      if cfg.txMetars {
        SendMetars(metars, now, loc);
      }
      ghost var r1 := radio;
      assert r1 == r0 + OnAir(marshal, m);
      if cfg.txTafs {
        SendTafs(tafs, now, loc);
      }
      assert radio == r1 + OnAir(marshal, t);
      OnAirAppend(marshal, m, t);
      Seqs.AppendAssoc(r0, OnAir(marshal, m), OnAir(marshal, t));
    }
  }
}
