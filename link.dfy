/** The two stations together: what a receiver makes of the packets a
    transmitter puts on the air, given a protobuf decoder that reads back
    the messages concerned. */
module Link {
  import opened Wrappers
  import opened Bytes
  import opened Text
  import opened Position
  import opened Messages
  import opened Framing
  import Transmitter
  import Receiver

  /** The decoder reads back what the encoder wrote, for each of `msgs`. */
  ghost predicate DecodesEach(marshal: WeatherMessage -> seq<byte>, unmarshal: seq<byte> -> Option<WeatherMessage>,
                              msgs: seq<WeatherMessage>)
  {
    forall m | m in msgs :: unmarshal(marshal(m)) == Some(m)
  }

  /** Every packet a pass puts on the air is counted by an operating
      receiver, passes the checksum, and is handled as the message it was
      built from. */
  lemma PassReceived(cfg: Transmitter.Config, strip: Transmitter.TafStrip, marshal: WeatherMessage -> seq<byte>,
                     unmarshal: seq<byte> -> Option<WeatherMessage>,
                     metars: seq<Report>, tafs: seq<Report>, now: int, loc: Situation, beaconDue: bool,
                     p: seq<byte>, st: Receiver.RxState, here: Situation)
    requires DecodesEach(marshal, unmarshal, Transmitter.PassSends(cfg, strip, metars, tafs, now, loc, beaconDue).msgs)
    requires !st.crashed
    requires p in Transmitter.OnAir(marshal, Transmitter.PassSends(cfg, strip, metars, tafs, now, loc, beaconDue).msgs)
    ensures exists m | m in Transmitter.PassSends(cfg, strip, metars, tafs, now, loc, beaconDue).msgs ::
              Receiver.RxStep(st, p, here, unmarshal) == Receiver.Dispatch(st.(messagesReceived := st.messagesReceived + 1), m, here)
  {
    var msgs := Transmitter.PassSends(cfg, strip, metars, tafs, now, loc, beaconDue).msgs;
    Transmitter.OnAirDecodes(marshal, msgs, p);
    var m :| m in msgs && Parse(p) == Intact(marshal(m));
    assert unmarshal(marshal(m)) == Some(m);
    Receiver.IntactDispatched(st, p, here, unmarshal, m);
  }

  /** A METAR that fits the radio reaches the receiver's display as
      "METAR " and its text, and its text is logged. */
  lemma MetarDelivered(marshal: WeatherMessage -> seq<byte>, unmarshal: seq<byte> -> Option<WeatherMessage>,
                       r: Report, now: int, loc: Situation, st: Receiver.RxState, here: Situation)
    requires unmarshal(marshal(MetarMessage(r, now, loc))) == Some(MetarMessage(r, now, loc))
    requires !st.crashed
    requires FitsRadio(Frame(marshal(MetarMessage(r, now, loc))))
    ensures var after := Receiver.RxStep(st, Frame(marshal(MetarMessage(r, now, loc))), here, unmarshal);
      after.uplinks == st.uplinks + [Receiver.UatFrame(loc.lat, loc.lng, ["METAR " + r.text], Receiver.TextProductId, 0)] &&
      after.log == st.log + [Receiver.LogRecord(loc.lat, loc.lng, here.lat, here.lng, r.text)] &&
      after.messagesReceived == st.messagesReceived + 1 && after.crcErrors == st.crcErrors
  {
    var msg := MetarMessage(r, now, loc);
    SentPacketRoundTrip(marshal(msg), []);
    assert Frame(marshal(msg)) + [] == Frame(marshal(msg));
    Receiver.IntactDispatched(st, Frame(marshal(msg)), here, unmarshal, msg);
  }

  /** As written, the transmitter never strips the "TAF " that ADDS puts in
      front of a TAF, and the receiver adds its own, so every TAF is shown
      as "TAF TAF ...". */
  lemma TafShownTwiceAsWritten(t: Report, now: int, loc: Situation)
    requires StartsWith(t.text, "TAF ")
    ensures var shown := Receiver.TextReportFrame(TafMessage(t.(text := Transmitter.TafPrefixAsWritten(t.text).value), now, loc)).textData;
      shown == ["TAF " + t.text] && StartsWith(shown[0], "TAF TAF ") && shown != [t.text]
  {
    var shown := "TAF " + t.text;
    assert shown[..8] == "TAF " + t.text[..4];
    assert |shown| != |t.text|;
  }

  /** With the prefix stripped as intended, a TAF is shown exactly as ADDS
      delivered it. */
  lemma TafShownOnce(t: Report, now: int, loc: Situation)
    requires StartsWith(t.text, "TAF ")
    ensures Receiver.TextReportFrame(TafMessage(t.(text := Transmitter.StripTafPrefix(t.text)), now, loc)).textData == [t.text]
  {
  }
}
