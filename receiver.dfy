/** The receiving station (rx.go): the checks it applies to each radio
    message, its `MessagesReceived` / `CRCErrors` counters, the records it
    appends to the receive log, and the FIS-B text frames it hands to the
    UAT encoder.

    The radio channel is a sequence of byte strings, the protobuf decoder a
    function parameter, and the receiver's own position at the time of a
    message (the `Location` kept up to date by `situationUpdater`) an input. */
module Receiver {
  import opened Wrappers
  import opened Bytes
  import opened Crc
  import opened Framing
  import opened Text
  import opened Position
  import opened Messages
  import Seqs

  /** The FIS-B product of a text report. */
  const TextProductId: nat := 413

  /** The part of the `uatsynth` frame the receiver fills in for a report
      (the FIS-B hour and minute are left out of this model). */
  datatype UatFrame = UatFrame(lat: real, lon: real, textData: seq<string>, productId: nat, frameType: nat)

  /** `generateUATEncodedTextReportMessage`: a METAR or TAF becomes one
      text-report frame whose text is the report with its kind in front. */
  function TextReportFrame(msg: WeatherMessage): (r: UatFrame)
    ensures r.productId == TextProductId && r.frameType == 0
    ensures r.lat == msg.stationLat && r.lon == msg.stationLng
    ensures msg.kind == Metar ==> r.textData == ["METAR " + msg.textData]
    ensures msg.kind == Taf ==> r.textData == ["TAF " + msg.textData]
    ensures !(msg.kind == Metar || msg.kind == Taf) ==> r.textData == []
  {
    var text := match msg.kind
      case Metar => ["METAR " + msg.textData]
      case Taf => ["TAF " + msg.textData]
      case _ => [];
    UatFrame(msg.stationLat, msg.stationLng, text, TextProductId, 0)
  }

  /** The prefix in front of the report text in a frame. */
  function KindPrefix(k: Kind): string
  {
    if k == Metar then "METAR " else "TAF "
  }

  /** A report frame can be read back: dropping the kind prefix gives the
      transmitted text. */
  lemma ReportTextRecoverable(msg: WeatherMessage)
    requires msg.kind == Metar || msg.kind == Taf
    ensures |TextReportFrame(msg).textData| == 1
    ensures StartsWith(TextReportFrame(msg).textData[0], KindPrefix(msg.kind))
    ensures TextReportFrame(msg).textData[0][|KindPrefix(msg.kind)|..] == msg.textData
  {
    var t := TextReportFrame(msg).textData[0];
    assert t == KindPrefix(msg.kind) + msg.textData;
    assert t[..|KindPrefix(msg.kind)|] == KindPrefix(msg.kind);
  }

  // ---- the beacon summary ----

  /** The four `ServerStatus` fields the receiver reports. */
  datatype Summary = Summary(timeOk: bool, weatherUpdatesOk: bool, metarsTracked: nat, tafsTracked: nat)

  function SummaryOf(s: ServerStatus): Summary
  {
    Summary(s.timeOk, s.weatherUpdatesOk, s.metarsTracked, s.tafsTracked)
  }

  const TimeOkLabel: string := "TimeOk="
  const WeatherLabel: string := " WeatherUpdatesOk="
  const MetarsLabel: string := " MetarsTracked="
  const TafsLabel: string := " TafsTracked="

  /** `beaconStr`: "TimeOk=%t, WeatherUpdatesOk=%t, MetarsTracked=%d, TafsTracked=%d". */
  function BeaconText(s: ServerStatus): string
  {
    var timeOk := TimeOkLabel + BoolText(s.timeOk);
    var weatherOk := WeatherLabel + BoolText(s.weatherUpdatesOk);
    var metars := MetarsLabel + Decimal(s.metarsTracked);
    var tafs := TafsLabel + Decimal(s.tafsTracked);
    timeOk + "," + (weatherOk + "," + (metars + "," + tafs))
  }

  predicate AllDigits(s: string)
  {
    forall i :: 0 <= i < |s| ==> IsDigit(s[i])
  }

  /** One `tag` + value field of the summary, read back. */
  function BoolField(field: string, tag: string): Option<bool>
  {
    if StartsWith(field, tag) && field[|tag|..] == "true" then Some(true)
    else if StartsWith(field, tag) && field[|tag|..] == "false" then Some(false)
    else None
  }

  function CountField(field: string, tag: string): Option<nat>
  {
    if StartsWith(field, tag) && |field| > |tag| && AllDigits(field[|tag|..])
    then Some(DecimalValue(field[|tag|..])) else None
  }

  /** Reading a beacon summary back from a receive-log line. */
  function ReadBeaconText(text: string): Option<Summary>
  {
    var f := Split(text, ',');
    if |f| != 4 then None
    else
      var t := BoolField(f[0], TimeOkLabel);
      var w := BoolField(f[1], WeatherLabel);
      var m := CountField(f[2], MetarsLabel);
      var n := CountField(f[3], TafsLabel);
      if t.Some? && w.Some? && m.Some? && n.Some?
      then Some(Summary(t.value, w.value, m.value, n.value))
      else None
  }

  lemma {:induction false} SplitAfterField(a: string, b: string, sep: char)
    requires forall i :: 0 <= i < |a| ==> a[i] != sep
    ensures Split(a + [sep] + b, sep) == [a] + Split(b, sep)
    decreases |a|
  {
    if a == [] {
      assert a + [sep] + b == [sep] + b;
      assert ([sep] + b)[1..] == b;
    } else {
      assert (a + [sep] + b)[1..] == a[1..] + [sep] + b;
      SplitAfterField(a[1..], b, sep);
      assert [a[0]] + a[1..] == a;
    }
  }

  lemma NoComma(tag: string, value: string)
    requires forall i :: 0 <= i < |tag| ==> tag[i] != ','
    requires AllDigits(value) || value == "true" || value == "false"
    ensures NoSeparator(tag + value, ',')
  {
  }

  lemma FieldValue(tag: string, value: string)
    ensures StartsWith(tag + value, tag) && (tag + value)[|tag|..] == value
  {
    assert (tag + value)[..|tag|] == tag;
  }

  function Fields(s: ServerStatus): seq<string>
  {
    [TimeOkLabel + BoolText(s.timeOk), WeatherLabel + BoolText(s.weatherUpdatesOk),
     MetarsLabel + Decimal(s.metarsTracked), TafsLabel + Decimal(s.tafsTracked)]
  }

  predicate NoSeparator(s: string, sep: char)
  {
    forall i :: 0 <= i < |s| ==> s[i] != sep
  }

  lemma FieldsHaveNoComma(s: ServerStatus)
    ensures forall k :: 0 <= k < 4 ==> NoSeparator(Fields(s)[k], ',')
  {
    NoComma(TimeOkLabel, BoolText(s.timeOk));
    NoComma(WeatherLabel, BoolText(s.weatherUpdatesOk));
    NoComma(MetarsLabel, Decimal(s.metarsTracked));
    NoComma(TafsLabel, Decimal(s.tafsTracked));
  }

  lemma SplitFour(a: string, b: string, c: string, d: string, sep: char)
    requires NoSeparator(a, sep) && NoSeparator(b, sep) && NoSeparator(c, sep) && NoSeparator(d, sep)
    ensures Split(a + [sep] + (b + [sep] + (c + [sep] + d)), sep) == [a, b, c, d]
  {
    var cd := c + [sep] + d;
    var bcd := b + [sep] + cd;
    SplitWithoutSeparator(d, sep);
    SplitAfterField(c, d, sep);
    assert Split(cd, sep) == [c, d];
    SplitAfterField(b, cd, sep);
    assert Split(bcd, sep) == [b, c, d];
    SplitAfterField(a, bcd, sep);
  }

  /** The summary splits at its commas into its four fields. */
  lemma BeaconTextFields(s: ServerStatus)
    ensures Split(BeaconText(s), ',') == Fields(s)
  {
    var f := Fields(s);
    FieldsHaveNoComma(s);
    SplitFour(f[0], f[1], f[2], f[3], ',');
  }

  /** The beacon summary in the receive log loses nothing: the four
      reported fields can be read back from it. */
  lemma BeaconTextRoundTrip(s: ServerStatus)
    ensures ReadBeaconText(BeaconText(s)) == Some(SummaryOf(s))
  {
    BeaconTextFields(s);
    FieldValue(TimeOkLabel, BoolText(s.timeOk));
    FieldValue(WeatherLabel, BoolText(s.weatherUpdatesOk));
    FieldValue(MetarsLabel, Decimal(s.metarsTracked));
    FieldValue(TafsLabel, Decimal(s.tafsTracked));
    DecimalRoundTrip(s.metarsTracked);
    DecimalRoundTrip(s.tafsTracked);
  }

  // ---- one received message ----

  /** One line of the receive log: the sending station's position, the
      receiver's own position, and the text. */
  datatype LogRecord = LogRecord(stationLat: real, stationLng: real, rxLat: real, rxLng: real, text: string)

  /** Everything the receive loop keeps: its counters, the receive log, the
      frames it has produced, and whether the process has died. */
  datatype RxState = RxState(messagesReceived: nat, crcErrors: nat, log: seq<LogRecord>, uplinks: seq<UatFrame>, crashed: bool)

  const Start: RxState := RxState(0, 0, [], [], false)

  /** The effect of one decoded message: a METAR or TAF is uplinked and
      logged, a beacon with a status is logged as its summary, anything
      else is ignored. */
  function Dispatch(st: RxState, msg: WeatherMessage, here: Situation): (r: RxState)
    ensures r.messagesReceived == st.messagesReceived && r.crcErrors == st.crcErrors && r.crashed == st.crashed
    ensures (msg.kind == Metar || msg.kind == Taf) ==>
      r.uplinks == st.uplinks + [TextReportFrame(msg)] &&
      r.log == st.log + [LogRecord(msg.stationLat, msg.stationLng, here.lat, here.lng, msg.textData)]
    ensures (msg.kind == Beacon && msg.serverStatus.Some?) ==>
      r.uplinks == st.uplinks &&
      r.log == st.log + [LogRecord(msg.stationLat, msg.stationLng, here.lat, here.lng, BeaconText(msg.serverStatus.value))]
    ensures (msg.kind.OtherKind? || (msg.kind == Beacon && msg.serverStatus.None?)) ==> r == st
  {
    match msg.kind
    case Metar =>
      st.(uplinks := st.uplinks + [TextReportFrame(msg)],
          log := st.log + [LogRecord(msg.stationLat, msg.stationLng, here.lat, here.lng, msg.textData)])
    case Taf =>
      st.(uplinks := st.uplinks + [TextReportFrame(msg)],
          log := st.log + [LogRecord(msg.stationLat, msg.stationLng, here.lat, here.lng, msg.textData)])
    case Beacon =>
      if msg.serverStatus.Some?
      then st.(log := st.log + [LogRecord(msg.stationLat, msg.stationLng, here.lat, here.lng, BeaconText(msg.serverStatus.value))])
      else st
    case OtherKind(_) => st
  }

  /** The record written for a packet whose checksum does not match. */
  function CrcBadRecord(here: Situation): LogRecord
  {
    LogRecord(0.0, 0.0, here.lat, here.lng, "crcbad")
  }

  /** One iteration of the receive loop on the message `data`. */
  function RxStep(st: RxState, data: seq<byte>, here: Situation, unmarshal: seq<byte> -> Option<WeatherMessage>): RxState
  {
    if st.crashed then st
    else
      match Parse(data)
      case ShortHeader => st
      case Truncated(_) => st
      case SliceCrash => st.(messagesReceived := st.messagesReceived + 1, crashed := true)
      case CrcMismatch =>
        st.(messagesReceived := st.messagesReceived + 1, crcErrors := st.crcErrors + 1,
            log := st.log + [CrcBadRecord(here)])
      case Intact(payload) =>
        var counted := st.(messagesReceived := st.messagesReceived + 1);
        match unmarshal(payload)
        case None => counted
        case Some(msg) => Dispatch(counted, msg, here)
  }

  /** The receive loop over the messages `msgs`, each heard at the
      position at the same index of `heres`. */
  function RxRun(st: RxState, msgs: seq<seq<byte>>, heres: seq<Situation>, unmarshal: seq<byte> -> Option<WeatherMessage>): RxState
    requires |heres| == |msgs|
  {
    if msgs == [] then st
    else
      var n := |msgs| - 1;
      RxStep(RxRun(st, msgs[..n], heres[..n], unmarshal), msgs[n], heres[n], unmarshal)
  }

  /** Messages dropped before the counter are the short and truncated ones. */
  function CountWhere(msgs: seq<seq<byte>>, counted: bool): nat
  {
    if msgs == [] then 0
    else
      var p := Parse(msgs[|msgs| - 1]);
      CountWhere(msgs[..|msgs| - 1], counted) +
      (if (counted && Counted(p)) || (!counted && p == CrcMismatch) then 1 else 0)
  }

  // ---- properties of the receive loop ----

  /** A message whose header does not read, or whose length field claims
      more bytes than arrived, is dropped before it is counted: the step
      changes nothing. */
  lemma DroppedUncounted(st: RxState, data: seq<byte>, here: Situation, unmarshal: seq<byte> -> Option<WeatherMessage>)
    requires |data| < HeaderSize || DecodeLE16(data[..LengthSize]) + HeaderSize > |data|
    ensures RxStep(st, data, here, unmarshal) == st
  {
  }

  /** One step keeps the CRC error count within the received count and
      never takes a message back. */
  lemma RxStepMonotone(st: RxState, data: seq<byte>, here: Situation, unmarshal: seq<byte> -> Option<WeatherMessage>)
    requires st.crcErrors <= st.messagesReceived
    ensures var r := RxStep(st, data, here, unmarshal);
      r.crcErrors <= r.messagesReceived &&
      st.messagesReceived <= r.messagesReceived && st.crcErrors <= r.crcErrors &&
      st.log <= r.log && st.uplinks <= r.uplinks && (st.crashed ==> r.crashed)
  {
  }

  /** Until the process dies, the counters are the number of messages that
      passed the bounds check and the number whose checksum failed. */
  lemma {:induction false} RxRunCounts(msgs: seq<seq<byte>>, heres: seq<Situation>, unmarshal: seq<byte> -> Option<WeatherMessage>)
    requires |heres| == |msgs|
    ensures !RxRun(Start, msgs, heres, unmarshal).crashed ==>
      RxRun(Start, msgs, heres, unmarshal).messagesReceived == CountWhere(msgs, true) &&
      RxRun(Start, msgs, heres, unmarshal).crcErrors == CountWhere(msgs, false)
    ensures RxRun(Start, msgs, heres, unmarshal).crcErrors <= RxRun(Start, msgs, heres, unmarshal).messagesReceived
  {
    if msgs != [] {
      var n := |msgs| - 1;
      RxRunCounts(msgs[..n], heres[..n], unmarshal);
      RxStepMonotone(RxRun(Start, msgs[..n], heres[..n], unmarshal), msgs[n], heres[n], unmarshal);
    }
  }

  /** Once the process has died nothing more happens. */
  lemma {:induction false} CrashIsFinal(st: RxState, msgs: seq<seq<byte>>, heres: seq<Situation>, unmarshal: seq<byte> -> Option<WeatherMessage>)
    requires |heres| == |msgs| && st.crashed
    ensures RxRun(st, msgs, heres, unmarshal) == st
  {
    if msgs != [] {
      var n := |msgs| - 1;
      CrashIsFinal(st, msgs[..n], heres[..n], unmarshal);
    }
  }

  /** A packet that fails its checksum adds one "crcbad" record at (0, 0)
      and no frame. */
  lemma CorruptPacketOnlyLogged(st: RxState, data: seq<byte>, here: Situation, unmarshal: seq<byte> -> Option<WeatherMessage>)
    requires !st.crashed && Parse(data) == CrcMismatch
    ensures RxStep(st, data, here, unmarshal).uplinks == st.uplinks
    ensures RxStep(st, data, here, unmarshal).log == st.log + [LogRecord(0.0, 0.0, here.lat, here.lng, "crcbad")]
  {
  }

  /** An intact packet that the decoder accepts is counted and handed to
      the `switch` on its type. */
  lemma IntactDispatched(st: RxState, data: seq<byte>, here: Situation, unmarshal: seq<byte> -> Option<WeatherMessage>, m: WeatherMessage)
    requires !st.crashed && Parse(data).Intact? && unmarshal(Parse(data).payload) == Some(m)
    ensures RxStep(st, data, here, unmarshal) == Dispatch(st.(messagesReceived := st.messagesReceived + 1), m, here)
  {
  }

  /** `f` is the frame of the METAR or TAF that `data` carries intact. */
  ghost predicate UplinkedFrom(data: seq<byte>, unmarshal: seq<byte> -> Option<WeatherMessage>, f: UatFrame)
  {
    Parse(data).Intact? && unmarshal(Parse(data).payload).Some? &&
    var m := unmarshal(Parse(data).payload).value;
    (m.kind == Metar || m.kind == Taf) && f == TextReportFrame(m)
  }

  /** Every frame handed to the UAT encoder comes from a received message
      that passed the checksum and decoded to a METAR or TAF. */
  lemma {:induction false} UplinksAreChecked(st: RxState, msgs: seq<seq<byte>>, heres: seq<Situation>, unmarshal: seq<byte> -> Option<WeatherMessage>, f: UatFrame)
    requires |heres| == |msgs|
    requires f in RxRun(st, msgs, heres, unmarshal).uplinks && f !in st.uplinks
    ensures exists i :: 0 <= i < |msgs| && UplinkedFrom(msgs[i], unmarshal, f)
  {
    var n := |msgs| - 1;
    var prev := RxRun(st, msgs[..n], heres[..n], unmarshal);
    if f in prev.uplinks {
      UplinksAreChecked(st, msgs[..n], heres[..n], unmarshal, f);
      var i :| 0 <= i < n && UplinkedFrom(msgs[..n][i], unmarshal, f);
      assert msgs[..n][i] == msgs[i];
    } else {
      assert Parse(msgs[n]).Intact?;
      var m := unmarshal(Parse(msgs[n]).payload).value;
      assert prev.uplinks + [TextReportFrame(m)] == RxRun(st, msgs, heres, unmarshal).uplinks;
      assert UplinkedFrom(msgs[n], unmarshal, f);
    }
  }

  // ---- the station ----

  class Station {
    /** `crc64Table`. */
    const table: array<bv64>
    const unmarshal: seq<byte> -> Option<WeatherMessage>
    /** `globalStatus`. */
    var messagesReceived: nat
    var crcErrors: nat
    /** The lines written to the receive log. */
    var receiveLog: seq<LogRecord>
    /** The frames handed to the UAT encoder. */
    var uplinks: seq<UatFrame>
    /** Set when the receive loop panics. */
    var crashed: bool

    ghost predicate Valid()
      reads this, table
    {
      IsCrcTable(table[..]) && crcErrors <= messagesReceived
    }

    function State(): RxState
      reads this
    {
      RxState(messagesReceived, crcErrors, receiveLog, uplinks, crashed)
    }

    constructor (unmarshal: seq<byte> -> Option<WeatherMessage>)
      ensures Valid() && fresh(table) && this.unmarshal == unmarshal
      ensures State() == Start
    {
      this.unmarshal := unmarshal;
      var t := MakeTable();
      table := t;
      messagesReceived := 0;
      crcErrors := 0;
      receiveLog := [];
      uplinks := [];
      crashed := false;
    }

    /** One pass of the receive loop on the radio message `data`, heard
        while the receiver is at `here`. */
    method Receive(data: seq<byte>, here: Situation)
      requires Valid() && !crashed
      modifies this
      ensures Valid()
      ensures State() == RxStep(old(State()), data, here, unmarshal)
    {
      if |data| < LengthSize {
        return;
      }
      var msgLen := DecodeLE16(data[..LengthSize]);
      if |data| < HeaderSize {
        return;
      }
      var crc := DecodeLE64(data[LengthSize..HeaderSize]);
      if msgLen + HeaderSize > |data| {
        assert Parse(data) == Truncated(msgLen);
        return;
      }
      Accept(data, msgLen, crc, here);
    }

    /** The rest of an iteration once the header is read and the length
        field fits: count the message, trim it, check its CRC, decode it
        and hand it on. */
    method Accept(data: seq<byte>, msgLen: nat, crc: bv64, here: Situation)
      requires Valid() && !crashed
      requires HeaderSize <= |data| && msgLen + HeaderSize <= |data|
      requires DecodeLE16(data[..LengthSize]) == msgLen && DecodeLE64(data[LengthSize..HeaderSize]) == crc
      modifies this
      ensures Valid()
      ensures State() == RxStep(old(State()), data, here, unmarshal)
    {
      ghost var counted := State().(messagesReceived := messagesReceived + 1);
      messagesReceived := messagesReceived + 1;
      var high := Uint16(msgLen + HeaderSize);
      if high < HeaderSize {
        assert Parse(data) == SliceCrash;
        crashed := true;
        return;
      }
      var trimmed := data[HeaderSize..high];
      ParseChecked(data, msgLen, crc);
      var calculated := Checksum(trimmed, table);
      if crc != calculated {
        assert Parse(data) == CrcMismatch;
        receiveLog := receiveLog + [CrcBadRecord(here)];
        crcErrors := crcErrors + 1;
        return;
      }
      assert Parse(data) == Intact(trimmed);
      assert State() == counted;
      var decoded := unmarshal(trimmed);
      if decoded.None? {
        return;
      }
      Handle(decoded.value, here);
    }

    /** The `switch` on the decoded message's type. */
    method Handle(msg: WeatherMessage, here: Situation)
      requires Valid()
      modifies this
      ensures Valid()
      ensures State() == Dispatch(old(State()), msg, here)
    {
      match msg.kind {
        case Metar =>
          uplinks := uplinks + [TextReportFrame(msg)];
          receiveLog := receiveLog + [LogRecord(msg.stationLat, msg.stationLng, here.lat, here.lng, msg.textData)];
        case Taf =>
          uplinks := uplinks + [TextReportFrame(msg)];
          receiveLog := receiveLog + [LogRecord(msg.stationLat, msg.stationLng, here.lat, here.lng, msg.textData)];
        case Beacon =>
          if msg.serverStatus.Some? {
            var beaconStr := BeaconText(msg.serverStatus.value);
            receiveLog := receiveLog + [LogRecord(msg.stationLat, msg.stationLng, here.lat, here.lng, beaconStr)];
          }
        case OtherKind(_) =>
      }
    }

    /** The receive loop over a sequence of radio messages, until they run
        out or the loop panics. */
    method ReceiveAll(msgs: seq<seq<byte>>, heres: seq<Situation>)
      requires Valid() && |heres| == |msgs|
      modifies this
      ensures Valid()
      ensures State() == RxRun(old(State()), msgs, heres, unmarshal)
    {
      var i := 0;
      while i < |msgs| && !crashed
        invariant 0 <= i <= |msgs|
        invariant Valid()
        invariant State() == RxRun(old(State()), msgs[..i], heres[..i], unmarshal)
      {
        Seqs.PrefixOfPrefix(msgs, i + 1, i);
        Seqs.PrefixOfPrefix(heres, i + 1, i);
        Receive(msgs[i], heres[i]);
        i := i + 1;
      }
      if i < |msgs| {
        CrashIsFinal(State(), msgs[i..], heres[i..], unmarshal);
        RxRunSplit(old(State()), msgs, heres, unmarshal, i);
      }
      Seqs.WholeSlices(msgs);
      Seqs.WholeSlices(heres);
    }
  }

  lemma {:induction false} RxRunSplit(st: RxState, msgs: seq<seq<byte>>, heres: seq<Situation>, unmarshal: seq<byte> -> Option<WeatherMessage>, k: nat)
    requires |heres| == |msgs| && k <= |msgs|
    ensures RxRun(st, msgs, heres, unmarshal) ==
            RxRun(RxRun(st, msgs[..k], heres[..k], unmarshal), msgs[k..], heres[k..], unmarshal)
    decreases |msgs|
  {
    if k == |msgs| {
      Seqs.WholeSlices(msgs);
      Seqs.WholeSlices(heres);
    } else {
      var n := |msgs| - 1;
      RxRunSplit(st, msgs[..n], heres[..n], unmarshal, k);
      Seqs.PrefixOfPrefix(msgs, n, k);
      Seqs.PrefixOfPrefix(heres, n, k);
      RxRunSplitStep(st, msgs, heres, unmarshal, k);
    }
  }

  lemma RxRunSplitStep(st: RxState, msgs: seq<seq<byte>>, heres: seq<Situation>, unmarshal: seq<byte> -> Option<WeatherMessage>, k: nat)
    requires |heres| == |msgs| && k < |msgs|
    requires RxRun(st, msgs[..|msgs| - 1], heres[..|msgs| - 1], unmarshal) ==
             RxRun(RxRun(st, msgs[..k], heres[..k], unmarshal), msgs[..|msgs| - 1][k..], heres[..|msgs| - 1][k..], unmarshal)
    ensures RxRun(st, msgs, heres, unmarshal) ==
            RxRun(RxRun(st, msgs[..k], heres[..k], unmarshal), msgs[k..], heres[k..], unmarshal)
  {
    var mid := RxRun(st, msgs[..k], heres[..k], unmarshal);
    Seqs.SuffixDropLast(msgs, k);
    Seqs.SuffixDropLast(heres, k);
    RxRunLast(mid, msgs[k..], heres[k..], unmarshal);
    RxRunLast(st, msgs, heres, unmarshal);
  }

  /** One unfolding of the run: the last message is handled last. */
  lemma RxRunLast(st: RxState, msgs: seq<seq<byte>>, heres: seq<Situation>, unmarshal: seq<byte> -> Option<WeatherMessage>)
    requires |heres| == |msgs| && msgs != []
    ensures RxRun(st, msgs, heres, unmarshal) ==
            RxStep(RxRun(st, msgs[..|msgs| - 1], heres[..|msgs| - 1], unmarshal), msgs[|msgs| - 1], heres[|msgs| - 1], unmarshal)
  {
  }
}
