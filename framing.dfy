/** The radio packet format: a 10-byte header (payload length as a
    little-endian uint16, then the CRC-64 of the payload as a little-endian
    uint64) followed by the payload, as `preparePacketFromWeatherMessage`
    builds it and the receive loop checks it, and the transmit size gate. */
module Framing {
  import opened Bytes
  import opened Crc

  const LengthSize: nat := 2
  const HeaderSize: nat := 10
  /** `txWeatherMessage` hands the radio only packets shorter than this. */
  const PacketLimit: nat := 150

  /** The header the transmitter writes for `payload`. */
  function Header(payload: seq<byte>): (r: seq<byte>)
    ensures |r| == HeaderSize
  {
    EncodeLE16(Uint16(|payload|)) + EncodeLE64(Crc64(payload))
  }

  /** The packet for `payload`. */
  function Frame(payload: seq<byte>): (r: seq<byte>)
    ensures |r| == HeaderSize + |payload|
    ensures r[HeaderSize..] == payload
  {
    Header(payload) + payload
  }

  /** `preparePacketFromWeatherMessage` after marshalling: checksum the
      payload, write the length and the checksum into a header buffer,
      append the payload. */
  method PreparePacket(payload: seq<byte>, table: array<bv64>) returns (packet: seq<byte>)
    requires IsCrcTable(table[..])
    ensures packet == Frame(payload)
  {
    var crc := Checksum(payload, table);
    var msgLen := Uint16(|payload|);
    var headerBuf: seq<byte> := [];
    headerBuf := headerBuf + EncodeLE16(msgLen);
    headerBuf := headerBuf + EncodeLE64(crc);
    packet := headerBuf + payload;
  }

  /** The size gate of `txWeatherMessage`. */
  predicate FitsRadio(packet: seq<byte>)
  {
    |packet| < PacketLimit
  }

  /** What the receive loop makes of one radio message. */
  datatype Parsed =
    | ShortHeader             // fewer than 10 bytes: a header read fails
    | Truncated(msgLen: nat)  // the length field claims more bytes than arrived
    | SliceCrash              // `msgLen+10` wraps in uint16 and the slice panics
    | CrcMismatch             // the payload does not match the checksum field
    | Intact(payload: seq<byte>)

  /** Passed the bounds check, so `MessagesReceived` counts it. */
  predicate Counted(p: Parsed)
  {
    p.SliceCrash? || p.CrcMismatch? || p.Intact?
  }

  /** The header and bounds checks, the uint16 slice bound, and the CRC
      check of the receive loop, as a function of the received bytes. */
  function Parse(data: seq<byte>): Parsed
  {
    if |data| < LengthSize || |data| < HeaderSize then ShortHeader
    else
      var msgLen := DecodeLE16(data[..LengthSize]);
      var crc := DecodeLE64(data[LengthSize..HeaderSize]);
      if msgLen + HeaderSize > |data| then Truncated(msgLen)
      else
        var high := Uint16(msgLen + HeaderSize);
        if high < HeaderSize then SliceCrash
        else
          var trimmed := data[HeaderSize..high];
          if crc != Crc64(trimmed) then CrcMismatch else Intact(trimmed)
  }

  lemma FrameFields(payload: seq<byte>, extra: seq<byte>)
    ensures (Frame(payload) + extra)[..LengthSize] == EncodeLE16(Uint16(|payload|))
    ensures (Frame(payload) + extra)[LengthSize..HeaderSize] == EncodeLE64(Crc64(payload))
    ensures (Frame(payload) + extra)[HeaderSize..HeaderSize + |payload|] == payload
  {
    var d := Frame(payload) + extra;
    assert d == EncodeLE16(Uint16(|payload|)) + EncodeLE64(Crc64(payload)) + payload + extra;
  }

  /** A packet whose payload fits the length field, followed by any trailing
      bytes, passes every check and yields the original payload. */
  lemma FrameRoundTrip(payload: seq<byte>, extra: seq<byte>)
    requires |payload| + HeaderSize < 0x1_0000
    ensures Parse(Frame(payload) + extra) == Intact(payload)
  {
    FrameFields(payload, extra);
    DecodeEncodeLE16(|payload|);
    DecodeEncodeLE64(Crc64(payload));
  }

  /** Every packet the gate lets through has a payload of at most 139 bytes,
      a length field equal to that payload length (no uint16 wrap), and is
      received intact. */
  lemma SentPacketRoundTrip(payload: seq<byte>, extra: seq<byte>)
    requires FitsRadio(Frame(payload))
    ensures |payload| <= PacketLimit - HeaderSize - 1
    ensures DecodeLE16(Frame(payload)[..LengthSize]) == |payload|
    ensures Parse(Frame(payload) + extra) == Intact(payload)
  {
    FrameFields(payload, []);
    assert Frame(payload) + [] == Frame(payload);
    DecodeEncodeLE16(|payload|);
    FrameRoundTrip(payload, extra);
  }

  /** The payload the receiver accepts is exactly the bytes after the header
      that the length field covers, and it matches the checksum field. */
  lemma IntactIsChecked(data: seq<byte>)
    requires Parse(data).Intact?
    ensures HeaderSize <= |data| && DecodeLE16(data[..LengthSize]) + HeaderSize <= |data|
    ensures Parse(data).payload == data[HeaderSize..HeaderSize + DecodeLE16(data[..LengthSize])]
    ensures DecodeLE64(data[LengthSize..HeaderSize]) == Crc64(Parse(data).payload)
  {
  }

  /** Input too short for the header is dropped before anything is counted. */
  lemma ShortInputDropped(data: seq<byte>)
    requires |data| < HeaderSize
    ensures Parse(data) == ShortHeader && !Counted(Parse(data))
  {
  }

  /** Only a length field of 65526 or more, with at least that many bytes
      present, reaches the uint16 wrap of the slice bound. */
  lemma SliceCrashNeedsHugeInput(data: seq<byte>)
    requires Parse(data) == SliceCrash
    ensures |data| >= 0x1_0000 && DecodeLE16(data[..LengthSize]) >= 0x1_0000 - HeaderSize
  {
  }

  /** The rest of the receive checks once the header reads and the bounds
      and slice checks have passed. */
  lemma ParseChecked(data: seq<byte>, n: nat, crc: bv64)
    requires HeaderSize <= |data| && n + HeaderSize <= |data| && n + HeaderSize < 0x1_0000
    requires DecodeLE16(data[..LengthSize]) == n && DecodeLE64(data[LengthSize..HeaderSize]) == crc
    ensures Parse(data) == if crc != Crc64(data[HeaderSize..HeaderSize + n]) then CrcMismatch
                           else Intact(data[HeaderSize..HeaderSize + n])
  {
  }

  /** A packet damaged in exactly one payload byte is rejected by the CRC check. */
  lemma CorruptPayloadRejected(payload: seq<byte>, received: seq<byte>, j: nat)
    requires |payload| + HeaderSize < 0x1_0000 && HeaderSize <= j
    requires DifferAt(Frame(payload), received, j)
    ensures Parse(received) == CrcMismatch
  {
    var f := Frame(payload);
    FrameFields(payload, []);
    assert f + [] == f;
    assert received[..LengthSize] == f[..LengthSize];
    assert received[LengthSize..HeaderSize] == f[LengthSize..HeaderSize];
    assert DifferAt(received[HeaderSize..], payload, j - HeaderSize);
    assert received[HeaderSize..] == received[HeaderSize..HeaderSize + |payload|];
    CrcDetectsOneChange(received[HeaderSize..], payload, j - HeaderSize);
    DecodeEncodeLE16(|payload|);
    DecodeEncodeLE64(Crc64(payload));
    ParseChecked(received, |payload|, Crc64(payload));
  }

  /** Eight-byte fields that differ decode to different checksums. */
  lemma DecodeLE64Injective(x: seq<byte>, y: seq<byte>)
    requires |x| == 8 && |y| == 8 && x != y
    ensures DecodeLE64(x) != DecodeLE64(y)
  {
    EncodeDecodeLE64(x);
    EncodeDecodeLE64(y);
  }

  /** A packet damaged in exactly one checksum byte is rejected by the CRC check. */
  lemma CorruptChecksumRejected(payload: seq<byte>, received: seq<byte>, j: nat)
    requires |payload| + HeaderSize < 0x1_0000 && LengthSize <= j < HeaderSize
    requires DifferAt(Frame(payload), received, j)
    ensures Parse(received) == CrcMismatch
  {
    var f := Frame(payload);
    FrameFields(payload, []);
    assert f + [] == f;
    assert received[..LengthSize] == f[..LengthSize];
    assert received[HeaderSize..HeaderSize + |payload|] == payload;
    assert received[LengthSize..HeaderSize][j - LengthSize] != f[LengthSize..HeaderSize][j - LengthSize];
    DecodeLE64Injective(received[LengthSize..HeaderSize], f[LengthSize..HeaderSize]);
    DecodeEncodeLE16(|payload|);
    DecodeEncodeLE64(Crc64(payload));
    ParseChecked(received, |payload|, DecodeLE64(received[LengthSize..HeaderSize]));
  }
}
