# txwx: a verified model of the weather-uplink stations

txwx is a pair of stations that send aviation weather over a narrowband radio
link. The transmitter (`tx.go`) fetches the METARs and TAFs around its GPS
position. It wraps each one in a protocol-buffer `WeatherMessage` and frames
it as a packet: a little-endian 16-bit payload length, then the little-endian
CRC-64 of the payload, then the payload. It sends every packet shorter than
150 bytes, and it broadcasts a status beacon when the beacon ticker fires.

The receiver (`rx.go`) checks the header, the length and the checksum of every
radio message, then decodes it. It turns METARs and TAFs into FIS-B text-report
frames for the UAT encoder. It writes a line to its receive log for every
METAR, every TAF, every beacon that carries a station status and every
checksum failure ("crcbad"). A message that does not decode, a beacon without a
status and a message of any other kind are counted and otherwise dropped. Both stations share the position tracking and configuration code in
`common.go`. A reception-test tool (`reception_tests/map.go`) matches the
uplink messages in a GDL90 log against the points of a flight track and
selects the points to plot.

The Dafny project has one module per concern:

| module | file | what it holds |
|---|---|---|
| `Wrappers` | wrappers.dfy | `Option` |
| `Seqs` | seqs.dfy | generic slicing facts used by the proofs |
| `Bytes` | bytes.dfy | bytes, `uint16` wrap, little-endian 16- and 64-bit fields |
| `Crc` | crc64.dfy | CRC-64/XZ as a bitwise reference, Go's table-driven computation proved equal to it, error detection, the catalogue check value |
| `Framing` | framing.dfy | the packet format, the transmit size gate, the receive checks as a function of the received bytes |
| `Messages` | messages.dfy | `WeatherMessage`, `ServerStatus` and the three message constructors |
| `Position` | position.dfy | `Location` / `stationGeoPt` and the `situationUpdater` rule, as values and as a class; the receiver's manual position |
| `Settings` | settings.dfy | `globalSettings`, `defaultSettings`, `readSettings`, `saveSettings` |
| `Text` | text.dfy | `strings.Split`, `%d` and `%t` renderings |
| `Transmitter` | transmitter.dfy | the transmitting station as a class: size gate, beacon, weather refresh, one pass of the transmit loop |
| `Receiver` | receiver.dfy | the receiving station as a class: the receive loop, its counters, log and frames |
| `Correlation` | correlation.dfy | the reception test: log reading, message-to-point association, plotting |
| `Link` | link.dfy | both stations together: what a receiver makes of a pass of the transmitter |

The transmitter carries the TAF prefix handling as a constant, `AsWritten` or
`Corrected`. `AsWritten` is the comparison tx.go makes; it panics on a TAF shorter
than four bytes, which ends the program. `Corrected` strips a leading "TAF " as
intended (see Findings). Every pass-level function and lemma takes the handling
as a parameter, so the model states both builds.

The imperative parts of the source are Dafny methods over mutable state:

- `Transmitter.Station`, `Receiver.Station`, `Position.Station` and
  `Settings.Store` hold the source's globals as fields.
- The CRC table is an `array`.
- The association loop updates an `array` of track points in place.

Each method is proved against a function that states the whole new state. The
source's promises are then proved as lemmas about those functions.

Several inputs of the source are modelled as parameters:

- The protobuf codec is a pair of function parameters (`marshal`, `unmarshal`).
- The ADDS fetches are functions of the station point.
- The clock is a `now` input per transmit pass.
- The beacon ticker is a `beaconDue` flag.
- Each situation poll is an input saying what the HTTP request yielded.
- The receiver's position is an input per message.

## Model

| member | source | states |
|---|---|---|
| Bytes.Uint16 | tx.go:149 | `uint16(len(data))` is below 2^16 and is the length itself whenever the length fits |
| Bytes.DecodeLE16 | rx.go:153-157 | the length field read back is a uint16 |
| Bytes.DecodeEncodeLE16 | tx.go:149-150 | the two bytes written for a length read back as that length |
| Bytes.EncodeDecodeLE16 | rx.go:157 | any two header bytes are the encoding of the length read from them |
| Bytes.DecodeEncodeLE64 | tx.go:151 | the eight checksum bytes read back as the checksum written |
| Bytes.EncodeDecodeLE64 | rx.go:162 | any eight bytes are the encoding of the value read from them |
| Crc.Crc64 | tx.go:147 | the reference definition of CRC-64/XZ: reflected ECMA polynomial, all-ones start and final inversion; see Checksum and CheckValue |
| Crc.MakeTable | tx.go:237 | the table holds, for every byte, that byte pushed through eight reflected-polynomial shifts |
| Crc.Checksum | tx.go:147 | the table-driven checksum equals the bitwise CRC-64/XZ of the data |
| Crc.CheckValue | tx.go:237 | the CRC of "123456789" is 0x995DC9BBDF1939FA, the catalogue check value of CRC-64/XZ |
| Crc.TableUpdate | rx.go:179 | one table lookup and shift per byte is the same as eight bitwise shifts |
| Crc.StepInjective | rx.go:179 | a register shift loses no information |
| Crc.CrcDetectsOneChange | rx.go:179-185 | data differing in exactly one byte, through any number of bit flips in it, have different checksums |
| Framing.Header | tx.go:148-151 | the header is 10 bytes |
| Framing.Frame | tx.go:150-152 | the packet is 10 + len(payload) bytes and ends with the payload |
| Framing.PreparePacket | tx.go:141-154 | the packet built with the table-driven checksum is the frame of the payload |
| Framing.FrameFields | tx.go:147-152 | bytes 0-1 are `uint16(len)`, bytes 2-9 the CRC of the payload only, then the payload |
| Framing.FrameRoundTrip | rx.go:153-180 | a frame whose length fits 16 bits, followed by any trailing bytes, is received intact as its payload |
| Framing.SentPacketRoundTrip | tx.go:149-158 | every packet under 150 bytes has a payload of at most 139 bytes, a length field equal to its true length, and is received intact |
| Framing.IntactIsChecked | rx.go:168-185 | an accepted payload is exactly the bytes 10 .. 10+msgLen, and the checksum field matches it |
| Framing.Parse | rx.go:153-185 | the receive checks in the loop's order: header reads, length bound, uint16 slice bound, checksum; see the lemmas below |
| Framing.ShortInputDropped | rx.go:156-166 | input shorter than the header is dropped before it is counted |
| Framing.SliceCrashNeedsHugeInput | rx.go:176 | the uint16 wrap of the slice bound needs a length field of at least 65526 and at least 65536 bytes |
| Framing.ParseChecked | rx.go:176-185 | once the bounds hold, the outcome is a CRC mismatch or exactly the trimmed payload, decided by the checksum field |
| Framing.CorruptPayloadRejected | rx.go:179-185 | a packet damaged in one payload byte fails the CRC check |
| Framing.CorruptChecksumRejected | rx.go:179-185 | a packet damaged in one checksum byte fails the CRC check |
| Framing.DecodeLE64Injective | rx.go:162 | distinct checksum fields read as distinct values |
| Messages.Uint32 | tx.go:99 | `uint32(x)` is below 2^32, congruent to x, and x itself when x fits |
| Messages.MetarMessage | tx.go:96-105 | a METAR message carries the report's text, the truncated send and observation times, the station position, and no status |
| Messages.TafMessage | tx.go:107-116 | a TAF message carries the text, the truncated send and bulletin times, the station position, and no status |
| Messages.BeaconMessage | tx.go:118-137 | a beacon has no text and a status with the tracked counts, scheme [(915-902)*65536], dwell [10000], band 902-928, and send time = observation time |
| Position.Run | common.go:58-90 | the updater loop over a run of polls, one `Tick` each; see GeoPointNeverCleared, GeoPointIsLastFix and FirstLockLoggedOnce |
| Position.Tick | common.go:63-88 | a failed GET or body read changes nothing; a decoded response replaces `Location`; the point moves only on a fix and is never cleared |
| Position.LastFix | common.go:82-88 | the last fix is a decoded situation with fix quality above 0 |
| Position.GeoPointNeverCleared | common.go:83-87 | once set, the station point stays set over any run of polls |
| Position.GeoPointIsLastFix | common.go:82-88 | the station point is the point of the last valid fix, or the starting one if none |
| Position.FirstLockLoggedOnce | common.go:83-86 | the first-lock notice is logged exactly once, on the transition from no point to a point |
| Position.LocationIsLastDecoded | common.go:76 | `Location` holds the last decoded situation, fix or no fix |
| Position.Station.constructor | common.go:41-42 | the globals start at their zero values |
| Position.Station.Poll | common.go:60-89 | one loop iteration updates the globals as `Tick` says |
| Position.Station.PollAll | common.go:58-90 | a stretch of iterations updates the globals as `Run` says |
| Position.Station.SeedManual | rx.go:132-138 | the manual seed updates the globals as `SeedManualState` says |
| Position.SeedManualState | rx.go:132-138 | only a non-zero manual lat or lng seeds the point and `Location`'s lat and lng (narrowed to float32), with the configured values, and no notice is logged |
| Position.ManualSeedSuppressesFirstLockNotice | rx.go:132-138 | after a manual seed no later fix logs the first-lock notice |
| Settings.Defaults | common.go:94-98 | defaults are mode TX, 915.00 MHz, modulation 1, manual position untouched |
| Settings.FirstRead | common.go:109-110 | the one read returns a non-empty prefix of at most 1024 bytes, the whole file if shorter, and fails on an empty file |
| Settings.ReadSettings | common.go:100-125 | open failure: defaults, saved; read or decode failure: defaults, not saved; success: the decoded settings wholesale |
| Settings.FailedLoadDisablesReceiver | rx.go:110-120 | a settings file that cannot be used leaves the receiver idle |
| Settings.OnlyFirstKilobyteRead | common.go:109-117 | bytes past the first 1024 never change the outcome |
| Settings.Store.constructor | common.go:31 | the store starts with the given settings and no saves |
| Settings.Store.InstallDefaults | common.go:94-98 | the settings become `Defaults` and nothing is saved |
| Settings.Store.Save | common.go:127-137 | the current settings are recorded as written |
| Settings.Store.Read | common.go:100-125 | settings and saves change as `ReadSettings` says |
| Text.Split | reception_tests/map.go:178 | splitting always yields at least one field |
| Text.JoinSplit | reception_tests/map.go:178 | the fields joined with the separator give the line back |
| Text.SplitFieldsHaveNoSeparator | reception_tests/map.go:178 | no field contains the separator |
| Text.SplitWithoutSeparator | reception_tests/map.go:178-179 | a line without a separator is a single field |
| Text.Decimal | rx.go:201 | `%d` is a non-empty digit string without a leading zero |
| Text.DecimalRoundTrip | rx.go:201 | reading the digits of `%d` back gives the number |
| Text.BoolText | rx.go:201 | `%t` is "true" exactly for true and "false" otherwise |
| Transmitter.TafPrefixAsWritten | tx.go:259-261 | as written, `Text[:4]` panics exactly on texts shorter than four bytes; otherwise the prefix test never matches and the text passes unchanged |
| Transmitter.StripTafPrefix | tx.go:259-261 | corrected: a leading "TAF " is dropped, any other text passes unchanged |
| Transmitter.TafText | tx.go:259-261 | selects the as-written or the corrected handling; its properties are those of the two members above |
| Transmitter.MetarMessages | tx.go:250-255 | the METAR loop sends one message per snapshot METAR |
| Transmitter.TafStep | tx.go:258-264 | one TAF loop turn: nothing after a panic, else a panic or the message with the handled text |
| Transmitter.TafSends | tx.go:257-265 | the TAF loop sends at most one message per TAF, exactly one per TAF when it does not panic |
| Transmitter.PassMetars | tx.go:250-255 | the METAR messages when `-metars` is on, none otherwise |
| Transmitter.PassTafs | tx.go:257-265 | the TAF loop when `-tafs` is on, nothing and no panic otherwise |
| Transmitter.WeatherSends | tx.go:249-266 | nothing in beacon mode; else the METAR messages if enabled, then the TAF loop if enabled, with its panic; see SendOrder |
| Transmitter.PassSends | tx.go:243-276 | the weather messages, then a beacon if one is due unless the TAF loop panicked; see SendOrder, PassPanicIff and AtMostOneBeaconLast |
| Transmitter.OnAir | tx.go:156-164 | the packets the radio gets for a run of messages; see OnAirSingle, OnAirAppend and OnAirDecodes |
| Transmitter.MetarMessagesAt | tx.go:250-255 | the i-th METAR message of a pass is built from the i-th snapshot METAR |
| Transmitter.TafSendsAt | tx.go:257-264 | the i-th TAF message sent is built from the i-th snapshot TAF, whose handling did not panic, with the handled text |
| Transmitter.TafPanicIff | tx.go:259 | the TAF loop panics exactly when the handling of some snapshot TAF panics |
| Transmitter.PanicSticky | tx.go:259 | after a panic later TAFs change nothing |
| Transmitter.PanicStopsTafs | tx.go:257-265 | at the first TAF whose handling panics the loop stops, having sent exactly the TAFs before it |
| Transmitter.CorrectedSendsEveryTaf | tx.go:257-265 | with the corrected strip the loop never panics and sends every TAF without its leading "TAF " |
| Transmitter.AsWrittenSendsTextsUnchanged | tx.go:257-265 | as written, when every TAF has at least four bytes, the loop sends every TAF with its text unchanged |
| Transmitter.ShortTafPanics | tx.go:259 | as written, a TAF shorter than four bytes makes the pass panic |
| Transmitter.SendOrder | tx.go:249-276 | outside beacon mode a pass is exactly: every snapshot METAR in order when `-metars` is on, then, when `-tafs` is on, the TAFs in order up to the first panic (all of them when none panics), then the beacon when one is due and nothing panicked; a kind switched off is not sent at all |
| Transmitter.PassShape | tx.go:249-276 | outside beacon mode a pass is its METARs, its TAFs, then the due beacon unless the TAF loop panicked |
| Transmitter.GatedKinds | tx.go:250-257 | with `-metars` off no METAR is sent, with `-tafs` off no TAF |
| Transmitter.PassPanicIff | tx.go:249-266 | a pass panics exactly when it runs the TAF loop and some TAF's handling panics |
| Transmitter.BeaconModeSendsNoWeather | tx.go:249 | in beacon mode a pass never panics and sends only beacons |
| Transmitter.NoBeaconInMetars | tx.go:250-255 | the METAR part of a pass holds only METARs |
| Transmitter.NoBeaconInTafs | tx.go:257-264 | the TAF part of a pass holds only TAFs |
| Transmitter.AtMostOneBeaconLast | tx.go:268-276 | a pass holds at most one beacon, as its last message, exactly when a tick is pending and the TAF loop did not panic |
| Transmitter.OnAirSingle | tx.go:156-164 | one message reaches the radio as its frame exactly when the frame is under 150 bytes |
| Transmitter.OnAirAppend | tx.go:251-264 | sending messages one after another puts their packets on the air in the same order |
| Transmitter.OversizedMessageSkipped | tx.go:251-264 | a message too long for the radio is skipped and the rest still go out |
| Transmitter.OnAirDecodes | tx.go:156-164 | every packet on the air is under 150 bytes and is received intact as the encoding of one of the messages |
| Transmitter.Station.constructor | tx.go:237 | a fresh station holds the CRC table and the chosen TAF handling, empty lists, no packets sent, not panicked |
| Transmitter.Station.TxWeatherMessage | tx.go:156-164 | the packet is sent and counted exactly when its frame is under 150 bytes; otherwise nothing changes and the error is reported |
| Transmitter.Station.SendBeacon | tx.go:118-139 | the beacon built from the tracked list lengths goes through the size gate |
| Transmitter.Station.UpdateWeather | tx.go:166-197 | nothing changes until the station point is known; then each list is fetched only when enabled, else emptied, and both are replaced together |
| Transmitter.Station.SendMetars | tx.go:250-255 | the packets of the snapshot METARs are appended in order |
| Transmitter.Station.SendTaf | tx.go:258-264 | one turn of the TAF loop sends the packet of `TafStep`'s message, or marks the station panicked |
| Transmitter.Station.SendTafs | tx.go:257-265 | the packets of `TafSends` are appended in order, and the station is marked panicked exactly when the loop panicked |
| Transmitter.Station.SendWeather | tx.go:249-266 | the weather part of a pass appends the packets of `WeatherSends` and records its panic |
| Transmitter.Station.Pass | tx.go:243-277 | one pass appends exactly the packets of `PassSends` for the snapshot, records its panic and leaves the lists alone |
| Receiver.TextReportFrame | rx.go:39-59 | a METAR frame reads "METAR " + text and a TAF frame "TAF " + text, product 413, frame type 0, at the sending station's position |
| Receiver.ReportTextRecoverable | rx.go:49-54 | dropping the kind prefix of a frame's text gives the transmitted text |
| Receiver.BeaconText | rx.go:201 | the `TimeOk=%t, WeatherUpdatesOk=%t, MetarsTracked=%d, TafsTracked=%d` summary; see BeaconTextFields and BeaconTextRoundTrip |
| Receiver.BeaconTextFields | rx.go:201 | the beacon summary splits at its commas into its four fields |
| Receiver.BeaconTextRoundTrip | rx.go:201-203 | the four status fields can be read back from the logged summary |
| Receiver.Dispatch | rx.go:195-206 | METAR/TAF: one frame and one log record of the raw text; beacon with status: one log record of the summary; anything else: nothing |
| Receiver.RxStep | rx.go:150-209 | one iteration of the receive loop as a function of the received bytes; see the lemmas below |
| Receiver.RxRun | rx.go:150-209 | the receive loop over a sequence of messages; see RxRunCounts and CrashIsFinal |
| Receiver.DroppedUncounted | rx.go:156-171 | a message whose header does not read, or whose length field claims more bytes than arrived, changes nothing |
| Receiver.RxStepMonotone | rx.go:173-185 | a step never makes the CRC error count exceed the received count, and never takes back a count, a record or a frame |
| Receiver.RxRunCounts | rx.go:150-209 | until a panic the counters are the number of messages past the bounds check and the number failing the CRC; always `CRCErrors <= MessagesReceived` |
| Receiver.CrashIsFinal | rx.go:176 | after the slice panic nothing more happens |
| Receiver.CorruptPacketOnlyLogged | rx.go:179-185 | a checksum failure adds one "crcbad" record at (0, 0) and no frame |
| Receiver.IntactDispatched | rx.go:188-197 | an intact packet that decodes is counted and handed to the type switch |
| Receiver.UplinksAreChecked | rx.go:179-198 | every frame handed to the UAT encoder comes from a message that passed the CRC and decoded to a METAR or TAF |
| Receiver.Station.constructor | rx.go:142 | a fresh receiver holds the CRC table and zero counters, log and frames |
| Receiver.Station.Receive | rx.go:151-209 | one loop iteration changes the counters, log and frames as `RxStep` says |
| Receiver.Station.Accept | rx.go:173-208 | after the header reads and bounds check, the rest of the iteration is `RxStep` |
| Receiver.Station.Handle | rx.go:195-206 | the type switch changes the log and frames as `Dispatch` says |
| Receiver.Station.ReceiveAll | rx.go:150-209 | the loop over a sequence of messages is `RxRun` |
| Correlation.ReadLine | reception_tests/map.go:177-194 | a kept line has at least two fields, its data is the second field, starting "7e07", and its time is the parsed first field; the reader panics exactly on a second field under four bytes or an uplink line whose time does not parse; every uplink line with a parsable time is kept |
| Correlation.SkippedLines | reception_tests/map.go:178-181 | empty lines, comment lines and lines with fewer than two fields are skipped; an empty line is skipped without indexing `s[0]` |
| Correlation.KeptDataHasNoComma | reception_tests/map.go:194 | a kept message's data is a single field of its line |
| Correlation.ScanLines | reception_tests/map.go:176-200 | the scanner loop as a function: the kept messages in line order and whether it panicked; see the lemmas below |
| Correlation.ScannedAreUplinks | reception_tests/map.go:176-200 | every message read is an uplink message kept from some line of the log |
| Correlation.ScanPanicIff | reception_tests/map.go:183-190 | the reader panics exactly when some line of the log makes it panic |
| Correlation.ScanKeepsEveryUplink | reception_tests/map.go:176-200 | without a panic, the message of every uplink line is kept |
| Correlation.ReadMessages | reception_tests/map.go:175-200 | the scanner loop computes `ScanLines`, stopping at the first panic |
| Correlation.PanicIsFinal | reception_tests/map.go:187-190 | after a panic later lines have no effect |
| Correlation.Keep | reception_tests/map.go:208-211 | the messages of a pool a point takes, in pool order; see KeepMembers and KeepOrder |
| Correlation.Unmatched | reception_tests/map.go:206-218 | the messages no point of a track prefix takes; see LeftoversMatchNoTrack |
| Correlation.WithMatches | reception_tests/map.go:206-218 | a point with its share of what the earlier points left; see FirstMatchTakes and Associate |
| Correlation.KeepMembers | reception_tests/map.go:209-211 | a point takes exactly the pool messages strictly before it and under a second before it |
| Correlation.LeftoversMatchNoTrack | reception_tests/map.go:206-218 | the leftovers are exactly the messages no point matches |
| Correlation.UnmatchedStep | reception_tests/map.go:212-217 | each point passes on exactly the messages it does not match |
| Correlation.FirstMatchTakes | reception_tests/map.go:206-218 | a message goes to the first point, in track order, that matches it |
| Correlation.TakenOnce | reception_tests/map.go:206-218 | no message is taken by two points |
| Correlation.KeepAppend | reception_tests/map.go:208-211 | a point takes from the pool in the pool's order |
| Correlation.UnmatchedAppend | reception_tests/map.go:212-217 | the leftover pool keeps the messages' order |
| Correlation.KeepOrder | reception_tests/map.go:208-211 | two matching messages keep their relative order in a point's share |
| Correlation.KeepSplits | reception_tests/map.go:208-216 | a point's share and what it passes on partition its pool |
| Correlation.MessagesConserved | reception_tests/map.go:206-218 | taken messages plus leftovers are the input messages exactly, as a multiset |
| Correlation.Claim | reception_tests/map.go:207-217 | the inner loop appends a point's share to it, changes no other point, and returns the rest in order |
| Correlation.Associate | reception_tests/map.go:205-218 | every point ends with its first-match share and the leftovers are the unmatched messages |
| Correlation.Failing | reception_tests/map.go:238-243 | the count of points without messages, the loop's `i`; see DotCounts |
| Correlation.NewDots | reception_tests/map.go:231-243 | the dots one point adds; see NewDotsCounts |
| Correlation.Dots | reception_tests/map.go:229-245 | the dots of the plotting loop; see DotCounts and FailingPlottedEveryTenth |
| Correlation.NewDotsCounts | reception_tests/map.go:231-243 | a point with messages prints one "true" dot; one without prints a "false" dot exactly when the counter is a multiple of ten |
| Correlation.DotCounts | reception_tests/map.go:230-245 | one dot per point with messages and ⌈failing/10⌉ dots for the others |
| Correlation.FailingPlottedEveryTenth | reception_tests/map.go:238-243 | a failing point is plotted when the count of failing points before it is a multiple of ten |
| Correlation.FirstFailingPlotted | reception_tests/map.go:238-244 | the first failing point is always plotted |
| Correlation.Plot | reception_tests/map.go:229-245 | the plotting loop prints `Dots` and ends with the count of failing points |
| Link.PassReceived | rx.go:153-206 | for a decoder that reads back the messages of the pass, every packet the pass puts on the air is counted, passes the CRC and is handled as the message it was built from |
| Link.MetarDelivered | rx.go:195-198 | a METAR that fits the radio and that the decoder reads back becomes one "METAR " + text frame and one log record of its text |
| Link.TafShownTwiceAsWritten | tx.go:259-261 | as written, a TAF from ADDS is shown as "TAF TAF ..." |
| Link.TafShownOnce | tx.go:259-261 | with the intended strip the receiver shows the TAF exactly as ADDS delivered it |

## Left out

- Protobuf `Marshal` / `Unmarshal` (tx.go:142, rx.go:189) are a foreign library. They are function parameters, and each link lemma requires only that the decoder reads back the messages it is about. The `panic` on a marshal error is not modelled.
- `uatsynth.EncodeUplink` and the hex printing of its output (rx.go:60-71) are a foreign encoder. The model stops at the frame fields the receiver fills in.
- The FIS-B hour and minute (rx.go:41, 55-56) depend on the local time zone and are left out of the frame.
- The HTTP GET and JSON decoding of the situation (common.go:63-80) are network I/O. Each poll's outcome is an input.
- The ADDS fetches (tx.go:178, 185) are network I/O and are function parameters. Their failure panics are not modelled.
- txwx/canadian_pull_metars.go is not part of this model.
- Log files, the stats printers and flag parsing are I/O. The receive log is a sequence of records with reals for coordinates, and `%0.4f` formatting is not modelled.
- The settings file is modelled as an outcome: missing, unreadable, or its bytes. `saveSettings` records the value written, and its own open failure is not modelled.
- Goroutines, the mutex and the tickers are not modelled:
  - The list swap in `updateWeather` is one atomic assignment.
  - The beacon ticker is a `beaconDue` input.
  - The beacon reads the list lengths at the time it is built, without interleaving with a refresh.
- The clock: each transmit pass takes one `now`, whereas the source reads `time.Now()` per message. `uint32` truncation of times is modelled.
- Floating point: coordinates are reals.
  - The receiver's `float32` narrowing of the manual position is a function parameter.
  - The log's decimal timestamps are turned into nanoseconds by a parameter `parseTime` (reception_tests/map.go:187-193).
  - Track timestamps are integers.
- The GDL90 log is taken as already split into lines. The `scanner.Err()` panic (reception_tests/map.go:201-203), which a line longer than the scanner's 64 KiB buffer triggers, is not modelled.
- The KML decoding and the track-point parsing (reception_tests/map.go:130-167) are schema-driven XML and float parsing. The track points are an input.
- The great-circle maximum-distance search and its final print (reception_tests/map.go:225-247) are floating point. That includes the nil dereference of `maxDistPoint` when no point has messages.
- The receive loop's `n` counter (rx.go:148, 208) is unused and is not modelled.
- The 64-bit counters `MessagesSent`, `MessagesReceived` and `CRCErrors` are naturals. Their wrap-around after 2^64 messages is not modelled.
- `Crc.Checksum` uses the one-table loop of Go's `crc64.Update`, not the eight-table variant Go switches to for long inputs. Both compute the same function, and the model proves its loop equal to the bitwise definition.
- Text is a sequence of characters. The strings involved are ASCII, so one character stands for one byte of a Go string.
- The receiver's own position for each log record is an input, the `Location` at that time.
- The duplicate `MySituation` / `situationUpdater` in tx.go (tx.go:37-43, 62-94) is modelled once, from common.go.
- The receiver's mode check (rx.go:112-120) only appears through `Settings.ReceiveEnabled`. The idle loop is not modelled.
- Framing.Parse: the slice `Data[10 : msgLen+10]` at rx.go:176 computes its bound in uint16. For a length field of 65526 or more with enough bytes present, it panics and ends the process. The model keeps this as the `SliceCrash` outcome, after which `Receiver.RxRun` does nothing more.
- A transmitter panic ends the program. The model records it in `Transmitter.Station.crashed`, and `Pass` requires a station that has not panicked.

## Findings

| source | as written | input that shows it | evidently intended | confidence | as-written member | corrected member |
|---|---|---|---|---|---|---|
| tx.go:259-261 | the four-byte slice `v.Text[:4]` is compared with the three-byte "TAF", so the strip never fires and the receiver's own "TAF " prefix doubles it | an ADDS TAF whose text is "TAF KXYZ 141130Z ..." is shown as "TAF TAF KXYZ 141130Z ..." | drop a leading "TAF " (the four bytes `v.Text[4:]` removes), so the TAF is shown once: the receiver adds its own "TAF " (rx.go:53), and `v.Text[4:]` removes exactly those four bytes | not executed | Link.TafShownTwiceAsWritten | Link.TafShownOnce |
