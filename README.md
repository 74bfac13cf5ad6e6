# noble's Linux HCI reader, modelled in Dafny

On Linux, noble runs a helper process, `hci-ble`, that scans for Bluetooth Low
Energy devices. The helper prints one message per line on its standard output.
`HciBle.prototype.onStdoutData` in `lib/linux/hci-ble.js` reads that stream. It
has four stages:

- **Line framer.** Chunks of text are appended to a buffer. Each complete
  `'\n'`-terminated line is split off, and the unterminated tail waits for the
  next chunk.
- **Router.** `adapterState <state>` lines become `stateChange` events, and two
  of the states also print a console warning. `event <evt>,<addr>,<addrType>,<eirHex>,<rssi>`
  lines are advertising reports. Every other line is ignored.
- **EIR decoder.** One linear pass over the length/type/value structures of the
  advertising data (the AD structures of the Bluetooth Core Specification
  Supplement, Part A, section 1). The pass updates the device's advertisement:
  service UUIDs, local name, Tx power, service data and manufacturer data.
- **Discovery aggregator.** A table keyed by address counts the reports per
  device. The UUID and service-data lists are reset at the start of every pair
  of reports. `discover` is emitted after every second report, or after every
  report when `NOBLE_REPORT_ALL_HCI_EVENTS` is set.

The project has these modules:

- `Wrappers` holds `Option`.
- `Sequences` holds one concatenation fact.
- `Encoding` holds the Node conversions the reader relies on: hex encoding and
  decoding of a buffer, `toString(16)`, `readInt8`, the
  `match(/.{1,2}/g).reverse().join('')` byte-order idiom, and `parseInt`.
- `Framing` is the framer.
- `Eir` is the decoder: specification functions plus the imperative loops proved against them.
- `EirProperties` holds lemmas about the decoder.
- `LinuxHciBle` holds the router and the aggregator as specification functions, plus the
  class `HciBle`. The class has the `buffer` and `discoveries` fields and the
  `reportAll` flag, and its methods carry out one chunk in place.
- `HciBleProperties` holds lemmas about framing, routing and aggregation.

`HciBle.OnStdoutData` is the source's `while` loop. It is proved to leave the
object in exactly the state `Feed` computes and to report exactly the events
`Feed` computes. `Feed`'s properties are then proved as lemmas.

Emitted events are returned as a list instead of going to an `EventEmitter`.
The console warnings appear in that list as `Warning` events, just before the
`stateChange` they accompany.

Where the code throws, the model returns an explicit `Fault` and processing of
the chunk ends. This happens when:

- a 16-bit UUID list has odd length;
- a Tx Power or Service Data structure is empty;
- a report has fewer than four fields;
- the EIR field is not hex.

The line that threw has already been removed from the buffer (line 68 runs
before the line is looked at). The lines after it stay in the buffer. If the
address was already in the table, the fields already decoded remain in its
advertisement, because the table and the decoder share that object in the source.

Where the code and a plain reading of its intent differ, the model follows the code:

- A 16-bit UUID is printed with `toString(16)`, so there is no zero padding:
  0x0180 gives `"180"` (`EirProperties.Uuid16NotPadded`).
- Nothing catches the exceptions above, so a bad report aborts the remaining
  lines of its chunk rather than being skipped.
- A buffer without `'\n'` after a call is guaranteed only when the chunk did
  not throw (`HciBleProperties.FeedLeavesNoNewline`). After a throw, the lines
  still unread stay buffered until the next chunk arrives.

## Model

| member | source | states |
|---|---|---|
| LinuxHciBle.HciBle.constructor | lib/linux/hci-ble.js:20-22 | A new reader has an empty buffer and an empty discovery table, and keeps the report-all flag it is given. |
| LinuxHciBle.HciBle.OnStdoutData | lib/linux/hci-ble.js:59-207 | The framer loop appends the chunk to the buffer, takes off one line at a time and handles it. The new buffer, the new table, the events and the fault are exactly those of `Feed`, and the table invariant is kept. |
| LinuxHciBle.HciBle.ProcessLine | lib/linux/hci-ble.js:72-206 | Handling one line leaves the buffer alone. The new table, the events and the fault are those of `HandleLine`. |
| LinuxHciBle.HciBle.ProcessEvent | lib/linux/hci-ble.js:91-205 | Handling one report leaves the buffer alone. The new table, the events and the fault are those of `HandleEvent`: split, hex-decode, look up, reset, decode, store, emit. |
| LinuxHciBle.MatchPrefix | lib/linux/hci-ble.js:72 | When `^<prefix>(.*)$` matches, the line is the prefix followed by the captured text, and the captured text holds no line terminator. |
| HciBleProperties.MatchPrefixOf | lib/linux/hci-ble.js:72 | The prefix followed by `s` matches exactly when `s` has no line terminator, and then it captures `s`. |
| LinuxHciBle.Split | lib/linux/hci-ble.js:92 | `split(',')` returns at least one part, and no part contains a comma. |
| HciBleProperties.SplitJoin | lib/linux/hci-ble.js:92 | Joining the parts of a split with the separator gives back the text. |
| HciBleProperties.JoinSplit | lib/linux/hci-ble.js:92 | Splitting the join of comma-free parts gives back exactly those parts. |
| LinuxHciBle.DiagnosticsFor | lib/linux/hci-ble.js:77-87 | There is at most one warning, and there is one exactly when the state is `unauthorized` or `unsupported`. |
| LinuxHciBle.HandleLines | lib/linux/hci-ble.js:64-207 | The loop consumes every line when nothing throws, and when a line throws it stops having consumed at least that line and never more lines than it was given. |
| LinuxHciBle.FeedIsResume | lib/linux/hci-ble.js:59-64 | Feeding a chunk is the loop started on the old buffer followed by the chunk, with nothing reported yet. |
| LinuxHciBle.ResumeStep | lib/linux/hci-ble.js:64-68 | One iteration handles the text before the first newline. It either stops with that line's fault or goes on with the text after the newline. |
| LinuxHciBle.ResumeDone | lib/linux/hci-ble.js:64 | The loop ends, with the buffer kept, once the buffer holds no newline. |
| LinuxHciBle.HandleLineValid | lib/linux/hci-ble.js:72-206 | Handling any line keeps the table invariant: each entry is filed under its own address, has count at least 1, and lists no UUID twice. |
| LinuxHciBle.AggregateValid | lib/linux/hci-ble.js:106-200 | One report keeps the table invariant, whether or not it throws. |
| Framing.IndexOf | lib/linux/hci-ble.js:64 | `indexOf` returns -1 exactly when the character is absent. Otherwise it returns an index holding the character. |
| Framing.IndexOfFirst | lib/linux/hci-ble.js:64 | No occurrence comes before the index `indexOf` returns. |
| Framing.IndexOfAt | lib/linux/hci-ble.js:64 | The first occurrence is the one `indexOf` finds. |
| Framing.SplitAtNewline | lib/linux/hci-ble.js:65-68 | The text before the first newline is a complete line. The buffer is that line, the newline and the text that stays buffered. |
| Framing.FrameSound | lib/linux/hci-ble.js:64-68 | The framer loses and invents nothing: the lines, each with its `'\n'`, followed by the remainder, give back the text. No line and no remainder holds a newline. |
| Framing.FrameUnique | lib/linux/hci-ble.js:64-68 | Text made of newline-free lines and a newline-free tail frames into exactly those lines and that tail, in order. |
| Framing.FrameAppend | lib/linux/hci-ble.js:59-68 | Framing `s + t` gives the lines of `s`, then the lines of `s`'s remainder followed by `t`. |
| Framing.FrameNoNewline | lib/linux/hci-ble.js:64 | Text without a newline yields no line and stays whole in the buffer. |
| Framing.JoinLinesConcat | lib/linux/hci-ble.js:64-68 | The text of two runs of lines is the concatenation of their texts. |
| HciBleProperties.FeedKeepsText | lib/linux/hci-ble.js:59-68 | The consumed lines, each with its `'\n'`, followed by the new buffer, are exactly the old buffer plus the chunk. |
| HciBleProperties.FeedLeavesNoNewline | lib/linux/hci-ble.js:64-68 | A chunk that does not throw leaves only the unterminated tail in the buffer, and so the buffer holds no newline. |
| HciBleProperties.FeedWithoutNewline | lib/linux/hci-ble.js:59-64 | A chunk that completes no line is only buffered: nothing is reported and the table is unchanged. |
| HciBleProperties.FeedNewline | lib/linux/hci-ble.js:59-68 | A lone `'\n'` hands the buffered text to the line handler as one line and empties the buffer. |
| HciBleProperties.HandleLinesConcat | lib/linux/hci-ble.js:64-207 | Lines are handled in order: handling `a + b` is handling `a`, then handling `b` from the resulting table, with the reports concatenated. |
| HciBleProperties.HandleLinesStopAtFault | lib/linux/hci-ble.js:64-207 | Once a line throws, the lines after it have no effect. |
| HciBleProperties.HandleLinesFaultLast | lib/linux/hci-ble.js:64-207 | When the loop throws, the last line consumed is the one that threw: the lines before it ran without a fault, and the loop's table, fault and emitted events are theirs followed by that line's. |
| HciBleProperties.FeedChunks | lib/linux/hci-ble.js:59-68 | How the stream is cut into chunks does not matter. Two chunks, the first of which does not throw, give the same buffer, table, reports and fault as their concatenation. |
| HciBleProperties.FeedValid | lib/linux/hci-ble.js:106-200 | A whole chunk keeps the table invariant. |
| HciBleProperties.OtherLinesIgnored | lib/linux/hci-ble.js:72-206 | A line that starts with neither `adapterState ` nor `event ` changes nothing, reports nothing and does not throw. |
| HciBleProperties.OnlyKnownLinesAct | lib/linux/hci-ble.js:72-206 | Only lines matching one of the two patterns have an effect. Only `event` lines change the table or throw. |
| HciBleProperties.StateLine | lib/linux/hci-ble.js:72-89 | An `adapterState` line reports its text verbatim as exactly one state change, as the last event, with only warnings before it. The table is left alone. |
| HciBleProperties.UnauthorizedExample | lib/linux/hci-ble.js:77-81 | `adapterState unauthorized` gives one warning and then the state change. |
| HciBleProperties.CarriageReturnLineIgnored | lib/linux/hci-ble.js:72 | `.` does not match `'\r'`, so `adapterState <state>\r` is ignored for every state: no event, no fault, table unchanged. |
| HciBleProperties.CarriageReturnExample | lib/linux/hci-ble.js:72 | Worked example: `adapterState poweredOn\r` is ignored. |
| HciBleProperties.EventLine | lib/linux/hci-ble.js:90-91 | An `event` line hands the text after the keyword to the report handler. |
| HciBleProperties.EventFields | lib/linux/hci-ble.js:92-98 | A five-field report reaches the aggregator with fields 2 and 3 as address and address type, field 4 hex-decoded as the EIR, and field 5 parsed as the RSSI. Bad hex throws instead. |
| HciBleProperties.HandleEventOfFields | lib/linux/hci-ble.js:92-98 | The report handler reads the EIR from the fourth field and the RSSI from the fifth. |
| HciBleProperties.ShortEventThrows | lib/linux/hci-ble.js:97 | A report with fewer than four fields throws and changes nothing. |
| HciBleProperties.ReportLine | lib/linux/hci-ble.js:90-98 | The line the helper prints for a report (hex EIR, decimal RSSI) reaches the aggregator with exactly those bytes and that RSSI. |
| HciBleProperties.AggregateRecords | lib/linux/hci-ble.js:194-205 | A report that does not throw files the address with its address type and RSSI and with count one more than before. Other addresses are untouched. `discover` is emitted, once and with the stored advertisement, exactly when the new count is even or the flag is set. |
| HciBleProperties.AggregateOnFault | lib/linux/hci-ble.js:106-190 | A report that throws emits nothing and adds no address. A known address keeps its count, RSSI and type, and only its advertisement may change. |
| HciBleProperties.AggregateFaults | lib/linux/hci-ble.js:127-190 | A report throws exactly when one of the AD structures the pass visits is malformed. |
| HciBleProperties.PairStarts | lib/linux/hci-ble.js:115-121 | After an even prior count, including a new address, the UUID and service-data lists hold only what this report's EIR carries. |
| HciBleProperties.PairContinues | lib/linux/hci-ble.js:106-121 | After an odd prior count, the address is known, and the report extends its previous UUID and service-data lists. |
| HciBleProperties.ScalarFieldsCarryOver | lib/linux/hci-ble.js:107-113 | Local name, Tx power and manufacturer data are never reset. Each is the last value the EIR sets, or else the previous advertisement's value (`undefined` for a new address). |
| HciBleProperties.PairStartForgets | lib/linux/hci-ble.js:117-121 | At the start of a pair the previous lists have no influence: two tables give the same lists and the same fault. |
| HciBleProperties.TwoReportsMerge | lib/linux/hci-ble.js:106-205 | A new device's first report is not announced. The second is announced with count 2, the second RSSI, and both reports' UUIDs, de-duplicated in first-seen order, and service data. |
| Eir.RecordsLayout | lib/linux/hci-ble.js:127-142 | Every visited record lies inside the buffer, with its length byte, type byte and payload `eir[i+2 .. i+len+1]`. Each record starts right after the previous one, so the offset grows by at least 2. |
| Eir.ApplyRecord | lib/linux/hci-ble.js:144-187 | One record throws exactly on the malformed cases, appends its UUIDs without duplicates and its service-data entries, and changes nothing for an unhandled type. |
| Eir.AppendUuids16 | lib/linux/hci-ble.js:145-153 | The 16-bit loop adds the payload's UUIDs not yet listed, in order. It reports the `readUInt16LE` fault exactly for an odd-length payload. |
| Eir.AppendUuids128 | lib/linux/hci-ble.js:155-163 | The 128-bit loop adds the payload's UUIDs, taken 16 bytes at a time, that are not yet listed, in order. |
| Eir.DecodeRecord | lib/linux/hci-ble.js:142-187 | The `switch` on the AD type computes exactly `ApplyRecord`. |
| Eir.DecodeEir | lib/linux/hci-ble.js:123-190 | The EIR loop computes exactly `Decode`: the visited records applied in order, stopping at the first fault. |
| Eir.AddUuidsExtends | lib/linux/hci-ble.js:149-150 | Adding UUIDs keeps the existing list as a prefix. |
| Eir.AddUuidsMembers | lib/linux/hci-ble.js:149-150 | After adding, the list holds exactly the old UUIDs and the added ones. |
| Eir.AddUuidsNoDuplicates | lib/linux/hci-ble.js:149-150 | The `indexOf` check keeps the UUID list free of duplicates. |
| Eir.AddUuidsFresh | lib/linux/hci-ble.js:149-150 | Distinct new UUIDs are appended in the order they appear. |
| Eir.AddUuidsConcat | lib/linux/hci-ble.js:147-152 | Adding two batches in turn is adding their concatenation. |
| Eir.Uuid16 | lib/linux/hci-ble.js:148 | A 16-bit UUID prints as one to four hex digits. |
| Eir.Uuid128IsSourceExpression | lib/linux/hci-ble.js:158 | The byte-reversed hex of a 128-bit chunk is what `toString('hex').match(/.{1,2}/g).reverse().join('')` computes. |
| Eir.ServiceDataUuidIsSourceExpression | lib/linux/hci-ble.js:175 | The service-data UUID is what the same idiom computes on the first two bytes. |
| Eir.ServiceDataEntryLayout | lib/linux/hci-ble.js:175-176 | The service UUID is the first two bytes swapped, in hex, and the data is the rest. A one-byte payload gives a two-digit UUID and empty data. |
| EirProperties.ApplyAllExtends | lib/linux/hci-ble.js:144-187 | The UUID and service-data lists only grow: the old lists stay as prefixes, and a duplicate-free UUID list stays duplicate-free. |
| EirProperties.ApplyAllUuids | lib/linux/hci-ble.js:145-163 | Without a fault, the UUIDs are the old ones followed by the records' UUIDs, de-duplicated, in first-seen order. |
| EirProperties.ApplyAllServiceData | lib/linux/hci-ble.js:174-182 | Without a fault, service data is append-only: the old entries, then one entry per Service Data record, in order. |
| EirProperties.ApplyAllLastWriteWins | lib/linux/hci-ble.js:165-186 | Without a fault, local name, Tx power and manufacturer data are each the last value written by a record, or the old value. |
| EirProperties.ApplyAllFaults | lib/linux/hci-ble.js:144-187 | The pass throws exactly when some visited record is malformed. |
| EirProperties.ApplyAllStopsAtFault | lib/linux/hci-ble.js:127-190 | The pass applies the records before the first malformed one, and that record's partial effect is its last. |
| EirProperties.ApplyAllListsIndependent | lib/linux/hci-ble.js:117-121 | The resulting lists and the fault depend only on the starting lists, not on the scalar fields. |
| EirProperties.DecodeKeepsNoDuplicates | lib/linux/hci-ble.js:145-163 | Decoding keeps a duplicate-free UUID list duplicate-free. |
| EirProperties.SerializedRoundTrip | lib/linux/hci-ble.js:127-142 | Well-formed AD structures laid out one after another are read back, one record per structure, in order. |
| EirProperties.DecodeStopsAtTail | lib/linux/hci-ble.js:130-140 | A trailing zero length byte, a length past the end, or a single byte stops the pass: what follows has no effect. |
| EirProperties.UnhandledRecordSkipped | lib/linux/hci-ble.js:144-187 | For any record list and any position holding an AD type the `switch` does not list, the pass gives the same result as the list without that record. |
| EirProperties.UnknownTypeChangesNothing | lib/linux/hci-ble.js:144-187 | Worked example: the buffer `02 01 ff` (one record of unlisted type 0x01) leaves the advertisement as it was. |
| EirProperties.Uuid16NotPadded | lib/linux/hci-ble.js:148 | `toString(16)` does not pad, so UUID 0x0180 prints as `"180"`. |
| Encoding.HexDecode | lib/linux/hci-ble.js:97 | A hex string decodes to half as many bytes, and one of odd length does not decode. |
| Encoding.HexDecodeEncode | lib/linux/hci-ble.js:97 | Decoding the hex of any bytes gives those bytes back. |
| Encoding.LittleEndianHexReversesBytes | lib/linux/hci-ble.js:158 | The `match(/.{1,2}/g).reverse().join('')` idiom on a buffer's hex is the hex of the bytes in reverse order. |
| Encoding.HexDigitsValue | lib/linux/hci-ble.js:148 | `toString(16)` of a number reads back as that number. |
| Encoding.Int8 | lib/linux/hci-ble.js:171 | `readInt8` gives a value in -128..127 that agrees with the byte modulo 256. |
| Encoding.ParseInt | lib/linux/hci-ble.js:98 | `parseInt(s, 10)` is NaN exactly when no digit follows the optional sign. |
| Encoding.ParseIntDecimal | lib/linux/hci-ble.js:98 | `parseInt` of a number's decimal text, with any non-digit tail, gives the number back. |

## Left out

- Spawning the `hci-ble` helper, its `close` and `error` handlers, `onStderrData`, and `startScanning`/`stopScanning`, which only send signals to the helper. This is process control, not stream handling.
- The `NOBLE_REPORT_ALL_HCI_EVENTS` environment variable. It is read on every report; here it is the `reportAll` constructor parameter and is assumed not to change while the reader runs.
- `debug` output, and `evtTypeToString`, which is used only in that output. The text of the console warnings is left out: each warning is a `Warning` event.
- `EventEmitter`. Emitted events are returned from `OnStdoutData` as a list, in emission order.
- `data.toString()`. Chunks are taken as already decoded text, so a multi-byte character split across two chunks is not modelled.
- UTF-8 decoding of the local name. `localName` holds the raw payload bytes that are decoded.
- Node's `new Buffer(s, 'hex')` is modelled as strict: an odd length or a non-hex character is a `MalformedEirHex` fault. Node versions differ on such strings, and some silently keep a decoded prefix.
- `parseInt` skipping leading whitespace. The model parses an optional sign and then the longest run of digits, and NaN is `None`.
- Object identity of the advertisement. An emitted `discover` carries a snapshot, while in the source it is the same object the table keeps mutating.
- JavaScript property-lookup quirks of the discovery table, such as an address spelled like an `Object.prototype` key.
- test/test-descriptor.js and lib/resolve-bindings.js, which are not part of this reader.
