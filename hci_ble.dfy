/**
 * The Linux HCI reader of noble: it reads the text protocol printed by the
 * `hci-ble` helper process (one message per line), reports adapter state
 * changes, and merges advertising reports into a per-address discovery table,
 * reporting a device after every second report (or after every report when
 * configured so).
 *
 * The specification functions (`Feed`, `HandleLine`, `HandleEvent`,
 * `Aggregate`) describe one chunk of input as a value-to-value step; the class
 * `HciBle` holds the reader's state and carries it out in place, and its
 * methods are proved to agree with those functions.
 */
module LinuxHciBle {
  import opened Wrappers
  import opened Encoding
  import opened Framing
  import opened Eir
  import opened EirProperties
  import opened Sequences

  // ---------------------------------------------------------------------------
  // Line grammar
  // ---------------------------------------------------------------------------

  const AdapterStatePrefix := "adapterState "
  const EventPrefix := "event "

  /** The characters a `.` of a JavaScript regular expression does not match. */
  predicate LineTerminator(c: char)
  {
    c == '\n' || c == '\r' || c == '\U{2028}' || c == '\U{2029}'
  }

  predicate NoTerminator(s: string)
  {
    forall k | 0 <= k < |s| :: !LineTerminator(s[k])
  }

  /** `line.match(/^<prefix>(.*)$/)`: the captured group, or `None` when the line does not match. */
  function MatchPrefix(line: string, prefix: string): (r: Option<string>)
    ensures r.Some? ==> line == prefix + r.value && NoTerminator(r.value)
  {
    if |prefix| <= |line| && line[..|prefix|] == prefix && NoTerminator(line[|prefix|..]) then
      assert line == line[..|prefix|] + line[|prefix|..];
      Some(line[|prefix|..])
    else None
  }

  /** `s.split(sep)` for a one-character separator: at least one part, none holding `sep`. */
  function Split(s: string, sep: char): (parts: seq<string>)
    ensures |parts| >= 1
    ensures forall k | 0 <= k < |parts| :: sep !in parts[k]
    decreases |s|
  {
    var k := IndexOf(s, sep);
    if k == -1 then [s]
    else
      var rest := Split(s[k + 1..], sep);
      IndexOfFirst(s, sep);
      assert forall j | 0 <= j < k :: s[..k][j] == s[j];
      assert forall j | 1 <= j < |[s[..k]] + rest| :: ([s[..k]] + rest)[j] == rest[j - 1];
      [s[..k]] + rest
  }

  /** The parts with the separator between them: the text `Split` cut up. */
  function Join(parts: seq<string>, sep: char): string
    requires |parts| >= 1
  {
    if |parts| == 1 then parts[0] else parts[0] + [sep] + Join(parts[1..], sep)
  }

  // ---------------------------------------------------------------------------
  // Events, discoveries, faults
  // ---------------------------------------------------------------------------

  /** The operator-facing warning printed for two of the adapter states. */
  datatype Diagnostic = AdapterUnauthorized | AdapterUnsupported

  /** What the reader reports: `stateChange` and `discover` emits, and the console warnings. */
  datatype Event =
    | StateChange(state: string)
    | Warning(diagnostic: Diagnostic)
    | Discover(address: string, addressType: string, advertisement: Advertisement, rssi: Option<int>)

  /** One entry of the discovery table; `rssi` is `None` when the report's RSSI is not a number. */
  datatype Discovery = Discovery(address: string, addressType: string, advertisement: Advertisement, rssi: Option<int>, count: nat)

  type Table = map<string, Discovery>

  /** The ways processing of an `event` line throws, abandoning the rest of the chunk. */
  datatype Fault =
    | EirFault(decode: DecodeFault)   // a malformed AD structure (see `Eir.Malformed`)
    | MissingEirField                 // fewer than four comma-separated fields: `new Buffer(undefined, 'hex')`
    | MalformedEirHex                 // the EIR field is not a string of hex digit pairs

  /** The effect of one line: the new table, what it reported, and whether it threw. */
  datatype Step = Step(table: Table, emitted: seq<Event>, fault: Option<Fault>)

  /** Every entry is filed under its own address, has been seen, and lists no UUID twice. */
  predicate TableValid(t: Table)
  {
    forall a | a in t :: t[a].address == a && t[a].count >= 1 && NoDuplicates(t[a].advertisement.serviceUuids)
  }

  // ---------------------------------------------------------------------------
  // Router and aggregator, line by line
  // ---------------------------------------------------------------------------

  /** The warnings printed before the state change is reported. */
  function DiagnosticsFor(state: string): (r: seq<Event>)
    ensures |r| <= 1 && forall k | 0 <= k < |r| :: r[k].Warning?
    ensures r == [] <==> state != "unauthorized" && state != "unsupported"
  {
    (if state == "unauthorized" then [Warning(AdapterUnauthorized)] else [])
      + (if state == "unsupported" then [Warning(AdapterUnsupported)] else [])
  }

  /** The count an address has reached, 0 for one never seen. */
  function PriorCount(t: Table, address: string): nat
  {
    if address in t then t[address].count else 0
  }

  /**
   * The advertisement the report is decoded into: the stored one (or an empty
   * one for a new address), with the UUID and Service Data lists cleared when
   * the prior count is even.
   */
  function StartingPoint(t: Table, address: string): Advertisement
  {
    var adv := if address in t then t[address].advertisement else EmptyAdvertisement;
    if PriorCount(t, address) % 2 == 0 then adv.(serviceData := [], serviceUuids := []) else adv
  }

  /** Merges one advertising report into the table and decides whether to report the device. */
  function Aggregate(t: Table, reportAll: bool, address: string, addressType: string, eir: seq<byte>, rssi: Option<int>): Step
  {
    var count := PriorCount(t, address);
    var d := Decode(eir, StartingPoint(t, address));
    if d.fault.Some? then
      Step(if address in t then t[address := t[address].(advertisement := d.adv)] else t, [], Some(EirFault(d.fault.value)))
    else
      Step(t[address := Discovery(address, addressType, d.adv, rssi, count + 1)],
           if (count + 1) % 2 == 0 || reportAll then [Discover(address, addressType, d.adv, rssi)] else [],
           None)
  }

  /** The text after `event `: `evtType,address,addressType,eirHex,rssi`. */
  function HandleEvent(t: Table, reportAll: bool, text: string): Step
  {
    var fields := Split(text, ',');
    if |fields| < 4 then Step(t, [], Some(MissingEirField))
    else match HexDecode(fields[3])
      case None => Step(t, [], Some(MalformedEirHex))
      case Some(eir) =>
        Aggregate(t, reportAll, fields[1], fields[2], eir, if |fields| >= 5 then ParseInt(fields[4]) else None)
  }

  /** One complete line: an adapter state, an advertising report, or something ignored. */
  function HandleLine(t: Table, reportAll: bool, line: string): Step
  {
    match MatchPrefix(line, AdapterStatePrefix)
    case Some(state) => Step(t, DiagnosticsFor(state) + [StateChange(state)], None)
    case None =>
      match MatchPrefix(line, EventPrefix)
      case Some(text) => HandleEvent(t, reportAll, text)
      case None => Step(t, [], None)
  }

  /** What is done with one complete line. */
  type LineHandler = (Table, string) -> Step

  /** The reader's line handler: `HandleLine` under the configured report policy. */
  function Router(reportAll: bool): LineHandler
  {
    (t: Table, line: string) => HandleLine(t, reportAll, line)
  }

  /** The outcome of the lines of a chunk: `consumed` lines were taken off the buffer. */
  datatype Run = Run(table: Table, emitted: seq<Event>, consumed: nat, fault: Option<Fault>)

  /** The lines in arrival order, stopping after the first one that throws. */
  function HandleLines(handle: LineHandler, t: Table, lines: seq<string>): (r: Run)
    ensures r.consumed <= |lines|
    ensures r.fault.None? ==> r.consumed == |lines|
    ensures r.fault.Some? ==> r.consumed >= 1
    decreases |lines|
  {
    if lines == [] then Run(t, [], 0, None)
    else
      var s := handle(t, lines[0]);
      if s.fault.Some? then Run(s.table, s.emitted, 1, s.fault)
      else
        var r := HandleLines(handle, s.table, lines[1..]);
        Run(r.table, s.emitted + r.emitted, 1 + r.consumed, r.fault)
  }

  /** The reader's state and output after a chunk of text. */
  datatype Fed = Fed(buffer: string, table: Table, emitted: seq<Event>, fault: Option<Fault>)

  /** One chunk: append it, handle the complete lines, keep the rest. */
  function FeedWith(handle: LineHandler, buffer: string, t: Table, data: string): Fed
  {
    var f := Frame(buffer + data);
    var r := HandleLines(handle, t, f.lines);
    Fed(JoinLines(f.lines[r.consumed..]) + f.rest, r.table, r.emitted, r.fault)
  }

  /** A chunk of `onStdoutData`. */
  function Feed(buffer: string, t: Table, reportAll: bool, data: string): Fed
  {
    FeedWith(Router(reportAll), buffer, t, data)
  }

  /** `FeedWith` in terms of its frame and its run, named by the caller. */
  lemma FeedParts(handle: LineHandler, buffer: string, t: Table, data: string, f: Framed, r: Run)
    requires f == Frame(buffer + data) && r == HandleLines(handle, t, f.lines)
    ensures FeedWith(handle, buffer, t, data) == Fed(JoinLines(f.lines[r.consumed..]) + f.rest, r.table, r.emitted, r.fault)
  {
  }

  /** `FeedWith` continued from a buffer with `emitted` already reported (the loop's view). */
  function Resume(handle: LineHandler, buffer: string, t: Table, emitted: seq<Event>): Fed
  {
    var f := Frame(buffer);
    var r := HandleLines(handle, t, f.lines);
    Fed(JoinLines(f.lines[r.consumed..]) + f.rest, r.table, emitted + r.emitted, r.fault)
  }

  lemma FeedIsResume(handle: LineHandler, buffer: string, t: Table, data: string)
    ensures FeedWith(handle, buffer, t, data) == Resume(handle, buffer + data, t, [])
  {
    var r := HandleLines(handle, t, Frame(buffer + data).lines);
    assert [] + r.emitted == r.emitted;
  }

  /** A buffer without a newline is left as it is. */
  lemma ResumeDone(handle: LineHandler, buffer: string, t: Table, emitted: seq<Event>)
    requires IndexOf(buffer, '\n') == -1
    ensures Resume(handle, buffer, t, emitted) == Fed(buffer, t, emitted, None)
  {
    assert emitted + [] == emitted;
  }

  /** The first line is handled first, and the rest only when it did not throw. */
  lemma HandleLinesCons(handle: LineHandler, t: Table, line: string, lines: seq<string>)
    ensures var s := handle(t, line);
      HandleLines(handle, t, [line] + lines)
        == if s.fault.Some? then Run(s.table, s.emitted, 1, s.fault)
           else var r := HandleLines(handle, s.table, lines);
             Run(r.table, s.emitted + r.emitted, 1 + r.consumed, r.fault)
  {
    assert ([line] + lines)[0] == line && ([line] + lines)[1..] == lines;
  }

  /** One turn of the framer loop: the first line is handled, and the rest is resumed unless it threw. */
  lemma ResumeStep(handle: LineHandler, buffer: string, t: Table, emitted: seq<Event>, k: int)
    requires k == IndexOf(buffer, '\n') && k != -1
    ensures var s := handle(t, buffer[..k]);
      Resume(handle, buffer, t, emitted)
        == if s.fault.Some? then Fed(buffer[k + 1..], s.table, emitted + s.emitted, s.fault)
           else Resume(handle, buffer[k + 1..], s.table, emitted + s.emitted)
  {
    var line := buffer[..k];
    var g := Frame(buffer[k + 1..]);
    FrameStep(buffer, k);
    var f := Frame(buffer);
    assert f.lines == [line] + g.lines && f.rest == g.rest;
    HandleLinesCons(handle, t, line, g.lines);
    var s := handle(t, line);
    if s.fault.Some? {
      FrameSound(buffer[k + 1..]);
      assert f.lines[1..] == g.lines;
    } else {
      var r := HandleLines(handle, s.table, g.lines);
      assert f.lines[1 + r.consumed..] == g.lines[r.consumed..];
      Associative(emitted, s.emitted, r.emitted);
    }
  }

  /** Keeping the table valid, line by line. */
  lemma HandleLineValid(t: Table, reportAll: bool, line: string)
    requires TableValid(t)
    ensures TableValid(HandleLine(t, reportAll, line).table)
  {
    match MatchPrefix(line, AdapterStatePrefix)
    case Some(_) =>
    case None =>
      match MatchPrefix(line, EventPrefix)
      case Some(text) =>
        var fields := Split(text, ',');
        if |fields| >= 4 && HexDecode(fields[3]).Some? {
          AggregateValid(t, reportAll, fields[1], fields[2], HexDecode(fields[3]).value,
                         if |fields| >= 5 then ParseInt(fields[4]) else None);
        }
      case None =>
  }

  lemma AggregateValid(t: Table, reportAll: bool, address: string, addressType: string, eir: seq<byte>, rssi: Option<int>)
    requires TableValid(t)
    ensures TableValid(Aggregate(t, reportAll, address, addressType, eir, rssi).table)
  {
    var start := StartingPoint(t, address);
    assert NoDuplicates(start.serviceUuids);
    DecodeKeepsNoDuplicates(eir, start);
  }

  // ---------------------------------------------------------------------------
  // The reader object
  // ---------------------------------------------------------------------------

  class HciBle {
    /** Text received after the last complete line. */
    var buffer: string
    /** The per-address discovery table. */
    var discoveries: Table
    /** Report every advertising report, not only every second one. */
    const reportAll: bool

    ghost predicate Valid()
      reads this
    {
      TableValid(discoveries)
    }

    constructor (reportAll: bool)
      ensures this.reportAll == reportAll && buffer == "" && discoveries == map[]
      ensures Valid()
    {
      this.reportAll := reportAll;
      buffer := "";
      discoveries := map[];
    }

    /** One chunk from the helper's standard output. */
    method OnStdoutData(data: string) returns (emitted: seq<Event>, fault: Option<Fault>)
      requires Valid()
      modifies this
      ensures Valid()
      ensures Fed(buffer, discoveries, emitted, fault) == Feed(old(buffer), old(discoveries), reportAll, data)
    {
      FeedIsResume(Router(reportAll), buffer, discoveries, data);
      buffer := buffer + data;
      emitted := [];
      fault := None;
      var newLineIndex := IndexOf(buffer, '\n');
      while newLineIndex != -1
        invariant newLineIndex == IndexOf(buffer, '\n')
        invariant Valid() && fault.None?
        invariant Feed(old(buffer), old(discoveries), reportAll, data) == Resume(Router(reportAll), buffer, discoveries, emitted)
        decreases |buffer|
      {
        var line := buffer[..newLineIndex];
        ResumeStep(Router(reportAll), buffer, discoveries, emitted, newLineIndex);
        HandleLineValid(discoveries, reportAll, line);
        buffer := buffer[newLineIndex + 1..];
        var out, lineFault := ProcessLine(line);
        emitted := emitted + out;
        if lineFault.Some? {
          fault := lineFault;
          return;
        }
        newLineIndex := IndexOf(buffer, '\n');
      }
      ResumeDone(Router(reportAll), buffer, discoveries, emitted);
    }

    /** Routes one complete line. */
    method ProcessLine(line: string) returns (emitted: seq<Event>, fault: Option<Fault>)
      modifies this
      ensures buffer == old(buffer)
      ensures Step(discoveries, emitted, fault) == HandleLine(old(discoveries), reportAll, line)
    {
      var found := MatchPrefix(line, AdapterStatePrefix);
      if found.Some? {
        var adapterState := found.value;
        emitted := [];
        if adapterState == "unauthorized" {
          emitted := emitted + [Warning(AdapterUnauthorized)];
        }
        if adapterState == "unsupported" {
          emitted := emitted + [Warning(AdapterUnsupported)];
        }
        emitted := emitted + [StateChange(adapterState)];
        fault := None;
        return;
      }
      found := MatchPrefix(line, EventPrefix);
      if found.Some? {
        emitted, fault := ProcessEvent(found.value);
      } else {
        emitted, fault := [], None;
      }
    }

    /** An advertising report: `evtType,address,addressType,eirHex,rssi`. */
    method ProcessEvent(event: string) returns (emitted: seq<Event>, fault: Option<Fault>)
      modifies this
      ensures buffer == old(buffer)
      ensures Step(discoveries, emitted, fault) == HandleEvent(old(discoveries), reportAll, event)
    {
      var splitEvent := Split(event, ',');
      if |splitEvent| < 4 {
        return [], Some(MissingEirField);
      }
      var address := splitEvent[1];
      var addressType := splitEvent[2];
      var eir := HexDecode(splitEvent[3]);
      if eir.None? {
        return [], Some(MalformedEirHex);
      }
      var rssi := if |splitEvent| >= 5 then ParseInt(splitEvent[4]) else None;

      var previouslyDiscovered := address in discoveries;
      var advertisement := if previouslyDiscovered then discoveries[address].advertisement else EmptyAdvertisement;
      var discoveryCount := if previouslyDiscovered then discoveries[address].count else 0;
      if discoveryCount % 2 == 0 {
        advertisement := advertisement.(serviceData := [], serviceUuids := []);
      }
      assert advertisement == StartingPoint(discoveries, address);

      var eirFault;
      advertisement, eirFault := DecodeEir(eir.value, advertisement);
      if eirFault.Some? {
        if previouslyDiscovered {
          discoveries := discoveries[address := discoveries[address].(advertisement := advertisement)];
        }
        return [], Some(EirFault(eirFault.value));
      }

      discoveries := discoveries[address := Discovery(address, addressType, advertisement, rssi, discoveryCount + 1)];
      if discoveries[address].count % 2 == 0 || reportAll {
        emitted := [Discover(address, addressType, advertisement, rssi)];
      } else {
        emitted := [];
      }
      fault := None;
    }
  }
}
