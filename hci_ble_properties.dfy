/**
 * What the reader promises about its input stream, its routing of lines and
 * its discovery table, stated over the specification functions of
 * `LinuxHciBle` (which `HciBle.OnStdoutData` is proved to carry out).
 */
module HciBleProperties {
  import opened Wrappers
  import opened Encoding
  import opened Sequences
  import opened Framing
  import opened Eir
  import opened EirProperties
  import opened LinuxHciBle

  // ---------------------------------------------------------------------------
  // The framer, chunk by chunk
  // ---------------------------------------------------------------------------

  /**
   * Nothing is lost or invented: the lines taken off the buffer, each with its
   * newline, followed by the new buffer, are the old buffer followed by the chunk.
   */
  lemma FeedKeepsText(handle: LineHandler, buffer: string, t: Table, data: string)
    ensures var f := Frame(buffer + data);
      var n := HandleLines(handle, t, f.lines).consumed;
      JoinLines(f.lines[..n]) + FeedWith(handle, buffer, t, data).buffer == buffer + data
  {
    var f := Frame(buffer + data);
    var r := HandleLines(handle, t, f.lines);
    FeedParts(handle, buffer, t, data, f, r);
    FrameSound(buffer + data);
    SplitLinesAt(f, r.consumed);
  }

  lemma SplitLinesAt(f: Framed, n: nat)
    requires n <= |f.lines|
    ensures JoinLines(f.lines[..n]) + (JoinLines(f.lines[n..]) + f.rest) == JoinLines(f.lines) + f.rest
  {
    assert f.lines == f.lines[..n] + f.lines[n..];
    JoinLinesConcat(f.lines[..n], f.lines[n..]);
    Associative(JoinLines(f.lines[..n]), JoinLines(f.lines[n..]), f.rest);
  }

  lemma NothingLeftOver(f: Framed, n: nat)
    requires n == |f.lines|
    ensures JoinLines(f.lines[n..]) + f.rest == f.rest
  {
    assert f.lines[n..] == [];
  }

  lemma FrameRestNoNewline(s: string)
    ensures NoNewline(Frame(s).rest)
  {
    FrameSound(s);
  }

  /** After a chunk that does not throw, the buffer holds exactly the unterminated remainder. */
  lemma FeedLeavesNoNewline(handle: LineHandler, buffer: string, t: Table, data: string)
    requires FeedWith(handle, buffer, t, data).fault.None?
    ensures FeedWith(handle, buffer, t, data).buffer == Frame(buffer + data).rest
    ensures NoNewline(FeedWith(handle, buffer, t, data).buffer)
  {
    var f := Frame(buffer + data);
    var r := HandleLines(handle, t, f.lines);
    FeedParts(handle, buffer, t, data, f, r);
    NothingLeftOver(f, r.consumed);
    FrameRestNoNewline(buffer + data);
  }

  /** Text without a newline is only buffered: nothing is reported and the table is untouched. */
  lemma FeedWithoutNewline(handle: LineHandler, buffer: string, t: Table, data: string)
    requires NoNewline(buffer + data)
    ensures FeedWith(handle, buffer, t, data) == Fed(buffer + data, t, [], None)
  {
    FrameNoNewline(buffer + data);
    assert JoinLines([]) + (buffer + data) == buffer + data;
  }

  /** The newline that completes a buffered line hands exactly that line to the handler. */
  lemma FeedNewline(handle: LineHandler, buffer: string, t: Table)
    requires NoNewline(buffer)
    ensures var s := handle(t, buffer);
      FeedWith(handle, buffer, t, "\n") == Fed("", s.table, s.emitted, s.fault)
  {
    assert JoinLines([buffer]) + "" == buffer + "\n" by {
      JoinLinesCons(buffer, []);
      assert [buffer] + [] == [buffer];
    }
    assert AllLines([buffer]);
    FrameUnique([buffer], "");
    HandleLinesCons(handle, t, buffer, []);
    var s := handle(t, buffer);
    assert s.emitted + [] == s.emitted;
    assert [buffer][1..] == [];
  }

  /** The lines of `a + b`: those of `a` first, then, unless one of them threw, those of `b`. */
  lemma {:induction false} HandleLinesConcat(handle: LineHandler, t: Table, a: seq<string>, b: seq<string>)
    requires HandleLines(handle, t, a).fault.None?
    ensures var r1 := HandleLines(handle, t, a);
      var r2 := HandleLines(handle, r1.table, b);
      HandleLines(handle, t, a + b) == Run(r2.table, r1.emitted + r2.emitted, |a| + r2.consumed, r2.fault)
    decreases |a|
  {
    if a == [] {
      assert a + b == b;
      assert [] + HandleLines(handle, t, b).emitted == HandleLines(handle, t, b).emitted;
    } else {
      var s := handle(t, a[0]);
      HandleLinesCons(handle, t, a[0], a[1..]);
      assert [a[0]] + a[1..] == a;
      assert a + b == [a[0]] + (a[1..] + b);
      HandleLinesCons(handle, t, a[0], a[1..] + b);
      HandleLinesConcat(handle, s.table, a[1..], b);
      var r1 := HandleLines(handle, s.table, a[1..]);
      var r2 := HandleLines(handle, r1.table, b);
      Associative(s.emitted, r1.emitted, r2.emitted);
    }
  }

  /** Once a line has thrown, no later line is looked at. */
  lemma {:induction false} HandleLinesStopAtFault(handle: LineHandler, t: Table, a: seq<string>, b: seq<string>)
    requires HandleLines(handle, t, a).fault.Some?
    ensures HandleLines(handle, t, a + b) == HandleLines(handle, t, a)
    decreases |a|
  {
    var s := handle(t, a[0]);
    HandleLinesCons(handle, t, a[0], a[1..]);
    assert [a[0]] + a[1..] == a;
    assert a + b == [a[0]] + (a[1..] + b);
    HandleLinesCons(handle, t, a[0], a[1..] + b);
    if s.fault.None? {
      HandleLinesStopAtFault(handle, s.table, a[1..], b);
    }
  }

  /**
   * When the loop throws, the last line it took off the buffer is the one that
   * threw: every line before it went through, and that line's effect is the
   * loop's last.
   */
  lemma {:induction false} HandleLinesFaultLast(handle: LineHandler, t: Table, lines: seq<string>)
    requires HandleLines(handle, t, lines).fault.Some?
    ensures var r := HandleLines(handle, t, lines);
      var p := HandleLines(handle, t, lines[..r.consumed - 1]);
      var s := handle(p.table, lines[r.consumed - 1]);
      && p.fault.None?
      && s.fault == r.fault && s.table == r.table
      && r.emitted == p.emitted + s.emitted
    decreases |lines|
  {
    var s0 := handle(t, lines[0]);
    if s0.fault.Some? {
      assert lines[..0] == [];
    } else {
      var rest := lines[1..];
      HandleLinesFaultLast(handle, s0.table, rest);
      var r1 := HandleLines(handle, s0.table, rest);
      var p1 := HandleLines(handle, s0.table, rest[..r1.consumed - 1]);
      var s := handle(p1.table, rest[r1.consumed - 1]);
      assert lines[..r1.consumed] == [lines[0]] + rest[..r1.consumed - 1];
      HandleLinesCons(handle, t, lines[0], rest[..r1.consumed - 1]);
      assert lines[r1.consumed] == rest[r1.consumed - 1];
      Associative(s0.emitted, p1.emitted, s.emitted);
    }
  }

  /**
   * How the stream is cut into chunks does not matter: two chunks, the first
   * of which does not throw, have the effect of their concatenation.
   */
  lemma FeedChunks(handle: LineHandler, buffer: string, t: Table, d1: string, d2: string)
    requires FeedWith(handle, buffer, t, d1).fault.None?
    ensures var r1 := FeedWith(handle, buffer, t, d1);
      var r2 := FeedWith(handle, r1.buffer, r1.table, d2);
      var r := FeedWith(handle, buffer, t, d1 + d2);
      r.buffer == r2.buffer && r.table == r2.table && r.emitted == r1.emitted + r2.emitted && r.fault == r2.fault
  {
    FirstChunk(handle, buffer, t, d1);
    var f1 := Frame(buffer + d1);
    WholeChunk(handle, buffer, t, d1, d2, f1, HandleLines(handle, t, f1.lines));
  }

  lemma FirstChunk(handle: LineHandler, buffer: string, t: Table, d1: string)
    requires FeedWith(handle, buffer, t, d1).fault.None?
    ensures var h1 := HandleLines(handle, t, Frame(buffer + d1).lines);
      FeedWith(handle, buffer, t, d1) == Fed(Frame(buffer + d1).rest, h1.table, h1.emitted, None)
  {
    var f1 := Frame(buffer + d1);
    var h1 := HandleLines(handle, t, f1.lines);
    FeedParts(handle, buffer, t, d1, f1, h1);
    NothingLeftOver(f1, h1.consumed);
  }

  lemma WholeChunk(handle: LineHandler, buffer: string, t: Table, d1: string, d2: string, f1: Framed, h1: Run)
    requires f1 == Frame(buffer + d1) && h1 == HandleLines(handle, t, f1.lines) && h1.fault.None?
    ensures var r2 := FeedWith(handle, f1.rest, h1.table, d2);
      FeedWith(handle, buffer, t, d1 + d2) == Fed(r2.buffer, r2.table, h1.emitted + r2.emitted, r2.fault)
  {
    var g := Frame(f1.rest + d2);
    var h2 := HandleLines(handle, h1.table, g.lines);
    FeedParts(handle, f1.rest, h1.table, d2, g, h2);
    var f := Frame(buffer + (d1 + d2));
    Associative(buffer, d1, d2);
    ChunkedFrame(buffer + d1, d2, buffer + (d1 + d2));
    var h := HandleLines(handle, t, f.lines);
    FeedParts(handle, buffer, t, d1 + d2, f, h);
    CombineRuns(handle, t, f1, h1, g, h2, f, h);
  }

  /** The bookkeeping of `FeedChunks`, on the frames and runs alone. */
  lemma CombineRuns(handle: LineHandler, t: Table, f1: Framed, h1: Run, g: Framed, h2: Run, f: Framed, h: Run)
    requires h1 == HandleLines(handle, t, f1.lines) && h1.fault.None?
    requires h2 == HandleLines(handle, h1.table, g.lines)
    requires f.lines == f1.lines + g.lines && f.rest == g.rest
    requires h == HandleLines(handle, t, f.lines)
    ensures h.table == h2.table && h.emitted == h1.emitted + h2.emitted && h.fault == h2.fault
    ensures JoinLines(f.lines[h.consumed..]) + f.rest == JoinLines(g.lines[h2.consumed..]) + g.rest
  {
    HandleLinesConcat(handle, t, f1.lines, g.lines);
    assert f.lines[h.consumed..] == g.lines[h2.consumed..];
  }

  lemma ChunkedFrame(s: string, d: string, whole: string)
    requires whole == s + d
    ensures Frame(whole).lines == Frame(s).lines + Frame(Frame(s).rest + d).lines
    ensures Frame(whole).rest == Frame(Frame(s).rest + d).rest
  {
    FrameAppend(s, d);
  }

  /** The table stays valid over any chunk. */
  lemma {:induction false} HandleLinesValid(reportAll: bool, t: Table, lines: seq<string>)
    requires TableValid(t)
    ensures TableValid(HandleLines(Router(reportAll), t, lines).table)
    decreases |lines|
  {
    if lines != [] {
      HandleLineValid(t, reportAll, lines[0]);
      HandleLinesValid(reportAll, HandleLine(t, reportAll, lines[0]).table, lines[1..]);
    }
  }

  lemma FeedValid(buffer: string, t: Table, reportAll: bool, data: string)
    requires TableValid(t)
    ensures TableValid(Feed(buffer, t, reportAll, data).table)
  {
    var f := Frame(buffer + data);
    var r := HandleLines(Router(reportAll), t, f.lines);
    FeedParts(Router(reportAll), buffer, t, data, f, r);
    HandleLinesValid(reportAll, t, f.lines);
  }

  // ---------------------------------------------------------------------------
  // The router
  // ---------------------------------------------------------------------------

  predicate StartsWith(line: string, prefix: string)
  {
    |prefix| <= |line| && line[..|prefix|] == prefix
  }

  /** The pattern `^<prefix>(.*)$` matches exactly the prefix followed by text without a line terminator. */
  lemma MatchPrefixOf(prefix: string, s: string)
    ensures MatchPrefix(prefix + s, prefix) == if NoTerminator(s) then Some(s) else None
  {
    var line := prefix + s;
    assert line[..|prefix|] == prefix;
    assert line[|prefix|..] == s;
  }

  /** A line that starts with neither keyword has no effect at all. */
  lemma OtherLinesIgnored(t: Table, reportAll: bool, line: string)
    requires !StartsWith(line, AdapterStatePrefix) && !StartsWith(line, EventPrefix)
    ensures HandleLine(t, reportAll, line) == Step(t, [], None)
  {
  }

  /** Only the two line kinds have any effect; in particular only `event` lines touch the table. */
  lemma OnlyKnownLinesAct(t: Table, reportAll: bool, line: string)
    ensures var s := HandleLine(t, reportAll, line);
      && (s != Step(t, [], None) ==> MatchPrefix(line, AdapterStatePrefix).Some? || MatchPrefix(line, EventPrefix).Some?)
      && (s.table != t || s.fault.Some? ==> MatchPrefix(line, AdapterStatePrefix).None? && MatchPrefix(line, EventPrefix).Some?)
  {
  }

  /**
   * An `adapterState` line reports its text verbatim, as exactly one state
   * change preceded only by warnings, and leaves the table alone.
   */
  lemma StateLine(t: Table, reportAll: bool, state: string)
    requires NoTerminator(state)
    ensures var s := HandleLine(t, reportAll, AdapterStatePrefix + state);
      && s == Step(t, DiagnosticsFor(state) + [StateChange(state)], None)
      && s.emitted[|s.emitted| - 1] == StateChange(state)
      && forall k | 0 <= k < |s.emitted| - 1 :: s.emitted[k].Warning?
  {
    MatchPrefixOf(AdapterStatePrefix, state);
    var w := DiagnosticsFor(state);
    forall k | 0 <= k < |w + [StateChange(state)]| - 1 ensures (w + [StateChange(state)])[k].Warning? {
      assert (w + [StateChange(state)])[k] == w[k];
    }
  }

  /** `adapterState unauthorized` surfaces exactly one warning alongside the state change. */
  lemma UnauthorizedExample(t: Table, reportAll: bool)
    ensures HandleLine(t, reportAll, "adapterState unauthorized")
      == Step(t, [Warning(AdapterUnauthorized), StateChange("unauthorized")], None)
  {
    assert "adapterState unauthorized" == AdapterStatePrefix + "unauthorized";
    StateLine(t, reportAll, "unauthorized");
  }

  /** `.` does not match a carriage return, so a CRLF-terminated state line is dropped, whatever the state. */
  lemma CarriageReturnLineIgnored(t: Table, reportAll: bool, state: string)
    ensures HandleLine(t, reportAll, AdapterStatePrefix + state + "\r") == Step(t, [], None)
  {
    var line := AdapterStatePrefix + state + "\r";
    Associative(AdapterStatePrefix, state, "\r");
    MatchPrefixOf(AdapterStatePrefix, state + "\r");
    assert LineTerminator((state + "\r")[|state|]);
    assert line[..|EventPrefix|][0] != EventPrefix[0];
  }

  /** The same for one concrete line. */
  lemma CarriageReturnExample(t: Table, reportAll: bool)
    ensures HandleLine(t, reportAll, "adapterState poweredOn\r") == Step(t, [], None)
  {
    assert "adapterState poweredOn\r" == AdapterStatePrefix + "poweredOn" + "\r";
    CarriageReturnLineIgnored(t, reportAll, "poweredOn");
  }

  /** An `event` line hands the text after the keyword to the report handler. */
  lemma EventLine(t: Table, reportAll: bool, text: string)
    requires NoTerminator(text)
    ensures HandleLine(t, reportAll, EventPrefix + text) == HandleEvent(t, reportAll, text)
  {
    MatchPrefixOf(EventPrefix, text);
    var line := EventPrefix + text;
    if |AdapterStatePrefix| <= |line| {
      assert line[..|AdapterStatePrefix|][0] != AdapterStatePrefix[0];
    }
  }

  /** The text up to the first separator is the first part, and the text is that part, the separator and the rest. */
  lemma SplitStep(s: string, sep: char, k: int)
    requires k == IndexOf(s, sep) && k != -1
    ensures Split(s, sep) == [s[..k]] + Split(s[k + 1..], sep)
    ensures s == s[..k] + [sep] + s[k + 1..]
  {
    assert s[k] == sep;
    CutAt(s, k);
  }

  lemma CutAt(s: string, k: nat)
    requires k < |s|
    ensures s == s[..k] + [s[k]] + s[k + 1..]
  {
    assert s[..k] + [s[k]] == s[..k + 1];
  }

  lemma JoinCons(part: string, parts: seq<string>, sep: char)
    requires |parts| >= 1
    ensures Join([part] + parts, sep) == part + [sep] + Join(parts, sep)
  {
    assert ([part] + parts)[1..] == parts;
  }

  /** Splitting loses nothing: joining the parts again gives back the text. */
  lemma {:induction false} SplitJoin(s: string, sep: char)
    ensures Join(Split(s, sep), sep) == s
    decreases |s|
  {
    var k := IndexOf(s, sep);
    if k != -1 {
      SplitStep(s, sep, k);
      var rest := Split(s[k + 1..], sep);
      SplitJoin(s[k + 1..], sep);
      JoinCons(s[..k], rest, sep);
    }
  }

  /** Parts without the separator are exactly what splitting their join gives back. */
  lemma {:induction false} JoinSplit(parts: seq<string>, sep: char)
    requires |parts| >= 1 && forall k | 0 <= k < |parts| :: sep !in parts[k]
    ensures Split(Join(parts, sep), sep) == parts
    decreases |parts|
  {
    var p := parts[0];
    if |parts| == 1 {
      assert IndexOf(p, sep) == -1;
    } else {
      var tail := Join(parts[1..], sep);
      var s := p + [sep] + tail;
      assert Join(parts, sep) == s;
      assert s[|p|] == sep && s[..|p|] == p;
      assert IndexOf(s, sep) == |p| by {
        forall j | 0 <= j < |p| ensures s[j] != sep {
          assert s[j] == p[j];
        }
        IndexOfAt(s, sep, |p|);
      }
      assert s[|p| + 1..] == tail;
      JoinSplit(parts[1..], sep);
      assert [p] + parts[1..] == parts;
    }
  }

  /** A field of the report line: no comma and no line terminator. */
  predicate Plain(s: string)
  {
    ',' !in s && NoTerminator(s)
  }

  /** The report's five fields reach the aggregator as the EIR bytes and the RSSI, or a hex fault. */
  lemma EventFields(t: Table, reportAll: bool, evtType: string, address: string, addressType: string, eirHex: string, rssi: string)
    requires Plain(evtType) && Plain(address) && Plain(addressType) && Plain(eirHex) && Plain(rssi)
    ensures HandleEvent(t, reportAll, Join([evtType, address, addressType, eirHex, rssi], ','))
      == match HexDecode(eirHex)
         case None => Step(t, [], Some(MalformedEirHex))
         case Some(eir) => Aggregate(t, reportAll, address, addressType, eir, ParseInt(rssi))
  {
    var fs := [evtType, address, addressType, eirHex, rssi];
    FiveFieldsSplit(fs);
    HandleEventOfFields(t, reportAll, Join(fs, ','), fs);
  }

  lemma FiveFieldsSplit(fs: seq<string>)
    requires |fs| == 5 && Plain(fs[0]) && Plain(fs[1]) && Plain(fs[2]) && Plain(fs[3]) && Plain(fs[4])
    ensures Split(Join(fs, ','), ',') == fs
  {
    forall k | 0 <= k < |fs| ensures ',' !in fs[k] {
      assert Plain(fs[k]);
    }
    JoinSplit(fs, ',');
  }

  /** The report handler reads the EIR hex from the fourth field and the RSSI from the fifth. */
  lemma HandleEventOfFields(t: Table, reportAll: bool, text: string, fs: seq<string>)
    requires Split(text, ',') == fs && |fs| == 5
    ensures HandleEvent(t, reportAll, text)
      == match HexDecode(fs[3])
         case None => Step(t, [], Some(MalformedEirHex))
         case Some(eir) => Aggregate(t, reportAll, fs[1], fs[2], eir, ParseInt(fs[4]))
  {
  }

  /** A report with fewer than four fields throws and changes nothing. */
  lemma ShortEventThrows(t: Table, reportAll: bool, text: string)
    requires |Split(text, ',')| < 4
    ensures HandleEvent(t, reportAll, text) == Step(t, [], Some(MissingEirField))
  {
  }

  lemma PlainHex(bs: seq<byte>)
    ensures Plain(HexEncode(bs))
  {
    HexEncodeDigits(bs);
    var s := HexEncode(bs);
    forall k | 0 <= k < |s| ensures s[k] != ',' && !LineTerminator(s[k]) {
      assert HexValue(s[k]).Some?;
    }
  }

  lemma PlainDecimal(n: int)
    ensures Plain(Decimal(n))
  {
    DecimalChars(n);
    var s := Decimal(n);
    forall k | 0 <= k < |s| ensures s[k] != ',' && !LineTerminator(s[k]) {
      assert s[k] == '-' || IsDigit(s[k]);
    }
  }

  /**
   * End to end: a report line as the helper prints it (lower-case hex EIR and
   * a decimal RSSI) is merged with exactly its address, address type, EIR bytes
   * and RSSI.
   */
  lemma ReportLine(t: Table, reportAll: bool, evtType: string, address: string, addressType: string, eir: seq<byte>, rssi: int)
    requires Plain(evtType) && Plain(address) && Plain(addressType)
    ensures var text := Join([evtType, address, addressType, HexEncode(eir), Decimal(rssi)], ',');
      HandleLine(t, reportAll, EventPrefix + text) == Aggregate(t, reportAll, address, addressType, eir, Some(rssi))
  {
    var hex := HexEncode(eir);
    var dec := Decimal(rssi);
    PlainHex(eir);
    PlainDecimal(rssi);
    var text := Join([evtType, address, addressType, hex, dec], ',');
    assert NoTerminator(text) by {
      JoinNoTerminator([evtType, address, addressType, hex, dec], ',');
    }
    EventLine(t, reportAll, text);
    EventFields(t, reportAll, evtType, address, addressType, hex, dec);
    HexDecodeEncode(eir);
    ParseIntDecimal(rssi, []);
    assert dec + [] == dec;
  }

  lemma {:induction false} JoinNoTerminator(parts: seq<string>, sep: char)
    requires |parts| >= 1 && !LineTerminator(sep)
    requires forall k | 0 <= k < |parts| :: NoTerminator(parts[k])
    ensures NoTerminator(Join(parts, sep))
    decreases |parts|
  {
    if |parts| > 1 {
      JoinNoTerminator(parts[1..], sep);
      var head := parts[0] + [sep];
      var rest := Join(parts[1..], sep);
      forall k | 0 <= k < |head + rest| ensures !LineTerminator((head + rest)[k]) {
        if k < |parts[0]| {
          assert (head + rest)[k] == parts[0][k];
        } else if k >= |head| {
          assert (head + rest)[k] == rest[k - |head|];
        }
      }
    }
  }

  // ---------------------------------------------------------------------------
  // The aggregator
  // ---------------------------------------------------------------------------

  /**
   * A report that does not throw bumps the address's count, records its RSSI
   * and address type, leaves every other address alone, and reports the device
   * exactly when the new count is even or every report is to be reported.
   */
  lemma AggregateRecords(t: Table, reportAll: bool, address: string, addressType: string, eir: seq<byte>, rssi: Option<int>)
    requires Aggregate(t, reportAll, address, addressType, eir, rssi).fault.None?
    ensures var s := Aggregate(t, reportAll, address, addressType, eir, rssi);
      var count := PriorCount(t, address);
      && s.table.Keys == t.Keys + {address}
      && (forall a | a in t && a != address :: s.table[a] == t[a])
      && s.table[address].address == address
      && s.table[address].addressType == addressType
      && s.table[address].rssi == rssi
      && s.table[address].count == count + 1
      && (s.emitted != [] <==> (count + 1) % 2 == 0 || reportAll)
      && (s.emitted != [] ==> s.emitted == [Discover(address, addressType, s.table[address].advertisement, rssi)])
  {
  }

  /**
   * A report that throws reports nothing and keeps every count, RSSI and
   * address type; only the advertisement of an address already seen may have
   * been partly updated.
   */
  lemma AggregateOnFault(t: Table, reportAll: bool, address: string, addressType: string, eir: seq<byte>, rssi: Option<int>)
    requires Aggregate(t, reportAll, address, addressType, eir, rssi).fault.Some?
    ensures var s := Aggregate(t, reportAll, address, addressType, eir, rssi);
      && s.emitted == []
      && s.table.Keys == t.Keys
      && (forall a | a in t && a != address :: s.table[a] == t[a])
      && (address in t ==> s.table[address] == t[address].(advertisement := s.table[address].advertisement))
  {
  }

  /** A report throws exactly when one of the AD structures the pass visits is malformed. */
  lemma AggregateFaults(t: Table, reportAll: bool, address: string, addressType: string, eir: seq<byte>, rssi: Option<int>)
    ensures var rs := RecordsFrom(eir, 0);
      (Aggregate(t, reportAll, address, addressType, eir, rssi).fault.Some?)
        <==> exists k | 0 <= k < |rs| :: Malformed(rs[k].adType, rs[k].payload)
  {
    ApplyAllFaults(StartingPoint(t, address), RecordsFrom(eir, 0));
  }

  /**
   * The first report of a pair (prior count even, a new address included)
   * starts the UUID and Service Data lists afresh: they hold only what this
   * report's EIR carries.
   */
  lemma PairStarts(t: Table, reportAll: bool, address: string, addressType: string, eir: seq<byte>, rssi: Option<int>)
    requires PriorCount(t, address) % 2 == 0
    requires Aggregate(t, reportAll, address, addressType, eir, rssi).fault.None?
    ensures var adv := Aggregate(t, reportAll, address, addressType, eir, rssi).table[address].advertisement;
      var rs := RecordsFrom(eir, 0);
      adv.serviceUuids == AddUuids([], UuidsOf(rs)) && adv.serviceData == ServiceEntries(rs)
  {
    var start := StartingPoint(t, address);
    var rs := RecordsFrom(eir, 0);
    ApplyAllUuids(start, rs);
    ApplyAllServiceData(start, rs);
    assert [] + ServiceEntries(rs) == ServiceEntries(rs);
  }

  /** The second report of a pair extends the lists the first one left. */
  lemma PairContinues(t: Table, reportAll: bool, address: string, addressType: string, eir: seq<byte>, rssi: Option<int>)
    requires PriorCount(t, address) % 2 == 1
    requires Aggregate(t, reportAll, address, addressType, eir, rssi).fault.None?
    ensures address in t
    ensures var adv := Aggregate(t, reportAll, address, addressType, eir, rssi).table[address].advertisement;
      var prev := t[address].advertisement;
      var rs := RecordsFrom(eir, 0);
      adv.serviceUuids == AddUuids(prev.serviceUuids, UuidsOf(rs))
      && adv.serviceData == prev.serviceData + ServiceEntries(rs)
  {
    var rs := RecordsFrom(eir, 0);
    ApplyAllUuids(t[address].advertisement, rs);
    ApplyAllServiceData(t[address].advertisement, rs);
  }

  /**
   * The name, Tx power and manufacturer data are never cleared: they keep the
   * value of the last structure that sets them, in this report or before it.
   */
  lemma ScalarFieldsCarryOver(t: Table, reportAll: bool, address: string, addressType: string, eir: seq<byte>, rssi: Option<int>)
    requires Aggregate(t, reportAll, address, addressType, eir, rssi).fault.None?
    ensures var adv := Aggregate(t, reportAll, address, addressType, eir, rssi).table[address].advertisement;
      var prev := if address in t then t[address].advertisement else EmptyAdvertisement;
      var rs := RecordsFrom(eir, 0);
      && adv.localName == LastSet(rs, prev.localName, NameOf)
      && adv.txPowerLevel == LastSet(rs, prev.txPowerLevel, TxPowerOf)
      && adv.manufacturerData == LastSet(rs, prev.manufacturerData, ManufacturerDataOf)
  {
    ApplyAllLastWriteWins(StartingPoint(t, address), RecordsFrom(eir, 0));
  }

  /**
   * The reset makes the lists after the first report of a pair independent of
   * everything that came before: two tables in which the address is at an even
   * count give the same lists and the same outcome.
   */
  lemma PairStartForgets(t1: Table, t2: Table, reportAll: bool, address: string, addressType: string, eir: seq<byte>, rssi: Option<int>)
    requires PriorCount(t1, address) % 2 == 0 && PriorCount(t2, address) % 2 == 0
    ensures var s1 := Aggregate(t1, reportAll, address, addressType, eir, rssi);
      var s2 := Aggregate(t2, reportAll, address, addressType, eir, rssi);
      && s1.fault == s2.fault
      && (s1.fault.None? ==>
          && s1.table[address].advertisement.serviceUuids == s2.table[address].advertisement.serviceUuids
          && s1.table[address].advertisement.serviceData == s2.table[address].advertisement.serviceData)
  {
    ApplyAllListsIndependent(StartingPoint(t1, address), StartingPoint(t2, address), RecordsFrom(eir, 0));
  }

  /**
   * Two reports for a new address, not reporting every report: the first is
   * held back, the second reports the device once, with the second RSSI and
   * the lists of both reports merged.
   */
  lemma TwoReportsMerge(t: Table, address: string, type1: string, eir1: seq<byte>, rssi1: Option<int>,
                        type2: string, eir2: seq<byte>, rssi2: Option<int>)
    requires address !in t
    requires Aggregate(t, false, address, type1, eir1, rssi1).fault.None?
    requires Aggregate(Aggregate(t, false, address, type1, eir1, rssi1).table, false, address, type2, eir2, rssi2).fault.None?
    ensures var s1 := Aggregate(t, false, address, type1, eir1, rssi1);
      var s2 := Aggregate(s1.table, false, address, type2, eir2, rssi2);
      var adv := s2.table[address].advertisement;
      var rs1 := RecordsFrom(eir1, 0);
      var rs2 := RecordsFrom(eir2, 0);
      && s1.emitted == []
      && s2.emitted == [Discover(address, type2, adv, rssi2)]
      && s2.table[address].count == 2
      && s2.table[address].rssi == rssi2
      && adv.serviceUuids == AddUuids(AddUuids([], UuidsOf(rs1)), UuidsOf(rs2))
      && adv.serviceData == ServiceEntries(rs1) + ServiceEntries(rs2)
  {
    var s1 := Aggregate(t, false, address, type1, eir1, rssi1);
    AggregateRecords(t, false, address, type1, eir1, rssi1);
    PairStarts(t, false, address, type1, eir1, rssi1);
    AggregateRecords(s1.table, false, address, type2, eir2, rssi2);
    PairContinues(s1.table, false, address, type2, eir2, rssi2);
  }
}
