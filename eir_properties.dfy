/**
 * What one decoding pass does to an advertisement, stated against reference
 * definitions that do not follow the loop: which fields a pass sets and to
 * what, when it faults, and that a buffer built from well-formed records is
 * read back record for record, whatever follows a terminating byte.
 */
module EirProperties {
  import opened Wrappers
  import opened Encoding
  import opened Eir
  import opened Sequences

  // ---------------------------------------------------------------------------
  // Reference definitions over the visited records
  // ---------------------------------------------------------------------------

  /** Every UUID the records list, record by record, in payload order. */
  function UuidsOf(rs: seq<Record>): seq<string>
  {
    if rs == [] then [] else UuidsIn(rs[0].adType, rs[0].payload) + UuidsOf(rs[1..])
  }

  /** The Service Data entries of the records, in record order. */
  function ServiceEntries(rs: seq<Record>): seq<ServiceDataEntry>
  {
    if rs == [] then [] else EntriesIn(rs[0].adType, rs[0].payload) + ServiceEntries(rs[1..])
  }

  /** The value the LAST record for which `sel` gives one supplies, or `init` if none does. */
  function LastSet<T>(rs: seq<Record>, init: Option<T>, sel: Record -> Option<T>): Option<T>
    decreases |rs|
  {
    if rs == [] then init
    else if sel(rs[|rs| - 1]).Some? then sel(rs[|rs| - 1])
    else LastSet(rs[..|rs| - 1], init, sel)
  }

  function NameOf(r: Record): Option<seq<byte>>
  {
    if r.adType == ShortenedLocalName || r.adType == CompleteLocalName then Some(r.payload) else None
  }

  function TxPowerOf(r: Record): Option<int>
  {
    if r.adType == TxPowerLevel && r.payload != [] then Some(Int8(r.payload[0])) else None
  }

  function ManufacturerDataOf(r: Record): Option<seq<byte>>
  {
    if r.adType == ManufacturerSpecificData then Some(r.payload) else None
  }

  lemma {:induction false} LastSetFirst<T>(r: Record, rest: seq<Record>, init: Option<T>, sel: Record -> Option<T>)
    ensures LastSet([r] + rest, init, sel) == LastSet(rest, if sel(r).Some? then sel(r) else init, sel)
    decreases |rest|
  {
    var rs := [r] + rest;
    if rest != [] {
      assert rs[|rs| - 1] == rest[|rest| - 1];
      assert rs[..|rs| - 1] == [r] + rest[..|rest| - 1];
      LastSetFirst(r, rest[..|rest| - 1], init, sel);
    } else {
      assert rs[..|rs| - 1] == [];
    }
  }

  // ---------------------------------------------------------------------------
  // What a pass does
  // ---------------------------------------------------------------------------

  /**
   * On every pass, faulting or not: `serviceUuids` and `serviceData` only grow
   * at the end, and `serviceUuids` gains no duplicate.
   */
  lemma {:induction false} ApplyAllExtends(adv: Advertisement, rs: seq<Record>)
    ensures var a := ApplyAll(adv, rs).adv;
      && |adv.serviceUuids| <= |a.serviceUuids| && a.serviceUuids[..|adv.serviceUuids|] == adv.serviceUuids
      && |adv.serviceData| <= |a.serviceData| && a.serviceData[..|adv.serviceData|] == adv.serviceData
      && (NoDuplicates(adv.serviceUuids) ==> NoDuplicates(a.serviceUuids))
    decreases |rs|
  {
    if rs != [] {
      var first := ApplyRecord(adv, rs[0].adType, rs[0].payload);
      AddUuidsExtends(adv.serviceUuids, UuidsIn(rs[0].adType, rs[0].payload));
      if NoDuplicates(adv.serviceUuids) {
        AddUuidsNoDuplicates(adv.serviceUuids, UuidsIn(rs[0].adType, rs[0].payload));
      }
      if first.fault.None? {
        ApplyAllExtends(first.adv, rs[1..]);
        var a := ApplyAll(first.adv, rs[1..]).adv;
        assert a.serviceUuids[..|adv.serviceUuids|] == a.serviceUuids[..|first.adv.serviceUuids|][..|adv.serviceUuids|];
        assert a.serviceData[..|adv.serviceData|] == a.serviceData[..|first.adv.serviceData|][..|adv.serviceData|];
      }
    }
  }

  /** A pass that does not fault appends to `serviceUuids` every listed UUID not yet present. */
  lemma {:induction false} ApplyAllUuids(adv: Advertisement, rs: seq<Record>)
    requires ApplyAll(adv, rs).fault.None?
    ensures ApplyAll(adv, rs).adv.serviceUuids == AddUuids(adv.serviceUuids, UuidsOf(rs))
    decreases |rs|
  {
    if rs != [] {
      var r := rs[0];
      var first := ApplyRecord(adv, r.adType, r.payload);
      ApplyAllUuids(first.adv, rs[1..]);
      AddUuidsConcat(adv.serviceUuids, UuidsIn(r.adType, r.payload), UuidsOf(rs[1..]));
    }
  }

  /** A pass that does not fault appends every Service Data entry, in record order. */
  lemma {:induction false} ApplyAllServiceData(adv: Advertisement, rs: seq<Record>)
    requires ApplyAll(adv, rs).fault.None?
    ensures ApplyAll(adv, rs).adv.serviceData == adv.serviceData + ServiceEntries(rs)
    decreases |rs|
  {
    if rs == [] {
      assert adv.serviceData + [] == adv.serviceData;
    } else {
      var r := rs[0];
      var first := ApplyRecord(adv, r.adType, r.payload);
      assert first.fault.None? && ApplyAll(adv, rs) == ApplyAll(first.adv, rs[1..]);
      ApplyAllServiceData(first.adv, rs[1..]);
      Associative(adv.serviceData, EntriesIn(r.adType, r.payload), ServiceEntries(rs[1..]));
    }
  }

  /**
   * A pass that does not fault leaves `localName`, `txPowerLevel` and
   * `manufacturerData` at the value of the last record that sets them (last
   * write wins), and at their old value if no record does.
   */
  lemma {:induction false} ApplyAllLastWriteWins(adv: Advertisement, rs: seq<Record>)
    requires ApplyAll(adv, rs).fault.None?
    ensures var a := ApplyAll(adv, rs).adv;
      && a.localName == LastSet(rs, adv.localName, NameOf)
      && a.txPowerLevel == LastSet(rs, adv.txPowerLevel, TxPowerOf)
      && a.manufacturerData == LastSet(rs, adv.manufacturerData, ManufacturerDataOf)
    decreases |rs|
  {
    if rs != [] {
      var r := rs[0];
      var first := ApplyRecord(adv, r.adType, r.payload);
      assert rs == [r] + rs[1..];
      ApplyAllLastWriteWins(first.adv, rs[1..]);
      LastSetFirst(r, rs[1..], adv.localName, NameOf);
      LastSetFirst(r, rs[1..], adv.txPowerLevel, TxPowerOf);
      LastSetFirst(r, rs[1..], adv.manufacturerData, ManufacturerDataOf);
    }
  }

  /** A pass faults exactly when it visits a malformed record. */
  lemma {:induction false} ApplyAllFaults(adv: Advertisement, rs: seq<Record>)
    ensures ApplyAll(adv, rs).fault.Some? <==> exists k | 0 <= k < |rs| :: Malformed(rs[k].adType, rs[k].payload)
    decreases |rs|
  {
    if rs != [] {
      var first := ApplyRecord(adv, rs[0].adType, rs[0].payload);
      if first.fault.None? {
        ApplyAllFaults(first.adv, rs[1..]);
        if exists k | 0 <= k < |rs| :: Malformed(rs[k].adType, rs[k].payload) {
          var k :| 0 <= k < |rs| && Malformed(rs[k].adType, rs[k].payload);
          assert k > 0 && rs[1..][k - 1] == rs[k];
        }
        if exists k | 0 <= k < |rs[1..]| :: Malformed(rs[1..][k].adType, rs[1..][k].payload) {
          var k :| 0 <= k < |rs[1..]| && Malformed(rs[1..][k].adType, rs[1..][k].payload);
          assert rs[k + 1] == rs[1..][k];
        }
      }
    }
  }

  /**
   * A fault ends the pass: the first malformed record is applied as far as the
   * source gets before throwing, and no later record is applied.
   */
  lemma {:induction false} ApplyAllStopsAtFault(adv: Advertisement, rs: seq<Record>, k: nat)
    requires k < |rs| && Malformed(rs[k].adType, rs[k].payload)
    requires forall j | 0 <= j < k :: !Malformed(rs[j].adType, rs[j].payload)
    ensures ApplyAll(adv, rs[..k]).fault.None?
    ensures ApplyAll(adv, rs) == ApplyRecord(ApplyAll(adv, rs[..k]).adv, rs[k].adType, rs[k].payload)
    decreases k
  {
    var first := ApplyRecord(adv, rs[0].adType, rs[0].payload);
    if k > 0 {
      assert rs[..k][0] == rs[0] && rs[..k][1..] == rs[1..][..k - 1];
      ApplyAllStopsAtFault(first.adv, rs[1..], k - 1);
    } else {
      assert rs[..k] == [];
    }
  }

  /**
   * The pass reads only `serviceUuids` and `serviceData` of the advertisement it
   * starts from when it computes those two lists and its fault.
   */
  lemma {:induction false} ApplyAllListsIndependent(a: Advertisement, b: Advertisement, rs: seq<Record>)
    requires a.serviceUuids == b.serviceUuids && a.serviceData == b.serviceData
    ensures ApplyAll(a, rs).adv.serviceUuids == ApplyAll(b, rs).adv.serviceUuids
    ensures ApplyAll(a, rs).adv.serviceData == ApplyAll(b, rs).adv.serviceData
    ensures ApplyAll(a, rs).fault == ApplyAll(b, rs).fault
    decreases |rs|
  {
    if rs != [] {
      ApplyAllListsIndependent(ApplyRecord(a, rs[0].adType, rs[0].payload).adv,
                               ApplyRecord(b, rs[0].adType, rs[0].payload).adv, rs[1..]);
    }
  }

  /** Decoding a buffer keeps `serviceUuids` free of duplicates. */
  lemma DecodeKeepsNoDuplicates(eir: seq<byte>, adv: Advertisement)
    requires NoDuplicates(adv.serviceUuids)
    ensures NoDuplicates(Decode(eir, adv).adv.serviceUuids)
  {
    ApplyAllExtends(adv, RecordsFrom(eir, 0));
  }

  // ---------------------------------------------------------------------------
  // Buffers built from records
  // ---------------------------------------------------------------------------

  /** An AD structure: a type and its data. */
  datatype AdStructure = AdStructure(adType: byte, data: seq<byte>)

  /** Data short enough for the length byte (which counts the type byte too). */
  predicate Encodable(ss: seq<AdStructure>)
  {
    forall k | 0 <= k < |ss| :: |ss[k].data| <= 254
  }

  /** The advertising-data layout: length (type plus data), type, data; for each structure in turn. */
  function Serialize(ss: seq<AdStructure>): seq<byte>
    requires Encodable(ss)
  {
    if ss == [] then []
    else
      assert Encodable(ss[1..]) by {
        forall k | 0 <= k < |ss[1..]| ensures |ss[1..][k].data| <= 254 {
          assert ss[1..][k] == ss[k + 1];
        }
      }
      [|ss[0].data| + 1, ss[0].adType] + ss[0].data + Serialize(ss[1..])
  }

  /** The structures, placed one after another from offset `off`. */
  function Placed(ss: seq<AdStructure>, off: nat): seq<Record>
  {
    if ss == [] then [] else [Record(off, ss[0].adType, ss[0].data)] + Placed(ss[1..], off + |ss[0].data| + 2)
  }

  function Structures(rs: seq<Record>): seq<AdStructure>
  {
    seq(|rs|, k requires 0 <= k < |rs| => AdStructure(rs[k].adType, rs[k].payload))
  }

  /** Bytes at which the pass stops: fewer than two, a zero length, or a length past the end. */
  predicate EndsPass(tail: seq<byte>)
  {
    |tail| < 2 || tail[0] == 0 || tail[0] + 1 > |tail|
  }

  /** A well-formed record at offset `|pre|` is visited, and the pass goes on right after it. */
  lemma RecordAt(eir: seq<byte>, i: nat, s: AdStructure)
    requires |s.data| <= 254 && i + |s.data| + 2 <= |eir|
    requires eir[i] == |s.data| + 1 && eir[i + 1] == s.adType && eir[i + 2 .. i + |s.data| + 2] == s.data
    ensures RecordsFrom(eir, i) == [Record(i, s.adType, s.data)] + RecordsFrom(eir, i + |s.data| + 2)
  {
  }

  /** Where an encoded structure sits in a buffer: its length byte, type byte and data. */
  lemma EncodedAt(eir: seq<byte>, pre: seq<byte>, enc: seq<byte>, post: seq<byte>, s: AdStructure)
    requires enc == [|s.data| + 1, s.adType] + s.data
    requires eir == pre + enc + post
    ensures |pre| + |s.data| + 2 <= |eir|
    ensures eir[|pre|] == |s.data| + 1 && eir[|pre| + 1] == s.adType
    ensures eir[|pre| + 2 .. |pre| + |s.data| + 2] == s.data
  {
    var i := |pre|;
    assert eir[i] == enc[0];
    assert eir[i + 1] == enc[1];
    assert eir[i + 2 .. i + |s.data| + 2] == enc[2..];
  }

  lemma EncodableTail(ss: seq<AdStructure>)
    requires Encodable(ss) && ss != []
    ensures |ss[0].data| <= 254 && Encodable(ss[1..])
    ensures Serialize(ss) == ([|ss[0].data| + 1, ss[0].adType] + ss[0].data) + Serialize(ss[1..])
  {
    forall k | 0 <= k < |ss[1..]| ensures |ss[1..][k].data| <= 254 {
      assert ss[1..][k] == ss[k + 1];
    }
  }

  /** The pass stops at `|pre|` when what follows is a tail that ends it. */
  lemma RecordsAtTail(pre: seq<byte>, tail: seq<byte>)
    requires EndsPass(tail)
    ensures RecordsFrom(pre + tail, |pre|) == []
  {
    if |tail| >= 1 {
      assert (pre + tail)[|pre|] == tail[0];
    }
  }

  lemma RecordsOfSerialized(pre: seq<byte>, ss: seq<AdStructure>, tail: seq<byte>)
    requires Encodable(ss) && EndsPass(tail)
    ensures RecordsFrom(pre + Serialize(ss) + tail, |pre|) == Placed(ss, |pre|)
  {
    RecordsOfSerializedAt(pre + Serialize(ss) + tail, pre, ss, tail);
  }

  lemma {:induction false} RecordsOfSerializedAt(eir: seq<byte>, pre: seq<byte>, ss: seq<AdStructure>, tail: seq<byte>)
    requires Encodable(ss) && EndsPass(tail)
    requires eir == pre + Serialize(ss) + tail
    ensures RecordsFrom(eir, |pre|) == Placed(ss, |pre|)
    decreases |ss|
  {
    if ss == [] {
      assert eir == pre + tail;
      RecordsAtTail(pre, tail);
    } else {
      var enc := [|ss[0].data| + 1, ss[0].adType] + ss[0].data;
      var post := Serialize(ss[1..]) + tail;
      SerializedShift(eir, pre, ss, tail, enc);
      RecordsOfSerializedAt(eir, pre + enc, ss[1..], tail);
      SerializedCons(eir, pre, ss, enc, post, |pre + enc|);
    }
  }

  /** Past the first structure, the buffer is the rest of the structures and the tail. */
  lemma SerializedShift(eir: seq<byte>, pre: seq<byte>, ss: seq<AdStructure>, tail: seq<byte>, enc: seq<byte>)
    requires Encodable(ss) && ss != []
    requires eir == pre + Serialize(ss) + tail
    requires enc == [|ss[0].data| + 1, ss[0].adType] + ss[0].data
    ensures |ss[0].data| <= 254 && Encodable(ss[1..])
    ensures eir == pre + enc + Serialize(ss[1..]) + tail
    ensures eir == pre + enc + (Serialize(ss[1..]) + tail)
    ensures |pre + enc| == |pre| + |enc|
  {
    EncodableTail(ss);
    Regroup(pre, enc, Serialize(ss[1..]), tail);
  }

  /** The record of the first structure, then the records of the rest from offset `next`. */
  lemma SerializedCons(eir: seq<byte>, pre: seq<byte>, ss: seq<AdStructure>, enc: seq<byte>, post: seq<byte>, next: nat)
    requires ss != [] && |ss[0].data| <= 254
    requires enc == [|ss[0].data| + 1, ss[0].adType] + ss[0].data
    requires eir == pre + enc + post
    requires next == |pre| + |enc|
    requires RecordsFrom(eir, next) == Placed(ss[1..], next)
    ensures RecordsFrom(eir, |pre|) == Placed(ss, |pre|)
  {
    SerializedStep(eir, pre, ss[0], enc, post);
    PlacedCons(ss, |pre|, next);
  }

  /** One structure further: the record at `|pre|`, then the records that follow it. */
  lemma SerializedStep(eir: seq<byte>, pre: seq<byte>, s: AdStructure, enc: seq<byte>, post: seq<byte>)
    requires |s.data| <= 254
    requires enc == [|s.data| + 1, s.adType] + s.data
    requires eir == pre + enc + post
    ensures RecordsFrom(eir, |pre|) == [Record(|pre|, s.adType, s.data)] + RecordsFrom(eir, |pre| + |enc|)
  {
    EncodedAt(eir, pre, enc, post, s);
    RecordAt(eir, |pre|, s);
  }

  lemma PlacedCons(ss: seq<AdStructure>, off: nat, next: nat)
    requires ss != [] && next == off + |ss[0].data| + 2
    ensures Placed(ss, off) == [Record(off, ss[0].adType, ss[0].data)] + Placed(ss[1..], next)
  {
  }

  /** The two groupings of a four-part buffer used by `RecordsOfSerialized`. */
  lemma Regroup(pre: seq<byte>, enc: seq<byte>, more: seq<byte>, tail: seq<byte>)
    ensures pre + (enc + more) + tail == pre + enc + more + tail
    ensures pre + enc + (more + tail) == pre + enc + more + tail
  {
  }

  lemma {:induction false} StructuresPlaced(ss: seq<AdStructure>, off: nat)
    ensures Structures(Placed(ss, off)) == ss
    decreases |ss|
  {
    if ss != [] {
      var rest := Placed(ss[1..], off + |ss[0].data| + 2);
      StructuresPlaced(ss[1..], off + |ss[0].data| + 2);
      assert Placed(ss, off) == [Record(off, ss[0].adType, ss[0].data)] + rest;
      assert |Structures(rest)| == |ss[1..]|;
      forall k | 0 < k < |ss| ensures Structures(Placed(ss, off))[k] == ss[k] {
        assert Placed(ss, off)[k] == rest[k - 1];
        assert Structures(rest)[k - 1] == ss[1..][k - 1];
      }
    }
  }

  /** Parsing a serialized list of structures visits exactly those structures, in order. */
  lemma SerializedRoundTrip(ss: seq<AdStructure>)
    requires Encodable(ss)
    ensures Structures(RecordsFrom(Serialize(ss), 0)) == ss
  {
    RecordsOfSerialized([], ss, []);
    assert [] + Serialize(ss) + [] == Serialize(ss);
    StructuresPlaced(ss, 0);
  }

  /**
   * A zero length byte, or a record that runs past the buffer, ends decoding:
   * every record before it has been applied and nothing after it is.
   */
  lemma DecodeStopsAtTail(ss: seq<AdStructure>, tail: seq<byte>, adv: Advertisement)
    requires Encodable(ss) && EndsPass(tail)
    ensures Decode(Serialize(ss) + tail, adv) == Decode(Serialize(ss), adv)
  {
    var enc := Serialize(ss);
    SerializedRecords(ss, tail);
    SerializedRecords(ss, []);
    assert enc + [] == enc;
  }

  lemma SerializedRecords(ss: seq<AdStructure>, tail: seq<byte>)
    requires Encodable(ss) && EndsPass(tail)
    ensures RecordsFrom(Serialize(ss) + tail, 0) == Placed(ss, 0)
  {
    RecordsOfSerialized([], ss, tail);
    assert [] + Serialize(ss) + tail == Serialize(ss) + tail;
  }

  /** A record of an AD type the `switch` does not list is skipped: the pass is the same without it. */
  lemma {:induction false} UnhandledRecordSkipped(adv: Advertisement, rs: seq<Record>, k: nat)
    requires k < |rs| && !Handled(rs[k].adType)
    ensures ApplyAll(adv, rs) == ApplyAll(adv, rs[..k] + rs[k + 1..])
    decreases k
  {
    var a := ApplyRecord(adv, rs[0].adType, rs[0].payload);
    if k == 0 {
      assert rs[..0] + rs[1..] == rs[1..];
    } else {
      var without := rs[..k] + rs[k + 1..];
      assert without[0] == rs[0];
      if a.fault.None? {
        UnhandledRecordSkipped(a.adv, rs[1..], k - 1);
        assert without[1..] == rs[1..][..k - 1] + rs[1..][k..];
      }
    }
  }

  // ---------------------------------------------------------------------------
  // Worked examples
  // ---------------------------------------------------------------------------

  /** Hex `0201ff`: one record of unknown type 0x01; no field changes and the pass ends at the buffer's end. */
  lemma UnknownTypeChangesNothing(adv: Advertisement)
    ensures RecordsFrom([0x02, 0x01, 0xFF], 0) == [Record(0, 0x01, [0xFF])]
    ensures Decode([0x02, 0x01, 0xFF], adv) == Applied(adv, None)
  {
    var eir: seq<byte> := [0x02, 0x01, 0xFF];
    assert eir[2..3] == [0xFF];
    assert RecordsFrom(eir, 3) == [];
    assert RecordsFrom(eir, 0) == [Record(0, 0x01, [0xFF])] + RecordsFrom(eir, 3);
    assert !Handled(0x01);
    assert ApplyAll(adv, [Record(0, 0x01, [0xFF])]) == Applied(adv, None);
  }

  /** The 16-bit UUID 0x0180 prints as "180": `toString(16)` does not pad. */
  lemma Uuid16NotPadded()
    ensures Uuid16(0x80, 0x01) == "180"
  {
    assert HexDigits(1) == "1";
    assert HexDigits(24) == "18";
  }
}
