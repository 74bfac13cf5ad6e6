/**
 * The advertising-data (EIR) decoder of `HciBle.prototype.onStdoutData`: one
 * linear pass over length/type/value records, as laid out in the Bluetooth
 * Core Specification Supplement, Part A, section 1, updating an advertisement.
 *
 * `RecordsFrom` says which records the pass visits, `ApplyRecord` what one
 * record does to the advertisement, `Decode` the whole pass; `DecodeEir` is the
 * loop itself, proved to compute `Decode`.
 */
module Eir {
  import opened Wrappers
  import opened Encoding

  // AD types the decoder dispatches on.
  const IncompleteUuid16List: byte := 0x02
  const CompleteUuid16List: byte := 0x03
  const IncompleteUuid128List: byte := 0x06
  const CompleteUuid128List: byte := 0x07
  const ShortenedLocalName: byte := 0x08
  const CompleteLocalName: byte := 0x09
  const TxPowerLevel: byte := 0x0A
  const ServiceData: byte := 0x16
  const ManufacturerSpecificData: byte := 0xFF

  datatype ServiceDataEntry = ServiceDataEntry(uuid: string, data: seq<byte>)

  /**
   * The per-device advertisement. `localName` holds the bytes the source hands
   * to UTF-8 decoding; None stands for `undefined`.
   */
  datatype Advertisement = Advertisement(
    localName: Option<seq<byte>>,
    txPowerLevel: Option<int>,
    manufacturerData: Option<seq<byte>>,
    serviceData: seq<ServiceDataEntry>,
    serviceUuids: seq<string>)

  const EmptyAdvertisement := Advertisement(None, None, None, [], [])

  /** The three records on which the source throws part-way through decoding. */
  datatype DecodeFault =
    | OddUuid16List     // readUInt16LE past the end of an odd-length 16-bit UUID list
    | EmptyTxPower      // readInt8(0) on an empty Tx Power payload
    | EmptyServiceData  // `match` returns null on the hex of an empty Service Data payload

  /** An advertisement after some records, and the fault that stopped the pass, if any. */
  datatype Applied = Applied(adv: Advertisement, fault: Option<DecodeFault>)

  predicate NoDuplicates<T(==)>(s: seq<T>)
  {
    forall i, j | 0 <= i < j < |s| :: s[i] != s[j]
  }

  // ---------------------------------------------------------------------------
  // Service UUID lists
  // ---------------------------------------------------------------------------

  /** `if (uuids.indexOf(u) === -1) uuids.push(u)`. */
  function AddUuid(uuids: seq<string>, u: string): seq<string>
  {
    if u in uuids then uuids else uuids + [u]
  }

  /** `AddUuid` for each UUID of a list, in list order. */
  function AddUuids(uuids: seq<string>, us: seq<string>): seq<string>
    decreases |us|
  {
    if us == [] then uuids else AddUuids(AddUuid(uuids, us[0]), us[1..])
  }

  /** Adding UUIDs only appends: the old list, in its order, is a prefix of the new one. */
  lemma {:induction false} AddUuidsExtends(uuids: seq<string>, us: seq<string>)
    ensures |uuids| <= |AddUuids(uuids, us)| && AddUuids(uuids, us)[..|uuids|] == uuids
    decreases |us|
  {
    if us != [] {
      var next := AddUuid(uuids, us[0]);
      AddUuidsExtends(next, us[1..]);
      var r := AddUuids(next, us[1..]);
      assert r[..|uuids|] == r[..|next|][..|uuids|];
    }
  }

  /** After adding, a UUID is listed exactly when it was listed before or was added. */
  lemma {:induction false} AddUuidsMembers(uuids: seq<string>, us: seq<string>)
    ensures forall x :: x in AddUuids(uuids, us) <==> x in uuids || x in us
    decreases |us|
  {
    if us != [] {
      assert us == [us[0]] + us[1..];
      AddUuidsMembers(AddUuid(uuids, us[0]), us[1..]);
    }
  }

  /** Adding never creates a duplicate. */
  lemma {:induction false} AddUuidsNoDuplicates(uuids: seq<string>, us: seq<string>)
    requires NoDuplicates(uuids)
    ensures NoDuplicates(AddUuids(uuids, us))
    decreases |us|
  {
    if us != [] {
      AddUuidsNoDuplicates(AddUuid(uuids, us[0]), us[1..]);
    }
  }

  /** Distinct UUIDs none of which is listed yet are appended as they are, in order. */
  lemma {:induction false} AddUuidsFresh(uuids: seq<string>, us: seq<string>)
    requires NoDuplicates(us) && forall x | x in us :: x !in uuids
    ensures AddUuids(uuids, us) == uuids + us
    decreases |us|
  {
    if us != [] {
      var next := AddUuid(uuids, us[0]);
      assert next == uuids + [us[0]];
      assert forall x | x in us[1..] :: x !in next by {
        forall x | x in us[1..] ensures x !in next {
          var k :| 0 <= k < |us[1..]| && us[1..][k] == x;
          assert us[k + 1] == x;
        }
      }
      AddUuidsFresh(next, us[1..]);
      assert uuids + us == next + us[1..];
    }
  }

  lemma {:induction false} AddUuidsConcat(uuids: seq<string>, a: seq<string>, b: seq<string>)
    ensures AddUuids(AddUuids(uuids, a), b) == AddUuids(uuids, a + b)
    decreases |a|
  {
    if a == [] {
      assert a + b == b;
    } else {
      assert (a + b)[0] == a[0] && (a + b)[1..] == a[1..] + b;
      AddUuidsConcat(AddUuid(uuids, a[0]), a[1..], b);
    }
  }

  /** `bytes.readUInt16LE(j).toString(16)`: little-endian, lower-case hex, no zero padding. */
  function Uuid16(lo: byte, hi: byte): (u: string)
    ensures 1 <= |u| <= 4
  {
    HexDigits(lo + 256 * hi)
  }

  /** The 16-bit UUIDs of a list payload, two bytes each; an odd last byte yields none. */
  function Uuids16(p: seq<byte>): seq<string>
    decreases |p|
  {
    if |p| < 2 then [] else [Uuid16(p[0], p[1])] + Uuids16(p[2..])
  }

  /** A 128-bit UUID: the chunk's bytes in reverse order, as hex. */
  function Uuid128(chunk: seq<byte>): string
  {
    HexEncode(Reverse(chunk))
  }

  /** `Uuid128` is what the source's `toString('hex').match(/.{1,2}/g).reverse().join('')` computes. */
  lemma Uuid128IsSourceExpression(chunk: seq<byte>)
    requires chunk != []
    ensures LittleEndianHex(chunk) == Some(Uuid128(chunk))
  {
    LittleEndianHexReversesBytes(chunk);
  }

  /** The 128-bit UUIDs of a list payload, sixteen bytes each; a shorter last chunk gives a shorter UUID. */
  function Uuids128(p: seq<byte>): seq<string>
    decreases |p|
  {
    if p == [] then []
    else if |p| <= 16 then [Uuid128(p)]
    else [Uuid128(p[..16])] + Uuids128(p[16..])
  }

  /**
   * A Service Data payload: `bytes.slice(0, 2)` names the service, as hex in
   * reverse byte order; `bytes.slice(2)` is its data.
   */
  function ServiceDataEntryOf(p: seq<byte>): ServiceDataEntry
  {
    var n := if |p| < 2 then |p| else 2;
    ServiceDataEntry(HexEncode(Reverse(p[..n])), p[n..])
  }

  /** The service UUID is what the source's `match(/.{1,2}/g).reverse().join('')` computes. */
  lemma ServiceDataUuidIsSourceExpression(p: seq<byte>)
    requires p != []
    ensures LittleEndianHex(p[..if |p| < 2 then |p| else 2]) == Some(ServiceDataEntryOf(p).uuid)
  {
    LittleEndianHexReversesBytes(p[..if |p| < 2 then |p| else 2]);
  }

  /** The service UUID is the first two bytes swapped (the one byte if there is only one), in hex. */
  lemma ServiceDataEntryLayout(p: seq<byte>)
    requires p != []
    ensures |p| >= 2 ==> ServiceDataEntryOf(p) == ServiceDataEntry(HexEncode([p[1], p[0]]), p[2..])
    ensures |p| == 1 ==> ServiceDataEntryOf(p) == ServiceDataEntry(HexEncode(p), [])
  {
    if |p| >= 2 {
      ReverseTwo(p[..2]);
    } else {
      ReverseTwo(p);
      assert p[1..] == [];
    }
  }

  lemma ReverseTwo(q: seq<byte>)
    requires 1 <= |q| <= 2
    ensures |q| == 2 ==> Reverse(q) == [q[1], q[0]]
    ensures |q| == 1 ==> Reverse(q) == q
  {
    var r := Reverse(q);
    if |q| == 2 {
      assert r[0] == q[1] && r[1] == q[0];
    } else {
      assert r[0] == q[0];
    }
  }

  // ---------------------------------------------------------------------------
  // One record
  // ---------------------------------------------------------------------------

  /** The records on which the source throws. */
  predicate Malformed(adType: byte, p: seq<byte>)
  {
    || ((adType == IncompleteUuid16List || adType == CompleteUuid16List) && |p| % 2 == 1)
    || (adType == TxPowerLevel && |p| == 0)
    || (adType == ServiceData && |p| == 0)
  }

  predicate Handled(adType: byte)
  {
    adType in {IncompleteUuid16List, CompleteUuid16List, IncompleteUuid128List, CompleteUuid128List,
               ShortenedLocalName, CompleteLocalName, TxPowerLevel, ServiceData, ManufacturerSpecificData}
  }

  /** The UUIDs a record lists, in payload order (none for a record of another type). */
  function UuidsIn(adType: byte, p: seq<byte>): seq<string>
  {
    if adType == IncompleteUuid16List || adType == CompleteUuid16List then Uuids16(p)
    else if adType == IncompleteUuid128List || adType == CompleteUuid128List then Uuids128(p)
    else []
  }

  /** The Service Data entry a record carries, if it is a non-empty Service Data record. */
  function EntriesIn(adType: byte, p: seq<byte>): seq<ServiceDataEntry>
  {
    if adType == ServiceData && p != [] then [ServiceDataEntryOf(p)] else []
  }

  /**
   * The `switch (type)` of the decoder. On a fault the advertisement is the one
   * the source leaves behind when it throws: for an odd 16-bit list, with the
   * UUIDs of the whole pairs already pushed.
   */
  function ApplyRecord(adv: Advertisement, adType: byte, p: seq<byte>): (r: Applied)
    ensures r.fault.Some? <==> Malformed(adType, p)
    ensures r.adv.serviceUuids == AddUuids(adv.serviceUuids, UuidsIn(adType, p))
    ensures r.adv.serviceData == adv.serviceData + EntriesIn(adType, p)
    ensures !Handled(adType) ==> r == Applied(adv, None)
  {
    if adType == IncompleteUuid16List || adType == CompleteUuid16List then
      Applied(adv.(serviceUuids := AddUuids(adv.serviceUuids, Uuids16(p))),
              if |p| % 2 == 1 then Some(OddUuid16List) else None)
    else if adType == IncompleteUuid128List || adType == CompleteUuid128List then
      Applied(adv.(serviceUuids := AddUuids(adv.serviceUuids, Uuids128(p))), None)
    else if adType == ShortenedLocalName || adType == CompleteLocalName then
      Applied(adv.(localName := Some(p)), None)
    else if adType == TxPowerLevel then
      if |p| == 0 then Applied(adv, Some(EmptyTxPower))
      else Applied(adv.(txPowerLevel := Some(Int8(p[0]))), None)
    else if adType == ServiceData then
      if |p| == 0 then Applied(adv, Some(EmptyServiceData))
      else Applied(adv.(serviceData := adv.serviceData + [ServiceDataEntryOf(p)]), None)
    else if adType == ManufacturerSpecificData then
      Applied(adv.(manufacturerData := Some(p)), None)
    else
      assert adv.serviceData + [] == adv.serviceData;
      Applied(adv, None)
  }

  // ---------------------------------------------------------------------------
  // The record pass
  // ---------------------------------------------------------------------------

  /** A record the pass visits: where it starts, its AD type and its payload. */
  datatype Record = Record(offset: nat, adType: byte, payload: seq<byte>)

  /**
   * The records the `while ((i + 1) < eir.length)` loop visits from offset `i`:
   * it stops at a zero length byte or a record that runs past the buffer.
   */
  function RecordsFrom(eir: seq<byte>, i: nat): seq<Record>
    decreases |eir| - i
  {
    if i + 1 >= |eir| || eir[i] < 1 || i + eir[i] + 1 > |eir| then []
    else [Record(i, eir[i + 1], eir[i + 2 .. i + eir[i] + 1])] + RecordsFrom(eir, i + eir[i] + 1)
  }

  /** A record read from the buffer with every index in range: length byte, type byte, payload. */
  predicate Fits(eir: seq<byte>, r: Record)
  {
    && r.offset + |r.payload| + 2 <= |eir|
    && eir[r.offset] == |r.payload| + 1
    && eir[r.offset + 1] == r.adType
    && r.payload == eir[r.offset + 2 .. r.offset + |r.payload| + 2]
  }

  /**
   * The pass never reads out of bounds and always makes progress: every
   * record fits inside the buffer, the first starts at `i`, each next one starts
   * `length + 1 >= 2` bytes after the one before, so there are at most half as
   * many records as bytes.
   */
  lemma {:induction false} RecordsLayout(eir: seq<byte>, i: nat)
    requires i <= |eir|
    ensures var rs := RecordsFrom(eir, i);
      && 2 * |rs| <= |eir| - i
      && (rs != [] ==> rs[0].offset == i)
      && (forall k | 0 <= k < |rs| :: Fits(eir, rs[k]))
      && (forall k | 0 < k < |rs| :: rs[k].offset == rs[k - 1].offset + |rs[k - 1].payload| + 2)
    decreases |eir| - i
  {
    var rs := RecordsFrom(eir, i);
    if rs != [] {
      var next := i + eir[i] + 1;
      RecordsLayout(eir, next);
      var tail := RecordsFrom(eir, next);
      assert rs == [rs[0]] + tail;
      assert Fits(eir, rs[0]);
      forall k | 0 < k < |rs|
        ensures rs[k].offset == rs[k - 1].offset + |rs[k - 1].payload| + 2
      {
        assert rs[k] == tail[k - 1];
        if k > 1 {
          assert rs[k - 1] == tail[k - 2];
        }
      }
    }
  }

  /** The records, from the first, applied in order; the pass stops at the first fault. */
  function ApplyAll(adv: Advertisement, rs: seq<Record>): Applied
    decreases |rs|
  {
    if rs == [] then Applied(adv, None)
    else
      var a := ApplyRecord(adv, rs[0].adType, rs[0].payload);
      if a.fault.Some? then a else ApplyAll(a.adv, rs[1..])
  }

  /** The whole decoding pass over an advertising-data buffer. */
  function Decode(eir: seq<byte>, adv: Advertisement): Applied
  {
    ApplyAll(adv, RecordsFrom(eir, 0))
  }

  // ---------------------------------------------------------------------------
  // The loops
  // ---------------------------------------------------------------------------

  /** One step of `AddUuids`: the first UUID, then the rest. */
  lemma AddUuidsFirst(uuids: seq<string>, us: seq<string>)
    requires us != []
    ensures AddUuids(uuids, us) == AddUuids(AddUuid(uuids, us[0]), us[1..])
  {
  }

  /** The `for (j = 0; j < bytes.length; j += 2)` loop of a 16-bit UUID list record. */
  method AppendUuids16(uuids: seq<string>, bytes: seq<byte>) returns (r: seq<string>, fault: Option<DecodeFault>)
    ensures r == AddUuids(uuids, Uuids16(bytes))
    ensures fault == if |bytes| % 2 == 1 then Some(OddUuid16List) else None
  {
    r := uuids;
    var j := 0;
    while j < |bytes|
      invariant 0 <= j <= |bytes| && j % 2 == 0
      invariant AddUuids(uuids, Uuids16(bytes)) == AddUuids(r, Uuids16(bytes[j..]))
    {
      if j + 1 >= |bytes| {
        // readUInt16LE(j) needs two bytes: the source throws here.
        assert Uuids16(bytes[j..]) == [];
        return r, Some(OddUuid16List);
      }
      var serviceUuid := Uuid16(bytes[j], bytes[j + 1]);
      assert bytes[j..][2..] == bytes[j + 2..];
      assert Uuids16(bytes[j..]) == [serviceUuid] + Uuids16(bytes[j + 2..]);
      AddUuidsFirst(r, Uuids16(bytes[j..]));
      ghost var before := r;
      if serviceUuid !in r {
        r := r + [serviceUuid];
      }
      assert r == AddUuid(before, serviceUuid);
      j := j + 2;
    }
    assert bytes[j..] == [];
    fault := None;
  }

  /** The `for (j = 0; j < bytes.length; j += 16)` loop of a 128-bit UUID list record. */
  method AppendUuids128(uuids: seq<string>, bytes: seq<byte>) returns (r: seq<string>)
    ensures r == AddUuids(uuids, Uuids128(bytes))
  {
    r := uuids;
    var j := 0;
    while j < |bytes|
      invariant 0 <= j <= |bytes|
      invariant AddUuids(uuids, Uuids128(bytes)) == AddUuids(r, Uuids128(bytes[j..]))
    {
      var end := if j + 16 < |bytes| then j + 16 else |bytes|;
      var serviceUuid := Uuid128(bytes[j .. end]);
      if end < |bytes| {
        assert bytes[j..][..16] == bytes[j .. end] && bytes[j..][16..] == bytes[end..];
      } else {
        assert bytes[j..] == bytes[j .. end] && bytes[end..] == [];
      }
      assert Uuids128(bytes[j..]) == [serviceUuid] + Uuids128(bytes[end..]);
      AddUuidsFirst(r, Uuids128(bytes[j..]));
      ghost var before := r;
      if serviceUuid !in r {
        r := r + [serviceUuid];
      }
      assert r == AddUuid(before, serviceUuid);
      j := end;
    }
    assert bytes[j..] == [];
  }

  /** One turn of the `switch (type)`, updating the advertisement the way the source does in place. */
  method DecodeRecord(adv: Advertisement, adType: byte, bytes: seq<byte>) returns (advertisement: Advertisement, fault: Option<DecodeFault>)
    ensures Applied(advertisement, fault) == ApplyRecord(adv, adType, bytes)
  {
    advertisement, fault := adv, None;
    if adType == IncompleteUuid16List || adType == CompleteUuid16List {
      var uuids, f := AppendUuids16(advertisement.serviceUuids, bytes);
      advertisement := advertisement.(serviceUuids := uuids);
      fault := f;
    } else if adType == IncompleteUuid128List || adType == CompleteUuid128List {
      var uuids := AppendUuids128(advertisement.serviceUuids, bytes);
      advertisement := advertisement.(serviceUuids := uuids);
    } else if adType == ShortenedLocalName || adType == CompleteLocalName {
      advertisement := advertisement.(localName := Some(bytes));
    } else if adType == TxPowerLevel {
      if |bytes| == 0 {
        fault := Some(EmptyTxPower);
      } else {
        advertisement := advertisement.(txPowerLevel := Some(Int8(bytes[0])));
      }
    } else if adType == ServiceData {
      if |bytes| == 0 {
        fault := Some(EmptyServiceData);
      } else {
        advertisement := advertisement.(serviceData := advertisement.serviceData + [ServiceDataEntryOf(bytes)]);
      }
    } else if adType == ManufacturerSpecificData {
      advertisement := advertisement.(manufacturerData := Some(bytes));
    }
  }

  /**
   * The decoding loop of `onStdoutData`, over the advertisement of one event.
   * It returns the advertisement as the source leaves it, and the fault when
   * the source throws.
   */
  method DecodeEir(eir: seq<byte>, adv: Advertisement) returns (advertisement: Advertisement, fault: Option<DecodeFault>)
    ensures Applied(advertisement, fault) == Decode(eir, adv)
  {
    advertisement, fault := adv, None;
    var i := 0;
    while i + 1 < |eir|
      invariant 0 <= i && fault == None
      invariant Decode(eir, adv) == ApplyAll(advertisement, RecordsFrom(eir, i))
      decreases |eir| - i
    {
      var length := eir[i];
      if length < 1 {
        assert RecordsFrom(eir, i) == [];
        break;
      }
      var adType := eir[i + 1];
      if i + length + 1 > |eir| {
        assert RecordsFrom(eir, i) == [];
        break;
      }
      var bytes := eir[i + 2 .. i + length + 1];
      ghost var before := advertisement;
      assert RecordsFrom(eir, i) == [Record(i, adType, bytes)] + RecordsFrom(eir, i + length + 1);

      advertisement, fault := DecodeRecord(advertisement, adType, bytes);
      assert Applied(advertisement, fault) == ApplyRecord(before, adType, bytes);
      assert ApplyAll(before, RecordsFrom(eir, i)) ==
        if fault.Some? then Applied(advertisement, fault)
        else ApplyAll(advertisement, RecordsFrom(eir, i + length + 1));

      if fault.Some? {
        return;
      }
      i := i + length + 1;
    }
  }
}
