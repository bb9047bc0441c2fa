/** What the LLDP codec guarantees as a whole: decoding undoes encoding, decoding only ever yields well-formed frames,
    and the frames that survive the trip are exactly those. */
module LldpRoundTrip {
  import opened Results
  import opened Lldp
  import opened LldpFrame
  import opened LldpTlvProofs
  import opened LldpStreamProofs
  import opened Sequences

  // ---------- Well-formed frames ----------

  ghost predicate WellFormedChassisId(id: ChassisId) {
    && |id.data| <= 510
    && id.subtype <= LAST_ID_SUBTYPE
    && (id.subtype == CHASSIS_MAC_ADDRESS ==> IsMacAddress(id.data))
    && (id.subtype == CHASSIS_NETWORK_ADDRESS ==> IsNetworkAddress(id.data))
  }

  ghost predicate WellFormedPortId(id: PortId) {
    && |id.data| <= 510
    && id.subtype <= LAST_ID_SUBTYPE
    && (id.subtype == PORT_MAC_ADDRESS ==> IsMacAddress(id.data))
    && (id.subtype == PORT_NETWORK_ADDRESS ==> IsNetworkAddress(id.data))
  }

  ghost predicate WellFormedOptions(unit: DataUnit) {
    && (forall d <- unit.portDescriptions :: |d| < 0x200)
    && |unit.systemName| < 0x200
    && |unit.systemDescription| < 0x200
    && (forall a <- unit.managementAddresses :: WellFormedManagementAddress(a))
  }

  ghost predicate WellFormedUnit(unit: DataUnit) {
    && WellFormedChassisId(unit.chassisId)
    && WellFormedPortId(unit.portId)
    && 0 <= unit.timeToLive < 0x1_0000
    && WellFormedOptions(unit)
  }

  ghost predicate WellFormedFrame(frame: Frame) {
    && |frame.destinationMac| == MAC_SIZE
    && |frame.sourceMac| == MAC_SIZE
    && WellFormedUnit(frame.dataUnit)
  }

  // ---------- Decoding undoes encoding ----------

  lemma TlvsOfIsFramed(tlvType: byte, values: seq<Bytes>)
    requires 0 < tlvType < 0x80 && forall v <- values :: |v| < 0x200
    ensures OptionalStream(TlvsOf(tlvType, values))
  {
  }

  ghost function When(condition: bool, values: seq<Bytes>): seq<Bytes> {
    if condition then values else []
  }

  lemma {:induction false} OfTypeTlvsOf(tlvType: byte, values: seq<Bytes>, k: byte)
    ensures OfType(TlvsOf(tlvType, values), k) == When(k == tlvType, values)
  {
    if values != [] {
      assert TlvsOf(tlvType, values)[1..] == TlvsOf(tlvType, values[1..]);
      OfTypeTlvsOf(tlvType, values[1..], k);
    }
  }

  ghost function OptionalProjection(unit: DataUnit): Projection {
    Projection([], unit.portDescriptions, Unless(unit.systemName == [], unit.systemName),
               Unless(unit.systemDescription == [], unit.systemDescription),
               Unless(unit.systemCapabilities == DEFAULT_CAPABILITIES, EncodeSystemCapabilities(unit.systemCapabilities)),
               EncodeManagementAddresses(unit.managementAddresses))
  }

  lemma OfTypeFive(a: seq<Tlv>, b: seq<Tlv>, c: seq<Tlv>, d: seq<Tlv>, e: seq<Tlv>, k: byte)
    ensures OfType(a + b + c + d + e, k) == OfType(a, k) + OfType(b, k) + OfType(c, k) + OfType(d, k) + OfType(e, k)
  {
    OfTypeAppend(a + b + c + d, e, k);
    OfTypeAppend(a + b + c, d, k);
    OfTypeAppend(a + b, c, k);
    OfTypeAppend(a, b, k);
  }

  lemma OfTypeOptionalTlvs(unit: DataUnit, k: byte)
    ensures var p := OptionalProjection(unit);
            OfType(OptionalTlvs(unit), k) ==
            When(k == PORT_DESCRIPTION, p.descriptions) + When(k == SYSTEM_NAME, p.names) +
            When(k == SYSTEM_DESCRIPTION, p.systemDescriptions) + When(k == SYSTEM_CAPABILITIES, p.capabilities) +
            When(k == MANAGEMENT_ADDRESS, p.addresses)
  {
    var p := OptionalProjection(unit);
    OfTypeFive(TlvsOf(PORT_DESCRIPTION, p.descriptions), TlvsOf(SYSTEM_NAME, p.names),
               TlvsOf(SYSTEM_DESCRIPTION, p.systemDescriptions), TlvsOf(SYSTEM_CAPABILITIES, p.capabilities),
               TlvsOf(MANAGEMENT_ADDRESS, p.addresses), k);
    OfTypeTlvsOf(PORT_DESCRIPTION, p.descriptions, k);
    OfTypeTlvsOf(SYSTEM_NAME, p.names, k);
    OfTypeTlvsOf(SYSTEM_DESCRIPTION, p.systemDescriptions, k);
    OfTypeTlvsOf(SYSTEM_CAPABILITIES, p.capabilities, k);
    OfTypeTlvsOf(MANAGEMENT_ADDRESS, p.addresses, k);
  }

  ghost function ValuesAt(p: Projection, k: byte): seq<Bytes> {
    match k
    case 4 => p.descriptions
    case 5 => p.names
    case 6 => p.systemDescriptions
    case 7 => p.capabilities
    case 8 => p.addresses
    case _ => []
  }

  lemma OnlyOne(p: Projection, k: byte)
    ensures When(k == PORT_DESCRIPTION, p.descriptions) + When(k == SYSTEM_NAME, p.names) +
            When(k == SYSTEM_DESCRIPTION, p.systemDescriptions) + When(k == SYSTEM_CAPABILITIES, p.capabilities) +
            When(k == MANAGEMENT_ADDRESS, p.addresses) == ValuesAt(p, k)
  {
  }

  lemma OptionalTlvsAt(unit: DataUnit, k: byte)
    ensures OfType(OptionalTlvs(unit), k) == ValuesAt(OptionalProjection(unit), k)
  {
    OfTypeOptionalTlvs(unit, k);
    OnlyOne(OptionalProjection(unit), k);
  }

  lemma ProjectIs(tlvs: seq<Tlv>, p: Projection)
    requires p.mandatory == []
    requires forall k: byte | CHASSIS_ID <= k <= MANAGEMENT_ADDRESS :: OfType(tlvs, k) == ValuesAt(p, k)
    ensures Project(tlvs) == p
  {
  }

  lemma ProjectOptionalTlvs(unit: DataUnit)
    ensures Project(OptionalTlvs(unit)) == OptionalProjection(unit)
  {
    forall k: byte
      ensures OfType(OptionalTlvs(unit), k) == ValuesAt(OptionalProjection(unit), k)
    {
      OptionalTlvsAt(unit, k);
    }
    ProjectIs(OptionalTlvs(unit), OptionalProjection(unit));
  }

  lemma ManagementAddressFits(a: ManagementAddress)
    requires WellFormedManagementAddress(a)
    ensures |EncodeManagementAddress(a)| < 0x200
  {
  }

  lemma OptionalTlvsAreFramed(unit: DataUnit)
    requires WellFormedOptions(unit)
    ensures OptionalStream(OptionalTlvs(unit))
  {
    var p := OptionalProjection(unit);
    TlvsOfIsFramed(PORT_DESCRIPTION, p.descriptions);
    TlvsOfIsFramed(SYSTEM_NAME, p.names);
    TlvsOfIsFramed(SYSTEM_DESCRIPTION, p.systemDescriptions);
    TlvsOfIsFramed(SYSTEM_CAPABILITIES, p.capabilities);
    forall a <- unit.managementAddresses {
      ManagementAddressFits(a);
    }
    assert forall v <- p.addresses :: exists a <- unit.managementAddresses :: v == EncodeManagementAddress(a);
    TlvsOfIsFramed(MANAGEMENT_ADDRESS, p.addresses);
  }

  lemma EncodedAddressesDecode(addresses: seq<ManagementAddress>)
    requires forall a <- addresses :: WellFormedManagementAddress(a)
    ensures AreManagementAddresses(EncodeManagementAddresses(addresses))
    ensures ManagementAddressesOf(EncodeManagementAddresses(addresses)) == addresses
  {
    forall i | 0 <= i < |addresses|
      ensures ParseManagementAddress(EncodeManagementAddress(addresses[i])) == Ok(addresses[i])
    {
      ManagementAddressRoundTrip(addresses[i]);
    }
  }

  lemma OptionalProjectionIsAcceptable(st: OptionalState, unit: DataUnit)
    requires WellFormedOptions(unit)
    requires st.systemNameCount == 0 && st.systemDescriptionCount == 0 && st.systemCapabilitiesCount == 0
    ensures Acceptable(st, OptionalProjection(unit))
  {
    EncodedAddressesDecode(unit.managementAddresses);
  }

  lemma OptionalProjectionMeaning(st: OptionalState, unit: DataUnit)
    requires WellFormedOptions(unit)
    requires st == OptionalState(EMPTY_DATA_UNIT.(chassisId := unit.chassisId, portId := unit.portId, timeToLive := unit.timeToLive), 0, 0, 0)
    ensures Acceptable(st, OptionalProjection(unit))
    ensures Meaning(st, OptionalProjection(unit)).unit == unit
  {
    OptionalProjectionIsAcceptable(st, unit);
    EncodedAddressesDecode(unit.managementAddresses);
    EmptyPrefix(unit.managementAddresses);
    EmptyPrefix(unit.portDescriptions);
    NameMeaning(unit.systemName);
    NameMeaning(unit.systemDescription);
    CapabilitiesMeaning(unit.systemCapabilities);
  }

  lemma NameMeaning(name: Bytes)
    ensures LastOr(Unless(name == [], name), []) == name
  {
  }

  lemma CapabilitiesMeaning(c: SystemCapabilities)
    ensures ParseSystemCapabilities(EncodeSystemCapabilities(c)) == Ok(c)
  {
  }

  /** Absorbing the optional TLVs of a data unit restores every optional part of it. */
  lemma AbsorbOptionalTlvs(st: OptionalState, unit: DataUnit)
    requires WellFormedOptions(unit)
    requires st == OptionalState(EMPTY_DATA_UNIT.(chassisId := unit.chassisId, portId := unit.portId, timeToLive := unit.timeToLive), 0, 0, 0)
    ensures AbsorbAll(st, OptionalTlvs(unit)).Ok? && AbsorbAll(st, OptionalTlvs(unit)).value.unit == unit
  {
    ProjectOptionalTlvs(unit);
    OptionalProjectionMeaning(st, unit);
    AbsorbAllIsMeaning(st, OptionalTlvs(unit));
  }

  lemma AbsorbMandatoryTlvs(unit: DataUnit)
    requires WellFormedUnit(unit)
    ensures AbsorbMandatories(EMPTY_DATA_UNIT, MANDATORY_TLVS, MandatoryTlvs(unit)) ==
            Ok(EMPTY_DATA_UNIT.(chassisId := unit.chassisId, portId := unit.portId, timeToLive := unit.timeToLive))
  {
    var tlvs := MandatoryTlvs(unit);
    var one := EMPTY_DATA_UNIT.(chassisId := unit.chassisId);
    var two := one.(portId := unit.portId);
    assert AbsorbMandatory(EMPTY_DATA_UNIT, CHASSIS_ID, tlvs[0]) == Ok(one);
    assert AbsorbMandatory(one, PORT_ID, tlvs[1]) == Ok(two);
    assert AbsorbMandatory(two, TIME_TO_LIVE, tlvs[2]) == Ok(two.(timeToLive := unit.timeToLive));
    assert AbsorbMandatories(two, MANDATORY_TLVS[1..][1..], tlvs[1..][1..]) == Ok(two.(timeToLive := unit.timeToLive));
    assert AbsorbMandatories(one, MANDATORY_TLVS[1..], tlvs[1..]) == Ok(two.(timeToLive := unit.timeToLive));
  }

  lemma DataUnitRoundTrip(unit: DataUnit, trailing: Bytes)
    requires WellFormedUnit(unit)
    ensures ParseDataUnit(EncodeDataUnit(unit) + trailing) == Ok(unit)
  {
    var mandatory, optional, end := MandatoryTlvs(unit), OptionalTlvs(unit), EncodeTlv(Tlv(END, [])) + trailing;
    Associates(EncodeTlvs(mandatory) + EncodeTlvs(optional), EncodeTlv(Tlv(END, [])), trailing);
    Associates(EncodeTlvs(mandatory), EncodeTlvs(optional), end);
    ParseMandatoryOfStream(EMPTY_DATA_UNIT, MANDATORY_TLVS, mandatory, EncodeTlvs(optional) + end);
    AbsorbMandatoryTlvs(unit);
    OptionalTlvsAreFramed(unit);
    var start := EMPTY_DATA_UNIT.(chassisId := unit.chassisId, portId := unit.portId, timeToLive := unit.timeToLive);
    var st := OptionalState(start, 0, 0, 0);
    AbsorbOptionalTlvs(st, unit);
    ParseOptionalOfStream(st, optional, end);
    ParseEnd(AbsorbAll(st, optional).value, trailing);
  }

  /** Decoding undoes encoding, whatever bytes pad the frame. */
  lemma FrameRoundTrip(frame: Frame, trailing: Bytes)
    requires WellFormedFrame(frame)
    ensures ParseFrame(EncodeFrame(frame) + trailing) == Ok(frame)
  {
    var data := EncodeFrame(frame) + trailing;
    var header, unit := EncodeFrame(frame)[..14], EncodeDataUnit(frame.dataUnit);
    assert EncodeFrame(frame) == header + unit;
    Associates(header, unit, trailing);
    Parts(header, unit + trailing);
    assert header[..6] == frame.destinationMac && header[6..12] == frame.sourceMac;
    assert data[..6] == header[..6] && data[6..12] == header[6..12] && data[12] == header[12] && data[13] == header[13];
    DataUnitRoundTrip(frame.dataUnit, trailing);
  }

  // ---------- Decoding yields well-formed frames only ----------

  lemma ParsedMandatoryIsWellFormed(data: Bytes)
    ensures forall unit, rest | ParseMandatory(EMPTY_DATA_UNIT, MANDATORY_TLVS, data) == Ok((unit, rest)) :: WellFormedUnit(unit)
  {
    var r := ParseMandatory(EMPTY_DATA_UNIT, MANDATORY_TLVS, data);
    if r.Ok? {
      var (t1, n1) := ParseTlv(data).value;
      var one := AbsorbMandatory(EMPTY_DATA_UNIT, CHASSIS_ID, t1).value;
      var data1 := data[n1..];
      assert r == ParseMandatory(one, MANDATORY_TLVS[1..], data1);
      var (t2, n2) := ParseTlv(data1).value;
      var two := AbsorbMandatory(one, PORT_ID, t2).value;
      var data2 := data1[n2..];
      assert r == ParseMandatory(two, MANDATORY_TLVS[1..][1..], data2);
      var (t3, n3) := ParseTlv(data2).value;
      var three := AbsorbMandatory(two, TIME_TO_LIVE, t3).value;
      assert r == ParseMandatory(three, MANDATORY_TLVS[1..][1..][1..], data2[n3..]);
    }
  }

  lemma AbsorbKeepsWellFormed(st: OptionalState, t: Tlv)
    requires WellFormedUnit(st.unit) && WellFramed(t)
    ensures Absorb(st, t).Ok? ==> WellFormedUnit(Absorb(st, t).value.unit)
  {
    if t.tlvType == MANAGEMENT_ADDRESS && Absorb(st, t).Ok? {
      ManagementAddressIsCanonical(t.value, ParseManagementAddress(t.value).value);
    }
  }

  lemma {:induction false} ParsedOptionalIsWellFormed(st: OptionalState, data: Bytes)
    requires WellFormedUnit(st.unit)
    ensures forall unit | ParseOptional(st, data) == Ok(unit) :: WellFormedUnit(unit)
    decreases |data|
  {
    if data != [] && ParseTlv(data).Ok? {
      var (t, consumed) := ParseTlv(data).value;
      TlvIsCanonical(data, t, consumed);
      if t.tlvType != END && Absorb(st, t).Ok? {
        AbsorbKeepsWellFormed(st, t);
        ParsedOptionalIsWellFormed(Absorb(st, t).value, data[consumed..]);
      }
    }
  }

  /** Whatever bytes are accepted, the frame they decode to is well-formed. */
  lemma ParsedFrameIsWellFormed(data: Bytes)
    ensures forall frame | ParseFrame(data) == Ok(frame) :: WellFormedFrame(frame)
  {
    if ParseFrame(data).Ok? {
      ParsedMandatoryIsWellFormed(data[14..]);
      var (unit, rest) := ParseMandatory(EMPTY_DATA_UNIT, MANDATORY_TLVS, data[14..]).value;
      ParsedOptionalIsWellFormed(OptionalState(unit, 0, 0, 0), rest);
    }
  }

  /** The frames that survive encoding and decoding are exactly the well-formed ones. */
  lemma FrameSurvivesIffWellFormed(frame: Frame)
    ensures ParseFrame(EncodeFrame(frame)) == Ok(frame) <==> WellFormedFrame(frame)
  {
    ParsedFrameIsWellFormed(EncodeFrame(frame));
    if WellFormedFrame(frame) {
      FrameRoundTrip(frame, []);
      assert EncodeFrame(frame) + [] == EncodeFrame(frame);
    }
  }

  /** Re-encoding an accepted frame is a normal form: it decodes to the same frame as the bytes it came from. */
  lemma ReencodingIsNormalForm(data: Bytes, trailing: Bytes)
    requires ParseFrame(data).Ok?
    ensures ParseFrame(EncodeFrame(ParseFrame(data).value) + trailing) == ParseFrame(data)
  {
    ParsedFrameIsWellFormed(data);
    FrameRoundTrip(ParseFrame(data).value, trailing);
  }

  // ---------- Encodings that are those of a shutdown data unit ----------

  lemma OptionalTlvsAbsent(unit: DataUnit)
    ensures OptionalTlvs(unit) == [] <==> unit.(timeToLive := 0) == ShutdownDataUnit(unit.chassisId, unit.portId)
  {
    OptionalTlvsCount(unit);
  }

  lemma OptionalTlvsCount(unit: DataUnit)
    ensures |OptionalTlvs(unit)| ==
            |unit.portDescriptions| + (if unit.systemName == [] then 0 else 1) + (if unit.systemDescription == [] then 0 else 1)
            + (if unit.systemCapabilities == DEFAULT_CAPABILITIES then 0 else 1) + |unit.managementAddresses|
  {
  }

  lemma TimeToLiveBytes(seconds: int)
    ensures EncodeTimeToLive(seconds) == EncodeTimeToLive(0) <==> seconds % 0x1_0000 == 0
  {
    var high := seconds / 0x100;
    var higher := high / 0x100;
    assert seconds == high * 0x100 + seconds % 0x100 && high == higher * 0x100 + high % 0x100;
    var low := high % 0x100 * 0x100 + seconds % 0x100;
    assert seconds == higher * 0x1_0000 + low && 0 <= low < 0x1_0000;
    assert seconds % 0x1_0000 == low;
    assert EncodeTimeToLive(0) == [0, 0];
    assert EncodeTimeToLive(seconds) == [high % 0x100, seconds % 0x100];
  }

  lemma SplitsAt<T>(a: seq<T>, x: seq<T>, b: seq<T>, y: seq<T>)
    requires |a| == |b|
    ensures a + x == b + y <==> a == b && x == y
  {
    if a + x == b + y {
      Parts(a, x);
      Parts(b, y);
    }
  }

  /** The identifiers' bytes, and then the time to live. */
  lemma MandatoryBytes(unit: DataUnit)
    ensures EncodeTlvs(MandatoryTlvs(unit)) ==
            (EncodeTlv(MandatoryTlvs(unit)[0]) + EncodeTlv(MandatoryTlvs(unit)[1]) + [TIME_TO_LIVE * 2, 2]) +
            EncodeTimeToLive(unit.timeToLive)
  {
    var tlvs := MandatoryTlvs(unit);
    assert tlvs[1..][1..][1..] == [];
    assert EncodeTlvs(tlvs[1..][1..]) == EncodeTlv(tlvs[2]) + [];
    assert EncodeTlv(tlvs[2]) == [TIME_TO_LIVE * 2, 2] + EncodeTimeToLive(unit.timeToLive);
  }

  lemma MandatoryBytesAgree(unit: DataUnit)
    ensures var ids := EMPTY_DATA_UNIT.(chassisId := unit.chassisId, portId := unit.portId);
            var a, b := EncodeTlvs(MandatoryTlvs(unit)), EncodeTlvs(MandatoryTlvs(ids));
            |a| == |b| && (a == b <==> unit.timeToLive % 0x1_0000 == 0)
  {
    var ids := EMPTY_DATA_UNIT.(chassisId := unit.chassisId, portId := unit.portId);
    MandatoryBytes(unit);
    MandatoryBytes(ids);
    var front := EncodeTlv(MandatoryTlvs(unit)[0]) + EncodeTlv(MandatoryTlvs(unit)[1]) + [TIME_TO_LIVE * 2, 2];
    SplitsAt(front, EncodeTimeToLive(unit.timeToLive), front, EncodeTimeToLive(0));
    TimeToLiveBytes(unit.timeToLive);
  }

  lemma OptionalBytesAbsent(tlvs: seq<Tlv>)
    ensures EncodeTlvs(tlvs) == [] <==> tlvs == []
  {
  }

  /** A data unit is encoded like the shutdown data unit of its identifiers exactly when all its options are at their
      defaults and the two bytes of its time to live are zero. */
  lemma EncodedAsShutdownIff(unit: DataUnit)
    ensures EncodeDataUnit(unit) == EncodeDataUnit(ShutdownDataUnit(unit.chassisId, unit.portId)) <==>
            unit.(timeToLive := 0) == ShutdownDataUnit(unit.chassisId, unit.portId) && unit.timeToLive % 0x1_0000 == 0
  {
    var shutdown := ShutdownDataUnit(unit.chassisId, unit.portId);
    var a, b := EncodeTlvs(MandatoryTlvs(unit)), EncodeTlvs(MandatoryTlvs(shutdown));
    var x, y, end := EncodeTlvs(OptionalTlvs(unit)), EncodeTlvs(OptionalTlvs(shutdown)), EncodeTlv(Tlv(END, []));
    MandatoryBytesAgree(unit);
    OptionalTlvsAbsent(unit);
    OptionalTlvsAbsent(shutdown);
    OptionalBytesAbsent(OptionalTlvs(unit));
    OptionalBytesAbsent(OptionalTlvs(shutdown));
    Associates(a, x, end);
    Associates(b, y, end);
    SplitsAt(a, x + end, b, y + end);
    if x + end == y + end {
      assert |x| == |y|;
    }
  }
}
