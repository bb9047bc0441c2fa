/** The LLDP frame codec (lldp_frame.cpp): Ethernet header, then a sequence of TLVs with a 7-bit type
    and a 9-bit length. The functions specify the codec; the methods below them are the original's
    byte-pushing makers and index-advancing parsers, proved to compute those functions. */
module LldpFrame {
  import opened Results
  import opened Lldp

  datatype ParseError =
    | InvalidEthernetHeader
    | UnexpectedEtherType
    | MissingTlv
    | ShortTlv
    | MissingSubtype
    | InvalidSubtype
    | InvalidMacAddress
    | InvalidNetworkAddress
    | ShortTimeToLive
    | ShortSystemCapabilities
    | InvalidManagementAddress
    | MandatoryTlvsOutOfOrder
    | RepeatedTlv(tlvType: byte)

  type Parsed<+T> = Result<T, ParseError>

  datatype Frame = Frame(destinationMac: Bytes, sourceMac: Bytes, dataUnit: DataUnit)

  datatype Tlv = Tlv(tlvType: byte, value: Bytes)

  const LLDP_ETHER_TYPE := 0x88CC

  const END := 0
  const CHASSIS_ID := 1
  const PORT_ID := 2
  const TIME_TO_LIVE := 3
  const PORT_DESCRIPTION := 4
  const SYSTEM_NAME := 5
  const SYSTEM_DESCRIPTION := 6
  const SYSTEM_CAPABILITIES := 7
  const MANAGEMENT_ADDRESS := 8

  const MANDATORY_TLVS: seq<byte> := [CHASSIS_ID, PORT_ID, TIME_TO_LIVE]

  // ---------- TLVs ----------

  /** The type in the upper seven bits, the low nine bits of the length, then the whole value. */
  function EncodeTlv(tlv: Tlv): Bytes {
    [tlv.tlvType * 2 % 0x100 + |tlv.value| / 0x100 % 2, |tlv.value| % 0x100] + tlv.value
  }

  function EncodeTlvs(tlvs: seq<Tlv>): Bytes {
    if tlvs == [] then [] else EncodeTlv(tlvs[0]) + EncodeTlvs(tlvs[1..])
  }

  /** The first TLV of `data` and the number of bytes it takes. */
  function ParseTlv(data: Bytes): (r: Parsed<(Tlv, nat)>)
    ensures r.Ok? ==> 2 <= r.value.1 <= |data|
  {
    if |data| < 2 then Err(MissingTlv)
    else
      var length: nat := Uint16(data[0], data[1]) % 0x200;
      if |data| < 2 + length then Err(ShortTlv)
      else Ok((Tlv(data[0] / 2, data[2..2 + length]), 2 + length))
  }

  // ---------- Values of the individual TLVs ----------

  function ParseChassisId(value: Bytes): Parsed<ChassisId> {
    if value == [] then Err(MissingSubtype)
    else
      var id := ChassisId(value[0], value[1..]);
      if id.subtype > LAST_ID_SUBTYPE then Err(InvalidSubtype)
      else if id.subtype == CHASSIS_MAC_ADDRESS && !IsMacAddress(id.data) then Err(InvalidMacAddress)
      else if id.subtype == CHASSIS_NETWORK_ADDRESS && !IsNetworkAddress(id.data) then Err(InvalidNetworkAddress)
      else Ok(id)
  }

  function ParsePortId(value: Bytes): Parsed<PortId> {
    if value == [] then Err(MissingSubtype)
    else
      var id := PortId(value[0], value[1..]);
      if id.subtype > LAST_ID_SUBTYPE then Err(InvalidSubtype)
      else if id.subtype == PORT_MAC_ADDRESS && !IsMacAddress(id.data) then Err(InvalidMacAddress)
      else if id.subtype == PORT_NETWORK_ADDRESS && !IsNetworkAddress(id.data) then Err(InvalidNetworkAddress)
      else Ok(id)
  }

  /** The original shifts and truncates, so only the low sixteen bits survive. */
  function EncodeTimeToLive(seconds: int): Bytes {
    [seconds / 0x100 % 0x100, seconds % 0x100]
  }

  function ParseTimeToLive(value: Bytes): Parsed<int> {
    if |value| < 2 then Err(ShortTimeToLive) else Ok(Uint16(value[0], value[1]))
  }

  function EncodeSystemCapabilities(c: SystemCapabilities): Bytes {
    [c.system / 0x100, c.system % 0x100, c.enabled / 0x100, c.enabled % 0x100]
  }

  function ParseSystemCapabilities(value: Bytes): Parsed<SystemCapabilities> {
    if |value| < 4 then Err(ShortSystemCapabilities)
    else Ok(SystemCapabilities(Uint16(value[0], value[1]), Uint16(value[2], value[3])))
  }

  function EncodeUint32(n: uint32): Bytes {
    [n / 0x100_0000 % 0x100, n / 0x1_0000 % 0x100, n / 0x100 % 0x100, n % 0x100]
  }

  function EncodeManagementAddress(a: ManagementAddress): Bytes {
    [|a.networkAddress| % 0x100] + a.networkAddress +
    [a.interfaceNumbering] + EncodeUint32(a.interfaceNumber) +
    [|a.objectIdentifier| % 0x100] + a.objectIdentifier
  }

  /** Family and 1 to 31 bytes of data (Figure 8-11 of IEEE Std 802.1AB-2016) of a family the original prints. */
  predicate IsManagementNetworkAddress(data: Bytes) {
    2 <= |data| <= 32 && IsNetworkAddress(data)
  }

  predicate WellFormedManagementAddress(a: ManagementAddress) {
    && IsManagementNetworkAddress(a.networkAddress)
    && (a.interfaceNumbering == UNKNOWN_INTERFACE_NUMBERING ==> a.interfaceNumber == 0)
    && |a.objectIdentifier| < 0x100
  }

  /** Length byte, address, numbering subtype, four-byte number, length byte, object identifier. */
  function ParseManagementAddress(value: Bytes): Parsed<ManagementAddress> {
    if |value| < 1 || |value| < value[0] as int + 7 then Err(InvalidManagementAddress)
    else
      var n: nat := value[0] as int + 1;
      var number := Uint32(value[n + 1], value[n + 2], value[n + 3], value[n + 4]);
      var address := ManagementAddress(value[1..n], value[n], number, value[n + 6..]);
      if WellFormedManagementAddress(address) && value[n + 5] == |address.objectIdentifier| then Ok(address)
      else Err(InvalidManagementAddress)
  }

  // ---------- The data unit ----------

  function TlvsOf(tlvType: byte, values: seq<Bytes>): seq<Tlv> {
    seq(|values|, i requires 0 <= i < |values| => Tlv(tlvType, values[i]))
  }

  function EncodeManagementAddresses(addresses: seq<ManagementAddress>): seq<Bytes> {
    seq(|addresses|, i requires 0 <= i < |addresses| => EncodeManagementAddress(addresses[i]))
  }

  function MandatoryTlvs(unit: DataUnit): seq<Tlv> {
    [ Tlv(CHASSIS_ID, [unit.chassisId.subtype] + unit.chassisId.data),
      Tlv(PORT_ID, [unit.portId.subtype] + unit.portId.data),
      Tlv(TIME_TO_LIVE, EncodeTimeToLive(unit.timeToLive))]
  }

  /** What is left at its default is not sent. */
  function Unless(isDefault: bool, value: Bytes): seq<Bytes> {
    if isDefault then [] else [value]
  }

  function OptionalTlvs(unit: DataUnit): seq<Tlv> {
    TlvsOf(PORT_DESCRIPTION, unit.portDescriptions) +
    TlvsOf(SYSTEM_NAME, Unless(unit.systemName == [], unit.systemName)) +
    TlvsOf(SYSTEM_DESCRIPTION, Unless(unit.systemDescription == [], unit.systemDescription)) +
    TlvsOf(SYSTEM_CAPABILITIES, Unless(unit.systemCapabilities == DEFAULT_CAPABILITIES, EncodeSystemCapabilities(unit.systemCapabilities))) +
    TlvsOf(MANAGEMENT_ADDRESS, EncodeManagementAddresses(unit.managementAddresses))
  }

  function EncodeDataUnit(unit: DataUnit): Bytes {
    EncodeTlvs(MandatoryTlvs(unit)) + EncodeTlvs(OptionalTlvs(unit)) + EncodeTlv(Tlv(END, []))
  }

  function AbsorbMandatory(unit: DataUnit, expected: byte, tlv: Tlv): Parsed<DataUnit> {
    if tlv.tlvType != expected then Err(MandatoryTlvsOutOfOrder)
    else if tlv.tlvType == CHASSIS_ID then
      var id :- ParseChassisId(tlv.value);
      Ok(unit.(chassisId := id))
    else if tlv.tlvType == PORT_ID then
      var id :- ParsePortId(tlv.value);
      Ok(unit.(portId := id))
    else if tlv.tlvType == TIME_TO_LIVE then
      var ttl :- ParseTimeToLive(tlv.value);
      Ok(unit.(timeToLive := ttl))
    else Ok(unit)
  }

  function ParseMandatory(unit: DataUnit, expected: seq<byte>, data: Bytes): Parsed<(DataUnit, Bytes)>
    decreases |expected|
  {
    if expected == [] then Ok((unit, data))
    else
      var (tlv, consumed) :- ParseTlv(data);
      var next :- AbsorbMandatory(unit, expected[0], tlv);
      ParseMandatory(next, expected[1..], data[consumed..])
  }

  /** The data unit under construction and the counters of the TLVs that may occur at most once. */
  datatype OptionalState = OptionalState(
    unit: DataUnit,
    systemNameCount: nat,
    systemDescriptionCount: nat,
    systemCapabilitiesCount: nat)

  function Absorb(st: OptionalState, tlv: Tlv): Parsed<OptionalState> {
    var OptionalState(unit, names, descriptions, capabilities) := st;
    match tlv.tlvType
    case 1 => Err(RepeatedTlv(CHASSIS_ID))
    case 2 => Err(RepeatedTlv(PORT_ID))
    case 3 => Err(RepeatedTlv(TIME_TO_LIVE))
    case 4 => Ok(st.(unit := unit.(portDescriptions := unit.portDescriptions + [tlv.value])))
    case 5 =>
      if names != 0 then Err(RepeatedTlv(SYSTEM_NAME))
      else Ok(st.(unit := unit.(systemName := tlv.value), systemNameCount := names + 1))
    case 6 =>
      if descriptions != 0 then Err(RepeatedTlv(SYSTEM_DESCRIPTION))
      else Ok(st.(unit := unit.(systemDescription := tlv.value), systemDescriptionCount := descriptions + 1))
    case 7 =>
      if capabilities != 0 then Err(RepeatedTlv(SYSTEM_CAPABILITIES))
      else
        var c :- ParseSystemCapabilities(tlv.value);
        Ok(st.(unit := unit.(systemCapabilities := c), systemCapabilitiesCount := capabilities + 1))
    case 8 =>
      var a :- ParseManagementAddress(tlv.value);
      Ok(st.(unit := unit.(managementAddresses := unit.managementAddresses + [a])))
    case _ => Ok(st)
  }

  /** Reads TLVs until the end TLV or the end of the bytes. Terminates because every TLV takes at least two bytes. */
  function ParseOptional(st: OptionalState, data: Bytes): Parsed<DataUnit>
    decreases |data|
  {
    if data == [] then Ok(st.unit)
    else
      var (tlv, consumed) :- ParseTlv(data);
      if tlv.tlvType == END then Ok(st.unit)
      else
        var next :- Absorb(st, tlv);
        ParseOptional(next, data[consumed..])
  }

  function ParseDataUnit(data: Bytes): Parsed<DataUnit> {
    var (unit, rest) :- ParseMandatory(EMPTY_DATA_UNIT, MANDATORY_TLVS, data);
    ParseOptional(OptionalState(unit, 0, 0, 0), rest)
  }

  // ---------- The frame ----------

  function EncodeFrame(frame: Frame): Bytes {
    frame.destinationMac + frame.sourceMac + [LLDP_ETHER_TYPE / 0x100, LLDP_ETHER_TYPE % 0x100] +
    EncodeDataUnit(frame.dataUnit)
  }

  function ParseFrame(data: Bytes): Parsed<Frame> {
    if |data| < 14 then Err(InvalidEthernetHeader)
    else if Uint16(data[12], data[13]) != LLDP_ETHER_TYPE then Err(UnexpectedEtherType)
    else
      var unit :- ParseDataUnit(data[14..]);
      Ok(Frame(data[..6], data[6..12], unit))
  }

  // ---------- The original's loops ----------

  method MakeTlv(tlv: Tlv) returns (data: Bytes)
    ensures data == EncodeTlv(tlv)
  {
    data := [];
    var length := |tlv.value|;
    data := data + [tlv.tlvType * 2 % 0x100 + length / 0x100 % 2];
    data := data + [length % 0x100];
    if length != 0 {
      data := data + tlv.value;
    }
  }

  method MakeManagementAddress(address: ManagementAddress) returns (data: Bytes)
    ensures data == EncodeManagementAddress(address)
  {
    data := [|address.networkAddress| % 0x100];
    data := data + address.networkAddress;
    data := data + [address.interfaceNumbering];
    data := data + [address.interfaceNumber / 0x100_0000 % 0x100];
    data := data + [address.interfaceNumber / 0x1_0000 % 0x100];
    data := data + [address.interfaceNumber / 0x100 % 0x100];
    data := data + [address.interfaceNumber % 0x100];
    data := data + [|address.objectIdentifier| % 0x100];
    data := data + address.objectIdentifier;
  }

  /** Walks `value` with an index and the count of bytes left, checking each field before reading it. */
  method ReadManagementAddress(value: Bytes) returns (r: Parsed<ManagementAddress>)
    ensures r == ParseManagementAddress(value)
  {
    var left := |value|;
    var idx: nat := 0;
    if left < 1 { return Err(InvalidManagementAddress); }
    var addressLength: nat := value[idx];
    idx, left := idx + 1, left - 1;
    if addressLength > left { return Err(InvalidManagementAddress); }
    if left < 1 { return Err(InvalidManagementAddress); }
    var family := value[idx];
    idx, left := idx + 1, left - 1;
    var m := addressLength - 1;
    if !(1 <= m <= 31 && IsValidNetworkAddressDataSize(family, m)) { return Err(InvalidManagementAddress); }
    if family != IPV4 && family != IPV6 && family != MAC && family != DNS { return Err(InvalidManagementAddress); }
    var networkAddress := [family] + value[idx..idx + m];
    assert networkAddress == value[1..1 + value[0]];
    if !IsNetworkAddress(networkAddress) { return Err(InvalidManagementAddress); }
    idx, left := idx + m, left - m;
    if left < 1 { return Err(InvalidManagementAddress); }
    var numbering := value[idx];
    idx, left := idx + 1, left - 1;
    if left < 4 { return Err(InvalidManagementAddress); }
    var number := Uint32(value[idx], value[idx + 1], value[idx + 2], value[idx + 3]);
    idx, left := idx + 4, left - 4;
    if numbering == UNKNOWN_INTERFACE_NUMBERING && number != 0 { return Err(InvalidManagementAddress); }
    if left < 1 { return Err(InvalidManagementAddress); }
    var oidLength := value[idx];
    idx, left := idx + 1, left - 1;
    var oid := value[idx..];
    if oidLength != |oid| { return Err(InvalidManagementAddress); }
    return Ok(ManagementAddress(networkAddress, numbering, number, oid));
  }

  lemma {:induction false} EncodeTlvsAppend(a: seq<Tlv>, b: seq<Tlv>)
    ensures EncodeTlvs(a + b) == EncodeTlvs(a) + EncodeTlvs(b)
  {
    if a == [] {
      assert a + b == b;
    } else {
      assert (a + b)[0] == a[0] && (a + b)[1..] == a[1..] + b;
      EncodeTlvsAppend(a[1..], b);
    }
  }

  lemma EncodeTlvsOne(t: Tlv)
    ensures EncodeTlvs([t]) == EncodeTlv(t)
  {
  }

  method PushTlv(data: Bytes, ghost done: seq<Tlv>, tlv: Tlv) returns (grown: Bytes)
    requires data == EncodeTlvs(done)
    ensures grown == EncodeTlvs(done + [tlv])
  {
    var bytes := MakeTlv(tlv);
    grown := data + bytes;
    EncodeTlvsAppend(done, [tlv]);
    EncodeTlvsOne(tlv);
  }

  method PushPortDescriptions(start: Bytes, ghost done: seq<Tlv>, values: seq<Bytes>) returns (data: Bytes)
    requires start == EncodeTlvs(done)
    ensures data == EncodeTlvs(done + TlvsOf(PORT_DESCRIPTION, values))
  {
    data := start;
    ghost var tlvs := TlvsOf(PORT_DESCRIPTION, values);
    assert done + tlvs[..0] == done;
    for i := 0 to |values|
      invariant data == EncodeTlvs(done + tlvs[..i])
    {
      data := PushTlv(data, done + tlvs[..i], Tlv(PORT_DESCRIPTION, values[i]));
      assert done + tlvs[..i] + [tlvs[i]] == done + tlvs[..i + 1];
    }
    assert tlvs[..|values|] == tlvs;
  }

  method PushManagementAddresses(start: Bytes, ghost done: seq<Tlv>, addresses: seq<ManagementAddress>) returns (data: Bytes)
    requires start == EncodeTlvs(done)
    ensures data == EncodeTlvs(done + TlvsOf(MANAGEMENT_ADDRESS, EncodeManagementAddresses(addresses)))
  {
    data := start;
    ghost var tlvs := TlvsOf(MANAGEMENT_ADDRESS, EncodeManagementAddresses(addresses));
    assert done + tlvs[..0] == done;
    for i := 0 to |addresses|
      invariant data == EncodeTlvs(done + tlvs[..i])
    {
      var bytes := MakeManagementAddress(addresses[i]);
      data := PushTlv(data, done + tlvs[..i], Tlv(MANAGEMENT_ADDRESS, bytes));
      assert done + tlvs[..i] + [tlvs[i]] == done + tlvs[..i + 1];
    }
    assert tlvs[..|addresses|] == tlvs;
  }

  /** A TLV that is sent only when it differs from the default. */
  method PushUnless(start: Bytes, ghost done: seq<Tlv>, isDefault: bool, tlv: Tlv) returns (data: Bytes)
    requires start == EncodeTlvs(done)
    ensures data == EncodeTlvs(done + TlvsOf(tlv.tlvType, Unless(isDefault, tlv.value)))
  {
    data := start;
    if isDefault {
      assert done + TlvsOf(tlv.tlvType, []) == done;
    } else {
      data := PushTlv(data, done, tlv);
      assert TlvsOf(tlv.tlvType, [tlv.value]) == [tlv];
    }
  }

  method PushOptional(start: Bytes, ghost done: seq<Tlv>, unit: DataUnit) returns (data: Bytes)
    requires start == EncodeTlvs(done)
    ensures data == EncodeTlvs(done + OptionalTlvs(unit))
  {
    var capabilities := EncodeSystemCapabilities(unit.systemCapabilities);
    ghost var a := TlvsOf(PORT_DESCRIPTION, unit.portDescriptions);
    ghost var b := TlvsOf(SYSTEM_NAME, Unless(unit.systemName == [], unit.systemName));
    ghost var c := TlvsOf(SYSTEM_DESCRIPTION, Unless(unit.systemDescription == [], unit.systemDescription));
    ghost var d := TlvsOf(SYSTEM_CAPABILITIES, Unless(unit.systemCapabilities == DEFAULT_CAPABILITIES, capabilities));
    ghost var e := TlvsOf(MANAGEMENT_ADDRESS, EncodeManagementAddresses(unit.managementAddresses));

    data := PushPortDescriptions(start, done, unit.portDescriptions);
    data := PushUnless(data, done + a, unit.systemName == [], Tlv(SYSTEM_NAME, unit.systemName));
    data := PushUnless(data, done + a + b, unit.systemDescription == [], Tlv(SYSTEM_DESCRIPTION, unit.systemDescription));
    data := PushUnless(data, done + a + b + c, unit.systemCapabilities == DEFAULT_CAPABILITIES, Tlv(SYSTEM_CAPABILITIES, capabilities));
    data := PushManagementAddresses(data, done + a + b + c + d, unit.managementAddresses);
    ConcatAssociates(done, a, b, c, d, e);
  }

  lemma ConcatAssociates<T>(x: seq<T>, a: seq<T>, b: seq<T>, c: seq<T>, d: seq<T>, e: seq<T>)
    ensures x + a + b + c + d + e == x + (a + b + c + d + e)
  {
  }

  method MakeDataUnit(unit: DataUnit) returns (data: Bytes)
    ensures data == EncodeDataUnit(unit)
  {
    data := [];
    var chassis := Tlv(CHASSIS_ID, [unit.chassisId.subtype] + unit.chassisId.data);
    data := PushTlv(data, [], chassis);
    var port := Tlv(PORT_ID, [unit.portId.subtype] + unit.portId.data);
    data := PushTlv(data, [] + [chassis], port);
    var ttl := Tlv(TIME_TO_LIVE, EncodeTimeToLive(unit.timeToLive));
    data := PushTlv(data, [] + [chassis] + [port], ttl);
    ghost var done := [] + [chassis] + [port] + [ttl];
    assert done == MandatoryTlvs(unit);

    data := PushOptional(data, done, unit);
    EncodeTlvsAppend(MandatoryTlvs(unit), OptionalTlvs(unit));
    var end := MakeTlv(Tlv(END, []));
    data := data + end;
  }

  method ReadDataUnit(data: Bytes) returns (r: Parsed<DataUnit>)
    ensures r == ParseDataUnit(data)
  {
    var unit := EMPTY_DATA_UNIT;
    var rest := data;
    for i := 0 to |MANDATORY_TLVS|
      invariant ParseMandatory(unit, MANDATORY_TLVS[i..], rest) == ParseMandatory(EMPTY_DATA_UNIT, MANDATORY_TLVS, data)
    {
      var parsed := ParseTlv(rest);
      if parsed.Err? { return Err(parsed.error); }
      var (tlv, consumed) := parsed.value;
      assert MANDATORY_TLVS[i..][1..] == MANDATORY_TLVS[i + 1..];
      var next := AbsorbMandatory(unit, MANDATORY_TLVS[i], tlv);
      if next.Err? { return Err(next.error); }
      unit, rest := next.value, rest[consumed..];
    }

    var systemNameCount, systemDescriptionCount, systemCapabilitiesCount := 0, 0, 0;
    while |rest| > 0
      invariant systemNameCount >= 0 && systemDescriptionCount >= 0 && systemCapabilitiesCount >= 0
      invariant ParseOptional(OptionalState(unit, systemNameCount, systemDescriptionCount, systemCapabilitiesCount), rest)
             == ParseDataUnit(data)
      decreases |rest|
    {
      ghost var st := OptionalState(unit, systemNameCount, systemDescriptionCount, systemCapabilitiesCount);
      var parsed := ParseTlv(rest);
      if parsed.Err? { return Err(parsed.error); }
      var (tlv, consumed) := parsed.value;
      if tlv.tlvType == END {
        return Ok(unit);
      } else if tlv.tlvType == CHASSIS_ID || tlv.tlvType == PORT_ID || tlv.tlvType == TIME_TO_LIVE {
        return Err(RepeatedTlv(tlv.tlvType));
      } else if tlv.tlvType == PORT_DESCRIPTION {
        unit := unit.(portDescriptions := unit.portDescriptions + [tlv.value]);
      } else if tlv.tlvType == SYSTEM_NAME {
        if systemNameCount != 0 { return Err(RepeatedTlv(SYSTEM_NAME)); }
        systemNameCount := systemNameCount + 1;
        unit := unit.(systemName := tlv.value);
      } else if tlv.tlvType == SYSTEM_DESCRIPTION {
        if systemDescriptionCount != 0 { return Err(RepeatedTlv(SYSTEM_DESCRIPTION)); }
        systemDescriptionCount := systemDescriptionCount + 1;
        unit := unit.(systemDescription := tlv.value);
      } else if tlv.tlvType == SYSTEM_CAPABILITIES {
        if systemCapabilitiesCount != 0 { return Err(RepeatedTlv(SYSTEM_CAPABILITIES)); }
        systemCapabilitiesCount := systemCapabilitiesCount + 1;
        var capabilities := ParseSystemCapabilities(tlv.value);
        if capabilities.Err? { return Err(capabilities.error); }
        unit := unit.(systemCapabilities := capabilities.value);
      } else if tlv.tlvType == MANAGEMENT_ADDRESS {
        var address := ReadManagementAddress(tlv.value);
        if address.Err? { return Err(address.error); }
        unit := unit.(managementAddresses := unit.managementAddresses + [address.value]);
      }
      assert Absorb(st, tlv) ==
             Ok(OptionalState(unit, systemNameCount, systemDescriptionCount, systemCapabilitiesCount));
      rest := rest[consumed..];
    }
    return Ok(unit);
  }

  method MakeFrame(frame: Frame) returns (data: Bytes)
    ensures data == EncodeFrame(frame)
  {
    data := [];
    data := data + frame.destinationMac;
    data := data + frame.sourceMac;
    data := data + [LLDP_ETHER_TYPE / 0x100, LLDP_ETHER_TYPE % 0x100];
    var unit := MakeDataUnit(frame.dataUnit);
    data := data + unit;
  }

  method ReadFrame(data: Bytes) returns (r: Parsed<Frame>)
    ensures r == ParseFrame(data)
  {
    if |data| < 14 { return Err(InvalidEthernetHeader); }
    var rest := data;
    var destinationMac := rest[..6];
    rest := rest[6..];
    var sourceMac := rest[..6];
    rest := rest[6..];
    if Uint16(rest[0], rest[1]) != LLDP_ETHER_TYPE { return Err(UnexpectedEtherType); }
    rest := rest[2..];
    assert rest == data[14..] && sourceMac == data[6..12];
    var unit := ReadDataUnit(rest);
    if unit.Err? { return Err(unit.error); }
    return Ok(Frame(destinationMac, sourceMac, unit.value));
  }
}
