/** What an LLDP frame looks like on the wire, in the numbers of IEEE Std 802.1AB-2016 (sections 8.4 and 8.5), and which
    identifiers and addresses are accepted, in the same numbers. Nothing here is said through the codec's constants. */
module LldpWire {
  import opened Results
  import opened Lldp
  import opened LldpFrame
  import opened LldpStreamProofs
  import opened LldpRoundTrip
  import opened Sequences

  // ---------- The layout of a frame ----------

  /** A TLV: its type in the upper seven bits of the first byte, as `first`, and the ninth bit of its length in the
      lowest, the rest of the length, and the value. */
  ghost function Wire(first: nat, value: seq<int>): seq<int> {
    [first + |value| / 256, |value| % 256] + value
  }

  /** One TLV for each value. */
  ghost function Wires(first: nat, values: seq<Bytes>): seq<int> {
    if values == [] then [] else Wire(first, values[0]) + Wires(first, values[1..])
  }

  /** One TLV, unless it is left out. */
  ghost function WireIf(present: bool, first: nat, value: seq<int>): seq<int> {
    if present then Wire(first, value) else []
  }

  ghost function AddressValue(a: ManagementAddress): seq<int> {
    [|a.networkAddress|] + a.networkAddress +
    [a.interfaceNumbering,
     a.interfaceNumber / 16777216, a.interfaceNumber / 65536 % 256, a.interfaceNumber / 256 % 256, a.interfaceNumber % 256] +
    [|a.objectIdentifier|] + a.objectIdentifier
  }

  ghost function AddressValues(addresses: seq<ManagementAddress>): seq<int> {
    if addresses == [] then [] else Wire(16, AddressValue(addresses[0])) + AddressValues(addresses[1..])
  }

  ghost function MandatoryLayout(u: DataUnit): seq<int> {
    Wire(2, [u.chassisId.subtype] + u.chassisId.data) + Wire(4, [u.portId.subtype] + u.portId.data) +
    [6, 2, u.timeToLive / 256, u.timeToLive % 256]
  }

  ghost function OptionalLayout(u: DataUnit): seq<int> {
    Wires(8, u.portDescriptions) + WireIf(u.systemName != [], 10, u.systemName) +
    WireIf(u.systemDescription != [], 12, u.systemDescription) +
    WireIf(u.systemCapabilities != SystemCapabilities(1, 1), 14,
      [u.systemCapabilities.system / 256, u.systemCapabilities.system % 256,
       u.systemCapabilities.enabled / 256, u.systemCapabilities.enabled % 256]) +
    AddressValues(u.managementAddresses)
  }

  ghost function FrameLayout(f: Frame): seq<int> {
    f.destinationMac + f.sourceMac + [0x88, 0xCC] + MandatoryLayout(f.dataUnit) + OptionalLayout(f.dataUnit) + [0, 0]
  }

  lemma TlvOnWire(tlvType: byte, value: Bytes)
    requires tlvType < 0x80 && |value| < 0x200
    ensures EncodeTlv(Tlv(tlvType, value)) == Wire(2 * tlvType as int, value)
  {
    var n := |value| / 0x100;
    assert n == 0 || n == 1;
  }

  lemma TlvsAppend(a: seq<Tlv>, b: seq<Tlv>)
    ensures EncodeTlvs(a + b) == EncodeTlvs(a) + EncodeTlvs(b)
  {
    EncodeTlvsAppend(a, b);
  }

  lemma {:induction false} TlvsOnWire(tlvType: byte, values: seq<Bytes>)
    requires tlvType < 0x80 && forall v <- values :: |v| < 0x200
    ensures EncodeTlvs(TlvsOf(tlvType, values)) == Wires(2 * tlvType as int, values)
    decreases |values|
  {
    if values != [] {
      TlvOnWire(tlvType, values[0]);
      TlvsOnWire(tlvType, values[1..]);
      assert TlvsOf(tlvType, values)[1..] == TlvsOf(tlvType, values[1..]);
    }
  }

  lemma UnlessOnWire(tlvType: byte, isDefault: bool, value: Bytes)
    requires tlvType < 0x80 && |value| < 0x200
    ensures EncodeTlvs(TlvsOf(tlvType, Unless(isDefault, value))) == WireIf(!isDefault, 2 * tlvType as int, value)
  {
    TlvsOnWire(tlvType, Unless(isDefault, value));
    if !isDefault {
      assert [value][1..] == [];
      assert Wires(2 * tlvType as int, [value]) == Wire(2 * tlvType as int, value) + [];
    }
  }

  lemma QuotientOfUint32(n: uint32)
    ensures n / 0x100_0000 % 0x100 == n / 0x100_0000
  {
  }

  lemma AddressOnWire(a: ManagementAddress)
    requires WellFormedManagementAddress(a)
    ensures EncodeManagementAddress(a) == AddressValue(a) && |AddressValue(a)| < 0x200
  {
    QuotientOfUint32(a.interfaceNumber);
  }

  lemma {:induction false} AddressesOnWire(addresses: seq<ManagementAddress>)
    requires forall a <- addresses :: WellFormedManagementAddress(a)
    ensures EncodeTlvs(TlvsOf(MANAGEMENT_ADDRESS, EncodeManagementAddresses(addresses))) == AddressValues(addresses)
    decreases |addresses|
  {
    if addresses != [] {
      var values := EncodeManagementAddresses(addresses);
      AddressOnWire(addresses[0]);
      TlvOnWire(MANAGEMENT_ADDRESS, values[0]);
      AddressesOnWire(addresses[1..]);
      assert TlvsOf(MANAGEMENT_ADDRESS, values)[1..] == TlvsOf(MANAGEMENT_ADDRESS, EncodeManagementAddresses(addresses[1..]));
    }
  }

  lemma MandatoryOnWire(u: DataUnit)
    requires WellFormedUnit(u)
    ensures EncodeTlvs(MandatoryTlvs(u)) == MandatoryLayout(u)
  {
    var tlvs := MandatoryTlvs(u);
    TlvOnWire(1, tlvs[0].value);
    TlvOnWire(2, tlvs[1].value);
    MandatoryBytes(u);
    TimeToLiveOnWire(u.timeToLive);
    ThreeParts(EncodeTlv(tlvs[0]), EncodeTlv(tlvs[1]), u.timeToLive / 256, u.timeToLive % 256);
  }

  lemma TimeToLiveOnWire(seconds: int)
    requires 0 <= seconds < 0x1_0000
    ensures EncodeTimeToLive(seconds) == [seconds / 256, seconds % 256]
  {
    assert 0 <= seconds / 0x100 < 0x100;
  }

  lemma ThreeParts(a: seq<int>, b: seq<int>, x: int, y: int)
    ensures (a + b + [6, 2]) + [x, y] == a + b + [6, 2, x, y]
  {
  }

  lemma FiveTlvs(a: seq<Tlv>, b: seq<Tlv>, c: seq<Tlv>, d: seq<Tlv>, e: seq<Tlv>)
    ensures EncodeTlvs(a + b + c + d + e) == EncodeTlvs(a) + EncodeTlvs(b) + EncodeTlvs(c) + EncodeTlvs(d) + EncodeTlvs(e)
  {
    TlvsAppend(a + b + c + d, e);
    TlvsAppend(a + b + c, d);
    TlvsAppend(a + b, c);
    TlvsAppend(a, b);
  }

  lemma OptionalInParts(u: DataUnit)
    ensures EncodeTlvs(OptionalTlvs(u)) ==
            EncodeTlvs(TlvsOf(4, u.portDescriptions)) + EncodeTlvs(TlvsOf(5, Unless(u.systemName == [], u.systemName))) +
            EncodeTlvs(TlvsOf(6, Unless(u.systemDescription == [], u.systemDescription))) +
            EncodeTlvs(TlvsOf(7, Unless(u.systemCapabilities == SystemCapabilities(1, 1), EncodeSystemCapabilities(u.systemCapabilities)))) +
            EncodeTlvs(TlvsOf(8, EncodeManagementAddresses(u.managementAddresses)))
  {
    FiveTlvs(TlvsOf(4, u.portDescriptions), TlvsOf(5, Unless(u.systemName == [], u.systemName)),
             TlvsOf(6, Unless(u.systemDescription == [], u.systemDescription)),
             TlvsOf(7, Unless(u.systemCapabilities == SystemCapabilities(1, 1), EncodeSystemCapabilities(u.systemCapabilities))),
             TlvsOf(8, EncodeManagementAddresses(u.managementAddresses)));
  }

  lemma CapabilitiesOnWire(c: SystemCapabilities)
    ensures EncodeTlvs(TlvsOf(7, Unless(c == SystemCapabilities(1, 1), EncodeSystemCapabilities(c)))) ==
            WireIf(c != SystemCapabilities(1, 1), 14, [c.system / 256, c.system % 256, c.enabled / 256, c.enabled % 256])
  {
    UnlessOnWire(7, c == SystemCapabilities(1, 1), EncodeSystemCapabilities(c));
  }

  lemma OptionalOnWire(u: DataUnit)
    requires WellFormedUnit(u)
    ensures EncodeTlvs(OptionalTlvs(u)) == OptionalLayout(u)
  {
    TlvsOnWire(4, u.portDescriptions);
    UnlessOnWire(5, u.systemName == [], u.systemName);
    UnlessOnWire(6, u.systemDescription == [], u.systemDescription);
    CapabilitiesOnWire(u.systemCapabilities);
    AddressesOnWire(u.managementAddresses);
    OptionalInParts(u);
  }

  /** Every well-formed frame is laid out as the standard has it, byte by byte. */
  lemma FrameOnWire(f: Frame)
    requires WellFormedFrame(f)
    ensures EncodeFrame(f) == FrameLayout(f)
  {
    MandatoryOnWire(f.dataUnit);
    OptionalOnWire(f.dataUnit);
    TlvOnWire(0, []);
    EndOnWire(f.destinationMac + f.sourceMac + [0x88, 0xCC], MandatoryLayout(f.dataUnit), OptionalLayout(f.dataUnit));
  }

  lemma EndOnWire(header: seq<int>, mandatory: seq<int>, optional: seq<int>)
    ensures header + (mandatory + optional + Wire(0, [])) == header + mandatory + optional + [0, 0]
  {
    assert Wire(0, []) == [0, 0];
  }

  /** A data unit that stops in front of its end TLV is read all the same. */
  lemma EndMayBeMissing(u: DataUnit)
    requires WellFormedUnit(u)
    ensures var d := EncodeDataUnit(u); ParseDataUnit(d[..|d| - 2]) == Ok(u)
  {
    var mandatory, optional := EncodeTlvs(MandatoryTlvs(u)), EncodeTlvs(OptionalTlvs(u));
    Parts(mandatory + optional, EncodeTlv(Tlv(END, [])));
    ParseMandatoryOfStream(EMPTY_DATA_UNIT, MANDATORY_TLVS, MandatoryTlvs(u), optional);
    AbsorbMandatoryTlvs(u);
    OptionalTlvsAreFramed(u);
    var st := OptionalState(EMPTY_DATA_UNIT.(chassisId := u.chassisId, portId := u.portId, timeToLive := u.timeToLive), 0, 0, 0);
    AbsorbOptionalTlvs(st, u);
    ParseOptionalOfStream(st, OptionalTlvs(u), []);
    assert optional + [] == optional;
  }

  /** Where the addresses and the EtherType are, with six-byte addresses, whatever the data unit. */
  lemma HeaderOnWire(f: Frame)
    requires |f.destinationMac| == 6 && |f.sourceMac| == 6
    ensures var d := EncodeFrame(f);
            |d| >= 14 && d[..6] == f.destinationMac && d[6..12] == f.sourceMac && d[12..14] == [0x88, 0xCC]
  {
    var header := f.destinationMac + f.sourceMac + [0x88, 0xCC];
    Parts(header, EncodeDataUnit(f.dataUnit));
  }

  /** Whatever is accepted is an LLDP frame by its EtherType, starts with a chassis ID, and yields its addresses. */
  lemma AcceptedHeader(d: Bytes)
    ensures forall f | ParseFrame(d) == Ok(f) ::
              && |d| >= 16 && d[12] == 0x88 && d[13] == 0xCC && d[14] / 2 == 1
              && f.destinationMac == d[..6] && f.sourceMac == d[6..12]
  {
    if ParseFrame(d).Ok? {
      assert ParseTlv(d[14..]).Ok?;
      var (tlv, _) := ParseTlv(d[14..]).value;
      assert AbsorbMandatory(EMPTY_DATA_UNIT, 1, tlv).Ok?;
    }
  }

  // ---------- What is accepted ----------

  /** A family byte and as many bytes as an address of this family has; a DNS name is not empty. */
  ghost predicate IsAddress(data: seq<int>) {
    || (|data| == 5 && data[0] == 1)
    || (|data| == 17 && data[0] == 2)
    || (|data| == 7 && data[0] == 6)
    || (|data| >= 2 && data[0] == 16)
  }

  lemma NetworkAddressAccepted(data: Bytes)
    ensures IsNetworkAddress(data) <==> IsAddress(data)
  {
  }

  /** Eight subtypes of chassis ID, two of which are looked into. */
  lemma ChassisIdAccepted(value: Bytes)
    ensures ParseChassisId(value).Ok? <==>
            && value != [] && value[0] <= 7
            && (value[0] == 4 ==> |value| >= 7) && (value[0] == 5 ==> IsAddress(value[1..]))
  {
    if value != [] {
      NetworkAddressAccepted(value[1..]);
    }
  }

  lemma PortIdAccepted(value: Bytes)
    ensures ParsePortId(value).Ok? <==>
            && value != [] && value[0] <= 7
            && (value[0] == 3 ==> |value| >= 7) && (value[0] == 4 ==> IsAddress(value[1..]))
  {
    if value != [] {
      NetworkAddressAccepted(value[1..]);
    }
  }

  /** Two bytes at least, the higher first; what is behind them is ignored. */
  lemma TimeToLiveAccepted(value: Bytes)
    ensures if |value| >= 2 then ParseTimeToLive(value) == Ok(256 * value[0] as int + value[1] as int) else ParseTimeToLive(value).Err?
  {
  }

  /** Four bytes at least. */
  lemma SystemCapabilitiesAccepted(value: Bytes)
    ensures var r := ParseSystemCapabilities(value);
            if |value| >= 4 then
              && r.Ok?
              && r.value.system == 256 * value[0] as int + value[1] as int
              && r.value.enabled == 256 * value[2] as int + value[3] as int
            else r.Err?
  {
  }

  /** The lengths of a management address: 5, 17, 7, or from 2 to 32, by its family; then seven bytes about the
      interface and the object identifier, which takes the rest. */
  lemma ManagementAddressAccepted(value: Bytes)
    ensures ParseManagementAddress(value).Ok? <==>
            && value != [] && |value| >= value[0] as int + 7 && value[0] <= 32
            && IsAddress(value[1..value[0] as int + 1])
            && var n := value[0] as int + 1;
               && (value[n] == 1 ==> value[n + 1] == 0 && value[n + 2] == 0 && value[n + 3] == 0 && value[n + 4] == 0)
               && value[n + 5] == |value| - (n + 6)
  {
    if value != [] && |value| >= value[0] as int + 7 {
      var n := value[0] as int + 1;
      var number := Uint32(value[n + 1], value[n + 2], value[n + 3], value[n + 4]);
      var a := ManagementAddress(value[1..n], value[n], number, value[n + 6..]);
      assert ParseManagementAddress(value).Ok? <==> WellFormedManagementAddress(a) && value[n + 5] == |a.objectIdentifier|;
      WellFormedAddressIs(a);
      ZeroUint32(value[n + 1], value[n + 2], value[n + 3], value[n + 4]);
    }
  }

  lemma WellFormedAddressIs(a: ManagementAddress)
    ensures WellFormedManagementAddress(a) <==>
            && |a.networkAddress| <= 32 && IsAddress(a.networkAddress)
            && (a.interfaceNumbering == 1 ==> a.interfaceNumber == 0)
            && |a.objectIdentifier| <= 255
  {
    NetworkAddressAccepted(a.networkAddress);
  }

  lemma ZeroUint32(b3: byte, b2: byte, b1: byte, b0: byte)
    ensures Uint32(b3, b2, b1, b0) == 0 <==> b3 == 0 && b2 == 0 && b1 == 0 && b0 == 0
  {
  }
}
