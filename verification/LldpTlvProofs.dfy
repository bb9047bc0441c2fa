/** The parts an LLDP frame is made of: every TLV and every management address has exactly one encoding. */
module LldpTlvProofs {
  import opened Results
  import opened Lldp
  import opened LldpFrame

  // ---------- One TLV ----------

  /** A TLV whose type and length fit their fields. */
  ghost predicate WellFramed(t: Tlv) {
    t.tlvType < 0x80 && |t.value| < 0x200
  }

  lemma ByteDivision(n: int)
    requires n >= 0
    ensures n == n / 0x100 * 0x100 + n % 0x100 && 0 <= n % 0x100 < 0x100
  {
  }

  lemma ByteQuotient(q: int, r: byte)
    ensures (q * 0x100 + r) / 0x100 == q && (q * 0x100 + r) % 0x100 == r
  {
  }

  lemma LowBits(high: int, low: int)
    requires 0 <= low < 0x200
    ensures (high * 0x200 + low) % 0x200 == low
  {
  }

  lemma HalfOf(b: byte)
    ensures b == b / 2 * 2 + b % 2 && 0 <= b / 2 < 0x80
  {
  }

  /** The type and the ninth bit of the length, from the first byte, and the length, from both. */
  lemma HeaderHolds(tlvType: byte, length: nat)
    requires tlvType < 0x80 && length < 0x200
    ensures var b0 := tlvType * 2 % 0x100 + length / 0x100 % 2;
            b0 / 2 == tlvType && Uint16(b0, length % 0x100) % 0x200 == length
  {
    ByteDivision(length);
    assert length / 0x100 == 0 || length / 0x100 == 1;
    LowBits(tlvType as int, length);
  }

  lemma ParseTlvUndoesEncode(t: Tlv, rest: Bytes)
    requires WellFramed(t)
    ensures ParseTlv(EncodeTlv(t) + rest) == Ok((t, 2 + |t.value|))
    ensures (EncodeTlv(t) + rest)[2 + |t.value|..] == rest
  {
    HeaderHolds(t.tlvType, |t.value|);
    ParseLaidOut(t, t.tlvType * 2 % 0x100 + |t.value| / 0x100 % 2, |t.value| % 0x100, rest);
  }

  lemma ParseLaidOut(t: Tlv, b0: byte, b1: byte, rest: Bytes)
    requires b0 / 2 == t.tlvType && Uint16(b0, b1) % 0x200 == |t.value|
    ensures ParseTlv([b0, b1] + t.value + rest) == Ok((t, 2 + |t.value|))
    ensures ([b0, b1] + t.value + rest)[2 + |t.value|..] == rest
  {
    var data := [b0, b1] + t.value + rest;
    assert data[0] == b0 && data[1] == b1 && data[2..2 + |t.value|] == t.value;
  }

  lemma TlvHeader(b0: byte, b1: byte)
    ensures var n := Uint16(b0, b1) % 0x200;
            b0 / 2 * 2 % 0x100 + n / 0x100 % 2 == b0 && n % 0x100 == b1
  {
    var low := b0 as int % 2;
    HalfOf(b0);
    LowBits(b0 as int / 2, low * 0x100 + b1);
    ByteQuotient(low, b1);
  }

  lemma EncodingOfParsed(t: Tlv, b0: byte, b1: byte)
    requires t.tlvType == b0 / 2 && |t.value| == Uint16(b0, b1) % 0x200
    ensures WellFramed(t) && EncodeTlv(t) == [b0, b1] + t.value
  {
    TlvHeader(b0, b1);
    HalfOf(b0);
  }

  lemma ParsedIsEncoding(data: Bytes, t: Tlv, consumed: nat)
    requires ParseTlv(data) == Ok((t, consumed))
    ensures WellFramed(t) && consumed == 2 + |t.value| <= |data| && data == EncodeTlv(t) + data[consumed..]
  {
    EncodingOfParsed(t, data[0], data[1]);
    Rejoined(data, consumed);
  }

  lemma Rejoined(data: Bytes, consumed: nat)
    requires 2 <= consumed <= |data|
    ensures data == [data[0], data[1]] + data[2..consumed] + data[consumed..]
  {
  }

  /** A TLV is read from the front of some bytes exactly when its type and length fit and its encoding is there. */
  lemma TlvIsCanonical(data: Bytes, t: Tlv, consumed: nat)
    ensures ParseTlv(data) == Ok((t, consumed)) <==>
            WellFramed(t) && consumed == 2 + |t.value| <= |data| && data == EncodeTlv(t) + data[consumed..]
  {
    if ParseTlv(data) == Ok((t, consumed)) {
      ParsedIsEncoding(data, t, consumed);
    } else if WellFramed(t) && consumed == 2 + |t.value| <= |data| && data == EncodeTlv(t) + data[consumed..] {
      ParseTlvUndoesEncode(t, data[consumed..]);
    }
  }

  // ---------- Management addresses: the format is canonical ----------

  lemma FourDigits(n: int, q1: int, q2: int, q3: int, r0: int, r1: int, r2: int)
    requires n == q1 * 0x100 + r0 && q1 == q2 * 0x100 + r1 && q2 == q3 * 0x100 + r2
    ensures (q3 * 0x100 + r2) * 0x1_0000 + (r1 * 0x100 + r0) == n
  {
  }

  lemma Uint32RoundTrip(n: uint32)
    ensures Uint32(n / 0x100_0000 % 0x100, n / 0x1_0000 % 0x100, n / 0x100 % 0x100, n % 0x100) == n
  {
    var a: int := n;
    var q1 := a / 0x100;
    var q2 := q1 / 0x100;
    var q3 := q2 / 0x100;
    NestedQuotients(a);
    ByteDivision(a);
    ByteDivision(q1);
    ByteDivision(q2);
    assert q3 % 0x100 == q3;
    FourDigits(a, q1, q2, q3, a % 0x100, q1 % 0x100, q2 % 0x100);
  }

  lemma EncodeUint32Inverse(b3: byte, b2: byte, b1: byte, b0: byte)
    ensures EncodeUint32(Uint32(b3, b2, b1, b0)) == [b3, b2, b1, b0]
  {
    var n: int := Uint32(b3, b2, b1, b0);
    NestedQuotients(n);
    ByteQuotient(b3 as int * 0x1_0000 + b2 as int * 0x100 + b1 as int, b0);
    ByteQuotient(b3 as int * 0x100 + b2 as int, b1);
    ByteQuotient(b3 as int, b2);
  }

  lemma NestedQuotients(n: int)
    requires n >= 0
    ensures n / 0x1_0000 == n / 0x100 / 0x100 && n / 0x100_0000 == n / 0x100 / 0x100 / 0x100
  {
  }

  lemma ManagementAddressLayout(address: Bytes, numbering: byte, number: Bytes, k: byte, oid: Bytes, value: Bytes)
    requires |address| < 0x100 && |number| == 4
    requires value == [|address|] + address + [numbering] + number + [k] + oid
    ensures |value| == |address| + 7 + |oid| && value[0] == |address|
    ensures value[1..|address| + 1] == address
    ensures value[|address| + 1] == numbering
    ensures number == [value[|address| + 2], value[|address| + 3], value[|address| + 4], value[|address| + 5]]
    ensures value[|address| + 6] == k
    ensures value[|address| + 7..] == oid
  {
  }

  lemma LaidOutAddressParses(a: ManagementAddress, number: Bytes, value: Bytes)
    requires WellFormedManagementAddress(a) && |number| == 4
    requires Uint32(number[0], number[1], number[2], number[3]) == a.interfaceNumber
    requires value == [|a.networkAddress|] + a.networkAddress + [a.interfaceNumbering] + number +
                      [|a.objectIdentifier|] + a.objectIdentifier
    ensures ParseManagementAddress(value) == Ok(a)
  {
    ManagementAddressLayout(a.networkAddress, a.interfaceNumbering, number, |a.objectIdentifier|, a.objectIdentifier, value);
  }

  lemma Reassemble(value: Bytes, n: nat)
    requires 1 <= n && n + 6 <= |value|
    ensures value == [value[0]] + value[1..n] + [value[n]] + [value[n + 1], value[n + 2], value[n + 3], value[n + 4]]
                     + [value[n + 5]] + value[n + 6..]
  {
  }

  lemma EncodingFromParts(a: ManagementAddress, first: byte, number: Bytes, k: byte)
    requires |a.networkAddress| == first as int && |a.objectIdentifier| == k as int && EncodeUint32(a.interfaceNumber) == number
    ensures EncodeManagementAddress(a) ==
            [first] + a.networkAddress + [a.interfaceNumbering] + number + [k] + a.objectIdentifier
  {
  }

  lemma ManagementAddressRoundTrip(a: ManagementAddress)
    requires WellFormedManagementAddress(a)
    ensures ParseManagementAddress(EncodeManagementAddress(a)) == Ok(a)
  {
    Uint32RoundTrip(a.interfaceNumber);
    EncodingFromParts(a, |a.networkAddress|, EncodeUint32(a.interfaceNumber), |a.objectIdentifier|);
    LaidOutAddressParses(a, EncodeUint32(a.interfaceNumber), EncodeManagementAddress(a));
  }

  lemma ParsedManagementAddress(value: Bytes, a: ManagementAddress)
    requires ParseManagementAddress(value) == Ok(a)
    ensures WellFormedManagementAddress(a) && EncodeManagementAddress(a) == value
  {
    var n: nat := value[0] as int + 1;
    Reassemble(value, n);
    EncodeUint32Inverse(value[n + 1], value[n + 2], value[n + 3], value[n + 4]);
    EncodingFromParts(a, value[0], [value[n + 1], value[n + 2], value[n + 3], value[n + 4]], value[n + 5]);
  }

  /** A value is accepted exactly when it is the encoding of a well-formed address, and decodes to that one. */
  lemma ManagementAddressIsCanonical(value: Bytes, a: ManagementAddress)
    ensures ParseManagementAddress(value) == Ok(a) <==>
            WellFormedManagementAddress(a) && EncodeManagementAddress(a) == value
  {
    if ParseManagementAddress(value) == Ok(a) {
      ParsedManagementAddress(value, a);
    } else if WellFormedManagementAddress(a) && EncodeManagementAddress(a) == value {
      ManagementAddressRoundTrip(a);
    }
  }
}
