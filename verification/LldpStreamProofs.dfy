/** What a stream of optional TLVs means: a closed form of its values, type by type, so that the optional TLVs may come
    in any order (section 8.2 of IEEE Std 802.1AB-2016). */
module LldpStreamProofs {
  import opened Results
  import opened Lldp
  import opened LldpFrame
  import opened LldpTlvProofs
  import opened Sequences

  // ---------- A stream of optional TLVs, in closed form ----------

  /** The values of the TLVs of one type, in stream order. */
  ghost function OfType(tlvs: seq<Tlv>, tlvType: byte): seq<Bytes> {
    if tlvs == [] then []
    else (if tlvs[0].tlvType == tlvType then [tlvs[0].value] else []) + OfType(tlvs[1..], tlvType)
  }

  ghost function AbsorbAll(st: OptionalState, tlvs: seq<Tlv>): Parsed<OptionalState>
    decreases |tlvs|
  {
    if tlvs == [] then Ok(st)
    else
      var next :- Absorb(st, tlvs[0]);
      AbsorbAll(next, tlvs[1..])
  }

  ghost predicate AreManagementAddresses(values: seq<Bytes>) {
    forall v <- values :: ParseManagementAddress(v).Ok?
  }

  ghost function ManagementAddressesOf(values: seq<Bytes>): seq<ManagementAddress>
    requires AreManagementAddresses(values)
  {
    seq(|values|, i requires 0 <= i < |values| => ParseManagementAddress(values[i]).value)
  }

  /** The values of a stream, type by type. */
  datatype Projection = Projection(
    mandatory: seq<Bytes>,
    descriptions: seq<Bytes>,
    names: seq<Bytes>,
    systemDescriptions: seq<Bytes>,
    capabilities: seq<Bytes>,
    addresses: seq<Bytes>)

  ghost function Project(tlvs: seq<Tlv>): Projection {
    Projection(
      OfType(tlvs, CHASSIS_ID) + OfType(tlvs, PORT_ID) + OfType(tlvs, TIME_TO_LIVE),
      OfType(tlvs, PORT_DESCRIPTION), OfType(tlvs, SYSTEM_NAME), OfType(tlvs, SYSTEM_DESCRIPTION),
      OfType(tlvs, SYSTEM_CAPABILITIES), OfType(tlvs, MANAGEMENT_ADDRESS))
  }

  /** No second mandatory TLV, at most one of each system TLV, and every structured value decodes. */
  ghost predicate Acceptable(st: OptionalState, p: Projection) {
    && p.mandatory == []
    && AtMostOne(st.systemNameCount, p.names)
    && AtMostOne(st.systemDescriptionCount, p.systemDescriptions)
    && AtMostOne(st.systemCapabilitiesCount, p.capabilities)
    && (forall v <- p.capabilities :: |v| >= 4)
    && AreManagementAddresses(p.addresses)
  }

  ghost predicate AtMostOne(seen: nat, values: seq<Bytes>) {
    values == [] || (seen == 0 && |values| == 1)
  }

  ghost function LastOr(values: seq<Bytes>, otherwise: Bytes): Bytes {
    if values == [] then otherwise else values[|values| - 1]
  }

  /** What an acceptable stream means: nothing in it depends on how the types interleave. */
  ghost function Meaning(st: OptionalState, p: Projection): OptionalState
    requires Acceptable(st, p)
  {
    var unit := st.unit;
    OptionalState(
      unit.(portDescriptions := unit.portDescriptions + p.descriptions,
            systemName := LastOr(p.names, unit.systemName),
            systemDescription := LastOr(p.systemDescriptions, unit.systemDescription),
            systemCapabilities := if p.capabilities == [] then unit.systemCapabilities
                                  else ParseSystemCapabilities(p.capabilities[0]).value,
            managementAddresses := unit.managementAddresses + ManagementAddressesOf(p.addresses)),
      st.systemNameCount + |p.names|,
      st.systemDescriptionCount + |p.systemDescriptions|,
      st.systemCapabilitiesCount + |p.capabilities|)
  }

  ghost function Prepend(t: Tlv, p: Projection): Projection {
    match t.tlvType
    case 4 => p.(descriptions := [t.value] + p.descriptions)
    case 5 => p.(names := [t.value] + p.names)
    case 6 => p.(systemDescriptions := [t.value] + p.systemDescriptions)
    case 7 => p.(capabilities := [t.value] + p.capabilities)
    case 8 => p.(addresses := [t.value] + p.addresses)
    case _ => p
  }

  lemma ProjectHead(tlvs: seq<Tlv>)
    requires tlvs != []
    ensures tlvs[0].tlvType !in [CHASSIS_ID, PORT_ID, TIME_TO_LIVE] ==>
              Project(tlvs) == Prepend(tlvs[0], Project(tlvs[1..]))
    ensures tlvs[0].tlvType in [CHASSIS_ID, PORT_ID, TIME_TO_LIVE] ==> Project(tlvs).mandatory != []
  {
    OfTypeHead(tlvs, CHASSIS_ID);
    OfTypeHead(tlvs, PORT_ID);
    OfTypeHead(tlvs, TIME_TO_LIVE);
    OfTypeHead(tlvs, PORT_DESCRIPTION);
    OfTypeHead(tlvs, SYSTEM_NAME);
    OfTypeHead(tlvs, SYSTEM_DESCRIPTION);
    OfTypeHead(tlvs, SYSTEM_CAPABILITIES);
    OfTypeHead(tlvs, MANAGEMENT_ADDRESS);
  }

  lemma OfTypeHead(tlvs: seq<Tlv>, k: byte)
    requires tlvs != []
    ensures OfType(tlvs, k) == if tlvs[0].tlvType == k then [tlvs[0].value] + OfType(tlvs[1..], k) else OfType(tlvs[1..], k)
  {
  }

  lemma HeadOf<T>(x: T, xs: seq<T>)
    ensures forall y :: y in [x] + xs <==> y == x || y in xs
  {
  }

  lemma AcceptableStep(st: OptionalState, t: Tlv, p: Projection)
    requires t.tlvType !in [CHASSIS_ID, PORT_ID, TIME_TO_LIVE]
    ensures Acceptable(st, Prepend(t, p)) <==> Absorb(st, t).Ok? && Acceptable(Absorb(st, t).value, p)
  {
    HeadOf(t.value, p.capabilities);
    HeadOf(t.value, p.addresses);
  }

  lemma MeaningStepAddress(st: OptionalState, t: Tlv, p: Projection)
    requires t.tlvType == MANAGEMENT_ADDRESS
    requires Acceptable(st, Prepend(t, p)) && Absorb(st, t).Ok? && Acceptable(Absorb(st, t).value, p)
    ensures Meaning(st, Prepend(t, p)) == Meaning(Absorb(st, t).value, p)
  {
    FirstManagementAddress(t.value, p.addresses);
    Associates(st.unit.managementAddresses, [ParseManagementAddress(t.value).value], ManagementAddressesOf(p.addresses));
  }

  lemma FirstManagementAddress(first: Bytes, rest: seq<Bytes>)
    requires AreManagementAddresses([first] + rest) && AreManagementAddresses(rest) && ParseManagementAddress(first).Ok?
    ensures ManagementAddressesOf([first] + rest) == [ParseManagementAddress(first).value] + ManagementAddressesOf(rest)
  {
  }

  lemma MeaningStepDescription(st: OptionalState, t: Tlv, p: Projection)
    requires t.tlvType == PORT_DESCRIPTION
    requires Acceptable(st, Prepend(t, p)) && Absorb(st, t).Ok? && Acceptable(Absorb(st, t).value, p)
    ensures Meaning(st, Prepend(t, p)) == Meaning(Absorb(st, t).value, p)
  {
    Associates(st.unit.portDescriptions, [t.value], p.descriptions);
  }

  lemma MeaningStep(st: OptionalState, t: Tlv, p: Projection)
    requires t.tlvType !in [CHASSIS_ID, PORT_ID, TIME_TO_LIVE]
    requires Acceptable(st, Prepend(t, p)) && Absorb(st, t).Ok? && Acceptable(Absorb(st, t).value, p)
    ensures Meaning(st, Prepend(t, p)) == Meaning(Absorb(st, t).value, p)
  {
    if t.tlvType == PORT_DESCRIPTION {
      MeaningStepDescription(st, t, p);
    } else if t.tlvType == MANAGEMENT_ADDRESS {
      MeaningStepAddress(st, t, p);
    }
  }

  /** The loop over the optional TLVs accepts exactly the acceptable streams, and computes their meaning. */
  lemma {:induction false} AbsorbAllIsMeaning(st: OptionalState, tlvs: seq<Tlv>)
    ensures AbsorbAll(st, tlvs).Ok? <==> Acceptable(st, Project(tlvs))
    ensures AbsorbAll(st, tlvs).Ok? ==> AbsorbAll(st, tlvs) == Ok(Meaning(st, Project(tlvs)))
    decreases |tlvs|
  {
    if tlvs == [] {
      assert Meaning(st, Project(tlvs)) == st;
    } else {
      ProjectHead(tlvs);
      var next := Absorb(st, tlvs[0]);
      if tlvs[0].tlvType !in [CHASSIS_ID, PORT_ID, TIME_TO_LIVE] {
        AcceptableStep(st, tlvs[0], Project(tlvs[1..]));
        if next.Ok? {
          AbsorbAllIsMeaning(next.value, tlvs[1..]);
          if Acceptable(next.value, Project(tlvs[1..])) {
            MeaningStep(st, tlvs[0], Project(tlvs[1..]));
          }
        }
      }
    }
  }

  // ---------- From TLV streams to bytes ----------

  ghost predicate OptionalStream(tlvs: seq<Tlv>) {
    forall t <- tlvs :: WellFramed(t) && t.tlvType != END
  }

  /** Reading a stream of optional TLVs and whatever follows is absorbing the stream and reading what follows. */
  lemma {:induction false} ParseOptionalOfStream(st: OptionalState, tlvs: seq<Tlv>, tail: Bytes)
    requires OptionalStream(tlvs)
    ensures ParseOptional(st, EncodeTlvs(tlvs) + tail) ==
            match AbsorbAll(st, tlvs)
            case Ok(next) => ParseOptional(next, tail)
            case Err(e) => Err(e)
    decreases |tlvs|
  {
    if tlvs == [] {
      assert EncodeTlvs(tlvs) + tail == tail;
    } else {
      var rest := EncodeTlvs(tlvs[1..]) + tail;
      assert EncodeTlvs(tlvs) + tail == EncodeTlv(tlvs[0]) + rest;
      ParseTlvUndoesEncode(tlvs[0], rest);
      if Absorb(st, tlvs[0]).Ok? {
        ParseOptionalOfStream(Absorb(st, tlvs[0]).value, tlvs[1..], tail);
      }
    }
  }

  lemma ParseEnd(st: OptionalState, trailing: Bytes)
    ensures ParseOptional(st, EncodeTlv(Tlv(END, [])) + trailing) == Ok(st.unit)
  {
    ParseTlvUndoesEncode(Tlv(END, []), trailing);
  }

  /** Reading well-framed TLVs as the mandatory ones leaves exactly the bytes after them. */
  lemma {:induction false} ParseMandatoryOfStream(unit: DataUnit, expected: seq<byte>, tlvs: seq<Tlv>, tail: Bytes)
    requires |tlvs| == |expected| && forall t <- tlvs :: WellFramed(t)
    ensures ParseMandatory(unit, expected, EncodeTlvs(tlvs) + tail) ==
            match AbsorbMandatories(unit, expected, tlvs)
            case Ok(next) => Ok((next, tail))
            case Err(e) => Err(e)
    decreases |tlvs|
  {
    if tlvs == [] {
      assert EncodeTlvs(tlvs) + tail == tail;
    } else {
      var rest := EncodeTlvs(tlvs[1..]) + tail;
      assert EncodeTlvs(tlvs) + tail == EncodeTlv(tlvs[0]) + rest;
      ParseTlvUndoesEncode(tlvs[0], rest);
      if AbsorbMandatory(unit, expected[0], tlvs[0]).Ok? {
        ParseMandatoryOfStream(AbsorbMandatory(unit, expected[0], tlvs[0]).value, expected[1..], tlvs[1..], tail);
      }
    }
  }

  ghost function AbsorbMandatories(unit: DataUnit, expected: seq<byte>, tlvs: seq<Tlv>): Parsed<DataUnit>
    requires |tlvs| == |expected|
    decreases |tlvs|
  {
    if tlvs == [] then Ok(unit)
    else
      var next :- AbsorbMandatory(unit, expected[0], tlvs[0]);
      AbsorbMandatories(next, expected[1..], tlvs[1..])
  }

  // ---------- Optional TLVs may come in any order ----------

  /** Two streams whose TLVs of types 1 to 8 read the same type by type decode alike, whatever comes before
      and after them. So neighbours of different types may be swapped and TLVs of type 9 and above added or
      dropped, while port descriptions and management addresses keep their stream order. */
  lemma OptionalTlvOrderIsIrrelevant(mandatory: seq<Tlv>, tlvs: seq<Tlv>, others: seq<Tlv>, tail: Bytes)
    requires |mandatory| == 3 && forall t <- mandatory :: WellFramed(t)
    requires OptionalStream(tlvs) && OptionalStream(others)
    requires forall k: byte | CHASSIS_ID <= k <= MANAGEMENT_ADDRESS :: OfType(tlvs, k) == OfType(others, k)
    ensures SameOutcome(
              ParseDataUnit(EncodeTlvs(mandatory) + EncodeTlvs(tlvs) + tail),
              ParseDataUnit(EncodeTlvs(mandatory) + EncodeTlvs(others) + tail))
  {
    var first := AbsorbMandatories(EMPTY_DATA_UNIT, MANDATORY_TLVS, mandatory);
    forall stream | stream == tlvs || stream == others
      ensures first.Ok? ==> ParseDataUnit(EncodeTlvs(mandatory) + EncodeTlvs(stream) + tail) ==
                            ParseOptional(OptionalState(first.value, 0, 0, 0), EncodeTlvs(stream) + tail)
      ensures first.Err? ==> ParseDataUnit(EncodeTlvs(mandatory) + EncodeTlvs(stream) + tail).Err?
    {
      assert EncodeTlvs(mandatory) + EncodeTlvs(stream) + tail == EncodeTlvs(mandatory) + (EncodeTlvs(stream) + tail);
      ParseMandatoryOfStream(EMPTY_DATA_UNIT, MANDATORY_TLVS, mandatory, EncodeTlvs(stream) + tail);
    }
    if first.Ok? {
      var st := OptionalState(first.value, 0, 0, 0);
      assert Project(tlvs) == Project(others);
      AbsorbAllIsMeaning(st, tlvs);
      AbsorbAllIsMeaning(st, others);
      ParseOptionalOfStream(st, tlvs, tail);
      ParseOptionalOfStream(st, others, tail);
    }
  }

  lemma {:induction false} OfTypeAppend(a: seq<Tlv>, b: seq<Tlv>, tlvType: byte)
    ensures OfType(a + b, tlvType) == OfType(a, tlvType) + OfType(b, tlvType)
  {
    if a == [] {
      assert a + b == b;
    } else {
      assert (a + b)[1..] == a[1..] + b;
      OfTypeAppend(a[1..], b, tlvType);
    }
  }

  lemma OfTypeSwap(before: seq<Tlv>, x: Tlv, y: Tlv, after: seq<Tlv>, k: byte)
    requires x.tlvType != y.tlvType
    ensures OfType(before + [x, y] + after, k) == OfType(before + [y, x] + after, k)
  {
    OfTypeAppend(before + [x, y], after, k);
    OfTypeAppend(before, [x, y], k);
    OfTypeAppend(before + [y, x], after, k);
    OfTypeAppend(before, [y, x], k);
    assert [x, y][1..] == [y] && [y, x][1..] == [x];
    assert OfType([x, y], k) == OfType([y, x], k);
  }

  /** Swapping two neighbouring optional TLVs of different types. */
  lemma SwapNeighbours(mandatory: seq<Tlv>, before: seq<Tlv>, x: Tlv, y: Tlv, after: seq<Tlv>, tail: Bytes)
    requires |mandatory| == 3 && forall t <- mandatory :: WellFramed(t)
    requires OptionalStream(before + [x, y] + after) && x.tlvType != y.tlvType
    ensures SameOutcome(
              ParseDataUnit(EncodeTlvs(mandatory) + EncodeTlvs(before + [x, y] + after) + tail),
              ParseDataUnit(EncodeTlvs(mandatory) + EncodeTlvs(before + [y, x] + after) + tail))
  {
    var tlvs, others := before + [x, y] + after, before + [y, x] + after;
    assert x in tlvs && y in tlvs && (forall t <- before + after :: t in tlvs);
    assert forall t <- others :: t == x || t == y || t in before + after;
    forall k: byte | CHASSIS_ID <= k <= MANAGEMENT_ADDRESS
      ensures OfType(tlvs, k) == OfType(others, k)
    {
      OfTypeSwap(before, x, y, after, k);
    }
    OptionalTlvOrderIsIrrelevant(mandatory, tlvs, others, tail);
  }

  lemma OfTypeSkip(before: seq<Tlv>, x: Tlv, after: seq<Tlv>, k: byte)
    requires x.tlvType != k
    ensures OfType(before + [x] + after, k) == OfType(before + after, k)
  {
    OfTypeAppend(before + [x], after, k);
    OfTypeAppend(before, [x], k);
    OfTypeAppend(before, after, k);
    assert OfType([x], k) == [];
  }

  /** A TLV of a type the original does not know changes nothing. */
  lemma UnknownTlvIsIgnored(mandatory: seq<Tlv>, before: seq<Tlv>, x: Tlv, after: seq<Tlv>, tail: Bytes)
    requires |mandatory| == 3 && forall t <- mandatory :: WellFramed(t)
    requires OptionalStream(before + [x] + after) && x.tlvType > MANAGEMENT_ADDRESS
    ensures SameOutcome(
              ParseDataUnit(EncodeTlvs(mandatory) + EncodeTlvs(before + [x] + after) + tail),
              ParseDataUnit(EncodeTlvs(mandatory) + EncodeTlvs(before + after) + tail))
  {
    assert forall t <- before + after :: t in before + [x] + after;
    forall k: byte | CHASSIS_ID <= k <= MANAGEMENT_ADDRESS
      ensures OfType(before + [x] + after, k) == OfType(before + after, k)
    {
      OfTypeSkip(before, x, after, k);
    }
    OptionalTlvOrderIsIrrelevant(mandatory, before + [x] + after, before + after, tail);
  }
}
