/** The values an LLDP data unit carries, and which of them are acceptable (lldp.h, lldp.cpp). */
module Lldp {

  type byte = b: int | 0 <= b < 0x100
  type uint16 = n: int | 0 <= n < 0x1_0000
  type uint32 = n: int | 0 <= n < 0x1_0000_0000
  type Bytes = seq<byte>

  /** Two bytes, most significant first. */
  function Uint16(hi: byte, lo: byte): uint16 {
    hi as int * 0x100 + lo
  }

  /** Four bytes, most significant first. */
  function Uint32(b3: byte, b2: byte, b1: byte, b0: byte): uint32 {
    Uint16(b3, b2) as int * 0x1_0000 + Uint16(b1, b0)
  }

  const IPV4 := 1
  const IPV6 := 2
  const MAC := 6
  const DNS := 16

  const MAC_SIZE := 6

  const CHASSIS_MAC_ADDRESS := 4
  const CHASSIS_NETWORK_ADDRESS := 5
  const PORT_MAC_ADDRESS := 3
  const PORT_NETWORK_ADDRESS := 4
  const LAST_ID_SUBTYPE := 7

  const UNKNOWN_INTERFACE_NUMBERING := 1

  datatype ChassisId = ChassisId(subtype: byte, data: Bytes)

  datatype PortId = PortId(subtype: byte, data: Bytes)

  datatype SystemCapabilities = SystemCapabilities(system: uint16, enabled: uint16)

  const DEFAULT_CAPABILITIES := SystemCapabilities(1, 1)

  /** `networkAddress` is the address family byte followed by the address data. */
  datatype ManagementAddress = ManagementAddress(
    networkAddress: Bytes,
    interfaceNumbering: byte,
    interfaceNumber: uint32,
    objectIdentifier: Bytes)

  /** Display strings are kept as their bytes; `timeToLive` counts seconds and is signed, as in the original. */
  datatype DataUnit = DataUnit(
    chassisId: ChassisId,
    portId: PortId,
    timeToLive: int,
    portDescriptions: seq<Bytes>,
    systemName: Bytes,
    systemDescription: Bytes,
    systemCapabilities: SystemCapabilities,
    managementAddresses: seq<ManagementAddress>)

  const EMPTY_DATA_UNIT :=
    DataUnit(ChassisId(0, []), PortId(0, []), 0, [], [], [], DEFAULT_CAPABILITIES, [])

  function ShutdownDataUnit(chassisId: ChassisId, portId: PortId): DataUnit {
    EMPTY_DATA_UNIT.(chassisId := chassisId, portId := portId)
  }

  predicate IsValidNetworkAddressDataSize(family: byte, size: nat) {
    if family == IPV4 then size == 4
    else if family == IPV6 then size == 16
    else if family == MAC then size == MAC_SIZE
    else true
  }

  /** Whether the original prints `data` as a non-empty MAC address. Bytes after the sixth are ignored. */
  predicate IsMacAddress(data: Bytes) {
    |data| >= MAC_SIZE
  }

  /** Whether the original prints `data`, a family byte and address data, as a non-empty address. */
  predicate IsNetworkAddress(data: Bytes) {
    |data| > 0 && IsValidNetworkAddressDataSize(data[0], |data| - 1) &&
    (data[0] == IPV4 || data[0] == IPV6 || data[0] == MAC || (data[0] == DNS && |data| > 1))
  }
}
