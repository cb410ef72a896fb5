/** The fixed register numbering and compiled-in defaults of NetSwarm.h
    (and the default IP words derived from them in NetSwarm.cpp). */
module Registers {
  import opened Bytes

  // netswarmModbusRegister: holding registers and coils share this numbering
  const HREG_IP_ADDR_1: word := 0  // first two bytes of the IP address
  const HREG_IP_ADDR_2: word := 1  // last two bytes of the IP address
  const COIL_APPLY: word := 2      // apply network settings
  const COIL_SAVE: word := 3       // store persisted registers in EEPROM
  const COIL_LOAD: word := 4       // reload persisted registers from EEPROM
  const NETSWARM_MODBUS_OFFSET: word := 100  // first user register

  // default address 192.168.1.177
  const NETSWARM_IP_START_1: byte := 192
  const NETSWARM_IP_START_2: byte := 168
  const NETSWARM_IP_START_3: byte := 1
  const NETSWARM_IP_START_4: byte := 177

  const HREG_IP_ADDR_DEFAULT_1: word := NETSWARM_IP_START_1 * 0x100 + NETSWARM_IP_START_2
  const HREG_IP_ADDR_DEFAULT_2: word := NETSWARM_IP_START_3 * 0x100 + NETSWARM_IP_START_4

  // constructor defaults
  const DEFAULT_DATA_VERSION: byte := 1
  const DEFAULT_EEPROM_OFFSET: word := 0

  /** The offsets the library reserves for itself. */
  predicate IsReserved(k: word)
  {
    k < NETSWARM_MODBUS_OFFSET
  }

  /** The register and coil offsets the library uses itself, in wire order. */
  function LibraryOffsets(): (ks: seq<word>)
    ensures forall i, j :: 0 <= i < j < |ks| ==> ks[i] < ks[j]
    ensures forall i :: 0 <= i < |ks| ==> IsReserved(ks[i])
  {
    [HREG_IP_ADDR_1, HREG_IP_ADDR_2, COIL_APPLY, COIL_SAVE, COIL_LOAD]
  }

  /** A user register, numbered from NETSWARM_MODBUS_OFFSET on, never
      coincides with a register or coil of the library. */
  lemma UserOffsetsAreFree(k: word)
    requires k >= NETSWARM_MODBUS_OFFSET
    ensures k !in LibraryOffsets()
  {
  }

  /** The default IP words hold 192.168 and 1.177, high byte first. */
  lemma DefaultIpWords()
    ensures Hi(HREG_IP_ADDR_DEFAULT_1) == NETSWARM_IP_START_1 && Lo(HREG_IP_ADDR_DEFAULT_1) == NETSWARM_IP_START_2
    ensures Hi(HREG_IP_ADDR_DEFAULT_2) == NETSWARM_IP_START_3 && Lo(HREG_IP_ADDR_DEFAULT_2) == NETSWARM_IP_START_4
    ensures HREG_IP_ADDR_DEFAULT_1 == 0xC0A8 && HREG_IP_ADDR_DEFAULT_2 == 0x01B1
  {
  }
}
