# NetSwarm in Dafny

A model of the NetSwarm library (wvengen/netswarm-arduino), with proofs.
NetSwarm is a layer over a Modbus/TCP (or UDP) slave on an Arduino-class
node. It exposes:

- two holding registers that hold the node's IP address;
- three command coils: apply the network settings, save to the EEPROM, and
  reload from the EEPROM.

It resolves each configuration register through three tiers: the live
register once setup is done; before that, the EEPROM when its data
version matches; otherwise a compiled-in default. It saves a chosen list of
holding registers to a versioned EEPROM image and loads them back from it.
It can also send a Write Single Register request to a peer as a master.

Modules, one per concern of `NetSwarm.cpp` / `NetSwarm.h`:

- `Bytes`: 8- and 16-bit unsigned values and the big-endian split of a
  word (`>> 8`, `& 0xff`) and its join (`(hi << 8) + lo`).
- `Registers`: the register and coil numbering, the default address
  192.168.1.177, and the constructor defaults.
- `Eeprom`: the EEPROM layout, as pure functions on `seq<byte>`:
  - the header is 'N', 'S', 'd' and the data version;
  - the slot of register `k` is at `eepromOffset + 4 + 2k`.
  The functions are the header check, the save image and the load, with
  the save/load round trip.
- `Resolution`: `HregRead`'s three tiers, written as the code has them,
  and what each tier implies.
- `Addressing`: `getIpAddr`, `getIpBcast`, the MAC address pattern and
  `getId`.
- `MasterFrame`: the 12-byte request that `sendHreg` builds. It comes with
  a reference reader for Modbus/TCP Write Single Register requests
  (Modbus Messaging on TCP/IP Implementation Guide V1.0b, section 3.1.3;
  Modbus Application Protocol Specification V1.1b3, section 6.6), and
  the frame is proved to round-trip through it.
- `Swarm`: the `NetSwarm` object as a class.
  - Its fields are the setup flag, the data versions, the persisted list,
    the callback flag and the master transaction id.
  - It also holds the Modbus engine's register and coil tables.
  - The EEPROM is an `array<byte>` that the class writes in place.
  - Each method is proved against the functions of `Eeprom`, `Resolution`,
    `Addressing` (`GetMacAddr`, `SetupNetwork`) or `MasterFrame` (`SendHreg`).
  - What the network stack and the callback receive is recorded in two
    logs: `configs` and `notified`.

A current data version of 0 means "no valid data" (`NetSwarm.h:100`).
`loadEeprom` rejects it (`NetSwarm.cpp:73`), and `Eeprom.LoadAccepts`
models that. `HregRead`, however, tests only
`dataVersion == currentDataVersion` (`NetSwarm.cpp:193`). The model keeps
that test as written:

- Whenever the expected data version is non-zero, an EEPROM without the
  magic or with stored version 0 gives the fallback
  (`Resolution.InvalidStoreGivesFallback`). The default build uses
  version 1.
- With expected version 0, an EEPROM without the magic is read as if it
  were valid (`Resolution.VersionZeroReadsInvalidStore`).

## Model

| member | source | states |
|---|---|---|
| Bytes.Hi | NetSwarm.cpp:103 | the high byte of a word, `w >> 8` |
| Bytes.Lo | NetSwarm.cpp:104 | the low byte of a word, `w & 0xff` |
| Bytes.WordOf | NetSwarm.cpp:82-83 | the word `(hi << 8) + lo` joined from a high and a low byte |
| Bytes.SplitJoin | NetSwarm.cpp:82-83 | joining the high and low byte of a word gives the word back |
| Bytes.JoinSplit | NetSwarm.cpp:103-104 | splitting a joined pair of bytes gives the two bytes back |
| Bytes.JoinInjective | NetSwarm.cpp:82-83 | two byte pairs that join to the same word are equal |
| Registers.LibraryOffsets | NetSwarm.h:35-49 | the library's offsets are strictly increasing and all below NETSWARM_MODBUS_OFFSET |
| Registers.UserOffsetsAreFree | NetSwarm.h:47-48 | a user register numbered from 100 on is never one of the library's registers or coils |
| Registers.DefaultIpWords | NetSwarm.cpp:19-20 | the default IP words are 0xC0A8 and 0x01B1, i.e. 192.168 and 1.177 high byte first |
| Eeprom.ReadWord | NetSwarm.cpp:194-195 | the big-endian word in two consecutive EEPROM bytes; its bytes are the two bytes read |
| Eeprom.SlotAddr | NetSwarm.cpp:82-83 | the address of register k's high byte, eepromOffset + 4 + 2k; the low byte follows it |
| Eeprom.HeaderVersion | NetSwarm.cpp:238-245 | the stored data version when the first three bytes are 'N','S','d', and 0 otherwise |
| Eeprom.LoadAccepts | NetSwarm.cpp:73-79 | loadEeprom goes on to read slots exactly when the found version is non-zero, equals the expected one, and the persisted list is non-empty |
| Eeprom.WriteWord | NetSwarm.cpp:103-104 | storing a word puts its high byte at the slot and its low byte after it, reads back as the word, and changes no other byte |
| Eeprom.WriteHeader | NetSwarm.cpp:92-95 | the header reads 'N','S','d',version afterwards, setupEeprom then finds that version, and no other byte changes |
| Eeprom.SaveSlots | NetSwarm.cpp:98-106 | writing the persisted slots keeps the size of the EEPROM |
| Eeprom.SaveImage | NetSwarm.cpp:90-107 | saveEeprom's image has the size of the EEPROM |
| Eeprom.LoadRegs | NetSwarm.cpp:78-86 | loading overwrites values only and never creates or removes a register |
| Eeprom.SlotsDisjoint | NetSwarm.cpp:82-83 | distinct registers have non-overlapping slots, all after the header |
| Eeprom.SaveSlotsFrame | NetSwarm.cpp:101-106 | saving writes no byte outside the slots of the persisted registers |
| Eeprom.SaveSlotsValue | NetSwarm.cpp:101-106 | after saving, each persisted register's slot holds its value high byte first, whatever the order or repetition of the list |
| Eeprom.SaveImageContents | NetSwarm.cpp:90-107 | after saveEeprom the header is 'N','S','d',version, every persisted slot reads back as its register and every other byte is unchanged |
| Eeprom.LoadRegsValue | NetSwarm.cpp:81-86 | after loading, each persisted register holds the word of its slot |
| Eeprom.LoadRegsFrame | NetSwarm.cpp:81-86 | loading leaves every register that is not persisted unchanged |
| Eeprom.SaveThenLoad | NetSwarm.cpp:70-107 | after a save, loadEeprom accepts exactly when the version is non-zero and the list is non-empty; the load then restores every persisted value, keeps every other register and keeps the register set |
| Resolution.Resolve | NetSwarm.cpp:184-202 | HregRead's three tiers: the live register once setup is done; before that the EEPROM slot's word when the expected and found versions are equal; otherwise the fallback |
| Resolution.LiveAfterSetup | NetSwarm.cpp:187-188 | after setup HregRead returns the live register, whatever the EEPROM, versions and fallback |
| Resolution.StoreBeforeSetup | NetSwarm.cpp:193-201 | before setup HregRead never consults the live table: the EEPROM slot on a version match, the fallback otherwise |
| Resolution.InvalidStoreGivesFallback | NetSwarm.cpp:193-201 | with a non-zero expected version, an EEPROM without the magic or with stored version 0 yields the fallback before setup |
| Resolution.VersionZeroReadsInvalidStore | NetSwarm.cpp:193-195 | with expected version 0, an erased EEPROM (all 0xFF) is read as 0xFFFF instead of the fallback |
| Resolution.ResolveAfterSave | NetSwarm.cpp:184-202 | after saveEeprom and a fresh start, HregRead returns each persisted register's saved value |
| Addressing.IpAddr | NetSwarm.cpp:115-124 | four bytes whose first pair joins to the first IP register and whose second pair joins to the second |
| Addressing.IpBcast | NetSwarm.cpp:126-129 | the address with its last byte replaced by 0xFF and the first three kept |
| Addressing.SwarmId | NetSwarm.cpp:110-113 | the id plus NETSWARM_IP_START_4 is the low byte of the second IP register, modulo 256 |
| Addressing.SwarmIdInjective | NetSwarm.cpp:110-113 | nodes whose last IP bytes differ get different ids |
| Addressing.DefaultAddresses | NetSwarm.h:21-33 | the default address is 192.168.1.177, broadcast 192.168.1.255, id 0 |
| MasterFrame.WriteRegFrame | NetSwarm.cpp:139-157 | the request is 12 bytes: a 7-byte MBAP header and a 5-byte PDU |
| MasterFrame.FillWriteRegFrame | NetSwarm.cpp:139-157 | the zeroed buffer, once filled, holds exactly the request frame |
| MasterFrame.FrameBytes | NetSwarm.cpp:144-157 | the frame's bytes one by one: transaction id, zero protocol id, length 6, unit 0, code 0x06, address and value high byte first |
| MasterFrame.FrameOfBytes | NetSwarm.cpp:144-157 | a 12-byte sequence that holds those bytes one by one is the frame |
| MasterFrame.ParseWriteReg | NetSwarm.cpp:147 | the reference reader accepts only 12-byte frames with function code 0x06 |
| MasterFrame.FrameHeaderFields | NetSwarm.cpp:144-157 | the protocol id is 0, the length field counts the bytes after it, the unit is 0 and the code is 0x06 |
| MasterFrame.FrameWordFields | NetSwarm.cpp:148-155 | the transaction, address and value fields read back as the words they were built from |
| MasterFrame.ParseFields | NetSwarm.cpp:144-157 | a frame whose fields read as a request to unit 0 parses to that request |
| MasterFrame.ParseWriteRegFrame | NetSwarm.cpp:137-158 | sendHreg's frame parses back to its transaction id, unit 0, address and value |
| MasterFrame.WriteRegFrameOfParse | NetSwarm.cpp:137-158 | conversely, every well-formed request to unit 0 is the frame sendHreg builds for its fields |
| MasterFrame.NextTransaction | NetSwarm.cpp:158 | the transaction id always changes: it increments and wraps from 0xFFFF to 0 |
| Swarm.CoilOn | NetSwarm.cpp:50 | the `Coil(k)` test: the coil is registered in the engine's table and set |
| Swarm.Notice | NetSwarm.cpp:53 | the callback argument one serviced coil produces: the coil's number when it was set and a callback is installed, nothing otherwise |
| Swarm.Notifications | NetSwarm.cpp:48-67 | the callback arguments of one tick: the notices of apply, save and load, in that order |
| Swarm.NotificationsOrder | NetSwarm.cpp:48-67 | the callback gets each command coil found set exactly once, in the order apply, save, load, and nothing without a callback |
| Swarm.ClearCoil | NetSwarm.cpp:52 | a serviced coil set to 0 when it was set; the table unchanged otherwise |
| Swarm.ClearCommandCoils | NetSwarm.cpp:52-63 | after a tick every command coil is clear, every other coil keeps its value, and no coil is added or removed |
| Swarm.ResolvedIp | NetSwarm.cpp:115-124 | the address bytes join to the two resolved IP registers |
| Swarm.ErasedEepromGivesDefaults | NetSwarm.cpp:184-202 | a default-version node over an erased EEPROM resolves to 192.168.1.177 with id 0 |
| Swarm.RebootRestoresAddress | NetSwarm.cpp:48-107 | IP registers written over the network and saved with the save coil are the address of a node booted afterwards over the same EEPROM |
| Swarm.NetSwarm.constructor | NetSwarm.cpp:26-33 | keeps the data version and EEPROM offset (default 1 and 0); setup not done, no persisted registers, no callback, empty tables |
| Swarm.NetSwarm.HregRead | NetSwarm.cpp:184-202 | Resolution.Resolve in the object's current state: its setup flag, register table, EEPROM and data versions |
| Swarm.NetSwarm.GetIpAddr | NetSwarm.cpp:115-124 | four bytes, the two IP registers resolved through HregRead |
| Swarm.NetSwarm.GetIpBcast | NetSwarm.cpp:126-129 | the current address with its last byte 0xFF |
| Swarm.NetSwarm.GetId | NetSwarm.cpp:110-113 | the id plus NETSWARM_IP_START_4 is the last byte of the current address, modulo 256 |
| Swarm.NetSwarm.GetMacAddr | NetSwarm.cpp:131-134 | the MAC starts with 2 and carries the current address in its last four bytes; its second byte is left as it was |
| Swarm.NetSwarm.SetCommandCallback | NetSwarm.cpp:44-46 | records whether a callback is installed |
| Swarm.NetSwarm.SetupEeprom | NetSwarm.cpp:236-246 | the current data version is the stored one when the magic is present, 0 otherwise |
| Swarm.NetSwarm.SetPersist | NetSwarm.cpp:248-261 | appends the offset at the tail of the persisted list, without de-duplication |
| Swarm.NetSwarm.AddHregPersist | NetSwarm.h:82-87 | registers the holding register with its value and appends it to the persisted list |
| Swarm.NetSwarm.SetupNetwork | NetSwarm.cpp:204-220 | binds the transport to the current address and the MAC derived from it |
| Swarm.NetSwarm.SetupRegisters | NetSwarm.cpp:223-233 | seeds both IP registers through HregRead, persists them in that order, and adds the three command coils cleared |
| Swarm.NetSwarm.Config | NetSwarm.cpp:35-42 | reads the EEPROM header, binds the network to the resolved address, seeds the IP registers with the same resolved values, and ends setup |
| Swarm.NetSwarm.SaveEeprom | NetSwarm.cpp:90-107 | the EEPROM afterwards is the save image of the persisted registers' current values |
| Swarm.NetSwarm.LoadEeprom | NetSwarm.cpp:70-88 | re-reads the header; returns true exactly when loadEeprom accepts, and then the persisted registers hold their slots' words; otherwise the table is unchanged |
| Swarm.NetSwarm.Task | NetSwarm.cpp:48-67 | after the engine's poll, the set command coils are serviced in order apply, save, load; each is cleared and notified, and the address, EEPROM and table change as the services say |
| Swarm.NetSwarm.ServiceApply | NetSwarm.cpp:50-54 | a set apply coil re-binds the network, is cleared and is notified; otherwise nothing changes |
| Swarm.NetSwarm.ServiceSave | NetSwarm.cpp:56-60 | a set save coil writes the save image, is cleared and is notified; otherwise nothing changes |
| Swarm.NetSwarm.ServiceEeprom | NetSwarm.cpp:55-66 | the save coil, then the load coil: the load reads the image just saved when both are set |
| Swarm.NetSwarm.ServiceLoad | NetSwarm.cpp:61-65 | a set load coil runs loadEeprom, is cleared and is notified; otherwise nothing changes |
| Swarm.NetSwarm.SendHreg | NetSwarm.cpp:137-158 | returns the request frame for the old transaction id, address and value, and advances the transaction id with 16-bit wrap |

## Left out

- EEPROM access: `EEPROM.read`/`EEPROM.write` are modelled as reads and writes of an array of bytes. Wear, timing and power loss in the middle of a save are not modelled.
- The Modbus engine (`mb->task()`, `addHreg`, `addCoil`, `Hreg`, `Coil`) is not part of this model. Its register tables are maps, and one poll is a parameter of `Task`: the tables after the poll, with the same registers. The object's own `Hreg`, `Coil` and `addHreg` and the calls through `mb->` are taken to reach the same tables, one `hregs`/`coils` pair, so that `task` sees coils set over the network.
- Re-registering an offset that already exists is modelled as overwriting its value. The engine's behaviour for duplicates is not part of this model.
- Transmission: the TCP connect/write/stop and the UDP packet in `sendHreg` (NetSwarm.cpp:160-174), and `_masterUdp.begin` in `setupNetwork`, are not modelled. `SendHreg` returns the frame instead, and the peer address parameter is dropped.
- The declarations of `_masterTransactionId` and of the master transports are not part of this model. A 16-bit transaction id is assumed.
- `MB_FC_WRITE_REG` is taken as 0x06, the Write Single Register code. Its definition is in the Modbus library, which is not part of this model.
- The persisted list is a sequence rather than a `malloc`ed linked list. Allocation failure and pointer aliasing are not modelled.
- Feature toggles: the model is the build with the EEPROM and the master enabled. Builds without the EEPROM (where save and load are no-ops) are not modelled.
- The callback's own effects are not modelled. Only the command passed to it is logged.
- Fields the constructor does not initialise (the callback, the list head, the current data version and the transaction id) start as zero, as for a statically allocated object.
- Swarm.NetSwarm.GetMacAddr: says nothing about `mac[1]`, which `getMacAddr` never writes. In `setupNetwork` it is an uninitialised stack byte.
- Swarm.NetSwarm.constructor: requires the header and the slots of both IP registers to lie inside the EEPROM, and the EEPROM to be at most 64 KiB. Address arithmetic that wraps at 16 bits is therefore not modelled.
- Swarm.NetSwarm.AddHregPersist: requires the register's EEPROM slot (`eepromOffset + 4 + 2 * offset`, two bytes) to lie inside the EEPROM. The source accepts any 16-bit offset, and saveEeprom and loadEeprom then touch that address unchecked, with 16-bit wrap. Out-of-range and wrapped EEPROM addresses are not modelled.
- Swarm.NetSwarm.SetPersist: requires the register's slot to lie inside the EEPROM. The source writes and reads out-of-range addresses unchecked.
