/** The NetSwarm object: the state it keeps (setup phase, EEPROM data
    versions, the persisted-register list, the callback and the master
    transaction id), the part of the Modbus engine it drives (the holding
    register and coil tables), and the methods that change them. The
    EEPROM is an array the object writes in place; the network stack and
    the callback are observed through logs of what they were handed. */
module Swarm {
  import opened Bytes
  import opened Registers
  import opened Eeprom
  import opened Resolution
  import opened Addressing
  import opened MasterFrame

  /** One call of `mb->config(mac, ip)`. */
  datatype NetConfig = NetConfig(mac: seq<byte>, ip: seq<byte>)

  /** `Coil(k)`: a registered coil that is set. */
  predicate CoilOn(coils: map<word, bool>, k: word)
  {
    k in coils && coils[k]
  }

  predicate IsCommandCoil(k: word)
  {
    k == COIL_APPLY || k == COIL_SAVE || k == COIL_LOAD
  }

  /** What servicing command coil `k` passes to the callback. */
  function Notice(callback: bool, on: bool, k: word): seq<word>
  {
    if callback && on then [k] else []
  }

  /** The arguments task() passes to the callback in one tick. */
  function Notifications(callback: bool, apply: bool, save: bool, load: bool): seq<word>
  {
    Notice(callback, apply, COIL_APPLY) + Notice(callback, save, COIL_SAVE) + Notice(callback, load, COIL_LOAD)
  }

  /** In one tick the callback gets one call per command coil found set,
      in the fixed order apply, save, load, and none at all without a
      callback. */
  lemma NotificationsOrder(callback: bool, apply: bool, save: bool, load: bool)
    ensures var ids := Notifications(callback, apply, save, load);
            && (forall i, j :: 0 <= i < j < |ids| ==> ids[i] < ids[j])
            && (forall i :: 0 <= i < |ids| ==> IsCommandCoil(ids[i]))
            && (COIL_APPLY in ids <==> callback && apply)
            && (COIL_SAVE in ids <==> callback && save)
            && (COIL_LOAD in ids <==> callback && load)
  {
  }

  /** A serviced coil is cleared; a coil that was not set stays as it was. */
  function ClearCoil(coils: map<word, bool>, k: word): map<word, bool>
  {
    if CoilOn(coils, k) then coils[k := false] else coils
  }

  /** After the three command coils are serviced, every command coil is
      clear and every other coil keeps its value. */
  lemma ClearCommandCoils(coils: map<word, bool>)
    ensures var r := ClearCoil(ClearCoil(ClearCoil(coils, COIL_APPLY), COIL_SAVE), COIL_LOAD);
            && r.Keys == coils.Keys
            && forall k :: k in r ==> r[k] == (coils[k] && !IsCommandCoil(k))
  {
  }

  /** Servicing the coils one after another notifies as Notifications says. */
  lemma NoticesAppend(log: seq<word>, callback: bool, apply: bool, save: bool, load: bool)
    ensures log + Notice(callback, apply, COIL_APPLY) + Notice(callback, save, COIL_SAVE) + Notice(callback, load, COIL_LOAD)
            == log + Notifications(callback, apply, save, load)
  {
  }

  /** getIpAddr in a given state: both IP registers resolved through HregRead. */
  function ResolvedIp(setupDone: bool, live: map<word, word>, e: seq<byte>, eo: word, dv: byte, cdv: byte): (ip: seq<byte>)
    requires CanResolve(setupDone, live, e, eo, dv, cdv, HREG_IP_ADDR_1)
    requires CanResolve(setupDone, live, e, eo, dv, cdv, HREG_IP_ADDR_2)
    ensures |ip| == 4
    ensures WordOf(ip[0], ip[1]) == Resolve(setupDone, live, e, eo, dv, cdv, HREG_IP_ADDR_1, HREG_IP_ADDR_DEFAULT_1)
    ensures WordOf(ip[2], ip[3]) == Resolve(setupDone, live, e, eo, dv, cdv, HREG_IP_ADDR_2, HREG_IP_ADDR_DEFAULT_2)
  {
    IpAddr(Resolve(setupDone, live, e, eo, dv, cdv, HREG_IP_ADDR_1, HREG_IP_ADDR_DEFAULT_1),
           Resolve(setupDone, live, e, eo, dv, cdv, HREG_IP_ADDR_2, HREG_IP_ADDR_DEFAULT_2))
  }

  /** A node with the default data version whose EEPROM is erased (every
      byte 0xFF) comes up at the default address 192.168.1.177 with id 0. */
  lemma ErasedEepromGivesDefaults(live: map<word, word>, e: seq<byte>, eo: word)
    requires SlotAddr(eo, HREG_IP_ADDR_2) + 2 <= |e|
    requires forall i :: 0 <= i < |e| ==> e[i] == 0xFF
    ensures HeaderFits(e, eo) && HeaderVersion(e, eo) == 0
    ensures ResolvedIp(false, live, e, eo, DEFAULT_DATA_VERSION, HeaderVersion(e, eo)) == [192, 168, 1, 177]
    ensures SwarmId(Resolve(false, live, e, eo, DEFAULT_DATA_VERSION, HeaderVersion(e, eo), HREG_IP_ADDR_2, HREG_IP_ADDR_DEFAULT_2)) == 0
  {
    assert e[eo] == 0xFF;
    InvalidStoreGivesFallback(live, e, eo, DEFAULT_DATA_VERSION, HREG_IP_ADDR_1, HREG_IP_ADDR_DEFAULT_1);
    InvalidStoreGivesFallback(live, e, eo, DEFAULT_DATA_VERSION, HREG_IP_ADDR_2, HREG_IP_ADDR_DEFAULT_2);
    DefaultAddresses();
  }

  class NetSwarm {
    const dataVersion: byte     // EEPROM data version the program expects
    const eepromOffset: word    // where NetSwarm's data starts in the EEPROM
    const eeprom: array<byte>   // the EEPROM, addressed by absolute offset

    var setupDone: bool
    var currentDataVersion: byte  // found by setupEeprom; 0 means invalid
    var persist: seq<word>        // the persisted-register list, head first
    var hasCallback: bool         // commandCallback is set
    var transactionId: word       // _masterTransactionId

    // the Modbus engine's register tables
    var hregs: map<word, word>
    var coils: map<word, bool>

    // what the core handed to its collaborators
    var configs: seq<NetConfig>   // calls of mb->config(mac, ip)
    var notified: seq<word>       // arguments passed to the callback

    /** Every persisted register exists and has its EEPROM slot inside the
        device, as do the header and the slots of the two IP registers;
        after setup both IP registers exist. */
    ghost predicate Valid()
      reads this
    {
      && eeprom.Length <= 0x1_0000
      && SlotAddr(eepromOffset, HREG_IP_ADDR_2) + 2 <= eeprom.Length
      && (forall k :: k in persist ==> k in hregs && SlotAddr(eepromOffset, k) + 2 <= eeprom.Length)
      && (setupDone ==> HREG_IP_ADDR_1 in hregs && HREG_IP_ADDR_2 in hregs)
    }

    constructor (eeprom: array<byte>, dataVersion: byte := DEFAULT_DATA_VERSION, eepromOffset: word := DEFAULT_EEPROM_OFFSET)
      requires eeprom.Length <= 0x1_0000
      requires SlotAddr(eepromOffset, HREG_IP_ADDR_2) + 2 <= eeprom.Length
      ensures Valid()
      ensures this.eeprom == eeprom && this.dataVersion == dataVersion && this.eepromOffset == eepromOffset
      ensures !setupDone && currentDataVersion == 0 && persist == [] && !hasCallback && transactionId == 0
      ensures hregs == map[] && coils == map[] && configs == [] && notified == []
    {
      this.eeprom := eeprom;
      this.dataVersion := dataVersion;
      this.eepromOffset := eepromOffset;
      setupDone := false;
      currentDataVersion := 0;
      persist := [];
      hasCallback := false;
      transactionId := 0;
      hregs := map[];
      coils := map[];
      configs := [];
      notified := [];
    }

    /** HregRead: the three-tier resolution in the current state. */
    function HregRead(offset: word, fallback: word): word
      reads this, eeprom
      requires CanResolve(setupDone, hregs, eeprom[..], eepromOffset, dataVersion, currentDataVersion, offset)
    {
      Resolve(setupDone, hregs, eeprom[..], eepromOffset, dataVersion, currentDataVersion, offset, fallback)
    }

    /** getIpAddr: both IP registers, resolved through HregRead. */
    function GetIpAddr(): (ip: seq<byte>)
      reads this, eeprom
      requires Valid()
      ensures |ip| == 4
    {
      ResolvedIp(setupDone, hregs, eeprom[..], eepromOffset, dataVersion, currentDataVersion)
    }

    /** getIpBcast: the current address with its last byte 0xFF. */
    function GetIpBcast(): (bc: seq<byte>)
      reads this, eeprom
      requires Valid()
      ensures |bc| == 4 && bc[..3] == GetIpAddr()[..3] && bc[3] == 0xFF
    {
      IpBcast(HregRead(HREG_IP_ADDR_1, HREG_IP_ADDR_DEFAULT_1), HregRead(HREG_IP_ADDR_2, HREG_IP_ADDR_DEFAULT_2))
    }

    /** getId: the last byte of the current address, counted from
        NETSWARM_IP_START_4 modulo 256. */
    function GetId(): (id: byte)
      reads this, eeprom
      requires Valid()
      ensures (id + NETSWARM_IP_START_4) % 0x100 == GetIpAddr()[3]
    {
      SwarmId(HregRead(HREG_IP_ADDR_2, HREG_IP_ADDR_DEFAULT_2))
    }

    /** getMacAddr: writes the prefix and the IP address into `mac`, and
        leaves `mac[1]` as it was. */
    method GetMacAddr(mac: array<byte>)
      requires Valid() && mac.Length == 6 && mac != eeprom
      modifies mac
      ensures mac[0] == 2 && mac[1] == old(mac[1])
      ensures mac[2..] == GetIpAddr()
    {
      mac[0] := 2;
      var ip := GetIpAddr();
      mac[2], mac[3], mac[4], mac[5] := ip[0], ip[1], ip[2], ip[3];
    }

    method SetCommandCallback(registered: bool)
      modifies this`hasCallback
      ensures hasCallback == registered
    {
      hasCallback := registered;
    }

    /** setupEeprom */
    method SetupEeprom()
      requires Valid()
      modifies this`currentDataVersion
      ensures currentDataVersion == HeaderVersion(eeprom[..], eepromOffset)
    {
      var eo := eepromOffset;
      if eeprom[eo] == MAGIC_0 && eeprom[eo + 1] == MAGIC_1 && eeprom[eo + 2] == MAGIC_2 {
        currentDataVersion := eeprom[eo + 3];
      } else {
        currentDataVersion := 0;
      }
    }

    /** setPersist: append to the tail of the list; no de-duplication. */
    method SetPersist(offset: word)
      requires Valid()
      requires offset in hregs && SlotAddr(eepromOffset, offset) + 2 <= eeprom.Length
      modifies this`persist
      ensures Valid()
      ensures persist == old(persist) + [offset]
    {
      persist := persist + [offset];
    }

    /** addHregPersist: register the holding register, then persist it. */
    method AddHregPersist(offset: word, value: word := 0)
      requires Valid()
      requires SlotAddr(eepromOffset, offset) + 2 <= eeprom.Length
      modifies this`hregs, this`persist
      ensures Valid()
      ensures hregs == old(hregs)[offset := value]
      ensures persist == old(persist) + [offset]
    {
      hregs := hregs[offset := value];  // ModbusT::addHreg
      SetPersist(offset);
    }

    /** setupNetwork: bind the transport to the resolved addresses. */
    method SetupNetwork()
      requires Valid()
      modifies this`configs
      ensures |configs| == |old(configs)| + 1 && configs[..|old(configs)|] == old(configs)
      ensures configs[|old(configs)|].ip == GetIpAddr()
      ensures IsSwarmMac(configs[|old(configs)|].mac, GetIpAddr())
    {
      var ip := GetIpAddr();
      var mac := new byte[6];
      GetMacAddr(mac);
      configs := configs + [NetConfig(mac[..], ip)];
    }

    /** setupRegisters: the two IP registers, seeded through HregRead and
        persisted in that order, and the three command coils. */
    method SetupRegisters()
      requires Valid()
      modifies this`hregs, this`persist, this`coils
      ensures Valid()
      ensures hregs == old(hregs)[HREG_IP_ADDR_1 := old(HregRead(HREG_IP_ADDR_1, HREG_IP_ADDR_DEFAULT_1))]
                                 [HREG_IP_ADDR_2 := old(HregRead(HREG_IP_ADDR_2, HREG_IP_ADDR_DEFAULT_2))]
      ensures persist == old(persist) + [HREG_IP_ADDR_1, HREG_IP_ADDR_2]
      ensures coils == old(coils)[COIL_APPLY := false][COIL_SAVE := false][COIL_LOAD := false]
    {
      var ip1 := HregRead(HREG_IP_ADDR_1, HREG_IP_ADDR_DEFAULT_1);
      AddHregPersist(HREG_IP_ADDR_1, ip1);
      var ip2 := HregRead(HREG_IP_ADDR_2, HREG_IP_ADDR_DEFAULT_2);
      AddHregPersist(HREG_IP_ADDR_2, ip2);
      coils := coils[COIL_APPLY := false];  // ModbusT::addCoil
      coils := coils[COIL_SAVE := false];
      coils := coils[COIL_LOAD := false];
    }

    /** config: read the EEPROM header, bring up the network, register the
        library's registers, and end the setup phase. */
    method Config()
      requires Valid()
      modifies this`currentDataVersion, this`configs, this`hregs, this`persist, this`coils, this`setupDone
      ensures Valid() && setupDone
      ensures currentDataVersion == HeaderVersion(eeprom[..], eepromOffset)
      ensures var ip1 := Resolve(old(setupDone), old(hregs), eeprom[..], eepromOffset, dataVersion, currentDataVersion,
                                 HREG_IP_ADDR_1, HREG_IP_ADDR_DEFAULT_1);
              var ip2 := Resolve(old(setupDone), old(hregs), eeprom[..], eepromOffset, dataVersion, currentDataVersion,
                                 HREG_IP_ADDR_2, HREG_IP_ADDR_DEFAULT_2);
              && hregs == old(hregs)[HREG_IP_ADDR_1 := ip1][HREG_IP_ADDR_2 := ip2]
              && |configs| == |old(configs)| + 1 && configs[..|old(configs)|] == old(configs)
              && configs[|old(configs)|].ip == IpAddr(ip1, ip2)
              && IsSwarmMac(configs[|old(configs)|].mac, IpAddr(ip1, ip2))
      ensures persist == old(persist) + [HREG_IP_ADDR_1, HREG_IP_ADDR_2]
      ensures coils == old(coils)[COIL_APPLY := false][COIL_SAVE := false][COIL_LOAD := false]
    {
      SetupEeprom();
      SetupNetwork();
      SetupRegisters();
      setupDone := true;
    }

    /** saveEeprom: the header, then each persisted register's value, high
        byte first, into its slot, walking the list from the head. */
    method SaveEeprom()
      requires Valid()
      modifies eeprom
      ensures eeprom[..] == SaveImage(old(eeprom[..]), eepromOffset, dataVersion, persist, hregs)
    {
      var eo := eepromOffset;
      eeprom[eo] := MAGIC_0;
      eeprom[eo + 1] := MAGIC_1;
      eeprom[eo + 2] := MAGIC_2;
      eeprom[eo + 3] := dataVersion;
      ghost var header := eeprom[..];
      assert header == WriteHeader(old(eeprom[..]), eo, dataVersion);
      if |persist| == 0 {
        return;
      }
      var i := 0;
      while i < |persist|
        invariant 0 <= i <= |persist|
        invariant eeprom[..] == SaveSlots(header, eo, persist[..i], hregs)
      {
        var k := persist[i];
        var w := hregs[k];
        var a := SlotAddr(eo, k);
        eeprom[a] := Hi(w);
        eeprom[a + 1] := Lo(w);
        assert persist[..i + 1][..i] == persist[..i];
        i := i + 1;
      }
      assert persist[..i] == persist;
    }

    /** loadEeprom: re-read the header; on a valid one, overwrite each
        persisted register with the word of its slot, walking the list from
        the head. */
    method LoadEeprom() returns (ok: bool)
      requires Valid()
      modifies this`hregs, this`currentDataVersion
      ensures Valid()
      ensures currentDataVersion == HeaderVersion(eeprom[..], eepromOffset)
      ensures ok == LoadAccepts(eeprom[..], eepromOffset, dataVersion, persist)
      ensures hregs == if ok then LoadRegs(eeprom[..], eepromOffset, persist, old(hregs)) else old(hregs)
    {
      SetupEeprom();
      if currentDataVersion == 0 || dataVersion != currentDataVersion {
        return false;
      }
      if |persist| == 0 {
        return false;
      }
      var eo := eepromOffset;
      var i := 0;
      while i < |persist|
        invariant 0 <= i <= |persist|
        invariant hregs == LoadRegs(eeprom[..], eo, persist[..i], old(hregs))
        invariant currentDataVersion == HeaderVersion(eeprom[..], eo)
      {
        var k := persist[i];
        var a := SlotAddr(eo, k);
        var w := WordOf(eeprom[a], eeprom[a + 1]);
        hregs := hregs[k := w];
        assert persist[..i + 1][..i] == persist[..i];
        i := i + 1;
      }
      assert persist[..i] == persist;
      return true;
    }

    /** task: after the Modbus engine has serviced its requests (which left
        the tables `polledHregs` and `polledCoils`, with the same registers),
        service the apply, save and load coils in that order. */
    method Task(polledHregs: map<word, word>, polledCoils: map<word, bool>)
      requires Valid()
      requires polledHregs.Keys == hregs.Keys && polledCoils.Keys == coils.Keys
      modifies this`hregs, this`coils, this`configs, this`notified, this`currentDataVersion, eeprom
      ensures Valid()
      ensures notified == old(notified) + Notifications(hasCallback, CoilOn(polledCoils, COIL_APPLY),
                                                        CoilOn(polledCoils, COIL_SAVE), CoilOn(polledCoils, COIL_LOAD))
      ensures coils == ClearCoil(ClearCoil(ClearCoil(polledCoils, COIL_APPLY), COIL_SAVE), COIL_LOAD)
      ensures CoilOn(polledCoils, COIL_APPLY) ==>
                var ip := ResolvedIp(setupDone, polledHregs, old(eeprom[..]), eepromOffset, dataVersion, old(currentDataVersion));
                && |configs| == |old(configs)| + 1 && configs[..|old(configs)|] == old(configs)
                && configs[|old(configs)|].ip == ip && IsSwarmMac(configs[|old(configs)|].mac, ip)
      ensures !CoilOn(polledCoils, COIL_APPLY) ==> configs == old(configs)
      ensures eeprom[..] == if CoilOn(polledCoils, COIL_SAVE)
                            then SaveImage(old(eeprom[..]), eepromOffset, dataVersion, persist, polledHregs)
                            else old(eeprom[..])
      ensures CoilOn(polledCoils, COIL_LOAD) ==>
                && currentDataVersion == HeaderVersion(eeprom[..], eepromOffset)
                && hregs == if LoadAccepts(eeprom[..], eepromOffset, dataVersion, persist)
                            then LoadRegs(eeprom[..], eepromOffset, persist, polledHregs)
                            else polledHregs
      ensures !CoilOn(polledCoils, COIL_LOAD) ==> currentDataVersion == old(currentDataVersion) && hregs == polledHregs
    {
      hregs, coils := polledHregs, polledCoils;  // mb->task()
      ghost var n0 := notified;
      ServiceApply();
      assert CoilOn(coils, COIL_SAVE) == CoilOn(polledCoils, COIL_SAVE);
      assert CoilOn(coils, COIL_LOAD) == CoilOn(polledCoils, COIL_LOAD);
      ServiceEeprom();
      NoticesAppend(n0, hasCallback, CoilOn(polledCoils, COIL_APPLY), CoilOn(polledCoils, COIL_SAVE), CoilOn(polledCoils, COIL_LOAD));
    }

    /** task, the apply coil: re-run setupNetwork, clear the coil, notify. */
    method ServiceApply()
      requires Valid()
      modifies this`configs, this`coils, this`notified
      ensures Valid()
      ensures coils == ClearCoil(old(coils), COIL_APPLY)
      ensures notified == old(notified) + Notice(hasCallback, CoilOn(old(coils), COIL_APPLY), COIL_APPLY)
      ensures CoilOn(old(coils), COIL_APPLY) ==>
                var ip := ResolvedIp(setupDone, hregs, eeprom[..], eepromOffset, dataVersion, currentDataVersion);
                && |configs| == |old(configs)| + 1 && configs[..|old(configs)|] == old(configs)
                && configs[|old(configs)|].ip == ip && IsSwarmMac(configs[|old(configs)|].mac, ip)
      ensures !CoilOn(old(coils), COIL_APPLY) ==> configs == old(configs)
    {
      if CoilOn(coils, COIL_APPLY) {
        SetupNetwork();
        coils := coils[COIL_APPLY := false];
        if hasCallback {
          notified := notified + [COIL_APPLY];
        }
      }
    }

    /** task, the save coil: saveEeprom, clear the coil, notify. */
    method ServiceSave()
      requires Valid()
      modifies eeprom, this`coils, this`notified
      ensures Valid()
      ensures coils == ClearCoil(old(coils), COIL_SAVE)
      ensures notified == old(notified) + Notice(hasCallback, CoilOn(old(coils), COIL_SAVE), COIL_SAVE)
      ensures eeprom[..] == if CoilOn(old(coils), COIL_SAVE)
                            then SaveImage(old(eeprom[..]), eepromOffset, dataVersion, persist, hregs)
                            else old(eeprom[..])
    {
      if CoilOn(coils, COIL_SAVE) {
        SaveEeprom();
        coils := coils[COIL_SAVE := false];
        if hasCallback {
          notified := notified + [COIL_SAVE];
        }
      }
    }

    /** task, the EEPROM commands: the save coil, then the load coil. */
    method ServiceEeprom()
      requires Valid()
      modifies eeprom, this`hregs, this`currentDataVersion, this`coils, this`notified
      ensures Valid()
      ensures coils == ClearCoil(ClearCoil(old(coils), COIL_SAVE), COIL_LOAD)
      ensures notified == old(notified) + Notice(hasCallback, CoilOn(old(coils), COIL_SAVE), COIL_SAVE)
                                        + Notice(hasCallback, CoilOn(old(coils), COIL_LOAD), COIL_LOAD)
      ensures eeprom[..] == if CoilOn(old(coils), COIL_SAVE)
                            then SaveImage(old(eeprom[..]), eepromOffset, dataVersion, persist, old(hregs))
                            else old(eeprom[..])
      ensures CoilOn(old(coils), COIL_LOAD) ==>
                && currentDataVersion == HeaderVersion(eeprom[..], eepromOffset)
                && hregs == if LoadAccepts(eeprom[..], eepromOffset, dataVersion, persist)
                            then LoadRegs(eeprom[..], eepromOffset, persist, old(hregs))
                            else old(hregs)
      ensures !CoilOn(old(coils), COIL_LOAD) ==> currentDataVersion == old(currentDataVersion) && hregs == old(hregs)
    {
      ServiceSave();
      assert CoilOn(coils, COIL_LOAD) == CoilOn(old(coils), COIL_LOAD);
      ServiceLoad();
    }

    /** task, the load coil: loadEeprom (its result is dropped), clear the
        coil, notify. */
    method ServiceLoad()
      requires Valid()
      modifies this`hregs, this`currentDataVersion, this`coils, this`notified
      ensures Valid()
      ensures coils == ClearCoil(old(coils), COIL_LOAD)
      ensures notified == old(notified) + Notice(hasCallback, CoilOn(old(coils), COIL_LOAD), COIL_LOAD)
      ensures CoilOn(old(coils), COIL_LOAD) ==>
                && currentDataVersion == HeaderVersion(eeprom[..], eepromOffset)
                && hregs == if LoadAccepts(eeprom[..], eepromOffset, dataVersion, persist)
                            then LoadRegs(eeprom[..], eepromOffset, persist, old(hregs))
                            else old(hregs)
      ensures !CoilOn(old(coils), COIL_LOAD) ==> currentDataVersion == old(currentDataVersion) && hregs == old(hregs)
    {
      if CoilOn(coils, COIL_LOAD) {
        var _ := LoadEeprom();
        coils := coils[COIL_LOAD := false];
        if hasCallback {
          notified := notified + [COIL_LOAD];
        }
      }
    }

    /** sendHreg: build the request in a fresh buffer and advance the
        transaction id; the buffer is what would be transmitted. */
    method SendHreg(address: word, value: word) returns (frame: seq<byte>)
      modifies this`transactionId
      ensures frame == WriteRegFrame(old(transactionId), address, value)
      ensures transactionId == NextTransaction(old(transactionId))
    {
      var buffer := FillWriteRegFrame(transactionId, address, value);
      transactionId := NextTransaction(transactionId);
      frame := buffer[..];
    }
  }

  /** Reboot round trip through the object: a node whose IP registers were
      written over the network and saved with the save coil, and a new node
      booted over the same EEPROM with the same data version, come up at
      the saved address. */
  method RebootRestoresAddress(e: array<byte>, dv: byte, ip1: word, ip2: word) returns (ip: seq<byte>)
    requires e.Length <= 0x1_0000 && SlotAddr(DEFAULT_EEPROM_OFFSET, HREG_IP_ADDR_2) + 2 <= e.Length
    modifies e
    ensures ip == IpAddr(ip1, ip2)
  {
    var first := new NetSwarm(e, dv);
    first.Config();
    first.Task(first.hregs[HREG_IP_ADDR_1 := ip1][HREG_IP_ADDR_2 := ip2], first.coils[COIL_SAVE := true]);
    var second := new NetSwarm(e, dv);
    second.Config();
    ResolveAfterSave(old(e[..]), DEFAULT_EEPROM_OFFSET, dv, first.persist, first.hregs, map[], HREG_IP_ADDR_1, HREG_IP_ADDR_DEFAULT_1);
    ResolveAfterSave(old(e[..]), DEFAULT_EEPROM_OFFSET, dv, first.persist, first.hregs, map[], HREG_IP_ADDR_2, HREG_IP_ADDR_DEFAULT_2);
    ip := second.GetIpAddr();
  }
}
