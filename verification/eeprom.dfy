/** The EEPROM layout: at `eo` (the configured EEPROM offset) a four-byte
    header, the magic 'N','S','d' followed by the data version, and then
    one big-endian two-byte slot per holding register, the slot of register
    `k` sitting at `eo + 4 + 2 * k`. Only the slots of persisted registers
    are ever written. These functions are the state transformers that the
    class's setupEeprom, saveEeprom and loadEeprom are proved against. */
module Eeprom {
  import opened Bytes

  const MAGIC_0: byte := 'N' as int
  const MAGIC_1: byte := 'S' as int
  const MAGIC_2: byte := 'd' as int
  const HEADER_SIZE: nat := 4

  /** Address of the high byte of register `k`'s slot; the low byte follows. */
  function SlotAddr(eo: word, k: word): nat
  {
    eo + HEADER_SIZE + 2 * k
  }

  predicate HeaderFits(e: seq<byte>, eo: word)
  {
    eo + HEADER_SIZE <= |e|
  }

  predicate SlotFits(e: seq<byte>, eo: word, k: word)
  {
    SlotAddr(eo, k) + 2 <= |e|
  }

  predicate AllSlotsFit(e: seq<byte>, eo: word, ps: seq<word>)
  {
    forall k :: k in ps ==> SlotFits(e, eo, k)
  }

  /** Every persisted offset is a register of the table `h`. */
  predicate Registered(ps: seq<word>, h: map<word, word>)
  {
    forall k :: k in ps ==> k in h
  }

  /** The big-endian word stored at `a`, `a + 1`. */
  function ReadWord(e: seq<byte>, a: nat): (w: word)
    requires a + 2 <= |e|
    ensures Hi(w) == e[a] && Lo(w) == e[a + 1]
  {
    JoinSplit(e[a], e[a + 1]);
    WordOf(e[a], e[a + 1])
  }

  /** Store `w` big-endian at `a`, `a + 1`. */
  function WriteWord(e: seq<byte>, a: nat, w: word): (r: seq<byte>)
    requires a + 2 <= |e|
    ensures |r| == |e|
    ensures r[a] == Hi(w) && r[a + 1] == Lo(w)
    ensures ReadWord(r, a) == w
    ensures forall i :: 0 <= i < |e| && i != a && i != a + 1 ==> r[i] == e[i]
  {
    SplitJoin(w);
    e[a := Hi(w)][a + 1 := Lo(w)]
  }

  /** setupEeprom: the stored data version when the magic is present, and
      0 ("no valid data") when it is not. */
  function HeaderVersion(e: seq<byte>, eo: word): byte
    requires HeaderFits(e, eo)
  {
    if e[eo] == MAGIC_0 && e[eo + 1] == MAGIC_1 && e[eo + 2] == MAGIC_2 then e[eo + 3] else 0
  }

  /** The header part of saveEeprom. */
  function WriteHeader(e: seq<byte>, eo: word, version: byte): (r: seq<byte>)
    requires HeaderFits(e, eo)
    ensures |r| == |e|
    ensures r[eo..eo + HEADER_SIZE] == [MAGIC_0, MAGIC_1, MAGIC_2, version]
    ensures HeaderVersion(r, eo) == version
    ensures forall i :: 0 <= i < |e| && !(eo <= i < eo + HEADER_SIZE) ==> r[i] == e[i]
  {
    e[eo := MAGIC_0][eo + 1 := MAGIC_1][eo + 2 := MAGIC_2][eo + 3 := version]
  }

  /** The slot part of saveEeprom: the register values of `h` for the
      offsets of `ps`, written in list order. */
  function SaveSlots(e: seq<byte>, eo: word, ps: seq<word>, h: map<word, word>): (r: seq<byte>)
    requires AllSlotsFit(e, eo, ps) && Registered(ps, h)
    ensures |r| == |e|
    decreases |ps|
  {
    if ps == [] then e
    else
      var k := ps[|ps| - 1];
      WriteWord(SaveSlots(e, eo, ps[..|ps| - 1], h), SlotAddr(eo, k), h[k])
  }

  /** The EEPROM contents after saveEeprom. */
  function SaveImage(e: seq<byte>, eo: word, version: byte, ps: seq<word>, h: map<word, word>): (r: seq<byte>)
    requires HeaderFits(e, eo) && AllSlotsFit(e, eo, ps) && Registered(ps, h)
    ensures |r| == |e|
  {
    SaveSlots(WriteHeader(e, eo, version), eo, ps, h)
  }

  /** loadEeprom's acceptance test: valid magic, a non-zero stored version
      equal to the expected one, and at least one persisted register. */
  predicate LoadAccepts(e: seq<byte>, eo: word, version: byte, ps: seq<word>)
    requires HeaderFits(e, eo)
  {
    var stored := HeaderVersion(e, eo);
    stored != 0 && version == stored && ps != []
  }

  /** The register table after a successful loadEeprom: each persisted
      register overwritten, in list order, with the word of its slot. */
  function LoadRegs(e: seq<byte>, eo: word, ps: seq<word>, h: map<word, word>): (r: map<word, word>)
    requires AllSlotsFit(e, eo, ps) && Registered(ps, h)
    ensures r.Keys == h.Keys
    decreases |ps|
  {
    if ps == [] then h
    else
      var k := ps[|ps| - 1];
      assert SlotFits(e, eo, k);
      LoadRegs(e, eo, ps[..|ps| - 1], h)[k := ReadWord(e, SlotAddr(eo, k))]
  }

  /** Distinct registers have disjoint slots, and no slot overlaps the header. */
  lemma SlotsDisjoint(eo: word, j: word, k: word)
    requires j != k
    ensures SlotAddr(eo, j) != SlotAddr(eo, k) && SlotAddr(eo, j) != SlotAddr(eo, k) + 1
    ensures SlotAddr(eo, j) + 1 != SlotAddr(eo, k) && SlotAddr(eo, j) + 1 != SlotAddr(eo, k) + 1
    ensures SlotAddr(eo, k) >= eo + HEADER_SIZE
  {
  }

  /** Saving writes no byte outside the slots of the persisted registers. */
  lemma {:induction false} SaveSlotsFrame(e: seq<byte>, eo: word, ps: seq<word>, h: map<word, word>, a: nat)
    requires AllSlotsFit(e, eo, ps) && Registered(ps, h)
    requires a < |e|
    requires forall k :: k in ps ==> a != SlotAddr(eo, k) && a != SlotAddr(eo, k) + 1
    ensures SaveSlots(e, eo, ps, h)[a] == e[a]
  {
    if ps != [] {
      SaveSlotsFrame(e, eo, ps[..|ps| - 1], h, a);
    }
  }

  /** After saving, the slot of every persisted register holds its value,
      high byte first, whatever the order or repetition of the list. */
  lemma {:induction false} SaveSlotsValue(e: seq<byte>, eo: word, ps: seq<word>, h: map<word, word>, k: word)
    requires AllSlotsFit(e, eo, ps) && Registered(ps, h)
    requires k in ps
    ensures var r := SaveSlots(e, eo, ps, h);
            r[SlotAddr(eo, k)] == Hi(h[k]) && r[SlotAddr(eo, k) + 1] == Lo(h[k])
  {
    var last := ps[|ps| - 1];
    if last != k {
      assert k in ps[..|ps| - 1];
      SaveSlotsValue(e, eo, ps[..|ps| - 1], h, k);
      SlotsDisjoint(eo, last, k);
    }
  }

  /** saveEeprom, byte by byte: the header reads 'N','S','d',version, each
      persisted slot holds its register big-endian, and every other byte
      is what it was. */
  lemma SaveImageContents(e: seq<byte>, eo: word, version: byte, ps: seq<word>, h: map<word, word>)
    requires HeaderFits(e, eo) && AllSlotsFit(e, eo, ps) && Registered(ps, h)
    ensures var r := SaveImage(e, eo, version, ps, h);
            && r[eo..eo + HEADER_SIZE] == [MAGIC_0, MAGIC_1, MAGIC_2, version]
            && HeaderVersion(r, eo) == version
            && (forall k :: k in ps ==> r[SlotAddr(eo, k)] == Hi(h[k]) && r[SlotAddr(eo, k) + 1] == Lo(h[k]))
            && (forall k :: k in ps ==> ReadWord(r, SlotAddr(eo, k)) == h[k])
            && (forall a :: 0 <= a < |e| && !(eo <= a < eo + HEADER_SIZE) &&
                  (forall k :: k in ps ==> a != SlotAddr(eo, k) && a != SlotAddr(eo, k) + 1)
                  ==> r[a] == e[a])
  {
    var w := WriteHeader(e, eo, version);
    var r := SaveSlots(w, eo, ps, h);
    forall a | eo <= a < eo + HEADER_SIZE
      ensures r[a] == w[a]
    {
      forall k | k in ps ensures a != SlotAddr(eo, k) && a != SlotAddr(eo, k) + 1 { }
      SaveSlotsFrame(w, eo, ps, h, a);
    }
    assert r[eo..eo + HEADER_SIZE] == w[eo..eo + HEADER_SIZE];
    forall k | k in ps
      ensures r[SlotAddr(eo, k)] == Hi(h[k]) && r[SlotAddr(eo, k) + 1] == Lo(h[k])
      ensures ReadWord(r, SlotAddr(eo, k)) == h[k]
    {
      SaveSlotsValue(w, eo, ps, h, k);
      SplitJoin(h[k]);
    }
    forall a | 0 <= a < |e| && !(eo <= a < eo + HEADER_SIZE) &&
               (forall k :: k in ps ==> a != SlotAddr(eo, k) && a != SlotAddr(eo, k) + 1)
      ensures r[a] == e[a]
    {
      SaveSlotsFrame(w, eo, ps, h, a);
    }
  }

  /** After loading, every persisted register holds the word of its slot. */
  lemma {:induction false} LoadRegsValue(e: seq<byte>, eo: word, ps: seq<word>, h: map<word, word>, k: word)
    requires AllSlotsFit(e, eo, ps) && Registered(ps, h)
    requires k in ps
    ensures LoadRegs(e, eo, ps, h)[k] == ReadWord(e, SlotAddr(eo, k))
  {
    if ps[|ps| - 1] != k {
      assert k in ps[..|ps| - 1];
      LoadRegsValue(e, eo, ps[..|ps| - 1], h, k);
    }
  }

  /** Loading leaves every register that is not persisted untouched. */
  lemma {:induction false} LoadRegsFrame(e: seq<byte>, eo: word, ps: seq<word>, h: map<word, word>, k: word)
    requires AllSlotsFit(e, eo, ps) && Registered(ps, h)
    requires k in h && k !in ps
    ensures LoadRegs(e, eo, ps, h)[k] == h[k]
  {
    if ps != [] {
      assert k !in ps[..|ps| - 1];
      LoadRegsFrame(e, eo, ps[..|ps| - 1], h, k);
    }
  }

  /** Round trip: an EEPROM written by saveEeprom from table `h` is accepted
      by loadEeprom exactly when the version is non-zero and the list is not
      empty, and loading it into any table `h2` holding the same persisted
      registers restores every persisted value of `h` and keeps every other
      register of `h2`. */
  lemma SaveThenLoad(e: seq<byte>, eo: word, version: byte, ps: seq<word>, h: map<word, word>, h2: map<word, word>)
    requires HeaderFits(e, eo) && AllSlotsFit(e, eo, ps) && Registered(ps, h) && Registered(ps, h2)
    ensures var r := SaveImage(e, eo, version, ps, h);
            && (LoadAccepts(r, eo, version, ps) <==> version != 0 && ps != [])
            && LoadRegs(r, eo, ps, h2).Keys == h2.Keys
            && (forall k :: k in ps ==> LoadRegs(r, eo, ps, h2)[k] == h[k])
            && (forall k :: k in h2 && k !in ps ==> LoadRegs(r, eo, ps, h2)[k] == h2[k])
  {
    var r := SaveImage(e, eo, version, ps, h);
    SaveImageContents(e, eo, version, ps, h);
    forall k | k in ps ensures LoadRegs(r, eo, ps, h2)[k] == h[k] {
      LoadRegsValue(r, eo, ps, h2, k);
    }
    forall k | k in h2 && k !in ps ensures LoadRegs(r, eo, ps, h2)[k] == h2[k] {
      LoadRegsFrame(r, eo, ps, h2, k);
    }
  }
}
