/** HregRead, the three-tier resolution of a configuration register:
    the live holding register once setup is done; before that, the EEPROM
    slot when the expected data version equals the one setupEeprom found;
    otherwise the compiled-in fallback. */
module Resolution {
  import opened Bytes
  import opened Eeprom

  /** What HregRead may rely on in the state it is called in. */
  predicate CanResolve(setupDone: bool, live: map<word, word>, e: seq<byte>, eo: word,
                       dataVersion: byte, currentDataVersion: byte, offset: word)
  {
    && (setupDone ==> offset in live)
    && (!setupDone && dataVersion == currentDataVersion ==> SlotFits(e, eo, offset))
  }

  /** As written: the store tier is chosen on `dataVersion == currentDataVersion`
      alone, without the non-zero test that loadEeprom makes. */
  function Resolve(setupDone: bool, live: map<word, word>, e: seq<byte>, eo: word,
                   dataVersion: byte, currentDataVersion: byte, offset: word, fallback: word): word
    requires CanResolve(setupDone, live, e, eo, dataVersion, currentDataVersion, offset)
  {
    if setupDone then live[offset]
    else if dataVersion == currentDataVersion then ReadWord(e, SlotAddr(eo, offset))
    else fallback
  }

  /** After setup the store and the fallback are never consulted: two
      states that agree on the live register resolve alike, whatever their
      EEPROM, versions and fallbacks. */
  lemma LiveAfterSetup(live: map<word, word>, e1: seq<byte>, e2: seq<byte>, eo: word,
                       dv1: byte, cdv1: byte, dv2: byte, cdv2: byte, offset: word, fb1: word, fb2: word)
    requires offset in live
    ensures Resolve(true, live, e1, eo, dv1, cdv1, offset, fb1) == live[offset]
    ensures Resolve(true, live, e1, eo, dv1, cdv1, offset, fb1) == Resolve(true, live, e2, eo, dv2, cdv2, offset, fb2)
  {
  }

  /** Before setup the live table is never consulted. */
  lemma StoreBeforeSetup(live1: map<word, word>, live2: map<word, word>, e: seq<byte>, eo: word,
                         dv: byte, cdv: byte, offset: word, fb: word)
    requires CanResolve(false, live1, e, eo, dv, cdv, offset)
    ensures Resolve(false, live1, e, eo, dv, cdv, offset, fb) == Resolve(false, live2, e, eo, dv, cdv, offset, fb)
    ensures Resolve(false, live1, e, eo, dv, cdv, offset, fb) == (if dv == cdv then ReadWord(e, SlotAddr(eo, offset)) else fb)
  {
  }

  /** With a non-zero expected version (the default build uses 1), an
      EEPROM without the magic or with stored version 0 always yields the
      fallback before setup. */
  lemma InvalidStoreGivesFallback(live: map<word, word>, e: seq<byte>, eo: word, dv: byte, offset: word, fb: word)
    requires HeaderFits(e, eo)
    requires dv != 0 && HeaderVersion(e, eo) == 0
    ensures CanResolve(false, live, e, eo, dv, HeaderVersion(e, eo), offset)
    ensures Resolve(false, live, e, eo, dv, HeaderVersion(e, eo), offset, fb) == fb
  {
  }

  /** The quirk of the code as written: with expected version 0, an EEPROM
      without the magic is read as if it were valid. An erased EEPROM (all
      0xFF) then gives 0xFFFF instead of the fallback. */
  lemma VersionZeroReadsInvalidStore(live: map<word, word>, e: seq<byte>, eo: word, offset: word, fb: word)
    requires HeaderFits(e, eo) && SlotFits(e, eo, offset)
    requires forall i :: 0 <= i < |e| ==> e[i] == 0xFF
    ensures HeaderVersion(e, eo) == 0
    ensures Resolve(false, live, e, eo, 0, HeaderVersion(e, eo), offset, fb) == 0xFFFF
  {
    assert e[eo] == 0xFF;
    assert e[SlotAddr(eo, offset)] == 0xFF && e[SlotAddr(eo, offset) + 1] == 0xFF;
  }

  /** Reboot round trip: after saveEeprom from table `h`, a fresh start
      (setup not done, setupEeprom run again) resolves every persisted
      register to its saved value, provided the EEPROM was not changed in
      between; with expected version 0 it does too, as written. */
  lemma ResolveAfterSave(e: seq<byte>, eo: word, dv: byte, ps: seq<word>, h: map<word, word>,
                         live: map<word, word>, k: word, fb: word)
    requires HeaderFits(e, eo) && AllSlotsFit(e, eo, ps) && Registered(ps, h)
    requires k in ps
    ensures var r := SaveImage(e, eo, dv, ps, h);
            && CanResolve(false, live, r, eo, dv, HeaderVersion(r, eo), k)
            && Resolve(false, live, r, eo, dv, HeaderVersion(r, eo), k, fb) == h[k]
  {
    SaveImageContents(e, eo, dv, ps, h);
  }
}
