/**
  Which pin resets the chip once the boots have come to rest, without and with
  power failures on the way.
 */
module ResetPin {

  import opened Words

  import opened Boot
  import opened UicrOutcome

  const PIN_FIELD: Word := 0x1F

  /** The word connects the reset function to the pin that the boot writes. */
  predicate SelectsResetPin(w: Word) {
    w & CONNECT == 0 && w & PIN_FIELD == RESET_PIN
  }

  predicate Selected(u: Uicr) {
    SelectsResetPin(u.pselReset0) && SelectsResetPin(u.pselReset1)
  }

  // ---------- Without power failures ----------

  /**
    A completed boot does not always select the intended pin: flash bits that
    were cleared before stay cleared.  It does exactly when the words, if they
    had to be written, had all bits of the pin number set, and, if they had
    not, selected the pin already.
   */
  lemma PinSelectedExactlyWhen(o: Options, u: Uicr, es: seq<Event>)
    requires o.gpioAsPinReset
    requires NoFailure(es) && Run(o, Start(u, 0), es).pc == Done
    ensures
      Selected(Run(o, Start(u, 0), es).uicr)
      <==>
      if Test(PinReset, u) then u.pselReset0 & RESET_PIN == RESET_PIN && u.pselReset1 & RESET_PIN == RESET_PIN
      else u.pselReset0 & PIN_FIELD == RESET_PIN && u.pselReset1 & PIN_FIELD == RESET_PIN
  {
    ExactContents(o, u, es, PselReset0);
    ExactContents(o, u, es, PselReset1);
    PinAfterBurn(u.pselReset0);
    PinAfterBurn(u.pselReset1);
    hide Run, Burn;
  }

  lemma PinAfterBurn(w: Word)
    ensures SelectsResetPin(Burn(w, RESET_PIN)) <==> w & RESET_PIN == RESET_PIN
  {
  }

  /** A word that was once set to pin 20 cannot be set to pin 21: no completed boot selects the intended pin. */
  lemma EarlierPinPreventsSelection(o: Options, es: seq<Event>)
    requires o.gpioAsPinReset && NoFailure(es)
    requires Run(o, Start(Uicr(0, 0x8000_0014, 0xFFFF_FFFF), 0), es).pc == Done
    ensures Run(o, Start(Uicr(0, 0x8000_0014, 0xFFFF_FFFF), 0), es).uicr.pselReset0 == 20
  {
    ExactContents(o, Uicr(0, 0x8000_0014, 0xFFFF_FFFF), es, PselReset0);
  }

  // ---------- With power failures ----------

  /** The word has no bit that the pin number has not. */
  predicate Pinned(w: Word) {
    w & !RESET_PIN == 0
  }

  lemma PinnedKept(w: Word, v: Word)
    requires Pinned(w)
    ensures Pinned(Burn(w, v))
  {
  }

  lemma PinnedAfterWrite(w: Word)
    ensures Pinned(Burn(w, RESET_PIN))
  {
  }

  /** The code is past writing the first word. */
  predicate FirstWritten(s: State) {
    && s.pc.At? && s.pc.part.PinReset?
    && match s.pc.phase
       case Write(k) => k >= 1
       case Writing(k) => k >= 1 || s.nvmc.busy == 0
       case _ => false
  }

  /** The second word gets connected only after the first one has been written completely. */
  predicate InSequence(s: State) {
    FirstWritten(s) || Met(PselReset1, s.uicr.pselReset1) ==> Pinned(s.uicr.pselReset0)
  }

  lemma LandPsel(u: Uicr, f: Flight)
    ensures
      var v := Land(u, f);
      && v.pselReset0 == (if f.Writing? && f.register.PselReset0? then Burn(u.pselReset0, f.value) else u.pselReset0)
      && v.pselReset1 == (if f.Writing? && f.register.PselReset1? then Burn(u.pselReset1, f.value) else u.pselReset1)
  {
    hide Burn;
  }

  lemma FailureInSequence(o: Options, s: State, kept: Word)
    requires Inv(o, s) && InSequence(s)
    ensures InSequence(Next(o, s, PowerFailure(kept)))
  {
    hide Burn, Met, NewValue, Pinned, Land, Tear, CutShort, MetUpTo;
    var f := s.nvmc.flight;
    TearIsLand(s.uicr, f, kept);
    if f.Writing? {
      LandPsel(s.uicr, Flight.Writing(f.register, CutShort(f.value, kept)));
      if Pinned(s.uicr.pselReset0) {
        PinnedKept(s.uicr.pselReset0, CutShort(f.value, kept));
      }
    } else {
      LandPsel(s.uicr, f);
    }
  }

  lemma TickInSequence(o: Options, s: State, delay: nat)
    requires Inv(o, s) && InSequence(s)
    ensures InSequence(Tick(o, s, delay))
  {
    hide Burn, Met, Test, Pinned, Land, MetUpTo;
    LandPsel(s.uicr, Nothing);
    LandPsel(s.uicr, s.nvmc.flight);
    PinnedAfterWrite(s.uicr.pselReset0);
    if s.pc.At? && s.pc.phase.Write? && s.pc.phase.k < |Registers(s.pc.part)| {
      var q := Registers(s.pc.part)[s.pc.phase.k];
      LandPsel(s.uicr, Flight.Writing(q, NewValue(q, s.uicr.Read(q))));
    }
    hide NewValue;
  }

  lemma {:induction false} RunInSequence(o: Options, u: Uicr, es: seq<Event>)
    requires !Met(PselReset1, u.pselReset1)
    ensures InSequence(Run(o, Start(u, 0), es))
  {
    if es != [] {
      var s := Run(o, Start(u, 0), es[..|es| - 1]);
      RunInSequence(o, u, es[..|es| - 1]);
      RunInv(o, Start(u, 0), es[..|es| - 1]);
      match es[|es| - 1]
      case Go(delay) => TickInSequence(o, s, delay);
      case PowerFailure(kept) => FailureInSequence(o, s, kept);
    }
    hide Inv, Tick, InSequence;
  }

  /** The words at power-on from which every run that comes to rest selects the intended pin. */
  predicate ProofAgainstFailures(u: Uicr) {
    && u.pselReset1 & PIN_FIELD == RESET_PIN
    && if u.pselReset1 & CONNECT != 0 then u.pselReset0 & RESET_PIN == RESET_PIN
       else u.pselReset0 & PIN_FIELD == RESET_PIN
  }

  lemma FieldKept(w0: Word, w: Word)
    requires OnlyOtherPinBitsCleared(w0, w) && w0 & PIN_FIELD == RESET_PIN && Met(PselReset0, w)
    ensures SelectsResetPin(w)
  {
  }

  lemma FieldPinned(w0: Word, w: Word)
    requires OnlyOtherPinBitsCleared(w0, w) && w0 & RESET_PIN == RESET_PIN && Pinned(w)
    ensures SelectsResetPin(w)
  {
  }

  lemma MetAlike(w: Word)
    ensures Met(PselReset0, w) <==> w & CONNECT == 0
    ensures Met(PselReset1, w) <==> w & CONNECT == 0
  {
  }

  /** When a boot has completed, both words are connected. */
  lemma DoneMeans(o: Options, u: Uicr, es: seq<Event>)
    requires o.gpioAsPinReset && Run(o, Start(u, 0), es).pc == Done
    ensures
      var v := Run(o, Start(u, 0), es).uicr;
      v.pselReset0 & CONNECT == 0 && v.pselReset1 & CONNECT == 0
  {
    hide Met, Run;
    RunInv(o, Start(u, 0), es);
    TestIsUnmet(PinReset, Run(o, Start(u, 0), es).uicr);
  }

  lemma SelectedDespiteFailures(o: Options, u: Uicr, es: seq<Event>)
    requires o.gpioAsPinReset && ProofAgainstFailures(u) && Run(o, Start(u, 0), es).pc == Done
    ensures Selected(Run(o, Start(u, 0), es).uicr)
  {
    hide Met, Run, SelectsResetPin, OnlyOtherPinBitsCleared, OnlyProtectCleared, Pinned;
    var s := Run(o, Start(u, 0), es);
    OnlyIntendedBitsChange(o, u, es);
    DoneMeans(o, u, es);
    MetAlike(s.uicr.pselReset0);
    MetAlike(s.uicr.pselReset1);
    MetAlike(u.pselReset1);
    FieldKept(u.pselReset1, s.uicr.pselReset1);
    if u.pselReset1 & CONNECT != 0 {
      RunInSequence(o, u, es);
      FieldPinned(u.pselReset0, s.uicr.pselReset0);
    } else {
      FieldKept(u.pselReset0, s.uicr.pselReset0);
    }
  }

  // The worst that can happen.

  /** What is left of a word if only its connect bit has been cleared when the power fails. */
  const ALL_BUT_CONNECT: Word := 0x7FFF_FFFF

  lemma OnlyConnectCleared(w: Word)
    ensures Burn(w, CutShort(RESET_PIN, ALL_BUT_CONNECT)) & CONNECT == 0
    ensures Burn(w, CutShort(RESET_PIN, ALL_BUT_CONNECT)) & PIN_FIELD == w & PIN_FIELD
  {
  }

  /** A run that has brought the chip to the test of the reset pin, with the words of that part as they were. */
  ghost predicate AtPinTest(o: Options, u: Uicr, s: State, es: seq<Event>) {
    && Run(o, Start(u, 0), es) == s && s.pc == At(PinReset, Testing) && s.nvmc == CLOSED
    && s.uicr.pselReset0 == u.pselReset0 && s.uicr.pselReset1 == u.pselReset1
    && (o.nfcPinsAsGpios ==> !Test(Nfc, s.uicr))
  }

  lemma NfcPart(o: Options, u: Uicr) returns (s: State, es: seq<Event>)
    ensures AtPinTest(o, u, s, es)
  {
    hide Burn, Test, NewValue, Run;
    var start := Start(u, 0);
    s, es := start, [];
    RunNothing(o, start);
    s, es := Extend(o, start, s, es, Go(0));
    if s.pc == At(Nfc, Open) {
      s, es := Extend(o, start, s, es, Go(0));
      s, es := Extend(o, start, s, es, Go(0));
      s, es := Extend(o, start, s, es, Go(0));
      s, es := Extend(o, start, s, es, Go(0));
      assert s.pc == At(Nfc, Write(1));
      s, es := Extend(o, start, s, es, Go(0));
      s, es := Extend(o, start, s, es, Go(0));
      s, es := Extend(o, start, s, es, Go(0));
      s, es := Extend(o, start, s, es, Go(0));
      assert s.pc == At(Nfc, Testing) && s.nvmc == CLOSED;
      TestIsUnmet(Nfc, s.uicr);
      MetAfterWrite(NfcPins, u.nfcPins);
      s, es := Extend(o, start, s, es, Go(0));
    }
  }

  lemma RunNothing(o: Options, s: State)
    ensures Run(o, s, []) == s
  {
  }

  /** The accesses from the test to the first write. */
  lemma Opened(o: Options, u: Uicr, s: State, es: seq<Event>) returns (s': State, es': seq<Event>)
    requires o.gpioAsPinReset && AtPinTest(o, u, s, es) && Test(PinReset, u)
    ensures Run(o, Start(u, 0), es') == s' == s.(pc := At(PinReset, Write(0)), nvmc := OPEN)
  {
    hide Run;
    s', es' := Extend(o, Start(u, 0), s, es, Go(0));
    s', es' := Extend(o, Start(u, 0), s', es', Go(0));
    s', es' := Extend(o, Start(u, 0), s', es', Go(0));
  }

  /** A boot that finds nothing to do. */
  lemma NothingLeft(o: Options, u: Uicr, s: State, es: seq<Event>) returns (es': seq<Event>)
    requires Run(o, Start(u, 0), es) == s && s.pc == At(Nfc, Testing)
    requires o.nfcPinsAsGpios ==> !Test(Nfc, s.uicr)
    requires !Test(PinReset, s.uicr)
    ensures Run(o, Start(u, 0), es') == s.(pc := Done)
  {
    hide Run, Test;
    var s';
    s', es' := Extend(o, Start(u, 0), s, es, Go(0));
    s', es' := Extend(o, Start(u, 0), s', es', Go(0));
  }

  /** The power fails during the write of the second word, when the first one has been written. */
  lemma SecondCutShort(o: Options, u: Uicr) returns (es: seq<Event>)
    requires o.gpioAsPinReset && u.pselReset1 & CONNECT != 0
    ensures
      var s := Run(o, Start(u, 0), es);
      && s.pc == Done
      && s.uicr.pselReset0 == Burn(u.pselReset0, RESET_PIN)
      && s.uicr.pselReset1 == Burn(u.pselReset1, CutShort(RESET_PIN, ALL_BUT_CONNECT))
  {
    hide Run, Burn, CutShort;
    var s;
    s, es := NfcPart(o, u);
    s, es := Opened(o, u, s, es);
    s, es := Extend(o, Start(u, 0), s, es, Go(0));
    s, es := Extend(o, Start(u, 0), s, es, Go(0));
    assert s.pc == At(PinReset, Write(1));
    s, es := Extend(o, Start(u, 0), s, es, Go(1));
    s, es := Extend(o, Start(u, 0), s, es, PowerFailure(ALL_BUT_CONNECT));
    assert s.uicr.pselReset1 == Burn(u.pselReset1, CutShort(RESET_PIN, ALL_BUT_CONNECT));
    OnlyConnectCleared(u.pselReset1);
    MetAlike(s.uicr.pselReset0);
    MetAfterWrite(PselReset0, u.pselReset0);
    es := NothingLeft(o, u, s, es);
  }

  /** The power fails during the write of the first word, when the second one was connected already. */
  lemma FirstCutShort(o: Options, u: Uicr) returns (es: seq<Event>)
    requires o.gpioAsPinReset && u.pselReset0 & CONNECT != 0 && u.pselReset1 & CONNECT == 0
    ensures
      var s := Run(o, Start(u, 0), es);
      && s.pc == Done
      && s.uicr.pselReset0 == Burn(u.pselReset0, CutShort(RESET_PIN, ALL_BUT_CONNECT))
      && s.uicr.pselReset1 == u.pselReset1
  {
    hide Run, Burn, CutShort;
    var s;
    s, es := NfcPart(o, u);
    s, es := Opened(o, u, s, es);
    s, es := Extend(o, Start(u, 0), s, es, Go(1));
    s, es := Extend(o, Start(u, 0), s, es, PowerFailure(ALL_BUT_CONNECT));
    OnlyConnectCleared(u.pselReset0);
    es := NothingLeft(o, u, s, es);
  }

  lemma BothConnected(o: Options, u: Uicr) returns (es: seq<Event>)
    requires u.pselReset0 & CONNECT == 0 && u.pselReset1 & CONNECT == 0
    ensures
      var s := Run(o, Start(u, 0), es);
      s.pc == Done && s.uicr.pselReset0 == u.pselReset0 && s.uicr.pselReset1 == u.pselReset1
  {
    hide Run;
    var s;
    s, es := NfcPart(o, u);
    s, es := Extend(o, Start(u, 0), s, es, Go(0));
  }

  /** A run that comes to rest and selects the intended pin only if every one does. */
  lemma WorstRun(o: Options, u: Uicr) returns (es: seq<Event>)
    requires o.gpioAsPinReset
    ensures
      var s := Run(o, Start(u, 0), es);
      s.pc == Done && (Selected(s.uicr) ==> ProofAgainstFailures(u))
  {
    hide Run, Burn, CutShort;
    if u.pselReset1 & CONNECT != 0 {
      es := SecondCutShort(o, u);
      PinAfterBurn(u.pselReset0);
      OnlyConnectCleared(u.pselReset1);
    } else if u.pselReset0 & CONNECT != 0 {
      es := FirstCutShort(o, u);
      OnlyConnectCleared(u.pselReset0);
    } else {
      es := BothConnected(o, u);
    }
  }

  /**
    However often and whenever the power fails: every run that comes to rest
    selects the intended pin exactly when the words at power-on allow it.
   */
  lemma AlwaysSelectedExactlyWhen(o: Options, u: Uicr)
    requires o.gpioAsPinReset
    ensures
      (forall es: seq<Event> | Run(o, Start(u, 0), es).pc == Done :: Selected(Run(o, Start(u, 0), es).uicr))
      <==> ProofAgainstFailures(u)
  {
    hide Selected, ProofAgainstFailures;
    if ProofAgainstFailures(u) {
      forall es: seq<Event> | Run(o, Start(u, 0), es).pc == Done
        ensures Selected(Run(o, Start(u, 0), es).uicr)
      {
        SelectedDespiteFailures(o, u, es);
      }
    } else {
      var es := WorstRun(o, u);
    }
    hide Run;
  }

  /** Erased words do not allow it: the power may fail so that the chip is left with another reset pin for good. */
  lemma ErasedWordsNotProof(o: Options, nfcPins: Word) returns (es: seq<Event>)
    requires o.gpioAsPinReset
    ensures
      var s := Run(o, Start(Uicr(nfcPins, 0xFFFF_FFFF, 0xFFFF_FFFF), 0), es);
      s.pc == Done && s.uicr.pselReset1 & CONNECT == 0 && s.uicr.pselReset1 & PIN_FIELD == 31
  {
    es := SecondCutShort(o, Uicr(nfcPins, 0xFFFF_FFFF, 0xFFFF_FFFF));
    hide Run;
  }
}
