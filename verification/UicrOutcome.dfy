/**
  What the boot sequence leaves in UICR.
 */
module UicrOutcome {

  import opened Words

  import opened Boot

  // ---------- Without power failures: the exact contents ----------

  /** The part that writes a word, and the word's place in it. */
  function PartOf(r: Register): Part {
    if r.NfcPins? then Nfc else PinReset
  }

  function PlaceOf(r: Register): nat {
    if r.PselReset1? then 1 else 0
  }

  /** Whether the code will still write the word before the boot that completes. */
  predicate StillToWrite(o: Options, s: State, r: Register) {
    var p := PartOf(r);
    if s.pc.At? && s.pc.part == p && !s.pc.phase.Testing? then
      match s.pc.phase
      case Open | Opening => true
      case Write(k) => k <= PlaceOf(r)
      case Writing(k) => k < PlaceOf(r)
      case _ => false
    else
      Enabled(o, p) && Test(p, s.uicr)
  }

  /** What the word will be once boots come to rest, told from any state in between. */
  function Outcome(o: Options, s: State, r: Register): Word {
    var now := Land(s.uicr, s.nvmc.flight).Read(r);
    if StillToWrite(o, s, r) then Burn(now, NewValue(r, now)) else now
  }

  /** The part that writes the word is not executing. */
  predicate Elsewhere(s: State, r: Register) {
    s.pc.At? ==> s.pc.part != PartOf(r) || s.pc.phase.Testing?
  }

  lemma OutcomeElsewhere(o: Options, s: State, r: Register)
    requires Inv(o, s) && Elsewhere(s, r)
    ensures
      var w := s.uicr.Read(r);
      Outcome(o, s, r) == if Enabled(o, PartOf(r)) && Test(PartOf(r), s.uicr) then Burn(w, NewValue(r, w)) else w
  {
    hide Burn, Met, NewValue, Test, Uicr.Read, Uicr.Store, Land, AllMet, MetUpTo;
    LandRead(s.uicr, s.nvmc.flight, r);
  }

  lemma TickReadsElsewhere(o: Options, s: State, delay: nat, r: Register)
    requires Inv(o, s) && s.pc.At? && PartOf(r) != s.pc.part
    ensures var s' := Tick(o, s, delay); Elsewhere(s', r) && s'.uicr.Read(r) == s.uicr.Read(r)
  {
    hide Burn, Met, NewValue, Test, Uicr.Read, Uicr.Store, Land, AllMet, MetUpTo;
    LandRead(s.uicr, Nothing, r);
    LandRead(s.uicr, s.nvmc.flight, r);
    if s.pc.phase.Write? && s.pc.phase.k < |Registers(s.pc.part)| {
      var q := Registers(s.pc.part)[s.pc.phase.k];
      LandRead(s.uicr, Flight.Writing(q, NewValue(q, s.uicr.Read(q))), r);
    }
  }

  /** The words of the part that is not executing stay as they are, and so does its test. */
  lemma TickKeepsOthersOutcome(o: Options, s: State, delay: nat, r: Register)
    requires Inv(o, s) && s.pc.At? && PartOf(r) != s.pc.part
    ensures Outcome(o, Tick(o, s, delay), r) == Outcome(o, s, r)
  {
    hide Tick, Inv, Outcome, Burn, Met, NewValue, Test, Uicr.Read, AllMet;
    var s' := Tick(o, s, delay);
    TickInv(o, s, delay);
    TickReadsElsewhere(o, s, delay, r);
    TickElsewhere(o, s, delay);
    TestIsUnmet(PartOf(r), s.uicr);
    TestIsUnmet(PartOf(r), s'.uicr);
    OutcomeElsewhere(o, s, r);
    OutcomeElsewhere(o, s', r);
  }

  lemma WriteKeepsOutcome(o: Options, s: State, delay: nat, r: Register)
    requires Inv(o, s) && s.pc.At? && PartOf(r) == s.pc.part && s.pc.phase.Write?
    ensures Outcome(o, Tick(o, s, delay), r) == Outcome(o, s, r)
  {
    hide Burn, Met, NewValue, Test, Uicr.Read, Uicr.Store, Land;
    var k := s.pc.phase.k;
    LandRead(s.uicr, Nothing, r);
    if k < |Registers(s.pc.part)| {
      var q := Registers(s.pc.part)[k];
      var u := Land(s.uicr, Flight.Writing(q, NewValue(q, s.uicr.Read(q))));
      LandRead(s.uicr, Flight.Writing(q, NewValue(q, s.uicr.Read(q))), r);
      LandRead(u, Nothing, r);
    }
  }

  lemma WaitKeepsOutcome(o: Options, s: State, delay: nat, r: Register)
    requires Inv(o, s) && s.pc.At? && PartOf(r) == s.pc.part && !s.pc.phase.Write? && !s.pc.phase.Testing?
    ensures Outcome(o, Tick(o, s, delay), r) == Outcome(o, s, r)
  {
    hide Burn, Met, NewValue, Test, Uicr.Read, Uicr.Store, Land, AllMet, MetUpTo, Settled;
    var s' := Tick(o, s, delay);
    LandRead(s.uicr, s.nvmc.flight, r);
    LandRead(s'.uicr, s'.nvmc.flight, r);
    LandRead(s.uicr, Nothing, r);
    if s.pc.phase.Reset? {
      LandElsewhere(s.uicr, Nothing, s.pc.part);
      TestIsUnmet(s.pc.part, s'.uicr);
    }
  }

  lemma TestKeepsOutcome(o: Options, s: State, delay: nat, r: Register)
    requires Inv(o, s) && s.pc.At? && s.pc.phase.Testing?
    ensures Outcome(o, Tick(o, s, delay), r) == Outcome(o, s, r)
  {
    hide Burn, Met, NewValue, Test, Uicr.Read, Uicr.Store, Land, AllMet;
  }

  lemma TickKeepsOutcome(o: Options, s: State, delay: nat, r: Register)
    requires Inv(o, s)
    ensures Outcome(o, Tick(o, s, delay), r) == Outcome(o, s, r)
  {
    hide Inv, Outcome;
    if s.pc.Done? {
    } else if s.pc.phase.Testing? {
      TestKeepsOutcome(o, s, delay, r);
    } else if PartOf(r) != s.pc.part {
      TickKeepsOthersOutcome(o, s, delay, r);
    } else if s.pc.phase.Write? {
      WriteKeepsOutcome(o, s, delay, r);
    } else {
      WaitKeepsOutcome(o, s, delay, r);
    }
  }

  lemma {:induction false} RunKeepsOutcome(o: Options, s: State, es: seq<Event>, r: Register)
    requires Inv(o, s) && NoFailure(es)
    ensures Outcome(o, Run(o, s, es), r) == Outcome(o, s, r)
  {
    if es != [] {
      var before := es[..|es| - 1];
      RunKeepsOutcome(o, s, before, r);
      RunInv(o, s, before);
      TickKeepsOutcome(o, Run(o, s, before), es[|es| - 1].delay, r);
    }
  }

  /** The word that a completed boot has left, from the word at power-on. */
  function FinalWord(o: Options, u: Uicr, r: Register): Word {
    if Enabled(o, PartOf(r)) && Test(PartOf(r), u) then Burn(u.Read(r), NewValue(r, u.Read(r))) else u.Read(r)
  }

  /** Without power failures, a run that completes a boot has left exactly the final words. */
  lemma ExactContents(o: Options, u: Uicr, es: seq<Event>, r: Register)
    requires NoFailure(es) && Run(o, Start(u, 0), es).pc == Done
    ensures Run(o, Start(u, 0), es).uicr.Read(r) == FinalWord(o, u, r)
  {
    hide Burn, Met, NewValue, Test, Uicr.Read, Land;
    var s := Run(o, Start(u, 0), es);
    RunKeepsOutcome(o, Start(u, 0), es, r);
    RunInv(o, Start(u, 0), es);
    LandRead(u, Nothing, r);
    LandRead(s.uicr, Nothing, r);
    TestIsUnmet(Nfc, s.uicr);
    TestIsUnmet(PinReset, s.uicr);
  }

  /** A new chip, with both parts compiled in: the protection bit is cleared, and both words name pin 21. */
  lemma ErasedContents(es: seq<Event>)
    requires
      var s := Run(Options(true, true), Start(Uicr(0xFFFF_FFFF, 0xFFFF_FFFF, 0xFFFF_FFFF), 0), es);
      NoFailure(es) && s.pc == Done
    ensures
      Run(Options(true, true), Start(Uicr(0xFFFF_FFFF, 0xFFFF_FFFF, 0xFFFF_FFFF), 0), es).uicr
      == Uicr(0xFFFF_FFFE, 21, 21)
  {
    var u := Uicr(0xFFFF_FFFF, 0xFFFF_FFFF, 0xFFFF_FFFF);
    var v := Run(Options(true, true), Start(u, 0), es).uicr;
    ExactContents(Options(true, true), u, es, NfcPins);
    ExactContents(Options(true, true), u, es, PselReset0);
    ExactContents(Options(true, true), u, es, PselReset1);
    assert v.Read(NfcPins) == 0xFFFF_FFFE;
    hide Run;
  }

  // ---------- With power failures: bounds ----------

  /** From `w0` to `w` nothing has happened except that the protection bit may have been cleared. */
  predicate OnlyProtectCleared(w0: Word, w: Word) {
    w == w0 || w == Unprotected(w0)
  }

  /** From `w0` to `w` bits may have been cleared, but none that the written pin number has. */
  predicate OnlyOtherPinBitsCleared(w0: Word, w: Word) {
    w & w0 == w && w & RESET_PIN == w0 & RESET_PIN
  }

  predicate OnlyIntended(r: Register, w0: Word, w: Word) {
    if r.NfcPins? then OnlyProtectCleared(w0, w) else OnlyOtherPinBitsCleared(w0, w)
  }

  /** Clearing the protection bit clears the lowest bit and no other. */
  lemma UnprotectedBits(w: Word)
    ensures Unprotected(w) & 1 == 0 && Unprotected(w) | 1 == w | 1
  {
  }

  lemma UnprotectedTwice(w: Word)
    ensures Unprotected(Unprotected(w)) == Unprotected(w)
  {
  }

  lemma ProtectKept(w: Word, kept: Word)
    requires kept & NFC_PROTECT == NFC_PROTECT
    ensures Burn(w, CutShort(Unprotected(w), kept)) == w
  {
  }

  lemma ProtectCleared(w: Word, kept: Word)
    requires kept & NFC_PROTECT == 0
    ensures Burn(w, CutShort(Unprotected(w), kept)) == Unprotected(w)
  {
    hide Burn, CutShort;
    TornWithout(w, NFC_PROTECT, kept);
  }

  /** Clearing the bits of a mask ends up complete if no bit of the mask is kept. */
  lemma TornWithout(w: Word, mask: Word, kept: Word)
    requires kept & mask == 0
    ensures Burn(w, CutShort(w & !mask, kept)) == w & !mask
  {
  }

  lemma KeptOrCleared(kept: Word)
    ensures kept & NFC_PROTECT == NFC_PROTECT || kept & NFC_PROTECT == 0
  {
  }

  lemma NfcBurn(w0: Word, w: Word, kept: Word)
    requires OnlyProtectCleared(w0, w)
    ensures OnlyProtectCleared(w0, Burn(w, CutShort(NewValue(NfcPins, w), kept)))
  {
    hide Burn, CutShort, Unprotected;
    KeptOrCleared(kept);
    UnprotectedTwice(w0);
    if kept & NFC_PROTECT == NFC_PROTECT {
      ProtectKept(w, kept);
    } else {
      ProtectCleared(w, kept);
    }
  }

  lemma PinBurn(r: Register, w0: Word, w: Word, kept: Word)
    requires !r.NfcPins? && OnlyOtherPinBitsCleared(w0, w)
    ensures OnlyOtherPinBitsCleared(w0, Burn(w, CutShort(NewValue(r, w), kept)))
  {
  }

  lemma CompleteIsCutShort(v: Word)
    ensures CutShort(v, 0) == v
  {
  }

  /** A flash write that is cut short clears no other bits than intended. */
  lemma CutShortOnlyIntended(r: Register, w0: Word, w: Word, kept: Word)
    requires OnlyIntended(r, w0, w)
    ensures OnlyIntended(r, w0, Burn(w, CutShort(NewValue(r, w), kept)))
  {
    hide OnlyProtectCleared, OnlyOtherPinBitsCleared, Burn, CutShort, NewValue;
    if r.NfcPins? {
      NfcBurn(w0, w, kept);
    } else {
      PinBurn(r, w0, w, kept);
    }
  }

  /** Neither does a complete one. */
  lemma BurnOnlyIntended(r: Register, w0: Word, w: Word)
    requires OnlyIntended(r, w0, w)
    ensures OnlyIntended(r, w0, Burn(w, NewValue(r, w)))
  {
    hide OnlyIntended, Burn, CutShort, NewValue;
    CutShortOnlyIntended(r, w0, w, 0);
    CompleteIsCutShort(NewValue(r, w));
  }

  lemma OnlyIntendedRefl(r: Register, w: Word)
    ensures OnlyIntended(r, w, w)
  {
  }

  ghost predicate Bounded(u: Uicr, v: Uicr) {
    forall r: Register :: OnlyIntended(r, u.Read(r), v.Read(r))
  }

  /** Any word in flight is the new value of its word. */
  lemma InFlight(o: Options, s: State)
    requires Inv(o, s) && s.nvmc.flight.Writing?
    ensures var r := s.nvmc.flight.register; s.nvmc.flight.value == NewValue(r, s.uicr.Read(r))
  {
    hide Met, NewValue, Uicr.Read;
  }

  lemma LandBounded(u: Uicr, v: Uicr, f: Flight, kept: Word)
    requires Bounded(u, v)
    requires f.Writing? ==> f.value == NewValue(f.register, v.Read(f.register))
    ensures Bounded(u, Land(v, f)) && Bounded(u, Tear(v, f, kept))
  {
    hide Burn, NewValue, CutShort, OnlyIntended, Land, Tear, Uicr.Read;
    TearIsLand(v, f, kept);
    forall r: Register
      ensures OnlyIntended(r, u.Read(r), Land(v, f).Read(r))
      ensures OnlyIntended(r, u.Read(r), Tear(v, f, kept).Read(r))
    {
      LandRead(v, f, r);
      if f.Writing? {
        LandRead(v, Flight.Writing(f.register, CutShort(f.value, kept)), r);
        BurnOnlyIntended(r, u.Read(r), v.Read(r));
        CutShortOnlyIntended(r, u.Read(r), v.Read(r), kept);
      }
    }
  }

  lemma NextBounded(o: Options, u: Uicr, s: State, e: Event)
    requires Inv(o, s) && Bounded(u, s.uicr)
    ensures Bounded(u, Next(o, s, e).uicr)
  {
    hide Burn, NewValue, Bounded, Land, Tear, Uicr.Read, Met, Test;
    if s.nvmc.flight.Writing? {
      InFlight(o, s);
    }
    LandBounded(u, s.uicr, s.nvmc.flight, if e.PowerFailure? then e.kept else 0);
    LandBounded(u, s.uicr, Nothing, 0);
    if s.pc.At? && s.pc.phase.Write? && s.pc.phase.k < |Registers(s.pc.part)| {
      var q := Registers(s.pc.part)[s.pc.phase.k];
      LandBounded(u, s.uicr, Flight.Writing(q, NewValue(q, s.uicr.Read(q))), 0);
    }
  }

  lemma {:induction false} RunBounded(o: Options, u: Uicr, es: seq<Event>)
    ensures Bounded(u, Run(o, Start(u, 0), es).uicr)
  {
    hide OnlyIntended;
    if es == [] {
      forall r: Register
        ensures OnlyIntended(r, u.Read(r), u.Read(r))
      {
        OnlyIntendedRefl(r, u.Read(r));
      }
    } else {
      RunBounded(o, u, es[..|es| - 1]);
      RunInv(o, Start(u, 0), es[..|es| - 1]);
      NextBounded(o, u, Run(o, Start(u, 0), es[..|es| - 1]), es[|es| - 1]);
    }
  }

  /** However often the power fails, no bit of UICR is lost that the boot does not mean to clear. */
  lemma OnlyIntendedBitsChange(o: Options, u: Uicr, es: seq<Event>)
    ensures
      var v := Run(o, Start(u, 0), es).uicr;
      && OnlyProtectCleared(u.nfcPins, v.nfcPins)
      && OnlyOtherPinBitsCleared(u.pselReset0, v.pselReset0)
      && OnlyOtherPinBitsCleared(u.pselReset1, v.pselReset1)
  {
    hide OnlyProtectCleared, OnlyOtherPinBitsCleared, Run;
    RunBounded(o, u, es);
    var v := Run(o, Start(u, 0), es).uicr;
    assert OnlyIntended(NfcPins, u.Read(NfcPins), v.Read(NfcPins));
    assert OnlyIntended(PselReset0, u.Read(PselReset0), v.Read(PselReset0));
    assert OnlyIntended(PselReset1, u.Read(PselReset1), v.Read(PselReset1));
  }
}
