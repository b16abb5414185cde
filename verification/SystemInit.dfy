/**
  The UICR part of `SystemInit` as the code performs it, with its busy-waiting
  loops, and the boots that the chip goes through after power-on.

  Every method keeps a record of the events it performs and is proved to
  follow the machine of `Boot`, so that what is proved there for all runs holds
  of this code.
 */
module SystemInit {

  import opened Words

  import opened Boot
  import opened UicrOutcome

  /** What one call leaves in UICR, and whether it resets the chip. */
  function OneBoot(o: Options, u: Uicr): (Uicr, bool) {
    if o.nfcPinsAsGpios && Test(Nfc, u) then
      (u.(nfcPins := Burn(u.nfcPins, Unprotected(u.nfcPins))), true)
    else if o.gpioAsPinReset && Test(PinReset, u) then
      (u.(pselReset0 := Burn(u.pselReset0, RESET_PIN), pselReset1 := Burn(u.pselReset1, RESET_PIN)), true)
    else
      (u, false)
  }

  class Chip {
    // UICR and the flash controller.
    var uicr: Uicr
    var writeEnabled: bool
    var busy: nat
    var flight: Flight

    // The place in the code, the resets so far, and what has happened since power-on.
    ghost var pc: Pc
    ghost var resets: nat
    ghost const powerOn: Uicr
    ghost var events: seq<Event>

    constructor (u: Uicr)
      ensures uicr == powerOn == u && resets == 0
      ensures pc == At(Nfc, Testing)
      ensures forall o :: Follows(o)
    {
      uicr, writeEnabled, busy, flight := u, false, 0, Nothing;
      pc, resets, powerOn, events := At(Nfc, Testing), 0, u, [];
    }

    ghost function Abs(): State
      reads this
    {
      State(pc, uicr, Nvmc(writeEnabled, busy, flight), resets)
    }

    /** The events since power-on, none of which is a power failure, lead to the present state. */
    ghost predicate Follows(o: Options)
      reads this
    {
      NoFailure(events) && Run(o, Start(powerOn, 0), events) == Abs()
    }

    /** Records that the code has made an access. */
    ghost method Record(o: Options, delay: nat, was: State)
      requires NoFailure(events) && Run(o, Start(powerOn, 0), events) == was
      requires Abs() == Tick(o, was, delay)
      modifies this`events
      ensures Follows(o)
    {
      hide Run, Tick;
      var s, es := Extend(o, Start(powerOn, 0), was, events, Go(delay));
      events := es;
    }

    method SetConfig(o: Options, enable: bool)
      requires Follows(o) && pc.At? && pc.phase == (if enable then Open else Close)
      modifies this
      ensures Follows(o) && pc == At(old(pc.part), if enable then Opening else Closing)
      ensures writeEnabled == enable && flight == Nothing
      ensures uicr == old(uicr) && resets == old(resets)
    {
      ghost var was := Abs();
      var delay: nat := *;
      writeEnabled, busy, flight := enable, delay, Nothing;
      pc := At(pc.part, if enable then Opening else Closing);
      Record(o, delay, was);
    }

    /** The hardware demands that the controller be write-enabled and ready. */
    method WriteUicr(o: Options, r: Register, value: Word)
      requires writeEnabled && busy == 0 && flight == Nothing
      requires Follows(o) && pc.At? && pc.phase.Write? && pc.phase.k < |Registers(pc.part)|
      requires r == Registers(pc.part)[pc.phase.k] && value == NewValue(r, uicr.Read(r))
      modifies this
      ensures Follows(o) && pc == At(old(pc.part), Phase.Writing(old(pc.phase.k)))
      ensures writeEnabled && Land(uicr, flight) == Land(old(uicr), Flight.Writing(r, value))
      ensures busy == 0 ==> flight == Nothing
      ensures resets == old(resets)
    {
      hide NewValue, Burn, Uicr.Read, Uicr.Store;
      ghost var was := Abs();
      var delay: nat := *;
      if delay == 0 {
        uicr, flight := Land(uicr, Flight.Writing(r, value)), Nothing;
      } else {
        busy, flight := delay, Flight.Writing(r, value);
      }
      pc := At(pc.part, Phase.Writing(pc.phase.k));
      Record(o, delay, was);
    }

    /** Where a waiting loop goes on. */
    static function Resume(p: Phase): Phase
      requires p.Opening? || p.Writing? || p.Closing?
    {
      match p
      case Opening => Write(0)
      case Writing(k) => Write(k + 1)
      case Closing => Reset
    }

    /** Reads READY; while the controller is busy, each read brings it closer to being ready. */
    method ReadReady(o: Options) returns (ready: bool)
      requires Follows(o) && pc.At? && (pc.phase.Opening? || pc.phase.Writing? || pc.phase.Closing?)
      requires busy == 0 ==> flight == Nothing
      modifies this
      ensures Follows(o) && ready == (old(busy) == 0)
      ensures pc == if ready then At(old(pc.part), Resume(old(pc.phase))) else old(pc)
      ensures busy == 0 ==> flight == Nothing
      ensures if ready then busy == 0 else busy < old(busy)
      ensures Land(uicr, flight) == Land(old(uicr), old(flight))
      ensures writeEnabled == old(writeEnabled) && resets == old(resets)
    {
      hide Burn, NewValue, Test, Uicr.Read, Uicr.Store, WriteWord, Run;
      ghost var was := Abs();
      ready := busy == 0;
      if ready {
        pc := At(pc.part, Resume(pc.phase));
      } else {
        busy := busy - 1;
        if busy == 0 {
          uicr, flight := Land(uicr, flight), Nothing;
        }
      }
      Record(o, 0, was);
    }

    /** `while (NRF_NVMC->READY == NVMC_READY_READY_Busy){}` */
    method WaitReady(o: Options)
      requires Follows(o) && pc.At? && (pc.phase.Opening? || pc.phase.Writing? || pc.phase.Closing?)
      requires busy == 0 ==> flight == Nothing
      modifies this
      ensures Follows(o) && pc == At(old(pc.part), Resume(old(pc.phase)))
      ensures busy == 0 && flight == Nothing && writeEnabled == old(writeEnabled)
      ensures uicr == Land(old(uicr), old(flight)) && resets == old(resets)
    {
      hide Burn, Follows, Uicr.Read, Uicr.Store;
      var ready := ReadReady(o);
      while !ready
        invariant Follows(o)
        invariant pc == if ready then At(old(pc.part), Resume(old(pc.phase))) else old(pc)
        invariant busy == 0 ==> flight == Nothing
        invariant ready ==> busy == 0
        invariant writeEnabled == old(writeEnabled) && resets == old(resets)
        invariant Land(uicr, flight) == Land(old(uicr), old(flight))
        decreases !ready, busy
      {
        ready := ReadReady(o);
      }
    }

    /** NVIC_SystemReset: everything but UICR starts afresh. */
    method SystemReset(o: Options)
      requires Follows(o) && pc.At? && pc.phase == Phase.Reset
      requires !writeEnabled && busy == 0 && flight == Nothing
      modifies this
      ensures Follows(o) && pc == At(Nfc, Testing) && resets == old(resets) + 1
      ensures Abs().nvmc == CLOSED && uicr == old(uicr)
    {
      ghost var was := Abs();
      pc, resets := At(Nfc, Testing), resets + 1;
      Record(o, 0, was);
    }

    /** The step of a test, compiled in or not, that decides whether a part is executed. */
    ghost method Decide(o: Options)
      requires Follows(o) && pc.At? && pc.phase.Testing?
      modifies this`pc, this`events
      ensures Follows(o)
      ensures pc ==
        if Enabled(o, old(pc.part)) && Test(old(pc.part), uicr) then At(old(pc.part), Open) else After(old(pc.part))
    {
      ghost var was := Abs();
      pc := if Enabled(o, pc.part) && Test(pc.part, uicr) then At(pc.part, Open) else After(pc.part);
      Record(o, 0, was);
    }

    /** The step from the last word of a part to closing the controller. */
    ghost method WordsDone(o: Options)
      requires Follows(o) && pc.At? && pc.phase.Write? && pc.phase.k == |Registers(pc.part)|
      modifies this`pc, this`events
      ensures Follows(o) && pc == At(old(pc.part), Close)
    {
      ghost var was := Abs();
      pc := At(pc.part, Close);
      Record(o, 0, was);
    }

    /** The block compiled in by CONFIG_NFCT_PINS_AS_GPIOS, when its test succeeds. */
    method ReleaseNfcPins(o: Options)
      requires Follows(o) && pc == At(Nfc, Open) && Abs().nvmc == CLOSED
      modifies this
      ensures Follows(o) && pc == At(Nfc, Testing) && Abs().nvmc == CLOSED
      ensures uicr == old(uicr.(nfcPins := Burn(uicr.nfcPins, Unprotected(uicr.nfcPins))))
      ensures resets == old(resets) + 1
    {
      hide Burn, Unprotected, Follows;
      SetConfig(o, true);
      WaitReady(o);
      WriteUicr(o, NfcPins, Unprotected(uicr.nfcPins));
      WaitReady(o);
      WordsDone(o);
      SetConfig(o, false);
      WaitReady(o);
      SystemReset(o);
    }

    /** The block compiled in by CONFIG_GPIO_AS_PINRESET, when its test succeeds. */
    method ConnectResetPin(o: Options)
      requires Follows(o) && pc == At(PinReset, Open) && Abs().nvmc == CLOSED
      modifies this
      ensures Follows(o) && pc == At(Nfc, Testing) && Abs().nvmc == CLOSED
      ensures uicr == old(uicr.(pselReset0 := Burn(uicr.pselReset0, RESET_PIN),
                                pselReset1 := Burn(uicr.pselReset1, RESET_PIN)))
      ensures resets == old(resets) + 1
    {
      hide Burn, Unprotected, Follows;
      SetConfig(o, true);
      WaitReady(o);
      WriteUicr(o, PselReset0, RESET_PIN);
      WaitReady(o);
      WriteUicr(o, PselReset1, RESET_PIN);
      WaitReady(o);
      WordsDone(o);
      SetConfig(o, false);
      WaitReady(o);
      SystemReset(o);
    }

    /** The UICR part of SystemInit; the result tells whether the chip has been reset on the way. */
    method SystemInit(o: Options) returns (reset: bool)
      requires Follows(o) && pc == At(Nfc, Testing) && Abs().nvmc == CLOSED
      modifies this
      ensures Follows(o) && Abs().nvmc == CLOSED
      ensures (uicr, reset) == OneBoot(o, old(uicr))
      ensures resets == old(resets) + if reset then 1 else 0
      ensures pc == if reset then At(Nfc, Testing) else Done
    {
      hide Burn, Unprotected, Test, Follows;
      Decide(o);
      if o.nfcPinsAsGpios {
        if Test(Nfc, uicr) {
          ReleaseNfcPins(o);
          return true;
        }
      }
      Decide(o);
      if o.gpioAsPinReset {
        if Test(PinReset, uicr) {
          ConnectResetPin(o);
          return true;
        }
      }
      return false;
    }

    /**
      Power-on and all boots that follow it: the chip resets once per unmet
      condition and then completes a boot, with exactly the final words in UICR.
     */
    method PowerOn(o: Options)
      requires Follows(o) && pc == At(Nfc, Testing) && Abs().nvmc == CLOSED
      requires uicr == powerOn && resets == 0
      modifies this
      ensures Follows(o) && pc == Done && Abs().nvmc == CLOSED
      ensures resets == Unmet(o, old(uicr)) <= 2
      ensures forall r: Register :: uicr.Read(r) == FinalWord(o, old(uicr), r)
    {
      hide Burn, Test, NewValue, Met, Uicr.Read, FinalWord;
      var reset := true;
      while reset
        invariant Follows(o) && Abs().nvmc == CLOSED
        invariant pc == if reset then At(Nfc, Testing) else Done
        decreases reset, Owed(o, Abs())
      {
        ghost var before := Abs();
        RunResets(o, Start(powerOn, 0), events);
        reset := SystemInit(o);
        RunResets(o, Start(powerOn, 0), events);
      }
      ResetBound(o, powerOn, events);
      forall r: Register
        ensures uicr.Read(r) == FinalWord(o, powerOn, r)
      {
        ExactContents(o, powerOn, events, r);
      }
    }
  }
}
