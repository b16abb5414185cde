/**
  The boot sequence that rewrites UICR words and resets the chip, as a machine
  that makes one register access at a time.

  A boot may open the flash controller (NVMC), clear bits of UICR words, close
  the controller and reset.  UICR and the number of resets survive a reset;
  everything else starts afresh.  The controller may stay busy for any finite
  time after each access, and the power may fail at any point, even while a
  word is being written.
 */
module Boot {

  import opened Words

  // ---------- UICR ----------

  datatype Register = NfcPins | PselReset0 | PselReset1

  datatype Uicr = Uicr(nfcPins: Word, pselReset0: Word, pselReset1: Word) {

    function Read(r: Register): Word {
      match r
      case NfcPins => nfcPins
      case PselReset0 => pselReset0
      case PselReset1 => pselReset1
    }

    function Store(r: Register, w: Word): Uicr {
      match r
      case NfcPins => this.(nfcPins := w)
      case PselReset0 => this.(pselReset0 := w)
      case PselReset1 => this.(pselReset1 := w)
    }
  }

  // Fields of the words and the pin number that the boot writes.
  const NFC_PROTECT: Word := 1
  const CONNECT: Word := 0x8000_0000
  const RESET_PIN: Word := 21

  /** The field that the boot tests in a word; it is one bit, and the boot wants it clear. */
  function Flag(r: Register): Word {
    if r.NfcPins? then NFC_PROTECT else CONNECT
  }

  predicate Met(r: Register, w: Word) {
    w & Flag(r) == 0
  }

  function Unprotected(w: Word): Word {
    w & !NFC_PROTECT
  }

  /** The value that the boot assigns to a word. */
  function NewValue(r: Register, w: Word): Word {
    if r.NfcPins? then Unprotected(w) else RESET_PIN
  }

  /** The word left by a flash write, which can only clear bits. */
  function Burn(w: Word, value: Word): Word {
    w & value
  }

  /** The value that a write amounts to when it is cut short while the bits in `kept` are still to be cleared. */
  function CutShort(value: Word, kept: Word): Word {
    value | kept
  }

  /** A flash write never makes a word that is met unmet. */
  lemma MetKept(r: Register, w: Word, v: Word)
    requires Met(r, w)
    ensures Met(r, Burn(w, v))
  {
  }

  /** Assigning its new value to a word makes it met. */
  lemma MetAfterWrite(r: Register, w: Word)
    ensures Met(r, Burn(w, NewValue(r, w)))
  {
  }

  // ---------- The two parts of the boot ----------

  /** CONFIG_NFCT_PINS_AS_GPIOS and CONFIG_GPIO_AS_PINRESET. */
  datatype Options = Options(nfcPinsAsGpios: bool, gpioAsPinReset: bool)

  datatype Part = Nfc | PinReset

  predicate Enabled(o: Options, p: Part) {
    if p.Nfc? then o.nfcPinsAsGpios else o.gpioAsPinReset
  }

  /** The words that a part writes, in order. */
  function Registers(p: Part): seq<Register> {
    if p.Nfc? then [NfcPins] else [PselReset0, PselReset1]
  }

  /** The first `k` words of a part are as the boot wants them. */
  predicate MetUpTo(p: Part, u: Uicr, k: nat)
    requires k <= |Registers(p)|
  {
    forall i | 0 <= i < k :: Met(Registers(p)[i], u.Read(Registers(p)[i]))
  }

  predicate AllMet(p: Part, u: Uicr) {
    MetUpTo(p, u, |Registers(p)|)
  }

  /** The part's `if` condition in the source. */
  predicate Test(p: Part, u: Uicr) {
    match p
    case Nfc => u.nfcPins & NFC_PROTECT == NFC_PROTECT
    case PinReset => u.pselReset0 & CONNECT != 0 || u.pselReset1 & CONNECT != 0
  }

  /** The protection field is one bit, so that it equals its mask when it is not zero. */
  lemma ProtectTest(w: Word)
    ensures w & NFC_PROTECT == NFC_PROTECT <==> !Met(NfcPins, w)
  {
  }

  lemma ConnectTest(r: Register, w: Word)
    requires !r.NfcPins?
    ensures w & CONNECT != 0 <==> !Met(r, w)
  {
  }

  lemma TestIsUnmet(p: Part, u: Uicr)
    ensures Test(p, u) <==> !AllMet(p, u)
  {
    hide Met;
    ProtectTest(u.nfcPins);
    ConnectTest(PselReset0, u.pselReset0);
    ConnectTest(PselReset1, u.pselReset1);
    if p.Nfc? {
      assert Registers(p)[0] == NfcPins;
    } else {
      assert Registers(p)[0] == PselReset0 && Registers(p)[1] == PselReset1;
    }
    if AllMet(p, u) {
      assert forall i | 0 <= i < |Registers(p)| :: Met(Registers(p)[i], u.Read(Registers(p)[i]));
    }
  }

  // ---------- The flash controller ----------

  /** A word being written. */
  datatype Flight = Nothing | Writing(register: Register, value: Word)

  /**
    `busy` is the number of times that READY will still read as busy.  A word
    in flight lands when the controller becomes ready.
   */
  datatype Nvmc = Nvmc(writeEnabled: bool, busy: nat, flight: Flight)

  const CLOSED := Nvmc(false, 0, Nothing)
  const OPEN := Nvmc(true, 0, Nothing)

  function Land(u: Uicr, f: Flight): Uicr {
    match f
    case Nothing => u
    case Writing(r, v) => u.Store(r, Burn(u.Read(r), v))
  }

  /**
    Losing power while a word is in flight leaves any word between the old and
    the new one: of the bits to clear, those in `kept` are still set.
   */
  function Tear(u: Uicr, f: Flight, kept: Word): Uicr {
    match f
    case Nothing => u
    case Writing(r, v) => u.Store(r, Burn(u.Read(r), CutShort(v, kept)))
  }

  // ---------- The machine ----------

  /** The next register access within a part. */
  datatype Phase = Testing | Open | Opening | Write(k: nat) | Writing(k: nat) | Close | Closing | Reset

  datatype Pc = At(part: Part, phase: Phase) | Done

  datatype State = State(pc: Pc, uicr: Uicr, nvmc: Nvmc, resets: nat)

  /** A power-on, or the start after a reset. */
  function Start(u: Uicr, resets: nat): State {
    State(At(Nfc, Testing), u, CLOSED, resets)
  }

  /** Where the code goes after a part that had nothing to do, or is not compiled in. */
  function After(p: Part): Pc {
    if p.Nfc? then At(PinReset, Testing) else Done
  }

  /** `NRF_NVMC->CONFIG = ...`, after which READY reads busy `delay` times. */
  function SetConfig(s: State, writeEnabled: bool, delay: nat, next: Pc): State {
    s.(nvmc := Nvmc(writeEnabled, delay, Nothing), pc := next)
  }

  /** An assignment to a UICR word; one that the controller does not allow has no effect. */
  function WriteWord(s: State, r: Register, value: Word, delay: nat, next: Pc): State {
    if !s.nvmc.writeEnabled || s.nvmc.busy > 0 then s.(pc := next)
    else if delay == 0 then s.(uicr := Land(s.uicr, Flight.Writing(r, value)), pc := next)
    else s.(nvmc := Nvmc(true, delay, Flight.Writing(r, value)), pc := next)
  }

  /** One read of READY in `while (NRF_NVMC->READY == Busy){}`. */
  function Poll(s: State, next: Pc): State {
    if s.nvmc.busy == 0 then s.(pc := next)
    else if s.nvmc.busy == 1 then
      s.(uicr := Land(s.uicr, s.nvmc.flight), nvmc := Nvmc(s.nvmc.writeEnabled, 0, Nothing))
    else s.(nvmc := s.nvmc.(busy := s.nvmc.busy - 1))
  }

  /** One access of the boot code; `delay` is how long the controller will be busy with it. */
  function Tick(o: Options, s: State, delay: nat): State {
    match s.pc
    case Done => s
    case At(p, phase) =>
      match phase
      case Testing => s.(pc := if Enabled(o, p) && Test(p, s.uicr) then At(p, Open) else After(p))
      case Open => SetConfig(s, true, delay, At(p, Opening))
      case Opening => Poll(s, At(p, Write(0)))
      case Write(k) =>
        if k < |Registers(p)| then
          var r := Registers(p)[k];
          WriteWord(s, r, NewValue(r, s.uicr.Read(r)), delay, At(p, Phase.Writing(k)))
        else s.(pc := At(p, Close))
      case Writing(k) => Poll(s, At(p, Write(k + 1)))
      case Close => SetConfig(s, false, delay, At(p, Closing))
      case Closing => Poll(s, At(p, Reset))
      case Reset => Start(Land(s.uicr, s.nvmc.flight), s.resets + 1)
  }

  /** The code makes its next access, or the power fails and comes back. */
  datatype Event = Go(delay: nat) | PowerFailure(kept: Word)

  function Next(o: Options, s: State, e: Event): State {
    match e
    case Go(delay) => Tick(o, s, delay)
    case PowerFailure(kept) => Start(Tear(s.uicr, s.nvmc.flight, kept), s.resets)
  }

  function Run(o: Options, s: State, es: seq<Event>): State {
    if es == [] then s
    else Next(o, Run(o, s, es[..|es| - 1]), es[|es| - 1])
  }

  /** A run with one more event. */
  lemma Extend(o: Options, start: State, s: State, es: seq<Event>, e: Event) returns (s': State, es': seq<Event>)
    requires Run(o, start, es) == s
    ensures es' == es + [e] && s' == Next(o, s, e) && Run(o, start, es') == s'
  {
    es' := es + [e];
    s' := Next(o, s, e);
    assert es'[..|es'| - 1] == es;
  }

  // ---------- Every reachable step ----------

  ghost predicate PhaseInv(s: State, p: Part, phase: Phase) {
    match phase
    case Testing | Open => s.nvmc == CLOSED
    case Opening => s.nvmc.writeEnabled && s.nvmc.flight.Nothing?
    case Write(k) => s.nvmc == OPEN && k <= |Registers(p)| && MetUpTo(p, s.uicr, k)
    case Writing(k) =>
      && s.nvmc.writeEnabled && k < |Registers(p)| && MetUpTo(p, s.uicr, k)
      && var r := Registers(p)[k];
         if s.nvmc.busy == 0 then s.nvmc.flight.Nothing? && Met(r, s.uicr.Read(r))
         else s.nvmc.flight == Flight.Writing(r, NewValue(r, s.uicr.Read(r)))
    case Close => s.nvmc == OPEN && AllMet(p, s.uicr)
    case Closing => !s.nvmc.writeEnabled && s.nvmc.flight.Nothing? && AllMet(p, s.uicr)
    case Reset => s.nvmc == CLOSED && AllMet(p, s.uicr)
  }

  ghost predicate Settled(o: Options, p: Part, u: Uicr) {
    Enabled(o, p) ==> AllMet(p, u)
  }

  ghost predicate Inv(o: Options, s: State) {
    match s.pc
    case Done => s.nvmc == CLOSED && Settled(o, Nfc, s.uicr) && Settled(o, PinReset, s.uicr)
    case At(p, phase) =>
      && PhaseInv(s, p, phase)
      && (p.PinReset? ==> Settled(o, Nfc, s.uicr))
      && (!phase.Testing? ==> Enabled(o, p))
  }

  /** Landing changes the word in flight and no other. */
  lemma LandRead(u: Uicr, f: Flight, q: Register)
    ensures f.Writing? && f.register == q ==> Land(u, f).Read(q) == Burn(u.Read(q), f.value)
    ensures f.Nothing? || f.register != q ==> Land(u, f).Read(q) == u.Read(q)
  {
  }

  /** Landing stops no word from being met. */
  lemma LandKeepsMet(u: Uicr, f: Flight, p: Part, k: nat)
    requires k <= |Registers(p)| && MetUpTo(p, u, k)
    ensures MetUpTo(p, Land(u, f), k)
  {
    hide Burn, Met, Land, Registers, Uicr.Read;
    forall i | 0 <= i < k
      ensures Met(Registers(p)[i], Land(u, f).Read(Registers(p)[i]))
    {
      var q := Registers(p)[i];
      LandRead(u, f, q);
      assert Met(q, u.Read(q));
      if f.Writing? {
        MetKept(q, u.Read(q), f.value);
      }
    }
  }

  /** Landing the new value of word `k` makes it met, too. */
  lemma LandMeets(u: Uicr, p: Part, k: nat)
    requires k < |Registers(p)| && MetUpTo(p, u, k)
    ensures
      var r := Registers(p)[k];
      MetUpTo(p, Land(u, Flight.Writing(r, NewValue(r, u.Read(r)))), k + 1)
  {
    hide Burn, Met, NewValue, Land, Registers, Uicr.Read;
    var r := Registers(p)[k];
    var f := Flight.Writing(r, NewValue(r, u.Read(r)));
    LandKeepsMet(u, f, p, k);
    MetAfterWrite(r, u.Read(r));
    LandRead(u, f, r);
  }

  lemma TickInv(o: Options, s: State, delay: nat)
    requires Inv(o, s)
    ensures Inv(o, Tick(o, s, delay))
  {
    hide Burn, Met, NewValue, Test;
    match s.pc
    case Done =>
    case At(p, phase) =>
      match phase
      case Testing => TestIsUnmet(p, s.uicr);
      case Write(k) =>
        if k < |Registers(p)| {
          WriteInv(o, s, p, k, delay);
        }
      case Writing(k) => WritingInv(o, s, p, k);
      case _ =>
  }

  lemma WriteInv(o: Options, s: State, p: Part, k: nat, delay: nat)
    requires Inv(o, s) && s.pc == At(p, Write(k)) && k < |Registers(p)|
    ensures Inv(o, Tick(o, s, delay))
  {
    hide Burn, Met, NewValue;
    LandMeets(s.uicr, p, k);
    var r := Registers(p)[k];
    var u := Land(s.uicr, Flight.Writing(r, NewValue(r, s.uicr.Read(r))));
    assert MetUpTo(p, u, k + 1);
    if p.PinReset? && o.nfcPinsAsGpios {
      LandKeepsMet(s.uicr, Flight.Writing(r, NewValue(r, s.uicr.Read(r))), Nfc, 1);
    }
  }

  lemma WritingInv(o: Options, s: State, p: Part, k: nat)
    requires Inv(o, s) && s.pc == At(p, Phase.Writing(k))
    ensures Inv(o, Tick(o, s, 0))
  {
    hide Burn, Met, NewValue;
    LandMeets(s.uicr, p, k);
    if p.PinReset? && o.nfcPinsAsGpios {
      LandKeepsMet(s.uicr, s.nvmc.flight, Nfc, 1);
    }
  }

  lemma {:induction false} RunInv(o: Options, s: State, es: seq<Event>)
    requires Inv(o, s)
    ensures Inv(o, Run(o, s, es))
  {
    if es != [] {
      RunInv(o, s, es[..|es| - 1]);
      var e := es[|es| - 1];
      if e.Go? {
        TickInv(o, Run(o, s, es[..|es| - 1]), e.delay);
      }
    }
  }

  /**
    The controller is used as it must be: words are written only while it is
    write-enabled and ready, its mode is changed only while it is ready, and it
    is read-only and ready at every reset and when the boot is over.
   */
  predicate ControllerDiscipline(s: State) {
    match s.pc
    case Done => s.nvmc == CLOSED
    case At(p, phase) =>
      match phase
      case Write(k) => k < |Registers(p)| ==> s.nvmc.writeEnabled && s.nvmc.busy == 0
      case Open | Close => s.nvmc.busy == 0
      case Reset => s.nvmc == CLOSED
      case _ => true
  }

  /** In every reachable step of every run from power-on, whatever the delays and the power failures. */
  lemma EveryStepDisciplined(o: Options, u: Uicr, es: seq<Event>)
    ensures ControllerDiscipline(Run(o, Start(u, 0), es))
  {
    RunInv(o, Start(u, 0), es);
  }

  // ---------- How many resets ----------

  /** Whether a part still has a reset to make: it is being executed past its test, or its test would succeed. */
  ghost predicate Owes(o: Options, s: State, p: Part) {
    || (s.pc.At? && s.pc.part == p && !s.pc.phase.Testing?)
    || (Enabled(o, p) && !AllMet(p, s.uicr))
  }

  ghost function Owed(o: Options, s: State): nat {
    (if Owes(o, s, Nfc) then 1 else 0) + (if Owes(o, s, PinReset) then 1 else 0)
  }

  /** Writing one part's words leaves the other part's words alone. */
  lemma LandElsewhere(u: Uicr, f: Flight, p: Part)
    requires f.Writing? ==> f.register !in Registers(p)
    ensures AllMet(p, Land(u, f)) <==> AllMet(p, u)
  {
  }

  function Other(p: Part): Part {
    if p.Nfc? then PinReset else Nfc
  }

  /** While a part is executing, the other part's words stay as they are. */
  lemma TickElsewhere(o: Options, s: State, delay: nat)
    requires Inv(o, s) && s.pc.At?
    ensures AllMet(Other(s.pc.part), Tick(o, s, delay).uicr) <==> AllMet(Other(s.pc.part), s.uicr)
  {
    hide Burn, Met, NewValue, Test, Land;
    var p := s.pc.part;
    LandElsewhere(s.uicr, Nothing, Other(p));
    match s.pc.phase
    case Write(k) =>
      if k < |Registers(p)| {
        var r := Registers(p)[k];
        LandElsewhere(s.uicr, Flight.Writing(r, NewValue(r, s.uicr.Read(r))), Other(p));
      }
    case Writing(k) =>
      LandElsewhere(s.uicr, s.nvmc.flight, Other(p));
    case _ =>
  }

  /** The code conserves the number of resets made and owed. */
  lemma TickConserves(o: Options, s: State, delay: nat)
    requires Inv(o, s)
    ensures
      var s' := Tick(o, s, delay);
      s'.resets + Owed(o, s') == s.resets + Owed(o, s)
  {
    hide Burn, Met, NewValue, Test, Land, AllMet;
    if s.pc.At? {
      TickElsewhere(o, s, delay);
      TestIsUnmet(s.pc.part, s.uicr);
      LandElsewhere(s.uicr, Nothing, s.pc.part);
    }
  }

  /** A power failure makes no reset and causes none. */
  lemma FailureOwesNoMore(o: Options, s: State, kept: Word)
    requires Inv(o, s)
    ensures
      var s' := Next(o, s, PowerFailure(kept));
      s'.resets == s.resets && Owed(o, s') <= Owed(o, s)
  {
  }

  /** An interrupted write is like a completed write of a word with more bits set. */
  lemma TearIsLand(u: Uicr, f: Flight, kept: Word)
    ensures f.Writing? ==> Tear(u, f, kept) == Land(u, Flight.Writing(f.register, CutShort(f.value, kept)))
    ensures f.Nothing? ==> Tear(u, f, kept) == Land(u, f)
  {
  }

  lemma {:induction false} RunResets(o: Options, s: State, es: seq<Event>)
    requires Inv(o, s)
    ensures
      var s' := Run(o, s, es);
      && s'.resets + Owed(o, s') <= s.resets + Owed(o, s)
      && (NoFailure(es) ==> s'.resets + Owed(o, s') == s.resets + Owed(o, s))
  {
    if es != [] {
      var before := es[..|es| - 1];
      RunResets(o, s, before);
      RunInv(o, s, before);
      match es[|es| - 1]
      case Go(delay) => TickConserves(o, Run(o, s, before), delay);
      case PowerFailure(kept) => FailureOwesNoMore(o, Run(o, s, before), kept);
    }
  }

  predicate NoFailure(es: seq<Event>) {
    forall e | e in es :: e.Go?
  }

  /** The conditions that are unmet at power-on, among those compiled in. */
  ghost function Unmet(o: Options, u: Uicr): nat {
    (if Settled(o, Nfc, u) then 0 else 1) + (if Settled(o, PinReset, u) then 0 else 1)
  }

  /**
    From any UICR contents, a run makes at most one reset per unmet condition,
    hence at most two, however often the power fails; a run without power
    failures that completes a boot has made exactly that many.
   */
  lemma ResetBound(o: Options, u: Uicr, es: seq<Event>)
    ensures
      var s := Run(o, Start(u, 0), es);
      && s.resets <= Unmet(o, u) <= 2
      && (s.pc.Done? && NoFailure(es) ==> s.resets == Unmet(o, u))
  {
    RunResets(o, Start(u, 0), es);
    RunInv(o, Start(u, 0), es);
  }

  // ---------- Repeated boots come to rest ----------

  /** The state after the first `n` events of an endless run. */
  ghost function StateAt(o: Options, s: State, events: nat -> Event, n: nat): State {
    if n == 0 then s
    else Next(o, StateAt(o, s, events, n - 1), events(n - 1))
  }

  ghost predicate NoFailureFrom(events: nat -> Event, n: nat) {
    forall i: nat | i >= n :: events(i).Go?
  }

  lemma {:induction false} StateAtInv(o: Options, s: State, events: nat -> Event, n: nat)
    requires Inv(o, s)
    ensures Inv(o, StateAt(o, s, events, n))
  {
    hide Tick, Land, Tear, Burn, Met, NewValue;
    if n > 0 {
      StateAtInv(o, s, events, n - 1);
      var e := events(n - 1);
      if e.Go? {
        TickInv(o, StateAt(o, s, events, n - 1), e.delay);
      }
    }
  }

  /** How far the code is from the end of a boot that does not reset. */
  function Distance(pc: Pc): int {
    match pc
    case Done => 0
    case At(p, phase) =>
      (if p.Nfc? then 20 else 1)
      + match phase
        case Testing => 12
        case Open => 11
        case Opening => 10
        case Write(k) => 8 - 2 * k
        case Writing(k) => 7 - 2 * k
        case Close => 3
        case Closing => 2
        case Reset => 1
  }

  /** Within a boot, every access but the reset brings the code closer to its end or the controller to being ready. */
  lemma TickCloser(o: Options, s: State, delay: nat)
    requires Inv(o, s) && s.pc.At? && !s.pc.phase.Reset?
    ensures
      var s' := Tick(o, s, delay);
      && s'.resets == s.resets
      && (Distance(s'.pc) < Distance(s.pc) || (s'.pc == s.pc && s'.nvmc.busy < s.nvmc.busy))
  {
    hide NewValue, Test, Land, AllMet, MetUpTo;
  }

  lemma DistanceBounded(o: Options, s: State)
    requires Inv(o, s)
    ensures Distance(s.pc) >= 0
  {
    hide AllMet, MetUpTo, Met, NewValue;
  }

  /** Every access of an unfinished boot brings the run closer to its end. */
  lemma TickProgress(o: Options, s: State, delay: nat)
    requires Inv(o, s) && s.pc != Done
    ensures Distance(s.pc) >= 0
    ensures
      var s' := Tick(o, s, delay);
      || Owed(o, s') < Owed(o, s)
      || (Owed(o, s') == Owed(o, s)
          && (Distance(s'.pc) < Distance(s.pc) || (s'.pc == s.pc && s'.nvmc.busy < s.nvmc.busy)))
  {
    TickConserves(o, s, delay);
    DistanceBounded(o, s);
    if s.pc.phase.Reset? {
      assert Tick(o, s, delay).resets == s.resets + 1;
    } else {
      TickCloser(o, s, delay);
    }
    hide Inv, Land, Owed, Distance;
  }

  lemma {:induction false} ReachesDone(o: Options, s: State, events: nat -> Event, i: nat)
    requires Inv(o, s) && NoFailureFrom(events, i)
    ensures exists n: nat :: n >= i && StateAt(o, s, events, n).pc == Done
    decreases
      Owed(o, StateAt(o, s, events, i)), Distance(StateAt(o, s, events, i).pc), StateAt(o, s, events, i).nvmc.busy
  {
    var now := StateAt(o, s, events, i);
    if now.pc != Done {
      StateAtInv(o, s, events, i);
      TickProgress(o, now, events(i).delay);
      assert StateAt(o, s, events, i + 1) == Tick(o, now, events(i).delay);
      ReachesDone(o, s, events, i + 1);
    }
  }

  lemma {:induction false} StaysDone(o: Options, s: State, events: nat -> Event, n: nat, m: nat)
    requires n <= m && NoFailureFrom(events, n) && StateAt(o, s, events, n).pc == Done
    ensures StateAt(o, s, events, m) == StateAt(o, s, events, n)
    decreases m
  {
    if n < m {
      StaysDone(o, s, events, n, m - 1);
    }
  }

  ghost predicate DoneFrom(o: Options, s: State, events: nat -> Event, n: nat) {
    forall m: nat | m >= n :: StateAt(o, s, events, m).pc == Done
  }

  /**
    Liveness: in every endless run from power-on in which the power fails only
    finitely often, some boot completes and the chip never resets again.
   */
  lemma EventuallyDone(o: Options, u: Uicr, events: nat -> Event, quiet: nat)
    requires NoFailureFrom(events, quiet)
    ensures exists n: nat :: DoneFrom(o, Start(u, 0), events, n)
  {
    ReachesDone(o, Start(u, 0), events, quiet);
    var n: nat :| n >= quiet && StateAt(o, Start(u, 0), events, n).pc == Done;
    forall m: nat | m >= n
      ensures StateAt(o, Start(u, 0), events, m).pc == Done
    {
      StaysDone(o, Start(u, 0), events, n, m);
    }
    assert DoneFrom(o, Start(u, 0), events, n);
  }

  /**
    Once a boot has completed, no later event of the same build (further boots
    and power failures included) changes UICR, resets, or opens the controller.
   */
  lemma {:induction false} DoneIsFinal(o: Options, s: State, es: seq<Event>)
    requires Inv(o, s) && s.pc == Done
    ensures
      var s' := Run(o, s, es);
      && s'.uicr == s.uicr && s'.resets == s.resets && s'.nvmc == CLOSED
      && (s'.pc.At? ==> s'.pc.phase.Testing?)
  {
    hide Burn, Met, NewValue, Test;
    if es != [] {
      DoneIsFinal(o, s, es[..|es| - 1]);
      TestIsUnmet(Nfc, s.uicr);
      TestIsUnmet(PinReset, s.uicr);
    }
  }
}
