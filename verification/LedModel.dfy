/**
  What the LED driver does to the `OUT` word, and what it means for the LEDs.

  A board has two LED interfaces over the same pins.  The index interface goes
  through the list of LED pins and a logical active state; the mask interface
  writes whole words and corrects the polarity with an inverse mask.  Both are
  shown to act on one abstract state, the set of lit LEDs.
 */
module LedModel {

  import opened PortAccess

  /**
    `leds` lists the LED pins, `mask` is LEDS_MASK, `inv` is LEDS_INV_MASK and
    `activeHigh` is LEDS_ACTIVE_STATE.  The board headers write the four down
    independently of each other.
   */
  datatype Wiring = Wiring(leds: seq<nat>, mask: PinSet, inv: PinSet, activeHigh: bool)

  /** LEDS_MASK is the union of the listed pins. */
  ghost predicate MaskCoversList(w: Wiring) {
    w.mask == set p | p in w.leds
  }

  ghost predicate Distinct(pins: seq<nat>) {
    forall i, j | 0 <= i < j < |pins| :: pins[i] != pins[j]
  }

  /** On the LED pins the inverse mask says the same as the active state. */
  ghost predicate PolarityAgrees(w: Wiring) {
    if w.activeHigh then w.mask !! w.inv else w.mask <= w.inv
  }

  ghost predicate Consistent(w: Wiring) {
    MaskCoversList(w) && Distinct(w.leds) && PolarityAgrees(w)
  }

  // ---------- The two interfaces ----------

  datatype Command =
    | On(led: nat) | Off(led: nat) | Invert(led: nat)
    | AllOn | AllOff
    | MaskOn(pins: PinSet) | MaskOff(pins: PinSet) | MaskInvert(pins: PinSet)

  /** The driver asserts that an LED index is in range. */
  predicate InRange(w: Wiring, c: Command) {
    (c.On? || c.Off? || c.Invert?) ==> c.led < |w.leds|
  }

  predicate AllInRange(w: Wiring, cs: seq<Command>) {
    forall c | c in cs :: InRange(w, c)
  }

  function Drive(pin: nat, high: bool, out: PinSet): PinSet {
    if high then out + {pin} else out - {pin}
  }

  /** Drives the listed pins one after the other. */
  function DriveAll(pins: seq<nat>, high: bool, out: PinSet): PinSet {
    if pins == [] then out
    else
      var n := |pins| - 1;
      Drive(pins[n], high, DriveAll(pins[..n], high, out))
  }

  /** The effect of a whole command on `OUT`. */
  function Exec(w: Wiring, c: Command, out: PinSet): PinSet
    requires InRange(w, c)
  {
    match c
    case On(i) => Drive(w.leds[i], w.activeHigh, out)
    case Off(i) => Drive(w.leds[i], !w.activeHigh, out)
    case Invert(i) => SymDiff(out, {w.leds[i]})
    case AllOn => DriveAll(w.leds, w.activeHigh, out)
    case AllOff => DriveAll(w.leds, !w.activeHigh, out)
    case MaskOn(m) => (out - (m * (w.mask * w.inv))) + (m * (w.mask - w.inv))
    case MaskOff(m) => (out + (m * (w.mask * w.inv))) - (m * (w.mask - w.inv))
    case MaskInvert(m) => SymDiff(out, m)
  }

  function ExecAll(w: Wiring, cs: seq<Command>, out: PinSet): PinSet
    requires AllInRange(w, cs)
  {
    if cs == [] then out
    else
      var n := |cs| - 1;
      Exec(w, cs[n], ExecAll(w, cs[..n], out))
  }

  // ---------- The abstract state ----------

  /** The LEDs (by index) whose pin is at the active level. */
  ghost function Lit(w: Wiring, out: PinSet): set<nat> {
    set i: nat | i < |w.leds| && (w.leds[i] in out <==> w.activeHigh)
  }

  /** The LEDs on the pins of a mask. */
  ghost function LedsOf(w: Wiring, pins: PinSet): set<nat> {
    set i: nat | i < |w.leds| && w.leds[i] in pins
  }

  ghost function AllLeds(w: Wiring): set<nat> {
    set i: nat {:trigger w.leds[i]} | i < |w.leds|
  }

  /** What each command is meant to do to the set of lit LEDs. */
  ghost function Meaning(w: Wiring, c: Command, lit: set<nat>): set<nat> {
    match c
    case On(i) => lit + {i}
    case Off(i) => lit - {i}
    case Invert(i) => if i in lit then lit - {i} else lit + {i}
    case AllOn => AllLeds(w)
    case AllOff => {}
    case MaskOn(m) => lit + LedsOf(w, m)
    case MaskOff(m) => lit - LedsOf(w, m)
    case MaskInvert(m) => (lit - LedsOf(w, m)) + (LedsOf(w, m) - lit)
  }

  ghost function MeaningAll(w: Wiring, cs: seq<Command>, lit: set<nat>): set<nat> {
    if cs == [] then lit
    else
      var n := |cs| - 1;
      Meaning(w, cs[n], MeaningAll(w, cs[..n], lit))
  }

  // ---------- Refinement ----------

  /** Driving a list of pins changes exactly these pins, all to the same level. */
  lemma {:induction false} DriveAllPin(pins: seq<nat>, high: bool, out: PinSet, p: nat)
    ensures p in DriveAll(pins, high, out) <==> if p in pins then high else p in out
  {
    if pins != [] {
      var n := |pins| - 1;
      DriveAllPin(pins[..n], high, out, p);
      assert p in pins <==> p in pins[..n] || p == pins[n];
    }
  }

  /** The mask macros drive the pin, and to the levels that the active state means. */
  predicate WellWired(w: Wiring, pin: nat) {
    pin in w.mask && (pin in w.inv <==> !w.activeHigh)
  }

  /**
    What a command needs of the wiring: a call for one LED, that its pin is not
    listed twice; LEDS_ON and LEDS_OFF, that the LEDs in their mask are well
    wired; the loops over all LEDs and LEDS_INVERT, nothing.
   */
  ghost predicate Proper(w: Wiring, c: Command)
    requires InRange(w, c)
  {
    && (c.On? || c.Off? || c.Invert? ==>
          forall j | 0 <= j < |w.leds| && w.leds[j] == w.leds[c.led] :: j == c.led)
    && (c.MaskOn? || c.MaskOff? ==>
          forall j | 0 <= j < |w.leds| && w.leds[j] in c.pins :: WellWired(w, w.leds[j]))
  }

  ghost predicate AllProper(w: Wiring, cs: seq<Command>)
    requires AllInRange(w, cs)
  {
    forall c | c in cs :: Proper(w, c)
  }

  /** On a consistent board, everything is proper. */
  lemma ConsistentProper(w: Wiring, c: Command)
    requires Consistent(w) && InRange(w, c)
    ensures Proper(w, c)
  {
  }

  lemma StepRefines(w: Wiring, c: Command, out: PinSet)
    requires InRange(w, c) && Proper(w, c)
    ensures Lit(w, Exec(w, c, out)) == Meaning(w, c, Lit(w, out))
  {
    forall i: nat | i < |w.leds|
      ensures i in Lit(w, Exec(w, c, out)) <==> i in Meaning(w, c, Lit(w, out))
    {
      if c.AllOn? || c.AllOff? {
        DriveAllPin(w.leds, if c.AllOn? then w.activeHigh else !w.activeHigh, out, w.leds[i]);
      }
    }
  }

  /** A word for which a command that is not proper goes wrong. */
  lemma ImproperStep(w: Wiring, c: Command) returns (out: PinSet)
    requires InRange(w, c) && !Proper(w, c)
    ensures Lit(w, Exec(w, c, out)) != Meaning(w, c, Lit(w, out))
  {
    var j: nat;
    if c.MaskOn? || c.MaskOff? {
      j :| 0 <= j < |w.leds| && w.leds[j] in c.pins && !WellWired(w, w.leds[j]);
    } else {
      j :| 0 <= j < |w.leds| && w.leds[j] == w.leds[c.led] && j != c.led;
    }
    out := if (c.On? || c.MaskOn?) == w.activeHigh then {} else {w.leds[j]};
    assert j in Lit(w, Exec(w, c, out)) <==> j !in Meaning(w, c, Lit(w, out));
  }

  /** A command does what it means from every word exactly when it is proper. */
  lemma RefinesExactlyWhen(w: Wiring, c: Command)
    requires InRange(w, c)
    ensures (forall out: PinSet :: Lit(w, Exec(w, c, out)) == Meaning(w, c, Lit(w, out))) <==> Proper(w, c)
  {
    hide Exec, Lit, Meaning, Proper;
    if Proper(w, c) {
      forall out: PinSet
        ensures Lit(w, Exec(w, c, out)) == Meaning(w, c, Lit(w, out))
      {
        StepRefines(w, c, out);
      }
    } else {
      var out := ImproperStep(w, c);
    }
  }

  /**
    Data refinement over whole runs: any mixture of index calls and mask
    macros acts on the set of lit LEDs as the commands mean.
   */
  lemma {:induction false} RunRefines(w: Wiring, cs: seq<Command>, out: PinSet)
    requires AllInRange(w, cs) && AllProper(w, cs)
    ensures Lit(w, ExecAll(w, cs, out)) == MeaningAll(w, cs, Lit(w, out))
  {
    if cs != [] {
      var n := |cs| - 1;
      RunRefines(w, cs[..n], out);
      StepRefines(w, cs[n], ExecAll(w, cs[..n], out));
    }
    hide Proper, Lit, Meaning, Exec;
  }

  /** The pins flipped an odd number of times by LEDS_INVERT in a run. */
  function Flipped(cs: seq<Command>): PinSet {
    if cs == [] then {}
    else
      var n := |cs| - 1;
      var rest := Flipped(cs[..n]);
      if cs[n].MaskInvert? then SymDiff(rest, cs[n].pins) else rest
  }

  /**
    Outside LEDS_MASK only LEDS_INVERT has an effect, for any masks passed to
    any macro and any polarity; a run without it leaves the other pins alone.
   */
  lemma {:induction false} RunElsewhere(w: Wiring, cs: seq<Command>, out: PinSet)
    requires MaskCoversList(w) && AllInRange(w, cs)
    ensures ExecAll(w, cs, out) - w.mask == SymDiff(out, Flipped(cs)) - w.mask
  {
    if cs != [] {
      var n := |cs| - 1;
      var before := ExecAll(w, cs[..n], out);
      RunElsewhere(w, cs[..n], out);
      forall p | p !in w.mask
        ensures p in before <==> p in SymDiff(out, Flipped(cs[..n]))
        ensures p in Exec(w, cs[n], before) <==> p in SymDiff(out, Flipped(cs))
      {
        assert p in before - w.mask <==> p in SymDiff(out, Flipped(cs[..n])) - w.mask;
        DriveAllPin(w.leds, true, before, p);
        DriveAllPin(w.leds, false, before, p);
        assert forall i: nat | i < |w.leds| :: w.leds[i] in w.mask;
        assert InRange(w, cs[n]);
      }
    }
  }

  // ---------- Polarity ----------

  /**
    The loop over all LEDs leaves the same word as the mask macro applied to
    LEDS_MASK exactly when the polarity agrees, whatever the word was before.
   */
  lemma LoopIsMaskOperation(w: Wiring, out: PinSet)
    requires MaskCoversList(w)
    ensures Exec(w, AllOn, out) == Exec(w, MaskOn(w.mask), out) <==> PolarityAgrees(w)
    ensures Exec(w, AllOff, out) == Exec(w, MaskOff(w.mask), out) <==> PolarityAgrees(w)
  {
    var on, maskOn := Exec(w, AllOn, out), Exec(w, MaskOn(w.mask), out);
    var off, maskOff := Exec(w, AllOff, out), Exec(w, MaskOff(w.mask), out);
    forall p: nat
      ensures p in on <==> if p in w.mask then w.activeHigh else p in out
      ensures p in off <==> if p in w.mask then !w.activeHigh else p in out
      ensures p in maskOn <==> if p in w.mask then p !in w.inv else p in out
      ensures p in maskOff <==> if p in w.mask then p in w.inv else p in out
    {
      DriveAllPin(w.leds, w.activeHigh, out, p);
      DriveAllPin(w.leds, !w.activeHigh, out, p);
    }
    if !PolarityAgrees(w) {
      var p :| p in w.mask && (p in w.inv <==> w.activeHigh);
      assert p in on <==> p !in maskOn;
      assert p in off <==> p !in maskOff;
    }
  }

  /** The LEDs for which the inverse mask contradicts the active state. */
  ghost function Miswired(w: Wiring): set<nat> {
    set i: nat | i < |w.leds| && (w.leds[i] in w.inv <==> w.activeHigh)
  }

  /**
    Whatever the polarity, LEDS_ON lights the LEDs of its mask that are wired
    consistently and switches off the miswired ones; so it does what it is
    meant to do exactly when no miswired LED is in its mask.
   */
  lemma MaskOnExactly(w: Wiring, m: PinSet, out: PinSet)
    requires MaskCoversList(w)
    ensures
      var lit := Lit(w, out);
      var lit' := Lit(w, Exec(w, MaskOn(m), out));
      && lit' == (lit + LedsOf(w, m)) - (LedsOf(w, m) * Miswired(w))
      && (lit' == Meaning(w, MaskOn(m), lit) <==> LedsOf(w, m) !! Miswired(w))
  {
  }

  /** Likewise, LEDS_OFF lights the miswired LEDs of its mask. */
  lemma MaskOffExactly(w: Wiring, m: PinSet, out: PinSet)
    requires MaskCoversList(w)
    ensures
      var lit := Lit(w, out);
      var lit' := Lit(w, Exec(w, MaskOff(m), out));
      && lit' == (lit - LedsOf(w, m)) + (LedsOf(w, m) * Miswired(w))
      && (lit' == Meaning(w, MaskOff(m), lit) <==> LedsOf(w, m) !! Miswired(w))
  {
  }

  /** LED_IS_ON as a word: the mask restricted to the pins at the active level. */
  function IsOnWord(w: Wiring, m: PinSet, out: PinSet): PinSet {
    m * SymDiff(out, w.inv)
  }

  /** Bit by bit: the pins of the mask whose level is not the one that the inverse mask gives for off. */
  lemma IsOnBit(w: Wiring, m: PinSet, out: PinSet, p: nat)
    ensures p in IsOnWord(w, m, out) <==> p in m && (p in out <==> p !in w.inv)
  {
  }

  /** The bit of an LED in the mask tells from every word whether the LED is lit exactly when its polarity agrees. */
  lemma IsOnBitExactlyWhen(w: Wiring, m: PinSet, i: nat)
    requires i < |w.leds| && w.leds[i] in m
    ensures (forall out: PinSet :: w.leds[i] in IsOnWord(w, m, out) <==> i in Lit(w, out))
       <==> (w.leds[i] in w.inv <==> !w.activeHigh)
  {
    var p := w.leds[i];
    if p in w.inv <==> !w.activeHigh {
      forall out: PinSet
        ensures p in IsOnWord(w, m, out) <==> i in Lit(w, out)
      {
        IsOnBit(w, m, out, p);
      }
    } else {
      IsOnBit(w, m, {}, p);
      assert p in IsOnWord(w, m, {}) <==> i !in Lit(w, {});
    }
  }

  /** For a mask of LED pins, LED_IS_ON is nonzero exactly when one of these LEDs is lit. */
  lemma IsOnMeansSomeLit(w: Wiring, m: PinSet, out: PinSet)
    requires MaskCoversList(w) && PolarityAgrees(w) && m <= w.mask
    ensures IsOnWord(w, m, out) != {} <==> LedsOf(w, m) * Lit(w, out) != {}
  {
    if IsOnWord(w, m, out) != {} {
      var p :| p in IsOnWord(w, m, out);
      var i :| 0 <= i < |w.leds| && w.leds[i] == p;
      assert i in LedsOf(w, m) * Lit(w, out);
    }
    if LedsOf(w, m) * Lit(w, out) != {} {
      var i :| i in LedsOf(w, m) * Lit(w, out);
      assert w.leds[i] in IsOnWord(w, m, out);
    }
  }

  // ---------- Inversion ----------

  function InvertEach(order: seq<nat>): (cs: seq<Command>) {
    seq(|order|, i requires 0 <= i < |order| => Invert(order[i]))
  }

  predicate Indices(w: Wiring, order: seq<nat>) {
    forall i | i in order :: i < |w.leds|
  }

  ghost function PinsOf(w: Wiring, order: seq<nat>): PinSet
    requires Indices(w, order)
  {
    set i | i in order :: w.leds[i]
  }

  lemma PinsOfLast(w: Wiring, order: seq<nat>)
    requires Distinct(w.leds) && Distinct(order) && order != []
    requires Indices(w, order)
    ensures Indices(w, order[..|order| - 1])
    ensures order[|order| - 1] < |w.leds|
    ensures w.leds[order[|order| - 1]] !in PinsOf(w, order[..|order| - 1])
    ensures PinsOf(w, order) == PinsOf(w, order[..|order| - 1]) + {w.leds[order[|order| - 1]]}
  {
    var n := |order| - 1;
    assert order[n] in order;
    assert forall i :: i in order <==> i in order[..n] || i == order[n];
  }

  /**
    Inverting the LEDs of a mask one by one, in any order, is inverting the
    mask at once.
   */
  lemma {:induction false} InvertInAnyOrder(w: Wiring, order: seq<nat>, out: PinSet)
    requires Distinct(w.leds) && Distinct(order)
    requires Indices(w, order)
    ensures AllInRange(w, InvertEach(order))
    ensures ExecAll(w, InvertEach(order), out) == Exec(w, MaskInvert(PinsOf(w, order)), out)
  {
    if order != [] {
      var n := |order| - 1;
      PinsOfLast(w, order);
      InvertInAnyOrder(w, order[..n], out);
      assert InvertEach(order)[..n] == InvertEach(order[..n]);
    }
  }

  // ---------- Interrupts ----------

  /** The register accesses a command consists of. */
  function Accesses(w: Wiring, c: Command): seq<Access>
    requires InRange(w, c)
  {
    match c
    case On(i) => [DriveAccess(w.leds[i], w.activeHigh)]
    case Off(i) => [DriveAccess(w.leds[i], !w.activeHigh)]
    case Invert(i) => Inversion({w.leds[i]})
    case AllOn => DriveAccesses(w.leds, w.activeHigh)
    case AllOff => DriveAccesses(w.leds, !w.activeHigh)
    case MaskOn(m) => [ClearBits(m * (w.mask * w.inv)), SetBits(m * (w.mask - w.inv))]
    case MaskOff(m) => [SetBits(m * (w.mask * w.inv)), ClearBits(m * (w.mask - w.inv))]
    case MaskInvert(m) => Inversion(m)
  }

  function DriveAccess(pin: nat, high: bool): Access {
    if high then SetBits({pin}) else ClearBits({pin})
  }

  function DriveAccesses(pins: seq<nat>, high: bool): seq<Access> {
    seq(|pins|, i requires 0 <= i < |pins| => DriveAccess(pins[i], high))
  }

  function AccessesAll(w: Wiring, cs: seq<Command>): seq<Access>
    requires AllInRange(w, cs)
  {
    if cs == [] then []
    else
      var n := |cs| - 1;
      AccessesAll(w, cs[..n]) + Accesses(w, cs[n])
  }

  lemma {:induction false} DriveAccessesRun(pins: seq<nat>, high: bool, v: View)
    ensures Run(DriveAccesses(pins, high), v).out == DriveAll(pins, high, v.out)
  {
    if pins != [] {
      var n := |pins| - 1;
      DriveAccessesRun(pins[..n], high, v);
      assert DriveAccesses(pins, high)[..n] == DriveAccesses(pins[..n], high);
    }
  }

  lemma AccessesRun(w: Wiring, c: Command, v: View)
    requires InRange(w, c)
    ensures Run(Accesses(w, c), v).out == Exec(w, c, v.out)
  {
    var a := Accesses(w, c);
    match c
    case On(_) | Off(_) =>
      assert a[..0] == [];
    case Invert(i) =>
      InversionFlips({w.leds[i]}, v);
    case AllOn =>
      DriveAccessesRun(w.leds, w.activeHigh, v);
    case AllOff =>
      DriveAccessesRun(w.leds, !w.activeHigh, v);
    case MaskOn(_) | MaskOff(_) =>
      assert a[..1] == [a[0]] && a[..1][..0] == [];
      assert Run(a[..1], v) == Apply(a[0], v);
    case MaskInvert(m) =>
      InversionFlips(m, v);
  }

  /** The accesses of a run of commands, made without interruption, have the commands' effect. */
  lemma {:induction false} AccessesAllRun(w: Wiring, cs: seq<Command>, v: View)
    requires AllInRange(w, cs)
    ensures Run(AccessesAll(w, cs), v).out == ExecAll(w, cs, v.out)
  {
    if cs != [] {
      var n := |cs| - 1;
      AccessesAllRun(w, cs[..n], v);
      RunConcat(AccessesAll(w, cs[..n]), Accesses(w, cs[n]), v);
      AccessesRun(w, cs[n], Run(AccessesAll(w, cs[..n]), v));
    }
  }

  /** A context that runs LED commands touching only the pins it owns. */
  datatype LedContext = LedContext(commands: seq<Command>, pins: PinSet)

  ghost predicate Separate(w: Wiring, ls: seq<LedContext>) {
    && (forall l | l in ls :: AllInRange(w, l.commands) && Within(AccessesAll(w, l.commands), l.pins))
    && (forall i, j | 0 <= i < j < |ls| :: ls[i].pins !! ls[j].pins)
  }

  function Contexts(w: Wiring, ls: seq<LedContext>): (cs: seq<Context>)
    requires forall l | l in ls :: AllInRange(w, l.commands)
    ensures |cs| == |ls|
  {
    seq(|ls|, i requires 0 <= i < |ls| => Context(AccessesAll(w, ls[i].commands), ls[i].pins))
  }

  /**
    LED commands may be interrupted between any two register accesses by LED
    commands for other pins: once all have finished, the LEDs of each context
    are lit as its own commands mean, whatever the interleaving was.
   */
  lemma InterruptedRunRefines(w: Wiring, ls: seq<LedContext>, schedule: seq<nat>, out: PinSet, i: nat)
    requires Separate(w, ls) && i < |ls| && AllProper(w, ls[i].commands)
    requires Finished(Contexts(w, ls), Interleave(Contexts(w, ls), schedule, out))
    ensures
      var final := Interleave(Contexts(w, ls), schedule, out).out;
      Lit(w, final) * LedsOf(w, ls[i].pins)
      == MeaningAll(w, ls[i].commands, Lit(w, out)) * LedsOf(w, ls[i].pins)
  {
    var cs := Contexts(w, ls);
    var final := Interleave(cs, schedule, out).out;
    var alone := ExecAll(w, ls[i].commands, out);
    assert Wellformed(cs);
    NoLostUpdates(cs, schedule, out, i);
    AccessesAllRun(w, ls[i].commands, View(out, {}));
    RunRefines(w, ls[i].commands, out);
    assert final * ls[i].pins == alone * ls[i].pins;
    forall k | k in LedsOf(w, ls[i].pins)
      ensures k in Lit(w, final) <==> k in Lit(w, alone)
    {
      assert w.leds[k] in final * ls[i].pins <==> w.leds[k] in alone * ls[i].pins;
    }
  }
}
