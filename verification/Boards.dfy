/**
  The board support functions for LEDs and buttons, and the LED macros.

  Every function is proved against the command it implements in `LedModel`,
  with the port's registers read as sets of pins.
 */
module Boards {

  import opened Words
  import opened Wrappers

  import opened Gpio
  import L = LedModel

  /**
    What a board header defines: LEDS_LIST, BSP_LED_0 to BSP_LED_7, the active
    state and the inverse mask, and the same for the buttons.
   */
  datatype Board = Board(
    ledList: seq<Pin>,
    bspLeds: seq<Option<Pin>>,
    ledsActiveHigh: bool,
    ledsInvMask: Word,
    buttonList: seq<Pin>,
    buttonsActiveHigh: bool,
    buttonPull: Word)

  const NO_INDEX: nat := 0xFFFF_FFFF

  /** The index functions count in 32 bits and keep NO_INDEX for "not found". */
  predicate ValidBoard(b: Board) {
    |b.ledList| <= NO_INDEX && |b.buttonList| <= NO_INDEX
  }

  /** BSP_LED_k_MASK, which is zero when BSP_LED_k is not defined. */
  function SlotMask(slot: Option<Pin>): (r: Word)
    ensures Pins(r) == match slot case None => {} case Some(p) => {p}
  {
    hide Bit, Pins, PinMask;
    match slot
    case None =>
      PinsEmpty(0);
      0
    case Some(p) =>
      PinsOfMask(p);
      PinMask(p)
  }

  function SlotsMask(slots: seq<Option<Pin>>): Word {
    if slots == [] then 0
    else SlotsMask(slots[..|slots| - 1]) | SlotMask(slots[|slots| - 1])
  }

  /** LEDS_MASK has the defined slots' pins and no others. */
  lemma {:induction false} SlotsMaskPins(slots: seq<Option<Pin>>)
    ensures Pins(SlotsMask(slots)) == set p: Pin | Some(p) in slots
  {
    hide Bit, Pins, SlotMask;
    if slots == [] {
      PinsEmpty(0);
    } else {
      var n := |slots| - 1;
      SlotsMaskPins(slots[..n]);
      assert forall x :: x in slots <==> x in slots[..n] || x == slots[n];
      PinsOr(SlotsMask(slots[..n]), SlotMask(slots[n]));
    }
  }

  function LedsMask(b: Board): Word {
    SlotsMask(b.bspLeds)
  }

  /** The pins of `mask` that carry an LED and are inverted. */
  function InvertedLeds(b: Board, mask: Word): (r: Word)
    ensures Pins(r) == Pins(mask) * (Pins(LedsMask(b)) * Pins(b.ledsInvMask))
  {
    hide Bit, Pins;
    PinsAnd(LedsMask(b), b.ledsInvMask);
    PinsAnd(mask, LedsMask(b) & b.ledsInvMask);
    mask & (LedsMask(b) & b.ledsInvMask)
  }

  /** The pins of `mask` that carry an LED and are not inverted. */
  function PlainLeds(b: Board, mask: Word): (r: Word)
    ensures Pins(r) == Pins(mask) * (Pins(LedsMask(b)) - Pins(b.ledsInvMask))
  {
    hide Bit, Pins;
    PinsAndNot(LedsMask(b), b.ledsInvMask);
    PinsAnd(mask, LedsMask(b) & !b.ledsInvMask);
    mask & (LedsMask(b) & !b.ledsInvMask)
  }

  /** LED_IS_ON */
  function IsOnWord(b: Board, mask: Word, out: Word): (r: Word)
    ensures Pins(r) == L.IsOnWord(WiringOf(b), Pins(mask), Pins(out))
  {
    hide Bit, Pins;
    PinsXor(out, b.ledsInvMask);
    PinsAnd(mask, out ^ b.ledsInvMask);
    mask & (out ^ b.ledsInvMask)
  }

  ghost function WiringOf(b: Board): L.Wiring {
    L.Wiring(b.ledList, Pins(LedsMask(b)), Pins(b.ledsInvMask), b.ledsActiveHigh)
  }

  /** `cnf` with the word of every pin in `pins` replaced by `value`. */
  ghost function Configured(cnf: seq<Word>, pins: set<nat>, value: Word): (r: seq<Word>)
    ensures |r| == |cnf|
  {
    seq(|cnf|, k requires 0 <= k < |cnf| => if k in pins then value else cnf[k])
  }

  /** The configured pins are outputs, and all others are as they were. */
  lemma ConfiguredOutputs(cnf: seq<Word>, pins: set<nat>)
    ensures forall k | 0 <= k < |cnf| ::
      var w := Configured(cnf, pins, OUTPUT_CNF)[k]; if k in pins then PlainOutput(w) else w == cnf[k]
  {
    OutputFields();
    hide PlainOutput;
  }

  /** The configured pins are inputs with the given pull, and all others are as they were. */
  lemma ConfiguredInputs(cnf: seq<Word>, pins: set<nat>, pull: Word)
    requires pull < 4
    ensures forall k | 0 <= k < |cnf| ::
      var w := Configured(cnf, pins, InputCnf(pull))[k]; if k in pins then PulledInput(w, pull) else w == cnf[k]
  {
    InputFields(pull);
    hide PulledInput, InputCnf;
  }

  /** The pins of the mask with smaller numbers than `n`. */
  ghost function PinsBelow(mask: Word, n: nat): set<nat> {
    set p | p in Pins(mask) && p < n
  }

  lemma PinsBelowNext(mask: Word, pin: nat)
    requires pin < 32
    ensures PinsBelow(mask, pin + 1) == PinsBelow(mask, pin) + if mask & PinMask(pin) != 0 then {pin} else {}
  {
    hide Bit, Pins, PinMask;
    PinsOfMask(pin);
    PinsTest(mask, PinMask(pin), pin);
  }

  lemma PinsBelowAll(mask: Word)
    ensures PinsBelow(mask, 0) == {} && PinsBelow(mask, 32) == Pins(mask)
  {
    assert forall p | p in Pins(mask) :: p < 32;
    hide Bit, Pins;
  }

  class Bsp {
    const board: Board
    const port: Port

    constructor (board: Board, port: Port)
      requires ValidBoard(board) && port.Valid()
      ensures this.board == board && this.port == port && Valid()
    {
      this.board, this.port := board, port;
    }

    ghost predicate Valid() {
      ValidBoard(board) && port.Valid()
    }

    /** The port's `OUT` register as the set of its high pins. */
    ghost function Out(): set<nat>
      reads port
    {
      Pins(port.out)
    }

    ghost function Wiring(): L.Wiring {
      WiringOf(board)
    }

    // ---------- Index interface ----------

    method LedStateGet(led: nat) returns (on: bool)
      requires Valid() && led < |board.ledList|
      ensures on <==> led in L.Lit(Wiring(), Out())
    {
      var pinSet := port.PinOutRead(board.ledList[led]);
      on := pinSet == board.ledsActiveHigh;
    }

    method LedOn(led: nat)
      requires Valid() && led < |board.ledList|
      modifies port`out
      ensures Out() == L.Exec(Wiring(), L.On(led), old(Out()))
    {
      port.PinWrite(board.ledList[led], if board.ledsActiveHigh then 1 else 0);
    }

    method LedOff(led: nat)
      requires Valid() && led < |board.ledList|
      modifies port`out
      ensures Out() == L.Exec(Wiring(), L.Off(led), old(Out()))
    {
      port.PinWrite(board.ledList[led], if board.ledsActiveHigh then 0 else 1);
    }

    method LedInvert(led: nat)
      requires Valid() && led < |board.ledList|
      modifies port`out
      ensures Out() == L.Exec(Wiring(), L.Invert(led), old(Out()))
    {
      port.PinToggle(board.ledList[led]);
    }

    method LedsOff()
      requires Valid()
      modifies port`out
      ensures Out() == L.Exec(Wiring(), L.AllOff, old(Out()))
    {
      var leds := board.ledList;
      for i := 0 to |leds|
        invariant Out() == L.DriveAll(leds[..i], !board.ledsActiveHigh, old(Out()))
      {
        LedOff(i);
        assert leds[..i + 1][..i] == leds[..i];
      }
      assert leds[..|leds|] == leds;
    }

    method LedsOn()
      requires Valid()
      modifies port`out
      ensures Out() == L.Exec(Wiring(), L.AllOn, old(Out()))
    {
      var leds := board.ledList;
      for i := 0 to |leds|
        invariant Out() == L.DriveAll(leds[..i], board.ledsActiveHigh, old(Out()))
      {
        LedOn(i);
        assert leds[..i + 1][..i] == leds[..i];
      }
      assert leds[..|leds|] == leds;
    }

    /** Makes the listed pins, and no other, outputs and switches all LEDs off. */
    method LedsInit()
      requires Valid()
      modifies port`out, port.pinCnf
      ensures Out() == L.Exec(Wiring(), L.AllOff, old(Out()))
      ensures L.Lit(Wiring(), Out()) == {}
      ensures forall p | 0 <= p < NUMBER_OF_PINS ::
        if p in board.ledList then PlainOutput(port.pinCnf[p]) else port.pinCnf[p] == old(port.pinCnf[p])
      ensures port.pinCnf[..] == Configured(old(port.pinCnf[..]), (set p | p in board.ledList), OUTPUT_CNF)
      ensures L.MaskCoversList(Wiring()) ==>
        port.pinCnf[..] == Configured(old(port.pinCnf[..]), Pins(LedsMask(board)), OUTPUT_CNF)
    {
      ghost var cnf := port.pinCnf[..];
      var leds := board.ledList;
      for i := 0 to |leds|
        invariant port.out == old(port.out)
        invariant port.pinCnf[..] == Configured(cnf, (set p | p in leds[..i]), OUTPUT_CNF)
      {
        port.CfgOutput(leds[i]);
        assert forall p :: p in leds[..i + 1] <==> p in leds[..i] || p == leds[i];
      }
      assert leds[..|leds|] == leds;
      LedsOff();
      L.StepRefines(Wiring(), L.AllOff, old(Out()));
      ConfiguredOutputs(cnf, (set p | p in board.ledList));
      hide PlainOutput;
    }

    /** The least index that holds the pin, or NO_INDEX when the pin is not listed. */
    method PinToLedIdx(pin: nat) returns (ret: nat)
      requires Valid()
      ensures ret == Lookup(board.ledList, pin)
    {
      var leds := board.ledList;
      ret := NO_INDEX;
      for i := 0 to |leds|
        invariant ret == NO_INDEX
        invariant pin !in leds[..i]
      {
        if leds[i] == pin {
          ret := i;
          LookupFound(leds, pin, i);
          break;
        }
        assert leds[..i + 1] == leds[..i] + [leds[i]];
      }
      if ret == NO_INDEX {
        assert leds[..|leds|] == leds;
        LookupMissing(leds, pin);
      }
    }

    /** The pin at the index, which is converted back to that index, or to a smaller one that holds the same pin. */
    function LedIdxToPin(led: nat): (pin: nat)
      requires Valid() && led < |board.ledList|
      ensures pin == board.ledList[led]
      ensures Lookup(board.ledList, pin) <= led && board.ledList[Lookup(board.ledList, pin)] == pin
    {
      LookupIsLeastIndex(board.ledList, board.ledList[led]);
      board.ledList[led]
    }

    // ---------- Mask interface ----------

    method MaskOff(mask: Word)
      requires Valid()
      modifies port`out
      ensures Out() == L.Exec(Wiring(), L.MaskOff(Pins(mask)), old(Out()))
    {
      hide Bit, Pins, InvertedLeds, PlainLeds;
      port.WriteOutSet(InvertedLeds(board, mask));
      port.WriteOutClr(PlainLeds(board, mask));
    }

    method MaskOn(mask: Word)
      requires Valid()
      modifies port`out
      ensures Out() == L.Exec(Wiring(), L.MaskOn(Pins(mask)), old(Out()))
    {
      hide Bit, Pins, InvertedLeds, PlainLeds;
      port.WriteOutClr(InvertedLeds(board, mask));
      port.WriteOutSet(PlainLeds(board, mask));
    }

    method MaskInvert(mask: Word)
      requires Valid()
      modifies port`out
      ensures Out() == L.Exec(Wiring(), L.MaskInvert(Pins(mask)), old(Out()))
    {
      port.InvertMask(mask);
    }

    function LedIsOn(mask: Word): (r: Word)
      reads port
      ensures Pins(r) == set p | p in Pins(mask) && (p in Out() <==> p !in Pins(board.ledsInvMask))
      ensures Pins(r) == L.IsOnWord(Wiring(), Pins(mask), Out())
    {
      hide Bit, Pins;
      IsOnWord(board, mask, port.out)
    }

    /** Makes the pins of the mask, and no other, outputs. */
    method LedsConfigure(mask: Word)
      requires Valid()
      modifies port.pinCnf
      ensures port.pinCnf[..] == Configured(old(port.pinCnf[..]), Pins(mask), OUTPUT_CNF)
      ensures forall p | 0 <= p < NUMBER_OF_PINS ::
        if p in Pins(mask) then PlainOutput(port.pinCnf[p]) else port.pinCnf[p] == old(port.pinCnf[p])
    {
      hide Bit, Pins, PinMask, PinsBelow;
      ghost var cnf := port.pinCnf[..];
      PinsBelowAll(mask);
      for pin := 0 to 32
        invariant port.pinCnf[..] == Configured(cnf, PinsBelow(mask, pin), OUTPUT_CNF)
      {
        PinsBelowNext(mask, pin);
        if mask & PinMask(pin) != 0 {
          port.CfgOutput(pin);
        }
      }
      ConfiguredOutputs(cnf, Pins(mask));
      hide PlainOutput;
    }

    // ---------- Buttons ----------

    method ButtonStateGet(button: nat) returns (pressed: bool)
      requires Valid() && button < |board.buttonList|
      ensures pressed <==> (board.buttonList[button] in Pins(port.input) <==> board.buttonsActiveHigh)
    {
      var pinSet := port.PinRead(board.buttonList[button]);
      pressed := pinSet == board.buttonsActiveHigh;
    }

    /** Makes the listed pins, and no other, inputs with the board's pull setting. */
    method ButtonsInit()
      requires Valid()
      modifies port.pinCnf
      ensures port.pinCnf[..] ==
        Configured(old(port.pinCnf[..]), (set p | p in board.buttonList), InputCnf(board.buttonPull))
      ensures board.buttonPull < 4 ==> forall p | 0 <= p < NUMBER_OF_PINS ::
        if p in board.buttonList then PulledInput(port.pinCnf[p], board.buttonPull)
        else port.pinCnf[p] == old(port.pinCnf[p])
    {
      ghost var cnf := port.pinCnf[..];
      var buttons := board.buttonList;
      for i := 0 to |buttons|
        invariant port.pinCnf[..] == Configured(cnf, (set p | p in buttons[..i]), InputCnf(board.buttonPull))
      {
        port.CfgInput(buttons[i], board.buttonPull);
        assert forall p :: p in buttons[..i + 1] <==> p in buttons[..i] || p == buttons[i];
      }
      assert buttons[..|buttons|] == buttons;
      if board.buttonPull < 4 {
        ConfiguredInputs(cnf, (set p | p in board.buttonList), board.buttonPull);
      }
      hide PulledInput, InputCnf;
    }

    method PinToButtonIdx(pin: nat) returns (ret: nat)
      requires Valid()
      ensures ret == Lookup(board.buttonList, pin)
    {
      var buttons := board.buttonList;
      ret := NO_INDEX;
      for i := 0 to |buttons|
        invariant ret == NO_INDEX
        invariant pin !in buttons[..i]
      {
        if buttons[i] == pin {
          ret := i;
          LookupFound(buttons, pin, i);
          break;
        }
        assert buttons[..i + 1] == buttons[..i] + [buttons[i]];
      }
      if ret == NO_INDEX {
        assert buttons[..|buttons|] == buttons;
        LookupMissing(buttons, pin);
      }
    }

    /** The pin at the index, which is converted back to that index, or to a smaller one that holds the same pin. */
    function ButtonIdxToPin(button: nat): (pin: nat)
      requires Valid() && button < |board.buttonList|
      ensures pin == board.buttonList[button]
      ensures Lookup(board.buttonList, pin) <= button && board.buttonList[Lookup(board.buttonList, pin)] == pin
    {
      LookupIsLeastIndex(board.buttonList, board.buttonList[button]);
      board.buttonList[button]
    }
  }

  // ---------- Pin lookup ----------

  /** The position of the pin counted from the front; NO_INDEX when there is none. */
  function Lookup(pins: seq<nat>, pin: nat): nat {
    if pins == [] then NO_INDEX
    else if pins[0] == pin then 0
    else
      var rest := Lookup(pins[1..], pin);
      if rest == NO_INDEX then NO_INDEX else rest + 1
  }

  /** Absent pins, and only they, are reported as 0xFFFFFFFF; otherwise the least index is returned. */
  lemma {:induction false} LookupIsLeastIndex(pins: seq<nat>, pin: nat)
    requires |pins| <= NO_INDEX
    ensures Lookup(pins, pin) == 0xFFFF_FFFF <==> pin !in pins
    ensures
      var i := Lookup(pins, pin);
      i != NO_INDEX ==> i < |pins| && pins[i] == pin && pin !in pins[..i]
  {
    if pins != [] && pins[0] != pin {
      LookupIsLeastIndex(pins[1..], pin);
      var i := Lookup(pins, pin);
      if i != NO_INDEX {
        assert pins[..i] == [pins[0]] + pins[1..][..i - 1];
      }
    }
  }

  lemma LookupFound(pins: seq<nat>, pin: nat, i: nat)
    requires |pins| <= NO_INDEX && i < |pins| && pins[i] == pin && pin !in pins[..i]
    ensures Lookup(pins, pin) == i
  {
    LookupIsLeastIndex(pins, pin);
  }

  lemma LookupMissing(pins: seq<nat>, pin: nat)
    requires |pins| <= NO_INDEX && pin !in pins
    ensures Lookup(pins, pin) == NO_INDEX
  {
  }

  /**
    Index to pin undoes pin to index on listed pins; pin to index undoes index
    to pin on all indices exactly when no pin is listed twice.
   */
  lemma {:induction false} LookupRoundTrips(pins: seq<nat>)
    requires |pins| <= NO_INDEX
    ensures forall pin | pin in pins :: Lookup(pins, pin) < |pins| && pins[Lookup(pins, pin)] == pin
    ensures L.Distinct(pins) <==> forall i: nat | i < |pins| :: Lookup(pins, pins[i]) == i
  {
    forall pin | pin in pins
      ensures Lookup(pins, pin) < |pins| && pins[Lookup(pins, pin)] == pin
    {
      LookupIsLeastIndex(pins, pin);
    }
    if L.Distinct(pins) {
      forall i: nat | i < |pins|
        ensures Lookup(pins, pins[i]) == i
      {
        LookupFound(pins, pins[i], i);
      }
    }
  }

  // ---------- The two interfaces on the same register ----------

  /**
    The words that the loop over all LEDs and the mask macro on LEDS_MASK leave
    in `OUT` are the same word exactly when the polarity agrees.
   */
  lemma LoopAndMaskLeaveSameWord(b: Board, before: Word, looped: Word, masked: Word)
    requires L.MaskCoversList(WiringOf(b))
    requires
      var w := WiringOf(b);
      || (Pins(looped) == L.Exec(w, L.AllOn, Pins(before))
          && Pins(masked) == L.Exec(w, L.MaskOn(w.mask), Pins(before)))
      || (Pins(looped) == L.Exec(w, L.AllOff, Pins(before))
          && Pins(masked) == L.Exec(w, L.MaskOff(w.mask), Pins(before)))
    ensures looped == masked <==> L.PolarityAgrees(WiringOf(b))
  {
    hide Bit, Pins;
    L.LoopIsMaskOperation(WiringOf(b), Pins(before));
    if Pins(looped) == Pins(masked) {
      PinsInjective(looped, masked);
    }
  }

  /** LED_IS_ON has the bit of an LED of the mask exactly when that LED is lit, on a board with agreeing polarity. */
  lemma LedIsOnBits(b: Board, mask: Word, out: Word, i: nat)
    requires L.Consistent(WiringOf(b)) && i < |b.ledList|
    ensures b.ledList[i] in Pins(IsOnWord(b, mask, out))
       <==> b.ledList[i] in Pins(mask) && i in L.Lit(WiringOf(b), Pins(out))
  {
    hide Bit, Pins, IsOnWord;
    var w := WiringOf(b);
    assert w.leds[i] in w.mask;
    L.IsOnBit(w, Pins(mask), Pins(out), b.ledList[i]);
  }

  /** For a mask of LED pins, LED_IS_ON is nonzero exactly when one of these LEDs is lit. */
  lemma LedIsOnNonzero(b: Board, mask: Word, out: Word)
    requires L.Consistent(WiringOf(b)) && Pins(mask) <= Pins(LedsMask(b))
    ensures IsOnWord(b, mask, out) != 0
      <==> exists i: nat :: i < |b.ledList| && b.ledList[i] in Pins(mask) && i in L.Lit(WiringOf(b), Pins(out))
  {
    hide Bit, Pins, IsOnWord;
    var w := WiringOf(b);
    PinsEmpty(IsOnWord(b, mask, out));
    L.IsOnMeansSomeLit(w, Pins(mask), Pins(out));
    var both := L.LedsOf(w, Pins(mask)) * L.Lit(w, Pins(out));
    if both != {} {
      var i :| i in both;
      assert i < |b.ledList| && b.ledList[i] in Pins(mask) && i in L.Lit(w, Pins(out));
    }
    if i: nat :| i < |b.ledList| && b.ledList[i] in Pins(mask) && i in L.Lit(w, Pins(out)) {
      assert i in both;
    }
  }

  // ---------- Shipped boards ----------

  function Slots(leds: seq<Pin>): seq<Option<Pin>> {
    seq(8, k requires 0 <= k < 8 => if k < |leds| then Some(leds[k]) else None)
  }

  /** A board whose BSP_LED_k are the entries of LEDS_LIST. */
  function MakeBoard(leds: seq<Pin>, buttons: seq<Pin>, activeHigh: bool, inv: Word, pull: Word): Board {
    Board(leds, Slots(leds), activeHigh, inv, buttons, activeHigh, pull)
  }

  const PULL_UP: Word := 3

  const PCA10040: Board :=
    MakeBoard([17, 18, 19, 20], [13, 14, 15, 16], false, SlotsMask(Slots([17, 18, 19, 20])), PULL_UP)
  const NRF6310: Board :=
    MakeBoard([8, 9, 10, 11, 12, 13, 14, 15], [0, 1, 2, 3, 4, 5, 6, 7], true, 0, PULL_DISABLED)
  const WT51822: Board :=
    MakeBoard([3, 4, 5], [0, 1, 2], false, SlotsMask(Slots([3, 4, 5])), PULL_UP)
  const D52_STARTERKIT: Board :=
    MakeBoard([24, 31, 17, 20], [6, 7, 16, 19], false, SlotsMask(Slots([24, 31, 17, 20])), PULL_UP)
  const N5_STARTERKIT: Board :=
    MakeBoard([8, 3, 15, 30], [23, 2, 12, 11], false, SlotsMask(Slots([8, 3, 15, 30])), PULL_UP)
  const ARDUINO_PRIMO: Board :=
    MakeBoard([25], [7], false, 0, PULL_UP)

  /** LEDS_MASK covers LEDS_LIST whenever BSP_LED_k are the list's entries and there are at most eight. */
  lemma SlotsCoverList(leds: seq<Pin>)
    requires |leds| <= 8
    ensures Pins(SlotsMask(Slots(leds))) == set p | p in leds
  {
    hide Bit, Pins;
    SlotsMaskPins(Slots(leds));
    forall p: Pin
      ensures Some(p) in Slots(leds) <==> p in leds
    {
      if p in leds {
        var k :| 0 <= k < |leds| && leds[k] == p;
        assert Slots(leds)[k] == Some(p);
      }
    }
  }

  lemma ActiveLowBoard(leds: seq<Pin>, buttons: seq<Pin>, pull: Word)
    requires |leds| <= 8 && L.Distinct(leds)
    ensures L.Consistent(WiringOf(MakeBoard(leds, buttons, false, SlotsMask(Slots(leds)), pull)))
  {
    hide Bit, Pins;
    SlotsCoverList(leds);
  }

  lemma ActiveHighBoard(leds: seq<Pin>, buttons: seq<Pin>, pull: Word)
    requires |leds| <= 8 && L.Distinct(leds)
    ensures L.Consistent(WiringOf(MakeBoard(leds, buttons, true, 0, pull)))
  {
    hide Bit, Pins;
    SlotsCoverList(leds);
    PinsEmpty(0);
  }

  /** On these boards the two LED interfaces agree. */
  lemma ShippedBoards()
    ensures L.Consistent(WiringOf(PCA10040)) && L.Consistent(WiringOf(NRF6310)) && L.Consistent(WiringOf(WT51822))
    ensures L.Consistent(WiringOf(D52_STARTERKIT)) && L.Consistent(WiringOf(N5_STARTERKIT))
  {
    hide Bit, Pins, SlotsMask, Slots;
    ActiveLowBoard([17, 18, 19, 20], [13, 14, 15, 16], PULL_UP);
    ActiveHighBoard([8, 9, 10, 11, 12, 13, 14, 15], [0, 1, 2, 3, 4, 5, 6, 7], PULL_DISABLED);
    ActiveLowBoard([3, 4, 5], [0, 1, 2], PULL_UP);
    ActiveLowBoard([24, 31, 17, 20], [6, 7, 16, 19], PULL_UP);
    ActiveLowBoard([8, 3, 15, 30], [23, 2, 12, 11], PULL_UP);
  }

  /** The words of one of these boards, as the registers see them. */
  lemma Pca10040Words()
    ensures Pins(LedsMask(PCA10040)) == {17, 18, 19, 20} && PCA10040.ledsInvMask == LedsMask(PCA10040)
    ensures OUTPUT_CNF == 3 && InputCnf(PCA10040.buttonPull) == 12
  {
    hide Bit, Pins, SlotsMask, Slots;
    SlotsCoverList([17, 18, 19, 20]);
  }

  /** The Arduino Primo is active low with inverse mask zero: LEDS_ON always switches its LED off. */
  lemma ArduinoPrimoMiswired(mask: Word, out: Word)
    ensures !L.PolarityAgrees(WiringOf(ARDUINO_PRIMO))
    ensures 25 in Pins(mask) ==>
      L.Lit(WiringOf(ARDUINO_PRIMO), L.Exec(WiringOf(ARDUINO_PRIMO), L.MaskOn(Pins(mask)), Pins(out))) == {}
  {
    hide Bit, Pins, SlotsMask, Slots;
    SlotsCoverList([25]);
    PinsEmpty(0);
    assert 25 in WiringOf(ARDUINO_PRIMO).mask;
    L.MaskOnExactly(WiringOf(ARDUINO_PRIMO), Pins(mask), Pins(out));
  }
}
