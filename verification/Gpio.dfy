/**
  The GPIO port of a chip with one port, and the pin functions of the GPIO
  abstraction layer that the board support uses.

  `OUTSET` and `OUTCLR` are write-only views of `OUT`: writing a word to them
  sets, respectively clears, exactly the bits that are one in the word.
 */
module Gpio {

  import opened Words

  const NUMBER_OF_PINS := 32

  // Fields of a PIN_CNF word.
  const DIR_OUTPUT: Word := 1
  const INPUT_DISCONNECT: Word := 1
  const PULL_DISABLED: Word := 0

  /** PIN_CNF word with standard drive and no sensing, both of which are encoded as zero. */
  function CnfWord(dir: Word, input: Word, pull: Word): Word {
    (dir << 0) | (input << 1) | (pull << 2)
  }

  const OUTPUT_CNF: Word := CnfWord(DIR_OUTPUT, INPUT_DISCONNECT, PULL_DISABLED)

  function InputCnf(pull: Word): Word {
    CnfWord(0, 0, pull)
  }

  // What a PIN_CNF word says, field by field.

  /** DIR: the pin drives its level. */
  predicate IsOutput(cnf: Word) {
    cnf & 1 == 1
  }

  /** INPUT: the input buffer is connected, so that the pin's level can be read. */
  predicate InputConnected(cnf: Word) {
    cnf & 2 == 0
  }

  /** PULL: 0 is none, 1 is down, 3 is up. */
  function PullOf(cnf: Word): Word {
    (cnf >> 2) & 3
  }

  /** DRIVE and SENSE: standard drive and no sensing. */
  predicate StandardDriveNoSense(cnf: Word) {
    cnf >> 4 == 0
  }

  /** A pin configured as an output drives its level and does nothing else. */
  predicate PlainOutput(cnf: Word) {
    IsOutput(cnf) && !InputConnected(cnf) && PullOf(cnf) == 0 && StandardDriveNoSense(cnf)
  }

  /** A pin configured as an input can be read and is pulled as given. */
  predicate PulledInput(cnf: Word, pull: Word) {
    !IsOutput(cnf) && InputConnected(cnf) && PullOf(cnf) == pull && StandardDriveNoSense(cnf)
  }

  lemma OutputFields()
    ensures PlainOutput(OUTPUT_CNF)
  {
  }

  lemma InputFields(pull: Word)
    requires pull < 4
    ensures PulledInput(InputCnf(pull), pull)
  {
  }

  class Port {
    var out: Word
    var input: Word
    const pinCnf: array<Word>

    constructor (out: Word, input: Word)
      ensures this.out == out && this.input == input
      ensures Valid() && fresh(pinCnf)
    {
      this.out, this.input := out, input;
      pinCnf := new Word[NUMBER_OF_PINS];
    }

    ghost predicate Valid() {
      pinCnf.Length == NUMBER_OF_PINS
    }

    // Register writes, as the hardware performs them.

    method WriteOutSet(mask: Word)
      modifies this`out
      ensures Pins(out) == Pins(old(out)) + Pins(mask)
    {
      PinsOr(out, mask);
      out := out | mask;
    }

    method WriteOutClr(mask: Word)
      modifies this`out
      ensures Pins(out) == Pins(old(out)) - Pins(mask)
    {
      PinsAndNot(out, mask);
      out := out & !mask;
    }

    /**
      Flips the pins of `mask` without storing to `OUT`: sets those that a
      snapshot has clear, then clears those that it has set.
     */
    method InvertMask(mask: Word)
      modifies this`out
      ensures Pins(out) == (Pins(old(out)) - Pins(mask)) + (Pins(mask) - Pins(old(out)))
    {
      hide Bit, Pins;
      var state := out;
      var unset, raised := mask & !state, mask & state;
      PinsAndNot(mask, state);
      PinsAnd(mask, state);
      WriteOutSet(unset);
      WriteOutClr(raised);
    }

    // Pin functions.

    method PinSet(pin: nat)
      requires pin < NUMBER_OF_PINS
      modifies this`out
      ensures Pins(out) == Pins(old(out)) + {pin}
    {
      PinsOfMask(pin);
      WriteOutSet(PinMask(pin));
    }

    method PinClear(pin: nat)
      requires pin < NUMBER_OF_PINS
      modifies this`out
      ensures Pins(out) == Pins(old(out)) - {pin}
    {
      PinsOfMask(pin);
      WriteOutClr(PinMask(pin));
    }

    method PinWrite(pin: nat, value: nat)
      requires pin < NUMBER_OF_PINS
      modifies this`out
      ensures Pins(out) == if value == 0 then Pins(old(out)) - {pin} else Pins(old(out)) + {pin}
    {
      if value == 0 {
        PinClear(pin);
      } else {
        PinSet(pin);
      }
    }

    method PinToggle(pin: nat)
      requires pin < NUMBER_OF_PINS
      modifies this`out
      ensures Pins(out) == (Pins(old(out)) - {pin}) + ({pin} - Pins(old(out)))
    {
      PinsOfMask(pin);
      InvertMask(PinMask(pin));
    }

    predicate PinOutRead(pin: nat)
      requires pin < NUMBER_OF_PINS
      reads this
      ensures PinOutRead(pin) <==> pin in Pins(out)
    {
      Bit(out, pin)
    }

    predicate PinRead(pin: nat)
      requires pin < NUMBER_OF_PINS
      reads this
      ensures PinRead(pin) <==> pin in Pins(input)
    {
      Bit(input, pin)
    }

    method CfgOutput(pin: nat)
      requires Valid() && pin < NUMBER_OF_PINS
      modifies pinCnf
      ensures pinCnf[..] == old(pinCnf[..])[pin := OUTPUT_CNF]
    {
      pinCnf[pin] := OUTPUT_CNF;
    }

    method CfgInput(pin: nat, pull: Word)
      requires Valid() && pin < NUMBER_OF_PINS
      modifies pinCnf
      ensures pinCnf[..] == old(pinCnf[..])[pin := InputCnf(pull)]
    {
      pinCnf[pin] := InputCnf(pull);
    }
  }
}
