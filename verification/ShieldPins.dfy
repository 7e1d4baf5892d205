/** The pins of the power IO shield: the numbers the GPIO interface uses and the bits of the IO expander behind it
    (drivers/power_io_shield/hardware.h, drivers/power_io_shield/power_io_shield.c:110-162). */
module ShieldPins {
  import opened BitWords

  const INPUT_BASE: nat := 0x00
  const OUTPUT_BASE: nat := 0x08
  const FAULT_BASE: nat := 0x10

  const INPUT_PINS_START: nat := 8
  const OUTPUT_PINS_START: nat := 2
  const FAULT0_PIN: nat := 14
  const FAULT1_PIN: nat := 0
  const FAULT2_PIN: nat := 1

  const INPUT_PINS_MASK: nat := Shl(0x3F, INPUT_PINS_START)
  const OUTPUT_PINS_MASK: nat := Shl(0x3F, OUTPUT_PINS_START)
  const HARD_INVERT_PINS: nat := INPUT_PINS_MASK

  /** Six inputs, six outputs and three fault lines; the GPIO interface admits no other pin. */
  predicate IsPin(pin: nat)
  {
    pin < 6 || 8 <= pin < 14 || 16 <= pin < 19
  }

  predicate IsInput(pin: nat)
  {
    pin < 6
  }

  predicate IsOutput(pin: nat)
  {
    8 <= pin < 14
  }

  predicate CanInterrupt(pin: nat)
  {
    IsPin(pin) && !IsOutput(pin)
  }

  /** A pin's number without its lowest three bits, and these. */
  function Base(pin: nat): nat
  {
    pin - pin % 8
  }

  function Index(pin: nat): nat
  {
    pin % 8
  }

  function PinToBit(pin: nat): (bit: nat)
    ensures bit < 16
  {
    if Base(pin) == INPUT_BASE then Index(pin) + INPUT_PINS_START
    else if Base(pin) == OUTPUT_BASE then Index(pin) + OUTPUT_PINS_START
    else if Base(pin) == FAULT_BASE then
      if Index(pin) == 0 then FAULT0_PIN else if Index(pin) == 1 then FAULT1_PIN
      else if Index(pin) == 2 then FAULT2_PIN else 0
    else 0
  }

  /** One bit, moved to the lowest place. */
  function Lowest(bits: nat, bit: nat): nat
  {
    And(Shr(bits, bit), 1)
  }

  function FaultValues(bits: nat): nat
  {
    Or(Or(Lowest(bits, FAULT0_PIN), Shl(Lowest(bits, FAULT1_PIN), 1)), Shl(Lowest(bits, FAULT2_PIN), 2))
  }

  function BitsToPins(bits: nat): nat
  {
    var inputValues := Shr(And(bits, INPUT_PINS_MASK), INPUT_PINS_START);
    var outputValues := Shr(And(bits, OUTPUT_PINS_MASK), OUTPUT_PINS_START);
    Or(Or(Shl(inputValues, INPUT_BASE), Shl(outputValues, OUTPUT_BASE)), Shl(FaultValues(bits), FAULT_BASE))
  }

  lemma MaskBit(start: nat, bit: nat)
    ensures Has(Shl(0x3F, start), bit) <==> start <= bit < start + 6
  {
    ShlBit(0x3F, start, bit);
    assert Ones(6) == 0x3F;
    if bit >= start {
      OnesBit(6, bit - start);
    }
  }

  lemma LowestBit(bits: nat, bit: nat, k: nat)
    ensures Has(Lowest(bits, bit), k) <==> k == 0 && Has(bits, bit)
  {
    AndBit(Shr(bits, bit), 1, k);
    ShrBit(bits, bit, k);
    OneBit(0, k);
  }

  /** Different pins have different bits. */
  lemma BitsApart(p: nat, q: nat)
    requires IsPin(p) && IsPin(q) && PinToBit(p) == PinToBit(q)
    ensures p == q
  {
  }

  lemma FaultBit(bits: nat, k: nat)
    ensures Has(FaultValues(bits), k)
            <==> (k == 0 && Has(bits, 14)) || (k == 1 && Has(bits, 0)) || (k == 2 && Has(bits, 1))
  {
    var one, two := Shl(Lowest(bits, FAULT1_PIN), 1), Shl(Lowest(bits, FAULT2_PIN), 2);
    OrBit(Or(Lowest(bits, FAULT0_PIN), one), two, k);
    OrBit(Lowest(bits, FAULT0_PIN), one, k);
    LowestBit(bits, FAULT0_PIN, k);
    ShlBit(Lowest(bits, FAULT1_PIN), 1, k);
    ShlBit(Lowest(bits, FAULT2_PIN), 2, k);
    if k >= 1 {
      LowestBit(bits, FAULT1_PIN, k - 1);
    }
    if k >= 2 {
      LowestBit(bits, FAULT2_PIN, k - 2);
    }
  }

  /** Six bits from `start` on, moved to `base`. */
  lemma GroupBit(bits: nat, start: nat, base: nat, k: nat)
    ensures Has(Shl(Shr(And(bits, Shl(0x3F, start)), start), base), k)
            <==> base <= k < base + 6 && Has(bits, k - base + start)
  {
    var group := And(bits, Shl(0x3F, start));
    ShlBit(Shr(group, start), base, k);
    if k >= base {
      ShrBit(group, start, k - base);
      AndBit(bits, Shl(0x3F, start), k - base + start);
      MaskBit(start, k - base + start);
    }
  }

  lemma BitOfPin(pin: nat)
    requires IsPin(pin)
    ensures PinToBit(pin) == if pin < 6 then pin + 8 else if pin < 14 then pin - 6 else if pin == 16 then 14 else pin - 17
  {
  }

  /** The two mappings undo each other: a pin is in the image of a word if and only if its bit is in the word. */
  lemma PinsOfBits(bits: nat, pin: nat)
    ensures Has(BitsToPins(bits), pin) <==> IsPin(pin) && Has(bits, PinToBit(pin))
  {
    var inputs := Shl(Shr(And(bits, INPUT_PINS_MASK), INPUT_PINS_START), INPUT_BASE);
    var outputs := Shl(Shr(And(bits, OUTPUT_PINS_MASK), OUTPUT_PINS_START), OUTPUT_BASE);
    OrBit(Or(inputs, outputs), Shl(FaultValues(bits), FAULT_BASE), pin);
    OrBit(inputs, outputs, pin);
    GroupBit(bits, INPUT_PINS_START, INPUT_BASE, pin);
    GroupBit(bits, OUTPUT_PINS_START, OUTPUT_BASE, pin);
    ShlBit(FaultValues(bits), FAULT_BASE, pin);
    if pin >= FAULT_BASE {
      FaultBit(bits, pin - FAULT_BASE);
    }
    if IsPin(pin) {
      BitOfPin(pin);
    }
  }

  /** The image of a pin's bit is that pin alone. */
  lemma PinOfOne(pin: nat, other: nat)
    requires IsPin(pin)
    ensures Has(BitsToPins(One(PinToBit(pin))), other) <==> other == pin
  {
    PinsOfBits(One(PinToBit(pin)), other);
    OneBit(PinToBit(pin), PinToBit(other));
    if IsPin(other) && PinToBit(pin) == PinToBit(other) {
      BitsApart(pin, other);
    }
  }
}
