/** How the cached words of the power IO shield driver encode one configuration for each pin
    (drivers/power_io_shield/power_io_shield.c:55-63, 173-223, 246-278 and 374-476). */
module ShieldConfig {
  import opened BitWords
  import opened ShieldPins

  datatype Mode = Disabled | LevelMode | EdgeMode | OtherMode

  datatype Trigger = TrigHigh | TrigLow | TrigBoth | TrigOther

  /** The interrupt words of the driver. */
  datatype Words = Words(gpinten: Word, intcon: Word, defval: Word, rising: Word, falling: Word)

  /** What the words mean for one pin, in logical levels: inputs are inverted between the outside and the expander. */
  datatype PinConfig = Off | Level(high: bool) | Edge(rising: bool, falling: bool)

  function ConfigOf(w: Words, pin: nat): PinConfig
  {
    Decoded(BitsAt(w, PinToBit(pin)), IsInput(pin))
  }

  /** One bit of each word. */
  datatype Bits = Bits(gpinten: bool, intcon: bool, defval: bool, rising: bool, falling: bool)

  function BitsAt(w: Words, bit: nat): Bits
  {
    Bits(Has(w.gpinten, bit), Has(w.intcon, bit), Has(w.defval, bit), Has(w.rising, bit), Has(w.falling, bit))
  }

  function Decoded(b: Bits, inverted: bool): PinConfig
  {
    if !b.gpinten then Off
    else if b.intcon then Level(b.defval == inverted)
    else if inverted then Edge(b.falling, b.rising)
    else Edge(b.rising, b.falling)
  }

  /** What a caller asks for. */
  function Asked(mode: Mode, trig: Trigger): PinConfig
    requires Accepted(mode, trig)
  {
    match mode
    case Disabled => Off
    case LevelMode => Level(trig == TrigHigh)
    case EdgeMode => Edge(trig != TrigLow, trig != TrigHigh)
  }

  predicate Accepted(mode: Mode, trig: Trigger)
  {
    match mode
    case Disabled => true
    case LevelMode => trig == TrigHigh || trig == TrigLow
    case EdgeMode => trig != TrigOther
    case OtherMode => false
  }

  /** What a configuration does to a pin's bit of one word. */
  datatype Change = Keep | Set | Clear

  function Changed(w: Word, bit: nat, c: Change): Word
    requires bit < 16
  {
    match c
    case Keep => w
    case Set => Or16(w, Bit16(bit))
    case Clear => Cleared(w, One(bit))
  }

  /** The trigger in terms of the expander's levels. */
  function Raw(trig: Trigger, bit: nat): Trigger
  {
    if And(One(bit), HARD_INVERT_PINS) == 0 then trig else Flipped(trig)
  }

  function Flipped(trig: Trigger): Trigger
  {
    match trig
    case TrigHigh => TrigLow
    case TrigLow => TrigHigh
    case other => other
  }

  datatype Plan = Plan(gpinten: Change, intcon: Change, defval: Change, rising: Change, falling: Change)

  function PlanOf(mode: Mode, raw: Trigger): Plan
  {
    match mode
    case Disabled => Plan(Clear, Clear, Clear, Keep, Keep)
    case LevelMode =>
      Plan(Set, Set, if raw == TrigHigh then Clear else if raw == TrigLow then Set else Keep, Keep, Keep)
    case EdgeMode =>
      if raw == TrigHigh then Plan(Set, Clear, Keep, Set, Clear)
      else if raw == TrigLow then Plan(Set, Clear, Keep, Clear, Set)
      else if raw == TrigBoth then Plan(Set, Clear, Keep, Set, Set)
      else Plan(Set, Clear, Keep, Keep, Keep)
    case OtherMode => Plan(Keep, Keep, Keep, Keep, Keep)
  }

  function Configured(w: Words, bit: nat, p: Plan): Words
    requires bit < 16
  {
    Words(Changed(w.gpinten, bit, p.gpinten), Changed(w.intcon, bit, p.intcon), Changed(w.defval, bit, p.defval),
          Changed(w.rising, bit, p.rising), Changed(w.falling, bit, p.falling))
  }

  lemma InvertIsInput(pin: nat)
    requires IsPin(pin)
    ensures And(One(PinToBit(pin)), HARD_INVERT_PINS) != 0 <==> IsInput(pin)
  {
    var bit, w := PinToBit(pin), And(One(PinToBit(pin)), HARD_INVERT_PINS);
    BitOfPin(pin);
    if w != 0 {
      var k := SomeBit(w);
      AndBit(One(bit), HARD_INVERT_PINS, k);
      OneBit(bit, k);
      MaskBit(INPUT_PINS_START, k);
    } else {
      AndBit(One(bit), HARD_INVERT_PINS, bit);
      OneBit(bit, bit);
      MaskBit(INPUT_PINS_START, bit);
      NothingSet(bit);
    }
  }

  function BitChanged(b: bool, c: Change): bool
  {
    match c
    case Keep => b
    case Set => true
    case Clear => false
  }

  lemma ChangedBit(w: Word, i: nat, c: Change, j: nat)
    requires i < 16
    ensures Has(Changed(w, i, c), j) <==> if i == j then BitChanged(Has(w, i), c) else Has(w, j)
  {
    OneBit(i, j);
    OrBit(w, One(i), j);
    ClearedBit(w, One(i), j);
  }

  function BitsConfigured(b: Bits, p: Plan): Bits
  {
    Bits(BitChanged(b.gpinten, p.gpinten), BitChanged(b.intcon, p.intcon), BitChanged(b.defval, p.defval),
         BitChanged(b.rising, p.rising), BitChanged(b.falling, p.falling))
  }

  /** The words change bit by bit. */
  lemma ConfiguredBits(w: Words, i: nat, p: Plan, j: nat)
    requires i < 16
    ensures BitsAt(Configured(w, i, p), j) == if i == j then BitsConfigured(BitsAt(w, i), p) else BitsAt(w, j)
  {
    ChangedBit(w.gpinten, i, p.gpinten, j);
    ChangedBit(w.intcon, i, p.intcon, j);
    ChangedBit(w.defval, i, p.defval, j);
    ChangedBit(w.rising, i, p.rising, j);
    ChangedBit(w.falling, i, p.falling, j);
  }

  lemma DecodesAsked(b: Bits, mode: Mode, trig: Trigger, inverted: bool)
    requires Accepted(mode, trig)
    ensures Decoded(BitsConfigured(b, PlanOf(mode, if inverted then Flipped(trig) else trig)), inverted) == Asked(mode, trig)
  {
  }

  /** Configuring a pin gives it exactly what was asked for, whatever the words held before, and changes no other. */
  lemma ConfiguresOnePin(w: Words, pin: nat, mode: Mode, trig: Trigger, other: nat)
    requires CanInterrupt(pin) && Accepted(mode, trig) && IsPin(other)
    ensures var w' := Configured(w, PinToBit(pin), PlanOf(mode, Raw(trig, PinToBit(pin))));
            ConfigOf(w', other) == if other == pin then Asked(mode, trig) else ConfigOf(w, other)
  {
    InvertIsInput(pin);
    if PinToBit(pin) == PinToBit(other) {
      BitsApart(pin, other);
    }
    ConfiguredBits(w, PinToBit(pin), PlanOf(mode, Raw(trig, PinToBit(pin))), PinToBit(other));
    DecodesAsked(BitsAt(w, PinToBit(pin)), mode, trig, IsInput(pin));
  }

  // ---- runs of configurations ------------------------------------------------------------------------------------

  datatype Request = Request(pin: nat, mode: Mode, trig: Trigger)

  predicate Good(r: Request)
  {
    CanInterrupt(r.pin) && Accepted(r.mode, r.trig)
  }

  function WordsAfter(requests: seq<Request>): Words
  {
    if requests == [] then Words(0, 0, 0, 0, 0)
    else
      var w, r := WordsAfter(requests[..|requests| - 1]), requests[|requests| - 1];
      if Good(r) then Configured(w, PinToBit(r.pin), PlanOf(r.mode, Raw(r.trig, PinToBit(r.pin)))) else w
  }

  /** What was last asked of a pin. */
  function LastAsked(requests: seq<Request>, pin: nat): PinConfig
  {
    if requests == [] then Off
    else
      var r := requests[|requests| - 1];
      if Good(r) && r.pin == pin then Asked(r.mode, r.trig) else LastAsked(requests[..|requests| - 1], pin)
  }

  /** Over every run the five words are, pin by pin, the map from pins to what was last asked of them. */
  lemma {:induction false} EveryRunConfigures(requests: seq<Request>, pin: nat)
    requires IsPin(pin)
    ensures ConfigOf(WordsAfter(requests), pin) == LastAsked(requests, pin)
    decreases |requests|
  {
    if requests != [] {
      EveryRunConfigures(requests[..|requests| - 1], pin);
      var r := requests[|requests| - 1];
      if Good(r) {
        ConfiguresOnePin(WordsAfter(requests[..|requests| - 1]), r.pin, r.mode, r.trig, pin);
      }
    } else {
      NothingSet(PinToBit(pin));
    }
  }

  // ---- which pins fire -------------------------------------------------------------------------------------------

  /** The driver's expression for the interrupts to report. */
  function Interrupts(w: Words, intf: Word, intcap: Word): nat
  {
    And(And(w.gpinten, intf), Or(Or(w.intcon, And(intcap, w.rising)), Cleared(w.falling, intcap)))
  }

  predicate LogicalLevel(w: Word, pin: nat)
  {
    Has(w, PinToBit(pin)) != IsInput(pin)
  }

  lemma InterruptBit(w: Words, intf: Word, intcap: Word, bit: nat)
    ensures Has(Interrupts(w, intf, intcap), bit)
            <==> && Has(w.gpinten, bit) && Has(intf, bit)
                 && (Has(w.intcon, bit) || if Has(intcap, bit) then Has(w.rising, bit) else Has(w.falling, bit))
  {
    var rising, falling := And(intcap, w.rising), Cleared(w.falling, intcap);
    AndBit(And(w.gpinten, intf), Or(Or(w.intcon, rising), falling), bit);
    AndBit(w.gpinten, intf, bit);
    OrBit(Or(w.intcon, rising), falling, bit);
    OrBit(w.intcon, rising, bit);
    AndBit(intcap, w.rising, bit);
    ClearedBit(w.falling, intcap, bit);
  }

  /** A callback is told of a pin if and only if the pin is flagged and either configured for a level, or for the edge
      to the logical level that was captured. */
  predicate Fires(w: Words, intf: Word, intcap: Word, pin: nat)
  {
    Has(intf, PinToBit(pin)) &&
    match ConfigOf(w, pin)
    case Off => false
    case Level(_) => true
    case Edge(rising, falling) => if LogicalLevel(intcap, pin) then rising else falling
  }

  lemma FiredPins(w: Words, intf: Word, intcap: Word, pin: nat)
    ensures Has(BitsToPins(Interrupts(w, intf, intcap)), pin) <==> IsPin(pin) && Fires(w, intf, intcap, pin)
  {
    PinsOfBits(Interrupts(w, intf, intcap), pin);
    InterruptBit(w, intf, intcap, PinToBit(pin));
  }

  lemma AfterOneMore(requests: seq<Request>, r: Request)
    requires Good(r)
    ensures WordsAfter(requests + [r])
            == Configured(WordsAfter(requests), PinToBit(r.pin), PlanOf(r.mode, Raw(r.trig, PinToBit(r.pin))))
  {
    assert (requests + [r])[..|requests|] == requests;
  }

  /** From the request to the report, and to the registers the expander compares by, in the numbers of pins and bits.
      Whatever was asked before: a pin whose interrupt is disabled is not reported; one configured for a level whenever
      it is flagged, and the expander then compares it with the opposite raw level; one configured for an edge when it is
      flagged and the captured logical level is the one after that edge, and the expander then compares it with its last
      level. */
  lemma ReportsWhatWasAsked(requests: seq<Request>, pin: nat, mode: Mode, trig: Trigger, intf: Word, intcap: Word)
    requires pin < 6 || 16 <= pin < 19
    requires || mode == Disabled || (mode == LevelMode && (trig == TrigHigh || trig == TrigLow))
             || (mode == EdgeMode && (trig == TrigHigh || trig == TrigLow || trig == TrigBoth))
    ensures var w := WordsAfter(requests + [Request(pin, mode, trig)]);
            var bit := if pin < 6 then pin + 8 else if pin == 16 then 14 else pin - 17;
            var reported, high := Has(BitsToPins(Interrupts(w, intf, intcap)), pin), Has(intcap, bit) != (pin < 6);
            && (mode == Disabled ==>
                  && !reported && ConfigOf(w, pin) == Off
                  && !Has(w.gpinten, bit) && !Has(w.intcon, bit) && !Has(w.defval, bit))
            && (mode == LevelMode ==>
                  && ConfigOf(w, pin) == Level(trig == TrigHigh)
                  && (reported <==> Has(intf, bit))
                  && Has(w.gpinten, bit) && Has(w.intcon, bit) && (Has(w.defval, bit) <==> (trig == TrigLow) != (pin < 6)))
            && (mode == EdgeMode ==>
                  && ConfigOf(w, pin) == Edge(trig != TrigLow, trig != TrigHigh)
                  && (reported <==> Has(intf, bit) && if high then trig != TrigLow else trig != TrigHigh)
                  && Has(w.gpinten, bit) && !Has(w.intcon, bit)
                  && (Has(w.rising, bit) <==> if pin < 6 then trig != TrigHigh else trig != TrigLow)
                  && (Has(w.falling, bit) <==> if pin < 6 then trig != TrigLow else trig != TrigHigh))
  {
    var before, bit := WordsAfter(requests), PinToBit(pin);
    var plan := PlanOf(mode, Raw(trig, bit));
    var w := Configured(before, bit, plan);
    AfterOneMore(requests, Request(pin, mode, trig));
    BitOfPin(pin);
    InvertIsInput(pin);
    ConfiguredBits(before, bit, plan, bit);
    assert BitsAt(w, bit) == BitsConfigured(BitsAt(before, bit), plan);
    PinsOfBits(Interrupts(w, intf, intcap), pin);
    InterruptBit(w, intf, intcap, bit);
  }

  /** Bits that are no input and no fault line. */
  const OTHER_BITS: nat := Or(OUTPUT_PINS_MASK, One(15))

  /** Only inputs and fault lines are ever enabled. */
  predicate OnlyInterruptPins(w: Word)
  {
    And(w, OTHER_BITS) == 0
  }

  lemma OtherBit(bit: nat)
    ensures Has(OTHER_BITS, bit) <==> 2 <= bit < 8 || bit == 15
  {
    OrBit(OUTPUT_PINS_MASK, One(15), bit);
    MaskBit(OUTPUT_PINS_START, bit);
    OneBit(15, bit);
  }

  lemma InterruptPinBit(w: Word, bit: nat)
    requires OnlyInterruptPins(w) && Has(w, bit)
    ensures bit < 2 || 8 <= bit < 15
  {
    AndBit(w, OTHER_BITS, bit);
    NothingSet(bit);
    OtherBit(bit);
    WordIsOnes();
    if bit >= 16 {
      NothingAbove(w, 16, bit);
    }
  }

  lemma StaysOnInterruptPins(g: Word, pin: nat, c: Change)
    requires CanInterrupt(pin) && OnlyInterruptPins(g)
    ensures OnlyInterruptPins(Changed(g, PinToBit(pin), c))
  {
    var g', both := Changed(g, PinToBit(pin), c), And(Changed(g, PinToBit(pin), c), OTHER_BITS);
    BitOfPin(pin);
    if both != 0 {
      var bit := SomeBit(both);
      AndBit(g', OTHER_BITS, bit);
      AndBit(g, OTHER_BITS, bit);
      NothingSet(bit);
      OtherBit(bit);
      ChangedBit(g, PinToBit(pin), c, bit);
    }
  }

  /** The pin of a bit that may be enabled. */
  lemma PinOfBit(bit: nat) returns (pin: nat)
    requires bit < 2 || 8 <= bit < 15
    ensures CanInterrupt(pin) && PinToBit(pin) == bit
  {
    pin := if bit < 2 then bit + 17 else if bit < 14 then bit - 8 else 16;
    BitOfPin(pin);
  }

  predicate FiresLevel(w: Words, intf: Word, intcap: Word, pin: nat)
  {
    IsPin(pin) && Fires(w, intf, intcap, pin) && ConfigOf(w, pin).Level?
  }

  lemma LevelBit(w: Words, intf: Word, intcap: Word, pin: nat)
    requires IsPin(pin)
    ensures FiresLevel(w, intf, intcap, pin) <==> Has(And(w.intcon, Interrupts(w, intf, intcap)), PinToBit(pin))
  {
    AndBit(w.intcon, Interrupts(w, intf, intcap), PinToBit(pin));
    InterruptBit(w, intf, intcap, PinToBit(pin));
  }

  /** The handler runs again if and only if a pin that fired is configured for a level. */
  lemma RunsAgain(w: Words, intf: Word, intcap: Word)
    requires OnlyInterruptPins(w.gpinten)
    ensures And(w.intcon, Interrupts(w, intf, intcap)) != 0 <==> exists pin: nat :: FiresLevel(w, intf, intcap, pin)
  {
    var again := And(w.intcon, Interrupts(w, intf, intcap));
    if again != 0 {
      var bit := SomeBit(again);
      AndBit(w.intcon, Interrupts(w, intf, intcap), bit);
      InterruptBit(w, intf, intcap, bit);
      InterruptPinBit(w.gpinten, bit);
      var pin := PinOfBit(bit);
      LevelBit(w, intf, intcap, pin);
    } else if pin: nat :| FiresLevel(w, intf, intcap, pin) {
      LevelBit(w, intf, intcap, pin);
      NothingSet(PinToBit(pin));
    }
  }

  // ---- outputs ---------------------------------------------------------------------------------------------------

  /** Pins of the GPIO interface as bits of the expander: the outputs only. */
  function OutputBits(pins: nat): (r: Word)
  {
    And(Shl(And(Shr(pins, OUTPUT_BASE), 0xFF), OUTPUT_PINS_START), OUTPUT_PINS_MASK)
  }

  /** The register word for setting the pins in `mask` to `value`. */
  function Driven(gpio: Word, mask: nat, value: nat): Word
  {
    Or16(Cleared(gpio, OutputBits(mask)), And(OutputBits(value), OutputBits(mask)))
  }

  lemma OutputBit(pins: nat, bit: nat)
    ensures Has(OutputBits(pins), bit) <==> 2 <= bit < 8 && Has(pins, bit + 6)
  {
    var low := And(Shr(pins, OUTPUT_BASE), 0xFF);
    AndBit(Shl(low, OUTPUT_PINS_START), OUTPUT_PINS_MASK, bit);
    MaskBit(OUTPUT_PINS_START, bit);
    ShlBit(low, OUTPUT_PINS_START, bit);
    if bit >= 2 {
      AndBit(Shr(pins, OUTPUT_BASE), 0xFF, bit - 2);
      ShrBit(pins, OUTPUT_BASE, bit - 2);
      assert Ones(8) == 0xFF;
      OnesBit(8, bit - 2);
    }
  }

  /** Setting pins changes the output pins in the mask and nothing else: requests on other pins are ignored. */
  lemma DrivesOutputs(gpio: Word, mask: nat, value: nat, pin: nat)
    requires IsPin(pin)
    ensures Has(Driven(gpio, mask, value), PinToBit(pin))
            <==> if IsOutput(pin) && Has(mask, pin) then Has(value, pin) else Has(gpio, PinToBit(pin))
  {
    var bit, m, v := PinToBit(pin), OutputBits(mask), OutputBits(value);
    BitOfPin(pin);
    OrBit(Cleared(gpio, m), And(v, m), bit);
    ClearedBit(gpio, m, bit);
    AndBit(v, m, bit);
    OutputBit(mask, bit);
    OutputBit(value, bit);
  }

  /** Reading a port gives the logical level of each pin, and nothing for numbers that are no pin. */
  lemma LogicalPins(gpio: Word, pin: nat)
    ensures Has(BitsToPins(Xor(gpio, HARD_INVERT_PINS)), pin) <==> IsPin(pin) && LogicalLevel(gpio, pin)
  {
    PinsOfBits(Xor(gpio, HARD_INVERT_PINS), pin);
    XorBit(gpio, HARD_INVERT_PINS, PinToBit(pin));
    MaskBit(INPUT_PINS_START, PinToBit(pin));
    if IsPin(pin) {
      BitOfPin(pin);
    }
  }
}
