/** The power IO shield driver over its register file (drivers/power_io_shield/power_io_shield.c:173-524). */
module PowerIoShield {
  import opened BitWords
  import opened IoExpander
  import opened ShieldPins
  import opened ShieldConfig

  const REG_GPINTENA: Byte := 0x04
  const REG_DEFVALA: Byte := 0x06
  const REG_INTCONA: Byte := 0x08
  const REG_INTFA: Byte := 0x0E
  const REG_INTCAPA: Byte := 0x10
  const REG_GPIOA: Byte := 0x12

  datatype Result = Done | Eio | Enotsup | Einval | Ebusy

  datatype Flags = Flags(input: bool, output: bool, pullUp: bool, pullDown: bool, singleEnded: bool, initHigh: bool)

  /** Which of the three writes of the interrupt configuration reach the device. */
  datatype Writes = Writes(defval: bool, intcon: bool, gpinten: bool)

  predicate AllWritten(ok: Writes)
  {
    ok.defval && ok.intcon && ok.gpinten
  }

  /** The registers besides a word are as they were. */
  ghost predicate OnlyAt(reg: seq<Byte>, reg': seq<Byte>, at: nat)
  {
    |reg'| == |reg| && forall i :: 0 <= i < |reg| && i != at && i != at + 1 ==> reg'[i] == reg[i]
  }

  /** What a pin can be configured to be. */
  predicate Supports(pin: nat, f: Flags)
  {
    !f.pullUp && !f.pullDown && if IsOutput(pin) then !f.input && !f.singleEnded else !f.output
  }

  class Driver {
    const expander: Expander
    var gpinten: Word
    var intcon: Word
    var defval: Word
    var gpio: Word
    var intTriggerRising: Word
    var intTriggerFalling: Word
    /** The configuration waits in the work queue to be written. */
    var writePending: bool

    ghost predicate Valid()
      reads this, expander
    {
      expander.Valid() && OnlyInterruptPins(gpinten)
    }

    constructor ()
      ensures Valid() && fresh(expander) && fresh(expander.reg) && expander.reg[..] == seq(NUM_REGS, _ => 0)
      ensures Cached() == WordsAfter([]) && gpio == 0 && !writePending
    {
      expander := new Expander();
      gpinten, intcon, defval, gpio, intTriggerRising, intTriggerFalling := 0, 0, 0, 0, 0, 0;
      writePending := false;
    }

    ghost function Cached(): Words
      reads this
    {
      Words(gpinten, intcon, defval, intTriggerRising, intTriggerFalling)
    }

    ghost function Register(at: nat): Word
      requires expander.Valid() && at + 2 <= NUM_REGS
      reads this, expander, expander.reg
    {
      WordAt(expander.reg[..], at)
    }

    /** The interrupt registers of the device agree with the cached words. */
    ghost predicate InSync()
      requires expander.Valid()
      reads this, expander, expander.reg
    {
      Register(REG_DEFVALA) == defval && Register(REG_INTCONA) == intcon && Register(REG_GPINTENA) == gpinten
    }

    // ---- registers ---------------------------------------------------------------------------------------------

    method WriteU16Reg(at: Byte, value: Word, busOk: bool) returns (err: bool)
      requires expander.Valid() && at + 2 <= NUM_REGS
      modifies expander.reg
      ensures err == !busOk
      ensures busOk ==> Register(at) == value && OnlyAt(old(expander.reg[..]), expander.reg[..], at)
      ensures !busOk ==> expander.reg[..] == old(expander.reg[..])
    {
      if !busOk {
        return true;
      }
      WritesWord(expander.reg[..], at, value);
      var ok, received, outside := expander.TransferI2c(WriteMessages(at, value));
      return !ok;
    }

    method ReadU16Reg(at: Byte, busOk: bool) returns (err: bool, value: Word)
      requires expander.Valid() && at + 2 <= NUM_REGS
      modifies expander.reg
      ensures err == !busOk && expander.reg[..] == old(expander.reg[..])
      ensures busOk ==> value == Register(at)
    {
      value := 0;
      if !busOk {
        return true, value;
      }
      ReadsWord(expander.reg[..], at);
      var ok, received, outside := expander.TransferI2c(ReadMessages(at));
      return !ok, Join(received[0], received[1]);
    }

    // ---- outputs and inputs ------------------------------------------------------------------------------------

    method SetMaskedRaw(mask: nat, value: nat, busOk: bool) returns (result: Result)
      requires Valid()
      modifies this`gpio, expander.reg
      ensures Valid() && result == if busOk then Done else Eio
      ensures busOk ==> && gpio == Driven(old(gpio), mask, value) && Register(REG_GPIOA) == gpio
                        && OnlyAt(old(expander.reg[..]), expander.reg[..], REG_GPIOA)
      ensures busOk ==> forall pin: nat :: IsPin(pin) ==>
                (Has(gpio, PinToBit(pin))
                 <==> if IsOutput(pin) && Has(mask, pin) then Has(value, pin) else Has(old(gpio), PinToBit(pin)))
      ensures !busOk ==> gpio == old(gpio) && expander.reg[..] == old(expander.reg[..])
    {
      forall pin: nat | IsPin(pin)
        ensures Has(Driven(gpio, mask, value), PinToBit(pin))
                <==> if IsOutput(pin) && Has(mask, pin) then Has(value, pin) else Has(gpio, PinToBit(pin))
      {
        DrivesOutputs(gpio, mask, value, pin);
      }
      var mappedMask, mappedValue := OutputBits(mask), OutputBits(value);
      var newGpio := Or16(Cleared(gpio, mappedMask), And(mappedValue, mappedMask));
      var err := WriteU16Reg(REG_GPIOA, newGpio, busOk);
      if err {
        return Eio;
      }
      gpio := newGpio;
      return Done;
    }

    method SetBitsRaw(mask: nat, busOk: bool) returns (result: Result)
      requires Valid()
      modifies this`gpio, expander.reg
      ensures Valid() && result == if busOk then Done else Eio
      ensures gpio == if busOk then Driven(old(gpio), mask, mask) else old(gpio)
      ensures if busOk then Register(REG_GPIOA) == gpio && OnlyAt(old(expander.reg[..]), expander.reg[..], REG_GPIOA)
              else expander.reg[..] == old(expander.reg[..])
    {
      result := SetMaskedRaw(mask, mask, busOk);
    }

    method ClearBitsRaw(mask: nat, busOk: bool) returns (result: Result)
      requires Valid()
      modifies this`gpio, expander.reg
      ensures Valid() && result == if busOk then Done else Eio
      ensures gpio == if busOk then Driven(old(gpio), mask, 0) else old(gpio)
      ensures if busOk then Register(REG_GPIOA) == gpio && OnlyAt(old(expander.reg[..]), expander.reg[..], REG_GPIOA)
              else expander.reg[..] == old(expander.reg[..])
    {
      result := SetMaskedRaw(mask, 0, busOk);
    }

    /** The logical levels of all pins. */
    method PortGetRaw(busOk: bool) returns (result: Result, value: nat)
      requires Valid()
      modifies this`gpio, expander.reg
      ensures Valid() && expander.reg[..] == old(expander.reg[..]) && result == if busOk then Done else Eio
      ensures busOk ==> gpio == Register(REG_GPIOA)
      ensures busOk ==> forall pin: nat :: Has(value, pin) <==> IsPin(pin) && LogicalLevel(gpio, pin)
      // six inverted inputs, six outputs, three fault lines
      ensures busOk ==> forall pin: nat :: Has(value, pin) <==>
                || (pin < 6 && !Has(gpio, pin + 8)) || (8 <= pin < 14 && Has(gpio, pin - 6))
                || (pin == 16 && Has(gpio, 14)) || (17 <= pin < 19 && Has(gpio, pin - 17))
      ensures !busOk ==> gpio == old(gpio)
    {
      var err, regValue := ReadU16Reg(REG_GPIOA, busOk);
      value := 0;
      if err {
        return Eio, value;
      }
      gpio := regValue;
      value := BitsToPins(Xor(regValue, HARD_INVERT_PINS));
      forall pin: nat
        ensures Has(value, pin) <==> IsPin(pin) && LogicalLevel(gpio, pin)
        ensures Has(value, pin) <==>
                  || (pin < 6 && !Has(gpio, pin + 8)) || (8 <= pin < 14 && Has(gpio, pin - 6))
                  || (pin == 16 && Has(gpio, 14)) || (17 <= pin < 19 && Has(gpio, pin - 17))
      {
        LogicalPins(regValue, pin);
        if IsPin(pin) {
          BitOfPin(pin);
        }
      }
      result := Done;
    }

    method PinConfigure(pin: nat, flags: Flags, busOk: bool) returns (result: Result)
      requires Valid() && IsPin(pin)
      modifies this`gpio, expander.reg
      ensures Valid()
      ensures result == if !Supports(pin, flags) then Enotsup else if IsOutput(pin) && !busOk then Eio else Done
      ensures result == Enotsup <==>
                flags.pullUp || flags.pullDown || if 8 <= pin < 14 then flags.input || flags.singleEnded else flags.output
      ensures gpio == if Supports(pin, flags) && IsOutput(pin)
                      then Changed(old(gpio), PinToBit(pin), if flags.initHigh then Set else Clear) else old(gpio)
      ensures if Supports(pin, flags) && IsOutput(pin) && busOk
              then Register(REG_GPIOA) == gpio && OnlyAt(old(expander.reg[..]), expander.reg[..], REG_GPIOA)
              else expander.reg[..] == old(expander.reg[..])
    {
      var bit := PinToBit(pin);
      if Base(pin) == INPUT_BASE {
        if flags.output || flags.pullDown || flags.pullUp {
          return Enotsup;
        }
      } else if Base(pin) == OUTPUT_BASE {
        if flags.input || flags.pullDown || flags.pullUp || flags.singleEnded {
          return Enotsup;
        }
        if flags.initHigh {
          gpio := Or16(gpio, Bit16(bit));
        } else {
          gpio := Cleared(gpio, One(bit));
        }
        var err := WriteU16Reg(REG_GPIOA, gpio, busOk);
        if err {
          return Eio;
        }
      } else if flags.output || flags.pullDown || flags.pullUp {
        return Enotsup;
      }
      return Done;
    }

    // ---- interrupts --------------------------------------------------------------------------------------------

    /** The work that writes the cached words to the device. A write that fails leaves its register alone. */
    method WriteInterruptConfig(ok: Writes)
      requires Valid()
      modifies expander.reg
      ensures Register(REG_DEFVALA) == if ok.defval then defval else old(Register(REG_DEFVALA))
      ensures Register(REG_INTCONA) == if ok.intcon then intcon else old(Register(REG_INTCONA))
      ensures Register(REG_GPINTENA) == if ok.gpinten then gpinten else old(Register(REG_GPINTENA))
      ensures forall i :: 0 <= i < NUM_REGS && !(REG_GPINTENA <= i < REG_INTCONA + 2) ==>
                expander.reg[i] == old(expander.reg[..])[i]
    {
      var err := WriteU16Reg(REG_DEFVALA, defval, ok.defval);
      err := WriteU16Reg(REG_INTCONA, intcon, ok.intcon);
      err := WriteU16Reg(REG_GPINTENA, gpinten, ok.gpinten);
    }

    /** The write is left to the work queue, which may refuse it. */
    method SubmitWrite(submitOk: bool)
      modifies this`writePending
      ensures writePending == (old(writePending) || submitOk)
    {
      if submitOk {
        writePending := true;
      }
    }

    /** The work queue takes the write up; from now on it can be submitted again. */
    method StartWork()
      modifies this`writePending
      ensures !writePending
    {
      writePending := false;
    }

    /** The checks before the lock is taken. */
    method CheckRequest(pin: nat, mode: Mode, trig: Trigger) returns (result: Result)
      requires IsPin(pin)
      ensures result == if !CanInterrupt(pin) then Enotsup else if !Accepted(mode, trig) then Einval else Done
      ensures result == Enotsup <==> 8 <= pin < 14
      ensures result == Done <==>
                && !(8 <= pin < 14)
                && (|| mode == Disabled || (mode == LevelMode && (trig == TrigHigh || trig == TrigLow))
                    || (mode == EdgeMode && (trig == TrigHigh || trig == TrigLow || trig == TrigBoth)))
    {
      if Base(pin) != INPUT_BASE && Base(pin) != FAULT_BASE {
        return Enotsup;
      }
      if mode == LevelMode {
        if trig != TrigHigh && trig != TrigLow {
          return Einval;
        }
      } else if mode == EdgeMode {
        if trig != TrigHigh && trig != TrigLow && trig != TrigBoth {
          return Einval;
        }
      } else if mode != Disabled {
        return Einval;
      }
      return Done;
    }

    /** The part under the lock: only the cached words change. */
    method StoreConfig(pin: nat, mode: Mode, asked: Trigger)
      requires CanInterrupt(pin) && Accepted(mode, asked) && OnlyInterruptPins(gpinten)
      modifies this`gpinten, this`intcon, this`defval, this`intTriggerRising, this`intTriggerFalling
      ensures OnlyInterruptPins(gpinten)
      ensures Cached() == Configured(old(Cached()), PinToBit(pin), PlanOf(mode, Raw(asked, PinToBit(pin))))
      ensures forall other :: IsPin(other) ==>
                ConfigOf(Cached(), other) == if other == pin then Asked(mode, asked) else ConfigOf(old(Cached()), other)
    {
      StoredConfig(Cached(), pin, mode, asked);
      var bit := PinToBit(pin);
      ChangeWords(bit, mode, asked);
    }

    method ChangeWords(bit: nat, mode: Mode, asked: Trigger)
      requires bit < 16
      modifies this`gpinten, this`intcon, this`defval, this`intTriggerRising, this`intTriggerFalling
      ensures Cached() == Configured(old(Cached()), bit, PlanOf(mode, Raw(asked, bit)))
    {
      var trig := asked;
      if And(One(bit), HARD_INVERT_PINS) != 0 {
        if trig == TrigHigh {
          trig := TrigLow;
        } else if trig == TrigLow {
          trig := TrigHigh;
        }
      }
      match mode
      case Disabled =>
        gpinten := Cleared(gpinten, One(bit));
        intcon := Cleared(intcon, One(bit));
        defval := Cleared(defval, One(bit));
      case LevelMode =>
        gpinten := Or16(gpinten, Bit16(bit));
        intcon := Or16(intcon, Bit16(bit));
        if trig == TrigHigh {
          defval := Cleared(defval, One(bit));
        } else if trig == TrigLow {
          defval := Or16(defval, Bit16(bit));
        }
      case EdgeMode =>
        gpinten := Or16(gpinten, Bit16(bit));
        intcon := Cleared(intcon, One(bit));
        if trig == TrigHigh {
          intTriggerRising := Or16(intTriggerRising, Bit16(bit));
          intTriggerFalling := Cleared(intTriggerFalling, One(bit));
        } else if trig == TrigLow {
          intTriggerFalling := Or16(intTriggerFalling, Bit16(bit));
          intTriggerRising := Cleared(intTriggerRising, One(bit));
        } else if trig == TrigBoth {
          intTriggerRising := Or16(intTriggerRising, Bit16(bit));
          intTriggerFalling := Or16(intTriggerFalling, Bit16(bit));
        }
      case OtherMode =>
    }

    /** Configuring the interrupt of a pin. In an interrupt handler the lock may be taken and the write is left to the
        work queue, which may refuse it; the result does not tell. */
    method PinInterruptConfigure(pin: nat, mode: Mode, trig: Trigger, inIsr: bool, lockFree: bool, submitOk: bool,
                                 ok: Writes) returns (result: Result)
      requires Valid() && IsPin(pin)
      modifies this, expander.reg
      ensures Valid() && gpio == old(gpio)
      ensures result == if !CanInterrupt(pin) then Enotsup else if !Accepted(mode, trig) then Einval
                        else if inIsr && !lockFree then Ebusy else Done
      ensures result != Done ==>
                Cached() == old(Cached()) && expander.reg[..] == old(expander.reg[..]) && writePending == old(writePending)
      ensures result == Done ==> forall other :: IsPin(other) ==>
                ConfigOf(Cached(), other) == if other == pin then Asked(mode, trig) else ConfigOf(old(Cached()), other)
      ensures result == Done && inIsr ==>
                expander.reg[..] == old(expander.reg[..]) && writePending == (old(writePending) || submitOk)
      ensures result == Done && !inIsr ==> writePending == old(writePending)
      // success does not mean that the device agrees: it does exactly if each word that its register lacked was written
      ensures result == Done && !inIsr ==>
                (InSync() <==> && (ok.defval || old(Register(REG_DEFVALA)) == defval)
                               && (ok.intcon || old(Register(REG_INTCONA)) == intcon)
                               && (ok.gpinten || old(Register(REG_GPINTENA)) == gpinten))
    {
      result := CheckRequest(pin, mode, trig);
      if result != Done {
        return;
      }
      if inIsr && !lockFree {
        return Ebusy;
      }
      StoreConfig(pin, mode, trig);
      if inIsr {
        SubmitWrite(submitOk);
      } else {
        WriteInterruptConfig(ok);
      }
    }

    /** The work an interrupt starts: what is reported, and whether the work starts again. */
    method InterruptWork(intfOk: bool, intcapOk: bool) returns (reported: bool, fired: nat, again: bool)
      requires Valid()
      modifies expander.reg
      ensures Valid() && expander.reg[..] == old(expander.reg[..])
      ensures reported <==> intfOk && intcapOk && Register(REG_INTFA) != 0
      ensures reported ==>
                var intf, intcap := Register(REG_INTFA), Register(REG_INTCAPA);
                && (forall pin: nat :: Has(fired, pin) <==> IsPin(pin) && Fires(Cached(), intf, intcap, pin))
                && (again <==> exists pin: nat :: FiresLevel(Cached(), intf, intcap, pin))
      ensures !reported ==> !again
    {
      reported, fired, again := false, 0, false;
      var err, intf := ReadU16Reg(REG_INTFA, intfOk);
      if err {
        return;
      }
      if intf == 0 {
        return;
      }
      var intcap;
      err, intcap := ReadU16Reg(REG_INTCAPA, intcapOk);
      if err {
        return;
      }
      var levelInterrupts, risingEdgeInterrupts := intcon, And(intcap, intTriggerRising);
      var fallingEdgeInterrupts := Cleared(intTriggerFalling, intcap);
      var ints := And(And(gpinten, intf), Or(Or(levelInterrupts, risingEdgeInterrupts), fallingEdgeInterrupts));
      reported, fired, again := true, BitsToPins(ints), And(levelInterrupts, ints) != 0;
      forall pin: nat
        ensures Has(fired, pin) <==> IsPin(pin) && Fires(Cached(), intf, intcap, pin)
      {
        FiredPins(Cached(), intf, intcap, pin);
      }
      RunsAgain(Cached(), intf, intcap);
    }
  }

  lemma StoredConfig(w: Words, pin: nat, mode: Mode, trig: Trigger)
    requires CanInterrupt(pin) && Accepted(mode, trig) && OnlyInterruptPins(w.gpinten)
    ensures var w' := Configured(w, PinToBit(pin), PlanOf(mode, Raw(trig, PinToBit(pin))));
            && OnlyInterruptPins(w'.gpinten)
            && forall other :: IsPin(other) ==>
                 ConfigOf(w', other) == if other == pin then Asked(mode, trig) else ConfigOf(w, other)
  {
    forall other | IsPin(other)
      ensures ConfigOf(Configured(w, PinToBit(pin), PlanOf(mode, Raw(trig, PinToBit(pin)))), other)
              == if other == pin then Asked(mode, trig) else ConfigOf(w, other)
    {
      ConfiguresOnePin(w, pin, mode, trig, other);
    }
    StaysOnInterruptPins(w.gpinten, pin, PlanOf(mode, Raw(trig, PinToBit(pin))).gpinten);
  }

  // ---- every run of output requests ------------------------------------------------------------------------------

  /** Requests on the port, and levels that arrive on the lines that are no outputs. */
  datatype OutOp = SetOp(mask: nat, value: nat) | ConfigureOp(pin: nat, flags: Flags) | ReadOp | LinesOp(levels: Word)

  /** The value last given to a pin. */
  function LastValue(ops: seq<OutOp>, pin: nat): bool
  {
    if ops == [] then false
    else
      var before := LastValue(ops[..|ops| - 1], pin);
      match ops[|ops| - 1]
      case SetOp(mask, value) => if Has(mask, pin) then Has(value, pin) else before
      case ConfigureOp(p, flags) => if p == pin && Supports(p, flags) then flags.initHigh else before
      case ReadOp => before
      case LinesOp(_) => before
  }

  /** The output bits of a word are the values last given. */
  ghost predicate Shows(w: Word, ops: seq<OutOp>)
  {
    forall pin: nat :: IsOutput(pin) ==> (Has(w, PinToBit(pin)) <==> LastValue(ops, pin))
  }

  function WithLines(w: Word, levels: Word): Word
  {
    Or16(Cleared(levels, OUTPUT_PINS_MASK), And(w, OUTPUT_PINS_MASK))
  }

  /** The device's outputs stay, the other lines take their levels. */
  lemma LinesTaken(w: Word, levels: Word, bit: nat)
    ensures Has(WithLines(w, levels), bit) <==> if 2 <= bit < 8 then Has(w, bit) else Has(levels, bit)
  {
    OrBit(Cleared(levels, OUTPUT_PINS_MASK), And(w, OUTPUT_PINS_MASK), bit);
    ClearedBit(levels, OUTPUT_PINS_MASK, bit);
    AndBit(w, OUTPUT_PINS_MASK, bit);
    MaskBit(OUTPUT_PINS_START, bit);
  }

  lemma ShowsSet(w: Word, ops: seq<OutOp>, mask: nat, value: nat)
    requires Shows(w, ops)
    ensures Shows(Driven(w, mask, value), ops + [SetOp(mask, value)])
  {
    assert (ops + [SetOp(mask, value)])[..|ops|] == ops;
    forall pin: nat | IsOutput(pin)
      ensures Has(Driven(w, mask, value), PinToBit(pin)) <==> LastValue(ops + [SetOp(mask, value)], pin)
    {
      DrivesOutputs(w, mask, value, pin);
    }
  }

  lemma ShowsConfigured(w: Word, ops: seq<OutOp>, p: nat, flags: Flags)
    requires Shows(w, ops) && IsPin(p)
    ensures var c := if flags.initHigh then Set else Clear;
            Shows(if Supports(p, flags) && IsOutput(p) then Changed(w, PinToBit(p), c) else w, ops + [ConfigureOp(p, flags)])
  {
    var c := if flags.initHigh then Set else Clear;
    var w' := if Supports(p, flags) && IsOutput(p) then Changed(w, PinToBit(p), c) else w;
    assert (ops + [ConfigureOp(p, flags)])[..|ops|] == ops;
    forall pin: nat | IsOutput(pin)
      ensures Has(w', PinToBit(pin)) <==> LastValue(ops + [ConfigureOp(p, flags)], pin)
    {
      ChangedBit(w, PinToBit(p), c, PinToBit(pin));
      if PinToBit(p) == PinToBit(pin) {
        BitsApart(p, pin);
      }
    }
  }

  lemma ShowsSame(w: Word, ops: seq<OutOp>, op: OutOp)
    requires Shows(w, ops) && (op.ReadOp? || op.LinesOp?)
    ensures Shows(w, ops + [op])
  {
    assert (ops + [op])[..|ops|] == ops;
  }

  lemma ShowsLines(w: Word, ops: seq<OutOp>, levels: Word)
    requires Shows(w, ops)
    ensures Shows(WithLines(w, levels), ops)
  {
    forall pin: nat | IsOutput(pin)
      ensures Has(WithLines(w, levels), PinToBit(pin)) <==> LastValue(ops, pin)
    {
      BitOfPin(pin);
      LinesTaken(w, levels, PinToBit(pin));
    }
  }

  method DoOutput(d: Driver, op: OutOp, ghost ops: seq<OutOp>)
    requires d.Valid() && Shows(d.gpio, ops) && Shows(d.Register(REG_GPIOA), ops)
    requires op.ConfigureOp? ==> IsPin(op.pin)
    modifies d`gpio, d.expander.reg
    ensures d.Valid() && Shows(d.gpio, ops + [op]) && Shows(d.Register(REG_GPIOA), ops + [op])
  {
    match op
    case SetOp(mask, value) =>
      ShowsSet(d.gpio, ops, mask, value);
      var result := d.SetMaskedRaw(mask, value, true);
    case ConfigureOp(pin, flags) =>
      ShowsConfigured(d.gpio, ops, pin, flags);
      ShowsConfiguredAt(d.Register(REG_GPIOA), ops, pin, flags);
      var result := d.PinConfigure(pin, flags, true);
    case ReadOp =>
      ShowsSame(d.Register(REG_GPIOA), ops, op);
      var result, value := d.PortGetRaw(true);
    case LinesOp(levels) =>
      ShowsSame(d.gpio, ops, op);
      ShowsLines(d.Register(REG_GPIOA), ops, levels);
      var err, now := d.ReadU16Reg(REG_GPIOA, true);
      err := d.WriteU16Reg(REG_GPIOA, WithLines(now, levels), true);
      ShowsSame(d.Register(REG_GPIOA), ops, op);
  }

  lemma ShowsConfiguredAt(w: Word, ops: seq<OutOp>, p: nat, flags: Flags)
    requires Shows(w, ops) && IsPin(p)
    ensures !(Supports(p, flags) && IsOutput(p)) ==> Shows(w, ops + [ConfigureOp(p, flags)])
  {
    ShowsConfigured(w, ops, p, flags);
  }

  /** Over every run the six output bits of the cache and of the device are the values last given to the pins, whatever
      arrives on the other lines and whatever is asked of them. */
  method EveryOutputRun(ops: seq<OutOp>) returns (d: Driver)
    requires forall i :: 0 <= i < |ops| && ops[i].ConfigureOp? ==> IsPin(ops[i].pin)
    ensures d.Valid() && Shows(d.gpio, ops) && Shows(d.Register(REG_GPIOA), ops)
  {
    d := new Driver();
    ZeroShows();
    for i := 0 to |ops|
      invariant d.Valid() && fresh(d) && fresh(d.expander.reg)
      invariant Shows(d.gpio, ops[..i]) && Shows(d.Register(REG_GPIOA), ops[..i])
    {
      DoOutput(d, ops[i], ops[..i]);
      assert ops[..i] + [ops[i]] == ops[..i + 1];
    }
    assert ops[..|ops|] == ops;
  }

  lemma ZeroShows()
    ensures Shows(0, [])
  {
    forall pin: nat | IsOutput(pin)
      ensures !Has(0, PinToBit(pin))
    {
      NothingSet(PinToBit(pin));
    }
  }

  lemma EnabledIsNotZero(w: Words, pin: nat)
    requires ConfigOf(w, pin) != Off
    ensures w.gpinten != 0
  {
    NothingSet(PinToBit(pin));
  }

  /** Inputs for which success is reported and the device disagrees: no interrupt is enabled in the device, and the write
      that enables one is lost. */
  method LoseWrite(d: Driver, pin: nat) returns (result: Result)
    requires d.Valid() && CanInterrupt(pin) && d.Register(REG_GPINTENA) == 0
    modifies d, d.expander.reg
    ensures d.Valid() && result == Done && !d.InSync()
  {
    result := d.PinInterruptConfigure(pin, EdgeMode, TrigHigh, false, true, true, Writes(true, true, false));
    EnabledIsNotZero(d.Cached(), pin);
  }

  method IdleDriver() returns (d: Driver)
    ensures fresh(d) && fresh(d.expander.reg) && d.Valid() && d.Register(REG_GPINTENA) == 0
  {
    d := new Driver();
  }

  method LostWriteReportsSuccess() returns (d: Driver, result: Result)
    ensures d.Valid() && result == Done && !d.InSync()
  {
    d := IdleDriver();
    result := LoseWrite(d, 0);
  }

  // ---- every interleaving of configuring and writing -------------------------------------------------------------

  /** The interrupt registers of the device. */
  datatype Device = Device(gpinten: Word, intcon: Word, defval: Word)

  /** `owed` writers are between having stored a configuration, or having been started by the work queue, and taking
      the lock to write. */
  datatype Sync = Sync(words: Words, device: Device, owed: nat, pending: bool)

  datatype Step =
    | Store(request: Request, inIsr: bool, submitOk: bool)
    | WorkStarts
    | Write(ok: Writes)

  function Agreed(w: Words): Device
  {
    Device(w.gpinten, w.intcon, w.defval)
  }

  function After(steps: seq<Step>): Sync
  {
    if steps == [] then Sync(Words(0, 0, 0, 0, 0), Device(0, 0, 0), 0, false)
    else Take(After(steps[..|steps| - 1]), steps[|steps| - 1])
  }

  function Take(s: Sync, step: Step): Sync
  {
    match step
    case Store(r, inIsr, submitOk) =>
      if !Good(r) then s
      else
        var words := Configured(s.words, PinToBit(r.pin), PlanOf(r.mode, Raw(r.trig, PinToBit(r.pin))));
        if inIsr then s.(words := words, pending := s.pending || submitOk)
        else s.(words := words, owed := s.owed + 1)
    case WorkStarts => if s.pending then s.(pending := false, owed := s.owed + 1) else s
    case Write(ok) =>
      if s.owed == 0 then s
      else
        s.(owed := s.owed - 1,
           device := Device(if ok.gpinten then s.words.gpinten else s.device.gpinten,
                            if ok.intcon then s.words.intcon else s.device.intcon,
                            if ok.defval then s.words.defval else s.device.defval))
  }

  /** The latest write reached all three registers, and the work queue refused nothing stored since. */
  predicate LatestReached(steps: seq<Step>)
  {
    if steps == [] then true
    else
      var init := steps[..|steps| - 1];
      match steps[|steps| - 1]
      case Store(r, inIsr, submitOk) => (Good(r) && inIsr ==> submitOk) && LatestReached(init)
      case WorkStarts => LatestReached(init)
      case Write(ok) => if After(init).owed == 0 then LatestReached(init) else AllWritten(ok)
  }

  /** A bus and a work queue that refuse nothing let the latest write reach the device. */
  lemma {:induction false} NothingRefused(steps: seq<Step>)
    requires forall i :: 0 <= i < |steps| && steps[i].Store? && Good(steps[i].request) && steps[i].inIsr ==>
                           steps[i].submitOk
    requires forall i :: 0 <= i < |steps| && steps[i].Write? ==> AllWritten(steps[i].ok)
    ensures LatestReached(steps)
    decreases |steps|
  {
    if steps != [] {
      NothingRefused(steps[..|steps| - 1]);
      assert steps[|steps| - 1].Write? ==> AllWritten(steps[|steps| - 1].ok);
    }
  }

  /** The requests stored in a run, in the order in which they took the lock. */
  function Requests(steps: seq<Step>): seq<Request>
  {
    if steps == [] then []
    else
      var step := steps[|steps| - 1];
      Requests(steps[..|steps| - 1]) + if step.Store? then [step.request] else []
  }

  lemma TakeStores(s: Sync, step: Step, before: seq<Request>)
    requires s.words == WordsAfter(before)
    ensures Take(s, step).words == WordsAfter(before + if step.Store? then [step.request] else [])
  {
    if step.Store? {
      var after := before + [step.request];
      assert after[..|after| - 1] == before && after[|after| - 1] == step.request;
    } else {
      assert before + [] == before;
    }
  }

  lemma {:induction false} EveryRunStores(steps: seq<Step>)
    ensures After(steps).words == WordsAfter(Requests(steps))
    decreases |steps|
  {
    if steps != [] {
      EveryRunStores(steps[..|steps| - 1]);
      TakeStores(After(steps[..|steps| - 1]), steps[|steps| - 1], Requests(steps[..|steps| - 1]));
    }
  }

  /** In every interleaving: when no write is owed or pending and the latest one reached the device, the device's
      registers are the cached words. */
  lemma {:induction false} EveryInterleaving(steps: seq<Step>)
    ensures var s := After(steps); s.owed == 0 && !s.pending && LatestReached(steps) ==> s.device == Agreed(s.words)
    decreases |steps|
  {
    if steps != [] {
      EveryInterleaving(steps[..|steps| - 1]);
    }
  }

  /** The driver and its device are in a state of the interleaving. */
  ghost predicate Follows(d: Driver, s: Sync)
    reads d, d.expander, d.expander.reg
  {
    && d.Valid() && d.Cached() == s.words && d.writePending == s.pending
    && d.Register(REG_GPINTENA) == s.device.gpinten && d.Register(REG_INTCONA) == s.device.intcon
    && d.Register(REG_DEFVALA) == s.device.defval
  }

  /** Each step is one atomic part of the driver. */
  method DoStep(d: Driver, step: Step, ghost s: Sync, owed: nat) returns (left: nat)
    requires Follows(d, s) && owed == s.owed && (step.Store? ==> IsPin(step.request.pin))
    modifies d, d.expander.reg
    ensures Follows(d, Take(s, step)) && left == Take(s, step).owed
  {
    left := owed;
    match step
    case Store(r, inIsr, submitOk) =>
      var result := d.CheckRequest(r.pin, r.mode, r.trig);
      if result == Done {
        d.StoreConfig(r.pin, r.mode, r.trig);
        if inIsr {
          d.SubmitWrite(submitOk);
        } else {
          left := owed + 1;
        }
      }
    case WorkStarts =>
      if d.writePending {
        d.StartWork();
        left := owed + 1;
      }
    case Write(ok) =>
      if owed > 0 {
        d.WriteInterruptConfig(ok);
        left := owed - 1;
      }
  }

  lemma AfterOne(steps: seq<Step>, i: nat)
    requires i < |steps|
    ensures After(steps[..i + 1]) == Take(After(steps[..i]), steps[i])
  {
    assert steps[..i + 1][..i] == steps[..i];
  }

  method RunSteps(d: Driver, steps: seq<Step>) returns (owed: nat)
    requires Follows(d, After([])) && forall i :: 0 <= i < |steps| && steps[i].Store? ==> IsPin(steps[i].request.pin)
    modifies d, d.expander.reg
    ensures Follows(d, After(steps)) && owed == After(steps).owed
  {
    owed := 0;
    ghost var s := After([]);
    assert steps[..0] == [];
    for i := 0 to |steps|
      invariant s == After(steps[..i]) && Follows(d, s) && owed == s.owed
    {
      AfterOne(steps, i);
      owed := DoStep(d, steps[i], s, owed);
      s := Take(s, steps[i]);
    }
    assert steps[..|steps|] == steps;
  }

  /** The cached words of a run, pin by pin. */
  lemma RunMeans(steps: seq<Step>)
    ensures forall pin: nat :: IsPin(pin) ==> ConfigOf(After(steps).words, pin) == LastAsked(Requests(steps), pin)
  {
    forall pin: nat | IsPin(pin)
      ensures ConfigOf(After(steps).words, pin) == LastAsked(Requests(steps), pin)
    {
      EveryRunStores(steps);
      EveryRunConfigures(Requests(steps), pin);
    }
  }

  /** The driver in every interleaving of clients and work queue: its words say of each pin what was last asked of it, and
      once every writer has written, the latest one with success, the device says so too. */
  method EveryInterruptRun(steps: seq<Step>) returns (d: Driver, owed: nat)
    requires forall i :: 0 <= i < |steps| && steps[i].Store? ==> IsPin(steps[i].request.pin)
    ensures Follows(d, After(steps)) && owed == After(steps).owed
    ensures forall pin: nat :: IsPin(pin) ==> ConfigOf(d.Cached(), pin) == LastAsked(Requests(steps), pin)
    ensures owed == 0 && !d.writePending && LatestReached(steps) ==> d.InSync()
  {
    d := new Driver();
    owed := RunSteps(d, steps);
    EveryInterleaving(steps);
    RunMeans(steps);
  }
}
