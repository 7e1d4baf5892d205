/** The register file of the IO expander as the driver's emulated device keeps it, and the 16-bit registers the driver
    makes of its bytes (drivers/power_io_shield/power_io_shield_emul.c:65-118,
    drivers/power_io_shield/power_io_shield.c:78-103). */
module IoExpander {
  import opened BitWords

  const NUM_REGS: nat := 27

  /** A message of a bus transfer: bytes for the device, or a number of bytes from it. */
  datatype Message = Send(bytes: seq<Byte>, stop: bool) | Receive(count: nat, stop: bool)

  /** What a transfer leaves: the registers, the bytes received, and whether it was accepted. */
  datatype Transferred = Transferred(reg: seq<Byte>, received: seq<Byte>, ok: bool)

  /** An access to n registers from one on stays inside the register file. */
  predicate Inside(at: nat, n: nat)
  {
    n == 0 || at + n <= NUM_REGS
  }

  function Stored(reg: seq<Byte>, at: nat, bytes: seq<Byte>): (r: seq<Byte>)
    requires |reg| == NUM_REGS && Inside(at, |bytes|)
    ensures |r| == |reg|
    ensures forall i :: 0 <= i < |reg| ==> r[i] == if at <= i < at + |bytes| then bytes[i - at] else reg[i]
  {
    if bytes == [] then reg else reg[..at] + bytes + reg[at + |bytes|..]
  }

  function Fetched(reg: seq<Byte>, at: nat, count: nat): seq<Byte>
    requires |reg| == NUM_REGS && Inside(at, count)
  {
    if count == 0 then [] else reg[at..at + count]
  }

  /** Every access stays inside the register file, and one that starts a transfer names a register. */
  predicate InFile(msgs: seq<Message>, at: nat, start: bool)
    decreases |msgs|
  {
    msgs == [] ||
    match msgs[0]
    case Receive(count, stop) => start || (Inside(at, count) && InFile(msgs[1..], at + count, stop))
    case Send(bytes, stop) =>
      if start then
        bytes != [] && Inside(bytes[0], |bytes| - 1) && InFile(msgs[1..], bytes[0] + |bytes| - 1, stop)
      else Inside(at, |bytes|) && InFile(msgs[1..], at + |bytes|, stop)
  }

  /** A transfer from the message at hand on; `start` after a stop condition. */
  function Transfer(reg: seq<Byte>, received: seq<Byte>, msgs: seq<Message>, at: nat, start: bool): (t: Transferred)
    requires |reg| == NUM_REGS && InFile(msgs, at, start)
    ensures |t.reg| == NUM_REGS
    decreases |msgs|
  {
    if msgs == [] then Transferred(reg, received, true)
    else
      match msgs[0]
      case Receive(count, stop) =>
        if start then Transferred(reg, received, false)
        else Transfer(reg, received + Fetched(reg, at, count), msgs[1..], at + count, stop)
      case Send(bytes, stop) =>
        var first := if start then bytes[0] else at;
        var data := if start then bytes[1..] else bytes;
        Transfer(Stored(reg, first, data), received, msgs[1..], first + |data|, stop)
  }

  class Expander {
    const reg: array<Byte>

    ghost predicate Valid()
      reads this
    {
      reg.Length == NUM_REGS
    }

    constructor ()
      ensures Valid() && fresh(reg) && reg[..] == seq(NUM_REGS, _ => 0)
    {
      reg := new Byte[NUM_REGS](_ => 0);
    }

    method StoreBytes(at: nat, bytes: seq<Byte>) returns (inside: bool)
      requires Valid()
      modifies reg
      ensures inside <==> Inside(at, |bytes|)
      ensures inside ==> reg[..] == Stored(old(reg[..]), at, bytes)
    {
      var regAddr: nat := at;
      for i := 0 to |bytes|
        invariant regAddr == at + i && Inside(at, i)
        invariant forall k :: 0 <= k < NUM_REGS ==> reg[k] == if at <= k < at + i then bytes[k - at] else old(reg[k])
      {
        if regAddr >= NUM_REGS {
          return false;
        }
        reg[regAddr] := bytes[i];
        regAddr := regAddr + 1;
      }
      return true;
    }

    method FetchBytes(at: nat, count: nat) returns (inside: bool, bytes: seq<Byte>)
      requires Valid()
      ensures inside <==> Inside(at, count)
      ensures inside ==> bytes == Fetched(reg[..], at, count)
    {
      bytes := [];
      var regAddr: nat := at;
      for i := 0 to count
        invariant regAddr == at + i && Inside(at, i) && bytes == Fetched(reg[..], at, i)
      {
        if regAddr >= NUM_REGS {
          return false, bytes;
        }
        bytes := bytes + [reg[regAddr]];
        regAddr := regAddr + 1;
      }
      return true, bytes;
    }

    /** After a stop condition the first byte names a register. */
    method WriteBytes(at: nat, start: bool, bytes: seq<Byte>) returns (inside: bool, regAddr: nat)
      requires Valid()
      modifies reg
      ensures inside <==> if start then bytes != [] && Inside(bytes[0], |bytes| - 1) else Inside(at, |bytes|)
      ensures inside && start ==>
                reg[..] == Stored(old(reg[..]), bytes[0], bytes[1..]) && regAddr == bytes[0] + |bytes[1..]|
      ensures inside && !start ==> reg[..] == Stored(old(reg[..]), at, bytes) && regAddr == at + |bytes|
    {
      var data := bytes;
      regAddr := at;
      if start {
        if bytes == [] {
          return false, regAddr;
        }
        regAddr, data := bytes[0], bytes[1..];
      }
      inside := StoreBytes(regAddr, data);
      regAddr := regAddr + |data|;
    }

    /** One message, the first of those left. */
    method DoMessage(msg: Message, at: nat, start: bool, received: seq<Byte>, ghost left: seq<Message>)
      returns (inside: bool, ok: bool, regAddr: nat, more: seq<Byte>)
      requires Valid() && left != [] && left[0] == msg
      modifies reg
      ensures !inside ==> !InFile(left, at, start)
      ensures inside && !ok ==> InFile(left, at, start) && more == received
                                && Transfer(old(reg[..]), received, left, at, start) == Transferred(reg[..], received, false)
      ensures inside && ok ==> (InFile(left, at, start) <==> InFile(left[1..], regAddr, msg.stop))
      ensures inside && ok && InFile(left, at, start) ==>
                Transfer(old(reg[..]), received, left, at, start) == Transfer(reg[..], more, left[1..], regAddr, msg.stop)
    {
      match msg
      case Receive(count, stop) =>
        if start {
          return true, false, at, received;
        }
        inside, more := FetchBytes(at, count);
        return inside, true, at + count, received + more;
      case Send(bytes, stop) =>
        inside, regAddr := WriteBytes(at, start, bytes);
        return inside, true, regAddr, received;
    }

    /** A transfer goes outside if and only if it does not stay in the file; after that nothing is claimed. */
    method TransferI2c(msgs: seq<Message>) returns (ok: bool, received: seq<Byte>, outside: bool)
      requires Valid()
      modifies reg
      ensures outside <==> !InFile(msgs, 0, true)
      ensures msgs == [] ==> !ok && reg[..] == old(reg[..])
      ensures msgs != [] && !outside ==> Transferred(reg[..], received, ok) == Transfer(old(reg[..]), [], msgs, 0, true)
    {
      ok, received, outside := false, [], false;
      if |msgs| < 1 {
        return;
      }
      var regAddr: nat, stopSeen := 0, true;
      assert msgs[0..] == msgs;
      for i := 0 to |msgs|
        invariant !outside
        invariant InFile(msgs, 0, true) <==> InFile(msgs[i..], regAddr, stopSeen)
        invariant InFile(msgs, 0, true) ==>
                    Transfer(old(reg[..]), [], msgs, 0, true) == Transfer(reg[..], received, msgs[i..], regAddr, stopSeen)
      {
        assert msgs[i..][1..] == msgs[i + 1..];
        var inside;
        inside, ok, regAddr, received := DoMessage(msgs[i], regAddr, stopSeen, received, msgs[i..]);
        if !inside || !ok {
          return ok, received, !inside;
        }
        stopSeen := msgs[i].stop;
      }
      ok := true;
    }
  }

  // ---- 16-bit registers ------------------------------------------------------------------------------------------

  function Low(w: Word): Byte
  {
    w % 0x100
  }

  function High(w: Word): Byte
  {
    w / 0x100
  }

  function Join(low: Byte, high: Byte): Word
  {
    low + 0x100 * high
  }

  /** Two neighbouring registers as one little-endian word. */
  function WordAt(reg: seq<Byte>, at: nat): Word
    requires at + 1 < |reg|
  {
    Join(reg[at], reg[at + 1])
  }

  function WriteMessages(at: Byte, w: Word): seq<Message>
  {
    [Send([at, Low(w), High(w)], true)]
  }

  function ReadMessages(at: Byte): seq<Message>
  {
    [Send([at], false), Receive(2, true)]
  }

  lemma FirstSend(reg: seq<Byte>, msgs: seq<Message>)
    requires |reg| == NUM_REGS && msgs != [] && msgs[0].Send? && msgs[0].bytes != []
    requires var (at, data) := (msgs[0].bytes[0], msgs[0].bytes[1..]);
             Inside(at, |data|) && InFile(msgs[1..], at + |data|, msgs[0].stop)
    ensures var (at, data) := (msgs[0].bytes[0], msgs[0].bytes[1..]);
            && InFile(msgs, 0, true)
            && Transfer(reg, [], msgs, 0, true) == Transfer(Stored(reg, at, data), [], msgs[1..], at + |data|, msgs[0].stop)
  {
  }

  lemma SendStep(reg: seq<Byte>, at: Byte, data: seq<Byte>, stop: bool, rest: seq<Message>)
    requires |reg| == NUM_REGS && Inside(at, |data|) && InFile(rest, at + |data|, stop)
    ensures var msgs := [Send([at] + data, stop)] + rest;
            && InFile(msgs, 0, true)
            && Transfer(reg, [], msgs, 0, true) == Transfer(Stored(reg, at, data), [], rest, at + |data|, stop)
  {
    var msgs := [Send([at] + data, stop)] + rest;
    assert msgs[1..] == rest && msgs[0].bytes[1..] == data && msgs[0].bytes[0] == at;
    FirstSend(reg, msgs);
  }

  lemma ReceiveStep(reg: seq<Byte>, at: nat)
    requires |reg| == NUM_REGS && at + 2 <= NUM_REGS
    ensures InFile([Receive(2, true)], at, false)
    ensures Transfer(reg, [], [Receive(2, true)], at, false) == Transferred(reg, [reg[at], reg[at + 1]], true)
  {
    assert [Receive(2, true)][1..] == [];
    assert [] + reg[at..at + 2] == [reg[at], reg[at + 1]];
  }

  lemma WritesWord(reg: seq<Byte>, at: Byte, w: Word)
    requires |reg| == NUM_REGS && at + 2 <= NUM_REGS
    ensures InFile(WriteMessages(at, w), 0, true)
    ensures var t := Transfer(reg, [], WriteMessages(at, w), 0, true);
            && t.ok && WordAt(t.reg, at) == w
            && (forall i :: 0 <= i < NUM_REGS && i != at && i != at + 1 ==> t.reg[i] == reg[i])
  {
    assert Join(Low(w), High(w)) == w;
    SendStep(reg, at, [Low(w), High(w)], true, []);
    assert [at] + [Low(w), High(w)] == [at, Low(w), High(w)];
    assert [Send([at, Low(w), High(w)], true)] + [] == WriteMessages(at, w);
  }

  lemma ReadsWord(reg: seq<Byte>, at: Byte)
    requires |reg| == NUM_REGS && at + 2 <= NUM_REGS
    ensures InFile(ReadMessages(at), 0, true)
    ensures Transfer(reg, [], ReadMessages(at), 0, true) == Transferred(reg, [reg[at], reg[at + 1]], true)
  {
    ReceiveStep(reg, at);
    SendStep(reg, at, [], false, [Receive(2, true)]);
    assert [at] + [] == [at] && Stored(reg, at, []) == reg;
    assert [Send([at], false)] + [Receive(2, true)] == ReadMessages(at);
  }

  /** A write sets one word and nothing else; what it set is what a read returns, and reading changes nothing. */
  lemma WriteThenRead(reg: seq<Byte>, at: Byte, w: Word)
    requires |reg| == NUM_REGS && at + 2 <= NUM_REGS
    ensures InFile(WriteMessages(at, w), 0, true) && InFile(ReadMessages(at), 0, true)
    ensures var t := Transfer(reg, [], WriteMessages(at, w), 0, true);
            var u := Transfer(t.reg, [], ReadMessages(at), 0, true);
            && t.ok && u.ok && u.reg == t.reg && |u.received| == 2 && Join(u.received[0], u.received[1]) == w
            && (forall i :: 0 <= i < NUM_REGS && i != at && i != at + 1 ==> t.reg[i] == reg[i])
  {
    WritesWord(reg, at, w);
    ReadsWord(Transfer(reg, [], WriteMessages(at, w), 0, true).reg, at);
  }

  /** A transfer may be cut anywhere without a stop condition: what follows goes on at the next register. */
  lemma WriteInParts(reg: seq<Byte>, at: Byte, a: seq<Byte>, b: seq<Byte>)
    requires |reg| == NUM_REGS && at + |a| + |b| <= NUM_REGS
    ensures InFile([Send([at] + a, false), Send(b, true)], 0, true)
    ensures var t := Transfer(reg, [], [Send([at] + a, false), Send(b, true)], 0, true);
            && t.ok && t.received == []
            && forall i :: 0 <= i < NUM_REGS ==> t.reg[i] == if at <= i < at + |a| + |b| then (a + b)[i - at] else reg[i]
  {
    var rest := [Send(b, true)];
    assert rest[1..] == [];
    SendStep(reg, at, a, false, rest);
    assert [Send([at] + a, false)] + rest == [Send([at] + a, false), Send(b, true)];
  }

  lemma ReceiveOne(reg: seq<Byte>, received: seq<Byte>, count: nat, stop: bool, behind: seq<Message>, at: nat)
    requires |reg| == NUM_REGS && Inside(at, count) && InFile(behind, at + count, stop)
    ensures InFile([Receive(count, stop)] + behind, at, false)
    ensures Transfer(reg, received, [Receive(count, stop)] + behind, at, false)
            == Transfer(reg, received + Fetched(reg, at, count), behind, at + count, stop)
  {
    assert ([Receive(count, stop)] + behind)[1..] == behind;
  }

  lemma ReceiveTwo(reg: seq<Byte>, n: nat, m: nat, at: nat)
    requires |reg| == NUM_REGS && at + n + m <= NUM_REGS
    ensures InFile([Receive(n, false), Receive(m, true)], at, false)
    ensures Transfer(reg, [], [Receive(n, false), Receive(m, true)], at, false)
            == Transferred(reg, reg[at..at + n + m], true)
  {
    ReceiveOne(reg, Fetched(reg, at, n), m, true, [], at + n);
    ReceiveOne(reg, [], n, false, [Receive(m, true)], at);
    assert [Receive(m, true)] + [] == [Receive(m, true)];
    assert [Receive(n, false)] + [Receive(m, true)] == [Receive(n, false), Receive(m, true)];
    assert [] + Fetched(reg, at, n) == Fetched(reg, at, n);
    assert Fetched(reg, at, n) + Fetched(reg, at + n, m) == reg[at..at + n + m];
  }

  lemma ReadInParts(reg: seq<Byte>, at: Byte, n: nat, m: nat)
    requires |reg| == NUM_REGS && at + n + m <= NUM_REGS
    ensures InFile([Send([at], false), Receive(n, false), Receive(m, true)], 0, true)
    ensures Transfer(reg, [], [Send([at], false), Receive(n, false), Receive(m, true)], 0, true)
            == Transferred(reg, reg[at..at + n + m], true)
  {
    var rest := [Receive(n, false), Receive(m, true)];
    ReceiveTwo(reg, n, m, at);
    SendStep(reg, at, [], false, rest);
    assert [at] + [] == [at] && Stored(reg, at, []) == reg;
    assert [Send([at], false)] + rest == [Send([at], false), Receive(n, false), Receive(m, true)];
  }

  /** After a stop condition a register has to be named before anything is read. */
  lemma ReadNeedsRegister(reg: seq<Byte>, at: nat, count: nat, stop: bool, behind: seq<Message>)
    requires |reg| == NUM_REGS
    ensures InFile([Receive(count, stop)] + behind, at, true)
    ensures Transfer(reg, [], [Receive(count, stop)] + behind, at, true) == Transferred(reg, [], false)
  {
  }
}
