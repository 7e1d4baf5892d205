/** The stop-and-wait firmware update: the server of lib/uds_legacy/uds.c and the client of
    scripts/ardep_commands/uds_dfu.py over a link that loses requests and answers. */
module LegacyUpdate {
  import opened Iso14229
  import opened Sequences
  import opened Blocks

  const COUNTERS: nat := 0x100

  type Counter = n: nat | n < COUNTERS

  function Next(c: Counter): Counter
  {
    (c + 1) % COUNTERS
  }

  /** The counter of the last of n blocks, counting from zero; that of no block is the one before zero. */
  function LastCounter(n: nat): Counter
  {
    if n == 0 then 0xFF else Next(LastCounter(n - 1))
  }

  /** The client's counter, block number modulo 256, is the server's next one. */
  lemma {:induction false} LastCounterWraps(n: nat)
    ensures Next(LastCounter(n)) == n % COUNTERS
  {
    if n > 0 {
      LastCounterWraps(n - 1);
    }
  }

  datatype Refusal = BadFormat | FailurePrevents

  datatype Reply =
    | TransferOk(counter: Counter)
    | TransferRefused(why: Refusal)
    | ExitOk
    | ExitRefused(why: Refusal)
    | RoutineResult(code: int)

  /** A TransferData request; one without a counter is too short. */
  datatype DataRequest = TooShort | Data(counter: Counter, bytes: seq<byte>)

  /** block_id, flash_context_initialized and the flash context; the chunks written are kept apart. */
  datatype Server = Server(blockId: Counter, open: bool, written: seq<seq<byte>>)
  {
    function Image(): seq<byte>
    {
      Concat(written)
    }
  }

  /** How the server takes a request: a repeated counter is acknowledged again without a write, the next counter is
      written, anything else is refused but still advances the counter. A write that fails is refused and then, all the
      same, acknowledged. */
  function OnTransferData(s: Server, request: DataRequest, writeOk: bool): (Server, seq<Reply>)
  {
    match request
    case TooShort => (s, [TransferRefused(BadFormat)])
    case Data(counter, bytes) =>
      if counter == s.blockId then (s, [TransferOk(counter)])
      else
        var next := s.(blockId := Next(s.blockId));
        if counter != Next(s.blockId) then (next, [TransferRefused(BadFormat)])
        else if !s.open then (next, [TransferRefused(FailurePrevents)])
        else if !writeOk then (next, [TransferRefused(FailurePrevents), TransferOk(counter)])
        else (next.(written := s.written + [bytes]), [TransferOk(counter)])
  }

  /** Every way a data request is answered, and what it leaves. */
  lemma DataAnswers(s: Server, request: DataRequest, writeOk: bool)
    ensures var (s', replies) := OnTransferData(s, request, writeOk);
            && s'.open == s.open
            && (request.TooShort? ==> s' == s && replies == [TransferRefused(BadFormat)])
            && (request.Data? && request.counter == s.blockId ==> s' == s && replies == [TransferOk(s.blockId)])
            && (request.Data? && request.counter != s.blockId ==>
                  var due := request.counter == (s.blockId + 1) % 256;
                  && s'.blockId == (s.blockId + 1) % 256
                  && s'.written == (if due && s.open && writeOk then s.written + [request.bytes] else s.written)
                  && (!due ==> replies == [TransferRefused(BadFormat)])
                  && (due && !s.open ==> replies == [TransferRefused(FailurePrevents)])
                  && (due && s.open && writeOk ==> replies == [TransferOk(request.counter)])
                  && (due && s.open && !writeOk ==>
                        replies == [TransferRefused(FailurePrevents), TransferOk(request.counter)]))
  {
  }

  class LegacyServer {
    var flashContextInitialized: bool
    var blockId: Counter
    var chunks: seq<seq<byte>>

    ghost function Now(): Server
      reads this
    {
      Server(blockId, flashContextInitialized, chunks)
    }

    constructor ()
      ensures Now() == Server(0xF, false, [])
    {
      flashContextInitialized, blockId, chunks := false, 0xF, [];
    }

    /** Routine 1337: a fresh flash context, and a counter whose successor is zero. */
    method HandleEraseRoutine(initError: int) returns (reply: Reply)
      modifies this
      ensures reply == RoutineResult(initError)
      ensures initError == 0 ==> Now() == Server(0xFF, true, [])
      ensures initError != 0 ==> Now() == old(Now())
    {
      if initError != 0 {
        return RoutineResult(initError);
      }
      chunks := [];
      flashContextInitialized := true;
      blockId := 0xFF;
      return RoutineResult(0);
    }

    method HandleTransferData(request: DataRequest, writeOk: bool) returns (replies: seq<Reply>)
      modifies this
      ensures (Now(), replies) == OnTransferData(old(Now()), request, writeOk)
    {
      replies := [];
      if request.TooShort? {
        return [TransferRefused(BadFormat)];
      }
      if request.counter == blockId {
        return [TransferOk(blockId)];
      }
      blockId := Next(blockId);
      if request.counter != blockId {
        return [TransferRefused(BadFormat)];
      }
      if !flashContextInitialized {
        return [TransferRefused(FailurePrevents)];
      }
      if writeOk {
        chunks := chunks + [request.bytes];
      } else {
        replies := [TransferRefused(FailurePrevents)];
      }
      replies := replies + [TransferOk(blockId)];
      assert replies == if writeOk then [TransferOk(blockId)] else [TransferRefused(FailurePrevents), TransferOk(blockId)];
    }

    /** A flush that fails is refused, and then the exit is confirmed all the same. */
    method HandleTransferExit(flushOk: bool) returns (replies: seq<Reply>)
      modifies this
      ensures replies == if !old(flashContextInitialized) then [ExitRefused(FailurePrevents)]
                         else if flushOk then [ExitOk] else [ExitRefused(FailurePrevents), ExitOk]
      ensures Now() == old(Now()).(open := false)
    {
      replies := [];
      if !flashContextInitialized {
        return [ExitRefused(FailurePrevents)];
      }
      if !flushOk {
        replies := [ExitRefused(FailurePrevents)];
      }
      flashContextInitialized := false;
      replies := replies + [ExitOk];
    }
  }

  // ---- the protocol as steps ---------------------------------------------------------------------------------

  /** What the link does with one exchange. */
  datatype Fate = Delivered | RequestLost | AnswerLost

  /** One attempt: what the link does, and whether the flash takes the block if it comes to a write. */
  datatype Try = Try(fate: Fate, writeOk: bool)

  /** The client has seen `acked` blocks acknowledged and sends block number `acked`. */
  datatype World = World(server: Server, acked: nat, refused: bool)

  /** One attempt of the client, whatever becomes of it. The first reply is the one it takes for the answer. */
  function Attempt(w: World, blocks: seq<seq<byte>>, t: Try): World
  {
    if w.refused || w.acked >= |blocks| || t.fate == RequestLost then w
    else
      var (server, replies) := OnTransferData(w.server, Data(w.acked % COUNTERS, blocks[w.acked]), t.writeOk);
      if t.fate == AnswerLost then w.(server := server)
      else if replies[0] == TransferOk(w.acked % COUNTERS) then w.(server := server, acked := w.acked + 1)
      else w.(server := server, refused := true)
  }

  function Attempts(w: World, blocks: seq<seq<byte>>, tries: seq<Try>): World
  {
    if tries == [] then w
    else Attempt(Attempts(w, blocks, tries[..|tries| - 1]), blocks, tries[|tries| - 1])
  }

  const START := World(Server(0xFF, true, []), 0, false)

  /** The attempt comes to a write. */
  predicate ComesToWrite(w: World, blocks: seq<seq<byte>>, t: Try)
  {
    && !w.refused && w.acked < |blocks| && t.fate != RequestLost
    && w.server.open && w.acked % COUNTERS == Next(w.server.blockId)
  }

  /** The attempts of a run that came to a write. */
  function Writes(blocks: seq<seq<byte>>, tries: seq<Try>): seq<Try>
  {
    if tries == [] then []
    else
      var init, last := tries[..|tries| - 1], tries[|tries| - 1];
      if ComesToWrite(Attempts(START, blocks, init), blocks, last) then Writes(blocks, init) + [last]
      else Writes(blocks, init)
  }

  function Taken(writes: seq<Try>): seq<bool>
  {
    seq(|writes|, i requires 0 <= i < |writes| => writes[i].writeOk)
  }

  /** The first blocks without those that the flash did not take. */
  function Kept(blocks: seq<seq<byte>>, taken: seq<bool>): (kept: seq<seq<byte>>)
    requires |taken| <= |blocks|
    ensures |kept| <= |taken|
  {
    if taken == [] then []
    else
      var n := |taken| - 1;
      Kept(blocks, taken[..n]) + if taken[n] then [blocks[n]] else []
  }

  /** None is missing, neither as a block nor in the bytes, if and only if all were taken. */
  lemma {:induction false} NoneMissing(blocks: seq<seq<byte>>, taken: seq<bool>)
    requires |taken| <= |blocks|
    ensures Kept(blocks, taken) == blocks[..|taken|] <==> false !in taken
    ensures |Concat(Kept(blocks, taken))| <= |Concat(blocks[..|taken|])|
    ensures (forall i :: 0 <= i < |blocks| ==> blocks[i] != []) ==>
              (Concat(Kept(blocks, taken)) == Concat(blocks[..|taken|]) <==> false !in taken)
    decreases |taken|
  {
    if taken == [] {
      assert blocks[..0] == [];
    } else {
      var n := |taken| - 1;
      var init, last := taken[..n], taken[n];
      NoneMissing(blocks, init);
      assert taken == init + [last];
      assert blocks[..n + 1] == blocks[..n] + [blocks[n]];
      assert Concat([blocks[n]]) == blocks[n];
      ConcatSplits(blocks[..n], [blocks[n]]);
      if !last {
        assert Kept(blocks, taken) == Kept(blocks, init);
      } else {
        ConcatSplits(Kept(blocks, init), [blocks[n]]);
        AppendedSame(Kept(blocks, init), blocks[..n], [blocks[n]]);
        AppendedSame(Concat(Kept(blocks, init)), Concat(blocks[..n]), blocks[n]);
      }
    }
  }

  lemma AppendedSame<T>(a: seq<T>, b: seq<T>, c: seq<T>)
    ensures a + c == b + c <==> a == b
  {
    if a + c == b + c {
      assert (a + c)[..|a|] == a && (b + c)[..|b|] == b;
    }
  }

  /** Each of the first k or k + 1 blocks has come to a write exactly once, k being the number acknowledged; the server
      holds those that the flash took, in order, and its counter is that of the last one. The client has been refused
      exactly if it heard of a write that failed. */
  ghost predicate InStep(w: World, blocks: seq<seq<byte>>, writes: seq<Try>)
  {
    && w.server.open && w.acked <= |blocks|
    && (|writes| == w.acked || (w.acked < |blocks| && |writes| == w.acked + 1))
    && w.server.blockId == LastCounter(|writes|)
    && w.server.written == Kept(blocks, Taken(writes))
    && (w.refused <==> Try(Delivered, false) in writes) && (w.refused ==> |writes| == w.acked + 1)
  }

  lemma AttemptKeepsStep(w: World, blocks: seq<seq<byte>>, writes: seq<Try>, t: Try)
    requires InStep(w, blocks, writes)
    ensures InStep(Attempt(w, blocks, t), blocks, if ComesToWrite(w, blocks, t) then writes + [t] else writes)
    ensures w.refused ==> Attempt(w, blocks, t) == w
    ensures !Attempt(w, blocks, t).refused ==>
              Attempt(w, blocks, t).acked == w.acked + if t.fate == Delivered && w.acked < |blocks| then 1 else 0
  {
    LastCounterWraps(w.acked);
    LastCounterWraps(w.acked + 1);
    if ComesToWrite(w, blocks, t) {
      var longer := writes + [t];
      assert |writes| == w.acked;
      assert Taken(longer)[..|writes|] == Taken(writes) && Taken(longer)[|writes|] == t.writeOk;
    }
  }

  lemma {:induction false} RunKeepsStep(blocks: seq<seq<byte>>, tries: seq<Try>)
    ensures InStep(Attempts(START, blocks, tries), blocks, Writes(blocks, tries))
    decreases |tries|
  {
    if tries == [] {
      assert Taken([]) == [];
    } else {
      var init, last := tries[..|tries| - 1], tries[|tries| - 1];
      RunKeepsStep(blocks, init);
      AttemptKeepsStep(Attempts(START, blocks, init), blocks, Writes(blocks, init), last);
    }
  }

  /** For every sequence of losses, deliveries and failing writes, of any length and across every wrap of the counter:
      each block is written at most once and the server holds exactly what the flash took. If it took everything, the
      image is the concatenation of the first k or k + 1 blocks and the client is never refused. */
  lemma EveryRunInStep(blocks: seq<seq<byte>>, tries: seq<Try>)
    ensures var w, writes := Attempts(START, blocks, tries), Writes(blocks, tries);
            && InStep(w, blocks, writes)
            && (false !in Taken(writes) ==>
                  && !w.refused
                  && (w.server.Image() == Concat(blocks[..w.acked]) ||
                      (w.acked < |blocks| && w.server.Image() == Concat(blocks[..w.acked + 1]))))
  {
    RunKeepsStep(blocks, tries);
    NoneMissing(blocks, Taken(Writes(blocks, tries)));
    HeardIsFailed(Writes(blocks, tries));
  }

  lemma HeardIsFailed(writes: seq<Try>)
    ensures Try(Delivered, false) in writes ==> false in Taken(writes)
  {
    if Try(Delivered, false) in writes {
      var i :| 0 <= i < |writes| && writes[i] == Try(Delivered, false);
      assert Taken(writes)[i] == false;
    }
  }

  /** When a block is lost: a client that has seen all blocks acknowledged has left the whole file behind if and only if
      no write of the run failed. As long as blocks are not empty the same can be said of the bytes, at every moment. */
  lemma CompleteIffAllTaken(blocks: seq<seq<byte>>, tries: seq<Try>)
    ensures var w, writes := Attempts(START, blocks, tries), Writes(blocks, tries);
            && |writes| <= |blocks|
            && (w.acked == |blocks| ==> (w.server.written == blocks <==> false !in Taken(writes)))
            && ((forall i :: 0 <= i < |blocks| ==> blocks[i] != []) ==>
                  (w.server.Image() == Concat(blocks[..|writes|]) <==> false !in Taken(writes)))
  {
    EveryRunInStep(blocks, tries);
    NoneMissing(blocks, Taken(Writes(blocks, tries)));
    assert blocks[..|blocks|] == blocks;
  }

  /** An input for which it is: two blocks, and the first one's write fails while its answer is lost. */
  lemma LostBlockRun(first: seq<byte>, second: seq<byte>)
    ensures var tries := [Try(AnswerLost, false), Try(Delivered, true), Try(Delivered, true)];
            Attempts(START, [first, second], tries) == World(Server(1, true, [second]), 2, false)
  {
    var blocks, tries := [first, second], [Try(AnswerLost, false), Try(Delivered, true), Try(Delivered, true)];
    assert tries[..2] == [tries[0], tries[1]] && tries[..2][..1] == [tries[0]] && tries[..1][..0] == [];
    var w1 := Attempt(START, blocks, tries[0]);
    assert w1 == World(Server(0, true, []), 0, false);
    assert Attempts(START, blocks, [tries[0]]) == w1;
    var w2 := Attempt(w1, blocks, tries[1]);
    assert w2 == World(Server(0, true, []), 1, false);
    assert Attempts(START, blocks, [tries[0], tries[1]]) == w2;
    assert [] + [second] == [second];
  }

  function Deliveries(tries: seq<Try>): nat
  {
    if tries == [] then 0
    else Deliveries(tries[..|tries| - 1]) + if tries[|tries| - 1].fate == Delivered then 1 else 0
  }

  /** Progress: as long as it is not refused the client has been acknowledged one block for each exchange the link
      delivered whole, whatever the flash took; and once there are as many as blocks, and the flash took them all, the
      server holds the whole file. */
  lemma {:induction false} DeliveriesAreProgress(blocks: seq<seq<byte>>, tries: seq<Try>)
    ensures var w, writes := Attempts(START, blocks, tries), Writes(blocks, tries);
            && (!w.refused ==> w.acked == if Deliveries(tries) < |blocks| then Deliveries(tries) else |blocks|)
            && (false !in Taken(writes) && Deliveries(tries) >= |blocks| ==> w.server.Image() == Concat(blocks))
    decreases |tries|
  {
    EveryRunInStep(blocks, tries);
    if tries != [] {
      var init, last := tries[..|tries| - 1], tries[|tries| - 1];
      DeliveriesAreProgress(blocks, init);
      EveryRunInStep(blocks, init);
      AttemptKeepsStep(Attempts(START, blocks, init), blocks, Writes(blocks, init), last);
    }
    assert blocks[..|blocks|] == blocks;
  }

  /** How a write that fails loses its block: the client is told and stops if the answer arrives; if it is lost, the
      block sent again is acknowledged and never written. */
  lemma FailedWriteLosesBlock(w: World, blocks: seq<seq<byte>>, writes: seq<Try>, writeOk: bool)
    requires InStep(w, blocks, writes) && !w.refused && |writes| == w.acked < |blocks|
    ensures Attempt(w, blocks, Try(Delivered, writeOk)).refused <==> !writeOk
    ensures var after := Attempt(Attempt(w, blocks, Try(AnswerLost, writeOk)), blocks, Try(Delivered, true));
            && after.acked == w.acked + 1 && !after.refused
            && (after.server.written == w.server.written + [blocks[w.acked]] <==> writeOk)
            && (after.server.written == w.server.written <==> !writeOk)
  {
    LastCounterWraps(w.acked);
  }

  /** Why the client must keep to its sequence: whatever request comes before it, the block that is due is acknowledged,
      on a flash that takes every write; it is written, and nothing else is, if and only if that request repeated the
      last counter, or was the block itself. Nothing is written if and only if the counter was neither the last nor the
      next; with the next counter and other data those stand in its place. */
  lemma SkippedCounterLosesBlock(s: Server, counter: Counter, data: seq<byte>, due: seq<byte>)
    requires s.open
    ensures var (s1, first) := OnTransferData(s, Data(counter, data), true);
            var (s2, second) := OnTransferData(s1, Data(Next(s.blockId), due), true);
            && second == [TransferOk(Next(s.blockId))]
            && (s2.written == s.written + [due] <==>
                  counter == s.blockId || (counter == Next(s.blockId) && data == due))
            && (s2.written == s.written <==> counter != s.blockId && counter != Next(s.blockId))
            && (counter == Next(s.blockId) ==> s2.written == s.written + [data])
            && (first == [TransferRefused(BadFormat)] <==> counter != s.blockId && counter != Next(s.blockId))
  {
    if data != due {
      assert (s.written + [data])[|s.written|] != (s.written + [due])[|s.written|];
    }
  }

  // ---- the client's loop -------------------------------------------------------------------------------------

  datatype Outcome = Finished | GaveUp | NegativeResponse

  /** What link and flash do with attempt i at block n. */
  type Link = (nat, nat) -> Try

  ghost predicate GetsThrough(link: Link, n: nat)
  {
    exists i :: 0 <= i < 10 && link(n, i).fate == Delivered
  }

  /** The first attempt from i on whose request arrives; ten if none does. */
  function Arrival(link: Link, n: nat, i: nat): (a: nat)
    requires i <= 10
    ensures i <= a <= 10 && (a < 10 ==> link(n, a).fate != RequestLost)
    ensures forall j :: i <= j < a ==> link(n, j).fate == RequestLost
    decreases 10 - i
  {
    if i == 10 || link(n, i).fate != RequestLost then i else Arrival(link, n, i + 1)
  }

  /** The block arrives and the flash takes it. */
  predicate IsTaken(link: Link, n: nat)
  {
    var a := Arrival(link, n, 0);
    a < 10 && link(n, a).writeOk
  }

  /** The client hears of a write that failed. */
  predicate HearsFailure(link: Link, n: nat)
  {
    var a := Arrival(link, n, 0);
    a < 10 && link(n, a) == Try(Delivered, false)
  }

  ghost function BlockOutcome(link: Link, n: nat): Outcome
  {
    if HearsFailure(link, n) then NegativeResponse else if GetsThrough(link, n) then Finished else GaveUp
  }

  /** One block, at most ten attempts: it comes to a write once or not at all, and the client learns of a failed write
      only with the answer to the attempt that made it. */
  method TransferBlock(server: LegacyServer, block: Counter, data: seq<byte>, link: Link, n: nat)
    returns (outcome: Outcome)
    requires server.flashContextInitialized && block == Next(server.blockId)
    modifies server
    ensures outcome == BlockOutcome(link, n)
    ensures server.Now() == if Arrival(link, n, 0) == 10 then old(server.Now())
                            else if IsTaken(link, n) then
                              old(server.Now()).(blockId := block, written := old(server.chunks) + [data])
                            else old(server.Now()).(blockId := block)
  {
    ghost var a, before := Arrival(link, n, 0), server.Now();
    ghost var after := before.(blockId := block, written := server.chunks + if IsTaken(link, n) then [data] else []);
    var i := 0;
    while i < 10
      invariant 0 <= i <= 10
      invariant forall j :: 0 <= j < i ==> link(n, j).fate != Delivered
      invariant server.Now() == if i <= a then before else after
    {
      if link(n, i).fate != RequestLost {
        var replies := server.HandleTransferData(Data(block, data), link(n, i).writeOk);
        assert server.Now() == after;
        assert replies[0] == TransferOk(block) <==> i > a || link(n, i).writeOk;
        if link(n, i).fate == Delivered {
          return if replies[0] == TransferOk(block) then Finished else NegativeResponse;
        }
      }
      i := i + 1;
    }
    return GaveUp;
  }

  function TakenBlocks(link: Link, n: nat): (taken: seq<bool>)
    ensures |taken| == n
  {
    seq(n, k requires 0 <= k < n => IsTaken(link, k))
  }

  /** What the flash takes of the first n blocks. */
  function Landed(blocks: seq<seq<byte>>, link: Link, n: nat): seq<seq<byte>>
    requires n <= |blocks|
  {
    if n == 0 then [] else Landed(blocks, link, n - 1) + if IsTaken(link, n - 1) then [blocks[n - 1]] else []
  }

  lemma {:induction false} LandedIsKept(blocks: seq<seq<byte>>, link: Link, n: nat)
    requires n <= |blocks|
    ensures Landed(blocks, link, n) == Kept(blocks, TakenBlocks(link, n))
    decreases n
  {
    if n > 0 {
      LandedIsKept(blocks, link, n - 1);
      OneMoreBlock(blocks, link, n - 1);
    }
  }

  /** The server holds what the flash took of the first n blocks. */
  ghost predicate Holds(server: LegacyServer, blocks: seq<seq<byte>>, link: Link, n: nat)
    requires n <= |blocks|
    reads server
  {
    server.chunks == Landed(blocks, link, n)
  }

  lemma OneMoreBlock(blocks: seq<seq<byte>>, link: Link, n: nat)
    requires n < |blocks|
    ensures Kept(blocks, TakenBlocks(link, n + 1))
            == Kept(blocks, TakenBlocks(link, n)) + if IsTaken(link, n) then [blocks[n]] else []
  {
    var taken := TakenBlocks(link, n + 1);
    assert taken[..n] == TakenBlocks(link, n) && taken[n] == IsTaken(link, n);
  }

  /** Block n of the file, to a server to which the blocks before it came. */
  method SendBlock(server: LegacyServer, ghost blocks: seq<seq<byte>>, n: nat, block: Counter, data: seq<byte>,
                   link: Link) returns (outcome: Outcome)
    requires n < |blocks| && blocks[n] == data && block == Next(LastCounter(n))
    requires server.flashContextInitialized && server.blockId == LastCounter(n) && Holds(server, blocks, link, n)
    modifies server
    ensures outcome == BlockOutcome(link, n)
    ensures server.flashContextInitialized && Holds(server, blocks, link, n + 1)
    ensures outcome == Finished ==> server.blockId == LastCounter(n + 1)
  {
    outcome := TransferBlock(server, block, data, link, n);
  }

  /** How many blocks of a file pass before the first that does not. */
  function Passed(outcomes: nat -> Outcome, total: nat): (n: nat)
    ensures n <= total
  {
    if total == 0 then 0
    else
      var n := Passed(outcomes, total - 1);
      if n == total - 1 && outcomes(n) == Finished then total else n
  }

  lemma {:induction false} PassedMeans(outcomes: nat -> Outcome, total: nat)
    ensures var n := Passed(outcomes, total);
            && (n < total ==> outcomes(n) != Finished)
            && forall k :: 0 <= k < n ==> outcomes(k) == Finished
    decreases total
  {
    if total > 0 {
      PassedMeans(outcomes, total - 1);
    }
  }

  lemma {:induction false} PassedStops(outcomes: nat -> Outcome, total: nat, n: nat)
    requires Passed(outcomes, n) == n < total && outcomes(n) != Finished
    ensures Passed(outcomes, total) == n
    decreases total
  {
    if n < total - 1 {
      PassedStops(outcomes, total - 1, n);
    }
  }

  ghost function Outcomes(link: Link): nat -> Outcome
  {
    (n: nat) => BlockOutcome(link, n)
  }

  /** Before block n: those before it have passed. */
  ghost predicate Before(server: LegacyServer, blocks: seq<seq<byte>>, link: Link, n: nat, block: Counter)
    reads server
  {
    && n <= |blocks| && block == Next(LastCounter(n)) && Passed(Outcomes(link), n) == n
    && server.flashContextInitialized && server.blockId == LastCounter(n) && Holds(server, blocks, link, n)
  }

  /** Where the loop over the blocks ends. */
  ghost predicate Stopped(server: LegacyServer, blocks: seq<seq<byte>>, link: Link, outcome: Outcome)
    reads server
  {
    var n := Passed(Outcomes(link), |blocks|);
    && server.flashContextInitialized
    && (if n < |blocks| then outcome == BlockOutcome(link, n) && Holds(server, blocks, link, n + 1)
        else outcome == Finished && Holds(server, blocks, link, n))
  }

  /** data[offset : offset + length] */
  function NextSlice(file: seq<byte>, offset: nat, length: nat): seq<byte>
    requires offset < |file|
  {
    file[offset..if offset + length <= |file| then offset + length else |file|]
  }

  function LeftToSend(file: seq<byte>, offset: nat, length: nat): seq<seq<byte>>
    requires length > 0
  {
    if offset < |file| then Split(file[offset..], length) else []
  }

  /** The blocks from n on are those of the file from the offset on. */
  ghost predicate ToSend(file: seq<byte>, offset: nat, length: nat, blocks: seq<seq<byte>>, n: nat)
  {
    length > 0 && n <= |blocks| && blocks[n..] == LeftToSend(file, offset, length)
  }

  lemma CutNext(file: seq<byte>, offset: nat, length: nat, blocks: seq<seq<byte>>, n: nat)
    requires length > 0 && offset < |file| && ToSend(file, offset, length, blocks, n)
    ensures n < |blocks| && blocks[n] == NextSlice(file, offset, length)
    ensures ToSend(file, offset + length, length, blocks, n + 1)
  {
    var rest := file[offset..];
    assert blocks[n..] == Split(rest, length);
    assert blocks[n] == blocks[n..][0];
    assert blocks[n + 1..] == blocks[n..][1..];
    if |rest| > length {
      assert rest[length..] == file[offset + length..];
      assert Split(rest, length)[1..] == Split(rest[length..], length);
    } else {
      assert Split(rest, length) == [rest];
    }
  }

  /** The next slice of the file goes out. */
  method SendNext(server: LegacyServer, file: seq<byte>, offset: nat, length: nat, ghost blocks: seq<seq<byte>>, n: nat,
                  block: Counter, link: Link) returns (outcome: Outcome)
    requires offset < |file| && ToSend(file, offset, length, blocks, n) && Before(server, blocks, link, n, block)
    modifies server
    ensures if outcome == Finished then
              ToSend(file, offset + length, length, blocks, n + 1) && Before(server, blocks, link, n + 1, Next(block))
            else Stopped(server, blocks, link, outcome)
  {
    CutNext(file, offset, length, blocks, n);
    outcome := SendBlock(server, blocks, n, block, NextSlice(file, offset, length), link);
    if outcome != Finished {
      PassedStops(Outcomes(link), |blocks|, n);
    }
  }

  /** The loop over the file: it stops at the first block that does not pass, and the server holds what the flash took
      up to there. */
  method SendFile(server: LegacyServer, file: seq<byte>, length: nat, link: Link, ghost blocks: seq<seq<byte>>)
    returns (outcome: Outcome)
    requires ToSend(file, 0, length, blocks, 0) && Before(server, blocks, link, 0, 0)
    modifies server
    ensures Stopped(server, blocks, link, outcome)
  {
    var offset, n := 0, 0;
    var block: Counter := 0;
    while offset < |file|
      invariant ToSend(file, offset, length, blocks, n)
      invariant Before(server, blocks, link, n, block)
      decreases |file| - offset
    {
      outcome := SendNext(server, file, offset, length, blocks, n, block, link);
      if outcome != Finished {
        return;
      }
      offset, block, n := offset + length, Next(block), n + 1;
    }
    AllSent(file, offset, length, blocks, n);
    return Finished;
  }

  lemma AllSent(file: seq<byte>, offset: nat, length: nat, blocks: seq<seq<byte>>, n: nat)
    requires offset >= |file| && ToSend(file, offset, length, blocks, n)
    ensures n == |blocks|
  {
    assert blocks[n..] == [];
  }

  /** The flash takes every block that is sent. */
  predicate AllTaken(link: Link, total: nat)
  {
    forall k :: 0 <= k < total ==> IsTaken(link, k)
  }

  ghost predicate AllThrough(link: Link, total: nat)
  {
    forall k :: 0 <= k < total ==> GetsThrough(link, k)
  }

  lemma AllTakenPass(link: Link, total: nat)
    requires AllTaken(link, total)
    ensures forall k :: 0 <= k < total ==> BlockOutcome(link, k) != NegativeResponse
    ensures AllThrough(link, total) ==> Passed(Outcomes(link), total) == total
  {
    forall k | 0 <= k < total
      ensures BlockOutcome(link, k) != NegativeResponse
    {
      assert IsTaken(link, k);
    }
    PassedMeans(Outcomes(link), total);
  }

  method RequestExit(server: LegacyServer, exit: Fate, flushOk: bool) returns (outcome: Outcome)
    requires server.flashContextInitialized
    modifies server
    ensures outcome == if exit != Delivered then GaveUp else if flushOk then Finished else NegativeResponse
    ensures server.Now() == if exit == RequestLost then old(server.Now()) else old(server.Now()).(open := false)
  {
    if exit == RequestLost {
      return GaveUp;
    }
    var replies := server.HandleTransferExit(flushOk);
    return if exit == AnswerLost then GaveUp else if replies[0] == ExitOk then Finished else NegativeResponse;
  }

  /** What the flash took of the first n blocks is all of them, also in the bytes, if and only if it took each. */
  lemma LandedAll(blocks: seq<seq<byte>>, link: Link, n: nat)
    requires n <= |blocks| && forall i :: 0 <= i < |blocks| ==> blocks[i] != []
    ensures Landed(blocks, link, n) == blocks[..n] <==> AllTaken(link, n)
    ensures Concat(Landed(blocks, link, n)) == Concat(blocks[..n]) <==> AllTaken(link, n)
  {
    var taken := TakenBlocks(link, n);
    NoneMissing(blocks, taken);
    LandedIsKept(blocks, link, n);
    assert forall k :: 0 <= k < n ==> taken[k] == IsTaken(link, k);
  }

  /** write_image after its two opening requests: the file goes out block by block, and the exit request is sent once.
      The client stops at the first block that does not pass, and the server holds what the flash took up to there. A
      client that finishes has left exactly the file behind if and only if the flash took every block. */
  method WriteImage(server: LegacyServer, file: seq<byte>, length: nat, link: Link, exit: Fate, flushOk: bool)
    returns (outcome: Outcome)
    requires length > 0 && server.Now() == Server(0xFF, true, [])
    modifies server
    ensures var blocks := Split(file, length);
            var n := Passed(Outcomes(link), |blocks|);
            if n < |blocks| then
              outcome == BlockOutcome(link, n) && server.flashContextInitialized && Holds(server, blocks, link, n + 1)
            else
              && outcome == (if exit != Delivered then GaveUp else if flushOk then Finished else NegativeResponse)
              && (server.flashContextInitialized <==> exit == RequestLost) && Holds(server, blocks, link, n)
    ensures outcome == Finished ==> (server.Now().Image() == file <==> AllTaken(link, |Split(file, length)|))
    ensures AllTaken(link, |Split(file, length)|) ==>
              && server.chunks <= Split(file, length) && (outcome == NegativeResponse ==> !flushOk)
              && (outcome == Finished ==> server.chunks == Split(file, length))
              && (AllThrough(link, |Split(file, length)|) ==> server.Now().Image() == file)
  {
    ghost var blocks := Split(file, length);
    ghost var n := Passed(Outcomes(link), |blocks|);
    SplitCovers(file, length);
    PassedMeans(Outcomes(link), |blocks|);
    LandedAll(blocks, link, if n < |blocks| then n + 1 else n);
    assert file[0..] == file && blocks[0..] == blocks;
    outcome := SendFile(server, file, length, link, blocks);
    if outcome != Finished {
      if AllTaken(link, |blocks|) {
        AllTakenPass(link, |blocks|);
      }
      return;
    }
    assert blocks[..n] == blocks;
    outcome := RequestExit(server, exit, flushOk);
  }
}
