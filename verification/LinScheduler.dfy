/** The LIN schedule thread and one controlling client as interleaved atomic steps
    (drivers/lin/abstract_lin/lin_scheduler.c). */
module LinScheduler {
  import opened Blocks

  type FrameId = nat

  /** A schedule table is the list of its frame ids; the delays only decide how long the thread sleeps. */
  type Tables = seq<seq<FrameId>>

  const NO_TABLE := -1

  datatype ThreadPc = Take | TakeBlocked | ReadTable | TakeEntry | WrapEntry | SendFrame | Give | Sleep

  datatype ClientPc =
    | Ready
    | SetTake(index: nat)
    | SetBlocked(index: nat)
    | WriteTable(index: nat)
    | WriteEntry
    | SetGive
    | DisableTake
    | DisableBlocked
    | ClearTable

  datatype Step = Thread | Client | CallSetActive(index: nat) | CallDisable

  /** The shared fields, the semaphore `active`, both program counters, the thread's locals, and the frames sent since
      the last activation. `strayed` records a read past the end of a table. */
  datatype State = State(
    table: int,
    entry: nat,
    active: nat,
    thread: ThreadPc,
    client: ClientPc,
    row: int,
    slot: nat,
    sent: seq<FrameId>,
    strayed: bool)

  function Initial(table: int): State
  {
    State(table, 0, if table != NO_TABLE then 1 else 0, Take, Ready, NO_TABLE, 0, [], false)
  }

  /** k_sem_give hands the count to a blocked taker, if there is one, and otherwise saturates at one. */
  function GiveByThread(s: State): State
  {
    if s.client.SetBlocked? then s.(client := WriteTable(s.client.index))
    else if s.client.DisableBlocked? then s.(client := ClearTable)
    else s.(active := 1)
  }

  function GiveByClient(s: State): State
  {
    if s.thread.TakeBlocked? then s.(thread := ReadTable) else s.(active := 1)
  }

  function ThreadStep(tables: Tables, s: State): State
  {
    match s.thread
    case Take => if s.active > 0 then s.(active := s.active - 1, thread := ReadTable) else s.(thread := TakeBlocked)
    case TakeBlocked => s
    case ReadTable => s.(row := s.table, thread := TakeEntry)
    case TakeEntry =>
      if 0 <= s.row < |tables| && s.entry < |tables[s.row]| then
        s.(slot := s.entry, entry := s.entry + 1, thread := WrapEntry)
      else s.(strayed := true)
    case WrapEntry =>
      if 0 <= s.row < |tables| && s.entry >= |tables[s.row]| then s.(entry := 0, thread := SendFrame)
      else s.(thread := SendFrame)
    case SendFrame =>
      if 0 <= s.row < |tables| && s.slot < |tables[s.row]| then
        s.(sent := s.sent + [tables[s.row][s.slot]], thread := Give)
      else s.(strayed := true)
    case Give => GiveByThread(s).(thread := Sleep)
    case Sleep => s.(thread := Take)
  }

  function ClientStep(s: State): State
  {
    match s.client
    case Ready => s
    case SetTake(i) =>
      if s.active > 0 then s.(active := s.active - 1, client := WriteTable(i)) else s.(client := SetBlocked(i))
    case SetBlocked(_) => s
    case WriteTable(i) => s.(table := i, client := WriteEntry)
    case WriteEntry => s.(entry := 0, sent := [], client := SetGive)
    case SetGive => GiveByClient(s).(client := Ready)
    case DisableTake =>
      if s.active > 0 then s.(active := s.active - 1, client := ClearTable) else s.(client := DisableBlocked)
    case DisableBlocked => s
    case ClearTable => s.(table := NO_TABLE, client := Ready)
  }

  function Next(tables: Tables, s: State, step: Step): State
  {
    if s.strayed then s
    else
      match step
      case Thread => ThreadStep(tables, s)
      case Client => ClientStep(s)
      case CallSetActive(i) =>
        if !s.client.Ready? || i >= |tables| then s
        else if s.table != NO_TABLE then s.(client := SetTake(i))
        else s.(client := WriteTable(i))
      case CallDisable =>
        if !s.client.Ready? || s.table == NO_TABLE then s else s.(client := DisableTake)
  }

  function After(tables: Tables, s: State, steps: seq<Step>): State
    decreases |steps|
  {
    if steps == [] then s else After(tables, Next(tables, s, steps[0]), steps[1..])
  }

  // ---- ownership ---------------------------------------------------------------------------------------------

  predicate ThreadHolds(s: State)
  {
    s.thread.ReadTable? || s.thread.TakeEntry? || s.thread.WrapEntry? || s.thread.SendFrame? || s.thread.Give?
  }

  predicate ClientHolds(s: State)
  {
    s.client.WriteTable? || s.client.WriteEntry? || s.client.SetGive? || s.client.ClearTable?
  }

  predicate ClientBlocked(s: State)
  {
    s.client.SetBlocked? || s.client.DisableBlocked?
  }

  predicate Disabled(s: State)
  {
    s.table == NO_TABLE && !ClientHolds(s)
  }

  function One(b: bool): nat
  {
    if b then 1 else 0
  }

  /** The single right to touch the table and entry index: in the semaphore, with the thread, with the client, or
      withheld because the scheduler is disabled. */
  ghost predicate OneHolder(s: State)
  {
    s.active + One(ThreadHolds(s)) + One(ClientHolds(s)) + One(Disabled(s)) == 1
  }

  /** Program points of the client that lie behind its own look at the table index. */
  predicate ActivatedBefore(s: State)
  {
    !s.client.Ready? && !s.client.WriteTable?
  }

  ghost predicate IndicesMakeSense(tables: Tables, s: State)
  {
    && NO_TABLE <= s.table < |tables|
    && (s.client.SetTake? || s.client.SetBlocked? || s.client.WriteTable? ==> s.client.index < |tables|)
    && (ActivatedBefore(s) ==> s.table != NO_TABLE)
    && (ThreadHolds(s) ==> s.table != NO_TABLE)
    && (ThreadHolds(s) && !s.thread.ReadTable? ==> s.row == s.table)
    && (s.thread.TakeBlocked? || ClientBlocked(s) ==> s.active == 0)
    && (ClientBlocked(s) ==> ThreadHolds(s))
  }

  /** Frame k is entry k modulo the count of the table, for each frame sent. */
  ghost predicate AreTurns(rows: seq<FrameId>, sent: seq<FrameId>)
  {
    sent == [] ||
    (var k := |sent| - 1; rows != [] && sent[k] == rows[k % |rows|] && AreTurns(rows, sent[..k]))
  }

  lemma {:induction false} TurnAt(rows: seq<FrameId>, sent: seq<FrameId>, k: nat)
    requires AreTurns(rows, sent) && k < |sent|
    ensures rows != [] && sent[k] == rows[k % |rows|]
    decreases |sent|
  {
    if k < |sent| - 1 {
      TurnAt(rows, sent[..|sent| - 1], k);
    }
  }

  /** The frames sent since the activation are the table's entries in turn, and the indices stand at the next one. */
  ghost predicate InTurn(rows: seq<FrameId>, s: State)
  {
    && AreTurns(rows, s.sent)
    && (rows == [] ==> s.entry == 0 && !s.thread.WrapEntry? && !s.thread.SendFrame?)
    && (rows != [] ==>
          var next := |s.sent| % |rows|;
          if s.thread.WrapEntry? then s.slot == next && s.entry == next + 1
          else if s.thread.SendFrame? then s.slot == next && s.entry == (|s.sent| + 1) % |rows|
          else s.entry == next)
  }

  ghost predicate Inv(tables: Tables, s: State)
  {
    && OneHolder(s) && IndicesMakeSense(tables, s)
    && (s.table != NO_TABLE && !s.client.WriteEntry? ==> InTurn(tables[s.table], s))
  }

  lemma ModStep(n: nat, m: nat)
    requires m > 0
    ensures n % m < m && (n + 1) % m == if n % m + 1 >= m then 0 else n % m + 1
  {
    var q, r := n / m, n % m;
    assert n == q * m + r;
    if r + 1 >= m {
      assert (q + 1) * m == q * m + m;
      DivModUnique(n + 1, m, q + 1, 0);
    } else {
      DivModUnique(n + 1, m, q, r + 1);
    }
  }

  lemma SendKeepsTurns(rows: seq<FrameId>, sent: seq<FrameId>, slot: nat)
    requires AreTurns(rows, sent) && slot < |rows| && slot == |sent| % |rows|
    ensures AreTurns(rows, sent + [rows[slot]])
  {
    var longer := sent + [rows[slot]];
    assert |longer| - 1 == |sent| && longer[..|sent|] == sent;
  }

  lemma ThreadKeepsInv(tables: Tables, s: State)
    requires Inv(tables, s) && !s.strayed
    ensures Inv(tables, ThreadStep(tables, s))
  {
    if s.table != NO_TABLE && !s.client.WriteEntry? && tables[s.table] != [] {
      ModStep(|s.sent|, |tables[s.table]|);
      SendKeepsTurns(tables[s.table], s.sent, |s.sent| % |tables[s.table]|);
    }
  }

  lemma ClientKeepsInv(tables: Tables, s: State)
    requires Inv(tables, s) && !s.strayed
    ensures Inv(tables, ClientStep(s))
  {
    if s.client.WriteEntry? && tables[s.table] != [] {
      assert 0 % |tables[s.table]| == 0;
    }
  }

  lemma StepKeepsInv(tables: Tables, s: State, step: Step)
    requires Inv(tables, s)
    ensures Inv(tables, Next(tables, s, step))
  {
    if !s.strayed {
      match step
      case Thread => ThreadKeepsInv(tables, s);
      case Client => ClientKeepsInv(tables, s);
      case _ =>
    }
  }

  lemma InitialInv(tables: Tables, table: int)
    requires NO_TABLE <= table < |tables|
    ensures Inv(tables, Initial(table))
  {
    if table != NO_TABLE && tables[table] != [] {
      assert 0 % |tables[table]| == 0;
    }
  }

  /** Every interleaving, of any length, from either kind of registration. */
  lemma {:induction false} EveryInterleaving(tables: Tables, s: State, steps: seq<Step>)
    requires Inv(tables, s)
    ensures Inv(tables, After(tables, s, steps))
    decreases |steps|
  {
    if steps != [] {
      StepKeepsInv(tables, s, steps[0]);
      EveryInterleaving(tables, Next(tables, s, steps[0]), steps[1..]);
    }
  }

  // ---- what the invariant gives ------------------------------------------------------------------------------

  /** The table index and the entry index change only at the hands of the party that holds `active`, and while it
      holds it the other party does not. */
  lemma OnlyHolderTouches(tables: Tables, s: State, step: Step)
    requires Inv(tables, s)
    requires Next(tables, s, step).table != s.table || Next(tables, s, step).entry != s.entry
    ensures step.Thread? ==> ThreadHolds(s) && !ClientHolds(s) && Next(tables, s, step).table == s.table
    ensures !step.Thread? ==> step.Client? && ClientHolds(s) && !ThreadHolds(s)
    ensures s.active == 0
  {
  }

  /** While the scheduler is disabled the thread is outside the part that reads the indices, and its steps leave it
      there: it waits for the client. */
  lemma DisabledThreadWaits(tables: Tables, s: State, step: Step)
    requires Inv(tables, s) && Disabled(s)
    ensures !ThreadHolds(s) && s.active == 0
    ensures Disabled(Next(tables, s, step)) ==> !ThreadHolds(Next(tables, s, step))
    ensures step.Thread? ==> Next(tables, s, step).sent == s.sent && Disabled(Next(tables, s, step))
  {
    StepKeepsInv(tables, s, step);
  }

  /** In every interleaving from the initial state: the k-th frame since the last activation is entry k modulo the
      count of the active table, and the next entry stays inside it when it is not empty. */
  lemma FramesFollowTable(tables: Tables, table: int, steps: seq<Step>)
    requires NO_TABLE <= table < |tables|
    ensures var s := After(tables, Initial(table), steps);
            s.table != NO_TABLE && !s.client.WriteEntry? ==>
              && 0 <= s.table < |tables|
              && (forall k :: 0 <= k < |s.sent| ==>
                    tables[s.table] != [] && s.sent[k] == tables[s.table][k % |tables[s.table]|])
              && (!s.thread.WrapEntry? ==> (s.entry < |tables[s.table]| <==> tables[s.table] != []))
  {
    InitialInv(tables, table);
    EveryInterleaving(tables, Initial(table), steps);
    var s := After(tables, Initial(table), steps);
    if s.table != NO_TABLE && !s.client.WriteEntry? {
      forall k | 0 <= k < |s.sent|
        ensures tables[s.table] != [] && s.sent[k] == tables[s.table][k % |tables[s.table]|]
      {
        TurnAt(tables[s.table], s.sent, k);
      }
      if tables[s.table] != [] {
        ModStep(|s.sent|, |tables[s.table]|);
      }
    }
  }

  /** A step that reads past a table is the thread's, at the entry of an empty active table. */
  lemma StrayStep(tables: Tables, s: State, step: Step)
    requires Inv(tables, s) && !s.strayed
    ensures Next(tables, s, step).strayed <==>
              step.Thread? && s.thread.TakeEntry? && 0 <= s.table < |tables| && tables[s.table] == []
  {
  }

  ghost predicate Strays(tables: Tables, s: State, steps: seq<Step>)
  {
    After(tables, s, steps).strayed
  }

  predicate NoEmptyTable(tables: Tables)
  {
    forall i :: 0 <= i < |tables| ==> tables[i] != []
  }

  lemma {:induction false} NoStrayWithoutEmptyTable(tables: Tables, s: State, steps: seq<Step>)
    requires NoEmptyTable(tables) && Inv(tables, s) && !s.strayed
    ensures !Strays(tables, s, steps)
    decreases |steps|
  {
    if steps != [] {
      StrayStep(tables, s, steps[0]);
      StepKeepsInv(tables, s, steps[0]);
      NoStrayWithoutEmptyTable(tables, Next(tables, s, steps[0]), steps[1..]);
    }
  }

  lemma {:induction false} AfterSplits(tables: Tables, s: State, a: seq<Step>, b: seq<Step>)
    ensures After(tables, s, a + b) == After(tables, After(tables, s, a), b)
    decreases |a|
  {
    if a == [] {
      assert a + b == b;
    } else {
      assert (a + b)[1..] == a[1..] + b;
      AfterSplits(tables, Next(tables, s, a[0]), a[1..], b);
    }
  }

  lemma AfterOne(tables: Tables, s: State, a: Step)
    ensures After(tables, s, [a]) == Next(tables, s, a)
  {
    assert [a][1..] == [];
  }

  lemma AfterThree(tables: Tables, s: State, a: Step, b: Step, c: Step)
    ensures After(tables, s, [a, b, c]) == Next(tables, Next(tables, Next(tables, s, a), b), c)
  {
    AfterSplits(tables, s, [a], [b, c]);
    AfterSplits(tables, Next(tables, s, a), [b], [c]);
    AfterOne(tables, s, a);
    AfterOne(tables, Next(tables, s, a), b);
    AfterOne(tables, Next(tables, Next(tables, s, a), b), c);
    assert [a] + [b, c] == [a, b, c] && [b] + [c] == [b, c];
  }

  /** The client's way to the write of the table index, from either initial state. */
  lemma CallsSetActive(tables: Tables, table: int, i: nat) returns (steps: seq<Step>)
    requires NO_TABLE <= table < |tables| && i < |tables|
    ensures After(tables, Initial(table), steps)
            == State(table, 0, 0, Take, WriteTable(i), NO_TABLE, 0, [], false)
  {
    var s := Initial(table);
    AfterOne(tables, s, CallSetActive(i));
    if table == NO_TABLE {
      steps := [CallSetActive(i)];
    } else {
      AfterOne(tables, Next(tables, s, CallSetActive(i)), Client);
      AfterSplits(tables, s, [CallSetActive(i)], [Client]);
      steps := [CallSetActive(i)] + [Client];
    }
  }

  /** Activating an empty table is enough: the client sets it, and the thread takes its turn. */
  lemma StrayRun(tables: Tables, table: int, i: nat) returns (steps: seq<Step>)
    requires NO_TABLE <= table < |tables| && i < |tables| && tables[i] == []
    ensures Strays(tables, Initial(table), steps)
  {
    var s := Initial(table);
    var call := CallsSetActive(tables, table, i);
    var s1 := After(tables, s, call);
    var s2 := State(i, 0, 1, Take, Ready, NO_TABLE, 0, [], false);
    AfterThree(tables, s1, Client, Client, Client);
    assert After(tables, s1, [Client, Client, Client]) == s2;
    AfterThree(tables, s2, Thread, Thread, Thread);
    AfterSplits(tables, s, call, [Client, Client, Client]);
    AfterSplits(tables, s, call + [Client, Client, Client], [Thread, Thread, Thread]);
    steps := call + [Client, Client, Client] + [Thread, Thread, Thread];
  }

  /** Some interleaving makes the thread read past a table if and only if one of the tables is empty. */
  lemma StraysIffEmptyTable(tables: Tables, table: int)
    requires NO_TABLE <= table < |tables|
    ensures (exists steps :: Strays(tables, Initial(table), steps)) <==> !NoEmptyTable(tables)
  {
    if NoEmptyTable(tables) {
      InitialInv(tables, table);
      forall steps
        ensures !Strays(tables, Initial(table), steps)
      {
        NoStrayWithoutEmptyTable(tables, Initial(table), steps);
      }
    } else {
      var i :| 0 <= i < |tables| && tables[i] == [];
      var steps := StrayRun(tables, table, i);
    }
  }

  /** Each activation starts over: when the client lets go, nothing has been sent and the first entry is next. */
  lemma ActivationStartsOver(tables: Tables, s: State)
    requires Inv(tables, s) && !s.strayed && s.client.WriteTable?
    ensures var s2 := After(tables, s, [Client, Client, Client]);
            && s2.table == s.client.index && s2.entry == 0 && s2.sent == [] && s2.client.Ready?
            && (s2.active == 1 || s2.thread.ReadTable?)
            && (if s.thread.TakeBlocked? then s2.thread.ReadTable? else s2.active == 1 && s2.thread == s.thread)
  {
    var s1 := Next(tables, s, Client);
    var s2 := Next(tables, s1, Client);
    assert [Client, Client, Client][1..] == [Client, Client];
    assert [Client, Client][1..] == [Client];
    assert After(tables, s, [Client, Client, Client]) == After(tables, s1, [Client, Client])
        == After(tables, s2, [Client]) == After(tables, Next(tables, s2, Client), []);
  }

  // ---- a blocked client is served ----------------------------------------------------------------------------

  /** Thread steps left until the thread gives the semaphore. */
  function UntilGive(s: State): nat
  {
    match s.thread
    case ReadTable => 5
    case TakeEntry => 4
    case WrapEntry => 3
    case SendFrame => 2
    case Give => 1
    case _ => 0
  }

  function ThreadSteps(steps: seq<Step>): nat
  {
    if steps == [] then 0 else One(steps[0].Thread?) + ThreadSteps(steps[1..])
  }

  ghost predicate Served(tables: Tables, s: State, steps: seq<Step>)
  {
    exists n :: 0 <= n <= |steps| && ClientHolds(After(tables, s, steps[..n]))
  }

  /** A client that waits on `active` finds the thread on its way to give it. Nothing but the thread's own next steps
      can happen to the scheduler, at most five of them, and the last one hands the semaphore to the client. */
  lemma {:induction false} BlockedClientServed(tables: Tables, s: State, steps: seq<Step>)
    requires Inv(tables, s) && !s.strayed && ClientBlocked(s) && tables[s.table] != []
    requires ThreadSteps(steps) >= UntilGive(s)
    ensures 0 < UntilGive(s) <= 5
    ensures Served(tables, s, steps)
    decreases |steps|
  {
    assert UntilGive(s) > 0;
    var s' := Next(tables, s, steps[0]);
    StepKeepsInv(tables, s, steps[0]);
    if ClientHolds(s') {
      assert steps[..1][1..] == [];
      assert After(tables, s, steps[..1]) == After(tables, s', []);
    } else {
      BlockedClientServed(tables, s', steps[1..]);
      var n :| 0 <= n <= |steps[1..]| && ClientHolds(After(tables, s', steps[1..][..n]));
      assert steps[..n + 1][1..] == steps[1..][..n] && steps[..n + 1][0] == steps[0];
      assert After(tables, s, steps[..n + 1]) == After(tables, s', steps[1..][..n]);
    }
  }

  // ---- what the calls and the thread's turns achieve -------------------------------------------------------------

  function Threads(n: nat): (r: seq<Step>)
    ensures |r| == n && forall i :: 0 <= i < n ==> r[i] == Thread
  {
    if n == 0 then [] else [Thread] + Threads(n - 1)
  }

  /** What a waiting client holds the semaphore for. */
  function Handed(client: ClientPc): ClientPc
  {
    if client.SetBlocked? then WriteTable(client.index) else ClearTable
  }

  /** The thread alone, from its turn to the give: the waiting client gets the semaphore, at the same table. */
  lemma {:induction false} ThreadHandsOver(tables: Tables, s: State)
    requires Inv(tables, s) && !s.strayed && ClientBlocked(s) && tables[s.table] != []
    ensures var s' := After(tables, s, Threads(UntilGive(s)));
            && Inv(tables, s') && !s'.strayed && s'.client == Handed(s.client) && s'.table == s.table
            && 0 < UntilGive(s) <= 5
    decreases UntilGive(s)
  {
    var s' := Next(tables, s, Thread);
    StepKeepsInv(tables, s, Thread);
    assert Threads(UntilGive(s))[1..] == Threads(UntilGive(s) - 1);
    if UntilGive(s) > 1 {
      ThreadHandsOver(tables, s');
    } else {
      assert After(tables, s, Threads(1)) == After(tables, s', []);
    }
  }

  /** The thread steps a call waits for: none if the semaphore is free. */
  function Wait(s: State): nat
  {
    if s.active > 0 then 0 else UntilGive(s)
  }

  /** A call that has to take the semaphore first gets it, after two of its steps if it is free, and otherwise after one
      of its own and at most five of the thread. */
  lemma CallTakes(tables: Tables, s: State, call: Step)
    requires Inv(tables, s) && !s.strayed && s.client.Ready? && s.table != NO_TABLE && tables[s.table] != []
    requires call == CallDisable || (call.CallSetActive? && call.index < |tables|)
    ensures var s' := After(tables, s, [call, Client] + Threads(Wait(s)));
            && Inv(tables, s') && !s'.strayed && s'.table == s.table && Wait(s) <= 5
            && s'.client == if call.CallDisable? then ClearTable else WriteTable(call.index)
  {
    var s1 := Next(tables, s, call);
    var s2 := Next(tables, s1, Client);
    StepKeepsInv(tables, s, call);
    StepKeepsInv(tables, s1, Client);
    AfterOne(tables, s, call);
    AfterOne(tables, s1, Client);
    AfterSplits(tables, s, [call], [Client]);
    assert [call] + [Client] == [call, Client];
    AfterSplits(tables, s, [call, Client], Threads(Wait(s)));
    if s.active == 0 {
      ThreadHandsOver(tables, s2);
    }
  }

  /** Disabling stops the scheduler: two client steps after the call, and the thread's way to its give before the second
      if it has the semaphore. */
  lemma DisableStops(tables: Tables, s: State)
    requires Inv(tables, s) && !s.strayed && s.client.Ready? && s.table != NO_TABLE && tables[s.table] != []
    ensures var s' := After(tables, s, [CallDisable, Client] + Threads(Wait(s)) + [Client]);
            && Inv(tables, s') && Disabled(s') && s'.client.Ready? && Wait(s) <= 5 && (s.active > 0 ==> Wait(s) == 0)
  {
    var call := [CallDisable, Client] + Threads(Wait(s));
    CallTakes(tables, s, CallDisable);
    AfterSplits(tables, s, call, [Client]);
    AfterOne(tables, After(tables, s, call), Client);
    StepKeepsInv(tables, After(tables, s, call), Client);
  }

  /** And it stays stopped: nothing is sent until a table is activated. */
  lemma {:induction false} DisabledUntilSet(tables: Tables, s: State, steps: seq<Step>)
    requires Inv(tables, s) && Disabled(s) && forall i :: 0 <= i < |steps| ==> !steps[i].CallSetActive?
    ensures var s' := After(tables, s, steps);
            Disabled(s') && s'.sent == s.sent && s'.client == s.client && s'.strayed == s.strayed
    decreases |steps|
  {
    if steps != [] {
      StepKeepsInv(tables, s, steps[0]);
      DisabledUntilSet(tables, Next(tables, s, steps[0]), steps[1..]);
    }
  }

  /** Activating a table starts it: from the disabled scheduler in three client steps, otherwise in four, and the thread's
      way to its give. */
  lemma SetActiveStarts(tables: Tables, s: State, i: nat) returns (call: seq<Step>)
    requires Inv(tables, s) && !s.strayed && s.client.Ready? && i < |tables|
    requires s.table != NO_TABLE ==> tables[s.table] != []
    ensures call == if s.table == NO_TABLE then [CallSetActive(i)] else [CallSetActive(i), Client] + Threads(Wait(s))
    ensures var s' := After(tables, s, call + [Client, Client, Client]);
            && s'.table == i && s'.entry == 0 && s'.sent == [] && s'.client.Ready? && !s'.strayed
            && (s'.active == 1 || s'.thread.ReadTable?)
  {
    if s.table == NO_TABLE {
      call := [CallSetActive(i)];
      AfterOne(tables, s, CallSetActive(i));
      StepKeepsInv(tables, s, CallSetActive(i));
    } else {
      call := [CallSetActive(i), Client] + Threads(Wait(s));
      CallTakes(tables, s, CallSetActive(i));
    }
    var s1 := After(tables, s, call);
    AfterSplits(tables, s, call, [Client, Client, Client]);
    ActivationStartsOver(tables, s1);
    AfterThree(tables, s1, Client, Client, Client);
  }

  /** A table that is not there is refused, a disabled scheduler is not disabled again, and there is one call at a time. */
  lemma CallsRefused(tables: Tables, s: State, call: Step)
    requires call.CallSetActive? || call.CallDisable?
    requires (call.CallSetActive? && call.index >= |tables|) || (call.CallDisable? && s.table == NO_TABLE)
             || !s.client.Ready?
    ensures Next(tables, s, call) == s
  {
  }

  /** The first half of a turn: the thread takes the next entry of the table. */
  lemma TurnTakes(tables: Tables, s: State)
    requires Inv(tables, s) && !s.strayed && s.thread.Take? && s.active == 1 && tables[s.table] != []
    ensures var s', n := After(tables, s, [Thread, Thread, Thread]), |s.sent| % |tables[s.table]|;
            n < |tables[s.table]|
            && s' == s.(active := 0, thread := WrapEntry, row := s.table, slot := n, entry := n + 1)
  {
    ModStep(|s.sent|, |tables[s.table]|);
    AfterThree(tables, s, Thread, Thread, Thread);
  }

  /** A turn of the thread: with the semaphore free it sends the next entry of the table, gives the semaphore back and
      sleeps. */
  lemma TurnSends(tables: Tables, s: State)
    requires Inv(tables, s) && !s.strayed && s.thread.Take? && s.active == 1 && tables[s.table] != []
    ensures var s', rows := After(tables, s, Threads(7)), tables[s.table];
            && s'.sent == s.sent + [rows[|s.sent| % |rows|]] && s'.entry == (|s.sent| + 1) % |rows|
            && s'.thread.Take? && s'.active == 1 && s'.table == s.table && s'.client == s.client && !s'.strayed
  {
    var half := [Thread, Thread, Thread];
    TurnTakes(tables, s);
    ModStep(|s.sent|, |tables[s.table]|);
    var s3 := After(tables, s, half);
    AfterThree(tables, s3, Thread, Thread, Thread);
    AfterOne(tables, After(tables, s3, half), Thread);
    AfterSplits(tables, s, half, half);
    AfterSplits(tables, s, half + half, [Thread]);
    assert Threads(7) == half + half + [Thread];
  }
}
