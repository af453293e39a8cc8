/**
 Concurrent appends, checkpoint saves and verifications as a step system. Any number of
 `append` calls and verifications, in any number of processes, share one database and one
 checkpoint file; every interleaving of their steps is a run, including lock timeouts,
 rollbacks, failing saves and processes that die at any point.
 */
module AuditProtocol {
  import opened Wrappers
  import opened AuditModel
  import opened AuditTheorems
  import opened CheckpointStore

  /** Where one `append` call stands. */
  datatype Pc =
    | Waiting                                  // has read the clock, waits for the write lock
    | Begun                                    // holds the write lock
    | HasRead(nextId: int, prevHash: string)   // has read the newest row
    | Inserted(row: Row)                       // its row is not committed yet
    | Committed(row: Row)
    | TempOpen(row: Row, cp: Checkpoint)       // its temporary file is incomplete
    | TempWhole(row: Row, cp: Checkpoint)      // its temporary file is complete
    | Returned(row: Row)
    | WriteError(committed: Option<Row>)       // raised AuditWriteError
    | Lost(committed: Option<Row>)             // raised something else, or its process died

  datatype Call = Call(payload: string, storing: bool, attempt: nat, timestamp: Timestamp, pc: Pc)

  /** Where one `verify_with_store` call stands: the checkpoint is loaded before the rows
      are read. */
  datatype Reader =
    | Starting(storing: bool)
    | HasView(view: StoreView)
    | Answered(view: StoreView, read: seq<Row>, verdict: Verdict)

  /** `writers[k]` is the call that committed row `k`; `renamed` lists the checkpoints whose
      rename completed and `savers` the calls that did it. All three only record history. */
  datatype State = State(
    rows: seq<Row>, lock: Option<nat>, calls: seq<Call>, target: Option<FileContent>,
    readers: seq<Reader>, writers: seq<nat>, renamed: seq<Checkpoint>, savers: seq<nat>)

  const START := State([], None, [], None, [], [], [], [])

  datatype Move =
    | Begin
    | Retry(timestamp: Timestamp)   // OperationalError, before or inside the transaction
    | ReadTail
    | Insert
    | Commit
    | Finish                        // returns, having no checkpoint store
    | OpenTemp(createdAt: string)
    | WriteTemp
    | Rename
    | SaveFails                     // OSError anywhere in the save
    | Die                           // any other exception, or the end of the process

  datatype Event =
    | Invoke(payload: string, storing: bool, timestamp: Timestamp)
    | Write(call: nat, move: Move)
    | Verification(storing: bool)
    | Read(reader: nat)

  /** The call's transaction is open. */
  predicate Holds(pc: Pc) {
    pc.Begun? || pc.HasRead? || pc.Inserted?
  }

  /** The row the call has committed, if it has. */
  function Record(pc: Pc): Option<Row> {
    match pc
    case Committed(row) => Some(row)
    case TempOpen(row, _) => Some(row)
    case TempWhole(row, _) => Some(row)
    case Returned(row) => Some(row)
    case WriteError(committed) => committed
    case Lost(committed) => committed
    case _ => None
  }

  predicate Over(pc: Pc) {
    pc.Returned? || pc.WriteError? || pc.Lost?
  }

  function Goto(s: State, i: nat, pc: Pc): State
    requires i < |s.calls|
  {
    s.(calls := s.calls[i := s.calls[i].(pc := pc)])
  }

  /** Ends call `i`'s transaction, if it has one open. */
  function Unlock(s: State, i: nat): State
    requires i < |s.calls|
  {
    if Holds(s.calls[i].pc) then s.(lock := None) else s
  }

  /** A move that is not possible in a state leaves it as it is. */
  function Act(c: Crypto, s: State, i: nat, move: Move): (t: State)
    requires i < |s.calls|
    ensures |t.calls| == |s.calls|
  {
    var call := s.calls[i];
    match (move, call.pc)
    case (Begin, Waiting) =>
      if s.lock == None then Goto(s, i, Begun).(lock := Some(i)) else s
    case (Retry(timestamp), pc) =>
      if !(pc.Waiting? || Holds(pc)) then s
      else if call.attempt + 1 < APPEND_RETRIES then
        var next := call.(attempt := call.attempt + 1, timestamp := timestamp, pc := Waiting);
        Unlock(s, i).(calls := s.calls[i := next])
      else Goto(Unlock(s, i), i, WriteError(None))
    case (ReadTail, Begun) =>
      Goto(s, i, HasRead(NextId(s.rows), TailHash(s.rows)))
    case (Insert, HasRead(nextId, prevHash)) =>
      if nextId > MAX_ROWID then Goto(Unlock(s, i), i, Lost(None))
      else Goto(s, i, Inserted(MakeRow(c, nextId, prevHash, call.timestamp, call.payload)))
    case (Commit, Inserted(row)) =>
      Goto(Unlock(s, i), i, Committed(row)).(rows := s.rows + [row], writers := s.writers + [i])
    case (Finish, Committed(row)) =>
      if call.storing then s else Goto(s, i, Returned(row))
    case (OpenTemp(createdAt), Committed(row)) =>
      if call.storing then Goto(s, i, TempOpen(row, CheckpointOf(row, createdAt))) else s
    case (WriteTemp, TempOpen(row, cp)) =>
      Goto(s, i, TempWhole(row, cp))
    case (Rename, TempWhole(row, cp)) =>
      Goto(s, i, Returned(row)).(target := Some(Whole(cp)), renamed := s.renamed + [cp], savers := s.savers + [i])
    case (SaveFails, pc) =>
      if (pc.Committed? && call.storing) || pc.TempOpen? || pc.TempWhole?
      then Goto(s, i, WriteError(Some(pc.row))) else s
    case (Die, pc) =>
      if Over(pc) then s else Goto(Unlock(s, i), i, Lost(Record(pc)))
    case _ => s
  }

  function Look(c: Crypto, s: State, reader: Reader): Reader {
    match reader
    case Starting(storing) => HasView(if storing then Loaded(Parse(s.target)) else NoStore)
    case HasView(view) => Answered(view, s.rows, VerifyWithStore(c, s.rows, view))
    case Answered(_, _, _) => reader
  }

  function Step(c: Crypto, s: State, event: Event): State {
    match event
    case Invoke(payload, storing, timestamp) =>
      s.(calls := s.calls + [Call(payload, storing, 0, timestamp, Waiting)])
    case Write(i, move) => if i < |s.calls| then Act(c, s, i, move) else s
    case Verification(storing) => s.(readers := s.readers + [Starting(storing)])
    case Read(j) => if j < |s.readers| then s.(readers := s.readers[j := Look(c, s, s.readers[j])]) else s
  }

  /** The state after any sequence of steps from an empty database and store. */
  function Exec(c: Crypto, run: seq<Event>): State {
    if run == [] then START else Step(c, Exec(c, run[..|run| - 1]), run[|run| - 1])
  }

  // ---------- The invariant ----------

  /** The checkpoint names a committed row, with its MAC. */
  predicate Names(rows: seq<Row>, cp: Checkpoint) {
    1 <= cp.lastRecordId <= |rows| && rows[cp.lastRecordId - 1].mac == cp.lastRecordMac
  }

  predicate CallInv(c: Crypto, s: State, i: nat)
    requires i < |s.calls|
  {
    var call := s.calls[i];
    var pc := call.pc;
    && call.attempt < APPEND_RETRIES
    && (Holds(pc) <==> s.lock == Some(i))
    && (pc.HasRead? ==> pc.nextId == NextId(s.rows) && pc.prevHash == TailHash(s.rows))
    && (pc.Inserted? ==> pc.row == NextRow(c, s.rows, call.timestamp, call.payload))
    && (Record(pc).Some? ==> Owns(s, i, Record(pc).value) && Record(pc).value.payload == call.payload)
    && (pc.Returned? && call.storing ==> i in s.savers)
    && (pc.TempOpen? || pc.TempWhole? ==> pc.cp.lastRecordId == pc.row.id && pc.cp.lastRecordMac == pc.row.mac)
    && (pc.WriteError? ==> if pc.committed.None? then call.attempt + 1 == APPEND_RETRIES else call.storing)
    && (pc.TempOpen? || pc.TempWhole? ==> call.storing)
  }

  /** The row is committed, and call `i` committed it. */
  predicate Owns(s: State, i: nat, row: Row) {
    && 1 <= row.id <= |s.rows| && s.rows[row.id - 1] == row
    && row.id <= |s.writers| && s.writers[row.id - 1] == i
  }

  /** The checkpoint of rename `j` names the row of the call that saved it. */
  predicate Landed(s: State, j: nat)
    requires j < |s.renamed|
  {
    var id := s.renamed[j].lastRecordId;
    Names(s.rows, s.renamed[j]) && id <= |s.writers| && j < |s.savers| && s.writers[id - 1] == s.savers[j]
  }

  predicate ReaderInv(c: Crypto, s: State, reader: Reader) {
    match reader
    case Starting(_) => true
    case HasView(view) => view.Loaded? && view.checkpoint.Some? ==> Names(s.rows, view.checkpoint.value)
    case Answered(view, read, verdict) =>
      && read <= s.rows
      && verdict.Report?
      && match view
         case NoStore => verdict.status == (if read == [] then Empty else Valid)
         case Loaded(None) => verdict.status == (if read == [] then Empty else Unverifiable)
         case Loaded(Some(cp)) => verdict.status == Valid && (verdict.tailVerified <==> cp.lastRecordId == |read|)
  }

  predicate Inv(c: Crypto, s: State) {
    && Written(c, s.rows)
    && |s.writers| == |s.rows|
    && (s.lock.Some? ==> s.lock.value < |s.calls|)
    && (forall i :: 0 <= i < |s.calls| ==> CallInv(c, s, i))
    && (forall k :: 0 <= k < |s.rows| ==>
          s.writers[k] < |s.calls| && Record(s.calls[s.writers[k]].pc) == Some(s.rows[k]))
    && s.target == (if s.renamed == [] then None else Some(Whole(s.renamed[|s.renamed| - 1])))
    && |s.savers| == |s.renamed| && (forall j :: 0 <= j < |s.renamed| ==> Landed(s, j))
    && (forall j :: 0 <= j < |s.readers| ==> ReaderInv(c, s, s.readers[j]))
  }

  lemma LandedStays(s: State, t: State)
    requires s.rows <= t.rows && s.writers <= t.writers && s.renamed == t.renamed && s.savers == t.savers
    requires forall j :: 0 <= j < |s.renamed| ==> Landed(s, j)
    ensures forall j :: 0 <= j < |t.renamed| ==> Landed(t, j)
  {
    forall j | 0 <= j < |t.renamed| ensures Landed(t, j) {
      assert Landed(s, j);
    }
  }

  /** A step of call `i` that commits nothing and renames nothing. */
  lemma LocalStep(c: Crypto, s: State, t: State, i: nat)
    requires Inv(c, s) && i < |s.calls|
    requires t == s.(calls := t.calls, lock := t.lock)
    requires |t.calls| == |s.calls| && t.calls == s.calls[i := t.calls[i]]
    requires t.lock == s.lock || (s.lock == Some(i) && t.lock == None) || (s.lock == None && t.lock == Some(i))
    requires Record(t.calls[i].pc) == Record(s.calls[i].pc)
    requires CallInv(c, t, i)
    ensures Inv(c, t)
  {
    LandedStays(s, t);
    forall k | 0 <= k < |t.calls| ensures CallInv(c, t, k) {
      assert CallInv(c, s, k);
    }
    forall k | 0 <= k < |t.rows|
      ensures t.writers[k] < |t.calls| && Record(t.calls[t.writers[k]].pc) == Some(t.rows[k])
    {
      assert Record(s.calls[s.writers[k]].pc) == Some(s.rows[k]);
    }
    forall j | 0 <= j < |t.readers| ensures ReaderInv(c, t, t.readers[j]) {
      assert ReaderInv(c, s, s.readers[j]);
    }
  }

  lemma CommitRow(c: Crypto, s: State, i: nat)
    requires Inv(c, s) && i < |s.calls| && s.calls[i].pc.Inserted?
    ensures var row := s.calls[i].pc.row;
            Written(c, s.rows + [row]) && row.id == |s.rows| + 1 && row.payload == s.calls[i].payload
  {
    var call := s.calls[i];
    assert CallInv(c, s, i);
    AppendKeepsGood(c, s.rows, call.timestamp, call.payload);
    GoodTable(c, s.rows);
  }

  lemma CommitStep(c: Crypto, s: State, i: nat)
    requires Inv(c, s) && i < |s.calls| && s.calls[i].pc.Inserted?
    ensures Inv(c, Act(c, s, i, Commit))
  {
    hide Written, NextRow, NextId, TailHash;
    var t := Act(c, s, i, Commit);
    assert CallInv(c, s, i);
    CommitRow(c, s, i);
    LandedStays(s, t);
    forall k | 0 <= k < |t.calls| ensures CallInv(c, t, k) {
      assert CallInv(c, s, k);
    }
    forall k | 0 <= k < |t.rows|
      ensures t.writers[k] < |t.calls| && Record(t.calls[t.writers[k]].pc) == Some(t.rows[k])
    {
      if k < |s.rows| {
        assert Record(s.calls[s.writers[k]].pc) == Some(s.rows[k]);
      }
    }
    forall j | 0 <= j < |t.readers| ensures ReaderInv(c, t, t.readers[j]) {
      assert ReaderInv(c, s, s.readers[j]);
    }
  }

  lemma RenameLands(c: Crypto, s: State, i: nat)
    requires Inv(c, s) && i < |s.calls| && s.calls[i].pc.TempWhole?
    ensures var t := Act(c, s, i, Rename);
            |t.savers| == |t.renamed| && forall j :: 0 <= j < |t.renamed| ==> Landed(t, j)
  {
    hide Written, ReaderInv;
    var t := Act(c, s, i, Rename);
    assert CallInv(c, s, i);
    forall j | 0 <= j < |t.renamed| ensures Landed(t, j) {
      assert j < |s.renamed| ==> Landed(s, j);
    }
  }

  lemma RenameStep(c: Crypto, s: State, i: nat)
    requires Inv(c, s) && i < |s.calls| && s.calls[i].pc.TempWhole?
    ensures Inv(c, Act(c, s, i, Rename))
  {
    hide Written, Landed;
    var t := Act(c, s, i, Rename);
    RenameLands(c, s, i);
    assert CallInv(c, s, i);
    forall k | 0 <= k < |t.calls| ensures CallInv(c, t, k) {
      assert CallInv(c, s, k);
    }
    forall k | 0 <= k < |t.rows|
      ensures t.writers[k] < |t.calls| && Record(t.calls[t.writers[k]].pc) == Some(t.rows[k])
    {
      assert Record(s.calls[s.writers[k]].pc) == Some(s.rows[k]);
    }
    forall j | 0 <= j < |t.readers| ensures ReaderInv(c, t, t.readers[j]) {
      assert ReaderInv(c, s, s.readers[j]);
    }
  }

  lemma RetryStep(c: Crypto, s: State, i: nat, timestamp: Timestamp)
    requires Inv(c, s) && i < |s.calls|
    ensures Inv(c, Act(c, s, i, Retry(timestamp)))
  {
    hide Written, ReaderInv, Names;
    assert CallInv(c, s, i);
    if s.calls[i].pc.Waiting? || Holds(s.calls[i].pc) {
      LocalStep(c, s, Act(c, s, i, Retry(timestamp)), i);
    }
  }

  lemma DieStep(c: Crypto, s: State, i: nat)
    requires Inv(c, s) && i < |s.calls|
    ensures Inv(c, Act(c, s, i, Die))
  {
    hide Written, ReaderInv, Names;
    assert CallInv(c, s, i);
    if !Over(s.calls[i].pc) {
      LocalStep(c, s, Act(c, s, i, Die), i);
    }
  }

  lemma TransactionStep(c: Crypto, s: State, i: nat, move: Move)
    requires Inv(c, s) && i < |s.calls| && (move.Begin? || move.ReadTail? || move.Insert?)
    ensures Inv(c, Act(c, s, i, move))
  {
    hide Written, ReaderInv, Names;
    assert CallInv(c, s, i);
    LocalStep(c, s, Act(c, s, i, move), i);
  }

  lemma SaveStep(c: Crypto, s: State, i: nat, move: Move)
    requires Inv(c, s) && i < |s.calls|
    requires move.Finish? || move.OpenTemp? || move.WriteTemp? || move.SaveFails?
    ensures Inv(c, Act(c, s, i, move))
  {
    hide Written, ReaderInv, Names;
    assert CallInv(c, s, i);
    LocalStep(c, s, Act(c, s, i, move), i);
  }

  lemma ActKeepsInv(c: Crypto, s: State, i: nat, move: Move)
    requires Inv(c, s) && i < |s.calls|
    ensures Inv(c, Act(c, s, i, move))
    ensures s.rows <= Act(c, s, i, move).rows
  {
    hide Inv;
    match move
    case Retry(timestamp) => RetryStep(c, s, i, timestamp);
    case Die => DieStep(c, s, i);
    case Commit => if s.calls[i].pc.Inserted? { CommitStep(c, s, i); }
    case Rename => if s.calls[i].pc.TempWhole? { RenameStep(c, s, i); }
    case Begin => TransactionStep(c, s, i, move);
    case ReadTail => TransactionStep(c, s, i, move);
    case Insert => TransactionStep(c, s, i, move);
    case _ => SaveStep(c, s, i, move);
  }

  /** A reader that loaded a checkpoint before reading the rows finds the row it names. */
  lemma ReadStep(c: Crypto, s: State, j: nat)
    requires Inv(c, s) && j < |s.readers|
    ensures ReaderInv(c, s, Look(c, s, s.readers[j]))
  {
    assert ReaderInv(c, s, s.readers[j]);
    match s.readers[j]
    case Starting(_) =>
      assert s.renamed != [] ==> Landed(s, |s.renamed| - 1);
    case HasView(view) =>
      VerifyExact(c, s.rows);
      if view.Loaded? && view.checkpoint.Some? {
        NamedRowVerifies(c, s.rows, view.checkpoint.value);
      }
    case Answered(_, _, _) =>
  }

  lemma InvokeStep(c: Crypto, s: State, payload: string, storing: bool, timestamp: Timestamp)
    requires Inv(c, s)
    ensures Inv(c, Step(c, s, Invoke(payload, storing, timestamp)))
  {
    var t := Step(c, s, Invoke(payload, storing, timestamp));
    LandedStays(s, t);
    forall k | 0 <= k < |t.calls| ensures CallInv(c, t, k) {
      assert k < |s.calls| ==> CallInv(c, s, k);
    }
    forall k | 0 <= k < |t.rows|
      ensures t.writers[k] < |t.calls| && Record(t.calls[t.writers[k]].pc) == Some(t.rows[k])
    {
      assert Record(s.calls[s.writers[k]].pc) == Some(s.rows[k]);
    }
    forall j | 0 <= j < |t.readers| ensures ReaderInv(c, t, t.readers[j]) {
      assert ReaderInv(c, s, s.readers[j]);
    }
  }

  lemma ReadersStep(c: Crypto, s: State, t: State)
    requires Inv(c, s) && t == s.(readers := t.readers)
    requires forall j :: 0 <= j < |t.readers| ==> ReaderInv(c, s, t.readers[j])
    ensures Inv(c, t)
  {
    LandedStays(s, t);
    forall k | 0 <= k < |t.calls| ensures CallInv(c, t, k) {
      assert CallInv(c, s, k);
    }
    forall j | 0 <= j < |t.readers| ensures ReaderInv(c, t, t.readers[j]) {
      assert ReaderInv(c, s, t.readers[j]);
    }
  }

  lemma StepKeepsInv(c: Crypto, s: State, event: Event)
    requires Inv(c, s)
    ensures Inv(c, Step(c, s, event))
    ensures s.rows <= Step(c, s, event).rows
  {
    match event
    case Write(i, move) =>
      if i < |s.calls| {
        ActKeepsInv(c, s, i, move);
      }
    case Invoke(payload, storing, timestamp) => InvokeStep(c, s, payload, storing, timestamp);
    case Verification(_) => ReadersStep(c, s, Step(c, s, event));
    case Read(j) =>
      if j < |s.readers| {
        ReadStep(c, s, j);
        ReadersStep(c, s, Step(c, s, event));
      }
  }

  lemma {:induction false} ExecInv(c: Crypto, run: seq<Event>)
    ensures Inv(c, Exec(c, run))
  {
    if run != [] {
      ExecInv(c, run[..|run| - 1]);
      StepKeepsInv(c, Exec(c, run[..|run| - 1]), run[|run| - 1]);
    }
  }

  // ---------- Over every run ----------

  /** No fork: whatever the interleaving, the committed rows are the log of one history of
      appends, numbered 1..n and linked, and they verify. */
  lemma NoFork(c: Crypto, run: seq<Event>)
    ensures var rows := Exec(c, run).rows;
            && (exists history :: rows == Log(c, history))
            && (forall k :: 0 <= k < |rows| ==> rows[k].id == k + 1 && rows[k].prevHash == ExpectedPrev(rows, k))
            && Verify(c, rows, None) == Report(if rows == [] then Empty else Valid, |rows|, None, NoReason, false)
  {
    var rows := Exec(c, run).rows;
    ExecInv(c, run);
    WrittenIsLog(c, rows);
    forall k | 0 <= k < |rows| ensures rows[k].id == k + 1 && rows[k].prevHash == ExpectedPrev(rows, k) {
      assert Good(c, rows, k);
    }
    if rows != [] {
      VerifyAllGood(c, rows, None);
    }
  }

  /** Committed rows never change or disappear. */
  lemma {:induction false} OnlyGrows(c: Crypto, run: seq<Event>, k: nat)
    requires k <= |run|
    ensures Exec(c, run[..k]).rows <= Exec(c, run).rows
  {
    var n := |run| - 1;
    if k <= n {
      OnlyGrows(c, run[..n], k);
      assert run[..n][..k] == run[..k];
      ExecInv(c, run[..n]);
      StepKeepsInv(c, Exec(c, run[..n]), run[n]);
    } else {
      assert run[..k] == run;
    }
  }

  /** The stored file is always missing or whole: loading it yields the checkpoint of the
      last completed rename, and that names a committed row with its MAC. */
  lemma StoreIsSound(c: Crypto, run: seq<Event>)
    ensures var s := Exec(c, run);
            && (Parse(s.target) == None <==> s.renamed == [])
            && (s.renamed != [] ==>
                  Parse(s.target) == Some(s.renamed[|s.renamed| - 1]) && Names(s.rows, s.renamed[|s.renamed| - 1]))
  {
    var s := Exec(c, run);
    ExecInv(c, run);
    hide Exec, Written, CallInv, ReaderInv;
    assert s.renamed != [] ==> Landed(s, |s.renamed| - 1);
  }

  /** Honest logs never verify as INVALID: not while writers run, not when saves land out
      of order. With a checkpoint the answer is VALID, and covers the tail exactly when the
      checkpoint names the newest row read. */
  lemma VerificationNeverInvalid(c: Crypto, run: seq<Event>, j: nat)
    requires j < |Exec(c, run).readers| && Exec(c, run).readers[j].Answered?
    ensures var r := Exec(c, run).readers[j];
            && r.read <= Exec(c, run).rows && r.verdict.Report? && r.verdict.status != Invalid
            && (r.view.Loaded? && r.view.checkpoint.Some? ==>
                  r.verdict.status == Valid
                  && (r.verdict.tailVerified <==> r.view.checkpoint.value.lastRecordId == |r.read|))
  {
    ExecInv(c, run);
    assert ReaderInv(c, Exec(c, run), Exec(c, run).readers[j]);
  }

  /** Committed calls and rows correspond one to one. A call that returned has committed
      exactly the row it returns; one that raised AuditWriteError has committed none after
      its fifth attempt, or one row whose checkpoint could not be saved. */
  lemma AppendAccounting(c: Crypto, run: seq<Event>, i: nat)
    requires i < |Exec(c, run).calls|
    ensures var s := Exec(c, run);
            var call := s.calls[i];
            && |s.writers| == |s.rows|
            && (forall k :: 0 <= k < |s.rows| ==> (s.writers[k] == i <==> Record(call.pc) == Some(s.rows[k])))
            && (Record(call.pc).Some? <==> i in s.writers)
            && (call.pc.Returned? ==> Record(call.pc) == Some(call.pc.row) && call.pc.row in s.rows)
            && (call.pc.WriteError? ==> if Record(call.pc).None? then call.attempt == 4 else call.storing)
            && call.attempt < 5
  {
    var s := Exec(c, run);
    ExecInv(c, run);
    assert CallInv(c, s, i);
    forall k | 0 <= k < |s.rows| ensures s.writers[k] == i <==> Record(s.calls[i].pc) == Some(s.rows[k]) {
      RowOwner(c, s, i, k);
    }
  }

  lemma RowOwner(c: Crypto, s: State, i: nat, k: nat)
    requires Inv(c, s) && i < |s.calls| && k < |s.rows|
    ensures s.writers[k] == i <==> Record(s.calls[i].pc) == Some(s.rows[k])
  {
    assert CallInv(c, s, i);
    assert Good(c, s.rows, k);
    assert Record(s.calls[s.writers[k]].pc) == Some(s.rows[k]);
  }

  lemma ExecStep(c: Crypto, run: seq<Event>, event: Event)
    ensures Exec(c, run + [event]) == Step(c, Exec(c, run), event)
  {
    assert (run + [event])[..|run|] == run;
  }

  // ---------- Retries ----------

  /** What a failing attempt leaves of a transaction, however far it got: nothing, neither a
      row nor the lock, and one attempt less; after the fifth the call gives up. */
  lemma FailedAttempt(c: Crypto, s: State, i: nat, timestamp: Timestamp)
    requires Inv(c, s) && i < |s.calls|
    requires s.calls[i].pc.Waiting? || s.calls[i].pc.Begun? || s.calls[i].pc.HasRead? || s.calls[i].pc.Inserted?
    ensures var t := Step(c, s, Write(i, Retry(timestamp)));
            && t.rows == s.rows && t.lock != Some(i)
            && i < |t.calls|
            && if s.calls[i].attempt < 4
               then t.calls[i] == s.calls[i].(attempt := s.calls[i].attempt + 1, timestamp := timestamp, pc := Waiting)
               else t.calls[i].pc == WriteError(None)
  {
    hide Written, ReaderInv, Landed;
    assert CallInv(c, s, i);
  }

  // ---------- Loading before reading ----------

  lemma {:induction false} ReaderStays(c: Crypto, run: seq<Event>, more: seq<Event>, j: nat)
    requires j < |Exec(c, run).readers| && Read(j) !in more
    ensures j < |Exec(c, run + more).readers| && Exec(c, run + more).readers[j] == Exec(c, run).readers[j]
  {
    if more == [] {
      assert run + more == run;
    } else {
      var n := |more| - 1;
      ReaderStays(c, run, more[..n], j);
      ExecStep(c, run + more[..n], more[n]);
      assert run + more == run + more[..n] + [more[n]];
      hide Exec, Look;
      OtherReaderStays(c, Exec(c, run + more[..n]), more[n], j);
    }
  }

  lemma OtherReaderStays(c: Crypto, s: State, event: Event, j: nat)
    requires j < |s.readers| && event != Read(j)
    ensures j < |Step(c, s, event).readers| && Step(c, s, event).readers[j] == s.readers[j]
  {
    hide Look;
  }

  /** A verification compares the checkpoint that is stored when it begins with the rows that
      are there when it goes on, whatever happens in between. */
  lemma LoadsBeforeReading(c: Crypto, run: seq<Event>, storing: bool, more: seq<Event>)
    requires Read(|Exec(c, run).readers|) !in more
    ensures var j := |Exec(c, run).readers|;
            var loaded := run + [Verification(storing)] + [Read(j)] + more;
            var view := if storing then Loaded(Parse(Exec(c, run).target)) else NoStore;
            j < |Exec(c, loaded + [Read(j)]).readers|
            && Exec(c, loaded + [Read(j)]).readers[j]
               == Answered(view, Exec(c, loaded).rows, VerifyWithStore(c, Exec(c, loaded).rows, view))
  {
    hide Exec, VerifyWithStore, Act;
    var j := |Exec(c, run).readers|;
    var begun := run + [Verification(storing)];
    ExecStep(c, run, Verification(storing));
    ExecStep(c, begun, Read(j));
    ReaderStays(c, begun + [Read(j)], more, j);
    ExecStep(c, begun + [Read(j)] + more, Read(j));
  }

  // ---------- Saves out of order ----------

  function AppendRun(run: seq<Event>, i: nat): seq<Event> {
    run + [Write(i, Begin)] + [Write(i, ReadTail)] + [Write(i, Insert)] + [Write(i, Commit)]
  }

  function SaveRun(run: seq<Event>, i: nat): seq<Event> {
    run + [Write(i, OpenTemp(""))] + [Write(i, WriteTemp)] + [Write(i, Rename)]
  }

  /** Undisturbed, a waiting call commits the successor of the newest row. */
  lemma AppendSteps(c: Crypto, run: seq<Event>, i: nat)
    requires var s := Exec(c, run);
             i < |s.calls| && s.calls[i].pc == Waiting && s.lock == None && NextId(s.rows) <= MAX_ROWID
    ensures var s := Exec(c, run);
            var row := NextRow(c, s.rows, s.calls[i].timestamp, s.calls[i].payload);
            Exec(c, AppendRun(run, i))
            == Goto(s, i, Committed(row)).(rows := s.rows + [row], writers := s.writers + [i])
  {
    hide Exec, Act, MakeRow, NextId, TailHash;
    var s := Exec(c, run);
    var one, two := run + [Write(i, Begin)], run + [Write(i, Begin)] + [Write(i, ReadTail)];
    var three := two + [Write(i, Insert)];
    ExecStep(c, run, Write(i, Begin));
    ExecStep(c, one, Write(i, ReadTail));
    ExecStep(c, two, Write(i, Insert));
    ExecStep(c, three, Write(i, Commit));
    TransactionActs(c, s, i);
  }

  lemma TransactionActs(c: Crypto, s: State, i: nat)
    requires i < |s.calls| && s.calls[i].pc == Waiting && s.lock == None && NextId(s.rows) <= MAX_ROWID
    ensures var row := NextRow(c, s.rows, s.calls[i].timestamp, s.calls[i].payload);
            Act(c, Act(c, Act(c, Act(c, s, i, Begin), i, ReadTail), i, Insert), i, Commit)
            == Goto(s, i, Committed(row)).(rows := s.rows + [row], writers := s.writers + [i])
  {
    hide MakeRow, NextId, TailHash;
    var one := Act(c, s, i, Begin);
    assert one == Goto(s, i, Begun).(lock := Some(i));
    var two := Act(c, one, i, ReadTail);
    assert two == Goto(s, i, HasRead(NextId(s.rows), TailHash(s.rows))).(lock := Some(i));
    var three := Act(c, two, i, Insert);
    var row := NextRow(c, s.rows, s.calls[i].timestamp, s.calls[i].payload);
    assert three == Goto(s, i, Inserted(row)).(lock := Some(i));
  }

  /** Undisturbed, a committed call saves its checkpoint over whatever is stored. */
  lemma SaveSteps(c: Crypto, run: seq<Event>, i: nat)
    requires var s := Exec(c, run); i < |s.calls| && s.calls[i].pc.Committed? && s.calls[i].storing
    ensures var s := Exec(c, run);
            var cp := CheckpointOf(s.calls[i].pc.row, "");
            Exec(c, SaveRun(run, i))
            == Goto(s, i, Returned(s.calls[i].pc.row)).(target := Some(Whole(cp)), renamed := s.renamed + [cp],
                                                              savers := s.savers + [i])
  {
    hide Exec, Act;
    var one := run + [Write(i, OpenTemp(""))];
    ExecStep(c, run, Write(i, OpenTemp("")));
    ExecStep(c, one, Write(i, WriteTemp));
    ExecStep(c, one + [Write(i, WriteTemp)], Write(i, Rename));
    SaveActs(c, Exec(c, run), i);
  }

  lemma SaveActs(c: Crypto, s: State, i: nat)
    requires i < |s.calls| && s.calls[i].pc.Committed? && s.calls[i].storing
    ensures var cp := CheckpointOf(s.calls[i].pc.row, "");
            Act(c, Act(c, Act(c, s, i, OpenTemp("")), i, WriteTemp), i, Rename)
            == Goto(s, i, Returned(s.calls[i].pc.row)).(target := Some(Whole(cp)), renamed := s.renamed + [cp],
                                                              savers := s.savers + [i])
  {
    var row := s.calls[i].pc.row;
    var one := Act(c, s, i, OpenTemp(""));
    assert one == Goto(s, i, TempOpen(row, CheckpointOf(row, "")));
    assert Act(c, one, i, WriteTemp) == Goto(s, i, TempWhole(row, CheckpointOf(row, "")));
  }

  /** Two calls append one after the other and save in the opposite order. */
  function InvokedRun(t: Timestamp): seq<Event> {
    [Invoke("a", true, t)] + [Invoke("b", true, t)]
  }

  function BothAppendedRun(t: Timestamp): seq<Event> {
    AppendRun(AppendRun(InvokedRun(t), 0), 1)
  }

  function OvertakenRun(t: Timestamp): seq<Event> {
    SaveRun(SaveRun(BothAppendedRun(t), 1), 0)
  }

  function First(c: Crypto, t: Timestamp): Row {
    NextRow(c, [], t, "a")
  }

  function Second(c: Crypto, t: Timestamp): Row {
    NextRow(c, [First(c, t)], t, "b")
  }

  function TwoCalls(t: Timestamp, first: Pc, second: Pc): seq<Call> {
    [Call("a", true, 0, t, first), Call("b", true, 0, t, second)]
  }

  lemma InvokedState(c: Crypto, t: Timestamp)
    ensures Exec(c, InvokedRun(t)) == START.(calls := TwoCalls(t, Waiting, Waiting))
  {
    ExecStep(c, [], Invoke("a", true, t));
    ExecStep(c, [Invoke("a", true, t)], Invoke("b", true, t));
    assert [] + [Invoke("a", true, t)] == [Invoke("a", true, t)];
    assert Exec(c, []) == START;
    hide Exec;
  }

  lemma IdsFit(c: Crypto, t: Timestamp)
    ensures NextId([]) == 1 && NextId([First(c, t)]) == 2
  {
  }

  lemma BothAppendedState(c: Crypto, t: Timestamp)
    ensures Exec(c, BothAppendedRun(t))
         == START.(calls := TwoCalls(t, Committed(First(c, t)), Committed(Second(c, t))),
                   rows := [First(c, t), Second(c, t)], writers := [0, 1])
  {
    hide Exec, AppendRun, NextRow, NextId;
    IdsFit(c, t);
    InvokedState(c, t);
    AppendSteps(c, InvokedRun(t), 0);
    var s := Exec(c, AppendRun(InvokedRun(t), 0));
    assert s.rows == [First(c, t)] && s.calls == TwoCalls(t, Committed(First(c, t)), Waiting);
    AppendSteps(c, AppendRun(InvokedRun(t), 0), 1);
    assert Exec(c, BothAppendedRun(t)).calls == TwoCalls(t, Committed(First(c, t)), Committed(Second(c, t)));
  }

  lemma OvertakenState(c: Crypto, t: Timestamp)
    ensures Exec(c, OvertakenRun(t))
         == START.(calls := TwoCalls(t, Returned(First(c, t)), Returned(Second(c, t))),
                   rows := [First(c, t), Second(c, t)], writers := [0, 1],
                   target := Some(Whole(CheckpointOf(First(c, t), ""))),
                   renamed := [CheckpointOf(Second(c, t), ""), CheckpointOf(First(c, t), "")], savers := [1, 0])
  {
    hide Exec, AppendRun, SaveRun, BothAppendedRun, First, Second, CheckpointOf;
    BothAppendedState(c, t);
    SaveSteps(c, BothAppendedRun(t), 1);
    assert Exec(c, SaveRun(BothAppendedRun(t), 1)).calls == TwoCalls(t, Committed(First(c, t)), Returned(Second(c, t)));
    SaveSteps(c, SaveRun(BothAppendedRun(t), 1), 0);
    assert Exec(c, OvertakenRun(t)).calls == TwoCalls(t, Returned(First(c, t)), Returned(Second(c, t)));
  }

  /** Saving happens outside the lock, so an older checkpoint may overwrite a newer one: both
      calls have returned, and yet the store names the older row and the tail is not verified. */
  lemma TailMayStayUnverified(c: Crypto, t: Timestamp)
    ensures var s := Exec(c, OvertakenRun(t));
            && |s.rows| == 2 && |s.calls| == 2 && Settled(s)
            && Parse(s.target).Some? && Parse(s.target).value.lastRecordId == 1
            && VerifyWithStore(c, s.rows, Loaded(Parse(s.target))) == Report(Valid, 2, None, CheckpointStale, false)
  {
    OvertakenState(c, t);
    hide Exec, OvertakenRun;
    StaleVerifies(c, t);
  }

  lemma StaleVerifies(c: Crypto, t: Timestamp)
    ensures First(c, t).id == 1
    ensures VerifyWithStore(c, [First(c, t), Second(c, t)], Loaded(Some(CheckpointOf(First(c, t), ""))))
         == Report(Valid, 2, None, CheckpointStale, false)
  {
    var rows := [First(c, t), Second(c, t)];
    AppendKeepsGood(c, [], t, "a");
    AppendKeepsGood(c, [First(c, t)], t, "b");
    assert [] + [First(c, t)] == [First(c, t)] && [First(c, t)] + [Second(c, t)] == rows;
    hide First, Second, NextRow;
    assert Good(c, rows, 0);
    DigestIsAscii(c.hmac(rows[0].recordHash));
    VerifyAllGood(c, rows, Some(CheckpointOf(rows[0], "")));
  }

  /** Every call has returned and had a store to save to. */
  predicate Settled(s: State) {
    forall i :: 0 <= i < |s.calls| ==> s.calls[i].pc.Returned? && s.calls[i].storing
  }

  lemma OwnersDiffer(c: Crypto, s: State, j: nat, k: nat)
    requires Inv(c, s) && j < |s.rows| && k < |s.rows| && s.writers[j] == s.writers[k]
    ensures j == k
  {
    hide ReaderInv, Landed, CallInv;
    assert Record(s.calls[s.writers[k]].pc) == Some(s.rows[k]);
    assert Record(s.calls[s.writers[j]].pc) == Some(s.rows[j]);
    assert Good(c, s.rows, j) && Good(c, s.rows, k);
  }

  lemma LastLanded(c: Crypto, s: State)
    requires Inv(c, s) && s.renamed != []
    ensures Landed(s, |s.renamed| - 1) && Parse(s.target) == Some(s.renamed[|s.renamed| - 1])
    ensures AllGood(c, s.rows) && |s.savers| == |s.renamed| && |s.writers| == |s.rows|
  {
    hide ReaderInv, Landed, CallInv;
  }

  lemma SettledHasSaved(c: Crypto, s: State)
    requires Inv(c, s) && Settled(s) && s.rows != []
    ensures s.renamed != []
  {
    hide ReaderInv, Landed, Written;
    assert Record(s.calls[s.writers[0]].pc) == Some(s.rows[0]);
    assert CallInv(c, s, s.writers[0]);
  }

  /** When the tail is verified: at any time, if and only if the last checkpoint to reach the
      store was saved by the call that committed the newest row. Once every call has
      returned, having had a store, there is such a checkpoint. */
  lemma TailVerifiedExactly(c: Crypto, run: seq<Event>)
    ensures var s := Exec(c, run);
            s.renamed != [] ==>
              && |s.savers| == |s.renamed| && |s.writers| == |s.rows| > 0
              && var v := VerifyWithStore(c, s.rows, Loaded(Parse(s.target)));
                 && IsValid(v)
                 && (v.tailVerified <==> s.savers[|s.savers| - 1] == s.writers[|s.rows| - 1])
    ensures Settled(Exec(c, run)) && Exec(c, run).rows != [] ==> Exec(c, run).renamed != []
  {
    hide Exec, Inv, Settled, Verify, AllGood;
    var s := Exec(c, run);
    ExecInv(c, run);
    if s.renamed != [] {
      LastLanded(c, s);
      var cp := s.renamed[|s.renamed| - 1];
      NamedRowVerifies(c, s.rows, cp);
      if s.writers[cp.lastRecordId - 1] == s.writers[|s.rows| - 1] {
        OwnersDiffer(c, s, cp.lastRecordId - 1, |s.rows| - 1);
      }
    }
    if Settled(s) && s.rows != [] {
      SettledHasSaved(c, s);
    }
  }

  // ---------- Receipts ----------

  lemma ReturnedStays(c: Crypto, s: State, event: Event, i: nat)
    requires i < |s.calls| && s.calls[i].pc.Returned?
    ensures i < |Step(c, s, event).calls| && Step(c, s, event).calls[i] == s.calls[i]
  {
  }

  lemma {:induction false} StaysReturned(c: Crypto, run: seq<Event>, k: nat, i: nat)
    requires k <= |run| && i < |Exec(c, run[..k]).calls| && Exec(c, run[..k]).calls[i].pc.Returned?
    ensures i < |Exec(c, run).calls| && Exec(c, run).calls[i] == Exec(c, run[..k]).calls[i]
  {
    var n := |run| - 1;
    if k <= n {
      assert run[..n][..k] == run[..k];
      StaysReturned(c, run[..n], k, i);
      ReturnedStays(c, Exec(c, run[..n]), run[n], i);
    } else {
      assert run[..k] == run;
    }
  }

  lemma RowOfCall(c: Crypto, s: State, i: nat)
    requires Inv(c, s) && i < |s.calls| && s.calls[i].pc.Returned?
    ensures Owns(s, i, s.calls[i].pc.row) && s.calls[i].pc.row.payload == s.calls[i].payload
  {
    hide Written, ReaderInv, Landed;
    assert CallInv(c, s, i);
  }

  /** The row an `append` returned is a receipt, however many other calls run beside it and
      after it: at any later time the table holds it under its id, with the payload of that
      call, and no other call has returned a row with this id. */
  lemma ReturnedRowsAreReceipts(c: Crypto, run: seq<Event>, k: nat, i: nat)
    requires k <= |run| && i < |Exec(c, run[..k]).calls| && Exec(c, run[..k]).calls[i].pc.Returned?
    ensures var row, s := Exec(c, run[..k]).calls[i].pc.row, Exec(c, run);
            && 1 <= row.id <= |s.rows| && s.rows[row.id - 1] == row
            && row.payload == Exec(c, run[..k]).calls[i].payload
            && forall j :: 0 <= j < |s.calls| && j != i && s.calls[j].pc.Returned? ==> s.calls[j].pc.row.id != row.id
  {
    hide Exec, Inv;
    StaysReturned(c, run, k, i);
    ExecInv(c, run);
    RowOfCall(c, Exec(c, run), i);
    forall j | 0 <= j < |Exec(c, run).calls| && j != i && Exec(c, run).calls[j].pc.Returned?
      ensures Exec(c, run).calls[j].pc.row.id != Exec(c, run).calls[i].pc.row.id
    {
      RowOfCall(c, Exec(c, run), j);
    }
  }
}
