/** The journal: a record list with one transaction open at a time, and its reload. */
module Journals {
  import opened Base

  datatype JournalType =
    | BeginRecord
    | AllocateInode
    | FreeInode
    | AllocateBlock
    | FreeBlock
    | WriteInode
    | WriteDirectory
    | WriteData
    | RenameEntry
    | CommitRecord
    | RollbackRecord
    | CheckpointRecord
    | OtherRecord(other: u16)
  {
    predicate Control() {
      BeginRecord? || CommitRecord? || RollbackRecord? || CheckpointRecord?
    }

    function Code(): u16 {
      match this
      case BeginRecord => 1
      case AllocateInode => 2
      case FreeInode => 3
      case AllocateBlock => 4
      case FreeBlock => 5
      case WriteInode => 6
      case WriteDirectory => 7
      case WriteData => 8
      case RenameEntry => 9
      case CommitRecord => 10
      case RollbackRecord => 11
      case CheckpointRecord => 12
      case OtherRecord(other) => other
    }

    static function FromCode(code: u16): (t: JournalType)
      ensures t.Code() == code
      ensures 1 <= code <= 12 <==> !t.OtherRecord?
    {
      match code
      case 1 => BeginRecord
      case 2 => AllocateInode
      case 3 => FreeInode
      case 4 => AllocateBlock
      case 5 => FreeBlock
      case 6 => WriteInode
      case 7 => WriteDirectory
      case 8 => WriteData
      case 9 => RenameEntry
      case 10 => CommitRecord
      case 11 => RollbackRecord
      case 12 => CheckpointRecord
      case _ => OtherRecord(code)
    }
  }

  datatype JournalRecord = JournalRecord(
    recordType: JournalType,
    sequence: u64,
    transaction: u64,
    target: u64,
    generation: u64,
    payload: seq<byte>,
    checksum: u32
  )

  function ControlRecord(t: JournalType, sequence: u64, transaction: u64): JournalRecord {
    JournalRecord(t, sequence, transaction, 0, 0, [], 0)
  }

  /** The value of a journal; `active == 0` means no open transaction. Counters wrap at 2^64. */
  datatype Log = Log(records: seq<JournalRecord>, nextSequence: u64, nextTransaction: u64, active: u64) {

    function Push(record: JournalRecord): Log {
      this.(records := records + [record], nextSequence := Wrap64(nextSequence + 1))
    }

    function Begin(limits: Limits): Result<Log> {
      if active != 0 then Err(TransactionError)
      else if |records| >= limits.maxJournalRecords then Err(ResourceLimit)
      else
        Ok(Push(ControlRecord(BeginRecord, nextSequence, nextTransaction))
           .(active := nextTransaction, nextTransaction := Wrap64(nextTransaction + 1)))
    }

    function Append(limits: Limits, t: JournalType, target: u64, payload: seq<byte>): Result<Log> {
      if active == 0 then Err(TransactionError)
      else if t.Control() then Err(JournalError)
      else if |records| >= limits.maxJournalRecords || |payload| > limits.maxFileBytes then Err(ResourceLimit)
      else Ok(Push(JournalRecord(t, nextSequence, active, target, 0, payload, 0)))
    }

    function Finish(limits: Limits, t: JournalType): Result<Log> {
      if active == 0 then Err(TransactionError)
      else if |records| >= limits.maxJournalRecords then Err(ResourceLimit)
      else Ok(Push(ControlRecord(t, nextSequence, active)).(active := 0))
    }

    function Commit(limits: Limits): Result<Log> {
      Finish(limits, CommitRecord)
    }

    function Rollback(limits: Limits): Result<Log> {
      Finish(limits, RollbackRecord)
    }

    function Checkpoint(limits: Limits): Result<Log> {
      if active != 0 then Err(TransactionError)
      else if |records| >= limits.maxJournalRecords then Err(ResourceLimit)
      else Ok(Push(ControlRecord(CheckpointRecord, nextSequence, 0)))
    }

    function Cleared(): Log {
      this.(records := [], active := 0)
    }
  }

  const FRESH_LOG := Log([], 1, 1, 0)

  // ----- load -----

  function Later(a: u64, b: u64): u64 {
    if a >= b then a else b
  }

  datatype LoadState = LoadState(previous: u64, active: u64, maximum: u64)

  function LoadStep(s: LoadState, record: JournalRecord): Result<LoadState> {
    if record.sequence <= s.previous then Err(JournalError)
    else
      var maximum := Later(s.maximum, record.transaction);
      match record.recordType
      case BeginRecord =>
        if s.active != 0 || record.transaction == 0 then Err(JournalError)
        else Ok(LoadState(record.sequence, record.transaction, maximum))
      case CommitRecord =>
        if s.active == 0 || record.transaction != s.active then Err(JournalError)
        else Ok(LoadState(record.sequence, 0, maximum))
      case RollbackRecord =>
        if s.active == 0 || record.transaction != s.active then Err(JournalError)
        else Ok(LoadState(record.sequence, 0, maximum))
      case CheckpointRecord => Ok(LoadState(record.sequence, s.active, maximum))
      case _ =>
        if record.transaction != s.active then Err(JournalError)
        else Ok(LoadState(record.sequence, s.active, maximum))
  }

  function LoadFrom(s: LoadState, records: seq<JournalRecord>): Result<LoadState>
    decreases |records|
  {
    if records == [] then Ok(s)
    else
      var next :- LoadStep(s, records[0]);
      LoadFrom(next, records[1..])
  }

  function Load(records: seq<JournalRecord>, limits: Limits): Result<Log> {
    if |records| > limits.maxJournalRecords then Err(ResourceLimit)
    else
      var s :- LoadFrom(LoadState(0, 0, 0), records);
      Ok(Log(records, Wrap64(s.previous + 1), Wrap64(s.maximum + 1), s.active))
  }

  lemma {:induction false} LoadAppend(s: LoadState, records: seq<JournalRecord>, record: JournalRecord)
    requires LoadFrom(s, records).Ok?
    ensures LoadFrom(s, records + [record]) == LoadStep(LoadFrom(s, records).value, record)
    decreases |records|
  {
    if records == [] {
      assert [] + [record] == [record] && [record][1..] == [];
    } else {
      assert (records + [record])[1..] == records[1..] + [record];
      LoadAppend(LoadStep(s, records[0]).value, records[1..], record);
    }
  }

  /** The transaction open before the `n`-th record: what the last begin, commit or rollback before it says. */
  function OpenBefore(records: seq<JournalRecord>, n: nat): u64
    requires n <= |records|
    decreases n
  {
    if n == 0 then 0
    else if records[n - 1].recordType == BeginRecord then records[n - 1].transaction
    else if records[n - 1].recordType == CommitRecord || records[n - 1].recordType == RollbackRecord then 0
    else OpenBefore(records, n - 1)
  }

  /** A record fits in its place: its number is larger than the one before, or than zero; a begin opens a
      numbered transaction where none is open, a commit or rollback closes the open one, a checkpoint may
      stand anywhere, and anything else belongs to the open transaction. */
  predicate FitsAt(records: seq<JournalRecord>, i: nat)
    requires i < |records|
  {
    var r, open := records[i], OpenBefore(records, i);
    && r.sequence > (if i == 0 then 0 else records[i - 1].sequence)
    && (r.recordType == BeginRecord ==> open == 0 && r.transaction != 0)
    && (r.recordType == CommitRecord || r.recordType == RollbackRecord ==> open != 0 && r.transaction == open)
    && (!r.recordType.Control() ==> r.transaction == open)
  }

  lemma OpenPrefix(records: seq<JournalRecord>, m: nat, n: nat)
    requires n <= m <= |records|
    ensures OpenBefore(records[..m], n) == OpenBefore(records, n)
    decreases n
  {
    if n > 0 {
      assert records[..m][n - 1] == records[n - 1];
      OpenPrefix(records, m, n - 1);
    }
  }

  /** The largest transaction number of the records, or zero. */
  predicate Largest(records: seq<JournalRecord>, most: u64) {
    && (forall i :: 0 <= i < |records| ==> records[i].transaction <= most)
    && (most == 0 || exists i :: 0 <= i < |records| && records[i].transaction == most)
  }

  lemma LargestNext(records: seq<JournalRecord>, most: u64, record: JournalRecord)
    requires Largest(records, most)
    ensures Largest(records + [record], Later(most, record.transaction))
  {
    var grown := records + [record];
    assert grown[|records|] == record && forall i :: 0 <= i < |records| ==> grown[i] == records[i];
  }

  lemma {:induction false} LoadFromExactly(records: seq<JournalRecord>)
    ensures LoadFrom(LoadState(0, 0, 0), records).Ok? <==> forall i: nat :: i < |records| ==> FitsAt(records, i)
    ensures LoadFrom(LoadState(0, 0, 0), records).Ok? ==>
              var s := LoadFrom(LoadState(0, 0, 0), records).value;
              && s.active == OpenBefore(records, |records|)
              && s.previous == (if records == [] then 0 else records[|records| - 1].sequence)
              && Largest(records, s.maximum)
    decreases |records|
  {
    if records != [] {
      var last := |records| - 1;
      var front := records[..last];
      assert records == front + [records[last]];
      LoadFromExactly(front);
      forall i: nat | i < last ensures FitsAt(front, i) == FitsAt(records, i) {
        assert front[i] == records[i] && (i > 0 ==> front[i - 1] == records[i - 1]);
        OpenPrefix(records, last, i);
      }
      OpenPrefix(records, last, last);
      hide OpenBefore;
      if LoadFrom(LoadState(0, 0, 0), front).Ok? {
        LoadAppend(LoadState(0, 0, 0), front, records[last]);
        LastFits(LoadFrom(LoadState(0, 0, 0), front).value, records);
        LargestNext(front, LoadFrom(LoadState(0, 0, 0), front).value.maximum, records[last]);
      } else {
        FrontFails(LoadState(0, 0, 0), front, records[last]);
      }
    }
  }

  lemma {:induction false} FrontFails(s: LoadState, records: seq<JournalRecord>, record: JournalRecord)
    requires LoadFrom(s, records).Err?
    ensures LoadFrom(s, records + [record]).Err?
    decreases |records|
  {
    assert (records + [record])[1..] == records[1..] + [record];
    if LoadStep(s, records[0]).Ok? {
      FrontFails(LoadStep(s, records[0]).value, records[1..], record);
    }
  }

  lemma LastFits(s: LoadState, records: seq<JournalRecord>)
    requires records != [] && s.active == OpenBefore(records, |records| - 1)
    requires s.previous == (if |records| == 1 then 0 else records[|records| - 2].sequence)
    ensures LoadStep(s, records[|records| - 1]).Ok? <==> FitsAt(records, |records| - 1)
    ensures LoadStep(s, records[|records| - 1]).Ok? ==>
              var next := LoadStep(s, records[|records| - 1]).value;
              && next.active == OpenBefore(records, |records|) && next.previous == records[|records| - 1].sequence
              && next.maximum == Later(s.maximum, records[|records| - 1].transaction)
  {
  }

  /** Records load exactly if there are not too many and each fits in its place; the journal then goes on after
      the last number, after the largest transaction, inside the transaction left open. */
  lemma LoadsExactly(records: seq<JournalRecord>, limits: Limits)
    ensures Load(records, limits).Ok? <==>
            |records| <= limits.maxJournalRecords && forall i: nat :: i < |records| ==> FitsAt(records, i)
    ensures Load(records, limits).Ok? ==>
              var log := Load(records, limits).value;
              && log.records == records && log.active == OpenBefore(records, |records|)
              && log.nextSequence == (if records == [] then 1 else (records[|records| - 1].sequence + 1) % TWO64)
              && exists most: u64 :: Largest(records, most) && log.nextTransaction == (most + 1) % TWO64
  {
    hide LoadFrom, OpenBefore, FitsAt;
    LoadFromExactly(records);
  }

  // ----- Runs of a journal -----

  datatype JournalOp =
    | OpBegin
    | OpAppend(t: JournalType, target: u64, payload: seq<byte>)
    | OpCommit
    | OpRollback
    | OpCheckpoint

  function Attempt(log: Log, op: JournalOp, limits: Limits): Result<Log> {
    match op
    case OpBegin => log.Begin(limits)
    case OpAppend(t, target, payload) => log.Append(limits, t, target, payload)
    case OpCommit => log.Commit(limits)
    case OpRollback => log.Rollback(limits)
    case OpCheckpoint => log.Checkpoint(limits)
  }

  /** A refused call changes nothing. */
  function Step(log: Log, op: JournalOp, limits: Limits): Log {
    match Attempt(log, op, limits)
    case Ok(next) => next
    case Err(_) => log
  }

  function Run(log: Log, ops: seq<JournalOp>, limits: Limits): Log
    decreases |ops|
  {
    if ops == [] then log else Run(Step(log, ops[0], limits), ops[1..], limits)
  }

  /** Complete transactions and checkpoints in turn, then at most one transaction still open:
      `open` is the transaction open before the first record, `end` the one open at the end. */
  predicate Bracketed(records: seq<JournalRecord>, open: u64, end: u64)
    decreases |records|
  {
    if records == [] then open == end
    else
      var r := records[0];
      match r.recordType
      case BeginRecord => open == 0 && r.transaction != 0 && Bracketed(records[1..], r.transaction, end)
      case CommitRecord => open != 0 && r.transaction == open && Bracketed(records[1..], 0, end)
      case RollbackRecord => open != 0 && r.transaction == open && Bracketed(records[1..], 0, end)
      case CheckpointRecord => open == 0 && r.transaction == 0 && Bracketed(records[1..], open, end)
      case _ => open != 0 && r.transaction == open && Bracketed(records[1..], open, end)
  }

  /** Where one bracketed journal ends the next may begin. */
  lemma {:induction false} BracketedConcat(left: seq<JournalRecord>, right: seq<JournalRecord>, open: u64, middle: u64, end: u64)
    requires Bracketed(left, open, middle) && Bracketed(right, middle, end)
    ensures Bracketed(left + right, open, end)
    decreases |left|
  {
    if left == [] {
      assert left + right == right;
    } else {
      assert (left + right)[1..] == left[1..] + right;
      match left[0].recordType
      case BeginRecord => BracketedConcat(left[1..], right, left[0].transaction, middle, end);
      case CommitRecord => BracketedConcat(left[1..], right, 0, middle, end);
      case RollbackRecord => BracketedConcat(left[1..], right, 0, middle, end);
      case _ => BracketedConcat(left[1..], right, open, middle, end);
    }
  }

  lemma BracketedOne(record: JournalRecord, open: u64, end: u64)
    requires record.recordType == BeginRecord ==> open == 0 && record.transaction == end != 0
    requires record.recordType == CommitRecord || record.recordType == RollbackRecord ==>
               open != 0 && record.transaction == open && end == 0
    requires record.recordType == CheckpointRecord ==> open == 0 && record.transaction == 0 && end == 0
    requires !record.recordType.Control() ==> open == end == record.transaction && open != 0
    ensures Bracketed([record], open, end)
  {
    assert [record][1..] == [];
  }

  function Begins(records: seq<JournalRecord>): nat
    decreases |records|
  {
    if records == [] then 0 else Begins(records[1..]) + (if records[0].recordType == BeginRecord then 1 else 0)
  }

  lemma {:induction false} BeginsAppend(records: seq<JournalRecord>, record: JournalRecord)
    ensures Begins(records + [record]) == Begins(records) + (if record.recordType == BeginRecord then 1 else 0)
    ensures Begins(records) <= |records|
    decreases |records|
  {
    if records == [] {
      assert [record][1..] == [];
    } else {
      assert (records + [record])[1..] == records[1..] + [record];
      BeginsAppend(records[1..], record);
    }
  }

  /** The first sequence number handed out since the journal was last cleared. */
  function FirstSequence(log: Log): int {
    log.nextSequence - |log.records|
  }

  /** The first transaction number handed out since then. */
  function FirstTransaction(log: Log): int {
    log.nextTransaction - Begins(log.records)
  }

  /** Room for the numbers of `clears` more journals after this one, none longer than the limit. */
  predicate Room(log: Log, clears: nat, limits: Limits) {
    FirstSequence(log) + (clears + 1) * limits.maxJournalRecords < TWO64
  }

  /** What loading finds in the records of a journal. */
  function Recorded(log: Log): LoadState
    requires log.nextSequence >= 1 && log.nextTransaction >= 1
  {
    LoadState(if log.records == [] then 0 else log.nextSequence - 1, log.active,
              if Begins(log.records) == 0 then 0 else log.nextTransaction - 1)
  }

  /** The invariant of a journal. Its counters go on when it is cleared, so its numbers start anywhere;
      they do not wrap before the record limit is reached. */
  ghost predicate LogOk(log: Log, limits: Limits) {
    && |log.records| <= limits.maxJournalRecords
    && 1 <= FirstTransaction(log) <= FirstSequence(log)
    && Room(log, 0, limits)
    && log.active < log.nextTransaction
    && (forall i :: 0 <= i < |log.records| ==> log.records[i].sequence == FirstSequence(log) + i)
    && (forall i :: 0 <= i < |log.records| ==> |log.records[i].payload| <= limits.maxFileBytes)
    && Bracketed(log.records, 0, log.active)
    && LoadFrom(LoadState(0, 0, 0), log.records) == Ok(Recorded(log))
  }

  /** Records are only appended, and the numbers go on counting. */
  ghost predicate Extends(log: Log, next: Log) {
    && |log.records| <= |next.records| && next.records[..|log.records|] == log.records
    && FirstSequence(next) == FirstSequence(log) && FirstTransaction(next) == FirstTransaction(log)
  }

  lemma ExtendsTransitive(a: Log, b: Log, c: Log)
    requires Extends(a, b) && Extends(b, c)
    ensures Extends(a, c)
  {
    hide Begins;
    assert forall i :: 0 <= i < |b.records| ==> b.records[i] == c.records[..|b.records|][i];
    assert forall i :: 0 <= i < |a.records| ==> a.records[i] == b.records[..|a.records|][i];
  }

  lemma ExtendsFirsts(log: Log, next: Log)
    requires Extends(log, next)
    ensures FirstSequence(next) == FirstSequence(log) && FirstTransaction(next) == FirstTransaction(log)
  {
  }

  lemma ExtendsReflexive(log: Log)
    ensures Extends(log, log)
  {
  }

  lemma AttemptKeepsLogOk(log: Log, op: JournalOp, limits: Limits)
    requires LogOk(log, limits) && Attempt(log, op, limits).Ok?
    ensures LogOk(Attempt(log, op, limits).value, limits) && Extends(log, Attempt(log, op, limits).value)
  {
    hide Bracketed, LoadFrom, Begins;
    var next := Attempt(log, op, limits).value;
    var record := next.records[|log.records|];
    AttemptPushes(log, op, limits);
    BeginsAppend(log.records, record);
    LoadAppend(LoadState(0, 0, 0), log.records, record);
    NoneOpen(log.records, 0, log.active);
    BracketedOne(record, log.active, next.active);
    BracketedConcat(log.records, [record], 0, log.active, next.active);
    hide Attempt;
  }

  /** Every accepted call appends one record with the next sequence number. */
  lemma AttemptPushes(log: Log, op: JournalOp, limits: Limits)
    requires LogOk(log, limits) && Attempt(log, op, limits).Ok?
    ensures var next := Attempt(log, op, limits).value;
            && |next.records| == |log.records| + 1 <= limits.maxJournalRecords && next.nextSequence == log.nextSequence + 1
            && next.records[..|log.records|] == log.records
            && var record := next.records[|log.records|];
               && next.records == log.records + [record]
               && record.sequence == log.nextSequence && |record.payload| <= limits.maxFileBytes
               && next.nextTransaction == log.nextTransaction + (if record.recordType == BeginRecord then 1 else 0)
               && (if record.recordType == BeginRecord then log.active == 0 && next.active == record.transaction == log.nextTransaction
                   else if record.recordType == CommitRecord || record.recordType == RollbackRecord then
                     record.transaction == log.active != 0 && next.active == 0
                   else if record.recordType == CheckpointRecord then record.transaction == 0 && log.active == next.active == 0
                   else log.active == next.active == record.transaction != 0)
  {
    hide Bracketed, LoadFrom, Begins;
    BeginsAppend(log.records, ControlRecord(CheckpointRecord, 0, 0));
  }

  /** What every call does to a journal, written out: when it is accepted, the one record it appends field
      by field, and the counters and open transaction afterwards. */
  lemma AttemptWrites(log: Log, op: JournalOp, limits: Limits)
    ensures Attempt(log, op, limits).Ok? <==>
              && |log.records| < limits.maxJournalRecords
              && (if op.OpBegin? || op.OpCheckpoint? then log.active == 0 else log.active != 0)
              && (op.OpAppend? ==>
                    && |op.payload| <= limits.maxFileBytes
                    && op.t != BeginRecord && op.t != CommitRecord && op.t != RollbackRecord && op.t != CheckpointRecord)
    ensures Attempt(log, op, limits).Ok? ==>
              var written :=
                match op
                case OpBegin => JournalRecord(BeginRecord, log.nextSequence, log.nextTransaction, 0, 0, [], 0)
                case OpAppend(t, target, payload) => JournalRecord(t, log.nextSequence, log.active, target, 0, payload, 0)
                case OpCommit => JournalRecord(CommitRecord, log.nextSequence, log.active, 0, 0, [], 0)
                case OpRollback => JournalRecord(RollbackRecord, log.nextSequence, log.active, 0, 0, [], 0)
                case OpCheckpoint => JournalRecord(CheckpointRecord, log.nextSequence, 0, 0, 0, [], 0);
              Attempt(log, op, limits).value ==
                Log(log.records + [written],
                    (log.nextSequence + 1) % TWO64,
                    if op.OpBegin? then (log.nextTransaction + 1) % TWO64 else log.nextTransaction,
                    if op.OpBegin? then log.nextTransaction else if op.OpCommit? || op.OpRollback? then 0 else log.active)
  {
  }

  /** Without a begin nothing opens. */
  lemma {:induction false} NoneOpen(records: seq<JournalRecord>, open: u64, end: u64)
    requires Bracketed(records, open, end)
    ensures open == 0 && Begins(records) == 0 ==> end == 0
    decreases |records|
  {
    if records != [] {
      match records[0].recordType
      case BeginRecord =>
      case CommitRecord => NoneOpen(records[1..], 0, end);
      case RollbackRecord => NoneOpen(records[1..], 0, end);
      case _ => NoneOpen(records[1..], open, end);
    }
  }

  /** A journal may start where the counters stand. */
  predicate CanStart(log: Log, limits: Limits) {
    1 <= log.nextTransaction <= log.nextSequence && log.nextSequence + limits.maxJournalRecords < TWO64
  }

  lemma ClearedLogOk(log: Log, limits: Limits)
    requires CanStart(log, limits)
    ensures LogOk(log.Cleared(), limits)
  {
  }

  /** A journal with room for one more can be cleared, and has room for one less. */
  lemma ClearedRoom(log: Log, clears: nat, limits: Limits)
    requires LogOk(log, limits) && Room(log, clears, limits) && clears > 0
    ensures CanStart(log, limits) && Room(log.Cleared(), clears - 1, limits)
  {
    hide Bracketed, LoadFrom, Begins;
    BeginsAppend(log.records, ControlRecord(CheckpointRecord, 0, 0));
    assert (clears + 1) * limits.maxJournalRecords == clears * limits.maxJournalRecords + limits.maxJournalRecords;
    MulMonotone(limits.maxJournalRecords, 1, clears);
  }

  lemma {:induction false} RunKeepsLogOk(log: Log, ops: seq<JournalOp>, limits: Limits)
    requires LogOk(log, limits)
    ensures LogOk(Run(log, ops, limits), limits) && Extends(log, Run(log, ops, limits))
    decreases |ops|
  {
    hide LogOk, Extends;
    ExtendsReflexive(log);
    if ops != [] {
      var next := Step(log, ops[0], limits);
      if Attempt(log, ops[0], limits).Ok? {
        AttemptKeepsLogOk(log, ops[0], limits);
      }
      RunKeepsLogOk(next, ops[1..], limits);
      ExtendsTransitive(log, next, Run(log, ops, limits));
    }
  }

  /** The journal that loading its records gives. */
  function Reloaded(log: Log): Log {
    log.(nextSequence := if log.records == [] then 1 else log.nextSequence,
         nextTransaction := if Begins(log.records) == 0 then 1 else log.nextTransaction)
  }

  /** Loading gives back records and open transaction always, and the counters exactly when the records
      show them: a journal cleared before and empty, or without a begin, starts counting anew. */
  lemma LogReloads(log: Log, limits: Limits)
    requires LogOk(log, limits)
    ensures Load(log.records, limits) == Ok(Reloaded(log))
    ensures Reloaded(log) == log <==> (log.records != [] || log.nextSequence == 1) && (Begins(log.records) > 0 || log.nextTransaction == 1)
  {
    hide Bracketed, LoadFrom;
  }

  lemma ReloadedLogOk(log: Log, limits: Limits)
    requires LogOk(log, limits)
    ensures LogOk(Reloaded(log), limits)
    ensures FirstSequence(log) == 1 && FirstTransaction(log) == 1 ==> Reloaded(log) == log
  {
    hide Bracketed, LoadFrom;
    NoneOpen(log.records, 0, log.active);
  }

  /** Every run from a fresh journal is strictly increasing and properly bracketed, and loading its
      records rebuilds the very same journal: records, counters and open transaction. */
  lemma {:induction false} JournalRunReloads(ops: seq<JournalOp>, limits: Limits)
    ensures var log := Run(FRESH_LOG, ops, limits);
            && (forall i, j :: 0 <= i < j < |log.records| ==> log.records[i].sequence < log.records[j].sequence)
            && Bracketed(log.records, 0, log.active)
            && Load(log.records, limits) == Ok(log)
  {
    FreshFirsts(limits);
    hide Bracketed, Begins, Run, LoadFrom, Load, LogOk, Reloaded, Extends, FirstSequence, FirstTransaction;
    RunKeepsLogOk(FRESH_LOG, ops, limits);
    var log := Run(FRESH_LOG, ops, limits);
    ExtendsFirsts(FRESH_LOG, log);
    LogReloads(log, limits);
    ReloadedLogOk(log, limits);
    LogOrdered(log, limits);
  }

  /** Sequence numbers increase from some number on. */
  predicate Ascending(records: seq<JournalRecord>, previous: nat) {
    && (forall i :: 0 <= i < |records| ==> records[i].sequence > previous)
    && (forall i, j :: 0 <= i < j < |records| ==> records[i].sequence < records[j].sequence)
  }

  lemma AscendingRest(records: seq<JournalRecord>, previous: nat)
    requires Ascending(records, previous) && records != []
    ensures records[0].sequence > previous && Ascending(records[1..], records[0].sequence)
  {
  }

  lemma LogOrdered(log: Log, limits: Limits)
    requires LogOk(log, limits)
    ensures Ascending(log.records, 0)
    ensures Bracketed(log.records, 0, log.active) && |log.records| <= limits.maxJournalRecords
  {
  }

  lemma FreshFirsts(limits: Limits)
    ensures LogOk(FRESH_LOG, limits) && FirstSequence(FRESH_LOG) == 1 && FirstTransaction(FRESH_LOG) == 1
  {
  }

  class Journal {
    const limits: Limits
    var records: seq<JournalRecord>
    var nextSequence: u64
    var nextTransaction: u64
    var activeTransaction: u64

    function View(): Log
      reads this
    {
      Log(records, nextSequence, nextTransaction, activeTransaction)
    }

    constructor (limits: Limits)
      ensures this.limits == limits && View() == FRESH_LOG
    {
      this.limits := limits;
      records := [];
      nextSequence, nextTransaction, activeTransaction := 1, 1, 0;
    }

    method Begin() returns (r: Result<()>)
      modifies this
      ensures r.Ok? <==> old(View()).Begin(limits).Ok?
      ensures r.Ok? ==> old(View()).Begin(limits) == Ok(View())
      ensures r.Err? ==> old(View()).Begin(limits) == Err(r.code) && unchanged(this)
    {
      if activeTransaction != 0 {
        return Err(TransactionError);
      }
      if |records| >= limits.maxJournalRecords {
        return Err(ResourceLimit);
      }
      activeTransaction := nextTransaction;
      nextTransaction := Wrap64(nextTransaction + 1);
      records := records + [ControlRecord(BeginRecord, nextSequence, activeTransaction)];
      nextSequence := Wrap64(nextSequence + 1);
      return Ok(());
    }

    method Append(t: JournalType, target: u64, payload: seq<byte>) returns (r: Result<()>)
      modifies this
      ensures r.Ok? <==> old(View()).Append(limits, t, target, payload).Ok?
      ensures r.Ok? ==> old(View()).Append(limits, t, target, payload) == Ok(View())
      ensures r.Err? ==> old(View()).Append(limits, t, target, payload) == Err(r.code) && unchanged(this)
    {
      if activeTransaction == 0 {
        return Err(TransactionError);
      }
      if t.Control() {
        return Err(JournalError);
      }
      if |records| >= limits.maxJournalRecords || |payload| > limits.maxFileBytes {
        return Err(ResourceLimit);
      }
      records := records + [JournalRecord(t, nextSequence, activeTransaction, target, 0, payload, 0)];
      nextSequence := Wrap64(nextSequence + 1);
      return Ok(());
    }

    method Finish(t: JournalType) returns (r: Result<()>)
      modifies this
      ensures r.Ok? <==> old(View()).Finish(limits, t).Ok?
      ensures r.Ok? ==> old(View()).Finish(limits, t) == Ok(View())
      ensures r.Err? ==> old(View()).Finish(limits, t) == Err(r.code) && unchanged(this)
    {
      if activeTransaction == 0 {
        return Err(TransactionError);
      }
      if |records| >= limits.maxJournalRecords {
        return Err(ResourceLimit);
      }
      records := records + [ControlRecord(t, nextSequence, activeTransaction)];
      nextSequence := Wrap64(nextSequence + 1);
      activeTransaction := 0;
      return Ok(());
    }

    method Commit() returns (r: Result<()>)
      modifies this
      ensures r.Ok? <==> old(View()).Commit(limits).Ok?
      ensures r.Ok? ==> old(View()).Commit(limits) == Ok(View())
      ensures r.Err? ==> old(View()).Commit(limits) == Err(r.code) && unchanged(this)
    {
      r := Finish(CommitRecord);
    }

    method Rollback() returns (r: Result<()>)
      modifies this
      ensures r.Ok? <==> old(View()).Rollback(limits).Ok?
      ensures r.Ok? ==> old(View()).Rollback(limits) == Ok(View())
      ensures r.Err? ==> old(View()).Rollback(limits) == Err(r.code) && unchanged(this)
    {
      r := Finish(RollbackRecord);
    }

    method Checkpoint() returns (r: Result<()>)
      modifies this
      ensures r.Ok? <==> old(View()).Checkpoint(limits).Ok?
      ensures r.Ok? ==> old(View()).Checkpoint(limits) == Ok(View())
      ensures r.Err? ==> old(View()).Checkpoint(limits) == Err(r.code) && unchanged(this)
    {
      if activeTransaction != 0 {
        return Err(TransactionError);
      }
      if |records| >= limits.maxJournalRecords {
        return Err(ResourceLimit);
      }
      records := records + [ControlRecord(CheckpointRecord, nextSequence, 0)];
      nextSequence := Wrap64(nextSequence + 1);
      return Ok(());
    }

    method LoadRecords(loaded: seq<JournalRecord>) returns (r: Result<()>)
      modifies this
      ensures r.Ok? <==> Load(loaded, limits).Ok?
      ensures r.Ok? ==> Load(loaded, limits) == Ok(View())
      ensures r.Err? ==> Load(loaded, limits) == Err(r.code) && unchanged(this)
    {
      if |loaded| > limits.maxJournalRecords {
        return Err(ResourceLimit);
      }
      var previous: u64, active: u64, maximum: u64 := 0, 0, 0;
      var index := 0;
      assert loaded[0..] == loaded;
      while index < |loaded|
        invariant 0 <= index <= |loaded|
        invariant LoadFrom(LoadState(previous, active, maximum), loaded[index..]) == LoadFrom(LoadState(0, 0, 0), loaded)
      {
        var record := loaded[index];
        ghost var next := LoadStep(LoadState(previous, active, maximum), record);
        assert loaded[index..][1..] == loaded[index + 1..];
        if record.sequence <= previous {
          return Err(JournalError);
        }
        if record.recordType == BeginRecord {
          if active != 0 || record.transaction == 0 {
            return Err(JournalError);
          }
          active := record.transaction;
        } else if record.recordType == CommitRecord || record.recordType == RollbackRecord {
          if active == 0 || record.transaction != active {
            return Err(JournalError);
          }
          active := 0;
        } else if record.recordType != CheckpointRecord && record.transaction != active {
          return Err(JournalError);
        }
        previous := record.sequence;
        maximum := Later(maximum, record.transaction);
        assert next == Ok(LoadState(previous, active, maximum));
        index := index + 1;
      }
      records := loaded;
      nextSequence := Wrap64(previous + 1);
      nextTransaction := Wrap64(maximum + 1);
      activeTransaction := active;
      return Ok(());
    }

    method Clear()
      modifies this
      ensures View() == old(View()).Cleared()
    {
      records := [];
      activeTransaction := 0;
    }

    method Restore(saved: Log)
      modifies this
      ensures View() == saved
    {
      records, nextSequence := saved.records, saved.nextSequence;
      nextTransaction, activeTransaction := saved.nextTransaction, saved.active;
    }
  }
}
