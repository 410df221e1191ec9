/**
 The abstract state of an indexed block: a log and an index driven in lock step, and what holds over
 whole runs of operations on the pair.
 */
module IndexedLog {
  import opened Outcomes
  import opened Words
  import L = RecordLog
  import X = RecordIndex
  import R = LogRuns

  datatype Pair = Pair(log: L.Log, index: X.Index)

  datatype Op =
    | StartOp(tid: string)
    | WriteOp(payload: seq<int>, tid: string)
    | DeleteOp(number: nat, tid: string, tail: bool)
    | CommitOp(tid: string)
    | RollbackOp(tid: string)
    | FinishOp
    | ArchiveOp

  /* ---------- The operations ---------- */

  function Start(p: Pair, tid: string): Result<Pair>
  {
    match L.Start(p.log, tid)
    case Err(e) => Err(e)
    case Ok(log) => Ok(Pair(log, X.Start(p.index, log.txn.value)))
  }

  /** The number the next record gets. */
  function NextNumber(p: Pair): nat { p.log.start + |p.log.Records()| }

  /** The record is written before its entry: when the index refuses, the record stays pending without one. */
  function Write(p: Pair, payload: seq<int>, tid: string): (Pair, Result<nat>)
  {
    match L.Write(p.log, payload, tid)
    case Err(e) => (p, Err(e))
    case Ok(log) =>
      match X.Write(p.index, NextNumber(p), L.End(p.log.Records()), |payload|, tid)
      case Err(e) => (Pair(log, p.index), Err(e))
      case Ok(index) => (Pair(log, index), Ok(NextNumber(p)))
  }

  /** The entry and the record at a number can be deleted.  For an empty index the test admits its start
      number; `tail` says whether the bytes left in both regions look valid. */
  predicate Deletable(p: Pair, number: nat, tail: bool)
    requires p.log.start <= number
  {
    if number - p.log.start < |p.index.Entries()| && number <= p.log.Limit()
    then L.Deletable(p.log, number, true)
    else tail
  }

  function Delete(p: Pair, number: nat, tid: string, tail: bool): Result<Pair>
  {
    if !L.MayWrite(p.log) then Err(NotWriteable)
    else if !L.Holds(p.log, tid) then Err(WrongTransaction)
    else if number < p.log.start || number > NextNumber(p) then Err(OutOfRange)
    else if number > X.LastNumber(p.index.start, p.index.committed) then Err(OutOfRange)
    else if !Deletable(p, number, tail) then Err(BadState)
    else Ok(Pair(p.log, p.index.(staged := p.index.staged + [number])))
  }

  function Settled(p: Pair): Pair
  {
    Pair(L.Settled(L.StruckBy(p.log, p.index.staged)), X.Settled(p.index))
  }

  function Commit(p: Pair, tid: string): Result<Pair>
  {
    if !L.Holds(p.log, tid) then Err(WrongTransaction) else Ok(Settled(p))
  }

  function Abandoned(p: Pair): Pair { Pair(L.Abandoned(p.log), X.Abandoned(p.index)) }

  function Rollback(p: Pair, tid: string): Result<Pair>
  {
    if !L.Holds(p.log, tid) then Err(WrongTransaction) else Ok(Abandoned(p))
  }

  function Next(p: Pair, op: Op): Pair
  {
    match op
    case StartOp(tid) => (match Start(p, tid) case Ok(q) => q case Err(_) => p)
    case WriteOp(payload, tid) => Write(p, payload, tid).0
    case DeleteOp(i, tid, tail) => (match Delete(p, i, tid, tail) case Ok(q) => q case Err(_) => p)
    case CommitOp(tid) => (match Commit(p, tid) case Ok(q) => q case Err(_) => p)
    case RollbackOp(tid) => (match Rollback(p, tid) case Ok(q) => q case Err(_) => p)
    case FinishOp => p.(log := L.Finish(p.log))
    case ArchiveOp => p.(log := L.Archive(p.log))
  }

  function Run(p: Pair, ops: seq<Op>): Pair
    decreases ops
  {
    if ops == [] then p else Run(Next(p, ops[0]), ops[1..])
  }

  function Fresh(start: nat, blockSize: nat, updateable: bool, estimated: nat): Pair
  {
    Pair(L.Fresh(start, blockSize, updateable), X.Fresh(start, estimated * X.ENTRY_SIZE))
  }

  /* ---------- The link between entries and records ---------- */

  /** Entry `k` points at record `k`. */
  predicate LinkedAt(es: seq<X.Entry>, recs: seq<L.Record>, k: nat)
    requires k < |es| <= |recs|
  {
    es[k].offset == L.Offset(recs, k) && es[k].size == |recs[k].payload|
  }

  ghost predicate Linked(es: seq<X.Entry>, recs: seq<L.Record>)
  {
    |es| <= |recs| && forall k {:trigger LinkedAt(es, recs, k)} :: 0 <= k < |es| ==> LinkedAt(es, recs, k)
  }

  lemma LinkKept(es: seq<X.Entry>, recs: seq<L.Record>, es': seq<X.Entry>, recs': seq<L.Record>)
    requires Linked(es, recs)
    requires |es'| <= |es| && |es'| <= |recs'|
    requires forall k :: 0 <= k < |es'| ==> es'[k].offset == es[k].offset && es'[k].size == es[k].size
    requires L.SameSizes(recs', recs, |es'|)
    ensures Linked(es', recs')
  {
    forall k | 0 <= k < |es'| ensures LinkedAt(es', recs', k) {
      assert LinkedAt(es, recs, k);
      L.SizesDecideOffsets(recs', recs, k);
    }
  }

  /** The smallest index that can hold an entry at all. */
  const MIN_INDEX_SIZE: nat := X.ENTRY_SIZE + X.INDEX_HEADER_SIZE

  /** The index describes the records from the first one on; it can only fall behind when it is full. */
  ghost predicate Aligned(p: Pair)
  {
    && p.index.start == p.log.start && p.index.txn == p.log.txn && p.log.staged == []
    && p.index.totalSize >= MIN_INDEX_SIZE && X.WithinTotal(p.index)
    && X.InTurn(p.index.start, p.index.Entries())
    && Linked(p.index.Entries(), p.log.Records())
    && |p.index.committed| <= |p.log.committed|
    && (|p.index.Entries()| < |p.log.Records()| ==> X.Full(p.index))
    && (|p.index.committed| < |p.log.committed| ==> X.Full(X.Abandoned(p.index)))
    && (forall i <- p.index.staged :: p.log.start <= i <= X.LastNumber(p.index.start, p.index.committed))
    && (forall e <- p.index.committed :: e.state.Live? || e.state.Gone?)
    && (forall e <- p.index.pending :: e.state.Written?)
    && (p.log.txn.None? ==> p.log.pending == [] && p.index.pending == [] && p.index.staged == [])
    && (p.log.txn.Some? ==> p.log.txn.value != "" && p.log.updateable)
  }

  /** Committed entries and committed records are equally many. */
  predicate CommittedInStep(p: Pair) { |p.index.committed| == |p.log.committed| }

  predicate InStep(p: Pair) { CommittedInStep(p) && |p.index.pending| == |p.log.pending| }

  /** Once the committed index has fallen behind, it is full and nothing is ever pending in it. */
  lemma BehindMeansFull(p: Pair)
    requires Aligned(p) && !CommittedInStep(p)
    ensures p.index.pending == [] && X.Full(p.index)
  {
  }

  lemma StartKeepsAligned(p: Pair, tid: string)
    requires Aligned(p) && Start(p, tid).Ok?
    ensures Aligned(Start(p, tid).value)
  {
    var q := Start(p, tid).value;
    assert q.index.Entries() == p.index.committed && q.log.Records() == p.log.committed;
    LinkKept(p.index.Entries(), p.log.Records(), q.index.Entries(), q.log.Records());
    X.InTurnPrefix(p.index.start, p.index.committed, p.index.pending);
  }

  /** A write ends in step exactly when the index takes the entry, that is when it is not full. */
  lemma WriteKeepsAligned(p: Pair, payload: seq<int>, tid: string)
    requires Aligned(p) && L.Write(p.log, payload, tid).Ok?
    ensures Aligned(Write(p, payload, tid).0)
    ensures Write(p, payload, tid).1.Ok? <==> !X.Full(p.index)
    ensures Write(p, payload, tid).1.Ok? ==> InStep(p) && InStep(Write(p, payload, tid).0)
    ensures Write(p, payload, tid).1.Err? ==> !InStep(Write(p, payload, tid).0)
  {
    var q := Write(p, payload, tid).0;
    var es, recs := p.index.Entries(), p.log.Records();
    X.FreeSpaceDoesNotWrap(p.index);
    assert q.log.Records() == recs + [L.Record(payload, L.Dirty)];
    if X.Full(p.index) {
      LinkKept(es, recs, es, q.log.Records());
    } else {
      assert |es| == |recs|;
      X.NextNumberIsAccepted(p.index, L.End(recs), |payload|, tid);
      X.AcceptedEntryFits(p.index, NextNumber(p), L.End(recs), |payload|, tid);
      LinkKept(es, recs, es, q.log.Records());
      forall k | 0 <= k < |es| + 1 ensures LinkedAt(q.index.Entries(), q.log.Records(), k) {
        if k < |es| {
          assert LinkedAt(es, q.log.Records(), k);
        } else {
          L.SizesDecideOffsets(q.log.Records(), recs, k);
        }
      }
    }
  }

  /** Unless the index is out of space, the next record's entry is next in turn and lies in the region. */
  lemma EntryHasRoom(p: Pair)
    requires Aligned(p) && p.log.txn.Some?
    ensures X.FreeSpace(p.index) < X.ENTRY_SIZE ||
            (NextNumber(p) == p.index.start + |p.index.Entries()|
             && X.ENTRY_SIZE * |p.index.Entries()| + X.ENTRY_SIZE <= p.index.totalSize)
  {
    X.FreeSpaceDoesNotWrap(p.index);
  }

  lemma StagingKeepsAligned(p: Pair, number: nat)
    requires Aligned(p) && p.log.txn.Some?
    requires p.log.start <= number <= X.LastNumber(p.index.start, p.index.committed)
    ensures Aligned(Pair(p.log, p.index.(staged := p.index.staged + [number])))
  {
    LinkKept(p.index.Entries(), p.log.Records(), p.index.Entries(), p.log.Records());
  }

  lemma StrikingKeepsAligned(p: Pair, ds: seq<nat>)
    requires Aligned(p)
    ensures Aligned(Pair(L.StruckBy(p.log, ds), p.index))
  {
    LinkKept(p.index.Entries(), p.log.Records(), p.index.Entries(), L.StruckBy(p.log, ds).Records());
  }

  lemma SettlingKeepsAligned(p: Pair)
    requires Aligned(p)
    ensures Aligned(Settled(p))
    ensures CommittedInStep(Settled(p)) <==> |p.index.Entries()| == |p.log.Records()|
  {
    var q := Settled(p);
    X.SettlingKeepsTurn(p.index);
    assert q.index.Entries() == q.index.committed && q.log.Records() == q.log.committed;
    assert |q.log.committed| == |p.log.Records()|;
    LinkKept(p.index.Entries(), p.log.Records(), q.index.Entries(), q.log.Records());
  }

  lemma AbandoningKeepsAligned(p: Pair)
    requires Aligned(p)
    ensures Aligned(Abandoned(p))
    ensures InStep(Abandoned(p)) <==> CommittedInStep(p)
  {
    var q := Abandoned(p);
    assert q.index.Entries() == p.index.committed && q.log.Records() == p.log.committed;
    LinkKept(p.index.Entries(), p.log.Records(), q.index.Entries(), q.log.Records());
    X.InTurnPrefix(p.index.start, p.index.committed, p.index.pending);
  }

  lemma StepKeepsAligned(p: Pair, op: Op)
    requires Aligned(p)
    ensures Aligned(Next(p, op))
  {
    match op
    case StartOp(tid) => if Start(p, tid).Ok? { StartKeepsAligned(p, tid); }
    case WriteOp(payload, tid) => if L.Write(p.log, payload, tid).Ok? { WriteKeepsAligned(p, payload, tid); }
    case DeleteOp(i, tid, tail) =>
    case CommitOp(tid) => SettlingKeepsAligned(p);
    case RollbackOp(tid) => AbandoningKeepsAligned(p);
    case FinishOp =>
    case ArchiveOp =>
  }

  lemma {:induction false} RunKeepsAligned(p: Pair, ops: seq<Op>)
    requires Aligned(p)
    ensures Aligned(Run(p, ops))
    decreases ops
  {
    if ops != [] {
      StepKeepsAligned(p, ops[0]);
      RunKeepsAligned(Next(p, ops[0]), ops[1..]);
    }
  }

  /** A block created for at least five estimated records starts out aligned. */
  lemma FreshIsAligned(start: nat, blockSize: nat, updateable: bool, estimated: nat)
    requires 5 <= estimated < WORD
    ensures Aligned(Fresh(start, blockSize, updateable, estimated))
    ensures InStep(Fresh(start, blockSize, updateable, estimated))
  {
  }

  /* ---------- Falling out of step ---------- */

  /** No transaction was committed while a record was pending without its entry. */
  predicate CommitsInStep(p: Pair, ops: seq<Op>)
    decreases ops
  {
    ops == [] ||
    ((ops[0].CommitOp? && L.Holds(p.log, ops[0].tid) ==> InStep(p)) && CommitsInStep(Next(p, ops[0]), ops[1..]))
  }

  lemma StepOutOfStepForGood(p: Pair, op: Op)
    requires Aligned(p) && !CommittedInStep(p)
    ensures !CommittedInStep(Next(p, op))
  {
    if op.CommitOp? {
      BehindMeansFull(p);
      SettlingKeepsAligned(p);
    }
  }

  lemma {:induction false} OutOfStepForGood(p: Pair, ops: seq<Op>)
    requires Aligned(p) && !CommittedInStep(p)
    ensures !CommittedInStep(Run(p, ops))
    decreases ops
  {
    if ops != [] {
      StepOutOfStepForGood(p, ops[0]);
      StepKeepsAligned(p, ops[0]);
      OutOfStepForGood(Next(p, ops[0]), ops[1..]);
    }
  }

  /** Log and index hold equally many records after a run exactly when no commit of the run published a
      record whose entry the index had refused.  Rolling such a transaction back is always enough. */
  lemma {:induction false} InStepExactlyWhenCommitsAre(p: Pair, ops: seq<Op>)
    requires Aligned(p) && CommittedInStep(p)
    ensures CommittedInStep(Run(p, ops)) <==> CommitsInStep(p, ops)
    decreases ops
  {
    if ops != [] {
      var q := Next(p, ops[0]);
      StepKeepsAligned(p, ops[0]);
      if ops[0].CommitOp? && L.Holds(p.log, ops[0].tid) {
        SettlingKeepsAligned(p);
        if !InStep(p) {
          OutOfStepForGood(q, ops[1..]);
          return;
        }
      }
      InStepExactlyWhenCommitsAre(q, ops[1..]);
    }
  }

  /* ---------- The indexed block's log is a plain block's log ---------- */

  /** The log with the deletes that the index has staged for it. */
  function LogView(p: Pair): L.Log { p.log.(staged := p.index.staged) }

  /** What a plain block would have to be asked for the same effect. */
  function AsPlain(p: Pair, op: Op): seq<R.Op>
  {
    match op
    case StartOp(tid) =>
      if p.log.txn.Some? then [R.RollbackOp(p.log.txn.value), R.StartOp(p.log.txn.value)] else [R.StartOp(tid)]
    case WriteOp(payload, tid) => [R.WriteOp(payload, tid)]
    case DeleteOp(i, tid, tail) => if Delete(p, i, tid, tail).Ok? then [R.DeleteOp(i, tid, true)] else []
    case CommitOp(tid) => [R.CommitOp(tid)]
    case RollbackOp(tid) => [R.RollbackOp(tid)]
    case FinishOp => [R.FinishOp]
    case ArchiveOp => [R.ArchiveOp]
  }

  function RunAsPlain(p: Pair, ops: seq<Op>): seq<R.Op>
    decreases ops
  {
    if ops == [] then [] else AsPlain(p, ops[0]) + RunAsPlain(Next(p, ops[0]), ops[1..])
  }

  lemma RunOne(s: L.Log, op: R.Op)
    ensures R.Run(s, [op]) == R.Next(s, op)
  {
    assert [op][1..] == [];
    assert R.Run(R.Next(s, op), []) == R.Next(s, op);
  }

  lemma RunTwo(s: L.Log, a: R.Op, b: R.Op)
    ensures R.Run(s, [a, b]) == R.Next(R.Next(s, a), b)
  {
    assert [a, b] == [a] + [b];
    R.RunConcat(s, [a], [b]);
    RunOne(s, a);
    RunOne(R.Next(s, a), b);
  }

  lemma StepRefinesPlain(p: Pair, op: Op)
    requires Aligned(p)
    ensures LogView(Next(p, op)) == R.Run(LogView(p), AsPlain(p, op))
  {
    var v, plain := LogView(p), AsPlain(p, op);
    if op.StartOp? && p.log.txn.Some? {
      var id := p.log.txn.value;
      RunTwo(v, R.RollbackOp(id), R.StartOp(id));
    } else if op.DeleteOp? {
      DeleteRefinesPlain(p, op.number, op.tid, op.tail);
    } else {
      RunOne(v, plain[0]);
      OtherStepRefinesPlain(p, op);
    }
  }

  lemma DeleteRefinesPlain(p: Pair, i: nat, tid: string, tail: bool)
    requires Aligned(p)
    ensures var op := DeleteOp(i, tid, tail); LogView(Next(p, op)) == R.Run(LogView(p), AsPlain(p, op))
  {
    if Delete(p, i, tid, tail).Ok? {
      DeletableIsPlain(p, i, tail);
      RunOne(LogView(p), R.DeleteOp(i, tid, true));
    }
  }

  lemma OtherStepRefinesPlain(p: Pair, op: Op)
    requires Aligned(p) && !op.DeleteOp? && (op.StartOp? ==> p.log.txn.None?)
    ensures LogView(Next(p, op)) == R.Next(LogView(p), AsPlain(p, op)[0])
  {
  }

  lemma DeletableIsPlain(p: Pair, i: nat, tail: bool)
    requires Aligned(p)
    requires p.log.start <= i <= X.LastNumber(p.index.start, p.index.committed) && Deletable(p, i, tail)
    ensures i <= p.log.Limit() && L.Deletable(LogView(p), i, true)
  {
    X.InTurnPrefix(p.index.start, p.index.committed, p.index.pending);
  }

  /** Over every run, what the indexed block does to its log is what a plain block would do. */
  lemma {:induction false} RunRefinesPlain(p: Pair, ops: seq<Op>)
    requires Aligned(p)
    ensures LogView(Run(p, ops)) == R.Run(LogView(p), RunAsPlain(p, ops))
    decreases ops
  {
    if ops != [] {
      var q := Next(p, ops[0]);
      StepRefinesPlain(p, ops[0]);
      StepKeepsAligned(p, ops[0]);
      RunRefinesPlain(q, ops[1..]);
      R.RunConcat(LogView(p), AsPlain(p, ops[0]), RunAsPlain(q, ops[1..]));
    }
  }

  /* ---------- Agreement of states ---------- */

  /** An entry is live exactly when its record is readable. */
  ghost predicate Agree(p: Pair)
    requires |p.index.committed| <= |p.log.committed|
  {
    forall k :: 0 <= k < |p.index.committed| ==>
      (p.index.committed[k].state.Live? <==> p.log.committed[k].state.Readable?)
  }

  ghost predicate Sound(p: Pair)
  {
    Aligned(p) && R.Consistent(LogView(p))
  }

  lemma StepKeepsSound(p: Pair, op: Op)
    requires Sound(p)
    ensures Sound(Next(p, op))
  {
    StepKeepsAligned(p, op);
    StepRefinesPlain(p, op);
    R.RunKeepsConsistent(LogView(p), AsPlain(p, op));
  }

  lemma {:induction false} RunKeepsSound(p: Pair, ops: seq<Op>)
    requires Sound(p)
    ensures Sound(Run(p, ops))
    decreases ops
  {
    if ops != [] {
      StepKeepsSound(p, ops[0]);
      RunKeepsSound(Next(p, ops[0]), ops[1..]);
    }
  }

  /** No staged delete names a record that is still pending. */
  predicate StagesNoPending(p: Pair)
  {
    p.log.pending == [] || R.AllBelow(p.index.staged, p.log.Limit())
  }

  /** What a commit leaves at place `k` in either file. */
  lemma SettledStates(p: Pair, k: nat)
    requires |p.index.Entries()| <= |p.log.Records()| && k < |p.index.Entries()|
    ensures |Settled(p).index.committed| == |p.index.Entries()| && |Settled(p).log.committed| == |p.log.Records()|
    ensures Settled(p).index.committed[k].state ==
              if p.index.start + k in p.index.staged then X.Gone
              else if k < |p.index.committed| then p.index.committed[k].state else X.Live
    ensures Settled(p).log.committed[k].state ==
              if k >= |p.log.committed| then L.Readable
              else if p.log.start + k in p.index.staged then L.Deleted else p.log.committed[k].state
  {
  }

  /** A commit keeps entries and records in agreement exactly when it carries out no delete of a pending
      record: such a delete ends with the entry gone and the record readable. */
  lemma CommitAgreesExactly(p: Pair)
    requires Sound(p) && Agree(p)
    ensures |Settled(p).index.committed| <= |Settled(p).log.committed|
    ensures Agree(Settled(p)) <==> StagesNoPending(p)
  {
    var q := Settled(p);
    assert |q.index.committed| <= |q.log.committed| by { SettlingKeepsAligned(p); }
    if StagesNoPending(p) {
      CleanStageAgrees(p);
    } else {
      PendingStageSplits(p);
    }
  }

  lemma CleanStageAgrees(p: Pair)
    requires Sound(p) && Agree(p) && StagesNoPending(p)
    requires |Settled(p).index.committed| <= |Settled(p).log.committed|
    ensures Agree(Settled(p))
  {
    var q := Settled(p);
    forall k | 0 <= k < |q.index.committed|
      ensures q.index.committed[k].state.Live? <==> q.log.committed[k].state.Readable?
    {
      SettledStates(p, k);
      if k < |p.index.committed| {
        assert p.index.committed[k].state.Live? <==> p.log.committed[k].state.Readable?;
      } else {
        assert CommittedInStep(p) && p.log.pending != [];
        assert p.log.start + k !in p.index.staged;
      }
    }
  }

  /** The only pending record that can be staged is the first one of an empty block. */
  lemma PendingStageSplits(p: Pair)
    requires Sound(p) && !StagesNoPending(p)
    ensures p.log.committed == [] && |Settled(p).index.committed| > 0 && |Settled(p).log.committed| > 0
    ensures Settled(p).index.committed[0].state.Gone? && Settled(p).log.committed[0].state.Readable?
  {
    var i :| i in p.index.staged && i >= p.log.Limit();
    X.InTurnPrefix(p.index.start, p.index.committed, p.index.pending);
    assert p.index.committed == [] && i == p.log.start;
    SettledStates(p, 0);
  }

  /** The files agree at every moment of the run. */
  ghost predicate AlwaysAgree(p: Pair, ops: seq<Op>)
    requires Sound(p)
    decreases ops
  {
    Agree(p) && (ops == [] || (StepKeepsSound(p, ops[0]); AlwaysAgree(Next(p, ops[0]), ops[1..])))
  }

  /** No commit that went through carried out a delete of a pending record. */
  predicate CommitsStageNoPending(p: Pair, ops: seq<Op>)
    decreases ops
  {
    ops == [] ||
    ((ops[0].CommitOp? && L.Holds(p.log, ops[0].tid) ==> StagesNoPending(p))
     && CommitsStageNoPending(Next(p, ops[0]), ops[1..]))
  }

  /** Entries and records agree at every moment of a run exactly when no commit of it carries out a delete of a
      pending record, however often committed ones are deleted. */
  lemma {:induction false} AlwaysAgreeExactly(p: Pair, ops: seq<Op>)
    requires Sound(p) && Agree(p)
    ensures AlwaysAgree(p, ops) <==> CommitsStageNoPending(p, ops)
    decreases ops
  {
    if ops != [] {
      var q := Next(p, ops[0]);
      StepKeepsSound(p, ops[0]);
      if ops[0].CommitOp? && L.Holds(p.log, ops[0].tid) {
        CommitAgreesExactly(p);
      } else {
        OnlyCommitsChangeCommitted(p, ops[0]);
      }
      if Agree(q) {
        AlwaysAgreeExactly(q, ops[1..]);
      } else {
        assert !AlwaysAgree(q, ops[1..]);
      }
    }
  }

  /** Every commit that went through carried out distinct deletes of committed records. */
  predicate CleanCommits(p: Pair, ops: seq<Op>)
    decreases ops
  {
    ops == [] ||
    ((ops[0].CommitOp? && L.Holds(p.log, ops[0].tid) ==> R.CleanStage(LogView(p)))
     && CleanCommits(Next(p, ops[0]), ops[1..]))
  }

  lemma OnlyCommitsChangeCommitted(p: Pair, op: Op)
    requires !(op.CommitOp? && L.Holds(p.log, op.tid))
    ensures var q := Next(p, op);
            && q.log.committed == p.log.committed && q.log.deleted == p.log.deleted && q.log.total == p.log.total
            && q.index.committed == p.index.committed
  {
  }

  /** What a step adds to the drift. */
  function Missed(p: Pair, op: Op): nat
  {
    if op.CommitOp? && L.Holds(p.log, op.tid) then R.Extra(p.index.staged, p.log.Limit()) else 0
  }

  /** The repeated and the uncommitted numbers that the commits of a run carried out. */
  function Misses(p: Pair, ops: seq<Op>): nat
    decreases ops
  {
    if ops == [] then 0 else Missed(p, ops[0]) + Misses(Next(p, ops[0]), ops[1..])
  }

  lemma StepDrift(p: Pair, op: Op)
    requires Sound(p)
    ensures R.Drift(LogView(Next(p, op))) == R.Drift(LogView(p)) + Missed(p, op)
    ensures Missed(p, op) == 0 <==> (op.CommitOp? && L.Holds(p.log, op.tid) ==> R.CleanStage(LogView(p)))
    ensures Agree(p) && Missed(p, op) == 0 ==> Aligned(Next(p, op)) && Agree(Next(p, op))
  {
    StepKeepsAligned(p, op);
    if op.CommitOp? && L.Holds(p.log, op.tid) {
      CommitDrift(p);
      if Agree(p) && Missed(p, op) == 0 {
        CommitAgreesExactly(p);
      }
    } else {
      OnlyCommitsChangeCommitted(p, op);
    }
  }

  lemma SettledView(p: Pair)
    ensures LogView(Settled(p)) == L.Settled(L.StruckBy(LogView(p), LogView(p).staged))
  {
  }

  lemma CommitDrift(p: Pair)
    requires Sound(p)
    ensures R.Drift(LogView(Settled(p))) == R.Drift(LogView(p)) + R.Extra(p.index.staged, p.log.Limit())
    ensures R.Extra(p.index.staged, p.log.Limit()) == 0 <==> R.CleanStage(LogView(p))
  {
    SettledView(p);
    R.CommitCounts(LogView(p));
  }

  lemma {:induction false} DriftOverRun(p: Pair, ops: seq<Op>)
    requires Sound(p)
    ensures Sound(Run(p, ops))
    ensures R.Drift(LogView(Run(p, ops))) == R.Drift(LogView(p)) + Misses(p, ops)
    ensures Misses(p, ops) == 0 <==> CleanCommits(p, ops)
    ensures CleanCommits(p, ops) && Agree(p) ==> Agree(Run(p, ops))
    decreases ops
  {
    if ops != [] {
      StepDrift(p, ops[0]);
      StepKeepsSound(p, ops[0]);
      DriftOverRun(Next(p, ops[0]), ops[1..]);
    }
  }

  /* ---------- The indexed block's sanity check ---------- */

  /** Entries that are not live. */
  function NotLive(es: seq<X.Entry>, k: nat): (n: nat)
    requires k <= |es|
    ensures n <= k
  {
    if k == 0 then 0 else NotLive(es, k - 1) + if es[k - 1].state.Live? then 0 else 1
  }

  /** The recount over the index agrees with the block's counters. */
  predicate Sane(p: Pair)
  {
    && CommittedInStep(p)
    && p.log.total % WORD == |p.log.committed| % WORD
    && p.log.deleted % WORD == NotLive(p.index.committed, |p.index.committed|) % WORD
  }

  lemma {:induction false} AgreeingCounts(p: Pair, k: nat)
    requires k <= |p.index.committed| <= |p.log.committed| && Agree(p)
    ensures NotLive(p.index.committed, k) == L.Dead(p.log.committed, k)
  {
    if k > 0 {
      AgreeingCounts(p, k - 1);
    }
  }

  /** After every run from a new block: clean commits leave the index in agreement with the log, and when it is,
      the sanity check passes exactly when no commit published an unindexed record and the repeated and
      uncommitted deletes are a multiple of 2^32.  Below 2^32 of them, agreement and sanity together hold
      exactly when no commit published an unindexed record, repeated a delete or deleted an uncommitted one. */
  lemma SoundExactlyWhenCommitsAreClean(start: nat, blockSize: nat, updateable: bool, estimated: nat, ops: seq<Op>)
    requires 5 <= estimated < WORD
    ensures var p := Fresh(start, blockSize, updateable, estimated);
            var q := Run(p, ops);
            && Aligned(q)
            && (CleanCommits(p, ops) ==> Agree(q))
            && (Agree(q) ==> (Sane(q) <==> CommitsInStep(p, ops) && Misses(p, ops) % WORD == 0))
            && (Misses(p, ops) < WORD ==> (Agree(q) && Sane(q) <==> CommitsInStep(p, ops) && CleanCommits(p, ops)))
  {
    var p := Fresh(start, blockSize, updateable, estimated);
    FreshIsSound(start, blockSize, updateable, estimated);
    SaneOverRun(p, ops);
  }

  lemma SaneOverRun(p: Pair, ops: seq<Op>)
    requires Sound(p) && CommittedInStep(p) && Agree(p) && R.Drift(LogView(p)) == 0
    ensures var q := Run(p, ops);
            && Sound(q)
            && (CleanCommits(p, ops) ==> Agree(q))
            && (Agree(q) ==> (Sane(q) <==> CommitsInStep(p, ops) && Misses(p, ops) % WORD == 0))
            && (Misses(p, ops) == 0 <==> CleanCommits(p, ops))
  {
    var q := Run(p, ops);
    DriftOverRun(p, ops);
    assert CommittedInStep(q) <==> CommitsInStep(p, ops) by { InStepExactlyWhenCommitsAre(p, ops); }
    if Agree(q) {
      SaneExactly(q, Misses(p, ops));
    }
  }

  lemma FreshIsSound(start: nat, blockSize: nat, updateable: bool, estimated: nat)
    requires 5 <= estimated < WORD
    ensures var p := Fresh(start, blockSize, updateable, estimated);
            Sound(p) && CommittedInStep(p) && Agree(p) && R.Drift(LogView(p)) == 0
  {
    FreshIsAligned(start, blockSize, updateable, estimated);
  }

  /** A block whose files agree is sane exactly when they hold equally many records and the deleted counter is
      off by a multiple of 2^32. */
  lemma SaneExactly(q: Pair, misses: nat)
    requires Sound(q) && Agree(q) && R.Drift(LogView(q)) == misses
    ensures Sane(q) <==> CommittedInStep(q) && misses % WORD == 0
  {
    AgreeingCounts(q, |q.index.committed|);
    R.SameRemainder(q.log.deleted, L.Dead(q.log.committed, |q.log.committed|), misses);
  }

  /* ---------- Runs that go wrong ---------- */

  lemma RunThree(p: Pair, a: Op, b: Op, c: Op, rest: seq<Op>)
    ensures Run(p, [a] + ([b] + ([c] + rest))) == Run(Next(Next(Next(p, a), b), c), rest)
  {
    RunCons(p, a, [b] + ([c] + rest));
    RunCons(Next(p, a), b, [c] + rest);
    RunCons(Next(Next(p, a), b), c, rest);
  }

  lemma RunCons(p: Pair, op: Op, rest: seq<Op>)
    ensures Run(p, [op] + rest) == Run(Next(p, op), rest)
  {
    assert ([op] + rest)[1..] == rest;
  }

  /** A small indexed block: its index takes one entry. */
  function Small(): Pair { Fresh(0, 1000, true, 5) }

  /** A record is written in the first transaction of a block. */
  lemma OneWritten()
    ensures var p := Next(Next(Small(), StartOp("t")), WriteOp([1], "t"));
            && p.log == L.Fresh(0, 1000, true).(txn := L.Start(L.Fresh(0, 1000, true), "t").value.txn,
                                                pending := [L.Record([1], L.Dirty)])
            && p.index.pending == [X.Entry(0, 0, 1, X.Written)] && p.index.committed == [] && p.index.staged == []
            && p.index.start == 0 && p.index.totalSize == 160 && p.index.txn == p.log.txn
  {
    assert L.Offset([], 0) == 0;
  }

  /** In the first transaction of a block a record is written and deleted.  The commit leaves it readable, its
      entry deleted. */
  lemma DeleteOfPendingSplits()
    ensures var q := Run(Small(), [StartOp("t")] + ([WriteOp([1], "t")] +
                         ([DeleteOp(0, "t", false)] + ([CommitOp("t")] + []))));
            && |q.index.committed| == 1 && |q.log.committed| == 1 && !Agree(q)
  {
    OneWritten();
    var p := Next(Next(Small(), StartOp("t")), WriteOp([1], "t"));
    var d := Next(p, DeleteOp(0, "t", false));
    RunThree(Small(), StartOp("t"), WriteOp([1], "t"), DeleteOp(0, "t", false), [CommitOp("t")] + []);
    RunCons(d, CommitOp("t"), []);
    assert L.Deletable(p.log, 0, true);
    assert d.index.staged == [0];
    SettledStates(d, 0);
    assert Run(Settled(d), []) == Settled(d);
    assert Settled(d).index.committed[0].state.Gone?;
  }

  /** The index of the block takes one entry; a second record is written all the same, and committed. */
  lemma CommitPublishesUnindexed()
    ensures var q := Run(Small(), [StartOp("t")] + ([WriteOp([1], "t")] +
                         ([WriteOp([2], "t")] + ([CommitOp("t")] + []))));
            |q.log.committed| == 2 && |q.index.committed| == 1
  {
    OneWritten();
    var p := Next(Next(Small(), StartOp("t")), WriteOp([1], "t"));
    var d := Next(p, WriteOp([2], "t"));
    RunThree(Small(), StartOp("t"), WriteOp([1], "t"), WriteOp([2], "t"), [CommitOp("t")] + []);
    RunCons(d, CommitOp("t"), []);
    SecondIsRefused(p);
    assert Run(Settled(d), []) == Settled(d);
  }

  lemma SecondIsRefused(p: Pair)
    requires p.log.updateable && p.log.writeState == L.Writable && p.log.blockSize == 1000 && p.log.txn == Some("t")
    requires p.log.committed == [] && p.log.pending == [L.Record([1], L.Dirty)]
    requires p.index.totalSize == 160 && p.index.committed == [] && |p.index.pending| == 1 && p.index.txn == p.log.txn
    ensures var d := Next(p, WriteOp([2], "t"));
            |d.log.Records()| == 2 && |d.index.Entries()| == 1 && L.Holds(d.log, "t")
  {
  }

  /** A committed record is deleted.  The scan still returns it to a request for readable records, the index
      does not. */
  lemma ScanReturnsDeleted()
    ensures var q := Run(Small(), [StartOp("t")] + ([WriteOp([1], "t")] + ([CommitOp("t")] +
                         ([StartOp("u")] + ([DeleteOp(0, "u", false)] + ([CommitOp("u")] + []))))));
            && |q.index.committed| == |q.log.committed| == 1
            && L.ScanRead(q.log.committed, L.Readable, 0, 1) == [[1]] && IndexRead(q, L.Readable, 0, 1) == []
  {
    OneWritten();
    var p := Next(Next(Small(), StartOp("t")), WriteOp([1], "t"));
    var c := Next(p, CommitOp("t"));
    RunThree(Small(), StartOp("t"), WriteOp([1], "t"), CommitOp("t"),
             [StartOp("u")] + ([DeleteOp(0, "u", false)] + ([CommitOp("u")] + [])));
    SettledStates(p, 0);
    OneDeleted(c);
  }

  lemma OneDeleted(c: Pair)
    requires |c.log.committed| == 1 && c.log.committed[0] == L.Record([1], L.Readable) && |c.index.committed| == 1
    requires c.index.committed[0].state.Live? && c.index.committed[0].number == 0
    requires c.log.txn.None? && c.log.pending == [] && c.index.pending == [] && c.log.start == 0 && c.index.start == 0
    requires c.log.updateable && c.log.writeState == L.Writable
    ensures var q := Run(c, [StartOp("u")] + ([DeleteOp(0, "u", false)] + ([CommitOp("u")] + [])));
            && |q.index.committed| == |q.log.committed| == 1
            && L.ScanRead(q.log.committed, L.Readable, 0, 1) == [[1]] && IndexRead(q, L.Readable, 0, 1) == []
  {
    var d := Next(Next(c, StartOp("u")), DeleteOp(0, "u", false));
    RunThree(c, StartOp("u"), DeleteOp(0, "u", false), CommitOp("u"), []);
    assert d.index.staged == [0];
    SettledStates(d, 0);
    var q := Settled(d);
    assert q.log.committed == [L.Record([1], L.Deleted)];
    assert L.ScanSelect(q.log.committed, L.Readable, 0, 1) == [0] + [];
    assert IndexSelect(q, L.Readable, 0, 1) == [];
  }

  /* ---------- Atomicity ---------- */

  /** Only commits change what either file shows to readers. */
  lemma {:induction false} ReadersSeeOnlyCommits(p: Pair, ops: seq<Op>)
    requires forall op <- ops :: !op.CommitOp?
    ensures Run(p, ops).log.committed == p.log.committed && Run(p, ops).index.committed == p.index.committed
    decreases ops
  {
    if ops != [] {
      OnlyCommitsChangeCommitted(p, ops[0]);
      ReadersSeeOnlyCommits(Next(p, ops[0]), ops[1..]);
    }
  }

  /** Whatever a transaction does short of committing, even after the index has refused an entry, abandoning
      it gives both files back as they were. */
  lemma {:induction false} AbandonedWorkLeavesNoTrace(p: Pair, ops: seq<Op>)
    requires forall op <- ops :: !op.CommitOp? && !op.FinishOp? && !op.ArchiveOp?
    ensures Abandoned(Run(p, ops)) == Abandoned(p)
    decreases ops
  {
    if ops != [] {
      AbandonedWorkLeavesNoTrace(Next(p, ops[0]), ops[1..]);
    }
  }

  /* ---------- Reading through the index ---------- */

  /** The indexed read takes a record for a requested state: it looks at the entry's state unless asked for
      records in some other state, and then at the record's. */
  predicate IndexKeeps(p: Pair, want: L.RecordState, k: nat)
    requires k < |p.index.committed| <= |p.log.committed|
  {
    && (want.Deleted? || want.Dirty? || want.All? || p.index.committed[k].state.Live?)
    && L.ScanKeeps(p.log.committed[k], want)
  }

  function IndexSelect(p: Pair, want: L.RecordState, from: nat, count: nat): (ps: seq<nat>)
    requires |p.index.committed| <= |p.log.committed|
    ensures forall j :: 0 <= j < |ps| ==> ps[j] < |p.log.committed|
  {
    L.Select(|p.index.committed|, (k: nat) => k < |p.index.committed| && IndexKeeps(p, want, k), from, count)
  }

  function IndexRead(p: Pair, want: L.RecordState, from: nat, count: nat): seq<seq<int>>
    requires |p.index.committed| <= |p.log.committed|
  {
    L.Payloads(p.log.committed, IndexSelect(p, want, from, count))
  }

  /** The read runs into a record that has no entry. */
  predicate RunsOut(p: Pair, want: L.RecordState, from: nat, count: nat)
    requires |p.index.committed| <= |p.log.committed|
  {
    from < |p.log.committed| && |IndexSelect(p, want, from, count)| < count && !CommittedInStep(p)
  }

  /** Asked for deleted, dirty or all records, the indexed read returns what the scan returns. */
  lemma IndexReadsLikeScan(p: Pair, want: L.RecordState, from: nat, count: nat)
    requires Sound(p) && CommittedInStep(p)
    requires want.Deleted? || want.Dirty? || want.All?
    ensures IndexSelect(p, want, from, count) == L.ScanSelect(p.log.committed, want, from, count)
  {
    var n := |p.log.committed|;
    L.SelectCongruent(n, (k: nat) => k < |p.index.committed| && IndexKeeps(p, want, k),
                         (k: nat) => k < |p.log.committed| && L.ScanKeeps(p.log.committed[k], want), from, count);
  }

  /** Asked for readable records, the indexed read returns the first `count` readable ones. */
  lemma IndexReadsTheReadable(p: Pair, from: nat, count: nat)
    requires Sound(p) && CommittedInStep(p) && Agree(p)
    ensures var ps := IndexSelect(p, L.Readable, from, count);
            var n := |p.log.committed|;
            && (forall k <- ps :: from <= k && p.log.committed[k].state.Readable?)
            && L.InOrder(ps)
            && L.SkipsNone(n, (k: nat) => k < n && p.log.committed[k].state.Readable?, from, count, ps)
  {
    var keep := (k: nat) => k < |p.index.committed| && IndexKeeps(p, L.Readable, k);
    L.SelectTakesTheFirst(|p.index.committed|, keep, from, count);
  }

  /** Asked for readable records, scan and index return the same records exactly when none of the first
      `count` at or after `from` has been deleted: the scan does not leave deleted records out. */
  lemma ReadableReadsDiffer(p: Pair, from: nat, count: nat)
    requires Sound(p) && CommittedInStep(p) && Agree(p)
    ensures L.ScanSelect(p.log.committed, L.Readable, from, count) == IndexSelect(p, L.Readable, from, count) <==>
              forall k :: from <= k < |p.log.committed| && k < from + count ==> p.log.committed[k].state.Readable?
  {
    var keep := (k: nat) => k < |p.index.committed| && IndexKeeps(p, L.Readable, k);
    var scan := (k: nat) => k < |p.log.committed| && L.ScanKeeps(p.log.committed[k], L.Readable);
    L.SelectAllOrSome(|p.log.committed|, scan, keep, from, count);
    forall k | from <= k < |p.log.committed| ensures keep(k) == p.log.committed[k].state.Readable? {
    }
  }

  /** No committed record is ever dirty. */
  lemma NoDirtyRecordIsRead(p: Pair, from: nat, count: nat)
    requires Sound(p)
    ensures L.ScanSelect(p.log.committed, L.Dirty, from, count) == []
  {
    var c := p.log.committed;
    forall k | 0 <= k < |c| ensures !L.ScanKeeps(c[k], L.Dirty) {
      assert c[k] in LogView(p).committed;
    }
    L.SelectNone(|c|, (k: nat) => k < |c| && L.ScanKeeps(c[k], L.Dirty), from, count);
  }

  /** What the indexed read makes of a request. */
  function ReadResult(p: Pair, want: L.RecordState, from: nat, count: nat, into: seq<seq<int>>): Result<seq<seq<int>>>
    requires |p.index.committed| <= |p.log.committed|
  {
    if RunsOut(p, want, from, count) then Err(OutOfRange) else Ok(into + IndexRead(p, want, from, count))
  }

  /** An indexed read that has put `data` together and stands at record `k` with `left` records to go will
      end with what it was asked for. */
  ghost predicate OnCourse(p: Pair, want: L.RecordState, k: nat, left: nat, data: seq<seq<int>>,
                           goal: Result<seq<seq<int>>>)
    requires |p.index.committed| <= |p.log.committed|
  {
    ReadResult(p, want, k, left, data) == goal
  }

  lemma ReadStep(p: Pair, want: L.RecordState, k: nat, left: nat, data: seq<seq<int>>, goal: Result<seq<seq<int>>>)
    requires k < |p.index.committed| <= |p.log.committed| && left > 0
    requires OnCourse(p, want, k, left, data, goal)
    ensures IndexKeeps(p, want, k) ==> OnCourse(p, want, k + 1, left - 1, data + [p.log.committed[k].payload], goal)
    ensures !IndexKeeps(p, want, k) ==> OnCourse(p, want, k + 1, left, data, goal)
  {
    SelectStep(p, want, k, left);
    if IndexKeeps(p, want, k) {
      var payload, rest := p.log.committed[k].payload, IndexRead(p, want, k + 1, left - 1);
      assert data + ([payload] + rest) == (data + [payload]) + rest;
    }
  }

  lemma SelectStep(p: Pair, want: L.RecordState, k: nat, left: nat)
    requires k < |p.index.committed| <= |p.log.committed| && left > 0
    ensures IndexKeeps(p, want, k) ==>
              && |IndexSelect(p, want, k, left)| == 1 + |IndexSelect(p, want, k + 1, left - 1)|
              && IndexRead(p, want, k, left) == [p.log.committed[k].payload] + IndexRead(p, want, k + 1, left - 1)
    ensures !IndexKeeps(p, want, k) ==> IndexSelect(p, want, k, left) == IndexSelect(p, want, k + 1, left)
  {
    if IndexKeeps(p, want, k) {
      assert IndexSelect(p, want, k, left) == [k] + IndexSelect(p, want, k + 1, left - 1);
    }
  }

  lemma ReadEnds(p: Pair, want: L.RecordState, k: nat, left: nat, data: seq<seq<int>>, goal: Result<seq<seq<int>>>)
    requires |p.index.committed| <= |p.log.committed|
    requires |p.index.committed| <= k || left == 0
    requires OnCourse(p, want, k, left, data, goal)
    ensures goal == if k < |p.log.committed| && left > 0 then Err(OutOfRange) else Ok(data)
  {
    assert data + [] == data;
  }

  /** An aligned index is empty only when the log is. */
  lemma EmptyMeansEmpty(p: Pair)
    requires Aligned(p) && p.index.committed == []
    ensures p.log.committed == []
  {
    if !CommittedInStep(p) {
      BehindMeansFull(p);
    }
  }
}
