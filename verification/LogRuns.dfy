/** What holds over whole runs of operations on a record block. */
module LogRuns {
  import opened Outcomes
  import opened Words
  import opened RecordLog

  datatype Op =
    | StartOp(tid: string)
    | WriteOp(payload: seq<int>, tid: string)
    | DeleteOp(index: nat, tid: string, tail: bool)
    | CommitOp(tid: string)
    | RollbackOp(tid: string)
    | FinishOp
    | ArchiveOp

  function Apply(s: Log, op: Op): Result<Log>
  {
    match op
    case StartOp(tid) => Start(s, tid)
    case WriteOp(payload, tid) => Write(s, payload, tid)
    case DeleteOp(i, tid, tail) => Delete(s, i, tid, tail)
    case CommitOp(tid) => Commit(s, tid)
    case RollbackOp(tid) => Rollback(s, tid)
    case FinishOp => Ok(Finish(s))
    case ArchiveOp => Ok(Archive(s))
  }

  /** A refused operation leaves the block as it was. */
  function Next(s: Log, op: Op): Log
  {
    match Apply(s, op)
    case Ok(s') => s'
    case Err(_) => s
  }

  function Run(s: Log, ops: seq<Op>): Log
    decreases ops
  {
    if ops == [] then s else Run(Next(s, ops[0]), ops[1..])
  }

  lemma {:induction false} RunConcat(s: Log, a: seq<Op>, b: seq<Op>)
    ensures Run(s, a + b) == Run(Run(s, a), b)
    decreases a
  {
    if a == [] {
      assert a + b == b;
    } else {
      assert (a + b)[0] == a[0] && (a + b)[1..] == a[1..] + b;
      RunConcat(Next(s, a[0]), a[1..], b);
    }
  }

  lemma RunCons(s: Log, op: Op, rest: seq<Op>)
    ensures Run(s, [op] + rest) == Run(Next(s, op), rest)
  {
    assert ([op] + rest)[1..] == rest;
  }

  /* ---------- The invariant of every run ---------- */

  ghost predicate Consistent(s: Log)
  {
    && (forall r <- s.committed :: r.state.Readable? || r.state.Deleted?)
    && (forall r <- s.pending :: r.state.Dirty?)
    && s.total == |s.committed|
    && (s.txn.None? ==> s.pending == [] && s.staged == [])
    && (forall i <- s.staged ::
          s.start <= i <= s.Limit() && (i < s.Limit() ==> s.committed[i - s.start].state.Readable?))
    && s.deleted >= Dead(s.committed, |s.committed|)
  }

  lemma StepKeepsConsistent(s: Log, op: Op)
    requires Consistent(s)
    ensures Consistent(Next(s, op))
  {
    if op.CommitOp? && Holds(s, op.tid) {
      CommitKeepsConsistent(s);
    }
  }

  lemma CommitKeepsConsistent(s: Log)
    requires Consistent(s)
    ensures Consistent(Settled(StruckBy(s, s.staged)))
  {
    CommitCounts(s);
  }

  lemma {:induction false} RunKeepsConsistent(s: Log, ops: seq<Op>)
    requires Consistent(s)
    ensures Consistent(Run(s, ops))
    decreases ops
  {
    if ops != [] {
      StepKeepsConsistent(s, ops[0]);
      RunKeepsConsistent(Next(s, ops[0]), ops[1..]);
    }
  }

  /* ---------- Atomicity and isolation ---------- */

  /** Only a commit changes what readers see. */
  lemma {:induction false} ReadersSeeOnlyCommits(s: Log, ops: seq<Op>)
    requires forall op <- ops :: !op.CommitOp?
    ensures Run(s, ops).committed == s.committed
    ensures Run(s, ops).total == s.total && Run(s, ops).deleted == s.deleted && Run(s, ops).commits == s.commits
    decreases ops
  {
    if ops != [] {
      ReadersSeeOnlyCommits(Next(s, ops[0]), ops[1..]);
    }
  }

  /** Whatever a transaction does short of committing, abandoning it gives the block back as it was. */
  lemma {:induction false} AbandonedWorkLeavesNoTrace(s: Log, ops: seq<Op>)
    requires forall op <- ops :: !op.CommitOp? && !op.FinishOp? && !op.ArchiveOp?
    ensures Abandoned(Run(s, ops)) == Abandoned(s)
    decreases ops
  {
    if ops != [] {
      AbandonedWorkLeavesNoTrace(Next(s, ops[0]), ops[1..]);
    }
  }

  /** Cutting a rolled-back stretch out of any run changes nothing that follows. */
  lemma RolledBackStretchCanBeCut(s: Log, before: seq<Op>, mid: seq<Op>, tid: string, after: seq<Op>)
    requires Consistent(s) && Run(s, before).txn.None?
    requires forall op <- mid :: !op.CommitOp? && !op.FinishOp? && !op.ArchiveOp?
    requires Holds(Run(s, before + mid), tid)
    ensures Run(s, before + mid + [RollbackOp(tid)] + after) == Run(s, before + after)
  {
    var idle := Run(s, before);
    RunKeepsConsistent(s, before);
    RunConcat(s, before, mid);
    AbandonedWorkLeavesNoTrace(idle, mid);
    RunConcat(s, before + mid, [RollbackOp(tid)]);
    var undo := [RollbackOp(tid)];
    assert Run(Run(s, before + mid), undo) == Next(Run(s, before + mid), undo[0]) by { assert undo[1..] == []; }
    RunConcat(s, before + mid + undo, after);
    RunConcat(s, before, after);
  }

  /** What the open transaction has written, kept apart from everything else. */
  function Written(ops: seq<Op>): seq<seq<int>>
  {
    if ops == [] then []
    else (if ops[0].WriteOp? then [ops[0].payload] else []) + Written(ops[1..])
  }

  function Asked(ops: seq<Op>): seq<nat>
  {
    if ops == [] then []
    else (if ops[0].DeleteOp? then [ops[0].index] else []) + Asked(ops[1..])
  }

  predicate AllAccepted(s: Log, ops: seq<Op>)
    decreases ops
  {
    ops == [] || (Apply(s, ops[0]).Ok? && AllAccepted(Next(s, ops[0]), ops[1..]))
  }

  function AsRecords(payloads: seq<seq<int>>, state: RecordState): (r: seq<Record>)
    ensures |r| == |payloads|
  {
    seq(|payloads|, k requires 0 <= k < |payloads| => Record(payloads[k], state))
  }

  /** An open transaction gathers its writes and deletes in order. */
  lemma {:induction false} TransactionGathers(s: Log, ops: seq<Op>)
    requires forall op <- ops :: op.WriteOp? || op.DeleteOp?
    requires AllAccepted(s, ops)
    ensures Run(s, ops) == s.(pending := s.pending + AsRecords(Written(ops), Dirty), staged := s.staged + Asked(ops))
    decreases ops
  {
    if ops == [] {
      assert s.pending + AsRecords(Written(ops), Dirty) == s.pending;
      assert s.staged + Asked(ops) == s.staged;
    } else {
      var t := Next(s, ops[0]);
      OneGathered(s, ops);
      TransactionGathers(t, ops[1..]);
    }
  }

  lemma OneGathered(s: Log, ops: seq<Op>)
    requires ops != [] && (ops[0].WriteOp? || ops[0].DeleteOp?) && Apply(s, ops[0]).Ok?
    ensures var t := Next(s, ops[0]);
            && t == s.(pending := t.pending, staged := t.staged)
            && t.pending + AsRecords(Written(ops[1..]), Dirty) == s.pending + AsRecords(Written(ops), Dirty)
            && t.staged + Asked(ops[1..]) == s.staged + Asked(ops)
  {
    FirstGathered(ops);
    if ops[0].WriteOp? {
      Regroup(s.pending, [Record(ops[0].payload, Dirty)], AsRecords(Written(ops[1..]), Dirty));
    } else {
      Regroup(s.staged, [ops[0].index], Asked(ops[1..]));
    }
  }

  lemma FirstGathered(ops: seq<Op>)
    requires ops != []
    ensures var rest := AsRecords(Written(ops[1..]), Dirty);
            AsRecords(Written(ops), Dirty) == if ops[0].WriteOp? then [Record(ops[0].payload, Dirty)] + rest else rest
    ensures Asked(ops) == if ops[0].DeleteOp? then [ops[0].index] + Asked(ops[1..]) else Asked(ops[1..])
  {
    var rest := Written(ops[1..]);
    if ops[0].WriteOp? {
      FirstAsRecord(ops[0].payload, rest);
      assert Written(ops) == [ops[0].payload] + rest;
    } else {
      assert Written(ops) == rest;
    }
  }

  lemma FirstAsRecord(payload: seq<int>, rest: seq<seq<int>>)
    ensures AsRecords([payload] + rest, Dirty) == [Record(payload, Dirty)] + AsRecords(rest, Dirty)
  {
  }

  lemma Regroup<T>(a: seq<T>, b: seq<T>, c: seq<T>)
    ensures (a + b) + c == a + (b + c)
  {
  }

  /** A committed transaction: exactly the old log with the asked deletes carried out, followed by the
      written records in order, all readable. */
  lemma CommittedTransaction(s: Log, tid: string, ops: seq<Op>)
    requires Consistent(s) && s.txn.None? && s.updateable && tid != ""
    requires forall op <- ops :: op.WriteOp? || op.DeleteOp?
    requires AllAccepted(Start(s, tid).value, ops)
    ensures var t := Run(s, [StartOp(tid)] + ops + [CommitOp(tid)]);
            && t.committed == Marked(s.committed, s.start, Asked(ops)) + AsRecords(Written(ops), Readable)
            && t.txn.None? && t.pending == [] && t.staged == []
  {
    var begun, done := [StartOp(tid)], [CommitOp(tid)];
    var open := Start(s, tid).value;
    RunConcat(s, begun + ops, done);
    RunConcat(s, begun, ops);
    assert begun[1..] == [] && done[1..] == [];
    TransactionGathers(open, ops);
    var full := Run(open, ops);
    assert full.staged == Asked(ops) && full.pending == AsRecords(Written(ops), Dirty);
    assert Run(full, done) == Next(full, done[0]);
    assert Published(Marked(full.pending, full.Limit(), full.staged), |full.pending|)
        == AsRecords(Written(ops), Readable);
  }

  /* ---------- Starting again ---------- */

  /** Starting inside a transaction makes of it a new one, with the same id, exactly when no delete is staged:
      the pending records go and the staged deletes stay. */
  lemma RestartIsAFreshStartExactly(s: Log, tid: string)
    requires Start(s, tid).Ok? && s.txn.Some? && s.txn.value != ""
    ensures Start(s, tid).value == Start(Abandoned(s), s.txn.value).value <==> s.staged == []
    ensures Start(s, tid).value == Start(Abandoned(s), s.txn.value).value.(staged := s.staged)
  {
  }

  /** A delete asked for before a second start is carried out by the commit after it; the write is not. */
  lemma RestartKeepsDelete()
    ensures var ops := [StartOp("t")] + ([WriteOp([1], "t")] + ([CommitOp("t")] + ([StartOp("u")] +
                       ([DeleteOp(0, "u", false)] + ([WriteOp([2], "u")] +
                       ([StartOp("v")] + ([CommitOp("u")] + [])))))));
            Run(Fresh(0, 1000, true), ops).committed == [Record([1], Deleted)]
  {
    var o8: seq<Op> := [];
    var o4 := [DeleteOp(0, "u", false)] + ([WriteOp([2], "u")] + ([StartOp("v")] + ([CommitOp("u")] + o8)));
    var s0 := Fresh(0, 1000, true);
    OneCommitted(s0, o4);
    var s4 := Next(Next(Next(Next(s0, StartOp("t")), WriteOp([1], "t")), CommitOp("t")), StartOp("u"));
    DeletedAcrossRestart(s4);
  }

  lemma DeletedAcrossRestart(s: Log)
    requires s.committed == [Record([1], Readable)] && s.pending == [] && s.staged == [] && s.txn == Some("u")
    requires s.start == 0 && s.blockSize == 1000 && s.updateable && s.writeState == Writable
    ensures var ops := [DeleteOp(0, "u", false)] + ([WriteOp([2], "u")] + ([StartOp("v")] + ([CommitOp("u")] + [])));
            Run(s, ops).committed == [Record([1], Deleted)]
  {
    var s1 := Next(s, DeleteOp(0, "u", false));
    var s3 := Next(Next(s1, WriteOp([2], "u")), StartOp("v"));
    assert s3.staged == [0] && s3.pending == [] && s3.txn == Some("u");
    RunCons(s, DeleteOp(0, "u", false), [WriteOp([2], "u")] + ([StartOp("v")] + ([CommitOp("u")] + [])));
    RunCons(s1, WriteOp([2], "u"), [StartOp("v")] + ([CommitOp("u")] + []));
    RunCons(Next(s1, WriteOp([2], "u")), StartOp("v"), [CommitOp("u")] + []);
    RunCons(s3, CommitOp("u"), []);
    assert Next(s3, CommitOp("u")).committed == [Record([1], Deleted)];
  }

  /** One record is written and committed, and a second transaction begins. */
  lemma OneCommitted(s0: Log, rest: seq<Op>)
    requires s0 == Fresh(0, 1000, true)
    ensures var s4 := Next(Next(Next(Next(s0, StartOp("t")), WriteOp([1], "t")), CommitOp("t")), StartOp("u"));
            && s4.committed == [Record([1], Readable)] && s4.pending == [] && s4.staged == [] && s4.txn == Some("u")
            && s4.start == 0 && s4.blockSize == 1000 && s4.updateable && s4.writeState == Writable && s4.deleted == 0
            && Run(s0, [StartOp("t")] + ([WriteOp([1], "t")] + ([CommitOp("t")] + ([StartOp("u")] + rest))))
               == Run(s4, rest)
  {
    var s1 := Next(s0, StartOp("t"));
    var s2 := Next(s1, WriteOp([1], "t"));
    assert s2.pending == [Record([1], Dirty)];
    var s3 := Next(s2, CommitOp("t"));
    assert s3.committed == [Record([1], Readable)];
    RunCons(s0, StartOp("t"), [WriteOp([1], "t")] + ([CommitOp("t")] + ([StartOp("u")] + rest)));
    RunCons(s1, WriteOp([1], "t"), [CommitOp("t")] + ([StartOp("u")] + rest));
    RunCons(s2, CommitOp("t"), [StartOp("u")] + rest);
    RunCons(s3, StartOp("u"), rest);
  }

  /* ---------- The sanity check over whole runs ---------- */

  predicate Distinct(xs: seq<nat>)
  {
    forall i, j :: 0 <= i < j < |xs| ==> xs[i] != xs[j]
  }

  /** The staged deletes name committed records, each once. */
  predicate CleanStage(s: Log)
  {
    Distinct(s.staged) && AllBelow(s.staged, s.Limit())
  }

  /** Staged numbers among those of the first `k` committed records. */
  function Hits(s: Log, k: nat): set<nat>
  {
    set i | i in s.staged && s.start <= i < s.start + k
  }

  lemma HitsGrow(s: Log, k: nat)
    ensures |Hits(s, k + 1)| == |Hits(s, k)| + if s.start + k in s.staged then 1 else 0
  {
    var next := s.start + k;
    assert Hits(s, k + 1) == Hits(s, k) + if next in s.staged then {next} else {};
  }

  lemma {:induction false} DeadAfterMarking(s: Log, k: nat)
    requires forall i <- s.staged :: s.start <= i && (i < s.Limit() ==> s.committed[i - s.start].state.Readable?)
    requires k <= |s.committed|
    ensures Dead(Marked(s.committed, s.start, s.staged), k) == Dead(s.committed, k) + |Hits(s, k)|
  {
    var m := Marked(s.committed, s.start, s.staged);
    if k == 0 {
      assert Hits(s, 0) == {};
    } else {
      DeadAfterMarking(s, k - 1);
      HitsGrow(s, k - 1);
      var old', new' := s.committed[k - 1].state, m[k - 1].state;
      assert s.start + k - 1 in s.staged ==> old'.Readable? && new'.Deleted?;
      assert s.start + k - 1 !in s.staged ==> new' == old';
    }
  }

  lemma {:induction false} DeadConcat(a: seq<Record>, b: seq<Record>, k: nat)
    requires k <= |b| && forall r <- b :: r.state.Readable?
    ensures Dead(a + b, |a| + k) == Dead(a, |a|)
  {
    if k == 0 {
      DeadPrefix(a, b, |a|);
    } else {
      assert (a + b)[|a| + k - 1] == b[k - 1];
      DeadConcat(a, b, k - 1);
    }
  }

  lemma {:induction false} DeadPrefix(a: seq<Record>, b: seq<Record>, k: nat)
    requires k <= |a|
    ensures Dead(a + b, k) == Dead(a, k)
  {
    if k > 0 {
      DeadPrefix(a, b, k - 1);
    }
  }

  function Below(xs: seq<nat>, bound: nat): set<nat> { set x | x in xs && x < bound }

  predicate AllBelow(xs: seq<nat>, bound: nat) { forall x <- xs :: x < bound }

  lemma BelowAppend(xs: seq<nat>, x: nat, bound: nat)
    ensures AllBelow(xs + [x], bound) <==> AllBelow(xs, bound) && x < bound
    ensures |Below(xs + [x], bound)| == |Below(xs, bound)| + if x < bound && x !in xs then 1 else 0
  {
    var ys, below := xs + [x], Below(xs, bound);
    assert forall y :: y in ys <==> y in xs || y == x;
    assert x in ys && forall y <- xs :: y in ys;
    if x < bound && x !in xs {
      assert x !in below;
      assert Below(ys, bound) == below + {x};
    } else {
      assert Below(ys, bound) == below;
    }
  }

  /** How many of a list's values repeat an earlier one or are not below a bound. */
  function Extra(xs: seq<nat>, bound: nat): nat
  {
    if xs == [] then 0
    else
      var rest, last := xs[..|xs| - 1], xs[|xs| - 1];
      Extra(rest, bound) + if last in rest || last >= bound then 1 else 0
  }

  /** A list is as long as the set of its values below a bound, and the others counted one by one. */
  lemma {:induction false} CountDistinct(xs: seq<nat>, bound: nat)
    ensures |Below(xs, bound)| + Extra(xs, bound) == |xs|
    ensures Extra(xs, bound) == 0 <==> Distinct(xs) && AllBelow(xs, bound)
    decreases |xs|
  {
    if xs == [] {
      assert Below(xs, bound) == {};
    } else {
      var rest, last := xs[..|xs| - 1], xs[|xs| - 1];
      assert xs == rest + [last];
      CountDistinct(rest, bound);
      DistinctAppend(rest, last);
      BelowAppend(rest, last, bound);
    }
  }

  lemma DistinctAppend(xs: seq<nat>, x: nat)
    ensures Distinct(xs + [x]) <==> Distinct(xs) && x !in xs
  {
    var ys := xs + [x];
    assert forall i :: 0 <= i < |xs| ==> ys[i] == xs[i];
    if x in xs {
      var i :| 0 <= i < |xs| && xs[i] == x;
      assert ys[i] == ys[|xs|];
    }
  }

  /** How far the deleted counter runs ahead of the records that are really deleted. */
  function Drift(s: Log): int
  {
    s.deleted - Dead(s.committed, |s.committed|)
  }

  lemma MarkedDead(s: Log)
    requires Consistent(s)
    ensures var c := Marked(s.committed, s.start, s.staged);
            Dead(c, |c|) == Dead(s.committed, |s.committed|) + |Below(s.staged, s.Limit())|
  {
    DeadAfterMarking(s, |s.committed|);
    assert Hits(s, |s.committed|) == Below(s.staged, s.Limit());
  }

  lemma PublishedDead(s: Log)
    ensures var c := Settled(s).committed; Dead(c, |c|) == Dead(s.committed, |s.committed|)
  {
    DeadConcat(s.committed, Published(s.pending, |s.pending|), |s.pending|);
  }

  lemma SettledDead(s: Log)
    requires Consistent(s)
    ensures var c := Settled(StruckBy(s, s.staged)).committed;
            Dead(c, |c|) == Dead(s.committed, |s.committed|) + |Below(s.staged, s.Limit())|
  {
    PublishedDead(StruckBy(s, s.staged));
    MarkedDead(s);
  }

  /** A commit adds to the drift one for each staged number that is repeated or not committed, and so nothing
      exactly when the stage is clean. */
  lemma CommitCounts(s: Log)
    requires Consistent(s)
    ensures Drift(Settled(StruckBy(s, s.staged))) == Drift(s) + Extra(s.staged, s.Limit())
    ensures Extra(s.staged, s.Limit()) == 0 <==> CleanStage(s)
  {
    SettledDead(s);
    CountDistinct(s.staged, s.Limit());
  }

  /** Every commit that went through found a clean stage. */
  predicate CleanCommits(s: Log, ops: seq<Op>)
    decreases ops
  {
    ops == [] ||
    ((ops[0].CommitOp? && Holds(s, ops[0].tid) ==> CleanStage(s)) && CleanCommits(Next(s, ops[0]), ops[1..]))
  }

  /** The repeated and the uncommitted numbers that the commits of a run carried out. */
  function Misses(s: Log, ops: seq<Op>): nat
    decreases ops
  {
    if ops == [] then 0
    else
      (if ops[0].CommitOp? && Holds(s, ops[0].tid) then Extra(s.staged, s.Limit()) else 0)
      + Misses(Next(s, ops[0]), ops[1..])
  }

  lemma {:induction false} DriftOverRun(s: Log, ops: seq<Op>)
    requires Consistent(s)
    ensures Drift(Run(s, ops)) == Drift(s) + Misses(s, ops)
    ensures Misses(s, ops) == 0 <==> CleanCommits(s, ops)
    decreases ops
  {
    if ops != [] {
      if ops[0].CommitOp? && Holds(s, ops[0].tid) {
        CommitCounts(s);
      }
      StepKeepsConsistent(s, ops[0]);
      DriftOverRun(Next(s, ops[0]), ops[1..]);
    }
  }

  lemma SameRemainder(a: nat, b: nat, more: nat)
    requires a == b + more
    ensures a % WORD == b % WORD <==> more % WORD == 0
  {
  }

  /** The 32-bit counters agree with the records after a run exactly when the repeated and the uncommitted
      deletes carried out by its commits are a multiple of 2^32; they are none exactly when every commit was
      clean.  A mistake is never undone by later operations. */
  lemma SaneExactlyWhenCommitsAreClean(start: nat, blockSize: nat, updateable: bool, ops: seq<Op>)
    ensures var s := Fresh(start, blockSize, updateable);
            && (Sane(Run(s, ops)) <==> Misses(s, ops) % WORD == 0)
            && (Misses(s, ops) == 0 <==> CleanCommits(s, ops))
            && (Misses(s, ops) < WORD ==> (Sane(Run(s, ops)) <==> CleanCommits(s, ops)))
  {
    var s := Fresh(start, blockSize, updateable);
    var t := Run(s, ops);
    RunKeepsConsistent(s, ops);
    DriftOverRun(s, ops);
    SameRemainder(t.deleted, Dead(t.committed, |t.committed|), Misses(s, ops));
  }

  /** A record deleted twice in one transaction is counted twice. */
  lemma RepeatedDeleteBreaksSanity()
    ensures var ops := [StartOp("t")] + ([WriteOp([1], "t")] + ([CommitOp("t")] + ([StartOp("u")] +
                       ([DeleteOp(0, "u", false)] + ([DeleteOp(0, "u", false)] + ([CommitOp("u")] + []))))));
            !Sane(Run(Fresh(0, 1000, true), ops))
  {
    var delete := DeleteOp(0, "u", false);
    var s0 := Fresh(0, 1000, true);
    OneCommitted(s0, [delete] + ([delete] + ([CommitOp("u")] + [])));
    DeletedTwice(Next(Next(Next(Next(s0, StartOp("t")), WriteOp([1], "t")), CommitOp("t")), StartOp("u")));
  }

  lemma DeletedTwice(s: Log)
    requires s.committed == [Record([1], Readable)] && s.pending == [] && s.staged == [] && s.txn == Some("u")
    requires s.start == 0 && s.updateable && s.writeState == Writable && s.deleted == 0
    ensures var delete := DeleteOp(0, "u", false); !Sane(Run(s, [delete] + ([delete] + ([CommitOp("u")] + []))))
  {
    var delete := DeleteOp(0, "u", false);
    var s2 := Next(Next(s, delete), delete);
    assert s2.staged == [0, 0];
    RunCons(s, delete, [delete] + ([CommitOp("u")] + []));
    RunCons(Next(s, delete), delete, [CommitOp("u")] + []);
    RunCons(s2, CommitOp("u"), []);
    var t := Next(s2, CommitOp("u"));
    assert t.deleted == 2 && |t.committed| == 1;
  }

  /* ---------- Space ---------- */

  /** The payloads, committed and pending, leave room for one header in the block. */
  predicate WithinBudget(s: Log)
  {
    Used(s.committed) + Used(s.pending) + HEADER_SIZE <= s.blockSize
  }

  /** The transaction's own free-space figure is not exhausted. */
  predicate HasOwnSpace(s: Log)
  {
    s.blockSize > Used(s.committed) + Used(s.pending) + HEADER_SIZE
  }

  lemma UsedGrows(recs: seq<Record>, r: Record)
    ensures Used(recs + [r]) == Used(recs) + |r.payload|
  {
    SizesDecideOffsets(recs + [r], recs, |recs|);
  }

  /** An accepted write stays within the budget exactly when the free-space test did not fall back to the
      committed figure, or nothing was written into a block that is exactly full. */
  lemma WriteKeepsBudgetExactly(s: Log, payload: seq<int>, tid: string)
    requires Write(s, payload, tid).Ok?
    ensures WithinBudget(Write(s, payload, tid).value) <==> HasOwnSpace(s) || (WithinBudget(s) && payload == [])
  {
    UsedGrows(s.pending, Record(payload, Dirty));
  }

  /** Every accepted write of the run found space left by the transaction's own figure. */
  predicate WritesHadSpace(s: Log, ops: seq<Op>)
    decreases ops
  {
    ops == [] ||
    ((ops[0].WriteOp? && Apply(s, ops[0]).Ok? ==> HasOwnSpace(s)) && WritesHadSpace(Next(s, ops[0]), ops[1..]))
  }

  lemma {:induction false} BudgetOverRun(s: Log, ops: seq<Op>)
    requires WithinBudget(s) && WritesHadSpace(s, ops)
    ensures WithinBudget(Run(s, ops))
    decreases ops
  {
    if ops != [] {
      StepKeepsBudget(s, ops[0]);
      BudgetOverRun(Next(s, ops[0]), ops[1..]);
    }
  }

  /** The size of the mapped data region. */
  function RegionSize(blockSize: nat): nat { blockSize * 110 / 100 }

  lemma {:induction false} LargePayloads(recs: seq<Record>, k: nat)
    requires k <= |recs| && forall r <- recs :: |r.payload| >= 10 * HEADER_SIZE
    ensures PayloadBytes(recs, k) >= 10 * HEADER_SIZE * k
  {
    if k > 0 {
      LargePayloads(recs, k - 1);
      assert recs[k - 1] in recs;
    }
  }

  /** A write ends inside the mapped region exactly when the payloads, and one header for each record with the
      new one, fit in it: the space test leaves the headers out. */
  lemma WriteStaysInsideExactly(s: Log, payload: seq<int>, tid: string)
    requires Write(s, payload, tid).Ok?
    ensures End(Write(s, payload, tid).value.Records()) <= RegionSize(s.blockSize) <==> HeadersFit(s, payload)
  {
    var t := Write(s, payload, tid).value;
    PendingAppends(s, Record(payload, Dirty));
    OffsetCountsHeaders(s.Records(), |s.Records()|);
    UsedAppends(s.committed, s.pending, |s.pending|);
  }

  predicate HeadersFit(s: Log, payload: seq<int>)
  {
    Used(s.committed) + Used(s.pending) + |payload| + HEADER_SIZE * (|s.committed| + |s.pending| + 1)
    <= RegionSize(s.blockSize)
  }

  /** Every accepted write of the run finds room for its header too. */
  predicate WritesFit(s: Log, ops: seq<Op>)
    decreases ops
  {
    ops == [] ||
    ((ops[0].WriteOp? && Apply(s, ops[0]).Ok? ==> HeadersFit(s, ops[0].payload))
     && WritesFit(Next(s, ops[0]), ops[1..]))
  }

  predicate Inside(s: Log) { End(s.Records()) <= RegionSize(s.blockSize) }

  /** At every moment of the run the records lie in the mapped region. */
  predicate StaysInside(s: Log, ops: seq<Op>)
    decreases ops
  {
    Inside(s) && (ops == [] || StaysInside(Next(s, ops[0]), ops[1..]))
  }

  lemma OnlyWritesGrow(s: Log, op: Op)
    requires Inside(s) && !(op.WriteOp? && Apply(s, op).Ok?)
    ensures Inside(Next(s, op))
  {
    var t := Next(s, op);
    if op.CommitOp? && Holds(s, op.tid) {
      StrikingKeepsSizes(s, s.staged);
      SettlingSizes(StruckBy(s, s.staged));
    } else if t.pending == [] {
      assert t.Records() == s.committed;
      PrefixEnds(s.committed, s.pending);
    }
  }

  lemma PrefixEnds(recs: seq<Record>, more: seq<Record>)
    ensures End(recs) <= End(recs + more)
  {
    SizesDecideOffsets(recs + more, recs, |recs|);
    if more != [] {
      RecordsAreDisjoint(recs + more, |recs|, |recs + more|);
    }
  }

  /** A run stays inside the mapped region exactly when each of its accepted writes finds room for payloads and
      headers. */
  lemma {:induction false} RunStaysInsideExactly(s: Log, ops: seq<Op>)
    requires Inside(s)
    ensures StaysInside(s, ops) <==> WritesFit(s, ops)
    decreases ops
  {
    if ops != [] {
      var op := ops[0];
      if op.WriteOp? && Apply(s, op).Ok? {
        WriteStaysInsideExactly(s, op.payload, op.tid);
      } else {
        OnlyWritesGrow(s, op);
      }
      if Inside(Next(s, op)) {
        RunStaysInsideExactly(Next(s, op), ops[1..]);
      } else {
        assert !StaysInside(Next(s, op), ops[1..]);
      }
    }
  }

  predicate LargeWrites(ops: seq<Op>) { forall op <- ops :: op.WriteOp? ==> |op.payload| >= 10 * HEADER_SIZE }

  predicate AllLarge(recs: seq<Record>) { forall r <- recs :: |r.payload| >= 10 * HEADER_SIZE }

  lemma StepKeepsLarge(s: Log, op: Op)
    requires AllLarge(s.committed) && AllLarge(s.pending) && (op.WriteOp? ==> |op.payload| >= 10 * HEADER_SIZE)
    ensures AllLarge(Next(s, op).committed) && AllLarge(Next(s, op).pending)
  {
    if op.CommitOp? && Holds(s, op.tid) {
      var c, p := Marked(s.committed, s.start, s.staged), Marked(s.pending, s.Limit(), s.staged);
      SameSizesKeepLarge(s.committed, c);
      SameSizesKeepLarge(s.pending, p);
      SameSizesKeepLarge(p, Published(p, |p|));
    }
  }

  lemma SameSizesKeepLarge(a: seq<Record>, b: seq<Record>)
    requires |a| == |b| && SameSizes(b, a, |a|) && AllLarge(a)
    ensures AllLarge(b)
  {
    forall r | r in b ensures |r.payload| >= 10 * HEADER_SIZE {
      var i :| 0 <= i < |b| && b[i] == r;
      assert a[i] in a;
    }
  }

  lemma StepKeepsBudget(s: Log, op: Op)
    requires WithinBudget(s) && (op.WriteOp? && Apply(s, op).Ok? ==> HasOwnSpace(s))
    ensures WithinBudget(Next(s, op)) && Next(s, op).blockSize == s.blockSize
  {
    if op.WriteOp? && Apply(s, op).Ok? {
      WriteKeepsBudgetExactly(s, op.payload, op.tid);
    } else if op.CommitOp? && Holds(s, op.tid) {
      StrikingKeepsSizes(s, s.staged);
      SettlingSizes(StruckBy(s, s.staged));
    }
  }

  /** Writes of at least ten headers each, into space of their own, stay inside the mapped region at every
      moment of every run. */
  lemma {:induction false} LargeWritesStayInside(s: Log, ops: seq<Op>)
    requires WithinBudget(s) && AllLarge(s.committed) && AllLarge(s.pending)
    requires WritesHadSpace(s, ops) && LargeWrites(ops)
    ensures StaysInside(s, ops)
    decreases ops
  {
    LargeRecordsStayInside(s);
    if ops != [] {
      assert ops[0] in ops;
      StepKeepsLarge(s, ops[0]);
      StepKeepsBudget(s, ops[0]);
      LargeWritesStayInside(Next(s, ops[0]), ops[1..]);
    }
  }

  lemma {:induction false} EndsInside(s: Log, ops: seq<Op>)
    requires StaysInside(s, ops)
    ensures Inside(Run(s, ops))
    decreases ops
  {
    if ops != [] {
      EndsInside(Next(s, ops[0]), ops[1..]);
    }
  }

  /** Within the budget, records at least ten headers long never reach past the mapped region. */
  lemma LargeRecordsStayInside(s: Log)
    requires WithinBudget(s) && AllLarge(s.committed) && AllLarge(s.pending)
    ensures End(s.Records()) <= RegionSize(s.blockSize)
  {
    var recs := s.Records();
    LargePayloads(recs, |recs|);
    OffsetCountsHeaders(recs, |recs|);
    UsedAppends(s.committed, s.pending, |s.pending|);
  }

  function Repeat(op: Op, n: nat): seq<Op> { if n == 0 then [] else [op] + Repeat(op, n - 1) }

  /** One-byte records fill the mapped region with headers long before the space test refuses one. */
  lemma {:induction false} SmallRecordsKeepBeingAccepted(s: Log, tid: string, n: nat)
    requires MayWrite(s) && Holds(s, tid)
    requires Used(s.committed) + Used(s.pending) + HEADER_SIZE + n <= s.blockSize
    ensures AllAccepted(s, Repeat(WriteOp([0], tid), n))
    ensures var t := Run(s, Repeat(WriteOp([0], tid), n));
            && Used(t.pending) == Used(s.pending) + n && t.committed == s.committed && |t.pending| == |s.pending| + n
            && t.blockSize == s.blockSize
    decreases n
  {
    if n > 0 {
      var op := WriteOp([0], tid);
      UsedGrows(s.pending, Record([0], Dirty));
      assert Repeat(op, n)[1..] == Repeat(op, n - 1);
      SmallRecordsKeepBeingAccepted(Next(s, op), tid, n - 1);
    }
  }

  /** So staying within the budget does not by itself keep a run inside the region: in every block of two headers
      or more, some accepted run of small writes ends past it. */
  lemma SmallRecordsRunPastTheRegion(start: nat, blockSize: nat) returns (ops: seq<Op>)
    requires blockSize >= 2 * HEADER_SIZE
    ensures AllAccepted(Fresh(start, blockSize, true), ops)
    ensures var t := Run(Fresh(start, blockSize, true), ops);
            WithinBudget(t) && End(t.Records()) > RegionSize(blockSize)
  {
    var s0 := Fresh(start, blockSize, true);
    var s1 := Next(s0, StartOp("t"));
    var n := blockSize - HEADER_SIZE;
    var writes := Repeat(WriteOp([0], "t"), n);
    SmallRecordsKeepBeingAccepted(s1, "t", n);
    ops := [StartOp("t")] + writes;
    assert ops[1..] == writes;
    var t := Run(s1, writes);
    assert t.Records() == t.pending;
    OffsetCountsHeaders(t.pending, |t.pending|);
  }

  /** With the committed figure as a fall-back, a second write can be accepted into a full block. */
  lemma FallBackOverfills()
    ensures var s := Run(Fresh(0, 100, true), [StartOp("t")] + [WriteOp(seq(52, _ => 7), "t")]);
            !HasOwnSpace(s) && Write(s, seq(52, _ => 7), "t").Ok? && !WithinBudget(Write(s, seq(52, _ => 7), "t").value)
  {
    var p := seq(52, _ => 7);
    var s0 := Fresh(0, 100, true);
    var s1 := Next(s0, StartOp("t"));
    var s2 := Next(s1, WriteOp(p, "t"));
    RunCons(s0, StartOp("t"), [WriteOp(p, "t")]);
    assert [WriteOp(p, "t")] == [WriteOp(p, "t")] + [];
    RunCons(s1, WriteOp(p, "t"), []);
    UsedGrows([], Record(p, Dirty));
    assert s2.pending == [] + [Record(p, Dirty)];
    WriteKeepsBudgetExactly(s2, p, "t");
  }
}
