/**
 What the callers of a record block can rely on: when each operation is accepted, and what every record, figure and
 counter is afterwards.  Everything is stated on the fields of the log, record by record, so that no statement leans
 on a function that the operations themselves are built from.
 */
module LogEffects {
  import opened Outcomes
  import opened RecordLog
  import R = LogRuns

  /** A caller that may change the open transaction. */
  predicate Owns(s: Log, tid: string) { tid != "" && s.txn.Some? && s.txn.value == tid }

  /* ---------- Space ---------- */

  /** With space of its own, a transaction is told exactly what block, header and payloads leave over, and a
      commit moves bytes from pending to committed without changing the figure. */
  lemma OwnSpaceAddsUp(s: Log)
    requires s.txn.Some? && R.HasOwnSpace(s)
    ensures FreeSpace(s) + Used(s.committed) + Used(s.pending) + HEADER_SIZE == s.blockSize
    ensures FreeSpace(Settled(StruckBy(s, s.staged))) == FreeSpace(s)
  {
    StrikingKeepsSizes(s, s.staged);
    SettlingSizes(StruckBy(s, s.staged));
  }

  /** Without it, or without a transaction, the figure is the one of the block as readers see it. */
  lemma OtherSpaceIsTheReaders(s: Log)
    requires s.txn.None? || !R.HasOwnSpace(s)
    ensures FreeSpace(s) == FreeSpace(Abandoned(s))
    ensures if Used(s.committed) + HEADER_SIZE <= s.blockSize
            then FreeSpace(s) + Used(s.committed) + HEADER_SIZE == s.blockSize
            else FreeSpace(s) == 0
  {
  }

  /** Payload bytes grow by each record's payload, and by nothing else. */
  lemma {:induction false} PayloadsAddUp(recs: seq<Record>, k: nat, size: nat)
    requires k <= |recs| && forall i :: 0 <= i < k ==> |recs[i].payload| == size
    ensures PayloadBytes(recs, k) == k * size
  {
    if k > 0 {
      PayloadsAddUp(recs, k - 1, size);
      assert k * size == (k - 1) * size + size;
    }
  }

  /** There is room for a payload behind what is committed and, while that leaves a transaction a byte, pending. */
  predicate Room(s: Log, size: nat)
  {
    var settled, pending := Used(s.committed) + HEADER_SIZE, Used(s.pending);
    size == 0 ||
    settled + size + (if s.txn.Some? && settled + pending < s.blockSize then pending else 0) <= s.blockSize
  }

  /* ---------- Transactions ---------- */

  lemma StartsExactly(s: Log, tid: string)
    ensures Start(s, tid).Ok? <==> s.updateable && (s.txn.Some? || tid != "")
    ensures Start(s, tid).Ok? ==>
              var t := Start(s, tid).value;
              && t.txn.Some? && t.txn.value == (if s.txn.Some? then s.txn.value else tid) && t.pending == []
              && t == s.(txn := t.txn, pending := t.pending)
  {
  }

  /** A write is accepted in an updateable, writable block with room, from the holder; the tests come in this
      order.  It adds one dirty record behind all others, and that is all it does. */
  lemma WritesExactly(s: Log, payload: seq<int>, tid: string)
    ensures var r := Write(s, payload, tid);
            var open := s.updateable && s.writeState.Writable?;
            && (r == Err(NotWriteable) <==> !open)
            && (r == Err(NoSpace) <==> open && !Room(s, |payload|))
            && (r == Err(WrongTransaction) <==> open && Room(s, |payload|) && !Owns(s, tid))
            && (r.Ok? <==> open && Room(s, |payload|) && Owns(s, tid))
            && (r.Ok? ==> |r.value.pending| == |s.pending| + 1 && r.value.pending[..|s.pending|] == s.pending
                          && r.value.pending[|s.pending|] == Record(payload, Dirty)
                          && r.value == s.(pending := r.value.pending))
  {
    if s.txn.Some? && R.HasOwnSpace(s) {
      OwnSpaceAddsUp(s);
    } else {
      OtherSpaceIsTheReaders(s);
    }
  }

  /** The record with a number is there and can be deleted: any readable one, and the first pending one.  With
      none pending, the first number behind the log meets the bytes left there. */
  predicate CanGo(s: Log, number: nat, tail: bool)
  {
    s.start <= number &&
    var k := number - s.start;
    if k < |s.committed| then s.committed[k].state.Readable? || s.committed[k].state.Dirty?
    else if k > |s.committed| then false
    else if s.pending == [] then tail
    else s.pending[0].state.Readable? || s.pending[0].state.Dirty?
  }

  /** A delete is accepted from the holder, in a writable block or an updateable one that is not closed, for a
      record that can go.  It stages the number, and that is all it does. */
  lemma DeletesExactly(s: Log, number: nat, tid: string, tail: bool)
    ensures var r := Delete(s, number, tid, tail);
            var open := s.writeState.Writable? || (s.writeState.Updateable? && s.updateable);
            && (r == Err(NotWriteable) <==> !open)
            && (r == Err(WrongTransaction) <==> open && !Owns(s, tid))
            && (r == Err(OutOfRange) <==>
                  open && Owns(s, tid) && !(s.start <= number <= s.start + |s.committed|))
            && (r.Ok? <==> open && Owns(s, tid) && CanGo(s, number, tail))
            && (r.Ok? ==> r.value == s.(staged := s.staged + [number]))
  {
  }

  /** In every block that a run can reach, that is any readable committed record, the first pending one, or a
      number just behind the log that happens to look valid. */
  lemma DeletesTheReadable(s: Log, number: nat, tid: string, tail: bool)
    requires R.Consistent(s)
    ensures Delete(s, number, tid, tail).Ok? <==>
              && (s.writeState.Writable? || (s.writeState.Updateable? && s.updateable)) && Owns(s, tid)
              && (  (s.start <= number < s.start + |s.committed| && s.committed[number - s.start].state.Readable?)
                 || (number == s.start + |s.committed| && (s.pending != [] || tail)))
  {
    if s.start <= number < s.start + |s.committed| {
      assert s.committed[number - s.start] in s.committed;
    }
    if s.pending != [] {
      assert s.pending[0] in s.pending;
    }
  }

  /** A commit by the holder leaves every committed record in place, deleted if it was staged and else as it was,
      and behind them every pending one, readable; and the books say so. */
  lemma CommitsExactly(s: Log, tid: string)
    ensures Commit(s, tid) == Err(WrongTransaction) <==> !Owns(s, tid)
    ensures Commit(s, tid).Ok? <==> Owns(s, tid)
    ensures Owns(s, tid) ==>
              var t, n := Commit(s, tid).value, |s.committed|;
              && |t.committed| == n + |s.pending|
              && (forall k :: 0 <= k < n && s.start + k in s.staged ==>
                    t.committed[k] == Record(s.committed[k].payload, Deleted))
              && (forall k :: 0 <= k < n && s.start + k !in s.staged ==> t.committed[k] == s.committed[k])
              && (forall k :: 0 <= k < |s.pending| ==> t.committed[n + k] == Record(s.pending[k].payload, Readable))
              && t.total == s.total + |s.pending| && t.deleted == s.deleted + |s.staged| && t.commits == s.commits + 1
              && t.txn.None? && t.pending == [] && t.staged == []
              && t.start == s.start && t.blockSize == s.blockSize
              && t.updateable == s.updateable && t.writeState == s.writeState
  {
  }

  /** A rollback by the holder drops what is pending and staged and ends the transaction. */
  lemma RollsBackExactly(s: Log, tid: string)
    ensures Rollback(s, tid) == Err(WrongTransaction) <==> !Owns(s, tid)
    ensures Rollback(s, tid).Ok? <==> Owns(s, tid)
    ensures Owns(s, tid) ==>
              var t := Rollback(s, tid).value;
              && t.txn.None? && t.pending == [] && t.staged == []
              && t == s.(txn := t.txn, pending := t.pending, staged := t.staged)
  {
  }

  /** A new block takes a first transaction if it is updateable, and into it any record that leaves room for one
      header. */
  lemma NewBlock(start: nat, blockSize: nat, updateable: bool, tid: string, payload: seq<int>)
    ensures var s := Fresh(start, blockSize, updateable);
            && s.start == start && s.committed == s.pending == [] && s.staged == []
            && s.total == s.deleted == s.commits == 0
            && FreeSpace(s) == (if blockSize > HEADER_SIZE then blockSize - HEADER_SIZE else 0)
            && (Start(s, tid).Ok? <==> updateable && tid != "")
            && (Start(s, tid).Ok? ==>
                  (Write(Start(s, tid).value, payload, tid).Ok? <==>
                   payload == [] || |payload| + HEADER_SIZE <= blockSize))
  {
  }

  /** The commits that went through in a run. */
  function Commits(s: Log, ops: seq<R.Op>): nat
    decreases ops
  {
    if ops == [] then 0
    else (if ops[0].CommitOp? && Owns(s, ops[0].tid) then 1 else 0) + Commits(R.Next(s, ops[0]), ops[1..])
  }

  /** The commit counter counts them, one by one. */
  lemma {:induction false} CommitsAreCounted(s: Log, ops: seq<R.Op>)
    ensures R.Run(s, ops).commits == s.commits + Commits(s, ops)
    decreases ops
  {
    if ops != [] {
      CommitsAreCounted(R.Next(s, ops[0]), ops[1..]);
    }
  }

  /* ---------- Blocks that are finished ---------- */

  /** Once a block has been finished or archived it takes no write again, whatever is done to it; it goes on
      taking deletes exactly until it is archived, and again once it is finished after that. */
  lemma {:induction false} FinishedForGood(s: Log, ops: seq<R.Op>, payload: seq<int>, tid: string)
    requires !s.writeState.Writable?
    ensures var t := R.Run(s, ops);
            && Write(t, payload, tid) == Err(NotWriteable) && t.updateable == s.updateable
            && (t.writeState.Updateable? <==> LeftOpen(s.writeState.Updateable?, ops))
            && (t.writeState.Closed? <==> !LeftOpen(s.writeState.Updateable?, ops))
    decreases ops
  {
    if ops != [] {
      FinishedForGood(R.Next(s, ops[0]), ops[1..], payload, tid);
    }
  }

  /** The last of the finishes and archives in a run was a finish; with none, what was. */
  predicate LeftOpen(was: bool, ops: seq<R.Op>)
    decreases ops
  {
    if ops == [] then was
    else LeftOpen(if ops[0].FinishOp? then true else if ops[0].ArchiveOp? then false else was, ops[1..])
  }

  /** So a finished block still takes deletes if it is updateable, and an archived one none. */
  lemma FinishAndArchive(s: Log, number: nat, tid: string, tail: bool, payload: seq<int>)
    ensures Write(Finish(s), payload, tid) == Write(Archive(s), payload, tid) == Err(NotWriteable)
    ensures Delete(Finish(s), number, tid, tail).Ok? <==> s.updateable && Owns(s, tid) && CanGo(s, number, tail)
    ensures Delete(Archive(s), number, tid, tail) == Err(NotWriteable)
    ensures Finish(s).(writeState := s.writeState) == s == Archive(s).(writeState := s.writeState)
    ensures Commit(Finish(s), tid).Ok? && Commit(Archive(s), tid).Ok? <==> Owns(s, tid)
  {
    DeletesExactly(Finish(s), number, tid, tail);
  }

  /* ---------- What a scan reads ---------- */

  /** The positions of the first `count` records at or after `from` in one state. */
  ghost predicate FirstIn(recs: seq<Record>, state: RecordState, from: nat, count: nat, ps: seq<nat>)
  {
    && |ps| <= count && (forall p <- ps :: from <= p < |recs| && recs[p].state == state)
    && (forall i, j :: 0 <= i < j < |ps| ==> ps[i] < ps[j])
    && (forall k :: from <= k < |recs| && recs[k].state == state && k !in ps ==>
          |ps| == count && forall p <- ps :: p < k)
  }

  /** Asked for deleted or dirty records, the scan reads the payloads of the first `count` records in that very
      state, in order. */
  lemma ScansOneState(recs: seq<Record>, want: RecordState, from: nat, count: nat) returns (ps: seq<nat>)
    requires want.Deleted? || want.Dirty?
    ensures FirstIn(recs, want, from, count, ps)
    ensures ps == ScanSelect(recs, want, from, count)
    ensures |ScanRead(recs, want, from, count)| == |ps|
    ensures forall j :: 0 <= j < |ps| ==> ScanRead(recs, want, from, count)[j] == recs[ps[j]].payload
  {
    ps := ScanSelect(recs, want, from, count);
    SelectTakesTheFirst(|recs|, (k: nat) => k < |recs| && ScanKeeps(recs[k], want), from, count);
  }

  /** How many of the records from `from` on a reader of `count` gets that leaves none out. */
  function Window(n: nat, from: nat, count: nat): nat
  {
    if n <= from then 0 else if n - from < count then n - from else count
  }

  /** Asked for anything else, readable records included, it reads the next `count` records, whatever their
      state. */
  lemma {:induction false} ScansAll(recs: seq<Record>, want: RecordState, from: nat, count: nat)
    requires !want.Deleted? && !want.Dirty?
    ensures var ps, r, n := ScanSelect(recs, want, from, count), ScanRead(recs, want, from, count),
                            Window(|recs|, from, count);
            && |ps| == |r| == n
            && forall j :: 0 <= j < n ==> ps[j] == from + j && r[j] == recs[from + j].payload
    decreases |recs| - from
  {
    if from < |recs| && count > 0 {
      var rest := ScanSelect(recs, want, from + 1, count - 1);
      ScansAll(recs, want, from + 1, count - 1);
      assert ScanSelect(recs, want, from, count) == [from] + rest;
      forall j | 0 < j < Window(|recs|, from, count) ensures ScanSelect(recs, want, from, count)[j] == from + j {
        assert rest[j - 1] == from + j;
      }
    }
  }

  /* ---------- What the sanity check counts ---------- */

  /** The records that are not readable, among the first `k`. */
  function NotReadable(recs: seq<Record>, k: nat): set<nat>
    requires k <= |recs|
  {
    set i: nat | i < k && recs[i].state != Readable
  }

  lemma {:induction false} DeadAreNotReadable(recs: seq<Record>, k: nat)
    requires k <= |recs|
    ensures Dead(recs, k) == |NotReadable(recs, k)|
  {
    if k > 0 {
      DeadAreNotReadable(recs, k - 1);
      assert NotReadable(recs, k)
          == NotReadable(recs, k - 1) + if recs[k - 1].state.Readable? then {} else {k - 1};
    }
  }

  /** The sanity check holds the two counters, in 32 bits, against the records there are and those not readable. */
  lemma SaneIsARecount(s: Log)
    ensures Sane(s) <==>
              && s.total % 0x1_0000_0000 == |s.committed| % 0x1_0000_0000
              && s.deleted % 0x1_0000_0000 == |NotReadable(s.committed, |s.committed|)| % 0x1_0000_0000
  {
    DeadAreNotReadable(s.committed, |s.committed|);
  }
}
