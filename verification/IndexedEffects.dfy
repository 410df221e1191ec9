/**
 What the callers of an indexed block can rely on: when each operation is accepted, and what every record, entry
 and counter is afterwards.  As in `LogEffects`, everything is stated on the fields of the two files.
 */
module IndexedEffects {
  import opened Outcomes
  import opened Words
  import opened IndexedLog
  import L = RecordLog
  import X = RecordIndex
  import E = LogEffects

  /* ---------- Writing ---------- */

  /** A new indexed block has no record and no entry, and an index for four entries fewer than estimated. */
  lemma NewBlock(start: nat, blockSize: nat, updateable: bool, estimated: nat)
    requires 4 <= estimated < WORD
    ensures var p := Fresh(start, blockSize, updateable, estimated);
            && p.log.start == p.index.start == start && p.log.updateable == updateable && p.log.writeState.Writable?
            && p.log.blockSize == blockSize && p.log.committed == p.log.pending == [] && p.log.staged == []
            && p.index.committed == p.index.pending == [] && p.index.staged == []
            && p.log.txn.None? && p.index.txn.None?
            && forall es: seq<X.Entry> :: TakesOneMore(p.index.(pending := es)) <==> |es| < estimated - 4
  {
  }

  /** The index has room for one more entry behind its header and all its entries. */
  predicate TakesOneMore(x: X.Index)
  {
    X.ENTRY_SIZE * (|x.committed| + |x.pending| + 1) + X.INDEX_HEADER_SIZE <= x.totalSize
  }

  /** A write that the log takes gets the next number.  Its entry has that number, the place where the records
      before it end, the payload's length, and is pending; the index refuses it exactly when it has no room, and
      then the record stays without one. */
  lemma WritesExactly(p: Pair, payload: seq<int>, tid: string)
    requires Aligned(p)
    ensures var (q, r) := Write(p, payload, tid);
            var taken := p.log.updateable && p.log.writeState.Writable?
                         && E.Room(p.log, |payload|) && E.Owns(p.log, tid);
            var number := p.log.start + |p.log.committed| + |p.log.pending|;
            && (!taken ==> q == p && r.Err?)
            && (taken ==> q.log == p.log.(pending := p.log.pending + [L.Record(payload, L.Dirty)]))
            && (taken && TakesOneMore(p.index) ==>
                  r == Ok(number) && q.index == p.index.(pending := p.index.pending
                    + [X.Entry(number, L.Offset(p.log.committed + p.log.pending, |p.log.committed| + |p.log.pending|),
                               |payload|, X.Written)]))
            && (taken && !TakesOneMore(p.index) ==> r == Err(NoSpace) && q.index == p.index)
  {
    E.WritesExactly(p.log, payload, tid);
    if L.Write(p.log, payload, tid).Ok? {
      WriteKeepsAligned(p, payload, tid);
      X.FreeSpaceDoesNotWrap(p.index);
      var pending := L.Write(p.log, payload, tid).value.pending;
      assert pending == pending[..|p.log.pending|] + [pending[|p.log.pending|]];
    }
  }

  /* ---------- Deleting ---------- */

  /** A committed record that the index knows can be deleted exactly when it is readable.  The delete is staged in
      the index, and nothing else changes. */
  lemma DeletesCommitted(p: Pair, number: nat, tid: string, tail: bool)
    requires Sound(p) && p.log.start <= number < p.log.start + |p.index.committed|
    ensures var r := Delete(p, number, tid, tail);
            && (r.Ok? <==> p.log.updateable && p.log.writeState.Writable? && E.Owns(p.log, tid)
                           && p.log.committed[number - p.log.start].state.Readable?)
            && (r.Ok? ==> r.value == Pair(p.log, p.index.(staged := p.index.staged + [number])))
  {
    X.InTurnPrefix(p.index.start, p.index.committed, p.index.pending);
    assert p.log.committed[number - p.log.start] in LogView(p).committed;
  }

  /** Of the other numbers only the first one of an index without committed entries passes: a pending entry with its
      record, or bytes that happen to look valid.  So a committed record without an entry cannot be deleted. */
  lemma DeletesNoOther(p: Pair, number: nat, tid: string, tail: bool)
    requires Sound(p) && !(p.log.start <= number < p.log.start + |p.index.committed|)
    ensures var r := Delete(p, number, tid, tail);
            && (r.Ok? <==> p.log.updateable && p.log.writeState.Writable? && E.Owns(p.log, tid)
                           && number == p.log.start && p.index.committed == [] && (p.index.pending != [] || tail))
            && (r.Ok? ==> r.value == Pair(p.log, p.index.(staged := p.index.staged + [number])))
            && (number != p.log.start && p.log.updateable && p.log.writeState.Writable? && E.Owns(p.log, tid) ==>
                  r == Err(OutOfRange))
  {
    X.InTurnPrefix(p.index.start, p.index.committed, p.index.pending);
    if p.index.committed == [] {
      EmptyMeansEmpty(p);
      if p.log.pending != [] {
        assert p.log.pending[0] in LogView(p).pending;
      }
    }
  }

  /** Refused deletes say why, in this order. */
  lemma RefusesDeletes(p: Pair, number: nat, tid: string, tail: bool)
    requires Sound(p)
    ensures var r := Delete(p, number, tid, tail);
            var open := p.log.updateable && p.log.writeState.Writable?;
            && (r == Err(NotWriteable) <==> !open)
            && (r == Err(WrongTransaction) <==> open && !E.Owns(p.log, tid))
            && (p.log.start <= number < p.log.start + |p.index.committed| ==>
                  (r == Err(BadState) <==> open && E.Owns(p.log, tid)
                                           && p.log.committed[number - p.log.start].state.Deleted?))
  {
    DeletesNoOther(p, p.log.start + |p.index.committed|, tid, tail);
    if p.log.start <= number < p.log.start + |p.index.committed| {
      DeletesCommitted(p, number, tid, tail);
      X.InTurnPrefix(p.index.start, p.index.committed, p.index.pending);
      assert p.log.committed[number - p.log.start] in LogView(p).committed;
    }
  }

  /* ---------- Starting, committing, rolling back ---------- */

  /** Both files enter the transaction under one id, and what either had pending goes.  Unlike the log's own, the
      deletes staged in the index go too. */
  lemma StartsExactly(p: Pair, tid: string)
    requires Aligned(p)
    ensures var r := Start(p, tid);
            && (r.Ok? <==> p.log.updateable && (p.log.txn.Some? || tid != ""))
            && (r.Ok? ==>
                  var q := r.value;
                  && q.log.txn.Some? && q.log.txn.value == (if p.log.txn.Some? then p.log.txn.value else tid)
                  && q.log == p.log.(txn := q.log.txn, pending := []) && q.index.txn == q.log.txn
                  && q.index == p.index.(txn := q.index.txn, pending := [], staged := []))
  {
  }

  /** What a commit makes of the log, record by record. */
  lemma CommitsRecords(p: Pair, tid: string)
    requires Aligned(p) && E.Owns(p.log, tid)
    ensures Commit(p, tid).Ok?
    ensures var t, n := Commit(p, tid).value.log, |p.log.committed|;
            && |t.committed| == n + |p.log.pending|
            && (forall k :: 0 <= k < n && p.log.start + k in p.index.staged ==>
                  t.committed[k] == L.Record(p.log.committed[k].payload, L.Deleted))
            && (forall k :: 0 <= k < n && p.log.start + k !in p.index.staged ==> t.committed[k] == p.log.committed[k])
            && (forall k :: 0 <= k < |p.log.pending| ==>
                  t.committed[n + k] == L.Record(p.log.pending[k].payload, L.Readable))
            && t.total == p.log.total + |p.log.pending| && t.deleted == p.log.deleted + |p.index.staged|
            && t.commits == p.log.commits + 1 && t.txn.None? && t.pending == [] && t.staged == []
            && t == p.log.(committed := t.committed, pending := [], txn := None, total := t.total,
                           deleted := t.deleted, commits := t.commits)
  {
    E.CommitsExactly(LogView(p), tid);
  }

  /** What a commit makes of the index, entry by entry: numbers, offsets and sizes stay, a staged entry is gone,
      pending ones included, and a pending one that is not staged is live. */
  lemma CommitsEntries(p: Pair, tid: string)
    requires Aligned(p) && E.Owns(p.log, tid)
    ensures Commit(p, tid).Ok?
    ensures var x, n, was := Commit(p, tid).value.index, |p.index.committed|, p.index.committed + p.index.pending;
            && |x.committed| == |was|
            && (forall k :: 0 <= k < |was| ==>
                  && x.committed[k].number == was[k].number && x.committed[k].offset == was[k].offset
                  && x.committed[k].size == was[k].size
                  && (p.log.start + k in p.index.staged ==> x.committed[k].state.Gone?)
                  && (p.log.start + k !in p.index.staged && k < n ==> x.committed[k].state == was[k].state)
                  && (p.log.start + k !in p.index.staged && k >= n ==> x.committed[k].state.Live?))
            && x == p.index.(committed := x.committed, pending := [], staged := [], txn := None)
  {
  }

  /** Anyone else's commit or rollback is refused; the holder's rollback drops what is pending and staged in either
      file, and that is all it does. */
  lemma RollsBackExactly(p: Pair, tid: string)
    requires Aligned(p)
    ensures !E.Owns(p.log, tid) ==> Commit(p, tid) == Rollback(p, tid) == Err(WrongTransaction)
    ensures E.Owns(p.log, tid) ==>
              Rollback(p, tid) ==
                Ok(Pair(p.log.(pending := [], txn := None),
                        p.index.(pending := [], staged := [], txn := None)))
  {
    assert p.log.staged == [];
  }

  /** A finished or archived block takes neither writes nor deletes, whatever is done to it. */
  lemma {:induction false} FinishedForGood(p: Pair, ops: seq<Op>, payload: seq<int>, number: nat, tid: string,
                                           tail: bool)
    requires !p.log.writeState.Writable?
    ensures var q := Run(p, ops);
            && Write(q, payload, tid) == (q, Err(NotWriteable)) && Delete(q, number, tid, tail) == Err(NotWriteable)
            && q.log.updateable == p.log.updateable
    decreases ops
  {
    if ops != [] {
      FinishedForGood(Next(p, ops[0]), ops[1..], payload, number, tid, tail);
    }
  }

  lemma FinishAndArchive(p: Pair)
    ensures Next(p, FinishOp) == p.(log := p.log.(writeState := L.Updateable))
    ensures Next(p, ArchiveOp) == p.(log := p.log.(writeState := L.Closed))
  {
  }

  /* ---------- What a read returns ---------- */

  /** The indexed read stands at record `k` to give what was asked for: for deleted or dirty records the record's
      state decides, for all records none, and otherwise the entry has to be live. */
  predicate Wanted(p: Pair, want: L.RecordState, k: nat)
    requires |p.index.committed| <= |p.log.committed|
  {
    k < |p.index.committed| &&
    match want
    case Deleted => p.log.committed[k].state.Deleted?
    case Dirty => p.log.committed[k].state.Dirty?
    case All => true
    case Readable => p.index.committed[k].state.Live?
    case Free => p.index.committed[k].state.Live?
  }

  /** The positions of the first `count` wanted records at or after `from`. */
  ghost predicate FirstWanted(p: Pair, want: L.RecordState, from: nat, count: nat, ps: seq<nat>)
    requires |p.index.committed| <= |p.log.committed|
  {
    && |ps| <= count && (forall i <- ps :: from <= i && Wanted(p, want, i))
    && (forall i, j :: 0 <= i < j < |ps| ==> ps[i] < ps[j])
    && (forall k :: from <= k < |p.index.committed| && Wanted(p, want, k) && k !in ps ==>
          |ps| == count && forall i <- ps :: i < k)
  }

  /** The indexed read returns the payloads of the first `count` wanted records, in order, behind what the caller
      had; it fails exactly when it has to go on from there and comes to a record without an entry. */
  lemma ReadsTheWanted(p: Pair, want: L.RecordState, from: nat, count: nat, into: seq<seq<int>>)
    returns (ps: seq<nat>, read: seq<seq<int>>)
    requires |p.index.committed| <= |p.log.committed|
    ensures ps == IndexSelect(p, want, from, count) && FirstWanted(p, want, from, count, ps)
    ensures |read| == |ps| && forall j :: 0 <= j < |ps| ==> read[j] == p.log.committed[ps[j]].payload
    ensures ReadResult(p, want, from, count, into) ==
              if from < |p.log.committed| && |ps| < count && |p.index.committed| < |p.log.committed|
              then Err(OutOfRange) else Ok(into + read)
  {
    ps, read := IndexSelect(p, want, from, count), IndexRead(p, want, from, count);
    var keep := (k: nat) => k < |p.index.committed| && IndexKeeps(p, want, k);
    L.SelectTakesTheFirst(|p.index.committed|, keep, from, count);
    forall k: nat | k < |p.index.committed| ensures keep(k) == Wanted(p, want, k) {
    }
  }

  /* ---------- What the sanity check counts ---------- */

  function NotLiveOnes(es: seq<X.Entry>, k: nat): set<nat>
    requires k <= |es|
  {
    set i: nat | i < k && es[i].state != X.Live
  }

  lemma {:induction false} NotLiveAreCounted(es: seq<X.Entry>, k: nat)
    requires k <= |es|
    ensures NotLive(es, k) == |NotLiveOnes(es, k)|
  {
    if k > 0 {
      NotLiveAreCounted(es, k - 1);
      assert NotLiveOnes(es, k) == NotLiveOnes(es, k - 1) + if es[k - 1].state.Live? then {} else {k - 1};
    }
  }

  /** The sanity check of an indexed block counts entries: there must be one for each record, and the two counters,
      in 32 bits, must agree with the records there are and the entries not live. */
  lemma SaneIsARecount(p: Pair)
    ensures Sane(p) <==>
              && |p.index.committed| == |p.log.committed|
              && p.log.total % 0x1_0000_0000 == |p.log.committed| % 0x1_0000_0000
              && p.log.deleted % 0x1_0000_0000
                 == |NotLiveOnes(p.index.committed, |p.index.committed|)| % 0x1_0000_0000
  {
    NotLiveAreCounted(p.index.committed, |p.index.committed|);
  }

  /* ---------- The index by itself ---------- */

  /** The figure counts header and entries, pending ones only in a transaction, in 64 bits; while entries fit it
      is what they leave over. */
  lemma IndexSpaceAddsUp(x: X.Index)
    requires X.WithinTotal(x)
    ensures var counted := |x.committed| + if x.txn.Some? then |x.pending| else 0;
            X.FreeSpace(x) + X.ENTRY_SIZE * counted + X.INDEX_HEADER_SIZE == x.totalSize
  {
  }

  /** An entry is taken from the holder while there is space, under the index's first number or the one after the
      last; the tests come in this order. */
  lemma EntriesExactly(x: X.Index, number: nat, offset: nat, size: nat, tid: string)
    requires X.WithinTotal(x) && X.InTurn(x.start, x.committed + x.pending)
    ensures var r := X.Write(x, number, offset, size, tid);
            var counted := |x.committed| + if x.txn.Some? then |x.pending| else 0;
            var room := X.ENTRY_SIZE * (counted + 1) + X.INDEX_HEADER_SIZE <= x.totalSize;
            var holder := tid != "" && x.txn.Some? && x.txn.value == tid;
            var next := x.start + if x.committed + x.pending == [] then 1 else |x.committed| + |x.pending|;
            && (r == Err(NoSpace) <==> !room)
            && (r == Err(WrongTransaction) <==> room && !holder)
            && (r == Err(BadArgument) <==> room && holder && number != x.start && number != next)
            && (r.Ok? <==> room && holder && (number == x.start || number == next))
            && (r.Ok? ==> r.value == x.(pending := x.pending + [X.Entry(number, offset, size, X.Written)]))
  {
    IndexSpaceAddsUp(x);
  }

  /** A commit of the index alone asks only that the id be the transaction's. */
  lemma IndexCommitsExactly(x: X.Index, tid: string)
    ensures X.Commit(x, tid) == Err(WrongTransaction) <==> !(x.txn.Some? && x.txn.value == tid)
    ensures X.Commit(x, tid).Ok? <==> x.txn.Some? && x.txn.value == tid
    ensures X.Commit(x, tid).Ok? ==>
              var t, was := X.Commit(x, tid).value, x.committed + x.pending;
              && |t.committed| == |was| && t.pending == [] && t.staged == [] && t.txn.None?
              && forall k :: 0 <= k < |was| ==>
                   t.committed[k] ==
                     if x.start + k in x.staged then X.Entry(was[k].number, was[k].offset, was[k].size, X.Gone)
                     else if k < |x.committed| then was[k]
                     else X.Entry(was[k].number, was[k].offset, was[k].size, X.Live)
  {
  }
}
