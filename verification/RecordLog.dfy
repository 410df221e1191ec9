/**
 The abstract state of a record block, and what each operation of the block does to it.

 A block is an append-only log.  `committed` is what readers see, `pending` is what the open
 transaction has written, and `staged` lists the record indexes whose deletion it has asked for.
 Records are numbered from `start`; the first pending record therefore has number
 `start + |committed|`, which is also the block header's (exclusive) last index.
 */
module RecordLog {
  import opened Outcomes
  import opened Words

  /** Bytes taken by a record header. */
  const HEADER_SIZE: nat := 48

  datatype RecordState = Free | Readable | Deleted | Dirty | All

  datatype Record = Record(payload: seq<int>, state: RecordState)

  datatype WriteState = Writable | Closed | Updateable

  datatype Log = Log(start: nat, blockSize: nat, updateable: bool, writeState: WriteState,
                     committed: seq<Record>, pending: seq<Record>, staged: seq<nat>, txn: Option<string>,
                     total: nat, deleted: nat, commits: nat)
  {
    /** Every record the block holds, in the order of their numbers. */
    function Records(): seq<Record> { committed + pending }

    /** The first number that no committed record has. */
    function Limit(): nat { start + |committed| }
  }

  /* ---------- Sizes and offsets ---------- */

  /** Where record `k` starts: the lengths of the headers and payloads before it. */
  function Offset(recs: seq<Record>, k: nat): nat
    requires k <= |recs|
  {
    if k == 0 then 0 else Offset(recs, k - 1) + HEADER_SIZE + |recs[k - 1].payload|
  }

  /** Payload bytes in the first `k` records. */
  function PayloadBytes(recs: seq<Record>, k: nat): nat
    requires k <= |recs|
  {
    if k == 0 then 0 else PayloadBytes(recs, k - 1) + |recs[k - 1].payload|
  }

  function Used(recs: seq<Record>): nat { PayloadBytes(recs, |recs|) }

  function End(recs: seq<Record>): nat { Offset(recs, |recs|) }

  predicate SameSizes(a: seq<Record>, b: seq<Record>, k: nat)
  {
    k <= |a| && k <= |b| && forall i :: 0 <= i < k ==> |a[i].payload| == |b[i].payload|
  }

  lemma {:induction false} SizesDecideOffsets(a: seq<Record>, b: seq<Record>, k: nat)
    requires SameSizes(a, b, k)
    ensures Offset(a, k) == Offset(b, k)
    ensures PayloadBytes(a, k) == PayloadBytes(b, k)
  {
    if k > 0 {
      SizesDecideOffsets(a, b, k - 1);
    }
  }

  /** An offset is the payload before it plus one header for each record before it. */
  lemma {:induction false} OffsetCountsHeaders(recs: seq<Record>, k: nat)
    requires k <= |recs|
    ensures Offset(recs, k) == PayloadBytes(recs, k) + HEADER_SIZE * k
  {
    if k > 0 {
      OffsetCountsHeaders(recs, k - 1);
    }
  }

  /** Records do not overlap: each ends at or before the start of every later one. */
  lemma {:induction false} RecordsAreDisjoint(recs: seq<Record>, i: nat, j: nat)
    requires i < j <= |recs|
    ensures Offset(recs, i) + HEADER_SIZE + |recs[i].payload| <= Offset(recs, j)
    decreases j
  {
    if i < j - 1 {
      RecordsAreDisjoint(recs, i, j - 1);
    }
  }

  lemma {:induction false} UsedAppends(a: seq<Record>, b: seq<Record>, k: nat)
    requires k <= |b|
    ensures PayloadBytes(a + b, |a| + k) == Used(a) + PayloadBytes(b, k)
  {
    if k == 0 {
      SizesDecideOffsets(a + b, a, |a|);
    } else {
      UsedAppends(a, b, k - 1);
      assert (a + b)[|a| + k - 1] == b[k - 1];
    }
  }

  /* ---------- What an operation makes of a run of records ---------- */

  /** Records numbered from `start`, with those whose number is in `staged` marked deleted. */
  function Marked(recs: seq<Record>, start: nat, staged: seq<nat>): (r: seq<Record>)
    ensures |r| == |recs|
    ensures SameSizes(r, recs, |recs|)
  {
    seq(|recs|, k requires 0 <= k < |recs| =>
      if start + k in staged then recs[k].(state := Deleted) else recs[k])
  }

  /** The first `n` records made readable, whatever their state was. */
  function Published(recs: seq<Record>, n: nat): (r: seq<Record>)
    requires n <= |recs|
    ensures |r| == |recs|
    ensures SameSizes(r, recs, |recs|)
  {
    seq(|recs|, k requires 0 <= k < |recs| => if k < n then recs[k].(state := Readable) else recs[k])
  }

  /* ---------- The operations ---------- */

  /** The space the source reports.  In a transaction it falls back to the committed figure once the
      transaction's own figure is exhausted. */
  function FreeSpace(s: Log): nat
  {
    var inTransaction := Used(s.committed) + Used(s.pending) + HEADER_SIZE;
    var settled := Used(s.committed) + HEADER_SIZE;
    if s.txn.Some? && s.blockSize > inTransaction then s.blockSize - inTransaction
    else if s.blockSize > settled then s.blockSize - settled
    else 0
  }

  predicate MayWrite(s: Log) { s.updateable && s.writeState.Writable? }

  predicate MayDelete(s: Log) { s.writeState.Writable? || (s.updateable && s.writeState.Updateable?) }

  predicate Holds(s: Log, tid: string) { tid != "" && s.txn == Some(tid) }

  /** Start a transaction; `tid` is the id the lock hands out to a new holder.  A second start by the holder
      keeps the id and drops the pending records, but not the staged deletes. */
  function Start(s: Log, tid: string): Result<Log>
  {
    if !s.updateable || (s.txn.None? && tid == "") then Err(BadArgument)
    else Ok(s.(txn := if s.txn.Some? then s.txn else Some(tid), pending := []))
  }

  function Write(s: Log, payload: seq<int>, tid: string): Result<Log>
  {
    if !MayWrite(s) then Err(NotWriteable)
    else if FreeSpace(s) < |payload| then Err(NoSpace)
    else if !Holds(s, tid) then Err(WrongTransaction)
    else Ok(s.(pending := s.pending + [Record(payload, Dirty)]))
  }

  lemma PendingAppends(s: Log, r: Record)
    ensures var t := s.(pending := s.pending + [r]);
            && t.Records() == s.Records() + [r]
            && End(t.Records()) == End(s.Records()) + HEADER_SIZE + |r.payload|
            && Used(t.pending) == Used(s.pending) + |r.payload|
  {
    var t := s.(pending := s.pending + [r]);
    assert t.Records() == s.Records() + [r];
    SizesDecideOffsets(t.pending, s.pending, |s.pending|);
    SizesDecideOffsets(t.Records(), s.Records(), |s.Records()|);
  }

  /** The record with number `i` is in a state that can be deleted. */
  predicate Deletable(s: Log, i: nat, tail: bool)
    requires s.start <= i <= s.Limit()
  {
    if i - s.start < |s.Records()|
    then s.Records()[i - s.start].state.Readable? || s.Records()[i - s.start].state.Dirty?
    else tail
  }

  /** Ask for a deletion.  The range test admits the first number that is not committed; when no record
      is pending, `tail` says whether the bytes left after the log look like a valid record. */
  function Delete(s: Log, i: nat, tid: string, tail: bool): Result<Log>
  {
    if !MayDelete(s) then Err(NotWriteable)
    else if !Holds(s, tid) then Err(WrongTransaction)
    else if i < s.start || i > s.Limit() then Err(OutOfRange)
    else if !Deletable(s, i, tail) then Err(BadState)
    else Ok(s.(staged := s.staged + [i]))
  }

  /** The log with the records numbered in `ds` marked deleted, each number counted. */
  function StruckBy(s: Log, ds: seq<nat>): Log
  {
    s.(committed := Marked(s.committed, s.start, ds),
       pending := Marked(s.pending, s.Limit(), ds),
       deleted := s.deleted + |ds|)
  }

  lemma StruckOneMore(s: Log, ds: seq<nat>, i: nat)
    ensures StruckBy(s, ds + [i]) == StruckBy(StruckBy(s, ds), [i])
  {
    assert Marked(s.committed, s.start, ds + [i]) == Marked(Marked(s.committed, s.start, ds), s.start, [i]);
    assert Marked(s.pending, s.Limit(), ds + [i]) == Marked(Marked(s.pending, s.Limit(), ds), s.Limit(), [i]);
  }

  /** Striking one number changes that record only; the first number past the log has no record. */
  lemma StruckRecords(s: Log, i: nat)
    requires s.start <= i
    ensures StruckBy(s, [i]).Records() ==
              if i - s.start < |s.Records()|
              then s.Records()[i - s.start := s.Records()[i - s.start].(state := Deleted)]
              else s.Records()
  {
  }

  /** Striking leaves every length, and so every offset, as it was. */
  lemma StrikingKeepsSizes(s: Log, ds: seq<nat>)
    ensures var t := StruckBy(s, ds);
            && Used(t.committed) == Used(s.committed) && End(t.committed) == End(s.committed)
            && Used(t.pending) == Used(s.pending) && End(t.Records()) == End(s.Records())
  {
    var t := StruckBy(s, ds);
    SizesDecideOffsets(t.committed, s.committed, |s.committed|);
    SizesDecideOffsets(t.pending, s.pending, |s.pending|);
    SizesDecideOffsets(t.Records(), s.Records(), |s.Records()|);
  }

  /** The log once the pending records have been published and the transaction closed. */
  function Settled(s: Log): Log
  {
    s.(committed := s.committed + Published(s.pending, |s.pending|), pending := [], staged := [], txn := None,
       total := s.total + |s.pending|, commits := s.commits + 1)
  }

  function Commit(s: Log, tid: string): Result<Log>
  {
    if !Holds(s, tid) then Err(WrongTransaction) else Ok(Settled(StruckBy(s, s.staged)))
  }

  /** Settling turns the transaction's own figures into the header's. */
  lemma SettlingSizes(s: Log)
    ensures var t := Settled(s);
            && Used(t.committed) == Used(s.committed) + Used(s.pending)
            && End(t.committed) == End(s.Records()) == End(t.Records())
            && t.Limit() == s.Limit() + |s.pending|
            && t.Records() == s.committed + Published(s.pending, |s.pending|)
  {
    var t := Settled(s);
    assert t.Records() == t.committed;
    SizesDecideOffsets(t.committed, s.Records(), |s.Records()|);
    UsedAppends(s.committed, s.pending, |s.pending|);
  }

  /** What is left when the open transaction, if any, is abandoned. */
  function Abandoned(s: Log): Log { s.(pending := [], staged := [], txn := None) }

  function Rollback(s: Log, tid: string): Result<Log>
  {
    if !Holds(s, tid) then Err(WrongTransaction) else Ok(Abandoned(s))
  }

  function Finish(s: Log): Log { s.(writeState := Updateable) }

  function Archive(s: Log): Log { s.(writeState := Closed) }

  /** A block as it is when it has just been created and opened. */
  function Fresh(start: nat, blockSize: nat, updateable: bool): Log
  {
    Log(start, blockSize, updateable, Writable, [], [], [], None, 0, 0, 0)
  }

  /* ---------- Reading ---------- */

  /** Which records the sequential scan returns for a requested state: it filters for deleted and dirty
      records only, so asking for readable ones returns every record. */
  predicate ScanKeeps(r: Record, want: RecordState)
  {
    (want.Deleted? || want.Dirty?) ==> r.state == want
  }

  /** Positions of the first `count` records at or after `from` that `keep` accepts. */
  function Select(n: nat, keep: nat -> bool, from: nat, count: nat): (ps: seq<nat>)
    ensures forall j :: 0 <= j < |ps| ==> from <= ps[j] < n && keep(ps[j])
    ensures |ps| <= count
    decreases n - from
  {
    if from >= n || count == 0 then []
    else if keep(from) then [from] + Select(n, keep, from + 1, count - 1)
    else Select(n, keep, from + 1, count)
  }

  predicate InOrder(ps: seq<nat>) { forall i, j :: 0 <= i < j < |ps| ==> ps[i] < ps[j] }

  /** No position kept is left out, unless the selection is full of positions before it. */
  predicate SkipsNone(n: nat, keep: nat -> bool, from: nat, count: nat, ps: seq<nat>)
  {
    forall k :: from <= k < n && keep(k) && k !in ps ==> |ps| == count && forall p <- ps :: p < k
  }

  /** A selection is in order, skips no position that is kept, and stops early only when it is full. */
  lemma {:induction false} SelectTakesTheFirst(n: nat, keep: nat -> bool, from: nat, count: nat)
    ensures InOrder(Select(n, keep, from, count)) && SkipsNone(n, keep, from, count, Select(n, keep, from, count))
    decreases n - from
  {
    if from < n && count > 0 {
      if keep(from) {
        var rest := Select(n, keep, from + 1, count - 1);
        SelectTakesTheFirst(n, keep, from + 1, count - 1);
        Prepended(n, keep, from, count, rest);
        assert Select(n, keep, from, count) == [from] + rest;
      } else {
        SelectTakesTheFirst(n, keep, from + 1, count);
      }
    }
  }

  lemma Prepended(n: nat, keep: nat -> bool, from: nat, count: nat, rest: seq<nat>)
    requires count > 0 && InOrder(rest) && SkipsNone(n, keep, from + 1, count - 1, rest)
    requires forall p <- rest :: from < p
    ensures InOrder([from] + rest) && SkipsNone(n, keep, from, count, [from] + rest)
  {
    var ps := [from] + rest;
    assert forall k :: k in ps <==> k == from || k in rest;
    forall i, j | 0 <= i < j < |ps| ensures ps[i] < ps[j] {
      assert ps[j] == rest[j - 1] && rest[j - 1] in rest;
    }
  }

  lemma {:induction false} SelectCongruent(n: nat, f: nat -> bool, g: nat -> bool, from: nat, count: nat)
    requires forall k :: from <= k < n ==> f(k) == g(k)
    ensures Select(n, f, from, count) == Select(n, g, from, count)
    decreases n - from
  {
    if from < n && count > 0 {
      SelectCongruent(n, f, g, from + 1, if f(from) then count - 1 else count);
    }
  }

  lemma {:induction false} SelectNone(n: nat, keep: nat -> bool, from: nat, count: nat)
    requires forall k :: from <= k < n ==> !keep(k)
    ensures Select(n, keep, from, count) == []
    decreases n - from
  {
    if from < n && count > 0 {
      SelectNone(n, keep, from + 1, count);
    }
  }

  /** Two selections of which one keeps everything are the same just when the other keeps the whole window. */
  lemma {:induction false} SelectAllOrSome(n: nat, every: nat -> bool, some: nat -> bool, from: nat, count: nat)
    requires forall k :: from <= k < n ==> every(k)
    ensures Select(n, every, from, count) == Select(n, some, from, count) <==>
              forall k :: from <= k < n && k < from + count ==> some(k)
    decreases n - from
  {
    if from < n && count > 0 {
      SelectAllOrSome(n, every, some, from + 1, count - 1);
      var rest := Select(n, every, from + 1, count - 1);
      assert Select(n, every, from, count) == [from] + rest;
      if some(from) {
        assert Select(n, some, from, count)[1..] == Select(n, some, from + 1, count - 1);
        assert Select(n, every, from, count)[1..] == rest;
      } else {
        assert Select(n, every, from, count)[0] == from;
      }
    }
  }

  /** The payloads found at some positions. */
  function Payloads(recs: seq<Record>, ps: seq<nat>): (r: seq<seq<int>>)
    requires forall j :: 0 <= j < |ps| ==> ps[j] < |recs|
    ensures |r| == |ps|
    ensures forall j :: 0 <= j < |ps| ==> r[j] == recs[ps[j]].payload
  {
    seq(|ps|, j requires 0 <= j < |ps| => recs[ps[j]].payload)
  }

  function ScanSelect(recs: seq<Record>, want: RecordState, from: nat, count: nat): (ps: seq<nat>)
    ensures forall j :: 0 <= j < |ps| ==> from <= ps[j] < |recs|
  {
    Select(|recs|, (k: nat) => k < |recs| && ScanKeeps(recs[k], want), from, count)
  }

  /** What the sequential scan reads. */
  function ScanRead(recs: seq<Record>, want: RecordState, from: nat, count: nat): seq<seq<int>>
  {
    Payloads(recs, ScanSelect(recs, want, from, count))
  }

  /** A scan that has put `data` together and stands at record `k` with `left` records to go will end
      with what it was asked for. */
  ghost predicate OnCourse(recs: seq<Record>, want: RecordState, k: nat, left: nat, data: seq<seq<int>>,
                           goal: seq<seq<int>>)
  {
    data + ScanRead(recs, want, k, left) == goal
  }

  lemma ScanStarts(recs: seq<Record>, want: RecordState, k: nat, count: nat, data: seq<seq<int>>)
    ensures OnCourse(recs, want, k, count, data, data + ScanRead(recs, want, k, count))
  {
  }

  lemma ScanStep(recs: seq<Record>, want: RecordState, k: nat, left: nat, data: seq<seq<int>>, goal: seq<seq<int>>)
    requires k < |recs| && left > 0
    requires OnCourse(recs, want, k, left, data, goal)
    ensures ScanKeeps(recs[k], want) ==> OnCourse(recs, want, k + 1, left - 1, data + [recs[k].payload], goal)
    ensures !ScanKeeps(recs[k], want) ==> OnCourse(recs, want, k + 1, left, data, goal)
  {
    if ScanKeeps(recs[k], want) {
      assert ScanSelect(recs, want, k, left) == [k] + ScanSelect(recs, want, k + 1, left - 1);
      assert ScanRead(recs, want, k, left) == [recs[k].payload] + ScanRead(recs, want, k + 1, left - 1);
    }
  }

  lemma ScanEnds(recs: seq<Record>, want: RecordState, k: nat, left: nat, data: seq<seq<int>>, goal: seq<seq<int>>)
    requires |recs| <= k || left == 0
    requires OnCourse(recs, want, k, left, data, goal)
    ensures data == goal
  {
  }

  /* ---------- The block's own sanity check ---------- */

  lemma WrapsTwice(a: nat, b: nat)
    ensures (a % WORD + b % WORD) % WORD == (a + b) % WORD
  {
  }

  /** Records that are not readable. */
  function Dead(recs: seq<Record>, k: nat): (n: nat)
    requires k <= |recs|
    ensures n <= k
  {
    if k == 0 then 0 else Dead(recs, k - 1) + if recs[k - 1].state.Readable? then 0 else 1
  }

  /** The counters, kept in 32 bits, agree with the records. */
  predicate Sane(s: Log)
  {
    s.total % WORD == |s.committed| % WORD && s.deleted % WORD == Dead(s.committed, |s.committed|) % WORD
  }
}
