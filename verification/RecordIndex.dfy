/** The abstract state of a block's index: one fixed-size entry for each record, addressed directly. */
module RecordIndex {
  import opened Outcomes
  import opened Words

  /** Bytes taken by an index entry, and by the header of an index file. */
  const ENTRY_SIZE: nat := 32
  const INDEX_HEADER_SIZE: nat := 120

  datatype EntryState = Unused | Written | Live | Gone

  datatype Entry = Entry(number: nat, offset: nat, size: nat, state: EntryState)

  datatype Index = Index(start: nat, totalSize: nat, committed: seq<Entry>, pending: seq<Entry>,
                         staged: seq<nat>, txn: Option<string>)
  {
    function Entries(): seq<Entry> { committed + pending }
  }

  /** The (inclusive) last number of a run of entries; the start number when there is none. */
  function LastNumber(start: nat, es: seq<Entry>): nat
  {
    if es == [] then start else es[|es| - 1].number
  }

  /** Entries are numbered in turn from `start`. */
  predicate InTurn(start: nat, es: seq<Entry>)
  {
    forall k :: 0 <= k < |es| ==> es[k].number == start + k
  }

  /** The free space reported: an unsigned subtraction. */
  function FreeSpace(s: Index): nat
  {
    var used := ENTRY_SIZE * (|s.committed| + if s.txn.Some? then |s.pending| else 0) + INDEX_HEADER_SIZE;
    (s.totalSize - used) % DOUBLE_WORD
  }

  predicate Holds(s: Index, tid: string) { tid != "" && s.txn == Some(tid) }

  function Start(s: Index, tid: string): Index
  {
    s.(txn := Some(tid), pending := [], staged := [])
  }

  function Write(s: Index, number: nat, offset: nat, size: nat, tid: string): Result<Index>
  {
    if FreeSpace(s) < ENTRY_SIZE then Err(NoSpace)
    else if !Holds(s, tid) then Err(WrongTransaction)
    else if number != s.start && number != LastNumber(s.start, s.Entries()) + 1 then Err(BadArgument)
    else Ok(s.(pending := s.pending + [Entry(number, offset, size, Written)]))
  }

  lemma InTurnPrefix(start: nat, es: seq<Entry>, more: seq<Entry>)
    requires InTurn(start, es + more)
    ensures InTurn(start, es)
    ensures LastNumber(start, es) <= LastNumber(start, es + more)
  {
    assert forall k :: 0 <= k < |es| ==> (es + more)[k] == es[k];
  }

  /** The number next in turn always passes the sequence test, and keeps the entries in turn. */
  lemma NextNumberIsAccepted(s: Index, offset: nat, size: nat, tid: string)
    requires InTurn(s.start, s.Entries()) && Holds(s, tid) && FreeSpace(s) >= ENTRY_SIZE
    ensures var r := Write(s, s.start + |s.Entries()|, offset, size, tid);
            r.Ok? && r.value.Entries() == s.Entries() + [Entry(s.start + |s.Entries()|, offset, size, Written)]
                  && InTurn(s.start, r.value.Entries())
  {
  }

  /** Entries with those whose place is asked for marked gone. */
  function Marked(es: seq<Entry>, start: nat, staged: seq<nat>): (r: seq<Entry>)
    ensures |r| == |es|
  {
    seq(|es|, k requires 0 <= k < |es| => if start + k in staged then es[k].(state := Gone) else es[k])
  }

  lemma StruckOneMore(es: seq<Entry>, start: nat, ds: seq<nat>, number: nat)
    requires start <= number
    ensures var now := Marked(es, start, ds);
            Marked(es, start, ds + [number]) ==
              if number - start < |es| then now[number - start := now[number - start].(state := Gone)] else now
  {
  }

  function Published(es: seq<Entry>, n: nat): (r: seq<Entry>)
    requires n <= |es|
    ensures |r| == |es|
  {
    seq(|es|, k requires 0 <= k < |es| => if k < n then es[k].(state := Live) else es[k])
  }

  /** Pending entries are made live first, and the staged deletes carried out after. */
  function Settled(s: Index): Index
  {
    s.(committed := Marked(s.committed + Published(s.pending, |s.pending|), s.start, s.staged),
       pending := [], staged := [], txn := None)
  }

  /** Settling renumbers nothing. */
  lemma SettlingKeepsTurn(s: Index)
    requires InTurn(s.start, s.Entries())
    ensures InTurn(s.start, Settled(s).committed)
    ensures |Settled(s).committed| == |s.Entries()|
    ensures LastNumber(s.start, Settled(s).committed) == LastNumber(s.start, s.Entries())
  {
    var t := Settled(s).committed;
    forall k | 0 <= k < |t| ensures t[k].number == s.Entries()[k].number {
    }
  }

  function Commit(s: Index, tid: string): Result<Index>
  {
    if s.txn != Some(tid) then Err(WrongTransaction) else Ok(Settled(s))
  }

  function Abandoned(s: Index): Index { s.(pending := [], staged := [], txn := None) }

  function Fresh(start: nat, totalSize: nat): Index
  {
    Index(start, totalSize, [], [], [], None)
  }

  /* ---------- Room for entries ---------- */

  /** Entries and header fit in the figure that the space test uses. */
  predicate WithinTotal(s: Index)
  {
    ENTRY_SIZE * |s.Entries()| + INDEX_HEADER_SIZE <= s.totalSize < DOUBLE_WORD
  }

  predicate Full(s: Index)
  {
    ENTRY_SIZE * (|s.Entries()| + 1) + INDEX_HEADER_SIZE > s.totalSize
  }

  /** While entries fit, the subtraction does not wrap, and an entry is refused for space exactly when the
      index is full. */
  lemma FreeSpaceDoesNotWrap(s: Index)
    requires WithinTotal(s)
    ensures s.txn.Some? ==> FreeSpace(s) == s.totalSize - ENTRY_SIZE * |s.Entries()| - INDEX_HEADER_SIZE
    ensures s.txn.Some? ==> (FreeSpace(s) < ENTRY_SIZE <==> Full(s))
  {
  }

  /** So accepted entries keep fitting, and lie inside the region. */
  lemma AcceptedEntryFits(s: Index, number: nat, offset: nat, size: nat, tid: string)
    requires WithinTotal(s) && Write(s, number, offset, size, tid).Ok?
    ensures WithinTotal(Write(s, number, offset, size, tid).value)
    ensures ENTRY_SIZE * (|s.Entries()| + 1) <= s.totalSize
  {
    FreeSpaceDoesNotWrap(s);
  }

  /** The index after `n` accepted writes of consecutive numbers into a fresh transaction. */
  function Filled(start: nat, totalSize: nat, tid: string, n: nat): (s: Index)
    ensures |s.pending| == n && s.committed == [] && s.txn == Some(tid) && s.totalSize == totalSize && s.start == start
    ensures LastNumber(start, s.Entries()) == if n == 0 then start else start + n - 1
  {
    if n == 0 then Start(Fresh(start, totalSize), tid)
    else
      var s := Filled(start, totalSize, tid, n - 1);
      var e := Entry(start + n - 1, 0, 0, Written);
      assert (s.pending + [e])[|s.pending|] == e;
      s.(pending := s.pending + [e])
  }

  /** An index sized for `estimated` records takes exactly four entries fewer: the space test counts the
      file header, which the size does not include. */
  lemma CapacityIsFourShort(start: nat, estimated: nat, tid: string, n: nat)
    requires 4 <= estimated < 0x1_0000_0000 && tid != "" && n <= estimated - 4
    ensures Write(Filled(start, estimated * ENTRY_SIZE, tid, n), start + n, 0, 0, tid).Ok? <==> n < estimated - 4
  {
    var s := Filled(start, estimated * ENTRY_SIZE, tid, n);
    assert WithinTotal(s);
    FreeSpaceDoesNotWrap(s);
  }

  /** An index whose size is below its header's size accepts entries past its own end. */
  lemma TinyIndexOverruns(start: nat, totalSize: nat, tid: string, n: nat)
    requires totalSize < INDEX_HEADER_SIZE && tid != "" && n <= totalSize / ENTRY_SIZE
    ensures Write(Filled(start, totalSize, tid, n), start + n, 0, 0, tid).Ok?
    ensures n == totalSize / ENTRY_SIZE ==> ENTRY_SIZE * (n + 1) > totalSize
  {
    var s := Filled(start, totalSize, tid, n);
    var used := ENTRY_SIZE * n + INDEX_HEADER_SIZE;
    assert -(DOUBLE_WORD as int) + 1000 < totalSize - used < 0;
    assert FreeSpace(s) == totalSize - used + DOUBLE_WORD;
  }

  /* ---------- How entries lie in the mapped region ---------- */

  const NUMBER_AT: nat := 0
  const STATE_AT: nat := 8
  const OFFSET_AT: nat := 16
  const SIZE_AT: nat := 24

  function Code(s: EntryState): int
  {
    match s
    case Unused => 0
    case Written => 1
    case Live => 2
    case Gone => 4
  }

  predicate Stored(b: seq<int>, es: seq<Entry>, k: nat)
    requires k < |es|
  {
    && ENTRY_SIZE * k + ENTRY_SIZE <= |b|
    && b[ENTRY_SIZE * k + NUMBER_AT] == es[k].number
    && b[ENTRY_SIZE * k + STATE_AT] == Code(es[k].state)
    && b[ENTRY_SIZE * k + OFFSET_AT] == es[k].offset
    && b[ENTRY_SIZE * k + SIZE_AT] == es[k].size
  }

  ghost predicate Table(b: seq<int>, es: seq<Entry>)
  {
    forall k {:trigger Stored(b, es, k)} :: 0 <= k < |es| ==> Stored(b, es, k)
  }

  /** What lies where: number, state, offset and size, eight bytes apart. */
  lemma EntryBytes(b: seq<int>, es: seq<Entry>, k: nat)
    requires k < |es|
    ensures Stored(b, es, k) <==>
              var at := 32 * k;
              && at + 32 <= |b| && b[at] == es[k].number && b[at + 16] == es[k].offset && b[at + 24] == es[k].size
              && b[at + 8] == (match es[k].state case Unused => 0 case Written => 1 case Live => 2 case Gone => 4)
  {
  }

  lemma TablePrefix(b: seq<int>, es: seq<Entry>, more: seq<Entry>)
    requires Table(b, es + more)
    ensures Table(b, es)
  {
    forall k | 0 <= k < |es| ensures Stored(b, es, k) {
      assert Stored(b, es + more, k);
    }
  }

  lemma TableAppend(b: seq<int>, b': seq<int>, es: seq<Entry>, e: Entry)
    requires Table(b, es) && |b'| == |b|
    requires forall i :: 0 <= i < ENTRY_SIZE * |es| && i < |b| ==> b'[i] == b[i]
    requires Stored(b', es + [e], |es|)
    ensures Table(b', es + [e])
  {
    forall k | 0 <= k < |es| + 1 ensures Stored(b', es + [e], k) {
      if k < |es| {
        assert Stored(b, es, k);
      }
    }
  }

  lemma TableSetState(b: seq<int>, es: seq<Entry>, k: nat, s: EntryState)
    requires Table(b, es) && ENTRY_SIZE * k + ENTRY_SIZE <= |b|
    ensures Table(b[ENTRY_SIZE * k + STATE_AT := Code(s)], if k < |es| then es[k := es[k].(state := s)] else es)
  {
    var b' := b[ENTRY_SIZE * k + STATE_AT := Code(s)];
    var es' := if k < |es| then es[k := es[k].(state := s)] else es;
    forall i | 0 <= i < |es| ensures Stored(b', es', i) {
      assert Stored(b, es, i);
    }
  }
}
