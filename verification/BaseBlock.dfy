/** The plain record block: a memory-mapped region that holds the abstract log of `RecordLog`. */
module BaseBlocks {
  import opened Outcomes
  import opened Words
  import opened RecordLog
  import opened RecordLayout
  import R = LogRuns

  class BaseBlock {
    /** The data region of the mapped file. */
    const data: array<int>
    const blockSize: nat
    const startIndex: nat
    const updateable: bool

    // the block header
    var lastIndex: nat
    var writeOffset: nat
    var usedBytes: nat
    var totalRecords: nat
    var deletedRecords: nat
    var commitSequence: nat
    var writeState: WriteState

    // the open transaction
    var inTransaction: bool
    var transactionId: string
    var txLastIndex: nat
    var txWriteOffset: nat
    var txUsedBytes: nat
    var deletes: seq<nat>

    /** The abstract log this block holds. */
    ghost var log: Log

    /** The bytes left right after the log carry the number of the next record. */
    ghost predicate TailNumbered()
      reads this, data
    {
      writeOffset + HEADER_SIZE <= data.Length && data[writeOffset + INDEX_AT] == lastIndex
    }

    /** The bytes left right after the log would pass for a live record with the next number. */
    ghost predicate TailLooksValid()
      reads this, data
    {
      TailNumbered() && data[writeOffset + STATE_AT] in {Code(Readable), Code(Dirty)}
    }

    ghost predicate HeaderMatches()
      reads this
    {
      && log.start == startIndex && log.blockSize == blockSize && log.updateable == updateable
      && lastIndex == log.Limit()
      && writeOffset == End(log.committed)
      && usedBytes == Used(log.committed)
      && totalRecords == log.total % WORD
      && deletedRecords == log.deleted % WORD
      && commitSequence == log.commits
      && writeState == log.writeState
    }

    ghost predicate TransactionMatches()
      reads this
    {
      && deletes == log.staged
      && inTransaction == log.txn.Some?
      && (inTransaction ==>
        && log.txn == Some(transactionId)
        && txLastIndex == log.Limit() + |log.pending|
        && txWriteOffset == End(log.Records())
        && txUsedBytes == Used(log.pending))
      && (!inTransaction ==> transactionId == "" && log.pending == [] && log.staged == [])
    }

    /** Every staged number can be looked up. */
    ghost predicate StagedInRange()
      reads this, data
    {
      && (forall i <- log.staged :: startIndex <= i <= lastIndex)
      && (lastIndex in log.staged ==> TailNumbered())
    }

    ghost predicate Valid()
      reads this, data
    {
      && HeaderMatches()
      && TransactionMatches()
      && Layout(data[..], startIndex, log.Records())
      && StagedInRange()
    }

    /** A block file just created, sized as the source sizes it, and opened. */
    constructor (blockSize: nat, startIndex: nat, updateable: bool)
      ensures Valid() && fresh(data)
      ensures log == Fresh(startIndex, blockSize, updateable)
      ensures data.Length == blockSize * 110 / 100
      ensures forall i :: 0 <= i < data.Length ==> data[i] == 0
    {
      this.blockSize, this.startIndex, this.updateable := blockSize, startIndex, updateable;
      data := new int[blockSize * 110 / 100](_ => 0);
      lastIndex, writeOffset, usedBytes := startIndex, 0, 0;
      totalRecords, deletedRecords, commitSequence, writeState := 0, 0, 0, Writable;
      inTransaction, transactionId, txLastIndex, txWriteOffset, txUsedBytes := false, "", 0, 0, 0;
      deletes := [];
      log := Fresh(startIndex, blockSize, updateable);
    }

    method GetFreeSpace() returns (space: nat)
      requires Valid()
      ensures space == FreeSpace(log)
    {
      if inTransaction {
        var used := usedBytes + txUsedBytes + HEADER_SIZE;
        if blockSize > used {
          return blockSize - used;
        }
      }
      var settled := usedBytes + HEADER_SIZE;
      if blockSize > settled {
        return blockSize - settled;
      }
      return 0;
    }

    method StartTransaction(tid: string) returns (r: Result<string>)
      requires Valid()
      modifies this
      ensures Valid()
      ensures match Start(old(log), tid)
              case Ok(s) => log == s && r == Ok(s.txn.value)
              case Err(e) => log == old(log) && r == Err(e)
    {
      if !updateable || (!inTransaction && tid == "") {
        return Err(BadArgument);
      }
      if !inTransaction {
        transactionId := tid;
      }
      inTransaction := true;
      txLastIndex, txWriteOffset, txUsedBytes := lastIndex, writeOffset, 0;
      log := Start(log, tid).value;
      LayoutPrefix(data[..], startIndex, old(log).committed, old(log).pending);
      assert log.Records() == log.committed;
      return Ok(transactionId);
    }

    /** What a write asks of its caller holds after every run that wrote only records of at least ten headers
        into space of their own, for one more such write. */
    lemma LargeWriteHasRoom(source: seq<int>, tid: string, ops: seq<R.Op>)
      requires Valid() && data.Length == R.RegionSize(blockSize) && blockSize >= HEADER_SIZE
      requires log == R.Run(Fresh(startIndex, blockSize, updateable), ops)
      requires R.WritesHadSpace(Fresh(startIndex, blockSize, updateable), ops + [R.WriteOp(source, tid)])
      requires R.LargeWrites(ops) && |source| >= 10 * HEADER_SIZE
      ensures Write(log, source, tid).Ok? ==> End(log.Records()) + HEADER_SIZE + |source| <= data.Length
    {
      var s, write := Fresh(startIndex, blockSize, updateable), [R.WriteOp(source, tid)];
      R.LargeWritesStayInside(s, ops + write);
      R.EndsInside(s, ops + write);
      R.RunConcat(s, ops, write);
      if Write(log, source, tid).Ok? {
        R.RunCons(log, write[0], []);
        assert write == [write[0]] + [];
        PendingAppends(log, Record(source, Dirty));
      }
    }

    /** It holds, whatever was written, exactly when payloads and headers fit in the region. */
    lemma WriteHasRoomExactly(source: seq<int>, tid: string)
      requires Valid() && data.Length == R.RegionSize(blockSize) && Write(log, source, tid).Ok?
      ensures End(log.Records()) + HEADER_SIZE + |source| <= data.Length <==> R.HeadersFit(log, source)
    {
      R.WriteStaysInsideExactly(log, source, tid);
      PendingAppends(log, Record(source, Dirty));
    }

    /** Append a record to the open transaction.  The source does not check that the record stays inside
        the mapped region; a caller must. */
    method WriteRecord(source: seq<int>, now: int, tid: string) returns (r: Result<nat>)
      requires Valid()
      requires Write(log, source, tid).Ok? ==> End(log.Records()) + HEADER_SIZE + |source| <= data.Length
      modifies this, data
      ensures Valid()
      ensures match Write(old(log), source, tid)
              case Ok(s) => log == s && r == Ok(old(log).Limit() + |old(log).pending|)
                         && txWriteOffset == old(txWriteOffset) + HEADER_SIZE + |source|
              case Err(e) => log == old(log) && r == Err(e)
      ensures forall i :: 0 <= i < old(End(log.Records())) && i < data.Length ==> data[i] == old(data[i])
      ensures r.Err? ==> data[..] == old(data[..])
    {
      if !(updateable && writeState == Writable) {
        return Err(NotWriteable);
      }
      var space := GetFreeSpace();
      if space < |source| {
        return Err(NoSpace);
      }
      if tid == "" || !inTransaction || transactionId != tid {
        return Err(WrongTransaction);
      }
      AppendRecord(source, now);
      return Ok(txLastIndex - 1);
    }

    /** Store a record behind the pending ones and take the next number for it. */
    method AppendRecord(source: seq<int>, now: int)
      requires Valid() && inTransaction
      requires End(log.Records()) + HEADER_SIZE + |source| <= data.Length
      modifies this`txLastIndex, this`txUsedBytes, this`txWriteOffset, this`log, data
      ensures Valid()
      ensures log == old(log).(pending := old(log).pending + [Record(source, Dirty)])
      ensures txLastIndex == old(txLastIndex) + 1
      ensures txWriteOffset == old(txWriteOffset) + HEADER_SIZE + |source|
      ensures forall i :: 0 <= i < old(End(log.Records())) ==> data[i] == old(data[i])
    {
      ghost var recs, before, r := log.Records(), data[..], Record(source, Dirty);
      StoreRecord(txWriteOffset, txLastIndex, source, now);
      AppendedLayout(before, data[..], startIndex, recs, r);
      PendingAppends(log, r);
      txLastIndex := txLastIndex + 1;
      txUsedBytes := txUsedBytes + |source|;
      txWriteOffset := txWriteOffset + HEADER_SIZE + |source|;
      log := log.(pending := log.pending + [r]);
      FirstPendingIsNumbered();
    }

    /** Lay a header and a payload down at `at`, touching no other byte. */
    method StoreRecord(at: nat, index: nat, source: seq<int>, now: int)
      requires at + HEADER_SIZE + |source| <= data.Length
      modifies data
      ensures RecordAt(data[..], at, index, Record(source, Dirty))
      ensures data[at + TIME_AT] == now && data[at + PLAIN_SIZE_AT] == 0
      ensures forall i :: 0 <= i < data.Length && (i < at || at + HEADER_SIZE + |source| <= i) ==>
                data[i] == old(data[i])
    {
      StoreHeader(at, index, |source|, now);
      CopyPayload(at + HEADER_SIZE, source);
    }

    method StoreHeader(at: nat, index: nat, size: nat, now: int)
      requires at + HEADER_SIZE <= data.Length
      modifies data
      ensures data[at + INDEX_AT] == index && data[at + OFFSET_AT] == at && data[at + SIZE_AT] == size
      ensures data[at + STATE_AT] == Code(Dirty) && data[at + TIME_AT] == now && data[at + PLAIN_SIZE_AT] == 0
      ensures forall i :: 0 <= i < data.Length && !(at <= i < at + HEADER_SIZE) ==> data[i] == old(data[i])
    {
      forall i | at <= i < at + HEADER_SIZE { data[i] := 0; }
      data[at + INDEX_AT] := index;
      data[at + OFFSET_AT] := at;
      data[at + SIZE_AT] := size;
      data[at + TIME_AT] := now;
      data[at + PLAIN_SIZE_AT] := 0;
      data[at + STATE_AT] := Code(Dirty);
    }

    method CopyPayload(at: nat, source: seq<int>)
      requires at + |source| <= data.Length
      modifies data
      ensures data[at..at + |source|] == source
      ensures forall i :: 0 <= i < data.Length && !(at <= i < at + |source|) ==> data[i] == old(data[i])
    {
      forall i | 0 <= i < |source| { data[at + i] := source[i]; }
    }

    /** When a record is pending, the bytes after the committed log are its header. */
    lemma FirstPendingIsNumbered()
      requires HeaderMatches() && |log.pending| > 0
      requires Layout(data[..], startIndex, log.Records())
      ensures TailNumbered()
    {
      var k := |log.committed|;
      assert Placed(data[..], startIndex, log.Records(), k);
      SizesDecideOffsets(log.Records(), log.committed, k);
    }

    /** The record with a given number lies at its offset in the abstract log. */
    lemma RecordIsPlaced(k: nat)
      requires HeaderMatches() && Layout(data[..], startIndex, log.Records())
      requires k < |log.Records()|
      ensures RecordAt(data[..], Offset(log.Records(), k), startIndex + k, log.Records()[k])
      ensures k < |log.committed| ==> log.Records()[k] == log.committed[k]
    {
      assert Placed(data[..], startIndex, log.Records(), k);
    }

    /** Find a record by walking the headers from the first one.  The check on each header passed over
        cannot fail; only the header arrived at can be wrong, and only for the first uncommitted number. */
    method ReadRecord(index: nat) returns (r: Result<nat>)
      requires Valid()
      requires index != lastIndex || writeOffset + HEADER_SIZE <= data.Length
      ensures r.Ok? <==> startIndex <= index <= lastIndex && (index == lastIndex ==> TailNumbered())
      ensures r.Ok? ==> r.value == Offset(log.Records(), index - startIndex)
      ensures r.Ok? ==> r.value == Scan(data[..], 0, startIndex, index)
      ensures r.Ok? ==> r.value + HEADER_SIZE <= data.Length
      ensures r.Err? ==> r == Err(if startIndex <= index <= lastIndex then Mismatch else OutOfRange)
    {
      if !(startIndex <= index <= lastIndex) {
        return Err(OutOfRange);
      }
      ghost var recs := log.Records();
      var ptr := WalkTo(index);
      ScanFindsOffset(data[..], startIndex, recs, 0, index - startIndex);
      if index == lastIndex {
        SizesDecideOffsets(recs, log.committed, |log.committed|);
      } else {
        RecordIsPlaced(index - startIndex);
      }
      if data[ptr + INDEX_AT] != index {
        return Err(Mismatch);
      }
      return Ok(ptr);
    }

    /** Step over the headers before a number. */
    method WalkTo(index: nat) returns (ptr: nat)
      requires Valid() && startIndex <= index <= lastIndex
      ensures ptr == Offset(log.Records(), index - startIndex)
    {
      var ii := startIndex;
      ptr := 0;
      while ii < index
        invariant startIndex <= ii <= index
        invariant ptr == Offset(log.Records(), ii - startIndex)
      {
        RecordIsPlaced(ii - startIndex);
        assert data[ptr + INDEX_AT] == ii;  // the scan's own post-condition
        ptr := ptr + data[ptr + SIZE_AT] + HEADER_SIZE;
        ii := ii + 1;
      }
    }

    /** Go straight to an offset taken from an index and check that the header there agrees. */
    method ReadRecordAt(index: nat, offset: nat, size: int) returns (r: Result<nat>)
      requires Valid()
      requires offset + HEADER_SIZE <= data.Length
      ensures r == if !(startIndex <= index <= lastIndex) then Err(OutOfRange)
                   else if HeaderAgrees(index, offset, size) then Ok(offset) else Err(Mismatch)
    {
      if !(startIndex <= index <= lastIndex) {
        return Err(OutOfRange);
      }
      if !(data[offset + INDEX_AT] == index && data[offset + OFFSET_AT] == offset && data[offset + SIZE_AT] == size) {
        return Err(Mismatch);
      }
      return Ok(offset);
    }

    ghost predicate HeaderAgrees(index: nat, offset: nat, size: int)
      requires offset + HEADER_SIZE <= data.Length
      reads data
    {
      data[offset + INDEX_AT] == index && data[offset + OFFSET_AT] == offset && data[offset + SIZE_AT] == size
    }

    /** A header the scan refuses is one the abstract log has nothing to delete for. */
    lemma TailDecides(index: nat)
      requires Valid()
      requires index == lastIndex ==> !TailNumbered()
      ensures startIndex <= index <= lastIndex && index == lastIndex ==> !Deletable(log, index, TailLooksValid())
    {
      if |log.pending| > 0 {
        FirstPendingIsNumbered();
      }
    }

    /** The state stored in the header found decides whether a record can be deleted. */
    lemma DeletableByState(index: nat)
      requires Valid()
      requires startIndex <= index <= lastIndex
      requires index == lastIndex ==> TailNumbered()
      ensures Offset(log.Records(), index - startIndex) + HEADER_SIZE <= data.Length
      ensures Deletable(log, index, TailLooksValid()) <==>
                data[Offset(log.Records(), index - startIndex) + STATE_AT] in {Code(Readable), Code(Dirty)}
    {
      SizesDecideOffsets(log.Records(), log.committed, |log.committed|);
      if index - startIndex < |log.Records()| {
        RecordIsPlaced(index - startIndex);
      }
    }

    method DeleteRecord(index: nat, tid: string) returns (r: Result<()>)
      requires Valid()
      requires index != lastIndex || writeOffset + HEADER_SIZE <= data.Length
      modifies this`deletes, this`log
      ensures Valid()
      ensures match Delete(old(log), index, tid, old(TailLooksValid()))
              case Ok(s) => log == s && r == Ok(())
              case Err(e) => log == old(log) && r.Err?
    {
      if !(writeState == Writable || (updateable && writeState == Updateable)) {
        return Err(NotWriteable);
      }
      if !inTransaction || tid == "" || transactionId != tid {
        return Err(WrongTransaction);
      }
      if !(startIndex <= index <= txLastIndex) {
        return Err(OutOfRange);
      }
      var checked := CheckDeletable(index);
      if checked.Err? {
        return Err(checked.error);
      }
      deletes := deletes + [index];
      log := log.(staged := log.staged + [index]);
      return Ok(());
    }

    /** Find a record and check that its state lets it be deleted. */
    method CheckDeletable(index: nat) returns (r: Result<()>)
      requires Valid()
      requires index != lastIndex || writeOffset + HEADER_SIZE <= data.Length
      ensures r.Ok? <==> startIndex <= index <= lastIndex && Deletable(log, index, TailLooksValid())
      ensures r.Ok? && index == lastIndex ==> TailNumbered()
    {
      var found := ReadRecord(index);
      if found.Err? {
        TailDecides(index);
        return Err(found.error);
      }
      DeletableByState(index);
      var state := data[found.value + STATE_AT];
      return if state == Code(Readable) || state == Code(Dirty) then Ok(()) else Err(BadState);
    }

    static lemma StruckLayout(b: seq<int>, b': seq<int>, s: Log, index: nat)
      requires s.start <= index <= s.Limit() && Layout(b, s.start, s.Records())
      requires Offset(s.Records(), index - s.start) + STATE_AT < |b|
      requires b' == b[Offset(s.Records(), index - s.start) + STATE_AT := Code(Deleted)]
      ensures Layout(b', s.start, StruckBy(s, [index]).Records())
    {
      StruckRecords(s, index);
      if index - s.start < |s.Records()| {
        LayoutSetState(b, s.start, s.Records(), index - s.start, Deleted);
      } else {
        LayoutFrame(b, b', s.start, s.Records());
      }
    }

    /** Mark a record found at `ptr` as deleted and count it. */
    method MarkDeleted(index: nat, ptr: nat)
      requires Valid()
      requires startIndex <= index <= lastIndex && (index == lastIndex ==> TailNumbered())
      requires ptr == Offset(log.Records(), index - startIndex) && ptr + HEADER_SIZE <= data.Length
      modifies this`deletedRecords, this`log, data
      ensures Valid()
      ensures log == StruckBy(old(log), [index])
      ensures forall i :: 0 <= i < data.Length && i != ptr + STATE_AT ==> data[i] == old(data[i])
    {
      ghost var s, before := log, data[..];
      SetDeleted(ptr);
      PlaceInLog(s, index);
      StruckLayout(before, data[..], s, index);
      log := StruckBy(s, [index]);
      CountersAreStruck(s, index);
    }

    method SetDeleted(ptr: nat)
      requires ptr + HEADER_SIZE <= data.Length
      modifies this`deletedRecords, data
      ensures deletedRecords == (old(deletedRecords) + 1) % WORD
      ensures data[..] == old(data[..])[ptr + STATE_AT := Code(Deleted)]
    {
      data[ptr + STATE_AT] := Code(Deleted);
      deletedRecords := (deletedRecords + 1) % WORD;
    }

    lemma CountersAreStruck(s: Log, index: nat)
      requires log == StruckBy(s, [index])
      requires s.start == startIndex && s.blockSize == blockSize
      requires s.updateable == updateable && s.writeState == writeState
      requires lastIndex == s.Limit() && writeOffset == End(s.committed) && usedBytes == Used(s.committed)
      requires totalRecords == s.total % WORD && deletedRecords == (s.deleted % WORD + 1) % WORD
      requires commitSequence == s.commits
      requires deletes == s.staged && inTransaction == s.txn.Some?
      requires inTransaction ==> s.txn == Some(transactionId) && txLastIndex == s.Limit() + |s.pending|
                                 && txWriteOffset == End(s.Records()) && txUsedBytes == Used(s.pending)
      requires !inTransaction ==> transactionId == "" && s.pending == [] && s.staged == []
      ensures HeaderMatches() && TransactionMatches()
    {
      StrikingKeepsSizes(s, [index]);
      WrapsTwice(s.deleted, 1);
    }

    /** A committed record ends within the log; the first uncommitted one starts at its end. */
    static lemma PlaceInLog(s: Log, index: nat)
      requires s.start <= index <= s.Limit()
      ensures var at := Offset(s.Records(), index - s.start);
              if index < s.Limit() then at + HEADER_SIZE <= End(s.committed) else at == End(s.committed)
    {
      SizesDecideOffsets(s.Records(), s.committed, index - s.start);
      if index < s.Limit() {
        RecordsAreDisjoint(s.committed, index - s.start, |s.committed|);
      }
    }

    /** The region once the first `j` pending records have been made readable. */
    static ghost predicate PublishedUpTo(b: seq<int>, start: nat, c: seq<Record>, p: seq<Record>, j: nat)
    {
      j <= |p| && Layout(b, start, c + Published(p, j))
    }

    static lemma PendingPlaced(b: seq<int>, start: nat, c: seq<Record>, p: seq<Record>, j: nat)
      requires j < |p| && PublishedUpTo(b, start, c, p, j)
      ensures Offset(c + p, |c| + j) + HEADER_SIZE <= |b|
      ensures b[Offset(c + p, |c| + j) + SIZE_AT] == |p[j].payload|
    {
      var now, k := c + Published(p, j), |c| + j;
      SizesDecideOffsets(now, c + p, k);
      assert Placed(b, start, now, k);
      assert now[k].payload == p[j].payload;
    }

    static lemma PublishedOneMore(b: seq<int>, b': seq<int>, start: nat, c: seq<Record>, p: seq<Record>, j: nat)
      requires j < |p| && PublishedUpTo(b, start, c, p, j)
      requires Offset(c + p, |c| + j) + STATE_AT < |b|
      requires b' == b[Offset(c + p, |c| + j) + STATE_AT := Code(Readable)]
      ensures PublishedUpTo(b', start, c, p, j + 1)
    {
      var now := c + Published(p, j);
      SizesDecideOffsets(now, c + p, |c| + j);
      LayoutSetState(b, start, now, |c| + j, Readable);
      assert now[|c| + j := now[|c| + j].(state := Readable)] == c + Published(p, j + 1);
    }

    /** Make the record at `offset` readable and step over it. */
    method PublishOne(offset: nat, ghost c: seq<Record>, ghost p: seq<Record>, ghost j: nat) returns (next: nat)
      requires j < |p| && PublishedUpTo(data[..], startIndex, c, p, j)
      requires offset == Offset(c + p, |c| + j)
      modifies data
      ensures PublishedUpTo(data[..], startIndex, c, p, j + 1)
      ensures next == Offset(c + p, |c| + j + 1)
      ensures forall i :: 0 <= i < offset && i < data.Length ==> data[i] == old(data[i])
    {
      ghost var before := data[..];
      PendingPlaced(before, startIndex, c, p, j);
      data[offset + STATE_AT] := Code(Readable);
      PublishedOneMore(before, data[..], startIndex, c, p, j);
      next := offset + HEADER_SIZE + data[offset + SIZE_AT];
    }

    /** Walk the pending records by their sizes, from the committed end to the transaction's end, and make
        each readable.  The walk meets every pending record and nothing else. */
    method PublishRecords() returns (added: nat)
      requires Valid() && inTransaction
      modifies data
      ensures added == |log.pending|
      ensures Layout(data[..], startIndex, log.committed + Published(log.pending, |log.pending|))
      ensures forall i :: 0 <= i < writeOffset && i < data.Length ==> data[i] == old(data[i])
    {
      ghost var c, p, recs := log.committed, log.pending, log.Records();
      SizesDecideOffsets(recs, c, |c|);
      WalkLasts(c, p, 0);
      assert Published(p, 0) == p;
      var offset := writeOffset;
      added := 0;
      while offset < txWriteOffset
        invariant added <= |p|
        invariant offset == Offset(recs, |c| + added) && writeOffset <= offset
        invariant offset < txWriteOffset <==> added < |p|
        invariant PublishedUpTo(data[..], startIndex, c, p, added)
        invariant forall i :: 0 <= i < writeOffset && i < data.Length ==> data[i] == old(data[i])
        decreases |p| - added
      {
        offset := PublishOne(offset, c, p, added);
        added := added + 1;
        WalkLasts(c, p, added);
      }
    }

    /** The walk has not come to the end exactly while pending records are left. */
    static lemma WalkLasts(c: seq<Record>, p: seq<Record>, j: nat)
      requires j <= |p|
      ensures Offset(c + p, |c| + j) < End(c + p) <==> j < |p|
    {
      if j < |p| {
        RecordsAreDisjoint(c + p, |c| + j, |c + p|);
      }
    }

    /** Publish the pending records, move the header's counters past them and close the transaction. */
    method Publish()
      requires Valid() && inTransaction
      modifies this, data
      ensures Valid()
      ensures log == Settled(old(log))
      ensures forall i :: 0 <= i < old(writeOffset) && i < data.Length ==> data[i] == old(data[i])
    {
      var added := PublishRecords();
      MoveHeader(added);
    }

    /** Move the header's counters past the published records; the record counters have 32 bits. */
    method MoveHeader(added: nat)
      requires HeaderMatches() && TransactionMatches() && inTransaction && added == |log.pending|
      requires Layout(data[..], startIndex, log.committed + Published(log.pending, |log.pending|))
      modifies this
      ensures Valid() && log == Settled(old(log))
    {
      ghost var s := log;
      MoveCounters(added);
      deletes := [];
      EndTransaction();
      log := Settled(log);
      HeaderIsSettled(s);
      RestIsSettled(s);
    }

    method MoveCounters(added: nat)
      modifies this`lastIndex, this`usedBytes, this`writeOffset, this`commitSequence, this`totalRecords
      ensures lastIndex == old(txLastIndex) && usedBytes == old(usedBytes) + txUsedBytes && writeOffset == txWriteOffset
      ensures commitSequence == old(commitSequence) + 1 && totalRecords == (old(totalRecords) + added % WORD) % WORD
    {
      lastIndex := txLastIndex;
      usedBytes := usedBytes + txUsedBytes;
      writeOffset := txWriteOffset;
      commitSequence := commitSequence + 1;
      totalRecords := (totalRecords + added % WORD) % WORD;
    }

    lemma HeaderIsSettled(s: Log)
      requires log == Settled(s)
      requires s.start == startIndex && s.blockSize == blockSize
      requires s.updateable == updateable && s.writeState == writeState
      requires lastIndex == s.Limit() + |s.pending| && writeOffset == End(s.Records())
      requires usedBytes == Used(s.committed) + Used(s.pending) && commitSequence == s.commits + 1
      requires totalRecords == (s.total % WORD + |s.pending| % WORD) % WORD && deletedRecords == s.deleted % WORD
      ensures HeaderMatches()
    {
      SettlingSizes(s);
      WrapsTwice(s.total, |s.pending|);
    }

    lemma RestIsSettled(s: Log)
      requires log == Settled(s) && !inTransaction && transactionId == "" && deletes == []
      requires Layout(data[..], startIndex, s.committed + Published(s.pending, |s.pending|))
      ensures TransactionMatches() && StagedInRange() && Layout(data[..], startIndex, log.Records())
    {
      assert log.Records() == s.committed + Published(s.pending, |s.pending|);
    }

    method EndTransaction()
      modifies this`inTransaction, this`transactionId, this`txLastIndex, this`txWriteOffset, this`txUsedBytes
      ensures !inTransaction && transactionId == ""
    {
      inTransaction, transactionId, txLastIndex, txWriteOffset, txUsedBytes := false, "", 0, 0, 0;
    }

    /** Mark every staged record deleted, in the order they were staged. */
    method StrikeStaged()
      requires Valid() && inTransaction
      modifies this`deletedRecords, this`log, data
      ensures Valid()
      ensures log == StruckBy(old(log), old(log.staged))
    {
      ghost var s := log;
      var j := 0;
      while j < |deletes|
        invariant Valid()
        invariant 0 <= j <= |s.staged|
        invariant log == StruckBy(s, s.staged[..j])
      {
        assert deletes[j] in log.staged;
        StruckOneMore(s, s.staged[..j], deletes[j]);
        assert s.staged[..j + 1] == s.staged[..j] + [deletes[j]];
        StrikeOne(deletes[j]);
        j := j + 1;
      }
      assert s.staged[..j] == s.staged;
    }

    /** Find the record of a staged number and mark it; the checks made when it was staged still hold. */
    method StrikeOne(index: nat)
      requires Valid() && inTransaction && index in log.staged
      modifies this`deletedRecords, this`log, data
      ensures Valid()
      ensures log == StruckBy(old(log), [index])
    {
      var found := ReadRecord(index);
      MarkDeleted(index, found.value);
    }

    /** Carry out the staged deletes, then publish the pending records. */
    method Commit(tid: string) returns (r: Result<()>)
      requires Valid()
      modifies this, data
      ensures Valid()
      ensures match RecordLog.Commit(old(log), tid)
              case Ok(s) => log == s && r == Ok(())
              case Err(e) => log == old(log) && r == Err(e)
    {
      if !inTransaction || tid == "" || transactionId != tid {
        return Err(WrongTransaction);
      }
      StrikeStaged();
      Publish();
      return Ok(());
    }

    method Rollback(tid: string) returns (r: Result<()>)
      requires Valid()
      modifies this
      ensures Valid()
      ensures match RecordLog.Rollback(old(log), tid)
              case Ok(s) => log == s && r == Ok(())
              case Err(e) => log == old(log) && r == Err(e)
    {
      if !inTransaction || tid == "" || transactionId != tid {
        return Err(WrongTransaction);
      }
      deletes := [];
      EndTransaction();
      log := Abandoned(log);
      LayoutPrefix(data[..], startIndex, old(log).committed, old(log).pending);
      assert log.Records() == log.committed;
      return Ok(());
    }

    /** The record with a committed number: whether its state is the one wanted, and its payload. */
    method Fetch(index: nat, want: RecordState) returns (keep: bool, payload: seq<int>)
      requires Valid() && startIndex <= index < lastIndex
      ensures var rec := log.committed[index - startIndex]; keep == ScanKeeps(rec, want) && payload == rec.payload
    {
      var found := ReadRecord(index);
      var ptr := found.value;
      RecordIsPlaced(index - startIndex);
      keep := !((want == Deleted || want == Dirty) && data[ptr + STATE_AT] != Code(want));
      payload := data[ptr + HEADER_SIZE..ptr + HEADER_SIZE + data[ptr + SIZE_AT]];
    }

    /** Read up to `count` records from `index` on, by one scan for each. */
    method Read(index: nat, count: nat, into: seq<seq<int>>, want: RecordState) returns (r: Result<seq<seq<int>>>)
      requires Valid()
      ensures r == if want.Free? then Err(BadArgument)
                   else if index < startIndex then if count == 0 then Ok(into) else Err(OutOfRange)
                   else Ok(into + ScanRead(log.committed, want, index - startIndex, count))
    {
      if want.Free? {
        return Err(BadArgument);
      }
      if index < startIndex {
        if count == 0 {
          return Ok(into);
        }
        return Err(OutOfRange);  // the first look-up fails
      }
      ghost var goal := into + ScanRead(log.committed, want, index - startIndex, count);
      ScanStarts(log.committed, want, index - startIndex, count, into);
      var found := ReadOn(index, count, into, want, goal);
      return Ok(found);
    }

    /** One round of a read: the record of a number is appended if it is wanted. */
    method ReadNext(index: nat, want: RecordState, found: seq<seq<int>>, ghost left: nat, ghost goal: seq<seq<int>>)
      returns (data': seq<seq<int>>, keep: bool)
      requires Valid() && startIndex <= index < lastIndex && left > 0
      requires OnCourse(log.committed, want, index - startIndex, left, found, goal)
      ensures OnCourse(log.committed, want, index + 1 - startIndex, if keep then left - 1 else left, data', goal)
    {
      var payload;
      keep, payload := Fetch(index, want);
      data' := found;
      if keep {
        data' := found + [payload];
      }
      ScanStep(log.committed, want, index - startIndex, left, found, goal);
    }

    method ReadOn(index: nat, count: nat, into: seq<seq<int>>, want: RecordState, ghost goal: seq<seq<int>>)
      returns (data': seq<seq<int>>)
      requires Valid() && startIndex <= index && OnCourse(log.committed, want, index - startIndex, count, into, goal)
      ensures data' == goal
    {
      ghost var c := log.committed;
      data' := into;
      var current, fetched := index, 0;
      while current < lastIndex && fetched < count
        invariant index <= current && fetched <= count
        invariant OnCourse(c, want, current - startIndex, count - fetched, data', goal)
        decreases lastIndex - current
      {
        var keep;
        data', keep := ReadNext(current, want, data', count - fetched, goal);
        current := current + 1;
        if keep {
          fetched := fetched + 1;
        }
      }
      ScanEnds(c, want, current - startIndex, count - fetched, data', goal);
    }

    /** Recount the records.  The loop counter has 32 bits, the header's indexes have more. */
    method CheckSanity() returns (r: Result<(nat, nat, nat)>)
      requires Valid()
      requires startIndex == 0 ==> lastIndex < WORD  // otherwise the counter wraps for ever
      ensures r.Ok? <==> Sane(log) && lastIndex < WORD
      ensures r.Ok? ==> r.value == (commitSequence, lastIndex, startIndex)
    {
      var counted := Recount();
      if counted.Err? {
        return Err(counted.error);
      }
      if counted.value.0 != totalRecords || counted.value.1 != deletedRecords {
        return Err(SanityFailed);
      }
      return Ok((commitSequence, lastIndex, startIndex));
    }

    /** Whether the record with a number is not readable. */
    method IsDead(index: nat) returns (r: Result<bool>)
      requires Valid() && index < lastIndex
      ensures r.Ok? <==> startIndex <= index
      ensures r.Ok? ==> r.value == !log.committed[index - startIndex].state.Readable?
    {
      var found := ReadRecord(index);
      if found.Err? {
        return Err(found.error);
      }
      RecordIsPlaced(index - startIndex);
      return Ok(data[found.value + STATE_AT] != Code(Readable));
    }

    /** Count the records, and those that are not readable. */
    method Recount() returns (r: Result<(nat, nat)>)
      requires Valid()
      requires startIndex == 0 ==> lastIndex < WORD
      ensures r.Ok? <==> lastIndex < WORD
      ensures r.Ok? ==> r.value == (|log.committed|, Dead(log.committed, |log.committed|))
    {
      var total, dead := 0, 0;
      var ii := startIndex % WORD;
      while ii < lastIndex
        invariant 0 <= ii < WORD
        invariant startIndex <= ii ==> ii <= lastIndex && total == ii - startIndex && dead == Dead(log.committed, total)
        invariant ii < startIndex ==> lastIndex >= WORD
        decreases if startIndex <= ii then WORD - ii else 0
      {
        var isDead := IsDead(ii);
        if isDead.Err? {
          return Err(isDead.error);
        }
        if isDead.value {
          dead := dead + 1;
        }
        total := total + 1;
        ii := (ii + 1) % WORD;
      }
      return Ok((total, dead));
    }

    /** Close the block for writes; deletes are still allowed. */
    method Finish()
      requires Valid()
      modifies this`writeState, this`log
      ensures Valid() && log == RecordLog.Finish(old(log))
    {
      writeState := Updateable;
      log := RecordLog.Finish(log);
    }

    /** Close the block for writes and deletes. */
    method Archive()
      requires Valid()
      modifies this`writeState, this`log
      ensures Valid() && log == RecordLog.Archive(old(log))
    {
      writeState := Closed;
      log := RecordLog.Archive(log);
    }
  }
}
