/** The indexed record block: a plain block and its index file driven in lock step. */
module IndexedBlocks {
  import opened Outcomes
  import opened Words
  import opened IndexedLog
  import opened BaseBlocks
  import opened BlockIndexes
  import L = RecordLog
  import M = RecordLayout
  import X = RecordIndex

  class IndexedBlock {
    const block: BaseBlock
    const index: BlockIndex

    ghost function State(): Pair
      reads block, index
    {
      Pair(block.log, index.index)
    }

    /** The bytes left at the start of both regions look like a record and its entry. */
    ghost predicate TailAgrees()
      reads this, block, block.data, index, index.data
    {
      && block.data.Length >= L.HEADER_SIZE
      && index.Numbered(index.startIndex)
      && block.HeaderAgrees(index.startIndex, 0, index.data[X.SIZE_AT])
    }

    ghost predicate TailLooksValid()
      reads this, block, block.data, index, index.data
    {
      TailAgrees() && block.data[M.STATE_AT] in {M.Code(L.Readable), M.Code(L.Dirty)}
    }

    ghost predicate Valid()
      reads this, block, block.data, index, index.data
    {
      && block.Valid() && index.Valid()
      && block.data != index.data
      && block.data.Length >= L.HEADER_SIZE
      && Aligned(State())
      && index.data[X.OFFSET_AT] == 0
      && (index.index.Entries() == [] && index.index.staged != [] ==> TailAgrees())
    }

    /** A new indexed block, with an index sized by the estimated length of a record. */
    constructor (blockSize: nat, startIndex: nat, updateable: bool, recordSize: nat)
      requires recordSize > 0 && 5 <= blockSize / recordSize < WORD
      requires blockSize >= L.HEADER_SIZE
      ensures Valid()
      ensures State() == Fresh(startIndex, blockSize, updateable, blockSize / recordSize)
      ensures fresh(block) && fresh(index) && fresh(block.data) && fresh(index.data)
    {
      var estimated := blockSize / recordSize;
      assert blockSize * 110 / 100 >= L.HEADER_SIZE && estimated * X.ENTRY_SIZE > X.OFFSET_AT;
      block := new BaseBlock(blockSize, startIndex, updateable);
      index := new BlockIndex(estimated, startIndex);
      new;
      FreshIsAligned(startIndex, blockSize, updateable, estimated);
    }

    method StartTransaction(tid: string) returns (r: Result<string>)
      requires Valid()
      modifies block, index
      ensures Valid()
      ensures match Start(old(State()), tid)
              case Ok(p) => State() == p && r == Ok(p.log.txn.value)
              case Err(e) => State() == old(State()) && r == Err(e)
    {
      r := block.StartTransaction(tid);
      if r.Ok? {
        StartKeepsAligned(old(State()), tid);
        index.StartTransaction(r.value);
      }
    }

    /** Append a record, then its entry.  As in the block, a caller sees to it that the record stays inside
        the mapped region; that the entry does is proved here. */
    method WriteRecord(source: seq<int>, now: int, tid: string) returns (r: Result<nat>)
      requires Valid()
      requires L.Write(block.log, source, tid).Ok? ==>
                 L.End(block.log.Records()) + L.HEADER_SIZE + |source| <= block.data.Length
      modifies block, block.data, index, index.data
      ensures Valid()
      ensures (State(), r) == Write(old(State()), source, tid)
    {
      ghost var p := State();
      var offset := block.txWriteOffset;
      var written := block.WriteRecord(source, now, tid);
      if written.Err? {
        return written;
      }
      r := EnterRecord(written.value, offset, source, tid, p);
      WriteKeepsAligned(p, source, tid);
      FirstOffsetIsZero();
    }

    /** Give the index the entry for a record that has just been written. */
    method EnterRecord(number: nat, offset: nat, source: seq<int>, tid: string, ghost p: Pair) returns (r: Result<nat>)
      requires index.Valid() && index.index == p.index && Aligned(p)
      requires L.Write(p.log, source, tid) == Ok(block.log)
      requires number == NextNumber(p) && offset == L.End(p.log.Records())
      modifies index, index.data
      ensures index.Valid()
      ensures Write(p, source, tid) == (Pair(block.log, index.index), r)
      ensures index.index.Entries() != []
    {
      EntryHasRoom(p);
      WriteKeepsAligned(p, source, tid);
      var entered := index.WriteEntry(number, offset, |source|, tid);
      r := if entered.Err? then Err(entered.error) else Ok(number);
    }

    /** The first entry, if there is one, points at offset zero. */
    lemma FirstOffsetIsZero()
      requires index.Valid() && Aligned(State())
      ensures index.index.Entries() != [] ==> index.data.Length > X.OFFSET_AT && index.data[X.OFFSET_AT] == 0
    {
      if index.index.Entries() != [] {
        index.EntryIsStored(0);
        assert LinkedAt(index.index.Entries(), block.log.Records(), 0);
      }
    }

    /** The place of a number that passes the index's range test lies in its region, and the entry there,
        if there is one, points at the record with that number. */
    lemma PlaceOf(number: nat)
      requires block.Valid() && index.Valid() && Aligned(State())
      requires index.startIndex <= number <= index.lastIndex
      ensures index.InRegion(number) && number <= block.lastIndex
      ensures var k := number - index.startIndex;
              if k < |index.index.Entries()| then
                && index.Numbered(number)
                && k < |block.log.Records()|
                && index.data[X.ENTRY_SIZE * k + X.OFFSET_AT] == L.Offset(block.log.Records(), k)
                && index.data[X.ENTRY_SIZE * k + X.SIZE_AT] == |block.log.Records()[k].payload|
                && index.data[X.ENTRY_SIZE * k + X.STATE_AT] == X.Code(index.index.Entries()[k].state)
                && M.RecordAt(block.data[..], L.Offset(block.log.Records(), k), number, block.log.Records()[k])
              else
                k == 0 && index.index.Entries() == [] && block.log.Records() == []
    {
      X.InTurnPrefix(index.startIndex, index.index.committed, index.index.pending);
      var k := number - index.startIndex;
      if k < |index.index.Entries()| {
        index.EntryIsStored(k);
        block.RecordIsPlaced(k);
        assert LinkedAt(index.index.Entries(), block.log.Records(), k);
      }
    }

    /** The entry of a committed number and the record it leads to.  A number that has a record but no entry is
        out of the index's range. */
    lemma EntryOf(number: nat)
      requires Valid() && index.startIndex <= number < block.lastIndex
      ensures number <= index.lastIndex <==> number - index.startIndex < |index.index.committed|
      ensures number <= index.lastIndex ==>
                var k := number - index.startIndex;
                var off := L.Offset(block.log.Records(), k);
                && index.Numbered(number)
                && index.data[X.ENTRY_SIZE * k + X.OFFSET_AT] == off
                && index.data[X.ENTRY_SIZE * k + X.SIZE_AT] == |block.log.committed[k].payload|
                && index.data[X.ENTRY_SIZE * k + X.STATE_AT] == X.Code(index.index.committed[k].state)
                && M.RecordAt(block.data[..], off, number, block.log.committed[k])
    {
      X.InTurnPrefix(index.startIndex, index.index.committed, index.index.pending);
      if index.index.committed == [] {
        EmptyMeansEmpty(State());
      }
      if number <= index.lastIndex {
        PlaceOf(number);
        assert block.log.Records()[number - index.startIndex] == block.log.committed[number - index.startIndex];
      }
    }

    /** For every committed number the direct look-up and the linear scan arrive at the same record: the
        entry's offset is where the scan ends, its size is the record's, and when the two files agree the
        entry is live exactly when the record is readable. */
    lemma LookupAgreesWithScan(number: nat)
      requires Valid()
      requires index.startIndex <= number < index.startIndex + |index.index.committed|
      ensures index.InRegion(number)
      ensures var at := X.ENTRY_SIZE * (number - index.startIndex);
              var off := index.data[at + X.OFFSET_AT];
              && off == M.Scan(block.data[..], 0, block.startIndex, number)
              && 0 <= off && off + L.HEADER_SIZE <= block.data.Length
              && block.HeaderAgrees(number, off, index.data[at + X.SIZE_AT])
              && (Agree(State()) ==>
                  (index.data[at + X.STATE_AT] == X.Code(X.Live) <==>
                   block.data[off + M.STATE_AT] == M.Code(L.Readable)))
    {
      var k := number - index.startIndex;
      X.InTurnPrefix(index.startIndex, index.index.committed, index.index.pending);
      EntryOf(number);
      assert M.Scan(block.data[..], 0, block.startIndex, number) == L.Offset(block.log.Records(), k) by {
        M.ScanFindsOffset(block.data[..], block.startIndex, block.log.Records(), 0, k);
      }
    }

    /** Find a record through its entry, and check that the header there agrees with the entry. */
    method LookUp(number: nat) returns (r: Result<nat>)
      requires block.Valid() && index.Valid() && Aligned(State())
      requires index.data[X.OFFSET_AT] == 0 && block.data.Length >= L.HEADER_SIZE
      ensures r.Ok? <==>
                index.startIndex <= number <= index.lastIndex
                && (number - index.startIndex < |index.index.Entries()| || TailAgrees())
      ensures r.Err? && !(index.startIndex <= number <= index.lastIndex) ==> r == Err(OutOfRange)
      ensures r.Ok? ==> Found(number, r.value)
    {
      assert index.startIndex <= number <= index.lastIndex ==> index.InRegion(number) by {
        if index.startIndex <= number <= index.lastIndex {
          PlaceOf(number);
        }
      }
      var entry := index.ReadEntry(number, true);
      if entry.Err? {
        NumberedOrTail(number);
        return Err(entry.error);
      }
      var at := entry.value.value;
      EntryLeads(number);
      r := block.ReadRecordAt(number, index.data[at + X.OFFSET_AT], index.data[at + X.SIZE_AT]);
    }

    /** A number in range that is not stored at its place has no entry. */
    lemma NumberedOrTail(number: nat)
      requires block.Valid() && index.Valid() && Aligned(State())
      requires !(index.startIndex <= number <= index.lastIndex && index.InRegion(number) && index.Numbered(number))
      ensures !(index.startIndex <= number <= index.lastIndex
                && (number - index.startIndex < |index.index.Entries()| || TailAgrees()))
    {
      if index.startIndex <= number <= index.lastIndex {
        PlaceOf(number);
      }
    }

    /** Where a stored number's entry leads. */
    lemma EntryLeads(number: nat)
      requires block.Valid() && index.Valid() && Aligned(State())
      requires index.data[X.OFFSET_AT] == 0 && block.data.Length >= L.HEADER_SIZE
      requires index.startIndex <= number <= index.lastIndex && index.Numbered(number)
      ensures block.startIndex <= number <= block.lastIndex
      ensures var at := X.ENTRY_SIZE * (number - index.startIndex);
              var off, size := index.data[at + X.OFFSET_AT], index.data[at + X.SIZE_AT];
              && 0 <= off && off + L.HEADER_SIZE <= block.data.Length
              && (block.HeaderAgrees(number, off, size) <==>
                  number - index.startIndex < |index.index.Entries()| || TailAgrees())
              && (block.HeaderAgrees(number, off, size) ==> Found(number, off))
    {
      PlaceOf(number);
    }

    /** What a look-up that succeeds has found. */
    ghost predicate Found(number: nat, ptr: nat)
      reads this, block, block.data, index, index.data
    {
      && index.Numbered(number)
      && block.startIndex == index.startIndex <= number <= block.lastIndex
      && number - index.startIndex <= |block.log.Records()|
      && ptr == L.Offset(block.log.Records(), number - index.startIndex)
      && ptr + L.HEADER_SIZE <= block.data.Length
      && block.data[ptr + M.INDEX_AT] == number
      && (if number - index.startIndex < |index.index.Entries()|
          then number - index.startIndex < |block.log.Records()|
            && block.data[ptr + M.STATE_AT] == M.Code(block.log.Records()[number - index.startIndex].state)
          else ptr == 0)
    }

    method DeleteRecord(number: nat, tid: string) returns (r: Result<()>)
      requires Valid()
      modifies index`deletes, index`index
      ensures Valid()
      ensures match Delete(old(State()), number, tid, old(TailLooksValid()))
              case Ok(p) => State() == p && r == Ok(())
              case Err(e) => State() == old(State()) && r.Err?
    {
      if !(block.updateable && block.writeState == L.Writable) {
        return Err(NotWriteable);
      }
      if !block.inTransaction || tid == "" || block.transactionId != tid {
        return Err(WrongTransaction);
      }
      if !(block.startIndex <= number <= block.txLastIndex) {
        return Err(OutOfRange);
      }
      r := CheckDeletable(number);
      if r.Ok? {
        assert Aligned(Pair(block.log, index.index.(staged := index.index.staged + [number]))) by {
          StagingKeepsAligned(State(), number);
        }
        r := index.DeleteEntry(number, tid);
      }
    }

    /** Look a record up and check that its state lets it be deleted. */
    method CheckDeletable(number: nat) returns (r: Result<()>)
      requires Valid() && number >= index.startIndex
      ensures r.Ok? <==> number <= index.lastIndex && Deletable(State(), number, TailLooksValid())
      ensures !(number <= index.lastIndex) ==> r == Err(OutOfRange)
      ensures r.Ok? ==> index.Numbered(number) && (index.index.Entries() == [] ==> TailAgrees())
    {
      var found := LookUp(number);
      if found.Err? {
        return Err(found.error);
      }
      StateDecides(number, found.value);
      var state := block.data[found.value + M.STATE_AT];
      if state != M.Code(L.Readable) && state != M.Code(L.Dirty) {
        return Err(BadState);
      }
      return Ok(());
    }

    /** The state stored in the header found decides whether a record can be deleted. */
    lemma StateDecides(number: nat, ptr: nat)
      requires Valid() && Found(number, ptr)
      requires number - index.startIndex < |index.index.Entries()| || TailAgrees()
      ensures Deletable(State(), number, TailLooksValid()) <==>
                block.data[ptr + M.STATE_AT] in {M.Code(L.Readable), M.Code(L.Dirty)}
    {
    }

    method Rollback(tid: string) returns (r: Result<()>)
      requires Valid()
      modifies block, index
      ensures Valid()
      ensures match IndexedLog.Rollback(old(State()), tid)
              case Ok(p) => State() == p && r == Ok(())
              case Err(e) => State() == old(State()) && r == Err(e)
    {
      if !block.inTransaction || tid == "" || block.transactionId != tid {
        return Err(WrongTransaction);
      }
      AbandoningKeepsAligned(State());
      var i := index.Rollback(tid);
      r := block.Rollback(tid);
    }

    /** What holds while the staged deletes are carried out. */
    ghost predicate Striking()
      reads this, block, block.data, index, index.data
    {
      && block.Valid() && index.Valid() && block.data != index.data && Aligned(State())
      && index.data[X.OFFSET_AT] == 0 && block.data.Length >= L.HEADER_SIZE
      && (index.index.Entries() == [] && index.index.staged != [] ==> TailAgrees())
    }

    /** Mark the record of every delete the index has staged. */
    method StrikeStaged()
      requires Striking()
      modifies block`deletedRecords, block`log, block.data
      ensures Striking()
      ensures block.log == L.StruckBy(old(block.log), index.index.staged)
    {
      ghost var s, ds := block.log, index.index.staged;
      var j := 0;
      assert ds[..0] == [];
      while j < |index.deletes|
        modifies block`deletedRecords, block`log, block.data
        invariant 0 <= j <= |ds| && Striking()
        invariant block.log == L.StruckBy(s, ds[..j])
      {
        assert index.deletes[j] in ds;
        assert L.StruckBy(s, ds[..j + 1]) == L.StruckBy(block.log, [ds[j]]) by {
          assert ds[..j + 1] == ds[..j] + [ds[j]];
          L.StruckOneMore(s, ds[..j], ds[j]);
        }
        StrikeOne(index.deletes[j]);
        j := j + 1;
      }
      assert ds[..j] == ds;
    }

    method StrikeOne(number: nat)
      requires Striking() && number in index.index.staged
      modifies block`deletedRecords, block`log, block.data
      ensures Striking()
      ensures block.log == L.StruckBy(old(block.log), [number])
    {
      var ptr := FindStaged(number);
      assert Aligned(Pair(L.StruckBy(block.log, [number]), index.index)) by { StrikingKeepsAligned(State(), [number]); }
      block.MarkDeleted(number, ptr);
    }

    /** Look a staged number up: the checks made when it was staged still hold. */
    method FindStaged(number: nat) returns (ptr: nat)
      requires Striking() && number in index.index.staged
      ensures block.startIndex <= number <= block.lastIndex && (number == block.lastIndex ==> block.TailNumbered())
      ensures number - block.startIndex <= |block.log.Records()|
      ensures ptr == L.Offset(block.log.Records(), number - block.startIndex)
      ensures ptr + L.HEADER_SIZE <= block.data.Length
      ensures index.index.Entries() == [] ==> ptr == 0
    {
      PlaceOf(number);
      var found := LookUp(number);
      ptr := found.value;
      if number == block.lastIndex {
        NextIsNumbered(number, ptr);
      }
    }

    /** A look-up of the first uncommitted number has found the bytes right after the log. */
    lemma NextIsNumbered(number: nat, ptr: nat)
      requires block.Valid() && Found(number, ptr) && number == block.lastIndex
      ensures block.TailNumbered()
    {
      L.SizesDecideOffsets(block.log.Records(), block.log.committed, |block.log.committed|);
    }

    /** Mark the staged records deleted, commit the index, then publish the pending records. */
    method Commit(tid: string) returns (r: Result<()>)
      requires Valid()
      modifies block, block.data, index, index.data
      ensures Valid()
      ensures match IndexedLog.Commit(old(State()), tid)
              case Ok(p) => State() == p && r == Ok(())
              case Err(e) => State() == old(State()) && r == Err(e)
    {
      if !block.inTransaction || tid == "" || block.transactionId != tid {
        return Err(WrongTransaction);
      }
      assert Aligned(IndexedLog.Settled(State())) by { SettlingKeepsAligned(State()); }
      StrikeStaged();
      r := index.Commit(tid);
      block.Publish();
    }

    /** The entry of a committed number, read for a requested state: skipped or not, and the payload. */
    method Fetch(number: nat, want: L.RecordState) returns (r: Result<Option<seq<int>>>)
      requires Valid() && index.startIndex <= number < block.lastIndex
      ensures var k := number - index.startIndex;
              if k < |index.index.committed|
              then r == Ok(if IndexKeeps(State(), want, k) then Some(block.log.committed[k].payload) else None)
              else r == Err(OutOfRange)
    {
      EntryOf(number);
      var all := want == L.Deleted || want == L.Dirty || want == L.All;
      var entry := index.ReadEntry(number, all);
      if entry.Err? {
        return Err(entry.error);
      }
      if entry.value.None? {
        return Ok(None);
      }
      var at := entry.value.value;
      var found := block.ReadRecordAt(number, index.data[at + X.OFFSET_AT], index.data[at + X.SIZE_AT]);
      var ptr := found.value;
      if (want == L.Deleted || want == L.Dirty) && block.data[ptr + M.STATE_AT] != M.Code(want) {
        return Ok(None);
      }
      return Ok(Some(block.data[ptr + L.HEADER_SIZE..ptr + L.HEADER_SIZE + block.data[ptr + M.SIZE_AT]]));
    }

    /** Read up to `count` records from `number` on, each through its entry. */
    method Read(number: nat, count: nat, into: seq<seq<int>>, want: L.RecordState) returns (r: Result<seq<seq<int>>>)
      requires Valid()
      ensures r == if want.Free? then Err(BadArgument)
                   else if number < index.startIndex then if count == 0 then Ok(into) else Err(OutOfRange)
                   else ReadResult(State(), want, number - index.startIndex, count, into)
    {
      if want.Free? {
        return Err(BadArgument);
      }
      if number < index.startIndex {
        if count == 0 {
          return Ok(into);
        }
        return Err(OutOfRange);  // the first look-up fails
      }
      r := ReadOn(number, count, into, want, ReadResult(State(), want, number - index.startIndex, count, into));
    }

    /** One round of a read: the record of a number is appended if it is wanted. */
    method ReadNext(number: nat, want: L.RecordState, data: seq<seq<int>>, ghost left: nat,
                    ghost goal: Result<seq<seq<int>>>) returns (r: Result<(seq<seq<int>>, bool)>)
      requires Valid() && index.startIndex <= number < block.lastIndex && left > 0
      requires OnCourse(State(), want, number - index.startIndex, left, data, goal)
      ensures r.Err? ==> goal == Err(r.error)
      ensures r.Ok? ==>
                OnCourse(State(), want, number + 1 - index.startIndex, if r.value.1 then left - 1 else left,
                         r.value.0, goal)
    {
      ghost var p, k := State(), number - index.startIndex;
      var got := Fetch(number, want);
      if got.Err? {
        ReadEnds(p, want, k, left, data, goal);
        return Err(got.error);
      }
      ReadStep(p, want, k, left, data, goal);
      if got.value.Some? {
        return Ok((data + [got.value.value], true));
      }
      return Ok((data, false));
    }

    method ReadOn(number: nat, count: nat, into: seq<seq<int>>, want: L.RecordState,
                  ghost goal: Result<seq<seq<int>>>) returns (r: Result<seq<seq<int>>>)
      requires Valid() && index.startIndex <= number
      requires OnCourse(State(), want, number - index.startIndex, count, into, goal)
      ensures r == goal
    {
      ghost var p := State();
      var data', current, fetched := into, number, 0;
      while current < block.lastIndex && fetched < count
        invariant number <= current && fetched <= count
        invariant OnCourse(p, want, current - index.startIndex, count - fetched, data', goal)
        decreases block.lastIndex - current
      {
        var got := ReadNext(current, want, data', count - fetched, goal);
        if got.Err? {
          return Err(got.error);
        }
        current := current + 1;
        data' := got.value.0;
        if got.value.1 {
          fetched := fetched + 1;
        }
      }
      ReadEnds(p, want, current - index.startIndex, count - fetched, data', goal);
      return Ok(data');
    }

    /** Look at the entry of a number, and at its record when the entry is live. */
    method Inspect(number: nat) returns (r: Result<bool>)
      requires Valid() && number < block.lastIndex
      ensures var k := number - index.startIndex;
              if number >= index.startIndex && k < |index.index.committed|
              then r == Ok(index.index.committed[k].state.Live?) else r.Err?
    {
      if index.startIndex <= number {
        EntryOf(number);
      }
      var entry := index.ReadEntry(number, true);
      if entry.Err? {
        return Err(entry.error);
      }
      var at := entry.value.value;
      if index.data[at + X.STATE_AT] == X.Code(X.Live) {
        var found := block.ReadRecordAt(number, index.data[at + X.OFFSET_AT], index.data[at + X.SIZE_AT]);
        assert found.Ok?;
        return Ok(true);
      }
      return Ok(false);
    }

    /** Recount the records over the index. */
    method CheckSanity() returns (r: Result<(nat, nat, nat)>)
      requires Valid()
      requires block.startIndex == 0 ==> block.lastIndex < WORD  // otherwise the 32-bit counter wraps for ever
      ensures r.Ok? <==> Sane(State()) && block.lastIndex < WORD
      ensures r.Ok? ==> r.value == (block.commitSequence, block.lastIndex, block.startIndex)
    {
      var counted := Recount();
      if counted.Err? {
        return Err(counted.error);
      }
      if counted.value.0 != block.totalRecords || counted.value.1 != block.deletedRecords {
        return Err(SanityFailed);
      }
      return Ok((block.commitSequence, block.lastIndex, block.startIndex));
    }

    /** Count the records, and the entries that are not live. */
    method Recount() returns (r: Result<(nat, nat)>)
      requires Valid()
      requires block.startIndex == 0 ==> block.lastIndex < WORD
      ensures r.Ok? <==> CommittedInStep(State()) && block.lastIndex < WORD
      ensures r.Ok? ==> r.value == (|block.log.committed|, NotLive(index.index.committed, |index.index.committed|))
    {
      var total, dead := 0, 0;
      var ii := block.startIndex % WORD;
      while ii < block.lastIndex
        invariant 0 <= ii < WORD
        invariant block.startIndex <= ii ==>
                    ii <= block.lastIndex && total == ii - block.startIndex <= |index.index.committed|
                    && dead == NotLive(index.index.committed, total)
        invariant ii < block.startIndex ==> block.lastIndex >= WORD
        decreases if block.startIndex <= ii then WORD - ii else 0
      {
        var live := Inspect(ii);
        if live.Err? {
          return Err(live.error);
        }
        if !live.value {
          dead := dead + 1;
        }
        total := total + 1;
        ii := (ii + 1) % WORD;
      }
      return Ok((total, dead));
    }
  }
}
