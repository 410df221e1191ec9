/** The index file of a block: a mapped region that holds the abstract index of `RecordIndex`. */
module BlockIndexes {
  import opened Outcomes
  import opened Words
  import opened RecordIndex

  class BlockIndex {
    const data: array<int>
    const startIndex: nat
    const totalSize: nat

    // the index header
    var lastIndex: nat
    var usedSize: nat
    var writeOffset: nat

    // the open transaction
    var inTransaction: bool
    var transactionId: string
    var txLastIndex: nat
    var txStartOffset: nat
    var txWriteOffset: nat
    var txUsedSize: nat
    var deletes: seq<nat>

    /** The abstract index this file holds. */
    ghost var index: Index

    ghost predicate HeaderMatches()
      reads this
    {
      && index.start == startIndex && index.totalSize == totalSize && data.Length == totalSize
      && lastIndex == LastNumber(startIndex, index.committed)
      && writeOffset == usedSize == ENTRY_SIZE * |index.committed|
    }

    ghost predicate TransactionMatches()
      reads this
    {
      && deletes == index.staged
      && inTransaction == index.txn.Some?
      && (inTransaction ==>
        && index.txn == Some(transactionId)
        && txLastIndex == LastNumber(startIndex, index.Entries())
        && txStartOffset == writeOffset
        && txWriteOffset == ENTRY_SIZE * |index.Entries()|
        && txUsedSize == ENTRY_SIZE * |index.pending|)
      && (!inTransaction ==> transactionId == "" && index.pending == [] && index.staged == [])
    }

    ghost predicate InRegion(number: nat)
      reads this
    {
      startIndex <= number && ENTRY_SIZE * (number - startIndex) + ENTRY_SIZE <= data.Length
    }

    /** The cell at the place of a number carries that number. */
    ghost predicate Numbered(number: nat)
      reads this, data
    {
      InRegion(number) && data[ENTRY_SIZE * (number - startIndex) + NUMBER_AT] == number
    }

    ghost predicate Valid()
      reads this, data
    {
      && HeaderMatches()
      && TransactionMatches()
      && Table(data[..], index.Entries())
      && InTurn(startIndex, index.Entries())
      && (forall e <- index.pending :: e.state.Written?)
      && (forall i <- index.staged :: i <= lastIndex && Numbered(i))
    }

    /** An index file just created, zero-filled, for an estimated number of records. */
    constructor (estimated: nat, startIndex: nat)
      ensures Valid() && fresh(data)
      ensures index == Fresh(startIndex, estimated * ENTRY_SIZE)
      ensures forall i :: 0 <= i < data.Length ==> data[i] == 0
    {
      this.startIndex, totalSize := startIndex, estimated * ENTRY_SIZE;
      data := new int[estimated * ENTRY_SIZE](_ => 0);
      lastIndex, usedSize, writeOffset := startIndex, 0, 0;
      inTransaction, transactionId, txLastIndex, txStartOffset, txWriteOffset, txUsedSize := false, "", 0, 0, 0, 0;
      deletes := [];
      index := Fresh(startIndex, estimated * ENTRY_SIZE);
    }

    method StartTransaction(tid: string)
      requires Valid()
      modifies this
      ensures Valid() && index == Start(old(index), tid)
    {
      inTransaction, transactionId := true, tid;
      txLastIndex, txStartOffset, txWriteOffset, txUsedSize := lastIndex, writeOffset, writeOffset, 0;
      deletes := [];
      index := Start(index, tid);
      TablePrefix(data[..], old(index).committed, old(index).pending);
      InTurnPrefix(startIndex, old(index).committed, old(index).pending);
      assert index.Entries() == index.committed;
    }

    method GetFreeSpace() returns (space: nat)
      requires Valid()
      ensures space == FreeSpace(index)
    {
      if inTransaction {
        return (totalSize - (usedSize + txUsedSize + INDEX_HEADER_SIZE)) % DOUBLE_WORD;
      }
      return (totalSize - (usedSize + INDEX_HEADER_SIZE)) % DOUBLE_WORD;
    }

    /** Append an entry to the open transaction.  The source also takes the start number again, and the one after
        it on an empty index, and does not check the entry against the region; a caller does not rely on that. */
    method WriteEntry(number: nat, offset: nat, size: nat, tid: string) returns (r: Result<()>)
      requires Valid()
      requires Write(index, number, offset, size, tid).Ok? ==>
                 number == startIndex + |index.Entries()| && ENTRY_SIZE * |index.Entries()| + ENTRY_SIZE <= data.Length
      modifies this, data
      ensures Valid()
      ensures match Write(old(index), number, offset, size, tid)
              case Ok(s) => index == s && r == Ok(())
              case Err(e) => index == old(index) && r == Err(e)
    {
      var space := GetFreeSpace();
      if space < ENTRY_SIZE {
        return Err(NoSpace);
      }
      if !inTransaction || tid == "" || transactionId != tid {
        return Err(WrongTransaction);
      }
      if number != startIndex && number != txLastIndex + 1 {
        return Err(BadArgument);
      }
      AppendEntry(number, offset, size);
      return Ok(());
    }

    /** Store an entry behind the pending ones. */
    method AppendEntry(number: nat, offset: nat, size: nat)
      requires Valid() && inTransaction && number == startIndex + |index.Entries()|
      requires ENTRY_SIZE * |index.Entries()| + ENTRY_SIZE <= data.Length
      modifies this`txLastIndex, this`txUsedSize, this`txWriteOffset, this`index, data
      ensures Valid()
      ensures index == old(index).(pending := old(index).pending + [Entry(number, offset, size, Written)])
    {
      ghost var before, es := data[..], index.Entries();
      ghost var e := Entry(number, offset, size, Written);
      StoreEntry(txWriteOffset, number, offset, size);
      TableAppend(before, data[..], es, e);
      txLastIndex := number;
      txUsedSize := txUsedSize + ENTRY_SIZE;
      txWriteOffset := txWriteOffset + ENTRY_SIZE;
      index := index.(pending := index.pending + [e]);
      assert index.Entries() == es + [e];
    }

    method StoreEntry(at: nat, number: nat, offset: nat, size: nat)
      requires at + ENTRY_SIZE <= data.Length
      modifies data
      ensures data[at + NUMBER_AT] == number && data[at + STATE_AT] == Code(Written)
      ensures data[at + OFFSET_AT] == offset && data[at + SIZE_AT] == size
      ensures forall i :: 0 <= i < data.Length && !(at <= i < at + ENTRY_SIZE) ==> data[i] == old(data[i])
    {
      forall i | at <= i < at + ENTRY_SIZE { data[i] := 0; }
      data[at + NUMBER_AT] := number;
      data[at + OFFSET_AT] := offset;
      data[at + SIZE_AT] := size;
      data[at + STATE_AT] := Code(Written);
    }

    /** The entry at the place of a committed number. */
    lemma EntryIsStored(k: nat)
      requires Valid() && k < |index.Entries()|
      ensures Stored(data[..], index.Entries(), k)
      ensures index.Entries()[k].number == startIndex + k && Numbered(startIndex + k)
    {
    }

    /** Address an entry directly.  The range test admits the start number of an empty index, for which the
        bytes left in the region decide. */
    method ReadEntry(number: nat, all: bool) returns (r: Result<Option<nat>>)
      requires Valid()
      requires startIndex <= number <= lastIndex ==> InRegion(number)
      ensures r.Ok? <==> startIndex <= number <= lastIndex && Numbered(number)
      ensures r.Err? ==> r == Err(if startIndex <= number <= lastIndex then Mismatch else OutOfRange)
      ensures r.Ok? ==> var at := ENTRY_SIZE * (number - startIndex);
                r.value == if all || data[at + STATE_AT] == Code(Live) then Some(at) else None
    {
      if !(startIndex <= number <= lastIndex) {
        return Err(OutOfRange);
      }
      var at := (number - startIndex) * ENTRY_SIZE;
      if data[at + NUMBER_AT] != number {
        return Err(Mismatch);
      }
      if !all && data[at + STATE_AT] != Code(Live) {
        return Ok(None);
      }
      return Ok(Some(at));
    }

    /** Stage the deletion of an entry that has just been read. */
    method DeleteEntry(number: nat, tid: string) returns (r: Result<()>)
      requires Valid()
      requires startIndex <= number <= lastIndex && InRegion(number)
      modifies this`deletes, this`index
      ensures Valid()
      ensures if Holds(old(index), tid) && Numbered(number)
              then r == Ok(()) && index == old(index).(staged := old(index).staged + [number])
              else r.Err? && index == old(index)
    {
      if !inTransaction || tid == "" || transactionId != tid {
        return Err(WrongTransaction);
      }
      if data[(number - startIndex) * ENTRY_SIZE + NUMBER_AT] != number {
        return Err(Mismatch);
      }
      deletes := deletes + [number];
      index := index.(staged := index.staged + [number]);
      return Ok(());
    }

    method Rollback(tid: string) returns (r: Result<()>)
      requires Valid()
      modifies this
      ensures Valid()
      ensures if old(index).txn == Some(tid) then r == Ok(()) && index == Abandoned(old(index))
              else r.Err? && index == old(index)
    {
      if !inTransaction || transactionId != tid {
        return Err(WrongTransaction);
      }
      EndTransaction();
      index := Abandoned(index);
      TablePrefix(data[..], old(index).committed, old(index).pending);
      InTurnPrefix(startIndex, old(index).committed, old(index).pending);
      assert index.Entries() == index.committed;
      return Ok(());
    }

    method EndTransaction()
      modifies this`inTransaction, this`transactionId, this`txLastIndex, this`txStartOffset, this`txWriteOffset,
               this`txUsedSize, this`deletes
      ensures !inTransaction && transactionId == "" && deletes == []
    {
      inTransaction, transactionId := false, "";
      txLastIndex, txStartOffset, txWriteOffset, txUsedSize := 0, 0, 0, 0;
      deletes := [];
    }

    /** Walk the pending entries and make each live.  None can be found already committed. */
    method PublishEntries()
      requires Valid() && inTransaction
      modifies data
      ensures Table(data[..], index.committed + Published(index.pending, |index.pending|))
      ensures forall i :: 0 <= i < data.Length && i % ENTRY_SIZE != STATE_AT ==> data[i] == old(data[i])
    {
      ghost var c, p := index.committed, index.pending;
      ghost var done := 0;
      assert c + Published(p, 0) == index.Entries();
      var offset := txStartOffset;
      while offset < txWriteOffset
        modifies data
        invariant done <= |p| && offset == ENTRY_SIZE * (|c| + done)
        invariant Table(data[..], c + Published(p, done))
        invariant forall i :: 0 <= i < data.Length && i % ENTRY_SIZE != STATE_AT ==> data[i] == old(data[i])
        decreases |p| - done
      {
        ghost var now := c + Published(p, done);
        assert Stored(data[..], now, |c| + done) && now[|c| + done] == p[done];
        PublishEntry(offset, now, |c| + done);
        assert now[|c| + done := now[|c| + done].(state := Live)] == c + Published(p, done + 1);
        offset := offset + ENTRY_SIZE;
        done := done + 1;
      }
    }

    method PublishEntry(offset: nat, ghost now: seq<Entry>, ghost k: nat)
      requires Table(data[..], now) && k < |now| && offset == ENTRY_SIZE * k && offset + ENTRY_SIZE <= data.Length
      requires data[offset + STATE_AT] == Code(Written)  // otherwise the source throws
      modifies data
      ensures Table(data[..], now[k := now[k].(state := Live)])
      ensures forall i :: 0 <= i < data.Length && i != offset + STATE_AT ==> data[i] == old(data[i])
    {
      ghost var before := data[..];
      data[offset + STATE_AT] := Code(Live);
      TableSetState(before, now, k, Live);
      assert data[..] == before[offset + STATE_AT := Code(Live)];
    }

    /** Make pending entries live, move the header past them, then carry out the staged deletes. */
    method Commit(tid: string) returns (r: Result<()>)
      requires Valid()
      modifies this, data
      ensures Valid()
      ensures match RecordIndex.Commit(old(index), tid)
              case Ok(s) => index == s && r == Ok(())
              case Err(e) => index == old(index) && r == Err(e)
      ensures forall i :: 0 <= i < data.Length && i % ENTRY_SIZE != STATE_AT ==> data[i] == old(data[i])
    {
      if !inTransaction || transactionId != tid {
        return Err(WrongTransaction);
      }
      PublishEntries();
      ghost var es := index.committed + Published(index.pending, |index.pending|);
      MoveHeader();
      InTurnPrefix(startIndex, index.committed, index.pending);
      SettlingKeepsTurn(index);
      forall i <- deletes ensures Numbered(i) {
        assert old(Numbered(i)) && (ENTRY_SIZE * (i - startIndex) + NUMBER_AT) % ENTRY_SIZE == 0;
      }
      StrikeEntries(es);
      EndTransaction();
      index := Settled(index);
      assert index.Entries() == index.committed;
      return Ok(());
    }

    method MoveHeader()
      modifies this`lastIndex, this`usedSize, this`writeOffset
      ensures lastIndex == txLastIndex && usedSize == old(usedSize) + txUsedSize && writeOffset == txWriteOffset
    {
      lastIndex := txLastIndex;
      usedSize := usedSize + txUsedSize;
      writeOffset := txWriteOffset;
    }

    /** Mark the entry of every staged number gone. */
    method StrikeEntries(ghost es: seq<Entry>)
      requires Table(data[..], es)
      requires forall i <- deletes :: i <= lastIndex && Numbered(i)
      modifies data
      ensures Table(data[..], RecordIndex.Marked(es, startIndex, deletes))
      ensures forall i :: 0 <= i < data.Length && i % ENTRY_SIZE != STATE_AT ==> data[i] == old(data[i])
    {
      var j := 0;
      assert RecordIndex.Marked(es, startIndex, deletes[..0]) == es;
      while j < |deletes|
        modifies data
        invariant 0 <= j <= |deletes|
        invariant forall i <- deletes :: i <= lastIndex && Numbered(i)
        invariant Table(data[..], RecordIndex.Marked(es, startIndex, deletes[..j]))
        invariant forall i :: 0 <= i < data.Length && i % ENTRY_SIZE != STATE_AT ==> data[i] == old(data[i])
      {
        assert deletes[j] in deletes;
        StruckOneMore(es, startIndex, deletes[..j], deletes[j]);
        assert deletes[..j + 1] == deletes[..j] + [deletes[j]];
        label before:
        StrikeEntry(deletes[j], RecordIndex.Marked(es, startIndex, deletes[..j]));
        forall i <- deletes ensures Numbered(i) {
          assert old@before(Numbered(i)) && (ENTRY_SIZE * (i - startIndex) + NUMBER_AT) % ENTRY_SIZE == 0;
        }
        j := j + 1;
      }
      assert deletes[..j] == deletes;
    }

    method StrikeEntry(number: nat, ghost now: seq<Entry>)
      requires Table(data[..], now)
      requires number <= lastIndex && Numbered(number)  // otherwise the source throws
      modifies data
      ensures var k := number - startIndex;
              Table(data[..], if k < |now| then now[k := now[k].(state := Gone)] else now)
      ensures forall i :: 0 <= i < data.Length && i % ENTRY_SIZE != STATE_AT ==> data[i] == old(data[i])
    {
      ghost var before := data[..];
      var at := (number - startIndex) * ENTRY_SIZE;
      data[at + STATE_AT] := Code(Gone);
      TableSetState(before, now, number - startIndex, Gone);
      assert data[..] == before[at + STATE_AT := Code(Gone)];
    }
  }
}
