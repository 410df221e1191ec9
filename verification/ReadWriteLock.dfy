/** The lock objects: the record shared by all processes, and each process's handle on it. */
module ReadWriteLocks {
  import opened Outcomes
  import opened LockProtocol

  /** The record of one lock in shared memory. */
  class SharedRecord {
    var writeLocked: bool
    var ownerPid: int
    var ownerThread: string
    var ownerTxn: string
    var ownerStamp: nat
    var readerCount: nat
    const readers: array<Slot>

    ghost function View(): Shared
      reads this, readers
    {
      Shared(writeLocked, ownerPid, ownerThread, ownerTxn, ownerStamp, readerCount, readers[..])
    }

    ghost predicate Valid()
      reads this, readers
    {
      readers.Length == MAX_READERS && Exclusive(View())
    }

    /** A cleared record. */
    constructor ()
      ensures Valid() && fresh(readers)
      ensures !writeLocked && readerCount == 0
    {
      writeLocked, ownerPid, ownerThread, ownerTxn, ownerStamp, readerCount := false, 0, "", "", 0, 0;
      readers := new Slot[MAX_READERS](_ => Slot(false, 0, "", 0));
      new;
      UsedBounds(readers[..], MAX_READERS);
    }

    /** Find and take the first free slot. */
    method FindFreeReader() returns (index: int)
      requires readers.Length == MAX_READERS
      modifies readers
      ensures var i := FirstFree(old(readers[..]), 0);
              if i == MAX_READERS then index == -1 && readers[..] == old(readers[..])
              else index == i && readers[..] == old(readers[..])[i := old(readers[i]).(used := true)]
    {
      for i := 0 to MAX_READERS
        invariant readers[..] == old(readers[..])
        invariant FirstFree(readers[..], 0) == FirstFree(readers[..], i)
      {
        if !readers[i].used {
          readers[i] := readers[i].(used := true);
          return i;
        }
      }
      return -1;
    }

    /** Take the write lock from a writer whose lease is over. */
    method ExpireWriter(over: bool)
      modifies this`writeLocked, this`ownerPid, this`ownerTxn, this`ownerStamp
      ensures View() == if over then WithoutWriter(old(View())) else old(View())
    {
      if over {
        ownerStamp, ownerPid, ownerTxn, writeLocked := 0, -1, "", false;
      }
    }

    /** Free a slot whose lease is over. */
    method ExpireSlot(i: nat, over: bool)
      requires i < readers.Length
      modifies readers
      ensures readers[..] == if over then old(readers[..])[i := old(readers[i]).(used := false)] else old(readers[..])
    {
      if over {
        readers[i] := readers[i].(used := false);
      }
    }

    /** The manager's sweep over this record, with the clock read anew for each slot. */
    method CheckLockState(now: nat, clock: seq<nat>)
      requires Valid()
      modifies this, readers
      ensures Valid()
      ensures readers.Length == MAX_READERS
      ensures old(View()).readers >= Losses(old(View()).slots, Clock(clock), _ => true, MAX_READERS)
      ensures View() == Sweep(old(View()), now, Clock(clock))
    {
      ghost var sh, c, slots := View(), Clock(clock), View().slots;
      ExpireWriter(writeLocked && Expired(now, ownerStamp, WRITE_TIMEOUT));
      SweepSlots(clock);
      SweepCounts(slots, c, _ => true, MAX_READERS);
    }

    /** The slots' part of the sweep, one decrement for each slot freed. */
    method SweepSlots(clock: seq<nat>)
      requires readers.Length == MAX_READERS && readerCount == Used(readers[..], MAX_READERS)
      modifies this`readerCount, readers
      ensures readers[..] == Swept(old(readers[..]), Clock(clock), _ => true)
      ensures readerCount == old(readerCount) - Losses(old(readers[..]), Clock(clock), _ => true, MAX_READERS)
    {
      ghost var c, slots := Clock(clock), readers[..];
      ghost var swept := Swept(slots, c, _ => true);
      SweepCounts(slots, c, _ => true, MAX_READERS);
      for i := 0 to MAX_READERS
        invariant forall j :: 0 <= j < MAX_READERS ==> readers[j] == if j < i then swept[j] else slots[j]
        invariant readerCount == old(readerCount) - Losses(slots, c, _ => true, i)
      {
        LossesBound(slots, c, i + 1);
        var reading := if i < |clock| then clock[i] else 0;
        var over := readers[i].used && Expired(reading, readers[0].stamp, READ_TIMEOUT);
        ExpireSlot(i, over);
        if over {
          readerCount := readerCount - 1;
        }
      }
      assert readers[..] == swept;
    }

    /** The manager's reset of this record: leases of dead processes end too, readers are counted afresh. */
    method Reset(now: nat, clock: seq<nat>, alive: set<int>)
      requires Valid()
      modifies this, readers
      ensures Valid()
      ensures View() == LockProtocol.Reset(old(View()), now, Clock(clock), pid => pid in alive)
    {
      SweepCounts(readers[..], Clock(clock), pid => pid in alive, MAX_READERS);
      ExpireWriter(writeLocked && (ownerPid !in alive || Expired(now, ownerStamp, WRITE_TIMEOUT)));
      var count := CountSlots(clock, alive);
      readerCount := count;
    }

    /** The slots' part of the reset: free them or count them. */
    method CountSlots(clock: seq<nat>, alive: set<int>) returns (count: nat)
      requires readers.Length == MAX_READERS
      modifies readers
      ensures readers[..] == Swept(old(readers[..]), Clock(clock), pid => pid in alive)
      ensures count == Used(readers[..], MAX_READERS)
    {
      ghost var slots := readers[..];
      ghost var swept := Swept(slots, Clock(clock), pid => pid in alive);
      count := 0;
      for i := 0 to MAX_READERS
        invariant forall j :: 0 <= j < MAX_READERS ==> readers[j] == if j < i then swept[j] else slots[j]
        invariant count == Used(swept, i)
      {
        var reading := if i < |clock| then clock[i] else 0;
        var used := readers[i].used;
        var over := used && (readers[i].pid !in alive || Expired(reading, readers[0].stamp, READ_TIMEOUT));
        ExpireSlot(i, over);
        if used && !over {
          count := count + 1;
        }
      }
      assert readers[..] == swept;
    }
  }

  /** One process's handle on a lock. */
  class ReadWriteLock {
    const record: SharedRecord
    const pid: nat
    var txnId: string
    var readerThreads: map<string, nat>

    ghost function Me(): Client
      reads this
    {
      Client(txnId, readerThreads)
    }

    ghost predicate Valid()
      reads this, record, record.readers
    {
      record.Valid() && forall t <- readerThreads :: readerThreads[t] < MAX_READERS
    }

    constructor (record: SharedRecord, pid: nat)
      requires record.Valid()
      ensures Valid() && this.record == record && this.pid == pid && Me() == Client("", map[])
    {
      this.record, this.pid, txnId, readerThreads := record, pid, "", map[];
    }

    method HasWriteLock(thread: string) returns (has: bool)
      requires Valid()
      ensures has == LockProtocol.HasWriteLock(record.View(), Me(), pid, thread)
    {
      if record.writeLocked && record.ownerPid == pid {
        if txnId <= record.ownerTxn {
          return thread <= record.ownerThread;
        }
      }
      return false;
    }

    method HasThreadLock(thread: string) returns (has: bool)
      requires Valid()
      ensures has == HasReadLock(record.View(), Me(), thread)
    {
      if thread in readerThreads {
        return record.readers[readerThreads[thread]].used;
      }
      return false;
    }

    /** One round of the write lock's retry loop; `uuid` is the id generated for a new holder. */
    method TryWriteLock(thread: string, uuid: string, now: nat) returns (r: Result<string>)
      requires Valid() && uuid != ""
      modifies this, record
      ensures Valid()
      ensures match LockProtocol.WriteLock(old(record.View()), old(Me()), pid, thread, uuid, now)
              case Ok((sh, c, txn)) => record.View() == sh && Me() == c && r == Ok(txn)
              case Err(e) => record.View() == old(record.View()) && Me() == old(Me()) && r == Err(e)
    {
      if txnId != "" {
        return Err(BadArgument);
      }
      var has := HasWriteLock(thread);
      if !has && !record.writeLocked && record.readerCount == 0 {
        record.writeLocked := true;
        record.ownerStamp := now;
        record.ownerPid := pid;
        txnId := uuid;
        record.ownerTxn := uuid;
        record.ownerThread := thread;
      }
      return Ok(txnId);
    }

    /** One round of the read lock's retry loop. */
    method TryReadLock(thread: string, now: nat) returns (r: Result<bool>)
      requires Valid()
      modifies this, record, record.readers
      ensures Valid()
      ensures match LockProtocol.ReadLock(old(record.View()), old(Me()), pid, thread, now)
              case Ok((sh, c, locked)) => record.View() == sh && Me() == c && r == Ok(locked)
              case Err(_) => false  // a free slot is always found below the maximum
    {
      ghost var w := World(record.View(), map[pid := Me()]);
      StepKeepsExclusive(w, ReadLockStep(pid, thread, now));
      ErrorsAreUnreachable(record.View(), Me(), pid, thread, now);
      if record.writeLocked {
        return Ok(false);
      }
      var has := HasThreadLock(thread);
      if has {
        return Ok(true);
      }
      if record.readerCount >= MAX_READERS {
        return Ok(false);
      }
      var index := record.FindFreeReader();
      assert index >= 0;  // otherwise the source throws
      record.readers[index] := Slot(true, pid, thread, now);
      readerThreads := readerThreads[thread := index];
      record.readerCount := record.readerCount + 1;
      assert record.readers[..] == old(record.readers[..])[index := Slot(true, pid, thread, now)];
      return Ok(true);
    }

    method ReleaseReadLock(thread: string) returns (released: bool)
      requires Valid()
      modifies this, record, record.readers
      ensures Valid()
      ensures LockProtocol.ReleaseRead(old(record.View()), old(Me()), thread) == Ok((record.View(), Me(), released))
    {
      ghost var w := World(record.View(), map[pid := Me()]);
      StepKeepsExclusive(w, ReleaseReadStep(pid, thread));
      ErrorsAreUnreachable(record.View(), Me(), pid, thread, 0);
      var has := HasThreadLock(thread);
      if !has {
        return false;
      }
      assert record.readerCount > 0;  // otherwise the source throws
      var index := readerThreads[thread];
      record.readerCount := record.readerCount - 1;
      record.readers[index] := record.readers[index].(used := false);
      readerThreads := readerThreads - {thread};
      assert record.readers[..] == old(record.readers[..])[index := old(record.readers[index]).(used := false)];
      return true;
    }

    method ReleaseWriteLock(thread: string) returns (r: Result<bool>)
      requires Valid()
      modifies this, record
      ensures Valid()
      ensures match LockProtocol.ReleaseWrite(old(record.View()), old(Me()), pid, thread)
              case Ok((sh, c, released)) => record.View() == sh && Me() == c && r == Ok(released)
              case Err(e) => record.View() == old(record.View()) && Me() == old(Me()) && r == Err(e)
    {
      if txnId == "" {
        return Err(BadArgument);
      }
      var released := false;
      if record.writeLocked {
        var has := HasWriteLock(thread);
        if has {
          record.ownerPid, record.ownerStamp, record.ownerTxn, record.ownerThread := -1, 0, "", "";
          record.writeLocked := false;
          txnId := "";
          released := true;
        }
      }
      return Ok(released);
    }
  }

  lemma {:induction false} LossesBound(slots: seq<Slot>, clock: nat -> nat, k: nat)
    requires k <= |slots|
    ensures Losses(slots, clock, _ => true, k) <= Used(slots, |slots|)
  {
    SweepCounts(slots, clock, _ => true, k);
    UsedMonotone(slots, k, |slots|);
  }

  lemma {:induction false} UsedMonotone(slots: seq<Slot>, i: nat, j: nat)
    requires i <= j <= |slots|
    ensures Used(slots, i) <= Used(slots, j)
    decreases j
  {
    if i < j {
      UsedMonotone(slots, i, j - 1);
    }
  }
}
