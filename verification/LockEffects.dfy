/**
 What the clients of a read/write lock can rely on: what each critical section, sweep and reset makes of the record,
 field by field, and how long a lock that has been taken is kept.
 */
module LockEffects {
  import opened Outcomes
  import opened Words
  import opened LockProtocol

  /* ---------- Time-outs ---------- */

  /** With 64-bit clock readings a lease has expired when more than the time-out has gone by since its stamp, and
      also when the stamp lies ahead of the clock, unless by nearly the whole range. */
  lemma ExpiresExactly(now: nat, stamp: nat, timeout: nat)
    requires now < DOUBLE_WORD && stamp < DOUBLE_WORD
    ensures Expired(now, stamp, timeout) <==>
              if stamp <= now then stamp + timeout < now else stamp + timeout < now + DOUBLE_WORD
  {
  }

  /** More than five minutes, in 64 bits, after the stamp. */
  predicate Over(now: nat, stamp: nat) { (now - stamp) % 0x1_0000_0000_0000_0000 > 300_000 }

  /* ---------- The writer ---------- */

  /** An attempt at the write lock.  When it succeeds the caller has the lock, under the new id, from now on, and so
      have no others; in any other case nothing changes. */
  lemma WriteLocksExactly(sh: Shared, c: Client, pid: nat, thread: string, uuid: string, now: nat)
    requires uuid != ""
    ensures var r := WriteLock(sh, c, pid, thread, uuid, now);
            && (r == Err(BadArgument) <==> c.txn != "")
            && (c.txn == "" && !sh.writeLocked && sh.readers == 0 ==>
                  r.Ok? &&
                  var (t, d, id) := r.value;
                  && id == uuid && d.txn == uuid && d.threads == c.threads
                  && t.writeLocked && t.ownerPid == pid && t.ownerThread == thread && t.ownerTxn == uuid
                  && t.ownerStamp == now && t.slots == sh.slots && t.readers == 0
                  && HasWriteLock(t, d, pid, thread)
                  && forall q: nat, e: Client, u: string :: HasWriteLock(t, e, q, u) ==> q == pid && u <= thread)
            && (c.txn == "" && (sh.writeLocked || sh.readers > 0) ==> r == Ok((sh, c, "")))
  {
  }

  /** A release of the write lock is refused without an id, does nothing for a caller who is not the owner's process
      with an id and a thread that the record's begin with, and else frees the lock and the caller's id. */
  lemma ReleasesWriteExactly(sh: Shared, c: Client, pid: nat, thread: string)
    ensures var r := ReleaseWrite(sh, c, pid, thread);
            var mine := sh.writeLocked && sh.ownerPid == pid && c.txn <= sh.ownerTxn && thread <= sh.ownerThread;
            && (r == Err(BadArgument) <==> c.txn == "")
            && (c.txn != "" && !mine ==> r == Ok((sh, c, false)))
            && (c.txn != "" && mine ==>
                  r.Ok? &&
                  var (t, d, done) := r.value;
                  && done && d.txn == "" && d.threads == c.threads && !t.writeLocked
                  && t.ownerPid == -1 && t.ownerThread == "" && t.ownerTxn == "" && t.ownerStamp == 0
                  && t.readers == sh.readers && t.slots == sh.slots)
  {
  }

  /** So a thread of the owner's own process that does not have the lock cannot give it up. */
  lemma OtherThreadIsRefused(w: World, p: nat, thread: string)
    requires WriterKnown(w) && w.shared.writeLocked && w.shared.ownerPid == p && !(thread <= w.shared.ownerThread)
    ensures ReleaseWrite(w.shared, w.clients[p], p, thread) == Ok((w.shared, w.clients[p], false))
  {
    ReleasesWriteExactly(w.shared, w.clients[p], p, thread);
  }

  /** The sweep clears a writer exactly when its lease is over, whoever holds it. */
  lemma SweepsWriterExactly(sh: Shared, now: nat, clock: nat -> nat)
    requires sh.readers >= Losses(sh.slots, clock, _ => true, |sh.slots|)
    ensures var t := Sweep(sh, now, clock);
            && (t.writeLocked <==> sh.writeLocked && !Over(now, sh.ownerStamp))
            && (forall c: Client, pid: nat, thread: string ::
                  HasWriteLock(t, c, pid, thread) <==>
                  HasWriteLock(sh, c, pid, thread) && !Over(now, sh.ownerStamp))
            && (t.writeLocked ==> t.ownerPid == sh.ownerPid && t.ownerThread == sh.ownerThread
                                  && t.ownerTxn == sh.ownerTxn && t.ownerStamp == sh.ownerStamp)
            && (sh.writeLocked && !t.writeLocked ==> t.ownerPid == -1 && t.ownerTxn == "" && t.ownerStamp == 0)
  {
  }

  /** The reset clears one exactly when its lease is over or its process dead. */
  lemma ResetsWriterExactly(sh: Shared, now: nat, clock: nat -> nat, alive: int -> bool)
    ensures var t := Reset(sh, now, clock, alive);
            && (t.writeLocked <==> sh.writeLocked && alive(sh.ownerPid) && !Over(now, sh.ownerStamp))
            && (forall c: Client, pid: nat, thread: string ::
                  HasWriteLock(t, c, pid, thread) <==>
                  HasWriteLock(sh, c, pid, thread) && alive(pid) && !Over(now, sh.ownerStamp))
            && (t.writeLocked ==> t.ownerPid == sh.ownerPid && t.ownerThread == sh.ownerThread
                                  && t.ownerTxn == sh.ownerTxn && t.ownerStamp == sh.ownerStamp)
            && (sh.writeLocked && !t.writeLocked ==> t.ownerPid == -1 && t.ownerTxn == "" && t.ownerStamp == 0)
  {
  }

  /** A step that takes the lock from a writer: a sweep or reset that comes when the lease is over, or a reset that
      finds the process dead. */
  predicate Takes(step: Step, p: int, stamp: nat)
  {
    match step
    case SweepWriterStep(now) => Over(now, stamp)
    case ResetStep(now, _, alive) => p !in alive || Over(now, stamp)
    case _ => false
  }

  predicate HasIt(w: World, p: nat, thread: string)
  {
    p in w.clients && w.clients[p].txn != "" && HasWriteLock(w.shared, w.clients[p], p, thread)
  }

  lemma StepTakesExactly(w: World, p: nat, thread: string, step: Step)
    requires Exclusive(w.shared) && HasIt(w, p, thread) && !(step.ReleaseWriteStep? && step.pid == p)
    ensures var v := Next(w, step);
            if Takes(step, p, w.shared.ownerStamp) then LostLease(v, p)
            else HasIt(v, p, thread) && v.shared.ownerStamp == w.shared.ownerStamp
  {
  }

  /** A writer that does not release keeps its lock over a run, whatever all others do, exactly when no sweep or
      reset of the run takes it: none comes when its lease is over, and no reset finds its process dead. */
  lemma {:induction false} WriterKeepsLockExactly(w: World, p: nat, thread: string, steps: seq<Step>)
    requires Exclusive(w.shared) && HasIt(w, p, thread)
    requires forall s <- steps :: !(s.ReleaseWriteStep? && s.pid == p)
    ensures HasIt(Run(w, steps), p, thread) <==> forall s <- steps :: !Takes(s, p, w.shared.ownerStamp)
    decreases steps
  {
    if steps != [] {
      var v := Next(w, steps[0]);
      StepKeepsExclusive(w, steps[0]);
      StepTakesExactly(w, p, thread, steps[0]);
      assert forall s :: s in steps <==> s == steps[0] || s in steps[1..];
      if Takes(steps[0], p, w.shared.ownerStamp) {
        LostLeaseIsForGood(v, p, steps[1..]);
      } else {
        WriterKeepsLockExactly(v, p, thread, steps[1..]);
      }
    }
  }

  /** From the moment it is let in, a writer has its lock for the five minutes of its lease, through every run of the
      others, sweeps included. */
  lemma LeaseLasts(w: World, p: nat, thread: string, uuid: string, now: nat, steps: seq<Step>)
    requires Exclusive(w.shared) && p in w.clients && uuid != ""
    requires w.clients[p].txn == "" && !w.shared.writeLocked && w.shared.readers == 0
    requires forall s <- steps :: !(s.ReleaseWriteStep? && s.pid == p)
    requires forall s <- steps :: s.SweepWriterStep? || s.ResetStep? ==> now <= s.now <= now + 300_000
    requires forall s <- steps :: s.ResetStep? ==> p in s.alive
    ensures var v := Next(w, WriteLockStep(p, thread, uuid, now));
            Exclusive(v.shared) && HasIt(Run(v, steps), p, thread)
  {
    var lock := WriteLockStep(p, thread, uuid, now);
    StepKeepsExclusive(w, lock);
    WriterKeepsLockExactly(Next(w, lock), p, thread, steps);
  }

  /* ---------- The readers ---------- */

  /** An attempt at a read lock.  Unless somebody writes, a thread that has a slot keeps it, and another one gets the
      first slot not in use, with its names and the time in it; in any other case nothing changes. */
  lemma ReadLocksExactly(sh: Shared, c: Client, pid: nat, thread: string, now: nat)
    requires Exclusive(sh)
    ensures var r := ReadLock(sh, c, pid, thread, now);
            var had := thread in c.threads && c.threads[thread] < |sh.slots| && sh.slots[c.threads[thread]].used;
            && r.Ok?
            && (sh.writeLocked || (!had && sh.readers == 256) ==> r.value == (sh, c, false))
            && (!sh.writeLocked && had ==> r.value == (sh, c, true))
            && (!sh.writeLocked && !had && sh.readers != 256 ==>
                  var (t, d, done) := r.value;
                  && done && t.readers == sh.readers + 1 && thread in d.threads
                  && var i := d.threads[thread];
                  && d == c.(threads := c.threads[thread := i]) && i < |sh.slots| == |t.slots|
                  && t == sh.(slots := t.slots, readers := t.readers)
                  && t.slots[i] == Slot(true, pid, thread, now) && !sh.slots[i].used
                  && (forall j :: 0 <= j < i ==> sh.slots[j].used)
                  && forall j :: 0 <= j < |sh.slots| && j != i ==> t.slots[j] == sh.slots[j])
  {
    UsedBounds(sh.slots, |sh.slots|);
  }

  /** A release by a thread that has a slot frees it, lowers the count and forgets the thread; by another it does
      nothing. */
  lemma ReleasesReadExactly(sh: Shared, c: Client, thread: string)
    requires Exclusive(sh)
    ensures var r := ReleaseRead(sh, c, thread);
            var had := thread in c.threads && c.threads[thread] < |sh.slots| && sh.slots[c.threads[thread]].used;
            && r.Ok?
            && (!had ==> r.value == (sh, c, false))
            && (had ==>
                  var (t, d, done), i := r.value, c.threads[thread];
                  && done && t.readers + 1 == sh.readers && d.txn == c.txn && thread !in d.threads
                  && (forall u :: u in c.threads && u != thread ==> u in d.threads && d.threads[u] == c.threads[u])
                  && (forall u <- d.threads :: u in c.threads) && |t.slots| == |sh.slots| && !t.slots[i].used
                  && (forall j :: 0 <= j < |sh.slots| && j != i ==> t.slots[j] == sh.slots[j])
                  && t == sh.(slots := t.slots, readers := t.readers))
  {
    ErrorsAreUnreachable(sh, c, 0, thread, 0);
  }

  /** Without expiry a reader that does not release keeps its lock over every run. */
  lemma {:induction false} ReaderKeepsLock(w: World, p: nat, thread: string, steps: seq<Step>)
    requires Exclusive(w.shared) && Registered(w) && p in w.clients && HasReadLock(w.shared, w.clients[p], thread)
    requires forall s <- steps :: !Expiry(s) && s != ReleaseReadStep(p, thread)
    ensures var v := Run(w, steps); p in v.clients && HasReadLock(v.shared, v.clients[p], thread)
    decreases steps
  {
    if steps != [] {
      StepKeepsExclusive(w, steps[0]);
      StepKeepsRegistered(w, steps[0]);
      assert !Expiry(steps[0]) && steps[0] != ReleaseReadStep(p, thread);
      ReaderKeepsLock(Next(w, steps[0]), p, thread, steps[1..]);
    }
  }

  /** The sweep's look at a slot frees it exactly when it is used and the first slot's stamp says the lease is over;
      it lowers the count with it and touches no other slot. */
  lemma SweepsSlotExactly(sh: Shared, i: nat, now: nat)
    requires i < |sh.slots| && (sh.slots[i].used ==> sh.readers > 0)
    ensures var t, over := SweepSlot(sh, i, now), Over(now, sh.slots[0].stamp);
            && |t.slots| == |sh.slots| && (t.slots[i].used <==> sh.slots[i].used && !over)
            && t.slots[i] == sh.slots[i].(used := t.slots[i].used)
            && (forall j :: 0 <= j < |sh.slots| && j != i ==> t.slots[j] == sh.slots[j])
            && t.readers == sh.readers - (if sh.slots[i].used && over then 1 else 0)
            && t == sh.(slots := t.slots, readers := t.readers)
  {
  }

  /** The slots in use, among the first `k`. */
  function InUse(slots: seq<Slot>, k: nat): set<nat>
    requires k <= |slots|
  {
    set i: nat | i < k && slots[i].used
  }

  lemma {:induction false} UsedAreInUse(slots: seq<Slot>, k: nat)
    requires k <= |slots|
    ensures Used(slots, k) == |InUse(slots, k)|
  {
    if k > 0 {
      UsedAreInUse(slots, k - 1);
      assert InUse(slots, k) == InUse(slots, k - 1) + if slots[k - 1].used then {k - 1} else {};
    }
  }

  /** A reset leaves in use the slots of live processes, unless the first slot's stamp says that the lease is over, and
      counts them. */
  lemma ResetsReadersExactly(sh: Shared, now: nat, clock: nat -> nat, alive: int -> bool)
    ensures var t := Reset(sh, now, clock, alive);
            && |t.slots| == |sh.slots| && t.readers == |InUse(t.slots, |t.slots|)|
            && forall i :: 0 <= i < |sh.slots| ==>
                 && (t.slots[i].used <==>
                       sh.slots[i].used && alive(sh.slots[i].pid) && !Over(clock(i), sh.slots[0].stamp))
                 && t.slots[i] == sh.slots[i].(used := t.slots[i].used)
  {
    var slots := Reset(sh, now, clock, alive).slots;
    UsedAreInUse(slots, |slots|);
  }

  /** A sweep with nobody between its looks leaves in use the slots in use, unless that stamp says so. */
  lemma SweepsReadersExactly(sh: Shared, now: nat, clock: nat -> nat)
    requires sh.readers == |InUse(sh.slots, |sh.slots|)|
    ensures sh.readers >= Losses(sh.slots, clock, _ => true, |sh.slots|)
    ensures var t := Sweep(sh, now, clock);
            && |t.slots| == |sh.slots| && t.readers == |InUse(t.slots, |t.slots|)|
            && forall i :: 0 <= i < |sh.slots| ==>
                 && (t.slots[i].used <==> sh.slots[i].used && !Over(clock(i), sh.slots[0].stamp))
                 && t.slots[i] == sh.slots[i].(used := t.slots[i].used)
  {
    var n := |sh.slots|;
    UsedAreInUse(sh.slots, n);
    SweepCounts(sh.slots, clock, _ => true, n);
    UsedAreInUse(Swept(sh.slots, clock, _ => true), n);
  }
}
