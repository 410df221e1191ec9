/**
 The read/write lock protocol: one shared record that many processes and their threads work on, each step
 being one critical section, and a manager that expires leases and takes no lock: its sweep is a step for the
 writer and one for each slot.
 */
module LockProtocol {
  import opened Outcomes
  import opened Words

  const MAX_READERS: nat := 256
  const WRITE_TIMEOUT: nat := 300000
  const READ_TIMEOUT: nat := 300000

  /** A reader slot of the shared record. */
  datatype Slot = Slot(used: bool, pid: int, thread: string, stamp: nat)

  /** The shared record of one lock. */
  datatype Shared = Shared(writeLocked: bool, ownerPid: int, ownerThread: string, ownerTxn: string,
                           ownerStamp: nat, readers: nat, slots: seq<Slot>)

  /** What one process keeps for itself. */
  datatype Client = Client(txn: string, threads: map<string, nat>)

  function Used(slots: seq<Slot>, k: nat): nat
    requires k <= |slots|
  {
    if k == 0 then 0 else Used(slots, k - 1) + if slots[k - 1].used then 1 else 0
  }

  function Holders(sh: Shared): nat { Used(sh.slots, |sh.slots|) }

  lemma {:induction false} UsedAfterUpdate(slots: seq<Slot>, i: nat, s: Slot, k: nat)
    requires i < |slots| && k <= |slots|
    ensures Used(slots[i := s], k) + (if i < k && slots[i].used then 1 else 0)
         == Used(slots, k) + if i < k && s.used then 1 else 0
  {
    if k > 0 {
      UsedAfterUpdate(slots, i, s, k - 1);
    }
  }

  lemma {:induction false} UsedBounds(slots: seq<Slot>, k: nat)
    requires k <= |slots|
    ensures Used(slots, k) <= k
    ensures Used(slots, k) == k <==> forall i :: 0 <= i < k ==> slots[i].used
    ensures Used(slots, k) == 0 <==> forall i :: 0 <= i < k ==> !slots[i].used
  {
    if k > 0 {
      UsedBounds(slots, k - 1);
    }
  }

  /** The first slot from `k` on that is not used; the number of slots when there is none. */
  function FirstFree(slots: seq<Slot>, k: nat): (i: nat)
    requires k <= |slots|
    ensures k <= i <= |slots|
    ensures i < |slots| ==> !slots[i].used
    ensures forall j :: k <= j < i ==> slots[j].used
    decreases |slots| - k
  {
    if k == |slots| || !slots[k].used then k else FirstFree(slots, k + 1)
  }

  /* ---------- One critical section each ---------- */

  /** The comparison made with stored names: only as many characters as the given one has. */
  predicate StartsWith(stored: string, given: string) { given <= stored }

  predicate HasWriteLock(sh: Shared, c: Client, pid: nat, thread: string)
  {
    sh.writeLocked && sh.ownerPid == pid && StartsWith(sh.ownerTxn, c.txn) && StartsWith(sh.ownerThread, thread)
  }

  predicate HasReadLock(sh: Shared, c: Client, thread: string)
  {
    thread in c.threads && c.threads[thread] < |sh.slots| && sh.slots[c.threads[thread]].used
  }

  /** Try once to take the write lock.  The result is the transaction id, empty when the attempt failed. */
  function WriteLock(sh: Shared, c: Client, pid: nat, thread: string, uuid: string, now: nat)
    : Result<(Shared, Client, string)>
  {
    if c.txn != "" then Err(BadArgument)
    else if HasWriteLock(sh, c, pid, thread) then Ok((sh, c, c.txn))
    else if !sh.writeLocked && sh.readers == 0 then
      Ok((sh.(writeLocked := true, ownerPid := pid, ownerThread := thread, ownerTxn := uuid, ownerStamp := now),
          c.(txn := uuid), uuid))
    else Ok((sh, c, ""))
  }

  /** Try once to take a read lock for a thread. */
  function ReadLock(sh: Shared, c: Client, pid: nat, thread: string, now: nat): Result<(Shared, Client, bool)>
  {
    if sh.writeLocked then Ok((sh, c, false))
    else if HasReadLock(sh, c, thread) then Ok((sh, c, true))
    else if sh.readers >= MAX_READERS then Ok((sh, c, false))
    else
      var i := FirstFree(sh.slots, 0);
      if i == |sh.slots| then Err(Exhausted)
      else Ok((sh.(slots := sh.slots[i := Slot(true, pid, thread, now)], readers := sh.readers + 1),
               c.(threads := c.threads[thread := i]), true))
  }

  function ReleaseRead(sh: Shared, c: Client, thread: string): Result<(Shared, Client, bool)>
  {
    if !HasReadLock(sh, c, thread) then Ok((sh, c, false))
    else if sh.readers == 0 then Err(BadState)
    else
      var i := c.threads[thread];
      Ok((sh.(slots := sh.slots[i := sh.slots[i].(used := false)], readers := sh.readers - 1),
          c.(threads := c.threads - {thread}), true))
  }

  function ReleaseWrite(sh: Shared, c: Client, pid: nat, thread: string): Result<(Shared, Client, bool)>
  {
    if c.txn == "" then Err(BadArgument)
    else if HasWriteLock(sh, c, pid, thread) then
      Ok((sh.(writeLocked := false, ownerPid := -1, ownerThread := "", ownerTxn := "", ownerStamp := 0),
          c.(txn := ""), true))
    else Ok((sh, c, false))
  }

  /* ---------- The manager ---------- */

  /** An unsigned difference of clock readings against a time-out. */
  predicate Expired(now: nat, stamp: nat, timeout: nat)
  {
    (now - stamp) % DOUBLE_WORD > timeout
  }

  function WithoutWriter(sh: Shared): Shared
  {
    sh.(writeLocked := false, ownerPid := -1, ownerTxn := "", ownerStamp := 0)
  }

  /** Whether the manager clears slot `i`.  The stamp it looks at is that of the first slot. */
  predicate Cleared(slots: seq<Slot>, i: nat, clock: nat -> nat, alive: int -> bool)
    requires i < |slots|
  {
    slots[i].used && (!alive(slots[i].pid) || Expired(clock(i), slots[0].stamp, READ_TIMEOUT))
  }

  function Swept(slots: seq<Slot>, clock: nat -> nat, alive: int -> bool): (r: seq<Slot>)
    ensures |r| == |slots|
  {
    seq(|slots|, i requires 0 <= i < |slots| =>
      if Cleared(slots, i, clock, alive) then slots[i].(used := false) else slots[i])
  }

  /** How many of the first `k` slots the manager clears. */
  function Losses(slots: seq<Slot>, clock: nat -> nat, alive: int -> bool, k: nat): nat
    requires k <= |slots|
  {
    if k == 0 then 0
    else Losses(slots, clock, alive, k - 1) + if Cleared(slots, k - 1, clock, alive) then 1 else 0
  }

  lemma {:induction false} SweepCounts(slots: seq<Slot>, clock: nat -> nat, alive: int -> bool, k: nat)
    requires k <= |slots|
    ensures Used(Swept(slots, clock, alive), k) + Losses(slots, clock, alive, k) == Used(slots, k)
  {
    if k > 0 {
      SweepCounts(slots, clock, alive, k - 1);
    }
  }

  /** The sweep takes no lock.  It looks at the writer's lease, and then at one slot after the other. */
  function SweepWriter(sh: Shared, now: nat): Shared
  {
    if sh.writeLocked && Expired(now, sh.ownerStamp, WRITE_TIMEOUT) then WithoutWriter(sh) else sh
  }

  function SweepSlot(sh: Shared, i: nat, now: nat): Shared
    requires i < |sh.slots| && (sh.slots[i].used ==> sh.readers > 0)
  {
    if sh.slots[i].used && Expired(now, sh.slots[0].stamp, READ_TIMEOUT)
    then sh.(slots := sh.slots[i := sh.slots[i].(used := false)], readers := sh.readers - 1)
    else sh
  }

  /** A whole sweep that nobody comes between. */
  function Sweep(sh: Shared, now: nat, clock: nat -> nat): Shared
    requires sh.readers >= Losses(sh.slots, clock, _ => true, |sh.slots|)
  {
    SweepWriter(sh, now).(slots := Swept(sh.slots, clock, _ => true),
                          readers := sh.readers - Losses(sh.slots, clock, _ => true, |sh.slots|))
  }

  /** The reset at start-up: leases of dead processes go too, and the readers are counted afresh. */
  function Reset(sh: Shared, now: nat, clock: nat -> nat, alive: int -> bool): Shared
  {
    var w := if sh.writeLocked && (!alive(sh.ownerPid) || Expired(now, sh.ownerStamp, WRITE_TIMEOUT))
             then WithoutWriter(sh) else sh;
    var slots := Swept(sh.slots, clock, alive);
    w.(slots := slots, readers := Used(slots, |slots|))
  }

  /** Read with one clock reading, the sweep clears every reader or none, as the stamp in the first slot
      decides, even when that slot is not in use. */
  lemma SweepIsAllOrNothing(slots: seq<Slot>, now: nat)
    requires |slots| > 0
    ensures var r := Swept(slots, _ => now, _ => true);
            if Expired(now, slots[0].stamp, READ_TIMEOUT)
            then forall i :: 0 <= i < |r| ==> !r[i].used
            else r == slots
  {
  }

  /** A slot is treated by the sweep as its own lease would have it exactly when the first slot's stamp has
      expired just as its own. */
  lemma SweepIsFairExactly(slots: seq<Slot>, i: nat, now: nat)
    requires i < |slots| && slots[i].used
    ensures Swept(slots, _ => now, _ => true)[i].used == !Expired(now, slots[i].stamp, READ_TIMEOUT)
       <==> Expired(now, slots[0].stamp, READ_TIMEOUT) == Expired(now, slots[i].stamp, READ_TIMEOUT)
  {
  }

  /* ---------- All processes together ---------- */

  datatype World = World(shared: Shared, clients: map<nat, Client>)

  datatype Step =
    | WriteLockStep(pid: nat, thread: string, uuid: string, now: nat)
    | ReadLockStep(pid: nat, thread: string, now: nat)
    | ReleaseReadStep(pid: nat, thread: string)
    | ReleaseWriteStep(pid: nat, thread: string)
    | SweepWriterStep(now: nat)
    | SweepSlotStep(i: nat, now: nat)
    | ResetStep(now: nat, clock: seq<nat>, alive: set<int>)

  predicate Expiry(step: Step) { step.SweepWriterStep? || step.SweepSlotStep? || step.ResetStep? }

  function Clock(readings: seq<nat>): nat -> nat { (i: nat) => if i < |readings| then readings[i] else 0 }

  function Put<T>(w: World, pid: nat, r: Result<(Shared, Client, T)>): World
  {
    match r
    case Ok((sh, c, _)) => World(sh, w.clients[pid := c])
    case Err(_) => w
  }

  /** A client's critical section; one that throws changes nothing. */
  function ClientNext(w: World, step: Step): World
    requires !Expiry(step)
  {
    match step
    case WriteLockStep(p, t, uuid, now) =>
      if p in w.clients && uuid != "" then Put(w, p, WriteLock(w.shared, w.clients[p], p, t, uuid, now)) else w
    case ReadLockStep(p, t, now) =>
      if p in w.clients then Put(w, p, ReadLock(w.shared, w.clients[p], p, t, now)) else w
    case ReleaseReadStep(p, t) =>
      if p in w.clients then Put(w, p, ReleaseRead(w.shared, w.clients[p], t)) else w
    case ReleaseWriteStep(p, t) =>
      if p in w.clients then Put(w, p, ReleaseWrite(w.shared, w.clients[p], p, t)) else w
  }

  function Next(w: World, step: Step): World
    requires Counted(w.shared)
  {
    match step
    case SweepWriterStep(now) => w.(shared := SweepWriter(w.shared, now))
    case SweepSlotStep(i, now) =>
      UsedBounds(w.shared.slots, |w.shared.slots|);
      if i < |w.shared.slots| then w.(shared := SweepSlot(w.shared, i, now)) else w
    case ResetStep(now, clock, alive) => w.(shared := Reset(w.shared, now, Clock(clock), pid => pid in alive))
    case _ => ClientNext(w, step)
  }

  /** The reader count is the number of used slots. */
  predicate Counted(sh: Shared)
  {
    |sh.slots| == MAX_READERS && sh.readers == Holders(sh)
  }

  /** Readers and a writer exclude each other, and the count is right. */
  predicate Exclusive(sh: Shared)
  {
    Counted(sh) && (sh.writeLocked ==> sh.readers == 0)
  }

  lemma StepKeepsExclusive(w: World, step: Step)
    requires Exclusive(w.shared)
    ensures Exclusive(Next(w, step).shared)
  {
    var sh := w.shared;
    match step
    case WriteLockStep(p, t, uuid, now) =>
    case ReadLockStep(p, t, now) =>
      var i := FirstFree(sh.slots, 0);
      if i < |sh.slots| { UsedAfterUpdate(sh.slots, i, Slot(true, p, t, now), |sh.slots|); }
    case ReleaseReadStep(p, t) =>
      if p in w.clients && HasReadLock(sh, w.clients[p], t) {
        var i := w.clients[p].threads[t];
        UsedAfterUpdate(sh.slots, i, sh.slots[i].(used := false), |sh.slots|);
      }
    case ReleaseWriteStep(p, t) =>
    case SweepWriterStep(now) =>
    case SweepSlotStep(i, now) =>
      if i < |sh.slots| { UsedAfterUpdate(sh.slots, i, sh.slots[i].(used := false), |sh.slots|); }
    case ResetStep(now, clock, alive) => SweepCounts(sh.slots, Clock(clock), pid => pid in alive, |sh.slots|);
  }

  function Run(w: World, steps: seq<Step>): World
    requires Exclusive(w.shared)
    decreases steps
  {
    if steps == [] then w
    else
      StepKeepsExclusive(w, steps[0]);
      Run(Next(w, steps[0]), steps[1..])
  }

  /** Exclusion and the count hold after every run, whatever leases expire and whatever comes between the
      steps of a sweep. */
  lemma {:induction false} RunKeepsExclusive(w: World, steps: seq<Step>)
    requires Exclusive(w.shared)
    ensures Exclusive(Run(w, steps).shared)
    decreases steps
  {
    if steps != [] {
      StepKeepsExclusive(w, steps[0]);
      RunKeepsExclusive(Next(w, steps[0]), steps[1..]);
    }
  }

  lemma RunCons(w: World, step: Step, rest: seq<Step>)
    requires Exclusive(w.shared)
    ensures Exclusive(Next(w, step).shared)
    ensures Run(w, [step] + rest) == Run(Next(w, step), rest)
  {
    StepKeepsExclusive(w, step);
    assert ([step] + rest)[1..] == rest;
  }

  /** The steps of a sweep from slot `i` on, with the clock's reading for each. */
  function SlotSteps(clock: nat -> nat, i: nat): seq<Step>
    requires i <= MAX_READERS
    decreases MAX_READERS - i
  {
    if i == MAX_READERS then [] else [SweepSlotStep(i, clock(i))] + SlotSteps(clock, i + 1)
  }

  /** The record when the sweep has come to slot `i`. */
  ghost predicate SweptUpTo(sh: Shared, was: Shared, clock: nat -> nat, i: nat)
    requires |was.slots| == MAX_READERS
  {
    && i <= MAX_READERS && |sh.slots| == MAX_READERS
    && sh == was.(slots := sh.slots, readers := sh.readers)
    && sh.readers + Losses(was.slots, clock, _ => true, i) == was.readers
    && forall j :: 0 <= j < MAX_READERS ==>
         sh.slots[j] == if j < i then Swept(was.slots, clock, _ => true)[j] else was.slots[j]
  }

  lemma SlotStep(w: World, was: Shared, clock: nat -> nat, i: nat)
    requires Exclusive(w.shared) && |was.slots| == MAX_READERS && i < MAX_READERS && SweptUpTo(w.shared, was, clock, i)
    ensures SweptUpTo(Next(w, SweepSlotStep(i, clock(i))).shared, was, clock, i + 1)
    ensures Next(w, SweepSlotStep(i, clock(i))).clients == w.clients
  {
    assert w.shared.slots[i] == was.slots[i] && w.shared.slots[0].stamp == was.slots[0].stamp;
  }

  lemma {:induction false} SlotStepsSweep(w: World, was: Shared, clock: nat -> nat, i: nat)
    requires Exclusive(w.shared) && |was.slots| == MAX_READERS && SweptUpTo(w.shared, was, clock, i)
    ensures var v := Run(w, SlotSteps(clock, i)); SweptUpTo(v.shared, was, clock, MAX_READERS) && v.clients == w.clients
    decreases MAX_READERS - i
  {
    if i < MAX_READERS {
      var step := SweepSlotStep(i, clock(i));
      SlotStep(w, was, clock, i);
      RunCons(w, step, SlotSteps(clock, i + 1));
      SlotStepsSweep(Next(w, step), was, clock, i + 1);
    }
  }

  /** The steps of a sweep that nobody comes between add up to the whole sweep. */
  lemma UndisturbedSweep(w: World, now: nat, clock: nat -> nat)
    requires Exclusive(w.shared)
    ensures w.shared.readers >= Losses(w.shared.slots, clock, _ => true, |w.shared.slots|)
    ensures Run(w, [SweepWriterStep(now)] + SlotSteps(clock, 0)) == w.(shared := Sweep(w.shared, now, clock))
  {
    SweepCounts(w.shared.slots, clock, _ => true, MAX_READERS);
    var first := Next(w, SweepWriterStep(now));
    RunCons(w, SweepWriterStep(now), SlotSteps(clock, 0));
    SlotStepsSweep(first, first.shared, clock, 0);
    var v := Run(first, SlotSteps(clock, 0));
    assert v.shared.slots == Swept(w.shared.slots, clock, _ => true);
  }

  /** So the error branches cannot be reached: below the maximum a free slot is found, and a slot that is
      held is never released against a count of zero. */
  lemma ErrorsAreUnreachable(sh: Shared, c: Client, pid: nat, thread: string, now: nat)
    requires Exclusive(sh)
    ensures ReadLock(sh, c, pid, thread, now).Ok?
    ensures ReleaseRead(sh, c, thread).Ok?
    ensures ReadLock(sh, c, pid, thread, now).value.2 <==>
              !sh.writeLocked && (HasReadLock(sh, c, thread) || Holders(sh) < MAX_READERS)
    ensures ReleaseRead(sh, c, thread).value.2 <==> HasReadLock(sh, c, thread)
  {
    UsedBounds(sh.slots, |sh.slots|);
  }

  /* ---------- Who holds what ---------- */

  /** Each thread a process has on its list holds the slot named there, and each used slot is on the list of
      the process and under the thread it names. */
  ghost predicate Registered(w: World)
  {
    && (forall p, t :: p in w.clients && t in w.clients[p].threads ==>
          var i := w.clients[p].threads[t];
          i < |w.shared.slots| && w.shared.slots[i].used && w.shared.slots[i].pid == p && w.shared.slots[i].thread == t)
    && (forall i :: 0 <= i < |w.shared.slots| && w.shared.slots[i].used ==> OnList(w, i))
  }

  predicate OnList(w: World, i: nat)
    requires i < |w.shared.slots|
  {
    var s := w.shared.slots[i];
    s.pid >= 0 && s.pid in w.clients && s.thread in w.clients[s.pid].threads && w.clients[s.pid].threads[s.thread] == i
  }

  /** The process named as owner holds the transaction id in the record. */
  ghost predicate WriterKnown(w: World)
  {
    w.shared.writeLocked ==>
      && w.shared.ownerPid >= 0 && w.shared.ownerPid in w.clients
      && w.shared.ownerTxn != "" && w.clients[w.shared.ownerPid].txn == w.shared.ownerTxn
  }

  /** Only the owner has a transaction id. */
  ghost predicate NoOtherWriter(w: World)
  {
    forall p :: p in w.clients && w.clients[p].txn != "" ==> w.shared.writeLocked && w.shared.ownerPid == p
  }

  /** A new lock record, and processes that have not used it. */
  predicate Unused(w: World)
  {
    && |w.shared.slots| == MAX_READERS && !w.shared.writeLocked && w.shared.readers == 0
    && (forall i :: 0 <= i < MAX_READERS ==> !w.shared.slots[i].used)
    && (forall p <- w.clients :: w.clients[p] == Client("", map[]))
  }

  /** All that the runs keep holds to begin with. */
  lemma UnusedIsKept(w: World)
    requires Unused(w)
    ensures Exclusive(w.shared) && Registered(w) && WriterKnown(w) && NoOtherWriter(w)
  {
    UsedBounds(w.shared.slots, MAX_READERS);
  }

  lemma StepKeepsRegistered(w: World, step: Step)
    requires Exclusive(w.shared) && Registered(w) && !Expiry(step)
    ensures Registered(Next(w, step))
  {
    match step
    case WriteLockStep(p, t, uuid, now) => ListsKept(w, Next(w, step));
    case ReadLockStep(p, t, now) =>
      if p in w.clients { ReadLockRegisters(w, p, t, now); }
    case ReleaseReadStep(p, t) =>
      if p in w.clients { ReleaseReadUnregisters(w, p, t); }
    case ReleaseWriteStep(p, t) => ListsKept(w, Next(w, step));
    case SweepWriterStep(_) =>
    case SweepSlotStep(_, _) =>
    case ResetStep(_, _, _) =>
  }

  lemma ListsKept(w: World, w': World)
    requires Registered(w) && w'.shared.slots == w.shared.slots && w'.clients.Keys == w.clients.Keys
    requires forall p :: p in w.clients ==> w'.clients[p].threads == w.clients[p].threads
    ensures Registered(w')
  {
    forall i | 0 <= i < |w'.shared.slots| && w'.shared.slots[i].used ensures OnList(w', i) {
      assert OnList(w, i);
    }
  }

  lemma ReadLockRegisters(w: World, p: nat, t: string, now: nat)
    requires Exclusive(w.shared) && Registered(w) && p in w.clients
    ensures Registered(Next(w, ReadLockStep(p, t, now)))
  {
    var w' := Next(w, ReadLockStep(p, t, now));
    if w'.shared.slots == w.shared.slots {
      ListsKept(w, w');
    } else {
      NewHoldRegisters(w, p, t, now, FirstFree(w.shared.slots, 0));
    }
  }

  lemma NewHoldRegisters(w: World, p: nat, t: string, now: nat, k: nat)
    requires Registered(w) && p in w.clients && k < |w.shared.slots| && !w.shared.slots[k].used
    requires !HasReadLock(w.shared, w.clients[p], t)
    ensures var c := w.clients[p];
            var sh := w.shared.(slots := w.shared.slots[k := Slot(true, p, t, now)], readers := w.shared.readers + 1);
            Registered(World(sh, w.clients[p := c.(threads := c.threads[t := k])]))
  {
    var c := w.clients[p];
    var w' := World(w.shared.(slots := w.shared.slots[k := Slot(true, p, t, now)], readers := w.shared.readers + 1),
                    w.clients[p := c.(threads := c.threads[t := k])]);
    forall i | 0 <= i < |w'.shared.slots| && w'.shared.slots[i].used ensures OnList(w', i) {
      assert i != k ==> OnList(w, i);
    }
  }

  lemma ReleaseReadUnregisters(w: World, p: nat, t: string)
    requires Exclusive(w.shared) && Registered(w) && p in w.clients
    ensures Registered(Next(w, ReleaseReadStep(p, t)))
  {
    var w' := Next(w, ReleaseReadStep(p, t));
    forall i | 0 <= i < |w'.shared.slots| && w'.shared.slots[i].used ensures OnList(w', i) {
      assert OnList(w, i);
    }
  }

  /** In every run without expiry, the lists of the processes and the used slots match one to one. */
  lemma {:induction false} RunKeepsRegistered(w: World, steps: seq<Step>)
    requires Exclusive(w.shared) && Registered(w)
    requires forall s <- steps :: !Expiry(s)
    ensures Registered(Run(w, steps))
    decreases steps
  {
    if steps != [] {
      StepKeepsExclusive(w, steps[0]);
      StepKeepsRegistered(w, steps[0]);
      RunKeepsRegistered(Next(w, steps[0]), steps[1..]);
    }
  }

  lemma StepKeepsWriterKnown(w: World, step: Step)
    requires Exclusive(w.shared) && WriterKnown(w)
    ensures WriterKnown(Next(w, step))
    ensures NoOtherWriter(w) && !Expiry(step) ==> NoOtherWriter(Next(w, step))
  {
  }

  lemma {:induction false} RunKeepsWriterKnown(w: World, steps: seq<Step>)
    requires Exclusive(w.shared) && WriterKnown(w)
    ensures WriterKnown(Run(w, steps))
    ensures NoOtherWriter(w) && (forall s <- steps :: !Expiry(s)) ==> NoOtherWriter(Run(w, steps))
    decreases steps
  {
    if steps != [] {
      StepKeepsExclusive(w, steps[0]);
      StepKeepsWriterKnown(w, steps[0]);
      RunKeepsWriterKnown(Next(w, steps[0]), steps[1..]);
    }
  }

  /** The write lock is held by the owner's process alone, and there by exactly those threads whose id the
      owner's thread id starts with. */
  lemma WhoHasTheWriteLock(w: World, p: nat, t: string)
    requires WriterKnown(w) && p in w.clients
    ensures HasWriteLock(w.shared, w.clients[p], p, t) <==>
              w.shared.writeLocked && w.shared.ownerPid == p && t <= w.shared.ownerThread
  {
  }

  /** At most the owning thread has the write lock, among the thread ids in use, exactly when none of those
      ids is a proper prefix of the owner's. */
  lemma OneWriterExactly(w: World, ids: set<string>)
    requires WriterKnown(w) && w.shared.writeLocked
    ensures (forall p, t :: p in w.clients && t in ids && HasWriteLock(w.shared, w.clients[p], p, t) ==>
               p == w.shared.ownerPid && t == w.shared.ownerThread)
       <==> (forall t <- ids :: !(t < w.shared.ownerThread))
  {
    var p: nat := w.shared.ownerPid;
    forall t | t in ids && t < w.shared.ownerThread ensures HasWriteLock(w.shared, w.clients[p], p, t) {
      WhoHasTheWriteLock(w, p, t);
    }
  }

  /** Without expiry, a release frees the caller's own hold and no other. */
  lemma ReleaseFreesOwnHold(w: World, p: nat, t: string, q: nat, u: string)
    requires Exclusive(w.shared) && Registered(w) && p in w.clients && q in w.clients
    requires HasReadLock(w.shared, w.clients[q], u) && (p, t) != (q, u)
    ensures var w' := Next(w, ReleaseReadStep(p, t)); HasReadLock(w'.shared, w'.clients[q], u)
  {
  }

  /** With expiry, a process may still list a slot that has been cleared and given to another.  A release
      takes away the hold of exactly those processes and threads that list the slot the caller lists. */
  lemma ReleaseFreesWhatTheSlotNames(w: World, p: nat, t: string)
    requires Exclusive(w.shared) && p in w.clients && HasReadLock(w.shared, w.clients[p], t)
    ensures var i := w.clients[p].threads[t];
            var w' := Next(w, ReleaseReadStep(p, t));
            && !w'.shared.slots[i].used
            && (forall j :: 0 <= j < |w.shared.slots| && j != i ==> w'.shared.slots[j] == w.shared.slots[j])
            && (forall q, u :: q in w.clients && u in w.clients[q].threads && (p, t) != (q, u) ==>
                  (HasReadLock(w'.shared, w'.clients[q], u) <==>
                   HasReadLock(w.shared, w.clients[q], u) && w.clients[q].threads[u] != i))
  {
    ErrorsAreUnreachable(w.shared, w.clients[p], p, t, 0);
  }

  /** The holds of threads on the first `k` slots. */
  ghost function ReadHolds(w: World, k: nat): set<(nat, string)>
  {
    set p, t | p in w.clients && t in w.clients[p].threads && HasReadLock(w.shared, w.clients[p], t)
               && w.clients[p].threads[t] < k :: (p, t)
  }

  /** A used slot is the hold of one thread, an unused one of none. */
  lemma HoldOnSlot(w: World, k: nat)
    requires Registered(w) && k < |w.shared.slots|
    ensures var s := w.shared.slots[k];
            && (s.used ==> s.pid >= 0 && (s.pid as nat, s.thread) !in ReadHolds(w, k)
                           && ReadHolds(w, k + 1) == ReadHolds(w, k) + {(s.pid as nat, s.thread)})
            && (!s.used ==> ReadHolds(w, k + 1) == ReadHolds(w, k))
  {
    if w.shared.slots[k].used {
      assert OnList(w, k);
    }
  }

  lemma OneMoreSlot(w: World, k: nat)
    requires Registered(w) && k < |w.shared.slots|
    ensures |ReadHolds(w, k + 1)| == |ReadHolds(w, k)| + if w.shared.slots[k].used then 1 else 0
  {
    HoldOnSlot(w, k);
  }

  lemma {:induction false} HoldsOnSlots(w: World, k: nat)
    requires Registered(w) && k <= |w.shared.slots|
    ensures |ReadHolds(w, k)| == Used(w.shared.slots, k)
    decreases k
  {
    if k == 0 {
      assert ReadHolds(w, 0) == {};
    } else {
      HoldsOnSlots(w, k - 1);
      OneMoreSlot(w, k - 1);
    }
  }

  /** In every run without expiry the reader count is the number of threads, over all processes, that have a
      read lock. */
  lemma ReadersCountTheHolds(w: World, steps: seq<Step>)
    requires Exclusive(w.shared) && Registered(w)
    requires forall s <- steps :: !Expiry(s)
    ensures var v := Run(w, steps); |ReadHolds(v, MAX_READERS)| == v.shared.readers
    ensures var v := Run(w, steps);
            forall p, t :: p in v.clients && t in v.clients[p].threads ==> (p, t) in ReadHolds(v, MAX_READERS)
  {
    RunKeepsExclusive(w, steps);
    RunKeepsRegistered(w, steps);
    HoldsOnSlots(Run(w, steps), MAX_READERS);
  }

  /** An attempt at the write lock succeeds exactly when the process has no transaction id, nobody writes and
      nobody reads.  So a second call by the thread that has the lock is refused. */
  lemma WriteLockSucceedsExactly(w: World, p: nat, t: string, uuid: string, now: nat)
    requires Exclusive(w.shared) && WriterKnown(w) && p in w.clients && uuid != ""
    ensures var r := WriteLock(w.shared, w.clients[p], p, t, uuid, now);
            && (r.Ok? && r.value.2 != "" <==>
                w.clients[p].txn == "" && !w.shared.writeLocked && Holders(w.shared) == 0)
            && (HasWriteLock(w.shared, w.clients[p], p, t) ==> r == Err(BadArgument))
  {
  }

  /* ---------- What expiry breaks ---------- */

  /** The process holds a transaction id but the record no longer names it as the writer. */
  predicate LostLease(w: World, p: nat)
  {
    p in w.clients && w.clients[p].txn != "" && !(w.shared.writeLocked && w.shared.ownerPid == p)
  }

  /** A process whose write lease has expired can never write-lock again: its stale id is not cleared by a
      release and bars it from every later attempt. */
  lemma {:induction false} LostLeaseIsForGood(w: World, p: nat, steps: seq<Step>)
    requires Exclusive(w.shared) && LostLease(w, p)
    ensures LostLease(Run(w, steps), p) && Run(w, steps).clients[p].txn == w.clients[p].txn
    decreases steps
  {
    if steps != [] {
      StepKeepsExclusive(w, steps[0]);
      LostLeaseStays(w, p, steps[0]);
      LostLeaseIsForGood(Next(w, steps[0]), p, steps[1..]);
    }
  }

  lemma LostLeaseStays(w: World, p: nat, step: Step)
    requires Exclusive(w.shared) && LostLease(w, p)
    ensures LostLease(Next(w, step), p) && Next(w, step).clients[p].txn == w.clients[p].txn
  {
  }

  const LATE: nat := READ_TIMEOUT + 1

  /** A reader's lease runs out and its slot goes to a second reader. */
  function Overtaken(): seq<Step>
  {
    [ReadLockStep(1, "a", 0)] + ([SweepSlotStep(0, LATE)] + ([ReadLockStep(2, "b", LATE)] + []))
  }

  /** The first reader releases, and a writer comes. */
  function ThenReleased(): seq<Step>
  {
    [ReleaseReadStep(1, "a")] + ([WriteLockStep(3, "c", "id", LATE)] + [])
  }

  ghost predicate ThreeIdle(w: World)
  {
    && Exclusive(w.shared) && !w.shared.writeLocked && w.shared.readers == 0
    && 1 in w.clients && 2 in w.clients && 3 in w.clients
    && w.clients[1] == w.clients[2] == w.clients[3] == Client("", map[])
  }

  lemma RunThree(w: World, a: Step, b: Step, c: Step)
    requires Exclusive(w.shared)
    ensures Exclusive(Next(w, a).shared) && Exclusive(Next(Next(w, a), b).shared)
    ensures Run(w, [a] + ([b] + ([c] + []))) == Next(Next(Next(w, a), b), c)
  {
    RunCons(w, a, [b] + ([c] + []));
    RunCons(Next(w, a), b, [c] + []);
    RunCons(Next(Next(w, a), b), c, []);
  }

  lemma OvertakenState(w: World)
    requires ThreeIdle(w)
    ensures var v := Run(w, Overtaken());
            && Exclusive(v.shared) && !v.shared.writeLocked && v.shared.readers == 1
            && v.shared.slots[0] == Slot(true, 2, "b", LATE)
            && v.clients == w.clients[1 := Client("", map["a" := 0])][2 := Client("", map["b" := 0])]
  {
    UsedBounds(w.shared.slots, MAX_READERS);
    assert FirstFree(w.shared.slots, 0) == 0;
    RunThree(w, ReadLockStep(1, "a", 0), SweepSlotStep(0, LATE), ReadLockStep(2, "b", LATE));
    var w1 := Next(w, ReadLockStep(1, "a", 0));
    var w2 := Next(w1, SweepSlotStep(0, LATE));
    assert !w2.shared.slots[0].used && FirstFree(w2.shared.slots, 0) == 0;
    RunKeepsExclusive(w, Overtaken());
  }

  /** An expired reader's release can take the hold of a reader that came after it, and so let a writer in
      while that reader's lease still runs. */
  lemma StrayReleaseAdmitsWriter(w: World)
    requires ThreeIdle(w)
    ensures var v := Run(w, Overtaken());
            && Exclusive(v.shared) && 2 in v.clients && "b" in v.clients[2].threads
            && HasReadLock(v.shared, v.clients[2], "b")
            && !Expired(LATE, v.shared.slots[v.clients[2].threads["b"]].stamp, READ_TIMEOUT)
            && var u := Run(v, ThenReleased()); 3 in u.clients && HasWriteLock(u.shared, u.clients[3], 3, "c")
  {
    OvertakenState(w);
    var v := Run(w, Overtaken());
    RunCons(v, ReleaseReadStep(1, "a"), [WriteLockStep(3, "c", "id", LATE)] + []);
    RunCons(Next(v, ReleaseReadStep(1, "a")), WriteLockStep(3, "c", "id", LATE), []);
  }

  /** A process takes the write lock, its lease runs out, and the next attempt is refused although nobody
      writes and nobody reads. */
  lemma LeaseIsLost(w: World)
    requires ThreeIdle(w)
    ensures var v := Run(w, [WriteLockStep(1, "a", "id", 0)] + ([SweepWriterStep(LATE)] + []));
            && Exclusive(v.shared) && LostLease(v, 1) && !v.shared.writeLocked && v.shared.readers == 0
            && WriteLock(v.shared, v.clients[1], 1, "a", "next", LATE) == Err(BadArgument)
  {
    RunCons(w, WriteLockStep(1, "a", "id", 0), [SweepWriterStep(LATE)] + []);
    RunCons(Next(w, WriteLockStep(1, "a", "id", 0)), SweepWriterStep(LATE), []);
    StepKeepsExclusive(Next(w, WriteLockStep(1, "a", "id", 0)), SweepWriterStep(LATE));
  }

  /** A reader takes the second slot just before the first one's lease runs out, and is swept at once. */
  function LiveLeaseSwept(): seq<Step>
  {
    [ReadLockStep(1, "a", 0)] + ([ReadLockStep(2, "b", LATE)] + ([SweepSlotStep(1, LATE)] + []))
  }

  lemma LiveReaderIsSwept(w: World)
    requires ThreeIdle(w)
    ensures var v := Run(w, LiveLeaseSwept());
            && Exclusive(v.shared) && 2 in v.clients && "b" in v.clients[2].threads
            && v.clients[2].threads["b"] == 1 && v.shared.slots[1] == Slot(false, 2, "b", LATE)
            && !Expired(LATE, v.shared.slots[1].stamp, READ_TIMEOUT)
            && !HasReadLock(v.shared, v.clients[2], "b") && HasReadLock(v.shared, v.clients[1], "a")
  {
    UsedBounds(w.shared.slots, MAX_READERS);
    assert FirstFree(w.shared.slots, 0) == 0;
    var w1 := Next(w, ReadLockStep(1, "a", 0));
    assert w1.shared.slots[0].used && !w1.shared.slots[1].used;
    assert FirstFree(w1.shared.slots, 0) == FirstFree(w1.shared.slots, 1) == 1;
    RunThree(w, ReadLockStep(1, "a", 0), ReadLockStep(2, "b", LATE), SweepSlotStep(1, LATE));
    RunKeepsExclusive(w, LiveLeaseSwept());
  }
}
