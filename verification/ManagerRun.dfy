/**
 The manager beside the clients.  It takes no lock, so critical sections of the clients come between its looks and
 what it does about them: between the look at the writer's lease and its clearing, between the looks at two slots,
 and between the last look of a reset and the storing of its count.
 */
module ManagerRuns {
  import opened Outcomes
  import opened LockProtocol
  import E = LockEffects

  /** Where the manager stands.  `gain` notes by how much the used slots already counted have grown since; the
      source keeps no such note and no act looks at it. */
  datatype Manager =
    | Resting
    | Condemning(txn: string, reset: bool)  // has found the lease of this writer expired, cleared nothing
    | Recounting(pos: nat, count: nat, gain: int)

  datatype State = State(w: World, m: Manager)

  datatype Act =
    | Do(step: Step)  // a client's critical section, or the sweep's look at one slot
    | LookAtLease(reset: bool, now: nat, alive: set<int>)
    | ClearLease
    | LookAtSlot(now: nat, alive: set<int>)
    | StoreCount

  /** What follows the writer's lease: a reset counts the readers, a sweep looks at the slots one by one. */
  function AfterLease(reset: bool): Manager { if reset then Recounting(0, 0, 0) else Resting }

  /** By how much a client's critical section changes the used slots below `pos`: one more for a read lock on a
      new slot there, one less for the release of one. */
  function Gain(w: World, pos: nat, step: Step): int
  {
    match step
    case ReadLockStep(p, t, now) =>
      if TakesSlot(w, p, t) && FirstFree(w.shared.slots, 0) < pos then 1 else 0
    case ReleaseReadStep(p, t) =>
      if FreesSlot(w, p, t) && w.clients[p].threads[t] < pos then -1 else 0
    case _ => 0
  }

  predicate TakesSlot(w: World, p: nat, t: string)
  {
    && p in w.clients && !w.shared.writeLocked && !HasReadLock(w.shared, w.clients[p], t)
    && w.shared.readers < MAX_READERS && FirstFree(w.shared.slots, 0) < |w.shared.slots|
  }

  predicate FreesSlot(w: World, p: nat, t: string)
  {
    p in w.clients && HasReadLock(w.shared, w.clients[p], t) && w.shared.readers > 0
  }

  function Next(s: State, act: Act): State
  {
    match act
    case Do(step) =>
      if !Expiry(step) then
        State(ClientNext(s.w, step),
              if s.m.Recounting? then s.m.(gain := s.m.gain + Gain(s.w, s.m.pos, step)) else s.m)
      else if step.SweepSlotStep? && s.m.Resting? then SweepOne(s, step.i, step.now)
      else s
    case LookAtLease(reset, now, alive) =>
      if !s.m.Resting? then s
      else s.(m := if Overdue(s.w.shared, reset, now, alive) then Condemning(s.w.shared.ownerTxn, reset)
                   else AfterLease(reset))
    case ClearLease =>
      if !s.m.Condemning? then s
      else State(s.w.(shared := WithoutWriter(s.w.shared)), AfterLease(s.m.reset))
    case LookAtSlot(now, alive) =>
      if s.m.Recounting? && s.m.pos < |s.w.shared.slots| then LookOne(s, now, alive) else s
    case StoreCount =>
      if s.m.Recounting? && s.m.pos == |s.w.shared.slots|
      then State(s.w.(shared := s.w.shared.(readers := s.m.count)), Resting) else s
  }

  function SweepOne(s: State, i: nat, now: nat): State
  {
    var sh := s.w.shared;
    if i < |sh.slots| && (sh.slots[i].used ==> sh.readers > 0)
    then s.(w := s.w.(shared := SweepSlot(sh, i, now))) else s
  }

  /** The lease of a writer has run out, or a reset finds its process dead. */
  predicate Overdue(sh: Shared, reset: bool, now: nat, alive: set<int>)
  {
    sh.writeLocked && (Expired(now, sh.ownerStamp, WRITE_TIMEOUT) || (reset && sh.ownerPid !in alive))
  }

  predicate SlotOverdue(sh: Shared, i: nat, now: nat, alive: set<int>)
    requires i < |sh.slots|
  {
    sh.slots[i].used && (sh.slots[i].pid !in alive || Expired(now, sh.slots[0].stamp, READ_TIMEOUT))
  }

  /** A reset's look at the next slot: it clears it, or counts it if it is used. */
  function LookOne(s: State, now: nat, alive: set<int>): State
    requires s.m.Recounting? && s.m.pos < |s.w.shared.slots|
  {
    var sh, i := s.w.shared, s.m.pos;
    if SlotOverdue(sh, i, now, alive)
    then State(s.w.(shared := sh.(slots := sh.slots[i := sh.slots[i].(used := false)])), s.m.(pos := i + 1))
    else s.(m := s.m.(pos := i + 1, count := s.m.count + if sh.slots[i].used then 1 else 0))
  }

  function Run(s: State, acts: seq<Act>): State
    decreases acts
  {
    if acts == [] then s else Run(Next(s, acts[0]), acts[1..])
  }

  lemma RunCons(s: State, act: Act, rest: seq<Act>)
    ensures Run(s, [act] + rest) == Run(Next(s, act), rest)
  {
    assert ([act] + rest)[1..] == rest;
  }

  lemma {:induction false} RunConcat(s: State, a: seq<Act>, b: seq<Act>)
    ensures Run(s, a + b) == Run(Run(s, a), b)
    decreases a
  {
    if a == [] {
      assert a + b == b;
    } else {
      assert (a + b)[1..] == a[1..] + b;
      RunConcat(Next(s, a[0]), a[1..], b);
    }
  }

  /* ---------- Exclusion ---------- */

  /** While a reset counts, the reader count may be too high, since slots are cleared and it is not lowered. */
  predicate Sound(s: State)
  {
    var sh := s.w.shared;
    if s.m.Recounting? then
      && |sh.slots| == MAX_READERS && s.m.pos <= MAX_READERS
      && sh.readers >= Holders(sh) && (sh.writeLocked ==> sh.readers == 0)
      && Used(sh.slots, s.m.pos) == s.m.count + s.m.gain
    else Exclusive(sh)
  }

  /** A store of a count that the used slots have outgrown, or fallen behind. */
  predicate StoresWrong(s: State, act: Act)
  {
    act.StoreCount? && s.m.Recounting? && s.m.pos == |s.w.shared.slots| && s.m.gain != 0
  }

  lemma ReadLockKeepsSound(s: State, p: nat, t: string, now: nat)
    requires Sound(s) && s.m.Recounting?
    ensures Sound(Next(s, Do(ReadLockStep(p, t, now))))
  {
    var slots := s.w.shared.slots;
    UsedBounds(slots, |slots|);
    if TakesSlot(s.w, p, t) {
      var i := FirstFree(slots, 0);
      UsedAfterUpdate(slots, i, Slot(true, p, t, now), |slots|);
      UsedAfterUpdate(slots, i, Slot(true, p, t, now), s.m.pos);
    }
  }

  lemma ReleaseReadKeepsSound(s: State, p: nat, t: string)
    requires Sound(s) && s.m.Recounting?
    ensures Sound(Next(s, Do(ReleaseReadStep(p, t))))
  {
    var slots := s.w.shared.slots;
    UsedBounds(slots, |slots|);
    if FreesSlot(s.w, p, t) {
      var i := s.w.clients[p].threads[t];
      UsedAfterUpdate(slots, i, slots[i].(used := false), |slots|);
      UsedAfterUpdate(slots, i, slots[i].(used := false), s.m.pos);
    }
  }

  lemma ClientKeepsSound(s: State, step: Step)
    requires Sound(s) && !Expiry(step)
    ensures Sound(Next(s, Do(step)))
  {
    if !s.m.Recounting? {
      StepKeepsExclusive(s.w, step);
    } else if step.ReadLockStep? {
      ReadLockKeepsSound(s, step.pid, step.thread, step.now);
    } else if step.ReleaseReadStep? {
      ReleaseReadKeepsSound(s, step.pid, step.thread);
    }
  }

  lemma LookKeepsSound(s: State, now: nat, alive: set<int>)
    requires Sound(s)
    ensures Sound(Next(s, LookAtSlot(now, alive)))
  {
    var slots := s.w.shared.slots;
    if s.m.Recounting? && s.m.pos < |slots| {
      var i := s.m.pos;
      UsedAfterUpdate(slots, i, slots[i].(used := false), |slots|);
      UsedAfterUpdate(slots, i, slots[i].(used := false), i + 1);
    }
  }

  lemma SweepKeepsSound(s: State, i: nat, now: nat)
    requires Sound(s) && s.m.Resting?
    ensures Sound(SweepOne(s, i, now))
  {
    var slots := s.w.shared.slots;
    if i < |slots| {
      UsedBounds(slots, |slots|);
      UsedAfterUpdate(slots, i, slots[i].(used := false), |slots|);
    }
  }

  lemma StoreKeepsSoundExactly(s: State)
    requires Sound(s)
    ensures Sound(Next(s, StoreCount)) <==> !StoresWrong(s, StoreCount)
  {
  }

  lemma ActKeepsSoundExactly(s: State, act: Act)
    requires Sound(s)
    ensures Sound(Next(s, act)) <==> !StoresWrong(s, act)
  {
    match act
    case Do(step) =>
      if !Expiry(step) {
        ClientKeepsSound(s, step);
      } else if step.SweepSlotStep? && s.m.Resting? {
        SweepKeepsSound(s, step.i, step.now);
      }
    case LookAtLease(_, _, _) =>
    case ClearLease =>
    case LookAtSlot(now, alive) => LookKeepsSound(s, now, alive);
    case StoreCount => StoreKeepsSoundExactly(s);
  }

  predicate AlwaysSound(s: State, acts: seq<Act>)
    decreases acts
  {
    Sound(s) && (acts == [] || AlwaysSound(Next(s, acts[0]), acts[1..]))
  }

  predicate StoresRight(s: State, acts: seq<Act>)
    decreases acts
  {
    acts == [] || (!StoresWrong(s, acts[0]) && StoresRight(Next(s, acts[0]), acts[1..]))
  }

  /** Whatever comes between the acts of sweeps and resets, exclusion and the count hold at every moment outside
      of resets exactly when each reset stores its count while the slots counted have gained as many holders as
      they have lost. */
  lemma {:induction false} RunStaysSoundExactly(s: State, acts: seq<Act>)
    requires Sound(s)
    ensures AlwaysSound(s, acts) <==> StoresRight(s, acts)
    decreases acts
  {
    if acts != [] {
      ActKeepsSoundExactly(s, acts[0]);
      if !StoresWrong(s, acts[0]) {
        RunStaysSoundExactly(Next(s, acts[0]), acts[1..]);
      } else {
        assert !AlwaysSound(Next(s, acts[0]), acts[1..]);
      }
    }
  }

  /** By how much the slots already counted grow over the acts of one reset. */
  function Gains(s: State, acts: seq<Act>): int
    decreases acts
  {
    if acts == [] then 0
    else
      (if acts[0].Do? && s.m.Recounting? then Gain(s.w, s.m.pos, acts[0].step) else 0)
      + Gains(Next(s, acts[0]), acts[1..])
  }

  predicate Counts(act: Act) { act.LookAtSlot? || (act.Do? && !Expiry(act.step)) }

  lemma {:induction false} GainsAddUp(s: State, acts: seq<Act>)
    requires Sound(s) && s.m.Recounting? && forall a <- acts :: Counts(a)
    ensures var v := Run(s, acts); Sound(v) && v.m.Recounting? && v.m.gain == s.m.gain + Gains(s, acts)
    decreases acts
  {
    if acts != [] {
      assert Counts(acts[0]);
      ActKeepsSoundExactly(s, acts[0]);
      GainsAddUp(Next(s, acts[0]), acts[1..]);
    }
  }

  /** A reset that has looked at every slot, with whatever critical sections in between, stores the right count
      exactly when as many holders came to slots it had passed as left them. */
  lemma RecountIsRightExactly(w: World, acts: seq<Act>)
    requires Exclusive(w.shared) && forall a <- acts :: Counts(a)
    requires var v := Run(State(w, Recounting(0, 0, 0)), acts); v.m.Recounting? && v.m.pos == MAX_READERS
    ensures var s := State(w, Recounting(0, 0, 0));
            Exclusive(Next(Run(s, acts), StoreCount).w.shared) <==> Gains(s, acts) == 0
  {
    var s := State(w, Recounting(0, 0, 0));
    GainsAddUp(s, acts);
    StoreKeepsSoundExactly(Run(s, acts));
  }

  /* ---------- A reset that nobody comes between ---------- */

  /** The looks at the slots from `i` on, with the clock's reading for each. */
  function Looks(readings: seq<nat>, alive: set<int>, i: nat): seq<Act>
    decreases |readings| - i
  {
    if i >= |readings| then [] else [LookAtSlot(readings[i], alive)] + Looks(readings, alive, i + 1)
  }

  /** The slots as a reset leaves them. */
  function Kept(sh: Shared, readings: seq<nat>, alive: set<int>): seq<Slot>
  {
    Swept(sh.slots, Clock(readings), pid => pid in alive)
  }

  /** The record and the count when a reset has come to slot `i`. */
  ghost predicate LookedUpTo(s: State, w: World, readings: seq<nat>, alive: set<int>, i: nat)
    requires |w.shared.slots| == |readings|
  {
    var kept := Kept(w.shared, readings, alive);
    && i <= |readings| && |s.w.shared.slots| == |readings|
    && s.w == w.(shared := w.shared.(slots := s.w.shared.slots))
    && s.m == Recounting(i, Used(kept, i), 0)
    && forall j :: 0 <= j < |readings| ==> s.w.shared.slots[j] == if j < i then kept[j] else w.shared.slots[j]
  }

  lemma OneLook(s: State, w: World, readings: seq<nat>, alive: set<int>, i: nat)
    requires |w.shared.slots| == |readings| && i < |readings| && LookedUpTo(s, w, readings, alive, i)
    ensures LookedUpTo(Next(s, LookAtSlot(readings[i], alive)), w, readings, alive, i + 1)
  {
    assert s.w.shared.slots[i] == w.shared.slots[i] && s.w.shared.slots[0].stamp == w.shared.slots[0].stamp;
  }

  lemma {:induction false} LooksCount(s: State, w: World, readings: seq<nat>, alive: set<int>, i: nat)
    requires |w.shared.slots| == |readings| && LookedUpTo(s, w, readings, alive, i)
    ensures LookedUpTo(Run(s, Looks(readings, alive, i)), w, readings, alive, |readings|)
    decreases |readings| - i
  {
    if i < |readings| {
      OneLook(s, w, readings, alive, i);
      RunCons(s, LookAtSlot(readings[i], alive), Looks(readings, alive, i + 1));
      LooksCount(Next(s, LookAtSlot(readings[i], alive)), w, readings, alive, i + 1);
    }
  }

  /** A count that nobody comes between, from the first slot to the store. */
  lemma UndisturbedRecount(w: World, readings: seq<nat>, alive: set<int>)
    requires |w.shared.slots| == |readings|
    ensures var kept := Kept(w.shared, readings, alive);
            Run(State(w, Recounting(0, 0, 0)), Looks(readings, alive, 0) + ([StoreCount] + []))
            == State(w.(shared := w.shared.(slots := kept, readers := Used(kept, |kept|))), Resting)
  {
    var s, looks := State(w, Recounting(0, 0, 0)), Looks(readings, alive, 0);
    LooksCount(s, w, readings, alive, 0);
    RunConcat(s, looks, [StoreCount] + []);
    RunCons(Run(s, looks), StoreCount, []);
    assert Run(s, looks).w.shared.slots == Kept(w.shared, readings, alive);
  }

  function ResetActs(now: nat, readings: seq<nat>, alive: set<int>): seq<Act>
  {
    [LookAtLease(true, now, alive)] + ([ClearLease] + (Looks(readings, alive, 0) + ([StoreCount] + [])))
  }

  /** The acts of a reset that nobody comes between add up to the whole reset. */
  lemma UndisturbedReset(w: World, now: nat, readings: seq<nat>, alive: set<int>)
    requires |w.shared.slots| == |readings|
    ensures Run(State(w, Resting), ResetActs(now, readings, alive))
            == State(w.(shared := Reset(w.shared, now, Clock(readings), pid => pid in alive)), Resting)
  {
    var s, look := State(w, Resting), LookAtLease(true, now, alive);
    var recount := Looks(readings, alive, 0) + ([StoreCount] + []);
    RunCons(s, look, [ClearLease] + recount);
    RunCons(Next(s, look), ClearLease, recount);
    UndisturbedRecount(Next(Next(s, look), ClearLease).w, readings, alive);
  }

  /* ---------- Whose lease is cleared ---------- */

  /** Some attempt at the write lock succeeds. */
  predicate Relocked(s: State, acts: seq<Act>)
    decreases acts
  {
    acts != [] && (Relocks(s.w, acts[0]) || Relocked(Next(s, acts[0]), acts[1..]))
  }

  predicate Relocks(w: World, act: Act)
  {
    && act.Do? && act.step.WriteLockStep? && act.step.uuid != "" && act.step.pid in w.clients
    && var a := act.step;
       var r := WriteLock(w.shared, w.clients[a.pid], a.pid, a.thread, a.uuid, a.now);
       r.Ok? && r.value.2 != ""
  }

  /** A client's critical section that does not lock under a given id. */
  predicate OtherClient(act: Act, txn: string)
  {
    act.Do? && !Expiry(act.step) && (act.step.WriteLockStep? ==> act.step.uuid != txn)
  }

  lemma OwnerAfter(s: State, act: Act, txn: string)
    requires Sound(s) && s.m.Condemning? && txn != "" && OtherClient(act, txn)
    ensures Next(s, act).m == s.m
    ensures var sh, sh' := s.w.shared, Next(s, act).w.shared;
            if Relocks(s.w, act) then sh'.ownerTxn != txn
            else
              && (sh'.ownerTxn == sh.ownerTxn || sh'.ownerTxn == "")
              && (sh'.writeLocked ==> sh.writeLocked && sh'.ownerTxn == sh.ownerTxn)
  {
  }

  lemma {:induction false} OnceGone(s: State, acts: seq<Act>, txn: string)
    requires Sound(s) && s.m.Condemning? && txn != "" && s.w.shared.ownerTxn != txn
    requires forall a <- acts :: OtherClient(a, txn)
    ensures Run(s, acts).w.shared.ownerTxn != txn
    decreases acts
  {
    if acts != [] {
      assert OtherClient(acts[0], txn);
      OwnerAfter(s, acts[0], txn);
      ActKeepsSoundExactly(s, acts[0]);
      OnceGone(Next(s, acts[0]), acts[1..], txn);
    }
  }

  /** The manager clears the lease it has found expired, and no later one, exactly when no attempt at the write
      lock has succeeded between its look and its clearing. */
  lemma {:induction false} CondemnedIsClearedExactly(s: State, acts: seq<Act>)
    requires Sound(s) && s.m.Condemning? && s.m.txn != "" && Condemned(s)
    requires forall a <- acts :: OtherClient(a, s.m.txn)
    ensures var v := Run(s, acts); v.w.shared.writeLocked ==> (v.w.shared.ownerTxn == s.m.txn <==> !Relocked(s, acts))
    decreases acts
  {
    if acts != [] {
      assert OtherClient(acts[0], s.m.txn);
      var v := Next(s, acts[0]);
      OwnerAfter(s, acts[0], s.m.txn);
      ActKeepsSoundExactly(s, acts[0]);
      if Relocks(s.w, acts[0]) {
        OnceGone(v, acts[1..], s.m.txn);
      } else {
        CondemnedIsClearedExactly(v, acts[1..]);
      }
    }
  }

  /** The record still names the writer condemned, or none. */
  predicate Condemned(s: State)
    requires s.m.Condemning?
  {
    s.w.shared.writeLocked ==> s.w.shared.ownerTxn == s.m.txn
  }

  /** The manager condemns a writer exactly when it finds the lease over, or in a reset the process dead. */
  lemma LookCondemnsExactly(s: State, reset: bool, now: nat, alive: set<int>)
    requires s.m.Resting?
    ensures var v, sh := Next(s, LookAtLease(reset, now, alive)), s.w.shared;
            && v.w == s.w
            && (v.m.Condemning? <==>
                  sh.writeLocked && (E.Over(now, sh.ownerStamp) || (reset && sh.ownerPid !in alive)))
            && (v.m.Condemning? ==> v.m == Condemning(sh.ownerTxn, reset))
            && (!v.m.Condemning? ==> v.m == if reset then Recounting(0, 0, 0) else Resting)
  {
  }

  /** Look and clearing that nobody comes between add up to the sweep's step for the writer. */
  lemma UndisturbedLease(w: World, now: nat, alive: set<int>)
    ensures Run(State(w, Resting), [LookAtLease(false, now, alive)] + ([ClearLease] + []))
            == State(w.(shared := SweepWriter(w.shared, now)), Resting)
  {
    var s, look := State(w, Resting), LookAtLease(false, now, alive);
    RunCons(s, look, [ClearLease] + []);
    RunCons(Next(s, look), ClearLease, []);
  }

  /** Between resets, the sweep's look at a slot is its step for that slot. */
  lemma SweepLookIsItsStep(s: State, i: nat, now: nat)
    requires Sound(s) && s.m.Resting?
    ensures Next(s, Do(SweepSlotStep(i, now))) == s.(w := LockProtocol.Next(s.w, SweepSlotStep(i, now)))
  {
    UsedBounds(s.w.shared.slots, |s.w.shared.slots|);
  }

  /** The manager clears some writer in a run. */
  predicate Clears(s: State, acts: seq<Act>)
    decreases acts
  {
    acts != [] && ((acts[0].ClearLease? && s.m.Condemning?) || Clears(Next(s, acts[0]), acts[1..]))
  }

  /** What the owner of the write lock does not do while it wants to keep it. */
  predicate Keeps(act: Act, p: nat) { !(act.Do? && act.step.ReleaseWriteStep? && act.step.pid == p) }

  ghost predicate LostIt(s: State, p: nat)
  {
    Sound(s) && LostLease(s.w, p)
  }

  lemma {:induction false} LostItForGood(s: State, p: nat, acts: seq<Act>)
    requires LostIt(s, p) && StoresRight(s, acts)
    ensures LostIt(Run(s, acts), p)
    decreases acts
  {
    if acts != [] {
      ActKeepsSoundExactly(s, acts[0]);
      LostItForGood(Next(s, acts[0]), p, acts[1..]);
    }
  }

  lemma ActKeepsWriter(s: State, act: Act, p: nat, thread: string)
    requires Sound(s) && E.HasIt(s.w, p, thread) && Keeps(act, p) && !StoresWrong(s, act)
    ensures var v := Next(s, act);
            if act.ClearLease? && s.m.Condemning? then LostIt(v, p)
            else Sound(v) && E.HasIt(v.w, p, thread) && v.w.shared.ownerStamp == s.w.shared.ownerStamp
  {
    ActKeepsSoundExactly(s, act);
  }

  /** A writer that does not release keeps its lock, whatever comes between the manager's acts, exactly when the
      manager clears no writer. */
  lemma {:induction false} WriterKeepsLockExactly(s: State, acts: seq<Act>, p: nat, thread: string)
    requires Sound(s) && E.HasIt(s.w, p, thread) && StoresRight(s, acts) && forall a <- acts :: Keeps(a, p)
    ensures E.HasIt(Run(s, acts).w, p, thread) <==> !Clears(s, acts)
    decreases acts
  {
    if acts != [] {
      var v := Next(s, acts[0]);
      assert Keeps(acts[0], p);
      ActKeepsWriter(s, acts[0], p, thread);
      if acts[0].ClearLease? && s.m.Condemning? {
        LostItForGood(v, p, acts[1..]);
      } else {
        WriterKeepsLockExactly(v, acts[1..], p, thread);
      }
    }
  }

  /** A look that finds the lease running and, in a reset, its process alive. */
  predicate FindsRunning(act: Act, p: nat, stamp: nat)
  {
    act.LookAtLease? ==> !E.Over(act.now, stamp) && (act.reset ==> p in act.alive)
  }

  /** So a writer has its lock for as long as the manager's looks find its lease running. */
  lemma {:induction false} RunningLeaseIsKept(s: State, acts: seq<Act>, p: nat, thread: string)
    requires Sound(s) && E.HasIt(s.w, p, thread) && StoresRight(s, acts) && !s.m.Condemning?
    requires forall a <- acts :: Keeps(a, p) && FindsRunning(a, p, s.w.shared.ownerStamp)
    ensures E.HasIt(Run(s, acts).w, p, thread) && !Clears(s, acts)
    decreases acts
  {
    if acts != [] {
      assert Keeps(acts[0], p) && FindsRunning(acts[0], p, s.w.shared.ownerStamp);
      ActKeepsWriter(s, acts[0], p, thread);
      RunningLeaseIsKept(Next(s, acts[0]), acts[1..], p, thread);
    }
  }

  /* ---------- Runs that go wrong ---------- */

  /** No process the manager finds alive; it looks only at slots that are not used. */
  const NOBODY: set<int> := {}

  /** The manager finds a lease expired; its owner releases, another writer locks, and loses its fresh lease. */
  lemma FreshLeaseIsCleared(w: World)
    requires ThreeIdle(w)
    ensures var acts := [Do(WriteLockStep(1, "a", "id", 0))] + ([LookAtLease(false, LATE, NOBODY)] +
                        ([Do(ReleaseWriteStep(1, "a"))] + ([Do(WriteLockStep(3, "c", "next", LATE))] + [])));
            var v := Run(State(w, Resting), acts);
            var sh := Next(v, ClearLease).w.shared;
            && 3 in v.w.clients && HasWriteLock(v.w.shared, v.w.clients[3], 3, "c")
            && !Expired(LATE, v.w.shared.ownerStamp, WRITE_TIMEOUT)
            && v.m == Condemning("id", false) && !sh.writeLocked && sh.readers == 0
  {
    var s := State(w, Resting);
    var a, b := Do(WriteLockStep(1, "a", "id", 0)), LookAtLease(false, LATE, NOBODY);
    var c, d := Do(ReleaseWriteStep(1, "a")), Do(WriteLockStep(3, "c", "next", LATE));
    RunCons(s, a, [b] + ([c] + ([d] + [])));
    RunCons(Next(s, a), b, [c] + ([d] + []));
    RunCons(Next(Next(s, a), b), c, [d] + []);
    RunCons(Next(Next(Next(s, a), b), c), d, []);
  }

  /** Looks at slots that are not used change and count nothing. */
  lemma {:induction false} LooksAtUnused(s: State, readings: seq<nat>, alive: set<int>, i: nat)
    requires |s.w.shared.slots| == |readings| && i <= |readings|
    requires s.m.Recounting? && s.m.pos == i
    requires forall j :: i <= j < |readings| ==> !s.w.shared.slots[j].used
    ensures Run(s, Looks(readings, alive, i)) == s.(m := s.m.(pos := |readings|))
    decreases |readings| - i
  {
    if i < |readings| {
      RunCons(s, LookAtSlot(readings[i], alive), Looks(readings, alive, i + 1));
      LooksAtUnused(Next(s, LookAtSlot(readings[i], alive)), readings, alive, i + 1);
    }
  }

  /** A reset looks at the first slot, and a reader takes it. */
  function SlotPassed(): seq<Act>
  {
    [LookAtLease(true, 0, NOBODY)] + ([LookAtSlot(0, NOBODY)] + ([Do(ReadLockStep(1, "a", 0))] + []))
  }

  /** The reset looks at the others and stores its count; a writer comes. */
  function ThenStored(readings: seq<nat>): seq<Act>
  {
    Looks(readings, NOBODY, 1) + ([StoreCount] + ([Do(WriteLockStep(3, "c", "id", 0))] + []))
  }

  lemma SlotIsPassed(w: World)
    requires ThreeIdle(w)
    ensures var v := Run(State(w, Resting), SlotPassed());
            && v.m == Recounting(1, 0, 1) && |v.w.shared.slots| == MAX_READERS && !v.w.shared.writeLocked
            && v.w.clients == w.clients[1 := Client("", map["a" := 0])]
            && v.w.shared.slots[0].used && forall j :: 1 <= j < MAX_READERS ==> !v.w.shared.slots[j].used
  {
    UsedBounds(w.shared.slots, MAX_READERS);
    assert FirstFree(w.shared.slots, 0) == 0;
    var s, read := State(w, Resting), Do(ReadLockStep(1, "a", 0));
    var begun := Next(s, LookAtLease(true, 0, NOBODY));
    RunCons(s, LookAtLease(true, 0, NOBODY), [LookAtSlot(0, NOBODY)] + ([read] + []));
    RunCons(begun, LookAtSlot(0, NOBODY), [read] + []);
    RunCons(Next(begun, LookAtSlot(0, NOBODY)), read, []);
    assert Next(begun, LookAtSlot(0, NOBODY)) == State(w, Recounting(1, 0, 0));
    assert w.clients[1].threads["a" := 0] == map["a" := 0];
  }

  lemma StoredLate(s: State, readings: seq<nat>)
    requires s.m == Recounting(1, 0, 1) && !s.w.shared.writeLocked
    requires |s.w.shared.slots| == |readings| && 1 <= |readings|
    requires forall j :: 1 <= j < |readings| ==> !s.w.shared.slots[j].used
    requires 3 in s.w.clients && s.w.clients[3] == Client("", map[])
    ensures var v := Run(s, ThenStored(readings));
            && v.m == Resting && v.w.shared.slots == s.w.shared.slots
            && v.w.clients == s.w.clients[3 := Client("id", map[])]
            && HasWriteLock(v.w.shared, v.w.clients[3], 3, "c")
  {
    var looks, lock := Looks(readings, NOBODY, 1), Do(WriteLockStep(3, "c", "id", 0));
    LooksAtUnused(s, readings, NOBODY, 1);
    RunConcat(s, looks, [StoreCount] + ([lock] + []));
    RunCons(Run(s, looks), StoreCount, [lock] + []);
    RunCons(Next(Run(s, looks), StoreCount), lock, []);
  }

  /** A reader that comes to a slot already passed is not counted, and a writer is let in beside it, whatever
      the clock says. */
  lemma LateRecountAdmitsWriter(w: World, readings: seq<nat>)
    requires ThreeIdle(w) && |readings| == MAX_READERS
    ensures var v := Run(State(w, Resting), SlotPassed() + ThenStored(readings));
            && v.m == Resting && 1 in v.w.clients && 3 in v.w.clients
            && HasReadLock(v.w.shared, v.w.clients[1], "a") && HasWriteLock(v.w.shared, v.w.clients[3], 3, "c")
  {
    SlotIsPassed(w);
    StoredLate(Run(State(w, Resting), SlotPassed()), readings);
    RunConcat(State(w, Resting), SlotPassed(), ThenStored(readings));
  }
}
