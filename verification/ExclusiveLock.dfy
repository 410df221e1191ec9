/** The inter-process exclusive lock: a named semaphore, and one lock object in each process, which the threads
    of the process share without any other lock. */
module ExclusiveLocks {
  import opened Outcomes

  datatype Handle = Handle(locked: bool, owner: string)

  datatype Thread = Thread(pid: nat, id: string)

  /** Where a thread stands inside a call. */
  datatype Phase =
    | Idle
    | Trying     // has found itself without the lock, not yet been at the semaphore
    | Taken      // has been let through and written nothing
    | Marking    // has set `locked`, not yet the owner
    | Releasing  // has found itself with the lock, not yet posted
    | Forcing    // a reset that was not let through
    | Probing    // a reset that was let through
    | Posted     // has posted and cleared nothing
    | Unlocked   // has cleared `locked`, not yet the owner

  /** The semaphore's value, every process's lock object and every thread.  `through` notes the thread that was
      let through and has not posted; the source keeps no such note and no step looks at it. */
  datatype World = World(value: nat, handles: map<nat, Handle>, phases: map<Thread, Phase>, through: Option<Thread>)

  function PhaseOf(w: World, x: Thread): Phase { if x in w.phases then w.phases[x] else Idle }

  predicate IsLocked(h: Handle, id: string) { h.locked && h.owner == id }

  /** The thread finds itself with the lock. */
  predicate Has(w: World, x: Thread) { x.pid in w.handles && IsLocked(w.handles[x.pid], x.id) }

  /** A thread between calls begins one, or a thread inside a call goes on to its next access. */
  datatype Step = Try(x: Thread) | Release(x: Thread) | Reset(x: Thread) | Go(x: Thread)

  function At(w: World, x: Thread, phase: Phase): World { w.(phases := w.phases[x := phase]) }

  /** A thread let through takes one from the value, a post gives one back. */
  function LetThrough(w: World, x: Thread): World
    requires w.value > 0
  {
    w.(value := w.value - 1, through := Some(x))
  }

  function Post(w: World): World { w.(value := w.value + 1, through := None) }

  function SetLocked(w: World, p: nat, locked: bool): World
    requires p in w.handles
  {
    w.(handles := w.handles[p := w.handles[p].(locked := locked)])
  }

  function SetOwner(w: World, p: nat, owner: string): World
    requires p in w.handles
  {
    w.(handles := w.handles[p := w.handles[p].(owner := owner)])
  }

  /** One access to the semaphore or to one field.  A blocked wait is a thread that goes no further. */
  function Next(w: World, step: Step): World
  {
    var x := step.x;
    if x.pid !in w.handles || x.id == "" then w
    else if !step.Go? then if PhaseOf(w, x).Idle? then Begin(w, step) else w
    else
      match PhaseOf(w, x)
      case Idle => w
      case Trying => if w.value > 0 then At(LetThrough(w, x), x, Taken) else At(w, x, Idle)
      case Taken => At(SetLocked(w, x.pid, true), x, Marking)
      case Marking => At(SetOwner(w, x.pid, x.id), x, Idle)
      case Releasing => At(Post(w), x, Posted)
      case Forcing => At(w.(value := w.value + 1), x, Idle)
      case Probing => At(Post(w), x, Posted)
      case Posted => At(SetLocked(w, x.pid, false), x, Unlocked)
      case Unlocked => At(SetOwner(w, x.pid, ""), x, Idle)
  }

  /** A try or a wait and a release first look whether the thread has the lock; a reset tries the semaphore. */
  function Begin(w: World, step: Step): World
    requires !step.Go?
  {
    var x := step.x;
    match step
    case Try(_) => if Has(w, x) then w else At(w, x, Trying)
    case Release(_) => if Has(w, x) then At(w, x, Releasing) else w
    case Reset(_) => if w.value > 0 then At(LetThrough(w, x), x, Probing) else At(w, x, Forcing)
  }

  function Run(w: World, steps: seq<Step>): World
    decreases steps
  {
    if steps == [] then w else Run(Next(w, steps[0]), steps[1..])
  }

  lemma RunCons(w: World, step: Step, rest: seq<Step>)
    ensures Run(w, [step] + rest) == Run(Next(w, step), rest)
  {
    assert ([step] + rest)[1..] == rest;
  }

  /* ---------- What every run keeps ---------- */

  predicate Clearing(phase: Phase) { phase.Posted? || phase.Unlocked? }

  predicate InsideHold(phase: Phase) { phase.Taken? || phase.Marking? || phase.Releasing? || phase.Probing? }

  /** The value and the thread let through add up to one, and that thread is not past its post. */
  predicate OneThrough(w: World)
  {
    && w.value + (if w.through.Some? then 1 else 0) == 1
    && (w.through.Some? ==>
          var y := w.through.value;
          y.pid in w.handles && y.id != "" && !Clearing(PhaseOf(w, y)) && !PhaseOf(w, y).Forcing?)
  }

  ghost predicate OnlyThroughInside(w: World)
  {
    forall x :: InsideHold(PhaseOf(w, x)) ==> w.through == Some(x)
  }

  /** Who is named as owner was let through, or is on the way out. */
  ghost predicate OwnersKnown(w: World)
  {
    forall x: Thread :: x.pid in w.handles && x.id != "" && w.handles[x.pid].owner == x.id ==>
      w.through == Some(x) || Clearing(PhaseOf(w, x))
  }

  /** The thread accounts for its object being locked. */
  predicate AccountsFor(w: World, x: Thread, p: nat) { x.pid == p && (w.through == Some(x) || PhaseOf(w, x).Posted?) }

  ghost predicate LocksAccounted(w: World)
  {
    forall p :: p in w.handles && w.handles[p].locked ==> exists x :: AccountsFor(w, x, p)
  }

  ghost predicate Kept(w: World)
  {
    OneThrough(w) && OnlyThroughInside(w) && OwnersKnown(w) && LocksAccounted(w)
  }

  /** A reset finds the semaphore free.  One that does not posts it, whoever was let through. */
  predicate ResetFindsFree(w: World, step: Step) { step.Reset? ==> w.value > 0 }

  predicate ResetsFindFree(w: World, steps: seq<Step>)
    decreases steps
  {
    steps == [] || (ResetFindsFree(w, steps[0]) && ResetsFindFree(Next(w, steps[0]), steps[1..]))
  }

  ghost predicate NoneForcing(w: World) { forall x :: !PhaseOf(w, x).Forcing? }

  lemma StepKeepsThrough(w: World, step: Step)
    requires Kept(w) && NoneForcing(w) && ResetFindsFree(w, step)
    ensures OneThrough(Next(w, step)) && OnlyThroughInside(Next(w, step)) && NoneForcing(Next(w, step))
  {
    StepKeepsOneThrough(w, step);
    var w' := Next(w, step);
    forall x ensures (InsideHold(PhaseOf(w', x)) ==> w'.through == Some(x)) && !PhaseOf(w', x).Forcing? {
      assert InsideHold(PhaseOf(w, x)) ==> w.through == Some(x);
      assert step.x == x && x.id != "" ==> (Has(w, x) && PhaseOf(w, x).Idle? ==> w.through == Some(x));
    }
  }

  lemma StepKeepsOneThrough(w: World, step: Step)
    requires Kept(w) && NoneForcing(w) && ResetFindsFree(w, step)
    ensures OneThrough(Next(w, step))
  {
    assert InsideHold(PhaseOf(w, step.x)) ==> w.through == Some(step.x);
  }

  lemma StepKeepsOwners(w: World, step: Step)
    requires Kept(w) && NoneForcing(w) && ResetFindsFree(w, step)
    ensures OwnersKnown(Next(w, step))
  {
    var w' := Next(w, step);
    forall x: Thread | x.pid in w'.handles && x.id != "" && w'.handles[x.pid].owner == x.id
      ensures w'.through == Some(x) || Clearing(PhaseOf(w', x))
    {
      assert InsideHold(PhaseOf(w, step.x)) ==> w.through == Some(step.x);
    }
  }

  lemma StepKeepsLocks(w: World, step: Step)
    requires Kept(w) && NoneForcing(w) && ResetFindsFree(w, step)
    ensures LocksAccounted(Next(w, step))
  {
    var w' := Next(w, step);
    forall p | p in w'.handles && w'.handles[p].locked ensures exists x :: AccountsFor(w', x, p) {
      if w.handles[p].locked {
        var x :| AccountsFor(w, x, p);
        if InsideHold(PhaseOf(w, step.x)) {
          assert w.through == Some(step.x);
        }
        assert AccountsFor(w', x, p) || AccountsFor(w', step.x, p);
      } else {
        assert AccountsFor(w', step.x, p);
      }
    }
  }

  lemma {:induction false} RunKeeps(w: World, steps: seq<Step>)
    requires Kept(w) && NoneForcing(w) && ResetsFindFree(w, steps)
    ensures Kept(Run(w, steps)) && NoneForcing(Run(w, steps))
    decreases steps
  {
    if steps != [] {
      StepKeepsThrough(w, steps[0]);
      StepKeepsOwners(w, steps[0]);
      StepKeepsLocks(w, steps[0]);
      RunKeeps(Next(w, steps[0]), steps[1..]);
    }
  }

  /** At every moment of every run in which resets find the semaphore free, at most one thread that is not on
      its way out of the lock finds itself with it, and then nobody can be let through. */
  lemma MutualExclusion(w: World, steps: seq<Step>, x: Thread, y: Thread)
    requires Kept(w) && NoneForcing(w) && ResetsFindFree(w, steps)
    requires x.id != "" && y.id != ""
    ensures var v := Run(w, steps);
            && (Has(v, x) && !Clearing(PhaseOf(v, x)) ==> v.through == Some(x) && v.value == 0)
            && (Has(v, x) && Has(v, y) && !Clearing(PhaseOf(v, x)) && !Clearing(PhaseOf(v, y)) ==> x == y)
  {
    RunKeeps(w, steps);
  }

  /* ---------- When the books balance ---------- */

  /** No thread is inside a call. */
  ghost predicate AtRest(w: World) { forall x :: PhaseOf(w, x).Idle? }

  function Holding(w: World): set<nat> { set p | p in w.handles && w.handles[p].locked && w.handles[p].owner != "" }

  /** The semaphore's value and the objects in which some thread has the lock add up to one. */
  predicate Balanced(w: World) { w.value + |Holding(w)| == 1 }

  /** What the thread that was let through has written is still there, or it no longer needs it. */
  predicate HoldStands(w: World)
  {
    w.through.Some? ==>
      var y := w.through.value;
      match PhaseOf(w, y)
      case Idle => Has(w, y)
      case Trying => Has(w, y)
      case Marking => y.pid in w.handles && w.handles[y.pid].locked
      case _ => true
  }

  /** The step clears a field that the thread let through has set, and will look at when it releases. */
  predicate Wipes(w: World, step: Step)
  {
    && step.Go? && step.x.pid in w.handles && step.x.id != "" && Clearing(PhaseOf(w, step.x))
    && w.through.Some? && w.through.value.pid == step.x.pid
    && match PhaseOf(w, w.through.value)
       case Idle => true
       case Trying => true
       case Marking => PhaseOf(w, step.x).Posted?
       case _ => false
  }

  predicate WipesNothing(w: World, steps: seq<Step>)
    decreases steps
  {
    steps == [] || (!Wipes(w, steps[0]) && WipesNothing(Next(w, steps[0]), steps[1..]))
  }

  lemma StepKeepsHoldExactly(w: World, step: Step)
    requires Kept(w) && NoneForcing(w) && ResetFindsFree(w, step)
    ensures HoldStands(w) ==> (HoldStands(Next(w, step)) <==> !Wipes(w, step))
    ensures !HoldStands(w) ==> !HoldStands(Next(w, step))
  {
    assert InsideHold(PhaseOf(w, step.x)) ==> w.through == Some(step.x);
  }

  lemma {:induction false} HoldStandsExactly(w: World, steps: seq<Step>)
    requires Kept(w) && NoneForcing(w) && ResetsFindFree(w, steps)
    ensures HoldStands(w) ==> (HoldStands(Run(w, steps)) <==> WipesNothing(w, steps))
    ensures !HoldStands(w) ==> !HoldStands(Run(w, steps))
    decreases steps
  {
    if steps != [] {
      var w' := Next(w, steps[0]);
      StepKeepsHoldExactly(w, steps[0]);
      RunKeeps(w, steps[..1]);
      assert Run(w, steps[..1]) == w' by { RunCons(w, steps[0], []); assert steps[..1] == [steps[0]] + []; }
      HoldStandsExactly(w', steps[1..]);
    }
  }

  lemma BalancedAtRest(w: World)
    requires Kept(w) && AtRest(w)
    ensures Balanced(w) <==> HoldStands(w)
    ensures !Balanced(w) ==> w.value == 0 && forall x: Thread :: x.id != "" ==> !Has(w, x)
  {
    forall p | p in Holding(w) ensures w.through == Some(Thread(p, w.handles[p].owner)) {
      assert PhaseOf(w, Thread(p, w.handles[p].owner)).Idle?;
    }
    if w.through.Some? {
      var y := w.through.value;
      assert Holding(w) <= {y.pid};
      assert HoldStands(w) ==> Holding(w) == {y.pid};
      assert !HoldStands(w) ==> Holding(w) == {};
    } else {
      assert Holding(w) == {};
    }
  }

  /** Between calls the books balance after a run exactly when no clearing in it wiped what a thread let
      through meanwhile had written: the two writes of a release, or of a reset, come after its post.  When
      they do not balance, nobody has the lock and nobody can get it. */
  lemma BalancedExactly(w: World, steps: seq<Step>)
    requires Kept(w) && NoneForcing(w) && HoldStands(w) && ResetsFindFree(w, steps) && AtRest(Run(w, steps))
    ensures var v := Run(w, steps);
            && (Balanced(v) <==> WipesNothing(w, steps))
            && (!Balanced(v) ==> v.value == 0 && forall x: Thread :: x.id != "" ==> !Has(v, x))
  {
    RunKeeps(w, steps);
    HoldStandsExactly(w, steps);
    BalancedAtRest(Run(w, steps));
  }

  /** A thread that has the lock and makes no step has it after a run exactly when nothing was wiped. */
  lemma {:induction false} OnlyAWipeEndsAHold(w: World, steps: seq<Step>, x: Thread)
    requires Kept(w) && NoneForcing(w) && ResetsFindFree(w, steps)
    requires w.through == Some(x) && PhaseOf(w, x).Idle? && Has(w, x)
    requires forall s <- steps :: s.x != x
    ensures Has(Run(w, steps), x) <==> WipesNothing(w, steps)
    ensures Run(w, steps).through == Some(x)
  {
    StaysThrough(w, steps, x);
    HoldStandsExactly(w, steps);
  }

  lemma {:induction false} StaysThrough(w: World, steps: seq<Step>, x: Thread)
    requires Kept(w) && NoneForcing(w) && ResetsFindFree(w, steps)
    requires w.through == Some(x) && PhaseOf(w, x).Idle?
    requires forall s <- steps :: s.x != x
    ensures Run(w, steps).through == Some(x) && PhaseOf(Run(w, steps), x).Idle?
    decreases steps
  {
    if steps != [] {
      var s := steps[0];
      assert s in steps && (InsideHold(PhaseOf(w, s.x)) ==> w.through == Some(s.x));
      StepKeepsThrough(w, s);
      StepKeepsOwners(w, s);
      StepKeepsLocks(w, s);
      StaysThrough(Next(w, s), steps[1..], x);
    }
  }

  /* ---------- What keeps the books in order ---------- */

  /** A thread is let through while another of its process is between its post and its clearing. */
  predicate Overtakes(w: World, step: Step, y: Thread)
  {
    y.pid == step.x.pid && Clearing(PhaseOf(w, y)) && Next(w, step).through == Some(step.x) != w.through
  }

  ghost predicate NobodyOvertakes(w: World, steps: seq<Step>)
    decreases steps
  {
    steps == [] || ((forall y :: !Overtakes(w, steps[0], y)) && NobodyOvertakes(Next(w, steps[0]), steps[1..]))
  }

  /** No thread is on its way out in the process of the thread let through. */
  ghost predicate Apart(w: World)
  {
    forall y :: w.through.Some? && Clearing(PhaseOf(w, y)) ==> y.pid != w.through.value.pid
  }

  /** If no thread is ever let through while another of its process is on its way out, nothing is wiped. */
  lemma {:induction false} WithoutOvertakingNothingIsWiped(w: World, steps: seq<Step>)
    requires Kept(w) && NoneForcing(w) && ResetsFindFree(w, steps) && Apart(w) && NobodyOvertakes(w, steps)
    ensures WipesNothing(w, steps)
    decreases steps
  {
    if steps != [] {
      var s := steps[0];
      StepKeepsThrough(w, s);
      StepKeepsOwners(w, s);
      StepKeepsLocks(w, s);
      assert InsideHold(PhaseOf(w, s.x)) ==> w.through == Some(s.x);
      assert !Overtakes(w, s, s.x);
      var v := Next(w, s);
      forall y ensures v.through.Some? && Clearing(PhaseOf(v, y)) ==> y.pid != v.through.value.pid {
        assert !Overtakes(w, s, y);
      }
      WithoutOvertakingNothingIsWiped(v, steps[1..]);
    }
  }

  /* ---------- Whole calls ---------- */

  /** What a try, or a wait that is let through, makes of value and object when nobody comes between. */
  function Acquired(value: nat, h: Handle, id: string): (nat, Handle, bool)
  {
    if IsLocked(h, id) then (value, h, true)
    else if value > 0 then (value - 1, Handle(true, id), true)
    else (value, h, false)
  }

  function Released(value: nat, h: Handle, id: string): (nat, Handle, bool)
  {
    if !IsLocked(h, id) then (value, h, false) else (value + 1, Handle(false, ""), true)
  }

  /** Posting until a try succeeds, and posting once more, leaves at least one. */
  function WasReset(value: nat, h: Handle): (nat, Handle)
  {
    (if value > 0 then value else 1, Handle(false, ""))
  }

  function TryCall(x: Thread): seq<Step> { [Try(x)] + ([Go(x)] + ([Go(x)] + ([Go(x)] + []))) }

  function ReleaseCall(x: Thread): seq<Step> { [Release(x)] + ([Go(x)] + ([Go(x)] + ([Go(x)] + []))) }

  /** The steps of a reset; when the value is zero it goes round twice. */
  function ResetCall(x: Thread, value: nat): seq<Step>
  {
    var last := [Reset(x)] + ([Go(x)] + ([Go(x)] + ([Go(x)] + [])));
    if value > 0 then last else [Reset(x)] + ([Go(x)] + last)
  }

  predicate MayCall(w: World, x: Thread) { x.pid in w.handles && x.id != "" && PhaseOf(w, x).Idle? }

  lemma RunFour(w: World, a: Step, b: Step, c: Step, d: Step)
    ensures Run(w, [a] + ([b] + ([c] + ([d] + [])))) == Next(Next(Next(Next(w, a), b), c), d)
  {
    RunCons(w, a, [b] + ([c] + ([d] + [])));
    RunCons(Next(w, a), b, [c] + ([d] + []));
    RunCons(Next(Next(w, a), b), c, [d] + []);
    RunCons(Next(Next(Next(w, a), b), c), d, []);
  }

  /** The steps of a try that nobody disturbs add up to the whole call. */
  lemma UndisturbedTry(w: World, x: Thread)
    requires MayCall(w, x)
    ensures var v := Run(w, TryCall(x));
            var (value, h, _) := Acquired(w.value, w.handles[x.pid], x.id);
            && v.value == value && v.handles == w.handles[x.pid := h] && PhaseOf(v, x).Idle?
            && (forall y :: y != x ==> PhaseOf(v, y) == PhaseOf(w, y))
            && v.through == if !Has(w, x) && w.value > 0 then Some(x) else w.through
  {
    RunFour(w, Try(x), Go(x), Go(x), Go(x));
    assert w.handles[x.pid := w.handles[x.pid]] == w.handles;
  }

  lemma UndisturbedRelease(w: World, x: Thread)
    requires MayCall(w, x)
    ensures var v := Run(w, ReleaseCall(x));
            var (value, h, _) := Released(w.value, w.handles[x.pid], x.id);
            && v.value == value && v.handles == w.handles[x.pid := h] && PhaseOf(v, x).Idle?
            && (forall y :: y != x ==> PhaseOf(v, y) == PhaseOf(w, y))
            && v.through == if Has(w, x) then None else w.through
  {
    RunFour(w, Release(x), Go(x), Go(x), Go(x));
    assert w.handles[x.pid := w.handles[x.pid]] == w.handles;
  }

  lemma UndisturbedReset(w: World, x: Thread)
    requires MayCall(w, x)
    ensures var v := Run(w, ResetCall(x, w.value));
            var (value, h) := WasReset(w.value, w.handles[x.pid]);
            && v.value == value && v.handles == w.handles[x.pid := h] && PhaseOf(v, x).Idle?
            && (forall y :: y != x ==> PhaseOf(v, y) == PhaseOf(w, y))
  {
    if w.value == 0 {
      var posted := Next(Next(w, Reset(x)), Go(x));
      RunCons(w, Reset(x), [Go(x)] + ResetCall(x, 1));
      RunCons(Next(w, Reset(x)), Go(x), ResetCall(x, 1));
      assert posted.value == 1 && posted.handles == w.handles;
      assert forall y :: y != x ==> PhaseOf(posted, y) == PhaseOf(w, y);
      ResetOnce(posted, x);
    } else {
      ResetOnce(w, x);
    }
  }

  lemma ResetOnce(w: World, x: Thread)
    requires MayCall(w, x) && w.value > 0
    ensures var v := Run(w, ResetCall(x, 1));
            && v.value == w.value && v.handles == w.handles[x.pid := Handle(false, "")] && PhaseOf(v, x).Idle?
            && (forall y :: y != x ==> PhaseOf(v, y) == PhaseOf(w, y))
  {
    RunFour(w, Reset(x), Go(x), Go(x), Go(x));
  }

  /** An undisturbed try ends with the lock exactly when the thread had it or the semaphore was free, and then no other
      thread of the process has it.  A release by the holder frees both; anybody else's does nothing.  After a reset no
      thread of the process has the lock, and the semaphore is free. */
  lemma CallsExactly(w: World, x: Thread)
    requires MayCall(w, x)
    ensures var v := Run(w, TryCall(x));
            && (Has(v, x) <==> Has(w, x) || w.value > 0)
            && v.value == w.value - (if Has(v, x) && !Has(w, x) then 1 else 0)
            && (Has(v, x) ==> forall y: Thread :: y.pid == x.pid && Has(v, y) ==> y == x)
            && (!Has(v, x) ==> v.handles == w.handles)
    ensures var v := Run(w, ReleaseCall(x));
            && !Has(v, x) && v.value == w.value + (if Has(w, x) then 1 else 0)
            && (!Has(w, x) ==> v.handles == w.handles)
    ensures var v := Run(w, ResetCall(x, w.value));
            v.value > 0 && v.value <= w.value + 1 && (w.value > 0 ==> v.value == w.value) &&
            forall y: Thread :: y.pid == x.pid ==> !Has(v, y)
  {
    UndisturbedTry(w, x);
    UndisturbedRelease(w, x);
    UndisturbedReset(w, x);
    assert w.handles[x.pid := w.handles[x.pid]] == w.handles;
  }

  /** A reset between calls leaves the books in order exactly when no other process has the lock; it also
      brings back a lock that was lost. */
  lemma ResetBalancesExactly(w: World, x: Thread)
    requires MayCall(w, x) && w.value + |Holding(w)| <= 1
    ensures Balanced(Run(w, ResetCall(x, w.value))) <==> forall p <- Holding(w) :: p == x.pid
  {
    UndisturbedReset(w, x);
    var v := Run(w, ResetCall(x, w.value));
    assert Holding(v) == Holding(w) - {x.pid};
    if q :| q in Holding(v) {
      assert q in Holding(w) && q != x.pid;
    }
  }

  /** Holds are not counted: when a guard is taken inside another on the same thread, the end of the inner one
      already gives the lock up. */
  lemma InnerGuardEndsTheHold(w: World, x: Thread, inner: nat)
    requires MayCall(w, x) && !Has(w, x) && w.value == 1
    ensures var v := Run(w, TryCall(x) + Tries(x, inner) + ReleaseCall(x)); !Has(v, x) && v.value == 1
  {
    var held := Run(w, TryCall(x));
    UndisturbedTry(w, x);
    RunConcat(w, TryCall(x) + Tries(x, inner), ReleaseCall(x));
    RunConcat(w, TryCall(x), Tries(x, inner));
    TriesChangeNothing(held, x, inner);
    UndisturbedRelease(held, x);
  }

  function Tries(x: Thread, n: nat): seq<Step> { if n == 0 then [] else [Try(x)] + Tries(x, n - 1) }

  lemma {:induction false} TriesChangeNothing(w: World, x: Thread, n: nat)
    requires MayCall(w, x) && Has(w, x)
    ensures Run(w, Tries(x, n)) == w
    decreases n
  {
    if n > 0 {
      RunCons(w, Try(x), Tries(x, n - 1));
      TriesChangeNothing(w, x, n - 1);
    }
  }

  lemma {:induction false} RunConcat(w: World, a: seq<Step>, b: seq<Step>)
    ensures Run(w, a + b) == Run(Run(w, a), b)
    decreases a
  {
    if a == [] {
      assert a + b == b;
    } else {
      assert (a + b)[1..] == a[1..] + b;
      RunConcat(Next(w, a[0]), a[1..], b);
    }
  }

  /* ---------- What goes wrong between the two writes ---------- */

  const A := Thread(1, "a")
  const B := Thread(1, "b")
  const C := Thread(2, "c")

  /** Two processes with idle threads, the lock free. */
  function Start(): World { World(1, map[1 := Handle(false, ""), 2 := Handle(false, "")], map[], None) }

  lemma StartIsKept()
    ensures Kept(Start()) && NoneForcing(Start()) && HoldStands(Start())
    ensures Apart(Start()) && AtRest(Start()) && Balanced(Start())
  {
    assert Holding(Start()) == {};
  }

  /** A gets the lock and posts. */
  function AfterPost(): World { Next(Next(Run(Start(), TryCall(A)), Release(A)), Go(A)) }

  lemma PostedState()
    ensures var v := AfterPost();
            && v.value == 1 && v.handles == map[1 := Handle(true, "a"), 2 := Handle(false, "")] && v.through == None
            && PhaseOf(v, A).Posted? && forall x :: x != A ==> PhaseOf(v, x).Idle?
  {
    var held := Run(Start(), TryCall(A));
    var leaving := Next(held, Release(A));
    UndisturbedTry(Start(), A);
    assert held.handles == map[1 := Handle(true, "a"), 2 := Handle(false, "")];
    assert leaving == At(held, A, Releasing) && AfterPost() == At(Post(leaving), A, Posted);
    forall x | x != A ensures PhaseOf(AfterPost(), x).Idle? {
      assert PhaseOf(AfterPost(), x) == PhaseOf(held, x) == PhaseOf(Start(), x);
    }
  }

  /** B, of the same process, is let through and marks; then A clears.  Nobody has the lock, and it is gone. */
  lemma LateClearingLosesTheLock()
    ensures var v := Next(Next(Run(AfterPost(), TryCall(B)), Go(A)), Go(A));
            && AtRest(v) && v.value == 0 && v.through == Some(B) && !Balanced(v)
            && v.handles == Start().handles
  {
    PostedState();
    UndisturbedTry(AfterPost(), B);
    var held := Run(AfterPost(), TryCall(B));
    LeavesLate(held);
    assert Holding(Next(Next(held, Go(A)), Go(A))) == {};
  }

  /** A goes through its two clearings. */
  lemma LeavesLate(w: World)
    requires PhaseOf(w, A).Posted? && 1 in w.handles && forall x :: x != A ==> PhaseOf(w, x).Idle?
    ensures var v := Next(Next(w, Go(A)), Go(A));
            && AtRest(v) && v.value == w.value && v.through == w.through
            && v.handles == w.handles[1 := Handle(false, "")]
  {
    var v := Next(Next(w, Go(A)), Go(A));
    assert v.handles == w.handles[1 := Handle(false, "")];
    forall x ensures PhaseOf(v, x).Idle? {
      assert x != A ==> PhaseOf(v, x) == PhaseOf(w, x);
    }
  }

  /** B has been let through and has written nothing, and A has cleared nothing. */
  function Overtaking(): World { Next(Next(AfterPost(), Try(B)), Go(B)) }

  lemma OvertakingState()
    ensures Overtakes(Next(AfterPost(), Try(B)), Go(B), A)
    ensures var v := Overtaking();
            && v.value == 0 && v.handles == map[1 := Handle(true, "a"), 2 := Handle(false, "")] && v.through == Some(B)
            && PhaseOf(v, A).Posted? && PhaseOf(v, B).Taken? && forall x :: x != A && x != B ==> PhaseOf(v, x).Idle?
  {
    PostedState();
    var trying := Next(AfterPost(), Try(B));
    assert trying == At(AfterPost(), B, Trying) && PhaseOf(trying, A).Posted?;
    var v := Overtaking();
    assert v == At(LetThrough(trying, B), B, Taken);
    forall x | x != A && x != B ensures PhaseOf(v, x).Idle? {
      assert PhaseOf(v, x) == PhaseOf(AfterPost(), x);
    }
  }

  lemma ThenClearsAndMarks(w: World)
    requires w.value == 0 && w.handles == map[1 := Handle(true, "a"), 2 := Handle(false, "")]
    requires PhaseOf(w, A).Posted? && PhaseOf(w, B).Taken?
    ensures var v := Next(Next(Next(Next(w, Go(A)), Go(A)), Go(B)), Go(B));
            && v.value == 0 && v.handles == map[1 := Handle(true, "b"), 2 := Handle(false, "")]
            && PhaseOf(v, A).Idle? && PhaseOf(v, B).Idle?
            && forall x :: x != A && x != B ==> PhaseOf(v, x) == PhaseOf(w, x)
  {
    var unlocked := Next(w, Go(A));
    assert unlocked == At(SetLocked(w, 1, false), A, Unlocked) && PhaseOf(unlocked, B).Taken?;
    var cleared := Next(unlocked, Go(A));
    assert cleared == At(SetOwner(unlocked, 1, ""), A, Idle) && PhaseOf(cleared, B).Taken?;
    var marking := Next(cleared, Go(B));
    assert marking == At(SetLocked(cleared, 1, true), B, Marking);
    assert Next(marking, Go(B)) == At(SetOwner(marking, 1, "b"), B, Idle);
  }

  /** B is let through at the same moment, but A clears before B marks: B has the lock, and the books balance. */
  lemma OvertakingAloneDoesNoHarm()
    ensures Overtakes(Next(AfterPost(), Try(B)), Go(B), A)
    ensures var v := Next(Next(Next(Next(Overtaking(), Go(A)), Go(A)), Go(B)), Go(B));
            AtRest(v) && Has(v, B) && Balanced(v)
  {
    OvertakingState();
    ThenClearsAndMarks(Overtaking());
    assert Holding(Next(Next(Next(Next(Overtaking(), Go(A)), Go(A)), Go(B)), Go(B))) == {1};
  }

  /** C, of another process, is let through and marks before A has cleared: both find themselves with the
      lock.  Only A is on its way out, and the books balance once it is out. */
  lemma TwoFindThemselvesWithTheLock()
    ensures var v := Run(AfterPost(), TryCall(C));
            && Has(v, A) && Has(v, C) && Clearing(PhaseOf(v, A)) && !Clearing(PhaseOf(v, C))
            && var u := Next(Next(v, Go(A)), Go(A)); AtRest(u) && Balanced(u) && Has(u, C)
  {
    PostedState();
    UndisturbedTry(AfterPost(), C);
    var v := Run(AfterPost(), TryCall(C));
    LeavesLate(v);
    assert Holding(Next(Next(v, Go(A)), Go(A))) == {2};
  }

  /* ---------- The lock object ---------- */

  class Semaphore {
    var value: nat

    constructor ()
      ensures value == 1
    {
      value := 1;
    }

    method TryWait() returns (ok: bool)
      modifies this
      ensures ok == (old(value) > 0) && value == if ok then old(value) - 1 else old(value)
    {
      ok := value > 0;
      if ok {
        value := value - 1;
      }
    }

    method Post()
      modifies this
      ensures value == old(value) + 1
    {
      value := value + 1;
    }
  }

  class ExclusiveLock {
    const semaphore: Semaphore
    var locked: bool
    var owner: string

    ghost function Me(): Handle
      reads this
    {
      Handle(locked, owner)
    }

    constructor (semaphore: Semaphore)
      ensures this.semaphore == semaphore && Me() == Handle(false, "")
    {
      this.semaphore, locked, owner := semaphore, false, "";
    }

    method TryLock(thread: string) returns (got: bool)
      modifies this, semaphore
      ensures (semaphore.value, Me(), got) == Acquired(old(semaphore.value), old(Me()), thread)
    {
      if locked && owner == thread {
        return true;
      }
      var ok := semaphore.TryWait();
      if ok {
        locked := true;
        owner := thread;
      }
      return ok;
    }

    method ReleaseLock(thread: string) returns (released: bool)
      modifies this, semaphore
      ensures (semaphore.value, Me(), released) == Released(old(semaphore.value), old(Me()), thread)
    {
      if !(locked && owner == thread) {
        return false;
      }
      semaphore.Post();
      locked := false;
      owner := "";
      return true;
    }

    /** Post until a try gets through, give that one back, and forget the holder. */
    method ResetLock()
      modifies this, semaphore
      ensures (semaphore.value, Me()) == WasReset(old(semaphore.value), old(Me()))
    {
      ghost var before := semaphore.value;
      var done := false;
      while !done
        invariant before > 0 ==> semaphore.value == before
        invariant before == 0 ==> semaphore.value <= 1 && (done ==> semaphore.value == 1)
        decreases !done, 1 - semaphore.value
      {
        var ok := semaphore.TryWait();
        semaphore.Post();
        done := ok;
      }
      locked := false;
      owner := "";
    }
  }
}
