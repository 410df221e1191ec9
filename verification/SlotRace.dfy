/** A release and the manager's sweep at the same reader slot.  The release runs in its critical section; the sweep
    takes no lock, so their accesses to the slot and to the reader count come in any order. */
module SlotRaces {
  import opened Words
  import P = LockProtocol

  /** The next access of the release: it looks at the slot, at the count and at the slot again. */
  datatype Releaser = Looks | LooksAtCount | LooksAgain | Decrements | Clears | Left

  /** The next access of the sweep, which has found the lease expired if it finds the slot used. */
  datatype Sweeper = SweepLooks | SweepClears | SweepDecrements | SweepLeft

  datatype Race = Race(used: bool, readers: nat, releaser: Releaser, sweeper: Sweeper)

  /** The count is unsigned. */
  function OneLess(n: nat): nat { if n == 0 then DOUBLE_WORD - 1 else n - 1 }

  function Release(s: Race): Race
  {
    match s.releaser
    case Looks => s.(releaser := if s.used then LooksAtCount else Left)
    case LooksAtCount => s.(releaser := if s.readers > 0 then LooksAgain else Left)
    case LooksAgain => s.(releaser := if s.used then Decrements else Left)
    case Decrements => s.(readers := OneLess(s.readers), releaser := Clears)
    case Clears => s.(used := false, releaser := Left)
    case Left => s
  }

  function Sweep(s: Race): Race
  {
    match s.sweeper
    case SweepLooks => s.(sweeper := if s.used then SweepClears else SweepLeft)
    case SweepClears => s.(used := false, sweeper := SweepDecrements)
    case SweepDecrements => s.(readers := OneLess(s.readers), sweeper := SweepLeft)
    case SweepLeft => s
  }

  function Next(s: Race, releases: bool): Race { if releases then Release(s) else Sweep(s) }

  function Run(s: Race, order: seq<bool>): Race
    decreases order
  {
    if order == [] then s else Run(Next(s, order[0]), order[1..])
  }

  /** One of the two finds the slot used for the last time while the other is about to clear it. */
  predicate Crosses(s: Race, releases: bool)
  {
    s.used && if releases then s.releaser.LooksAgain? && s.sweeper.SweepClears?
              else s.sweeper.SweepLooks? && (s.releaser.Decrements? || s.releaser.Clears?)
  }

  predicate NeverCross(s: Race, order: seq<bool>)
    decreases order
  {
    order == [] || (!Crosses(s, order[0]) && NeverCross(Next(s, order[0]), order[1..]))
  }

  /** The slot in use, `others` more readers, and both about to begin. */
  function Fresh(others: nat): Race { Race(true, others + 1, Looks, SweepLooks) }

  /** At most one of the two makes a decrement; how far they have come, and the count. */
  predicate Apart(s: Race, others: nat)
  {
    match s.sweeper
    case SweepLooks =>
      (match s.releaser
       case Clears => s.used && s.readers == others
       case Left => !s.used && s.readers == others
       case _ => s.used && s.readers == others + 1)
    case SweepClears =>
      s.used && s.readers == others + 1 && (s.releaser.Looks? || s.releaser.LooksAtCount? || s.releaser.LooksAgain?)
    case SweepDecrements => !s.used && s.readers == others + 1 && !s.releaser.Decrements? && !s.releaser.Clears?
    case SweepLeft => !s.used && s.readers == others && !s.releaser.Decrements? && !s.releaser.Clears?
  }

  /** Both make one. */
  predicate Crossed(s: Race, others: nat)
  {
    var made := (if s.releaser.Clears? || s.releaser.Left? then 1 else 0) + if s.sweeper.SweepLeft? then 1 else 0;
    && (s.releaser.Decrements? || s.releaser.Clears? || s.releaser.Left?) && !s.sweeper.SweepLooks?
    && s.readers == (others + 1 - made) % DOUBLE_WORD
    && (s.releaser.Left? || s.sweeper.SweepDecrements? || s.sweeper.SweepLeft? ==> !s.used)
  }

  lemma StepKeepsApartExactly(s: Race, others: nat, releases: bool)
    requires Apart(s, others) && others < DOUBLE_WORD - 1
    ensures if Crosses(s, releases) then Crossed(Next(s, releases), others) else Apart(Next(s, releases), others)
  {
  }

  lemma StepKeepsCrossed(s: Race, others: nat, releases: bool)
    requires Crossed(s, others) && others < DOUBLE_WORD - 1
    ensures Crossed(Next(s, releases), others)
  {
  }

  lemma {:induction false} RunKeepsCrossed(s: Race, others: nat, order: seq<bool>)
    requires Crossed(s, others) && others < DOUBLE_WORD - 1
    ensures Crossed(Run(s, order), others)
    decreases order
  {
    if order != [] {
      StepKeepsCrossed(s, others, order[0]);
      RunKeepsCrossed(Next(s, order[0]), others, order[1..]);
    }
  }

  lemma {:induction false} RunApartExactly(s: Race, others: nat, order: seq<bool>)
    requires Apart(s, others) && others < DOUBLE_WORD - 1
    ensures if NeverCross(s, order) then Apart(Run(s, order), others) else Crossed(Run(s, order), others)
    decreases order
  {
    if order != [] {
      StepKeepsApartExactly(s, others, order[0]);
      if Crosses(s, order[0]) {
        RunKeepsCrossed(Next(s, order[0]), others, order[1..]);
      } else {
        RunApartExactly(Next(s, order[0]), others, order[1..]);
      }
    }
  }

  /** When both are through, in whatever order, the slot is free, and the count is that of the other readers
      exactly when neither found the slot used while the other was about to clear it.  Otherwise it is one
      less, and wraps around when there are no others. */
  lemma CountIsRightExactly(others: nat, order: seq<bool>)
    requires others < DOUBLE_WORD - 1
    requires var s := Run(Fresh(others), order); s.releaser.Left? && s.sweeper.SweepLeft?
    ensures var s := Run(Fresh(others), order);
            && !s.used
            && (s.readers == others <==> NeverCross(Fresh(others), order))
            && (s.readers != others ==> s.readers == OneLess(others))
  {
    RunApartExactly(Fresh(others), others, order);
  }

  function Five(releases: bool): seq<bool>
  {
    [releases] + ([releases] + ([releases] + ([releases] + ([releases] + []))))
  }

  lemma RunFive(s: Race, releases: bool)
    ensures Run(s, Five(releases))
            == Next(Next(Next(Next(Next(s, releases), releases), releases), releases), releases)
  {
    RunTwo(s, releases, releases, [releases] + ([releases] + ([releases] + [])));
    RunTwo(Next(Next(s, releases), releases), releases, releases, [releases] + []);
    RunCons(Next(Next(Next(Next(s, releases), releases), releases), releases), releases, []);
  }

  /** The accesses of a release that the sweep does not come between are the critical section; against a count of
      zero it fails and leaves slot and count alone. */
  lemma UndisturbedRelease(sh: P.Shared, c: P.Client, thread: string)
    requires P.HasReadLock(sh, c, thread)
    ensures P.ReleaseRead(sh, c, thread).Ok? <==> sh.readers > 0
    ensures var s := Run(Race(true, sh.readers, Looks, SweepLooks), Five(true));
            && s.releaser.Left? && s.sweeper.SweepLooks?
            && (sh.readers == 0 ==> s.used && s.readers == 0)
            && (sh.readers > 0 ==>
                  var t := P.ReleaseRead(sh, c, thread).value.0;
                  s.used == t.slots[c.threads[thread]].used && s.readers == t.readers)
  {
    RunFive(Race(true, sh.readers, Looks, SweepLooks), true);
  }

  /** The accesses of the sweep's look at a slot whose lease has run out are its step. */
  lemma UndisturbedSweep(sh: P.Shared, i: nat, now: nat)
    requires i < |sh.slots| && (sh.slots[i].used ==> sh.readers > 0)
    requires P.Expired(now, sh.slots[0].stamp, P.READ_TIMEOUT)
    ensures var s := Run(Race(sh.slots[i].used, sh.readers, Looks, SweepLooks), Five(false));
            var sh' := P.SweepSlot(sh, i, now);
            s.releaser.Looks? && s.sweeper.SweepLeft? && s.used == sh'.slots[i].used && s.readers == sh'.readers
  {
    RunFive(Race(sh.slots[i].used, sh.readers, Looks, SweepLooks), false);
  }

  /** A crossing with no other reader leaves a count that shuts every writer out. */
  lemma CrossingWrapsTheCount()
    ensures var order := [false] + ([true] + ([true] + ([true] + ([true] + ([true] + ([false] + ([false] + [])))))));
            var s := Run(Fresh(0), order);
            s.releaser.Left? && s.sweeper.SweepLeft? && !s.used && s.readers == DOUBLE_WORD - 1
  {
    var s1 := Next(Fresh(0), false);
    var s3 := Next(Next(s1, true), true);
    var s5 := Next(Next(s3, true), true);
    var s7 := Next(Next(s5, true), false);
    var o7 := [false] + [];
    var o5 := [true] + ([false] + o7);
    var o3 := [true] + ([true] + o5);
    var o1 := [true] + ([true] + o3);
    RunCons(Fresh(0), false, o1);
    RunTwo(s1, true, true, o3);
    RunTwo(s3, true, true, o5);
    RunTwo(s5, true, false, o7);
    RunCons(s7, false, []);
  }

  lemma RunCons(s: Race, releases: bool, rest: seq<bool>)
    ensures Run(s, [releases] + rest) == Run(Next(s, releases), rest)
  {
    assert ([releases] + rest)[1..] == rest;
  }

  lemma RunTwo(s: Race, a: bool, b: bool, rest: seq<bool>)
    ensures Run(s, [a] + ([b] + rest)) == Run(Next(Next(s, a), b), rest)
  {
    RunCons(s, a, [b] + rest);
    RunCons(Next(s, a), b, rest);
  }
}
