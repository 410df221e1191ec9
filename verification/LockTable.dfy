/** The table of named lock records in shared memory. */
module LockTables {
  import opened Outcomes

  /** Names must be shorter than this. */
  const NAME_SIZE: nat := 32

  datatype LockRecord = LockRecord(used: bool, name: string, refs: nat)

  const CLEARED := LockRecord(false, "", 0)

  datatype Table = Table(records: seq<LockRecord>, usedCount: int)

  /** A record in use under a name. */
  predicate Names(r: LockRecord, name: string) { r.used && r.name == name }

  /** The first record from `k` on that is used under the name; the table's length when there is none. */
  function FirstNamed(rs: seq<LockRecord>, name: string, k: nat): (i: nat)
    requires k <= |rs|
    ensures k <= i <= |rs|
    ensures i < |rs| ==> Names(rs[i], name)
    ensures forall j :: k <= j < i ==> !Names(rs[j], name)
    decreases |rs| - k
  {
    if k == |rs| || Names(rs[k], name) then k else FirstNamed(rs, name, k + 1)
  }

  /** The first unused record in `k..end`; `end` when there is none. */
  function FirstUnused(rs: seq<LockRecord>, k: nat, end: nat): (i: nat)
    requires k <= end <= |rs|
    ensures k <= i <= end
    ensures i < end ==> !rs[i].used
    ensures forall j :: k <= j < i ==> rs[j].used
    decreases end - k
  {
    if k == end || !rs[k].used then k else FirstUnused(rs, k + 1, end)
  }

  predicate GoodName(name: string) { name != "" && |name| < NAME_SIZE }

  /** Register a name.  The search stops at the record that has the name, but a free record met before it is
      taken all the same.  The result is the record's place. */
  function Add(t: Table, name: string): Result<(Table, Option<nat>)>
  {
    if !GoodName(name) then Err(BadArgument)
    else if t.usedCount >= |t.records| then Err(Exhausted)
    else
      var found := FirstNamed(t.records, name, 0);
      var free := FirstUnused(t.records, 0, found);
      if free < found then Ok((Table(t.records[free := LockRecord(true, name, 0)], t.usedCount + 1), Some(free)))
      else if found < |t.records| then Ok((t, Some(found)))
      else Ok((t, None))
  }

  /** Drop a reference to a name, and the record with the last one. */
  function Remove(t: Table, name: string): Result<(Table, bool)>
  {
    if !GoodName(name) then Err(BadArgument)
    else
      var found := FirstNamed(t.records, name, 0);
      if found == |t.records| then Ok((t, false))
      else
        var refs := if t.records[found].refs > 0 then t.records[found].refs - 1 else 0;
        if refs == 0 then Ok((Table(t.records[found := CLEARED], t.usedCount - 1), true))
        else Ok((t.(records := t.records[found := t.records[found].(refs := refs)]), false))
  }

  /* ---------- Invariants ---------- */

  function Used(rs: seq<LockRecord>, k: nat): nat
    requires k <= |rs|
  {
    if k == 0 then 0 else Used(rs, k - 1) + if rs[k - 1].used then 1 else 0
  }

  lemma {:induction false} UsedAfterUpdate(rs: seq<LockRecord>, i: nat, r: LockRecord, k: nat)
    requires i < |rs| && k <= |rs|
    ensures Used(rs[i := r], k) + (if i < k && rs[i].used then 1 else 0)
         == Used(rs, k) + if i < k && r.used then 1 else 0
  {
    if k > 0 {
      UsedAfterUpdate(rs, i, r, k - 1);
    }
  }

  lemma {:induction false} AllUsed(rs: seq<LockRecord>, k: nat)
    requires k <= |rs| && forall i :: 0 <= i < k ==> rs[i].used
    ensures Used(rs, k) == k
  {
    if k > 0 {
      AllUsed(rs, k - 1);
    }
  }

  /** The count is right, unused records are cleared, and no record counts references: nothing ever raises
      that count. */
  ghost predicate Tidy(t: Table)
  {
    && t.usedCount == Used(t.records, |t.records|)
    && (forall r <- t.records :: (!r.used ==> r == CLEARED) && r.refs == 0 && (r.used ==> GoodName(r.name)))
  }

  predicate DistinctNames(t: Table)
  {
    forall i, j :: 0 <= i < j < |t.records| && t.records[i].used && t.records[j].used ==>
      t.records[i].name != t.records[j].name
  }

  datatype Op = AddOp(name: string) | RemoveOp(name: string)

  function Next(t: Table, op: Op): Table
  {
    match op
    case AddOp(name) => (match Add(t, name) case Ok((u, _)) => u case Err(_) => t)
    case RemoveOp(name) => (match Remove(t, name) case Ok((u, _)) => u case Err(_) => t)
  }

  function Run(t: Table, ops: seq<Op>): Table
    decreases ops
  {
    if ops == [] then t else Run(Next(t, ops[0]), ops[1..])
  }

  function Fresh(size: nat): Table { Table(seq(size, _ => CLEARED), 0) }

  lemma StepKeepsTidy(t: Table, op: Op)
    requires Tidy(t)
    ensures Tidy(Next(t, op))
  {
    var i := FirstNamed(t.records, op.name, 0);
    var n := |t.records|;
    if op.AddOp? {
      var free := FirstUnused(t.records, 0, i);
      if free < n { UsedAfterUpdate(t.records, free, LockRecord(true, op.name, 0), n); }
    } else if i < n {
      UsedAfterUpdate(t.records, i, CLEARED, n);
    }
  }

  lemma {:induction false} FreshIsTidy(size: nat, k: nat)
    requires k <= size
    ensures Used(Fresh(size).records, k) == 0
    ensures k == size ==> Tidy(Fresh(size)) && DistinctNames(Fresh(size))
  {
    if k > 0 {
      FreshIsTidy(size, k - 1);
    }
  }

  lemma {:induction false} RunKeepsTidy(t: Table, ops: seq<Op>)
    requires Tidy(t)
    ensures Tidy(Run(t, ops))
    decreases ops
  {
    if ops != [] {
      StepKeepsTidy(t, ops[0]);
      RunKeepsTidy(Next(t, ops[0]), ops[1..]);
    }
  }

  /** Below the maximum count, registering a good name never comes back empty-handed. */
  lemma AddFindsARecord(t: Table, name: string)
    requires Tidy(t) && GoodName(name) && t.usedCount < |t.records|
    ensures Add(t, name).Ok? && Add(t, name).value.1.Some?
    ensures var i := Add(t, name).value.1.value; i < |t.records| && Names(Add(t, name).value.0.records[i], name)
  {
    var found := FirstNamed(t.records, name, 0);
    if found == |t.records| && FirstUnused(t.records, 0, found) == found {
      AllUsed(t.records, |t.records|);
    }
  }

  /** Names stay distinct exactly when the name is new or no record before its own is free. */
  lemma AddKeepsNamesDistinctExactly(t: Table, name: string)
    requires DistinctNames(t) && Add(t, name).Ok?
    ensures var found := FirstNamed(t.records, name, 0);
            DistinctNames(Add(t, name).value.0) <==>
              found == |t.records| || forall j :: 0 <= j < found ==> t.records[j].used
  {
    var rs, found := t.records, FirstNamed(t.records, name, 0);
    var free := FirstUnused(rs, 0, found);
    var rs' := Add(t, name).value.0.records;
    if free < found {
      if found < |rs| {
        assert rs'[free].name == rs'[found].name && rs'[free].used && rs'[found].used;
      } else {
        forall i, j | 0 <= i < j < |rs'| && rs'[i].used && rs'[j].used ensures rs'[i].name != rs'[j].name {
          assert i != free ==> !Names(rs[i], name);
          assert j != free ==> !Names(rs[j], name);
        }
      }
    }
  }

  /** Two names are registered, the first is dropped and the second registered again: it then has two records. */
  lemma NameIsDoubled()
    ensures var ops := [AddOp("a")] + ([AddOp("b")] + ([RemoveOp("a")] + ([AddOp("b")] + [])));
            var b := LockRecord(true, "b", 0);
            Run(Fresh(3), ops) == Table([b, b, CLEARED], 2)
  {
    var t0 := Fresh(3);
    assert t0.records == [CLEARED, CLEARED, CLEARED];
    var t1 := Next(t0, AddOp("a"));
    assert t1.records == [LockRecord(true, "a", 0), CLEARED, CLEARED];
    var t2 := Next(t1, AddOp("b"));
    assert t2.records == [LockRecord(true, "a", 0), LockRecord(true, "b", 0), CLEARED];
    var t3 := Next(t2, RemoveOp("a"));
    assert t3.records == [CLEARED, LockRecord(true, "b", 0), CLEARED];
    RunCons(t0, AddOp("a"), [AddOp("b")] + ([RemoveOp("a")] + ([AddOp("b")] + [])));
    RunCons(t1, AddOp("b"), [RemoveOp("a")] + ([AddOp("b")] + []));
    RunCons(t2, RemoveOp("a"), [AddOp("b")] + []);
    RunCons(t3, AddOp("b"), []);
  }

  lemma RunCons(t: Table, op: Op, rest: seq<Op>)
    ensures Run(t, [op] + rest) == Run(Next(t, op), rest)
  {
    assert ([op] + rest)[1..] == rest;
  }

  /** Every registration of the run was of a new name or met no free record first. */
  predicate CleanAdds(t: Table, ops: seq<Op>)
    decreases ops
  {
    ops == [] ||
    ((ops[0].AddOp? ==>
        var found := FirstNamed(t.records, ops[0].name, 0);
        found == |t.records| || forall j :: 0 <= j < found ==> t.records[j].used)
     && CleanAdds(Next(t, ops[0]), ops[1..]))
  }

  lemma RemoveKeepsNamesDistinct(t: Table, name: string)
    requires DistinctNames(t)
    ensures DistinctNames(Next(t, RemoveOp(name)))
  {
  }

  lemma {:induction false} RunKeepsNamesDistinct(t: Table, ops: seq<Op>)
    requires DistinctNames(t) && CleanAdds(t, ops)
    ensures DistinctNames(Run(t, ops))
    decreases ops
  {
    if ops != [] {
      if ops[0].RemoveOp? {
        RemoveKeepsNamesDistinct(t, ops[0].name);
      } else if Add(t, ops[0].name).Ok? {
        AddKeepsNamesDistinctExactly(t, ops[0].name);
      }
      RunKeepsNamesDistinct(Next(t, ops[0]), ops[1..]);
    }
  }

  /** Removing right after adding gives the table back exactly when the addition took a record.  When it
      handed out the record another had registered, the removal takes that one away. */
  lemma AddThenRemoveRestoresExactly(t: Table, name: string)
    requires Tidy(t) && Add(t, name).Ok? && Add(t, name).value.1.Some?
    ensures var t' := Add(t, name).value.0;
            && Remove(t', name).Ok? && Remove(t', name).value.1
            && (Remove(t', name).value.0 == t <==> t' != t)
            && (t' == t ==> Remove(t', name).value.0.usedCount == t.usedCount - 1)
  {
    var rs, found := t.records, FirstNamed(t.records, name, 0);
    var free := FirstUnused(rs, 0, found);
    var t' := Add(t, name).value.0;
    if free < found {
      assert Names(t'.records[free], name);
      assert forall j :: 0 <= j < free ==> t'.records[j] == rs[j] && !Names(rs[j], name);
      assert rs[free] in rs && rs[free] == CLEARED;
      assert t'.records[free := CLEARED] == rs;
    } else {
      assert rs[found] in rs;
    }
  }

  /* ---------- What the callers see ---------- */

  /** The record an add ends at: the first one that is free or used under the name. */
  predicate EndsAt(rs: seq<LockRecord>, name: string, i: nat)
  {
    && i < |rs| && (rs[i].used ==> rs[i].name == name)
    && forall j :: 0 <= j < i ==> rs[j].used && rs[j].name != name
  }

  /** Whether an add is accepted, and what it makes of the table: at most that one record changes. */
  lemma AddsExactly(t: Table, name: string)
    ensures var good := 0 < |name| < 32;
            && (Add(t, name) == Err(BadArgument) <==> !good)
            && (Add(t, name) == Err(Exhausted) <==> good && t.usedCount >= |t.records|)
            && (good && t.usedCount < |t.records| ==>
                  Add(t, name).Ok? &&
                  var (u, place) := Add(t, name).value;
                  match place
                  case None =>
                    u == t && forall j :: 0 <= j < |t.records| ==> t.records[j].used && t.records[j].name != name
                  case Some(i) =>
                    && EndsAt(t.records, name, i)
                    && (if t.records[i].used then u == t
                        else u == Table(t.records[i := LockRecord(true, name, 0)], t.usedCount + 1)))
  {
  }

  /** A remove drops one reference of the first record used under the name, and with the last one the record. */
  lemma RemovesExactly(t: Table, name: string, i: nat)
    requires 0 < |name| < 32
    requires i <= |t.records| && forall j :: 0 <= j < i ==> !(t.records[j].used && t.records[j].name == name)
    requires i < |t.records| ==> t.records[i].used && t.records[i].name == name
    ensures Remove(t, name) ==
              if i == |t.records| then Ok((t, false))
              else if t.records[i].refs <= 1
              then Ok((Table(t.records[i := LockRecord(false, "", 0)], t.usedCount - 1), true))
              else Ok((t.(records := t.records[i := LockRecord(true, name, t.records[i].refs - 1)]), false))
  {
    assert FirstNamed(t.records, name, 0) == i;
  }

  lemma RefusesNames(t: Table, name: string)
    ensures Remove(t, name) == Err(BadArgument) <==> !(0 < |name| < 32)
    ensures Remove(t, name).Err? ==> Remove(t, name) == Err(BadArgument)
  {
  }

  /* ---------- The table in place ---------- */

  class LockTable {
    const records: array<LockRecord>
    var usedCount: int

    ghost function View(): Table
      reads this, records
    {
      Table(records[..], usedCount)
    }

    constructor (size: nat)
      ensures View() == Fresh(size) && fresh(records)
    {
      records := new LockRecord[size](_ => CLEARED);
      usedCount := 0;
      new;
      assert records[..] == Fresh(size).records;
    }

    method AddLock(name: string) returns (r: Result<Option<nat>>)
      modifies this, records
      ensures match Add(old(View()), name)
              case Ok((t, place)) => View() == t && r == Ok(place)
              case Err(e) => View() == old(View()) && r == Err(e)
    {
      if !GoodName(name) {
        return Err(BadArgument);
      }
      if usedCount >= records.Length {
        return Err(Exhausted);
      }
      var found, free := -1, -1;
      ghost var rs := records[..];
      ghost var at := FirstNamed(rs, name, 0);
      var i := 0;
      while i < records.Length && found < 0
        invariant 0 <= i <= records.Length
        invariant if found < 0 then FirstNamed(rs, name, i) == at && i <= at else found == at < records.Length
        invariant if free < 0 then free == -1 && forall j :: 0 <= j < i <= at ==> rs[j].used
                  else free < at && free == FirstUnused(rs, 0, at)
        invariant found >= 0 && free < 0 ==> forall j :: 0 <= j < at ==> rs[j].used
        decreases records.Length - i, if found < 0 then 1 else 0
      {
        if records[i].used && records[i].name == name {
          found := i;
        } else {
          if free < 0 && !records[i].used {
            free := i;
          }
          i := i + 1;
        }
      }
      r := Ok(None);
      if found >= 0 {
        r := Ok(Some(found));
      }
      if free >= 0 {
        records[free] := LockRecord(true, name, 0);
        usedCount := usedCount + 1;
        r := Ok(Some(free));
      }
      assert records[..] == if free >= 0 then rs[free := LockRecord(true, name, 0)] else rs;
    }

    method RemoveLock(name: string) returns (r: Result<bool>)
      modifies this, records
      ensures match Remove(old(View()), name)
              case Ok((t, removed)) => View() == t && r == Ok(removed)
              case Err(e) => View() == old(View()) && r == Err(e)
    {
      if !GoodName(name) {
        return Err(BadArgument);
      }
      ghost var rs := records[..];
      var i := 0;
      while i < records.Length && !(records[i].used && records[i].name == name)
        invariant 0 <= i <= records.Length
        invariant FirstNamed(rs, name, i) == FirstNamed(rs, name, 0)
      {
        i := i + 1;
      }
      if i == records.Length {
        return Ok(false);
      }
      if records[i].refs > 0 {
        records[i] := records[i].(refs := records[i].refs - 1);
      }
      if records[i].refs <= 0 {
        records[i] := CLEARED;
        usedCount := usedCount - 1;
        assert records[..] == rs[i := CLEARED];
        return Ok(true);
      }
      assert records[..] == rs[i := rs[i].(refs := rs[i].refs - 1)];
      return Ok(false);
    }
  }
}
