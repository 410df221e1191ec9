/** One bucket of the hash index: a fixed number of cells, filled from the first on. */
module HashBuckets {
  import opened Outcomes

  datatype CellState = Free | Written | Live | Gone

  datatype Cell = Cell(state: CellState, hash: nat, offset: nat, size: nat, key: seq<int>)

  datatype Bucket = Bucket(cells: seq<Cell>, count: nat, overflow: bool)

  predicate CanWrite(b: Bucket) { !b.overflow && b.count < |b.cells| }

  function Write(b: Bucket, hash: nat, key: seq<int>, offset: nat, size: nat): Result<Bucket>
  {
    if !CanWrite(b) then Err(NoSpace)
    else if !b.cells[b.count].state.Free? then Err(BadState)
    else Ok(b.(cells := b.cells[b.count := Cell(Written, hash, offset, size, key)], count := b.count + 1))
  }

  function Commit(b: Bucket, cell: nat): Result<Bucket>
    requires cell < |b.cells|
  {
    if !b.cells[cell].state.Written? then Err(BadState)
    else Ok(b.(cells := b.cells[cell := b.cells[cell].(state := Live)]))
  }

  function Rollback(b: Bucket, cell: nat): Result<Bucket>
    requires cell < |b.cells|
  {
    if !b.cells[cell].state.Written? || b.count == 0 then Err(BadState)
    else Ok(b.(cells := b.cells[cell := b.cells[cell].(state := Free)], count := b.count - 1))
  }

  function Remove(b: Bucket, hash: nat, cell: nat): Result<Bucket>
    requires cell < |b.cells|
  {
    if !(b.cells[cell].state.Written? || b.cells[cell].state.Live?) || b.cells[cell].hash != hash then Err(BadState)
    else Ok(b.(cells := b.cells[cell := b.cells[cell].(state := Gone)]))
  }

  /** Point a cell at new data.  The source allows this only while the bucket could still take a record. */
  function Update(b: Bucket, hash: nat, cell: nat, offset: nat, size: nat): Result<Bucket>
    requires cell < |b.cells|
  {
    if !CanWrite(b) then Err(NoSpace)
    else if b.cells[cell].hash != hash then Err(Mismatch)
    else Ok(b.(cells := b.cells[cell := b.cells[cell].(state := Live, offset := offset, size := size)]))
  }

  /** A cell that a search for a state accepts; asked for free cells, it accepts any state. */
  predicate Matches(c: Cell, hash: nat, key: seq<int>, want: CellState)
  {
    (c.state == want || want.Free?) && c.hash == hash && c.key == key
  }

  /** The first matching cell from `k` on; a free cell below the count is an error. */
  function Find(b: Bucket, hash: nat, key: seq<int>, want: CellState, k: nat): Result<Option<nat>>
    requires b.count <= |b.cells|
    decreases b.count - k
  {
    if k >= b.count then Ok(None)
    else if b.cells[k].state.Free? then Err(BadState)
    else if Matches(b.cells[k], hash, key, want) then Ok(Some(k))
    else Find(b, hash, key, want, k + 1)
  }

  /* ---------- The shape of a bucket ---------- */

  /** Cells below the count are in use, the others are free. */
  predicate Packed(b: Bucket)
  {
    b.count <= |b.cells| && forall k :: 0 <= k < |b.cells| ==> (b.cells[k].state.Free? <==> k >= b.count)
  }

  lemma WriteKeepsPacked(b: Bucket, hash: nat, key: seq<int>, offset: nat, size: nat)
    requires Packed(b)
    ensures Write(b, hash, key, offset, size).Ok? <==> CanWrite(b)
    ensures CanWrite(b) ==> Packed(Write(b, hash, key, offset, size).value)
  {
  }

  lemma ChangesKeepPacked(b: Bucket, hash: nat, cell: nat, offset: nat, size: nat)
    requires Packed(b) && cell < |b.cells|
    ensures Commit(b, cell).Ok? ==> Packed(Commit(b, cell).value)
    ensures Remove(b, hash, cell).Ok? ==> Packed(Remove(b, hash, cell).value)
  {
  }

  /** Undoing a write keeps the bucket packed exactly when it undoes the last one. */
  lemma RollbackKeepsPackedExactly(b: Bucket, cell: nat)
    requires Packed(b) && cell < |b.cells| && Rollback(b, cell).Ok?
    ensures Packed(Rollback(b, cell).value) <==> cell == b.count - 1
  {
    var b' := Rollback(b, cell).value;
    assert b'.cells[cell].state.Free? && cell < b.count;
    assert b'.cells[b.count - 1].state.Free? <==> cell == b.count - 1;
  }

  /** Updating keeps the bucket packed exactly when the cell is in use. */
  lemma UpdateKeepsPackedExactly(b: Bucket, hash: nat, cell: nat, offset: nat, size: nat)
    requires Packed(b) && cell < |b.cells| && Update(b, hash, cell, offset, size).Ok?
    ensures Packed(Update(b, hash, cell, offset, size).value) <==> cell < b.count
  {
    var b' := Update(b, hash, cell, offset, size).value;
    assert b'.cells[cell].state.Live?;
  }

  datatype Op =
    | WriteOp(hash: nat, key: seq<int>, offset: nat, size: nat)
    | CommitOp(cell: nat)
    | RollbackOp(cell: nat)
    | RemoveOp(hash: nat, cell: nat)
    | UpdateOp(hash: nat, cell: nat, offset: nat, size: nat)

  function Apply(b: Bucket, op: Op): Result<Bucket>
  {
    match op
    case WriteOp(hash, key, offset, size) => Write(b, hash, key, offset, size)
    case CommitOp(cell) => if cell < |b.cells| then Commit(b, cell) else Err(OutOfRange)
    case RollbackOp(cell) => if cell < |b.cells| then Rollback(b, cell) else Err(OutOfRange)
    case RemoveOp(hash, cell) => if cell < |b.cells| then Remove(b, hash, cell) else Err(OutOfRange)
    case UpdateOp(hash, cell, offset, size) =>
      if cell < |b.cells| then Update(b, hash, cell, offset, size) else Err(OutOfRange)
  }

  function Next(b: Bucket, op: Op): Bucket
  {
    match Apply(b, op)
    case Ok(b') => b'
    case Err(_) => b
  }

  function Run(b: Bucket, ops: seq<Op>): Bucket
    decreases ops
  {
    if ops == [] then b else Run(Next(b, ops[0]), ops[1..])
  }

  /** Writes are undone last first, and only cells in use are updated. */
  predicate Disciplined(b: Bucket, ops: seq<Op>)
    decreases ops
  {
    ops == [] ||
    ((Apply(b, ops[0]).Ok? ==>
        (ops[0].RollbackOp? ==> ops[0].cell == b.count - 1) && (ops[0].UpdateOp? ==> ops[0].cell < b.count))
     && Disciplined(Next(b, ops[0]), ops[1..]))
  }

  lemma {:induction false} RunKeepsPacked(b: Bucket, ops: seq<Op>)
    requires Packed(b) && Disciplined(b, ops)
    ensures Packed(Run(b, ops))
    decreases ops
  {
    if ops != [] {
      RunKeepsPacked(Next(b, ops[0]), ops[1..]);
    }
  }

  /* ---------- Searching ---------- */

  /** In a packed bucket a search never fails, and finds the first match among the cells in use. */
  lemma {:induction false} FindIsTheFirstMatch(b: Bucket, hash: nat, key: seq<int>, want: CellState, k: nat)
    requires Packed(b)
    ensures match Find(b, hash, key, want, k)
            case Ok(Some(i)) => k <= i < b.count && Matches(b.cells[i], hash, key, want)
                             && forall j :: k <= j < i ==> !Matches(b.cells[j], hash, key, want)
            case Ok(None) => forall j :: k <= j < b.count ==> !Matches(b.cells[j], hash, key, want)
            case Err(_) => false
    decreases b.count - k
  {
    if k < b.count && !Matches(b.cells[k], hash, key, want) {
      FindIsTheFirstMatch(b, hash, key, want, k + 1);
    }
  }

  /** A search looks at the cells in use only. */
  lemma {:induction false} FindSeesCellsInUse(a: Bucket, b: Bucket, hash: nat, key: seq<int>, want: CellState, k: nat)
    requires a.count == b.count <= |a.cells| == |b.cells| && a.cells[..a.count] == b.cells[..b.count]
    ensures Find(a, hash, key, want, k) == Find(b, hash, key, want, k)
    decreases b.count - k
  {
    if k < b.count {
      assert a.cells[k] == a.cells[..a.count][k] == b.cells[..b.count][k] == b.cells[k];
      FindSeesCellsInUse(a, b, hash, key, want, k + 1);
    }
  }

  datatype Item = Item(hash: nat, key: seq<int>, offset: nat, size: nat)

  function WriteAll(b: Bucket, items: seq<Item>): Bucket
    decreases items
  {
    if items == [] then b
    else WriteAll(Next(b, WriteOp(items[0].hash, items[0].key, items[0].offset, items[0].size)), items[1..])
  }

  function UndoAll(b: Bucket, n: nat): Bucket
    decreases n
  {
    if n == 0 || b.count == 0 then b else UndoAll(Next(b, RollbackOp(b.count - 1)), n - 1)
  }

  lemma {:induction false} UndoneCells(b: Bucket, n: nat)
    requires Packed(b) && n <= b.count && forall k :: b.count - n <= k < b.count ==> b.cells[k].state.Written?
    ensures var u := UndoAll(b, n);
            && Packed(u) && u.count == b.count - n && |u.cells| == |b.cells|
            && u.cells[..u.count] == b.cells[..u.count]
    decreases n
  {
    if n > 0 {
      var b' := Next(b, RollbackOp(b.count - 1));
      assert b.cells[b.count - 1].state.Written?;
      RollbackKeepsPackedExactly(b, b.count - 1);
      UndoneCells(b', n - 1);
      assert b'.cells[..b.count - n] == b.cells[..b.count - n];
    }
  }

  /** Undoing a transaction's writes in reverse order gives every search its old result back. */
  lemma {:induction false} UndoRestoresSearches(b: Bucket, items: seq<Item>, hash: nat, key: seq<int>, want: CellState)
    requires Packed(b) && !b.overflow && b.count + |items| <= |b.cells|
    ensures var u := UndoAll(WriteAll(b, items), |items|);
            && Packed(u) && u.count == b.count && u.cells[..u.count] == b.cells[..b.count]
            && Find(u, hash, key, want, 0) == Find(b, hash, key, want, 0)
  {
    WrittenCells(b, items);
    var w, n := WriteAll(b, items), |items|;
    UndoneCells(w, n);
    var u := UndoAll(w, n);
    assert u.cells[..b.count] == w.cells[..b.count];
    FindSeesCellsInUse(u, b, hash, key, want, 0);
  }

  lemma {:induction false} WrittenCells(b: Bucket, items: seq<Item>)
    requires Packed(b) && !b.overflow && b.count + |items| <= |b.cells|
    ensures var w := WriteAll(b, items);
            && Packed(w) && w.count == b.count + |items| && |w.cells| == |b.cells|
            && w.cells[..b.count] == b.cells[..b.count]
            && forall k :: b.count <= k < w.count ==> w.cells[k].state.Written?
    decreases items
  {
    if items != [] {
      var i := items[0];
      var b' := Next(b, WriteOp(i.hash, i.key, i.offset, i.size));
      WrittenCells(b', items[1..]);
      var w := WriteAll(b, items);
      assert w.cells[b.count] == w.cells[..b'.count][b.count] == b'.cells[b.count];
      assert b'.cells[..b.count] == b.cells[..b.count];
      assert w.cells[..b.count] == w.cells[..b'.count][..b.count];
    }
  }

  /** After a cell is removed, a search for live cells passes it over; every other result stays. */
  lemma RemovedIsNotFound(b: Bucket, hash: nat, key: seq<int>, cell: nat)
    requires Packed(b) && cell < |b.cells| && Remove(b, hash, cell).Ok?
    ensures var b' := Remove(b, hash, cell).value;
            && Find(b', hash, key, Live, 0) != Ok(Some(cell))
            && (Find(b, hash, key, Live, 0) != Ok(Some(cell)) ==>
                  Find(b', hash, key, Live, 0) == Find(b, hash, key, Live, 0))
  {
    var b' := Remove(b, hash, cell).value;
    ChangesKeepPacked(b, hash, cell, 0, 0);
    FindIsTheFirstMatch(b, hash, key, Live, 0);
    FindIsTheFirstMatch(b', hash, key, Live, 0);
    forall j | 0 <= j < b.count && j != cell
      ensures Matches(b'.cells[j], hash, key, Live) == Matches(b.cells[j], hash, key, Live)
    {
    }
    assert !Matches(b'.cells[cell], hash, key, Live);
  }

  /** A search for cells in one state, spelled out: the first cell in use that is in it and has hash and key. */
  ghost predicate Finds(b: Bucket, want: CellState, hash: nat, key: seq<int>, found: Option<nat>)
  {
    match found
    case Some(i) =>
      && i < b.count && i < |b.cells| && b.cells[i].state == want && b.cells[i].hash == hash && b.cells[i].key == key
      && forall j :: 0 <= j < i ==>
           !(b.cells[j].state == want && b.cells[j].hash == hash && b.cells[j].key == key)
    case None =>
      forall j :: 0 <= j < b.count && j < |b.cells| ==>
        !(b.cells[j].state == want && b.cells[j].hash == hash && b.cells[j].key == key)
  }

  lemma SearchFinds(b: Bucket, want: CellState, hash: nat, key: seq<int>)
    requires Packed(b) && !want.Free?
    ensures Find(b, hash, key, want, 0).Ok? && Finds(b, want, hash, key, Find(b, hash, key, want, 0).value)
  {
    FindIsTheFirstMatch(b, hash, key, want, 0);
    forall j | 0 <= j < b.count
      ensures Matches(b.cells[j], hash, key, want) <==>
                b.cells[j].state == want && b.cells[j].hash == hash && b.cells[j].key == key
    {
    }
  }

  lemma FoundIsUnique(b: Bucket, want: CellState, hash: nat, key: seq<int>, f: Option<nat>, g: Option<nat>)
    requires Packed(b) && Finds(b, want, hash, key, f) && Finds(b, want, hash, key, g)
    ensures f == g
  {
  }

  /** The only other search there is asks for free cells, and is answered with the first cell in use that has hash and
      key, whatever its state. */
  lemma SearchOfAnyState(b: Bucket, hash: nat, key: seq<int>)
    requires Packed(b)
    ensures match Find(b, hash, key, Free, 0)
            case Ok(Some(i)) =>
              && i < b.count && b.cells[i].hash == hash && b.cells[i].key == key
              && forall j :: 0 <= j < i ==> !(b.cells[j].hash == hash && b.cells[j].key == key)
            case Ok(None) => forall j :: 0 <= j < b.count ==> !(b.cells[j].hash == hash && b.cells[j].key == key)
            case Err(_) => false
  {
    FindIsTheFirstMatch(b, hash, key, Free, 0);
    forall j | 0 <= j < b.count
      ensures Matches(b.cells[j], hash, key, Free) <==> b.cells[j].hash == hash && b.cells[j].key == key
    {
    }
  }

  /** A record that has been written is not found yet. */
  lemma WrittenIsNotFound(b: Bucket, hash: nat, key: seq<int>, offset: nat, size: nat, h: nat, k: seq<int>)
    requires Packed(b) && CanWrite(b)
    ensures var w := Write(b, hash, key, offset, size).value;
            Packed(w) && w.count == b.count + 1 && Find(w, h, k, Live, 0) == Find(b, h, k, Live, 0)
  {
    var w := Write(b, hash, key, offset, size).value;
    WriteKeepsPacked(b, hash, key, offset, size);
    SearchFinds(b, Live, h, k);
    SearchFinds(w, Live, h, k);
    FoundIsUnique(w, Live, h, k, Find(w, h, k, Live, 0).value, Find(b, h, k, Live, 0).value);
  }

  /** Once committed it is found, and leads to its own data, unless a live record was there before under the same hash
      and key; every other search finds what it found before. */
  lemma CommittedIsFound(b: Bucket, hash: nat, key: seq<int>, offset: nat, size: nat, h: nat, k: seq<int>)
    requires Packed(b) && CanWrite(b)
    ensures var n := b.count;
            var w := Write(b, hash, key, offset, size).value;
            n < |w.cells| && Commit(w, n).Ok? &&
            var c, before := Commit(w, n).value, Find(b, h, k, Live, 0);
            && Packed(c) && c.count == n + 1 && |c.cells| == |b.cells|
            && c.cells[n] == Cell(Live, hash, offset, size, key)
            && (forall j :: 0 <= j < |b.cells| && j != n ==> c.cells[j] == b.cells[j])
            && Find(c, h, k, Live, 0) == if before == Ok(None) && h == hash && k == key then Ok(Some(n)) else before
  {
    var n, w := b.count, Write(b, hash, key, offset, size).value;
    var c := Commit(w, n).value;
    WriteKeepsPacked(b, hash, key, offset, size);
    ChangesKeepPacked(w, hash, n, offset, size);
    SearchFinds(b, Live, h, k);
    SearchFinds(c, Live, h, k);
    var before := Find(b, h, k, Live, 0).value;
    var after := if before == None && h == hash && k == key then Some(n) else before;
    FoundIsUnique(c, Live, h, k, Find(c, h, k, Live, 0).value, after);
  }

  /** A committed record that is removed is not found again; what was behind it under the same hash and key is. */
  lemma RemoveUndoesCommit(b: Bucket, hash: nat, key: seq<int>, offset: nat, size: nat, h: nat, k: seq<int>)
    requires Packed(b) && CanWrite(b)
    ensures var c := Commit(Write(b, hash, key, offset, size).value, b.count).value;
            && Remove(c, hash, b.count).Ok? && Packed(Remove(c, hash, b.count).value)
            && Find(Remove(c, hash, b.count).value, h, k, Live, 0) == Find(b, h, k, Live, 0)
  {
    CommittedIsFound(b, hash, key, offset, size, h, k);
    var c := Commit(Write(b, hash, key, offset, size).value, b.count).value;
    var r := Remove(c, hash, b.count).value;
    ChangesKeepPacked(c, hash, b.count, 0, 0);
    SearchFinds(b, Live, h, k);
    SearchFinds(r, Live, h, k);
    FoundIsUnique(r, Live, h, k, Find(r, h, k, Live, 0).value, Find(b, h, k, Live, 0).value);
  }

  /** An update points a live cell that a search finds at the new data; every search finds the cell it found before. */
  lemma UpdatedLeadsToNewData(b: Bucket, hash: nat, cell: nat, offset: nat, size: nat, h: nat, k: seq<int>)
    requires Packed(b) && CanWrite(b) && cell < b.count && b.cells[cell].state.Live? && b.cells[cell].hash == hash
    ensures Update(b, hash, cell, offset, size).Ok?
    ensures var u := Update(b, hash, cell, offset, size).value;
            && u.cells[cell] == Cell(Live, hash, offset, size, b.cells[cell].key)
            && (forall j :: 0 <= j < |b.cells| && j != cell ==> u.cells[j] == b.cells[j])
            && Find(u, h, k, Live, 0) == Find(b, h, k, Live, 0)
  {
    var u := Update(b, hash, cell, offset, size).value;
    UpdateKeepsPackedExactly(b, hash, cell, offset, size);
    SearchFinds(b, Live, h, k);
    SearchFinds(u, Live, h, k);
    FoundIsUnique(u, Live, h, k, Find(u, h, k, Live, 0).value, Find(b, h, k, Live, 0).value);
  }

  /** Committing any written cell makes a live search for its hash and key find it, unless the search found an earlier
      cell before; it changes no other search and no other cell. */
  lemma CommitMakesFound(b: Bucket, cell: nat, h: nat, k: seq<int>)
    requires Packed(b) && cell < |b.cells|
    ensures Commit(b, cell).Ok? <==> b.cells[cell].state.Written?
    ensures b.cells[cell].state.Written? ==>
              var c, was, before := Commit(b, cell).value, b.cells[cell], Find(b, h, k, Live, 0);
              && c.count == b.count && c.overflow == b.overflow && |c.cells| == |b.cells|
              && c.cells[cell] == Cell(Live, was.hash, was.offset, was.size, was.key)
              && (forall j :: 0 <= j < |b.cells| && j != cell ==> c.cells[j] == b.cells[j])
              && before.Ok?
              && Find(c, h, k, Live, 0) ==
                   if h == was.hash && k == was.key && (before.value.None? || before.value.value > cell)
                   then Ok(Some(cell)) else before
  {
    if b.cells[cell].state.Written? {
      var c := Commit(b, cell).value;
      ChangesKeepPacked(b, b.cells[cell].hash, cell, 0, 0);
      SearchFinds(b, Live, h, k);
      SearchFinds(c, Live, h, k);
      var before, after := Find(b, h, k, Live, 0).value, Find(c, h, k, Live, 0).value;
      if h == b.cells[cell].hash && k == b.cells[cell].key && (before.None? || before.value > cell) {
        FoundIsUnique(c, Live, h, k, after, Some(cell));
      } else {
        FoundIsUnique(c, Live, h, k, after, before);
      }
    }
  }

  /** When the other changes of a cell are refused, and why. */
  lemma RefusesExactly(b: Bucket, hash: nat, key: seq<int>, cell: nat, offset: nat, size: nat)
    requires cell < |b.cells|
    ensures var c, room := b.cells[cell], !b.overflow && b.count < |b.cells|;
            && (Write(b, hash, key, offset, size) == Err(NoSpace) <==> !room)
            && (Write(b, hash, key, offset, size) == Err(BadState) <==> room && !b.cells[b.count].state.Free?)
            && (Rollback(b, cell).Ok? <==> c.state.Written? && b.count > 0)
            && (Remove(b, hash, cell).Ok? <==> (c.state.Written? || c.state.Live?) && c.hash == hash)
            && (Update(b, hash, cell, offset, size) == Err(NoSpace) <==> !room)
            && (Update(b, hash, cell, offset, size) == Err(Mismatch) <==> room && c.hash != hash)
            && (Update(b, hash, cell, offset, size).Ok? <==> room && c.hash == hash)
  {
  }

  /* ---------- The bucket in place ---------- */

  class BucketPage {
    const cells: array<Cell>
    var count: nat
    var overflow: bool

    ghost function View(): Bucket
      reads this, cells
    {
      Bucket(cells[..], count, overflow)
    }

    constructor (size: nat)
      ensures Packed(View()) && fresh(cells) && cells.Length == size && count == 0 && !overflow
    {
      cells := new Cell[size](_ => Cell(Free, 0, 0, 0, []));
      count, overflow := 0, false;
    }

    method WriteCell(hash: nat, key: seq<int>, offset: nat, size: nat) returns (r: Result<nat>)
      modifies this, cells
      ensures match Write(old(View()), hash, key, offset, size)
              case Ok(b) => View() == b && r == Ok(old(count))
              case Err(e) => View() == old(View()) && r == Err(e)
    {
      if overflow || count >= cells.Length {
        return Err(NoSpace);
      }
      if cells[count].state != Free {
        return Err(BadState);
      }
      cells[count] := Cell(Written, hash, offset, size, key);
      count := count + 1;
      assert cells[..] == old(cells[..])[old(count) := cells[old(count)]];
      return Ok(count - 1);
    }

    method CommitCell(cell: nat) returns (r: Result<()>)
      requires cell < cells.Length
      modifies cells
      ensures match Commit(old(View()), cell)
              case Ok(b) => View() == b && r == Ok(())
              case Err(e) => View() == old(View()) && r == Err(e)
    {
      if cells[cell].state != Written {
        return Err(BadState);
      }
      cells[cell] := cells[cell].(state := Live);
      assert cells[..] == old(cells[..])[cell := cells[cell]];
      return Ok(());
    }

    /** Undo a write.  A cell in the written state is below the count, so the count cannot be zero. */
    method RollbackCell(cell: nat) returns (r: Result<()>)
      requires cell < cells.Length && Packed(View())
      modifies this, cells
      ensures match Rollback(old(View()), cell)
              case Ok(b) => View() == b && r == Ok(())
              case Err(e) => View() == old(View()) && r == Err(e)
    {
      if cells[cell].state != Written {
        return Err(BadState);
      }
      cells[cell] := cells[cell].(state := Free);
      count := count - 1;
      assert cells[..] == old(cells[..])[cell := cells[cell]];
      return Ok(());
    }

    method RemoveCell(hash: nat, cell: nat) returns (r: Result<()>)
      requires cell < cells.Length
      modifies cells
      ensures match Remove(old(View()), hash, cell)
              case Ok(b) => View() == b && r == Ok(())
              case Err(e) => View() == old(View()) && r == Err(e)
    {
      if !(cells[cell].state == Written || cells[cell].state == Live) || cells[cell].hash != hash {
        return Err(BadState);
      }
      cells[cell] := cells[cell].(state := Gone);
      assert cells[..] == old(cells[..])[cell := cells[cell]];
      return Ok(());
    }

    method UpdateCell(hash: nat, cell: nat, offset: nat, size: nat) returns (r: Result<()>)
      requires cell < cells.Length
      modifies cells
      ensures match Update(old(View()), hash, cell, offset, size)
              case Ok(b) => View() == b && r == Ok(())
              case Err(e) => View() == old(View()) && r == Err(e)
    {
      if overflow || count >= cells.Length {
        return Err(NoSpace);
      }
      if cells[cell].hash != hash {
        return Err(Mismatch);
      }
      cells[cell] := cells[cell].(state := Live, offset := offset, size := size);
      assert cells[..] == old(cells[..])[cell := cells[cell]];
      return Ok(());
    }

    method FindCell(hash: nat, key: seq<int>, want: CellState) returns (r: Result<Option<nat>>)
      requires count <= cells.Length
      ensures r == Find(View(), hash, key, want, 0)
    {
      for i := 0 to count
        invariant Find(View(), hash, key, want, i) == Find(View(), hash, key, want, 0)
      {
        var c := cells[i];
        if c.state == Free {
          return Err(BadState);
        }
        if c.state == want || want == Free {
          if c.hash == hash && c.key == key {
            return Ok(Some(i));
          }
        }
      }
      return Ok(None);
    }
  }
}
