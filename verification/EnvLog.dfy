/** The node's environment log: keyed records appended to a mapped file, and the index of first writes that a
    restart rebuilds from the file. */
module EnvLogs {
  import opened Outcomes
  import opened ByteCodec

  const HEADER_SIZE := 40
  const KEY_SIZE := 64
  const LENGTH_SIZE := 4

  /** The loader computes offsets in 32 bits. */
  const OFFSET_SPAN := 0x1_0000_0000

  datatype Rec = Rec(key: seq<Byte>, data: seq<Byte>)

  datatype Place = Place(at: nat, size: nat)

  type Index = map<seq<Byte>, Place>

  datatype Env = Env(bytes: seq<Byte>, end: nat, records: nat, index: Index)

  datatype Loaded = Loaded(index: Index, offset: nat)

  /** An entry put in only when the name is new. */
  function Insert(m: Index, name: seq<Byte>, p: Place): Index
  {
    if name in m then m else m[name := p]
  }

  function Extent(r: Rec): nat { KEY_SIZE + LENGTH_SIZE + |r.data| }

  /** A C string: the bytes before the first zero. */
  function UntilZero(s: seq<Byte>): (r: seq<Byte>)
    ensures |r| <= |s| && r == s[..|r|] && 0 !in r && (|r| < |s| ==> s[|r|] == 0)
  {
    if s == [] || s[0] == 0 then [] else [s[0]] + UntilZero(s[1..])
  }

  function Padded(key: seq<Byte>): (r: seq<Byte>)
    ensures |r| == KEY_SIZE
  {
    (key + Zeros(KEY_SIZE))[..KEY_SIZE]
  }

  /** The name a restart gives a record: the key field has no closing zero of its own, so a key that fills it
      runs on into the length. */
  function LoadedKey(r: Rec): seq<Byte> { UntilZero(Padded(r.key) + Encode(|r.data|, LENGTH_SIZE)) }

  /** The record and its key lie in the region. */
  predicate HasRoom(b: seq<Byte>, at: nat, r: Rec) { at + |r.key| <= |b| && at + Extent(r) <= |b| }

  /** Writing a record: the key field is cleared and the key copied in, whatever its length, then the length
      and the data over what follows. */
  ghost function Store(b: seq<Byte>, at: nat, r: Rec): (s: seq<Byte>)
    requires HasRoom(b, at, r)
    ensures |s| == |b|
  {
    var keyed := Put(Put(b, at, Zeros(KEY_SIZE)), at, r.key);
    var cleared := Put(keyed, at + KEY_SIZE, Zeros(LENGTH_SIZE + |r.data|));
    Put(Put(cleared, at + KEY_SIZE, Encode(|r.data|, LENGTH_SIZE)), at + KEY_SIZE + LENGTH_SIZE, r.data)
  }

  /** The check made before a write; it leaves the key field out. */
  predicate Accepts(e: Env, r: Rec) { e.end + |r.data| + LENGTH_SIZE <= |e.bytes| }

  ghost function Add(e: Env, r: Rec): Result<Env>
    requires Accepts(e, r) ==> HasRoom(e.bytes, e.end, r)
  {
    if r.key == [] then Err(BadArgument)
    else if !Accepts(e, r) then Err(NoSpace)
    else
      var p := Place(e.end + KEY_SIZE + LENGTH_SIZE, |r.data|);
      Ok(Env(Store(e.bytes, e.end, r), e.end + Extent(r), e.records + 1, Insert(e.index, r.key, p)))
  }

  /** The C string that starts at `i`, looked for below `j`. */
  function NameAt(b: seq<Byte>, i: nat, j: nat): seq<Byte>
    requires i <= j <= |b|
    decreases j - i
  {
    if i == j || b[i] == 0 then [] else [b[i]] + NameAt(b, i + 1, j)
  }

  /** The number stored from `i` to `j`. */
  function NumberAt(b: seq<Byte>, i: nat, j: nat): nat
    requires i <= j <= |b|
    decreases j - i
  {
    if i == j then 0 else b[i] + 256 * NumberAt(b, i + 1, j)
  }

  lemma {:induction false} PartsAt(b: seq<Byte>, i: nat, j: nat)
    requires i <= j <= |b|
    ensures NameAt(b, i, j) == UntilZero(b[i..j])
    ensures NumberAt(b, i, j) == Decode(b[i..j])
    decreases j - i
  {
    if i < j {
      assert b[i..j][1..] == b[i + 1..j];
      PartsAt(b, i + 1, j);
    }
  }

  /** Reading the file back, record by record, from an offset behind the header on.  A record that begins in
      the region and whose key and length do not end in it is out of range. */
  function Load(b: seq<Byte>, records: nat, offset: nat, count: nat, index: Index): Result<Loaded>
    decreases records - count
  {
    if count >= records then Ok(Loaded(index, offset))
    else if HEADER_SIZE + offset >= |b| then Err(Mismatch)
    else
      var at := (HEADER_SIZE + offset) % OFFSET_SPAN;
      var sized, data := at + KEY_SIZE, at + KEY_SIZE + LENGTH_SIZE;
      if data > |b| then Err(OutOfRange)
      else
        var size := NumberAt(b, sized, data);
        Load(b, records, (offset + size + LENGTH_SIZE + KEY_SIZE) % OFFSET_SPAN, count + 1,
             Insert(index, NameAt(b, at, data), Place(data, size)))
  }

  lemma LoadEnds(b: seq<Byte>, records: nat, offset: nat, count: nat, index: Index)
    requires count <= records && (count == records || HEADER_SIZE + offset >= |b|)
    ensures Load(b, records, offset, count, index)
            == if count == records then Ok(Loaded(index, offset)) else Err(Mismatch)
  {
  }

  lemma LoadStays(b: seq<Byte>, records: nat, offset: nat, count: nat, index: Index)
    requires count < records && HEADER_SIZE + offset < |b|
    requires Load(b, records, offset, count, index) != Err(OutOfRange)
    ensures (HEADER_SIZE + offset) % OFFSET_SPAN + KEY_SIZE + LENGTH_SIZE <= |b|
  {
  }

  /** One round of the loader, over a record at `at`. */
  lemma LoadRound(b: seq<Byte>, records: nat, offset: nat, count: nat, index: Index, at: nat, next: nat, index': Index)
    requires count < records && HEADER_SIZE + offset < |b|
    requires at == (HEADER_SIZE + offset) % OFFSET_SPAN && at + KEY_SIZE + LENGTH_SIZE <= |b|
    requires var size := NumberAt(b, at + KEY_SIZE, at + KEY_SIZE + LENGTH_SIZE);
             && next == (offset + size + LENGTH_SIZE + KEY_SIZE) % OFFSET_SPAN
             && index' == Insert(index, NameAt(b, at, at + KEY_SIZE + LENGTH_SIZE),
                                 Place(at + KEY_SIZE + LENGTH_SIZE, size))
    ensures Load(b, records, offset, count, index) == Load(b, records, next, count + 1, index')
  {
  }

  /* ---------- What was written ---------- */

  /** Where the first `k` records of a log end. */
  function End(log: seq<Rec>, k: nat): (n: nat)
    requires k <= |log|
    ensures n >= HEADER_SIZE
  {
    if k == 0 then HEADER_SIZE else End(log, k - 1) + Extent(log[k - 1])
  }

  /** Where the data of a record lies. */
  function DataPlace(log: seq<Rec>, k: nat): Place
    requires k < |log|
  {
    Place(End(log, k) + KEY_SIZE + LENGTH_SIZE, |log[k].data|)
  }

  function Name(r: Rec, loaded: bool): seq<Byte> { if loaded then LoadedKey(r) else r.key }

  /** The index of the first `k` records: the first record of each name, named as written or as loaded. */
  function Names(log: seq<Rec>, k: nat, loaded: bool): Index
    requires k <= |log|
  {
    if k == 0 then map[]
    else Insert(Names(log, k - 1, loaded), Name(log[k - 1], loaded), DataPlace(log, k - 1))
  }

  predicate StoredAt(b: seq<Byte>, at: nat, r: Rec)
  {
    && at + Extent(r) <= |b|
    && b[at..at + KEY_SIZE] == Padded(r.key)
    && b[at + KEY_SIZE..at + KEY_SIZE + LENGTH_SIZE] == Encode(|r.data|, LENGTH_SIZE)
    && b[at + KEY_SIZE + LENGTH_SIZE..at + Extent(r)] == r.data
  }

  predicate StoredIn(b: seq<Byte>, log: seq<Rec>, k: nat)
    requires k < |log|
  {
    |log[k].data| < OFFSET_SPAN && StoredAt(b, End(log, k), log[k])
  }

  /** The file holds a log. */
  ghost predicate Holds(b: seq<Byte>, log: seq<Rec>)
  {
    End(log, |log|) <= |b| && forall k :: 0 <= k < |log| ==> StoredIn(b, log, k)
  }

  /** The file holds a log, and the counters and the index are those of the log. */
  ghost predicate Describes(e: Env, log: seq<Rec>)
  {
    Holds(e.bytes, log) && e.end == End(log, |log|) && e.records == |log| && e.index == Names(log, |log|, false)
  }

  lemma FreshDescribes(size: nat, b: seq<Byte>)
    requires |b| == size && HEADER_SIZE <= size
    ensures Describes(Env(b, HEADER_SIZE, 0, map[]), [])
  {
  }

  /** What lies where after a record has been written: key field, length and data, and behind them what a longer key
      leaves there. */
  predicate ShowsRecord(s: seq<Byte>, b: seq<Byte>, at: nat, r: Rec, i: nat)
    requires i < |b| == |s|
  {
    var sized, data := at + KEY_SIZE, at + KEY_SIZE + LENGTH_SIZE;
    s[i] == if i < at then b[i]
            else if i < sized then (if i < at + |r.key| then r.key[i - at] else 0)
            else if i < data then Encode(|r.data|, LENGTH_SIZE)[i - sized]
            else if i < data + |r.data| then r.data[i - data]
            else if i < at + |r.key| then r.key[i - at] else b[i]
  }

  lemma StoreShows(b: seq<Byte>, at: nat, r: Rec, i: nat)
    requires HasRoom(b, at, r) && i < |b|
    ensures ShowsRecord(Store(b, at, r), b, at, r, i)
  {
    var zeros, more := Zeros(KEY_SIZE), Zeros(LENGTH_SIZE + |r.data|);
    var keyed := Put(Put(b, at, zeros), at, r.key);
    var cleared := Put(keyed, at + KEY_SIZE, more);
    KeyShows(b, at, r, i);
    PutShows(keyed, at + KEY_SIZE, more);
    PutShows(cleared, at + KEY_SIZE, Encode(|r.data|, LENGTH_SIZE));
    PutShows(Put(cleared, at + KEY_SIZE, Encode(|r.data|, LENGTH_SIZE)), at + KEY_SIZE + LENGTH_SIZE, r.data);
  }

  lemma KeyShows(b: seq<Byte>, at: nat, r: Rec, i: nat)
    requires HasRoom(b, at, r) && i < |b|
    ensures Put(Put(b, at, Zeros(KEY_SIZE)), at, r.key)[i]
            == if i < at then b[i] else if i < at + |r.key| then r.key[i - at]
               else if i < at + KEY_SIZE then 0 else b[i]
  {
    PutShows(b, at, Zeros(KEY_SIZE));
    PutShows(Put(b, at, Zeros(KEY_SIZE)), at, r.key);
  }

  /** However long the key is, the record's own fields come out right; what it overran is cleared by them. */
  lemma StoreStores(b: seq<Byte>, at: nat, r: Rec)
    requires HasRoom(b, at, r)
    ensures StoredAt(Store(b, at, r), at, r)
    ensures Store(b, at, r)[..at] == b[..at]
  {
    var s := Store(b, at, r);
    forall i: nat | i < |b| ensures ShowsRecord(s, b, at, r, i) {
      StoreShows(b, at, r, i);
    }
    ShownIsStored(s, b, at, r);
  }

  lemma ShownIsStored(s: seq<Byte>, b: seq<Byte>, at: nat, r: Rec)
    requires HasRoom(b, at, r) && |s| == |b| && forall i: nat :: i < |b| ==> ShowsRecord(s, b, at, r, i)
    ensures StoredAt(s, at, r) && s[..at] == b[..at]
  {
    var sized, data := at + KEY_SIZE, at + KEY_SIZE + LENGTH_SIZE;
    forall i: nat | i < at ensures s[i] == b[i] {
      assert ShowsRecord(s, b, at, r, i);
    }
    var key, size, rest := s[at..sized], s[sized..data], s[data..at + Extent(r)];
    forall i: nat | i < KEY_SIZE ensures key[i] == Padded(r.key)[i] {
      assert ShowsRecord(s, b, at, r, at + i);
    }
    forall i: nat | i < LENGTH_SIZE ensures size[i] == Encode(|r.data|, LENGTH_SIZE)[i] {
      assert ShowsRecord(s, b, at, r, sized + i);
    }
    forall i: nat | i < |r.data| ensures rest[i] == r.data[i] {
      assert ShowsRecord(s, b, at, r, data + i);
    }
  }

  lemma {:induction false} EndGrows(log: seq<Rec>, k: nat, n: nat)
    requires k < n <= |log|
    ensures End(log, k) + Extent(log[k]) <= End(log, n)
    decreases n
  {
    if k < n - 1 {
      EndGrows(log, k, n - 1);
    }
  }

  lemma {:induction false} Extends(log: seq<Rec>, r: Rec, k: nat)
    requires k <= |log|
    ensures End(log + [r], k) == End(log, k) && Names(log + [r], k, false) == Names(log, k, false)
  {
    if k > 0 {
      Extends(log, r, k - 1);
    }
  }

  lemma StoreKeeps(b: seq<Byte>, s: seq<Byte>, log: seq<Rec>, k: nat)
    requires Holds(b, log) && k < |log| && |s| == |b| && s[..End(log, |log|)] == b[..End(log, |log|)]
    ensures StoredIn(s, log, k)
  {
    assert StoredIn(b, log, k);
    EndGrows(log, k, |log|);
    SameRecord(b, s, End(log, |log|), End(log, k), log[k]);
  }

  lemma SameRecord(b: seq<Byte>, s: seq<Byte>, end: nat, at: nat, r: Rec)
    requires StoredAt(b, at, r) && at + Extent(r) <= end <= |b| && |s| == |b| && s[..end] == b[..end]
    ensures StoredAt(s, at, r)
  {
    SamePart(b, s, end, at, at + KEY_SIZE);
    SamePart(b, s, end, at + KEY_SIZE, at + KEY_SIZE + LENGTH_SIZE);
    SamePart(b, s, end, at + KEY_SIZE + LENGTH_SIZE, at + Extent(r));
  }

  lemma SamePart(b: seq<Byte>, s: seq<Byte>, end: nat, i: nat, j: nat)
    requires |s| == |b| && i <= j <= end <= |b| && s[..end] == b[..end]
    ensures s[i..j] == b[i..j]
  {
    assert s[i..j] == s[..end][i..j] && b[i..j] == b[..end][i..j];
  }

  /** Every accepted write extends the log by its record and leaves the records before it in place. */
  lemma AddExtends(e: Env, log: seq<Rec>, r: Rec)
    requires Describes(e, log) && |r.data| < OFFSET_SPAN
    requires Accepts(e, r) ==> HasRoom(e.bytes, e.end, r)
    ensures Add(e, r).Ok? <==> r.key != [] && e.end + |r.data| + LENGTH_SIZE <= |e.bytes|
    ensures Add(e, r).Ok? ==> Describes(Add(e, r).value, log + [r])
  {
    if Add(e, r).Ok? {
      var log' := log + [r];
      var b := Store(e.bytes, e.end, r);
      StoreStores(e.bytes, e.end, r);
      Extends(log, r, |log|);
      forall k | 0 <= k < |log'| ensures StoredIn(b, log', k) {
        Extends(log, r, k);
        if k < |log| {
          StoreKeeps(e.bytes, b, log, k);
        }
      }
    }
  }

  /** What lies where after a write: 64 bytes of key, filled up with zeros, four of length, little end first, and the
      data.  Of a key that reaches beyond all of them, the rest lies behind the record. */
  lemma StoredBytes(b: seq<Byte>, at: nat, r: Rec)
    requires HasRoom(b, at, r)
    ensures var s, n := Store(b, at, r), |r.data|;
            && |s| == |b| && Extent(r) == 68 + n
            && (forall i :: 0 <= i < 64 ==> s[at + i] == if i < |r.key| then r.key[i] else 0)
            && (forall i :: 0 <= i < 4 ==> s[at + 64 + i] == n / Span(i) % 256)
            && (forall i :: 0 <= i < n ==> s[at + 68 + i] == r.data[i])
            && (forall i :: 0 <= i < at ==> s[i] == b[i])
            && (forall i :: at + 68 + n <= i < |b| ==> s[i] == if i < at + |r.key| then r.key[i - at] else b[i])
  {
    var s := Store(b, at, r);
    forall i: nat | i < |b| ensures ShowsRecord(s, b, at, r, i) {
      StoreShows(b, at, r, i);
    }
    forall i | 0 <= i < 64 ensures s[at + i] == if i < |r.key| then r.key[i] else 0 {
      assert ShowsRecord(s, b, at, r, at + i);
    }
    forall i | 0 <= i < 4 ensures s[at + 64 + i] == |r.data| / Span(i) % 256 {
      LittleEndFirst(|r.data|, 4, i);
      assert ShowsRecord(s, b, at, r, at + 64 + i);
    }
    forall i | 0 <= i < |r.data| ensures s[at + 68 + i] == r.data[i] {
      assert ShowsRecord(s, b, at, r, at + 68 + i);
    }
    forall i | 0 <= i < |b| && !(at <= i < at + 68 + |r.data|)
      ensures s[i] == if at <= i < at + |r.key| then r.key[i - at] else b[i]
    {
      assert ShowsRecord(s, b, at, r, i);
    }
  }

  /** A key is in the index exactly when some record has it, and its place is where the data of the first such record
      lies in the file. */
  lemma FoundDataIsThere(e: Env, log: seq<Rec>, key: seq<Byte>)
    requires Describes(e, log)
    ensures key in e.index <==> exists k :: 0 <= k < |log| && log[k].key == key
    ensures key in e.index ==>
              exists k :: 0 <= k < |log| && log[k].key == key && (forall j :: 0 <= j < k ==> log[j].key != key)
                          && DataAt(e.bytes, e.index[key], log[k].data)
  {
    IndexedExactly(log, key);
    if key in e.index {
      var k :| FirstWith(log, k, key, false) && e.index[key] == DataPlace(log, k);
      FirstHasKey(log, k, key);
      assert StoredIn(e.bytes, log, k);
      DataIsStored(e.bytes, log, k);
    }
  }

  lemma FirstHasKey(log: seq<Rec>, k: nat, key: seq<Byte>)
    requires FirstWith(log, k, key, false)
    ensures log[k].key == key && forall j :: 0 <= j < k ==> log[j].key != key
  {
    forall j | 0 <= j < k ensures log[j].key != key {
      assert Name(log[j], false) != key;
    }
  }

  lemma DataIsStored(b: seq<Byte>, log: seq<Rec>, k: nat)
    requires k < |log| && StoredIn(b, log, k)
    ensures DataAt(b, DataPlace(log, k), log[k].data)
  {
  }

  predicate DataAt(b: seq<Byte>, p: Place, data: seq<Byte>)
  {
    p.at + p.size <= |b| && b[p.at..p.at + p.size] == data
  }

  /** A record added under a new key is found with its data; every other key, and a key that was there before, leads
      to the data it led to. */
  lemma AddedIsFound(e: Env, log: seq<Rec>, r: Rec, key: seq<Byte>)
    requires Describes(e, log) && |r.data| < OFFSET_SPAN
    requires Accepts(e, r) ==> HasRoom(e.bytes, e.end, r)
    requires Add(e, r).Ok?
    ensures var f := Add(e, r).value;
            && f.records == e.records + 1 && f.end == e.end + 68 + |r.data|
            && (key in f.index <==> key in e.index || key == r.key)
            && (key in e.index ==> f.index[key] == e.index[key])
            && (key in e.index ==>
                  forall data :: DataAt(e.bytes, e.index[key], data) ==> DataAt(f.bytes, f.index[key], data))
            && (key !in e.index && key == r.key ==> DataAt(f.bytes, f.index[key], r.data))
  {
    StoreStores(e.bytes, e.end, r);
    if key in e.index {
      var p := e.index[key];
      IndexedExactly(log, key);
      var k :| FirstWith(log, k, key, false) && p == DataPlace(log, k);
      EndGrows(log, k, |log|);
      SamePart(e.bytes, Add(e, r).value.bytes, e.end, p.at, p.at + p.size);
    }
  }

  /** The check before a write lets a record through that leaves the region exactly when less is missing than the
      key field, or than what a longer key reaches beyond length and data. */
  lemma AcceptedRecordOverruns(e: Env, r: Rec)
    ensures Accepts(e, r) && !HasRoom(e.bytes, e.end, r) <==>
              var rest := |e.bytes| - e.end - LENGTH_SIZE - |r.data|;
              0 <= rest && (rest < KEY_SIZE || rest < |r.key| - LENGTH_SIZE - |r.data|)
  {
  }

  /* ---------- Loading ---------- */

  lemma FourBytes()
    ensures Span(LENGTH_SIZE) == OFFSET_SPAN
  {
    assert Span(1) == 0x100;
    assert Span(2) == 0x1_0000;
    assert Span(3) == 0x100_0000;
  }

  /** The header of a stored record reads back as its length and the name a restart gives it. */
  lemma LoadedFields(b: seq<Byte>, at: nat, r: Rec)
    requires StoredAt(b, at, r) && |r.data| < OFFSET_SPAN
    ensures NumberAt(b, at + KEY_SIZE, at + KEY_SIZE + LENGTH_SIZE) == |r.data|
    ensures NameAt(b, at, at + KEY_SIZE + LENGTH_SIZE) == LoadedKey(r)
  {
    FourBytes();
    DecodeEncode(|r.data|, LENGTH_SIZE);
    Joined(b, at, at + KEY_SIZE, at + KEY_SIZE + LENGTH_SIZE);
    PartsAt(b, at, at + KEY_SIZE + LENGTH_SIZE);
    PartsAt(b, at + KEY_SIZE, at + KEY_SIZE + LENGTH_SIZE);
  }

  lemma Joined(b: seq<Byte>, i: nat, j: nat, k: nat)
    requires i <= j <= k <= |b|
    ensures b[i..k] == b[i..j] + b[j..k]
  {
  }

  /** One round of the loader over a stored record. */
  lemma LoadOne(b: seq<Byte>, records: nat, offset: nat, count: nat, index: Index, r: Rec, next: nat, index': Index)
    requires StoredAt(b, HEADER_SIZE + offset, r) && |r.data| < OFFSET_SPAN
    requires HEADER_SIZE + offset < OFFSET_SPAN && count < records && next == (offset + Extent(r)) % OFFSET_SPAN
    requires index' == Insert(index, LoadedKey(r), Place(HEADER_SIZE + offset + KEY_SIZE + LENGTH_SIZE, |r.data|))
    ensures Load(b, records, offset, count, index) == Load(b, records, next, count + 1, index')
  {
    LoadedFields(b, HEADER_SIZE + offset, r);
    LoadRound(b, records, offset, count, index, HEADER_SIZE + offset, next, index');
  }

  /** Every record begins where the loader's 32-bit offset reaches. */
  predicate Reached(log: seq<Rec>) { log == [] || End(log, |log| - 1) < OFFSET_SPAN }

  /** Where a loader stands that has entered the first `k` records of a log. */
  predicate StandsAt(log: seq<Rec>, k: nat, offset: nat, index: Index)
  {
    k <= |log| && offset == (End(log, k) - HEADER_SIZE) % OFFSET_SPAN && index == Names(log, k, true)
  }

  lemma LoadNext(b: seq<Byte>, log: seq<Rec>, records: nat, k: nat, offset: nat, index: Index, next: nat, index': Index)
    requires k < |log| <= records && End(log, k) < OFFSET_SPAN && StoredIn(b, log, k)
    requires StandsAt(log, k, offset, index) && StandsAt(log, k + 1, next, index')
    ensures Load(b, records, offset, k, index) == Load(b, records, next, k + 1, index')
  {
    assert offset == End(log, k) - HEADER_SIZE;
    LoadOne(b, records, offset, k, index, log[k], next, index');
  }

  /** From any record on, the loader comes through all there are, having entered them under the names it reads. */
  lemma {:induction false} LoadPast(b: seq<Byte>, log: seq<Rec>, records: nat, k: nat, offset: nat, index: Index)
    returns (offset': nat, index': Index)
    requires Holds(b, log) && Reached(log) && |log| <= records && StandsAt(log, k, offset, index)
    ensures StandsAt(log, |log|, offset', index')
    ensures Load(b, records, offset, k, index) == Load(b, records, offset', |log|, index')
    decreases |log| - k
  {
    offset', index' := offset, index;
    if k < |log| {
      var next, more := LoadRecord(b, log, records, k, offset, index);
      offset', index' := LoadPast(b, log, records, k + 1, next, more);
    }
  }

  lemma LoadRecord(b: seq<Byte>, log: seq<Rec>, records: nat, k: nat, offset: nat, index: Index)
    returns (next: nat, more: Index)
    requires Holds(b, log) && Reached(log) && k < |log| <= records && StandsAt(log, k, offset, index)
    ensures StandsAt(log, k + 1, next, more)
    ensures Load(b, records, offset, k, index) == Load(b, records, next, k + 1, more)
  {
    next, more := NextStand(log, k);
    BeginsReached(log, k);
    assert StoredIn(b, log, k);
    LoadNext(b, log, records, k, offset, index, next, more);
  }

  lemma NextStand(log: seq<Rec>, k: nat) returns (offset: nat, index: Index)
    requires k < |log|
    ensures StandsAt(log, k + 1, offset, index)
  {
    offset, index := (End(log, k + 1) - HEADER_SIZE) % OFFSET_SPAN, Names(log, k + 1, true);
  }

  lemma BeginsReached(log: seq<Rec>, k: nat)
    requires Reached(log) && k < |log|
    ensures End(log, k) < OFFSET_SPAN
  {
    if k < |log| - 1 {
      EndGrows(log, k, |log| - 1);
    }
  }

  lemma LoadsAll(b: seq<Byte>, log: seq<Rec>, k: nat, offset: nat, index: Index)
    requires Holds(b, log) && Reached(log) && StandsAt(log, k, offset, index)
    ensures Load(b, |log|, offset, k, index)
            == Ok(Loaded(Names(log, |log|, true), (End(log, |log|) - HEADER_SIZE) % OFFSET_SPAN))
  {
    var offset', index' := LoadPast(b, log, |log|, k, offset, index);
    LoadEnds(b, |log|, offset', |log|, index');
  }

  /** Loading a file whose records all begin below 4 GiB gives the first record of every name, and consumes what
      was written, no more, no less. */
  lemma LoadReadsTheLog(b: seq<Byte>, log: seq<Rec>)
    requires Holds(b, log) && Reached(log)
    ensures Load(b, |log|, 0, 0, map[])
            == Ok(Loaded(Names(log, |log|, true), (End(log, |log|) - HEADER_SIZE) % OFFSET_SPAN))
  {
    LoadsAll(b, log, 0, 0, map[]);
  }

  /** A file that ends before the records it is said to hold is refused: as a mismatch when it ends with a record, and
      as out of range when it ends inside the key or the length of one. */
  lemma ShortFileIsRefused(b: seq<Byte>, log: seq<Rec>, records: nat)
    requires Holds(b, log) && |log| < records && End(log, |log|) < OFFSET_SPAN && |b| < End(log, |log|) + 68
    ensures Load(b, records, 0, 0, map[]) == Err(if |b| == End(log, |log|) then Mismatch else OutOfRange)
  {
    ShortFrom(b, log, records, 0, 0, map[]);
  }

  lemma ShortFrom(b: seq<Byte>, log: seq<Rec>, records: nat, k: nat, offset: nat, index: Index)
    requires Holds(b, log) && |log| < records && End(log, |log|) < OFFSET_SPAN && |b| < End(log, |log|) + 68
    requires StandsAt(log, k, offset, index)
    ensures Load(b, records, offset, k, index) == Err(if |b| == End(log, |log|) then Mismatch else OutOfRange)
  {
    assert Reached(log) by { EndsReached(log); }
    var offset', index' := LoadPast(b, log, records, k, offset, index);
    PastEnds(b, log, records, offset', index');
  }

  lemma EndsReached(log: seq<Rec>)
    requires End(log, |log|) < OFFSET_SPAN
    ensures Reached(log)
  {
    if log != [] {
      EndGrows(log, |log| - 1, |log|);
    }
  }

  lemma PastEnds(b: seq<Byte>, log: seq<Rec>, records: nat, offset: nat, index: Index)
    requires |log| < records && StandsAt(log, |log|, offset, index)
    requires End(log, |log|) < OFFSET_SPAN && End(log, |log|) <= |b| < End(log, |log|) + 68
    ensures Load(b, records, offset, |log|, index) == Err(if |b| == End(log, |log|) then Mismatch else OutOfRange)
  {
    var end := End(log, |log|);
    assert HEADER_SIZE + offset == end;
    LoadBehind(b, records, offset, |log|, index);
  }

  lemma LoadBehind(b: seq<Byte>, records: nat, offset: nat, count: nat, index: Index)
    requires count < records && HEADER_SIZE + offset < OFFSET_SPAN
    requires HEADER_SIZE + offset <= |b| < HEADER_SIZE + offset + 68
    ensures Load(b, records, offset, count, index)
            == Err(if |b| == HEADER_SIZE + offset then Mismatch else OutOfRange)
  {
  }

  /** The loader gives no record a place behind those a 32-bit offset reaches. */
  lemma {:induction false} PlacesAreReached(b: seq<Byte>, records: nat, offset: nat, count: nat, index: Index)
    requires forall x <- index :: index[x].at < OFFSET_SPAN + KEY_SIZE + LENGTH_SIZE
    requires Load(b, records, offset, count, index).Ok?
    ensures var l := Load(b, records, offset, count, index).value;
            forall x <- l.index :: l.index[x].at < OFFSET_SPAN + KEY_SIZE + LENGTH_SIZE
    decreases records - count
  {
    if count < records {
      LoadStays(b, records, offset, count, index);
      var at := (HEADER_SIZE + offset) % OFFSET_SPAN;
      var data := at + KEY_SIZE + LENGTH_SIZE;
      var size := NumberAt(b, at + KEY_SIZE, data);
      var next, index' := (offset + size + LENGTH_SIZE + KEY_SIZE) % OFFSET_SPAN,
                          Insert(index, NameAt(b, at, data), Place(data, size));
      LoadRound(b, records, offset, count, index, at, next, index');
      PlacesAreReached(b, records, next, count + 1, index');
    }
  }

  /** When the last record's name is new, the whole log is loaded exactly when that record begins below 4 GiB. */
  lemma LoadReadsTheLogExactly(b: seq<Byte>, log: seq<Rec>)
    requires Holds(b, log) && log != [] && FirstWith(log, |log| - 1, LoadedKey(log[|log| - 1]), true)
    ensures Load(b, |log|, 0, 0, map[])
            == Ok(Loaded(Names(log, |log|, true), (End(log, |log|) - HEADER_SIZE) % OFFSET_SPAN))
       <==> End(log, |log| - 1) < OFFSET_SPAN
  {
    if Reached(log) {
      LoadReadsTheLog(b, log);
    } else if Load(b, |log|, 0, 0, map[]).Ok? {
      var k := |log| - 1;
      FirstWriteWins(log, k, |log|, LoadedKey(log[k]), true);
      PlacesAreReached(b, |log|, 0, 0, map[]);
    }
  }

  /* ---------- Names ---------- */

  lemma {:induction false} ZeroEndsString(s: seq<Byte>, k: nat)
    requires k <= |s| && 0 !in s[..k] && (k < |s| ==> s[k] == 0)
    ensures UntilZero(s) == s[..k]
  {
    if k > 0 {
      assert s[0] == s[..k][0];
      assert s[1..][..k - 1] == s[..k][1..];
      ZeroEndsString(s[1..], k - 1);
      assert s[..k] == [s[0]] + s[1..][..k - 1];
    }
  }

  /** A record keeps its key over a restart exactly when the key holds no zero byte and either is shorter than
      the key field or goes on, past the field, just as the length does. */
  lemma KeySurvivesExactly(r: Rec)
    ensures LoadedKey(r) == r.key <==>
              0 !in r.key && (|r.key| < KEY_SIZE || r.key[KEY_SIZE..] == UntilZero(Encode(|r.data|, LENGTH_SIZE)))
  {
    var size := Encode(|r.data|, LENGTH_SIZE);
    var field := Padded(r.key) + size;
    if |r.key| < KEY_SIZE {
      assert field[..|r.key|] == r.key && field[|r.key|] == 0;
      if 0 !in r.key {
        ZeroEndsString(field, |r.key|);
      }
    } else {
      var tail := UntilZero(size);
      assert Padded(r.key) == r.key[..KEY_SIZE];
      assert r.key == r.key[..KEY_SIZE] + r.key[KEY_SIZE..];
      if 0 !in r.key {
        var whole := r.key[..KEY_SIZE] + tail;
        assert field[..|whole|] == whole;
        assert |whole| < |field| ==> field[|whole|] == size[|tail|];
        ZeroEndsString(field, |whole|);
        assert whole[KEY_SIZE..] == tail;
      }
    }
  }

  /** Each of the first `k` records either keeps its key, or repeats a known key under a known name. */
  predicate NamesSurvive(log: seq<Rec>, k: nat)
    requires k <= |log|
  {
    k == 0 ||
    (NamesSurvive(log, k - 1) &&
     var r := log[k - 1];
     LoadedKey(r) == r.key || (r.key in Names(log, k - 1, false) && LoadedKey(r) in Names(log, k - 1, true)))
  }

  lemma {:induction false} PlacesAreBelow(log: seq<Rec>, k: nat, loaded: bool, name: seq<Byte>)
    requires k <= |log| && name in Names(log, k, loaded)
    ensures Names(log, k, loaded)[name].at < End(log, k) + KEY_SIZE + LENGTH_SIZE
    decreases k
  {
    if name in Names(log, k - 1, loaded) {
      PlacesAreBelow(log, k - 1, loaded, name);
    }
  }

  /** A restart gives the index that was in memory exactly when all names survive; one name lost is never made
      good by later writes. */
  lemma {:induction false} RestartAgreesExactly(log: seq<Rec>, k: nat)
    requires k <= |log|
    ensures Names(log, k, true) == Names(log, k, false) <==> NamesSurvive(log, k)
    decreases k
  {
    if k > 0 {
      RestartAgreesExactly(log, k - 1);
      if Names(log, k - 1, true) == Names(log, k - 1, false) {
        InsertsAgree(Names(log, k - 1, false), log[k - 1].key, LoadedKey(log[k - 1]), DataPlace(log, k - 1));
      } else {
        LostForGood(log, k - 1);
      }
    }
  }

  lemma LostForGood(log: seq<Rec>, k: nat)
    requires k < |log| && Names(log, k, true) != Names(log, k, false)
    ensures Names(log, k + 1, true) != Names(log, k + 1, false)
  {
    StaysApart(log, k, false);
    StaysApart(log, k, true);
    DifferAt(Names(log, k, false), Names(log, k, true), Names(log, k + 1, false), Names(log, k + 1, true),
             DataPlace(log, k));
  }

  lemma InsertsAgree(m: Index, key: seq<Byte>, name: seq<Byte>, p: Place)
    ensures Insert(m, key, p) == Insert(m, name, p) <==> key == name || (key in m && name in m)
  {
    var a, b := Insert(m, key, p), Insert(m, name, p);
    assert key in a && name in b;
    assert key != name && key !in m ==> key !in b;
    assert key != name && name !in m ==> name !in a;
  }

  lemma StaysApart(log: seq<Rec>, k: nat, loaded: bool)
    requires k < |log|
    ensures var p, m, m' := DataPlace(log, k), Names(log, k, loaded), Names(log, k + 1, loaded);
            && (forall x <- m :: m[x] != p && x in m' && m'[x] == m[x])
            && (forall x <- m' :: x in m || m'[x] == p)
  {
    forall x | x in Names(log, k, loaded) ensures Names(log, k, loaded)[x].at < End(log, k) + KEY_SIZE + LENGTH_SIZE {
      PlacesAreBelow(log, k, loaded, x);
    }
  }

  lemma DifferAt(m: Index, l: Index, m': Index, l': Index, p: Place)
    requires m != l
    requires forall x <- m :: m[x] != p && x in m' && m'[x] == m[x]
    requires forall x <- m' :: x in m || m'[x] == p
    requires forall x <- l :: l[x] != p && x in l' && l'[x] == l[x]
    requires forall x <- l' :: x in l || l'[x] == p
    ensures m' != l'
  {
    if x :| x in m && (x !in l || l[x] != m[x]) {
      assert x in m' && m'[x] == m[x];
    } else {
      var x :| x in l && x !in m;
      assert x in l' && l'[x] == l[x];
    }
  }

  /** With keys shorter than the key field, all names survive exactly when no key holds a zero byte. */
  lemma {:induction false} ShortNamesSurviveExactly(log: seq<Rec>, k: nat)
    requires k <= |log| && forall i :: 0 <= i < k ==> |log[i].key| < KEY_SIZE
    ensures NamesSurvive(log, k) <==> ZeroFree(log, k)
    decreases k
  {
    if k > 0 {
      var r := log[k - 1];
      ShortNamesSurviveExactly(log, k - 1);
      assert LoadedKey(r) == r.key <==> 0 !in r.key by { KeySurvivesExactly(r); }
      if ZeroFree(log, k - 1) && r.key in Names(log, k - 1, false) {
        var i := NameHasRecord(log, k - 1, false, r.key);
      }
    }
  }

  /** None of the first `k` keys holds a zero byte. */
  predicate ZeroFree(log: seq<Rec>, k: nat)
    requires k <= |log|
  {
    forall i :: 0 <= i < k ==> 0 !in log[i].key
  }

  lemma {:induction false} NameHasRecord(log: seq<Rec>, k: nat, loaded: bool, name: seq<Byte>) returns (i: nat)
    requires k <= |log| && name in Names(log, k, loaded)
    ensures i < k && Name(log[i], loaded) == name
    decreases k
  {
    if name == Name(log[k - 1], loaded) {
      i := k - 1;
    } else {
      i := NameHasRecord(log, k - 1, loaded, name);
    }
  }

  predicate FirstWith(log: seq<Rec>, k: int, name: seq<Byte>, loaded: bool)
  {
    0 <= k < |log| && Name(log[k], loaded) == name && forall j :: 0 <= j < k ==> Name(log[j], loaded) != name
  }

  /** The index gives every name the place of its first record. */
  lemma {:induction false} FirstWriteWins(log: seq<Rec>, k: nat, n: nat, name: seq<Byte>, loaded: bool)
    requires FirstWith(log, k, name, loaded) && k < n <= |log|
    ensures name in Names(log, n, loaded) && Names(log, n, loaded)[name] == DataPlace(log, k)
    decreases n
  {
    if k < n - 1 {
      FirstWriteWins(log, k, n - 1, name, loaded);
    } else if name in Names(log, k, loaded) {
      var i := NameHasRecord(log, k, loaded, name);
    }
  }

  lemma {:induction false} SomeFirst(log: seq<Rec>, k: nat) returns (f: nat)
    requires k < |log|
    ensures FirstWith(log, f, log[k].key, false)
  {
    f := k;
    if j: nat :| j < k && log[j].key == log[k].key {
      f := SomeFirst(log, j);
    }
  }

  /** The keys in the index are those some record has. */
  lemma IndexedExactly(log: seq<Rec>, key: seq<Byte>)
    ensures key in Names(log, |log|, false) <==> exists k :: 0 <= k < |log| && log[k].key == key
    ensures key in Names(log, |log|, false) ==>
              exists k :: FirstWith(log, k, key, false) && Names(log, |log|, false)[key] == DataPlace(log, k)
  {
    if key in Names(log, |log|, false) {
      var i := NameHasRecord(log, |log|, false, key);
    }
    if k: nat :| k < |log| && log[k].key == key {
      var f := SomeFirst(log, k);
      FirstWriteWins(log, f, |log|, key, false);
    }
  }

  /* ---------- Whole runs ---------- */

  datatype Op = AddOp(r: Rec) | RestartOp

  /** A record the check lets through lies in the region and begins where the loader reaches. */
  predicate Legal(e: Env, op: Op)
  {
    op.AddOp? ==>
      |op.r.data| < OFFSET_SPAN && (Accepts(e, op.r) ==> HasRoom(e.bytes, e.end, op.r) && e.end < OFFSET_SPAN)
  }

  /** One operation; a refused write changes nothing, a restart forgets the index and loads it. */
  ghost function Step(e: Env, op: Op): Env
    requires Legal(e, op)
  {
    match op
    case AddOp(r) => if Add(e, r).Ok? then Add(e, r).value else e
    case RestartOp =>
      var l := Load(e.bytes, e.records, 0, 0, map[]);
      if l.Ok? then e.(index := l.value.index) else e
  }

  ghost predicate AllLegal(e: Env, ops: seq<Op>)
    decreases |ops|
  {
    ops == [] || (Legal(e, ops[0]) && AllLegal(Step(e, ops[0]), ops[1..]))
  }

  ghost function Run(e: Env, ops: seq<Op>): Env
    requires AllLegal(e, ops)
    decreases |ops|
  {
    if ops == [] then e else Run(Step(e, ops[0]), ops[1..])
  }

  /** The writes of a run. */
  function Adds(ops: seq<Op>): seq<Op>
  {
    if ops == [] then [] else (if ops[0].AddOp? then [ops[0]] else []) + Adds(ops[1..])
  }

  predicate GoodKey(key: seq<Byte>) { |key| < KEY_SIZE && 0 !in key }

  ghost predicate DescribesGood(e: Env, log: seq<Rec>)
  {
    Describes(e, log) && Reached(log) && forall i :: 0 <= i < |log| ==> GoodKey(log[i].key)
  }

  /** With good keys, restarts leave no trace: wherever they fall, the run ends in the state the writes alone
      would give, and that state describes a log of good keys. */
  lemma {:induction false} RestartsLeaveNoTrace(e: Env, log: seq<Rec>, ops: seq<Op>) returns (end: seq<Rec>)
    requires DescribesGood(e, log) && AllLegal(e, ops)
    requires forall op <- ops :: op.AddOp? ==> GoodKey(op.r.key)
    ensures AllLegal(e, Adds(ops)) && Run(e, Adds(ops)) == Run(e, ops)
    ensures DescribesGood(Run(e, ops), end)
    decreases |ops|
  {
    end := log;
    if ops != [] {
      var log' := StepKeepsGood(e, log, ops[0]);
      end := RestartsLeaveNoTrace(Step(e, ops[0]), log', ops[1..]);
      if ops[0].AddOp? {
        assert Adds(ops)[1..] == Adds(ops[1..]);
      } else {
        RestartChangesNothing(e, log);
        assert Adds(ops) == Adds(ops[1..]);
      }
    }
  }

  lemma StepKeepsGood(e: Env, log: seq<Rec>, op: Op) returns (log': seq<Rec>)
    requires DescribesGood(e, log) && Legal(e, op)
    requires op.AddOp? ==> GoodKey(op.r.key)
    ensures DescribesGood(Step(e, op), log')
  {
    log' := log;
    if op.RestartOp? {
      RestartChangesNothing(e, log);
    } else {
      AddExtends(e, log, op.r);
      if Add(e, op.r).Ok? {
        log' := log + [op.r];
        Extends(log, op.r, |log|);
      }
    }
  }

  /** A restart loads the index that was in memory, and consumes what was written, no more, no less. */
  lemma RestartChangesNothing(e: Env, log: seq<Rec>)
    requires DescribesGood(e, log)
    ensures Load(e.bytes, e.records, 0, 0, map[]) == Ok(Loaded(e.index, (e.end - HEADER_SIZE) % OFFSET_SPAN))
    ensures Step(e, RestartOp) == e
  {
    LoadReadsTheLog(e.bytes, log);
    ShortNamesSurviveExactly(log, |log|);
    RestartAgreesExactly(log, |log|);
  }

  /* ---------- The log in place ---------- */

  class EnvLog {
    const buffer: array<Byte>
    var end: nat
    var records: nat
    var index: Index

    ghost function View(): Env
      reads this, buffer
    {
      Env(buffer[..], end, records, index)
    }

    /** A new file. */
    constructor (size: nat)
      requires HEADER_SIZE <= size
      ensures fresh(buffer) && buffer.Length == size && Describes(View(), [])
    {
      buffer := new Byte[size];
      end, records, index := HEADER_SIZE, 0, map[];
      new;
      FreshDescribes(size, buffer[..]);
    }

    /** Append a record behind the others.  The region must hold it where the check lets it through. */
    method Write(r: Rec) returns (place: Result<Place>)
      requires Accepts(View(), r) ==> HasRoom(buffer[..], end, r)
      modifies this`end, buffer
      ensures place.Ok? <==> old(Accepts(View(), r))
      ensures match place
              case Ok(p) =>
                && old(HasRoom(buffer[..], end, r)) && buffer[..] == Store(old(buffer[..]), old(end), r)
                && end == old(end) + Extent(r) && p == Place(old(end) + KEY_SIZE + LENGTH_SIZE, |r.data|)
              case Err(e) => buffer[..] == old(buffer[..]) && end == old(end) && e == NoSpace
    {
      if end + |r.data| + LENGTH_SIZE > buffer.Length {
        return Err(NoSpace);
      }
      PutBytes(buffer, end, Zeros(KEY_SIZE));
      PutBytes(buffer, end, r.key);
      PutBytes(buffer, end + KEY_SIZE, Zeros(LENGTH_SIZE + |r.data|));
      PutBytes(buffer, end + KEY_SIZE, Encode(|r.data|, LENGTH_SIZE));
      PutBytes(buffer, end + KEY_SIZE + LENGTH_SIZE, r.data);
      end := end + Extent(r);
      return Ok(Place(end - |r.data|, |r.data|));
    }

    /** Add a keyed record and enter it in the index. */
    method AddData(r: Rec) returns (place: Result<Place>)
      requires Accepts(View(), r) ==> HasRoom(buffer[..], end, r)
      modifies this, buffer
      ensures match Add(old(View()), r)
              case Ok(e) => View() == e && place == Ok(Place(end - |r.data|, |r.data|))
              case Err(e) => View() == old(View()) && place == Err(e)
    {
      if r.key == [] {
        return Err(BadArgument);
      }
      place := Write(r);
      if place.Ok? {
        records := records + 1;
        index := if r.key in index then index else index[r.key := place.value];
      }
    }

    /** The name and the data length of the record at an offset. */
    method ReadHeader(at: nat) returns (name: seq<Byte>, size: nat)
      requires at + KEY_SIZE + LENGTH_SIZE <= buffer.Length
      ensures name == NameAt(buffer[..], at, at + KEY_SIZE + LENGTH_SIZE)
      ensures size == NumberAt(buffer[..], at + KEY_SIZE, at + KEY_SIZE + LENGTH_SIZE)
    {
      name := UntilZero(buffer[at..at + KEY_SIZE + LENGTH_SIZE]);
      size := Decode(buffer[at + KEY_SIZE..at + KEY_SIZE + LENGTH_SIZE]);
      PartsAt(buffer[..], at, at + KEY_SIZE + LENGTH_SIZE);
      PartsAt(buffer[..], at + KEY_SIZE, at + KEY_SIZE + LENGTH_SIZE);
      assert buffer[at..at + KEY_SIZE + LENGTH_SIZE] == buffer[..][at..at + KEY_SIZE + LENGTH_SIZE];
      assert buffer[at + KEY_SIZE..at + KEY_SIZE + LENGTH_SIZE]
          == buffer[..][at + KEY_SIZE..at + KEY_SIZE + LENGTH_SIZE];
    }

    /** Rebuild the index from the file after a restart. */
    method LoadData() returns (r: Result<nat>)
      requires Load(buffer[..], records, 0, 0, map[]) != Err(OutOfRange)
      modifies this`index
      ensures match Load(buffer[..], records, 0, 0, map[])
              case Ok(l) => r == Ok(l.offset) && index == l.index
              case Err(e) => r == Err(e)
    {
      index := map[];
      var count: nat, offset: nat := 0, 0;
      ghost var goal := Load(buffer[..], records, 0, 0, map[]);
      while count < records && HEADER_SIZE + offset < buffer.Length
        invariant count <= records
        invariant Load(buffer[..], records, offset, count, index) == goal
      {
        ghost var offset', index' := offset, index;
        LoadStays(buffer[..], records, offset, count, index);
        var at := (HEADER_SIZE + offset) % OFFSET_SPAN;
        var name, size := ReadHeader(at);
        index := Insert(index, name, Place(at + KEY_SIZE + LENGTH_SIZE, size));
        offset := (offset + size + LENGTH_SIZE + KEY_SIZE) % OFFSET_SPAN;
        LoadRound(buffer[..], records, offset', count, index', at, offset, index);
        count := count + 1;
      }
      LoadEnds(buffer[..], records, offset, count, index);
      return if count == records then Ok(offset) else Err(Mismatch);
    }

    /** Look a key up: the place and the bytes of the first record written under it. */
    method Get(key: seq<Byte>, ghost log: seq<Rec>) returns (r: Option<Place>)
      requires Describes(View(), log)
      ensures r.None? <==> forall k :: 0 <= k < |log| ==> log[k].key != key
      ensures r.Some? ==>
                exists k :: FirstWith(log, k, key, false) && r.value == DataPlace(log, k)
                              && StoredIn(buffer[..], log, k)
    {
      if key in index {
        r := Some(index[key]);
      } else {
        r := None;
      }
      IndexedExactly(log, key);
    }
  }
}
