/** Numbers and length-prefixed strings in a byte buffer, little end first. */
module ByteCodec {
  import opened Division

  type Byte = x: int | 0 <= x < 256

  /** How many values `w` bytes can tell apart. */
  function Span(w: nat): (m: nat)
    ensures m >= 1 && (w > 0 ==> m >= 256)
  {
    if w == 0 then 1 else 256 * Span(w - 1)
  }

  function Encode(n: nat, w: nat): (r: seq<Byte>)
    ensures |r| == w
  {
    if w == 0 then [] else [n % 256] + Encode(n / 256, w - 1)
  }

  function Decode(bytes: seq<Byte>): nat
  {
    if bytes == [] then 0 else bytes[0] + 256 * Decode(bytes[1..])
  }

  /** A number wrapped around at `m`. */
  function Wrap(n: nat, m: nat): (r: nat)
    requires m >= 1
    ensures r < m && r <= n
    ensures n < m ==> r == n
    ensures n >= m ==> r < n
  {
    if n < m then n else Wrap(n - m, m)
  }

  lemma {:induction false} WrapIsModulo(n: nat, m: nat)
    requires m >= 1
    ensures Wrap(n, m) == n % m
    decreases n
  {
    if n >= m {
      WrapIsModulo(n - m, m);
      assert n % m == (n - m) % m by { Remainder(n, m, (n - m) / m + 1, (n - m) % m); }
    }
  }

  /** Decoding undoes encoding, up to what the width can hold. */
  lemma {:induction false} DecodeEncode(n: nat, w: nat)
    ensures Decode(Encode(n, w)) == Wrap(n, Span(w))
    decreases w
  {
    if w > 0 {
      var rest, m := Encode(n / 256, w - 1), Span(w - 1);
      assert Encode(n, w)[1..] == rest;
      DecodeEncode(n / 256, w - 1);
      WrapIsModulo(n / 256, m);
      WrapIsModulo(n, 256 * m);
      SplitModulo(n, m);
    }
  }

  lemma SplitModulo(n: nat, m: nat)
    requires m >= 1
    ensures n % (256 * m) == n % 256 + 256 * ((n / 256) % m)
  {
    var q, r := n / 256, n % 256;
    var a, b := q / m, q % m;
    assert n == 256 * q + r && q == m * a + b;
    assert 256 * (m * a) == (256 * m) * a;
    assert n == (256 * m) * a + (256 * b + r);
    Remainder(n, 256 * m, a, 256 * b + r);
  }

  /** The little end comes first: byte `i` counts how often 256^i goes into the number. */
  lemma {:induction false} LittleEndFirst(n: nat, w: nat, i: nat)
    requires i < w
    ensures Encode(n, w)[i] == n / Span(i) % 256
    decreases i
  {
    if i > 0 {
      LittleEndFirst(n / 256, w - 1, i - 1);
      DivideTwice(n, 256, Span(i - 1));
    }
  }

  /** Byte `i` of a buffer, when `bytes` have been put into another one from `at` on. */
  predicate PutsAt(r: seq<Byte>, b: seq<Byte>, at: nat, bytes: seq<Byte>, i: nat)
    requires at + |bytes| <= |b| == |r| && i < |b|
  {
    r[i] == if at <= i < at + |bytes| then bytes[i - at] else b[i]
  }

  ghost predicate HasPut(r: seq<Byte>, b: seq<Byte>, at: nat, bytes: seq<Byte>)
    requires at + |bytes| <= |b|
  {
    |r| == |b| && forall i: nat {:trigger PutsAt(r, b, at, bytes, i)} :: i < |b| ==> PutsAt(r, b, at, bytes, i)
  }

  lemma SomeHasPut(b: seq<Byte>, at: nat, bytes: seq<Byte>)
    requires at + |bytes| <= |b|
    ensures exists r :: HasPut(r, b, at, bytes)
  {
    assert HasPut(b[..at] + bytes + b[at + |bytes|..], b, at, bytes);
  }

  /** A buffer with some bytes put in from `at` on. */
  ghost function Put(b: seq<Byte>, at: nat, bytes: seq<Byte>): (r: seq<Byte>)
    requires at + |bytes| <= |b|
    ensures HasPut(r, b, at, bytes)
  {
    SomeHasPut(b, at, bytes);
    var r :| HasPut(r, b, at, bytes); r
  }

  lemma PutShows(b: seq<Byte>, at: nat, bytes: seq<Byte>)
    requires at + |bytes| <= |b|
    ensures var r := Put(b, at, bytes);
            && |r| == |b|
            && forall i :: 0 <= i < |b| ==> r[i] == if at <= i < at + |bytes| then bytes[i - at] else b[i]
  {
    var r := Put(b, at, bytes);
    forall i: nat | i < |b| ensures r[i] == if at <= i < at + |bytes| then bytes[i - at] else b[i] {
      assert PutsAt(r, b, at, bytes, i);
    }
  }

  function Zeros(n: nat): (r: seq<Byte>)
    ensures |r| == n
  {
    seq(n, _ => 0)
  }

  /* ---------- Strings ---------- */

  /** The length stored for a string, computed in `w` bytes: one more than its own, for the closing zero. */
  function StoredSize(v: seq<Byte>, w: nat): (s: nat)
    ensures s < Span(w) && s <= |v| + 1
  {
    var s := Wrap(|v|, Span(w)) + 1;
    if s == Span(w) then 0 else s
  }

  /** Bytes a string takes. */
  function Taken(v: seq<Byte>, w: nat): nat { w + StoredSize(v, w) }

  /** Bytes cleared before the text is copied in: one more than the text and its closing zero take.  With a
      four-byte length the sum is computed in four bytes too. */
  function ClearedSize(size: nat, w: nat): nat { if w == 4 && size + 1 == Span(w) then 0 else size + 1 }

  /** What storing a string makes of a buffer. */
  ghost function WriteString(b: seq<Byte>, at: nat, v: seq<Byte>, w: nat): (r: seq<Byte>)
    requires at + Taken(v, w) + 1 <= |b|
    ensures |r| == |b|
  {
    var size := StoredSize(v, w);
    var b' := Put(b, at, Encode(size, w));
    if size == 0 then b'
    else Put(Put(b', at + w, Zeros(ClearedSize(size, w))), at + w, v[..size - 1])
  }

  /** What reading a string gives: the text, or what the variable held before when the length is zero, and
      the offset after it. */
  function ReadString(b: seq<Byte>, at: nat, w: nat, before: seq<Byte>): (seq<Byte>, nat)
    requires at + w <= |b|
  {
    var size := Decode(b[at..at + w]);
    if size > 0 && at + w + size <= |b| then (b[at + w..at + w + size - 1], at + w + size)
    else (before, at + w)
  }

  /** What lies where after a string has been stored. */
  predicate ShowsAt(r: seq<Byte>, b: seq<Byte>, at: nat, v: seq<Byte>, w: nat, i: nat)
    requires i < |b| == |r|
  {
    var size := StoredSize(v, w);
    var text := at + w;
    r[i] == if at <= i < text then Encode(size, w)[i - at]
            else if text <= i < text + size - 1 then v[i - text]
            else if size > 0 && text <= i < text + ClearedSize(size, w) then 0 else b[i]
  }

  lemma StringShows(b: seq<Byte>, at: nat, v: seq<Byte>, w: nat, i: nat)
    requires at + Taken(v, w) + 1 <= |b| && i < |b|
    ensures ShowsAt(WriteString(b, at, v, w), b, at, v, w, i)
  {
    var size := StoredSize(v, w);
    var sized := Put(b, at, Encode(size, w));
    PutShows(b, at, Encode(size, w));
    if size > 0 {
      PutShows(sized, at + w, Zeros(ClearedSize(size, w)));
      PutShows(Put(sized, at + w, Zeros(ClearedSize(size, w))), at + w, v[..size - 1]);
    }
  }

  /** Storing touches the bytes the string takes, and one more. */
  lemma WriteStringFrame(b: seq<Byte>, at: nat, v: seq<Byte>, w: nat)
    requires at + Taken(v, w) + 1 <= |b|
    ensures forall i :: 0 <= i < |b| && !(at <= i < at + Taken(v, w) + 1) ==> WriteString(b, at, v, w)[i] == b[i]
  {
    forall i | 0 <= i < |b| && !(at <= i < at + Taken(v, w) + 1) ensures WriteString(b, at, v, w)[i] == b[i] {
      StringShows(b, at, v, w, i);
    }
  }

  /** The byte after a stored string is cleared, so that storing over a string in the middle of a buffer
      leaves what follows it alone exactly when that begins with a zero byte, or nothing is cleared: when the
      stored length is zero, or the largest of four bytes. */
  lemma WriteStringSpills(b: seq<Byte>, at: nat, v: seq<Byte>, w: nat)
    requires at + Taken(v, w) + 1 <= |b|
    ensures var next, size := at + Taken(v, w), StoredSize(v, w);
            WriteString(b, at, v, w)[next..] == b[next..] <==>
              b[next] == 0 || size == 0 || (w == 4 && size + 1 == Span(w))
  {
    var next := at + Taken(v, w);
    ByteAfter(b, at, v, w);
    WriteStringFrame(b, at, v, w);
    SameFrom(WriteString(b, at, v, w), b, next);
  }

  /** The byte after a stored string is cleared if anything is. */
  lemma ByteAfter(b: seq<Byte>, at: nat, v: seq<Byte>, w: nat)
    requires at + Taken(v, w) + 1 <= |b|
    ensures var next, size := at + Taken(v, w), StoredSize(v, w);
            WriteString(b, at, v, w)[next] == if size == 0 || ClearedSize(size, w) == 0 then b[next] else 0
  {
    StringShows(b, at, v, w, at + Taken(v, w));
  }

  lemma SameFrom(r: seq<Byte>, b: seq<Byte>, next: nat)
    requires |r| == |b| && next < |b| && forall i :: next < i < |b| ==> r[i] == b[i]
    ensures r[next..] == b[next..] <==> r[next] == b[next]
  {
    assert r[next..][0] == r[next] && b[next..][0] == b[next];
  }

  lemma WrittenLength(b: seq<Byte>, at: nat, v: seq<Byte>, w: nat)
    requires w > 0 && at + Taken(v, w) + 1 <= |b|
    ensures var r := WriteString(b, at, v, w); Decode(r[at..at + w]) == StoredSize(v, w)
    ensures var r := WriteString(b, at, v, w); var size := StoredSize(v, w);
            size > 0 ==> r[at + w..at + w + size - 1] == v[..size - 1]
  {
    var size := StoredSize(v, w);
    var r := WriteString(b, at, v, w);
    DecodeEncode(size, w);
    forall i | at <= i < at + Taken(v, w) ensures ShowsAt(r, b, at, v, w, i) {
      StringShows(b, at, v, w, i);
    }
    SlicesShow(r, b, at, v, w);
  }

  lemma SlicesShow(r: seq<Byte>, b: seq<Byte>, at: nat, v: seq<Byte>, w: nat)
    requires at + Taken(v, w) <= |b| == |r| && forall i :: at <= i < at + Taken(v, w) ==> ShowsAt(r, b, at, v, w, i)
    ensures r[at..at + w] == Encode(StoredSize(v, w), w)
    ensures var size := StoredSize(v, w); size > 0 ==> r[at + w..at + w + size - 1] == v[..size - 1]
  {
    forall i | 0 <= i < w ensures r[at..at + w][i] == Encode(StoredSize(v, w), w)[i] {
      assert ShowsAt(r, b, at, v, w, at + i);
    }
    var size := StoredSize(v, w);
    if size > 0 {
      var text := r[at + w..at + w + size - 1];
      forall i: nat | i < size - 1 ensures text[i] == v[i] {
        assert ShowsAt(r, b, at, v, w, at + w + i);
      }
    }
  }

  /** A stored string is read back exactly when its length and closing zero fit the length prefix, or when
      the length comes out as zero and the variable happened to hold the string already. */
  lemma RoundTripExactly(b: seq<Byte>, at: nat, v: seq<Byte>, w: nat, before: seq<Byte>)
    requires w > 0 && at + Taken(v, w) + 1 <= |b|
    ensures ReadString(WriteString(b, at, v, w), at, w, before).0 == v <==>
              |v| + 1 < Span(w) || (StoredSize(v, w) == 0 && before == v)
    ensures ReadString(WriteString(b, at, v, w), at, w, before).1 == at + Taken(v, w)
  {
    WrittenLength(b, at, v, w);
    var size := StoredSize(v, w);
    if size > 0 {
      assert |v[..size - 1]| == size - 1;
      if |v| + 1 < Span(w) {
        assert v[..size - 1] == v;
      }
    }
  }

  /** What lies where after a string that fits its prefix has been stored: its length and closing zero counted, little
      end first, then the text, and two zero bytes behind it, the second of them not its own.  A text two short of what
      four bytes count is stored without either. */
  lemma StoredBytes(b: seq<Byte>, at: nat, v: seq<Byte>, w: nat)
    requires |v| + 1 < Span(w) && at + w + |v| + 2 <= |b|
    ensures Taken(v, w) == w + |v| + 1
    ensures var r, text := WriteString(b, at, v, w), at + w;
            && |r| == |b| && (forall i :: 0 <= i < w ==> r[at + i] == (|v| + 1) / Span(i) % 256)
            && (forall i :: 0 <= i < |v| ==> r[text + i] == v[i])
            && (forall i :: text + |v| <= i < text + |v| + 2 ==>
                  r[i] == if w == 4 && |v| + 2 == Span(w) then b[i] else 0)
            && (forall i :: 0 <= i < |b| && !(at <= i < text + |v| + 2) ==> r[i] == b[i])
  {
    var r := WriteString(b, at, v, w);
    forall i: nat | i < |b| ensures ShowsAt(r, b, at, v, w, i) {
      StringShows(b, at, v, w, i);
    }
    forall i | 0 <= i < w ensures r[at + i] == (|v| + 1) / Span(i) % 256 {
      LittleEndFirst(|v| + 1, w, i);
      assert ShowsAt(r, b, at, v, w, at + i);
    }
    forall i | 0 <= i < |v| ensures r[at + w + i] == v[i] {
      assert ShowsAt(r, b, at, v, w, at + w + i);
    }
    forall i | 0 <= i < |b| && !(at <= i < at + w + |v|)
      ensures r[i] == if at <= i < at + w + ClearedSize(|v| + 1, w) then 0 else b[i]
    {
      assert ShowsAt(r, b, at, v, w, i);
    }
  }

  /* ---------- Lists of strings ---------- */

  datatype Item = Item(text: seq<Byte>, width: nat)

  /** The width is that of a length prefix, and the text fits it. */
  predicate Fits(i: Item) { i.width > 0 && |i.text| + 1 < Span(i.width) }

  /** Bytes that the items from `k` on take. */
  function TakenBy(items: seq<Item>, k: nat): nat
    requires k <= |items|
    decreases |items| - k
  {
    if k == |items| then 0 else Taken(items[k].text, items[k].width) + TakenBy(items, k + 1)
  }

  ghost function WriteAll(b: seq<Byte>, at: nat, items: seq<Item>, k: nat): (r: seq<Byte>)
    requires k <= |items| && at + TakenBy(items, k) + 1 <= |b|
    ensures |r| == |b|
    decreases |items| - k
  {
    if k == |items| then b
    else
      var v, w := items[k].text, items[k].width;
      WriteAll(WriteString(b, at, v, w), at + Taken(v, w), items, k + 1)
  }

  function ReadAll(b: seq<Byte>, at: nat, widths: seq<nat>, k: nat): (seq<seq<Byte>>, nat)
    requires k <= |widths|
    decreases |widths| - k
  {
    if k == |widths| || at + widths[k] > |b| then ([], at)
    else
      var (text, next) := ReadString(b, at, widths[k], []);
      var (rest, end) := ReadAll(b, next, widths, k + 1); ([text] + rest, end)
  }

  function Texts(items: seq<Item>, k: nat): seq<seq<Byte>>
    requires k <= |items|
    decreases |items| - k
  {
    if k == |items| then [] else [items[k].text] + Texts(items, k + 1)
  }

  lemma {:induction false} TextsAreAll(items: seq<Item>, k: nat)
    requires k <= |items|
    ensures |Texts(items, k)| == |items| - k
    ensures forall i :: k <= i < |items| ==> Texts(items, k)[i - k] == items[i].text
    decreases |items| - k
  {
    if k < |items| {
      TextsAreAll(items, k + 1);
      forall i | k <= i < |items| ensures Texts(items, k)[i - k] == items[i].text {
        assert i > k ==> Texts(items, k)[i - k] == Texts(items, k + 1)[i - k - 1];
      }
    }
  }

  function Widths(items: seq<Item>): (r: seq<nat>)
    ensures |r| == |items|
  {
    seq(|items|, i requires 0 <= i < |items| => items[i].width)
  }

  lemma {:induction false} WriteAllFrame(b: seq<Byte>, at: nat, items: seq<Item>, k: nat)
    requires k <= |items| && at + TakenBy(items, k) + 1 <= |b|
    ensures forall i :: 0 <= i < at ==> WriteAll(b, at, items, k)[i] == b[i]
    decreases |items| - k
  {
    if k < |items| {
      var v, w := items[k].text, items[k].width;
      var b1, next := WriteString(b, at, v, w), at + Taken(v, w);
      assert forall i :: 0 <= i < at ==> b1[i] == b[i] by { WriteStringFrame(b, at, v, w); }
      WriteAllFrame(b1, next, items, k + 1);
      assert WriteAll(b, at, items, k) == WriteAll(b1, next, items, k + 1);
    }
  }

  /** A string that lies below the place of further ones is read as before. */
  lemma FirstStays(b: seq<Byte>, at: nat, v: seq<Byte>, w: nat, next: nat, items: seq<Item>, k: nat)
    requires k <= |items| && next + TakenBy(items, k) + 1 <= |b| && at + w < next
    requires ReadString(b, at, w, []) == (v, next)
    ensures ReadString(WriteAll(b, next, items, k), at, w, []) == (v, next)
  {
    WriteAllFrame(b, next, items, k);
    ReadsBelow(b, WriteAll(b, next, items, k), at, w, next);
  }

  lemma FittingIsRead(b: seq<Byte>, at: nat, v: seq<Byte>, w: nat)
    requires w > 0 && |v| + 1 < Span(w) && at + Taken(v, w) + 1 <= |b|
    ensures StoredSize(v, w) == |v| + 1
    ensures ReadString(WriteString(b, at, v, w), at, w, []) == (v, at + Taken(v, w))
  {
    RoundTripExactly(b, at, v, w, []);
  }

  /** The first string of a list is read back from what it made of the buffer; the others come behind it. */
  lemma FirstWritten(b: seq<Byte>, at: nat, items: seq<Item>, k: nat) returns (b': seq<Byte>, next: nat)
    requires k < |items| && Fits(items[k]) && at + TakenBy(items, k) + 1 <= |b|
    ensures next == at + Taken(items[k].text, items[k].width) && at + items[k].width < next
    ensures next + TakenBy(items, k + 1) + 1 <= |b'| && WriteAll(b, at, items, k) == WriteAll(b', next, items, k + 1)
    ensures ReadString(b', at, items[k].width, []) == (items[k].text, next)
  {
    var v, w := items[k].text, items[k].width;
    b', next := WriteString(b, at, v, w), at + Taken(v, w);
    FittingIsRead(b, at, v, w);
  }

  /** The items from `k` on lie in the buffer, one after the other, as a reader finds them. */
  predicate LieAt(r: seq<Byte>, at: nat, items: seq<Item>, k: nat)
    requires k <= |items|
    decreases |items| - k
  {
    k == |items| ||
    var v, w := items[k].text, items[k].width;
    at + w <= |r| && ReadString(r, at, w, []) == (v, at + Taken(v, w)) && LieAt(r, at + Taken(v, w), items, k + 1)
  }

  lemma {:induction false} WrittenLie(b: seq<Byte>, at: nat, items: seq<Item>, k: nat)
    requires k <= |items| && forall i :: k <= i < |items| ==> Fits(items[i])
    requires at + TakenBy(items, k) + 1 <= |b|
    ensures LieAt(WriteAll(b, at, items, k), at, items, k)
    decreases |items| - k
  {
    if k < |items| {
      var b', next := FirstWritten(b, at, items, k);
      FirstStays(b', at, items[k].text, items[k].width, next, items, k + 1);
      WrittenLie(b', next, items, k + 1);
      LieOn(WriteAll(b', next, items, k + 1), at, next, items, k);
    }
  }

  lemma LieOn(r: seq<Byte>, at: nat, next: nat, items: seq<Item>, k: nat)
    requires k < |items| && at + items[k].width <= |r| && next == at + Taken(items[k].text, items[k].width)
    requires ReadString(r, at, items[k].width, []) == (items[k].text, next) && LieAt(r, next, items, k + 1)
    ensures LieAt(r, at, items, k)
  {
  }

  lemma {:induction false} LyingAreRead(r: seq<Byte>, at: nat, items: seq<Item>, k: nat, widths: seq<nat>)
    requires k <= |items| && LieAt(r, at, items, k) && widths == Widths(items)
    ensures ReadAll(r, at, widths, k) == (Texts(items, k), at + TakenBy(items, k))
    decreases |items| - k
  {
    if k < |items| {
      LyingAreRead(r, at + Taken(items[k].text, items[k].width), items, k + 1, widths);
    }
  }

  /** Any list of strings, each short enough for its own length prefix, is read back as it was written, and
      the reader ends where the writer did. */
  lemma ListRoundTrip(b: seq<Byte>, at: nat, items: seq<Item>)
    requires forall i <- items :: Fits(i)
    requires at + TakenBy(items, 0) + 1 <= |b|
    ensures var (texts, end) := ReadAll(WriteAll(b, at, items, 0), at, Widths(items), 0);
            && end == at + TakenBy(items, 0) && |texts| == |items|
            && forall i :: 0 <= i < |items| ==> texts[i] == items[i].text
  {
    WrittenLie(b, at, items, 0);
    LyingAreRead(WriteAll(b, at, items, 0), at, items, 0, Widths(items));
    TextsAreAll(items, 0);
  }

  /** Reading a string looks at no byte after it. */
  lemma ReadsBelow(a: seq<Byte>, b: seq<Byte>, at: nat, w: nat, next: nat)
    requires |a| == |b| && at + w <= |a| && next <= |a|
    requires forall i :: 0 <= i < next ==> a[i] == b[i]
    requires ReadString(a, at, w, []).1 == next && at + w < next
    ensures ReadString(b, at, w, []) == ReadString(a, at, w, [])
  {
    assert a[at..at + w] == b[at..at + w];
    assert a[at + w..next - 1] == b[at + w..next - 1];
  }

  /* ---------- In place ---------- */

  method PutBytes(buffer: array<Byte>, at: nat, bytes: seq<Byte>)
    requires at + |bytes| <= buffer.Length
    modifies buffer
    ensures buffer[..] == Put(old(buffer[..]), at, bytes)
  {
    forall i | 0 <= i < |bytes| { buffer[at + i] := bytes[i]; }
    PutShows(old(buffer[..]), at, bytes);
    assert buffer[..] == Put(old(buffer[..]), at, bytes);
  }

  /** Store a string at an offset and move the offset past it. */
  method StoreString(buffer: array<Byte>, offset: nat, value: seq<Byte>, w: nat) returns (next: nat, size: nat)
    requires w == 1 || w == 2 || w == 4
    requires offset + Taken(value, w) + 1 <= buffer.Length
    modifies buffer
    ensures buffer[..] == WriteString(old(buffer[..]), offset, value, w)
    ensures next == offset + Taken(value, w) && size == Taken(value, w)
  {
    var length := StoredSize(value, w);
    PutBytes(buffer, offset, Encode(length, w));
    next := offset + w;
    if length > 0 {
      StoreText(buffer, next, value[..length - 1], ClearedSize(length, w));
      next := next + length;
    }
    size := w + length;
  }

  /** Clear the place of a text and copy the text in. */
  method StoreText(buffer: array<Byte>, at: nat, text: seq<Byte>, cleared: nat)
    requires at + |text| <= buffer.Length && at + cleared <= buffer.Length
    modifies buffer
    ensures buffer[..] == Put(Put(old(buffer[..]), at, Zeros(cleared)), at, text)
  {
    PutBytes(buffer, at, Zeros(cleared));
    PutBytes(buffer, at, text);
  }

  /** Read the string stored at an offset, which must lie in the buffer, into a variable. */
  method LoadString(buffer: array<Byte>, offset: nat, w: nat, before: seq<Byte>) returns (value: seq<Byte>, next: nat)
    requires w == 1 || w == 2 || w == 4
    requires offset + w <= buffer.Length
    requires Decode(buffer[offset..offset + w]) <= buffer.Length - offset - w
    ensures (value, next) == ReadString(buffer[..], offset, w, before)
  {
    var size := Decode(buffer[offset..offset + w]);
    assert buffer[offset..offset + w] == buffer[..][offset..offset + w];
    if size > 0 {
      assert buffer[offset + w..offset + w + size - 1] == buffer[..][offset + w..offset + w + size - 1];
      return buffer[offset + w..offset + w + size - 1], offset + w + size;
    }
    return before, offset + w;
  }
}
