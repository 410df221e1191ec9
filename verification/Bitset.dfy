/** A set of small numbers packed into 32-bit words, used to hand out the least number not taken. */
module Bitsets {
  import opened Outcomes
  import opened Division

  const WORD_BITS := 32
  const WORD_BYTES := 4

  /** Offsets and word counts are kept in 16 bits. */
  const OFFSET_SPAN := 0x1_0000

  /** One shifted left by `p`. */
  function Mask(p: nat): (m: nat)
    ensures m > 0
  {
    if p == 0 then 1 else 2 * Mask(p - 1)
  }

  const FULL_WORD: nat := 0xFFFF_FFFF

  type Word = w: nat | w <= FULL_WORD

  /* ---------- Bits of a word ---------- */

  /** Bit `p` of a number. */
  predicate Has(w: nat, p: nat)
    decreases p
  {
    if p == 0 then w % 2 == 1 else Has(w / 2, p - 1)
  }

  /** A number or-ed with a mask. */
  function WithBit(w: nat, p: nat): nat { if Has(w, p) then w else w + Mask(p) }

  /** A number and-ed with the complement of a mask. */
  function WithoutBit(w: nat, p: nat): int { if Has(w, p) then w - Mask(p) else w }

  lemma FullWordIsFull()
    ensures FULL_WORD + 1 == Mask(WORD_BITS)
  {
    assert Mask(8) == 0x100;
    assert Mask(16) == 0x1_0000;
    assert Mask(24) == 0x100_0000;
  }

  lemma {:induction false} BitFits(w: nat, p: nat, n: nat)
    requires p < n && w < Mask(n)
    ensures if Has(w, p) then w >= Mask(p) else w + Mask(p) < Mask(n)
    decreases p
  {
    if p > 0 {
      BitFits(w / 2, p - 1, n - 1);
    } else {
      assert Mask(n) == 2 * Mask(n - 1);
    }
  }

  /** Setting a bit gives a word that differs in that bit only. */
  lemma {:induction false} SetsBit(w: nat, p: nat, q: nat)
    ensures Has(WithBit(w, p), q) <==> p == q || Has(w, q)
    decreases p
  {
    if !Has(w, p) && p > 0 {
      assert (w + 2 * Mask(p - 1)) / 2 == w / 2 + Mask(p - 1);
      if q > 0 {
        SetsBit(w / 2, p - 1, q - 1);
      }
    }
  }

  /** Clearing a bit gives a word that differs in that bit only. */
  lemma {:induction false} ClearsBit(w: nat, p: nat, q: nat)
    ensures 0 <= WithoutBit(w, p) <= w && (Has(WithoutBit(w, p), q) <==> p != q && Has(w, q))
    decreases p
  {
    if Has(w, p) && p > 0 {
      ClearsBit(w / 2, p - 1, if q > 0 then q - 1 else 0);
      assert (w - 2 * Mask(p - 1)) / 2 == w / 2 - Mask(p - 1);
    }
  }

  lemma {:induction false} ZeroHasNone(q: nat)
    ensures !Has(0, q)
    decreases q
  {
    if q > 0 {
      ZeroHasNone(q - 1);
    }
  }

  /** A number has a bit set below the length of its range, unless it is zero. */
  lemma {:induction false} NonZeroHasOne(w: nat, n: nat) returns (q: nat)
    requires 0 < w < Mask(n)
    ensures q < n && Has(w, q)
    decreases n
  {
    q := 0;
    if w % 2 == 0 {
      var half := NonZeroHasOne(w / 2, n - 1);
      q := half + 1;
    }
  }

  lemma {:induction false} FullHasEveryBit(n: nat, p: nat)
    requires p < n
    ensures Has(Mask(n) - 1, p)
    decreases p
  {
    if p > 0 {
      assert (Mask(n) - 1) / 2 == Mask(n - 1) - 1;
      FullHasEveryBit(n - 1, p - 1);
    }
  }

  /* ---------- The set the words stand for ---------- */

  predicate Bit(ws: seq<Word>, i: nat)
    requires i < WORD_BITS * |ws|
  {
    Has(ws[i / WORD_BITS], i % WORD_BITS)
  }

  ghost function Members(ws: seq<Word>): set<nat>
  {
    set i: nat | i < WORD_BITS * |ws| && Bit(ws, i)
  }

  /** Number `i` is a member when bit `i % 32` of word `i / 32`, counted from the low end, is one. */
  lemma MembersAreBits(ws: seq<Word>, i: nat)
    ensures i in Members(ws) <==> i / 32 < |ws| && ws[i / 32] / Mask(i % 32) % 2 == 1
  {
    if i / 32 < |ws| {
      BitByDivision(ws[i / 32], i % 32);
    }
  }

  lemma {:induction false} BitByDivision(w: nat, p: nat)
    ensures Has(w, p) <==> w / Mask(p) % 2 == 1
    decreases p
  {
    if p > 0 {
      BitByDivision(w / 2, p - 1);
      DivideTwice(w, 2, Mask(p - 1));
    }
  }

  lemma SetAddsOne(ws: seq<Word>, i: nat, w: Word)
    requires i < WORD_BITS * |ws|
    requires forall q: nat :: q < WORD_BITS ==> (Has(w, q) <==> q == i % WORD_BITS || Has(ws[i / WORD_BITS], q))
    ensures Members(ws[i / WORD_BITS := w]) == Members(ws) + {i}
  {
    var ws' := ws[i / WORD_BITS := w];
    forall j: nat | j < WORD_BITS * |ws| ensures Bit(ws', j) <==> Bit(ws, j) || j == i {
    }
  }

  lemma ClearRemovesOne(ws: seq<Word>, i: nat, w: Word)
    requires i < WORD_BITS * |ws|
    requires forall q: nat :: q < WORD_BITS ==> (Has(w, q) <==> q != i % WORD_BITS && Has(ws[i / WORD_BITS], q))
    ensures Members(ws[i / WORD_BITS := w]) == Members(ws) - {i}
  {
    var ws' := ws[i / WORD_BITS := w];
    forall j: nat | j < WORD_BITS * |ws| ensures Bit(ws', j) <==> Bit(ws, j) && j != i {
    }
  }

  /** A word is zero exactly when no number that falls to it is a member. */
  lemma WordIsEmptyExactly(ws: seq<Word>, k: nat)
    requires k < |ws|
    ensures ws[k] == 0 <==> forall i: nat :: WORD_BITS * k <= i < WORD_BITS * (k + 1) ==> i !in Members(ws)
  {
    if ws[k] == 0 {
      forall i: nat | WORD_BITS * k <= i < WORD_BITS * (k + 1) ensures i !in Members(ws) {
        ZeroHasNone(i - WORD_BITS * k);
        assert i < WORD_BITS * |ws| && i / WORD_BITS == k && i % WORD_BITS == i - WORD_BITS * k;
      }
    } else {
      FullWordIsFull();
      var q := NonZeroHasOne(ws[k], WORD_BITS);
      var i := WORD_BITS * k + q;
      assert i / WORD_BITS == k && i % WORD_BITS == q;
      assert i in Members(ws);
    }
  }

  lemma FullWordsHoldAll(ws: seq<Word>, k: nat, i: nat)
    requires k <= |ws| && i < WORD_BITS * k && forall j :: 0 <= j < k ==> ws[j] == FULL_WORD
    ensures i in Members(ws)
  {
    FullWordIsFull();
    FullHasEveryBit(WORD_BITS, i % WORD_BITS);
    assert Bit(ws, i);
  }

  /* ---------- Sizes ---------- */

  /** Bytes needed for a number of bits. */
  function ByteSize(count: nat): nat
  {
    (count / WORD_BITS + if count % WORD_BITS > 0 then 1 else 0) * WORD_BYTES
  }

  /** Bits the set takes a storage size to have, cut to 16 bits. */
  function MaxOffset(size: nat): nat { (size / WORD_BYTES * WORD_BITS) % OFFSET_SPAN }

  /** The storage is the least whole number of words with room for the bits. */
  lemma ByteSizeIsLeast(count: nat, words: nat)
    ensures count <= words * WORD_BITS <==> ByteSize(count) <= words * WORD_BYTES
  {
  }

  /** Storage in whole words has eight bits to the byte, cut to 16 bits. */
  lemma EightBitsToTheByte(words: nat)
    ensures MaxOffset(4 * words) == 8 * (4 * words) % 0x1_0000
  {
  }

  /** Mapping the storage of a set again gives at least its bits, or none at all: the last words' worth of a
      16-bit count rounds up to one too many for 16 bits. */
  lemma MappedAgain(count: nat)
    requires 0 < count < OFFSET_SPAN
    ensures count <= MaxOffset(ByteSize(count)) <==> count <= OFFSET_SPAN - WORD_BITS
    ensures count > OFFSET_SPAN - WORD_BITS ==> MaxOffset(ByteSize(count)) == 0
  {
    var words := ByteSize(count) / WORD_BYTES;
    assert words * WORD_BITS - WORD_BITS < count <= words * WORD_BITS;
  }

  /* ---------- Handing out numbers ---------- */

  /** The least number from `k` on and below the limit that is not in use, or -1. */
  function LeastFree(used: set<nat>, limit: nat, k: nat): int
    decreases limit - k
  {
    if k >= limit then -1 else if k !in used then k else LeastFree(used, limit, k + 1)
  }

  lemma {:induction false} LeastFreeIsLeast(used: set<nat>, limit: nat, k: nat)
    ensures var f := LeastFree(used, limit, k);
            && (f == -1 <==> forall i: nat :: k <= i < limit ==> i in used)
            && (f != -1 ==> k <= f < limit && f !in used && forall i: nat :: k <= i < f ==> i in used)
    decreases limit - k
  {
    if k < limit && k in used {
      LeastFreeIsLeast(used, limit, k + 1);
    }
  }

  lemma {:induction false} SkipUsed(used: set<nat>, limit: nat, j: nat, k: nat)
    requires j <= k && forall i: nat :: j <= i < k ==> i in used
    ensures LeastFree(used, limit, j) == LeastFree(used, limit, k)
    decreases k - j
  {
    if j < k {
      SkipUsed(used, limit, j + 1, k);
      if k >= limit {
        LeastFreeIsLeast(used, limit, j);
      }
    }
  }

  datatype Op = Take | Drop(n: nat)

  function Step(used: set<nat>, limit: nat, op: Op): set<nat>
  {
    match op
    case Take => var f := LeastFree(used, limit, 0); if f < 0 then used else used + {f}
    case Drop(n) => used - {n}
  }

  function Run(used: set<nat>, limit: nat, ops: seq<Op>): set<nat>
  {
    if ops == [] then used else Step(Run(used, limit, ops[..|ops| - 1]), limit, ops[|ops| - 1])
  }

  /** How many times numbers were handed out in a run, less how many times numbers in use were dropped. */
  function Balance(used: set<nat>, limit: nat, ops: seq<Op>): int
  {
    if ops == [] then 0
    else
      var front := ops[..|ops| - 1];
      var now := Run(used, limit, front);
      Balance(used, limit, front) +
      match ops[|ops| - 1]
      case Take => if LeastFree(now, limit, 0) == -1 then 0 else 1
      case Drop(n) => if n in now then -1 else 0
  }

  /** No number is handed out twice: over any run the numbers in use are as many as were handed out and not
      dropped, and none is beyond the limit. */
  lemma {:induction false} RunCounts(limit: nat, ops: seq<Op>)
    ensures |Run({}, limit, ops)| == Balance({}, limit, ops) && forall n <- Run({}, limit, ops) :: n < limit
    decreases |ops|
  {
    if ops != [] {
      var front := ops[..|ops| - 1];
      RunCounts(limit, front);
      LeastFreeIsLeast(Run({}, limit, front), limit, 0);
    }
  }

  lemma {:induction false} BelowLimit(used: set<nat>, limit: nat)
    requires forall n <- used :: n < limit
    ensures |used| <= limit && (|used| == limit <==> forall n: nat :: n < limit ==> n in used)
    decreases limit
  {
    if limit == 0 {
      assert used == {};
    } else if limit - 1 in used {
      var rest := used - {limit - 1};
      BelowLimit(rest, limit - 1);
      if forall n: nat :: n < limit - 1 ==> n in rest {
        forall n: nat | n < limit ensures n in used {
          assert n < limit - 1 ==> n in rest;
        }
      }
    } else {
      BelowLimit(used, limit - 1);
    }
  }

  /** After any run the next number is refused exactly when as many are out as the set has room for. */
  lemma RefusedExactlyWhenFull(limit: nat, ops: seq<Op>)
    ensures LeastFree(Run({}, limit, ops), limit, 0) == -1 <==> Balance({}, limit, ops) == limit
  {
    RunCounts(limit, ops);
    BelowLimit(Run({}, limit, ops), limit);
    LeastFreeIsLeast(Run({}, limit, ops), limit, 0);
  }

  /** A dropped number is the next one handed out, exactly when it was in the set's range and no lower one was
      free. */
  lemma DroppedComesBackExactly(used: set<nat>, limit: nat, n: nat)
    ensures LeastFree(used - {n}, limit, 0) == n <==> n < limit && forall i: nat :: i < n ==> i in used
  {
    LeastFreeIsLeast(used - {n}, limit, 0);
    assert n !in used - {n};
    assert forall i: nat :: i < n ==> (i in used - {n} <==> i in used);
  }

  /* ---------- The set in place ---------- */

  lemma ChangedWord(w: Word, p: nat)
    requires p < WORD_BITS
    ensures WithBit(w, p) <= FULL_WORD && 0 <= WithoutBit(w, p) <= FULL_WORD
    ensures forall q: nat :: Has(WithBit(w, p), q) <==> q == p || Has(w, q)
    ensures forall q: nat :: Has(WithoutBit(w, p), q) <==> q != p && Has(w, q)
  {
    FullWordIsFull();
    BitFits(w, p, WORD_BITS);
    forall q: nat ensures Has(WithBit(w, p), q) <==> q == p || Has(w, q) {
      SetsBit(w, p, q);
    }
    forall q: nat ensures 0 <= WithoutBit(w, p) && (Has(WithoutBit(w, p), q) <==> q != p && Has(w, q)) {
      ClearsBit(w, p, q);
    }
  }

  class Bitset {
    const words: array<Word>
    const size: nat
    const limit: nat

    ghost predicate Valid()
    {
      words.Length == size / WORD_BYTES && limit < OFFSET_SPAN && limit <= WORD_BITS * words.Length
    }

    ghost function Bits(): set<nat>
      reads words
    {
      Members(words[..])
    }

    /** A set with its own storage, which is not cleared. */
    constructor (count: nat)
      requires 0 < count < OFFSET_SPAN
      ensures Valid() && fresh(words) && limit == count && size == ByteSize(count)
    {
      limit, size := count, ByteSize(count);
      words := new Word[ByteSize(count) / WORD_BYTES];
    }

    /** A set over storage that is there already. */
    constructor Mapped(storage: array<Word>, bytes: nat)
      requires 0 < bytes && storage.Length == bytes / WORD_BYTES
      ensures Valid() && words == storage && size == bytes && limit == MaxOffset(bytes)
    {
      words, size, limit := storage, bytes, MaxOffset(bytes);
    }

    method Check(offset: nat) returns (r: Result<bool>)
      requires Valid()
      ensures r == if offset < limit then Ok(offset in Bits()) else Err(BadArgument)
    {
      if offset >= limit {
        return Err(BadArgument);
      }
      assert offset in Bits() <==> Bit(words[..], offset);
      return Ok(Has(words[offset / WORD_BITS], offset % WORD_BITS));
    }

    method Set(offset: nat) returns (r: Result<()>)
      requires Valid()
      modifies words
      ensures r == if offset < limit then Ok(()) else Err(BadArgument)
      ensures Bits() == if r.Ok? then old(Bits()) + {offset} else old(Bits())
      ensures r.Err? ==> words[..] == old(words[..])
    {
      if offset >= limit {
        return Err(BadArgument);
      }
      var k := offset / WORD_BITS;
      ChangedWord(words[k], offset % WORD_BITS);
      var w := WithBit(words[k], offset % WORD_BITS);
      SetAddsOne(words[..], offset, w);
      words[k] := w;
      assert words[..] == old(words[..])[k := words[k]];
      return Ok(());
    }

    method Clear(offset: nat) returns (r: Result<()>)
      requires Valid()
      modifies words
      ensures r == if offset < limit then Ok(()) else Err(BadArgument)
      ensures Bits() == if r.Ok? then old(Bits()) - {offset} else old(Bits())
    {
      if offset >= limit {
        return Err(BadArgument);
      }
      var k := offset / WORD_BITS;
      ChangedWord(words[k], offset % WORD_BITS);
      var w := WithoutBit(words[k], offset % WORD_BITS);
      ClearRemovesOne(words[..], offset, w);
      words[k] := w;
      assert words[..] == old(words[..])[k := words[k]];
      return Ok(());
    }

    /** Set a bit unless it is set.  The offset is cut to 16 bits on the way. */
    method CheckAndSet(offset: nat) returns (r: Result<bool>)
      requires Valid()
      modifies words
      ensures var o := offset % OFFSET_SPAN;
              && r == (if o < limit then Ok(o !in old(Bits())) else Err(BadArgument))
              && Bits() == (if o < limit then old(Bits()) + {o} else old(Bits()))
      ensures r != Ok(true) ==> words[..] == old(words[..])
    {
      var isSet := Check(offset % OFFSET_SPAN);
      if isSet.Err? {
        return Err(BadArgument);
      }
      if isSet.value {
        return Ok(false);
      }
      var done := Set(offset % OFFSET_SPAN);
      return Ok(true);
    }

    /** Whether any bit is set, in the words a 16-bit count can reach, also beyond the last usable bit. */
    method Any() returns (r: bool)
      requires Valid()
      ensures r <==> exists i <- Bits() :: i < WORD_BITS * (words.Length % OFFSET_SPAN)
    {
      var count := size / WORD_BYTES % OFFSET_SPAN;
      for k := 0 to count
        invariant forall i <- Bits() :: i >= WORD_BITS * k
      {
        WordIsEmptyExactly(words[..], k);
        if words[k] > 0 {
          ghost var i: nat :| WORD_BITS * k <= i < WORD_BITS * (k + 1) && i in Members(words[..]);
          assert i in Bits();
          return true;
        }
      }
      return false;
    }

    method None() returns (r: bool)
      requires Valid()
      ensures r <==> forall i <- Bits() :: i >= WORD_BITS * (words.Length % OFFSET_SPAN)
    {
      var any := Any();
      return !any;
    }

    method ClearAll()
      requires Valid()
      modifies words
      ensures Bits() == {}
    {
      forall k | 0 <= k < words.Length { words[k] := 0; }
      forall i: nat | i < WORD_BITS * words.Length ensures !Bit(words[..], i) {
        assert words[..][i / WORD_BITS] == 0;
        ZeroHasNone(i % WORD_BITS);
      }
    }

    /** Skip the words that are full, by an index that may wrap around. */
    method SkipFullWords() returns (index: nat)
      requires Valid()
      ensures forall i: nat :: i < index ==> i in Bits()
    {
      var k := 0;
      index := 0;
      var count := size / WORD_BYTES % OFFSET_SPAN;
      while k < count && !(words[k] < FULL_WORD)
        invariant 0 <= k <= count && index == WORD_BITS * k % OFFSET_SPAN
        invariant forall j :: 0 <= j < k ==> words[j] == FULL_WORD
      {
        index := (index + WORD_BITS) % OFFSET_SPAN;
        k := k + 1;
      }
      forall i: nat | i < index ensures i in Bits() {
        FullWordsHoldAll(words[..], k, i);
      }
    }

    /** Take the least bit that is clear. */
    method GetFreeBit() returns (r: int)
      requires Valid()
      modifies words
      ensures r == LeastFree(old(Bits()), limit, 0)
      ensures Bits() == Step(old(Bits()), limit, Take)
      ensures r == -1 ==> words[..] == old(words[..])
    {
      ghost var used := Bits();
      var index := SkipFullWords();
      assert Bits() == used;
      SkipUsed(used, limit, 0, index);
      r := TakeFrom(index);
    }

    /** Take the least bit from an index on that is clear. */
    method TakeFrom(from: nat) returns (r: int)
      requires Valid()
      modifies words
      ensures r == LeastFree(old(Bits()), limit, from)
      ensures Bits() == if r == -1 then old(Bits()) else old(Bits()) + {r}
      ensures r == -1 ==> words[..] == old(words[..])
    {
      ghost var used := Bits();
      var index := from;
      while index < limit
        invariant words[..] == old(words[..]) && Bits() == used
        invariant LeastFree(used, limit, from) == LeastFree(used, limit, index)
        decreases limit - index
      {
        assert index % OFFSET_SPAN == index;
        var taken := CheckAndSet(index);
        if taken == Ok(true) {
          return index;
        }
        index := index + 1;
      }
      return -1;
    }
  }
}
