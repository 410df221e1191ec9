/**
 How records lie in the mapped region of a block.

 The region is a sequence of cells at byte addresses.  A header field is held whole in the cell of its
 first byte, a payload takes one cell a byte, so all offsets are the source's offsets.
 */
module RecordLayout {
  import opened RecordLog

  const INDEX_AT: nat := 0
  const OFFSET_AT: nat := 8
  const STATE_AT: nat := 16
  const SIZE_AT: nat := 24
  const PLAIN_SIZE_AT: nat := 32
  const TIME_AT: nat := 40

  /** The number stored for a record state. */
  function Code(s: RecordState): int
  {
    match s
    case Free => 0
    case Readable => 1
    case Deleted => 2
    case Dirty => 3
    case All => 4
  }

  /** Record `r`, numbered `index`, lies at `off`. */
  predicate RecordAt(b: seq<int>, off: nat, index: nat, r: Record)
  {
    && off + HEADER_SIZE + |r.payload| <= |b|
    && b[off + INDEX_AT] == index
    && b[off + OFFSET_AT] == off
    && b[off + STATE_AT] == Code(r.state)
    && b[off + SIZE_AT] == |r.payload|
    && b[off + HEADER_SIZE..off + HEADER_SIZE + |r.payload|] == r.payload
  }

  /** Record `k` of the run lies where the records before it end. */
  predicate Placed(b: seq<int>, start: nat, recs: seq<Record>, k: nat)
    requires k < |recs|
  {
    RecordAt(b, Offset(recs, k), start + k, recs[k])
  }

  /** The records lie one after the other from the start of the region, each header naming its own
      number and offset. */
  ghost predicate Layout(b: seq<int>, start: nat, recs: seq<Record>)
  {
    forall k {:trigger Placed(b, start, recs, k)} :: 0 <= k < |recs| ==> Placed(b, start, recs, k)
  }

  /** Only the bytes below the end of the last record matter. */
  lemma LayoutFrame(b: seq<int>, b': seq<int>, start: nat, recs: seq<Record>)
    requires Layout(b, start, recs)
    requires |b'| == |b|
    requires forall i :: 0 <= i < End(recs) && i < |b| ==> b'[i] == b[i]
    ensures Layout(b', start, recs)
  {
    forall k | 0 <= k < |recs| ensures Placed(b', start, recs, k) {
      var off := Offset(recs, k);
      assert Placed(b, start, recs, k);
      RecordsAreDisjoint(recs, k, |recs|);
      assert b'[off + HEADER_SIZE..off + HEADER_SIZE + |recs[k].payload|]
          == b[off + HEADER_SIZE..off + HEADER_SIZE + |recs[k].payload|];
    }
  }

  lemma LayoutPrefix(b: seq<int>, start: nat, recs: seq<Record>, more: seq<Record>)
    requires Layout(b, start, recs + more)
    ensures Layout(b, start, recs)
  {
    forall k | 0 <= k < |recs| ensures Placed(b, start, recs, k) {
      SizesDecideOffsets(recs + more, recs, k);
      assert Placed(b, start, recs + more, k);
    }
  }

  lemma LayoutAppend(b: seq<int>, start: nat, recs: seq<Record>, r: Record)
    requires Layout(b, start, recs)
    requires RecordAt(b, End(recs), start + |recs|, r)
    ensures Layout(b, start, recs + [r])
  {
    forall k | 0 <= k < |recs| + 1
      ensures Placed(b, start, recs + [r], k)
    {
      SizesDecideOffsets(recs + [r], recs, k);
      if k < |recs| {
        assert Placed(b, start, recs, k);
      }
    }
  }

  /** A record laid down at the end of a run, below which nothing changed, extends the run. */
  lemma AppendedLayout(b: seq<int>, b': seq<int>, start: nat, recs: seq<Record>, r: Record)
    requires Layout(b, start, recs)
    requires |b'| == |b|
    requires forall i :: 0 <= i < End(recs) && i < |b| ==> b'[i] == b[i]
    requires RecordAt(b', End(recs), start + |recs|, r)
    ensures Layout(b', start, recs + [r])
  {
    LayoutFrame(b, b', start, recs);
    LayoutAppend(b', start, recs, r);
  }

  /** Storing a state into the header of record `k` changes that record's state and nothing else. */
  lemma LayoutSetState(b: seq<int>, start: nat, recs: seq<Record>, k: nat, s: RecordState)
    requires Layout(b, start, recs)
    requires k < |recs|
    requires Offset(recs, k) + STATE_AT < |b|
    ensures Layout(b[Offset(recs, k) + STATE_AT := Code(s)], start, recs[k := recs[k].(state := s)])
  {
    var recs' := recs[k := recs[k].(state := s)];
    var b' := b[Offset(recs, k) + STATE_AT := Code(s)];
    forall i | 0 <= i < |recs| ensures Placed(b', start, recs', i) {
      SizesDecideOffsets(recs', recs, i);
      assert Placed(b, start, recs, i);
      if i < k {
        RecordsAreDisjoint(recs, i, k);
        StateElsewhere(b, b', Offset(recs, i), start + i, recs[i], Offset(recs, k) + STATE_AT);
      } else if k < i {
        RecordsAreDisjoint(recs, k, i);
        StateElsewhere(b, b', Offset(recs, i), start + i, recs[i], Offset(recs, k) + STATE_AT);
      } else {
        StateChanged(b, Offset(recs, k), start + k, recs[k], s);
      }
    }
  }

  lemma StateElsewhere(b: seq<int>, b': seq<int>, off: nat, index: nat, r: Record, at: nat)
    requires RecordAt(b, off, index, r)
    requires at < |b| == |b'| && b' == b[at := b'[at]] && !(off <= at < off + HEADER_SIZE + |r.payload|)
    ensures RecordAt(b', off, index, r)
  {
    assert b'[off + HEADER_SIZE..off + HEADER_SIZE + |r.payload|]
        == b[off + HEADER_SIZE..off + HEADER_SIZE + |r.payload|];
  }

  lemma StateChanged(b: seq<int>, off: nat, index: nat, r: Record, s: RecordState)
    requires RecordAt(b, off, index, r)
    ensures RecordAt(b[off + STATE_AT := Code(s)], off, index, r.(state := s))
  {
    var b' := b[off + STATE_AT := Code(s)];
    assert b'[off + HEADER_SIZE..off + HEADER_SIZE + |r.payload|]
        == b[off + HEADER_SIZE..off + HEADER_SIZE + |r.payload|];
  }

  /** What lies where: number, offset, state and size, each at its place in the 48 bytes of the header, and the payload
      behind it. */
  lemma RecordBytes(b: seq<int>, start: nat, recs: seq<Record>, k: nat)
    requires k < |recs|
    ensures var off, n := Offset(recs, k), |recs[k].payload|;
            Placed(b, start, recs, k) <==>
              && off + 48 + n <= |b| && b[off] == start + k && b[off + 8] == off && b[off + 24] == n
              && b[off + 16] == (match recs[k].state
                                 case Free => 0 case Readable => 1 case Deleted => 2 case Dirty => 3 case All => 4)
              && forall i :: 0 <= i < n ==> b[off + 48 + i] == recs[k].payload[i]
  {
    var off, payload := Offset(recs, k), recs[k].payload;
    if off + 48 + |payload| <= |b| {
      assert b[off + 48..off + 48 + |payload|] == payload <==>
               forall i :: 0 <= i < |payload| ==> b[off + 48..off + 48 + |payload|][i] == payload[i];
    }
  }

  /** The linear scan: from a header numbered `ii` at `off`, step over sizes until number `index`. */
  ghost function Scan(b: seq<int>, off: int, ii: nat, index: nat): int
    decreases index - ii
  {
    if ii >= index || off < 0 || off + SIZE_AT >= |b| then off
    else Scan(b, off + b[off + SIZE_AT] + HEADER_SIZE, ii + 1, index)
  }

  /** On a laid-out region the scan arrives at the record's own offset. */
  lemma {:induction false} ScanFindsOffset(b: seq<int>, start: nat, recs: seq<Record>, k: nat, target: nat)
    requires Layout(b, start, recs)
    requires k <= target <= |recs|
    ensures Scan(b, Offset(recs, k), start + k, start + target) == Offset(recs, target)
    decreases target - k
  {
    if k < target {
      assert Placed(b, start, recs, k);
      ScanFindsOffset(b, start, recs, k + 1, target);
    }
  }
}
