/**
 The bounded mutation log of a primary (src/cluster/replication.rs): offsets are assigned
 in order, the oldest records are evicted to keep a count and a byte bound, and readers
 find a record by arithmetic on its offset.
 */
module MutationLog {
  import opened Wrappers
  import opened Words
  import opened Codec

  const MAX_LOG_BYTES: nat := 64 * 1024 * 1024
  /** Size of the record struct itself: offset, slot, kind, two vectors and an optional word. */
  const RECORD_OVERHEAD: nat := 80

  datatype LogError = OffsetGap | OffsetRegression

  function SatAdd(a: nat, b: nat): nat {
    Min(a + b, U64_MAX)
  }

  /** Bytes a retained record occupies. */
  function RecordBytes(r: MutationRecord): (n: nat)
    ensures n <= U64_MAX
  {
    SatAdd(SatAdd(|r.key|, |r.value|), RECORD_OVERHEAD)
  }

  ghost function SumBytes(rs: seq<MutationRecord>): nat {
    if rs == [] then 0 else RecordBytes(rs[0]) + SumBytes(rs[1..])
  }

  /** Bytes of keys and values. */
  ghost function Payload(rs: seq<MutationRecord>): nat {
    if rs == [] then 0 else |rs[0].key| + |rs[0].value| + Payload(rs[1..])
  }

  /** Within the bound, the bytes are the payload and 80 for each record. */
  lemma {:induction false} SumBytesIs(rs: seq<MutationRecord>)
    ensures SumBytes(rs) <= MAX_LOG_BYTES <==> Payload(rs) + 80 * |rs| <= 67108864
    ensures SumBytes(rs) <= Payload(rs) + 80 * |rs|
    ensures SumBytes(rs) <= MAX_LOG_BYTES ==> SumBytes(rs) == Payload(rs) + 80 * |rs|
  {
    if rs != [] {
      SumBytesIs(rs[1..]);
    }
  }

  /** What is retained, by counts and lengths alone. */
  lemma RetainedIff(all: seq<MutationRecord>, kept: seq<MutationRecord>, capacity: nat)
    ensures KeepsLongestFit(all, kept, capacity) <==>
            && |kept| <= |all| && kept == all[|all| - |kept|..]
            && |kept| <= capacity && Payload(kept) + 80 * |kept| <= 67108864
            && forall from :: 0 <= from < |all| - |kept| ==> |all| - from > capacity || Payload(all[from..]) + 80 * (|all| - from) > 67108864
  {
    hide SumBytes;
    hide Payload;
    SumBytesIs(kept);
    forall from | 0 <= from < |all|
      ensures SumBytes(all[from..]) > MAX_LOG_BYTES <==> Payload(all[from..]) + 80 * (|all| - from) > 67108864
    {
      SumBytesIs(all[from..]);
    }
  }

  lemma {:induction false} SumBytesAppend(rs: seq<MutationRecord>, r: MutationRecord)
    ensures SumBytes(rs + [r]) == SumBytes(rs) + RecordBytes(r)
  {
    hide RecordBytes;
    if rs == [] {
      assert rs + [r] == [r] && [r][1..] == [];
    } else {
      assert (rs + [r])[1..] == rs[1..] + [r];
      SumBytesAppend(rs[1..], r);
    }
  }

  /** Offsets run consecutively from the first one. */
  ghost predicate Consecutive(rs: seq<MutationRecord>, first: nat) {
    forall i :: 0 <= i < |rs| ==> rs[i].offset == first + i
  }

  /** What is kept is the longest suffix within both bounds. */
  ghost predicate KeepsLongestFit(all: seq<MutationRecord>, kept: seq<MutationRecord>, capacity: nat) {
    && |kept| <= |all| && kept == all[|all| - |kept|..]
    && |kept| <= capacity && SumBytes(kept) <= MAX_LOG_BYTES
    && forall from :: 0 <= from < |all| - |kept| ==> |all| - from > capacity || SumBytes(all[from..]) > MAX_LOG_BYTES
  }

  /** The history carries the offsets 1, 2, 3, ..., and as much of its tail is retained as both bounds allow. */
  ghost predicate LogOk(history: seq<MutationRecord>, records: seq<MutationRecord>, nextOffset: u64, bytes: nat, capacity: nat) {
    && capacity >= 1
    && nextOffset == Min(|history| + 1, U64_MAX)
    && (|history| < U64_MAX ==> Consecutive(history, 1))
    && KeepsLongestFit(history, records, capacity)
    && bytes == SumBytes(records)
  }

  lemma LogExtended(history: seq<MutationRecord>, records: seq<MutationRecord>, nextOffset: u64, bytes: nat, capacity: nat,
                    stamped: MutationRecord, kept: seq<MutationRecord>)
    requires LogOk(history, records, nextOffset, bytes, capacity) && stamped.offset == nextOffset
    requires KeepsLongestFit(records + [stamped], kept, capacity)
    ensures LogOk(history + [stamped], kept, Min(nextOffset + 1, U64_MAX), SumBytes(kept), capacity)
  {
    hide SumBytes;
    hide RecordBytes;
    var h := history + [stamped];
    assert kept == h[|h| - |kept|..];
    forall from | 0 <= from < |h| - |kept| ensures |h| - from > capacity || SumBytes(h[from..]) > MAX_LOG_BYTES {
      var gone := |history| - |records|;
      if from >= gone {
        assert h[from..] == (records + [stamped])[from - gone..];
      } else {
        assert h[from..] == history[from..] + [stamped];
        SumBytesAppend(history[from..], stamped);
      }
    }
  }

  lemma FitIsWithinBounds(all: seq<MutationRecord>, kept: seq<MutationRecord>, capacity: nat)
    requires KeepsLongestFit(all, kept, capacity)
    ensures |kept| <= capacity && SumBytes(kept) <= MAX_LOG_BYTES
  {
  }

  /** The bounds leave one choice of what to keep. */
  lemma LongestFitUnique(all: seq<MutationRecord>, a: seq<MutationRecord>, b: seq<MutationRecord>, capacity: nat)
    requires KeepsLongestFit(all, a, capacity) && KeepsLongestFit(all, b, capacity)
    ensures a == b
  {
    hide SumBytes;
    assert all[|all| - |a|..] == a && all[|all| - |b|..] == b;
  }

  /** The eviction loop of `append`: drop from the front, and only while a bound is exceeded. */
  method Evict(all: seq<MutationRecord>, bytes: nat, capacity: nat, ghost before: nat) returns (kept: seq<MutationRecord>, left: nat)
    requires |all| > 0 && SumBytes(all) == before + RecordBytes(all[|all| - 1]) && before <= MAX_LOG_BYTES
    requires bytes == Min(SumBytes(all), U64_MAX)
    ensures KeepsLongestFit(all, kept, capacity) && left == SumBytes(kept)
  {
    hide RecordBytes;
    hide SumBytes;
    kept, left := all, bytes;
    ghost var dropped := 0;
    ghost var excess := SatSub(SumBytes(all), U64_MAX);
    assert all[0..] == all;
    while |kept| > capacity || left > MAX_LOG_BYTES
      invariant 0 <= dropped <= |all| && kept == all[dropped..]
      invariant left == Counted(all, dropped, excess)
      invariant dropped > 0 ==> |all| - (dropped - 1) > capacity || SumBytes(all[dropped - 1..]) > MAX_LOG_BYTES
      decreases |kept|
    {
      if kept == [] {
        break;
      }
      CountedStep(all, dropped, excess, before);
      left := SatSub(left, RecordBytes(kept[0]));
      kept := kept[1..];
      dropped := dropped + 1;
    }
    CountedExact(all, dropped, excess, before);
    LongestFit(all, dropped, capacity);
  }

  /** The records at or past an offset: on consecutive offsets, a suffix. */
  method FilterFrom(records: seq<MutationRecord>, from: nat, ghost first: nat) returns (out: seq<MutationRecord>)
    ensures Consecutive(records, first) ==> out == records[Min(SatSub(from, first), |records|)..]
  {
    out := [];
    ghost var skip := Min(SatSub(from, first), |records|);
    for i := 0 to |records|
      invariant Consecutive(records, first) ==> out == if i <= skip then [] else records[skip..i]
    {
      if records[i].offset >= from {
        out := out + [records[i]];
      }
    }
  }

  class Log {
    const capacity: nat
    var nextOffset: u64
    var bytes: nat
    var records: seq<MutationRecord>

    /** Every record ever appended, with the offset it was given. */
    ghost var history: seq<MutationRecord>

    ghost predicate Valid()
      reads this
    {
      LogOk(history, records, nextOffset, bytes, capacity)
    }

    constructor (capacity: nat)
      ensures Valid() && this.capacity == Max(capacity, 1)
      ensures records == [] && history == [] && nextOffset == 1
    {
      this.capacity := Max(capacity, 1);
      nextOffset, bytes, records, history := 1, 0, [], [];
    }

    /**
     `append`: the record gets the next offset and joins the history; then records are
     dropped from the front, and only as many as the two bounds require.
     */
    method Append(record: MutationRecord) returns (r: Result<u64, LogError>)
      requires Valid()
      modifies this
      ensures Valid()
      ensures r.Err? <==> record.offset != 0 && record.offset < old(nextOffset)
      ensures r.Err? ==> r.error == OffsetRegression && history == old(history) && records == old(records)
      ensures r.Ok? ==> history == old(history) + [record.(offset := old(nextOffset))]
      ensures r.Ok? ==> nextOffset == Min(old(nextOffset) + 1, U64_MAX) && r.value == nextOffset - 1
      ensures r.Ok? && old(nextOffset) < U64_MAX ==> r.value == history[|history| - 1].offset
    {
      hide RecordBytes;
      hide SumBytes;
      hide KeepsLongestFit;
      if record.offset != 0 && record.offset < nextOffset {
        return Err(OffsetRegression);
      }
      var stamped := record.(offset := nextOffset);
      SumBytesAppend(records, stamped);
      FitIsWithinBounds(history, records, capacity);
      var kept, left := Evict(records + [stamped], SatAdd(bytes, RecordBytes(stamped)), capacity, bytes);
      LogExtended(history, records, nextOffset, bytes, capacity, stamped, kept);
      history := history + [stamped];
      nextOffset := Min(nextOffset + 1, U64_MAX);
      records, bytes := kept, left;
      r := Ok(nextOffset - 1);
    }

    /** Offset of the oldest retained record, or the next offset when nothing is retained. */
    function FirstRetained(): nat
      reads this
    {
      if records == [] then nextOffset else records[0].offset
    }

    /**
     `replay_from`: everything from `offset` on, or a gap exactly when part of that was
     evicted; offset 0 asks for whatever is retained.
     */
    method ReplayFrom(offset: u64) returns (r: Result<seq<MutationRecord>, LogError>)
      requires Valid()
      ensures |history| < U64_MAX ==> (r.Err? <==> 0 < offset <= |history| - |records|)
      ensures r.Err? ==> r.error == OffsetGap
      ensures |history| < U64_MAX && r.Ok? && offset > 0 ==> r.value == history[Min(offset - 1, |history|)..]
      ensures |history| < U64_MAX && r.Ok? && offset == 0 ==> r.value == records
    {
      hide SumBytes;
      if offset != 0 && offset < FirstRetained() {
        return Err(OffsetGap);
      }
      ghost var first := |history| - |records| + 1;
      assert |history| < U64_MAX ==> Consecutive(records, first);
      var out := FilterFrom(records, Max(offset, 1), first);
      r := Ok(out);
    }

    /** `record_at`: the arithmetic lookup finds what a search through the retained records would. */
    method RecordAt(offset: u64) returns (r: Result<Option<MutationRecord>, LogError>)
      requires Valid()
      ensures |history| < U64_MAX ==> (r.Err? <==> records != [] && 0 < offset <= |history| - |records|)
      ensures r.Err? ==> r.error == OffsetGap
      ensures |history| < U64_MAX && r.Ok? && r.value.Some? ==>
                r.value.value in records && r.value.value.offset == Max(offset, 1)
      ensures |history| < U64_MAX && r.Ok? && r.value.None? ==> forall q :: q in records ==> q.offset != Max(offset, 1)
      ensures |history| < U64_MAX && r.Ok? && r.value.Some? && 0 < offset <= |history| ==> r.value.value == history[offset - 1]
    {
      hide SumBytes;
      if records == [] {
        return Ok(None);
      }
      var first := records[0].offset;
      if offset != 0 && offset < first {
        return Err(OffsetGap);
      }
      var at := Max(offset, 1);
      if at < first {
        return Ok(None);
      }
      if at - first < |records| {
        r := Ok(Some(records[at - first]));
      } else {
        r := Ok(None);
      }
    }
  }

  /**
   What the byte counter reads after the first `dropped` of `all` are gone. The counter
   saturates, so a record of astronomic size leaves it short by `excess` until it is
   dropped itself, as it must be.
   */
  ghost function Counted(all: seq<MutationRecord>, dropped: nat, excess: nat): int
    requires dropped <= |all|
  {
    if dropped == |all| then 0 else SumBytes(all[dropped..]) - excess
  }

  lemma {:induction false} SuffixAtLeastLast(all: seq<MutationRecord>, d: nat)
    requires d < |all|
    ensures RecordBytes(all[|all| - 1]) <= SumBytes(all[d..]) <= SumBytes(all)
    decreases |all| - d
  {
    hide RecordBytes;
    SuffixBelow(all, d);
    if d + 1 < |all| {
      SuffixAtLeastLast(all, d + 1);
      assert all[d..][1..] == all[d + 1..];
    } else {
      assert all[d..][1..] == [];
    }
  }

  lemma {:induction false} SuffixBelow(all: seq<MutationRecord>, d: nat)
    requires d <= |all|
    ensures SumBytes(all[d..]) <= SumBytes(all)
  {
    hide RecordBytes;
    if d > 0 {
      SuffixBelow(all, d - 1);
      assert all[d - 1..][1..] == all[d..];
    } else {
      assert all[d..] == all;
    }
  }

  lemma CountedStep(all: seq<MutationRecord>, d: nat, excess: nat, before: nat)
    requires d < |all| && SumBytes(all) == before + RecordBytes(all[|all| - 1]) && before <= MAX_LOG_BYTES
    requires excess == SatSub(SumBytes(all), U64_MAX)
    ensures Counted(all, d, excess) >= 0
    ensures SatSub(Counted(all, d, excess), RecordBytes(all[d])) == Counted(all, d + 1, excess)
  {
    hide RecordBytes;
    SuffixAtLeastLast(all, d);
    assert all[d..][1..] == all[d + 1..];
    if d + 1 < |all| {
      SuffixAtLeastLast(all, d + 1);
    } else {
      assert all[d + 1..] == [];
      LastRecordBytes(all);
    }
    RecordBytesBound(all[|all| - 1]);
  }

  lemma RecordBytesBound(r: MutationRecord)
    ensures RecordBytes(r) <= U64_MAX
  {
  }

  lemma LastRecordBytes(all: seq<MutationRecord>)
    requires |all| > 0
    ensures SumBytes(all[|all| - 1..]) == RecordBytes(all[|all| - 1])
  {
    hide RecordBytes;
    assert all[|all| - 1..] == [all[|all| - 1]];
    assert [all[|all| - 1]][1..] == [];
  }

  /** Once the counter is within the bound it is exact. */
  lemma CountedExact(all: seq<MutationRecord>, d: nat, excess: nat, before: nat)
    requires 0 < |all| && d <= |all| && SumBytes(all) == before + RecordBytes(all[|all| - 1]) && before <= MAX_LOG_BYTES
    requires excess == SatSub(SumBytes(all), U64_MAX)
    requires Counted(all, d, excess) <= MAX_LOG_BYTES
    ensures Counted(all, d, excess) == SumBytes(all[d..])
  {
    hide RecordBytes;
    if d < |all| {
      SuffixAtLeastLast(all, d);
      RecordBytesBound(all[|all| - 1]);
    } else {
      assert all[d..] == [];
    }
  }

  lemma LongestFit(all: seq<MutationRecord>, d: nat, capacity: nat)
    requires d <= |all| && |all| - d <= capacity && SumBytes(all[d..]) <= MAX_LOG_BYTES
    requires d > 0 ==> |all| - (d - 1) > capacity || SumBytes(all[d - 1..]) > MAX_LOG_BYTES
    ensures KeepsLongestFit(all, all[d..], capacity)
  {
    hide SumBytes;
    forall from | 0 <= from < d ensures |all| - from > capacity || SumBytes(all[from..]) > MAX_LOG_BYTES {
      var longer := all[from..];
      SuffixBelow(longer, d - 1 - from);
      assert longer[d - 1 - from..] == all[d - 1..];
    }
  }
}
