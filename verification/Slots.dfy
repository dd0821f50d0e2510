/**
 Hash slots and slot ranges (src/cluster/hash.rs), and the edits of a node's range list
 (src/cluster/state.rs): removing one slot, sorting, and joining adjacent ranges. What a
 range list means is how often it covers each slot.
 */
module Slots {

  const HASH_SLOTS: nat := 16384

  type Slot = x: nat | x < 16384

  datatype Range = Range(start: Slot, end: Slot) {
    predicate Contains(s: Slot) {
      start <= s <= end
    }
  }

  /** Every range is made by `SlotRange::new`, which refuses a reversed one. */
  type SlotRange = r: Range | r.start <= r.end witness Range(0, 0)

  /** In how many of the ranges a slot lies. */
  function Count(ranges: seq<SlotRange>, s: Slot): nat {
    if ranges == [] then 0 else (if ranges[0].Contains(s) then 1 else 0) + Count(ranges[1..], s)
  }

  predicate Covers(ranges: seq<SlotRange>, s: Slot) {
    Count(ranges, s) > 0
  }

  lemma {:induction false} CountConcat(a: seq<SlotRange>, b: seq<SlotRange>, s: Slot)
    ensures Count(a + b, s) == Count(a, s) + Count(b, s)
  {
    if a == [] {
      assert a + b == b;
    } else {
      assert (a + b)[1..] == a[1..] + b;
      CountConcat(a[1..], b, s);
    }
  }

  lemma {:induction false} CoversIff(ranges: seq<SlotRange>, s: Slot)
    ensures Covers(ranges, s) <==> exists i :: 0 <= i < |ranges| && ranges[i].Contains(s)
  {
    if ranges != [] {
      CoversIff(ranges[1..], s);
      assert forall i :: 1 <= i < |ranges| ==> ranges[i] == ranges[1..][i - 1];
      if ranges[0].Contains(s) {
      } else if i :| 0 <= i < |ranges| && ranges[i].Contains(s) {
        assert ranges[1..][i - 1].Contains(s);
      }
    }
  }

  // ---- remove_slot ------------------------------------------------------------------

  /** What is left of one range without the slot. */
  function Cut(r: SlotRange, slot: Slot): seq<SlotRange> {
    if !r.Contains(slot) then [r]
    else
      (if r.start < slot then [Range(r.start, slot - 1)] else [])
      + (if slot < r.end then [Range(slot + 1, r.end)] else [])
  }

  function Removed(ranges: seq<SlotRange>, slot: Slot): seq<SlotRange> {
    if ranges == [] then [] else Cut(ranges[0], slot) + Removed(ranges[1..], slot)
  }

  lemma CutCount(r: SlotRange, slot: Slot, s: Slot)
    ensures Count(Cut(r, slot), s) == if r.Contains(s) && s != slot then 1 else 0
  {
    var low := if r.start < slot then [Range(r.start, slot - 1)] else [];
    var high := if slot < r.end then [Range(slot + 1, r.end)] else [];
    if r.Contains(slot) {
      CountConcat(low, high, s);
    }
  }

  /** The slot is covered no more; every other slot is covered exactly as often as before. */
  lemma {:induction false} RemovedCount(ranges: seq<SlotRange>, slot: Slot, s: Slot)
    ensures Count(Removed(ranges, slot), s) == if s == slot then 0 else Count(ranges, s)
  {
    if ranges != [] {
      CutCount(ranges[0], slot, s);
      CountConcat(Cut(ranges[0], slot), Removed(ranges[1..], slot), s);
      RemovedCount(ranges[1..], slot, s);
    }
  }

  lemma {:induction false} RemovedAppend(ranges: seq<SlotRange>, r: SlotRange, slot: Slot)
    ensures Removed(ranges + [r], slot) == Removed(ranges, slot) + Cut(r, slot)
  {
    hide Cut;
    if ranges == [] {
      assert ranges + [r] == [r] && [r][1..] == [];
    } else {
      assert (ranges + [r])[1..] == ranges[1..] + [r];
      RemovedAppend(ranges[1..], r, slot);
    }
  }

  /** `remove_slot`. */
  method RemoveSlot(ranges: seq<SlotRange>, slot: Slot) returns (out: seq<SlotRange>)
    ensures out == Removed(ranges, slot)
  {
    out := [];
    for i := 0 to |ranges|
      invariant out == Removed(ranges[..i], slot)
    {
      var r := ranges[i];
      assert ranges[..i + 1] == ranges[..i] + [r];
      RemovedAppend(ranges[..i], r, slot);
      if !r.Contains(slot) {
        out := out + [r];
        continue;
      }
      var kept := out;
      if r.start < slot {
        out := out + [Range(r.start, slot - 1)];
      }
      if slot < r.end {
        out := out + [Range(slot + 1, r.end)];
      }
      assert out == kept + Cut(r, slot);
    }
    assert ranges[..|ranges|] == ranges;
  }

  // ---- sort and compact_ranges ------------------------------------------------------

  function Insert(r: SlotRange, ranges: seq<SlotRange>): seq<SlotRange> {
    if ranges == [] || r.start <= ranges[0].start then [r] + ranges else [ranges[0]] + Insert(r, ranges[1..])
  }

  /** The ranges by start. */
  function Sorted(ranges: seq<SlotRange>): seq<SlotRange> {
    if ranges == [] then [] else Insert(ranges[0], Sorted(ranges[1..]))
  }

  lemma {:induction false} InsertCount(r: SlotRange, ranges: seq<SlotRange>, s: Slot)
    ensures Count(Insert(r, ranges), s) == Count([r], s) + Count(ranges, s)
  {
    if ranges == [] || r.start <= ranges[0].start {
      CountConcat([r], ranges, s);
    } else {
      InsertCount(r, ranges[1..], s);
      CountConcat([ranges[0]], Insert(r, ranges[1..]), s);
      assert ranges == [ranges[0]] + ranges[1..];
      CountConcat([ranges[0]], ranges[1..], s);
    }
  }

  lemma {:induction false} SortedCount(ranges: seq<SlotRange>, s: Slot)
    ensures Count(Sorted(ranges), s) == Count(ranges, s)
  {
    if ranges != [] {
      SortedCount(ranges[1..], s);
      InsertCount(ranges[0], Sorted(ranges[1..]), s);
      assert ranges == [ranges[0]] + ranges[1..];
      CountConcat([ranges[0]], ranges[1..], s);
    }
  }

  /** Joins `r` to the last range of `out` if it starts right after it. */
  function JoinOnto(out: seq<SlotRange>, r: SlotRange): seq<SlotRange> {
    if out != [] && out[|out| - 1].end + 1 == r.start
    then out[..|out| - 1] + [Range(out[|out| - 1].start, r.end)]
    else out + [r]
  }

  function CompactedOnto(out: seq<SlotRange>, ranges: seq<SlotRange>): seq<SlotRange>
    decreases |ranges|
  {
    if ranges == [] then out else CompactedOnto(JoinOnto(out, ranges[0]), ranges[1..])
  }

  function Compacted(ranges: seq<SlotRange>): seq<SlotRange> {
    CompactedOnto([], ranges)
  }

  lemma JoinOntoCount(out: seq<SlotRange>, r: SlotRange, s: Slot)
    ensures Count(JoinOnto(out, r), s) == Count(out, s) + Count([r], s)
  {
    if out != [] && out[|out| - 1].end + 1 == r.start {
      var n := |out| - 1;
      var last := out[n];
      assert last in out && out == out[..n] + [last];
      CountConcat(out[..n], [last], s);
      CountConcat(out[..n], [Range(last.start, r.end)], s);
      assert Count([Range(last.start, r.end)], s) == Count([last], s) + Count([r], s);
    } else {
      CountConcat(out, [r], s);
    }
  }

  lemma {:induction false} CompactedOntoCount(out: seq<SlotRange>, ranges: seq<SlotRange>, s: Slot)
    ensures Count(CompactedOnto(out, ranges), s) == Count(out, s) + Count(ranges, s)
    decreases |ranges|
  {
    if ranges != [] {
      assert ranges[0] in ranges && ranges == [ranges[0]] + ranges[1..];
      JoinOntoCount(out, ranges[0], s);
      CompactedOntoCount(JoinOnto(out, ranges[0]), ranges[1..], s);
      CountConcat([ranges[0]], ranges[1..], s);
    }
  }

  /** Sorting and joining change how a node's slots are written down, not which slots they are. */
  lemma NormalizedCount(ranges: seq<SlotRange>, s: Slot)
    ensures Count(Compacted(Sorted(ranges)), s) == Count(ranges, s)
  {
    SortedCount(ranges, s);
    CompactedOntoCount([], Sorted(ranges), s);
  }

  /** No range starts right after the one before it ends. */
  predicate Apart(ranges: seq<SlotRange>) {
    forall i :: 0 < i < |ranges| ==> ranges[i - 1].end + 1 != ranges[i].start
  }

  lemma {:induction false} CompactedApart(out: seq<SlotRange>, ranges: seq<SlotRange>)
    requires Apart(out)
    ensures Apart(CompactedOnto(out, ranges))
    decreases |ranges|
  {
    if ranges != [] {
      var r := ranges[0];
      var next := JoinOnto(out, r);
      forall i | 0 < i < |next| ensures next[i - 1].end + 1 != next[i].start {
        assert i < |out| ==> next[i].start == out[i].start && next[i - 1].end == out[i - 1].end;
      }
      CompactedApart(next, ranges[1..]);
    }
  }

  lemma CompactedIsApart(ranges: seq<SlotRange>)
    ensures Apart(Compacted(ranges))
  {
    CompactedApart([], ranges);
  }

  predicate ByStart(ranges: seq<SlotRange>) {
    forall i :: 0 < i < |ranges| ==> ranges[i - 1].start <= ranges[i].start
  }

  lemma {:induction false} InsertSorts(r: SlotRange, ranges: seq<SlotRange>)
    requires ByStart(ranges)
    ensures ByStart(Insert(r, ranges))
    ensures Insert(r, ranges)[0].start == if ranges == [] || r.start <= ranges[0].start then r.start else ranges[0].start
  {
    if ranges != [] && r.start > ranges[0].start {
      var rest := ranges[1..];
      assert forall i :: 0 < i < |rest| ==> rest[i - 1] == ranges[i] && rest[i] == ranges[i + 1];
      InsertSorts(r, rest);
      ConsByStart(ranges[0], Insert(r, rest));
    } else if ranges != [] {
      ConsByStart(r, ranges);
    }
  }

  lemma ConsByStart(r: SlotRange, ranges: seq<SlotRange>)
    requires ByStart(ranges) && ranges != [] && r.start <= ranges[0].start
    ensures ByStart([r] + ranges)
  {
    var all := [r] + ranges;
    forall i | 0 < i < |all| ensures all[i - 1].start <= all[i].start {
      assert i > 1 ==> all[i - 1] == ranges[i - 2] && all[i] == ranges[i - 1];
    }
  }

  lemma {:induction false} InsertKeeps(r: SlotRange, ranges: seq<SlotRange>)
    ensures multiset(Insert(r, ranges)) == multiset(ranges) + multiset{r}
  {
    if ranges != [] {
      assert ranges == [ranges[0]] + ranges[1..];
      InsertKeeps(r, ranges[1..]);
    }
  }

  /** The same ranges, by start. */
  lemma {:induction false} SortedSorts(ranges: seq<SlotRange>)
    ensures ByStart(Sorted(ranges)) && multiset(Sorted(ranges)) == multiset(ranges)
  {
    if ranges != [] {
      assert ranges == [ranges[0]] + ranges[1..];
      SortedSorts(ranges[1..]);
      InsertSorts(ranges[0], Sorted(ranges[1..]));
      InsertKeeps(ranges[0], Sorted(ranges[1..]));
    }
  }

  /** `compact_ranges`: adjacent neighbours are joined, all of them. */
  method CompactRanges(ranges: seq<SlotRange>) returns (out: seq<SlotRange>)
    ensures out == Compacted(ranges) && Apart(out)
  {
    hide Apart;
    CompactedIsApart(ranges);
    if |ranges| < 2 {
      SingleCompacted(ranges);
      return ranges;
    }
    out := [];
    for i := 0 to |ranges|
      invariant CompactedOnto(out, ranges[i..]) == Compacted(ranges)
    {
      var r := ranges[i];
      assert ranges[i..][1..] == ranges[i + 1..];
      if |out| > 0 && out[|out| - 1].end + 1 == r.start {
        ghost var joined := JoinOnto(out, r);
        out := out[|out| - 1 := Range(out[|out| - 1].start, r.end)];
        assert out == joined;
        continue;
      }
      out := out + [r];
    }
  }

  lemma SingleCompacted(ranges: seq<SlotRange>)
    requires |ranges| < 2
    ensures Compacted(ranges) == ranges
  {
    if |ranges| == 1 {
      assert ranges[1..] == [] && [] + [ranges[0]] == ranges;
      assert CompactedOnto([], ranges) == CompactedOnto(JoinOnto([], ranges[0]), ranges[1..]);
    }
  }
}
