/**
 Cluster topology (src/cluster/topology.rs): which primary serves a slot, whether the
 primaries serve all of them, and the flat table that answers the first question without
 a scan.
 */
module Topology {
  import opened Wrappers
  import opened Words
  import opened Slots

  datatype NodeRole = Primary | Replica

  datatype NodeInfo = NodeInfo(
    id: string, address: string, clusterAddress: string, role: NodeRole,
    replicaOf: Option<string>, epoch: u64, slots: seq<SlotRange>)

  datatype Topology = Topology(epoch: u64, nodes: seq<NodeInfo>)

  /** Node `i` is a primary whose ranges contain the slot. */
  predicate Serves(nodes: seq<NodeInfo>, i: nat, s: Slot)
    requires i < |nodes|
  {
    nodes[i].role == Primary && Covers(nodes[i].slots, s)
  }

  /** `Topology::owner`, as an index: the first primary that serves the slot. */
  function Owner(nodes: seq<NodeInfo>, s: Slot): (r: Option<nat>)
    ensures r.Some? ==> r.value < |nodes| && Serves(nodes, r.value, s)
    ensures r.Some? ==> forall j :: 0 <= j < r.value ==> !Serves(nodes, j, s)
    ensures r.None? ==> forall j :: 0 <= j < |nodes| ==> !Serves(nodes, j, s)
  {
    OwnerFrom(nodes, s, 0)
  }

  function OwnerFrom(nodes: seq<NodeInfo>, s: Slot, from: nat): (r: Option<nat>)
    requires from <= |nodes|
    ensures r.Some? ==> from <= r.value < |nodes| && Serves(nodes, r.value, s)
    ensures r.Some? ==> forall j :: from <= j < r.value ==> !Serves(nodes, j, s)
    ensures r.None? ==> forall j :: from <= j < |nodes| ==> !Serves(nodes, j, s)
    decreases |nodes| - from
  {
    if from == |nodes| then None else if Serves(nodes, from, s) then Some(from) else OwnerFrom(nodes, s, from + 1)
  }

  /** First node with the given id. */
  function IndexOf(nodes: seq<NodeInfo>, id: string, from: nat := 0): (r: Option<nat>)
    requires from <= |nodes|
    ensures r.Some? ==> from <= r.value < |nodes| && nodes[r.value].id == id
    ensures r.Some? ==> forall j :: from <= j < r.value ==> nodes[j].id != id
    ensures r.None? ==> forall j :: from <= j < |nodes| ==> nodes[j].id != id
    decreases |nodes| - from
  {
    if from == |nodes| then None else if nodes[from].id == id then Some(from) else IndexOf(nodes, id, from + 1)
  }

  // ---- Completeness -----------------------------------------------------------------

  /** In how many ranges of primaries a slot lies. */
  function PrimaryCount(nodes: seq<NodeInfo>, s: Slot): nat {
    if nodes == [] then 0
    else PrimaryCount(nodes[..|nodes| - 1], s) + (if nodes[|nodes| - 1].role == Primary then Count(nodes[|nodes| - 1].slots, s) else 0)
  }

  ghost predicate Complete(nodes: seq<NodeInfo>) {
    forall s: Slot :: PrimaryCount(nodes, s) == 1
  }

  lemma {:induction false} PrimaryCountPrefix(nodes: seq<NodeInfo>, n: nat, s: Slot)
    requires n <= |nodes|
    ensures PrimaryCount(nodes[..n], s) <= PrimaryCount(nodes, s)
  {
    if n < |nodes| {
      assert nodes[..|nodes| - 1][..n] == nodes[..n];
      PrimaryCountPrefix(nodes[..|nodes| - 1], n, s);
    } else {
      assert nodes[..n] == nodes;
    }
  }

  lemma {:induction false} CountPrefix(ranges: seq<SlotRange>, n: nat, s: Slot)
    requires n <= |ranges|
    ensures Count(ranges[..n], s) <= Count(ranges, s)
    ensures n < |ranges| ==> Count(ranges[..n + 1], s) == Count(ranges[..n], s) + (if ranges[n].Contains(s) then 1 else 0)
  {
    assert ranges == ranges[..n] + ranges[n..];
    CountConcat(ranges[..n], ranges[n..], s);
    if n < |ranges| {
      assert ranges[..n + 1] == ranges[..n] + [ranges[n]];
      CountConcat(ranges[..n], [ranges[n]], s);
    }
  }

  ghost function SlotsBelow(n: nat): (r: set<Slot>)
    requires n <= HASH_SLOTS
    ensures |r| == n
    ensures forall s: Slot :: s in r <==> s < n
  {
    if n == 0 then {} else SlotsBelow(n - 1) + {n - 1}
  }

  /** A set of slots has 16384 members exactly when it is all of them. */
  lemma FullSet(marked: set<Slot>)
    ensures |marked| == HASH_SLOTS <==> forall s: Slot :: s in marked
  {
    var all := SlotsBelow(HASH_SLOTS);
    assert marked <= all;
    if |marked| == HASH_SLOTS && marked != all {
      var s :| s in all && s !in marked;
      assert marked <= all - {s};
      SubsetSize(marked, all - {s});
    }
    if forall s: Slot :: s in marked {
      assert marked == all;
    }
  }

  /** The innermost loop of `is_complete`: set one bit per slot of a range, stopping at one already set. */
  method MarkRange(covered: array<bool>, r: SlotRange, ghost marked: set<Slot>) returns (ok: bool, added: nat, ghost after: set<Slot>)
    requires covered.Length == HASH_SLOTS && forall s: Slot :: covered[s] <==> s in marked
    modifies covered
    ensures forall s: Slot :: covered[s] <==> s in after
    ensures ok ==> |after| == |marked| + added
    ensures ok ==> forall s: Slot :: (s in after <==> s in marked || r.Contains(s)) && !(s in marked && r.Contains(s))
    ensures !ok ==> exists s: Slot :: s in marked && r.Contains(s)
  {
    added, after := 0, marked;
    var slot: nat := r.start;
    while slot <= r.end
      invariant r.start <= slot && (slot <= r.end + 1 || slot == r.start)
      invariant forall s: Slot :: covered[s] <==> s in after
      invariant forall s: Slot :: s in after <==> s in marked || r.start <= s < slot
      invariant forall s: Slot :: s in marked ==> !(r.start <= s < slot)
      invariant |after| == |marked| + added
    {
      if covered[slot] {
        var s: Slot := slot;
        assert s in marked && r.Contains(s);
        return false, added, after;
      }
      covered[slot] := true;
      after := after + {slot};
      added := added + 1;
      slot := slot + 1;
    }
    ok := true;
  }

  /** Ranges of primaries counted when range `j` of node `i` is about to be read. */
  ghost function Seen(nodes: seq<NodeInfo>, i: nat, j: nat, s: Slot): nat
    requires i < |nodes| && j <= |nodes[i].slots|
  {
    PrimaryCount(nodes[..i], s) + Count(nodes[i].slots[..j], s)
  }

  lemma SeenNext(nodes: seq<NodeInfo>, i: nat, j: nat, s: Slot)
    requires i < |nodes| && nodes[i].role == Primary && j < |nodes[i].slots|
    ensures Seen(nodes, i, j + 1, s) == Seen(nodes, i, j, s) + (if nodes[i].slots[j].Contains(s) then 1 else 0)
    ensures Seen(nodes, i, j + 1, s) <= PrimaryCount(nodes, s)
  {
    hide Count;
    hide PrimaryCount;
    CountPrefix(nodes[i].slots, j, s);
    CountPrefix(nodes[i].slots, j + 1, s);
    SeenEnds(nodes, i, s);
    assert nodes[i].slots[..|nodes[i].slots|] == nodes[i].slots;
    PrimaryCountPrefix(nodes, i + 1, s);
  }

  lemma SeenEnds(nodes: seq<NodeInfo>, i: nat, s: Slot)
    requires i < |nodes|
    ensures Seen(nodes, i, 0, s) == PrimaryCount(nodes[..i], s)
    ensures PrimaryCount(nodes[..i + 1], s)
         == if nodes[i].role == Primary then Seen(nodes, i, |nodes[i].slots|, s) else PrimaryCount(nodes[..i], s)
  {
    assert nodes[..i + 1][..i] == nodes[..i];
    assert nodes[i].slots[..|nodes[i].slots|] == nodes[i].slots;
  }

  /** `is_complete`: every slot lies in exactly one range of one primary. */
  method IsComplete(t: Topology) returns (complete: bool)
    ensures complete <==> Complete(t.nodes)
  {
    hide Count;
    hide PrimaryCount;
    var nodes := t.nodes;
    var covered := new bool[HASH_SLOTS](_ => false);
    var count := 0;
    ghost var marked: set<Slot> := {};
    NothingSeen(nodes);
    for i := 0 to |nodes|
      invariant fresh(covered) && covered.Length == HASH_SLOTS && forall s: Slot :: covered[s] <==> s in marked
      invariant count == |marked|
      invariant forall s: Slot :: PrimaryCount(nodes[..i], s) == if s in marked then 1 else 0
    {
      forall s: Slot
        ensures Seen(nodes, i, 0, s) == PrimaryCount(nodes[..i], s)
        ensures PrimaryCount(nodes[..i + 1], s)
             == if nodes[i].role == Primary then Seen(nodes, i, |nodes[i].slots|, s) else PrimaryCount(nodes[..i], s)
      {
        SeenEnds(nodes, i, s);
      }
      if nodes[i].role == Primary {
        var ranges := nodes[i].slots;
        for j := 0 to |ranges|
          invariant fresh(covered) && covered.Length == HASH_SLOTS && forall s: Slot :: covered[s] <==> s in marked
          invariant count == |marked|
          invariant forall s: Slot :: Seen(nodes, i, j, s) == if s in marked then 1 else 0
        {
          hide Seen;
          forall s: Slot
            ensures Seen(nodes, i, j + 1, s) == Seen(nodes, i, j, s) + (if ranges[j].Contains(s) then 1 else 0)
            ensures Seen(nodes, i, j + 1, s) <= PrimaryCount(nodes, s)
          {
            SeenNext(nodes, i, j, s);
          }
          var ok, added;
          ghost var after;
          ok, added, after := MarkRange(covered, ranges[j], marked);
          if !ok {
            ghost var s: Slot :| s in marked && ranges[j].Contains(s);
            assert PrimaryCount(nodes, s) >= 2;
            return false;
          }
          marked := after;
          count := count + added;
        }
      }
    }
    assert nodes[..|nodes|] == nodes;
    FullSet(marked);
    complete := count == HASH_SLOTS;
  }

  lemma NothingSeen(nodes: seq<NodeInfo>)
    ensures forall s: Slot :: PrimaryCount(nodes[..0], s) == 0
  {
  }

  // ---- The routing table ------------------------------------------------------------

  const UNASSIGNED: nat := 65535

  /** `RoutingTable::owner_index`. */
  function OwnerIndex(owners: seq<nat>, s: Slot): Option<nat> {
    if s >= |owners| || owners[s] == UNASSIGNED then None else Some(owners[s])
  }

  /** What the table holds for a slot when the first `n` nodes are in: the first of them that serves it. */
  function TableEntry(nodes: seq<NodeInfo>, n: nat, s: Slot): nat
    requires n <= |nodes|
  {
    if n == 0 then UNASSIGNED
    else
      var before := TableEntry(nodes, n - 1, s);
      if before == UNASSIGNED && n - 1 < UNASSIGNED && Serves(nodes, n - 1, s) then n - 1 else before
  }

  /** `RoutingTable::build`, node by node and range by range; a slot already taken stays with its first owner. */
  method BuildTable(t: Topology) returns (owners: seq<nat>)
    ensures |owners| == HASH_SLOTS && forall s: Slot :: owners[s] == TableEntry(t.nodes, |t.nodes|, s)
  {
    hide Count;
    var nodes := t.nodes;
    var table := new nat[HASH_SLOTS](_ => UNASSIGNED);
    for index := 0 to |nodes|
      invariant fresh(table) && table.Length == HASH_SLOTS
      invariant forall s: Slot :: table[s] == TableEntry(nodes, index, s)
    {
      if nodes[index].role == Primary && index < UNASSIGNED {
        ghost var before := table[..];
        var ranges := nodes[index].slots;
        NoneCovered(ranges);
        for j := 0 to |ranges|
          invariant fresh(table) && table.Length == HASH_SLOTS
          invariant forall s: Slot :: table[s] == if before[s] == UNASSIGNED && Covers(ranges[..j], s) then index else before[s]
        {
          forall s: Slot ensures Covers(ranges[..j + 1], s) <==> Covers(ranges[..j], s) || ranges[j].Contains(s) {
            CountPrefix(ranges, j, s);
          }
          FillRange(table, ranges[j], index);
        }
        assert ranges[..|ranges|] == ranges;
      }
    }
    owners := table[..];
  }

  lemma NoneCovered(ranges: seq<SlotRange>)
    ensures forall s: Slot :: !Covers(ranges[..0], s)
  {
  }

  method FillRange(table: array<nat>, r: SlotRange, index: nat)
    requires table.Length == HASH_SLOTS && index != UNASSIGNED
    modifies table
    ensures forall s: Slot :: table[s] == if old(table[s]) == UNASSIGNED && r.Contains(s) then index else old(table[s])
  {
    var slot: nat := r.start;
    while slot <= r.end
      invariant r.start <= slot <= r.end + 1
      invariant forall s: Slot :: table[s] == if old(table[s]) == UNASSIGNED && r.start <= s < slot then index else old(table[s])
    {
      if table[slot] == UNASSIGNED {
        table[slot] := index;
      }
      slot := slot + 1;
    }
  }

  lemma {:induction false} TableEntryIs(nodes: seq<NodeInfo>, n: nat, s: Slot)
    requires n <= |nodes|
    ensures TableEntry(nodes, n, s) != UNASSIGNED ==>
              && TableEntry(nodes, n, s) < n && TableEntry(nodes, n, s) < UNASSIGNED
              && Serves(nodes, TableEntry(nodes, n, s), s)
              && forall j :: 0 <= j < TableEntry(nodes, n, s) ==> !Serves(nodes, j, s)
    ensures TableEntry(nodes, n, s) == UNASSIGNED ==> forall j :: 0 <= j < n && j < UNASSIGNED ==> !Serves(nodes, j, s)
  {
    hide Serves;
    if n > 0 {
      TableEntryIs(nodes, n - 1, s);
    }
  }

  /**
   The table agrees with the scan on every slot whose owner's index fits in 16 bits below
   the sentinel; a slot owned by a later node reads as unassigned.
   */
  lemma TableMatchesScan(nodes: seq<NodeInfo>, owners: seq<nat>, s: Slot)
    requires |owners| == HASH_SLOTS && forall q: Slot :: owners[q] == TableEntry(nodes, |nodes|, q)
    ensures OwnerIndex(owners, s) == Owner(nodes, s) <==> Owner(nodes, s).None? || Owner(nodes, s).value < UNASSIGNED
    ensures |nodes| <= UNASSIGNED ==> OwnerIndex(owners, s) == Owner(nodes, s)
  {
    hide Serves;
    hide TableEntry;
    TableEntryIs(nodes, |nodes|, s);
  }
}
