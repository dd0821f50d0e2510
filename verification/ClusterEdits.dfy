/**
 The topology edits of src/cluster/state.rs as functions on node lists, and what each does
 to slot ownership. A list is well formed when ids are unique and no slot lies in two
 ranges, of one node or of two.
 */
module ClusterEdits {
  import opened Wrappers
  import opened Words
  import opened Slots
  import opened Topology

  // ---- Well-formed node lists -------------------------------------------------------

  ghost predicate UniqueIds(nodes: seq<NodeInfo>) {
    forall i, j :: 0 <= i < j < |nodes| ==> nodes[i].id != nodes[j].id
  }

  /** How often node `i` lists slot `s`. */
  function Share(nodes: seq<NodeInfo>, i: nat, s: Slot): nat
    requires i < |nodes|
  {
    Count(nodes[i].slots, s)
  }

  /** No slot is listed twice, by one node or by two. */
  ghost predicate Disjoint(nodes: seq<NodeInfo>) {
    && (forall i: nat, s: Slot :: i < |nodes| ==> Share(nodes, i, s) <= 1)
    && (forall i: nat, j: nat, s: Slot :: i < |nodes| && j < |nodes| && i != j && Share(nodes, i, s) > 0 ==> Share(nodes, j, s) == 0)
  }

  ghost predicate WellFormed(nodes: seq<NodeInfo>) {
    UniqueIds(nodes) && Disjoint(nodes)
  }

  /** No slot has two owners. */
  lemma OneOwner(nodes: seq<NodeInfo>, i: nat, j: nat, s: Slot)
    requires Disjoint(nodes) && i < |nodes| && j < |nodes| && Serves(nodes, i, s) && Serves(nodes, j, s)
    ensures i == j
  {
    hide Count;
    assert Share(nodes, i, s) > 0 && Share(nodes, j, s) > 0;
  }

  /** The owner is the only node that both serves and lists the slot. */
  lemma OwnerIsServer(nodes: seq<NodeInfo>, i: nat, s: Slot)
    requires Disjoint(nodes) && i < |nodes|
    ensures Owner(nodes, s) == Some(i) <==> Serves(nodes, i, s)
  {
    hide Count;
    if Owner(nodes, s).Some? && Serves(nodes, i, s) {
      OneOwner(nodes, Owner(nodes, s).value, i, s);
    }
  }

  lemma {:induction false} PrimaryCountZero(nodes: seq<NodeInfo>, s: Slot)
    requires forall i: nat :: i < |nodes| ==> !Serves(nodes, i, s)
    ensures PrimaryCount(nodes, s) == 0
  {
    hide Count;
    if nodes != [] {
      var n := |nodes| - 1;
      assert forall i: nat :: i < n ==> Serves(nodes[..n], i, s) == Serves(nodes, i, s);
      PrimaryCountZero(nodes[..n], s);
      assert !Serves(nodes, n, s);
    }
  }

  lemma {:induction false} PrimaryCountOne(nodes: seq<NodeInfo>, i: nat, s: Slot)
    requires i < |nodes| && Serves(nodes, i, s) && Share(nodes, i, s) == 1
    requires forall j: nat :: j < |nodes| && j != i ==> !Serves(nodes, j, s)
    ensures PrimaryCount(nodes, s) == 1
  {
    hide Count;
    var n := |nodes| - 1;
    assert forall j: nat :: j < n ==> Serves(nodes[..n], j, s) == Serves(nodes, j, s);
    if i == n {
      PrimaryCountZero(nodes[..n], s);
    } else {
      assert Share(nodes[..n], i, s) == 1;
      PrimaryCountOne(nodes[..n], i, s);
      assert !Serves(nodes, n, s);
    }
  }

  /** On well-formed lists, complete means that every slot has an owner. */
  lemma CompleteIffOwned(nodes: seq<NodeInfo>)
    requires Disjoint(nodes)
    ensures Complete(nodes) <==> forall s: Slot :: Owner(nodes, s).Some?
  {
    hide Count;
    hide PrimaryCount;
    forall s: Slot ensures PrimaryCount(nodes, s) == if Owner(nodes, s).Some? then 1 else 0 {
      if Owner(nodes, s).Some? {
        var i := Owner(nodes, s).value;
        assert Share(nodes, i, s) <= 1;
        forall j: nat | j < |nodes| && j != i ensures !Serves(nodes, j, s) {
          OwnerIsServer(nodes, j, s);
        }
        PrimaryCountOne(nodes, i, s);
      } else {
        PrimaryCountZero(nodes, s);
      }
    }
  }

  /** Every node keeps its place, its id and its addresses. */
  ghost predicate SameNames(nodes: seq<NodeInfo>, after: seq<NodeInfo>) {
    && |after| == |nodes|
    && forall i :: 0 <= i < |nodes| ==>
         after[i].id == nodes[i].id && after[i].address == nodes[i].address && after[i].clusterAddress == nodes[i].clusterAddress
  }

  // ---- Moving one slot --------------------------------------------------------------

  /** The slot is at `target` and nowhere else, the target is a primary, and nothing else about any listing changed. */
  ghost predicate Moved(nodes: seq<NodeInfo>, after: seq<NodeInfo>, slot: Slot, target: nat) {
    && SameNames(nodes, after) && target < |nodes|
    && (forall i :: 0 <= i < |nodes| ==> after[i].role == if i == target then Primary else nodes[i].role)
    && (forall i :: 0 <= i < |nodes| ==> after[i].replicaOf == if i == target then None else nodes[i].replicaOf)
    && forall i: nat, s: Slot :: i < |nodes| ==> Share(after, i, s) == if s == slot then (if i == target then 1 else 0) else Share(nodes, i, s)
  }

  lemma MovedIsWellFormed(nodes: seq<NodeInfo>, after: seq<NodeInfo>, slot: Slot, target: nat)
    requires WellFormed(nodes) && Moved(nodes, after, slot, target)
    ensures WellFormed(after)
  {
    hide Share;
    forall i: nat, s: Slot | i < |after| ensures Share(after, i, s) <= 1 {
      assert Share(nodes, i, s) <= 1;
    }
  }

  /** Who owns what after the move: the slot, and any slots the target already listed, are the target's. */
  lemma MovedOwner(nodes: seq<NodeInfo>, after: seq<NodeInfo>, slot: Slot, target: nat, s: Slot)
    requires WellFormed(nodes) && Moved(nodes, after, slot, target)
    ensures Owner(after, s) == if s == slot || Covers(nodes[target].slots, s) then Some(target) else Owner(nodes, s)
  {
    hide Count;
    MovedIsWellFormed(nodes, after, slot, target);
    assert Share(after, target, s) == if s == slot then 1 else Share(nodes, target, s);
    OwnerIsServer(after, target, s);
    if !(s == slot || Covers(nodes[target].slots, s)) {
      match Owner(nodes, s) {
        case Some(i) =>
          assert Share(nodes, i, s) > 0;
          assert Share(after, i, s) > 0;
          OwnerIsServer(after, i, s);
        case None =>
          forall i: nat | i < |after| ensures !Serves(after, i, s) {
            assert Share(after, i, s) == Share(nodes, i, s);
            assert !Serves(nodes, i, s);
          }
      }
    }
  }

  /** Exactly one slot changes hands if and only if the target already was a primary or listed no other slot. */
  lemma MovesExactlyOneSlot(nodes: seq<NodeInfo>, after: seq<NodeInfo>, slot: Slot, target: nat)
    requires WellFormed(nodes) && Moved(nodes, after, slot, target)
    ensures (Owner(after, slot) == Some(target) && forall s: Slot :: s != slot ==> Owner(after, s) == Owner(nodes, s))
            <==> nodes[target].role == Primary || forall s: Slot :: s != slot ==> !Covers(nodes[target].slots, s)
  {
    hide Count;
    MovedOwner(nodes, after, slot, target, slot);
    forall s: Slot | s != slot
      ensures Owner(after, s) == Owner(nodes, s) <==> nodes[target].role == Primary || !Covers(nodes[target].slots, s)
    {
      MovedOwner(nodes, after, slot, target, s);
      OwnerIsServer(nodes, target, s);
    }
  }

  lemma MovedKeepsComplete(nodes: seq<NodeInfo>, after: seq<NodeInfo>, slot: Slot, target: nat)
    requires WellFormed(nodes) && Moved(nodes, after, slot, target) && Complete(nodes)
    ensures Complete(after)
  {
    hide Count;
    hide PrimaryCount;
    hide Moved;
    MovedIsWellFormed(nodes, after, slot, target);
    CompleteIffOwned(nodes);
    CompleteIffOwned(after);
    forall s: Slot ensures Owner(after, s).Some? {
      MovedOwner(nodes, after, slot, target, s);
    }
  }

  // ---- commit_slot_migration and assign_slot ----------------------------------------

  function Single(slot: Slot): SlotRange {
    Range(slot, slot)
  }

  /** The node becomes a primary that lists `slots`, at the given epoch. */
  function AsPrimary(n: NodeInfo, slots: seq<SlotRange>, epoch: u64): NodeInfo {
    n.(role := Primary, replicaOf := None, slots := slots, epoch := epoch)
  }

  function CommitNodes(nodes: seq<NodeInfo>, slot: Slot, source: nat, target: nat, epoch: u64): seq<NodeInfo>
    requires source < |nodes| && target < |nodes|
  {
    var cut := nodes[source := nodes[source].(slots := Removed(nodes[source].slots, slot), epoch := epoch)];
    cut[target := AsPrimary(cut[target], cut[target].slots + [Single(slot)], epoch)]
  }

  lemma SingleCount(slot: Slot, s: Slot)
    ensures Count([Single(slot)], s) == if s == slot then 1 else 0
  {
  }

  /** Committing a migration moves the slot from its owner to the target. */
  lemma CommitMoves(nodes: seq<NodeInfo>, slot: Slot, source: nat, target: nat, epoch: u64)
    requires WellFormed(nodes) && source < |nodes| && target < |nodes| && Covers(nodes[source].slots, slot)
    ensures Moved(nodes, CommitNodes(nodes, slot, source, target, epoch), slot, target)
    ensures forall i :: 0 <= i < |nodes| ==>
              CommitNodes(nodes, slot, source, target, epoch)[i].epoch == if i == source || i == target then epoch else nodes[i].epoch
  {
    hide Count;
    hide Removed;
    var cut := nodes[source := nodes[source].(slots := Removed(nodes[source].slots, slot), epoch := epoch)];
    var after := CommitNodes(nodes, slot, source, target, epoch);
    forall i: nat, s: Slot | i < |nodes|
      ensures Share(after, i, s) == if s == slot then (if i == target then 1 else 0) else Share(nodes, i, s)
    {
      assert Share(nodes, source, slot) > 0;
      assert i != source ==> Share(nodes, i, slot) == 0;
      assert target != source ==> Share(nodes, target, slot) == 0;
      RemovedCount(nodes[source].slots, slot, s);
      SingleCount(slot, s);
      CountConcat(cut[target].slots, [Single(slot)], s);
    }
  }

  /** Every node that lists the slot gives it up. */
  function WithoutSlot(nodes: seq<NodeInfo>, slot: Slot): (r: seq<NodeInfo>)
    ensures |r| == |nodes|
    ensures forall i :: 0 <= i < |nodes| ==> r[i] == nodes[i].(slots := if Covers(nodes[i].slots, slot) then Removed(nodes[i].slots, slot) else nodes[i].slots)
  {
    seq(|nodes|, i requires 0 <= i < |nodes| =>
      nodes[i].(slots := if Covers(nodes[i].slots, slot) then Removed(nodes[i].slots, slot) else nodes[i].slots))
  }

  function AssignNodes(nodes: seq<NodeInfo>, slot: Slot, target: nat, epoch: u64): seq<NodeInfo>
    requires target < |nodes|
  {
    var cut := WithoutSlot(nodes, slot);
    cut[target := AsPrimary(cut[target], Compacted(Sorted(cut[target].slots + [Single(slot)])), epoch)]
  }

  lemma WithoutSlotShare(nodes: seq<NodeInfo>, slot: Slot, i: nat, s: Slot)
    requires i < |nodes|
    ensures Share(WithoutSlot(nodes, slot), i, s) == if s == slot then 0 else Share(nodes, i, s)
  {
    hide Count;
    hide Removed;
    RemovedCount(nodes[i].slots, slot, s);
  }

  /** SETSLOT NODE moves the slot to the target from whoever lists it. */
  lemma AssignMoves(nodes: seq<NodeInfo>, slot: Slot, target: nat, epoch: u64)
    requires WellFormed(nodes) && target < |nodes|
    ensures Moved(nodes, AssignNodes(nodes, slot, target, epoch), slot, target)
    ensures forall i :: 0 <= i < |nodes| ==>
              AssignNodes(nodes, slot, target, epoch)[i].epoch == if i == target then epoch else nodes[i].epoch
  {
    hide Count;
    hide Removed;
    hide Compacted;
    hide Sorted;
    var cut := WithoutSlot(nodes, slot);
    var after := AssignNodes(nodes, slot, target, epoch);
    forall i: nat, s: Slot | i < |nodes|
      ensures Share(after, i, s) == if s == slot then (if i == target then 1 else 0) else Share(nodes, i, s)
    {
      WithoutSlotShare(nodes, slot, i, s);
      WithoutSlotShare(nodes, slot, target, s);
      NormalizedCount(cut[target].slots + [Single(slot)], s);
      SingleCount(slot, s);
      CountConcat(cut[target].slots, [Single(slot)], s);
    }
  }

  // ---- promote_replica --------------------------------------------------------------

  function PromoteNodes(nodes: seq<NodeInfo>, failed: nat, replica: nat, epoch: u64): seq<NodeInfo>
    requires failed < |nodes| && replica < |nodes|
  {
    var emptied := nodes[failed := nodes[failed].(slots := [], epoch := epoch)];
    emptied[replica := AsPrimary(emptied[replica], nodes[failed].slots, epoch)]
  }

  lemma PromoteShares(nodes: seq<NodeInfo>, failed: nat, replica: nat, epoch: u64, i: nat, s: Slot)
    requires failed < |nodes| && replica < |nodes| && failed != replica && i < |nodes|
    ensures Share(PromoteNodes(nodes, failed, replica, epoch), i, s)
         == if i == failed then 0 else if i == replica then Share(nodes, failed, s) else Share(nodes, i, s)
  {
  }

  /** The failed primary keeps its role and nothing else; the replica takes over its very ranges; no other node changes. */
  lemma PromoteChanges(nodes: seq<NodeInfo>, failed: nat, replica: nat, epoch: u64)
    requires failed < |nodes| && replica < |nodes| && failed != replica
    ensures var after := PromoteNodes(nodes, failed, replica, epoch);
            && SameNames(nodes, after)
            && after[failed].role == nodes[failed].role && after[failed].replicaOf == nodes[failed].replicaOf
            && after[failed].slots == [] && after[failed].epoch == epoch
            && after[replica].role == Primary && after[replica].replicaOf == None
            && after[replica].slots == nodes[failed].slots && after[replica].epoch == epoch
            && forall i :: 0 <= i < |nodes| && i != failed && i != replica ==> after[i] == nodes[i]
  {
  }

  lemma PromoteIsWellFormed(nodes: seq<NodeInfo>, failed: nat, replica: nat, epoch: u64)
    requires WellFormed(nodes) && failed < |nodes| && replica < |nodes| && failed != replica
    ensures WellFormed(PromoteNodes(nodes, failed, replica, epoch))
  {
    hide Share;
    var after := PromoteNodes(nodes, failed, replica, epoch);
    forall i: nat, s: Slot | i < |after|
      ensures Share(after, i, s) == if i == failed then 0 else if i == replica then Share(nodes, failed, s) else Share(nodes, i, s)
    {
      PromoteShares(nodes, failed, replica, epoch, i, s);
    }
  }

  /** Failover hands the failed primary's slots to the replica, and changes no other owner. */
  lemma PromoteMovesFailedSlots(nodes: seq<NodeInfo>, failed: nat, replica: nat, epoch: u64, s: Slot)
    requires WellFormed(nodes) && failed < |nodes| && replica < |nodes|
    requires nodes[failed].role == Primary && nodes[replica].role == Replica
    ensures Owner(PromoteNodes(nodes, failed, replica, epoch), s)
         == if Owner(nodes, s) == Some(failed) then Some(replica) else Owner(nodes, s)
  {
    hide Count;
    var after := PromoteNodes(nodes, failed, replica, epoch);
    PromoteIsWellFormed(nodes, failed, replica, epoch);
    PromoteShares(nodes, failed, replica, epoch, replica, s);
    OwnerIsServer(nodes, failed, s);
    OwnerIsServer(after, replica, s);
    if Owner(nodes, s) != Some(failed) {
      match Owner(nodes, s) {
        case Some(i) =>
          PromoteShares(nodes, failed, replica, epoch, i, s);
          OwnerIsServer(after, i, s);
        case None =>
          forall i: nat | i < |after| ensures !Serves(after, i, s) {
            PromoteShares(nodes, failed, replica, epoch, i, s);
            assert !Serves(nodes, i, s) && !Serves(nodes, failed, s);
          }
      }
    }
  }

  lemma PromoteKeepsComplete(nodes: seq<NodeInfo>, failed: nat, replica: nat, epoch: u64)
    requires WellFormed(nodes) && failed < |nodes| && replica < |nodes|
    requires nodes[failed].role == Primary && nodes[replica].role == Replica && Complete(nodes)
    ensures Complete(PromoteNodes(nodes, failed, replica, epoch))
  {
    hide Count;
    hide PrimaryCount;
    hide PromoteNodes;
    var after := PromoteNodes(nodes, failed, replica, epoch);
    PromoteIsWellFormed(nodes, failed, replica, epoch);
    CompleteIffOwned(nodes);
    CompleteIffOwned(after);
    forall s: Slot ensures Owner(after, s).Some? {
      PromoteMovesFailedSlots(nodes, failed, replica, epoch, s);
    }
  }

  // ---- add_slots, del_slots, meet, forget, reset ------------------------------------

  /** Node `idx` lists `slots` at the given epoch. */
  function Relisted(nodes: seq<NodeInfo>, idx: nat, slots: seq<SlotRange>, epoch: u64): seq<NodeInfo>
    requires idx < |nodes|
  {
    nodes[idx := nodes[idx].(slots := slots, epoch := epoch)]
  }

  /** Relisting keeps a list well formed if the node claims each slot at most once and none of another node's. */
  lemma RelistedIsWellFormed(nodes: seq<NodeInfo>, idx: nat, slots: seq<SlotRange>, epoch: u64)
    requires WellFormed(nodes) && idx < |nodes|
    requires forall s: Slot :: Count(slots, s) <= 1
    requires forall i: nat, s: Slot :: i < |nodes| && i != idx && Share(nodes, i, s) > 0 ==> Count(slots, s) == 0
    ensures WellFormed(Relisted(nodes, idx, slots, epoch))
  {
    hide Count;
    var after := Relisted(nodes, idx, slots, epoch);
    forall i: nat, s: Slot | i < |after| ensures Share(after, i, s) == if i == idx then Count(slots, s) else Share(nodes, i, s) {
    }
    hide Share;
    assert forall i: nat, s: Slot :: i < |nodes| ==> Share(nodes, i, s) <= 1;
  }

  /** The only change of ownership is node `idx` gaining or losing what its list gained or lost, if it is a primary. */
  lemma RelistedOwner(nodes: seq<NodeInfo>, idx: nat, slots: seq<SlotRange>, epoch: u64, s: Slot)
    requires WellFormed(nodes) && idx < |nodes| && WellFormed(Relisted(nodes, idx, slots, epoch))
    ensures Owner(Relisted(nodes, idx, slots, epoch), s)
         == if nodes[idx].role == Primary && Covers(slots, s) then Some(idx)
            else if Owner(nodes, s) == Some(idx) then None else Owner(nodes, s)
  {
    hide Count;
    var after := Relisted(nodes, idx, slots, epoch);
    OwnerIsServer(after, idx, s);
    OwnerIsServer(nodes, idx, s);
    if !(nodes[idx].role == Primary && Covers(slots, s)) {
      if Owner(nodes, s).Some? && Owner(nodes, s) != Some(idx) {
        OwnerIsServer(after, Owner(nodes, s).value, s);
      } else {
        forall i: nat | i < |after| ensures !Serves(after, i, s) {
          if i != idx {
            OwnerIsServer(nodes, i, s);
          }
        }
      }
    }
  }

  /** Nothing about any node changes but that node's list and epoch. */
  lemma RelistedChanges(nodes: seq<NodeInfo>, idx: nat, slots: seq<SlotRange>, epoch: u64)
    requires idx < |nodes|
    ensures var after := Relisted(nodes, idx, slots, epoch);
            && SameNames(nodes, after)
            && after[idx].role == nodes[idx].role && after[idx].replicaOf == nodes[idx].replicaOf
            && after[idx].slots == slots && after[idx].epoch == epoch
            && forall i :: 0 <= i < |nodes| && i != idx ==> after[i] == nodes[i]
  {
  }

  function Singles(slots: seq<Slot>): seq<SlotRange> {
    if slots == [] then [] else Singles(slots[..|slots| - 1]) + [Single(slots[|slots| - 1])]
  }

  lemma {:induction false} SinglesCount(slots: seq<Slot>, s: Slot)
    requires forall i, j :: 0 <= i < j < |slots| ==> slots[i] != slots[j]
    ensures Count(Singles(slots), s) == if s in slots then 1 else 0
  {
    if slots != [] {
      var n := |slots| - 1;
      SinglesCount(slots[..n], s);
      CountConcat(Singles(slots[..n]), [Single(slots[n])], s);
      SingleCount(slots[n], s);
      assert slots == slots[..n] + [slots[n]];
    }
  }

  function AddedSlots(ranges: seq<SlotRange>, slots: seq<Slot>): seq<SlotRange> {
    Compacted(Sorted(ranges + Singles(slots)))
  }

  lemma AddedSlotsCount(ranges: seq<SlotRange>, slots: seq<Slot>, s: Slot)
    requires forall i, j :: 0 <= i < j < |slots| ==> slots[i] != slots[j]
    ensures Count(AddedSlots(ranges, slots), s) == Count(ranges, s) + if s in slots then 1 else 0
  {
    hide Count;
    hide Compacted;
    hide Sorted;
    SinglesCount(slots, s);
    CountConcat(ranges, Singles(slots), s);
    NormalizedCount(ranges + Singles(slots), s);
  }

  function RemovedAll(ranges: seq<SlotRange>, slots: seq<Slot>): seq<SlotRange> {
    if slots == [] then ranges else Removed(RemovedAll(ranges, slots[..|slots| - 1]), slots[|slots| - 1])
  }

  lemma {:induction false} RemovedAllCount(ranges: seq<SlotRange>, slots: seq<Slot>, s: Slot)
    ensures Count(RemovedAll(ranges, slots), s) == if s in slots then 0 else Count(ranges, s)
  {
    hide Count;
    hide Removed;
    if slots != [] {
      var n := |slots| - 1;
      assert slots == slots[..n] + [slots[n]];
      RemovedAllCount(ranges, slots[..n], s);
      RemovedCount(RemovedAll(ranges, slots[..n]), slots[n], s);
    }
  }

  lemma ForgetIsWellFormed(nodes: seq<NodeInfo>, idx: nat)
    requires WellFormed(nodes) && idx < |nodes|
    ensures WellFormed(nodes[..idx] + nodes[idx + 1..])
  {
    hide Count;
    var after := nodes[..idx] + nodes[idx + 1..];
    forall i: nat, s: Slot | i < |after| ensures Share(after, i, s) == Share(nodes, if i < idx then i else i + 1, s) {
    }
  }

  /** The condition `meet_node` leaves to its caller: the newcomer lists each slot at most once, and none that is taken. */
  ghost predicate Joinable(nodes: seq<NodeInfo>, n: NodeInfo) {
    && (forall s: Slot :: Count(n.slots, s) <= 1)
    && (forall i: nat, s: Slot :: i < |nodes| && Share(nodes, i, s) > 0 ==> Count(n.slots, s) == 0)
  }

  /** Meeting an unknown node keeps the list well formed exactly when the node is joinable. */
  lemma MeetIsWellFormedIff(nodes: seq<NodeInfo>, n: NodeInfo)
    requires WellFormed(nodes) && forall i :: 0 <= i < |nodes| ==> nodes[i].id != n.id
    ensures WellFormed(nodes + [n]) <==> Joinable(nodes, n)
  {
    hide Count;
    var after := nodes + [n];
    forall i: nat, s: Slot | i < |after| ensures Share(after, i, s) == if i < |nodes| then Share(nodes, i, s) else Count(n.slots, s) {
    }
    assert after[|nodes|] == n;
    if WellFormed(after) {
      assert forall s: Slot :: Share(after, |nodes|, s) == Count(n.slots, s);
    }
  }
}
