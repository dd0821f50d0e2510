/**
 Runs of the cluster state: any sequence of its operations. What every run keeps is stated
 over the topologies it passes through.
 */
module ClusterRuns {
  import opened Wrappers
  import opened Words
  import opened Slots
  import opened Topology
  import opened ClusterEdits
  import opened Failure
  import opened ClusterState

  datatype Op =
    | BeginMigration(slot: Slot, peer: string)
    | FinishMigration(slot: Slot)
    | CommitMigration(slot: Slot)
    | BeginImport(slot: Slot, peer: string)
    | FinishImport(slot: Slot)
    | Assign(slot: Slot, peer: string)
    | Report(report: FailureReport, now: nat)
    | Promote(peer: string, epoch: u64)
    | Replace(topology: Topo)
    | Meet(node: NodeInfo)
    | Add(peer: string, slots: seq<Slot>)
    | Delete(peer: string, slots: seq<Slot>)
    | Forget(peer: string)
    | Reset(peer: string)

  /** The operation brings no overlap of its own; only a whole topology or a whole node could. */
  ghost predicate Admissible(nodes: seq<NodeInfo>, op: Op) {
    && (op.Replace? ==> Disjoint(op.topology.nodes))
    && (op.Meet? ==> Joinable(nodes, op.node) || exists i :: 0 <= i < |nodes| && nodes[i].id == op.node.id)
  }

  /** The operations that hand slots from node to node, and those that do not touch the topology. */
  predicate Transfers(op: Op) {
    !(op.Replace? || op.Meet? || op.Add? || op.Delete? || op.Forget? || op.Reset?)
  }

  ghost predicate NoTwoOwners(nodes: seq<NodeInfo>) {
    forall s: Slot, a: nat, b: nat :: a < |nodes| && b < |nodes| && Serves(nodes, a, s) && Serves(nodes, b, s) ==> a == b
  }

  /** What one operation may do to the topology. */
  ghost predicate Follows(before: Topo, op: Op, after: Topo) {
    && before.epoch <= after.epoch
    && (WellFormed(before.nodes) && Admissible(before.nodes, op) ==> WellFormed(after.nodes))
    && (WellFormed(before.nodes) && Transfers(op) && Complete(before.nodes) ==> Complete(after.nodes))
  }

  /** What an operation makes of the topology it finds; a commit and a promotion depend on more than that. */
  ghost predicate Effect(before: Topo, op: Op, after: Topo) {
    var nodes := before.nodes;
    var next: u64 := Min(before.epoch + 1, U64_MAX);
    match op
    case Assign(slot, peer) =>
      var to := IndexOf(nodes, peer);
      after == if to.Some? && !Covers(nodes[to.value].slots, slot) then Topology(next, AssignNodes(nodes, slot, to.value, next)) else before
    case CommitMigration(slot) =>
      var source := Owner(nodes, slot);
      after == before || (source.Some? && exists to: nat :: to < |nodes| && after == Topology(next, CommitNodes(nodes, slot, source.value, to, next)))
    case Promote(peer, epoch) =>
      var failed, best := IndexOf(nodes, peer), Best(nodes, peer, |nodes|);
      after == before || (epoch == before.epoch && failed.Some? && best.Some? && after == Topology(next, PromoteNodes(nodes, failed.value, best.value, next)))
    case Replace(t) => after == if t.epoch > before.epoch && IsValid(t) then t else before
    case Meet(node) => after == if IndexOf(nodes, node.id).Some? then before else Topology(next, nodes + [node])
    case Add(peer, slots) =>
      var at := IndexOf(nodes, peer);
      after == if at.Some? && Distinct(slots) && forall s :: s in slots ==> Unlisted(nodes, s)
               then Topology(next, Relisted(nodes, at.value, AddedSlots(nodes[at.value].slots, slots), next)) else before
    case Delete(peer, slots) =>
      var at := IndexOf(nodes, peer);
      after == if at.Some? then Topology(next, Relisted(nodes, at.value, RemovedAll(nodes[at.value].slots, slots), next)) else before
    case Forget(peer) =>
      var at := IndexOf(nodes, peer);
      after == if at.Some? then Topology(next, nodes[..at.value] + nodes[at.value + 1..]) else before
    case Reset(peer) =>
      var at := IndexOf(nodes, peer);
      after == Topology(next, if at.Some? then nodes[at.value := nodes[at.value].(slots := [])] else nodes)
    case _ => after == before
  }

  /** A primary of the current epoch that has a replica. */
  predicate Replaceable(t: Topo, peer: string, epoch: u64) {
    && epoch == t.epoch && IndexOf(t.nodes, peer).Some? && t.nodes[IndexOf(t.nodes, peer).value].role == Primary
    && Best(t.nodes, peer, |t.nodes|).Some?
  }

  predicate Deliverable(t: Topo, slot: Slot, target: string) {
    Owner(t.nodes, slot).Some? && IndexOf(t.nodes, target).Some?
  }

  method Step(c: ClusterState, op: Op)
    requires c.Valid()
    modifies c, c.failures
    ensures c.Valid()
    ensures Follows(old(c.topology), op, c.topology) && Effect(old(c.topology), op, c.topology)
    ensures op.CommitMigration? && op.slot in old(c.migrations) && Deliverable(old(c.topology), op.slot, old(c.migrations)[op.slot]) ==>
              c.topology != old(c.topology) || old(c.topology).epoch == U64_MAX
    ensures op.Promote? && old(c.failures.ReportCount(op.peer, op.epoch)) >= c.failures.quorum && Replaceable(old(c.topology), op.peer, op.epoch) ==>
              c.promoted == old(c.promoted) + [Promotion(op.peer, op.epoch)]
    ensures op.Report? ==> Filed(old(c.failures.evidence), c.failures.evidence, c.failures.retention, op.report, op.now)
    ensures op.BeginImport? && 0 < |op.peer| <= 256 ==> c.imports == old(c.imports)[op.slot := op.peer]
    ensures op.FinishImport? ==> c.imports == old(c.imports) - {op.slot}
    ensures op.FinishMigration? || op.CommitMigration? ==> c.migrations == old(c.migrations) - {op.slot}
    ensures op.BeginMigration? && 0 < |op.peer| <= 256 && Owner(old(c.topology).nodes, op.slot).Some? && IndexOf(old(c.topology).nodes, op.peer).Some? ==>
              c.migrations == old(c.migrations)[op.slot := op.peer]
    ensures old(c.promoted) <= c.promoted
  {
    hide Effect;
    hide Follows;
    hide Best;
    hide Filed;
    if op.CommitMigration? || op.Assign? || op.Promote? {
      TransferStep(c, op);
    } else if Transfers(op) {
      BookkeepingStep(c, op);
      NothingHappened(c.topology, op);
    } else if op.Add? || op.Delete? {
      ListStep(c, op);
    } else {
      AdminStep(c, op);
    }
  }

  method TransferStep(c: ClusterState, op: Op)
    requires c.Valid() && (op.CommitMigration? || op.Assign? || op.Promote?)
    modifies c
    ensures c.Valid()
    ensures Follows(old(c.topology), op, c.topology) && Effect(old(c.topology), op, c.topology)
    ensures op.CommitMigration? ==> c.migrations == old(c.migrations) - {op.slot}
    ensures op.CommitMigration? && op.slot in old(c.migrations) && Deliverable(old(c.topology), op.slot, old(c.migrations)[op.slot]) ==>
              c.topology != old(c.topology) || old(c.topology).epoch == U64_MAX
    ensures op.Promote? && old(c.failures.ReportCount(op.peer, op.epoch)) >= c.failures.quorum && Replaceable(old(c.topology), op.peer, op.epoch) ==>
              c.promoted == old(c.promoted) + [Promotion(op.peer, op.epoch)]
    ensures old(c.promoted) <= c.promoted
  {
    hide WellFormed;
    hide TableOf;
    hide Complete;
    hide Moved;
    hide CommitNodes;
    hide AssignNodes;
    hide PromoteNodes;
    hide Covers;
    hide Best;
    hide PromotedOnce;
    ghost var nodes := c.topology.nodes;
    var r;
    match op {
      case CommitMigration(slot) =>
        ghost var to := if slot in c.migrations then IndexOf(nodes, c.migrations[slot]) else None;
        r := c.CommitSlotMigration(slot);
        if r.Some? && WellFormed(nodes) && Complete(nodes) {
          MovedKeepsComplete(nodes, c.topology.nodes, slot, to.value);
        }
      case Assign(slot, peer) =>
        r := c.AssignSlot(slot, peer);
        if r.Some? && WellFormed(nodes) && Complete(nodes) {
          MovedKeepsComplete(nodes, c.topology.nodes, slot, IndexOf(nodes, peer).value);
        }
      case Promote(peer, epoch) =>
        BestExists(nodes, peer);
        r := c.PromoteReplica(peer, epoch);
        if r.Some? && WellFormed(nodes) && Complete(nodes) {
          PromoteKeepsComplete(nodes, IndexOf(nodes, peer).value, Best(nodes, peer, |nodes|).value, c.topology.epoch);
        }
    }
  }

  method BookkeepingStep(c: ClusterState, op: Op)
    requires c.Valid() && Transfers(op) && !(op.CommitMigration? || op.Assign? || op.Promote?)
    modifies c, c.failures
    ensures c.Valid() && c.topology == old(c.topology) && c.promoted == old(c.promoted)
    ensures op.Report? ==> Filed(old(c.failures.evidence), c.failures.evidence, c.failures.retention, op.report, op.now)
    ensures op.BeginImport? && 0 < |op.peer| <= 256 ==> c.imports == old(c.imports)[op.slot := op.peer]
    ensures op.FinishImport? ==> c.imports == old(c.imports) - {op.slot}
    ensures op.FinishMigration? ==> c.migrations == old(c.migrations) - {op.slot}
    ensures op.BeginMigration? && 0 < |op.peer| <= 256 && Owner(old(c.topology).nodes, op.slot).Some? && IndexOf(old(c.topology).nodes, op.peer).Some? ==>
              c.migrations == old(c.migrations)[op.slot := op.peer]
  {
    hide TableOf;
    hide PromotedOnce;
    match op {
      case BeginMigration(slot, peer) => var _ := c.BeginSlotMigration(slot, peer);
      case FinishMigration(slot) => c.FinishSlotMigration(slot);
      case BeginImport(slot, peer) => var _ := c.BeginSlotImport(slot, peer);
      case FinishImport(slot) => c.FinishSlotImport(slot);
      case Report(report, now) => var _ := c.RecordFailure(report, now);
    }
  }

  lemma NothingHappened(t: Topo, op: Op)
    requires Transfers(op) && !(op.CommitMigration? || op.Assign? || op.Promote?)
    ensures Follows(t, op, t) && Effect(t, op, t)
  {
  }

  method ListStep(c: ClusterState, op: Op)
    requires c.Valid() && (op.Add? || op.Delete?)
    modifies c
    ensures c.Valid()
    ensures Follows(old(c.topology), op, c.topology) && Effect(old(c.topology), op, c.topology)
    ensures old(c.promoted) <= c.promoted
  {
    hide WellFormed;
    hide TableOf;
    hide Complete;
    hide PromotedOnce;
    hide AddedSlots;
    hide RemovedAll;
    hide Relisted;
    hide Distinct;
    hide Unlisted;
    match op {
      case Add(peer, slots) => var _ := c.AddSlots(peer, slots);
      case Delete(peer, slots) => var _ := c.DelSlots(peer, slots);
    }
  }

  method AdminStep(c: ClusterState, op: Op)
    requires c.Valid() && !Transfers(op) && !(op.Add? || op.Delete?)
    modifies c
    ensures c.Valid()
    ensures Follows(old(c.topology), op, c.topology) && Effect(old(c.topology), op, c.topology)
    ensures old(c.promoted) <= c.promoted
  {
    hide WellFormed;
    hide TableOf;
    hide Complete;
    hide PromotedOnce;
    hide Joinable;
    hide Disjoint;
    match op {
      case Replace(t) => var _ := c.ReplaceTopology(t);
      case Meet(node) => var _ := c.MeetNode(node);
      case Forget(peer) => var _ := c.ForgetNode(peer);
      case Reset(peer) => c.ResetSlots(peer);
    }
  }

  /**
   Every run: epochs never fall; as long as no operation brings an overlap, no slot has two
   owners at any point; and a run of transfers that starts complete stays complete.
   */
  method Run(c: ClusterState, ops: seq<Op>) returns (ghost trace: seq<Topo>)
    requires c.Valid()
    modifies c, c.failures
    ensures c.Valid()
    ensures |trace| == |ops| + 1 && trace[0] == old(c.topology) && trace[|ops|] == c.topology
    ensures forall i :: 0 <= i < |ops| ==> Follows(trace[i], ops[i], trace[i + 1]) && Effect(trace[i], ops[i], trace[i + 1])
    ensures forall i, j :: 0 <= i <= j <= |ops| ==> trace[i].epoch <= trace[j].epoch
    ensures WellFormed(trace[0].nodes) && (forall i :: 0 <= i < |ops| ==> Admissible(trace[i].nodes, ops[i])) ==>
              forall i :: 0 <= i <= |ops| ==> NoTwoOwners(trace[i].nodes)
    ensures WellFormed(trace[0].nodes) && Complete(trace[0].nodes) && (forall i :: 0 <= i < |ops| ==> Transfers(ops[i])) ==>
              forall i :: 0 <= i <= |ops| ==> Complete(trace[i].nodes)
  {
    hide Follows;
    hide Effect;
    hide TableOf;
    trace := [c.topology];
    for k := 0 to |ops|
      invariant c.Valid()
      invariant |trace| == k + 1 && trace[0] == old(c.topology) && trace[k] == c.topology
      invariant forall i :: 0 <= i < k ==> Follows(trace[i], ops[i], trace[i + 1]) && Effect(trace[i], ops[i], trace[i + 1])
    {
      Step(c, ops[k]);
      trace := trace + [c.topology];
    }
    RunKeeps(trace, ops);
  }

  lemma RunKeeps(trace: seq<Topo>, ops: seq<Op>)
    requires |trace| == |ops| + 1 && forall i :: 0 <= i < |ops| ==> Follows(trace[i], ops[i], trace[i + 1])
    ensures forall i, j :: 0 <= i <= j <= |ops| ==> trace[i].epoch <= trace[j].epoch
    ensures WellFormed(trace[0].nodes) && (forall i :: 0 <= i < |ops| ==> Admissible(trace[i].nodes, ops[i])) ==>
              forall i :: 0 <= i <= |ops| ==> NoTwoOwners(trace[i].nodes)
    ensures WellFormed(trace[0].nodes) && Complete(trace[0].nodes) && (forall i :: 0 <= i < |ops| ==> Transfers(ops[i])) ==>
              forall i :: 0 <= i <= |ops| ==> Complete(trace[i].nodes)
  {
    hide WellFormed;
    hide Complete;
    hide Serves;
    forall i, j | 0 <= i <= j <= |ops| ensures trace[i].epoch <= trace[j].epoch {
      EpochsRise(trace, ops, i, j);
    }
    if WellFormed(trace[0].nodes) && forall i :: 0 <= i < |ops| ==> Admissible(trace[i].nodes, ops[i]) {
      forall i | 0 <= i <= |ops| ensures NoTwoOwners(trace[i].nodes) {
        StaysWellFormed(trace, ops, i);
        OwnersUnique(trace[i].nodes);
      }
    }
    if WellFormed(trace[0].nodes) && Complete(trace[0].nodes) && forall i :: 0 <= i < |ops| ==> Transfers(ops[i]) {
      forall i | 0 <= i <= |ops| ensures Complete(trace[i].nodes) {
        StaysComplete(trace, ops, i);
      }
    }
  }

  lemma OwnersUnique(nodes: seq<NodeInfo>)
    requires WellFormed(nodes)
    ensures NoTwoOwners(nodes)
  {
    hide Serves;
    forall s: Slot, a: nat, b: nat | a < |nodes| && b < |nodes| && Serves(nodes, a, s) && Serves(nodes, b, s) ensures a == b {
      OneOwner(nodes, a, b, s);
    }
  }

  lemma {:induction false} EpochsRise(trace: seq<Topo>, ops: seq<Op>, i: nat, j: nat)
    requires |trace| == |ops| + 1 && forall k :: 0 <= k < |ops| ==> Follows(trace[k], ops[k], trace[k + 1])
    requires i <= j <= |ops|
    ensures trace[i].epoch <= trace[j].epoch
  {
    hide WellFormed;
    hide Complete;
    if i < j {
      EpochsRise(trace, ops, i, j - 1);
      assert Follows(trace[j - 1], ops[j - 1], trace[j - 1 + 1]);
    }
  }

  lemma {:induction false} StaysWellFormed(trace: seq<Topo>, ops: seq<Op>, i: nat)
    requires |trace| == |ops| + 1 && forall k :: 0 <= k < |ops| ==> Follows(trace[k], ops[k], trace[k + 1])
    requires i <= |ops| && WellFormed(trace[0].nodes) && forall k :: 0 <= k < i ==> Admissible(trace[k].nodes, ops[k])
    ensures WellFormed(trace[i].nodes)
  {
    hide WellFormed;
    hide Complete;
    hide Admissible;
    if i > 0 {
      StaysWellFormed(trace, ops, i - 1);
      assert Follows(trace[i - 1], ops[i - 1], trace[i - 1 + 1]);
    }
  }

  lemma {:induction false} StaysComplete(trace: seq<Topo>, ops: seq<Op>, i: nat)
    requires |trace| == |ops| + 1 && forall k :: 0 <= k < |ops| ==> Follows(trace[k], ops[k], trace[k + 1])
    requires i <= |ops| && WellFormed(trace[0].nodes) && Complete(trace[0].nodes) && forall k :: 0 <= k < i ==> Transfers(ops[k])
    ensures Complete(trace[i].nodes)
  {
    hide WellFormed;
    hide Complete;
    if i > 0 {
      StaysComplete(trace, ops, i - 1);
      StaysWellFormed(trace, ops, i - 1);
      assert Follows(trace[i - 1], ops[i - 1], trace[i - 1 + 1]);
    }
  }
}
