/**
 The shared cluster state (src/cluster/state.rs): the installed topology with its routing
 table and version, slots being migrated or imported, and failure evidence. Every method is
 one atomic step. `Valid` holds in every reachable state; `Sound` (unique ids, no slot listed
 twice) holds in every state reached through topologies and nodes that bring no overlap with them.
 */
module ClusterState {
  import opened Wrappers
  import opened Words
  import opened Slots
  import opened Topology
  import opened ClusterEdits
  import opened Failure

  type Topo = Topology

  /** `is_valid`; its test of the ranges' order cannot fail. */
  ghost predicate IsValid(t: Topo) {
    && UniqueIds(t.nodes)
    && forall i :: 0 <= i < |t.nodes| ==> |t.nodes[i].id| <= 256 && |t.nodes[i].address| <= 512 && |t.nodes[i].clusterAddress| <= 512
  }

  ghost predicate TableOf(routing: seq<nat>, nodes: seq<NodeInfo>) {
    |routing| == HASH_SLOTS && forall s: Slot :: routing[s] == TableEntry(nodes, |nodes|, s)
  }

  datatype Promotion = Promotion(failed: string, epoch: u64)

  /** Each epoch below the saturation point promoted at most once, and before the current one. */
  ghost predicate PromotedOnce(promoted: seq<Promotion>, epoch: u64) {
    && (forall i :: 0 <= i < |promoted| ==> promoted[i].epoch < epoch || promoted[i].epoch == epoch == U64_MAX)
    && (forall i, j :: 0 <= i < j < |promoted| && promoted[j].epoch < U64_MAX ==> promoted[i].epoch < promoted[j].epoch)
  }

  lemma PromotedOnceLater(promoted: seq<Promotion>, epoch: u64, later: u64)
    requires PromotedOnce(promoted, epoch) && epoch <= later
    ensures PromotedOnce(promoted, later)
  {
  }

  /** Every promotion was backed by a quorum of distinct accusers of that primary at that epoch. */
  ghost predicate Backed(promoted: seq<Promotion>, reports: set<FailureReport>, quorum: nat) {
    forall i :: 0 <= i < |promoted| ==> |Accusers(reports, promoted[i].failed, promoted[i].epoch)| >= quorum
  }

  lemma BackedByMore(promoted: seq<Promotion>, reports: set<FailureReport>, more: set<FailureReport>, quorum: nat)
    requires Backed(promoted, reports, quorum) && reports <= more
    ensures Backed(promoted, more, quorum)
  {
    forall i | 0 <= i < |promoted| ensures |Accusers(more, promoted[i].failed, promoted[i].epoch)| >= quorum {
      SubsetSize(Accusers(reports, promoted[i].failed, promoted[i].epoch), Accusers(more, promoted[i].failed, promoted[i].epoch));
    }
  }

  lemma OneMore(promoted: seq<Promotion>, p: Promotion, reports: set<FailureReport>, quorum: nat)
    requires PromotedOnce(promoted, p.epoch) && Backed(promoted, reports, quorum)
    requires |Accusers(reports, p.failed, p.epoch)| >= quorum
    ensures PromotedOnce(promoted + [p], Min(p.epoch + 1, U64_MAX)) && Backed(promoted + [p], reports, quorum)
  {
  }

  class ClusterState {
    const failures: FailureTracker
    var topology: Topo
    var routing: seq<nat>
    var version: nat
    var migrations: map<Slot, string>
    var imports: map<Slot, string>
    var hasMigrations: bool
    var hasImports: bool

    /** Every promotion made so far. */
    ghost var promoted: seq<Promotion>

    ghost predicate Valid()
      reads this, failures
    {
      && failures.Valid()
      && TableOf(routing, topology.nodes)
      && (hasMigrations <==> migrations != map[])
      && (hasImports <==> imports != map[])
      && PromotedOnce(promoted, topology.epoch)
      && Backed(promoted, failures.reports, failures.quorum)
    }

    ghost predicate Sound()
      reads this
    {
      WellFormed(topology.nodes)
    }

    constructor (quorum: nat, retention: nat, topology: Topo)
      ensures Valid() && fresh(failures) && this.topology == topology && failures.quorum == Max(quorum, 1)
      ensures migrations == map[] && imports == map[] && promoted == [] && version == 1
    {
      var table := BuildTable(topology);
      failures := new FailureTracker(quorum, retention);
      this.topology, routing, version := topology, table, 1;
      migrations, imports, hasMigrations, hasImports, promoted := map[], map[], false, false, [];
    }

    /** `install_topology`: table, topology and version change together. */
    method Install(t: Topo)
      requires Valid() && topology.epoch <= t.epoch
      modifies this`topology, this`routing, this`version
      ensures Valid() && topology == t && version == old(version) + 1
    {
      hide TableEntry;
      PromotedOnceLater(promoted, topology.epoch, t.epoch);
      routing := BuildTable(t);
      topology := t;
      version := version + 1;
    }

    // ---- Migration ------------------------------------------------------------------

    method BeginSlotMigration(slot: Slot, target: string) returns (ok: bool)
      requires Valid()
      modifies this`migrations, this`hasMigrations
      ensures Valid()
      ensures ok <==> 0 < |target| <= 256 && Owner(topology.nodes, slot).Some? && IndexOf(topology.nodes, target).Some?
      ensures migrations == if ok then old(migrations)[slot := target] else old(migrations)
    {
      hide TableOf;
      hide Backed;
      ok := 0 < |target| <= 256 && Owner(topology.nodes, slot).Some? && IndexOf(topology.nodes, target).Some?;
      if ok {
        migrations := migrations[slot := target];
        hasMigrations := true;
        assert slot in migrations;
      }
    }

    method FinishSlotMigration(slot: Slot)
      requires Valid()
      modifies this`migrations, this`hasMigrations
      ensures Valid() && migrations == old(migrations) - {slot}
    {
      hide TableOf;
      hide Backed;
      migrations := migrations - {slot};
      if migrations == map[] {
        hasMigrations := false;
      }
    }

    method MigratingTarget(slot: Slot) returns (r: Option<string>)
      requires Valid()
      ensures r == if slot in migrations then Some(migrations[slot]) else None
    {
      if !hasMigrations {
        return None;
      }
      r := if slot in migrations then Some(migrations[slot]) else None;
    }

    method BeginSlotImport(slot: Slot, source: string) returns (ok: bool)
      requires Valid()
      modifies this`imports, this`hasImports
      ensures Valid() && (ok <==> 0 < |source| <= 256)
      ensures imports == if ok then old(imports)[slot := source] else old(imports)
    {
      hide TableOf;
      hide Backed;
      ok := 0 < |source| <= 256;
      if ok {
        imports := imports[slot := source];
        hasImports := true;
        assert slot in imports;
      }
    }

    method IsImporting(slot: Slot) returns (r: bool)
      requires Valid()
      ensures r <==> slot in imports
    {
      if !hasImports {
        return false;
      }
      r := slot in imports;
    }

    method FinishSlotImport(slot: Slot)
      requires Valid()
      modifies this`imports, this`hasImports
      ensures Valid() && imports == old(imports) - {slot}
    {
      hide TableOf;
      hide Backed;
      imports := imports - {slot};
      if imports == map[] {
        hasImports := false;
      }
    }

    /** `commit_slot_migration`: the pending slot moves from its owner to the recorded target. */
    method CommitSlotMigration(slot: Slot) returns (r: Option<Topo>)
      requires Valid()
      modifies this`topology, this`routing, this`version, this`migrations, this`hasMigrations
      ensures Valid() && (old(Sound()) ==> Sound())
      ensures migrations == old(migrations) - {slot}
      ensures r.Some? <==> && slot in old(migrations) && Owner(old(topology).nodes, slot).Some?
                           && IndexOf(old(topology).nodes, old(migrations)[slot]).Some?
      ensures r.None? ==> topology == old(topology) && version == old(version)
      ensures r.Some? ==> topology == r.value && topology.epoch == Min(old(topology).epoch + 1, U64_MAX) && version == old(version) + 1
      ensures r.Some? ==> topology.nodes == CommitNodes(old(topology).nodes, slot, Owner(old(topology).nodes, slot).value,
                                                        IndexOf(old(topology).nodes, old(migrations)[slot]).value, topology.epoch)
      ensures r.Some? && old(Sound()) ==> Moved(old(topology).nodes, topology.nodes, slot, IndexOf(old(topology).nodes, old(migrations)[slot]).value)
    {
      hide TableOf;
      hide Backed;
      hide WellFormed;
      hide CommitNodes;
      hide Moved;
      hide Covers;
      if slot !in migrations {
        assert migrations == migrations - {slot};
        return None;
      }
      var target := migrations[slot];
      FinishSlotMigration(slot);
      var source := Owner(topology.nodes, slot);
      var to := IndexOf(topology.nodes, target);
      if source.None? || to.None? {
        return None;
      }
      var epoch := Min(topology.epoch + 1, U64_MAX);
      var nodes := MoveSlot(topology.nodes, slot, source.value, to.value, epoch);
      Install(Topology(epoch, nodes));
      r := Some(topology);
    }

    /** `assign_slot`: the slot goes to the target from whoever lists it, unless the target lists it already. */
    method AssignSlot(slot: Slot, target: string) returns (r: Option<Topo>)
      requires Valid()
      modifies this`topology, this`routing, this`version
      ensures Valid() && (old(Sound()) ==> Sound())
      ensures r.Some? <==> IndexOf(old(topology).nodes, target).Some?
                           && !Covers(old(topology).nodes[IndexOf(old(topology).nodes, target).value].slots, slot)
      ensures r.None? ==> topology == old(topology) && version == old(version)
      ensures r.Some? ==> topology == r.value && topology.epoch == Min(old(topology).epoch + 1, U64_MAX) && version == old(version) + 1
      ensures r.Some? ==> topology.nodes == AssignNodes(old(topology).nodes, slot, IndexOf(old(topology).nodes, target).value, topology.epoch)
      ensures r.Some? && old(Sound()) ==> Moved(old(topology).nodes, topology.nodes, slot, IndexOf(old(topology).nodes, target).value)
    {
      hide TableOf;
      hide Backed;
      hide WellFormed;
      var to := IndexOf(topology.nodes, target);
      if to.None? || Covers(topology.nodes[to.value].slots, slot) {
        return None;
      }
      var epoch := Min(topology.epoch + 1, U64_MAX);
      var nodes := GiveSlot(topology.nodes, slot, to.value, epoch);
      Install(Topology(epoch, nodes));
      r := Some(topology);
    }

    // ---- Failover -------------------------------------------------------------------

    /**
     `promote_replica`: at the current epoch, with the quorum on file, the best replica of a
     primary takes over its slots. The epoch rises, so it cannot happen again at this one.
     */
    method PromoteReplica(failedId: string, epoch: u64) returns (r: Option<Topo>)
      requires Valid()
      modifies this`topology, this`routing, this`version, this`promoted
      ensures Valid() && (old(Sound()) ==> Sound())
      ensures var nodes := old(topology).nodes; var f := IndexOf(nodes, failedId);
              r.Some? <==> && failures.ReportCount(failedId, epoch) >= failures.quorum && epoch == old(topology).epoch
                           && f.Some? && nodes[f.value].role == Primary
                           && exists i :: 0 <= i < |nodes| && nodes[i].role == Replica && nodes[i].replicaOf == Some(failedId)
      ensures r.None? ==> topology == old(topology) && version == old(version) && promoted == old(promoted)
      ensures r.Some? ==> promoted == old(promoted) + [Promotion(failedId, epoch)] && topology.epoch == Min(epoch + 1, U64_MAX) && topology == r.value
      ensures r.Some? ==> Best(old(topology).nodes, failedId, |old(topology).nodes|).Some?
      ensures r.Some? ==> topology.nodes == PromoteNodes(old(topology).nodes, IndexOf(old(topology).nodes, failedId).value,
                                                         Best(old(topology).nodes, failedId, |old(topology).nodes|).value, topology.epoch)
    {
      hide TableOf;
      hide Backed;
      hide PromotedOnce;
      hide WellFormed;
      hide PromoteNodes;
      hide Best;
      BestExists(topology.nodes, failedId);
      if failures.ReportCount(failedId, epoch) < failures.quorum || topology.epoch != epoch {
        return None;
      }
      var failed := IndexOf(topology.nodes, failedId);
      if failed.None? || topology.nodes[failed.value].role != Primary {
        return None;
      }
      var best := Best(topology.nodes, failedId, |topology.nodes|);
      if best.None? {
        return None;
      }
      failures.CountedAccusers(failedId, epoch);
      OneMore(promoted, Promotion(failedId, epoch), failures.reports, failures.quorum);
      var next := Min(epoch + 1, U64_MAX);
      var nodes := HandOver(topology.nodes, failed.value, best.value, next);
      Install(Topology(next, nodes));
      promoted := promoted + [Promotion(failedId, epoch)];
      r := Some(topology);
    }

    // ---- Administration -------------------------------------------------------------

    /** `replace_topology`: only a valid topology of a later epoch is taken; it must bring no overlap of its own. */
    method ReplaceTopology(t: Topo) returns (ok: bool)
      requires Valid()
      modifies this`topology, this`routing, this`version
      ensures Valid() && (ok && Disjoint(t.nodes) ==> Sound()) && (!ok && old(Sound()) ==> Sound())
      ensures ok <==> t.epoch > old(topology).epoch && IsValid(t)
      ensures topology == (if ok then t else old(topology)) && version == old(version) + if ok then 1 else 0
    {
      hide TableOf;
      hide Backed;
      hide Disjoint;
      var accepted := CheckValid(t);
      if t.epoch <= topology.epoch || !accepted {
        return false;
      }
      Install(t);
      ok := true;
    }

    method RecordFailure(report: FailureReport, now: nat) returns (confirmed: bool)
      requires Valid()
      modifies failures
      ensures Valid() && failures.reports == old(failures.reports) + {report}
      ensures Filed(old(failures.evidence), failures.evidence, failures.retention, report, now)
      ensures confirmed <==> failures.ReportCount(report.target, report.epoch) >= failures.quorum
    {
      hide TableOf;
      hide Backed;
      BackedByMore(promoted, failures.reports, failures.reports + {report}, failures.quorum);
      confirmed := failures.Report(report, now);
    }

    /** `meet_node`: an unknown node joins as it is; soundness survives exactly when it brings no overlap. */
    method MeetNode(n: NodeInfo) returns (r: Option<Topo>)
      requires Valid()
      modifies this`topology, this`routing, this`version
      ensures Valid()
      ensures r.None? <==> IndexOf(old(topology).nodes, n.id).Some?
      ensures r.None? ==> topology == old(topology) && version == old(version)
      ensures r.Some? ==> topology == r.value == Topology(Min(old(topology).epoch + 1, U64_MAX), old(topology).nodes + [n])
      ensures old(Sound()) && r.Some? ==> (Sound() <==> Joinable(old(topology).nodes, n))
    {
      hide TableOf;
      hide Backed;
      hide WellFormed;
      if IndexOf(topology.nodes, n.id).Some? {
        return None;
      }
      if Sound() {
        MeetIsWellFormedIff(topology.nodes, n);
      }
      Install(Topology(Min(topology.epoch + 1, U64_MAX), topology.nodes + [n]));
      r := Some(topology);
    }

    /** `add_slots`: all of the slots are new to the whole cluster, or nothing changes. */
    method AddSlots(id: string, slots: seq<Slot>) returns (r: Option<Topo>)
      requires Valid()
      modifies this`topology, this`routing, this`version
      ensures Valid() && (old(Sound()) ==> Sound())
      ensures r.Some? <==> IndexOf(old(topology).nodes, id).Some? && Distinct(slots) && forall s :: s in slots ==> Unlisted(old(topology).nodes, s)
      ensures r.None? ==> topology == old(topology) && version == old(version)
      ensures r.Some? ==> topology == r.value && topology.epoch == Min(old(topology).epoch + 1, U64_MAX)
      ensures r.Some? ==> var idx := IndexOf(old(topology).nodes, id).value;
                          topology.nodes == Relisted(old(topology).nodes, idx, AddedSlots(old(topology).nodes[idx].slots, slots), topology.epoch)
    {
      hide TableOf;
      hide Backed;
      hide WellFormed;
      hide AddedSlots;
      var at := IndexOf(topology.nodes, id);
      if at.None? {
        return None;
      }
      var epoch := Min(topology.epoch + 1, U64_MAX);
      var nodes := ListSlots(topology.nodes, at.value, slots, epoch);
      if nodes.None? {
        return None;
      }
      AddKeeps(topology.nodes, at.value, slots, epoch);
      Install(Topology(epoch, nodes.value));
      r := Some(topology);
    }

    method DelSlots(id: string, slots: seq<Slot>) returns (r: Option<Topo>)
      requires Valid()
      modifies this`topology, this`routing, this`version
      ensures Valid() && (old(Sound()) ==> Sound())
      ensures r.Some? <==> IndexOf(old(topology).nodes, id).Some?
      ensures r.None? ==> topology == old(topology) && version == old(version)
      ensures r.Some? ==> topology == r.value && topology.epoch == Min(old(topology).epoch + 1, U64_MAX)
      ensures r.Some? ==> var idx := IndexOf(old(topology).nodes, id).value;
                          topology.nodes == Relisted(old(topology).nodes, idx, RemovedAll(old(topology).nodes[idx].slots, slots), topology.epoch)
    {
      hide TableOf;
      hide Backed;
      hide WellFormed;
      hide RemovedAll;
      var at := IndexOf(topology.nodes, id);
      if at.None? {
        return None;
      }
      var epoch := Min(topology.epoch + 1, U64_MAX);
      var ranges := RemoveSlots(topology.nodes[at.value].slots, slots);
      DelKeeps(topology.nodes, at.value, slots, epoch);
      Install(Topology(epoch, Relisted(topology.nodes, at.value, ranges, epoch)));
      r := Some(topology);
    }

    method ForgetNode(id: string) returns (r: Option<Topo>)
      requires Valid()
      modifies this`topology, this`routing, this`version
      ensures Valid() && (old(Sound()) ==> Sound())
      ensures r.Some? <==> IndexOf(old(topology).nodes, id).Some?
      ensures r.None? ==> topology == old(topology) && version == old(version)
      ensures r.Some? ==> var idx := IndexOf(old(topology).nodes, id).value;
                          topology == r.value == Topology(Min(old(topology).epoch + 1, U64_MAX), old(topology).nodes[..idx] + old(topology).nodes[idx + 1..])
    {
      hide TableOf;
      hide Backed;
      hide WellFormed;
      var at := IndexOf(topology.nodes, id);
      if at.None? {
        return None;
      }
      if Sound() {
        ForgetIsWellFormed(topology.nodes, at.value);
      }
      Install(Topology(Min(topology.epoch + 1, U64_MAX), topology.nodes[..at.value] + topology.nodes[at.value + 1..]));
      r := Some(topology);
    }

    /** `reset_slots`: the epoch rises even if the node is unknown. */
    method ResetSlots(id: string)
      requires Valid()
      modifies this`topology, this`routing, this`version
      ensures Valid() && (old(Sound()) ==> Sound())
      ensures topology.epoch == Min(old(topology).epoch + 1, U64_MAX)
      ensures var nodes := old(topology).nodes; var at := IndexOf(nodes, id);
              topology.nodes == if at.Some? then nodes[at.value := nodes[at.value].(slots := [])] else nodes
    {
      hide TableOf;
      hide Backed;
      hide WellFormed;
      var at := IndexOf(topology.nodes, id);
      var nodes := topology.nodes;
      if at.Some? {
        nodes := nodes[at.value := nodes[at.value].(slots := [])];
        ResetKeeps(topology.nodes, at.value);
      }
      Install(Topology(Min(topology.epoch + 1, U64_MAX), nodes));
    }
  }

  ghost predicate Distinct(slots: seq<Slot>) {
    forall i, j :: 0 <= i < j < |slots| ==> slots[i] != slots[j]
  }

  ghost predicate Unlisted(nodes: seq<NodeInfo>, s: Slot) {
    forall i: nat :: i < |nodes| ==> Share(nodes, i, s) == 0
  }

  /** Halfway through `add_slots` the lists cover what they covered, plus the slots already added. */
  lemma ListedWhileAdding(nodes: seq<NodeInfo>, idx: nat, added: seq<Slot>, s: Slot)
    requires idx < |nodes| && Distinct(added)
    ensures var now := nodes[idx := nodes[idx].(slots := nodes[idx].slots + Singles(added))];
            (exists n :: 0 <= n < |now| && Covers(now[n].slots, s)) <==> !Unlisted(nodes, s) || s in added
  {
    hide Count;
    var now := nodes[idx := nodes[idx].(slots := nodes[idx].slots + Singles(added))];
    SinglesCount(added, s);
    CountConcat(nodes[idx].slots, Singles(added), s);
    forall n: nat | n < |nodes| ensures Covers(now[n].slots, s) <==> Share(nodes, n, s) != 0 || (n == idx && s in added) {
    }
    if !Unlisted(nodes, s) {
      var n: nat :| n < |nodes| && Share(nodes, n, s) != 0;
      assert Covers(now[n].slots, s);
    } else if s in added {
      assert Covers(now[idx].slots, s);
    }
  }

  lemma NotAllNew(nodes: seq<NodeInfo>, slots: seq<Slot>, i: nat)
    requires i < |slots| && (!Unlisted(nodes, slots[i]) || slots[i] in slots[..i])
    ensures !Distinct(slots) || exists s :: s in slots && !Unlisted(nodes, s)
  {
    if slots[i] in slots[..i] {
      var j :| 0 <= j < i && slots[j] == slots[i];
    } else {
      assert slots[i] in slots;
    }
  }

  lemma AddKeeps(nodes: seq<NodeInfo>, idx: nat, slots: seq<Slot>, epoch: u64)
    requires idx < |nodes|
    requires Distinct(slots) && forall s :: s in slots ==> Unlisted(nodes, s)
    ensures var after := Relisted(nodes, idx, AddedSlots(nodes[idx].slots, slots), epoch);
            WellFormed(nodes) ==> WellFormed(after)
  {
    hide Count;
    hide Compacted;
    hide Slots.Sorted;
    var ranges := AddedSlots(nodes[idx].slots, slots);
    AddedSlotsCount(nodes[idx].slots, slots, 0);
    if WellFormed(nodes) {
      forall s: Slot ensures Count(ranges, s) == Share(nodes, idx, s) + if s in slots then 1 else 0 {
        AddedSlotsCount(nodes[idx].slots, slots, s);
      }
      forall s: Slot ensures Count(ranges, s) <= 1 {
        assert s in slots ==> Unlisted(nodes, s);
        assert Share(nodes, idx, s) <= 1;
      }
      RelistedIsWellFormed(nodes, idx, ranges, epoch);
    }
  }

  lemma DelKeeps(nodes: seq<NodeInfo>, idx: nat, slots: seq<Slot>, epoch: u64)
    requires idx < |nodes|
    ensures var after := Relisted(nodes, idx, RemovedAll(nodes[idx].slots, slots), epoch);
            WellFormed(nodes) ==> WellFormed(after)
  {
    hide Count;
    hide Removed;
    hide RemovedAll;
    var ranges := RemovedAll(nodes[idx].slots, slots);
    RemovedAllCount(nodes[idx].slots, slots, 0);
    if WellFormed(nodes) {
      forall s: Slot ensures Count(ranges, s) == if s in slots then 0 else Share(nodes, idx, s) {
        RemovedAllCount(nodes[idx].slots, slots, s);
      }
      forall s: Slot ensures Count(ranges, s) <= 1 {
        assert Share(nodes, idx, s) <= 1;
      }
      RelistedIsWellFormed(nodes, idx, ranges, epoch);
    }
  }

  lemma ResetKeeps(nodes: seq<NodeInfo>, idx: nat)
    requires idx < |nodes|
    ensures var after := nodes[idx := nodes[idx].(slots := [])];
            WellFormed(nodes) ==> WellFormed(after)
  {
    hide Count;
    var after := nodes[idx := nodes[idx].(slots := [])];
    assert after == Relisted(nodes, idx, [], nodes[idx].epoch);
    if WellFormed(nodes) {
      forall s: Slot ensures Count([], s) == 0 {
        EmptyCount(s);
      }
      RelistedIsWellFormed(nodes, idx, [], nodes[idx].epoch);
    }
  }

  lemma EmptyCount(s: Slot)
    ensures Count([], s) == 0
  {
  }

  // ---- The edits, on a copy of the node list ------------------------------------------

  method MoveSlot(nodes: seq<NodeInfo>, slot: Slot, source: nat, target: nat, epoch: u64) returns (after: seq<NodeInfo>)
    requires source < |nodes| && target < |nodes| && Covers(nodes[source].slots, slot)
    ensures after == CommitNodes(nodes, slot, source, target, epoch)
    ensures WellFormed(nodes) ==> Moved(nodes, after, slot, target) && WellFormed(after)
  {
    hide Removed;
    hide WellFormed;
    hide Covers;
    after := nodes;
    var cut := RemoveSlot(after[source].slots, slot);
    after := after[source := after[source].(slots := cut, epoch := epoch)];
    after := after[target := AsPrimary(after[target], after[target].slots + [Single(slot)], epoch)];
    if WellFormed(nodes) {
      CommitMoves(nodes, slot, source, target, epoch);
      MovedIsWellFormed(nodes, after, slot, target);
    }
  }

  method GiveSlot(nodes: seq<NodeInfo>, slot: Slot, target: nat, epoch: u64) returns (after: seq<NodeInfo>)
    requires target < |nodes|
    ensures after == AssignNodes(nodes, slot, target, epoch)
    ensures WellFormed(nodes) ==> Moved(nodes, after, slot, target) && WellFormed(after)
  {
    hide Removed;
    hide Compacted;
    hide Slots.Sorted;
    hide WellFormed;
    after := TakeFromAll(nodes, slot);
    var ranges := CompactRanges(Slots.Sorted(after[target].slots + [Single(slot)]));
    after := after[target := AsPrimary(after[target], ranges, epoch)];
    if WellFormed(nodes) {
      AssignMoves(nodes, slot, target, epoch);
      MovedIsWellFormed(nodes, after, slot, target);
    }
  }

  method HandOver(nodes: seq<NodeInfo>, failed: nat, replica: nat, epoch: u64) returns (after: seq<NodeInfo>)
    requires failed < |nodes| && replica < |nodes| && failed != replica
    ensures after == PromoteNodes(nodes, failed, replica, epoch)
    ensures WellFormed(nodes) ==> WellFormed(after)
  {
    hide WellFormed;
    var slots := nodes[failed].slots;
    after := nodes[failed := nodes[failed].(slots := [], epoch := epoch)];
    after := after[replica := AsPrimary(after[replica], slots, epoch)];
    if WellFormed(nodes) {
      PromoteIsWellFormed(nodes, failed, replica, epoch);
    }
  }

  method ListSlots(nodes: seq<NodeInfo>, idx: nat, slots: seq<Slot>, epoch: u64) returns (r: Option<seq<NodeInfo>>)
    requires idx < |nodes|
    ensures r.Some? <==> Distinct(slots) && forall s :: s in slots ==> Unlisted(nodes, s)
    ensures r.Some? ==> r.value == Relisted(nodes, idx, AddedSlots(nodes[idx].slots, slots), epoch)
  {
    hide Count;
    hide Covers;
    hide Compacted;
    hide Slots.Sorted;
    hide Unlisted;
    var after := nodes;
    assert nodes[idx].slots + Singles(slots[..0]) == nodes[idx].slots;
    for i := 0 to |slots|
      invariant after == nodes[idx := nodes[idx].(slots := nodes[idx].slots + Singles(slots[..i]))]
      invariant Distinct(slots[..i]) && forall s :: s in slots[..i] ==> Unlisted(nodes, s)
    {
      assert slots[..i + 1] == slots[..i] + [slots[i]];
      ListedWhileAdding(nodes, idx, slots[..i], slots[i]);
      if exists n :: 0 <= n < |after| && Covers(after[n].slots, slots[i]) {
        NotAllNew(nodes, slots, i);
        return None;
      }
      after := after[idx := after[idx].(slots := after[idx].slots + [Single(slots[i])])];
      assert slots[..i + 1][..i] == slots[..i];
      assert after[idx].slots == nodes[idx].slots + Singles(slots[..i + 1]);
    }
    assert slots[..|slots|] == slots;
    var compact := CompactRanges(Slots.Sorted(after[idx].slots));
    r := Some(after[idx := after[idx].(slots := compact, epoch := epoch)]);
  }

  method RemoveSlots(ranges: seq<SlotRange>, slots: seq<Slot>) returns (r: seq<SlotRange>)
    ensures r == RemovedAll(ranges, slots)
  {
    hide Removed;
    r := ranges;
    for i := 0 to |slots|
      invariant r == RemovedAll(ranges, slots[..i])
    {
      assert slots[..i + 1][..i] == slots[..i];
      r := RemoveSlot(r, slots[i]);
    }
    assert slots[..|slots|] == slots;
  }

  lemma BestExists(nodes: seq<NodeInfo>, failed: string)
    ensures Best(nodes, failed, |nodes|).Some? <==> exists i :: 0 <= i < |nodes| && nodes[i].role == Replica && nodes[i].replicaOf == Some(failed)
  {
    hide Best;
    BestIsBest(nodes, failed, |nodes|);
  }

  /** The loop of `assign_slot` over all nodes. */
  method TakeFromAll(nodes: seq<NodeInfo>, slot: Slot) returns (out: seq<NodeInfo>)
    ensures out == WithoutSlot(nodes, slot)
  {
    hide Removed;
    out := nodes;
    for i := 0 to |nodes|
      invariant |out| == |nodes|
      invariant forall j :: 0 <= j < i ==> out[j] == WithoutSlot(nodes, slot)[j]
      invariant forall j :: i <= j < |nodes| ==> out[j] == nodes[j]
    {
      if Covers(out[i].slots, slot) {
        var cut := RemoveSlot(out[i].slots, slot);
        out := out[i := out[i].(slots := cut)];
      }
    }
  }

  /** `is_valid` as the two passes over the nodes that compute it. */
  method CheckValid(t: Topo) returns (ok: bool)
    ensures ok <==> IsValid(t)
  {
    var seen: set<string> := {};
    for i := 0 to |t.nodes|
      invariant forall j :: 0 <= j < i ==> |t.nodes[j].id| <= 256 && |t.nodes[j].address| <= 512 && |t.nodes[j].clusterAddress| <= 512
      invariant forall id :: id in seen <==> exists j :: 0 <= j < i && t.nodes[j].id == id
      invariant forall j, k :: 0 <= j < k < i ==> t.nodes[j].id != t.nodes[k].id
    {
      var n := t.nodes[i];
      if !(|n.id| <= 256 && |n.address| <= 512 && |n.clusterAddress| <= 512) {
        return false;
      }
      if n.id in seen {
        return false;
      }
      seen := seen + {n.id};
    }
    ok := true;
  }

}
