/**
 Routing decisions (src/cluster/routing.rs): a command goes to its keys' common slot, and
 the slot to a node. The pattern of key arguments is an input; the command table that finds
 it is not modelled.
 */
module Routing {
  import opened Wrappers
  import opened Words
  import opened Slots
  import opened Topology
  import opened ClusterEdits
  import Crc16

  datatype RouteDecision =
    | Local
    | Moved(slot: Slot, address: string)
    | MovedNode(slot: Slot, node: nat)
    | Ask(slot: Slot, node: nat)
    | CrossSlot
    | Unassigned(slot: Slot)

  datatype KeyPattern = All | EveryOther | FirstTwo | First {

    function Take(len: nat): nat {
      match this
      case FirstTwo => Min(len, 2)
      case First => Min(len, 1)
      case _ => len
    }

    function Step(): nat {
      if this == EveryOther then 2 else 1
    }

    function Indices(len: nat): seq<nat> {
      StepBy(0, Take(len), Step())
    }
  }

  function StepBy(start: nat, end: nat, step: nat): seq<nat>
    requires step > 0
    decreases end - start
  {
    if start >= end then [] else [start] + StepBy(start + step, end, step)
  }

  /** The members of a range in steps of one or two; a non-empty one begins at its start. */
  lemma {:induction false} StepByMembers(start: nat, end: nat, step: nat, i: nat)
    requires step == 1 || step == 2
    ensures i in StepBy(start, end, step) <==> start <= i < end && (step == 2 ==> (i - start) % 2 == 0)
    ensures start < end ==> StepBy(start, end, step)[0] == start
    decreases end - start
  {
    if start < end {
      StepByMembers(start + step, end, step, i);
    }
  }

  // ---- From a command to a slot -----------------------------------------------------

  datatype Config = Config(enabled: bool, localId: string)

  /** Where the keys of a command point, before ownership is looked up. */
  datatype Target = Anywhere | Everywhere | At(slot: Slot)

  function SlotOf(key: seq<byte>): Slot {
    Crc16.HashSlot(key)
  }

  function KeysTarget(config: Config, pattern: Option<KeyPattern>, args: seq<seq<byte>>): Target {
    if !config.enabled || pattern.None? then Anywhere
    else
      var indices := pattern.value.Indices(|args|);
      if indices == [] then Anywhere
      else
        IndicesInRange(pattern.value, |args|);
        var slot := SlotOf(args[indices[0]]);
        if exists k :: 0 < k < |indices| && SlotOf(args[indices[k]]) != slot then Everywhere else At(slot)
  }

  lemma IndicesInRange(pattern: KeyPattern, len: nat)
    ensures forall k :: 0 <= k < |pattern.Indices(len)| ==> pattern.Indices(len)[k] < len
  {
    forall k | 0 <= k < |pattern.Indices(len)| ensures pattern.Indices(len)[k] < len {
      StepByMembers(0, pattern.Take(len), pattern.Step(), pattern.Indices(len)[k]);
    }
  }

  predicate KeyAt(pattern: KeyPattern, len: nat, i: nat) {
    i < len && match pattern {
      case All => true
      case EveryOther => i % 2 == 0
      case FirstTwo => i < 2
      case First => i < 1
    }
  }

  /** A command has a slot exactly when it has a key and all of its keys hash there. */
  lemma TargetIsCommonSlot(config: Config, pattern: KeyPattern, args: seq<seq<byte>>, slot: Slot)
    requires config.enabled
    ensures KeysTarget(config, Some(pattern), args) == At(slot)
       <==> args != [] && forall i: nat :: KeyAt(pattern, |args|, i) ==> SlotOf(args[i]) == slot
    ensures KeysTarget(config, Some(pattern), args) == Anywhere <==> args == []
  {
    hide StepBy;
    var indices := pattern.Indices(|args|);
    IndicesInRange(pattern, |args|);
    forall i: nat ensures i in indices <==> KeyAt(pattern, |args|, i) {
      StepByMembers(0, pattern.Take(|args|), pattern.Step(), i);
    }
    if args != [] {
      assert KeyAt(pattern, |args|, 0);
      if KeysTarget(config, Some(pattern), args) == At(slot) {
        forall i: nat | KeyAt(pattern, |args|, i) ensures SlotOf(args[i]) == slot {
          assert i in indices;
          var k :| 0 <= k < |indices| && indices[k] == i;
        }
      } else {
        assert indices[0] in indices;
        if KeysTarget(config, Some(pattern), args) == Everywhere {
          var k :| 0 < k < |indices| && SlotOf(args[indices[k]]) != SlotOf(args[indices[0]]);
          assert indices[k] in indices;
        }
      }
    }
  }

  // ---- From a slot to a node --------------------------------------------------------

  /** `route_command_with_topology`: the owner is found by scanning the nodes. */
  function RouteByScan(config: Config, nodes: seq<NodeInfo>, pattern: Option<KeyPattern>, args: seq<seq<byte>>): RouteDecision {
    match KeysTarget(config, pattern, args)
    case Anywhere => Local
    case Everywhere => CrossSlot
    case At(slot) =>
      match Owner(nodes, slot)
      case Some(i) => if nodes[i].id == config.localId then Local else Moved(slot, nodes[i].address)
      case None => Unassigned(slot)
  }

  /** The slots a node is moving out, with their targets, and those it is taking in. */
  datatype Transit = Transit(migrations: map<Slot, string>, imports: set<Slot>)

  /** Where the node would send a slot that it owns and is moving out, if it knows the target. */
  function AskTarget(transit: Transit, nodes: seq<NodeInfo>, slot: Slot): Option<nat> {
    if slot in transit.migrations then IndexOf(nodes, transit.migrations[slot]) else None
  }

  /** `resolve_slot`. */
  function ResolveSlot(config: Config, transit: Transit, nodes: seq<NodeInfo>, owners: seq<nat>, slot: Slot, allowImport: bool): RouteDecision
    requires TableFor(nodes, owners)
  {
    if allowImport && slot in transit.imports then Local
    else
      TableMatchesScan(nodes, owners, slot);
      match OwnerIndex(owners, slot)
      case None => Unassigned(slot)
      case Some(i) =>
        if nodes[i].id != config.localId then MovedNode(slot, i)
        else match AskTarget(transit, nodes, slot)
          case Some(j) => Ask(slot, j)
          case None => Local
  }

  /** The table was built from these nodes, and they fit in it. */
  ghost predicate TableFor(nodes: seq<NodeInfo>, owners: seq<nat>) {
    |nodes| <= UNASSIGNED && |owners| == HASH_SLOTS && forall s: Slot :: owners[s] == TableEntry(nodes, |nodes|, s)
  }

  /** `route_command_with_snapshot`: the owner is read from the table. */
  function RouteBySnapshot(config: Config, transit: Transit, nodes: seq<NodeInfo>, owners: seq<nat>,
                           pattern: Option<KeyPattern>, args: seq<seq<byte>>, allowImport: bool): RouteDecision
    requires TableFor(nodes, owners)
  {
    match KeysTarget(config, pattern, args)
    case Anywhere => Local
    case Everywhere => CrossSlot
    case At(slot) => ResolveSlot(config, transit, nodes, owners, slot, allowImport)
  }

  /** `route_single_key`: no argument list is built. */
  function RouteSingleKey(config: Config, transit: Transit, nodes: seq<NodeInfo>, owners: seq<nat>, key: seq<byte>, allowImport: bool): RouteDecision
    requires TableFor(nodes, owners)
  {
    if !config.enabled then Local else ResolveSlot(config, transit, nodes, owners, SlotOf(key), allowImport)
  }

  /** Two key arguments hash to different slots. */
  ghost predicate Crossing(pattern: KeyPattern, args: seq<seq<byte>>) {
    exists i: nat, j: nat :: KeyAt(pattern, |args|, i) && KeyAt(pattern, |args|, j) && SlotOf(args[i]) != SlotOf(args[j])
  }

  /** What a command's keys decide before any topology is looked at. */
  lemma TargetKinds(config: Config, pattern: Option<KeyPattern>, args: seq<seq<byte>>)
    ensures KeysTarget(config, pattern, args) == Anywhere <==> !config.enabled || pattern.None? || args == []
    ensures KeysTarget(config, pattern, args) == Everywhere <==> config.enabled && pattern.Some? && Crossing(pattern.value, args)
  {
    if config.enabled && pattern.Some? && args != [] {
      hide KeysTarget;
      var target, p := KeysTarget(config, pattern, args), pattern.value;
      var first := SlotOf(args[0]);
      assert KeyAt(p, |args|, 0);
      TargetIsCommonSlot(config, p, args, first);
      if target.At? {
        TargetIsCommonSlot(config, p, args, target.slot);
      }
    }
  }

  /**
   What both routers answer. Without clustering, keys or arguments the command runs here; keys
   of different slots are refused.
   */
  lemma KeysDecide(config: Config, transit: Transit, nodes: seq<NodeInfo>, owners: seq<nat>,
                   pattern: Option<KeyPattern>, args: seq<seq<byte>>, allowImport: bool)
    requires TableFor(nodes, owners)
    ensures var scan := RouteByScan(config, nodes, pattern, args);
            var snapshot := RouteBySnapshot(config, transit, nodes, owners, pattern, args, allowImport);
            && (!config.enabled || pattern.None? || args == [] ==> scan == Local && snapshot == Local)
            && (scan == CrossSlot <==> config.enabled && pattern.Some? && Crossing(pattern.value, args))
            && (snapshot == CrossSlot <==> config.enabled && pattern.Some? && Crossing(pattern.value, args))
  {
    hide KeysTarget;
    hide Crossing;
    hide TableFor;
    TargetKinds(config, pattern, args);
  }

  /**
   And for a command whose keys all hash to `slot`: the scan names the owner; the table does
   too, but a slot taken in here runs here for a client that asks, and a slot owned here and
   moving to a known node is asked for there.
   */
  lemma SlotDecides(config: Config, transit: Transit, nodes: seq<NodeInfo>, owners: seq<nat>,
                    pattern: KeyPattern, args: seq<seq<byte>>, allowImport: bool, slot: Slot)
    requires TableFor(nodes, owners) && config.enabled && args != []
    requires forall i: nat :: KeyAt(pattern, |args|, i) ==> SlotOf(args[i]) == slot
    ensures var owner := Owner(nodes, slot);
            RouteByScan(config, nodes, Some(pattern), args)
            == if owner.None? then Unassigned(slot)
               else if nodes[owner.value].id == config.localId then Local else Moved(slot, nodes[owner.value].address)
    ensures var owner := Owner(nodes, slot); var snapshot := RouteBySnapshot(config, transit, nodes, owners, Some(pattern), args, allowImport);
            && (allowImport && slot in transit.imports ==> snapshot == Local)
            && (!(allowImport && slot in transit.imports) ==>
                  && (owner.None? ==> snapshot == Unassigned(slot))
                  && (owner.Some? && nodes[owner.value].id != config.localId ==> snapshot == MovedNode(slot, owner.value))
                  && (owner.Some? && nodes[owner.value].id == config.localId ==>
                        && (snapshot == Local <==> slot in transit.migrations ==> forall j :: 0 <= j < |nodes| ==> nodes[j].id != transit.migrations[slot])
                        && (snapshot != Local ==> snapshot.Ask? && snapshot.slot == slot && snapshot.node < |nodes|
                                                  && nodes[snapshot.node].id == transit.migrations[slot])))
  {
    hide KeysTarget;
    hide TableFor;
    TargetIsCommonSlot(config, pattern, args, slot);
    TableOwner(nodes, owners, slot);
  }

  /** For commands whose first argument is their only key, the short cut decides the same. */
  lemma SingleKeyAgrees(config: Config, transit: Transit, nodes: seq<NodeInfo>, owners: seq<nat>, args: seq<seq<byte>>, allowImport: bool)
    requires TableFor(nodes, owners) && args != []
    ensures RouteSingleKey(config, transit, nodes, owners, args[0], allowImport)
         == RouteBySnapshot(config, transit, nodes, owners, Some(First), args, allowImport)
  {
    hide TableFor;
    hide KeysTarget;
    if config.enabled {
      TargetIsCommonSlot(config, First, args, SlotOf(args[0]));
    } else {
      DisabledIsLocal(config, args);
    }
  }

  lemma DisabledIsLocal(config: Config, args: seq<seq<byte>>)
    requires !config.enabled
    ensures KeysTarget(config, Some(First), args) == Anywhere
  {
  }

  /** A redirect by node index, written out as a redirect by address. */
  function Rendered(d: RouteDecision, nodes: seq<NodeInfo>): RouteDecision {
    if d.MovedNode? && d.node < |nodes| then Moved(d.slot, nodes[d.node].address) else d
  }

  predicate Owns(config: Config, nodes: seq<NodeInfo>, slot: Slot) {
    Owner(nodes, slot).Some? && nodes[Owner(nodes, slot).value].id == config.localId
  }

  /** The slot is in transit in a way that changes this node's answer. */
  predicate Diverted(config: Config, transit: Transit, nodes: seq<NodeInfo>, target: Target, allowImport: bool) {
    && target.At?
    && if allowImport && target.slot in transit.imports then !Owns(config, nodes, target.slot)
       else Owns(config, nodes, target.slot) && AskTarget(transit, nodes, target.slot).Some?
  }

  /**
   The table gives the decision of the scan, for every command, except for a slot in
   transit: one taken in here for a client that asked, unless it is owned here anyway, and
   one owned here and moving out to a known node.
   */
  lemma SnapshotMatchesScan(config: Config, transit: Transit, nodes: seq<NodeInfo>, owners: seq<nat>,
                            pattern: Option<KeyPattern>, args: seq<seq<byte>>, allowImport: bool)
    requires TableFor(nodes, owners)
    ensures Rendered(RouteBySnapshot(config, transit, nodes, owners, pattern, args, allowImport), nodes) == RouteByScan(config, nodes, pattern, args)
       <==> !Diverted(config, transit, nodes, KeysTarget(config, pattern, args), allowImport)
  {
    hide KeysTarget;
    hide TableFor;
    var target := KeysTarget(config, pattern, args);
    if target.At? {
      TableOwner(nodes, owners, target.slot);
    }
  }

  lemma TableOwner(nodes: seq<NodeInfo>, owners: seq<nat>, slot: Slot)
    requires TableFor(nodes, owners)
    ensures OwnerIndex(owners, slot) == Owner(nodes, slot)
  {
    TableMatchesScan(nodes, owners, slot);
  }

  // ---- Following redirects ----------------------------------------------------------

  /** One topology shared by all nodes, and each node's own slots in transit. */
  datatype Cluster = Cluster(nodes: seq<NodeInfo>, owners: seq<nat>, transit: seq<Transit>) {
    ghost predicate Valid() {
      TableFor(nodes, owners) && UniqueIds(nodes) && |transit| == |nodes|
    }

    /** What node `at` answers about a slot. */
    function Answer(at: nat, slot: Slot, asking: bool): RouteDecision
      requires Valid() && at < |nodes|
    {
      ResolveSlot(Config(true, nodes[at].id), transit[at], nodes, owners, slot, asking)
    }

    /** The node that answers Local to a client that follows up to `k` redirects; ASK sets the flag for one command. */
    function Follow(at: nat, slot: Slot, asking: bool, k: nat): Option<nat>
      requires Valid() && at < |nodes|
      decreases k
    {
      AnswersKnown(this, at, slot, asking);
      match Answer(at, slot, asking)
      case Local => Some(at)
      case MovedNode(_, j) => if k == 0 then None else Follow(j, slot, false, k - 1)
      case Ask(_, j) => if k == 0 then None else Follow(j, slot, true, k - 1)
      case _ => None
    }

    /** The node that holds the slot for a client: its owner, or where the owner moves it. */
    function Holder(slot: Slot): Option<nat>
      requires Valid()
    {
      match Owner(nodes, slot)
      case None => None
      case Some(o) => if AskTarget(transit[o], nodes, slot).Some? then AskTarget(transit[o], nodes, slot) else Some(o)
    }

    /** The slot is assigned and, if on its way out to a known node, that node is taking it in. */
    predicate Settled(slot: Slot)
      requires Valid()
    {
      match Owner(nodes, slot)
      case None => false
      case Some(o) => match AskTarget(transit[o], nodes, slot) { case None => true case Some(j) => slot in transit[j].imports }
    }
  }

  /** What a node answers, in terms of the slot's owner. */
  lemma AnswersKnown(c: Cluster, at: nat, slot: Slot, asking: bool)
    requires c.Valid() && at < |c.nodes|
    ensures c.Answer(at, slot, asking)
         == if asking && slot in c.transit[at].imports then Local
            else match Owner(c.nodes, slot)
              case None => Unassigned(slot)
              case Some(o) =>
                if o != at then MovedNode(slot, o)
                else match AskTarget(c.transit[o], c.nodes, slot) { case Some(j) => Ask(slot, j) case None => Local }
  {
    hide TableFor;
    TableOwner(c.nodes, c.owners, slot);
  }

  /** Without ASKING only the slot's owner answers Local, and it does so unless the slot moves to a known node. */
  lemma LocalWithoutAsking(c: Cluster, at: nat, slot: Slot)
    requires c.Valid() && at < |c.nodes|
    ensures c.Answer(at, slot, false) == Local
       <==> Owner(c.nodes, slot) == Some(at) && AskTarget(c.transit[at], c.nodes, slot).None?
  {
    hide TableFor;
    AnswersKnown(c, at, slot, false);
  }

  /** From any node, at most two redirects lead to the node that holds a settled slot. */
  lemma RedirectsReachHolder(c: Cluster, at: nat, slot: Slot, k: nat)
    requires c.Valid() && at < |c.nodes| && c.Settled(slot) && k >= 2
    ensures c.Follow(at, slot, false, k) == c.Holder(slot)
  {
    hide TableFor;
    var o := Owner(c.nodes, slot).value;
    AnswersKnown(c, at, slot, false);
    AnswersKnown(c, o, slot, false);
    if AskTarget(c.transit[o], c.nodes, slot).Some? {
      AnswersKnown(c, AskTarget(c.transit[o], c.nodes, slot).value, slot, true);
    }
    assert c.Follow(o, slot, false, k - 1) == c.Holder(slot) by { FollowOwner(c, slot, k - 1); }
    if at == o {
      FollowOwner(c, slot, k);
    }
  }

  lemma FollowOwner(c: Cluster, slot: Slot, k: nat)
    requires c.Valid() && c.Settled(slot) && k >= 1
    ensures c.Follow(Owner(c.nodes, slot).value, slot, false, k) == c.Holder(slot)
  {
    hide TableFor;
    var o := Owner(c.nodes, slot).value;
    AnswersKnown(c, o, slot, false);
    if AskTarget(c.transit[o], c.nodes, slot).Some? {
      AnswersKnown(c, AskTarget(c.transit[o], c.nodes, slot).value, slot, true);
    }
  }

  /** A slot that is not settled sends the client round for ever, wherever it starts. */
  lemma {:induction false} RedirectsNeverEnd(c: Cluster, at: nat, slot: Slot, asking: bool, k: nat)
    requires c.Valid() && at < |c.nodes| && !c.Settled(slot)
    requires asking ==> slot !in c.transit[at].imports
    ensures c.Follow(at, slot, asking, k) == None
    decreases k
  {
    hide TableFor;
    AnswersKnown(c, at, slot, asking);
    if k > 0 && Owner(c.nodes, slot).Some? {
      var o := Owner(c.nodes, slot).value;
      if o != at {
        RedirectsNeverEnd(c, o, slot, false, k - 1);
      } else {
        RedirectsNeverEnd(c, AskTarget(c.transit[o], c.nodes, slot).value, slot, true, k - 1);
      }
    }
  }

  /** Redirects end, from anywhere and within two, exactly for the settled slots. */
  lemma RedirectsEndIffSettled(c: Cluster, at: nat, slot: Slot)
    requires c.Valid() && at < |c.nodes|
    ensures c.Settled(slot) <==> c.Follow(at, slot, false, 2).Some?
    ensures c.Settled(slot) <==> exists k: nat :: c.Follow(at, slot, false, k).Some?
  {
    hide TableFor;
    hide Cluster.Follow;
    if c.Settled(slot) {
      RedirectsReachHolder(c, at, slot, 2);
    } else {
      forall k: nat ensures c.Follow(at, slot, false, k) == None {
        RedirectsNeverEnd(c, at, slot, false, k);
      }
    }
  }
}
