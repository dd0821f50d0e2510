/**
 The receiving side of replication (src/cluster/replication.rs, src/cluster/server.rs):
 the offset filter in front of the replica's store, and the theorem that no schedule of
 the network can make the replica differ from a prefix of the primary's history. The store
 and the effect of one mutation on it are parameters.
 */
module Replica {
  import opened Wrappers
  import opened Words
  import opened Codec
  import opened MutationLog

  datatype ApplyError = OffsetGap | InvalidKey | InvalidValue | WrongSlot

  /** The effect of one mutation on a store, or the error that leaves the store as it was. */
  type Effect<!S> = (S, MutationRecord) -> Result<S, ApplyError>

  /** The primary's first mutations applied in order to the initial store. */
  function Fold<S>(effect: Effect<S>, initial: S, history: seq<MutationRecord>): Result<S, ApplyError> {
    if history == [] then Ok(initial)
    else
      match Fold(effect, initial, history[..|history| - 1])
      case Err(e) => Err(e)
      case Ok(s) => effect(s, history[|history| - 1])
  }

  datatype Applied<S> = Applied(result: Result<bool, ApplyError>, store: S, offset: u64)

  /** The offset filter: old records are skipped, a gap is refused, the next record is applied. */
  function TryApplied<S>(effect: Effect<S>, store: S, offset: u64, r: MutationRecord): Applied<S> {
    if r.offset <= offset then Applied(Ok(false), store, offset)
    else if r.offset != Min(offset + 1, U64_MAX) then Applied(Err(ApplyError.OffsetGap), store, offset)
    else
      match effect(store, r)
      case Err(e) => Applied(Err(e), store, offset)
      case Ok(s) => Applied(Ok(true), s, r.offset)
  }

  class ReplicaApplier {
    var appliedOffset: u64

    constructor (offset: u64)
      ensures appliedOffset == offset
    {
      appliedOffset := offset;
    }

    method Reset(offset: u64)
      modifies this
      ensures appliedOffset == offset
    {
      appliedOffset := offset;
    }

    /** `try_apply`, with the store the closure works on passed in and out. */
    method TryApply<S>(record: MutationRecord, effect: Effect<S>, store: S) returns (r: Result<bool, ApplyError>, after: S)
      modifies this
      ensures r == Ok(false) <==> record.offset <= old(appliedOffset)
      ensures record.offset > old(appliedOffset) + 1 ==> r == Err(ApplyError.OffsetGap)
      ensures record.offset == old(appliedOffset) + 1 && effect(store, record).Err? ==> r == Err(effect(store, record).error)
      ensures r == Ok(true) <==> record.offset == old(appliedOffset) + 1 && effect(store, record).Ok?
      ensures r == Ok(true) ==> Ok(after) == effect(store, record) && appliedOffset == record.offset
      ensures r != Ok(true) ==> after == store && appliedOffset == old(appliedOffset)
      ensures Applied(r, after, appliedOffset) == TryApplied(effect, store, old(appliedOffset), record)
    {
      after := store;
      if record.offset <= appliedOffset {
        return Ok(false), after;
      }
      if record.offset != Min(appliedOffset + 1, U64_MAX) {
        return Err(ApplyError.OffsetGap), after;
      }
      match effect(store, record) {
        case Err(e) =>
          return Err(e), after;
        case Ok(s) =>
          after := s;
      }
      appliedOffset := record.offset;
      r := Ok(true);
    }
  }

  // ---- The system -------------------------------------------------------------------

  /**
   The primary's history and the replica. `acks` are the offsets the replica has confirmed,
   `applied` the offsets it has applied since its last snapshot.
   */
  datatype System<S> = System(history: seq<MutationRecord>, store: S, offset: u64, acks: seq<u64>, base: u64, applied: seq<u64>)

  datatype Event =
    | Append(record: MutationRecord)    // the primary logs a mutation
    | Deliver(index: nat)               // some entry of the history arrives: any, at any time, any number of times
    | Install(length: nat)              // a snapshot of some earlier state of the primary is installed

  /** An event that cannot happen, such as the delivery of an entry not yet written, changes nothing. */
  function After<S>(effect: Effect<S>, initial: S, s: System<S>, e: Event): System<S> {
    match e
    case Append(r) =>
      if |s.history| + 1 < U64_MAX then s.(history := s.history + [r.(offset := |s.history| + 1)]) else s
    case Deliver(i) =>
      if i >= |s.history| then s
      else
        var a := TryApplied(effect, s.store, s.offset, s.history[i]);
        if a.result.Err? then s
        else s.(store := a.store, offset := a.offset, acks := s.acks + [a.offset],
                applied := if a.result.value then s.applied + [a.offset] else s.applied)
    case Install(n) =>
      if n > |s.history| || n > U64_MAX then s
      else
        match Fold(effect, initial, s.history[..n])
        case Err(_) => s
        case Ok(image) => s.(store := image, offset := n, acks := s.acks + [n], base := n, applied := [])
  }

  /** The replica is the fold of the first `offset` mutations, each applied once and in order since the snapshot. */
  ghost predicate Faithful<S>(effect: Effect<S>, initial: S, s: System<S>) {
    && |s.history| < U64_MAX && Consecutive(s.history, 1)
    && s.offset <= |s.history|
    && Fold(effect, initial, s.history[..s.offset]) == Ok(s.store)
    && s.base + |s.applied| == s.offset
    && (forall i :: 0 <= i < |s.applied| ==> s.applied[i] == s.base + 1 + i)
    && (forall i :: 0 <= i < |s.acks| ==> s.acks[i] <= |s.history|)
  }

  lemma FoldStep<S>(effect: Effect<S>, initial: S, history: seq<MutationRecord>, n: nat)
    requires n < |history|
    ensures Fold(effect, initial, history[..n + 1]) ==
      match Fold(effect, initial, history[..n])
      case Err(e) => Err(e)
      case Ok(s) => effect(s, history[n])
  {
    assert history[..n + 1][..n] == history[..n];
  }

  lemma DeliverFaithful<S>(effect: Effect<S>, initial: S, s: System<S>, i: nat)
    requires Faithful(effect, initial, s)
    ensures Faithful(effect, initial, After(effect, initial, s, Deliver(i)))
  {
    hide Fold;
    if i == s.offset && i < |s.history| {
      FoldStep(effect, initial, s.history, i);
    }
  }

  lemma EventFaithful<S>(effect: Effect<S>, initial: S, s: System<S>, e: Event)
    requires Faithful(effect, initial, s)
    ensures Faithful(effect, initial, After(effect, initial, s, e))
  {
    hide Fold;
    match e
    case Append(r) =>
      var h := s.history + [r.(offset := |s.history| + 1)];
      assert h[..s.offset] == s.history[..s.offset];
    case Deliver(i) => DeliverFaithful(effect, initial, s, i);
    case Install(n) =>
  }

  ghost predicate IsRun<S>(effect: Effect<S>, initial: S, events: seq<Event>, states: seq<System<S>>) {
    && |states| == |events| + 1
    && states[0] == System([], initial, 0, [], 0, [])
    && forall i :: 0 <= i < |events| ==> states[i + 1] == After(effect, initial, states[i], events[i])
  }

  /** Under every schedule of appends, lost, repeated and reordered deliveries, and snapshots. */
  lemma {:induction false} EveryRunIsFaithful<S>(effect: Effect<S>, initial: S, events: seq<Event>, states: seq<System<S>>, n: nat)
    requires IsRun(effect, initial, events, states) && n < |states|
    ensures Faithful(effect, initial, states[n])
  {
    hide Fold;
    if n == 0 {
      FoldNil(effect, initial);
      assert states[0].history[..0] == [];
    } else {
      EveryRunIsFaithful(effect, initial, events, states, n - 1);
      EventFaithful(effect, initial, states[n - 1], events[n - 1]);
    }
  }

  /**
   The receive loop of `handle_peer` over any events: entries go through the applier, and a
   snapshot replaces the store and resets the applier. The store is always the fold of as many
   of the primary's mutations as the applier's offset says.
   */
  method Receive<S>(effect: Effect<S>, initial: S, events: seq<Event>)
    returns (history: seq<MutationRecord>, store: S, applier: ReplicaApplier, ghost states: seq<System<S>>)
    ensures IsRun(effect, initial, events, states)
    ensures fresh(applier) && applier.appliedOffset <= |history| && Fold(effect, initial, history[..applier.appliedOffset]) == Ok(store)
    ensures var last := states[|events|]; last.history == history && last.store == store && last.offset == applier.appliedOffset
  {
    hide Fold;
    hide TryApplied;
    history, store := [], initial;
    applier := new ReplicaApplier(0);
    states := [System([], initial, 0, [], 0, [])];
    for n := 0 to |events|
      invariant fresh(applier) && |states| == n + 1 && states[0] == System([], initial, 0, [], 0, [])
      invariant forall i :: 0 <= i < n ==> states[i + 1] == After(effect, initial, states[i], events[i])
      invariant states[n].history == history && states[n].store == store && states[n].offset == applier.appliedOffset
    {
      match events[n] {
        case Append(r) =>
          if |history| + 1 < U64_MAX {
            history := history + [r.(offset := |history| + 1)];
          }
        case Deliver(i) =>
          if i < |history| {
            var result;
            result, store := applier.TryApply(history[i], effect, store);
            FailureKeepsStore(effect, states[n].store, states[n].offset, history[i]);
          }
        case Install(length) =>
          if length <= |history| && length <= U64_MAX {
            match Fold(effect, initial, history[..length]) {
              case Err(_) =>
              case Ok(image) =>
                store := image;
                applier.Reset(length);
            }
          }
      }
      states := states + [After(effect, initial, states[n], events[n])];
    }
    EveryRunIsFaithful(effect, initial, events, states, |events|);
  }

  lemma FailureKeepsStore<S>(effect: Effect<S>, store: S, offset: u64, r: MutationRecord)
    ensures TryApplied(effect, store, offset, r).result.Err? ==>
              TryApplied(effect, store, offset, r).store == store && TryApplied(effect, store, offset, r).offset == offset
  {
  }

  lemma FoldNil<S>(effect: Effect<S>, initial: S)
    ensures Fold(effect, initial, []) == Ok(initial)
  {
  }

  /**
   What a delivery does: an applied record is confirmed again and changes nothing; the next one
   is applied and confirmed, or its error changes nothing; a record past a gap changes nothing
   and is not confirmed.
   */
  lemma DeliverAnswers<S>(effect: Effect<S>, initial: S, s: System<S>, i: nat)
    requires Faithful(effect, initial, s) && i < |s.history|
    ensures var t := After(effect, initial, s, Deliver(i));
            && (i < s.offset ==> t == s.(acks := s.acks + [s.offset]))
            && (i == s.offset ==>
                  match effect(s.store, s.history[i])
                  case Err(_) => t == s
                  case Ok(store) => t == s.(store := store, offset := i + 1, acks := s.acks + [i + 1], applied := s.applied + [i + 1]))
            && (i > s.offset ==> t == s)
  {
    hide Fold;
  }

  /** A snapshot of the first `n` mutations replaces the store and is confirmed; an append reaches the history alone. */
  lemma OtherAnswers<S>(effect: Effect<S>, initial: S, s: System<S>, n: nat, r: MutationRecord)
    requires Faithful(effect, initial, s)
    ensures var t := After(effect, initial, s, Install(n));
            if n <= |s.history| && Fold(effect, initial, s.history[..n]).Ok?
            then Ok(t.store) == Fold(effect, initial, s.history[..n]) && t.offset == t.base == n && t.acks == s.acks + [n] && t.applied == [] && t.history == s.history
            else t == s
    ensures |s.history| + 1 < U64_MAX ==>
              After(effect, initial, s, Append(r)) == s.(history := s.history + [r.(offset := |s.history| + 1)])
  {
    hide Fold;
  }

  /** Under every schedule, a delivery is confirmed only if the replica then has the record. */
  lemma ConfirmedIsApplied<S>(effect: Effect<S>, initial: S, events: seq<Event>, states: seq<System<S>>, n: nat)
    requires IsRun(effect, initial, events, states) && n < |events| && events[n].Deliver?
    requires states[n + 1].acks != states[n].acks
    ensures var t := states[n + 1];
            && events[n].index < t.offset && t.acks == states[n].acks + [t.offset]
            && t.offset <= |t.history| && Fold(effect, initial, t.history[..t.offset]) == Ok(t.store)
  {
    hide Fold;
    EveryRunIsFaithful(effect, initial, events, states, n);
    EveryRunIsFaithful(effect, initial, events, states, n + 1);
    if events[n].index < |states[n].history| {
      DeliverAnswers(effect, initial, states[n], events[n].index);
    }
  }

  /** An applied offset is never lost again except to a snapshot, and replays of it change nothing. */
  lemma RedeliveryIsIdle<S>(effect: Effect<S>, initial: S, s: System<S>, i: nat)
    requires Faithful(effect, initial, s) && i < s.offset
    ensures var t := After(effect, initial, s, Deliver(i)); t.store == s.store && t.offset == s.offset && t.applied == s.applied
  {
    hide Fold;
  }

  /** Delivering, in order, what is missing brings the replica to the primary's state, if every effect succeeds. */
  lemma {:induction false} CatchUp<S>(effect: Effect<S>, initial: S, s: System<S>, events: seq<Event>, states: seq<System<S>>)
    requires Faithful(effect, initial, s) && Fold(effect, initial, s.history).Ok?
    requires |events| == |s.history| - s.offset && |states| == |events| + 1 && states[0] == s
    requires forall i :: 0 <= i < |events| ==> events[i] == Deliver(s.offset + i)
    requires forall i :: 0 <= i < |events| ==> states[i + 1] == After(effect, initial, states[i], events[i])
    ensures var last := states[|events|]; last.offset == |s.history| && Ok(last.store) == Fold(effect, initial, s.history)
    decreases |events|
  {
    hide Fold;
    if |events| == 0 {
      assert s.history[..s.offset] == s.history;
    } else {
      var t := states[1];
      FoldPrefix(effect, initial, s.history, s.offset + 1);
      FoldStep(effect, initial, s.history, s.offset);
      DeliverFaithful(effect, initial, s, s.offset);
      assert t.history == s.history && t.offset == s.offset + 1;
      CatchUp(effect, initial, t, events[1..], states[1..]);
    }
  }

  /** If the whole history applies, so does every prefix. */
  lemma {:induction false} FoldPrefix<S>(effect: Effect<S>, initial: S, history: seq<MutationRecord>, n: nat)
    requires n <= |history| && Fold(effect, initial, history).Ok?
    ensures Fold(effect, initial, history[..n]).Ok?
    decreases |history|
  {
    if n == |history| {
      assert history[..n] == history;
    } else {
      var h := history[..|history| - 1];
      assert history[..n] == h[..n];
      FoldPrefix(effect, initial, h, n);
    }
  }
}
