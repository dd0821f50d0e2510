/**
 `filter_index` under concurrency (src/search/filter.rs): writers that store a value and only
 then notify the observer, one thread at a time behind the `filter_build` lock that drains
 the dirty set and applies or rebuilds, and readers on the fast path, which hold an index
 they fetched earlier and check the dirty set without that lock. A key's value is
 represented by the number of writes it has had; a drain, a mark and a clean check are one
 step each.
 */
module SearchRace {
  import opened Wrappers
  import opened Words

  /** For every key, how many of its writes something has seen. */
  type Version = string -> nat

  datatype Write = One(key: string, version: nat) | Everything(versions: Version)

  /** The holder of the lock: what it drained, the keyspace then, and the writes that were complete then. */
  datatype Builder =
    | Free
    | Applying(keys: set<string>, since: Version, need: Version)
    | Rebuilding(since: Version, need: Version)

  /**
   A fast-path query: the index it fetched and the writes that were complete at that time. On
   a clean check it also has whether the lock was then held and another index installed.
   */
  datatype Reader =
    | Fetched(ix: nat, need: Version)
    | Cleared(ix: nat, need: Version, held: bool, swapped: bool)

  datatype State = State(
    store: Version, done: Version, views: seq<Version>, current: Option<nat>,
    marked: set<string>, overflow: bool,
    writers: map<nat, Write>, builder: Builder, readers: map<nat, Reader>)

  datatype Step =
    | StoreKey(t: nat, key: string)
    | StoreNothing(t: nat)               // FLUSHALL
    | Notify(t: nat, full: bool)         // `full`: the key's shard is too big
    | Drain
    | Apply(view: Version, rebuild: bool)
    | Install(view: Version)
    | Fetch(r: nat)
    | Check(r: nat)

  predicate Clean(s: State) {
    !s.overflow && s.marked == {}
  }

  ghost predicate Enabled(s: State, step: Step) {
    match step
    case StoreKey(t, _) => t !in s.writers
    case StoreNothing(t) => t !in s.writers
    case Notify(t, _) => t in s.writers
    case Drain => s.builder.Free?
    case Apply(view, _) =>
      && s.builder.Applying? && s.current.Some? && s.current.value < |s.views|
      && forall k :: if k in s.builder.keys then s.builder.since(k) <= view(k) <= s.store(k) else view(k) == s.views[s.current.value](k)
    case Install(view) => s.builder.Rebuilding? && forall k :: s.builder.since(k) <= view(k) <= s.store(k)
    case Fetch(r) => r !in s.readers && s.current.Some?
    case Check(r) => r in s.readers && s.readers[r].Fetched? && Clean(s)
  }

  function Completed(done: Version, w: Write): Version {
    k => var v := match w case One(key, version) => (if k == key then version else 0) case Everything(versions) => versions(k);
         if done(k) < v then v else done(k)
  }

  ghost function Do(s: State, step: Step): State
    requires Enabled(s, step)
  {
    match step
    case StoreKey(t, key) =>
      s.(store := k => if k == key then s.store(k) + 1 else s.store(k), writers := s.writers[t := One(key, s.store(key) + 1)])
    case StoreNothing(t) =>
      s.(store := k => s.store(k) + 1, writers := s.writers[t := Everything(k => s.store(k) + 1)])
    case Notify(t, full) =>
      var w := s.writers[t];
      var after := s.(done := Completed(s.done, w), writers := s.writers - {t});
      if w.Everything? || (full && !s.overflow) then after.(overflow := true, marked := {})
      else if s.overflow then after
      else after.(marked := s.marked + {w.key})
    case Drain =>
      s.(overflow := false, marked := {},
         builder := if s.overflow || s.current.None? then Rebuilding(s.store, s.done) else Applying(s.marked, s.store, s.done))
    case Apply(view, rebuild) =>
      s.(views := s.views[s.current.value := view],
         builder := if rebuild then Rebuilding(s.builder.since, s.builder.need) else Free)
    case Install(view) => s.(views := s.views + [view], current := Some(|s.views|), builder := Free)
    case Fetch(r) => s.(readers := s.readers[r := Fetched(s.current.value, s.done)])
    case Check(r) =>
      var q := s.readers[r];
      s.(readers := s.readers[r := Cleared(q.ix, q.need, !s.builder.Free?, s.current != Some(q.ix))])
  }

  function Initial(): State {
    State(_ => 0, _ => 0, [], None, {}, false, map[], Free, map[])
  }

  // ---- What every run keeps ---------------------------------------------------------

  /** The index shows every write that was complete at the time of `need`. */
  ghost predicate Shows(view: Version, need: Version) {
    forall k :: need(k) <= view(k)
  }

  ghost predicate Recorded(s: State, k: string) {
    k in s.marked || s.overflow
  }

  ghost predicate Within(w: Write, store: Version) {
    match w
    case One(key, version) => version <= store(key)
    case Everything(versions) => Shows(store, versions)
  }

  /** Nothing is ahead of the keyspace. */
  ghost predicate Bounded(s: State) {
    && Shows(s.store, s.done)
    && (forall i :: 0 <= i < |s.views| ==> Shows(s.store, s.views[i]))
    && (forall t :: t in s.writers ==> Within(s.writers[t], s.store))
  }

  lemma CompletedWithin(done: Version, w: Write, store: Version)
    requires Shows(store, done) && Within(w, store)
    ensures Shows(store, Completed(done, w)) && Shows(Completed(done, w), done)
    ensures w.One? ==> w.version <= Completed(done, w)(w.key) && forall k :: k != w.key ==> Completed(done, w)(k) == done(k)
  {
  }

  /** The lock holder will bring in what was complete at its drain; what was completed since is recorded again. */
  ghost predicate Building(s: State) {
    match s.builder
    case Free => true
    case Applying(keys, since, need) =>
      && s.current.Some? && s.current.value < |s.views|
      && (forall k :: need(k) <= since(k) <= s.store(k) && (s.done(k) <= need(k) || Recorded(s, k)))
      && (forall k :: s.views[s.current.value](k) <= since(k))
      && (forall k :: k in keys || need(k) <= s.views[s.current.value](k))
    case Rebuilding(since, need) =>
      forall k :: need(k) <= since(k) <= s.store(k) && (s.done(k) <= need(k) || Recorded(s, k))
  }

  /** With the lock free, the current index lacks only completed writes that are still recorded. */
  ghost predicate Current(s: State) {
    s.current.Some? ==>
      && s.current.value < |s.views|
      && (s.builder.Free? ==> forall k :: s.done(k) <= s.views[s.current.value](k) || Recorded(s, k))
  }

  ghost predicate Reading(s: State) {
    forall r :: r in s.readers ==>
      var q := s.readers[r];
      && q.ix < |s.views|
      && (forall k :: q.need(k) <= s.done(k))
      && (q.Cleared? && !q.held && !q.swapped ==> Shows(s.views[q.ix], q.need))
  }

  ghost predicate Inv(s: State) {
    Bounded(s) && Building(s) && Current(s) && Reading(s)
  }

  lemma InitialInv()
    ensures Inv(Initial())
    ensures var s := Initial(); Clean(s) && s.builder.Free? && s.current.None? && s.readers == map[] && forall k :: s.store(k) == s.done(k) == 0
  {
  }

  lemma StepBounded(s: State, step: Step)
    requires Inv(s) && Enabled(s, step)
    ensures Bounded(Do(s, step))
  {
    hide Reading;
    hide Current;
    hide Completed;
    match step
    case StoreKey(t, _) => MoreStored(s, Do(s, step), t);
    case StoreNothing(t) => MoreStored(s, Do(s, step), t);
    case Notify(t, _) => CompletedWithin(s.done, s.writers[t], s.store);
    case Apply(_, _) =>
    case Install(_) =>
    case _ =>
  }

  /** A writer has stored something and not yet notified the observer. */
  lemma MoreStored(s: State, s': State, t: nat)
    requires Bounded(s) && Shows(s'.store, s.store) && s'.done == s.done && s'.views == s.views
    requires t in s'.writers && s'.writers == s.writers[t := s'.writers[t]] && Within(s'.writers[t], s'.store)
    ensures Bounded(s')
  {
    forall u | u in s.writers ensures Within(s.writers[u], s'.store) {
      assert Within(s.writers[u], s.store);
    }
  }

  lemma StepBuilding(s: State, step: Step)
    requires Inv(s) && Enabled(s, step)
    ensures Building(Do(s, step))
  {
    hide Reading;
    hide Completed;
    if step.Notify? {
      CompletedWithin(s.done, s.writers[step.t], s.store);
    }
  }

  lemma StepCurrent(s: State, step: Step)
    requires Inv(s) && Enabled(s, step)
    ensures Current(Do(s, step))
  {
    hide Reading;
    hide Completed;
    if step.Notify? {
      CompletedWithin(s.done, s.writers[step.t], s.store);
    }
  }

  lemma StepReading(s: State, step: Step)
    requires Inv(s) && Enabled(s, step)
    ensures Reading(Do(s, step))
  {
    hide Completed;
    match step
    case Apply(view, _) => ApplyReading(s, step);
    case Check(r) =>
      hide Bounded;
      hide Building;
    case Notify(t, _) => CompletedWithin(s.done, s.writers[t], s.store);
    case _ =>
      hide Building;
      hide Current;
  }

  /** An index only gains by a batch, so what a reader saw in it stays. */
  lemma ApplyReading(s: State, step: Step)
    requires Building(s) && Reading(s) && Enabled(s, step) && step.Apply?
    ensures Reading(Do(s, step))
  {
    assert forall k :: s.views[s.current.value](k) <= step.view(k);
  }

  lemma StepInv(s: State, step: Step)
    requires Inv(s) && Enabled(s, step)
    ensures Inv(Do(s, step))
  {
    StepBounded(s, step);
    StepBuilding(s, step);
    StepCurrent(s, step);
    StepReading(s, step);
  }

  // ---- Runs -------------------------------------------------------------------------

  ghost predicate Legal(s: State, steps: seq<Step>)
    decreases |steps|, 0
  {
    if steps == [] then true
    else var rest, last := steps[..|steps| - 1], steps[|steps| - 1]; Legal(s, rest) && Enabled(After(s, rest), last)
  }

  ghost function After(s: State, steps: seq<Step>): State
    requires Legal(s, steps)
    decreases |steps|, 1
  {
    if steps == [] then s else Do(After(s, steps[..|steps| - 1]), steps[|steps| - 1])
  }

  lemma {:induction false} RunsKeep(s: State, steps: seq<Step>)
    requires Inv(s) && Legal(s, steps)
    ensures Inv(After(s, steps))
  {
    hide Inv;
    hide Enabled;
    hide Do;
    if steps != [] {
      var rest := steps[..|steps| - 1];
      RunsKeep(s, rest);
      StepInv(After(s, rest), steps[|steps| - 1]);
    }
  }

  /** A fast-path query that checked the set with the lock free, and whose index was still the current one. */
  ghost predicate Settled(q: Reader) {
    q.Cleared? && !q.held && !q.swapped
  }

  /** In every run, a settled query reads an index that shows every write completed before the query began. */
  lemma FastPathSees(steps: seq<Step>, r: nat)
    requires Legal(Initial(), steps) && r in After(Initial(), steps).readers && Settled(After(Initial(), steps).readers[r])
    ensures var e := After(Initial(), steps); e.readers[r].ix < |e.views| && Shows(e.views[e.readers[r].ix], e.readers[r].need)
  {
    InitialInv();
    RunsKeep(Initial(), steps);
  }

  /** And so does every query that takes the lock itself: its batch or rebuild brings in all that was complete at its drain. */
  lemma SlowPathSees(steps: seq<Step>, step: Step)
    requires Legal(Initial(), steps) && Enabled(After(Initial(), steps), step) && (step.Apply? || step.Install?)
    ensures var b := After(Initial(), steps); var e := Do(b, step);
            !b.builder.Free? && e.current.Some? && e.current.value < |e.views| && Shows(e.views[e.current.value], b.builder.need)
  {
    InitialInv();
    RunsKeep(Initial(), steps);
    hide Reading;
    hide Bounded;
  }

  // ---- When a fast-path query misses a write ----------------------------------------

  /** A new query `r` is told clean, with the lock held or not and the index swapped or not, and misses a completed write. */
  ghost predicate Misses(s: State, steps: seq<Step>, r: nat, held: bool, swapped: bool) {
    && Legal(s, steps) && r !in s.readers && r in After(s, steps).readers
    && var e := After(s, steps); var q := e.readers[r];
       q.Cleared? && q.held == held && q.swapped == swapped && q.ix < |e.views| && !Shows(e.views[q.ix], q.need)
  }

  lemma Extended(s: State, steps: seq<Step>, step: Step)
    requires Legal(s, steps) && Enabled(After(s, steps), step)
    ensures Legal(s, steps + [step]) && After(s, steps + [step]) == Do(After(s, steps), step)
  {
    hide Enabled;
    hide Do;
    assert (steps + [step])[..|steps|] == steps;
  }

  /** A key is written and its observer notified. */
  lemma WriteCompletes(s: State, steps: seq<Step>, t: nat, key: string) returns (more: seq<Step>)
    requires Legal(s, steps) && t !in After(s, steps).writers && Bounded(After(s, steps))
    ensures Legal(s, more) && Bounded(After(s, more))
    ensures var c := After(s, steps); var e := After(s, more);
            && e.views == c.views && e.current == c.current && e.builder == c.builder && e.readers == c.readers && e.writers == c.writers
            && c.store(key) < e.done(key) == e.store(key) && forall k :: c.done(k) <= e.done(k)
  {
    hide Legal;
    hide After;
    Extended(s, steps, StoreKey(t, key));
    more := steps + [StoreKey(t, key)];
    Extended(s, more, Notify(t, false));
    more := more + [Notify(t, false)];
    assert After(s, more).writers == After(s, steps).writers;
  }

  /** Everything is flushed and the observer notified. */
  lemma FlushCompletes(s: State, steps: seq<Step>, t: nat) returns (more: seq<Step>)
    requires Legal(s, steps) && t !in After(s, steps).writers && Bounded(After(s, steps))
    ensures Legal(s, more) && Bounded(After(s, more)) && After(s, more).overflow
    ensures var c := After(s, steps); var e := After(s, more);
            && e.views == c.views && e.current == c.current && e.builder == c.builder && e.readers == c.readers && e.writers == c.writers
            && forall k :: c.done(k) <= e.done(k)
  {
    hide Legal;
    hide After;
    Extended(s, steps, StoreNothing(t));
    more := steps + [StoreNothing(t)];
    Extended(s, more, Notify(t, false));
    more := more + [Notify(t, false)];
    assert After(s, more).writers == After(s, steps).writers;
  }

  /** Query `r` has fetched an index that lacks a write of the key. */
  ghost predicate Behind(s: State, r: nat, key: string) {
    && r in s.readers && s.readers[r].Fetched?
    && var q := s.readers[r]; q.ix < |s.views| && s.views[q.ix](key) < q.need(key)
  }

  lemma DrainNow(s: State, steps: seq<Step>) returns (more: seq<Step>)
    requires Legal(s, steps) && After(s, steps).builder.Free? && Bounded(After(s, steps))
    ensures Legal(s, more) && Bounded(After(s, more)) && Clean(After(s, more))
    ensures var c := After(s, steps); var e := After(s, more);
            && e.views == c.views && e.current == c.current && e.readers == c.readers && e.writers == c.writers
            && !e.builder.Free? && e.builder.since == e.store && (c.overflow ==> e.builder.Rebuilding?)
  {
    hide Legal;
    hide After;
    Extended(s, steps, Drain);
    more := steps + [Drain];
  }

  /** The key is written, the query begins, and the lock is taken and the set drained. */
  lemma DrainAhead(s: State, t: nat, r: nat, key: string) returns (steps: seq<Step>)
    requires Inv(s) && s.builder.Free? && s.current.Some? && t !in s.writers && r !in s.readers
    ensures Legal(s, steps) && var e := After(s, steps); Behind(e, r, key) && Clean(e) && !e.builder.Free? && e.current == Some(e.readers[r].ix)
  {
    assert s.views[s.current.value](key) <= s.store(key);
    steps := WriteCompletes(s, [], t, key);
    hide Legal;
    hide After;
    hide Bounded;
    hide Reading;
    FetchKeepsBounded(After(s, steps), r);
    Extended(s, steps, Fetch(r));
    steps := steps + [Fetch(r)];
    steps := DrainNow(s, steps);
  }

  lemma FetchKeepsBounded(s: State, r: nat)
    requires Bounded(s) && Enabled(s, Fetch(r))
    ensures Bounded(Do(s, Fetch(r)))
  {
  }

  /** The key is written and everything flushed, the query begins, and the ordered rebuild is installed. */
  lemma RebuildAhead(s: State, t: nat, r: nat, key: string) returns (steps: seq<Step>)
    requires Inv(s) && s.builder.Free? && s.current.Some? && t !in s.writers && r !in s.readers
    ensures Legal(s, steps) && Bounded(After(s, steps)) && After(s, steps).writers == s.writers
    ensures var e := After(s, steps); Behind(e, r, key) && Clean(e) && e.builder.Free? && e.current.Some? && e.current != Some(e.readers[r].ix)
  {
    assert s.views[s.current.value](key) <= s.store(key);
    steps := WriteCompletes(s, [], t, key);
    hide Legal;
    hide After;
    hide Bounded;
    hide Reading;
    steps := FlushCompletes(s, steps, t);
    FetchKeepsBounded(After(s, steps), r);
    Extended(s, steps, Fetch(r));
    steps := steps + [Fetch(r)];
    steps := DrainNow(s, steps);
    steps := InstallNow(s, steps);
  }

  lemma InstallNow(s: State, steps: seq<Step>) returns (more: seq<Step>)
    requires Legal(s, steps) && Bounded(After(s, steps)) && After(s, steps).builder.Rebuilding? && After(s, steps).builder.since == After(s, steps).store
    ensures Legal(s, more) && Bounded(After(s, more))
    ensures var c := After(s, steps); After(s, more) == c.(views := c.views + [c.store], current := Some(|c.views|), builder := Free)
  {
    hide Legal;
    hide After;
    var now := Install(After(s, steps).store);
    Extended(s, steps, now);
    more := steps + [now];
  }

  lemma CheckMisses(s: State, steps: seq<Step>, r: nat, key: string)
    requires Legal(s, steps) && r !in s.readers && Behind(After(s, steps), r, key) && Clean(After(s, steps))
    ensures var c := After(s, steps); Misses(s, steps + [Check(r)], r, !c.builder.Free?, c.current != Some(c.readers[r].ix))
  {
    hide Legal;
    hide After;
    Extended(s, steps, Check(r));
  }

  /** From every state with the lock free, a query can miss a completed write in each of the three other ways. */
  lemma UnsettledMisses(s: State, key: string, held: bool, swapped: bool) returns (steps: seq<Step>, r: nat)
    requires Inv(s) && s.builder.Free? && s.current.Some? && (held || swapped)
    ensures Misses(s, steps, r, held, swapped)
  {
    hide Legal;
    hide After;
    hide Bounded;
    hide Misses;
    var t := BoundOf(s.writers.Keys);
    r := BoundOf(s.readers.Keys);
    if swapped {
      steps := RebuildAhead(s, t, r, key);
      if held {
        steps := WriteCompletes(s, steps, t, key);
        steps := DrainNow(s, steps);
      }
    } else {
      steps := DrainAhead(s, t, r, key);
    }
    CheckMisses(s, steps, r, key);
    steps := steps + [Check(r)];
  }

  /**
   Exactly when the fast path can miss a write that was complete before the query began: if and
   only if, at its clean check, the lock was held or another index had been installed.
   */
  lemma FastPathIff(s: State, held: bool, swapped: bool)
    requires Inv(s) && s.builder.Free? && s.current.Some?
    ensures (exists steps, r :: Misses(s, steps, r, held, swapped)) <==> held || swapped
  {
    if held || swapped {
      var steps, r := UnsettledMisses(s, "", held, swapped);
    } else {
      forall steps, r ensures !Misses(s, steps, r, held, swapped) {
        if Legal(s, steps) {
          RunsKeep(s, steps);
        }
      }
    }
  }
}
