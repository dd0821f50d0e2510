/**
 The dirty set under concurrency (src/search/hooks.rs): any number of writer threads, one
 consumer, and steps as small as the code's own atomic operations and lock sections. A key
 is owed from the step by which its `mark` takes effect, which is its insertion or its
 seeing or raising the flag, until a drain hands it out or orders a rebuild.
 */
module DirtyRace {
  import opened Wrappers
  import opened Words
  import D = DirtySet

  datatype Writer =
    | Idle
    | Checked(key: string)   // saw overflow false, about to lock the shard
    | Full(key: string)      // shard too big, about to call mark_all
    | Clearing(next: nat)    // inside mark_all's loop

  datatype Consumer =
    | Resting
    | Discarding(next: nat)                      // drain after an overflow
    | Taking(next: nat, out: set<string>)        // drain of the recorded keys
    | Resetting(next: nat)

  datatype State = State(
    shards: seq<set<string>>, overflow: bool, pending: int,
    writers: map<nat, Writer>, consumer: Consumer, owed: set<string>)

  datatype Step =
    | StartMark(t: nat, key: string)
    | LockShard(t: nat)
    | RaiseOverflow(t: nat)
    | ClearShard(t: nat)
    | BeginDrain
    | BeginReset
    | ConsumeShard
    | EndConsume
  {
    predicate Begins() {
      this == BeginDrain || this == BeginReset
    }
  }

  type Hash = string -> nat

  function Shard(h: Hash, key: string): (i: nat)
    ensures i < D.SHARDS
  {
    h(key) % D.SHARDS
  }

  function WriterAt(s: State, t: nat): Writer {
    if t in s.writers then s.writers[t] else Idle
  }

  function Emptied(s: State, i: nat): State
    requires i < |s.shards|
  {
    s.(shards := s.shards[i := {}], pending := s.pending - |s.shards[i]|)
  }

  predicate Enabled(s: State, step: Step) {
    match step
    case StartMark(t, _) => WriterAt(s, t).Idle?
    case LockShard(t) => WriterAt(s, t).Checked?
    case RaiseOverflow(t) => WriterAt(s, t).Full? || WriterAt(s, t).Idle?
    case ClearShard(t) => WriterAt(s, t).Clearing? && WriterAt(s, t).next < D.SHARDS
    case BeginDrain => s.consumer.Resting?
    case BeginReset => s.consumer.Resting?
    case ConsumeShard => !s.consumer.Resting? && s.consumer.next < D.SHARDS
    case EndConsume => !s.consumer.Resting? && s.consumer.next == D.SHARDS
  }

  function Do(h: Hash, s: State, step: Step): (s': State)
    requires |s.shards| == D.SHARDS
    ensures |s'.shards| == D.SHARDS
  {
    match step
    case StartMark(t, key) =>
      if s.overflow then s.(owed := s.owed + {key})
      else s.(writers := s.writers[t := Checked(key)])
    case LockShard(t) =>
      (match WriterAt(s, t)
       case Checked(key) =>
         var i := Shard(h, key);
         if |s.shards[i]| * D.SHARDS > D.DIRTY_OVERFLOW then s.(writers := s.writers[t := Full(key)])
         else s.(shards := s.shards[i := s.shards[i] + {key}],
                 pending := s.pending + (if key in s.shards[i] then 0 else 1),
                 writers := s.writers[t := Idle], owed := s.owed + {key})
       case _ => s)
    case RaiseOverflow(t) =>
      var cause := if WriterAt(s, t).Full? then {WriterAt(s, t).key} else {};
      s.(overflow := true, writers := s.writers[t := Clearing(0)], owed := s.owed + cause)
    case ClearShard(t) =>
      (match WriterAt(s, t)
       case Clearing(i) =>
         if i >= D.SHARDS then s
         else Emptied(s, i).(writers := s.writers[t := if i + 1 < D.SHARDS then Clearing(i + 1) else Idle])
       case _ => s)
    case BeginDrain =>
      if s.overflow then s.(overflow := false, consumer := Discarding(0))
      else s.(consumer := Taking(0, {}))
    case BeginReset => s.(overflow := false, consumer := Resetting(0))
    case ConsumeShard =>
      (match s.consumer
       case Discarding(i) => if i < D.SHARDS then Emptied(s, i).(consumer := Discarding(i + 1)) else s
       case Resetting(i) => if i < D.SHARDS then Emptied(s, i).(consumer := Resetting(i + 1)) else s
       case Taking(i, out) => if i < D.SHARDS then Emptied(s, i).(consumer := Taking(i + 1, out + s.shards[i])) else s
       case Resting => s)
    case EndConsume =>
      (match s.consumer
       case Taking(_, out) => s.(consumer := Resting, owed := s.owed - out)
       case _ => s.(consumer := Resting, owed := {}))
  }

  function Initial(): State {
    State(seq(D.SHARDS, _ => {}), false, 0, map[], Resting, {})
  }

  // ---- Runs -------------------------------------------------------------------------

  /** Where a sequence of steps leads. */
  function After(h: Hash, s: State, steps: seq<Step>): (s': State)
    requires |s.shards| == D.SHARDS
    ensures |s'.shards| == D.SHARDS
  {
    if steps == [] then s else Do(h, After(h, s, steps[..|steps| - 1]), steps[|steps| - 1])
  }

  /** Every step is enabled when it is taken. */
  predicate Legal(h: Hash, s: State, steps: seq<Step>)
    requires |s.shards| == D.SHARDS
  {
    forall i :: 0 <= i < |steps| ==> Enabled(After(h, s, steps[..i]), steps[i])
  }

  /** No running mark_all has yet to clear the key's shard. */
  ghost predicate SafeFor(h: Hash, s: State, key: string) {
    forall t: nat :: WriterAt(s, t).Clearing? ==> WriterAt(s, t).next > Shard(h, key)
  }

  /** From step `from` on, drains and resets begin only when that is safe for the key. */
  ghost predicate GuardedFrom(h: Hash, s: State, steps: seq<Step>, from: nat, key: string)
    requires |s.shards| == D.SHARDS
  {
    forall i :: from <= i < |steps| && steps[i].Begins() ==> SafeFor(h, After(h, s, steps[..i]), key)
  }

  // ---- The invariant ----------------------------------------------------------------

  /** The key is still somewhere from which the consumer will learn of it. */
  ghost predicate Recorded(h: Hash, s: State, key: string)
    requires |s.shards| == D.SHARDS
  {
    || key in s.shards[Shard(h, key)]
    || s.overflow
    || s.consumer.Discarding? || s.consumer.Resetting?
    || (s.consumer.Taking? && key in s.consumer.out)
  }

  ghost predicate Counted(h: Hash, s: State) {
    && |s.shards| == D.SHARDS
    && s.pending == D.Total(s.shards)
    && (forall i, k :: 0 <= i < D.SHARDS && k in s.shards[i] ==> i == Shard(h, k))
  }

  ghost predicate SoundFor(h: Hash, s: State, key: string) {
    && Counted(h, s)
    && (SafeFor(h, s, key) || s.overflow)
    && (key in s.owed ==> Recorded(h, s, key))
  }

  lemma EmptiedCounted(h: Hash, s: State, i: nat)
    requires Counted(h, s) && i < D.SHARDS
    ensures Counted(h, Emptied(s, i)) && Emptied(s, i).pending >= 0
  {
    D.TotalUpdate(s.shards, i, {});
  }

  lemma InitialSound(h: Hash, key: string)
    ensures SoundFor(h, Initial(), key)
  {
    hide D.Total;
    D.TotalZero(Initial().shards);
  }

  /** Inserting a key into its shard under the lock. */
  lemma InsertCounted(h: Hash, s: State, key: string)
    requires Counted(h, s)
    ensures var i := Shard(h, key);
            Counted(h, s.(shards := s.shards[i := s.shards[i] + {key}], pending := s.pending + if key in s.shards[i] then 0 else 1))
  {
    hide D.Total;
    hide Shard;
    var i := Shard(h, key);
    D.TotalUpdate(s.shards, i, s.shards[i] + {key});
    D.InsertCount(s.shards[i], key);
  }

  lemma StepCounted(h: Hash, s: State, step: Step)
    requires Counted(h, s) && Enabled(s, step)
    ensures Counted(h, Do(h, s, step))
  {
    hide D.Total;
    hide Shard;
    match step
    case LockShard(t) => InsertCounted(h, s, WriterAt(s, t).key);
    case ClearShard(t) => EmptiedCounted(h, s, WriterAt(s, t).next);
    case ConsumeShard => EmptiedCounted(h, s, s.consumer.next);
    case _ =>
  }

  /** Only raising the flag makes a begin unsafe. */
  lemma StepSafe(h: Hash, s: State, step: Step, key: string)
    requires |s.shards| == D.SHARDS && Enabled(s, step) && SafeFor(h, s, key) && !step.RaiseOverflow?
    ensures SafeFor(h, Do(h, s, step), key)
  {
    hide Shard;
    var s' := Do(h, s, step);
    forall t: nat | WriterAt(s', t).Clearing? ensures WriterAt(s', t).next > Shard(h, key) {
      assert WriterAt(s, t).Clearing? && WriterAt(s', t).next >= WriterAt(s, t).next;
    }
  }

  /** Each step keeps the key recorded while it is owed, if no drain or reset begins when that is unsafe for it. */
  lemma StepSound(h: Hash, s: State, step: Step, key: string)
    requires SoundFor(h, s, key) && Enabled(s, step) && (step.Begins() ==> SafeFor(h, s, key))
    ensures SoundFor(h, Do(h, s, step), key)
  {
    hide Counted;
    hide SafeFor;
    CountedShards(h, s);
    StepCounted(h, s, step);
    if SafeFor(h, s, key) && !step.RaiseOverflow? {
      StepSafe(h, s, step, key);
    }
    if step.ClearShard? && WriterAt(s, step.t).next == Shard(h, key) {
      UnsafeClear(h, s, step.t, key);
    }
  }

  lemma CountedShards(h: Hash, s: State)
    requires Counted(h, s)
    ensures |s.shards| == D.SHARDS
  {
  }

  lemma UnsafeClear(h: Hash, s: State, t: nat, key: string)
    requires WriterAt(s, t).Clearing? && WriterAt(s, t).next <= Shard(h, key)
    ensures !SafeFor(h, s, key)
  {
  }

  lemma AfterStep(h: Hash, s: State, steps: seq<Step>, n: nat)
    requires |s.shards| == D.SHARDS && n < |steps|
    ensures After(h, s, steps[..n + 1]) == Do(h, After(h, s, steps[..n]), steps[n])
  {
    assert steps[..n + 1][..n] == steps[..n];
  }

  /** The key is never forgotten along a run whose drains and resets begin only when that is safe for it. */
  lemma {:induction false} GuardedRunsAreSound(h: Hash, s: State, steps: seq<Step>, key: string, n: nat)
    requires SoundFor(h, s, key) && Legal(h, s, steps) && GuardedFrom(h, s, steps, 0, key) && n <= |steps|
    ensures SoundFor(h, After(h, s, steps[..n]), key)
    decreases n
  {
    hide SoundFor;
    SoundShards(h, s, key);
    if n > 0 {
      GuardedRunsAreSound(h, s, steps, key, n - 1);
      AfterStep(h, s, steps, n - 1);
      StepSound(h, After(h, s, steps[..n - 1]), steps[n - 1], key);
    }
  }

  lemma SoundShards(h: Hash, s: State, key: string)
    requires SoundFor(h, s, key)
    ensures |s.shards| == D.SHARDS
  {
  }

  // ---- When a drain may begin -------------------------------------------------------

  /** `more` goes on after `steps`, begins no drain or reset and raises no flag. */
  ghost predicate GoesOn(steps: seq<Step>, more: seq<Step>) {
    steps <= more && forall i :: |steps| <= i < |more| ==> !more[i].Begins() && !more[i].RaiseOverflow?
  }

  lemma Extended(h: Hash, s: State, steps: seq<Step>, step: Step)
    requires |s.shards| == D.SHARDS && Legal(h, s, steps) && Enabled(After(h, s, steps), step)
    ensures Legal(h, s, steps + [step]) && After(h, s, steps + [step]) == Do(h, After(h, s, steps), step)
    ensures !step.Begins() && !step.RaiseOverflow? ==> GoesOn(steps, steps + [step])
  {
    hide Enabled;
    hide After;
    var more := steps + [step];
    AfterStep(h, s, more, |steps|);
    assert more[..|steps|] == steps && more[..|more|] == more;
    forall i | 0 <= i < |more| ensures Enabled(After(h, s, more[..i]), more[i]) {
      if i < |steps| {
        assert more[..i] == steps[..i];
      }
    }
  }

  /** The consumer alone empties the shards it has not yet come to. */
  lemma {:induction false} ConsumeRest(h: Hash, s: State, steps: seq<Step>) returns (more: seq<Step>)
    requires |s.shards| == D.SHARDS && Legal(h, s, steps)
    requires var c := After(h, s, steps);
             !c.consumer.Resting? && c.consumer.next <= D.SHARDS
    ensures GoesOn(steps, more) && Legal(h, s, more)
    ensures var c := After(h, s, steps); var e := After(h, s, more);
            && !e.consumer.Resting? && e.consumer.next == D.SHARDS && e.overflow == c.overflow && e.writers == c.writers && e.owed == c.owed
            && forall j :: 0 <= j < D.SHARDS ==> e.shards[j] == if j < c.consumer.next then c.shards[j] else {}
    decreases D.SHARDS - After(h, s, steps).consumer.next
  {
    hide After;
    hide Legal;
    var c := After(h, s, steps);
    if c.consumer.next == D.SHARDS {
      more := steps;
    } else {
      Extended(h, s, steps, ConsumeShard);
      more := ConsumeRest(h, s, steps + [ConsumeShard]);
    }
  }

  /** A running mark_all alone clears the shards it has not yet come to, and returns. */
  lemma {:induction false} ClearRest(h: Hash, s: State, steps: seq<Step>, t: nat) returns (more: seq<Step>)
    requires |s.shards| == D.SHARDS && Legal(h, s, steps)
    requires var w := WriterAt(After(h, s, steps), t); w.Clearing? && w.next < D.SHARDS
    ensures GoesOn(steps, more) && Legal(h, s, more)
    ensures var c := After(h, s, steps); var e := After(h, s, more);
            && e.writers == c.writers[t := Idle] && e.overflow == c.overflow && e.consumer == c.consumer && e.owed == c.owed
            && forall j :: 0 <= j < D.SHARDS ==> e.shards[j] == if j < WriterAt(c, t).next then c.shards[j] else {}
    decreases D.SHARDS - WriterAt(After(h, s, steps), t).next
  {
    hide After;
    hide Legal;
    var c := After(h, s, steps);
    Extended(h, s, steps, ClearShard(t));
    more := steps + [ClearShard(t)];
    if WriterAt(c, t).next + 1 < D.SHARDS {
      more := ClearRest(h, s, more, t);
    }
  }

  /** A drain or reset that has begun, carried to its end, and then a mark of the key by an idle thread. */
  lemma DrainThenMark(h: Hash, s: State, steps: seq<Step>, key: string, u: nat) returns (more: seq<Step>)
    requires |s.shards| == D.SHARDS && Legal(h, s, steps)
    requires var c := After(h, s, steps); !c.consumer.Resting? && c.consumer.next == 0 && !c.overflow && WriterAt(c, u) == Idle
    ensures GoesOn(steps, more) && Legal(h, s, more)
    ensures var c := After(h, s, steps); var e := After(h, s, more);
            && e.consumer == Resting && !e.overflow && key in e.owed && e.writers == c.writers[u := Idle]
            && forall j :: 0 <= j < D.SHARDS ==> e.shards[j] == if j == Shard(h, key) then {key} else {}
  {
    hide After;
    hide Legal;
    hide Shard;
    more := ConsumeRest(h, s, steps);
    Extended(h, s, more, EndConsume);
    more := more + [EndConsume];
    Extended(h, s, more, StartMark(u, key));
    more := more + [StartMark(u, key)];
    Extended(h, s, more, LockShard(u));
    more := more + [LockShard(u)];
  }

  /**
   A drain or reset that begins while some mark_all has yet to clear the key's shard can lose
   the key: it ends, the key is marked, and the late clear erases it. The set then reads clean.
   */
  lemma UnsafeBeginLosesKey(h: Hash, s: State, begin: Step, key: string) returns (steps: seq<Step>)
    requires Counted(h, s) && s.consumer.Resting? && begin.Begins() && !SafeFor(h, s, key)
    ensures Legal(h, s, steps) && GoesOn([begin], steps)
    ensures var e := After(h, s, steps);
            e.consumer.Resting? && !e.overflow && e.pending == 0 && key in e.owed && !Recorded(h, e, key)
    ensures forall v: nat :: WriterAt(After(h, s, steps), v) == Idle || WriterAt(After(h, s, steps), v) == WriterAt(s, v)
    ensures exists v: nat :: WriterAt(s, v).Clearing? && WriterAt(After(h, s, steps), v) == Idle
  {
    hide Legal;
    hide Shard;
    var t: nat :| WriterAt(s, t).Clearing? && WriterAt(s, t).next <= Shard(h, key);
    var u := BoundOf(s.writers.Keys + {t});
    NoSteps(h, s);
    Extended(h, s, [], begin);
    assert [] + [begin] == [begin];
    hide After;
    hide Counted;
    steps := DrainThenMark(h, s, [begin], key, u);
    steps := ClearRest(h, s, steps, t);
    StaysCounted(h, s, steps, |steps|);
    NothingPending(h, After(h, s, steps));
  }

  lemma NothingPending(h: Hash, s: State)
    requires Counted(h, s) && forall j :: 0 <= j < D.SHARDS ==> s.shards[j] == {}
    ensures s.pending == 0
  {
    D.TotalZero(s.shards);
  }

  lemma NoSteps(h: Hash, s: State)
    requires |s.shards| == D.SHARDS
    ensures Legal(h, s, []) && After(h, s, []) == s
  {
    hide Enabled;
  }

  lemma {:induction false} StaysCounted(h: Hash, s: State, steps: seq<Step>, n: nat)
    requires Counted(h, s) && Legal(h, s, steps) && n <= |steps|
    ensures Counted(h, After(h, s, steps[..n]))
    ensures n == |steps| ==> steps[..n] == steps
    decreases n
  {
    hide Counted;
    hide Enabled;
    hide Do;
    CountedShards(h, s);
    if n > 0 {
      StaysCounted(h, s, steps, n - 1);
      AfterStep(h, s, steps, n - 1);
      StepCounted(h, After(h, s, steps[..n - 1]), steps[n - 1]);
    }
  }

  /** The steps begin with `begin`, are guarded for the key from then on, and end with it owed and nowhere recorded. */
  ghost predicate Loses(h: Hash, s: State, begin: Step, steps: seq<Step>, key: string)
    requires |s.shards| == D.SHARDS
  {
    && [begin] <= steps && Legal(h, s, steps) && GuardedFrom(h, s, steps, 1, key)
    && key in After(h, s, steps).owed && !Recorded(h, After(h, s, steps), key)
  }

  /**
   Exactly when a drain or reset may begin: it can lose a key if and only if some running
   mark_all has yet to clear that key's shard.
   */
  lemma MayBeginIff(h: Hash, s: State, begin: Step, key: string)
    requires SoundFor(h, s, key) && s.consumer.Resting? && begin.Begins()
    ensures SafeFor(h, s, key) <==> !exists steps :: Loses(h, s, begin, steps, key)
  {
    hide Legal;
    hide After;
    hide Recorded;
    if SafeFor(h, s, key) {
      forall steps ensures !Loses(h, s, begin, steps, key) {
        if [begin] <= steps && Legal(h, s, steps) && GuardedFrom(h, s, steps, 1, key) {
          SafeBeginKeeps(h, s, begin, steps, key);
        }
      }
    } else {
      hide SafeFor;
      var steps := UnsafeBeginLosesKey(h, s, begin, key);
      assert Loses(h, s, begin, steps, key);
    }
  }

  lemma SafeBeginKeeps(h: Hash, s: State, begin: Step, steps: seq<Step>, key: string)
    requires SoundFor(h, s, key) && SafeFor(h, s, key) && [begin] <= steps && Legal(h, s, steps) && GuardedFrom(h, s, steps, 1, key)
    ensures key in After(h, s, steps).owed ==> Recorded(h, After(h, s, steps), key)
  {
    hide SafeFor;
    NoSteps(h, s);
    assert steps[..0] == [] && steps[..|steps|] == steps;
    GuardedRunsAreSound(h, s, steps, key, |steps|);
  }

  /** From the initial state: a run that ends with the set clean and a marked key lost. */
  lemma SplitMarkAllLosesAKey(h: Hash, key: string) returns (s: State, steps: seq<Step>)
    ensures s == After(h, Initial(), [RaiseOverflow(0)]) && Legal(h, Initial(), [RaiseOverflow(0)])
    ensures Legal(h, s, steps) && GoesOn([BeginDrain], steps)
    ensures var e := After(h, s, steps);
            && (forall t: nat :: WriterAt(e, t) == Idle) && e.consumer.Resting? && !e.overflow && e.pending == 0
            && key in e.owed && !Recorded(h, e, key)
  {
    hide Legal;
    hide Counted;
    hide Recorded;
    var i := Initial();
    InitialSound(h, key);
    NoSteps(h, i);
    Extended(h, i, [], RaiseOverflow(0));
    assert [] + [RaiseOverflow(0)] == [RaiseOverflow(0)];
    StepCounted(h, i, RaiseOverflow(0));
    s := Do(h, i, RaiseOverflow(0));
    UnsafeClear(h, s, 0, key);
    hide After;
    steps := UnsafeBeginLosesKey(h, s, BeginDrain, key);
  }

  /**
   When a key is owed: a mark that returns or turns to mark_all has made its key owed, no other
   step adds a key, and only the end of a drain or reset discharges any, a drain of recorded
   keys exactly those it hands out.
   */
  lemma OwedChanges(h: Hash, s: State, step: Step)
    requires |s.shards| == D.SHARDS && Enabled(s, step)
    ensures var after := Do(h, s, step);
            match step
            case StartMark(t, key) => after.owed == if s.overflow then s.owed + {key} else s.owed
            case LockShard(t) => after.owed == if WriterAt(after, t).Idle? then s.owed + {WriterAt(s, t).key} else s.owed
            case RaiseOverflow(t) => after.owed == if WriterAt(s, t).Full? then s.owed + {WriterAt(s, t).key} else s.owed
            case EndConsume => after.owed == if s.consumer.Taking? then s.owed - s.consumer.out else {}
            case _ => after.owed == s.owed
    ensures var after := Do(h, s, step);
            step.LockShard? ==> var key := WriterAt(s, step.t).key;
                                WriterAt(after, step.t) == if |s.shards[Shard(h, key)]| * 16 > 250_000 then Full(key) else Idle
  {
    hide Shard;
  }

  // ---- Reading the set clean --------------------------------------------------------

  /** Between the two loads of `is_clean` the flag is raised, or a drain or reset begins, only if the caller says so. */
  ghost predicate Between(steps: seq<Step>, raises: bool, begins: bool) {
    forall i :: 0 <= i < |steps| ==> (steps[i].RaiseOverflow? ==> raises) && (steps[i].Begins() ==> begins)
  }

  /** `is_clean` loads the flag in `s` and the counter after the steps: it returns true. */
  ghost predicate ReadsClean(h: Hash, s: State, steps: seq<Step>)
    requires |s.shards| == D.SHARDS
  {
    Legal(h, s, steps) && !s.overflow && After(h, s, steps).pending == 0
  }

  /** A loop already under way will come to the shard. */
  ghost predicate Doomed(s: State, j: nat) {
    || (!s.consumer.Resting? && s.consumer.next <= j)
    || exists t: nat :: WriterAt(s, t).Clearing? && WriterAt(s, t).next <= j
  }

  /** Without a raise or a begin, no step empties a shard that no running loop will come to. */
  lemma StepStaysFull(h: Hash, s: State, step: Step, j: nat)
    requires |s.shards| == D.SHARDS && j < D.SHARDS && Enabled(s, step) && !step.RaiseOverflow? && !step.Begins()
    requires s.shards[j] != {} && !Doomed(s, j)
    ensures Do(h, s, step).shards[j] != {} && !Doomed(Do(h, s, step), j)
  {
    hide Shard;
    var s' := Do(h, s, step);
    forall t: nat | WriterAt(s', t).Clearing? ensures WriterAt(s', t).next > j {
      assert WriterAt(s, t).Clearing? && WriterAt(s', t).next >= WriterAt(s, t).next;
    }
  }

  lemma {:induction false} StaysFull(h: Hash, s: State, steps: seq<Step>, j: nat, n: nat)
    requires |s.shards| == D.SHARDS && j < D.SHARDS && Legal(h, s, steps) && Between(steps, false, false) && n <= |steps|
    requires s.shards[j] != {} && !Doomed(s, j)
    ensures After(h, s, steps[..n]).shards[j] != {} && !Doomed(After(h, s, steps[..n]), j)
    decreases n
  {
    hide Doomed;
    hide Enabled;
    hide Do;
    if n > 0 {
      StaysFull(h, s, steps, j, n - 1);
      AfterStep(h, s, steps, n - 1);
      StepStaysFull(h, After(h, s, steps[..n - 1]), steps[n - 1], j);
    }
  }

  /** So a clean read leaves behind no such shard. */
  lemma CleanReadDooms(h: Hash, s: State, steps: seq<Step>, j: nat)
    requires Counted(h, s) && ReadsClean(h, s, steps) && Between(steps, false, false) && j < D.SHARDS && s.shards[j] != {}
    ensures Doomed(s, j)
  {
    hide Doomed;
    hide D.Total;
    StaysCounted(h, s, steps, |steps|);
    D.TotalZero(After(h, s, steps).shards);
    if !Doomed(s, j) {
      StaysFull(h, s, steps, j, |steps|);
    }
  }

  /** Between drains, the shard that records an owed key is one that no running loop will come to. */
  lemma OwedIsFull(h: Hash, s: State, key: string)
    requires SoundFor(h, s, key) && s.consumer.Resting? && !s.overflow && key in s.owed
    ensures s.shards[Shard(h, key)] != {} && !Doomed(s, Shard(h, key))
  {
    hide Shard;
    assert key in s.shards[Shard(h, key)];
  }

  /**
   `is_clean` between drains: when no flag is raised and no drain or reset begins between its
   two loads, a clean answer means that nothing was owed when it was asked.
   */
  lemma CleanMeansNothingOwed(h: Hash, s: State, steps: seq<Step>)
    requires forall key :: SoundFor(h, s, key)
    requires s.consumer.Resting? && ReadsClean(h, s, steps) && Between(steps, false, false)
    ensures s.owed == {}
  {
    hide Doomed;
    hide Between;
    hide Shard;
    forall key ensures key !in s.owed {
      assert SoundFor(h, s, key);
      if key in s.owed {
        OwedIsFull(h, s, key);
        CleanReadDooms(h, s, steps, Shard(h, key));
      }
    }
  }

  /** The read is clean although the key is owed. */
  ghost predicate Misses(h: Hash, s: State, steps: seq<Step>, key: string)
    requires |s.shards| == D.SHARDS
  {
    ReadsClean(h, s, steps) && key in After(h, s, steps).owed
  }

  lemma EmptyReadsClean(h: Hash, s: State, steps: seq<Step>)
    requires Counted(h, s) && !s.overflow && Legal(h, s, steps)
    requires forall j :: 0 <= j < D.SHARDS ==> After(h, s, steps).shards[j] == {}
    ensures ReadsClean(h, s, steps)
  {
    hide Counted;
    hide After;
    CountedShards(h, s);
    StaysCounted(h, s, steps, |steps|);
    var e := After(h, s, steps);
    assert Counted(h, e);
    NothingPending(h, e);
  }

  /** A whole mark_all between the loads: the counter is taken down after the flag was read. */
  lemma RaiseMisses(h: Hash, s: State, key: string, u: nat) returns (steps: seq<Step>)
    requires Counted(h, s) && !s.overflow && key in s.owed && WriterAt(s, u) == Idle
    ensures Misses(h, s, steps, key) && Between(steps, true, false)
    ensures After(h, s, steps).writers == s.writers[u := Idle] && After(h, s, steps).consumer == s.consumer
  {
    hide Legal;
    hide Counted;
    CountedShards(h, s);
    NoSteps(h, s);
    Extended(h, s, [], RaiseOverflow(u));
    assert [] + [RaiseOverflow(u)] == [RaiseOverflow(u)];
    hide After;
    steps := ClearRest(h, s, [RaiseOverflow(u)], u);
    EmptyReadsClean(h, s, steps);
  }

  /** A drain or reset that begins between the loads: the key has left its shard and is not yet handed out. */
  lemma BeginMisses(h: Hash, s: State, begin: Step, key: string) returns (steps: seq<Step>)
    requires Counted(h, s) && !s.overflow && key in s.owed && s.consumer.Resting? && begin.Begins()
    ensures Misses(h, s, steps, key) && Between(steps, false, true)
  {
    hide Legal;
    hide Counted;
    CountedShards(h, s);
    NoSteps(h, s);
    Extended(h, s, [], begin);
    assert [] + [begin] == [begin];
    hide After;
    steps := ConsumeRest(h, s, [begin]);
    EmptyReadsClean(h, s, steps);
  }

  /**
   Exactly when the two loads may mislead: between drains, a clean answer can miss a key owed
   before the first load if and only if a flag may be raised, or a drain or reset may begin,
   between the two.
   */
  lemma CleanReadIff(h: Hash, s: State, key: string, raises: bool, begins: bool)
    requires SoundFor(h, s, key) && s.consumer.Resting? && !s.overflow && key in s.owed
    ensures (exists steps :: Between(steps, raises, begins) && Misses(h, s, steps, key)) <==> raises || begins
  {
    hide ReadsClean;
    hide Doomed;
    hide Shard;
    if raises {
      var u := BoundOf(s.writers.Keys);
      var steps := RaiseMisses(h, s, key, u);
      assert Between(steps, raises, begins);
    } else if begins {
      var steps := BeginMisses(h, s, BeginDrain, key);
      assert Between(steps, raises, begins);
    } else {
      OwedIsFull(h, s, key);
      forall steps | Between(steps, raises, begins) ensures !Misses(h, s, steps, key) {
        if ReadsClean(h, s, steps) {
          CleanReadDooms(h, s, steps, Shard(h, key));
        }
      }
    }
  }

  /** Every running mark_all carried to its end, one thread after the other. */
  lemma {:induction false} ClearAll(h: Hash, s: State, steps: seq<Step>, threads: set<nat>) returns (more: seq<Step>)
    requires |s.shards| == D.SHARDS && Legal(h, s, steps)
    ensures GoesOn(steps, more) && Legal(h, s, more)
    ensures var c := After(h, s, steps); var e := After(h, s, more);
            && e.overflow == c.overflow && e.consumer == c.consumer && e.owed == c.owed
            && (forall j :: 0 <= j < D.SHARDS ==> e.shards[j] == c.shards[j] || e.shards[j] == {})
            && (forall t, j :: t in threads && WriterAt(c, t).Clearing? && WriterAt(c, t).next <= j < D.SHARDS ==> e.shards[j] == {})
    decreases |threads|
  {
    hide After;
    hide Legal;
    if threads == {} {
      more := steps;
    } else {
      var c := After(h, s, steps);
      var t :| t in threads;
      more := steps;
      if WriterAt(c, t).Clearing? && WriterAt(c, t).next < D.SHARDS {
        more := ClearRest(h, s, steps, t);
      }
      var m := After(h, s, more);
      more := ClearAll(h, s, more, threads - {t});
      var e := After(h, s, more);
      forall v, j | v in threads && WriterAt(c, v).Clearing? && WriterAt(c, v).next <= j < D.SHARDS ensures e.shards[j] == {} {
        assert v in threads - {t} ==> WriterAt(m, v) == WriterAt(c, v);
      }
    }
  }

  lemma DoomedMisses(h: Hash, s: State, key: string) returns (steps: seq<Step>)
    requires Counted(h, s) && !s.overflow && key in s.owed
    requires forall j :: 0 <= j < D.SHARDS && s.shards[j] != {} ==> Doomed(s, j)
    ensures Between(steps, false, false) && Misses(h, s, steps, key)
  {
    NoSteps(h, s);
    hide After;
    hide Legal;
    steps := ClearAll(h, s, [], s.writers.Keys);
    if !s.consumer.Resting? && s.consumer.next <= D.SHARDS {
      steps := ConsumeRest(h, s, steps);
    }
    hide Counted;
    EmptyReadsClean(h, s, steps);
  }

  /**
   The same with nothing raised and nothing begun between the loads, whatever was under way at
   the first: an owed key can be missed if and only if the loops then running will come to
   every shard that holds a key.
   */
  lemma QuietReadIff(h: Hash, s: State, key: string)
    requires Counted(h, s) && !s.overflow && key in s.owed
    ensures (exists steps :: Between(steps, false, false) && Misses(h, s, steps, key))
            <==> forall j :: 0 <= j < D.SHARDS && s.shards[j] != {} ==> Doomed(s, j)
  {
    if forall j :: 0 <= j < D.SHARDS && s.shards[j] != {} ==> Doomed(s, j) {
      var steps := DoomedMisses(h, s, key);
    } else {
      hide ReadsClean;
      hide Doomed;
      var j :| 0 <= j < D.SHARDS && s.shards[j] != {} && !Doomed(s, j);
      forall steps | Between(steps, false, false) ensures !Misses(h, s, steps, key) {
        if ReadsClean(h, s, steps) {
          CleanReadDooms(h, s, steps, j);
        }
      }
    }
  }

  /** From the initial state: a key is marked, and a read whose loads straddle a mark_all returns clean with all threads at rest. */
  lemma TwoLoadsMissAKey(h: Hash, key: string) returns (s: State, steps: seq<Step>)
    ensures Legal(h, Initial(), [StartMark(0, key), LockShard(0)]) && s == After(h, Initial(), [StartMark(0, key), LockShard(0)])
    ensures SoundFor(h, s, key) && key in s.owed && s.consumer.Resting?
    ensures Misses(h, s, steps, key) && Between(steps, true, false)
    ensures var e := After(h, s, steps); e.consumer.Resting? && forall t: nat :: WriterAt(e, t) == Idle
  {
    hide Legal;
    hide SoundFor;
    hide Shard;
    var i := Initial();
    InitialSound(h, key);
    NoSteps(h, i);
    Extended(h, i, [], StartMark(0, key));
    StepSound(h, i, StartMark(0, key), key);
    assert [] + [StartMark(0, key)] == [StartMark(0, key)];
    hide After;
    Extended(h, i, [StartMark(0, key)], LockShard(0));
    StepSound(h, After(h, i, [StartMark(0, key)]), LockShard(0), key);
    assert [StartMark(0, key)] + [LockShard(0)] == [StartMark(0, key), LockShard(0)];
    s := After(h, i, [StartMark(0, key), LockShard(0)]);
    assert s.writers == map[0 := Idle];
    SoundCounted(h, s, key);
    steps := RaiseMisses(h, s, key, 1);
  }

  lemma SoundCounted(h: Hash, s: State, key: string)
    requires SoundFor(h, s, key)
    ensures Counted(h, s)
  {
  }
}
