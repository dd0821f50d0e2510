/**
 One subscriber's frame queue (`SubSlot`, src/pubsub/slot.rs), as interleaved atomic steps
 of any number of publishers and the worker's drain, which may stop at a byte limit. The
 notification of the subscriber's token is one step here; how it travels is the protocol of
 the worker's notifier.
 */
module SubSlot {

  type Frame = seq<nat>

  datatype Publisher = Ready | Pushed | MustNotify

  datatype Drainer = Idle | Popping(out: nat, limit: nat) | Checking | Swapping | Renotify

  /** `notified`: the token was notified since the last drain began. */
  datatype State = State(
    queue: seq<Frame>, flag: bool, notified: bool,
    publishers: seq<Publisher>, drainer: Drainer,
    pushed: seq<Frame>, drained: seq<Frame>)

  datatype Step =
    | Push(p: nat, frame: Frame)
    | Swap(p: nat)
    | Notify(p: nat)
    | Begin(out: nat, limit: nat)
    | Drain

  function Init(n: nat): State {
    State([], false, false, seq(n, _ => Ready), Idle, [], [])
  }

  predicate Enabled(s: State, step: Step) {
    match step
    case Push(p, _) => p < |s.publishers| && s.publishers[p] == Ready
    case Swap(p) => p < |s.publishers| && s.publishers[p] == Pushed
    case Notify(p) => p < |s.publishers| && s.publishers[p] == MustNotify
    case Begin(_, _) => s.drainer == Idle
    case Drain => s.drainer != Idle
  }

  /** A drain that was begun with `out` bytes already buffered: the frame that reaches the limit is the last it takes. */
  function DrainStep(s: State): State
    requires s.drainer != Idle
  {
    match s.drainer
    case Popping(out, limit) =>
      if s.queue == [] then s.(drainer := Checking)
      else
        var size := out + |s.queue[0]|;
        s.(queue := s.queue[1..], drained := s.drained + [s.queue[0]], drainer := if size >= limit then Checking else Popping(size, limit))
    case Checking => s.(drainer := if s.queue == [] then Idle else Swapping)
    case Swapping => s.(flag := true, drainer := if s.flag then Idle else Renotify)
    case Renotify => s.(notified := true, drainer := Idle)
  }

  function Next(s: State, step: Step): State
    requires Enabled(s, step)
  {
    match step
    case Push(p, frame) => s.(queue := s.queue + [frame], pushed := s.pushed + [frame], publishers := s.publishers[p := Pushed])
    case Swap(p) => s.(flag := true, publishers := s.publishers[p := if s.flag then Ready else MustNotify])
    case Notify(p) => s.(notified := true, publishers := s.publishers[p := Ready])
    case Begin(out, limit) => s.(flag := false, notified := false, drainer := Popping(out, limit))
    case Drain => DrainStep(s)
  }

  ghost predicate AnyAt(s: State, phase: Publisher) {
    exists p :: 0 <= p < |s.publishers| && s.publishers[p] == phase
  }

  ghost predicate Inv(s: State) {
    && (s.flag ==> s.notified || AnyAt(s, MustNotify) || s.drainer == Renotify)
    && (s.queue != [] ==> s.flag || AnyAt(s, Pushed) || s.drainer.Popping? || s.drainer == Checking || s.drainer == Swapping)
    && s.pushed == s.drained + s.queue
  }

  lemma OtherPublisher(s: State, t: State, p: nat, phase: Publisher)
    requires p < |s.publishers| == |t.publishers| && t.publishers == s.publishers[p := t.publishers[p]]
    ensures AnyAt(s, phase) && s.publishers[p] != phase ==> AnyAt(t, phase)
    ensures t.publishers[p] == phase ==> AnyAt(t, phase)
  {
    if AnyAt(s, phase) {
      var q :| 0 <= q < |s.publishers| && s.publishers[q] == phase;
      assert q != p ==> t.publishers[q] == phase;
    }
  }

  lemma DrainKeepsInv(s: State, step: Step)
    requires Inv(s) && Enabled(s, step) && (step.Begin? || step == Drain)
    ensures Inv(Next(s, step))
  {
    var t := Next(s, step);
    assert AnyAt(s, Pushed) ==> AnyAt(t, Pushed);
    assert AnyAt(s, MustNotify) ==> AnyAt(t, MustNotify);
    hide AnyAt;
    if s.drainer.Popping? && s.queue != [] {
      assert s.queue == [s.queue[0]] + s.queue[1..];
    }
  }

  lemma PublisherKeepsInv(s: State, step: Step)
    requires Inv(s) && Enabled(s, step) && !(step.Begin? || step == Drain)
    ensures Inv(Next(s, step))
  {
    hide AnyAt;
    OtherPublisher(s, Next(s, step), step.p, Pushed);
    OtherPublisher(s, Next(s, step), step.p, MustNotify);
  }

  lemma StepKeepsInv(s: State, step: Step)
    requires Inv(s) && Enabled(s, step)
    ensures Inv(Next(s, step))
  {
    hide Inv;
    if step.Begin? || step == Drain {
      DrainKeepsInv(s, step);
    } else {
      PublisherKeepsInv(s, step);
    }
  }

  ghost predicate Reaches(s: State, steps: seq<Step>, t: State)
    decreases |steps|
  {
    if steps == [] then s == t
    else Enabled(s, steps[0]) && Reaches(Next(s, steps[0]), steps[1..], t)
  }

  lemma {:induction false} RunsKeepInv(s: State, steps: seq<Step>, t: State)
    requires Inv(s) && Reaches(s, steps, t)
    ensures Inv(t)
    decreases |steps|
  {
    if steps != [] {
      StepKeepsInv(s, steps[0]);
      RunsKeepInv(Next(s, steps[0]), steps[1..], t);
    }
  }

  predicate Quiet(s: State) {
    s.drainer == Idle && forall p :: 0 <= p < |s.publishers| ==> s.publishers[p] == Ready
  }

  /**
   In every interleaving, with nobody mid-call a non-empty queue has had its token notified
   since the last drain began, byte-limited or not; and frames leave in the order they came.
   */
  lemma NoLostNotification(n: nat, steps: seq<Step>, t: State)
    requires Reaches(Init(n), steps, t)
    ensures Quiet(t) && t.queue != [] ==> t.notified
    ensures t.pushed == t.drained + t.queue
  {
    hide Reaches;
    RunsKeepInv(Init(n), steps, t);
  }

  // ---- One drain by itself ----------------------------------------------------------

  function Size(frames: seq<Frame>): nat {
    if frames == [] then 0 else |frames[0]| + Size(frames[1..])
  }

  function DrainerAlone(s: State, n: nat): State
    decreases n
  {
    if n == 0 || s.drainer == Idle then s else DrainerAlone(DrainStep(s), n - 1)
  }

  /**
   An undisturbed drain of a non-empty queue takes the shortest non-empty prefix that fills
   the buffer to its limit, or everything, and notifies again exactly if frames are left.
   */
  lemma {:induction false} DrainTakesShortestPrefix(s: State, out: nat, limit: nat) returns (n: nat, k: nat)
    requires s.queue != [] && s.drainer == Popping(out, limit) && !s.flag && !s.notified
    ensures 0 < k <= |s.queue| && (k < |s.queue| ==> out + Size(s.queue[..k]) >= limit)
    ensures DrainerAlone(s, n) == s.(queue := s.queue[k..], drained := s.drained + s.queue[..k], flag := k < |s.queue|, notified := k < |s.queue|, drainer := Idle)
    ensures forall j :: 0 < j < k ==> out + Size(s.queue[..j]) < limit
    decreases |s.queue|
  {
    var t := DrainStep(s);
    var size := out + |s.queue[0]|;
    assert Size(s.queue[..1]) == |s.queue[0]|;
    if size >= limit || |s.queue| == 1 {
      k := 1;
      n := FinishDrain(t);
      n := n + 1;
    } else {
      var m, j := DrainTakesShortestPrefix(t, size, limit);
      n, k := m + 1, j + 1;
      forall i | 0 < i <= k ensures Size(s.queue[..i]) == |s.queue[0]| + Size(t.queue[..i - 1]) {
        assert s.queue[..i][1..] == t.queue[..i - 1];
      }
      assert s.drained + s.queue[..k] == t.drained + t.queue[..j];
    }
  }

  /** The end of a drain that pops no more. */
  lemma FinishDrain(s: State) returns (n: nat)
    requires (s.drainer == Checking || (s.drainer.Popping? && s.queue == [])) && !s.flag && !s.notified
    ensures DrainerAlone(s, n) == s.(flag := s.queue != [], notified := s.queue != [], drainer := Idle)
  {
    n := 3;
    var t := if s.drainer == Checking then s else DrainStep(s);
    assert DrainerAlone(t, 3) == t.(flag := t.queue != [], notified := t.queue != [], drainer := Idle) by {
      if t.queue != [] {
        var u := DrainStep(t);
        var v := DrainStep(u);
        assert DrainerAlone(DrainStep(v), 0) == DrainStep(v);
        assert DrainerAlone(v, 1) == DrainStep(v);
        assert DrainerAlone(u, 2) == DrainStep(v);
      }
    }
    if s.drainer != Checking {
      n := 4;
    }
  }

  /** From an idle drainer: a whole drain of a non-empty queue, from its begin. */
  lemma WholeDrain(s: State, out: nat, limit: nat) returns (n: nat, k: nat)
    requires s.queue != [] && s.drainer == Idle
    ensures Enabled(s, Begin(out, limit)) && 0 < k <= |s.queue|
    ensures DrainerAlone(Next(s, Begin(out, limit)), n)
         == s.(queue := s.queue[k..], drained := s.drained + s.queue[..k], flag := k < |s.queue|, notified := k < |s.queue|)
    ensures (k < |s.queue| ==> out + Size(s.queue[..k]) >= limit) && forall j :: 0 < j < k ==> out + Size(s.queue[..j]) < limit
  {
    hide DrainerAlone;
    hide Size;
    n, k := DrainTakesShortestPrefix(Next(s, Begin(out, limit)), out, limit);
  }

  /** An undisturbed publish: the frame is last in the queue, the flag is set, and the token notified if the flag was clear. */
  lemma PublishRuns(s: State, p: nat, frame: Frame) returns (steps: seq<Step>, t: State)
    requires p < |s.publishers| && s.publishers[p] == Ready
    ensures Reaches(s, steps, t)
    ensures t == s.(queue := s.queue + [frame], pushed := s.pushed + [frame], flag := true, notified := s.notified || !s.flag)
  {
    var a := Next(s, Push(p, frame));
    var b := Next(a, Swap(p));
    if s.flag {
      steps, t := [Push(p, frame), Swap(p)], b;
      assert Reaches(b, [], t);
      assert steps[1..] == [Swap(p)] && [Swap(p)][1..] == [];
      assert Reaches(a, [Swap(p)], t);
    } else {
      t := Next(b, Notify(p));
      steps := [Push(p, frame), Swap(p), Notify(p)];
      assert Reaches(t, [], t);
      assert steps[1..] == [Swap(p), Notify(p)] && [Swap(p), Notify(p)][1..] == [Notify(p)] && [Notify(p)][1..] == [];
      assert Reaches(b, [Notify(p)], t);
      assert Reaches(a, [Swap(p), Notify(p)], t);
    }
    assert t.publishers == s.publishers;
  }

  /** At first nothing is queued, flagged or notified. */
  lemma InitIsQuiet(n: nat)
    ensures var s := Init(n); Quiet(s) && s.queue == [] && !s.flag && !s.notified && s.pushed == s.drained == [] && |s.publishers| == n
  {
  }
}
