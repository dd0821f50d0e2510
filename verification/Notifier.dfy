/**
 The wake-up protocol of a worker (src/pubsub/slot.rs), as interleaved atomic steps of any
 number of producers and one worker that share three queues, a pending flag for each, and
 one wake. A producer pushes, then sets the flag, and wakes the worker only if the flag was
 clear. The worker, once woken, drains the queues in turn, and re-arms a flag when it finds
 entries behind its back.
 */
module Notifier {

  const CHANNELS: nat := 3
  const FANOUT: nat := 2

  /** 0: completions, 1: pending tokens, 2: fan-out entries. */
  type Channel = c: nat | c < CHANNELS

  datatype Producer = Ready | Pushed(channel: Channel) | Loaded(channel: Channel) | MustWake(channel: Channel)

  /** Where the worker is in its three drains: popping, at the end of the pops, past clearing the flag, or having seen an entry after that. */
  datatype Worker = Idle | Popping(channel: Channel) | Emptied(channel: Channel) | Cleared(channel: Channel) | Found(channel: Channel)

  datatype State = State(
    queues: seq<seq<nat>>, flags: seq<bool>, wake: bool,
    producers: seq<Producer>, worker: Worker,
    pushed: seq<seq<nat>>, delivered: seq<seq<nat>>)

  datatype Step =
    | Push(p: nat, channel: Channel, entry: nat)
    | Load(p: nat)
    | Swap(p: nat)
    | Wake(p: nat)
    | Work

  predicate Shaped(s: State) {
    |s.queues| == |s.flags| == |s.pushed| == |s.delivered| == CHANNELS
  }

  function Init(n: nat): State {
    State([[], [], []], [false, false, false], false, seq(n, _ => Ready), Idle, [[], [], []], [[], [], []])
  }

  predicate Enabled(s: State, step: Step)
    requires Shaped(s)
  {
    match step
    case Push(p, _, _) => p < |s.producers| && s.producers[p] == Ready
    case Load(p) => p < |s.producers| && s.producers[p] == Pushed(FANOUT)
    case Swap(p) => p < |s.producers| && (s.producers[p].Loaded? || (s.producers[p].Pushed? && s.producers[p].channel != FANOUT))
    case Wake(p) => p < |s.producers| && s.producers[p].MustWake?
    case Work => s.worker != Idle || s.wake
  }

  /** The drain after channel `c`'s. */
  function After(c: Channel): Worker {
    if c + 1 < CHANNELS then Popping(c + 1) else Idle
  }

  function WorkerStep(s: State): State
    requires Shaped(s) && (s.worker != Idle || s.wake)
  {
    match s.worker
    case Idle => s.(wake := false, worker := Popping(0))
    case Popping(c) =>
      if s.queues[c] == [] then s.(worker := Emptied(c))
      else s.(queues := s.queues[c := s.queues[c][1..]], delivered := s.delivered[c := s.delivered[c] + [s.queues[c][0]]])
    case Emptied(c) => s.(flags := s.flags[c := false], worker := Cleared(c))
    case Cleared(c) => s.(worker := if s.queues[c] == [] then After(c) else Found(c))
    case Found(c) => s.(flags := s.flags[c := true], worker := if s.flags[c] then After(c) else Popping(c))
  }

  function Next(s: State, step: Step): State
    requires Shaped(s) && Enabled(s, step)
  {
    match step
    case Push(p, c, x) =>
      s.(queues := s.queues[c := s.queues[c] + [x]], pushed := s.pushed[c := s.pushed[c] + [x]], producers := s.producers[p := Pushed(c)])
    case Load(p) =>
      s.(producers := s.producers[p := if s.flags[FANOUT] then Ready else Loaded(FANOUT)])
    case Swap(p) =>
      var c := s.producers[p].channel;
      s.(flags := s.flags[c := true], producers := s.producers[p := if s.flags[c] then Ready else MustWake(c)])
    case Wake(p) =>
      s.(wake := true, producers := s.producers[p := Ready])
    case Work => WorkerStep(s)
  }

  // ---- The invariant ----------------------------------------------------------------

  /** Some producer is about to wake the worker for the channel. */
  ghost predicate Waking(s: State, c: Channel) {
    exists p :: 0 <= p < |s.producers| && s.producers[p] == MustWake(c)
  }

  /** Some producer has pushed to the channel and not yet looked at its flag for good. */
  ghost predicate Arriving(s: State, c: Channel) {
    exists p :: 0 <= p < |s.producers| && (s.producers[p] == Pushed(c) || s.producers[p] == Loaded(c))
  }

  /** The worker will still clear the channel's flag in the pass it is in. */
  predicate WillClear(w: Worker, c: Channel) {
    match w
    case Idle => false
    case Popping(d) => d <= c
    case Emptied(d) => d <= c
    case Cleared(d) => d < c
    case Found(d) => d < c
  }

  ghost predicate ChannelOk(s: State, c: Channel)
    requires Shaped(s)
  {
    && (s.flags[c] ==> s.wake || Waking(s, c) || WillClear(s.worker, c))
    && (s.queues[c] != [] ==> s.flags[c] || Arriving(s, c) || s.worker == Cleared(c) || s.worker == Found(c))
    && s.pushed[c] == s.delivered[c] + s.queues[c]
  }

  ghost predicate Inv(s: State) {
    Shaped(s) && forall c: Channel :: ChannelOk(s, c)
  }

  lemma OtherProducer(s: State, t: State, p: nat, c: Channel)
    requires p < |s.producers| == |t.producers| && t.producers == s.producers[p := t.producers[p]]
    ensures Waking(s, c) && s.producers[p] != MustWake(c) ==> Waking(t, c)
    ensures Arriving(s, c) && s.producers[p] != Pushed(c) && s.producers[p] != Loaded(c) ==> Arriving(t, c)
    ensures t.producers[p] == MustWake(c) ==> Waking(t, c)
    ensures t.producers[p] == Pushed(c) || t.producers[p] == Loaded(c) ==> Arriving(t, c)
  {
    if Waking(s, c) {
      var q :| 0 <= q < |s.producers| && s.producers[q] == MustWake(c);
      assert q != p ==> t.producers[q] == MustWake(c);
    }
    if Arriving(s, c) {
      var q :| 0 <= q < |s.producers| && (s.producers[q] == Pushed(c) || s.producers[q] == Loaded(c));
      assert q != p ==> t.producers[q] == s.producers[q];
    }
  }

  lemma ProducerStepKeepsChannel(s: State, step: Step, c: Channel)
    requires Inv(s) && Enabled(s, step) && step != Work
    ensures ChannelOk(Next(s, step), c)
  {
    hide Waking;
    hide Arriving;
    assert ChannelOk(s, c);
    OtherProducer(s, Next(s, step), step.p, c);
  }

  lemma WorkerStepKeepsChannel(s: State, c: Channel)
    requires Inv(s) && Enabled(s, Work)
    ensures ChannelOk(WorkerStep(s), c)
  {
    var t := WorkerStep(s);
    assert ChannelOk(s, c);
    assert Waking(s, c) ==> Waking(t, c);
    assert Arriving(s, c) ==> Arriving(t, c);
    hide Waking;
    hide Arriving;
    if s.worker == Popping(c) && s.queues[c] != [] {
      assert s.queues[c] == [s.queues[c][0]] + s.queues[c][1..];
    }
  }

  lemma StepKeepsInv(s: State, step: Step)
    requires Inv(s) && Enabled(s, step)
    ensures Inv(Next(s, step))
  {
    hide ChannelOk;
    forall c: Channel ensures ChannelOk(Next(s, step), c) {
      if step == Work {
        WorkerStepKeepsChannel(s, c);
      } else {
        ProducerStepKeepsChannel(s, step, c);
      }
    }
  }

  // ---- Runs -------------------------------------------------------------------------

  /** The state after a run, or nothing if some step was not enabled. */
  ghost predicate Reaches(s: State, steps: seq<Step>, t: State)
    requires Shaped(s)
    decreases |steps|
  {
    if steps == [] then s == t
    else Enabled(s, steps[0]) && Reaches(Next(s, steps[0]), steps[1..], t)
  }

  lemma {:induction false} RunsKeepInv(s: State, steps: seq<Step>, t: State)
    requires Inv(s) && Reaches(s, steps, t)
    ensures Inv(t)
    decreases |steps|
  {
    if steps != [] {
      StepKeepsInv(s, steps[0]);
      RunsKeepInv(Next(s, steps[0]), steps[1..], t);
    }
  }

  predicate Quiet(s: State) {
    forall p :: 0 <= p < |s.producers| ==> s.producers[p] == Ready
  }

  /** No lost wake-up, in any interleaving; and nothing pushed is lost, repeated or reordered. */
  lemma NoLostWakeUp(n: nat, steps: seq<Step>, t: State)
    requires Reaches(Init(n), steps, t)
    ensures Shaped(t)
    ensures Quiet(t) && t.worker == Idle && (exists c: Channel :: t.queues[c] != []) ==> t.wake
    ensures forall c: Channel :: t.pushed[c] == t.delivered[c] + t.queues[c]
  {
    hide Reaches;
    assert Inv(Init(n));
    RunsKeepInv(Init(n), steps, t);
    forall c: Channel ensures t.pushed[c] == t.delivered[c] + t.queues[c] {
      assert ChannelOk(t, c);
    }
    if Quiet(t) && t.worker == Idle && exists c: Channel :: t.queues[c] != [] {
      var c: Channel :| t.queues[c] != [];
      QuietFlags(t, c);
    }
  }

  lemma QuietFlags(s: State, c: Channel)
    requires Inv(s) && Quiet(s) && s.worker == Idle
    ensures s.queues[c] != [] ==> s.wake
  {
    assert ChannelOk(s, c);
  }

  // ---- The worker alone -------------------------------------------------------------

  function WorkerAlone(s: State, n: nat): (t: State)
    requires Shaped(s)
    ensures Shaped(t)
    decreases n
  {
    if n == 0 || (s.worker == Idle && !s.wake) then s else WorkerAlone(WorkerStep(s), n - 1)
  }

  function Rank(s: State): nat
    requires Shaped(s)
  {
    match s.worker
    case Idle => 0
    case Popping(c) => |s.queues[c]| + 3
    case Emptied(c) => if s.queues[c] == [] then 2 else |s.queues[c]| + 6
    case Cleared(c) => if s.queues[c] == [] then 1 else |s.queues[c]| + 5
    case Found(c) => |s.queues[c]| + 4
  }

  function ChannelsLeft(w: Worker): nat {
    if w == Idle then 0 else CHANNELS - w.channel
  }

  /** Once the producers are quiet, the worker by itself delivers all that was pushed, and goes to sleep. */
  lemma {:induction false} EverythingIsDelivered(s: State) returns (n: nat)
    requires Inv(s) && Quiet(s)
    ensures var t := WorkerAlone(s, n);
            t.worker == Idle && !t.wake && forall c: Channel :: t.queues[c] == [] && t.delivered[c] == s.pushed[c]
    decreases if s.wake then 1 else 0, ChannelsLeft(s.worker), Rank(s)
  {
    if s.worker == Idle && !s.wake {
      n := 0;
      forall c: Channel ensures s.queues[c] == [] && s.delivered[c] == s.pushed[c] {
        QuietFlags(s, c);
        assert ChannelOk(s, c);
      }
    } else {
      StepKeepsInv(s, Work);
      var m := EverythingIsDelivered(WorkerStep(s));
      n := m + 1;
    }
  }

  // ---- A producer alone -------------------------------------------------------------

  /** At first nothing is queued, flagged or woken. */
  lemma InitIsQuiet(n: nat)
    ensures var s := Init(n); Quiet(s) && s.worker == Idle && !s.wake && |s.producers| == n
    ensures forall c: Channel :: Init(n).queues[c] == [] && !Init(n).flags[c] && Init(n).pushed[c] == [] && Init(n).delivered[c] == []
  {
  }

  lemma NoSteps(s: State)
    requires Shaped(s)
    ensures Reaches(s, [], s)
  {
  }

  lemma {:induction false} ReachesOne(s: State, steps: seq<Step>, t: State, step: Step)
    requires Shaped(s) && Shaped(t) && Reaches(s, steps, t) && Enabled(t, step)
    ensures Reaches(s, steps + [step], Next(t, step)) && Shaped(Next(t, step))
    decreases |steps|
  {
    if steps == [] {
      assert [] + [step] == [step] && [step][1..] == [];
    } else {
      ReachesOne(Next(s, steps[0]), steps[1..], t, step);
      assert (steps + [step])[1..] == steps[1..] + [step];
    }
  }

  /** An undisturbed push: the entry is last in its queue, the flag is set, and the worker is woken if the flag was clear. */
  lemma PushRuns(s: State, p: nat, c: Channel, x: nat) returns (steps: seq<Step>, t: State)
    requires Shaped(s) && p < |s.producers| && s.producers[p] == Ready
    ensures Reaches(s, steps, t)
    ensures t == s.(queues := s.queues[c := s.queues[c] + [x]], pushed := s.pushed[c := s.pushed[c] + [x]],
                    flags := s.flags[c := true], wake := s.wake || !s.flags[c])
  {
    var a := Next(s, Push(p, c, x));
    var before: seq<Step> := [Push(p, c, x)];
    var b := a;
    if c == FANOUT {
      b := Next(a, Load(p));
      before := before + [Load(p)];
    }
    NoSteps(s);
    ReachesOne(s, [], s, Push(p, c, x));
    assert [] + [Push(p, c, x)] == [Push(p, c, x)];
    if c == FANOUT {
      ReachesOne(s, [Push(p, c, x)], a, Load(p));
    }
    if c == FANOUT && s.flags[c] {
      steps, t := before, b;
    } else {
      var d := Next(b, Swap(p));
      ReachesOne(s, before, b, Swap(p));
      before := before + [Swap(p)];
      if s.flags[c] {
        steps, t := before, d;
      } else {
        ReachesOne(s, before, d, Wake(p));
        steps, t := before + [Wake(p)], Next(d, Wake(p));
      }
    }
    assert t.producers == s.producers && t.flags == s.flags[c := true];
  }
}
