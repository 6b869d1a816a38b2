/**
 The lockstep mode of the client (`DeterministicRuntime`, src/client/client.rs, and its use in
 `run`): requests to advance the server by some ticks are queued, at most one step is in flight,
 and the next one is sent only after a snapshot of the last one was rendered.
 */
module Deterministic {
  import opened OrderedMaps

  /** What happens to the runtime while it is enabled, since the last reset. */
  datatype Event = Ready(now: bool) | Snapshot | Enqueued(request: Option<nat>) | Submitted(ticks: nat) | Output

  /** The requests themselves, as they were made; ticks are optional there. */
  function Requests(h: seq<Event>): seq<Option<nat>> {
    if h == [] then [] else if Last(h).Enqueued? then Requests(Init(h)) + [Last(h).request] else Requests(Init(h))
  }

  /** A request without ticks, or for none, advances one tick. */
  function TicksOf(request: Option<nat>): (ticks: nat)
    ensures request.Some? && request.value >= 1 ==> ticks == request.value
    ensures request == None || request == Some(0) ==> ticks == 1
  {
    if request.Some? && request.value > 1 then request.value else 1
  }

  function AllTicks(requests: seq<Option<nat>>): (ticks: seq<nat>)
    ensures |ticks| == |requests|
  {
    if requests == [] then [] else AllTicks(Init(requests)) + [TicksOf(Last(requests))]
  }

  /** Every number is the one that was asked for, in the same place; one where none or zero was. */
  lemma {:induction false} AllTicksAt(requests: seq<Option<nat>>, i: nat)
    requires i < |requests|
    ensures requests[i].Some? && requests[i].value >= 1 ==> AllTicks(requests)[i] == requests[i].value
    ensures requests[i] == None || requests[i] == Some(0) ==> AllTicks(requests)[i] == 1
  {
    if i < |requests| - 1 { AllTicksAt(Init(requests), i); }
  }

  lemma LastTicks(requests: seq<Option<nat>>)
    requires requests != []
    ensures AllTicks(requests) == AllTicks(Init(requests)) + [TicksOf(Last(requests))]
  {
  }

  lemma {:induction false} AllTicksConcat(a: seq<Option<nat>>, b: seq<Option<nat>>)
    ensures AllTicks(a + b) == AllTicks(a) + AllTicks(b)
    decreases |b|
  {
    if b == [] {
      assert a + b == a;
    } else {
      InitConcat(a, b);
      AllTicksConcat(a, Init(b));
      LastTicks(a + b);
      LastTicks(b);
      hide AllTicks, Init, Last;
      Assoc(AllTicks(a), AllTicks(Init(b)), [TicksOf(Last(b))]);
    }
  }

  function Submissions(h: seq<Event>): seq<nat> {
    if h == [] then [] else if Last(h).Submitted? then Submissions(Init(h)) + [Last(h).ticks] else Submissions(Init(h))
  }

  function Sum(s: seq<nat>): nat {
    if s == [] then 0 else Sum(Init(s)) + Last(s)
  }

  lemma {:induction false} SumConcat(a: seq<nat>, b: seq<nat>)
    ensures Sum(a + b) == Sum(a) + Sum(b)
  {
    if b == [] {
      assert a + b == a;
    } else {
      assert Init(a + b) == a + Init(b);
      SumConcat(a, Init(b));
    }
  }

  // ---------------------------------------------------------------- the protocol, on histories

  /** A snapshot and later the output of a frame, both in between. */
  ghost predicate Rendered(h: seq<Event>, from: nat, to: nat) {
    exists k, l :: from < k < l < to && k < |h| && l < |h| && h[k] == Snapshot && h[l] == Output
  }

  ghost predicate SnapshotSince(h: seq<Event>, from: nat, to: nat) {
    exists k :: from < k < to && k < |h| && h[k] == Snapshot
  }

  ghost predicate ReadySince(h: seq<Event>, from: nat, to: nat) {
    exists k :: from < k < to && k < |h| && h[k] == Ready(true)
  }

  /** Between any two submissions a snapshot was received and rendered, and the player was ready. */
  ghost predicate Lockstep(h: seq<Event>) {
    forall i, j :: 0 <= i < j < |h| && h[i].Submitted? && h[j].Submitted?
      ==> Rendered(h, i, j) && ReadySince(h, i, j)
  }

  /** How the fields of the runtime follow from what happened since the last reset. */
  ghost predicate Follows(h: seq<Event>, queue: seq<nat>, localReady: bool, pendingStep: Option<nat>,
                          snapshotReady: bool) {
    && (pendingStep.None? ==> forall i :: 0 <= i < |h| && h[i].Submitted? ==> Rendered(h, i, |h|))
    && (snapshotReady ==> forall i :: 0 <= i < |h| && h[i].Submitted? ==> SnapshotSince(h, i, |h|))
    && (localReady ==> forall i :: 0 <= i < |h| && h[i].Submitted? ==> ReadySince(h, i, |h|))
    && (snapshotReady ==> pendingStep.Some?)
    && (pendingStep.Some? ==> Submissions(h) != [] && Last(Submissions(h)) == pendingStep.value)
    && Submissions(h) + queue == AllTicks(Requests(h))
    && (forall i :: 0 <= i < |queue| ==> queue[i] >= 1)
    && Lockstep(h)
  }

  lemma Extended(h: seq<Event>, e: Event, from: nat, to: nat)
    requires to <= |h|
    ensures Rendered(h, from, to) ==> Rendered(h + [e], from, to) && Rendered(h + [e], from, to + 1)
    ensures SnapshotSince(h, from, to) ==> SnapshotSince(h + [e], from, to) && SnapshotSince(h + [e], from, to + 1)
    ensures ReadySince(h, from, to) ==> ReadySince(h + [e], from, to) && ReadySince(h + [e], from, to + 1)
    ensures SnapshotSince(h, from, |h|) && e == Output ==> Rendered(h + [e], from, |h| + 1)
    ensures from < |h| && e == Snapshot ==> SnapshotSince(h + [e], from, |h| + 1)
    ensures from < |h| && e == Ready(true) ==> ReadySince(h + [e], from, |h| + 1)
  {
    var r := h + [e];
    assert r[|h|] == e;
    if Rendered(h, from, to) {
      var k, l :| from < k < l < to && k < |h| && l < |h| && h[k] == Snapshot && h[l] == Output;
      assert r[k] == Snapshot && r[l] == Output;
    }
    if SnapshotSince(h, from, to) {
      var k :| from < k < to && k < |h| && h[k] == Snapshot;
      assert r[k] == Snapshot;
    }
    if SnapshotSince(h, from, |h|) && e == Output {
      var k :| from < k < |h| && h[k] == Snapshot;
      assert r[k] == Snapshot && r[|h|] == Output;
    }
    if ReadySince(h, from, to) {
      var k :| from < k < to && k < |h| && h[k] == Ready(true);
      assert r[k] == Ready(true);
    }
  }

  /** One event and the change of the fields that goes with it. */
  ghost predicate StepAllowed(e: Event, queue: seq<nat>, localReady: bool, pendingStep: Option<nat>,
                              snapshotReady: bool, queue': seq<nat>, localReady': bool, pendingStep': Option<nat>,
                              snapshotReady': bool) {
    match e
    case Ready(now) =>
      && localReady' == now
      && (queue', pendingStep', snapshotReady') == (queue, pendingStep, snapshotReady)
    case Snapshot =>
      && snapshotReady' == (snapshotReady || pendingStep.Some?)
      && (queue', localReady', pendingStep') == (queue, localReady, pendingStep)
    case Enqueued(request) =>
      && queue' == queue + [TicksOf(request)]
      && (localReady', pendingStep', snapshotReady') == (localReady, pendingStep, snapshotReady)
    case Submitted(t) =>
      && localReady && pendingStep.None?
      && [t] + queue' == queue && !localReady' && pendingStep' == Some(t) && !snapshotReady'
    case Output =>
      && queue' == queue && localReady' == localReady
      && pendingStep' == (if snapshotReady then None else pendingStep) && !snapshotReady'
  }

  /** What is submitted and queued after one more event. */
  lemma {:induction false} SentStep(h: seq<Event>, e: Event, queue: seq<nat>, queue': seq<nat>)
    requires Submissions(h) + queue == AllTicks(Requests(h))
    requires match e
             case Enqueued(request) => queue' == queue + [TicksOf(request)]
             case Submitted(t) => [t] + queue' == queue
             case _ => queue' == queue
    ensures Submissions(h + [e]) + queue' == AllTicks(Requests(h + [e]))
    ensures e.Submitted? ==> Submissions(h + [e]) == Submissions(h) + [e.ticks]
    ensures !e.Submitted? ==> Submissions(h + [e]) == Submissions(h)
  {
    var r := h + [e];
    assert Init(r) == h && Last(r) == e;
    match e
    case Enqueued(request) =>
      AllTicksConcat(Requests(h), [request]);
      OneRequest(request);
      hide Submissions, AllTicks;
      Assoc(Submissions(h), queue, [TicksOf(request)]);
    case Submitted(t) =>
      Assoc(Submissions(h), [t], queue');
    case _ =>
  }

  lemma OneRequest(request: Option<nat>)
    ensures AllTicks([request]) == [TicksOf(request)]
  {
  }

  lemma {:induction false} FollowsStep(h: seq<Event>, e: Event, queue: seq<nat>, localReady: bool,
                                       pendingStep: Option<nat>, snapshotReady: bool, queue': seq<nat>,
                                       localReady': bool, pendingStep': Option<nat>, snapshotReady': bool)
    requires Follows(h, queue, localReady, pendingStep, snapshotReady)
    requires StepAllowed(e, queue, localReady, pendingStep, snapshotReady,
                         queue', localReady', pendingStep', snapshotReady')
    ensures Follows(h + [e], queue', localReady', pendingStep', snapshotReady')
  {
    var r := h + [e];
    assert Init(r) == h && Last(r) == e;
    LockstepStep(h, e, localReady, pendingStep);
    hide Rendered, SnapshotSince, ReadySince, Lockstep;
    forall i | 0 <= i < |r| && r[i].Submitted?
      ensures pendingStep'.None? ==> Rendered(r, i, |r|)
      ensures snapshotReady' ==> SnapshotSince(r, i, |r|)
      ensures localReady' ==> ReadySince(r, i, |r|)
    {
      Extended(h, e, i, |h|);
      if i < |h| { assert r[i] == h[i]; }
    }
    if e.Submitted? { assert forall i :: 0 <= i < |queue'| ==> queue'[i] == queue[i + 1]; }
    SentStep(h, e, queue, queue');
    hide Submissions, Requests, AllTicks;
  }

  lemma LockstepStep(h: seq<Event>, e: Event, localReady: bool, pendingStep: Option<nat>)
    requires Lockstep(h)
    requires pendingStep.None? ==> forall i :: 0 <= i < |h| && h[i].Submitted? ==> Rendered(h, i, |h|)
    requires localReady ==> forall i :: 0 <= i < |h| && h[i].Submitted? ==> ReadySince(h, i, |h|)
    requires e.Submitted? ==> localReady && pendingStep.None?
    ensures Lockstep(h + [e])
  {
    var r := h + [e];
    hide Rendered, ReadySince;
    forall i, j | 0 <= i < j < |r| && r[i].Submitted? && r[j].Submitted?
      ensures Rendered(r, i, j) && ReadySince(r, i, j)
    {
      Extended(h, e, i, j);
      assert r[i] == h[i];
      if j < |h| { assert r[j] == h[j]; assert Rendered(h, i, j); }
    }
  }

  /** Ticks are neither lost nor made up: what was submitted and what is queued are the numbers that were
      asked for, in order. */
  lemma TicksConserved(h: seq<Event>, queue: seq<nat>, localReady: bool, pendingStep: Option<nat>, snapshotReady: bool)
    requires Follows(h, queue, localReady, pendingStep, snapshotReady)
    ensures var all, asked := Submissions(h) + queue, Requests(h);
            && |all| == |asked|
            && (forall i :: 0 <= i < |asked| && asked[i].Some? && asked[i].value >= 1 ==> all[i] == asked[i].value)
            && (forall i :: 0 <= i < |asked| && (asked[i] == None || asked[i] == Some(0)) ==> all[i] == 1)
            && Sum(Submissions(h)) + Sum(queue) == Sum(all)
  {
    SumConcat(Submissions(h), queue);
    var asked := Requests(h);
    hide AllTicks;
    forall i | 0 <= i < |asked|
      ensures asked[i].Some? && asked[i].value >= 1 ==> AllTicks(asked)[i] == asked[i].value
      ensures asked[i] == None || asked[i] == Some(0) ==> AllTicks(asked)[i] == 1
    {
      AllTicksAt(asked, i);
    }
  }

  // ---------------------------------------------------------------- frames

  datatype Game = NoGame | WaitingForFirstSnapshot | Active

  /** What one frame of the client finds: whether the local player is ready, whether a snapshot
      arrived, and the flush requests made by input (the ticks are optional there). */
  datatype Frame = Frame(game: Game, ready: bool, snapshot: bool, hasInput: bool, flushes: seq<Option<nat>>)

  datatype Machine = Machine(queue: seq<nat>, localReady: bool, pendingStep: Option<nat>, snapshotReady: bool)

  const IDLE := Machine([], false, None, false)

  predicate Allows(m: Machine) {
    m.localReady && m.pendingStep.None? && !m.snapshotReady
  }

  /** The frame up to the point where inputs are flushed. */
  function Collected(m: Machine, f: Frame): Machine {
    var m1 := if f.game.NoGame? then IDLE else m.(localReady := f.ready);
    var m2 := if f.snapshot && m1.pendingStep.Some? then m1.(snapshotReady := true) else m1;
    if f.game.Active? && f.hasInput && Allows(m2) then m2.(queue := m2.queue + AllTicks(f.flushes)) else m2
  }

  function Rendering(m: Machine): Machine {
    if m.snapshotReady then m.(snapshotReady := false, pendingStep := None) else m
  }

  /** A whole frame of the enabled runtime, with the step that is sent to the server, if any. */
  function FrameStep(m: Machine, f: Frame): (Machine, Option<nat>) {
    var c := Collected(m, f);
    if f.game.Active? && Allows(c) && c.queue != []
    then (Rendering(Machine(c.queue[1..], false, Some(c.queue[0]), false)), Some(c.queue[0]))
    else (Rendering(c), None)
  }

  /** The runtime after some frames, and the steps sent in them. */
  function Run(m: Machine, frames: seq<Frame>): (Machine, seq<nat>)
    decreases |frames|
  {
    if frames == [] then (m, []) else
    var (m', step) := FrameStep(m, frames[0]);
    var (end, steps) := Run(m', frames[1..]);
    (end, if step.Some? then [step.value] + steps else steps)
  }

  /** Whether the flush requests of a frame are collected: with a ready player and nothing in flight. */
  predicate Takes(m: Machine, f: Frame) {
    f.game.Active? && f.hasInput && f.ready && m.pendingStep.None? && !m.snapshotReady
  }

  /** The requests that are collected in a run of frames. */
  function Collects(m: Machine, frames: seq<Frame>): seq<Option<nat>>
    decreases |frames|
  {
    if frames == [] then [] else
    (if Takes(m, frames[0]) then frames[0].flushes else []) + Collects(FrameStep(m, frames[0]).0, frames[1..])
  }

  /** Over any run of frames with a game, the steps that are sent and what stays queued are what was queued
      before and the numbers asked for in the run, in order. */
  lemma {:induction false} RunConserves(m: Machine, frames: seq<Frame>)
    requires m.snapshotReady ==> m.pendingStep.Some?
    requires forall i :: 0 <= i < |frames| ==> !frames[i].game.NoGame?
    ensures Run(m, frames).1 + Run(m, frames).0.queue == m.queue + AllTicks(Collects(m, frames))
    decreases |frames|
  {
    hide *;
    if frames == [] {
      NoFrames(m, frames);
    } else {
      var f, rest := frames[0], frames[1..];
      var (m', step) := FrameStep(m, f);
      FirstFrame(m, frames);
      FrameConserves(m, f);
      RunConserves(m', rest);
      var now := if Takes(m, f) then f.flushes else [];
      AllTicksConcat(now, Collects(m', rest));
      Regroup(if step.Some? then [step.value] else [], m'.queue, m.queue, AllTicks(now), Run(m', rest).1,
              Run(m', rest).0.queue, AllTicks(Collects(m', rest)));
    }
  }

  lemma NoFrames(m: Machine, frames: seq<Frame>)
    requires frames == []
    ensures Run(m, frames).1 + Run(m, frames).0.queue == m.queue + AllTicks(Collects(m, frames))
  {
  }

  lemma FirstFrame(m: Machine, frames: seq<Frame>)
    requires frames != []
    ensures var (m', step) := FrameStep(m, frames[0]);
            && Run(m, frames).0 == Run(m', frames[1..]).0
            && Run(m, frames).1 == (if step.Some? then [step.value] else []) + Run(m', frames[1..]).1
            && Collects(m, frames)
               == (if Takes(m, frames[0]) then frames[0].flushes else []) + Collects(m', frames[1..])
  {
    hide FrameStep, Takes;
  }

  lemma Regroup<T>(sent: seq<T>, kept: seq<T>, queue: seq<T>, now: seq<T>, steps: seq<T>, end: seq<T>, later: seq<T>)
    requires sent + kept == queue + now && steps + end == kept + later
    ensures (sent + steps) + end == queue + (now + later)
  {
    Assoc(sent, steps, end);
    Assoc(sent, kept, later);
    Assoc(queue, now, later);
  }

  lemma {:induction false} FrameConserves(m: Machine, f: Frame)
    requires (m.snapshotReady ==> m.pendingStep.Some?) && !f.game.NoGame?
    ensures var (m', step) := FrameStep(m, f);
            && (m'.snapshotReady ==> m'.pendingStep.Some?)
            && (if step.Some? then [step.value] else []) + m'.queue
               == m.queue + AllTicks(if Takes(m, f) then f.flushes else [])
  {
    assert m.queue + [] == m.queue;
  }

  /** A frame without a game forgets everything and sends nothing; conservation starts anew. */
  lemma ResetForgets(m: Machine, f: Frame)
    requires f.game.NoGame?
    ensures FrameStep(m, f) == (IDLE, None)
  {
  }

  /** Whatever the environment does, at most every other frame sends a step. */
  lemma {:induction false} AtMostEveryOtherFrame(m: Machine, frames: seq<Frame>)
    ensures |Run(m, frames).1| <= (|frames| + 1) / 2
    decreases |frames|
  {
    if |frames| >= 1 {
      var (m1, step1) := FrameStep(m, frames[0]);
      if step1.None? || |frames| == 1 {
        AtMostEveryOtherFrame(m1, frames[1..]);
      } else {
        var (m2, step2) := FrameStep(m1, frames[1]);
        assert step2.None?;
        AtMostEveryOtherFrame(m2, frames[2..]);
        assert frames[1..][1..] == frames[2..];
      }
    }
  }

  /** A ready player, no new requests, and for every step sent a snapshot in the next frame. */
  ghost predicate Prompt(frames: seq<Frame>) {
    && (forall i :: 0 <= i < |frames| ==> frames[i].game.Active? && frames[i].ready && frames[i].flushes == [])
    && (forall i :: 0 <= i < |frames| && i % 2 == 1 ==> frames[i].snapshot)
  }

  lemma SendFrame(m: Machine, f: Frame)
    requires f.game.Active? && f.ready && f.flushes == [] && m.pendingStep.None? && !m.snapshotReady && m.queue != []
    ensures FrameStep(m, f) == (Machine(m.queue[1..], false, Some(m.queue[0]), false), Some(m.queue[0]))
  {
    assert m.queue + [] == m.queue;
  }

  lemma SnapshotFrame(m: Machine, f: Frame)
    requires f.game.Active? && f.ready && f.flushes == [] && m.pendingStep.Some? && f.snapshot
    ensures FrameStep(m, f) == (Machine(m.queue, true, None, false), None)
  {
  }

  /** With prompt snapshots n queued requests are sent, in order, in 2n - 1 frames. */
  lemma {:induction false} DrainsInOrder(m: Machine, frames: seq<Frame>)
    requires m.pendingStep.None? && !m.snapshotReady && m.queue != []
    requires Prompt(frames) && |frames| == 2 * |m.queue| - 1
    ensures Run(m, frames).1 == m.queue && Run(m, frames).0.queue == []
    decreases |m.queue|
  {
    SendFrame(m, frames[0]);
    var m1 := FrameStep(m, frames[0]).0;
    if |m.queue| == 1 {
      assert frames[1..] == [];
    } else {
      SnapshotFrame(m1, frames[1]);
      var m2 := FrameStep(m1, frames[1]).0;
      var rest := frames[2..];
      assert frames[1..][1..] == rest;
      assert forall i :: 0 <= i < |rest| ==> rest[i] == frames[i + 2];
      DrainsInOrder(m2, rest);
      assert Run(m1, frames[1..]) == Run(m2, rest);
    }
  }

  /** No environment drains the queue faster. */
  lemma NoFasterDrain(m: Machine, frames: seq<Frame>, n: nat)
    requires |Run(m, frames).1| >= n >= 1
    ensures |frames| >= 2 * n - 1
  {
    AtMostEveryOtherFrame(m, frames);
  }

  // ---------------------------------------------------------------- the runtime object

  class DeterministicRuntime {
    const enabled: bool
    var queue: seq<nat>
    var localReady: bool
    var pendingStep: Option<nat>
    var snapshotReady: bool

    /** What happened since the last reset. */
    ghost var history: seq<Event>

    ghost predicate Valid() reads this {
      if enabled then Follows(history, queue, localReady, pendingStep, snapshotReady)
      else State() == IDLE && history == []
    }

    function State(): Machine reads this {
      Machine(queue, localReady, pendingStep, snapshotReady)
    }

    constructor (deterministicMode: bool)
      ensures Valid() && State() == IDLE && enabled == deterministicMode && history == []
    {
      enabled, queue, localReady, pendingStep, snapshotReady, history := deterministicMode, [], false, None, false, [];
    }

    method Reset()
      modifies this
      ensures Valid() && State() == IDLE && history == []
    {
      localReady, queue, pendingStep, snapshotReady, history := false, [], None, false, [];
    }

    method UpdateReady(ready: bool, hasGame: bool)
      requires Valid()
      modifies this
      ensures Valid()
      ensures !enabled ==> State() == old(State())
      ensures enabled ==> State() == if hasGame then old(State()).(localReady := ready) else IDLE
      ensures enabled ==> history == if hasGame then old(history) + [Ready(ready)] else []
    {
      if !enabled { return; }
      if !hasGame {
        Reset();
        return;
      }
      FollowsStep(history, Ready(ready), queue, localReady, pendingStep, snapshotReady, queue, ready, pendingStep,
          snapshotReady);
      hide Follows;
      localReady, history := ready, history + [Ready(ready)];
    }

    method EnqueueFlush(ticks: Option<nat>)
      requires Valid()
      modifies this`queue, this`history
      ensures Valid()
      ensures !enabled ==> queue == old(queue) && history == old(history)
      ensures enabled && ticks.Some? && ticks.value >= 1 ==> queue == old(queue) + [ticks.value]
      ensures enabled && (ticks == None || ticks == Some(0)) ==> queue == old(queue) + [1]
      ensures enabled ==> queue == old(queue) + [TicksOf(ticks)] && history == old(history) + [Enqueued(ticks)]
    {
      if !enabled { return; }
      var t := Max(if ticks.Some? then ticks.value else 1, 1);
      FollowsStep(history, Enqueued(ticks), queue, localReady, pendingStep, snapshotReady, queue + [t], localReady,
          pendingStep, snapshotReady);
      hide Follows;
      queue, history := queue + [t], history + [Enqueued(ticks)];
    }

    predicate AllowsInputCollection() reads this {
      !enabled || Allows(State())
    }

    /** Hands out the oldest request; it is submitted before anything else happens. */
    method TakePendingFlush() returns (r: Option<nat>)
      modifies this`queue
      ensures r.Some? <==> enabled && AllowsInputCollection() && old(queue) != []
      ensures r.Some? ==> old(queue) == [r.value] + queue
      ensures r.None? ==> queue == old(queue)
    {
      if !enabled || !AllowsInputCollection() || queue == [] { return None; }
      r := Some(queue[0]);
      queue := queue[1..];
    }

    method MarkInputsSubmitted(request: nat)
      requires enabled ==> && Follows(history, [request] + queue, localReady, pendingStep, snapshotReady)
                           && AllowsInputCollection()
      requires !enabled ==> Valid()
      modifies this
      ensures Valid() && queue == old(queue)
      ensures enabled ==> && State() == Machine(queue, false, Some(request), false)
                          && history == old(history) + [Submitted(request)]
      ensures !enabled ==> State() == old(State())
    {
      if !enabled { return; }
      FollowsStep(history, Submitted(request), [request] + queue, localReady, pendingStep, snapshotReady, queue,
          false, Some(request), false);
      hide Follows;
      pendingStep, snapshotReady, localReady, history := Some(request), false, false, history + [Submitted(request)];
    }

    method MarkSnapshotReceived()
      requires Valid()
      modifies this`snapshotReady, this`history
      ensures Valid() && snapshotReady == old(snapshotReady || (enabled && pendingStep.Some?))
      ensures history == old(history) + if enabled then [Snapshot] else []
    {
      if !enabled { return; }
      FollowsStep(history, Snapshot, queue, localReady, pendingStep, snapshotReady,
                  queue, localReady, pendingStep, snapshotReady || pendingStep.Some?);
      hide Follows;
      history := history + [Snapshot];
      if pendingStep.Some? { snapshotReady := true; }
    }

    method FinishOutput()
      requires Valid()
      modifies this`snapshotReady, this`pendingStep, this`history
      ensures Valid() && (enabled ==> State() == Rendering(old(State())))
      ensures !enabled ==> State() == old(State())
      ensures history == old(history) + if enabled then [Output] else []
    {
      if !enabled { return; }
      var m := Rendering(State());
      FollowsStep(history, Output, queue, localReady, pendingStep, snapshotReady, m.queue, m.localReady,
          m.pendingStep, m.snapshotReady);
      hide Follows;
      history := history + [Output];
      if snapshotReady { snapshotReady, pendingStep := false, None; }
    }

    method CollectFlushes(flushes: seq<Option<nat>>)
      requires Valid()
      modifies this`queue, this`history
      ensures Valid()
      ensures queue == if enabled then old(queue) + AllTicks(flushes) else old(queue)
    {
      var i := 0;
      hide Follows;
      while i < |flushes|
        invariant i <= |flushes| && Valid()
        invariant queue == if enabled then old(queue) + AllTicks(flushes[..i]) else old(queue)
      {
        assert Init(flushes[..i + 1]) == flushes[..i];
        EnqueueFlush(flushes[i]);
        i := i + 1;
      }
      assert flushes[..i] == flushes;
    }

    /** The part of a frame before inputs are flushed. */
    method Collect(f: Frame)
      requires Valid()
      modifies this
      ensures Valid() && State() == if enabled then Collected(old(State()), f) else IDLE
      ensures enabled && !f.game.NoGame? ==> pendingStep == old(pendingStep)
    {
      hide Follows;
      if enabled {
        UpdateReady(f.ready, !f.game.NoGame?);
        if f.snapshot { MarkSnapshotReceived(); }
      } else {
        Reset();
      }
      if f.game.Active? && f.hasInput && AllowsInputCollection() { CollectFlushes(f.flushes); }
    }

    /** One frame of the client: at most one step is sent, and only while none is in flight. */
    method RunFrame(f: Frame) returns (step: Option<nat>)
      requires Valid()
      modifies this
      ensures Valid()
      ensures if enabled then (State(), step) == FrameStep(old(State()), f) else State() == IDLE && step == None
      ensures step.Some? ==> old(pendingStep).None?
    {
      hide Follows, Collected;
      Collect(f);
      step := None;
      if f.game.Active? && enabled {
        step := TakePendingFlush();
        if step.Some? { MarkInputsSubmitted(step.value); }
      }
      FinishOutput();
    }
  }
}
