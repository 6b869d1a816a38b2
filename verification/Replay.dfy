/**
 The replay buffer (game/client-replay/src/replay.rs): snapshots and events of the last 30
 seconds, cut at every call, and turned into a demo in memory on request.

 The reference keeps all calls: an entry survives if its tick is no more than the window behind
 the tick of any call since it was added, of either kind.
 */
module Replay {
  import opened OrderedMaps
  import opened DemoTypes
  import opened DemoCodec
  import opened DemoChunk
  import opened DemoFile
  import opened DemoWriter
  import opened DemoRoundTrip
  import Recorder = DemoRecorder

  const REPLAY_TIME_SECS: nat := 30

  datatype Call = SnapshotCall(tick: nat, snapshot: Snapshot) | EventCall(tick: nat, event: DemoEvent)

  // ---------------------------------------------------------------- reference

  ghost predicate Survives(calls: seq<Call>, i: nat, window: nat)
    requires i < |calls|
  {
    forall j :: i <= j < |calls| ==> calls[j].tick <= calls[i].tick + window
  }

  /** The surviving calls of one kind at tick `t`, among the first `n` calls. */
  ghost function Surviving(calls: seq<Call>, events: bool, n: nat, t: nat, window: nat): seq<Call>
    requires n <= |calls|
  {
    if n == 0 then [] else
      Surviving(calls, events, n - 1, t, window) +
      if calls[n - 1].tick == t && calls[n - 1].EventCall? == events && Survives(calls, n - 1, window)
      then [calls[n - 1]] else []
  }

  /** Snapshots: the last surviving one of a tick. */
  ghost function LastSnapshot(s: seq<Call>): Option<Snapshot> {
    if s == [] then None else if Last(s).SnapshotCall? then Some(Last(s).snapshot) else None
  }

  /** Events: all surviving ones of a tick, in order. */
  ghost function EventItems(s: seq<Call>): DemoEvents {
    if s == [] then [] else EventItems(Init(s)) + if Last(s).EventCall? then [Last(s).event] else []
  }

  ghost predicate HoldsSnapshots(snapshots: seq<Entry<Snapshot>>, calls: seq<Call>, window: nat) {
    && Increasing(snapshots)
    && forall t :: Get(snapshots, t) == LastSnapshot(Surviving(calls, false, |calls|, t, window))
  }

  ghost predicate HoldsEvents(events: seq<Entry<DemoEvents>>, calls: seq<Call>, window: nat) {
    && Increasing(events)
    && forall t :: Get(events, t) == Recorder.AllItems(EventItems(Surviving(calls, true, |calls|, t, window)))
  }

  /** A new call ends the survival of everything at a tick out of its window, and of nothing else. */
  lemma {:induction false} SurvivingStep(calls: seq<Call>, c: Call, events: bool, n: nat, t: nat, window: nat)
    requires n <= |calls|
    ensures Surviving(calls + [c], events, n, t, window)
         == if c.tick <= t + window then Surviving(calls, events, n, t, window) else []
  {
    hide Survives;
    if n == 0 {
    } else {
      SurvivingStep(calls, c, events, n - 1, t, window);
      SurvivesStep(calls, c, n - 1, window);
      assert (calls + [c])[n - 1] == calls[n - 1];
    }
  }

  lemma SurvivesStep(calls: seq<Call>, c: Call, i: nat, window: nat)
    requires i < |calls|
    ensures Survives(calls + [c], i, window) <==> Survives(calls, i, window) && c.tick <= calls[i].tick + window
  {
    var all := calls + [c];
    assert all[i] == calls[i] && all[|calls|] == c;
    if Survives(all, i, window) {
      assert forall j :: i <= j < |calls| ==> all[j] == calls[j];
    }
  }

  /** The items at a tick after a call: cut first, then extended by the call itself. */
  lemma SurvivingAfter(calls: seq<Call>, c: Call, events: bool, t: nat, window: nat)
    ensures Surviving(calls + [c], events, |calls| + 1, t, window)
         == (if c.tick <= t + window then Surviving(calls, events, |calls|, t, window) else [])
            + if c.tick == t && c.EventCall? == events then [c] else []
  {
    SurvivingStep(calls, c, events, |calls|, t, window);
    assert (calls + [c])[|calls|] == c;
  }

  // ---------------------------------------------------------------- cutting

  /** `split_off` at the saturated window start. */
  function Cut<V>(s: seq<Entry<V>>, tick: nat, window: nat): seq<Entry<V>> {
    s[LowerBound(s, SaturatingSub(tick, window))..]
  }

  lemma GetCut<V>(s: seq<Entry<V>>, tick: nat, window: nat, t: nat)
    requires Increasing(s)
    ensures Increasing(Cut(s, tick, window))
    ensures Get(Cut(s, tick, window), t) == if tick <= t + window then Get(s, t) else None
  {
    var n := LowerBound(s, SaturatingSub(tick, window));
    assert s[n..|s|] == s[n..];
    hide Increasing, LowerBound, Get;
    IncreasingSlice(s, n, |s|);
    GetSlice(s, n, |s|, t);
    if Get(s, t).Some? {
      var i := GetFound(s, t);
      RankOf(s, i);
      LowerBoundCuts(s, SaturatingSub(tick, window), i);
    }
  }

  ghost function SnapshotsNext(snapshots: seq<Entry<Snapshot>>, c: Call, window: nat): seq<Entry<Snapshot>> {
    Cut(if c.SnapshotCall? then Put(snapshots, c.tick, c.snapshot) else snapshots, c.tick, window)
  }

  ghost function EventsNext(events: seq<Entry<DemoEvents>>, c: Call, window: nat): seq<Entry<DemoEvents>> {
    Cut(if c.EventCall? then Put(events, c.tick, Recorder.Pushed(events, c.tick, c.event)) else events, c.tick, window)
  }

  lemma SnapshotsAfter(snapshots: seq<Entry<Snapshot>>, calls: seq<Call>, c: Call, window: nat)
    requires HoldsSnapshots(snapshots, calls, window)
    ensures HoldsSnapshots(SnapshotsNext(snapshots, c, window), calls + [c], window)
  {
    var next := SnapshotsNext(snapshots, c, window);
    hide SnapshotsNext, Surviving, Get, Put, Cut, Increasing, LastSnapshot;
    SnapshotsAfterAt(snapshots, calls, c, window, 0);
    forall t ensures Get(next, t) == LastSnapshot(Surviving(calls + [c], false, |calls + [c]|, t, window)) {
      SnapshotsAfterAt(snapshots, calls, c, window, t);
    }
  }

  lemma SnapshotsAfterAt(snapshots: seq<Entry<Snapshot>>, calls: seq<Call>, c: Call, window: nat, t: nat)
    requires Increasing(snapshots)
    requires Get(snapshots, t) == LastSnapshot(Surviving(calls, false, |calls|, t, window))
    ensures Increasing(SnapshotsNext(snapshots, c, window))
    ensures Get(SnapshotsNext(snapshots, c, window), t)
         == LastSnapshot(Surviving(calls + [c], false, |calls + [c]|, t, window))
  {
    hide Surviving, Get, Put, Cut, Increasing;
    SurvivingAfter(calls, c, false, t, window);
    var s := Surviving(calls, false, |calls|, t, window);
    assert s + [] == s && [] + [c] == [c];
    if c.SnapshotCall? {
      PutIncreasing(snapshots, c.tick, c.snapshot);
      GetPut(snapshots, c.tick, c.snapshot, t);
      GetCut(Put(snapshots, c.tick, c.snapshot), c.tick, window, t);
      assert Last(s + [c]) == c;
    } else {
      GetCut(snapshots, c.tick, window, t);
    }
  }

  lemma EventsAfter(events: seq<Entry<DemoEvents>>, calls: seq<Call>, c: Call, window: nat)
    requires HoldsEvents(events, calls, window)
    ensures HoldsEvents(EventsNext(events, c, window), calls + [c], window)
  {
    var next := EventsNext(events, c, window);
    hide EventsNext, Surviving, Get, Put, Cut, Increasing, EventItems, Recorder.AllItems;
    EventsAfterAt(events, calls, c, window, 0);
    forall t
      ensures Get(next, t) == Recorder.AllItems(EventItems(Surviving(calls + [c], true, |calls + [c]|, t, window)))
    {
      EventsAfterAt(events, calls, c, window, t);
    }
  }

  lemma NoItems()
    ensures EventItems([]) == []
  {
  }

  lemma EventItemsOne(s: seq<Call>, c: Call)
    requires c.EventCall?
    ensures EventItems(s + [c]) == EventItems(s) + [c.event]
  {
    assert Init(s + [c]) == s;
  }

  lemma EventsAfterAt(events: seq<Entry<DemoEvents>>, calls: seq<Call>, c: Call, window: nat, t: nat)
    requires Increasing(events)
    requires Get(events, t) == Recorder.AllItems(EventItems(Surviving(calls, true, |calls|, t, window)))
    ensures Increasing(EventsNext(events, c, window))
    ensures Get(EventsNext(events, c, window), t)
         == Recorder.AllItems(EventItems(Surviving(calls + [c], true, |calls + [c]|, t, window)))
  {
    hide Surviving, Get, Put, Cut, Increasing, EventItems;
    assert EventItems([]) == [] by { NoItems(); }
    SurvivingAfter(calls, c, true, t, window);
    var s := Surviving(calls, true, |calls|, t, window);
    assert s + [] == s && [] + [c] == [c];
    if c.EventCall? {
      var evs := Recorder.Pushed(events, c.tick, c.event);
      PutIncreasing(events, c.tick, evs);
      GetPut(events, c.tick, evs, t);
      GetCut(Put(events, c.tick, evs), c.tick, window, t);
      EventItemsOne(s, c);
      assert [] + [c.event] == [c.event];
    } else {
      GetCut(events, c.tick, window, t);
    }
  }

  // ---------------------------------------------------------------- the buffer

  class Replay {
    const ticksPerSecond: nat
    var snapshots: seq<Entry<Snapshot>>
    var events: seq<Entry<DemoEvents>>
    /** Every call made so far. */
    ghost var calls: seq<Call>

    ghost function Window(): nat { ticksPerSecond * REPLAY_TIME_SECS }

    ghost predicate Valid() reads this {
      HoldsSnapshots(snapshots, calls, Window()) && HoldsEvents(events, calls, Window())
    }

    constructor (ticksPerSecond: nat)
      ensures Valid() && calls == [] && this.ticksPerSecond == ticksPerSecond
    {
      this.ticksPerSecond := ticksPerSecond;
      snapshots, events, calls := [], [], [];
    }

    method Truncate(tick: nat)
      modifies this`snapshots, this`events
      ensures snapshots == Cut(old(snapshots), tick, ticksPerSecond * REPLAY_TIME_SECS)
      ensures events == Cut(old(events), tick, ticksPerSecond * REPLAY_TIME_SECS)
    {
      var window := ticksPerSecond * REPLAY_TIME_SECS;
      events := events[LowerBound(events, SaturatingSub(tick, window))..];
      snapshots := snapshots[LowerBound(snapshots, SaturatingSub(tick, window))..];
    }

    method AddSnapshot(tick: nat, snapshot: Snapshot)
      requires Valid()
      modifies this
      ensures Valid() && calls == old(calls) + [SnapshotCall(tick, snapshot)]
      ensures HoldsSnapshots(snapshots, calls, ticksPerSecond * 30) && HoldsEvents(events, calls, ticksPerSecond * 30)
    {
      hide HoldsSnapshots, HoldsEvents, Put, LowerBound;
      SnapshotsAfter(snapshots, calls, SnapshotCall(tick, snapshot), Window());
      EventsAfter(events, calls, SnapshotCall(tick, snapshot), Window());
      snapshots := Put(snapshots, tick, snapshot);
      Truncate(tick);
      calls := calls + [SnapshotCall(tick, snapshot)];
    }

    method AddEvent(tick: nat, event: DemoEvent)
      requires Valid()
      modifies this
      ensures Valid() && calls == old(calls) + [EventCall(tick, event)]
      ensures HoldsSnapshots(snapshots, calls, ticksPerSecond * 30) && HoldsEvents(events, calls, ticksPerSecond * 30)
    {
      hide HoldsSnapshots, HoldsEvents, Put, LowerBound, Recorder.Pushed;
      SnapshotsAfter(snapshots, calls, EventCall(tick, event), Window());
      EventsAfter(events, calls, EventCall(tick, event), Window());
      events := Put(events, tick, Recorder.Pushed(events, tick, event));
      Truncate(tick);
      calls := calls + [EventCall(tick, event)];
    }

    /** Everything that survived is recorded anew, events first. */
    method RecordAll() returns (recorder: Recorder.DemoRecorder)
      requires Valid()
      ensures fresh(recorder) && recorder.Valid() && recorder.ticksPerSecond == ticksPerSecond
      ensures recorder.AllEvents() == events && recorder.AllSnapshots() == snapshots
    {
      hide *;
      BufferOrdered();
      recorder := new Recorder.DemoRecorder(ticksPerSecond);
      RecordEvents(recorder, events);
      RecordSnapshots(recorder, snapshots);
    }

    lemma BufferOrdered()
      requires Valid()
      ensures Increasing(snapshots) && Increasing(events)
      ensures forall i :: 0 <= i < |events| ==> events[i].value != []
    {
      NoEmptyTick(events, calls, Window());
    }

    /** The finished demo of everything that survived opens as exactly these entries. The buffer itself
        is left as it is. */
    method ToDemo(c: Codec, ext: DemoHeaderExt)
      returns (r: RunResult, ghost snaps: seq<seq<Entry<Snapshot>>>, ghost evs: seq<seq<Entry<DemoEvents>>>)
      requires Valid() && FileLaws(c) && ext.ticksPerSecond == ticksPerSecond > 0
      ensures r.Finished?
      ensures Concat(snaps) == snapshots && Concat(evs) == events
      ensures r.kept <==> snapshots != [] || events != []
      ensures r.kept && |r.mem| <= MAX_U64 && RecordingFits(c, ext, snaps, evs) ==> OpensAs(c, r.mem, ext, snaps, evs)
      // an empty buffer gives the beginning of a file, which the viewer is asked to open as well
      ensures !r.kept && |r.mem| <= MAX_U64 && c.headerExt.fits(ext) ==> (Open(c, r.mem) == Err <==> NothingIsNoTail(c))
    {
      var recorder := RecordAll();
      hide *;
      r, snaps, evs := FinishRecording(c, recorder, ext);
      if !r.kept && |r.mem| <= MAX_U64 && c.headerExt.fits(ext) {
        BeginningFits(c, ext);
        BeginningOpens(c, ext);
      }
    }
  }

  method RecordEvents(recorder: Recorder.DemoRecorder, events: seq<Entry<DemoEvents>>)
    requires recorder.Valid() && recorder.AllEvents() == []
    requires Increasing(events) && forall i :: 0 <= i < |events| ==> events[i].value != []
    modifies recorder
    ensures recorder.Valid() && recorder.AllEvents() == events
            && recorder.AllSnapshots() == old(recorder.AllSnapshots())
  {
    hide *;
    var i := 0;
    while i < |events|
      invariant i <= |events| && recorder.Valid()
      invariant recorder.AllEvents() == events[..i] && recorder.AllSnapshots() == old(recorder.AllSnapshots())
    {
      NextEntry(events, i);
      AddEvents(recorder, events[i], events[..i]);
      i := i + 1;
    }
    assert events[..i] == events;
  }

  method RecordSnapshots(recorder: Recorder.DemoRecorder, snapshots: seq<Entry<Snapshot>>)
    requires recorder.Valid() && recorder.AllSnapshots() == [] && Increasing(snapshots)
    modifies recorder
    ensures recorder.Valid() && recorder.AllSnapshots() == snapshots
            && recorder.AllEvents() == old(recorder.AllEvents())
  {
    hide *;
    var i := 0;
    while i < |snapshots|
      invariant i <= |snapshots| && recorder.Valid()
      invariant recorder.AllSnapshots() == snapshots[..i] && recorder.AllEvents() == old(recorder.AllEvents())
    {
      NextEntry(snapshots, i);
      Recorder.NewerIsAppended(snapshots[..i], snapshots[i].key, snapshots[i].value, recorder.ticksPerSecond);
      recorder.AddSnapshot(snapshots[i].key, snapshots[i].value);
      i := i + 1;
    }
    assert snapshots[..i] == snapshots;
  }

  lemma NextEntry<V>(s: seq<Entry<V>>, i: nat)
    requires Increasing(s) && i < |s|
    ensures s[..i + 1] == s[..i] + [s[i]]
    ensures Increasing(s[..i]) && Below(s[..i], s[i].key)
  {
    hide Increasing;
    IncreasingSlice(s, 0, i + 1);
    assert s[0..i + 1] == s[..i] + [s[i]];
    IncreasingOne(s[..i], s[i]);
  }

  /** No tick is kept without events. */
  lemma NoEmptyTick(events: seq<Entry<DemoEvents>>, calls: seq<Call>, window: nat)
    requires HoldsEvents(events, calls, window)
    ensures forall i :: 0 <= i < |events| ==> events[i].value != []
  {
    forall i | 0 <= i < |events|
      ensures events[i].value != []
    {
      GetSome(events, i);
    }
  }

  method AddEvents(recorder: Recorder.DemoRecorder, e: Entry<DemoEvents>, ghost older: seq<Entry<DemoEvents>>)
    requires recorder.Valid() && recorder.AllEvents() == older
    requires Increasing(older) && Below(older, e.key) && e.value != []
    modifies recorder
    ensures recorder.Valid() && recorder.AllSnapshots() == old(recorder.AllSnapshots())
    ensures recorder.AllEvents() == older + [e]
  {
    hide *;
    var i := 0;
    EventsSoFar(older, e);
    while i < |e.value|
      invariant i <= |e.value|
      invariant recorder.Valid() && recorder.AllSnapshots() == old(recorder.AllSnapshots())
      invariant recorder.AllEvents() == older + Recorder.EntryOf(e.key, e.value[..i])
    {
      assert e.value[..i + 1] == e.value[..i] + [e.value[i]];
      Recorder.EventIsAppended(older, e.key, e.value[..i], e.value[i], recorder.ticksPerSecond);
      recorder.AddEvent(e.key, e.value[i]);
      i := i + 1;
    }
    assert e.value[..i] == e.value;
  }

  lemma EventsSoFar(older: seq<Entry<DemoEvents>>, e: Entry<DemoEvents>)
    requires e.value != []
    ensures older + Recorder.EntryOf(e.key, []) == older && Recorder.EntryOf(e.key, e.value) == [e]
  {
  }
}
