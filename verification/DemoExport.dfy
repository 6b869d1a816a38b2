/**
 Exporting a part of a demo (`DemoViewerEvent::Export`, game/client-demo/src/lib.rs): the
 preview is sought to the left end and stepped tick by tick to the right end, and whatever the
 window shows is recorded anew.
 */
module DemoExport {
  import opened OrderedMaps
  import opened DemoTypes
  import opened DemoCodec
  import opened DemoChunk
  import opened DemoTime
  import opened DemoFile
  import opened DemoRoundTrip
  import opened DemoViewer
  import Recorder = DemoRecorder

  // ---------------------------------------------------------------- the reference

  /** The entries with a tick from `from` up to but not including `to`. */
  ghost function Range<A>(whole: seq<Entry<A>>, from: nat, to: nat): seq<Entry<A>> {
    Stretch(whole, LowerBound(whole, from), LowerBound(whole, to))
  }

  function WithoutChat(evs: DemoEvents, removeChat: bool): DemoEvents {
    if evs == [] then [] else
      WithoutChat(Init(evs), removeChat) + if !Last(evs).Chat? || !removeChat then [Last(evs)] else []
  }

  /** A tick that has only removed events vanishes. */
  ghost function Filtered(whole: seq<Entry<DemoEvents>>, removeChat: bool): seq<Entry<DemoEvents>> {
    if whole == [] then [] else
      var evs := WithoutChat(Last(whole).value, removeChat);
      Filtered(Init(whole), removeChat) + if evs == [] then [] else [Entry(Last(whole).key, evs)]
  }

  /** With chat kept, an export is exactly the restriction to the range. */
  lemma {:induction false} KeepingChatKeepsAll(whole: seq<Entry<DemoEvents>>)
    requires forall i :: 0 <= i < |whole| ==> whole[i].value != []
    ensures Filtered(whole, false) == whole
  {
    if whole == [] {
    } else {
      KeepingChatKeepsAll(Init(whole));
      NoChatRemoved(Last(whole).value);
      assert whole == Init(whole) + [Last(whole)];
    }
  }

  lemma {:induction false} NoChatRemoved(evs: DemoEvents)
    ensures WithoutChat(evs, false) == evs
  {
    if evs == [] {
    } else {
      NoChatRemoved(Init(evs));
      assert evs == Init(evs) + [Last(evs)];
    }
  }

  // ---------------------------------------------------------------- one tick of a range

  /** The range grows by the entry of the tick, if there is one, and stays below later ticks. */
  lemma RangeStep<A>(whole: seq<Entry<A>>, from: nat, to: nat)
    requires Increasing(whole) && from <= to
    ensures Range(whole, from, to + 1) == Range(whole, from, to) +
              match Get(whole, to) { case None => [] case Some(v) => [Entry(to, v)] }
    ensures Below(Range(whole, from, to), to) && Increasing(Range(whole, from, to))
  {
    hide Increasing, LowerBound, Get;
    var i, j, k := LowerBound(whole, from), LowerBound(whole, to), LowerBound(whole, to + 1);
    CutsInOrder(whole, from, to);
    CutsInOrder(whole, to, to + 1);
    IncreasingSlice(whole, i, j);
    if i < j { LowerBoundCuts(whole, to, j - 1); }
    if Get(whole, to).Some? {
      var n := GetFound(whole, to);
      RankOf(whole, n);
      assert whole[i..k] == whole[i..j] + [whole[j]];
    } else {
      assert whole[i..k] == whole[i..j] + [];
    }
  }

  /** Moving a bound by one moves the cut by at most one, and exactly past the entry of the tick. */
  lemma CutsInOrder<A>(whole: seq<Entry<A>>, from: nat, to: nat)
    requires Increasing(whole) && from <= to
    ensures LowerBound(whole, from) <= LowerBound(whole, to) <= LowerBound(whole, from) + (to - from)
    ensures to == from + 1 ==> (Get(whole, from).Some? <==> LowerBound(whole, to) == LowerBound(whole, from) + 1)
  {
    hide Increasing, LowerBound, Get;
    var i, j := LowerBound(whole, from), LowerBound(whole, to);
    if j < i {
      LowerBoundCuts(whole, from, j);
      LowerBoundCuts(whole, to, j);
    }
    if i < j {
      LowerBoundCuts(whole, from, i);
      LowerBoundCuts(whole, to, j - 1);
      LowerBoundCuts(whole, to, i);
      KeyGap(whole, i, j - 1);
      if to == from + 1 { GetSome(whole, i); }
    }
    if to == from + 1 && Get(whole, from).Some? {
      var n := GetFound(whole, from);
      RankOf(whole, n);
      LowerBoundCuts(whole, to, n);
    }
  }

  lemma FilteredStep(range: seq<Entry<DemoEvents>>, next: seq<Entry<DemoEvents>>, tick: nat, evs: Option<DemoEvents>,
                     removeChat: bool)
    requires next == range + match evs { case None => [] case Some(v) => [Entry(tick, v)] }
    ensures Filtered(next, removeChat) == Filtered(range, removeChat) +
              match evs { case None => [] case Some(v) => Recorder.EntryOf(tick, WithoutChat(v, removeChat)) }
  {
    if evs.Some? {
      InitConcat(range, [Entry(tick, evs.value)]);
    } else {
      assert next == range;
    }
  }

  // ---------------------------------------------------------------- the export

  function FirstSnapshotTick(demo: DemoContainer): nat {
    if demo.tail.snapshotsIndex == [] then MAX_U64 else demo.tail.snapshotsIndex[0].key
  }

  function TickAt(demo: DemoContainer, time: nat): nat
    requires 0 < demo.headerExt.ticksPerSecond <= NANOS_PER_SEC
  {
    TimeToTick(time, FirstSnapshotTick(demo), demo.headerExt.ticksPerSecond)
  }

  /** The filtered events of one tick are handed over one by one. */
  method ExportEvents(recorder: Recorder.DemoRecorder, tick: nat, events: DemoEvents, removeChat: bool,
                      ghost older: seq<Entry<DemoEvents>>)
    requires recorder.Valid() && recorder.AllEvents() == older
    requires Increasing(older) && Below(older, tick)
    modifies recorder
    ensures recorder.Valid() && recorder.AllSnapshots() == old(recorder.AllSnapshots())
    ensures recorder.AllEvents() == older + Recorder.EntryOf(tick, WithoutChat(events, removeChat))
  {
    hide *;
    var i := 0;
    NothingYet(older, tick, events, removeChat);
    while i < |events|
      invariant i <= |events|
      invariant recorder.Valid() && recorder.AllSnapshots() == old(recorder.AllSnapshots())
      invariant recorder.AllEvents() == older + Recorder.EntryOf(tick, WithoutChat(events[..i], removeChat))
    {
      ghost var kept := WithoutChat(events[..i], removeChat);
      WithoutChatStep(events, i, removeChat);
      if !events[i].Chat? || !removeChat {
        Recorder.EventIsAppended(older, tick, kept, events[i], recorder.ticksPerSecond);
        recorder.AddEvent(tick, events[i]);
      }
      i := i + 1;
    }
    assert events[..i] == events;
  }

  lemma NothingYet(older: seq<Entry<DemoEvents>>, tick: nat, events: DemoEvents, removeChat: bool)
    ensures older == older + Recorder.EntryOf(tick, WithoutChat(events[..0], removeChat))
  {
  }

  lemma WithoutChatStep(events: DemoEvents, i: nat, removeChat: bool)
    requires i < |events|
    ensures WithoutChat(events[..i + 1], removeChat)
         == if !events[i].Chat? || !removeChat then WithoutChat(events[..i], removeChat) + [events[i]]
            else WithoutChat(events[..i], removeChat)
  {
    assert Init(events[..i + 1]) == events[..i];
  }

  function OneEntry<A>(tick: nat, v: Option<A>): seq<Entry<A>> {
    match v
    case None => []
    case Some(a) => [Entry(tick, a)]
  }

  function OneFiltered(tick: nat, evs: Option<DemoEvents>, removeChat: bool): seq<Entry<DemoEvents>> {
    match evs
    case None => []
    case Some(v) => Recorder.EntryOf(tick, WithoutChat(v, removeChat))
  }

  lemma OneEntryIs<A>(tick: nat, v: Option<A>, older: seq<Entry<A>>)
    ensures older + OneEntry(tick, v) == if v.Some? then older + [Entry(tick, v.value)] else older
  {
  }

  lemma OneFilteredIs(tick: nat, evs: Option<DemoEvents>, removeChat: bool, older: seq<Entry<DemoEvents>>)
    ensures older + OneFiltered(tick, evs, removeChat)
         == if evs.Some? then older + Recorder.EntryOf(tick, WithoutChat(evs.value, removeChat)) else older
  {
  }

  /** Everything the window shows at one tick is recorded. */
  method ExportTick(recorder: Recorder.DemoRecorder, tick: nat, snapshot: Option<Snapshot>, evs: Option<DemoEvents>,
                    removeChat: bool)
    requires recorder.Valid()
    requires Below(recorder.AllSnapshots(), tick)
    requires Increasing(recorder.AllEvents()) && Below(recorder.AllEvents(), tick)
    modifies recorder
    ensures recorder.Valid()
    ensures recorder.AllSnapshots() == old(recorder.AllSnapshots()) + OneEntry(tick, snapshot)
    ensures recorder.AllEvents() == old(recorder.AllEvents()) + OneFiltered(tick, evs, removeChat)
  {
    hide *;
    ghost var olderSnapshots, olderEvents := recorder.AllSnapshots(), recorder.AllEvents();
    OneEntryIs(tick, snapshot, olderSnapshots);
    OneFilteredIs(tick, evs, removeChat, olderEvents);
    if snapshot.Some? {
      Recorder.NewerIsAppended(olderSnapshots, tick, snapshot.value, recorder.ticksPerSecond);
      recorder.AddSnapshot(tick, snapshot.value);
    }
    if evs.Some? {
      ExportEvents(recorder, tick, evs.value, removeChat, olderEvents);
    }
  }

  /** The windows of both streams before the tick is shown: empty after the seek, else correct for the
      tick before. */
  ghost predicate Stepped<A>(chunks: seq<seq<Entry<A>>>, cur: seq<Entry<A>>, first: nat, tick: nat, j: nat) {
    if tick <= first then cur == [] else ShowsTo(chunks, cur, tick - 1, j)
  }

  /** The recorder holds exactly the snapshots and the filtered events of the range. */
  ghost predicate Exported(recorder: Recorder.DemoRecorder, snaps: seq<seq<Entry<Snapshot>>>,
                           events: seq<seq<Entry<DemoEvents>>>, from: nat, to: nat, removeChat: bool)
    reads recorder
  {
    && recorder.AllSnapshots() == Range(Concat(snaps), from, to)
    && recorder.AllEvents() == Filtered(Range(Concat(events), from, to), removeChat)
  }

  /** One round of the export loop. */
  method ExportStep(recorder: Recorder.DemoRecorder, snapStream: Stream<Snapshot>, eventStream: Stream<DemoEvents>,
                    curSnapshots: seq<Entry<Snapshot>>, curEvents: seq<Entry<DemoEvents>>, first: nat, tick: nat,
                    removeChat: bool, ghost snaps: seq<seq<Entry<Snapshot>>>, ghost events: seq<seq<Entry<DemoEvents>>>,
                    ghost i: nat, ghost j: nat)
    returns (curSnapshots': seq<Entry<Snapshot>>, curEvents': seq<Entry<DemoEvents>>, ghost i': nat, ghost j': nat)
    requires recorder.Valid() && first <= tick < MAX_U64
    requires Reads(snapStream, snaps) && Stepped(snaps, curSnapshots, first, tick, i)
    requires Reads(eventStream, events) && Stepped(events, curEvents, first, tick, j)
    requires Exported(recorder, snaps, events, first, tick, removeChat)
    modifies recorder
    ensures recorder.Valid()
    ensures Stepped(snaps, curSnapshots', first, tick + 1, i') && Stepped(events, curEvents', first, tick + 1, j')
    ensures Exported(recorder, snaps, events, first, tick + 1, removeChat)
  {
    hide Recorder.SnapshotsValid, Recorder.EventsValid, Concat, Range, Filtered, Stepped, Reads, Checked, Get,
         Increasing, Below;
    i' := WindowStep(snapStream, snaps, curSnapshots, first, tick, i);
    j' := WindowStep(eventStream, events, curEvents, first, tick, j);
    SnapshotsGrow(snapStream, snaps, first, tick);
    EventsGrow(eventStream, events, first, tick, removeChat);
    curSnapshots' := CheckChunks(snapStream, curSnapshots, tick);
    curEvents' := CheckChunks(eventStream, curEvents, tick);
    ExportTick(recorder, tick, Get(curSnapshots', tick), Get(curEvents', tick), removeChat);
  }

  /** The loop over the ticks of the range. */
  method ExportRange(recorder: Recorder.DemoRecorder, snapStream: Stream<Snapshot>, eventStream: Stream<DemoEvents>,
                     first: nat, last: nat, removeChat: bool, ghost snaps: seq<seq<Entry<Snapshot>>>,
                     ghost events: seq<seq<Entry<DemoEvents>>>)
    requires recorder.Valid() && recorder.AllSnapshots() == [] && recorder.AllEvents() == []
    requires Reads(snapStream, snaps) && Reads(eventStream, events)
    requires last < MAX_U64
    modifies recorder
    ensures recorder.Valid()
    ensures first <= last + 1 ==> Exported(recorder, snaps, events, first, last + 1, removeChat)
    ensures first > last ==> recorder.AllSnapshots() == [] && recorder.AllEvents() == []
  {
    hide Recorder.SnapshotsValid, Recorder.EventsValid, Concat, Range, Filtered, Stepped, Reads, Checked, Get,
         Increasing, Below;
    var curSnapshots: seq<Entry<Snapshot>>, curEvents: seq<Entry<DemoEvents>> := [], [];
    var tick := first;
    EmptyRange(Concat(snaps), first);
    EmptyRange(Concat(events), first);
    NothingFiltered(removeChat);
    SeekFirst(snaps, first);
    SeekFirst(events, first);
    ghost var i, j := 0, 0;
    while tick <= last
      invariant first <= tick && (if first <= last then tick <= last + 1 else tick == first)
      invariant recorder.Valid()
      invariant Exported(recorder, snaps, events, first, tick, removeChat)
      invariant tick == first ==> recorder.AllSnapshots() == [] && recorder.AllEvents() == []
      invariant Stepped(snaps, curSnapshots, first, tick, i) && Stepped(events, curEvents, first, tick, j)
      decreases last as int + 1 - tick
    {
      curSnapshots, curEvents, i, j :=
        ExportStep(recorder, snapStream, eventStream, curSnapshots, curEvents, first, tick, removeChat, snaps,
                   events, i, j);
      tick := tick + 1;
    }
  }

  /** The new recording is exactly the part of the old one between the two ends, without chat if
      asked for, and nothing of it was turned away by the recorder. */
  method Export(c: Codec, demo: DemoContainer, left: nat, right: nat, removeChat: bool,
                ghost snaps: seq<seq<Entry<Snapshot>>>, ghost events: seq<seq<Entry<DemoEvents>>>)
    returns (recorder: Recorder.DemoRecorder)
    requires Holds(c, demo, snaps, events)
    requires 0 < demo.headerExt.ticksPerSecond <= NANOS_PER_SEC
    requires TickAt(demo, right) < MAX_U64
    ensures fresh(recorder) && recorder.Valid() && recorder.ticksPerSecond == demo.headerExt.ticksPerSecond
    ensures var from, to := TickAt(demo, left), TickAt(demo, right) + 1;
            && (from <= to ==> Exported(recorder, snaps, events, from, to, removeChat))
            && (from >= to ==> recorder.AllSnapshots() == [] && recorder.AllEvents() == [])
  {
    hide *;
    var snapStream := Stream(c, c.snapshot, demo.chunks, demo.tail.snapshotsIndex);
    var eventStream := Stream(c, c.events, demo.chunks, demo.tail.eventsIndex);
    StreamsRead(c, demo, snaps, events);
    var first, last := TickAt(demo, left), TickAt(demo, right);
    recorder := new Recorder.DemoRecorder(demo.headerExt.ticksPerSecond);
    ExportRange(recorder, snapStream, eventStream, first, last, removeChat, snaps, events);
  }

  lemma StreamsRead(c: Codec, demo: DemoContainer, snaps: seq<seq<Entry<Snapshot>>>,
                    events: seq<seq<Entry<DemoEvents>>>)
    requires Holds(c, demo, snaps, events)
    ensures Reads(Stream(c, c.snapshot, demo.chunks, demo.tail.snapshotsIndex), snaps)
    ensures Reads(Stream(c, c.events, demo.chunks, demo.tail.eventsIndex), events)
  {
    hide Indexed;
  }

  lemma SnapshotsGrow<A>(s: Stream<A>, chunks: seq<seq<Entry<A>>>, first: nat, tick: nat)
    requires Reads(s, chunks) && first <= tick
    ensures Below(Range(Concat(chunks), first, tick), tick)
    ensures Range(Concat(chunks), first, tick + 1)
         == Range(Concat(chunks), first, tick) + OneEntry(tick, Get(Concat(chunks), tick))
  {
    hide Reads, Increasing, Concat, Range, Below, Get;
    ReadsOrdered(s, chunks);
    RangeStep(Concat(chunks), first, tick);
  }

  lemma EventsGrow(s: Stream<DemoEvents>, chunks: seq<seq<Entry<DemoEvents>>>, first: nat, tick: nat, removeChat: bool)
    requires Reads(s, chunks) && first <= tick
    ensures var older := Filtered(Range(Concat(chunks), first, tick), removeChat);
            && Increasing(older) && Below(older, tick)
            && Filtered(Range(Concat(chunks), first, tick + 1), removeChat)
               == older + OneFiltered(tick, Get(Concat(chunks), tick), removeChat)
  {
    hide Reads, Increasing, Concat, Range, Below, Get, Filtered, WithoutChat;
    ReadsOrdered(s, chunks);
    var range, next := Range(Concat(chunks), first, tick), Range(Concat(chunks), first, tick + 1);
    var evs := Get(Concat(chunks), tick);
    RangeStep(Concat(chunks), first, tick);
    FilteredOrdered(range, removeChat, tick);
    FilteredStep(range, next, tick, evs, removeChat);
  }

  lemma NothingFiltered(removeChat: bool)
    ensures Filtered([], removeChat) == []
  {
  }

  lemma EmptyRange<A>(whole: seq<Entry<A>>, tick: nat)
    ensures Range(whole, tick, tick) == []
  {
  }

  lemma {:induction false} FilteredOrdered(whole: seq<Entry<DemoEvents>>, removeChat: bool, k: nat)
    requires Increasing(whole) && Below(whole, k)
    ensures Increasing(Filtered(whole, removeChat)) && Below(Filtered(whole, removeChat), k)
  {
    if whole == [] {
    } else {
      FilteredOrdered(Init(whole), removeChat, Last(whole).key);
      var older, evs := Filtered(Init(whole), removeChat), WithoutChat(Last(whole).value, removeChat);
      IncreasingOne(older, Entry(Last(whole).key, evs));
      assert older + [] == older;
    }
  }

  lemma SeekFirst<A>(chunks: seq<seq<Entry<A>>>, first: nat)
    ensures Stepped(chunks, [], first, first, 0)
  {
  }

  /** The window shows the entry of the tick after the first seek and after every further step. */
  lemma WindowStep<A>(s: Stream<A>, chunks: seq<seq<Entry<A>>>, cur: seq<Entry<A>>, first: nat, tick: nat, j: nat)
    returns (j': nat)
    requires Reads(s, chunks) && first <= tick
    requires Stepped(chunks, cur, first, tick, j)
    ensures Stepped(chunks, Checked(s, cur, tick), first, tick + 1, j')
    ensures Get(Checked(s, cur, tick), tick) == Get(Concat(chunks), tick)
  {
    hide Reads, ShowsTo, Checked, Get, Concat, Increasing, Shows;
    ReadsOrdered(s, chunks);
    if tick == first {
      j' := SeekShows(s, chunks, tick);
    } else {
      NextTickShows(s, chunks, cur, tick - 1, j);
      j' := LoadedTo(chunks, j, tick);
    }
    ShowsToShows(chunks, Checked(s, cur, tick), tick, j');
    ShowsEntry(Concat(chunks), Checked(s, cur, tick), tick);
  }
}
