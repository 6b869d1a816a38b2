/**
 `DemoRecorder` (game/demo/src/recorder.rs): snapshots and events are buffered by
 tick, full chunks are split off and sent to the writer, and whatever is left is
 sent when the recorder is dropped.

 The reference is a recording without any buffer or chunk: an entry is accepted
 unless some earlier entry of its stream was more than three seconds ahead of it,
 and the recording maps a tick to the accepted entries of that tick.
 */
module DemoRecorder {
  import opened OrderedMaps
  import opened DemoTypes

  const DATA_PER_CHUNK_TO_WRITE: nat := 30 * 50
  const SECONDS_UNTIL_WRITE: nat := 3

  datatype RecorderEvent =
    | Snapshots(snaps: seq<Entry<Snapshot>>)
    | Events(events: seq<Entry<DemoEvents>>)
    | Cancel

  // ---------------------------------------------------------------- reference

  datatype Add<+A> = Add(tick: nat, item: A)

  /** The `i`-th add is at most `window` ticks behind every add before it. */
  ghost predicate Accepted<A>(h: seq<Add<A>>, i: nat, window: nat)
    requires i < |h|
  {
    forall j :: 0 <= j < i ==> h[j].tick <= h[i].tick + window
  }

  /** The accepted items of tick `t`, in the order in which they were added. */
  ghost function ItemsAt<A>(h: seq<Add<A>>, t: nat, window: nat): seq<A> {
    if h == [] then [] else
      var n := |h| - 1;
      ItemsAt(h[..n], t, window) + if h[n].tick == t && Accepted(h, n, window) then [h[n].item] else []
  }

  /** Snapshots: the last accepted write of a tick wins. */
  ghost function LastItem(s: seq<Snapshot>): Option<Snapshot> {
    if s == [] then None else Some(s[|s| - 1])
  }

  /** Events: all accepted events of a tick, in order. */
  ghost function AllItems(s: seq<DemoEvent>): Option<DemoEvents> {
    if s == [] then None else Some(s)
  }

  ghost predicate RecordsSnapshots(all: seq<Entry<Snapshot>>, h: seq<Add<Snapshot>>, window: nat) {
    && Increasing(all)
    && forall t :: Get(all, t) == LastItem(ItemsAt(h, t, window))
  }

  ghost predicate RecordsEvents(all: seq<Entry<DemoEvents>>, h: seq<Add<DemoEvent>>, window: nat) {
    && Increasing(all)
    && forall t :: Get(all, t) == AllItems(ItemsAt(h, t, window))
  }

  ghost function Newest<V>(all: seq<Entry<V>>): Option<nat> {
    if all == [] then None else Some(Last(all).key)
  }

  /** `newest` is the largest tick ever added. */
  ghost predicate NewestOf<A>(newest: Option<nat>, h: seq<Add<A>>) {
    match newest
    case None => h == []
    case Some(n) => (forall i :: 0 <= i < |h| ==> h[i].tick <= n) && exists i :: 0 <= i < |h| && h[i].tick == n
  }

  // ---------------------------------------------------------------- buffering

  predicate CanAddChunk<V>(tick: nat, data: seq<Entry<V>>, ticksPerSecond: nat) {
    || data == []
    || tick >= Last(data).key
    || Last(data).key - tick <= ticksPerSecond * SECONDS_UNTIL_WRITE
  }

  /** The test on the newest buffered tick decides exactly the window of the reference. */
  lemma CanAddIsAccepted<V, A>(all: seq<Entry<V>>, h: seq<Add<A>>, a: Add<A>, ticksPerSecond: nat)
    requires NewestOf(Newest(all), h)
    ensures CanAddChunk(a.tick, all, ticksPerSecond)
            <==> Accepted(h + [a], |h|, ticksPerSecond * 3)
  {
    if all != [] {
      var i :| 0 <= i < |h| && h[i].tick == Last(all).key;
      assert (h + [a])[i] == h[i];
    }
  }

  /** When a chunk has to leave the buffer: more than one chunk of entries is held and
      the first entry to stay is more than three seconds old. */
  predicate FlushDue<V>(data: seq<Entry<V>>, ticksPerSecond: nat) {
    && |data| > DATA_PER_CHUNK_TO_WRITE
    && Last(data).key - data[DATA_PER_CHUNK_TO_WRITE].key > ticksPerSecond * SECONDS_UNTIL_WRITE
  }

  /** The key that splits the buffer is looked up from the front when at least two chunks
      are held, from the back otherwise; either way it is the first key after one chunk. */
  method GetChunksTh<V>(data: seq<Entry<V>>) returns (key: nat)
    requires |data| > DATA_PER_CHUNK_TO_WRITE
    ensures key == data[DATA_PER_CHUNK_TO_WRITE].key
  {
    var count := |data|;
    if count >= DATA_PER_CHUNK_TO_WRITE * 2 {
      key := data[DATA_PER_CHUNK_TO_WRITE].key;
    } else {
      var fromBack := (count - 1) - DATA_PER_CHUNK_TO_WRITE;
      key := data[count - 1 - fromBack].key;
    }
  }

  method TryWriteChunks<V>(data: seq<Entry<V>>, ticksPerSecond: nat)
    returns (rest: seq<Entry<V>>, chunk: Option<seq<Entry<V>>>)
    requires Increasing(data)
    ensures if |data| > 1500 && Last(data).key - data[1500].key > ticksPerSecond * 3
            then chunk == Some(data[..1500]) && rest == data[1500..]
            else chunk == None && rest == data
  {
    rest, chunk := data, None;
    if |data| > DATA_PER_CHUNK_TO_WRITE {
      var first := GetChunksTh(data);
      var last := Last(data).key;
      if last - first > ticksPerSecond * SECONDS_UNTIL_WRITE {
        var key := GetChunksTh(data);
        var at := LowerBound(data, key);
        RankOf(data, DATA_PER_CHUNK_TO_WRITE);
        rest, chunk := data[at..], Some(data[..at]);
      }
    }
  }

  ghost function Flushed<V>(data: seq<Entry<V>>, ticksPerSecond: nat): seq<seq<Entry<V>>> {
    if FlushDue(data, ticksPerSecond) then [data[..DATA_PER_CHUNK_TO_WRITE]] else []
  }

  ghost function Kept<V>(data: seq<Entry<V>>, ticksPerSecond: nat): seq<Entry<V>> {
    if FlushDue(data, ticksPerSecond) then data[DATA_PER_CHUNK_TO_WRITE..] else data
  }

  /** What one stream of the recorder looks like between two calls: `sent` are the chunks
      already handed to the writer, `data` is the buffer. Every chunk sent so far is full, the
      buffer reaches more than the window past everything sent, and it stays bounded. */
  ghost predicate StreamValid<V>(sent: seq<seq<Entry<V>>>, data: seq<Entry<V>>, ticksPerSecond: nat) {
    && (forall i :: 0 <= i < |sent| ==> |sent[i]| == DATA_PER_CHUNK_TO_WRITE)
    && Increasing(Concat(sent) + data)
    && (Concat(sent) != [] ==>
          data != [] && Below(Concat(sent), Last(data).key - ticksPerSecond * SECONDS_UNTIL_WRITE))
    && |data| <= DATA_PER_CHUNK_TO_WRITE + 2 + ticksPerSecond * SECONDS_UNTIL_WRITE
  }

  /** Splitting a full chunk off changes neither the recording nor what the stream accepts,
      never empties the buffer, and leaves room for one more entry: a buffer that is not split
      is small because ticks are distinct. */
  lemma FlushKeepsStream<V>(sent: seq<seq<Entry<V>>>, data: seq<Entry<V>>, ticksPerSecond: nat)
    requires StreamValid(sent, data, ticksPerSecond)
    ensures var sent', kept := sent + Flushed(data, ticksPerSecond), Kept(data, ticksPerSecond);
            && StreamValid(sent', kept, ticksPerSecond)
            && Concat(sent') + kept == Concat(sent) + data
            && (data != [] ==> kept != [] && Last(kept) == Last(data))
            && |kept| <= DATA_PER_CHUNK_TO_WRITE + 1 + ticksPerSecond * SECONDS_UNTIL_WRITE
  {
    hide Increasing, Concat;
    IncreasingConcat(Concat(sent), data);
    if FlushDue(data, ticksPerSecond) {
      var gone, chunk, rest := Concat(sent), data[..DATA_PER_CHUNK_TO_WRITE], data[DATA_PER_CHUNK_TO_WRITE..];
      ConcatSnoc(sent, chunk);
      assert (gone + chunk) + rest == gone + data;
      InitConcat(gone, chunk);
      KeyGap(data, DATA_PER_CHUNK_TO_WRITE - 1, DATA_PER_CHUNK_TO_WRITE);
    } else {
      assert sent + Flushed(data, ticksPerSecond) == sent;
      if |data| > DATA_PER_CHUNK_TO_WRITE {
        KeyGap(data, DATA_PER_CHUNK_TO_WRITE, |data| - 1);
      }
    }
  }

  /** The buffer after an entry was offered to it. */
  function Offered<V>(data: seq<Entry<V>>, k: nat, v: V, ticksPerSecond: nat): seq<Entry<V>> {
    if CanAddChunk(k, data, ticksPerSecond) then Put(data, k, v) else data
  }

  /** Offering to the buffer is offering to the whole recording, as if nothing had ever been
      split off: an accepted entry lands behind everything already sent. */
  lemma OfferKeepsStream<V>(sent: seq<seq<Entry<V>>>, data: seq<Entry<V>>, k: nat, v: V, ticksPerSecond: nat)
    requires StreamValid(sent, data, ticksPerSecond)
    requires |data| <= DATA_PER_CHUNK_TO_WRITE + 1 + ticksPerSecond * SECONDS_UNTIL_WRITE
    ensures StreamValid(sent, Offered(data, k, v, ticksPerSecond), ticksPerSecond)
    ensures Concat(sent) + Offered(data, k, v, ticksPerSecond) == Offered(Concat(sent) + data, k, v, ticksPerSecond)
    ensures CanAddChunk(k, data, ticksPerSecond) ==> Get(data, k) == Get(Concat(sent) + data, k)
  {
    var gone := Concat(sent);
    IncreasingConcat(gone, data);
    if data != [] { InitConcat(gone, data); }
    if CanAddChunk(k, data, ticksPerSecond) {
      PutConcat(gone, data, k, v);
      PutIncreasing(gone + data, k, v);
      PutIncreasing(data, k, v);
      GetConcat(gone, data, k);
      GetBeyond(gone, k);
    }
  }

  /** An entry that is newer than everything before is accepted and becomes the last one. */
  lemma NewerIsAppended<V>(all: seq<Entry<V>>, tick: nat, v: V, ticksPerSecond: nat)
    requires Below(all, tick)
    ensures Offered(all, tick, v, ticksPerSecond) == all + [Entry(tick, v)]
  {
  }

  lemma ItemsAtStep<A>(h: seq<Add<A>>, a: Add<A>, t: nat, window: nat)
    ensures ItemsAt(h + [a], t, window)
         == if a.tick == t && Accepted(h + [a], |h|, window) then ItemsAt(h, t, window) + [a.item]
            else ItemsAt(h, t, window)
  {
    assert (h + [a])[..|h|] == h;
    assert ItemsAt(h, t, window) + [] == ItemsAt(h, t, window);
  }

  lemma NewestStep<V, A>(all: seq<Entry<V>>, h: seq<Add<A>>, a: Add<A>, v: V, ticksPerSecond: nat)
    requires Increasing(all) && NewestOf(Newest(all), h)
    ensures NewestOf(Newest(Offered(all, a.tick, v, ticksPerSecond)), h + [a])
  {
    PutIncreasing(all, a.tick, v);
    var n := if all == [] then a.tick else Max(Last(all).key, a.tick);
    assert Newest(Offered(all, a.tick, v, ticksPerSecond)) == Some(n);
    LargestStep(Newest(all), h, a);
  }

  lemma LargestStep<A>(newest: Option<nat>, h: seq<Add<A>>, a: Add<A>)
    requires NewestOf(newest, h)
    ensures NewestOf(Some(if newest == None then a.tick else Max(newest.value, a.tick)), h + [a])
  {
    var h' := h + [a];
    assert h'[|h|] == a;
    if newest.Some? {
      var i :| 0 <= i < |h| && h[i].tick == newest.value;
      assert h'[i] == h[i];
    }
  }

  lemma SnapshotStep(all: seq<Entry<Snapshot>>, h: seq<Add<Snapshot>>, a: Add<Snapshot>, ticksPerSecond: nat)
    requires RecordsSnapshots(all, h, ticksPerSecond * SECONDS_UNTIL_WRITE) && NewestOf(Newest(all), h)
    ensures RecordsSnapshots(Offered(all, a.tick, a.item, ticksPerSecond),
                             h + [a], ticksPerSecond * SECONDS_UNTIL_WRITE)
  {
    var w := ticksPerSecond * SECONDS_UNTIL_WRITE;
    var all' := Offered(all, a.tick, a.item, ticksPerSecond);
    CanAddIsAccepted(all, h, a, ticksPerSecond);
    PutIncreasing(all, a.tick, a.item);
    forall t ensures Get(all', t) == LastItem(ItemsAt(h + [a], t, w)) {
      ItemsAtStep(h, a, t, w);
      GetPut(all, a.tick, a.item, t);
    }
  }

  /** `entry(tick).or_default()` followed by a push. */
  function Pushed(data: seq<Entry<DemoEvents>>, tick: nat, event: DemoEvent): DemoEvents {
    match Get(data, tick)
    case None => [event]
    case Some(evs) => evs + [event]
  }

  function EntryOf(tick: nat, evs: DemoEvents): seq<Entry<DemoEvents>> {
    if evs == [] then [] else [Entry(tick, evs)]
  }

  /** The events of the newest tick, offered one after the other. */
  lemma EventIsAppended(older: seq<Entry<DemoEvents>>, tick: nat, evs: DemoEvents, event: DemoEvent,
                        ticksPerSecond: nat)
    requires Increasing(older) && Below(older, tick)
    ensures var all := older + EntryOf(tick, evs);
            Offered(all, tick, Pushed(all, tick, event), ticksPerSecond) == older + EntryOf(tick, evs + [event])
  {
    var all := older + EntryOf(tick, evs);
    if evs == [] {
      assert all == older && evs + [event] == [event];
      GetBeyond(older, tick);
      NewerIsAppended(older, tick, [event], ticksPerSecond);
    } else {
      assert Init(all) == older;
    }
  }

  lemma EventStep(all: seq<Entry<DemoEvents>>, h: seq<Add<DemoEvent>>, a: Add<DemoEvent>, ticksPerSecond: nat)
    requires RecordsEvents(all, h, ticksPerSecond * SECONDS_UNTIL_WRITE) && NewestOf(Newest(all), h)
    ensures RecordsEvents(Offered(all, a.tick, Pushed(all, a.tick, a.item), ticksPerSecond),
                          h + [a], ticksPerSecond * SECONDS_UNTIL_WRITE)
  {
    var w := ticksPerSecond * SECONDS_UNTIL_WRITE;
    var evs := Pushed(all, a.tick, a.item);
    var all' := Offered(all, a.tick, evs, ticksPerSecond);
    CanAddIsAccepted(all, h, a, ticksPerSecond);
    PutIncreasing(all, a.tick, evs);
    forall t ensures Get(all', t) == AllItems(ItemsAt(h + [a], t, w)) {
      ItemsAtStep(h, a, t, w);
      GetPut(all, a.tick, evs, t);
      assert Get(all, t) == AllItems(ItemsAt(h, t, w));
      if a.tick == t && CanAddChunk(a.tick, all, ticksPerSecond) {
        assert evs == ItemsAt(h, t, w) + [a.item];
      }
    }
  }

  /** What holds of one stream and its reference recording after each call. */
  ghost predicate SnapshotsValid(sent: seq<seq<Entry<Snapshot>>>, data: seq<Entry<Snapshot>>, h: seq<Add<Snapshot>>,
                                 ticksPerSecond: nat) {
    && StreamValid(sent, data, ticksPerSecond)
    && NewestOf(Newest(Concat(sent) + data), h)
    && RecordsSnapshots(Concat(sent) + data, h, ticksPerSecond * SECONDS_UNTIL_WRITE)
  }

  ghost predicate EventsValid(sent: seq<seq<Entry<DemoEvents>>>, data: seq<Entry<DemoEvents>>, h: seq<Add<DemoEvent>>,
                              ticksPerSecond: nat) {
    && StreamValid(sent, data, ticksPerSecond)
    && NewestOf(Newest(Concat(sent) + data), h)
    && RecordsEvents(Concat(sent) + data, h, ticksPerSecond * SECONDS_UNTIL_WRITE)
  }

  lemma SnapshotAdded(sent: seq<seq<Entry<Snapshot>>>, data: seq<Entry<Snapshot>>, h: seq<Add<Snapshot>>,
                      a: Add<Snapshot>, ticksPerSecond: nat)
    requires SnapshotsValid(sent, data, h, ticksPerSecond)
    ensures Increasing(data)
    ensures var all, sent' := Concat(sent) + data, sent + Flushed(data, ticksPerSecond);
            var kept := Kept(data, ticksPerSecond);
            Concat(sent') + Offered(kept, a.tick, a.item, ticksPerSecond)
            == Offered(all, a.tick, a.item, ticksPerSecond)
    ensures SnapshotsValid(sent + Flushed(data, ticksPerSecond),
                           Offered(Kept(data, ticksPerSecond), a.tick, a.item, ticksPerSecond), h + [a], ticksPerSecond)
  {
    hide RecordsSnapshots, NewestOf, Put, Get, Increasing;
    var sent', kept := sent + Flushed(data, ticksPerSecond), Kept(data, ticksPerSecond);
    IncreasingConcat(Concat(sent), data);
    FlushKeepsStream(sent, data, ticksPerSecond);
    OfferKeepsStream(sent', kept, a.tick, a.item, ticksPerSecond);
    SnapshotStep(Concat(sent') + kept, h, a, ticksPerSecond);
    NewestStep(Concat(sent') + kept, h, a, a.item, ticksPerSecond);
  }

  lemma EventAdded(sent: seq<seq<Entry<DemoEvents>>>, data: seq<Entry<DemoEvents>>, h: seq<Add<DemoEvent>>,
                   a: Add<DemoEvent>, ticksPerSecond: nat)
    requires EventsValid(sent, data, h, ticksPerSecond)
    ensures Increasing(data)
    ensures var all, sent' := Concat(sent) + data, sent + Flushed(data, ticksPerSecond);
            var kept := Kept(data, ticksPerSecond);
            Concat(sent') + Offered(kept, a.tick, Pushed(kept, a.tick, a.item), ticksPerSecond)
            == Offered(all, a.tick, Pushed(all, a.tick, a.item), ticksPerSecond)
    ensures var kept := Kept(data, ticksPerSecond);
            EventsValid(sent + Flushed(data, ticksPerSecond),
                        Offered(kept, a.tick, Pushed(kept, a.tick, a.item), ticksPerSecond), h + [a], ticksPerSecond)
  {
    hide RecordsEvents, NewestOf, Put, Get, Increasing;
    var sent', kept := sent + Flushed(data, ticksPerSecond), Kept(data, ticksPerSecond);
    var all, evs := Concat(sent') + kept, Pushed(kept, a.tick, a.item);
    IncreasingConcat(Concat(sent), data);
    FlushKeepsStream(sent, data, ticksPerSecond);
    OfferKeepsStream(sent', kept, a.tick, evs, ticksPerSecond);
    assert Offered(all, a.tick, evs, ticksPerSecond)
           == Offered(all, a.tick, Pushed(all, a.tick, a.item), ticksPerSecond);
    EventStep(all, h, a, ticksPerSecond);
    NewestStep(all, h, a, evs, ticksPerSecond);
  }

  // ---------------------------------------------------------------- the channel

  ghost function SnapshotChunks(sent: seq<RecorderEvent>): seq<seq<Entry<Snapshot>>> {
    if sent == [] then []
    else SnapshotChunks(Init(sent)) + if Last(sent).Snapshots? then [Last(sent).snaps] else []
  }

  ghost function EventChunks(sent: seq<RecorderEvent>): seq<seq<Entry<DemoEvents>>> {
    if sent == [] then []
    else EventChunks(Init(sent)) + if Last(sent).Events? then [Last(sent).events] else []
  }

  lemma SendOne(sent: seq<RecorderEvent>, e: RecorderEvent)
    ensures SnapshotChunks(sent + [e])
            == if e.Snapshots? then SnapshotChunks(sent) + [e.snaps] else SnapshotChunks(sent)
    ensures EventChunks(sent + [e]) == if e.Events? then EventChunks(sent) + [e.events] else EventChunks(sent)
  {
    assert Init(sent + [e]) == sent;
  }

  /** What the writer may rely on: chunks of one stream are non-empty and strictly increasing
      over the whole run. */
  ghost predicate ChunksValid<V>(chunks: seq<seq<Entry<V>>>) {
    && (forall i :: 0 <= i < |chunks| ==> 0 < |chunks[i]| <= DATA_PER_CHUNK_TO_WRITE)
    && Increasing(Concat(chunks))
  }

  /** What is left when the recorder is dropped, in chunks of 1500 entries. */
  ghost function Chunked<V>(data: seq<V>): (r: seq<seq<V>>)
    decreases |data|
  {
    if data == [] then [] else
      var n := Min(DATA_PER_CHUNK_TO_WRITE, |data|);
      [data[..n]] + Chunked(data[n..])
  }

  lemma ChunkedStep<V>(data: seq<V>)
    requires data != []
    ensures var n := Min(DATA_PER_CHUNK_TO_WRITE, |data|);
            Chunked(data) == [data[..n]] + Chunked(data[n..]) && (|data| > n <==> Chunked(data[n..]) != [])
  {
  }

  /** The chunks hold exactly the data in order; only the last one may be short. */
  lemma {:induction false} ChunkedHoldsAll<V>(data: seq<V>)
    ensures Concat(Chunked(data)) == data
    ensures forall i :: 0 <= i < |Chunked(data)| ==> 0 < |Chunked(data)[i]| <= DATA_PER_CHUNK_TO_WRITE
    ensures forall i :: 0 <= i < |Chunked(data)| - 1 ==> |Chunked(data)[i]| == DATA_PER_CHUNK_TO_WRITE
    decreases |data|
  {
    if data == [] {
    } else {
      var n := Min(DATA_PER_CHUNK_TO_WRITE, |data|);
      var rest := Chunked(data[n..]);
      ChunkedHoldsAll(data[n..]);
      ConcatAppend([data[..n]], rest);
      ConcatOne(data[..n]);
      ChunkedStep(data);
      hide Chunked, Concat;
      assert data[..n] + data[n..] == data;
      assert forall i :: 0 < i < |Chunked(data)| ==> Chunked(data)[i] == rest[i - 1];
    }
  }

  lemma SendFirst<V>(sent: seq<seq<V>>, data: seq<V>)
    ensures data != [] ==> var n := Min(DATA_PER_CHUNK_TO_WRITE, |data|);
                           (sent + [data[..n]]) + Chunked(data[n..]) == sent + Chunked(data)
    ensures data == [] ==> sent + Chunked(data) == sent
  {
  }

  /** Sending the rest keeps the chunks of a stream non-empty and in order. */
  lemma ChunkedKeepsStream<V>(sent: seq<seq<Entry<V>>>, data: seq<Entry<V>>, ticksPerSecond: nat)
    requires StreamValid(sent, data, ticksPerSecond)
    ensures Concat(sent + Chunked(data)) == Concat(sent) + data
    ensures ChunksValid(sent + Chunked(data))
  {
    ChunkedHoldsAll(data);
    ConcatAppend(sent, Chunked(data));
  }

  class DemoRecorder {
    const ticksPerSecond: nat
    var snapshots: seq<Entry<Snapshot>>
    var events: seq<Entry<DemoEvents>>
    /** Everything sent to the writer so far. */
    var threadSender: seq<RecorderEvent>

    /** Every call made so far, accepted or not. */
    ghost var snapshotAdds: seq<Add<Snapshot>>
    ghost var eventAdds: seq<Add<DemoEvent>>

    /** The recording: what was sent and what is still buffered. */
    ghost function AllSnapshots(): seq<Entry<Snapshot>> reads this {
      Concat(SnapshotChunks(threadSender)) + snapshots
    }

    ghost function AllEvents(): seq<Entry<DemoEvents>> reads this {
      Concat(EventChunks(threadSender)) + events
    }

    ghost predicate Valid() reads this {
      && SnapshotsValid(SnapshotChunks(threadSender), snapshots, snapshotAdds, ticksPerSecond)
      && EventsValid(EventChunks(threadSender), events, eventAdds, ticksPerSecond)
      && Cancel !in threadSender
    }

    constructor (ticksPerSecond: nat)
      ensures Valid() && this.ticksPerSecond == ticksPerSecond
      ensures AllSnapshots() == [] && AllEvents() == []
      ensures snapshotAdds == [] && eventAdds == [] && threadSender == []
    {
      this.ticksPerSecond := ticksPerSecond;
      snapshots, events, threadSender := [], [], [];
      snapshotAdds, eventAdds := [], [];
    }

    method AddSnapshot(tick: nat, snapshot: Snapshot)
      requires Valid()
      modifies this
      ensures Valid()
      ensures AllSnapshots() == Offered(old(AllSnapshots()), tick, snapshot, ticksPerSecond)
      ensures snapshotAdds == old(snapshotAdds) + [Add(tick, snapshot)]
      ensures eventAdds == old(eventAdds) && events == old(events) && AllEvents() == old(AllEvents())
      ensures threadSender == old(threadSender) +
                if FlushDue(old(snapshots), ticksPerSecond)
                then [Snapshots(old(snapshots)[..DATA_PER_CHUNK_TO_WRITE])] else []
    {
      hide SnapshotsValid, EventsValid, SnapshotChunks, EventChunks, Increasing, Put, Get, Offered, Concat, Pushed;
      ghost var sent, data, h, a := SnapshotChunks(threadSender), snapshots, snapshotAdds, Add(tick, snapshot);
      SnapshotAdded(sent, data, h, a, ticksPerSecond);
      var rest, chunk := TryWriteChunks(snapshots, ticksPerSecond);
      snapshots := rest;
      if chunk.Some? {
        SendOne(threadSender, Snapshots(chunk.value));
        threadSender := threadSender + [Snapshots(chunk.value)];
      }
      snapshots := Offered(snapshots, tick, snapshot, ticksPerSecond);
      snapshotAdds := snapshotAdds + [Add(tick, snapshot)];
      assert SnapshotChunks(threadSender) == sent + Flushed(data, ticksPerSecond);
    }

    method AddEvent(tick: nat, event: DemoEvent)
      requires Valid()
      modifies this
      ensures Valid()
      ensures AllEvents() == Offered(old(AllEvents()), tick, Pushed(old(AllEvents()), tick, event), ticksPerSecond)
      ensures eventAdds == old(eventAdds) + [Add(tick, event)]
      ensures snapshotAdds == old(snapshotAdds) && snapshots == old(snapshots) && AllSnapshots() == old(AllSnapshots())
      ensures threadSender == old(threadSender) +
                if FlushDue(old(events), ticksPerSecond)
                then [Events(old(events)[..DATA_PER_CHUNK_TO_WRITE])] else []
    {
      hide SnapshotsValid, EventsValid, SnapshotChunks, EventChunks, Increasing, Put, Get, Offered, Concat, Pushed;
      ghost var sent, data, h, a := EventChunks(threadSender), events, eventAdds, Add(tick, event);
      EventAdded(sent, data, h, a, ticksPerSecond);
      var rest, chunk := TryWriteChunks(events, ticksPerSecond);
      events := rest;
      if chunk.Some? {
        SendOne(threadSender, Events(chunk.value));
        threadSender := threadSender + [Events(chunk.value)];
      }
      events := Offered(events, tick, Pushed(events, tick, event), ticksPerSecond);
      eventAdds := eventAdds + [Add(tick, event)];
      assert EventChunks(threadSender) == sent + Flushed(data, ticksPerSecond);
    }

    /** Sends what is left and ends the recording. */
    method Drop()
      requires Valid()
      modifies this
      ensures snapshots == [] && events == []
      ensures AllSnapshots() == old(AllSnapshots()) && AllEvents() == old(AllEvents())
      ensures snapshotAdds == old(snapshotAdds) && eventAdds == old(eventAdds)
      ensures ChunksValid(SnapshotChunks(threadSender)) && ChunksValid(EventChunks(threadSender))
      ensures SnapshotChunks(threadSender) == old(SnapshotChunks(threadSender) + Chunked(snapshots))
      ensures EventChunks(threadSender) == old(EventChunks(threadSender) + Chunked(events))
      ensures old(threadSender) <= threadSender
      ensures Cancel !in threadSender
    {
      ChunkedKeepsStream(SnapshotChunks(threadSender), snapshots, ticksPerSecond);
      ChunkedKeepsStream(EventChunks(threadSender), events, ticksPerSecond);
      SendRest();
    }

    /** Discards the recording: the writer is told to stop, then the recorder is dropped. */
    method CancelRecording()
      requires Valid()
      modifies this
      ensures old(threadSender) + [Cancel] <= threadSender
    {
      threadSender := threadSender + [Cancel];
      SendRest();
    }

    method SendRest()
      modifies this
      ensures snapshots == [] && events == []
      ensures snapshotAdds == old(snapshotAdds) && eventAdds == old(eventAdds)
      ensures SnapshotChunks(threadSender) == old(SnapshotChunks(threadSender) + Chunked(snapshots))
      ensures EventChunks(threadSender) == old(EventChunks(threadSender) + Chunked(events))
      ensures old(threadSender) <= threadSender
      ensures Cancel in threadSender <==> Cancel in old(threadSender)
    {
      hide SnapshotChunks, EventChunks, Chunked;
      while snapshots != []
        invariant snapshotAdds == old(snapshotAdds) && eventAdds == old(eventAdds) && events == old(events)
        invariant SnapshotChunks(threadSender) + Chunked(snapshots)
                  == old(SnapshotChunks(threadSender) + Chunked(snapshots))
        invariant EventChunks(threadSender) == old(EventChunks(threadSender))
        invariant old(threadSender) <= threadSender
        invariant Cancel in threadSender <==> Cancel in old(threadSender)
        decreases |snapshots|
      {
        var n := Min(DATA_PER_CHUNK_TO_WRITE, |snapshots|);
        SendOne(threadSender, Snapshots(snapshots[..n]));
        SendFirst(SnapshotChunks(threadSender), snapshots);
        threadSender := threadSender + [Snapshots(snapshots[..n])];
        snapshots := snapshots[n..];
      }
      SendFirst(SnapshotChunks(threadSender), snapshots);
      while events != []
        invariant snapshotAdds == old(snapshotAdds) && eventAdds == old(eventAdds) && snapshots == []
        invariant EventChunks(threadSender) + Chunked(events) == old(EventChunks(threadSender) + Chunked(events))
        invariant SnapshotChunks(threadSender) == old(SnapshotChunks(threadSender) + Chunked(snapshots))
        invariant old(threadSender) <= threadSender
        invariant Cancel in threadSender <==> Cancel in old(threadSender)
        decreases |events|
      {
        var n := Min(DATA_PER_CHUNK_TO_WRITE, |events|);
        SendOne(threadSender, Events(events[..n]));
        SendFirst(EventChunks(threadSender), events);
        threadSender := threadSender + [Events(events[..n])];
        events := events[n..];
      }
      SendFirst(EventChunks(threadSender), events);
    }
  }
}
