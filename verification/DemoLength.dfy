/**
 The length in the header of a finished demo (game/demo/src/recorder.rs) and the playback clock of the
 viewer (game/client-demo/src/lib.rs), on one and the same recording: playing to the stored length
 reaches the last recorded tick of both streams.
 */
module DemoLength {
  import opened OrderedMaps
  import opened DemoTypes
  import opened DemoCodec
  import opened DemoChunk
  import opened DemoTime
  import opened DemoFile
  import opened DemoWriter
  import opened DemoRoundTrip
  import opened DemoViewer
  import opened DemoExport

  /** The time a viewer jumps to when it goes to the end of a demo. */
  function StoredLen(header: DemoHeader): nat {
    header.secs * NANOS_PER_SEC + header.nanos
  }

  /** The first and the last tick of both streams together. */
  ghost function FirstOf(snaps: seq<seq<Entry<Snapshot>>>, events: seq<seq<Entry<DemoEvents>>>): Option<nat> {
    FirstMonotonic(FirstTick(snaps), FirstTick(events))
  }

  ghost function LastOf(snaps: seq<seq<Entry<Snapshot>>>, events: seq<seq<Entry<DemoEvents>>>): Option<nat> {
    LastMonotonic(LastTick(snaps), LastTick(events))
  }

  /** They bound both streams, and are ticks of one of them. */
  lemma {:induction false} SpanBoundsStreams(snaps: seq<seq<Entry<Snapshot>>>, events: seq<seq<Entry<DemoEvents>>>)
    requires Concat(snaps) != []
    ensures var first, last, s, e := FirstOf(snaps, events), LastOf(snaps, events), Concat(snaps), Concat(events);
            && first.Some? && last.Some?
            && first.value <= s[0].key && Last(s).key <= last.value
            && (e != [] ==> first.value <= e[0].key && Last(e).key <= last.value)
            && (first.value == s[0].key || (e != [] && first.value == e[0].key))
            && (last.value == Last(s).key || (e != [] && last.value == Last(e).key))
  {
    hide Concat;
  }

  /** The playback clock starts at the first recorded snapshot. */
  lemma {:induction false} ClockStart(c: Codec, demo: DemoContainer, snaps: seq<seq<Entry<Snapshot>>>,
                                      events: seq<seq<Entry<DemoEvents>>>)
    requires Holds(c, demo, snaps, events) && Concat(snaps) != []
    ensures FirstSnapshotTick(demo) == Concat(snaps)[0].key
  {
    var s := Stream(c, c.snapshot, demo.chunks, demo.tail.snapshotsIndex);
    StreamsRead(c, demo, snaps, events);
    assert snaps != [];
    hide *;
    ReadsOrdered(s, snaps);
    IndexKey(s, snaps, 0);
    StartEnds(snaps);
    IndexStarts(demo);
  }

  lemma IndexStarts(demo: DemoContainer)
    ensures demo.tail.snapshotsIndex != [] ==> FirstSnapshotTick(demo) == demo.tail.snapshotsIndex[0].key
  {
  }

  /** How far playing to the end goes beyond the last tick: by the ticks events were recorded before the
      first snapshot, and by the rounding of the tick length. */
  ghost function Ahead(first: nat, firstSnapshot: nat, last: nat, ticksPerSecond: nat): nat
    requires first <= last && first <= firstSnapshot && 0 < ticksPerSecond <= NANOS_PER_SEC
  {
    firstSnapshot - first + Rounding(last - first, ticksPerSecond)
  }

  lemma AheadIs(first: nat, firstSnapshot: nat, last: nat, ticksPerSecond: nat)
    requires first <= last && first <= firstSnapshot && 0 < ticksPerSecond <= NANOS_PER_SEC
    ensures Ahead(first, firstSnapshot, last, ticksPerSecond)
         == firstSnapshot - first + Rounding(last - first, ticksPerSecond)
  {
  }

  lemma TickAtIs(demo: DemoContainer, time: nat)
    requires 0 < demo.headerExt.ticksPerSecond <= NANOS_PER_SEC
    ensures TickAt(demo, time) == TimeToTick(time, FirstSnapshotTick(demo), demo.headerExt.ticksPerSecond)
  {
  }

  /** What opening a recording says about its header and first snapshot. */
  lemma {:induction false} OpenedLength(c: Codec, mem: bytes, ext: DemoHeaderExt, snaps: seq<seq<Entry<Snapshot>>>,
                                        events: seq<seq<Entry<DemoEvents>>>, demo: DemoContainer)
    requires OpensAs(c, mem, ext, snaps, events) && Open(c, mem) == Ok(demo)
    requires LastOf(snaps, events).Some? ==> LastOf(snaps, events).value <= MAX_U64
    ensures Concat(snaps) != [] && demo.headerExt == ext && ext.ticksPerSecond > 0
    ensures var first, last := FirstOf(snaps, events), LastOf(snaps, events);
            && first.Some? && last.Some? && first.value <= Concat(snaps)[0].key
            && first.value <= last.value
            && StoredLen(demo.header) == DemoLen(first.value, last.value, ext.ticksPerSecond).AsNanos()
            && FirstSnapshotTick(demo) == Concat(snaps)[0].key
  {
    OpensFacts(c, mem, ext, snaps, events, demo);
    hide *;
    SpanBoundsStreams(snaps, events);
    ClockStart(c, demo, snaps, events);
    var first, last := FirstOf(snaps, events), LastOf(snaps, events);
    HeaderLen(c, ext, first.value, last.value, |demo.chunks|);
    StoredLenIs(demo.header);
  }

  lemma StoredLenIs(header: DemoHeader)
    ensures StoredLen(header) == header.secs * NANOS_PER_SEC + header.nanos
  {
  }

  lemma {:induction false} OpensFacts(c: Codec, mem: bytes, ext: DemoHeaderExt, snaps: seq<seq<Entry<Snapshot>>>,
                                      events: seq<seq<Entry<DemoEvents>>>, demo: DemoContainer)
    requires OpensAs(c, mem, ext, snaps, events) && Open(c, mem) == Ok(demo)
    ensures Concat(snaps) != [] && demo.headerExt == ext && ext.ticksPerSecond > 0 && Holds(c, demo, snaps, events)
    ensures var first, last := FirstOf(snaps, events), LastOf(snaps, events);
            && first.Some? && last.Some? && first.value <= last.value
            && demo.header == FinalHeader(c, ext, first.value, last.value, |demo.chunks|)
  {
    hide Open, Holds, FinalHeader, FirstMonotonic, LastMonotonic, FirstTick, LastTick, Concat;
  }

  /** Playing an opened recording to its stored length reaches the last tick of both streams, unless the
      64-bit cast of the tick count wraps around; and it stops exactly there, if the recording starts with
      a snapshot and nothing is lost to rounding. */
  lemma {:induction false} LenCoversRecording(c: Codec, mem: bytes, ext: DemoHeaderExt,
                                              snaps: seq<seq<Entry<Snapshot>>>, events: seq<seq<Entry<DemoEvents>>>,
                                              demo: DemoContainer)
    requires OpensAs(c, mem, ext, snaps, events) && Open(c, mem) == Ok(demo)
    requires LastOf(snaps, events).Some? ==> LastOf(snaps, events).value <= MAX_U64
    requires ext.ticksPerSecond <= NANOS_PER_SEC
    ensures demo.headerExt == ext && ext.ticksPerSecond > 0 && Concat(snaps) != []
    ensures FirstOf(snaps, events).Some? && LastOf(snaps, events).Some?
    ensures var first, last, start := FirstOf(snaps, events).value, LastOf(snaps, events).value, Concat(snaps)[0].key;
            && first <= last && first <= start
            && var fits := last - first + Rounding(last - first, ext.ticksPerSecond) <= MAX_U64;
               var ahead, end := Ahead(first, start, last, ext.ticksPerSecond), TickAt(demo, StoredLen(demo.header));
               && (end >= last <==> fits || ahead > MAX_U64)
               && (fits ==> && end == last + ahead
                            && end >= Last(Concat(snaps)).key
                            && (Concat(events) != [] ==> end >= Last(Concat(events)).key)
                            && (end == last <==> start == first && Rounding(last - first, ext.ticksPerSecond) == 0))
  {
    hide *;
    OpenedLength(c, mem, ext, snaps, events, demo);
    SpanBoundsStreams(snaps, events);
    var first, last, start := FirstOf(snaps, events).value, LastOf(snaps, events).value, Concat(snaps)[0].key;
    AheadIs(first, start, last, ext.ticksPerSecond);
    TickAtIs(demo, StoredLen(demo.header));
    LenReaches(first, last, start, ext.ticksPerSecond);
  }

  /** When nothing is lost to rounding: with a tick rate that divides one second, and before the first
      whole second. */
  lemma {:induction false} NothingRounded(ticks: nat, ticksPerSecond: nat)
    requires 0 < ticksPerSecond <= NANOS_PER_SEC
    ensures Rounding(ticks, ticksPerSecond) == 0
            <==> (ticks / ticksPerSecond) * (NANOS_PER_SEC % ticksPerSecond) < NanosPerTick(ticksPerSecond)
    ensures NANOS_PER_SEC % ticksPerSecond == 0 || ticks < ticksPerSecond ==> Rounding(ticks, ticksPerSecond) == 0
  {
    var n, x := NanosPerTick(ticksPerSecond), Times(ticks / ticksPerSecond, NANOS_PER_SEC % ticksPerSecond);
    if x < n { DivUnique(x, n, 0, x); } else { DivAtLeastOne(x, n); }
    if ticks < ticksPerSecond { DivUnique(ticks, ticksPerSecond, 0, ticks); }
  }

  /** With a tick rate that divides one second, a recording that starts with a snapshot ends exactly on
      its last tick. */
  lemma {:induction false} LenExactForWholeTicks(c: Codec, mem: bytes, ext: DemoHeaderExt,
                                                 snaps: seq<seq<Entry<Snapshot>>>, events: seq<seq<Entry<DemoEvents>>>,
                                                 demo: DemoContainer)
    requires OpensAs(c, mem, ext, snaps, events) && Open(c, mem) == Ok(demo)
    requires LastOf(snaps, events).Some? ==> LastOf(snaps, events).value <= MAX_U64
    requires 0 < ext.ticksPerSecond <= NANOS_PER_SEC && NANOS_PER_SEC % ext.ticksPerSecond == 0
    ensures demo.headerExt == ext && Concat(snaps) != [] && FirstOf(snaps, events).Some? && LastOf(snaps, events).Some?
    ensures TickAt(demo, StoredLen(demo.header)) == LastOf(snaps, events).value
            <==> FirstOf(snaps, events).value == Concat(snaps)[0].key
  {
    LenCoversRecording(c, mem, ext, snaps, events, demo);
    hide Concat, OpensAs, Open, FirstOf, LastOf, StoredLen, TickAt, Rounding;
    NothingRounded(LastOf(snaps, events).value - FirstOf(snaps, events).value, ext.ticksPerSecond);
  }
}
