/**
 From a recorder to a demo that can be opened: dropping the recorder, the writer
 thread and the reader of the file together give back the reference recording.
 */
module DemoRoundTrip {
  import opened OrderedMaps
  import opened DemoTypes
  import opened DemoCodec
  import opened DemoChunk
  import opened DemoFile
  import opened DemoTime
  import opened DemoWriter
  import Recorder = DemoRecorder

  /** Both indexes of an opened demo lead to the chunks of their stream, and the chunks of one
      stream hold strictly increasing ticks. */
  ghost predicate Holds(c: Codec, demo: DemoContainer, snaps: seq<seq<Entry<Snapshot>>>,
                        events: seq<seq<Entry<DemoEvents>>>) {
    && Indexed(c, c.snapshot, demo.chunks, demo.tail.snapshotsIndex, snaps)
    && Indexed(c, c.events, demo.chunks, demo.tail.eventsIndex, events)
  }

  ghost predicate Indexed<A>(c: Codec, coder: Coder<A>, bytes: bytes, index: seq<Entry<nat>>,
                             chunks: seq<seq<Entry<A>>>) {
    Increasing(index) && Increasing(Concat(chunks)) && Indexes(c, coder, bytes, index, chunks)
  }

  /** Everything that is serialized for a recording fits into 64-bit numbers. */
  ghost predicate RecordingFits(c: Codec, ext: DemoHeaderExt, snaps: seq<seq<Entry<Snapshot>>>,
                                events: seq<seq<Entry<DemoEvents>>>) {
    c.headerExt.fits(ext) && ChunksFit(c, c.snapshot, snaps) && ChunksFit(c, c.events, events)
  }

  lemma HeldIsIndexed<A>(c: Codec, coder: Coder<A>, stream: bytes, s: StreamState, chunks: seq<seq<Entry<A>>>)
    requires StreamHeld(c, coder, stream, s, chunks) && |stream| <= MAX_U64 && ChunksFit(c, coder, chunks)
    ensures Indexed(c, coder, stream, s.index, chunks) && WordIndex(s.index)
    ensures s.first == FirstTick(chunks) && s.last == LastTick(chunks)
    ensures s.index == [] <==> chunks == []
  {
    forall i | 0 <= i < |s.index| ensures s.index[i].key <= MAX_U64 && s.index[i].value <= MAX_U64 {
      FittingTicks(c, coder, None, chunks[i], 0);
      ReadableOffset(c, coder, stream, s.index[i].value);
    }
  }

  lemma ReadableOffset<A>(c: Codec, coder: Coder<A>, stream: bytes, offset: nat)
    requires DecodeChunk(c, coder, stream, offset).Ok?
    ensures offset <= |stream|
  {
  }

  /** What the reader makes of the file of a recording: a demo that holds the chunks and whose
      header spans both streams, or nothing if there is no snapshot. */
  ghost predicate OpensAs(c: Codec, mem: bytes, ext: DemoHeaderExt, snaps: seq<seq<Entry<Snapshot>>>,
                          events: seq<seq<Entry<DemoEvents>>>) {
    if Concat(snaps) == [] then Open(c, mem) == Err else
      var first := FirstMonotonic(FirstTick(snaps), FirstTick(events));
      var last := LastMonotonic(LastTick(snaps), LastTick(events));
      && first.Some? && last.Some? && first.value <= last.value && ext.ticksPerSecond > 0
      && match Open(c, mem)
         case Err => false
         case Ok(demo) =>
           && Holds(c, demo, snaps, events)
           && demo.headerExt == ext
           && demo.header == FinalHeader(c, ext, first.value, last.value, |demo.chunks|)
  }

  lemma FileOpens(c: Codec, recv: seq<Recorder.RecorderEvent>, ext: DemoHeaderExt, stream: bytes, s: StreamState,
                  e: StreamState, header: DemoHeader)
    requires FileLaws(c) && ChannelValid(recv) && Written(c, recv, stream, s, e) && ext.ticksPerSecond > 0
    requires var first, last := FirstMonotonic(s.first, e.first), LastMonotonic(s.last, e.last);
             first.Some? && last.Some? && first.value <= last.value
             && header == FinalHeader(c, ext, first.value, last.value, |stream|)
    requires |FileBytes(c, header, ext, stream, DemoTail(s.index, e.index))| <= MAX_U64
    requires RecordingFits(c, ext, Recorder.SnapshotChunks(recv), Recorder.EventChunks(recv))
    ensures OpensAs(c, FileBytes(c, header, ext, stream, DemoTail(s.index, e.index)), ext,
                    Recorder.SnapshotChunks(recv), Recorder.EventChunks(recv))
  {
    hide FileLaws, StreamHeld, Increasing, Recorder.ChunksValid, Indexed, FileBytes, FirstTick, LastTick, Open,
         ChunksFit, WordIndex;
    FileFits(c, header, ext, stream, DemoTail(s.index, e.index));
    HeldIsIndexed(c, c.snapshot, stream, s, Recorder.SnapshotChunks(recv));
    HeldIsIndexed(c, c.events, stream, e, Recorder.EventChunks(recv));
    TailFits(c, DemoTail(s.index, e.index));
    OpenFile(c, header, ext, stream, DemoTail(s.index, e.index));
    NoChunksNoEntries(Recorder.SnapshotChunks(recv));
  }

  lemma FileFits(c: Codec, header: DemoHeader, ext: DemoHeaderExt, stream: bytes, tail: DemoTail)
    requires |FileBytes(c, header, ext, stream, tail)| <= MAX_U64
    ensures |stream| <= MAX_U64 && AsU64(|stream|) == |stream|
    ensures AsU64(|c.comp(c.headerExt.ser(ext))|) == |c.comp(c.headerExt.ser(ext))|
  {
  }

  lemma TailFits(c: Codec, tail: DemoTail)
    requires FileLaws(c) && WordIndex(tail.snapshotsIndex) && WordIndex(tail.eventsIndex)
    ensures c.tail.fits(tail)
  {
  }

  // ---------------------------------------------------------------- the mark of a broken demo

  /** A length of zero or no chunks is documented as the mark of a broken demo. */
  ghost predicate MarkedBroken(c: Codec, mem: bytes) {
    match c.header.deser(mem)
    case None => true
    case Some((header, _)) => header.secs * NANOS_PER_SEC + header.nanos == 0 || header.sizeChunks == 0
  }

  /** Whatever was written by then, a demo is marked until its final header is written: by its length and by
      the size of its chunks. */
  lemma UnfinishedIsMarked(c: Codec, ext: DemoHeaderExt, rest: bytes)
    requires FileLaws(c)
    ensures var read := c.header.deser(c.header.ser(Placeholder(c, ext)) + rest);
            read.Some? && read.value.0.secs == 0 && read.value.0.nanos == 0 && read.value.0.sizeChunks == 0
    ensures MarkedBroken(c, c.header.ser(Placeholder(c, ext)) + rest)
  {
  }

  ghost predicate SpansNoTime(first: nat, last: nat, ticksPerSecond: nat) {
    first == last || (ticksPerSecond > NANOS_PER_SEC && last - first < ticksPerSecond)
  }

  /** The stored header carries the length, without loss. */
  lemma {:induction false} HeaderLen(c: Codec, ext: DemoHeaderExt, first: nat, last: nat, size: nat)
    requires first <= last <= MAX_U64 && ext.ticksPerSecond > 0
    ensures var header := FinalHeader(c, ext, first, last, size);
            header.secs * NANOS_PER_SEC + header.nanos == DemoLen(first, last, ext.ticksPerSecond).AsNanos()
  {
    LenIsDuration(first, last, ext.ticksPerSecond);
    QuotientSmaller(last - first, ext.ticksPerSecond);
  }

  lemma QuotientSmaller(x: nat, d: nat)
    requires d > 0
    ensures x / d <= x
  {
    MulMonotone(1, d, x / d);
  }

  /** A finished demo always has chunks, and is marked exactly if it spans no time. */
  lemma {:induction false} FinishedMark(c: Codec, ext: DemoHeaderExt, first: nat, last: nat, stream: bytes,
                                        tail: DemoTail)
    requires FileLaws(c) && first <= last <= MAX_U64 && ext.ticksPerSecond > 0 && 0 < |stream| <= MAX_U64
    ensures var header := FinalHeader(c, ext, first, last, |stream|);
            && header.sizeChunks > 0
            && (MarkedBroken(c, FileBytes(c, header, ext, stream, tail))
                <==> SpansNoTime(first, last, ext.ticksPerSecond))
  {
    var header := FinalHeader(c, ext, first, last, |stream|);
    HeaderLen(c, ext, first, last, |stream|);
    ZeroLenIff(first, last, ext.ticksPerSecond);
    var rest := c.comp(c.headerExt.ser(ext)) + (stream + c.comp(c.tail.ser(tail)));
    assert FileBytes(c, header, ext, stream, tail) == c.header.ser(header) + rest;
    hide FinalHeader, FileBytes;
    assert c.header.deser(c.header.ser(header) + rest) == Some((header, |c.header.ser(header)|));
  }

  /** A recording without any entry ends as the beginning of a file. Whether opening it fails depends on
      what the libraries make of no bytes at all. */
  ghost predicate NothingIsNoTail(c: Codec) {
    match c.decomp([])
    case None => true
    case Some(plain) =>
      match c.tail.deser(plain)
      case None => true
      case Some((tail, _)) => tail.snapshotsIndex == []
  }

  lemma {:induction false} BeginningOpens(c: Codec, ext: DemoHeaderExt)
    requires FileLaws(c) && c.headerExt.fits(ext) && |c.comp(c.headerExt.ser(ext))| <= MAX_U64
    ensures Open(c, Beginning(c, ext)) == Err <==> NothingIsNoTail(c)
  {
    var h, plain := Placeholder(c, ext), c.headerExt.ser(ext);
    var e, start := c.comp(plain), c.header.ser(Placeholder(c, ext));
    var demo := Beginning(c, ext);
    assert c.header.deser(start + e) == Some((h, |start|));
    assert demo[|start|..] == e && e[..|e|] == e && e[|e|..] == [];
    var nothing: bytes := [];
    assert nothing[..0] == [] && nothing[0..] == [];
    assert c.headerExt.deser(plain + []) == Some((ext, |plain|)) && plain + [] == plain;
  }

  lemma BeginningFits(c: Codec, ext: DemoHeaderExt)
    requires |Beginning(c, ext)| <= MAX_U64
    ensures |c.comp(c.headerExt.ser(ext))| <= MAX_U64
  {
  }

  // ---------------------------------------------------------------- the end of a recording

  /** The end of a recording: the chunks hold exactly the reference recording of all calls, and
      the file opens as these chunks. */
  method FinishRecording(c: Codec, recorder: Recorder.DemoRecorder, ext: DemoHeaderExt)
    returns (r: RunResult, ghost snaps: seq<seq<Entry<Snapshot>>>, ghost events: seq<seq<Entry<DemoEvents>>>)
    requires FileLaws(c) && recorder.Valid() && recorder.ticksPerSecond > 0
    requires ext.ticksPerSecond == recorder.ticksPerSecond
    modifies recorder
    ensures r.Finished?
    ensures var window := ext.ticksPerSecond * 3;
            && Recorder.RecordsSnapshots(Concat(snaps), old(recorder.snapshotAdds), window)
            && Recorder.RecordsEvents(Concat(events), old(recorder.eventAdds), window)
    ensures Concat(snaps) == old(recorder.AllSnapshots()) && Concat(events) == old(recorder.AllEvents())
    ensures r.kept <==> Concat(snaps) != [] || Concat(events) != []
    ensures !r.kept ==> r.mem == Beginning(c, ext)
    ensures r.kept && |r.mem| <= MAX_U64 && RecordingFits(c, ext, snaps, events)
            ==> OpensAs(c, r.mem, ext, snaps, events)
    ensures r.kept && |r.mem| <= MAX_U64 ==> MarkIsRight(c, r.mem, ext, snaps, events)
  {
    ghost var window := ext.ticksPerSecond * Recorder.SECONDS_UNTIL_WRITE;
    assert Recorder.RecordsSnapshots(recorder.AllSnapshots(), recorder.snapshotAdds, window);
    assert Recorder.RecordsEvents(recorder.AllEvents(), recorder.eventAdds, window);
    ghost var allSnaps, allEvents := recorder.AllSnapshots(), recorder.AllEvents();
    recorder.Drop();
    AllSent(recorder);
    hide *;
    var recv := recorder.threadSender;
    snaps, events := Recorder.SnapshotChunks(recv), Recorder.EventChunks(recv);
    assert Concat(snaps) == allSnaps && Concat(events) == allEvents;
    ghost var stream, s, e;
    r, stream, s, e := Run(c, recv, ext);
    SomethingReceived(recv);
    if recv != [] && |r.mem| <= MAX_U64 {
      var first, last := FirstMonotonic(s.first, e.first), LastMonotonic(s.last, e.last);
      var header := FinalHeader(c, ext, first.value, last.value, |stream|);
      FileIsMarked(c, recv, ext, stream, s, e);
      if RecordingFits(c, ext, snaps, events) { FileOpens(c, recv, ext, stream, s, e, header); }
    }
  }

  /** The mark of a finished demo says that it spans no time, for 64-bit ticks. */
  ghost predicate MarkIsRight(c: Codec, mem: bytes, ext: DemoHeaderExt, snaps: seq<seq<Entry<Snapshot>>>,
                              events: seq<seq<Entry<DemoEvents>>>) {
    var first := FirstMonotonic(FirstTick(snaps), FirstTick(events));
    var last := LastMonotonic(LastTick(snaps), LastTick(events));
    && first.Some? && last.Some? && first.value <= last.value
    && (last.value <= MAX_U64 ==> (MarkedBroken(c, mem) <==> SpansNoTime(first.value, last.value, ext.ticksPerSecond)))
  }

  /** The file of a recording, given what the writer has at the end. */
  ghost function FileOf(c: Codec, ext: DemoHeaderExt, stream: bytes, s: StreamState, e: StreamState): bytes
    requires var first, last := FirstMonotonic(s.first, e.first), LastMonotonic(s.last, e.last);
             first.Some? && last.Some? && first.value <= last.value && ext.ticksPerSecond > 0
  {
    var first, last := FirstMonotonic(s.first, e.first), LastMonotonic(s.last, e.last);
    FileBytes(c, FinalHeader(c, ext, first.value, last.value, |stream|), ext, stream, DemoTail(s.index, e.index))
  }

  lemma FileIsMarked(c: Codec, recv: seq<Recorder.RecorderEvent>, ext: DemoHeaderExt, stream: bytes, s: StreamState,
                     e: StreamState)
    requires FileLaws(c) && Written(c, recv, stream, s, e) && ext.ticksPerSecond > 0 && stream != []
    requires var first, last := FirstMonotonic(s.first, e.first), LastMonotonic(s.last, e.last);
             first.Some? && last.Some? && first.value <= last.value
    requires |FileOf(c, ext, stream, s, e)| <= MAX_U64
    ensures MarkIsRight(c, FileOf(c, ext, stream, s, e), ext, Recorder.SnapshotChunks(recv), Recorder.EventChunks(recv))
  {
    hide FileLaws, Written, FileBytes, FirstTick, LastTick, MarkedBroken, SpansNoTime, FinalHeader, FirstMonotonic,
         LastMonotonic;
    var first, last := FirstMonotonic(s.first, e.first), LastMonotonic(s.last, e.last);
    TicksWritten(c, recv, stream, s, e);
    FileFits(c, FinalHeader(c, ext, first.value, last.value, |stream|), ext, stream, DemoTail(s.index, e.index));
    if last.value <= MAX_U64 {
      FinishedMark(c, ext, first.value, last.value, stream, DemoTail(s.index, e.index));
    }
  }

  lemma AllSent(recorder: Recorder.DemoRecorder)
    requires recorder.snapshots == [] && recorder.events == []
    requires Recorder.Cancel !in recorder.threadSender
    requires Recorder.ChunksValid(Recorder.SnapshotChunks(recorder.threadSender))
    requires Recorder.ChunksValid(Recorder.EventChunks(recorder.threadSender))
    ensures recorder.AllSnapshots() == Concat(Recorder.SnapshotChunks(recorder.threadSender))
    ensures recorder.AllEvents() == Concat(Recorder.EventChunks(recorder.threadSender))
    ensures ChannelValid(recorder.threadSender)
  {
  }
}
