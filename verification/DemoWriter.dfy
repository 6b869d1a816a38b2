/**
 The writer thread (`writer_thread_run`, game/demo/src/recorder.rs) from the first
 byte to the finished file, and the end of a recording: dropping the recorder, running
 the writer on everything it received, and opening the result.
 */
module DemoWriter {
  import opened OrderedMaps
  import opened DemoTypes
  import opened DemoCodec
  import opened DemoChunk
  import opened DemoTime
  import opened DemoFile
  import Recorder = DemoRecorder

  /** `Finished` carries the bytes written; `kept` says whether they are a complete demo. */
  datatype RunResult = Finished(mem: bytes, kept: bool) | Cancelled | Failed(error: WriteError)

  function AsU64(n: nat): u64 { n % (MAX_U64 + 1) }
  function AsU32(n: nat): u32 { n % 0x1_0000_0000 }

  function Or<T>(a: Option<T>, b: Option<T>): Option<T> {
    if a.Some? then a else b
  }

  /** The smaller first tick of the two streams, or that of the only stream with chunks. */
  function FirstMonotonic(snaps: Option<nat>, events: Option<nat>): Option<nat> {
    var a, b := Or(snaps, events), Or(events, snaps);
    if a.Some? && b.Some? then Some(Min(a.value, b.value)) else None
  }

  function LastMonotonic(snaps: Option<nat>, events: Option<nat>): Option<nat> {
    var a, b := Or(snaps, events), Or(events, snaps);
    if a.Some? && b.Some? then Some(Max(a.value, b.value)) else None
  }

  function FinalHeader(c: Codec, ext: DemoHeaderExt, first: nat, last: nat, sizeChunks: nat): DemoHeader
    requires first <= last && ext.ticksPerSecond > 0
  {
    var len := DemoLen(first, last, ext.ticksPerSecond);
    DemoHeader(AsU64(len.secs), AsU32(len.nanos), AsU64(|c.comp(c.headerExt.ser(ext))|), AsU64(sizeChunks))
  }

  /** The header while the demo is being written. */
  function Placeholder(c: Codec, ext: DemoHeaderExt): DemoHeader {
    DemoHeader(0, 0, AsU64(|c.comp(c.headerExt.ser(ext))|), 0)
  }

  /** What is there before the first chunk. */
  function Beginning(c: Codec, ext: DemoHeaderExt): bytes {
    c.header.ser(Placeholder(c, ext)) + c.comp(c.headerExt.ser(ext))
  }

  /** What a dropped recorder leaves in the channel. */
  ghost predicate ChannelValid(recv: seq<Recorder.RecorderEvent>) {
    && Recorder.Cancel !in recv
    && Recorder.ChunksValid(Recorder.SnapshotChunks(recv))
    && Recorder.ChunksValid(Recorder.EventChunks(recv))
  }

  lemma {:induction false} ChannelPrefix(recv: seq<Recorder.RecorderEvent>, i: nat)
    requires ChannelValid(recv) && i <= |recv|
    ensures ChannelValid(recv[..i])
    decreases |recv|
  {
    if i == |recv| {
      assert recv[..i] == recv;
    } else {
      var e, rest := Last(recv), Init(recv);
      assert rest + [e] == recv;
      Recorder.SendOne(rest, e);
      if e.Snapshots? { ChunkInOrder(Recorder.SnapshotChunks(rest), e.snaps); }
      if e.Events? { ChunkInOrder(Recorder.EventChunks(rest), e.events); }
      ChannelPrefix(rest, i);
      assert recv[..i] == rest[..i];
    }
  }

  /** The invariant of the writer: after the messages in `done` the byte stream holds all their
      chunks, and both indexes lead to them. */
  ghost predicate Written(c: Codec, done: seq<Recorder.RecorderEvent>, stream: bytes, snaps: StreamState,
                          events: StreamState) {
    && StreamHeld(c, c.snapshot, stream, snaps, Recorder.SnapshotChunks(done))
    && StreamHeld(c, c.events, stream, events, Recorder.EventChunks(done))
  }

  lemma SnapshotsWritten(c: Codec, done: seq<Recorder.RecorderEvent>, stream: bytes, snaps: StreamState,
                         events: StreamState, chunk: seq<Entry<Snapshot>>)
    requires FileLaws(c)
    requires Written(c, done, stream, snaps, events) && ChannelValid(done + [Recorder.Snapshots(chunk)])
    ensures chunk != [] && chunk[0].key <= Last(chunk).key
    ensures snaps.first.Some? ==> snaps.first.value <= chunk[0].key
    ensures snaps.last.Some? ==> snaps.last.value < chunk[0].key
    ensures Written(c, done + [Recorder.Snapshots(chunk)], stream + ChunkBytes(c, c.snapshot, chunk),
                    NextState(snaps, |stream|, chunk), events)
  {
    hide StreamHeld, Recorder.ChunksValid, ChunkLaws, ChunkBytes, NextState;
    Recorder.SendOne(done, Recorder.Snapshots(chunk));
    HeldNext(c, c.snapshot, stream, snaps, Recorder.SnapshotChunks(done), chunk);
    HeldMore(c, c.events, stream, ChunkBytes(c, c.snapshot, chunk), events, Recorder.EventChunks(done));
  }

  lemma EventsWritten(c: Codec, done: seq<Recorder.RecorderEvent>, stream: bytes, snaps: StreamState,
                      events: StreamState, chunk: seq<Entry<DemoEvents>>)
    requires FileLaws(c)
    requires Written(c, done, stream, snaps, events) && ChannelValid(done + [Recorder.Events(chunk)])
    ensures chunk != [] && chunk[0].key <= Last(chunk).key
    ensures events.first.Some? ==> events.first.value <= chunk[0].key
    ensures events.last.Some? ==> events.last.value < chunk[0].key
    ensures Written(c, done + [Recorder.Events(chunk)], stream + ChunkBytes(c, c.events, chunk),
                    snaps, NextState(events, |stream|, chunk))
  {
    hide StreamHeld, Recorder.ChunksValid, ChunkLaws, ChunkBytes, NextState;
    Recorder.SendOne(done, Recorder.Events(chunk));
    HeldNext(c, c.events, stream, events, Recorder.EventChunks(done), chunk);
    HeldMore(c, c.snapshot, stream, ChunkBytes(c, c.events, chunk), snaps, Recorder.SnapshotChunks(done));
  }

  lemma SomethingReceived(recv: seq<Recorder.RecorderEvent>)
    requires ChannelValid(recv)
    ensures recv == [] <==> Concat(Recorder.SnapshotChunks(recv)) == [] && Concat(Recorder.EventChunks(recv)) == []
  {
    hide Recorder.ChunksValid, Concat;
    NoChunksNoEntries(Recorder.SnapshotChunks(recv));
    NoChunksNoEntries(Recorder.EventChunks(recv));
    if recv != [] { assert Last(recv) in recv; } else { assert Concat<Entry<Snapshot>>([]) == []; }
  }

  lemma TicksWritten(c: Codec, done: seq<Recorder.RecorderEvent>, stream: bytes, snaps: StreamState,
                     events: StreamState)
    requires Written(c, done, stream, snaps, events)
    ensures snaps.first == FirstTick(Recorder.SnapshotChunks(done))
            && snaps.last == LastTick(Recorder.SnapshotChunks(done))
    ensures events.first == FirstTick(Recorder.EventChunks(done)) && events.last == LastTick(Recorder.EventChunks(done))
  {
  }

  /** The receive loop: every message of the channel, in order, until it is closed or cancelled. */
  method ReceiveAll(c: Codec, recv: seq<Recorder.RecorderEvent>, start: bytes)
    returns (stop: Option<RunResult>, file: bytes, s: StreamState, e: StreamState, ghost stream: bytes)
    requires FileLaws(c)
    ensures stop.Some? ==> !stop.value.Finished?
    ensures Recorder.Cancel in recv ==> stop.Some?
    ensures stop == None ==> file == start + stream && Ranged(s) && Ranged(e)
    ensures ChannelValid(recv) ==> stop == None && Written(c, recv, stream, s, e)
    ensures stop == None ==> (recv == [] <==> stream == [])
  {
    hide Recorder.ChunksValid, StreamHeld, FileLaws, ChunkBytes, NextState;
    stop, file, stream := None, start, [];
    s, e := StreamState([], None, None), StreamState([], None, None);
    var sizeBeforeChunks := |start|;
    NothingWritten(c);
    var i := 0;
    while i < |recv|
      invariant i <= |recv|
      invariant file == start + stream && Ranged(s) && Ranged(e)
      invariant Recorder.Cancel !in recv[..i]
      invariant ChannelValid(recv) ==> Written(c, recv[..i], stream, s, e)
      invariant i == 0 <==> stream == []
    {
      if ChannelValid(recv) { ChannelPrefix(recv, i + 1); }
      assert recv[..i + 1] == recv[..i] + [recv[i]];
      var error: Option<WriteError> := None;
      match recv[i] {
        case Snapshots(chunk) =>
          if ChannelValid(recv) { SnapshotsWritten(c, recv[..i], stream, s, e, chunk); }
          AppendChunk(start, stream, ChunkBytes(c, c.snapshot, chunk));
          ChunkIsLong(c, c.snapshot, chunk);
          error, file, s := SerializeAndWriteChunk(c, c.snapshot, file, sizeBeforeChunks, s, chunk);
          stream := stream + ChunkBytes(c, c.snapshot, chunk);
        case Events(chunk) =>
          if ChannelValid(recv) { EventsWritten(c, recv[..i], stream, s, e, chunk); }
          AppendChunk(start, stream, ChunkBytes(c, c.events, chunk));
          ChunkIsLong(c, c.events, chunk);
          error, file, e := SerializeAndWriteChunk(c, c.events, file, sizeBeforeChunks, e, chunk);
          stream := stream + ChunkBytes(c, c.events, chunk);
        case Cancel =>
          stop := Some(Cancelled);
          return;
      }
      if error.Some? {
        stop := Some(Failed(error.value));
        return;
      }
      i := i + 1;
    }
    assert recv[..i] == recv;
  }

  lemma SpanWritten(c: Codec, recv: seq<Recorder.RecorderEvent>, stream: bytes, s: StreamState, e: StreamState)
    requires ChannelValid(recv) && Written(c, recv, stream, s, e)
    ensures recv != [] <==> FirstMonotonic(s.first, e.first).Some?
    ensures recv != [] <==> LastMonotonic(s.last, e.last).Some?
  {
    hide Recorder.ChunksValid, StreamHeld, Concat;
    SomethingReceived(recv);
    TicksWritten(c, recv, stream, s, e);
    hide Written, ChannelValid;
  }

  lemma SpanOrdered(s: StreamState, e: StreamState)
    requires Ranged(s) && Ranged(e)
    ensures var first, last := FirstMonotonic(s.first, e.first), LastMonotonic(s.last, e.last);
            first.Some? && last.Some? ==> first.value <= last.value
  {
  }

  method Run(c: Codec, recv: seq<Recorder.RecorderEvent>, ext: DemoHeaderExt)
    returns (r: RunResult, ghost stream: bytes, ghost snaps: StreamState, ghost events: StreamState)
    requires ext.ticksPerSecond > 0 && FileLaws(c)
    ensures Recorder.Cancel in recv ==> !r.Finished?
    // no order check of the writer can fail on what a recorder sends
    ensures ChannelValid(recv) ==> r.Finished? && Written(c, recv, stream, snaps, events)
    ensures ChannelValid(recv) && recv == [] ==> !r.kept && r.mem == Beginning(c, ext)
    ensures ChannelValid(recv) && recv != [] ==>
              var first, last := FirstMonotonic(snaps.first, events.first), LastMonotonic(snaps.last, events.last);
              && first.Some? && last.Some? && first.value <= last.value && r.kept && stream != []
              && r.mem == FileBytes(c, FinalHeader(c, ext, first.value, last.value, |stream|), ext, stream,
                                    DemoTail(snaps.index, events.index))
  {
    hide Recorder.ChunksValid, Written, StreamHeld, ChannelValid, FileLaws, FirstMonotonic, LastMonotonic, FinalHeader,
         Placeholder, Ranged;
    var extFile := c.comp(c.headerExt.ser(ext));
    var placeholder := Placeholder(c, ext);
    var file := c.header.ser(placeholder) + extFile;
    var sizeBeforeChunks := |file|;
    var stop, received, s, e;
    stop, received, s, e, stream := ReceiveAll(c, recv, file);
    snaps, events := s, e;
    if stop.Some? { return stop.value, stream, snaps, events; }
    if ChannelValid(recv) { SpanWritten(c, recv, stream, s, e); }
    SpanOrdered(s, e);

    var chunksSize: nat := |received| - sizeBeforeChunks;
    var first, last := FirstMonotonic(s.first, e.first), LastMonotonic(s.last, e.last);
    if first.Some? && last.Some? {
      var tailFile := c.comp(c.tail.ser(DemoTail(s.index, e.index)));
      file := received + tailFile;
      var final := FinalHeader(c, ext, first.value, last.value, chunksSize);
      assert file == c.header.ser(placeholder) + (extFile + stream + tailFile);
      HeaderKeepsPlace(c, placeholder, final, extFile + stream + tailFile);
      file := c.header.ser(final) + file[|c.header.ser(final)|..];
      return Finished(file, true), stream, snaps, events;
    }
    assert stream == [] ==> received == file;
    r := Finished(received, false);
  }

  lemma ChunkIsLong<A>(c: Codec, coder: Coder<A>, chunk: seq<Entry<A>>)
    ensures |ChunkBytes(c, coder, chunk)| >= 8
  {
  }

  lemma AppendChunk(base: bytes, stream: bytes, chunk: bytes)
    ensures (base + stream) + chunk == base + (stream + chunk)
    ensures |base + stream| - |base| == |stream|
  {
  }

  lemma NothingWritten(c: Codec)
    ensures Written(c, [], [], StreamState([], None, None), StreamState([], None, None))
  {
  }

  /** The final header overwrites exactly the placeholder. */
  lemma HeaderKeepsPlace(c: Codec, placeholder: DemoHeader, final: DemoHeader, rest: bytes)
    requires FileLaws(c)
    ensures |c.header.ser(final)| <= |c.header.ser(placeholder) + rest|
    ensures (c.header.ser(placeholder) + rest)[|c.header.ser(final)|..] == rest
  {
    assert |c.header.ser(placeholder)| == |c.header.ser(final)|;
  }
}
