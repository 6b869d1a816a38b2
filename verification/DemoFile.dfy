/**
 The demo file: the writer thread (game/demo/src/recorder.rs) appends the chunks of
 both streams to one byte stream, keeps an index per stream, and finally writes the
 tail and the header; `new_impl` (game/client-demo/src/lib.rs) takes the file apart.
 */
module DemoFile {
  import opened OrderedMaps
  import opened DemoTypes
  import opened DemoCodec
  import opened DemoChunk
  import Recorder = DemoRecorder

  // ---------------------------------------------------------------- reading

  datatype DemoContainer = DemoContainer(header: DemoHeader, headerExt: DemoHeaderExt, chunks: bytes, tail: DemoTail)

  /** Takes a file apart. A slice that does not fit is an error like any other. */
  function Open(c: Codec, demo: bytes): Result<DemoContainer> {
    match c.header.deser(demo)
    case None => Err
    case Some((header, fileOff)) =>
      if fileOff > |demo| || header.sizeExt > |demo| - fileOff then Err else
      var ext := demo[fileOff..][..header.sizeExt];
      var rest := demo[fileOff..][header.sizeExt..];
      if header.sizeChunks > |rest| then Err else
      match c.decomp(ext)
      case None => Err
      case Some(plainExt) =>
        match c.headerExt.deser(plainExt)
        case None => Err
        case Some((headerExt, _)) =>
          match c.decomp(rest[header.sizeChunks..])
          case None => Err
          case Some(plainTail) =>
            match c.tail.deser(plainTail)
            case None => Err
            case Some((tail, _)) =>
              if tail.snapshotsIndex == [] then Err
              else Ok(DemoContainer(header, headerExt, rest[..header.sizeChunks], tail))
  }

  function FileBytes(c: Codec, header: DemoHeader, ext: DemoHeaderExt, stream: bytes, tail: DemoTail): bytes {
    c.header.ser(header) + c.comp(c.headerExt.ser(ext)) + stream + c.comp(c.tail.ser(tail))
  }

  lemma SlicesOfFour(h: bytes, e: bytes, s: bytes, t: bytes)
    ensures var all := h + e + s + t;
            && all == h + (e + s + t)
            && all[|h|..][..|e|] == e
            && all[|h|..][|e|..][..|s|] == s
            && all[|h|..][|e|..][|s|..] == t
  {
    var all := h + e + s + t;
    assert all == h + (e + s + t);
    assert all[|h|..] == e + s + t;
    assert (e + s + t)[|e|..] == s + t;
  }

  lemma ReadWhole<T(!new)>(c: Coder<T>, x: T)
    requires ReadsBack(c) && c.fits(x)
    ensures c.deser(c.ser(x)) == Some((x, |c.ser(x)|))
  {
    assert c.ser(x) + [] == c.ser(x);
  }

  lemma ReadFirst<T(!new)>(c: Coder<T>, x: T, rest: bytes)
    requires ReadsBack(c) && c.fits(x)
    ensures c.deser(c.ser(x) + rest) == Some((x, |c.ser(x)|))
  {
  }

  lemma Decompressed(c: Codec, plain: bytes)
    requires CompressionLaw(c)
    ensures c.decomp(c.comp(plain)) == Some(plain)
  {
  }

  /** A file with correct sizes in its header is taken apart into its pieces; one without
      snapshots is refused. */
  lemma {:induction false} OpenFile(c: Codec, header: DemoHeader, ext: DemoHeaderExt, stream: bytes, tail: DemoTail)
    requires FileLaws(c) && c.headerExt.fits(ext) && c.tail.fits(tail)
    requires header.sizeExt == |c.comp(c.headerExt.ser(ext))| && header.sizeChunks == |stream|
    ensures Open(c, FileBytes(c, header, ext, stream, tail))
         == if tail.snapshotsIndex == [] then Err else Ok(DemoContainer(header, ext, stream, tail))
  {
    hide CompressionLaw, PatchLaw, WordLaw, ReadsBack, WordIndex;
    var h, plainE, plainT := c.header.ser(header), c.headerExt.ser(ext), c.tail.ser(tail);
    var e, t := c.comp(plainE), c.comp(plainT);
    SlicesOfFour(h, e, stream, t);
    ReadFirst(c.header, header, e + stream + t);
    Decompressed(c, plainE);
    ReadWhole(c.headerExt, ext);
    Decompressed(c, plainT);
    ReadWhole(c.tail, tail);
  }

  // ---------------------------------------------------------------- the index

  /** Every chunk is found in the byte stream at the offset its first tick maps to. */
  ghost predicate Indexes<A>(c: Codec, coder: Coder<A>, stream: bytes, index: seq<Entry<nat>>,
                             chunks: seq<seq<Entry<A>>>) {
    && |index| == |chunks|
    && forall i :: 0 <= i < |chunks| ==>
         && chunks[i] != []
         && index[i].key == chunks[i][0].key
         && DecodeChunk(c, coder, stream, index[i].value) == Ok(chunks[i])
  }

  /** Bytes written later do not disturb a chunk that can be read. */
  lemma DecodeMore<A>(c: Codec, coder: Coder<A>, stream: bytes, more: bytes, offset: nat)
    requires DecodeChunk(c, coder, stream, offset).Ok?
    ensures DecodeChunk(c, coder, stream + more, offset) == DecodeChunk(c, coder, stream, offset)
  {
    var a, b := stream[offset..], (stream + more)[offset..];
    assert b == a + more;
    assert b[..8] == a[..8];
    var size := FromLe(a[..8]);
    assert b[8..8 + size] == a[8..8 + size];
  }

  lemma IndexesMore<A>(c: Codec, coder: Coder<A>, stream: bytes, more: bytes, index: seq<Entry<nat>>,
                       chunks: seq<seq<Entry<A>>>)
    requires Indexes(c, coder, stream, index, chunks)
    ensures Indexes(c, coder, stream + more, index, chunks)
  {
    forall i | 0 <= i < |chunks|
      ensures DecodeChunk(c, coder, stream + more, index[i].value) == Ok(chunks[i])
    {
      DecodeMore(c, coder, stream, more, index[i].value);
    }
  }

  lemma IndexesNext<A(!new)>(c: Codec, coder: Coder<A>, stream: bytes, index: seq<Entry<nat>>,
                             chunks: seq<seq<Entry<A>>>, chunk: seq<Entry<A>>)
    requires ChunkLaws(c, coder)
    requires Indexes(c, coder, stream, index, chunks)
    requires chunk != [] && Increasing(chunk) && |ChunkBytes(c, coder, chunk)| <= MAX_U64 && ChunkFits(c, coder, chunk)
    ensures Indexes(c, coder, stream + ChunkBytes(c, coder, chunk),
                    index + [Entry(chunk[0].key, |stream|)], chunks + [chunk])
  {
    hide ChunkBytes, DecodeChunk, ChunkLaws, ChunkFits, Increasing;
    var bytes := ChunkBytes(c, coder, chunk);
    IndexesMore(c, coder, stream, bytes, index, chunks);
    ChunkRoundTrip(c, coder, chunk, stream, []);
    assert stream + bytes + [] == stream + bytes;
  }

  // ---------------------------------------------------------------- the writer

  datatype WriteError = EmptyChunk | FirstNotMonotonic | LastNotMonotonic | FirstAfterLast

  /** What the writer keeps per stream: the index and the first and last tick seen. */
  datatype StreamState = StreamState(index: seq<Entry<nat>>, first: Option<nat>, last: Option<nat>)

  predicate Ranged(s: StreamState) {
    (s.first.Some? <==> s.last.Some?) && (s.first.Some? ==> s.first.value <= s.last.value)
  }

  /** A chunk at `offset` adds its first tick to the index and ends the stream at its last tick. */
  ghost function NextState<A>(s: StreamState, offset: nat, chunk: seq<Entry<A>>): StreamState
    requires chunk != []
  {
    StreamState(Put(s.index, chunk[0].key, offset),
                Some(if s.first.Some? then s.first.value else chunk[0].key),
                Some(Last(chunk).key))
  }

  method SerializeAndWriteChunk<A>(c: Codec, coder: Coder<A>, file: bytes, sizeBeforeChunks: nat, s: StreamState,
                                   chunk: seq<Entry<A>>)
    returns (error: Option<WriteError>, file': bytes, s': StreamState)
    requires sizeBeforeChunks <= |file|
    ensures chunk == [] ==> error == Some(EmptyChunk)
    ensures chunk != [] ==>
              var first, last := chunk[0].key, Last(chunk).key;
              && file' == file + ChunkBytes(c, coder, chunk)
              && (error == Some(FirstNotMonotonic) <==> s.first.Some? && s.first.value > first)
              && (error == Some(LastNotMonotonic) <==>
                    !(s.first.Some? && s.first.value > first) && s.last.Some? && last < s.last.value)
              && (error == None ==> s' == NextState(s, |file| - sizeBeforeChunks, chunk) && Ranged(s'))
              && (error == None <==>
                    && (s.first.Some? ==> s.first.value <= first)
                    && (s.last.Some? ==> s.last.value <= last)
                    && (if s.first.Some? then s.first.value else first) <= last)
  {
    file', s' := file, s;
    if chunk == [] { return Some(EmptyChunk), file', s'; }
    var firstTick, lastTick := chunk[0].key, Last(chunk).key;
    var offset: nat := |file| - sizeBeforeChunks;
    s' := s'.(index := Put(s'.index, firstTick, offset));
    var bytes := WriteChunk(c, coder, chunk);
    file' := file' + bytes;

    var monotonicFirst := if s'.first.Some? then s'.first.value else firstTick;
    s' := s'.(first := Some(monotonicFirst));
    if !(monotonicFirst <= firstTick) { return Some(FirstNotMonotonic), file', s'; }
    if !(lastTick >= (if s'.last.Some? then s'.last.value else 0)) { return Some(LastNotMonotonic), file', s'; }
    s' := s'.(last := Some(lastTick));
    if !(lastTick >= monotonicFirst) { return Some(FirstAfterLast), file', s'; }
    error := None;
  }

  /** The state of a stream after a number of chunks. */
  ghost predicate StreamWritten<A>(s: StreamState, chunks: seq<seq<Entry<A>>>) {
    && Recorder.ChunksValid(chunks)
    && Increasing(s.index)
    && Recorder.Newest(s.index) == (if chunks == [] then None else Some(Last(chunks)[0].key))
    && s.first == FirstTick(chunks)
    && s.last == LastTick(chunks)
  }

  ghost function FirstTick<A>(chunks: seq<seq<Entry<A>>>): Option<nat> {
    if Concat(chunks) == [] then None else Some(Concat(chunks)[0].key)
  }

  ghost function LastTick<A>(chunks: seq<seq<Entry<A>>>): Option<nat> {
    if Concat(chunks) == [] then None else Some(Last(Concat(chunks)).key)
  }

  lemma ChunksBefore<A>(chunks: seq<seq<Entry<A>>>, chunk: seq<Entry<A>>)
    requires Recorder.ChunksValid(chunks + [chunk])
    ensures Recorder.ChunksValid(chunks) && chunk != []
    ensures Increasing(Concat(chunks) + chunk) && Concat(chunks + [chunk]) == Concat(chunks) + chunk
  {
    var all := chunks + [chunk];
    assert all[|chunks|] == chunk;
    assert forall i :: 0 <= i < |chunks| ==> all[i] == chunks[i];
    ConcatSnoc(chunks, chunk);
    IncreasingConcat(Concat(chunks), chunk);
  }

  lemma FirstUpToLast<V>(s: seq<Entry<V>>)
    requires Increasing(s) && s != []
    ensures s[0].key <= Last(s).key
  {
    KeyGap(s, 0, |s| - 1);
  }

  lemma {:induction false} ChunkInOrder<A>(chunks: seq<seq<Entry<A>>>, chunk: seq<Entry<A>>)
    requires Recorder.ChunksValid(chunks + [chunk])
    ensures Recorder.ChunksValid(chunks)
    ensures chunk != [] && Increasing(chunk) && chunk[0].key <= Last(chunk).key
    ensures Below(Concat(chunks), chunk[0].key)
    ensures Concat(chunks + [chunk]) == Concat(chunks) + chunk
    ensures Concat(chunks) != [] ==> Concat(chunks)[0].key <= Last(Concat(chunks)).key
  {
    hide *;
    ChunksBefore(chunks, chunk);
    IncreasingConcat(Concat(chunks), chunk);
    FirstUpToLast(chunk);
    if Concat(chunks) != [] { FirstUpToLast(Concat(chunks)); }
  }

  lemma LastChunkStarts<A>(chunks: seq<seq<Entry<A>>>)
    requires Recorder.ChunksValid(chunks) && chunks != []
    ensures Last(chunks) != [] && Concat(chunks) != []
    ensures Last(chunks)[0].key <= Last(Concat(chunks)).key
  {
    assert Init(chunks) + [Last(chunks)] == chunks;
    ChunkInOrder(Init(chunks), Last(chunks));
    InitConcat(Concat(Init(chunks)), Last(chunks));
  }

  lemma NoChunksNoEntries<A>(chunks: seq<seq<Entry<A>>>)
    requires Recorder.ChunksValid(chunks)
    ensures Concat(chunks) == [] <==> chunks == []
  {
    if chunks != [] { LastChunkStarts(chunks); }
  }

  /** The chunk after a valid run of chunks: the writer's order checks pass, and its first tick
      is a new key behind all keys of the index. */
  lemma NextChunkInOrder<A>(s: StreamState, chunks: seq<seq<Entry<A>>>, chunk: seq<Entry<A>>, offset: nat)
    requires StreamWritten(s, chunks) && Recorder.ChunksValid(chunks + [chunk])
    ensures chunk != [] && Increasing(chunk)
    ensures chunk[0].key <= Last(chunk).key
    ensures s.first.Some? ==> s.first.value <= chunk[0].key
    ensures s.last.Some? ==> s.last.value < chunk[0].key
    ensures NextState(s, offset, chunk).index == s.index + [Entry(chunk[0].key, offset)]
    ensures StreamWritten(NextState(s, offset, chunk), chunks + [chunk])
  {
    hide Increasing, Recorder.ChunksValid, Concat;
    ChunkInOrder(chunks, chunk);
    IncreasingOne(s.index, Entry(chunk[0].key, offset));
    if chunks != [] { LastChunkStarts(chunks); }
    InitConcat(Concat(chunks), chunk);
    assert Last(chunks + [chunk]) == chunk;
  }

  /** Everything that is serialized for a stream fits into 64-bit numbers. */
  ghost predicate ChunksFit<A>(c: Codec, coder: Coder<A>, chunks: seq<seq<Entry<A>>>) {
    |chunks| <= MAX_U64 && forall i :: 0 <= i < |chunks| ==> ChunkFits(c, coder, chunks[i])
  }

  lemma FitBefore<A>(c: Codec, coder: Coder<A>, chunks: seq<seq<Entry<A>>>, chunk: seq<Entry<A>>)
    requires ChunksFit(c, coder, chunks + [chunk])
    ensures ChunksFit(c, coder, chunks) && ChunkFits(c, coder, chunk)
  {
    var all := chunks + [chunk];
    assert all[|chunks|] == chunk;
    assert forall i :: 0 <= i < |chunks| ==> all[i] == chunks[i];
  }

  /** One stream of the file: the writer's state is in order, and the index leads to all chunks. */
  ghost predicate StreamHeld<A>(c: Codec, coder: Coder<A>, stream: bytes, s: StreamState, chunks: seq<seq<Entry<A>>>) {
    && StreamWritten(s, chunks)
    && (|stream| <= MAX_U64 && ChunksFit(c, coder, chunks) ==> Indexes(c, coder, stream, s.index, chunks))
  }

  lemma HeldMore<A>(c: Codec, coder: Coder<A>, stream: bytes, more: bytes, s: StreamState, chunks: seq<seq<Entry<A>>>)
    requires StreamHeld(c, coder, stream, s, chunks)
    ensures StreamHeld(c, coder, stream + more, s, chunks)
  {
    hide Indexes, StreamWritten, ChunksFit;
    if |stream + more| <= MAX_U64 && ChunksFit(c, coder, chunks) {
      IndexesMore(c, coder, stream, more, s.index, chunks);
    }
  }

  lemma HeldNext<A(!new)>(c: Codec, coder: Coder<A>, stream: bytes, s: StreamState, chunks: seq<seq<Entry<A>>>,
                          chunk: seq<Entry<A>>)
    requires ChunkLaws(c, coder)
    requires StreamHeld(c, coder, stream, s, chunks) && Recorder.ChunksValid(chunks + [chunk])
    ensures chunk != [] && chunk[0].key <= Last(chunk).key
    ensures s.first.Some? ==> s.first.value <= chunk[0].key
    ensures s.last.Some? ==> s.last.value < chunk[0].key
    ensures StreamHeld(c, coder, stream + ChunkBytes(c, coder, chunk), NextState(s, |stream|, chunk), chunks + [chunk])
  {
    hide Indexes, StreamWritten, Recorder.ChunksValid, ChunkLaws, Increasing, ChunkBytes, NextState, ChunksFit,
         ChunkFits;
    NextChunkInOrder(s, chunks, chunk, |stream|);
    if |stream + ChunkBytes(c, coder, chunk)| <= MAX_U64 && ChunksFit(c, coder, chunks + [chunk]) {
      FitBefore(c, coder, chunks, chunk);
      IndexesNext(c, coder, stream, s.index, chunks, chunk);
    }
  }
}
