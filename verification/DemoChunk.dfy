/**
 One chunk on disk: `write_chunk` (game/demo/src/recorder.rs) and `read_chunks`
 (game/client-demo/src/lib.rs). The first entry of a chunk is compressed whole,
 every later one is a patch against the serialized entry before it.
 */
module DemoChunk {
  import opened OrderedMaps
  import opened DemoTypes
  import opened DemoCodec

  datatype Result<+T> = Ok(value: T) | Err

  // ---------------------------------------------------------------- the format

  function EntryData(c: Codec, last: Option<bytes>, plain: bytes): bytes {
    match last
    case None => c.comp(plain)
    case Some(prev) => c.diff(prev, plain)
  }

  function EntryBytes(c: Codec, last: Option<bytes>, key: nat, plain: bytes): bytes {
    var data := EntryData(c, last, plain);
    c.chunkHeader.ser(ChunkHeader(key, |data|)) + data
  }

  /** The bytes of a run of entries, given the serialized form of the entry before it. */
  function EntriesBytes<A>(c: Codec, coder: Coder<A>, last: Option<bytes>, chunk: seq<Entry<A>>): bytes
    decreases |chunk|
  {
    if chunk == [] then [] else
      var plain := coder.ser(chunk[0].value);
      EntryBytes(c, last, chunk[0].key, plain) + EntriesBytes(c, coder, Some(plain), chunk[1..])
  }

  function Payload<A>(c: Codec, coder: Coder<A>, chunk: seq<Entry<A>>): bytes {
    c.count.ser(|chunk|) + EntriesBytes(c, coder, None, chunk)
  }

  function ChunkBytes<A>(c: Codec, coder: Coder<A>, chunk: seq<Entry<A>>): bytes {
    var packed := c.comp(Payload(c, coder, chunk));
    ToLe(|packed|, 8) + packed
  }

  /** Everything that is serialized for a chunk fits: its ticks, the sizes of its entries, and the entries. */
  ghost predicate EntriesFit<A>(c: Codec, coder: Coder<A>, last: Option<bytes>, chunk: seq<Entry<A>>)
    decreases |chunk|
  {
    chunk == [] ||
    var plain := coder.ser(chunk[0].value);
    && EntryFits(c, coder, last, chunk[0])
    && EntriesFit(c, coder, Some(plain), chunk[1..])
  }

  ghost predicate EntryFits<A>(c: Codec, coder: Coder<A>, last: Option<bytes>, e: Entry<A>) {
    && e.key <= MAX_U64 && coder.fits(e.value)
    && |EntryData(c, last, coder.ser(e.value))| <= MAX_U64
  }

  ghost predicate ChunkFits<A>(c: Codec, coder: Coder<A>, chunk: seq<Entry<A>>) {
    |chunk| <= MAX_U64 && EntriesFit(c, coder, None, chunk)
  }

  lemma {:induction false} FittingTicks<A>(c: Codec, coder: Coder<A>, last: Option<bytes>, chunk: seq<Entry<A>>, i: nat)
    requires EntriesFit(c, coder, last, chunk) && i < |chunk|
    ensures chunk[i].key <= MAX_U64
    decreases |chunk|
  {
    if i == 0 {
    } else {
      FittingTicks(c, coder, Some(coder.ser(chunk[0].value)), chunk[1..], i - 1);
    }
  }

  method WriteChunk<A>(c: Codec, coder: Coder<A>, chunk: seq<Entry<A>>) returns (writer: bytes)
    ensures writer == ChunkBytes(c, coder, chunk)
  {
    var lastData: Option<bytes> := None;
    writer := c.count.ser(|chunk|);
    var i := 0;
    while i < |chunk|
      invariant i <= |chunk|
      invariant writer + EntriesBytes(c, coder, lastData, chunk[i..]) == Payload(c, coder, chunk)
    {
      var serialized := coder.ser(chunk[i].value);
      var data := match lastData case Some(prev) => c.diff(prev, serialized) case None => c.comp(serialized);
      var head := c.chunkHeader.ser(ChunkHeader(chunk[i].key, |data|));
      assert chunk[i..][1..] == chunk[i + 1..];
      Regroup(writer, head, data, EntriesBytes(c, coder, Some(serialized), chunk[i + 1..]));
      lastData := Some(serialized);
      writer := writer + head;
      writer := writer + data;
      i := i + 1;
    }
    assert writer == Payload(c, coder, chunk) by { assert chunk[i..] == [] && writer + [] == writer; }
    // the size is only known after compressing, so room for it is reserved first
    var dst := ToLe(0, 8);
    dst := dst + c.comp(writer);
    var size := |dst| - 8;
    dst := ToLe(size, 8) + dst[8..];
    writer := dst;
  }

  lemma Regroup(a: bytes, b: bytes, c: bytes, d: bytes)
    ensures a + ((b + c) + d) == ((a + b) + c) + d
  {
  }

  // ---------------------------------------------------------------- reading it back

  /** The entries of a chunk, starting from the serialized entry before; entries of size 0 are
      skipped and do not become the base of a patch. */
  function DecodeEntries<A>(c: Codec, coder: Coder<A>, n: nat, last: Option<bytes>, file: bytes,
                            res: seq<Entry<A>>): Result<seq<Entry<A>>> {
    if n == 0 then Ok(res) else
      match c.chunkHeader.deser(file)
      case None => Err
      case Some((header, used)) =>
        if used > |file| then Err else
        var rest := file[used..];
        if header.size == 0 then DecodeEntries(c, coder, n - 1, last, rest, res)
        else if header.size > |rest| then Err else
        var slice := rest[..header.size];
        match (match last case Some(prev) => c.patch(prev, slice) case None => c.decomp(slice))
        case None => Err
        case Some(plain) =>
          match coder.deser(plain)
          case None => Err
          case Some((value, _)) =>
            DecodeEntries(c, coder, n - 1, Some(plain), rest[header.size..], Put(res, header.monotonicTick, value))
  }

  function DecodeChunk<A>(c: Codec, coder: Coder<A>, chunks: bytes, offset: nat): Result<seq<Entry<A>>> {
    if offset > |chunks| || |chunks| - offset < 8 then Err else
      var file := chunks[offset..];
      var size := FromLe(file[..8]);
      if size > |file| - 8 then Err else
      match c.decomp(file[8..8 + size])
      case None => Err
      case Some(data) =>
        match c.count.deser(data)
        case None => Err
        case Some((len, used)) =>
          if used > |data| then Err else DecodeEntries(c, coder, len, None, data[used..], [])
  }

  /** `read_chunks`: a cursor moves over the unpacked bytes, and the last plain entry is kept
      as the base of the next patch. */
  method ReadChunks<A>(c: Codec, coder: Coder<A>, chunks: bytes, offset: nat) returns (r: Result<seq<Entry<A>>>)
    ensures r == DecodeChunk(c, coder, chunks, offset)
  {
    hide Put, FromLe;
    if offset > |chunks| || |chunks| - offset < 8 { return Err; }
    var file := chunks[offset..];
    var chunksSize := FromLe(file[..8]);
    if chunksSize > |file| - 8 { return Err; }
    var unpacked := c.decomp(file[8..8 + chunksSize]);
    if unpacked.None? { return Err; }
    var count := c.count.deser(unpacked.value);
    if count.None? { return Err; }
    var (len, readSize) := count.value;
    if readSize > |unpacked.value| { return Err; }
    file := unpacked.value[readSize..];

    var res: seq<Entry<A>> := [];
    var lastData: Option<bytes> := None;
    var i := 0;
    while i < len
      invariant i <= len
      invariant DecodeChunk(c, coder, chunks, offset) == DecodeEntries(c, coder, len - i, lastData, file, res)
    {
      var h := c.chunkHeader.deser(file);
      if h.None? { return Err; }
      var (header, used) := h.value;
      if used > |file| { return Err; }
      file := file[used..];
      if header.size > 0 {
        if header.size > |file| { return Err; }
        var slice := file[..header.size];
        var plain := match lastData case Some(prev) => c.patch(prev, slice) case None => c.decomp(slice);
        if plain.None? { return Err; }
        lastData := plain;
        var data := coder.deser(plain.value);
        if data.None? { return Err; }
        file := file[header.size..];
        res := Put(res, header.monotonicTick, data.value.0);
      }
      i := i + 1;
    }
    r := Ok(res);
  }

  // ---------------------------------------------------------------- round trip

  /** One link of the delta chain: the cursor consumes exactly the written entry. */
  lemma EntryRoundTrip<A(!new)>(c: Codec, coder: Coder<A>, n: nat, last: Option<bytes>, e: Entry<A>, more: bytes,
                                res: seq<Entry<A>>)
    requires ChunkLaws(c, coder) && EntryFits(c, coder, last, e)
    ensures var plain := coder.ser(e.value);
            DecodeEntries(c, coder, n + 1, last, EntryBytes(c, last, e.key, plain) + more, res)
            == DecodeEntries(c, coder, n, Some(plain), more, Put(res, e.key, e.value))
  {
    hide Put;
    var plain := coder.ser(e.value);
    var data := EntryData(c, last, plain);
    var head := c.chunkHeader.ser(ChunkHeader(e.key, |data|));
    var file := EntryBytes(c, last, e.key, plain) + more;
    assert file == head + (data + more);
    assert c.chunkHeader.deser(head + (data + more)) == Some((ChunkHeader(e.key, |data|), |head|));
    assert file[|head|..] == data + more;
    assert (data + more)[..|data|] == data && (data + more)[|data|..] == more;
    assert coder.deser(plain + []) == Some((e.value, |plain|)) && plain + [] == plain;
    assert |data| > 0 && (match last case Some(prev) => c.patch(prev, data) case None => c.decomp(data)) == Some(plain);
  }

  lemma NoEntries<A>(c: Codec, coder: Coder<A>, last: Option<bytes>, rest: bytes, res: seq<Entry<A>>)
    ensures DecodeEntries(c, coder, 0, last, EntriesBytes(c, coder, last, []) + rest, res) == Ok(res)
  {
  }

  lemma FirstEntry<A>(c: Codec, coder: Coder<A>, last: Option<bytes>, chunk: seq<Entry<A>>)
    requires chunk != [] && EntriesFit(c, coder, last, chunk)
    ensures var plain := coder.ser(chunk[0].value);
            && EntryFits(c, coder, last, chunk[0]) && EntriesFit(c, coder, Some(plain), chunk[1..])
            && EntriesBytes(c, coder, last, chunk)
               == EntryBytes(c, last, chunk[0].key, plain) + EntriesBytes(c, coder, Some(plain), chunk[1..])
  {
  }

  /** The whole chain, behind any entries already read and before anything that follows. */
  lemma {:induction false} EntriesRoundTrip<A(!new)>(c: Codec, coder: Coder<A>, last: Option<bytes>,
                                                     chunk: seq<Entry<A>>, rest: bytes, res: seq<Entry<A>>)
    requires ChunkLaws(c, coder) && EntriesFit(c, coder, last, chunk)
    requires Increasing(res + chunk)
    ensures DecodeEntries(c, coder, |chunk|, last, EntriesBytes(c, coder, last, chunk) + rest, res) == Ok(res + chunk)
    decreases |chunk|
  {
    hide *;
    if chunk == [] {
      NoEntries(c, coder, last, rest, res);
      assert res + chunk == res;
    } else {
      FirstEntry(c, coder, last, chunk);
      var e, tl := chunk[0], chunk[1..];
      var plain := coder.ser(e.value);
      var now, later := EntryBytes(c, last, e.key, plain), EntriesBytes(c, coder, Some(plain), tl);
      Assoc(now, later, rest);
      EntryRoundTrip(c, coder, |tl|, last, e, later + rest, res);
      assert res + chunk == (res + [e]) + tl;
      PutLast(res, e, tl);
      EntriesRoundTrip(c, coder, Some(plain), tl, rest, res + [e]);
    }
  }

  lemma PutLast<V>(res: seq<Entry<V>>, e: Entry<V>, tl: seq<Entry<V>>)
    requires Increasing((res + [e]) + tl)
    ensures Put(res, e.key, e.value) == res + [e]
  {
    IncreasingConcat(res + [e], tl);
    IncreasingOne(res, e);
  }

  /** Reading at the offset of a written chunk returns the chunk, whatever is stored around it. */
  lemma ChunkRoundTrip<A(!new)>(c: Codec, coder: Coder<A>, chunk: seq<Entry<A>>, before: bytes, after: bytes)
    requires ChunkLaws(c, coder) && ChunkFits(c, coder, chunk)
    requires Increasing(chunk)
    requires |ChunkBytes(c, coder, chunk)| <= MAX_U64
    ensures DecodeChunk(c, coder, before + ChunkBytes(c, coder, chunk) + after, |before|) == Ok(chunk)
  {
    hide Increasing;
    var payload := Payload(c, coder, chunk);
    var packed := c.comp(payload);
    var all := before + ChunkBytes(c, coder, chunk) + after;
    var file := all[|before|..];
    assert file == ToLe(|packed|, 8) + packed + after;
    assert file[..8] == ToLe(|packed|, 8);
    Le64RoundTrip(|packed|);
    assert file[8..8 + |packed|] == packed;
    assert c.decomp(packed) == Some(payload);
    var n, entries := c.count.ser(|chunk|), EntriesBytes(c, coder, None, chunk);
    assert c.count.deser(n + entries) == Some((|chunk|, |n|));
    assert payload[|n|..] == entries && entries + [] == entries;
    assert [] + chunk == chunk;
    EntriesRoundTrip(c, coder, None, chunk, [], []);
  }
}
