/**
 The laws asked of the libraries are consistent: a codec that meets all of them exists. It packs
 values in a self-delimiting way, and reading looks for the value whose packing the bytes start with.
 */
module DemoCodecExample {
  import opened OrderedMaps
  import opened DemoTypes
  import opened DemoCodec

  /** No packing is the beginning of another one, so what follows does not matter. */
  ghost predicate SelfDelimiting<T(!new)>(ser: T -> bytes) {
    forall x: T, y: T, r: bytes, q: bytes :: ser(x) + r == ser(y) + q ==> x == y
  }

  ghost function Reading<T(!new)>(ser: T -> bytes, b: bytes): Option<(T, nat)> {
    if exists x: T :: ser(x) <= b then
      var x: T :| ser(x) <= b;
      Some((x, |ser(x)|))
    else None
  }

  lemma ReadingReadsBack<T(!new)>(ser: T -> bytes, c: Coder<T>)
    requires SelfDelimiting(ser) && c.ser == ser && forall b :: c.deser(b) == Reading(ser, b)
    ensures ReadsBack(c)
  {
    forall x: T, rest: bytes ensures c.deser(c.ser(x) + rest) == Some((x, |c.ser(x)|)) {
      var b := ser(x) + rest;
      assert ser(x) <= b;
      var y: T :| ser(y) <= b && c.deser(b) == Some((y, |ser(y)|));
      assert ser(y) + b[|ser(y)|..] == b;
    }
  }

  // ---------------------------------------------------------------- packings

  lemma {:induction false} Tagged(a: byte, s: bytes, r: bytes, b: byte, t: bytes, q: bytes)
    requires ([a] + s) + r == ([b] + t) + q
    ensures a == b && s + r == t + q
  {
    var x, y := ([a] + s) + r, ([b] + t) + q;
    assert x[0] == a && y[0] == b;
    assert x[1..] == s + r && y[1..] == t + q;
  }

  function PackNat(n: nat): bytes {
    if n == 0 then [0] + [] else [1] + PackNat(n - 1)
  }

  lemma {:induction false} NatDelimits(x: nat, y: nat, r: bytes, q: bytes)
    requires PackNat(x) + r == PackNat(y) + q
    ensures x == y && r == q
  {
    Tagged(if x == 0 then 0 else 1, if x == 0 then [] else PackNat(x - 1), r,
           if y == 0 then 0 else 1, if y == 0 then [] else PackNat(y - 1), q);
    hide PackNat;
    if x > 0 { NatDelimits(x - 1, y - 1, r, q); } else { assert [] + r == r && [] + q == q; }
  }

  function PackBytes(s: bytes): bytes {
    if s == [] then [0] + [] else [1] + ([s[0]] + PackBytes(s[1..]))
  }

  lemma {:induction false} BytesDelimits(x: bytes, y: bytes, r: bytes, q: bytes)
    requires PackBytes(x) + r == PackBytes(y) + q
    ensures x == y && r == q
  {
    Tagged(if x == [] then 0 else 1, if x == [] then [] else [x[0]] + PackBytes(x[1..]), r,
           if y == [] then 0 else 1, if y == [] then [] else [y[0]] + PackBytes(y[1..]), q);
    hide PackBytes;
    if x != [] {
      Tagged(x[0], PackBytes(x[1..]), r, y[0], PackBytes(y[1..]), q);
      BytesDelimits(x[1..], y[1..], r, q);
      assert x == [x[0]] + x[1..] && y == [y[0]] + y[1..];
    } else {
      assert [] + r == r && [] + q == q;
    }
  }

  function PackEvent(e: DemoEvent): bytes {
    match e
    case Game(b) => [0] + PackBytes(b)
    case Chat(b) => [1] + PackBytes(b)
    case Marker => [2] + []
  }

  function Payload(e: DemoEvent): bytes {
    match e case Game(b) => b case Chat(b) => b case Marker => []
  }

  lemma {:induction false} EventDelimits(x: DemoEvent, y: DemoEvent, r: bytes, q: bytes)
    requires PackEvent(x) + r == PackEvent(y) + q
    ensures x == y && r == q
  {
    hide PackBytes;
    Tagged(PackEvent(x)[0], PackEvent(x)[1..], r, PackEvent(y)[0], PackEvent(y)[1..], q);
    assert [] + r == r && [] + q == q;
    if !x.Marker? {
      BytesDelimits(Payload(x), Payload(y), r, q);
    }
  }

  function PackEvents(s: DemoEvents): bytes {
    if s == [] then [0] + [] else [1] + (PackEvent(s[0]) + PackEvents(s[1..]))
  }

  lemma {:induction false} EventsDelimits(x: DemoEvents, y: DemoEvents, r: bytes, q: bytes)
    requires PackEvents(x) + r == PackEvents(y) + q
    ensures x == y && r == q
  {
    Tagged(if x == [] then 0 else 1, if x == [] then [] else PackEvent(x[0]) + PackEvents(x[1..]), r,
           if y == [] then 0 else 1, if y == [] then [] else PackEvent(y[0]) + PackEvents(y[1..]), q);
    hide PackEvents, PackEvent;
    if x != [] {
      Assoc(PackEvent(x[0]), PackEvents(x[1..]), r);
      Assoc(PackEvent(y[0]), PackEvents(y[1..]), q);
      EventDelimits(x[0], y[0], PackEvents(x[1..]) + r, PackEvents(y[1..]) + q);
      EventsDelimits(x[1..], y[1..], r, q);
      assert x == [x[0]] + x[1..] && y == [y[0]] + y[1..];
    } else {
      assert [] + r == r && [] + q == q;
    }
  }

  function PackEntry(e: Entry<nat>): bytes {
    PackNat(e.key) + PackNat(e.value)
  }

  lemma {:induction false} EntryDelimits(x: Entry<nat>, y: Entry<nat>, r: bytes, q: bytes)
    requires PackEntry(x) + r == PackEntry(y) + q
    ensures x == y && r == q
  {
    hide PackNat;
    Assoc(PackNat(x.key), PackNat(x.value), r);
    Assoc(PackNat(y.key), PackNat(y.value), q);
    NatDelimits(x.key, y.key, PackNat(x.value) + r, PackNat(y.value) + q);
    NatDelimits(x.value, y.value, r, q);
  }

  function PackIndex(s: seq<Entry<nat>>): bytes {
    if s == [] then [0] + [] else [1] + (PackEntry(s[0]) + PackIndex(s[1..]))
  }

  lemma {:induction false} IndexDelimits(x: seq<Entry<nat>>, y: seq<Entry<nat>>, r: bytes, q: bytes)
    requires PackIndex(x) + r == PackIndex(y) + q
    ensures x == y && r == q
  {
    Tagged(if x == [] then 0 else 1, if x == [] then [] else PackEntry(x[0]) + PackIndex(x[1..]), r,
           if y == [] then 0 else 1, if y == [] then [] else PackEntry(y[0]) + PackIndex(y[1..]), q);
    hide PackIndex, PackEntry;
    if x != [] {
      Assoc(PackEntry(x[0]), PackIndex(x[1..]), r);
      Assoc(PackEntry(y[0]), PackIndex(y[1..]), q);
      EntryDelimits(x[0], y[0], PackIndex(x[1..]) + r, PackIndex(y[1..]) + q);
      IndexDelimits(x[1..], y[1..], r, q);
      assert x == [x[0]] + x[1..] && y == [y[0]] + y[1..];
    } else {
      assert [] + r == r && [] + q == q;
    }
  }

  function PackChunkHeader(h: ChunkHeader): bytes {
    PackNat(h.monotonicTick) + PackNat(h.size)
  }

  function PackHeaderExt(h: DemoHeaderExt): bytes {
    PackNat(h.ticksPerSecond) + PackBytes(h.rest)
  }

  function PackTail(t: DemoTail): bytes {
    PackIndex(t.snapshotsIndex) + PackIndex(t.eventsIndex)
  }

  /** Eight bytes for every number, whatever its size. */
  function PackHeader(h: DemoHeader): bytes {
    ToLe(h.secs, 8) + ToLe(h.nanos, 8) + ToLe(h.sizeExt, 8) + ToLe(h.sizeChunks, 8)
  }

  lemma HeaderDelimits(x: DemoHeader, y: DemoHeader, r: bytes, q: bytes)
    requires PackHeader(x) + r == PackHeader(y) + q
    ensures x == y
  {
    Field(x, r, 0); Field(y, q, 0);
    Field(x, r, 1); Field(y, q, 1);
    Field(x, r, 2); Field(y, q, 2);
    Field(x, r, 3); Field(y, q, 3);
  }

  function FieldOf(h: DemoHeader, i: nat): u64 {
    if i == 0 then h.secs else if i == 1 then h.nanos else if i == 2 then h.sizeExt else h.sizeChunks
  }

  lemma Field(h: DemoHeader, r: bytes, i: nat)
    requires i < 4
    ensures |PackHeader(h) + r| >= 32 && FromLe((PackHeader(h) + r)[i * 8..i * 8 + 8]) == FieldOf(h, i)
  {
    Le64RoundTrip(FieldOf(h, i));
    assert (PackHeader(h) + r)[i * 8..i * 8 + 8] == ToLe(FieldOf(h, i), 8);
  }

  lemma ChunkHeadersDelimit()
    ensures SelfDelimiting(PackChunkHeader)
  {
    hide PackNat;
    forall x: ChunkHeader, y: ChunkHeader, r: bytes, q: bytes | PackChunkHeader(x) + r == PackChunkHeader(y) + q
      ensures x == y
    {
      Assoc(PackNat(x.monotonicTick), PackNat(x.size), r);
      Assoc(PackNat(y.monotonicTick), PackNat(y.size), q);
      NatDelimits(x.monotonicTick, y.monotonicTick, PackNat(x.size) + r, PackNat(y.size) + q);
      NatDelimits(x.size, y.size, r, q);
    }
  }

  lemma HeaderExtsDelimit()
    ensures SelfDelimiting(PackHeaderExt)
  {
    hide PackNat, PackBytes;
    forall x: DemoHeaderExt, y: DemoHeaderExt, r: bytes, q: bytes | PackHeaderExt(x) + r == PackHeaderExt(y) + q
      ensures x == y
    {
      Assoc(PackNat(x.ticksPerSecond), PackBytes(x.rest), r);
      Assoc(PackNat(y.ticksPerSecond), PackBytes(y.rest), q);
      NatDelimits(x.ticksPerSecond, y.ticksPerSecond, PackBytes(x.rest) + r, PackBytes(y.rest) + q);
      BytesDelimits(x.rest, y.rest, r, q);
    }
  }

  lemma TailsDelimit()
    ensures SelfDelimiting(PackTail)
  {
    hide PackIndex;
    forall x: DemoTail, y: DemoTail, r: bytes, q: bytes | PackTail(x) + r == PackTail(y) + q ensures x == y {
      Assoc(PackIndex(x.snapshotsIndex), PackIndex(x.eventsIndex), r);
      Assoc(PackIndex(y.snapshotsIndex), PackIndex(y.eventsIndex), q);
      IndexDelimits(x.snapshotsIndex, y.snapshotsIndex, PackIndex(x.eventsIndex) + r, PackIndex(y.eventsIndex) + q);
      IndexDelimits(x.eventsIndex, y.eventsIndex, r, q);
    }
  }

  lemma OthersDelimit()
    ensures SelfDelimiting(PackNat) && SelfDelimiting(PackBytes) && SelfDelimiting(PackEvents)
            && SelfDelimiting(PackHeader)
  {
    forall x: nat, y: nat, r: bytes, q: bytes | PackNat(x) + r == PackNat(y) + q ensures x == y {
      NatDelimits(x, y, r, q);
    }
    forall x: bytes, y: bytes, r: bytes, q: bytes | PackBytes(x) + r == PackBytes(y) + q ensures x == y {
      BytesDelimits(x, y, r, q);
    }
    forall x: DemoEvents, y: DemoEvents, r: bytes, q: bytes | PackEvents(x) + r == PackEvents(y) + q ensures x == y {
      EventsDelimits(x, y, r, q);
    }
    forall x: DemoHeader, y: DemoHeader, r: bytes, q: bytes | PackHeader(x) + r == PackHeader(y) + q ensures x == y {
      HeaderDelimits(x, y, r, q);
    }
  }

  // ---------------------------------------------------------------- the codec

  ghost function CoderOf<T(!new)>(ser: T -> bytes): Coder<T> {
    Coder(ser, (b: bytes) => Reading(ser, b), (x: T) => true)
  }

  lemma CoderReadsBack<T(!new)>(ser: T -> bytes)
    requires SelfDelimiting(ser)
    ensures ReadsBack(CoderOf(ser))
  {
    ReadingReadsBack(ser, CoderOf(ser));
  }

  ghost function ExampleCodec(): Codec {
    Codec(
      (x: bytes) => [1] + x,
      (x: bytes) => if x == [] then None else Some(x[1..]),
      (a: bytes, b: bytes) => [1] + b,
      (a: bytes, d: bytes) => if d == [] then None else Some(d[1..]),
      CoderOf(PackNat), CoderOf(PackChunkHeader), CoderOf(PackBytes), CoderOf(PackEvents),
      CoderOf(PackHeader), CoderOf(PackHeaderExt), CoderOf(PackTail))
  }

  /** A codec with all the laws exists. */
  lemma LawsAreConsistent()
    ensures exists c: Codec :: FileLaws(c)
  {
    var c := ExampleCodec();
    OthersDelimit();
    ChunkHeadersDelimit();
    HeaderExtsDelimit();
    TailsDelimit();
    CoderReadsBack(PackNat);
    CoderReadsBack(PackChunkHeader);
    CoderReadsBack(PackBytes);
    CoderReadsBack(PackEvents);
    CoderReadsBack(PackHeader);
    CoderReadsBack(PackHeaderExt);
    CoderReadsBack(PackTail);
    assert CompressionLaw(c) && PatchLaw(c);
    assert WordLaw(c);
    hide SelfDelimiting, ReadsBack, WordLaw;
    assert FileLaws(c);
  }
}
