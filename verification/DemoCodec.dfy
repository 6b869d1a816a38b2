/**
 Serialization, compression and patching are library code (bincode, zstd,
 lib/bin-patch). They enter as functions, and what the demo format relies on is
 stated as laws. Little-endian integers are written out by the repository itself
 and are defined here.
 */
module DemoCodec {
  import opened OrderedMaps
  import opened DemoTypes

  // ---------------------------------------------------------------- little-endian integers

  /** The low `k` bytes of `n`, lowest first (`to_le_bytes` of a `k`-byte integer). */
  function ToLe(n: nat, k: nat): (r: bytes)
    ensures |r| == k
  {
    if k == 0 then [] else [n % 256] + ToLe(n / 256, k - 1)
  }

  function FromLe(b: bytes): nat {
    if b == [] then 0 else b[0] + 256 * FromLe(b[1..])
  }

  function Pow256(k: nat): nat {
    if k == 0 then 1 else 256 * Pow256(k - 1)
  }

  lemma {:induction false} LeRoundTrip(n: nat, k: nat)
    requires n < Pow256(k)
    ensures FromLe(ToLe(n, k)) == n
  {
    if k == 0 {
    } else {
      LeRoundTrip(n / 256, k - 1);
    }
  }

  lemma Le64RoundTrip(n: nat)
    requires n <= MAX_U64
    ensures FromLe(ToLe(n, 8)) == n
  {
    assert Pow256(4) == 0x1_0000_0000;
    assert Pow256(8) == 0x1_0000_0000_0000_0000;
    LeRoundTrip(n, 8);
  }

  // ---------------------------------------------------------------- library codecs

  /** `ser` and `deser`; `deser` also tells how many bytes it consumed. `fits` says which values can be
      serialized: numbers and lengths have 64 bits. */
  datatype Coder<!T> = Coder(ser: T -> bytes, deser: bytes -> Option<(T, nat)>, fits: T -> bool)

  datatype ChunkHeader = ChunkHeader(monotonicTick: nat, size: nat)

  datatype Codec = Codec(
    comp: bytes -> bytes,
    decomp: bytes -> Option<bytes>,
    diff: (bytes, bytes) -> bytes,
    patch: (bytes, bytes) -> Option<bytes>,
    count: Coder<nat>,
    chunkHeader: Coder<ChunkHeader>,
    snapshot: Coder<Snapshot>,
    events: Coder<DemoEvents>,
    header: Coder<DemoHeader>,
    headerExt: Coder<DemoHeaderExt>,
    tail: Coder<DemoTail>)

  /** A value is read back from its own bytes, whatever follows them. */
  ghost predicate ReadsBack<T(!new)>(c: Coder<T>) {
    forall x: T, rest: bytes :: c.fits(x) ==> c.deser(c.ser(x) + rest) == Some((x, |c.ser(x)|))
  }

  /** Numbers of 64 bits can be serialized. */
  ghost predicate WordLaw(c: Codec) {
    && (forall n: nat :: n <= MAX_U64 ==> c.count.fits(n))
    && (forall h: ChunkHeader :: h.monotonicTick <= MAX_U64 && h.size <= MAX_U64 ==> c.chunkHeader.fits(h))
  }

  ghost predicate WordIndex(index: seq<Entry<nat>>) {
    |index| <= MAX_U64 && forall i :: 0 <= i < |index| ==> index[i].key <= MAX_U64 && index[i].value <= MAX_U64
  }

  ghost predicate CompressionLaw(c: Codec) {
    forall x: bytes :: c.decomp(c.comp(x)) == Some(x) && |c.comp(x)| > 0
  }

  ghost predicate PatchLaw(c: Codec) {
    forall a: bytes, b: bytes :: c.patch(a, c.diff(a, b)) == Some(b) && |c.diff(a, b)| > 0
  }

  /** What a chunk needs of the libraries. */
  ghost predicate ChunkLaws<A(!new)>(c: Codec, coder: Coder<A>) {
    && CompressionLaw(c) && PatchLaw(c) && WordLaw(c)
    && ReadsBack(c.count) && ReadsBack(c.chunkHeader) && ReadsBack(coder)
  }

  /** What a whole file needs of the libraries: the fixed-size header is overwritten in place. */
  ghost predicate FileLaws(c: Codec) {
    && ChunkLaws(c, c.snapshot) && ChunkLaws(c, c.events)
    && ReadsBack(c.header) && ReadsBack(c.headerExt) && ReadsBack(c.tail)
    && (forall h: DemoHeader :: c.header.fits(h))
    && (forall t: DemoTail :: WordIndex(t.snapshotsIndex) && WordIndex(t.eventsIndex) ==> c.tail.fits(t))
    && (forall g: DemoHeader, h: DemoHeader :: |c.header.ser(g)| == |c.header.ser(h)|)
  }
}
