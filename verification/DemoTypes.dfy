/** The values a demo is made of (game/demo/src/lib.rs). */
module DemoTypes {
  import opened OrderedMaps

  type byte = x: int | 0 <= x < 256
  type bytes = seq<byte>

  type Snapshot = bytes

  /** The payloads of game events and chat messages are kept as uninterpreted bytes. */
  datatype DemoEvent = Game(events: bytes) | Chat(msg: bytes) | Marker

  type DemoEvents = seq<DemoEvent>

  const MAX_U64: nat := 0xFFFF_FFFF_FFFF_FFFF
  const NANOS_PER_SEC: nat := 1_000_000_000

  type u64 = x: int | 0 <= x <= MAX_U64
  type u32 = x: int | 0 <= x <= 0xFFFF_FFFF

  /** Fixed-size header. `secs` and `nanos` are the two parts of a `Duration`. */
  datatype DemoHeader = DemoHeader(secs: u64, nanos: u32, sizeExt: u64, sizeChunks: u64)

  /** Of the dynamic header only the tick rate matters here; the rest is uninterpreted. */
  datatype DemoHeaderExt = DemoHeaderExt(ticksPerSecond: nat, rest: bytes)

  /** First tick of each chunk, mapped to its offset in the chunk bytes. */
  datatype DemoTail = DemoTail(snapshotsIndex: seq<Entry<nat>>, eventsIndex: seq<Entry<nat>>)
}
