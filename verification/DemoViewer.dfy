/**
 The sliding window of the demo viewer (`check_chunks`, game/client-demo/src/lib.rs):
 chunks are loaded lazily and everything before the current tick but its last entry is
 dropped. The reference is the whole recording: the window has to agree with it.
 */
module DemoViewer {
  import opened OrderedMaps
  import opened DemoTypes
  import opened DemoCodec
  import opened DemoChunk
  import opened DemoFile
  import opened DemoRoundTrip

  /** One stream of an opened demo: the bytes of all chunks and the index of the stream. */
  datatype Stream<!A> = Stream(c: Codec, coder: Coder<A>, bytes: bytes, index: seq<Entry<nat>>)

  /** `try_load_chunks` for the index entry at `pos`: an unreadable chunk changes nothing. */
  function LoadAt<A>(s: Stream<A>, pos: int, cur: seq<Entry<A>>): seq<Entry<A>> {
    if 0 <= pos < |s.index| then
      match DecodeChunk(s.c, s.coder, s.bytes, s.index[pos].value)
      case Ok(chunk) => Append(cur, chunk)
      case Err => cur
    else cur
  }

  /** The chunk that may hold the tick is loaded if everything cached is newer. */
  function LoadBefore<A>(s: Stream<A>, cur: seq<Entry<A>>, tick: nat): seq<Entry<A>> {
    if cur == [] || cur[0].key > tick then LoadAt(s, LowerBound(s.index, tick + 1) - 1, cur) else cur
  }

  /** The next chunk is loaded if nothing newer than the tick is cached. */
  function LoadAfter<A>(s: Stream<A>, cur: seq<Entry<A>>, tick: nat): seq<Entry<A>> {
    var last := if cur == [] then 0 else Last(cur).key;
    if last < tick + 1 then LoadAt(s, LowerBound(s.index, last + 1), cur) else cur
  }

  /** Of the entries up to the tick only the last one stays. */
  function Trimmed<A>(cur: seq<Entry<A>>, tick: nat): seq<Entry<A>> {
    cur[Max(LowerBound(cur, tick + 1) - 1, 0)..]
  }

  /** The two ranges of the index that are looked at. */
  datatype TickRange = UpToTick(tick: nat) | FromTick(tick: nat)

  /** The position of the last (`rev`) or first index entry in the range, or -1. */
  function Found(index: seq<Entry<nat>>, range: TickRange, rev: bool): int {
    var lo := if range.FromTick? then LowerBound(index, range.tick) else 0;
    var hi := if range.UpToTick? then LowerBound(index, range.tick + 1) else |index|;
    if lo < hi then if rev then hi - 1 else lo else -1
  }

  ghost predicate InRange(key: nat, range: TickRange) {
    if range.UpToTick? then key <= range.tick else key >= range.tick
  }

  /** No index entry of the range comes before the one that is found, in the direction of the search. */
  lemma {:induction false} FoundIsNearest(index: seq<Entry<nat>>, range: TickRange, rev: bool, i: nat)
    requires Increasing(index) && i < |index|
    ensures var f := Found(index, range, rev);
            && (InRange(index[i].key, range) ==> if rev then i <= f else 0 <= f <= i)
            && (f >= 0 ==> f < |index| && InRange(index[f].key, range))
  {
    var f := Found(index, range, rev);
    var k := if range.UpToTick? then range.tick + 1 else range.tick;
    LowerBoundCuts(index, k, i);
    if 0 <= f < |index| { LowerBoundCuts(index, k, f); }
  }

  method TryLoadChunks<A>(s: Stream<A>, range: TickRange, rev: bool, cur: seq<Entry<A>>) returns (r: seq<Entry<A>>)
    ensures r == LoadAt(s, Found(s.index, range, rev), cur)
  {
    r := cur;
    var pos := Found(s.index, range, rev);
    if 0 <= pos < |s.index| {
      var chunks := ReadChunks(s.c, s.coder, s.bytes, s.index[pos].value);
      if chunks.Ok? { r := Append(cur, chunks.value); }
    }
  }

  lemma {:induction false} FoundLoads<A>(s: Stream<A>, tick: nat, cur: seq<Entry<A>>)
    ensures LoadAt(s, Found(s.index, UpToTick(tick), true), cur) == LoadAt(s, LowerBound(s.index, tick + 1) - 1, cur)
    ensures LoadAt(s, Found(s.index, FromTick(tick), false), cur) == LoadAt(s, LowerBound(s.index, tick), cur)
  {
    hide LowerBound, Append, DecodeChunk;
  }

  method CheckChunks<A>(s: Stream<A>, curData: seq<Entry<A>>, tick: nat) returns (cur: seq<Entry<A>>)
    requires tick < MAX_U64
    ensures cur == Checked(s, curData, tick)
  {
    hide LoadAt, Trimmed, LowerBound, Found;
    cur := curData;
    if cur == [] || cur[0].key > tick {
      FoundLoads(s, tick, cur);
      cur := TryLoadChunks(s, UpToTick(tick), true, cur);
    }
    var lastTick := if cur == [] then 0 else Last(cur).key;
    if lastTick < tick + 1 {
      FoundLoads(s, lastTick + 1, cur);
      cur := TryLoadChunks(s, FromTick(lastTick + 1), false, cur);
    }
    cur := DropPassed(cur, tick);
  }

  function Checked<A>(s: Stream<A>, cur: seq<Entry<A>>, tick: nat): seq<Entry<A>> {
    Trimmed(LoadAfter(s, LoadBefore(s, cur, tick), tick), tick)
  }

  method DropPassed<A>(loaded: seq<Entry<A>>, tick: nat) returns (cur: seq<Entry<A>>)
    ensures cur == Trimmed(loaded, tick)
  {
    hide LowerBound;
    cur := loaded;
    while LowerBound(cur, tick + 1) > 1
      invariant |cur| <= |loaded| && cur == loaded[|loaded| - |cur|..]
      invariant Trimmed(cur, tick) == Trimmed(loaded, tick)
      decreases |cur|
    {
      DropFirst(cur, tick + 1);
      assert forall i :: 0 <= i < |cur| ==> cur[1..][i..] == cur[i + 1..];
      cur := cur[1..];
    }
  }

  lemma {:induction false} DropFirst<V>(s: seq<Entry<V>>, k: nat)
    requires LowerBound(s, k) > 0
    ensures LowerBound(s[1..], k) == LowerBound(s, k) - 1
  {
    if !Below(s, k) {
      DropFirst(Init(s), k);
      assert Init(s)[1..] == Init(s[1..]);
    }
  }

  // ---------------------------------------------------------------- the window on the whole recording

  /** The number of recorded ticks up to and including `tick`. */
  ghost function UpTo<A>(whole: seq<Entry<A>>, tick: nat): nat {
    LowerBound(whole, tick + 1)
  }

  /** Where a window for the tick has to start: at the last entry up to the tick, if there is one. */
  ghost function From<A>(whole: seq<Entry<A>>, tick: nat): nat {
    if UpTo(whole, tick) > 0 then UpTo(whole, tick) - 1 else 0
  }

  /** The cache is one stretch of the recording without a hole. It starts with the last entry at or
      before the tick (or with the first entry, if there is none) and reaches beyond the tick (or to
      the end, if nothing comes after). */
  ghost predicate Shows<A>(whole: seq<Entry<A>>, cur: seq<Entry<A>>, tick: nat) {
    var p, a := UpTo(whole, tick), From(whole, tick);
    && a + |cur| <= |whole|
    && cur == Stretch(whole, a, a + |cur|)
    && (a + |cur| == |whole| || p < a + |cur|)
  }

  /** What a correct window gives its users: the two entries around the tick. */
  lemma ShowsBracket<A>(whole: seq<Entry<A>>, cur: seq<Entry<A>>, tick: nat)
    requires Increasing(whole) && Shows(whole, cur, tick)
    ensures var p := UpTo(whole, tick);
            && (p > 0 ==> cur != [] && cur[0] == whole[p - 1] && cur[0].key <= tick)
            && (p > 0 && p < |whole| ==> |cur| > 1 && cur[1] == whole[p] && tick < cur[1].key)
            && (p == 0 && whole != [] ==> cur != [] && cur[0] == whole[0] && tick < cur[0].key)
            && (p == |whole| ==> |cur| <= 1)
  {
    hide Increasing, LowerBound;
    var p := UpTo(whole, tick);
    if p > 0 { LowerBoundCuts(whole, tick + 1, p - 1); }
    if p < |whole| { LowerBoundCuts(whole, tick + 1, p); }
  }

  lemma ShowsMeans<A>(whole: seq<Entry<A>>, cur: seq<Entry<A>>, tick: nat)
    requires Shows(whole, cur, tick)
    ensures var a := From(whole, tick);
            && a + |cur| <= |whole| && cur == whole[a..a + |cur|]
            && (a + |cur| == |whole| || UpTo(whole, tick) < a + |cur|)
  {
  }

  /** ... and the entry of the tick itself, if there is one. */
  lemma {:induction false} ShowsEntry<A>(whole: seq<Entry<A>>, cur: seq<Entry<A>>, tick: nat)
    requires Increasing(whole) && Shows(whole, cur, tick)
    ensures Get(cur, tick) == Get(whole, tick)
  {
    hide *;
    ShowsMeans(whole, cur, tick);
    var a := From(whole, tick);
    FromIs(whole, tick);
    UpToIs(whole, tick);
    GetSlice(whole, a, a + |cur|, tick);
    if Get(whole, tick).Some? {
      var i := GetFound(whole, tick);
      RankOf(whole, i);
      LowerBoundCuts(whole, tick + 1, i);
      if i + 1 < |whole| {
        KeyGap(whole, i, i + 1);
        LowerBoundCuts(whole, tick + 1, i + 1);
      }
    }
  }

  // ---------------------------------------------------------------- chunks as stretches

  ghost function Start<T>(chunks: seq<seq<T>>, i: nat): nat
    requires i <= |chunks|
  {
    |Concat(chunks[..i])|
  }

  lemma ChunkIsSlice<T>(chunks: seq<seq<T>>, i: nat)
    requires i < |chunks|
    ensures Start(chunks, i + 1) == Start(chunks, i) + |chunks[i]| <= |Concat(chunks)|
    ensures chunks[i] == Concat(chunks)[Start(chunks, i)..Start(chunks, i + 1)]
  {
    hide Concat;
    assert chunks[..i + 1] == chunks[..i] + [chunks[i]];
    ConcatSnoc(chunks[..i], chunks[i]);
    assert chunks == chunks[..i + 1] + chunks[i + 1..];
    ConcatAppend(chunks[..i + 1], chunks[i + 1..]);
    MiddleSlice(Concat(chunks[..i]), chunks[i], Concat(chunks[i + 1..]));
  }

  lemma MiddleSlice<T>(a: seq<T>, b: seq<T>, c: seq<T>)
    ensures (a + b + c)[|a|..|a| + |b|] == b
  {
  }

  lemma StartEnds<T>(chunks: seq<seq<T>>)
    ensures Start(chunks, 0) == 0 && Start(chunks, |chunks|) == |Concat(chunks)|
  {
    assert chunks[..|chunks|] == chunks && chunks[..0] == [];
  }

  lemma {:induction false} StartMonotone<T>(chunks: seq<seq<T>>, i: nat, j: nat)
    requires i <= j <= |chunks|
    ensures Start(chunks, i) <= Start(chunks, j)
    decreases j - i
  {
    if i < j {
      ChunkIsSlice(chunks, i);
      StartMonotone(chunks, i + 1, j);
    }
  }

  ghost predicate Reads<A>(s: Stream<A>, chunks: seq<seq<Entry<A>>>) {
    Indexed(s.c, s.coder, s.bytes, s.index, chunks)
  }

  lemma ReadsOrdered<A>(s: Stream<A>, chunks: seq<seq<Entry<A>>>)
    requires Reads(s, chunks)
    ensures |s.index| == |chunks| && Increasing(s.index) && Increasing(Concat(chunks))
  {
  }

  /** The index entry of a chunk carries the tick at the start of its stretch. */
  lemma IndexKey<A>(s: Stream<A>, chunks: seq<seq<Entry<A>>>, i: nat)
    requires Reads(s, chunks) && i < |chunks| == |s.index|
    ensures Start(chunks, i) < Start(chunks, i + 1) <= |Concat(chunks)|
    ensures s.index[i].key == Concat(chunks)[Start(chunks, i)].key
  {
    hide DecodeChunk, Concat, Increasing, Start;
    ChunkIsSlice(chunks, i);
  }

  lemma StartGrows<A>(s: Stream<A>, chunks: seq<seq<Entry<A>>>, i: nat)
    requires Reads(s, chunks) && i < |chunks| == |s.index|
    ensures Start(chunks, i) < Start(chunks, i + 1) <= |Concat(chunks)|
  {
    hide *;
    IndexKey(s, chunks, i);
  }

  /** The last chunk that starts at or before a tick is the one whose stretch holds the last entry at
      or before the tick. */
  lemma ChunkOfTick<A>(s: Stream<A>, chunks: seq<seq<Entry<A>>>, tick: nat)
    requires Reads(s, chunks) && |s.index| == |chunks|
    ensures var q, p := LowerBound(s.index, tick + 1), LowerBound(Concat(chunks), tick + 1);
            && (q == 0 ==> p == 0)
            && (q > 0 ==> Start(chunks, q - 1) < p <= Start(chunks, q))
  {
    hide *;
    ReadsOrdered(s, chunks);
    StartEnds(chunks);
    var q, whole := LowerBound(s.index, tick + 1), Concat(chunks);
    if q > 0 { StartsUpTo(s, chunks, tick, q - 1); }
    if q < |chunks| { StartsUpTo(s, chunks, tick, q); }
  }

  lemma StartsUpTo<A>(s: Stream<A>, chunks: seq<seq<Entry<A>>>, tick: nat, i: nat)
    requires Reads(s, chunks) && i < |chunks| == |s.index|
    ensures i < LowerBound(s.index, tick + 1) <==> Start(chunks, i) < LowerBound(Concat(chunks), tick + 1)
  {
    hide *;
    ReadsOrdered(s, chunks);
    IndexKey(s, chunks, i);
    LowerBoundCuts(s.index, tick + 1, i);
    LowerBoundCuts(Concat(chunks), tick + 1, Start(chunks, i));
  }

  /** After the last entry of a chunk the index leads to the following chunk. */
  lemma ChunkAfter<A>(s: Stream<A>, chunks: seq<seq<Entry<A>>>, j: nat)
    requires Reads(s, chunks) && 0 < j <= |chunks| == |s.index|
    ensures 0 < Start(chunks, j) <= |Concat(chunks)|
    ensures LowerBound(s.index, Concat(chunks)[Start(chunks, j) - 1].key + 1) == j
  {
    hide *;
    ReadsOrdered(s, chunks);
    IndexKey(s, chunks, j - 1);
    var whole, end := Concat(chunks), Start(chunks, j);
    var last := whole[end - 1].key;
    LowerBoundCuts(whole, last + 1, end - 1);
    StartsUpTo(s, chunks, last, j - 1);
    if j < |chunks| {
      IndexKey(s, chunks, j);
      KeyGap(whole, end - 1, end);
      LowerBoundCuts(whole, last + 1, end);
      StartsUpTo(s, chunks, last, j);
    }
  }

  // ---------------------------------------------------------------- loading and trimming stretches

  ghost function Stretch<A>(whole: seq<A>, a: nat, b: nat): seq<A> {
    if a <= b <= |whole| then whole[a..b] else []
  }

  /** Loading a chunk that overlaps or touches the cached stretch extends the stretch. */
  lemma LoadChunk<A>(s: Stream<A>, chunks: seq<seq<Entry<A>>>, i: nat, a: nat, b: nat)
    requires Reads(s, chunks) && i < |chunks| == |s.index|
    requires a <= b <= |Concat(chunks)| && a <= Start(chunks, i + 1) && Start(chunks, i) <= b
    ensures LoadAt(s, i, Stretch(Concat(chunks), a, b))
         == Stretch(Concat(chunks), Min(a, Start(chunks, i)), Max(b, Start(chunks, i + 1)))
  {
    var whole, from, to := Concat(chunks), Start(chunks, i), Start(chunks, i + 1);
    ChunkIsSlice(chunks, i);
    LoadReads(s, chunks, i, Stretch(whole, a, b));
    hide *;
    ReadsOrdered(s, chunks);
    MergeStretches(whole, a, b, from, to);
    assert chunks[i] == whole[from..to];
  }

  lemma LoadReads<A>(s: Stream<A>, chunks: seq<seq<Entry<A>>>, i: nat, cur: seq<Entry<A>>)
    requires Reads(s, chunks) && i < |chunks| == |s.index|
    ensures LoadAt(s, i, cur) == Append(cur, chunks[i])
  {
  }

  lemma MergeStretches<A>(whole: seq<Entry<A>>, a: nat, b: nat, k: nat, l: nat)
    requires Increasing(whole) && a <= b <= |whole| && k <= l <= |whole| && a <= l && k <= b
    ensures Append(Stretch(whole, a, b), whole[k..l]) == Stretch(whole, Min(a, k), Max(b, l))
  {
    hide Append, Increasing;
    AppendSlices(whole, a, b, k, l);
  }

  lemma LoadNothing<A>(s: Stream<A>, pos: int, cur: seq<Entry<A>>)
    requires pos >= |s.index| || pos < 0
    ensures LoadAt(s, pos, cur) == cur
  {
  }

  /** Loading into an empty cache. */
  lemma LoadFirst<A>(s: Stream<A>, chunks: seq<seq<Entry<A>>>, i: nat)
    requires Reads(s, chunks) && i < |chunks| == |s.index|
    ensures Start(chunks, i) < Start(chunks, i + 1) <= |Concat(chunks)|
    ensures LoadAt(s, i, []) == Stretch(Concat(chunks), Start(chunks, i), Start(chunks, i + 1))
  {
    IndexKey(s, chunks, i);
    assert Stretch(Concat(chunks), Start(chunks, i), Start(chunks, i)) == [];
    hide *;
    LoadChunk(s, chunks, i, Start(chunks, i), Start(chunks, i));
    MinMax(Start(chunks, i), Start(chunks, i + 1));
  }

  lemma MinMax(a: nat, b: nat)
    requires a <= b
    ensures Min(a, a) == a && Max(a, b) == b && Min(a, b) == a && Max(b, a) == b
  {
  }

  lemma TrimSlice<A>(whole: seq<Entry<A>>, a: nat, b: nat, tick: nat)
    requires Increasing(whole) && a <= b <= |whole|
    ensures var from := Max(a, Min(UpTo(whole, tick), b) - 1);
            a <= from <= b && Trimmed(Stretch(whole, a, b), tick) == Stretch(whole, from, b)
  {
    hide LowerBound, Increasing;
    LowerBoundSlice(whole, a, b, tick + 1);
  }

  /** The next chunk is loaded when the cached stretch, which ends with chunk `j`, ends at or before
      the tick. */
  lemma LoadAfterSlice<A>(s: Stream<A>, chunks: seq<seq<Entry<A>>>, a: nat, j: nat, tick: nat)
    requires Reads(s, chunks) && 0 < j <= |chunks| == |s.index|
    requires a < Start(chunks, j) <= |Concat(chunks)|
    ensures LoadAfter(s, Stretch(Concat(chunks), a, Start(chunks, j)), tick)
         == Stretch(Concat(chunks), a, Start(chunks, LoadedTo(chunks, j, tick)))
  {
    hide Reads, Concat, LowerBound, LoadAt, Start;
    var whole, end := Concat(chunks), Start(chunks, j);
    var cur := Stretch(whole, a, end);
    assert cur != [] && Last(cur) == whole[end - 1];
    ChunkAfter(s, chunks, j);
    if LoadedTo(chunks, j, tick) == j + 1 {
      IndexKey(s, chunks, j);
      LoadChunk(s, chunks, j, a, end);
      assert LoadAfter(s, cur, tick) == LoadAt(s, j, cur);
    } else if j == |chunks| {
      LoadNothing(s, j, cur);
    }
  }

  /** How many chunks are cached after the second load. */
  ghost function LoadedTo<A>(chunks: seq<seq<Entry<A>>>, j: nat, tick: nat): nat
    requires j <= |chunks|
    ensures LoadedTo(chunks, j, tick) <= |chunks|
  {
    var whole, end := Concat(chunks), Start(chunks, j);
    if j < |chunks| && 0 < end <= |whole| && whole[end - 1].key <= tick then j + 1 else j
  }

  // ---------------------------------------------------------------- the window

  /** A correct window whose last entry is the last entry of chunk `j - 1`. */
  ghost predicate ShowsTo<A>(chunks: seq<seq<Entry<A>>>, cur: seq<Entry<A>>, tick: nat, j: nat) {
    var whole := Concat(chunks);
    var p := UpTo(whole, tick);
    && j <= |chunks|
    && Start(chunks, j) <= |whole|
    && cur == Stretch(whole, From(whole, tick), Start(chunks, j))
    && (Start(chunks, j) == |whole| || p < Start(chunks, j))
  }

  lemma ShowsToShows<A>(chunks: seq<seq<Entry<A>>>, cur: seq<Entry<A>>, tick: nat, j: nat)
    requires ShowsTo(chunks, cur, tick, j)
    ensures Shows(Concat(chunks), cur, tick)
  {
  }

  lemma ShowsToIs<A>(chunks: seq<seq<Entry<A>>>, cur: seq<Entry<A>>, tick: nat, j: nat)
    requires j <= |chunks| && Start(chunks, j) <= |Concat(chunks)|
    requires Reaches(Concat(chunks), UpTo(Concat(chunks), tick), Start(chunks, j))
    requires cur == Stretch(Concat(chunks), From(Concat(chunks), tick), Start(chunks, j))
    ensures ShowsTo(chunks, cur, tick, j)
  {
  }

  /** Whether a stretch up to `end` reaches beyond the tick, or to the end of the recording. */
  ghost predicate Reaches<A>(whole: seq<A>, p: nat, end: nat) {
    end == |whole| || p < end
  }

  /** Trimming a stretch that starts early enough gives a correct window exactly if the stretch
      reaches far enough. */
  lemma TrimShows<A>(whole: seq<Entry<A>>, a: nat, end: nat, tick: nat)
    requires Increasing(whole) && a < end <= |whole| && a <= From(whole, tick)
    ensures var p, cur := UpTo(whole, tick), Trimmed(Stretch(whole, a, end), tick);
            && (Reaches(whole, p, end) ==> cur == Stretch(whole, From(whole, tick), end))
            && (Shows(whole, cur, tick) <==> Reaches(whole, p, end))
  {
    var p := UpTo(whole, tick);
    assert p <= |whole|;
    hide *;
    TrimSlice(whole, a, end, tick);
    var from := Max(a, Min(p, end) - 1);
    assert From(whole, tick) == if p > 0 then p - 1 else 0 by { FromIs(whole, tick); }
    TrimStart(a, p, end, |whole|);
    if end < |whole| && end <= p {
      StopsShort(whole, end, tick);
    } else {
      StretchShows(whole, end, tick);
    }
    ReachesIs(whole, p, end);
  }

  lemma ReachesIs<A>(whole: seq<A>, p: nat, end: nat)
    ensures Reaches(whole, p, end) <==> end == |whole| || p < end
  {
  }

  lemma FromIs<A>(whole: seq<Entry<A>>, tick: nat)
    ensures From(whole, tick) == if UpTo(whole, tick) > 0 then UpTo(whole, tick) - 1 else 0
  {
  }

  lemma TrimStart(a: nat, p: nat, end: nat, n: nat)
    requires a < end <= n && (a < p || a == p == 0) && p <= n
    ensures Max(a, Min(p, end) - 1) == if end == n || p < end then (if p > 0 then p - 1 else 0) else end - 1
  {
  }

  lemma StretchShows<A>(whole: seq<Entry<A>>, end: nat, tick: nat)
    requires end <= |whole| && From(whole, tick) < end && Reaches(whole, UpTo(whole, tick), end)
    ensures Shows(whole, Stretch(whole, From(whole, tick), end), tick)
  {
  }

  lemma StopsShort<A>(whole: seq<Entry<A>>, end: nat, tick: nat)
    requires Increasing(whole) && 0 < end < |whole| && end <= UpTo(whole, tick)
    ensures !Shows(whole, Stretch(whole, end - 1, end), tick)
  {
    hide Increasing;
    var p, cur := UpTo(whole, tick), Stretch(whole, end - 1, end);
    assert |cur| == 1 && cur[0] == whole[end - 1];
    if Shows(whole, cur, tick) {
      assert cur[0] == whole[p - 1];
      KeyGap(whole, end - 1, |whole| - 1);
    }
  }

  /** The end of `check_chunks`, once the cache is a stretch that starts early enough: the result is
      a correct window exactly if it reaches far enough after loading at most one more chunk. */
  lemma LoadAndTrim<A>(s: Stream<A>, chunks: seq<seq<Entry<A>>>, a: nat, j: nat, tick: nat)
    requires Reads(s, chunks) && 0 < j <= |chunks| == |s.index|
    requires a < Start(chunks, j) <= |Concat(chunks)|
    requires a <= From(Concat(chunks), tick)
    ensures var whole, j' := Concat(chunks), LoadedTo(chunks, j, tick);
            var cur := Trimmed(LoadAfter(s, Stretch(whole, a, Start(chunks, j)), tick), tick);
            && (Reaches(whole, UpTo(whole, tick), Start(chunks, j')) ==> ShowsTo(chunks, cur, tick, j'))
            && (Shows(whole, cur, tick) <==> Reaches(whole, UpTo(whole, tick), Start(chunks, j')))
  {
    ReadsOrdered(s, chunks);
    LoadedBounds(s, chunks, j, tick);
    hide *;
    var whole, j' := Concat(chunks), LoadedTo(chunks, j, tick);
    LoadAfterSlice(s, chunks, a, j, tick);
    TrimShows(whole, a, Start(chunks, j'), tick);
    var p := UpTo(whole, tick);
    if Reaches(whole, p, Start(chunks, j')) {
      ShowsToIs(chunks, Stretch(whole, From(whole, tick), Start(chunks, j')), tick, j');
    }
  }

  lemma LoadedBounds<A>(s: Stream<A>, chunks: seq<seq<Entry<A>>>, j: nat, tick: nat)
    requires Reads(s, chunks) && 0 < j <= |chunks| == |s.index|
    requires Start(chunks, j) <= |Concat(chunks)|
    ensures Start(chunks, j) <= Start(chunks, LoadedTo(chunks, j, tick)) <= |Concat(chunks)|
  {
    hide Reads;
    if LoadedTo(chunks, j, tick) == j + 1 { StartGrows(s, chunks, j); }
  }

  /** A chunk is loaded only if it exists, and then more is cached than before. */
  lemma LoadedReaches<A>(s: Stream<A>, chunks: seq<seq<Entry<A>>>, j: nat, tick: nat)
    requires Reads(s, chunks) && 0 < j <= |chunks| == |s.index|
    requires 0 < Start(chunks, j) <= |Concat(chunks)|
    requires UpTo(Concat(chunks), tick) <= Start(chunks, j)
    ensures Reaches(Concat(chunks), UpTo(Concat(chunks), tick), Start(chunks, LoadedTo(chunks, j, tick)))
  {
    hide *;
    var whole, end := Concat(chunks), Start(chunks, j);
    ReadsOrdered(s, chunks);
    StartEnds(chunks);
    UpToIs(whole, tick);
    LowerBoundCuts(whole, tick + 1, end - 1);
    LoadedIs(chunks, j, tick);
    if j < |chunks| { StartGrows(s, chunks, j); }
    ReachesIs(whole, UpTo(whole, tick), Start(chunks, LoadedTo(chunks, j, tick)));
  }

  lemma LoadedIs<A>(chunks: seq<seq<Entry<A>>>, j: nat, tick: nat)
    requires j <= |chunks| && 0 < Start(chunks, j) <= |Concat(chunks)|
    ensures LoadedTo(chunks, j, tick)
         == if j < |chunks| && Concat(chunks)[Start(chunks, j) - 1].key <= tick then j + 1 else j
  {
  }

  /** Without any chunk there is nothing to show. */
  lemma NothingShown<A>(s: Stream<A>, chunks: seq<seq<Entry<A>>>, tick: nat)
    requires Reads(s, chunks) && chunks == []
    ensures Checked(s, [], tick) == [] && ShowsTo(chunks, [], tick, 0)
  {
    StartEnds(chunks);
    LoadNothing(s, LowerBound(s.index, tick + 1) - 1, []);
    LoadNothing(s, LowerBound(s.index, 0 + 1), []);
  }

  /** A tick before the whole recording: an empty cache is filled with the first chunk. */
  lemma SeekBeforeStart<A>(s: Stream<A>, chunks: seq<seq<Entry<A>>>, tick: nat)
    requires Reads(s, chunks) && chunks != [] && |s.index| == |chunks|
    requires LowerBound(s.index, tick + 1) == 0
    ensures LoadBefore(s, [], tick) == []
    ensures LoadAfter(s, [], tick) == LoadAfter(s, Stretch(Concat(chunks), 0, Start(chunks, 1)), tick)
  {
    hide Reads, Concat, Start, LoadAt;
    ReadsOrdered(s, chunks);
    IndexKey(s, chunks, 0);
    LowerBoundCuts(s.index, tick + 1, 0);
    LowerBoundCuts(s.index, 1, 0);
    LoadNothing(s, -1, []);
    LoadFirst(s, chunks, 0);
    StartEnds(chunks);
    var cur := Stretch(Concat(chunks), 0, Start(chunks, 1));
    assert Last(cur) == Concat(chunks)[Start(chunks, 1) - 1];
    KeyGap(Concat(chunks), 0, Start(chunks, 1) - 1);
  }

  /** After a seek, that is with an empty cache, the window is correct. */
  lemma SeekShows<A>(s: Stream<A>, chunks: seq<seq<Entry<A>>>, tick: nat) returns (j: nat)
    requires Reads(s, chunks)
    ensures ShowsTo(chunks, Checked(s, [], tick), tick, j)
  {
    hide *;
    ReadsOrdered(s, chunks);
    CheckedIs(s, [], tick);
    if chunks == [] {
      NothingShown(s, chunks, tick);
      j := 0;
    } else {
      var whole, q := Concat(chunks), LowerBound(s.index, tick + 1);
      ChunkOfTick(s, chunks, tick);
      UpToIs(whole, tick);
      FromIs(whole, tick);
      StartEnds(chunks);
      if q == 0 {
        StartGrows(s, chunks, 0);
        SeekBeforeStart(s, chunks, tick);
        LoadedReaches(s, chunks, 1, tick);
        LoadAndTrim(s, chunks, 0, 1, tick);
        j := LoadedTo(chunks, 1, tick);
      } else {
        StartGrows(s, chunks, q - 1);
        LoadFirst(s, chunks, q - 1);
        LoadBeforeEmpty(s, tick);
        LoadedReaches(s, chunks, q, tick);
        LoadAndTrim(s, chunks, Start(chunks, q - 1), q, tick);
        j := LoadedTo(chunks, q, tick);
      }
    }
  }

  lemma LoadBeforeEmpty<A>(s: Stream<A>, tick: nat)
    ensures LoadBefore(s, [], tick) == LoadAt(s, LowerBound(s.index, tick + 1) - 1, [])
  {
  }

  lemma UpToIs<A>(whole: seq<Entry<A>>, tick: nat)
    ensures UpTo(whole, tick) == LowerBound(whole, tick + 1) <= |whole|
  {
  }

  lemma UpToMonotone<A>(whole: seq<Entry<A>>, tick: nat, later: nat)
    requires Increasing(whole) && tick <= later
    ensures UpTo(whole, tick) <= UpTo(whole, later) <= UpTo(whole, tick) + (later - tick)
  {
    hide Increasing, LowerBound;
    var p, q := UpTo(whole, tick), UpTo(whole, later);
    if q < p {
      LowerBoundCuts(whole, tick + 1, q);
      LowerBoundCuts(whole, later + 1, q);
    }
    if p < q {
      LowerBoundCuts(whole, tick + 1, p);
      LowerBoundCuts(whole, later + 1, q - 1);
      KeyGap(whole, p, q - 1);
    }
  }

  /** A cache that shows some tick is not empty, unless nothing was recorded. */
  lemma ShownStretch<A>(s: Stream<A>, chunks: seq<seq<Entry<A>>>, cur: seq<Entry<A>>, tick: nat, j: nat)
    requires Reads(s, chunks) && ShowsTo(chunks, cur, tick, j) && chunks != []
    ensures 0 < j <= |chunks| == |s.index|
    ensures From(Concat(chunks), tick) < Start(chunks, j) <= |Concat(chunks)|
    ensures cur != [] && cur[0] == Concat(chunks)[From(Concat(chunks), tick)]
  {
    hide *;
    ReadsOrdered(s, chunks);
    StartEnds(chunks);
    StartGrows(s, chunks, 0);
    StartMonotone(chunks, 1, |chunks|);
    UpToIs(Concat(chunks), tick);
    FromIs(Concat(chunks), tick);
    ShowsToMeans(chunks, cur, tick, j);
    StretchStarts(Concat(chunks), From(Concat(chunks), tick), Start(chunks, j));
  }

  lemma ShowsToMeans<A>(chunks: seq<seq<Entry<A>>>, cur: seq<Entry<A>>, tick: nat, j: nat)
    requires ShowsTo(chunks, cur, tick, j)
    ensures var whole := Concat(chunks);
            && j <= |chunks| && Start(chunks, j) <= |whole|
            && cur == Stretch(whole, From(whole, tick), Start(chunks, j))
            && (Start(chunks, j) == |whole| || UpTo(whole, tick) < Start(chunks, j))
  {
  }

  lemma StretchStarts<A>(whole: seq<A>, a: nat, b: nat)
    requires a < b <= |whole|
    ensures Stretch(whole, a, b) != [] && Stretch(whole, a, b)[0] == whole[a]
  {
  }

  /** The clock moves forward without clearing the cache. The window at the later tick is correct
      exactly if, after loading at most the next chunk, the cache reaches beyond the tick or to the
      end of the recording; otherwise the jump was longer than one chunk and entries are missed. */
  lemma AdvanceShows<A>(s: Stream<A>, chunks: seq<seq<Entry<A>>>, cur: seq<Entry<A>>, tick: nat, j: nat, later: nat)
    requires Reads(s, chunks) && ShowsTo(chunks, cur, tick, j) && tick <= later
    ensures var whole, j' := Concat(chunks), LoadedTo(chunks, j, later);
            var enough := Reaches(whole, UpTo(whole, later), Start(chunks, j'));
            && (Shows(whole, Checked(s, cur, later), later) <==> enough)
            && (enough ==> ShowsTo(chunks, Checked(s, cur, later), later, j'))
  {
    ReadsOrdered(s, chunks);
    if chunks == [] {
      NothingShown(s, chunks, later);
      StartEnds(chunks);
    } else {
      KeptForward(s, chunks, cur, tick, j, later);
      var whole := Concat(chunks);
      assert cur == Stretch(whole, From(whole, tick), Start(chunks, j));
      hide *;
      LoadAndTrim(s, chunks, From(whole, tick), j, later);
      CheckedIs(s, cur, later);
    }
  }

  lemma CheckedIs<A>(s: Stream<A>, cur: seq<Entry<A>>, tick: nat)
    ensures Checked(s, cur, tick) == Trimmed(LoadAfter(s, LoadBefore(s, cur, tick), tick), tick)
  {
  }

  /** Moving forward needs no earlier chunk. */
  lemma KeptForward<A>(s: Stream<A>, chunks: seq<seq<Entry<A>>>, cur: seq<Entry<A>>, tick: nat, j: nat, later: nat)
    requires Reads(s, chunks) && ShowsTo(chunks, cur, tick, j) && tick <= later && chunks != []
    ensures 0 < j <= |chunks| == |s.index|
    ensures From(Concat(chunks), tick) < Start(chunks, j) <= |Concat(chunks)|
    ensures From(Concat(chunks), tick) <= From(Concat(chunks), later)
    ensures LoadBefore(s, cur, later) == cur
  {
    hide *;
    ReadsOrdered(s, chunks);
    ShownStretch(s, chunks, cur, tick, j);
    ChunkOfTick(s, chunks, later);
    var whole, a := Concat(chunks), From(Concat(chunks), tick);
    UpToMonotone(whole, tick, later);
    FromIs(whole, tick);
    FromIs(whole, later);
    UpToIs(whole, tick);
    UpToIs(whole, later);
    LowerBoundCuts(whole, later + 1, a);
    LoadBeforeIs(s, cur, later);
    if cur[0].key > later { LoadNothing(s, LowerBound(s.index, later + 1) - 1, cur); }
  }

  /** Playback: one tick after a correct window the window is correct again. */
  lemma NextTickShows<A>(s: Stream<A>, chunks: seq<seq<Entry<A>>>, cur: seq<Entry<A>>, tick: nat, j: nat)
    requires Reads(s, chunks) && ShowsTo(chunks, cur, tick, j)
    ensures j <= |chunks|
    ensures ShowsTo(chunks, Checked(s, cur, tick + 1), tick + 1, LoadedTo(chunks, j, tick + 1))
  {
    ReadsOrdered(s, chunks);
    AdvanceShows(s, chunks, cur, tick, j, tick + 1);
    StartEnds(chunks);
    UpToMonotone(Concat(chunks), tick, tick + 1);
    if chunks != [] {
      ShownStretch(s, chunks, cur, tick, j);
      LoadedReaches(s, chunks, j, tick + 1);
    }
  }

  /** What the position of the cache says about an earlier tick. */
  lemma CacheAndEarlierTick<A>(s: Stream<A>, chunks: seq<seq<Entry<A>>>, cur: seq<Entry<A>>, tick: nat, j: nat,
                               earlier: nat)
    requires Reads(s, chunks) && ShowsTo(chunks, cur, tick, j) && earlier <= tick && chunks != []
    ensures 0 < j <= |chunks| == |s.index|
    ensures var whole, a, q := Concat(chunks), From(Concat(chunks), tick), LowerBound(s.index, earlier + 1);
            && a < Start(chunks, j) <= |whole|
            && cur == Stretch(whole, a, Start(chunks, j))
            && cur != [] && cur[0] == whole[a]
            && UpTo(whole, earlier) <= UpTo(whole, tick) <= Start(chunks, j)
            && UpTo(whole, earlier) <= Start(chunks, q)
            && (q > 0 ==> Start(chunks, q - 1) < UpTo(whole, earlier))
            && (cur[0].key <= earlier <==> a < UpTo(whole, earlier))
  {
    ReadsOrdered(s, chunks);
    ShownStretch(s, chunks, cur, tick, j);
    ChunkOfTick(s, chunks, earlier);
    var whole, a := Concat(chunks), From(Concat(chunks), tick);
    UpToMonotone(whole, earlier, tick);
    LowerBoundCuts(whole, earlier + 1, a);
  }

  /** The chunk of an earlier tick joins the cached stretch if there is no hole in between. */
  lemma LoadBeforeBack<A>(s: Stream<A>, chunks: seq<seq<Entry<A>>>, cur: seq<Entry<A>>, tick: nat, j: nat, earlier: nat)
    returns (from: nat)
    requires Reads(s, chunks) && ShowsTo(chunks, cur, tick, j) && earlier <= tick && chunks != []
    requires |s.index| == |chunks|
    requires From(Concat(chunks), tick) <= Start(chunks, LowerBound(s.index, earlier + 1))
    ensures from <= From(Concat(chunks), earlier) && from < Start(chunks, j)
    ensures LoadBefore(s, cur, earlier) == Stretch(Concat(chunks), from, Start(chunks, j))
  {
    hide *;
    CacheAndEarlierTick(s, chunks, cur, tick, j, earlier);
    StartEnds(chunks);
    var whole, a, q := Concat(chunks), From(Concat(chunks), tick), LowerBound(s.index, earlier + 1);
    FromIs(whole, earlier);
    LoadBeforeIs(s, cur, earlier);
    if cur[0].key <= earlier || q == 0 {
      if q == 0 { LoadNothing(s, -1, cur); }
      from := a;
    } else {
      if j <= q - 1 { StartMonotone(chunks, j, q - 1); }
      StartMonotone(chunks, q, j);
      from := Start(chunks, q - 1);
      LoadChunk(s, chunks, q - 1, a, Start(chunks, j));
      MinMaxOf(a, from, Start(chunks, j), Start(chunks, q));
    }
  }

  lemma LoadBeforeIs<A>(s: Stream<A>, cur: seq<Entry<A>>, tick: nat)
    requires cur != []
    ensures LoadBefore(s, cur, tick)
         == if cur[0].key > tick then LoadAt(s, LowerBound(s.index, tick + 1) - 1, cur) else cur
  {
    hide LoadAt, LowerBound;
  }

  lemma MinMaxOf(a: nat, b: nat, c: nat, d: nat)
    requires b <= a && d <= c
    ensures Min(a, b) == b && Max(c, d) == c
  {
  }

  lemma BackKeeps<A>(s: Stream<A>, chunks: seq<seq<Entry<A>>>, cur: seq<Entry<A>>, tick: nat, j: nat, earlier: nat)
    requires Reads(s, chunks) && ShowsTo(chunks, cur, tick, j) && earlier <= tick && chunks != []
    requires |s.index| == |chunks|
    requires From(Concat(chunks), tick) <= Start(chunks, LowerBound(s.index, earlier + 1))
    ensures j <= |chunks|
    ensures ShowsTo(chunks, Checked(s, cur, earlier), earlier, LoadedTo(chunks, j, earlier))
  {
    hide *;
    CacheAndEarlierTick(s, chunks, cur, tick, j, earlier);
    var from := LoadBeforeBack(s, chunks, cur, tick, j, earlier);
    LoadedReaches(s, chunks, j, earlier);
    LoadAndTrim(s, chunks, from, j, earlier);
    CheckedIs(s, cur, earlier);
  }

  /** Before the first chunk nothing is loaded, and the cached stretch starts too late. */
  lemma {:induction false} HoleBeforeFirst<A>(s: Stream<A>, whole: seq<Entry<A>>, a: nat, b: nat, earlier: nat)
    requires Increasing(whole) && 0 < a < b <= |whole| && whole[a].key > earlier
    requires UpTo(whole, earlier) == 0 && LowerBound(s.index, earlier + 1) == 0
    ensures !Shows(whole, Checked(s, whole[a..b], earlier), earlier)
  {
    hide *;
    var cur := whole[a..b];
    CheckedIs(s, cur, earlier);
    LoadBeforeIs(s, cur, earlier);
    LoadNothing(s, -1, cur);
    HoleShows(whole, 0, 0, a, b, earlier);
    assert whole[0..0] + whole[a..b] == cur;
    LoadAfterIs(s, cur, earlier);
  }

  /** The chunk that is loaded does not reach the cached stretch. */
  lemma {:induction false} HoleAfterChunk<A>(s: Stream<A>, chunks: seq<seq<Entry<A>>>, q: nat, a: nat, b: nat,
                                             earlier: nat)
    requires Reads(s, chunks) && |s.index| == |chunks| && 0 < q == LowerBound(s.index, earlier + 1) <= |chunks|
    requires Start(chunks, q) < a < b <= |Concat(chunks)| && Concat(chunks)[a].key > earlier
    requires Start(chunks, q - 1) < UpTo(Concat(chunks), earlier) <= Start(chunks, q)
    ensures !Shows(Concat(chunks), Checked(s, Concat(chunks)[a..b], earlier), earlier)
  {
    hide *;
    ReadsOrdered(s, chunks);
    var whole, k, l := Concat(chunks), Start(chunks, q - 1), Start(chunks, q);
    var cur := whole[a..b];
    CheckedIs(s, cur, earlier);
    LoadBeforeIs(s, cur, earlier);
    LoadReads(s, chunks, q - 1, cur);
    ChunkIsSlice(chunks, q - 1);
    HoleIncreasing(whole, k, l, a, b);
    AppendOlder(cur, chunks[q - 1]);
    HoleShows(whole, k, l, a, b, earlier);
    LoadAfterIs(s, Append(cur, chunks[q - 1]), earlier);
  }

  lemma {:induction false} BackLeavesHole<A>(s: Stream<A>, chunks: seq<seq<Entry<A>>>, cur: seq<Entry<A>>, tick: nat,
                                             j: nat, earlier: nat)
    requires Reads(s, chunks) && ShowsTo(chunks, cur, tick, j) && earlier <= tick && chunks != []
    requires |s.index| == |chunks|
    requires From(Concat(chunks), tick) > Start(chunks, LowerBound(s.index, earlier + 1))
    ensures !Shows(Concat(chunks), Checked(s, cur, earlier), earlier)
  {
    hide *;
    CacheAndEarlierTick(s, chunks, cur, tick, j, earlier);
    ReadsOrdered(s, chunks);
    StartEnds(chunks);
    var whole, a, q := Concat(chunks), From(Concat(chunks), tick), LowerBound(s.index, earlier + 1);
    StretchIs(whole, a, Start(chunks, j));
    if q == 0 {
      HoleBeforeFirst(s, whole, a, Start(chunks, j), earlier);
    } else {
      HoleAfterChunk(s, chunks, q, a, Start(chunks, j), earlier);
    }
  }

  lemma StretchIs<A>(whole: seq<A>, a: nat, b: nat)
    requires a <= b <= |whole|
    ensures Stretch(whole, a, b) == whole[a..b]
  {
  }

  lemma LoadAfterIs<A>(s: Stream<A>, cur: seq<Entry<A>>, tick: nat)
    requires cur != [] && Last(cur).key > tick
    ensures LoadAfter(s, cur, tick) == cur
  {
  }

  /** Two stretches with a hole between them, the first holding the last entry up to the tick. */
  lemma HoleShows<A>(whole: seq<Entry<A>>, k: nat, l: nat, a: nat, b: nat, tick: nat)
    requires Increasing(whole) && k <= l < a < b <= |whole|
    requires (k == l == 0 && UpTo(whole, tick) == 0) || k < UpTo(whole, tick) <= l
    ensures var cur := whole[k..l] + whole[a..b];
            && cur != [] && Last(cur).key > tick
            && !Shows(whole, Trimmed(cur, tick), tick)
  {
    hide *;
    var p, cur := UpTo(whole, tick), whole[k..l] + whole[a..b];
    HoleUpTo(whole, k, l, a, b, tick);
    FromIs(whole, tick);
    KeyGap(whole, l, a);
    UpToEnd(whole, tick, b);
    var cut: nat := if p > k then p - k - 1 else 0;
    var t: nat := l - From(whole, tick);
    HoleEntry(whole, k, l, a, b, cut, t);
    TrimmedIs(cur, tick, cut);
    DiffersFromWhole(whole, Trimmed(cur, tick), tick, t);
  }

  lemma UpToEnd<A>(whole: seq<Entry<A>>, tick: nat, b: nat)
    requires Increasing(whole) && UpTo(whole, tick) < b <= |whole|
    ensures whole[b - 1].key > tick
  {
    LowerBoundCuts(whole, tick + 1, b - 1);
  }

  lemma TrimmedIs<A>(cur: seq<Entry<A>>, tick: nat, cut: nat)
    requires LowerBound(cur, tick + 1) == cut + 1 || LowerBound(cur, tick + 1) == cut == 0
    ensures cut <= |cur| && Trimmed(cur, tick) == cur[cut..]
  {
  }

  lemma HoleEntry<A>(whole: seq<Entry<A>>, k: nat, l: nat, a: nat, b: nat, cut: nat, t: nat)
    requires k <= l < a < b <= |whole| && cut + t == l - k
    ensures var cur := whole[k..l] + whole[a..b];
            cut + t < |cur| && Last(cur) == whole[b - 1] && cur[cut..][t] == whole[a]
  {
  }

  lemma DiffersFromWhole<A>(whole: seq<Entry<A>>, cur: seq<Entry<A>>, tick: nat, t: nat)
    requires t < |cur| && From(whole, tick) + t < |whole| && cur[t] != whole[From(whole, tick) + t]
    ensures !Shows(whole, cur, tick)
  {
  }

  lemma HoleIncreasing<A>(whole: seq<Entry<A>>, k: nat, l: nat, a: nat, b: nat)
    requires Increasing(whole) && k <= l < a < b <= |whole|
    ensures Increasing(whole[k..l] + whole[a..b])
  {
    hide Increasing;
    IncreasingSlice(whole, k, l);
    IncreasingSlice(whole, a, b);
    IncreasingConcat(whole[k..l], whole[a..b]);
    if k < l { KeyGap(whole, l - 1, a); }
  }

  lemma HoleUpTo<A>(whole: seq<Entry<A>>, k: nat, l: nat, a: nat, b: nat, tick: nat)
    requires Increasing(whole) && k <= l < a < b <= |whole|
    requires k <= UpTo(whole, tick) <= l
    ensures LowerBound(whole[k..l] + whole[a..b], tick + 1) == UpTo(whole, tick) - k
  {
    var p := UpTo(whole, tick);
    hide *;
    UpToIs(whole, tick);
    HoleIncreasing(whole, k, l, a, b);
    var n := p - k;
    var cur := whole[k..l] + whole[a..b];
    if n > 0 {
      HoleAt(whole, k, l, a, b, n - 1);
      LowerBoundCuts(whole, tick + 1, p - 1);
      LowerBoundCuts(cur, tick + 1, n - 1);
    }
    HoleAt(whole, k, l, a, b, n);
    LowerBoundCuts(whole, tick + 1, if p < l then p else a);
    LowerBoundCuts(cur, tick + 1, n);
  }

  lemma HoleAt<A>(whole: seq<A>, k: nat, l: nat, a: nat, b: nat, i: nat)
    requires k <= l < a < b <= |whole| && i <= l - k
    ensures var cur := whole[k..l] + whole[a..b];
            i < |cur| && cur[i] == whole[if i < l - k then k + i else a]
  {
  }

  /** The clock moves back without clearing the cache (a single step back does that): the window is
      correct exactly if the cache starts no later than the chunk after the one holding the tick. */
  lemma BackShows<A>(s: Stream<A>, chunks: seq<seq<Entry<A>>>, cur: seq<Entry<A>>, tick: nat, j: nat, earlier: nat)
    requires Reads(s, chunks) && ShowsTo(chunks, cur, tick, j) && earlier <= tick
    ensures |s.index| == |chunks| && j <= |chunks|
    ensures var enough := From(Concat(chunks), tick) <= Start(chunks, LowerBound(s.index, earlier + 1));
            && (Shows(Concat(chunks), Checked(s, cur, earlier), earlier) <==> enough)
            && (enough ==> ShowsTo(chunks, Checked(s, cur, earlier), earlier, LoadedTo(chunks, j, earlier)))
  {
    ReadsOrdered(s, chunks);
    StartEnds(chunks);
    if chunks == [] {
      NothingShown(s, chunks, earlier);
    } else if From(Concat(chunks), tick) <= Start(chunks, LowerBound(s.index, earlier + 1)) {
      BackKeeps(s, chunks, cur, tick, j, earlier);
      ShowsToShows(chunks, Checked(s, cur, earlier), earlier, LoadedTo(chunks, j, earlier));
    } else {
      BackLeavesHole(s, chunks, cur, tick, j, earlier);
    }
  }

  /** A single step back never leaves a hole, and playback can go on from there. */
  lemma StepBackShows<A>(s: Stream<A>, chunks: seq<seq<Entry<A>>>, cur: seq<Entry<A>>, tick: nat, j: nat)
    requires Reads(s, chunks) && ShowsTo(chunks, cur, tick, j) && tick > 0
    ensures j <= |chunks|
    ensures ShowsTo(chunks, Checked(s, cur, tick - 1), tick - 1, LoadedTo(chunks, j, tick - 1))
  {
    hide *;
    ReadsOrdered(s, chunks);
    UpToMonotone(Concat(chunks), tick - 1, tick);
    FromIs(Concat(chunks), tick);
    StartEnds(chunks);
    ChunkOfTick(s, chunks, tick - 1);
    UpToIs(Concat(chunks), tick - 1);
    BackShows(s, chunks, cur, tick, j, tick - 1);
  }

  /** Looking at the same tick again changes nothing about the window. */
  lemma SameTickShows<A>(s: Stream<A>, chunks: seq<seq<Entry<A>>>, cur: seq<Entry<A>>, tick: nat, j: nat)
    requires Reads(s, chunks) && ShowsTo(chunks, cur, tick, j)
    ensures j <= |chunks|
    ensures ShowsTo(chunks, Checked(s, cur, tick), tick, LoadedTo(chunks, j, tick))
  {
    hide *;
    ShowsToMeans(chunks, cur, tick, j);
    ReadsOrdered(s, chunks);
    StartEnds(chunks);
    UpToIs(Concat(chunks), tick);
    AdvanceShows(s, chunks, cur, tick, j, tick);
    if chunks != [] {
      ShownStretch(s, chunks, cur, tick, j);
      LoadedReaches(s, chunks, j, tick);
    } else {
      ReachesIs(Concat(chunks), UpTo(Concat(chunks), tick), Start(chunks, LoadedTo(chunks, j, tick)));
    }
  }
}
