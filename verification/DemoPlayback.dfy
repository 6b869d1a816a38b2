/**
 Playing a demo (`DemoViewerImpl`, game/client-demo/src/lib.rs): seeks that clear the cache and steps of
 one tick in either direction that do not, each followed by a look at the window. Over any run of them
 the window agrees with the whole recording.
 */
module DemoPlayback {
  import opened OrderedMaps
  import opened DemoTypes
  import opened DemoTime
  import opened DemoViewer

  datatype Move = SeekTo(time: nat) | ForwardStep | BackwardStep

  /** The playback time after a run of moves; a step is as long as one tick. */
  function TimeAfter(moves: seq<Move>, nanosPerTick: nat): nat {
    if moves == [] then 0
    else
      var time := TimeAfter(Init(moves), nanosPerTick);
      match Last(moves)
      case SeekTo(t) => t
      case ForwardStep => time + nanosPerTick
      case BackwardStep => SaturatingSub(time, nanosPerTick)
  }

  /** The tick that is shown after a run of moves. */
  function TickAfter(moves: seq<Move>, firstSnapshot: nat, ticksPerSecond: nat): nat
    requires 0 < ticksPerSecond <= NANOS_PER_SEC
  {
    TimeToTick(TimeAfter(moves, NanosPerTick(ticksPerSecond)), firstSnapshot, ticksPerSecond)
  }

  /** The cache after a run of moves, when the window was checked after each of them. */
  function CacheAfter<A>(s: Stream<A>, moves: seq<Move>, firstSnapshot: nat, ticksPerSecond: nat): seq<Entry<A>>
    requires 0 < ticksPerSecond <= NANOS_PER_SEC
  {
    var tick := TickAfter(moves, firstSnapshot, ticksPerSecond);
    if moves == [] || Last(moves).SeekTo? then Checked(s, [], tick)
    else Checked(s, CacheAfter(s, Init(moves), firstSnapshot, ticksPerSecond), tick)
  }

  /** No tick count on the way exceeds 64 bits. */
  ghost predicate InTime(moves: seq<Move>, ticksPerSecond: nat)
    requires 0 < ticksPerSecond <= NANOS_PER_SEC
  {
    var n := NanosPerTick(ticksPerSecond);
    TimeAfter(moves, n) / n <= MAX_U64 && (moves == [] || InTime(Init(moves), ticksPerSecond))
  }

  lemma TickIs(time: nat, firstSnapshot: nat, ticksPerSecond: nat)
    requires 0 < ticksPerSecond <= NANOS_PER_SEC && time / NanosPerTick(ticksPerSecond) <= MAX_U64
    ensures TimeToTick(time, firstSnapshot, ticksPerSecond) == time / NanosPerTick(ticksPerSecond) + firstSnapshot
  {
  }

  /** A step forward is one tick, a step back is one tick or stays before the first. */
  lemma {:induction false} StepIsOneTick(time: nat, firstSnapshot: nat, ticksPerSecond: nat)
    requires 0 < ticksPerSecond <= NANOS_PER_SEC
    requires time / NanosPerTick(ticksPerSecond) <= MAX_U64
    ensures var n, tick := NanosPerTick(ticksPerSecond), TimeToTick(time, firstSnapshot, ticksPerSecond);
            && ((time + n) / n <= MAX_U64 ==> TimeToTick(time + n, firstSnapshot, ticksPerSecond) == tick + 1)
            && TimeToTick(SaturatingSub(time, n), firstSnapshot, ticksPerSecond)
               == (if time < n then firstSnapshot else tick - 1)
            && (time < n ==> tick == firstSnapshot) && (time >= n ==> tick > 0)
  {
    var n := NanosPerTick(ticksPerSecond);
    TickIs(time, firstSnapshot, ticksPerSecond);
    SmallQuotient(time, n);
    NextQuotient(time, n);
    SmallQuotient(0, n);
    if time >= n { NextQuotient(time - n, n); }
    hide TimeToTick, NanosPerTick;
    if (time + n) / n <= MAX_U64 { TickIs(time + n, firstSnapshot, ticksPerSecond); }
    TickIs(SaturatingSub(time, n), firstSnapshot, ticksPerSecond);
  }

  lemma TimeAfterStep(moves: seq<Move>, move: Move, n: nat)
    ensures TimeAfter([], n) == 0
    ensures var time := TimeAfter(moves, n);
            TimeAfter(moves + [move], n) == match move
                                            case SeekTo(t) => t
                                            case ForwardStep => time + n
                                            case BackwardStep => SaturatingSub(time, n)
  {
    assert Init(moves + [move]) == moves;
  }

  lemma InTimeStep(moves: seq<Move>, move: Move, ticksPerSecond: nat)
    requires 0 < ticksPerSecond <= NANOS_PER_SEC && InTime(moves + [move], ticksPerSecond)
    ensures var n := NanosPerTick(ticksPerSecond);
            TimeAfter(moves, n) / n <= MAX_U64 && TimeAfter(moves + [move], n) / n <= MAX_U64
  {
    hide TimeAfter;
    assert Init(moves + [move]) == moves;
  }

  /** What a move does to the tick that is shown: a seek goes to the tick of its time, a step forward is one
      tick, and a step back is one tick or stays on the first. */
  lemma {:induction false} MoveShows(moves: seq<Move>, move: Move, firstSnapshot: nat, ticksPerSecond: nat)
    requires 0 < ticksPerSecond <= NANOS_PER_SEC && InTime(moves + [move], ticksPerSecond)
    ensures var last := TickAfter(moves, firstSnapshot, ticksPerSecond);
            TickAfter(moves + [move], firstSnapshot, ticksPerSecond)
            == match move
               case SeekTo(time) => time / NanosPerTick(ticksPerSecond) + firstSnapshot
               case ForwardStep => last + 1
               case BackwardStep => if last > firstSnapshot then last - 1 else firstSnapshot
    ensures TickAfter([], firstSnapshot, ticksPerSecond) == firstSnapshot
  {
    var n := NanosPerTick(ticksPerSecond);
    var time := TimeAfter(moves, n);
    TimeAfterStep(moves, move, n);
    InTimeStep(moves, move, ticksPerSecond);
    hide TimeAfter, InTime, TimeToTick;
    TickIs(0, firstSnapshot, ticksPerSecond);
    TickIs(time, firstSnapshot, ticksPerSecond);
    TickIs(TimeAfter(moves + [move], n), firstSnapshot, ticksPerSecond);
    SmallQuotient(0, n);
    SmallQuotient(time, n);
    StepIsOneTick(time, firstSnapshot, ticksPerSecond);
  }

  /** After any run of seeks and single steps the window is one stretch of the recording without a hole
      around the tick that is shown. */
  lemma {:induction false} PlaybackShows<A>(s: Stream<A>, chunks: seq<seq<Entry<A>>>, moves: seq<Move>,
                                            firstSnapshot: nat, ticksPerSecond: nat) returns (j: nat)
    requires Reads(s, chunks) && 0 < ticksPerSecond <= NANOS_PER_SEC && InTime(moves, ticksPerSecond)
    ensures ShowsTo(chunks, CacheAfter(s, moves, firstSnapshot, ticksPerSecond),
                    TickAfter(moves, firstSnapshot, ticksPerSecond), j)
    ensures Shows(Concat(chunks), CacheAfter(s, moves, firstSnapshot, ticksPerSecond),
                  TickAfter(moves, firstSnapshot, ticksPerSecond))
    decreases |moves|
  {
    hide Reads, ShowsTo, Shows, Checked, TimeToTick, NanosPerTick, LoadedTo;
    var tick := TickAfter(moves, firstSnapshot, ticksPerSecond);
    if moves == [] || Last(moves).SeekTo? {
      j := SeekShows(s, chunks, tick);
    } else {
      var before := Init(moves);
      j := PlaybackShows(s, chunks, before, firstSnapshot, ticksPerSecond);
      StepIsOneTick(TimeAfter(before, NanosPerTick(ticksPerSecond)), firstSnapshot, ticksPerSecond);
      var cur := CacheAfter(s, before, firstSnapshot, ticksPerSecond);
      var last := TickAfter(before, firstSnapshot, ticksPerSecond);
      if tick == last {
        SameTickShows(s, chunks, cur, last, j);
      } else if tick == last + 1 {
        NextTickShows(s, chunks, cur, last, j);
      } else {
        StepBackShows(s, chunks, cur, last, j);
      }
      j := LoadedTo(chunks, j, tick);
    }
    ShowsToShows(chunks, CacheAfter(s, moves, firstSnapshot, ticksPerSecond), tick, j);
  }

  // ---------------------------------------------------------------- what is rendered

  /** The snapshots a frame is rendered from, and the time into the bracket between them. */
  datatype RenderInput<+A> = RenderInput(prev: Entry<A>, next: Entry<A>, intraTickTime: Option<nat>)

  lemma {:induction false} LastUpToExists<A>(whole: seq<Entry<A>>, tick: nat) returns (i: nat)
    requires Increasing(whole) && whole != [] && whole[0].key <= tick
    ensures IsLastUpTo(whole, i, tick) && UpTo(whole, tick) == i + 1
  {
    LowerBoundCuts(whole, tick + 1, 0);
    i := UpTo(whole, tick) - 1;
    LowerBoundCuts(whole, tick + 1, i);
    if i + 1 < |whole| { LowerBoundCuts(whole, tick + 1, i + 1); }
  }

  /** The frame is rendered from entry `i` and the one after it; the intra-tick time is zero behind the last
      entry, else the time since entry `i` as a share of the bracket, below one tick. */
  ghost predicate RendersBracket<A>(whole: seq<Entry<A>>, i: nat, time: nat, nanosPerTick: nat, r: RenderInput<A>)
    requires i < |whole|
  {
    && r.prev == whole[i]
    && if i + 1 == |whole| then r.next == whole[i] && r.intraTickTime == Some(0)
       else
         && r.next == whole[i + 1] && whole[0].key <= whole[i].key < whole[i + 1].key
         && (whole[i + 1].key - whole[i].key < 0x1_0000_0000 ==>
               var start := Times(whole[i].key - whole[0].key, nanosPerTick);
               && start <= time
               && r.intraTickTime == Some(Quotient(time - start, whole[i + 1].key - whole[i].key))
               && r.intraTickTime.value < nanosPerTick)
  }

  /** The clock can be turned into a tick that has a next one. */
  ghost predicate ClockFits(time: nat, firstSnapshot: nat, ticksPerSecond: nat)
    requires 0 < ticksPerSecond <= NANOS_PER_SEC
  {
    time / NanosPerTick(ticksPerSecond) + firstSnapshot < MAX_U64
  }

  lemma {:induction false} ClockFitsMeans(time: nat, firstSnapshot: nat, ticksPerSecond: nat)
    requires 0 < ticksPerSecond <= NANOS_PER_SEC && ClockFits(time, firstSnapshot, ticksPerSecond)
    ensures time / NanosPerTick(ticksPerSecond) <= MAX_U64
    ensures firstSnapshot <= TimeToTick(time, firstSnapshot, ticksPerSecond) < MAX_U64
  {
    TickIs(time, firstSnapshot, ticksPerSecond);
    hide TimeToTick;
  }

  lemma {:induction false} BracketTime<A>(whole: seq<Entry<A>>, time: nat, i: nat, next: nat, ticksPerSecond: nat,
                                          r: RenderInput<A>)
    requires Increasing(whole) && whole != [] && 0 < ticksPerSecond <= NANOS_PER_SEC
    requires ClockFits(time, whole[0].key, ticksPerSecond)
    requires var tick := TimeToTick(time, whole[0].key, ticksPerSecond);
             && IsLastUpTo(whole, i, tick) && next == (if i + 1 < |whole| then i + 1 else i)
             && whole[i].key <= whole[next].key && r.prev == whole[i] && r.next == whole[next]
             && r.intraTickTime == IntraTickTime(time, tick, whole[i].key, whole[next].key, ticksPerSecond)
    ensures RendersBracket(whole, i, time, NanosPerTick(ticksPerSecond), r)
  {
    hide IntraTickTime, TimeToTick, NanosPerTick, Times, Quotient;
    KeyGap(whole, 0, i);
    ClockFitsMeans(time, whole[0].key, ticksPerSecond);
    if i + 1 == |whole| {
      IntraTickValue(time, TimeToTick(time, whole[0].key, ticksPerSecond), whole[i].key, whole[i].key, ticksPerSecond);
    } else if whole[i + 1].key - whole[i].key < 0x1_0000_0000 {
      IntraTickIsLinear(time, whole[0].key, whole[i].key, whole[i + 1].key, ticksPerSecond);
    }
  }

  lemma WindowOfNothing<A>(cur: seq<Entry<A>>, tick: nat)
    requires Shows([], cur, tick)
    ensures cur == []
  {
  }

  /** `prepare_render_input`: the first two entries of the window are rendered, or the first one twice. With
      a correct window these are the recorded snapshots around the playback clock. */
  method PrepareRenderInput<A>(s: Stream<A>, curSnapshots: seq<Entry<A>>, time: nat, firstSnapshot: nat,
                               ticksPerSecond: nat, ghost whole: seq<Entry<A>>)
    returns (cur: seq<Entry<A>>, r: Option<RenderInput<A>>, ghost i: nat)
    requires 0 < ticksPerSecond <= NANOS_PER_SEC && Increasing(whole)
    requires ClockFits(time, firstSnapshot, ticksPerSecond)
    requires whole != [] ==> firstSnapshot == whole[0].key
    requires var tick := TimeToTick(time, firstSnapshot, ticksPerSecond);
             Shows(whole, Checked(s, curSnapshots, tick), tick)
    ensures cur == Checked(s, curSnapshots, TimeToTick(time, firstSnapshot, ticksPerSecond))
    ensures r.None? <==> whole == []
    ensures whole != [] ==> && IsLastUpTo(whole, i, TimeToTick(time, firstSnapshot, ticksPerSecond))
                            && RendersBracket(whole, i, time, NanosPerTick(ticksPerSecond), r.value)
  {
    hide *;
    ClockFitsMeans(time, firstSnapshot, ticksPerSecond);
    var tick := TimeToTick(time, firstSnapshot, ticksPerSecond);
    cur := CheckChunks(s, curSnapshots, tick);
    ShowsBracket(whole, cur, tick);
    i := 0;
    if whole == [] { WindowOfNothing(cur, tick); }
    if cur == [] { return cur, None, i; }
    i := LastUpToExists(whole, tick);
    var prev := cur[0];
    var next := if |cur| > 1 then cur[1] else prev;
    r := Some(RenderInput(prev, next, IntraTickTime(time, tick, prev.key, next.key, ticksPerSecond)));
    BracketTime(whole, time, i, if i + 1 < |whole| then i + 1 else i, ticksPerSecond, r.value);
  }
}
