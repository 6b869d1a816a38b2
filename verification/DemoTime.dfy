/**
 Ticks and nanoseconds: the length written into the demo header
 (game/demo/src/recorder.rs) and the playback clock of the viewer
 (game/client-demo/src/lib.rs). All divisions round down.
 */
module DemoTime {
  import opened OrderedMaps
  import opened DemoTypes

  /** A `Duration`, in the two parts it is stored in. */
  datatype Duration = Duration(secs: nat, nanos: nat) {
    function AsNanos(): nat { secs * NANOS_PER_SEC + nanos }
  }

  function NanosPerTick(ticksPerSecond: nat): (n: nat)
    requires ticksPerSecond > 0
    ensures ticksPerSecond <= NANOS_PER_SEC ==> n > 0
  {
    NANOS_PER_SEC / ticksPerSecond
  }

  function Times(a: nat, n: nat): nat { a * n }

  function Quotient(x: nat, d: nat): nat
    requires d > 0
  {
    x / d
  }

  /** The length written into the header of a demo that spans these ticks. */
  function DemoLen(first: nat, last: nat, ticksPerSecond: nat): Duration
    requires first <= last && ticksPerSecond > 0
  {
    var ticks: nat := last - first;
    Duration(ticks / ticksPerSecond, (ticks % ticksPerSecond) * NanosPerTick(ticksPerSecond))
  }

  /** The tick shown at a playback time; `firstSnapshot` is the first key of the snapshot index.
      The quotient is cast to 64 bits. A tick rate above one per nanosecond would divide by zero. */
  function TimeToTick(time: nat, firstSnapshot: nat, ticksPerSecond: nat): nat
    requires 0 < ticksPerSecond <= NANOS_PER_SEC
  {
    (time / NanosPerTick(ticksPerSecond)) % (MAX_U64 + 1) + firstSnapshot
  }

  /** The time into the tick bracket `prev..next`, scaled to one tick. The product of ticks and nanoseconds
      has 64 bits. The bracket width is cast to 32 bits before dividing; a width that is cast to zero makes
      the division panic. */
  function IntraTickTime(time: nat, tick: nat, prev: nat, next: nat, ticksPerSecond: nat): Option<nat>
    requires prev <= next
    requires 0 < ticksPerSecond <= NANOS_PER_SEC
  {
    var clamped := if tick < prev then prev else if tick > next then next else tick;
    var diff: nat := next - prev;
    if diff == 0 then Some(0) else
      var divisor := diff % 0x1_0000_0000;
      if divisor == 0 then None else
        var n := NanosPerTick(ticksPerSecond);
        Some(Quotient(time % n + Times(clamped - prev, n) % (MAX_U64 + 1), divisor))
  }

  // ---------------------------------------------------------------- the header length

  lemma MulDivExact(a: nat, n: nat, b: nat)
    requires n > 0
    ensures (n * a + b) / n == a + b / n
  {
    var q, r := b / n, b % n;
    assert n * a + b == n * (a + q) + r;
    DivUnique(n * (a + q) + r, n, a + q, r);
  }

  /** The nanoseconds of a demo of `ticks` ticks: one tick each, plus what whole seconds lose to
      rounding the tick length down. */
  lemma LenInNanos(ticks: nat, ticksPerSecond: nat)
    requires ticksPerSecond > 0
    ensures var n, lost := NanosPerTick(ticksPerSecond), NANOS_PER_SEC % ticksPerSecond;
            DemoLen(0, ticks, ticksPerSecond).AsNanos() == n * ticks + (ticks / ticksPerSecond) * lost
  {
    var tps, n, lost := ticksPerSecond, NanosPerTick(ticksPerSecond), NANOS_PER_SEC % ticksPerSecond;
    var s, r := ticks / tps, ticks % tps;
    calc {
      s * NANOS_PER_SEC + r * n;
      { assert NANOS_PER_SEC == n * tps + lost; }
      s * (n * tps + lost) + r * n;
      { MulRegroup(s, n, tps, lost, r); }
      n * (tps * s + r) + s * lost;
      { assert ticks == tps * s + r; }
      n * ticks + s * lost;
    }
  }

  lemma MulRegroup(s: nat, n: nat, t: nat, l: nat, r: nat)
    ensures s * (n * t + l) + r * n == n * (t * s + r) + s * l
  {
    calc {
      s * (n * t + l) + r * n;
      s * (n * t) + s * l + r * n;
      { assert s * (n * t) == n * (t * s); }
      n * (t * s) + n * r + s * l;
      n * (t * s + r) + s * l;
    }
  }

  /** The header length is a valid `Duration`: the nanosecond part is below one second. */
  lemma LenIsDuration(first: nat, last: nat, ticksPerSecond: nat)
    requires first <= last && ticksPerSecond > 0
    ensures DemoLen(first, last, ticksPerSecond).nanos < NANOS_PER_SEC
  {
    var tps, n := ticksPerSecond, NanosPerTick(ticksPerSecond);
    var r := (last - first) % tps;
    if n > 0 {
      assert r * n <= (tps - 1) * n by { MulMonotone(r, tps - 1, n); }
      assert (tps - 1) * n == tps * n - n;
      assert tps * n <= NANOS_PER_SEC;
    }
  }

  /** The ticks by which rounding the tick length down makes a demo longer. */
  function Rounding(ticks: nat, ticksPerSecond: nat): nat
    requires 0 < ticksPerSecond <= NANOS_PER_SEC
  {
    Quotient(Times(ticks / ticksPerSecond, NANOS_PER_SEC % ticksPerSecond), NanosPerTick(ticksPerSecond))
  }

  lemma {:induction false} RoundingBound(ticks: nat, ticksPerSecond: nat)
    requires 0 < ticksPerSecond <= NANOS_PER_SEC
    ensures Rounding(ticks, ticksPerSecond) <= ticks
  {
    var tps, n, lost := ticksPerSecond, NanosPerTick(ticksPerSecond), NANOS_PER_SEC % ticksPerSecond;
    var s := ticks / tps;
    var x := s * lost;
    MulMonotone(lost, tps, s);
    assert s * tps <= ticks;
    assert x <= ticks;
    MulMonotone(1, n, x / n);
  }

  /** Where playing to the header length ends, with the 64-bit cast of the tick count: it reaches the last
      tick unless the count wraps around and is not far enough ahead by then. */
  lemma {:induction false} LenReaches(first: nat, last: nat, firstSnapshot: nat, ticksPerSecond: nat)
    requires first <= last && first <= firstSnapshot && last - first <= MAX_U64
    requires 0 < ticksPerSecond <= NANOS_PER_SEC
    ensures var ticks := last - first;
            var ahead := firstSnapshot - first + Rounding(ticks, ticksPerSecond);
            var wrap := if ticks + Rounding(ticks, ticksPerSecond) <= MAX_U64 then 0 else MAX_U64 + 1;
            var end := TimeToTick(DemoLen(first, last, ticksPerSecond).AsNanos(), firstSnapshot, ticksPerSecond);
            && end == last + ahead - wrap
            && (end >= last <==> wrap == 0 || ahead > MAX_U64)
            && (end == last <==> ahead == wrap)
  {
    var n, lost := NanosPerTick(ticksPerSecond), NANOS_PER_SEC % ticksPerSecond;
    var ticks: nat := last - first;
    LenInNanos(ticks, ticksPerSecond);
    MulDivExact(ticks, n, (ticks / ticksPerSecond) * lost);
    RoundingBound(ticks, ticksPerSecond);
  }

  /** Which recordings have length zero, although a zero length is documented (game/demo/src/lib.rs:31-33)
      as the mark of a broken demo: those of a single tick, and with more than one tick per nanosecond
      all that are shorter than a second. */
  lemma {:induction false} ZeroLenIff(first: nat, last: nat, ticksPerSecond: nat)
    requires first <= last && ticksPerSecond > 0
    ensures DemoLen(first, last, ticksPerSecond).AsNanos() == 0
            <==> first == last || (ticksPerSecond > NANOS_PER_SEC && last - first < ticksPerSecond)
  {
    var n, ticks: nat := NanosPerTick(ticksPerSecond), last - first;
    if ticksPerSecond > NANOS_PER_SEC {
      DivUnique(NANOS_PER_SEC, ticksPerSecond, 0, NANOS_PER_SEC);
      if ticks < ticksPerSecond {
        DivUnique(ticks, ticksPerSecond, 0, ticks);
      } else {
        DivAtLeastOne(ticks, ticksPerSecond);
      }
    } else {
      LenInNanos(ticks, ticksPerSecond);
      MulMonotone(1, n, ticks);
      if ticks == 0 { DivUnique(0, ticksPerSecond, 0, 0); }
    }
  }

  // ---------------------------------------------------------------- interpolation

  /** Less than 2^32 ticks in nanoseconds have 64 bits. */
  lemma ProductFits(ticks: nat, n: nat, ticksPerSecond: nat)
    requires ticks < 0x1_0000_0000 && 0 < ticksPerSecond <= NANOS_PER_SEC && n == NanosPerTick(ticksPerSecond)
    ensures Times(ticks, n) % (MAX_U64 + 1) == Times(ticks, n)
  {
    MulMonotone(1, ticksPerSecond, n);
    MulMonotone(ticks, 0xFFFF_FFFF, n);
  }

  /** The intra-tick time in plain arithmetic. Without a later snapshot the bracket is empty and nothing is
      interpolated; a tick outside of a bracket counts as the end of the bracket it is next to. */
  lemma {:induction false} IntraTickValue(time: nat, tick: nat, prev: nat, next: nat, ticksPerSecond: nat)
    requires 0 < ticksPerSecond <= 1_000_000_000 && prev <= next && next - prev < 0x1_0000_0000
    ensures var n := 1_000_000_000 / ticksPerSecond;
            var r := IntraTickTime(time, tick, prev, next, ticksPerSecond);
            && n > 0
            && (prev == next ==> r == Some(0))
            && (prev < next && tick <= prev ==> r == Some((time % n) / (next - prev)))
            && (prev < next && prev <= tick <= next
                ==> r == Some((time % n + (tick - prev) * n) / (next - prev)))
            && (prev < next && next <= tick ==> r == Some(n + (time % n) / (next - prev)))
  {
    var n := NanosPerTick(ticksPerSecond);
    if prev < next {
      var into: nat := if tick < prev then 0 else if tick > next then next - prev else tick - prev;
      ClampedValue(time, tick, prev, next, ticksPerSecond, into);
      hide *;
      QuotientOfSum(time % n, into, n, next - prev);
    }
  }

  lemma {:induction false} ClampedValue(time: nat, tick: nat, prev: nat, next: nat, ticksPerSecond: nat, into: nat)
    requires 0 < ticksPerSecond <= NANOS_PER_SEC && prev < next && next - prev < 0x1_0000_0000
    requires into == if tick < prev then 0 else if tick > next then next - prev else tick - prev
    ensures IntraTickTime(time, tick, prev, next, ticksPerSecond)
         == Some(Quotient(time % NanosPerTick(ticksPerSecond) + Times(into, NanosPerTick(ticksPerSecond)), next - prev))
  {
    ProductFits(into, NanosPerTick(ticksPerSecond), ticksPerSecond);
    hide NanosPerTick, Times, Quotient;
    assert (next - prev) % 0x1_0000_0000 == next - prev;
  }

  lemma {:induction false} QuotientOfSum(x: nat, into: nat, n: nat, d: nat)
    requires d > 0
    ensures Quotient(x + Times(into, n), d) == (x + into * n) / d
    ensures into == 0 ==> Quotient(x + Times(into, n), d) == x / d
    ensures into == d ==> Quotient(x + Times(into, n), d) == n + x / d
  {
    if into == d { MulDivExact(n, d, x); }
  }

  /** Inside a bracket of snapshots the intra-tick time is the distance of the playback clock from
      the start of the previous snapshot's tick, as a fraction of the bracket; it is less than one
      tick. */
  lemma IntraTickIsLinear(time: nat, firstSnapshot: nat, prev: nat, next: nat, ticksPerSecond: nat)
    requires 0 < ticksPerSecond <= NANOS_PER_SEC
    requires time / NanosPerTick(ticksPerSecond) <= MAX_U64
    requires firstSnapshot <= prev <= TimeToTick(time, firstSnapshot, ticksPerSecond) < next
    requires next - prev < 0x1_0000_0000
    ensures var n := NanosPerTick(ticksPerSecond);
            var start := Times(prev - firstSnapshot, n);
            var r := IntraTickTime(time, TimeToTick(time, firstSnapshot, ticksPerSecond), prev, next, ticksPerSecond);
            && start <= time
            && r == Some(Quotient(time - start, next - prev))
            && r.value < n
  {
    var n := NanosPerTick(ticksPerSecond);
    var tick, diff: nat := TimeToTick(time, firstSnapshot, ticksPerSecond), next - prev;
    var q := time / n;
    assert tick == q + firstSnapshot;
    var into: nat, before: nat := tick - prev, prev - firstSnapshot;
    BracketArithmetic(time, n, into, before, diff);
    ProductFits(into, n, ticksPerSecond);
    assert diff % 0x1_0000_0000 == diff;
  }

  lemma BracketArithmetic(time: nat, n: nat, into: nat, before: nat, diff: nat)
    requires n > 0 && time / n == into + before && into < diff
    ensures time % n + Times(into, n) == time - Times(before, n)
    ensures (time % n + Times(into, n)) / diff < n
  {
    assert time == n * (into + before) + time % n;
    assert n * (into + before) == into * n + before * n;
    var x := time % n + Times(into, n);
    assert x < (into + 1) * n by { assert (into + 1) * n == into * n + n; }
    MulMonotone(into + 1, diff, n);
    QuotientBelow(x, diff, n);
  }

  lemma QuotientBelow(x: nat, d: nat, n: nat)
    requires 0 < d && x < d * n
    ensures x / d < n
  {
    var q := x / d;
    assert d * q <= x;
    if n <= q {
      MulMonotone(n, q, d);
    }
  }

  lemma DivMonotone(x: nat, y: nat, d: nat)
    requires d > 0 && x <= y
    ensures Quotient(x, d) <= Quotient(y, d)
  {
    var p, q := x / d, y / d;
    assert d * p <= x && y < d * q + d;
    if q < p {
      MulMonotone(q + 1, p, d);
    }
  }

  lemma TimeToTickIsMonotone(time: nat, later: nat, firstSnapshot: nat, ticksPerSecond: nat)
    requires 0 < ticksPerSecond <= NANOS_PER_SEC
    requires time <= later && later / NanosPerTick(ticksPerSecond) <= MAX_U64
    ensures time / NanosPerTick(ticksPerSecond) <= MAX_U64
    ensures TimeToTick(time, firstSnapshot, ticksPerSecond) <= TimeToTick(later, firstSnapshot, ticksPerSecond)
  {
    DivMonotone(time, later, NanosPerTick(ticksPerSecond));
  }

  /** Interpolation never runs backwards while the clock stays in one bracket. */
  lemma IntraTickIsMonotone(time: nat, later: nat, firstSnapshot: nat, prev: nat, next: nat, ticksPerSecond: nat)
    requires 0 < ticksPerSecond <= NANOS_PER_SEC
    requires time <= later && later / NanosPerTick(ticksPerSecond) <= MAX_U64
    requires firstSnapshot <= prev <= TimeToTick(time, firstSnapshot, ticksPerSecond)
    requires TimeToTick(later, firstSnapshot, ticksPerSecond) < next
    requires next - prev < 0x1_0000_0000
    ensures TimeToTick(time, firstSnapshot, ticksPerSecond) <= TimeToTick(later, firstSnapshot, ticksPerSecond)
    ensures var r := IntraTickTime(time, TimeToTick(time, firstSnapshot, ticksPerSecond), prev, next, ticksPerSecond);
            var s := IntraTickTime(later, TimeToTick(later, firstSnapshot, ticksPerSecond), prev, next, ticksPerSecond);
            r.Some? && s.Some? && r.value <= s.value
  {
    hide IntraTickTime, TimeToTick, NanosPerTick, Times, Quotient;
    var n := NanosPerTick(ticksPerSecond);
    TimeToTickIsMonotone(time, later, firstSnapshot, ticksPerSecond);
    IntraTickIsLinear(time, firstSnapshot, prev, next, ticksPerSecond);
    IntraTickIsLinear(later, firstSnapshot, prev, next, ticksPerSecond);
    var start := Times(prev - firstSnapshot, n);
    DivMonotone(time - start, later - start, next - prev);
  }

  /** The playback clock stands at this time in the bracket. */
  ghost predicate InBracket(time: nat, firstSnapshot: nat, prev: nat, next: nat, ticksPerSecond: nat)
    requires 0 < ticksPerSecond <= NANOS_PER_SEC
  {
    && time / NanosPerTick(ticksPerSecond) <= MAX_U64
    && prev <= TimeToTick(time, firstSnapshot, ticksPerSecond) < next
  }

  /** At this time the intra-tick time is the linear position in the bracket, and below one tick. */
  ghost predicate Interpolates(time: nat, firstSnapshot: nat, prev: nat, next: nat, ticksPerSecond: nat)
    requires 0 < ticksPerSecond <= NANOS_PER_SEC && firstSnapshot <= prev < next
  {
    var n := NanosPerTick(ticksPerSecond);
    var start := Times(prev - firstSnapshot, n);
    && start <= time
    && IntraTickTime(time, TimeToTick(time, firstSnapshot, ticksPerSecond), prev, next, ticksPerSecond)
       == Some(Quotient(time - start, next - prev))
    && Quotient(time - start, next - prev) < n
  }

  lemma QuotientAtLeast(x: nat, d: nat, n: nat)
    requires d > 0 && d * n <= x
    ensures Quotient(x, d) >= n
  {
    var q := x / d;
    assert x < d * q + d;
    assert (q + 1) * d == d * q + d;
    if q < n { MulMonotone(q + 1, n, d); }
  }

  /** The last nanosecond of a tick. */
  function LastNano(firstSnapshot: nat, tick: nat, n: nat): nat
    requires firstSnapshot <= tick && n > 0
  {
    n * (tick - firstSnapshot) + (n - 1)
  }

  lemma {:induction false} LastNanoInBracket(firstSnapshot: nat, prev: nat, tick: nat, next: nat, ticksPerSecond: nat)
    requires 0 < ticksPerSecond <= NANOS_PER_SEC && firstSnapshot <= prev <= tick < next
    requires next - firstSnapshot <= MAX_U64
    ensures var n := NanosPerTick(ticksPerSecond);
            var time := LastNano(firstSnapshot, tick, n);
            && InBracket(time, firstSnapshot, prev, next, ticksPerSecond)
            && TimeToTick(time, firstSnapshot, ticksPerSecond) == tick
            && time % n == n - 1
  {
    var n := NanosPerTick(ticksPerSecond);
    DivUnique(LastNano(firstSnapshot, tick, n), n, tick - firstSnapshot, n - 1);
  }

  /** In a bracket of 2^32 ticks or more the cast width is zero or too small, which shows at the end of
      the tick 2^32 - 1 ticks into the bracket at the latest. */
  lemma {:induction false} WideBracketBreaksInterpolation(firstSnapshot: nat, prev: nat, next: nat, ticksPerSecond: nat)
    requires 0 < ticksPerSecond <= NANOS_PER_SEC && firstSnapshot <= prev < next && next - firstSnapshot <= MAX_U64
    requires next - prev >= 0x1_0000_0000
    ensures var time := LastNano(firstSnapshot, prev + 0xFFFF_FFFF, NanosPerTick(ticksPerSecond));
            !Interpolates(time, firstSnapshot, prev, next, ticksPerSecond)
  {
    var n, tick := NanosPerTick(ticksPerSecond), prev + 0xFFFF_FFFF;
    var time := LastNano(firstSnapshot, tick, n);
    LastNanoInBracket(firstSnapshot, prev, tick, next, ticksPerSecond);
    ProductFits(0xFFFF_FFFF, n, ticksPerSecond);
    var divisor := (next - prev) % 0x1_0000_0000;
    var x := n - 1 + Times(0xFFFF_FFFF, n);
    assert IntraTickTime(time, tick, prev, next, ticksPerSecond)
        == if divisor == 0 then None else Some(Quotient(x, divisor));
    if divisor > 0 {
      MulMonotone(divisor, 0xFFFF_FFFF, n);
      QuotientAtLeast(x, divisor, n);
    }
  }

  /** Interpolation works at every time in a bracket, exactly if the bracket is narrower than 2^32 ticks:
      the width is cast to 32 bits. */
  lemma {:induction false} InterpolatesIffNarrow(firstSnapshot: nat, prev: nat, next: nat, ticksPerSecond: nat)
    requires 0 < ticksPerSecond <= NANOS_PER_SEC && firstSnapshot <= prev < next && next - firstSnapshot <= MAX_U64
    ensures (forall time: nat :: InBracket(time, firstSnapshot, prev, next, ticksPerSecond)
                                 ==> Interpolates(time, firstSnapshot, prev, next, ticksPerSecond))
            <==> next - prev < 0x1_0000_0000
  {
    if next - prev < 0x1_0000_0000 {
      forall time: nat | InBracket(time, firstSnapshot, prev, next, ticksPerSecond)
        ensures Interpolates(time, firstSnapshot, prev, next, ticksPerSecond)
      {
        IntraTickIsLinear(time, firstSnapshot, prev, next, ticksPerSecond);
      }
    } else {
      LastNanoInBracket(firstSnapshot, prev, prev + 0xFFFF_FFFF, next, ticksPerSecond);
      WideBracketBreaksInterpolation(firstSnapshot, prev, next, ticksPerSecond);
    }
  }

  /** Both ways to fail: the division panics, or divides by something else. */
  lemma WideBracketExamples()
    ensures IntraTickTime(0, 0, 0, 0x1_0000_0000, 50) == None
    ensures var r := IntraTickTime(20_000_000 * 7, 7, 0, 0x1_0000_0001, 50);
            r.Some? && r.value >= NanosPerTick(50)
  {
    assert NanosPerTick(50) == 20_000_000;
    assert (20_000_000 * 7) % 20_000_000 == 0;
    assert 0x1_0000_0001 % 0x1_0000_0000 == 1;
  }
}
