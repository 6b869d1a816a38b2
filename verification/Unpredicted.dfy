/**
 The unpredicted game (`GameUnpredicted::from_snapshots`, game/client-map/src/client_map.rs) and
 the bracket of snapshots the renderer interpolates in (`render_game`, src/client/client.rs).

 A game state holds what was built from a previous and from a current snapshot; each build
 overwrites its part in place. Ratios are modelled over reals.
 */
module Unpredicted {
  import opened OrderedMaps

  /** The last snapshot up to a tick, and the first one after it. */
  function AtOrBefore<S>(h: seq<Entry<S>>, t: nat): Option<Entry<S>> {
    var n := LowerBound(h, t + 1);
    if n == 0 then None else Some(h[n - 1])
  }

  function After<S>(h: seq<Entry<S>>, t: nat): Option<Entry<S>> {
    var n := LowerBound(h, t + 1);
    if n == |h| then None else Some(h[n])
  }

  /** After the tick, or else at or before it. */
  function Current<S>(h: seq<Entry<S>>, t: nat): Option<Entry<S>> {
    if After(h, t).Some? then After(h, t) else AtOrBefore(h, t)
  }

  function KeyOf<S>(e: Option<Entry<S>>): Option<nat> {
    if e.Some? then Some(e.value.key) else None
  }

  ghost predicate IsEntry<S>(h: seq<Entry<S>>, e: Entry<S>) {
    exists i :: 0 <= i < |h| && h[i] == e
  }

  /** The bracket is the tightest one: no snapshot lies strictly between it and the tick. */
  lemma BracketIsTight<S>(h: seq<Entry<S>>, t: nat, i: nat)
    requires Increasing(h) && i < |h|
    ensures h[i].key <= t ==> AtOrBefore(h, t).Some? && h[i].key <= AtOrBefore(h, t).value.key <= t
    ensures h[i].key > t ==> After(h, t).Some? && t < After(h, t).value.key <= h[i].key
    ensures AtOrBefore(h, t).Some? ==> IsEntry(h, AtOrBefore(h, t).value) && AtOrBefore(h, t).value.key <= t
    ensures After(h, t).Some? ==> IsEntry(h, After(h, t).value) && After(h, t).value.key > t
    ensures Current(h, t).Some?
  {
    var n := LowerBound(h, t + 1);
    LowerBoundCuts(h, t + 1, i);
    if n > 0 {
      LowerBoundCuts(h, t + 1, n - 1);
      if i < n { KeyGap(h, i, n - 1); }
    }
    if n < |h| {
      LowerBoundCuts(h, t + 1, n);
      if n <= i { KeyGap(h, n, i); }
    }
  }

  lemma BracketEntries<S>(h: seq<Entry<S>>, t: nat)
    requires Increasing(h)
    ensures AtOrBefore(h, t).Some? ==> IsEntry(h, AtOrBefore(h, t).value) && AtOrBefore(h, t).value.key <= t
    ensures After(h, t).Some? ==> IsEntry(h, After(h, t).value) && After(h, t).value.key > t
    ensures Current(h, t).Some? <==> h != []
  {
    if h != [] { BracketIsTight(h, t, 0); }
  }

  // ---------------------------------------------------------------- the interpolation ratio

  /** How far the newest two snapshots up to a tick are apart, at least 1. */
  function SnapRange<S>(h: seq<Entry<S>>, t: nat): nat {
    var n := LowerBound(h, t + 1);
    if n < 2 then 1 else Max(SaturatingSub(h[n - 1].key, h[n - 2].key), 1)
  }

  /** The tick that is rendered: late enough behind that a later snapshot is expected to be there. */
  function LoweredTick<S>(h: seq<Entry<S>>, t: nat): nat {
    SaturatingSub(t, SnapRange(h, t))
  }

  function PrevTick<S>(h: seq<Entry<S>>, t: nat): nat {
    if AtOrBefore(h, t).Some? then AtOrBefore(h, t).value.key else t
  }

  function NextTick<S>(h: seq<Entry<S>>, t: nat): nat {
    if After(h, t).Some? then After(h, t).value.key else t
  }

  function TickDiff<S>(h: seq<Entry<S>>, t: nat): (d: nat)
    ensures d >= 1
  {
    Max(SaturatingSub(NextTick(h, t), PrevTick(h, t)), 1)
  }

  function Ratio<S>(h: seq<Entry<S>>, t: nat, intra: real): real {
    (SaturatingSub(t, PrevTick(h, t)) as real + intra) / TickDiff(h, t) as real
  }

  lemma RatioTimes<S>(h: seq<Entry<S>>, t: nat, intra: real)
    ensures Ratio(h, t, intra) * TickDiff(h, t) as real == SaturatingSub(t, PrevTick(h, t)) as real + intra
  {
  }

  lemma Ticks<S>(h: seq<Entry<S>>, t: nat)
    requires Increasing(h)
    ensures PrevTick(h, t) <= t <= NextTick(h, t) && SaturatingSub(t, PrevTick(h, t)) == t - PrevTick(h, t)
    ensures After(h, t).Some? <==> NextTick(h, t) > t
    ensures var gap := NextTick(h, t) - PrevTick(h, t); TickDiff(h, t) == if gap > 1 then gap else 1
  {
    BracketEntries(h, t);
  }

  lemma ProductBelow(r: real, d: real, x: real)
    requires d > 0.0 && r * d == x
    ensures (r < 1.0 <==> x < d) && (r >= 0.0 <==> x >= 0.0)
  {
  }

  lemma BracketLaw(p: nat, q: nat, t: nat, intra: real, d: nat, x: real)
    requires p <= t <= q && 0.0 <= intra < 1.0
    requires x == (t - p) as real + intra && d == if q - p > 1 then q - p else 1
    ensures 0.0 <= x < d as real <==> q > t || p == t
    ensures 0.0 <= x && p as real + x == t as real + intra
  {
  }

  /** The ratio is a proper interpolation ratio exactly if a later snapshot exists, or there is
      nothing to go past the last one; it puts the rendered time linearly into the bracket. */
  lemma RatioInterpolates<S>(h: seq<Entry<S>>, t: nat, intra: real)
    requires Increasing(h) && 0.0 <= intra < 1.0
    ensures 0.0 <= Ratio(h, t, intra) < 1.0 <==> After(h, t).Some? || PrevTick(h, t) == t
    ensures Ratio(h, t, intra) >= 0.0
    ensures PrevTick(h, t) as real + Ratio(h, t, intra) * TickDiff(h, t) as real == t as real + intra
    ensures After(h, t).Some?
            ==> PrevTick(h, t) <= t < NextTick(h, t) && TickDiff(h, t) == NextTick(h, t) - PrevTick(h, t)
  {
    hide *;
    Ticks(h, t);
    RatioTimes(h, t, intra);
    var p, q, d, r := PrevTick(h, t), NextTick(h, t), TickDiff(h, t), Ratio(h, t, intra);
    var x := SaturatingSub(t, p) as real + intra;
    ProductBelow(r, d as real, x);
    BracketLaw(p, q, t, intra, d, x);
  }

  lemma RatioIs<S>(h: seq<Entry<S>>, t: nat, intra: real)
    ensures Ratio(h, t, intra) == (SaturatingSub(t, PrevTick(h, t)) as real + intra) / TickDiff(h, t) as real
  {
  }

  /** By how much the tick is lowered, on the snapshots: by the distance of the newest two up to the tick, or
      by one tick if there are not two. */
  lemma {:induction false} LoweredBy<S>(h: seq<Entry<S>>, t: nat, i: nat)
    requires Increasing(h) && IsLastUpTo(h, i, t)
    ensures i > 0 ==> 0 < h[i].key - h[i - 1].key <= t && LoweredTick(h, t) == t - (h[i].key - h[i - 1].key)
    ensures i == 0 ==> LoweredTick(h, t) == if t == 0 then 0 else t - 1
  {
    LowerBoundCuts(h, t + 1, i);
    if i + 1 < |h| { LowerBoundCuts(h, t + 1, i + 1); }
    if i > 0 { KeyGap(h, i - 1, i); }
  }

  lemma {:induction false} LoweredByOne<S>(h: seq<Entry<S>>, t: nat)
    requires Increasing(h) && (|h| < 2 || t < h[1].key)
    ensures LoweredTick(h, t) == if t == 0 then 0 else t - 1
  {
    if LowerBound(h, t + 1) >= 2 { LowerBoundCuts(h, t + 1, 1); }
  }

  /** The snapshots a tick lies between. */
  lemma {:induction false} BracketAt<S>(h: seq<Entry<S>>, t: nat, i: nat)
    requires Increasing(h) && i + 1 < |h| && h[i].key <= t < h[i + 1].key
    ensures AtOrBefore(h, t) == Some(h[i]) && After(h, t) == Some(h[i + 1])
    ensures PrevTick(h, t) == h[i].key && NextTick(h, t) == h[i + 1].key
  {
    LowerBoundCuts(h, t + 1, i);
    LowerBoundCuts(h, t + 1, i + 1);
  }

  /** Behind the last snapshot there is only that one. */
  lemma {:induction false} BehindLast<S>(h: seq<Entry<S>>, t: nat)
    requires Increasing(h) && h != []
    ensures Last(h).key <= t ==> AtOrBefore(h, t) == Some(Last(h)) && After(h, t) == None
                                 && PrevTick(h, t) == Last(h).key
    ensures Last(h).key > t ==> After(h, t).Some?
  {
    LowerBoundCuts(h, t + 1, |h| - 1);
  }

  lemma BeforeFirst<S>(t: nat)
    ensures PrevTick<S>([], t) == t && After<S>([], t) == None && AtOrBefore<S>([], t) == None
  {
  }

  /** As long as the newest snapshot is younger than the distance to the one before, the frame is rendered
      between exactly these two. */
  lemma {:induction false} NewestTwoAreRendered<S>(h: seq<Entry<S>>, t: nat)
    requires Increasing(h) && |h| >= 2
    requires var n := |h| - 1; 0 <= t - h[n].key < h[n].key - h[n - 1].key
    ensures var g, n := LoweredTick(h, t), |h| - 1;
            && h[n - 1].key <= g < h[n].key
            && AtOrBefore(h, g) == Some(h[n - 1]) && After(h, g) == Some(h[n])
  {
    LoweredBy(h, t, |h| - 1);
    BracketAt(h, LoweredTick(h, t), |h| - 2);
  }

  /** The tick is lowered by the distance of the newest two snapshots up to it, or by one tick if there are
      not two; never below 0. */
  ghost predicate LoweredTo<S>(h: seq<Entry<S>>, wanted: nat, t: nat) {
    && (forall i :: 0 < i && IsLastUpTo(h, i, wanted) ==> t == wanted - (h[i].key - h[i - 1].key))
    && (|h| < 2 || wanted < h[1].key ==> t == if wanted == 0 then 0 else wanted - 1)
  }

  lemma LoweredPlainly<S>(h: seq<Entry<S>>, wanted: nat)
    requires Increasing(h)
    ensures LoweredTo(h, wanted, LoweredTick(h, wanted))
  {
    hide LoweredTick, Increasing;
    forall i | 0 < i && IsLastUpTo(h, i, wanted)
      ensures LoweredTick(h, wanted) == wanted - (h[i].key - h[i - 1].key)
    {
      LoweredBy(h, wanted, i);
    }
    if |h| < 2 || wanted < h[1].key { LoweredByOne(h, wanted); }
  }

  /** The ratio is a proper one and places the time linearly between the two ticks. */
  ghost predicate PlacesTime(prev: nat, next: nat, ratio: real, t: nat, intra: real) {
    0.0 <= ratio < 1.0 && prev as real + ratio * (next - prev) as real == t as real + intra
  }

  /** The ratio for a tick, and the tick the state is built for, which is the same. */
  method BracketRatio<S>(h: seq<Entry<S>>, t: nat, intra: real) returns (ratio: real, tick: nat)
    requires Increasing(h) && 0.0 <= intra < 1.0
    ensures tick == t
    ensures forall i :: 0 <= i < |h| - 1 && h[i].key <= t < h[i + 1].key ==>
              PlacesTime(h[i].key, h[i + 1].key, ratio, t, intra)
    ensures 0.0 <= ratio < 1.0 <==> h == [] || Last(h).key >= t
  {
    hide *;
    var prevTick, nextTick := PrevTick(h, t), NextTick(h, t);
    var offset := SaturatingSub(t, prevTick);
    var tickDiff := Max(SaturatingSub(nextTick, prevTick), 1);
    DiffIs(h, t);
    RatioIs(h, t, intra);
    RatioInterpolates(h, t, intra);
    Ticks(h, t);
    ratio := (offset as real + intra) / tickDiff as real;
    tick := prevTick + offset;
    forall i | 0 <= i < |h| - 1 && h[i].key <= t < h[i + 1].key
      ensures PlacesTime(h[i].key, h[i + 1].key, ratio, t, intra)
    {
      BracketAt(h, t, i);
      TimePlaced(h[i].key, h[i + 1].key, ratio, t, intra, TickDiff(h, t));
    }
    if h == [] { BeforeFirst<S>(t); } else { BehindLast(h, t); }
  }

  lemma DiffIs<S>(h: seq<Entry<S>>, t: nat)
    ensures TickDiff(h, t) == Max(SaturatingSub(NextTick(h, t), PrevTick(h, t)), 1) >= 1
  {
  }

  lemma TimePlaced(prev: nat, next: nat, ratio: real, t: nat, intra: real, diff: nat)
    requires 0.0 <= ratio < 1.0 && diff == next - prev && prev as real + ratio * diff as real == t as real + intra
    ensures PlacesTime(prev, next, ratio, t, intra)
  {
  }

  /** When lowering the tick makes room for a later snapshot: exactly if one is newer than the wanted tick, or
      the newest is younger than its distance to the one before, or is the only one, and not at tick 0. */
  lemma {:induction false} LoweringMakesRoom<S>(h: seq<Entry<S>>, wanted: nat, t: nat, i: nat)
    requires Increasing(h) && LoweredTo(h, wanted, t)
    requires IsLastUpTo(h, i, wanted)
    ensures Last(h).key > t
            <==> || i + 1 < |h|
                 || (if i > 0 then wanted - h[i].key < h[i].key - h[i - 1].key else wanted == h[i].key && wanted > 0)
  {
    if i + 1 < |h| { KeyGap(h, i + 1, |h| - 1); }
    if i > 0 {
      KeyGap(h, i - 1, i);
    }
  }

  // ---------------------------------------------------------------- the cached state

  /** Every snapshot of the history is the one that was ever recorded for its tick. */
  ghost predicate RecordedIn<S>(h: seq<Entry<S>>, archive: map<nat, S>) {
    forall i :: 0 <= i < |h| ==> h[i].key in archive && archive[h[i].key] == h[i].value
  }

  lemma RecordedAt<S>(h: seq<Entry<S>>, archive: map<nat, S>, i: nat)
    requires RecordedIn(h, archive) && i < |h|
    ensures h[i].key in archive && archive[h[i].key] == h[i].value
  {
  }

  /** The game state as far as it matters: it is built in place from snapshots, its previous and its
      current part can be looked at, and it collects events. `asPrev` and `asCur` say what a snapshot
      makes of the parts. */
  datatype Game<!G, !S, !P, !C> = Game(
    buildPrev: (G, S) -> G, buildCur: (G, S) -> G, clearEvents: G -> G,
    prevPart: G -> P, curPart: G -> C, hasEvents: G -> bool,
    asPrev: S -> P, asCur: S -> C)

  /** A build overwrites its part, whatever the state was, and leaves the other; clearing events leaves both. */
  ghost predicate GameLaws<G(!new), S(!new), P, C>(game: Game<G, S, P, C>) {
    && (forall g: G, s: S :: game.prevPart(game.buildPrev(g, s)) == game.asPrev(s))
    && (forall g: G, s: S :: game.curPart(game.buildPrev(g, s)) == game.curPart(g))
    && (forall g: G, s: S :: game.curPart(game.buildCur(g, s)) == game.asCur(s))
    && (forall g: G, s: S :: game.prevPart(game.buildCur(g, s)) == game.prevPart(g))
    && (forall g: G :: game.prevPart(game.clearEvents(g)) == game.prevPart(g))
    && (forall g: G :: game.curPart(game.clearEvents(g)) == game.curPart(g))
    && (forall g: G :: !game.hasEvents(game.clearEvents(g)))
  }

  lemma EventsCleared<G(!new), S(!new), P, C>(game: Game<G, S, P, C>, g: G)
    requires GameLaws(game)
    ensures game.prevPart(game.clearEvents(g)) == game.prevPart(g)
    ensures game.curPart(game.clearEvents(g)) == game.curPart(g)
    ensures !game.hasEvents(game.clearEvents(g))
  {
  }

  /** Whether a part has to be rebuilt from an entry. */
  predicate Changes<S>(entry: Option<Entry<S>>, tick: Option<nat>) {
    entry.Some? && tick != Some(entry.value.key)
  }

  /** The laws can be met: by a state of two parts and a flag. */
  lemma GameLawsAreConsistent()
    ensures exists game: Game<(int, int, bool), int, int, int> :: GameLaws(game)
  {
    var game: Game<(int, int, bool), int, int, int> := Game(
      (g: (int, int, bool), s: int) => (s, g.1, true),
      (g: (int, int, bool), s: int) => (g.0, s, true),
      (g: (int, int, bool)) => (g.0, g.1, false),
      (g: (int, int, bool)) => g.0, (g: (int, int, bool)) => g.1, (g: (int, int, bool)) => g.2,
      (s: int) => s, (s: int) => s);
    assert GameLaws(game);
  }

  class GameUnpredicted<G(!new), S(!new), P, C> {
    const game: Game<G, S, P, C>
    var prev: Option<nat>
    var cur: Option<nat>
    var state: G

    /** The snapshots the parts were built from. */
    ghost var prevSnap: Option<S>
    ghost var curSnap: Option<S>

    ghost predicate Valid() reads this {
      && GameLaws(game)
      && (prev.Some? <==> prevSnap.Some?) && (prevSnap.Some? ==> game.prevPart(state) == game.asPrev(prevSnap.value))
      && (cur.Some? <==> curSnap.Some?) && (curSnap.Some? ==> game.curPart(state) == game.asCur(curSnap.value))
    }

    /** Both parts were built from what the archive has for their ticks. */
    ghost predicate BuiltFrom(archive: map<nat, S>) reads this {
      && (prev.Some? ==> prev.value in archive && prevSnap == Some(archive[prev.value]))
      && (cur.Some? ==> cur.value in archive && curSnap == Some(archive[cur.value]))
    }

    /** The snapshot for a part, taken from the history if the tick of the part changed. */
    ghost function Taken(entry: Option<Entry<S>>, tick: Option<nat>, snap: Option<S>): Option<S> {
      if Changes(entry, tick) then Some(entry.value.value) else snap
    }

    constructor (game: Game<G, S, P, C>, state: G)
      requires GameLaws(game)
      ensures Valid() && prev == None && cur == None && this.game == game && this.state == state
    {
      this.game, this.state := game, state;
      prev, cur, prevSnap, curSnap := None, None, None, None;
    }

    /** The previous part is rebuilt if its tick changed. */
    method TakePrev(entry: Option<Entry<S>>) returns (changed: bool)
      requires Valid()
      modifies this`state, this`prev, this`prevSnap
      ensures Valid() && changed == Changes(entry, old(prev))
      ensures prevSnap == Taken(entry, old(prev), old(prevSnap))
      ensures prev == if entry.Some? then KeyOf(entry) else old(prev)
      ensures game.curPart(state) == old(game.curPart(state)) && (!changed ==> state == old(state))
    {
      changed := entry.Some? && prev != Some(entry.value.key);
      if changed {
        state := game.buildPrev(state, entry.value.value);
        prev, prevSnap := Some(entry.value.key), Some(entry.value.value);
      }
    }

    method TakeCur(entry: Option<Entry<S>>) returns (changed: bool)
      requires Valid()
      modifies this`state, this`cur, this`curSnap
      ensures Valid() && changed == Changes(entry, old(cur))
      ensures curSnap == Taken(entry, old(cur), old(curSnap))
      ensures cur == if entry.Some? then KeyOf(entry) else old(cur)
      ensures game.prevPart(state) == old(game.prevPart(state)) && (!changed ==> state == old(state))
    {
      changed := entry.Some? && cur != Some(entry.value.key);
      if changed {
        state := game.buildCur(state, entry.value.value);
        cur, curSnap := Some(entry.value.key), Some(entry.value.value);
      }
    }

    /** Only a part whose tick changed is rebuilt. A part is nevertheless what a rebuild would give,
        exactly if its tick changed or the snapshot of the tick is still the one it was built from; so
        always, if the snapshots of a tick never change. Events are cleared exactly if something was
        rebuilt; otherwise the state is left alone. */
    method FromSnapshots(h: seq<Entry<S>>, firstTick: nat)
      requires Increasing(h) && Valid()
      modifies this
      ensures Valid()
      ensures prevSnap == Taken(AtOrBefore(h, firstTick), old(prev), old(prevSnap))
      ensures curSnap == Taken(Current(h, firstTick), old(cur), old(curSnap))
      ensures prev == if AtOrBefore(h, firstTick).Some? then KeyOf(AtOrBefore(h, firstTick)) else old(prev)
      ensures cur == if h != [] then KeyOf(Current(h, firstTick)) else old(cur)
      ensures if Changes(AtOrBefore(h, firstTick), old(prev)) || Changes(Current(h, firstTick), old(cur))
              then !game.hasEvents(state) else state == old(state)
      ensures !Changes(AtOrBefore(h, firstTick), old(prev)) ==> game.prevPart(state) == old(game.prevPart(state))
      ensures !Changes(Current(h, firstTick), old(cur)) ==> game.curPart(state) == old(game.curPart(state))
      ensures AtOrBefore(h, firstTick).Some? ==>
                (prevSnap == Some(AtOrBefore(h, firstTick).value.value)
                 <==> old(prev) != prev || old(prevSnap) == Some(AtOrBefore(h, firstTick).value.value))
      ensures h != [] ==>
                (curSnap == Some(Current(h, firstTick).value.value)
                 <==> old(cur) != cur || old(curSnap) == Some(Current(h, firstTick).value.value))
      ensures forall archive: map<nat, S> :: old(BuiltFrom(archive)) && RecordedIn(h, archive) ==> BuiltFrom(archive)
      // with nothing at or before the tick the previous part stays what it was
      ensures prev == KeyOf(AtOrBefore(h, firstTick)) <==> AtOrBefore(h, firstTick).Some? || old(prev).None?
    {
      BracketEntries(h, firstTick);
      hide AtOrBefore, After, Increasing, GameLaws;
      var firstSnap := AtOrBefore(h, firstTick);
      var prevChanged := TakePrev(firstSnap);
      var curChanged := TakeCur(if After(h, firstTick).Some? then After(h, firstTick) else firstSnap);
      if prevChanged || curChanged {
        EventsCleared(game, state);
        state := game.clearEvents(state);
      }
    }

    /** The bracket of `render_game`: the rendered tick lies below the wanted one. With snapshots on both sides
        of it the state is built from these and the ratio places the rendered time linearly between them; past
        the last snapshot it is built from that one alone. */
    method RenderBracket(h: seq<Entry<S>>, predictedTick: nat, subTicks: nat, intra: real, ghost archive: map<nat, S>)
      returns (ratio: real, ghost t: nat)
      requires Increasing(h) && Valid() && BuiltFrom(archive) && RecordedIn(h, archive) && 0.0 <= intra < 1.0
      modifies this
      ensures Valid() && BuiltFrom(archive)
      ensures LoweredTo(h, if predictedTick < subTicks then 0 else predictedTick - subTicks, t)
      ensures forall i :: 0 <= i < |h| - 1 && h[i].key <= t < h[i + 1].key ==>
                && prev == Some(h[i].key) && game.prevPart(state) == game.asPrev(h[i].value)
                && cur == Some(h[i + 1].key) && game.curPart(state) == game.asCur(h[i + 1].value)
                && PlacesTime(h[i].key, h[i + 1].key, ratio, t, intra)
      ensures h != [] && Last(h).key <= t ==>
                && prev == Some(Last(h).key) && game.prevPart(state) == game.asPrev(Last(h).value)
                && cur == Some(Last(h).key) && game.curPart(state) == game.asCur(Last(h).value)
      // a proper ratio, unless the tick is past the last snapshot
      ensures 0.0 <= ratio < 1.0 <==> h == [] || Last(h).key >= t
    {
      hide *;
      var firstTick := if predictedTick < subTicks then 0 else predictedTick - subTicks;
      LoweredPlainly(h, firstTick);
      t := LoweredTick(h, firstTick);
      firstTick := LoweredTick(h, firstTick);
      var from;
      ratio, from := BracketRatio(h, firstTick, intra);
      FromSnapshots(h, from);
      forall i | 0 <= i < |h| - 1 && h[i].key <= t < h[i + 1].key
        ensures prev == Some(h[i].key) && game.prevPart(state) == game.asPrev(h[i].value)
        ensures cur == Some(h[i + 1].key) && game.curPart(state) == game.asCur(h[i + 1].value)
      {
        BuiltAround(h, t, archive, i);
      }
      if h != [] && Last(h).key <= t { BuiltBehind(h, t, archive); }
    }

    lemma BuiltAround(h: seq<Entry<S>>, t: nat, archive: map<nat, S>, i: nat)
      requires Increasing(h) && Valid() && BuiltFrom(archive) && RecordedIn(h, archive)
      requires AtOrBefore(h, t).Some? ==> prev == KeyOf(AtOrBefore(h, t))
      requires h != [] ==> cur == KeyOf(Current(h, t))
      requires i + 1 < |h| && h[i].key <= t < h[i + 1].key
      ensures prev == Some(h[i].key) && game.prevPart(state) == game.asPrev(h[i].value)
      ensures cur == Some(h[i + 1].key) && game.curPart(state) == game.asCur(h[i + 1].value)
    {
      hide AtOrBefore, After, Increasing, RecordedIn, GameLaws;
      BracketAt(h, t, i);
      RecordedAt(h, archive, i);
      RecordedAt(h, archive, i + 1);
    }

    lemma BuiltBehind(h: seq<Entry<S>>, t: nat, archive: map<nat, S>)
      requires Increasing(h) && Valid() && BuiltFrom(archive) && RecordedIn(h, archive)
      requires AtOrBefore(h, t).Some? ==> prev == KeyOf(AtOrBefore(h, t))
      requires h != [] ==> cur == KeyOf(Current(h, t))
      requires h != [] && Last(h).key <= t
      ensures prev == Some(Last(h).key) && game.prevPart(state) == game.asPrev(Last(h).value)
      ensures cur == Some(Last(h).key) && game.curPart(state) == game.asCur(Last(h).value)
    {
      hide AtOrBefore, After, Increasing, RecordedIn, GameLaws;
      BehindLast(h, t);
      RecordedAt(h, archive, |h| - 1);
    }
  }
}
