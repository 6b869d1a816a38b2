/**
 Ids for rendered ghosts (`GhostIds` and `GhostViewer::update`, game/client-ghost/src/lib.rs; the
 generator, game/game-interface/src/types/id_gen.rs): ids are handed out for one frame and used
 again, in the same order, for the next one; new ids are counted down from the largest 64-bit
 number. Counting below 0 overflows: no id is returned then, and the program ends.
 */
module GhostIds {
  import opened OrderedMaps

  const LARGEST_ID: nat := 0xFFFF_FFFF_FFFF_FFFF

  ghost predicate Distinct(s: seq<nat>) {
    forall i, j :: 0 <= i < j < |s| ==> s[i] != s[j]
  }

  ghost predicate Above(s: seq<nat>, cur: nat) {
    forall i :: 0 <= i < |s| ==> s[i] > cur
  }

  datatype Drawn = Drawn(id: Option<nat>, usable: seq<nat>, cur: nat)

  /** How many usable ids are rejected before the first allowed one. */
  function FirstAllowed(usable: seq<nat>, forbidden: set<nat>): (r: nat)
    ensures r <= |usable|
    ensures r < |usable| ==> usable[r] !in forbidden
    ensures forall i :: 0 <= i < r ==> usable[i] in forbidden
  {
    if usable == [] || usable[0] !in forbidden then 0 else 1 + FirstAllowed(usable[1..], forbidden)
  }

  /** The first allowed id when counting down, 0 if there is none. */
  function FirstNew(cur: nat, forbidden: set<nat>): (r: nat)
    ensures r <= cur && (r > 0 ==> r !in forbidden)
  {
    if cur == 0 || cur !in forbidden then cur else FirstNew(cur - 1, forbidden)
  }

  /** The first usable id that is not forbidden, or else the first new one. */
  function Draw(usable: seq<nat>, cur: nat, forbidden: set<nat>): Drawn {
    var i, n := FirstAllowed(usable, forbidden), FirstNew(cur, forbidden);
    if i < |usable| then Drawn(Some(usable[i]), usable[i + 1..], cur)
    else if n == 0 then Drawn(None, [], 0)
    else Drawn(Some(n), [], n - 1)
  }

  lemma SuffixFresh(s: seq<nat>, n: nat, cur: nat)
    requires Distinct(s) && Above(s, cur) && n <= |s|
    ensures Distinct(s[n..]) && Above(s[n..], cur)
    ensures 0 < n ==> s[n - 1] !in s[n..]
  {
    assert forall i :: 0 <= i < |s| - n ==> s[n..][i] == s[n + i];
  }

  /** A drawn id is allowed, was usable or is new, and is gone afterwards. */
  lemma DrawnIsFresh(usable: seq<nat>, cur: nat, forbidden: set<nat>)
    requires Distinct(usable) && Above(usable, cur)
    ensures var d := Draw(usable, cur, forbidden);
            && Distinct(d.usable) && Above(d.usable, d.cur) && d.cur <= cur
            && (d.id.Some? ==> d.id.value !in forbidden && d.id.value !in d.usable && d.id.value > d.cur)
  {
    var i := FirstAllowed(usable, forbidden);
    if i < |usable| { SuffixFresh(usable, i + 1, cur); }
  }

  lemma {:induction false} NoneLeft(cur: nat, forbidden: set<nat>)
    requires FirstNew(cur, forbidden) == 0
    ensures UpTo(cur) <= forbidden
  {
    if cur == 0 {
    } else {
      NoneLeft(cur - 1, forbidden);
    }
  }

  function Elements(s: seq<nat>): set<nat> {
    set i | 0 <= i < |s| :: s[i]
  }

  lemma {:induction false} ElementsCount(s: seq<nat>)
    requires Distinct(s)
    ensures |Elements(s)| == |s|
  {
    if s == [] {
    } else {
      ElementsCount(Init(s));
      assert Elements(s) == Elements(Init(s)) + {Last(s)};
    }
  }

  lemma ElementsSnoc(s: seq<nat>, x: nat)
    ensures Elements(s + [x]) == Elements(s) + {x}
    ensures x in s <==> x in Elements(s)
  {
    assert forall i :: 0 <= i < |s| ==> (s + [x])[i] == s[i];
    assert (s + [x])[|s|] == x;
  }

  function UpTo(cur: nat): set<nat> {
    if cur == 0 then {} else UpTo(cur - 1) + {cur}
  }

  lemma {:induction false} UpToCount(cur: nat)
    ensures |UpTo(cur)| == cur && forall x :: x in UpTo(cur) ==> x <= cur
  {
    if cur == 0 {
    } else {
      UpToCount(cur - 1);
    }
  }

  /** The search ends, and without an id only if there are not more candidates than forbidden ids. */
  lemma SearchFailsOnlyWhenExhausted(usable: seq<nat>, cur: nat, forbidden: set<nat>)
    requires Distinct(usable) && Above(usable, cur) && Draw(usable, cur, forbidden).id.None?
    ensures |usable| + cur <= |forbidden|
  {
    NoneLeft(cur, forbidden);
    ElementsCount(usable);
    UpToCount(cur);
    var a, b := Elements(usable), UpTo(cur);
    assert a !! b;
    assert |a + b| == |a| + |b|;
    SubsetCount(a + b, forbidden);
  }

  datatype Pool = Pool(usable: seq<nat>, cur: nat)

  /** The pool after a number of draws, each against its own forbidden set. */
  function PoolAfter(usable: seq<nat>, cur: nat, forbidden: seq<set<nat>>): Pool {
    if forbidden == [] then Pool(usable, cur)
    else
      var p := PoolAfter(usable, cur, Init(forbidden));
      var d := Draw(p.usable, p.cur, Last(forbidden));
      Pool(d.usable, d.cur)
  }

  /** The ids that were drawn. */
  function DrawAll(usable: seq<nat>, cur: nat, forbidden: seq<set<nat>>): (r: seq<Option<nat>>)
    ensures |r| == |forbidden|
  {
    if forbidden == [] then []
    else
      var p := PoolAfter(usable, cur, Init(forbidden));
      DrawAll(usable, cur, Init(forbidden)) + [Draw(p.usable, p.cur, Last(forbidden)).id]
  }

  /** The first ids were handed out again, unchanged. */
  ghost predicate SamePrefix(ids: seq<nat>, drawn: seq<Option<nat>>) {
    forall i :: 0 <= i < Min(|ids|, |drawn|) ==> drawn[i] == Some(ids[i])
  }

  ghost predicate AllAllowed(ids: seq<nat>, forbidden: seq<set<nat>>) {
    forall i :: 0 <= i < Min(|ids|, |forbidden|) ==> ids[i] !in forbidden[i]
  }

  lemma DrawHead(usable: seq<nat>, cur: nat, forbidden: set<nat>)
    requires usable != [] && usable[0] !in forbidden
    ensures Draw(usable, cur, forbidden) == Drawn(Some(usable[0]), usable[1..], cur)
  {
  }

  /** What the last draw adds to both predicates. */
  lemma {:induction false} PrefixStep(ids: seq<nat>, drawn: seq<Option<nat>>, id: Option<nat>, allowed: seq<set<nat>>,
                                      f: set<nat>)
    requires |drawn| == |allowed|
    ensures SamePrefix(ids, drawn + [id])
            <==> SamePrefix(ids, drawn) && (|drawn| < |ids| ==> id == Some(ids[|drawn|]))
    ensures AllAllowed(ids, allowed + [f])
            <==> AllAllowed(ids, allowed) && (|allowed| < |ids| ==> ids[|allowed|] !in f)
  {
    var r, g := drawn + [id], allowed + [f];
    assert forall i :: 0 <= i < |drawn| ==> r[i] == drawn[i] && g[i] == allowed[i];
    assert r[|drawn|] == id && g[|drawn|] == f;
  }

  /** While no id is rejected the pool loses its ids from the front. */
  lemma {:induction false} PoolWhileAllowed(ids: seq<nat>, rest: seq<nat>, cur: nat, forbidden: seq<set<nat>>)
    requires AllAllowed(ids, forbidden) && |forbidden| <= |ids|
    ensures PoolAfter(ids + rest, cur, forbidden) == Pool((ids + rest)[|forbidden|..], cur)
  {
    if forbidden == [] {
      assert (ids + rest)[0..] == ids + rest;
    } else {
      var n: nat := |forbidden| - 1;
      assert forbidden == Init(forbidden) + [Last(forbidden)];
      PrefixStep(ids, seq(n, _ => None), None, Init(forbidden), Last(forbidden));
      PoolWhileAllowed(ids, rest, cur, Init(forbidden));
      DrawHead((ids + rest)[n..], cur, Last(forbidden));
      assert (ids + rest)[n..][1..] == (ids + rest)[n + 1..];
    }
  }

  /** After a swap the ids of the last frame, in order, are the first usable ones. The next frame
      gets the same ids as far as both go, exactly if none of them is rejected. */
  lemma {:induction false} StableAcrossFrames(ids: seq<nat>, rest: seq<nat>, cur: nat, forbidden: seq<set<nat>>)
    ensures SamePrefix(ids, DrawAll(ids + rest, cur, forbidden)) <==> AllAllowed(ids, forbidden)
  {
    if forbidden == [] {
    } else {
      var front, f := Init(forbidden), Last(forbidden);
      assert forbidden == front + [f];
      StableAcrossFrames(ids, rest, cur, front);
      var p := PoolAfter(ids + rest, cur, front);
      PrefixStep(ids, DrawAll(ids + rest, cur, front), Draw(p.usable, p.cur, f).id, front, f);
      if AllAllowed(ids, front) && |front| < |ids| {
        PoolWhileAllowed(ids, rest, cur, front);
        assert p.usable[0] == ids[|front|];
        DrawnIsAllowed(p.usable, p.cur, f);
        if ids[|front|] !in f { DrawHead(p.usable, p.cur, f); }
      }
    }
  }

  lemma DrawnIsAllowed(usable: seq<nat>, cur: nat, forbidden: set<nat>)
    ensures var id := Draw(usable, cur, forbidden).id; id.Some? ==> id.value !in forbidden
  {
  }

  function Somes(ids: seq<nat>): (r: seq<Option<nat>>)
    ensures |r| == |ids|
  {
    seq(|ids|, i requires 0 <= i < |ids| => Some(ids[i]))
  }

  /** The ids given and the pool that is left follow from the pool at the start of the frame and what
      was forbidden in each draw. */
  ghost predicate Follows(start: seq<nat>, startCur: nat, asked: seq<set<nat>>, given: seq<nat>, usable: seq<nat>,
                          cur: nat) {
    DrawAll(start, startCur, asked) == Somes(given) && PoolAfter(start, startCur, asked) == Pool(usable, cur)
  }

  lemma {:induction false} FollowsStep(start: seq<nat>, startCur: nat, asked: seq<set<nat>>, given: seq<nat>,
                                       usable: seq<nat>, cur: nat, forbidden: set<nat>)
    requires Follows(start, startCur, asked, given, usable, cur)
    ensures var d := Draw(usable, cur, forbidden);
            d.id.Some? ==> Follows(start, startCur, asked + [forbidden], given + [d.id.value], d.usable, d.cur)
  {
    assert Init(asked + [forbidden]) == asked && Last(asked + [forbidden]) == forbidden;
    hide Draw;
  }

  lemma NothingDrawn(usable: seq<nat>, cur: nat)
    ensures Follows(usable, cur, [], [], usable, cur)
  {
  }

  // ---------------------------------------------------------------- the id pool

  class IdPool {
    var usableIds: seq<nat>
    var nextIds: seq<nat>
    var cur: nat

    /** The pool at the start of the frame, what was forbidden in each draw since, and whether a search
        failed, which ends the program. */
    ghost var start: Pool
    ghost var asked: seq<set<nat>>
    ghost var failed: bool

    /** No id is in the pool twice, the generator has yet to reach all ids below, and the ids given in
        this frame are those drawn from the pool at its start. */
    ghost predicate Valid() reads this {
      && Distinct(nextIds + usableIds) && Above(nextIds + usableIds, cur) && cur <= LARGEST_ID
      && (failed || Follows(start.usable, start.cur, asked, nextIds, usableIds, cur))
    }

    constructor ()
      ensures Valid() && usableIds == [] && nextIds == [] && cur == 0xFFFF_FFFF_FFFF_FFFF
      ensures start == Pool([], LARGEST_ID) && asked == [] && !failed
    {
      usableIds, nextIds, cur := [], [], LARGEST_ID;
      start, asked, failed := Pool([], LARGEST_ID), [], false;
    }

    /** Hands out the first usable or new id that is not forbidden, and notes it for the next frame. */
    method NextId(forbidden: set<nat>) returns (id: Option<nat>)
      requires Valid()
      modifies this
      ensures Valid() && start == old(start)
      ensures Drawn(id, usableIds, cur) == Draw(old(usableIds), old(cur), forbidden)
      ensures id.Some? ==> nextIds == old(nextIds) + [id.value] && id.value !in old(nextIds) && id.value !in forbidden
      ensures id.Some? ==> asked == old(asked) + [forbidden] && failed == old(failed)
      ensures id.None? ==> nextIds == old(nextIds) && old(|usableIds| + cur) <= |forbidden|
    {
      hide Distinct, Above, Follows, Draw;
      ghost var given, usable, top := nextIds, usableIds, cur;
      SplitPool(nextIds, usableIds, cur);
      id := Search(forbidden);
      DrawnIsFresh(usable, top, forbidden);
      if id.Some? {
        GivenStaysValid(given, usable, top, forbidden);
        if !failed { FollowsStep(start.usable, start.cur, asked, given, usable, top, forbidden); }
        nextIds, asked := nextIds + [id.value], asked + [forbidden];
      } else {
        SearchFailsOnlyWhenExhausted(usable, top, forbidden);
        NoneDrawn(usable, top, forbidden);
        FailedStaysValid(given, usable, top, usableIds, cur);
        failed := true;
      }
    }

    /** The loop over the candidates. */
    method Search(forbidden: set<nat>) returns (id: Option<nat>)
      modifies this`usableIds, this`cur
      ensures Drawn(id, usableIds, cur) == Draw(old(usableIds), old(cur), forbidden)
    {
      ghost var usable, top := usableIds, cur;
      id := None;
      while id.None? && (usableIds != [] || cur > 0)
        invariant id.Some? ==> Drawn(id, usableIds, cur) == Draw(usable, top, forbidden)
        invariant id.None? ==> && |usableIds| <= |usable| && usableIds == usable[|usable| - |usableIds|..]
                               && FirstAllowed(usable, forbidden)
                                  == |usable| - |usableIds| + FirstAllowed(usableIds, forbidden)
                               && FirstNew(cur, forbidden) == FirstNew(top, forbidden)
                               && (usableIds != [] ==> cur == top)
        decreases id.None?, |usableIds|, cur
      {
        var candidate;
        if usableIds != [] {
          candidate, usableIds := usableIds[0], usableIds[1..];
        } else {
          candidate, cur := cur, cur - 1;
        }
        if candidate !in forbidden { id := Some(candidate); }
      }
    }

    /** The frame ends: the ids given come first, then those that were not used. */
    method Swap()
      requires Valid()
      modifies this
      ensures Valid() && usableIds == old(nextIds) + old(usableIds) && nextIds == [] && cur == old(cur)
      ensures start == Pool(usableIds, cur) && asked == [] && failed == old(failed)
    {
      hide Distinct, Above, Follows;
      nextIds, usableIds := [], nextIds + usableIds;
      assert nextIds + usableIds == usableIds;
      start, asked := Pool(usableIds, cur), [];
      NothingDrawn(usableIds, cur);
    }
  }

  lemma NoneDrawn(usable: seq<nat>, cur: nat, forbidden: set<nat>)
    requires Draw(usable, cur, forbidden).id.None?
    ensures Draw(usable, cur, forbidden) == Drawn(None, [], 0)
  {
  }

  lemma SplitPool(given: seq<nat>, usable: seq<nat>, cur: nat)
    requires Distinct(given + usable) && Above(given + usable, cur)
    ensures Distinct(usable) && Above(usable, cur) && Distinct(given) && Above(given, cur)
    ensures forall i, j :: 0 <= i < |given| && 0 <= j < |usable| ==> given[i] != usable[j]
  {
    var all := given + usable;
    assert forall i :: 0 <= i < |given| ==> all[i] == given[i];
    assert forall j :: 0 <= j < |usable| ==> all[|given| + j] == usable[j];
  }

  lemma GivenStaysValid(given: seq<nat>, usable: seq<nat>, cur: nat, forbidden: set<nat>)
    requires Distinct(given + usable) && Above(given + usable, cur) && Draw(usable, cur, forbidden).id.Some?
    ensures var d := Draw(usable, cur, forbidden);
            && Distinct(given + [d.id.value] + d.usable) && Above(given + [d.id.value] + d.usable, d.cur)
            && d.id.value !in given
  {
    SplitPool(given, usable, cur);
    DrawnIsFresh(usable, cur, forbidden);
    var d := Draw(usable, cur, forbidden);
    var shift := |usable| - |d.usable|;
    assert forall j :: 0 <= j < |d.usable| ==> d.usable[j] == usable[shift + j];
    hide Draw;
    if d.id.value in usable { var j :| 0 <= j < |usable| && usable[j] == d.id.value; }
  }

  lemma FailedStaysValid(given: seq<nat>, usable: seq<nat>, cur: nat, usable': seq<nat>, cur': nat)
    requires Distinct(given + usable) && Above(given + usable, cur) && usable' == [] && cur' <= cur
    ensures Distinct(given + usable') && Above(given + usable', cur')
  {
    SplitPool(given, usable, cur);
    assert given + usable' == given;
  }

  // ---------------------------------------------------------------- rendering ghosts

  datatype Info<+I> = Info(stageId: Option<nat>, data: I)

  /** What the viewer of one ghost wants rendered: characters by stage, and infos by character id. */
  datatype Ghost<+R, +I> = Ghost(stages: map<nat, map<nat, R>>, infos: seq<(nat, Info<I>)>)

  ghost predicate DistinctIds<R, I>(g: Ghost<R, I>) {
    forall i, j :: 0 <= i < j < |g.infos| ==> g.infos[i].0 != g.infos[j].0
  }

  /** The character an info belongs to, if its stage has it. */
  function CharacterOf<R, I>(stages: map<nat, map<nat, R>>, info: (nat, Info<I>)): Option<R> {
    var stage := info.1.stageId;
    if stage.Some? && stage.value in stages && info.0 in stages[stage.value]
    then Some(stages[stage.value][info.0]) else None
  }

  function Taken<R, I>(stages: map<nat, map<nat, R>>, info: (nat, Info<I>)): map<nat, map<nat, R>> {
    if CharacterOf(stages, info).Some?
    then stages[info.1.stageId.value := stages[info.1.stageId.value] - {info.0}]
    else stages
  }

  /** Taking out one character leaves the others. */
  lemma TakenKeepsOthers<R, I>(stages: map<nat, map<nat, R>>, info: (nat, Info<I>), other: (nat, Info<I>))
    requires info.0 != other.0
    ensures CharacterOf(Taken(stages, info), other) == CharacterOf(stages, other)
  {
  }

  ghost predicate Kept<V>(before: map<nat, V>, after: map<nat, V>) {
    forall k :: k in before ==> k in after && after[k] == before[k]
  }

  lemma AddedKept<V>(m: map<nat, V>, k: nat, v: V)
    requires k !in m
    ensures Kept(m, m[k := v]) && |m[k := v]| == |m| + 1
  {
    assert m[k := v].Keys == m.Keys + {k};
  }

  lemma KeptTwice<V>(a: map<nat, V>, b: map<nat, V>, c: map<nat, V>)
    requires Kept(a, b) && Kept(b, c)
    ensures Kept(a, c)
  {
  }

  /** The first infos of a ghost are placed under new ids, and nothing that was there is changed. */
  ghost predicate InfosPlaced<R, I>(g: Ghost<R, I>, ids: seq<nat>, chars: map<nat, Info<I>>,
                                    chars': map<nat, Info<I>>) {
    && Kept(chars, chars')
    && AllEntered(g, ids, chars, chars')
    && |chars'| == |chars| + |ids|
    && chars'.Keys == chars.Keys + Elements(ids)
  }

  ghost predicate AllEntered<R, I>(g: Ghost<R, I>, ids: seq<nat>, chars: map<nat, Info<I>>, chars': map<nat, Info<I>>) {
    && |ids| <= |g.infos|
    && forall j :: 0 <= j < |ids| ==> EnteredAs(ids[j], g.infos[j].1, chars, chars')
  }

  ghost predicate EnteredAs<V>(id: nat, v: V, before: map<nat, V>, after: map<nat, V>) {
    id !in before && id in after && after[id] == v
  }

  /** The stage holds the characters of these infos, under the same ids, and no others. */
  ghost predicate CharactersPlaced<R, I>(g: Ghost<R, I>, ids: seq<nat>, stage: map<nat, R>) {
    && |ids| <= |g.infos|
    && (forall j :: 0 <= j < |ids| ==>
          var c := CharacterOf(g.stages, g.infos[j]);
          if c.Some? then ids[j] in stage && stage[ids[j]] == c.value else ids[j] !in stage)
    && (forall k :: k in stage ==> k in ids)
  }

  lemma {:induction false} EntryAdded<V>(before: map<nat, V>, m: map<nat, V>, after: map<nat, V>, k: nat)
    requires Kept(before, m) && k !in m && k in after && after == m[k := after[k]]
    ensures Kept(before, after) && |after| == |m| + 1 && after.Keys == m.Keys + {k}
  {
    AddedKept(m, k, after[k]);
    KeptTwice(before, m, after);
  }

  lemma {:induction false} PlaceInfo<R, I>(g: Ghost<R, I>, ids: seq<nat>, chars: map<nat, Info<I>>,
                                           chars': map<nat, Info<I>>, id: nat)
    requires InfosPlaced(g, ids, chars, chars') && |ids| < |g.infos| && id !in chars'
    ensures InfosPlaced(g, ids + [id], chars, chars'[id := g.infos[|ids|].1])
    ensures id !in ids
  {
    var v := g.infos[|ids|].1;
    hide *;
    EnterOne(g, ids, chars, chars', chars'[id := v], id);
  }

  lemma {:induction false} EnterOne<R, I>(g: Ghost<R, I>, ids: seq<nat>, chars: map<nat, Info<I>>,
                                          chars': map<nat, Info<I>>, after: map<nat, Info<I>>, id: nat)
    requires InfosPlaced(g, ids, chars, chars') && |ids| < |g.infos| && id !in chars'
    requires id in after && after[id] == g.infos[|ids|].1 && after == chars'[id := after[id]]
    ensures InfosPlaced(g, ids + [id], chars, after)
    ensures id !in ids
  {
    EntryAdded(chars, chars', after, id);
    IdsAreIn(ids, chars, chars', id);
    ElementsSnoc(ids, id);
    EnteredSnoc(g, ids, chars, chars', after, id);
    hide Kept, AllEntered, Elements;
    UnionSnoc(chars.Keys, chars'.Keys, after.Keys, Elements(ids), Elements(ids + [id]), id);
  }

  lemma UnionSnoc(base: set<nat>, now: set<nat>, next: set<nat>, some: set<nat>, more: set<nat>, id: nat)
    requires now == base + some && next == now + {id} && more == some + {id}
    ensures next == base + more
  {
  }

  lemma {:induction false} EnteredSnoc<R, I>(g: Ghost<R, I>, ids: seq<nat>, chars: map<nat, Info<I>>,
                                             chars': map<nat, Info<I>>, after: map<nat, Info<I>>, id: nat)
    requires AllEntered(g, ids, chars, chars') && |ids| < |g.infos| && Kept(chars, chars') && id !in chars'
    requires id in after && after[id] == g.infos[|ids|].1 && after == chars'[id := after[id]]
    ensures AllEntered(g, ids + [id], chars, after)
  {
    var r := ids + [id];
    NewIsEntered(chars, chars', id, after[id]);
    hide EnteredAs, Kept;
    forall j | 0 <= j < |r| ensures EnteredAs(r[j], g.infos[j].1, chars, after) {
      if j < |ids| {
        assert r[j] == ids[j];
        EnteredStays(ids[j], g.infos[j].1, chars, chars', id, after[id]);
      }
    }
  }

  lemma IdsAreIn<V>(ids: seq<nat>, before: map<nat, V>, m: map<nat, V>, id: nat)
    requires m.Keys == before.Keys + Elements(ids) && id !in m
    ensures id !in ids
  {
    ElementsSnoc(ids, id);
  }

  lemma NewIsEntered<V>(before: map<nat, V>, m: map<nat, V>, k: nat, v: V)
    requires Kept(before, m) && k !in m
    ensures EnteredAs(k, v, before, m[k := v])
  {
  }

  lemma EnteredStays<V>(id: nat, w: V, before: map<nat, V>, m: map<nat, V>, k: nat, v: V)
    requires EnteredAs(id, w, before, m) && k !in m
    ensures EnteredAs(id, w, before, m[k := v])
  {
  }

  lemma {:induction false} PlaceCharacter<R, I>(g: Ghost<R, I>, ids: seq<nat>, stage: map<nat, R>, id: nat)
    requires CharactersPlaced(g, ids, stage) && |ids| < |g.infos| && id !in ids
    ensures var c := CharacterOf(g.stages, g.infos[|ids|]);
            CharactersPlaced(g, ids + [id], if c.Some? then stage[id := c.value] else stage)
  {
    hide CharacterOf;
    var r := ids + [id];
    assert r[|ids|] == id;
    assert forall j :: 0 <= j < |ids| ==> r[j] == ids[j] && ids[j] != id;
    assert id !in stage;
  }

  lemma InfosKept<R, I>(g: Ghost<R, I>, ids: seq<nat>, chars: map<nat, Info<I>>, chars': map<nat, Info<I>>)
    requires InfosPlaced(g, ids, chars, chars')
    ensures Kept(chars, chars') && |chars'| == |chars| + |ids| && chars'.Keys == chars.Keys + Elements(ids)
  {
  }

  lemma PlacedNothing<R, I>(g: Ghost<R, I>, chars: map<nat, Info<I>>)
    ensures InfosPlaced(g, [], chars, chars) && CharactersPlaced(g, [], map[])
  {
  }

  /** What is forbidden when these ids are drawn one after the other for the infos of a ghost. */
  ghost function Asks(base: set<nat>, ids: seq<nat>): seq<set<nat>> {
    if ids == [] then [] else Asks(base, Init(ids)) + [base + Elements(Init(ids))]
  }

  lemma AsksSnoc(base: set<nat>, ids: seq<nat>, id: nat)
    ensures Asks(base, ids + [id]) == Asks(base, ids) + [base + Elements(ids)]
  {
    assert Init(ids + [id]) == ids;
  }

  method PlaceGhost<R, I>(pool: IdPool, stages: map<nat, map<nat, R>>, chars: map<nat, Info<I>>, g: Ghost<R, I>)
    returns (stages': map<nat, map<nat, R>>, chars': map<nat, Info<I>>, ok: bool, ghost stageId: nat,
            ghost ids: seq<nat>)
    requires pool.Valid() && DistinctIds(g)
    modifies pool
    ensures pool.Valid() && pool.start == old(pool.start)
    ensures ok ==> && pool.nextIds == old(pool.nextIds) + [stageId] + ids && |ids| == |g.infos|
                   && pool.asked == old(pool.asked) + [stages.Keys] + Asks(chars.Keys, ids)
                   && pool.failed == old(pool.failed)
                   && stageId !in stages && stageId in stages' && stages' == stages[stageId := stages'[stageId]]
                   && InfosPlaced(g, ids, chars, chars') && CharactersPlaced(g, ids, stages'[stageId])
    ensures !ok ==> pool.usableIds == [] && pool.cur == 0
  {
    hide *;
    stages', chars', ok, stageId, ids := stages, chars, false, 0, [];
    var newStage := pool.NextId(stages.Keys);
    if newStage.None? {
      NoneDrawn(old(pool.usableIds), old(pool.cur), stages.Keys);
      return;
    }
    stageId := newStage.value;
    var stage;
    stage, chars', ok, ids := PlaceInfos(pool, chars, g);
    if ok { stages' := stages[newStage.value := stage]; }
  }

  /** From info `i` on the stages still have all characters. */
  ghost predicate Remaining<R, I>(rest: map<nat, map<nat, R>>, g: Ghost<R, I>, i: nat) {
    forall j :: i <= j < |g.infos| ==> CharacterOf(rest, g.infos[j]) == CharacterOf(g.stages, g.infos[j])
  }

  lemma {:induction false} RemainingStep<R, I>(rest: map<nat, map<nat, R>>, g: Ghost<R, I>, i: nat)
    requires DistinctIds(g) && i < |g.infos| && Remaining(rest, g, i)
    ensures Remaining(Taken(rest, g.infos[i]), g, i + 1)
    ensures CharacterOf(rest, g.infos[i]) == CharacterOf(g.stages, g.infos[i])
  {
    hide CharacterOf, Taken;
    forall j | i < j < |g.infos|
      ensures CharacterOf(Taken(rest, g.infos[i]), g.infos[j]) == CharacterOf(rest, g.infos[j])
    {
      TakenKeepsOthers(rest, g.infos[i], g.infos[j]);
    }
  }

  /** A ghost after its first infos. */
  ghost predicate Halfway<R, I>(g: Ghost<R, I>, rest: map<nat, map<nat, R>>, chars: map<nat, Info<I>>,
                                chars': map<nat, Info<I>>, stage: map<nat, R>, ids: seq<nat>) {
    InfosPlaced(g, ids, chars, chars') && CharactersPlaced(g, ids, stage) && Remaining(rest, g, |ids|)
  }

  lemma {:induction false} HalfwayStep<R, I>(g: Ghost<R, I>, rest: map<nat, map<nat, R>>, chars: map<nat, Info<I>>,
                                             chars': map<nat, Info<I>>, stage: map<nat, R>, ids: seq<nat>, id: nat)
    requires DistinctIds(g) && Halfway(g, rest, chars, chars', stage, ids) && |ids| < |g.infos| && id !in chars'
    ensures var info := g.infos[|ids|];
            var c := CharacterOf(rest, info);
            var stage' := if c.Some? then stage[id := c.value] else stage;
            Halfway(g, Taken(rest, info), chars, chars'[id := info.1], stage', ids + [id])
  {
    hide InfosPlaced, CharactersPlaced, Remaining, CharacterOf, Taken, DistinctIds;
    PlaceInfo(g, ids, chars, chars', id);
    PlaceCharacter(g, ids, stage, id);
    RemainingStep(rest, g, |ids|);
  }

  lemma HalfwayMeans<R, I>(g: Ghost<R, I>, rest: map<nat, map<nat, R>>, chars: map<nat, Info<I>>,
                           chars': map<nat, Info<I>>, stage: map<nat, R>, ids: seq<nat>)
    requires Halfway(g, rest, chars, chars', stage, ids)
    ensures InfosPlaced(g, ids, chars, chars') && CharactersPlaced(g, ids, stage)
    ensures chars'.Keys == chars.Keys + Elements(ids)
  {
    hide CharactersPlaced, Remaining, Elements, Kept, AllEntered;
  }

  lemma NothingTaken<R, I>(g: Ghost<R, I>, chars: map<nat, Info<I>>)
    ensures Halfway(g, g.stages, chars, chars, map[], []) && Asks(chars.Keys, []) == []
  {
    PlacedNothing(g, chars);
  }

  /** The loop over the infos of one ghost. */
  method PlaceInfos<R, I>(pool: IdPool, chars: map<nat, Info<I>>, g: Ghost<R, I>)
    returns (stage: map<nat, R>, chars': map<nat, Info<I>>, ok: bool, ghost ids: seq<nat>)
    requires pool.Valid() && DistinctIds(g)
    modifies pool
    ensures pool.Valid() && pool.start == old(pool.start)
    ensures ok ==> && pool.nextIds == old(pool.nextIds) + ids && |ids| == |g.infos|
                   && pool.asked == old(pool.asked) + Asks(chars.Keys, ids) && pool.failed == old(pool.failed)
                   && InfosPlaced(g, ids, chars, chars') && CharactersPlaced(g, ids, stage)
    ensures !ok ==> pool.usableIds == [] && pool.cur == 0
  {
    hide *;
    stage, chars', ok, ids := map[], chars, false, [];
    var rest := g.stages;
    var i := 0;
    NothingTaken(g, chars);
    while i < |g.infos|
      invariant i <= |g.infos| && |ids| == i
      invariant pool.Valid() && pool.nextIds == old(pool.nextIds) + ids && pool.start == old(pool.start)
      invariant pool.asked == old(pool.asked) + Asks(chars.Keys, ids) && pool.failed == old(pool.failed)
      invariant Halfway(g, rest, chars, chars', stage, ids)
    {
      var info := g.infos[i];
      HalfwayMeans(g, rest, chars, chars', stage, ids);
      ghost var usable, cur := pool.usableIds, pool.cur;
      var id := pool.NextId(chars'.Keys);
      if id.None? {
        NoneDrawn(usable, cur, chars'.Keys);
        return;
      }
      HalfwayStep(g, rest, chars, chars', stage, ids, id.value);
      AsksSnoc(chars.Keys, ids, id.value);
      var c := CharacterOf(rest, info);
      stage := if c.Some? then stage[id.value := c.value] else stage;
      rest, chars', ids := Taken(rest, info), chars'[id.value := info.1], ids + [id.value];
      i := i + 1;
    }
    HalfwayMeans(g, rest, chars, chars', stage, ids);
    ok := true;
  }

  function Total<R, I>(ghosts: seq<Ghost<R, I>>): nat {
    if ghosts == [] then 0 else Total(Init(ghosts)) + |Last(ghosts).infos|
  }

  /** In which order ids are given: one for the stage of a ghost (true), then one for each info. */
  function Slots<R, I>(ghosts: seq<Ghost<R, I>>): (r: seq<bool>)
    ensures |r| == |ghosts| + Total(ghosts)
  {
    if ghosts == [] then [] else Slots(Init(ghosts)) + [true] + InfoSlots(|Last(ghosts).infos|)
  }

  function InfoSlots(n: nat): (r: seq<bool>)
    ensures |r| == n
  {
    if n == 0 then [] else InfoSlots(n - 1) + [false]
  }

  /** What was there before the frame, of the kind the id is for. */
  function There(slot: bool, stages: set<nat>, chars: set<nat>): set<nat> {
    if slot then stages else chars
  }

  /** Forbidden is what was there before, and at most what was given in this frame as well. */
  ghost predicate Forbids(asked: seq<set<nat>>, slots: seq<bool>, stages: set<nat>, chars: set<nat>, given: seq<nat>) {
    && |asked| == |slots| == |given|
    && forall i :: 0 <= i < |asked| ==>
         There(slots[i], stages, chars) <= asked[i] <= There(slots[i], stages, chars) + Elements(given[..i])
  }

  lemma {:induction false} ForbidsStep(asked: seq<set<nat>>, slots: seq<bool>, stages: set<nat>, chars: set<nat>,
                                       given: seq<nat>, f: set<nat>, slot: bool, id: nat)
    requires Forbids(asked, slots, stages, chars, given)
    requires There(slot, stages, chars) <= f <= There(slot, stages, chars) + Elements(given)
    ensures Forbids(asked + [f], slots + [slot], stages, chars, given + [id])
  {
    hide Elements, There;
    var a, s, g := asked + [f], slots + [slot], given + [id];
    forall i | 0 <= i < |a|
      ensures There(s[i], stages, chars) <= a[i] <= There(s[i], stages, chars) + Elements(g[..i])
    {
      if i < |asked| {
        assert a[i] == asked[i] && s[i] == slots[i] && g[..i] == given[..i];
      } else {
        assert g[..i] == given;
      }
    }
  }

  lemma {:induction false} ForbidsInfos(asked: seq<set<nat>>, slots: seq<bool>, stages: set<nat>, chars: set<nat>,
                                        given: seq<nat>, chars': set<nat>, ids: seq<nat>)
    requires Forbids(asked, slots, stages, chars, given) && chars <= chars' <= chars + Elements(given)
    ensures Forbids(asked + Asks(chars', ids), slots + InfoSlots(|ids|), stages, chars, given + ids)
    ensures chars <= chars' + Elements(ids) <= chars + Elements(given + ids)
  {
    if ids == [] {
      assert asked + [] == asked && slots + [] == slots && given + [] == given;
    } else {
      var front, id := Init(ids), Last(ids);
      ForbidsInfos(asked, slots, stages, chars, given, chars', front);
      assert ids == front + [id] && given + ids == (given + front) + [id];
      AsksSnoc(chars', front, id);
      ElementsSnoc(front, id);
      ElementsSnoc(given + front, id);
      assert asked + Asks(chars', ids) == (asked + Asks(chars', front)) + [chars' + Elements(front)];
      assert slots + InfoSlots(|ids|) == (slots + InfoSlots(|front|)) + [false];
      hide Elements, Asks, Forbids;
      ForbidsStep(asked + Asks(chars', front), slots + InfoSlots(|front|), stages, chars, given + front,
                  chars' + Elements(front), false, id);
    }
  }

  /** The draws for one more ghost. */
  lemma {:induction false} ForbidsGhost(asked: seq<set<nat>>, slots: seq<bool>, stages: set<nat>, chars: set<nat>,
                                        given: seq<nat>, stages': set<nat>, chars': set<nat>, stageId: nat,
                                        ids: seq<nat>)
    requires Forbids(asked, slots, stages, chars, given)
    requires Grown(stages, stages', given) && Grown(chars, chars', given)
    ensures Forbids(asked + [stages'] + Asks(chars', ids), slots + [true] + InfoSlots(|ids|), stages, chars,
                    given + [stageId] + ids)
    ensures Grown(stages, stages' + {stageId}, given + [stageId] + ids)
    ensures Grown(chars, chars' + Elements(ids), given + [stageId] + ids)
  {
    ForbidsStep(asked, slots, stages, chars, given, stages', true, stageId);
    ElementsSnoc(given, stageId);
    ForbidsInfos(asked + [stages'], slots + [true], stages, chars, given + [stageId], chars', ids);
    MoreElements(given + [stageId], ids);
  }

  lemma MoreElements(a: seq<nat>, b: seq<nat>)
    ensures Elements(a) <= Elements(a + b)
  {
    assert forall i :: 0 <= i < |a| ==> (a + b)[i] == a[i];
  }

  /** The ids of the last frame are given again, as far as both frames go. */
  ghost predicate GivenAgain(ids: seq<nat>, given: seq<nat>) {
    forall i :: 0 <= i < Min(|ids|, |given|) ==> given[i] == ids[i]
  }

  /** No id of the last frame, as far as both frames go, is taken by something that is there already. */
  ghost predicate NoneTaken(ids: seq<nat>, slots: seq<bool>, stages: set<nat>, chars: set<nat>) {
    forall i :: 0 <= i < Min(|ids|, |slots|) ==> ids[i] !in There(slots[i], stages, chars)
  }

  lemma {:induction false} AgainIsSamePrefix(ids: seq<nat>, given: seq<nat>)
    ensures SamePrefix(ids, Somes(given)) <==> GivenAgain(ids, given)
  {
    if SamePrefix(ids, Somes(given)) {
      forall i | 0 <= i < Min(|ids|, |given|) ensures given[i] == ids[i] { assert Somes(given)[i] == Some(ids[i]); }
    }
  }

  /** Ids that are given again cannot be in each other's way. */
  lemma {:induction false} AllowedIffNoneTaken(ids: seq<nat>, rest: seq<nat>, cur: nat, asked: seq<set<nat>>,
                                               slots: seq<bool>, stages: set<nat>, chars: set<nat>, given: seq<nat>)
    requires Forbids(asked, slots, stages, chars, given) && Distinct(ids)
    requires DrawAll(ids + rest, cur, asked) == Somes(given)
    ensures GivenAgain(ids, given) <==> NoneTaken(ids, slots, stages, chars)
    decreases |asked|
  {
    AgainIffAllowed(ids, rest, cur, asked, given);
    if asked == [] {
      NothingForbidden(ids, stages, chars);
      assert slots == [];
    } else {
      InitForbids(asked, slots, stages, chars, given);
      InitDrawn(ids + rest, cur, asked, given);
      hide *;
      AllowedIffNoneTaken(ids, rest, cur, Init(asked), Init(slots), stages, chars, Init(given));
      AgainIffAllowed(ids, rest, cur, Init(asked), Init(given));
      AllowedStep(ids, asked);
      TakenStep(ids, slots, stages, chars);
      if GivenAgain(ids, Init(given)) && |asked| <= |ids| { LastTaken(ids, asked, slots, stages, chars, given); }
    }
  }

  lemma NothingForbidden(ids: seq<nat>, stages: set<nat>, chars: set<nat>)
    ensures AllAllowed(ids, []) && NoneTaken(ids, [], stages, chars)
  {
  }

  lemma {:induction false} AgainIffAllowed(ids: seq<nat>, rest: seq<nat>, cur: nat, asked: seq<set<nat>>,
                                           given: seq<nat>)
    requires DrawAll(ids + rest, cur, asked) == Somes(given)
    ensures GivenAgain(ids, given) <==> AllAllowed(ids, asked)
  {
    hide *;
    StableAcrossFrames(ids, rest, cur, asked);
    AgainIsSamePrefix(ids, given);
  }

  lemma {:induction false} InitDrawn(usable: seq<nat>, cur: nat, asked: seq<set<nat>>, given: seq<nat>)
    requires DrawAll(usable, cur, asked) == Somes(given) && asked != [] && given != []
    ensures DrawAll(usable, cur, Init(asked)) == Somes(Init(given))
  {
    hide PoolAfter, Draw;
    assert DrawAll(usable, cur, Init(asked)) == Init(DrawAll(usable, cur, asked));
  }

  lemma {:induction false} AllowedStep(ids: seq<nat>, asked: seq<set<nat>>)
    requires asked != []
    ensures AllAllowed(ids, asked)
            <==> AllAllowed(ids, Init(asked)) && (|asked| <= |ids| ==> ids[|asked| - 1] !in Last(asked))
  {
    var n: nat := |asked| - 1;
    assert asked == Init(asked) + [Last(asked)];
    PrefixStep(ids, seq(n, _ => None), None, Init(asked), Last(asked));
  }

  lemma InitForbids(asked: seq<set<nat>>, slots: seq<bool>, stages: set<nat>, chars: set<nat>, given: seq<nat>)
    requires Forbids(asked, slots, stages, chars, given) && asked != []
    ensures Forbids(Init(asked), Init(slots), stages, chars, Init(given)) && |asked| == |slots| == |given|
  {
    hide There, Elements;
    forall i | 0 <= i < |asked| - 1 ensures Init(given)[..i] == given[..i] {}
  }

  lemma TakenStep(ids: seq<nat>, slots: seq<bool>, stages: set<nat>, chars: set<nat>)
    requires slots != []
    ensures NoneTaken(ids, slots, stages, chars)
            <==> NoneTaken(ids, Init(slots), stages, chars)
                 && (|slots| <= |ids| ==> ids[|slots| - 1] !in There(Last(slots), stages, chars))
  {
    hide There;
    assert forall i :: 0 <= i < |slots| - 1 ==> Init(slots)[i] == slots[i];
  }

  /** The next id is not among those given before it, so only what was there can forbid it. */
  lemma {:induction false} LastTaken(ids: seq<nat>, asked: seq<set<nat>>, slots: seq<bool>, stages: set<nat>,
                                     chars: set<nat>, given: seq<nat>)
    requires Forbids(asked, slots, stages, chars, given) && Distinct(ids) && asked != [] && |asked| <= |ids|
    requires GivenAgain(ids, Init(given))
    ensures ids[|asked| - 1] in Last(asked) <==> ids[|asked| - 1] in There(Last(slots), stages, chars)
  {
    var n := |asked| - 1;
    assert given[..n] == Init(given);
    forall x | x in Elements(Init(given)) ensures x != ids[n] {
      var i :| 0 <= i < n && Init(given)[i] == x;
      assert Init(given)[i] == ids[i];
    }
  }

  lemma SlotsStep<R, I>(ghosts: seq<Ghost<R, I>>, i: nat)
    requires i < |ghosts|
    ensures Slots(ghosts[..i + 1]) == Slots(ghosts[..i]) + [true] + InfoSlots(|ghosts[i].infos|)
    ensures Total(ghosts[..i + 1]) == Total(ghosts[..i]) + |ghosts[i].infos|
  {
    assert Init(ghosts[..i + 1]) == ghosts[..i];
  }

  /** The frame after its first `i` ghosts. */
  ghost predicate Placing<R, I>(ghosts: seq<Ghost<R, I>>, i: nat, stages: map<nat, map<nat, R>>,
                                chars: map<nat, Info<I>>, stages': map<nat, map<nat, R>>, chars': map<nat, Info<I>>,
                                asked: seq<set<nat>>, given: seq<nat>) {
    && i <= |ghosts|
    && Kept(stages, stages') && |stages'| == |stages| + i && Grown(stages.Keys, stages'.Keys, given)
    && Kept(chars, chars') && |chars'| == |chars| + Total(ghosts[..i]) && Grown(chars.Keys, chars'.Keys, given)
    && Forbids(asked, Slots(ghosts[..i]), stages.Keys, chars.Keys, given)
  }

  /** Only ids that were given are new. */
  ghost predicate Grown(before: set<nat>, now: set<nat>, given: seq<nat>) {
    before <= now <= before + Elements(given)
  }

  lemma {:induction false} PlacingStep<R, I>(ghosts: seq<Ghost<R, I>>, i: nat, stages: map<nat, map<nat, R>>,
                                             chars: map<nat, Info<I>>, stages1: map<nat, map<nat, R>>,
                                             chars1: map<nat, Info<I>>, asked: seq<set<nat>>, given: seq<nat>,
                                             stages2: map<nat, map<nat, R>>, chars2: map<nat, Info<I>>, stageId: nat,
                                             ids: seq<nat>)
    requires Placing(ghosts, i, stages, chars, stages1, chars1, asked, given) && i < |ghosts|
    requires stageId !in stages1 && stageId in stages2 && stages2 == stages1[stageId := stages2[stageId]]
    requires InfosPlaced(ghosts[i], ids, chars1, chars2) && |ids| == |ghosts[i].infos|
    ensures Placing(ghosts, i + 1, stages, chars, stages2, chars2, asked + [stages1.Keys] + Asks(chars1.Keys, ids),
                    given + [stageId] + ids)
  {
    EntryAdded(stages, stages1, stages2, stageId);
    hide Kept, InfosPlaced, Forbids, Slots, Total, Asks, Grown, Elements;
    SlotsStep(ghosts, i);
    InfosKept(ghosts[i], ids, chars1, chars2);
    KeptTwice(chars, chars1, chars2);
    ForbidsGhost(asked, Slots(ghosts[..i]), stages.Keys, chars.Keys, given, stages1.Keys, chars1.Keys, stageId, ids);
  }

  // ---------------------------------------------------------------- what is rendered

  /** The ids a ghost got: one for its stage and one for each of its infos. */
  datatype Placement = Placement(stageId: nat, ids: seq<nat>)

  /** Exactly the characters that the infos name in the stages of the ghost are in its new stage, under the
      ids of their infos. */
  ghost predicate StageHolds<R, I>(g: Ghost<R, I>, ids: seq<nat>, stage: map<nat, R>) {
    && |ids| == |g.infos|
    && (forall j :: 0 <= j < |ids| ==>
          var (id, info) := g.infos[j];
          if info.stageId.Some? && info.stageId.value in g.stages && id in g.stages[info.stageId.value]
          then ids[j] in stage && stage[ids[j]] == g.stages[info.stageId.value][id]
          else ids[j] !in stage)
    && (forall k :: k in stage ==> k in ids)
  }

  ghost predicate InfosHeld<R, I>(g: Ghost<R, I>, ids: seq<nat>, chars: map<nat, Info<I>>) {
    |ids| == |g.infos| && forall j :: 0 <= j < |ids| ==> ids[j] in chars && chars[ids[j]] == g.infos[j].1
  }

  ghost predicate GhostRendered<R, I>(g: Ghost<R, I>, p: Placement, stages: map<nat, map<nat, R>>,
                                      chars: map<nat, Info<I>>) {
    p.stageId in stages && StageHolds(g, p.ids, stages[p.stageId]) && InfosHeld(g, p.ids, chars)
  }

  ghost predicate EachRendered<R, I>(ghosts: seq<Ghost<R, I>>, placed: seq<Placement>, stages: map<nat, map<nat, R>>,
                                     chars: map<nat, Info<I>>) {
    && |placed| <= |ghosts|
    && forall i :: 0 <= i < |placed| ==> GhostRendered(ghosts[i], placed[i], stages, chars)
  }

  /** The first ghosts are rendered, and nothing else was added. */
  ghost predicate AllRendered<R, I>(ghosts: seq<Ghost<R, I>>, placed: seq<Placement>, stages: map<nat, map<nat, R>>,
                                    chars: map<nat, Info<I>>, stages': map<nat, map<nat, R>>,
                                    chars': map<nat, Info<I>>) {
    && EachRendered(ghosts, placed, stages', chars')
    && stages'.Keys == stages.Keys + StageIds(placed)
    && chars'.Keys == chars.Keys + InfoIds(placed)
  }

  ghost function StageIds(placed: seq<Placement>): set<nat> {
    set p | p in placed :: p.stageId
  }

  ghost function InfoIds(placed: seq<Placement>): set<nat> {
    set p, id | p in placed && id in p.ids :: id
  }

  /** The ids in the order they are given. */
  ghost function IdsOf(placed: seq<Placement>): seq<nat> {
    if placed == [] then [] else IdsOf(Init(placed)) + [Last(placed).stageId] + Last(placed).ids
  }

  lemma IdsOfSnoc(placed: seq<Placement>, p: Placement)
    ensures IdsOf(placed + [p]) == IdsOf(placed) + [p.stageId] + p.ids
    ensures StageIds(placed + [p]) == StageIds(placed) + {p.stageId}
    ensures InfoIds(placed + [p]) == InfoIds(placed) + Elements(p.ids)
  {
    var r := placed + [p];
    assert Init(r) == placed;
    assert forall q :: q in r <==> q in placed || q == p;
    assert forall id :: id in p.ids <==> id in Elements(p.ids);
  }

  lemma RenderedStays<R, I>(g: Ghost<R, I>, p: Placement, stages1: map<nat, map<nat, R>>, chars1: map<nat, Info<I>>,
                            stages2: map<nat, map<nat, R>>, chars2: map<nat, Info<I>>)
    requires GhostRendered(g, p, stages1, chars1) && Kept(stages1, stages2) && Kept(chars1, chars2)
    ensures GhostRendered(g, p, stages2, chars2)
  {
    hide StageHolds;
  }

  /** A ghost that was placed is rendered. */
  lemma {:induction false} PlacedIsRendered<R, I>(g: Ghost<R, I>, p: Placement, chars1: map<nat, Info<I>>,
                                                  stages2: map<nat, map<nat, R>>, chars2: map<nat, Info<I>>)
    requires p.stageId in stages2 && |p.ids| == |g.infos|
    requires InfosPlaced(g, p.ids, chars1, chars2) && CharactersPlaced(g, p.ids, stages2[p.stageId])
    ensures GhostRendered(g, p, stages2, chars2)
  {
    hide Kept;
    CharactersHeld(g, p.ids, stages2[p.stageId]);
    hide CharactersPlaced, StageHolds;
    forall j | 0 <= j < |p.ids| ensures p.ids[j] in chars2 && chars2[p.ids[j]] == g.infos[j].1 {
      assert EnteredAs(p.ids[j], g.infos[j].1, chars1, chars2);
    }
  }

  lemma CharactersHeld<R, I>(g: Ghost<R, I>, ids: seq<nat>, stage: map<nat, R>)
    requires CharactersPlaced(g, ids, stage) && |ids| == |g.infos|
    ensures StageHolds(g, ids, stage)
  {
  }

  lemma {:induction false} RenderedStep<R, I>(ghosts: seq<Ghost<R, I>>, placed: seq<Placement>, p: Placement,
                                              stages: map<nat, map<nat, R>>, chars: map<nat, Info<I>>,
                                              stages1: map<nat, map<nat, R>>, chars1: map<nat, Info<I>>,
                                              stages2: map<nat, map<nat, R>>, chars2: map<nat, Info<I>>)
    requires AllRendered(ghosts, placed, stages, chars, stages1, chars1) && |placed| < |ghosts|
    requires var g := ghosts[|placed|];
             && p.stageId !in stages1 && p.stageId in stages2 && |p.ids| == |g.infos|
             && stages2 == stages1[p.stageId := stages2[p.stageId]]
             && InfosPlaced(g, p.ids, chars1, chars2) && CharactersPlaced(g, p.ids, stages2[p.stageId])
    ensures AllRendered(ghosts, placed + [p], stages, chars, stages2, chars2)
  {
    hide EachRendered, GhostRendered, InfosPlaced, CharactersPlaced, Kept, StageIds, InfoIds, Elements;
    PlacedIsRendered(ghosts[|placed|], p, chars1, stages2, chars2);
    InfosKept(ghosts[|placed|], p.ids, chars1, chars2);
    AddedKept(stages1, p.stageId, stages2[p.stageId]);
    IdsOfSnoc(placed, p);
    EachRenderedStep(ghosts, placed, p, stages1, chars1, stages2, chars2);
    Unions(stages.Keys, StageIds(placed), {p.stageId});
    Unions(chars.Keys, InfoIds(placed), Elements(p.ids));
  }

  lemma Unions(a: set<nat>, b: set<nat>, c: set<nat>)
    ensures (a + b) + c == a + (b + c)
  {
  }

  lemma EachRenderedStep<R, I>(ghosts: seq<Ghost<R, I>>, placed: seq<Placement>, p: Placement,
                               stages1: map<nat, map<nat, R>>, chars1: map<nat, Info<I>>,
                               stages2: map<nat, map<nat, R>>, chars2: map<nat, Info<I>>)
    requires EachRendered(ghosts, placed, stages1, chars1) && |placed| < |ghosts|
    requires Kept(stages1, stages2) && Kept(chars1, chars2)
    requires GhostRendered(ghosts[|placed|], p, stages2, chars2)
    ensures EachRendered(ghosts, placed + [p], stages2, chars2)
  {
    var all := placed + [p];
    hide GhostRendered, Kept;
    forall i | 0 <= i < |all| ensures GhostRendered(ghosts[i], all[i], stages2, chars2) {
      if i < |placed| {
        assert all[i] == placed[i];
        RenderedStays(ghosts[i], placed[i], stages1, chars1, stages2, chars2);
      }
    }
  }

  lemma NothingRendered<R, I>(ghosts: seq<Ghost<R, I>>, stages: map<nat, map<nat, R>>, chars: map<nat, Info<I>>)
    ensures AllRendered(ghosts, [], stages, chars, stages, chars) && IdsOf([]) == []
  {
  }

  // ---------------------------------------------------------------- a frame

  lemma StartOfFrame<R, I>(pool: IdPool, ghosts: seq<Ghost<R, I>>, stages: map<nat, map<nat, R>>,
                           chars: map<nat, Info<I>>)
    requires pool.Valid() && pool.nextIds == [] && !pool.failed && pool.asked == []
    ensures pool.start == Pool(pool.usableIds, pool.cur) && Distinct(pool.usableIds)
    ensures Placing(ghosts, 0, stages, chars, stages, chars, [], [])
  {
    SplitPool(pool.nextIds, pool.usableIds, pool.cur);
    assert ghosts[..0] == [];
  }

  /** What the ids given in a frame have to do with those of the last one. */
  lemma {:induction false} EndOfFrame<R, I>(pool: IdPool, ghosts: seq<Ghost<R, I>>, stages: map<nat, map<nat, R>>,
                                            chars: map<nat, Info<I>>, stages': map<nat, map<nat, R>>,
                                            chars': map<nat, Info<I>>, lastGiven: seq<nat>)
    requires pool.Valid() && !pool.failed
             && Placing(ghosts, |ghosts|, stages, chars, stages', chars', pool.asked, pool.nextIds)
    requires lastGiven <= pool.start.usable && Distinct(pool.start.usable)
    ensures Kept(stages, stages') && |stages'| == |stages| + |ghosts|
    ensures Kept(chars, chars') && |chars'| == |chars| + Total(ghosts)
    ensures Distinct(pool.nextIds) && |pool.nextIds| == |ghosts| + Total(ghosts)
    ensures GivenAgain(lastGiven, pool.nextIds) <==> NoneTaken(lastGiven, Slots(ghosts), stages.Keys, chars.Keys)
  {
    assert ghosts[..|ghosts|] == ghosts;
    SplitPool(pool.nextIds, pool.usableIds, pool.cur);
    var rest := pool.start.usable[|lastGiven|..];
    assert pool.start.usable == lastGiven + rest;
    SplitDistinct(lastGiven, rest);
    hide GivenAgain, NoneTaken, Distinct, Kept, Grown, Slots, Asks, Follows, Above, Total;
    AllowedIffNoneTaken(lastGiven, rest, pool.start.cur, pool.asked, Slots(ghosts), stages.Keys, chars.Keys,
                        pool.nextIds);
  }

  lemma SplitDistinct(a: seq<nat>, b: seq<nat>)
    requires Distinct(a + b)
    ensures Distinct(a)
  {
    assert forall i :: 0 <= i < |a| ==> (a + b)[i] == a[i];
  }

  /** One frame: every ghost gets a stage and every character an id of its own, its new stage holds exactly
      its characters under these ids, and nothing that was rendered before is overwritten. The ids given are
      the first to be used in the next frame; those of the last frame, which are the first usable ones, are
      given again, as far as both go, exactly if none of them is taken by a stage or character that was there
      before. */
  method RenderGhosts<R, I>(pool: IdPool, stages: map<nat, map<nat, R>>, chars: map<nat, Info<I>>,
                            ghosts: seq<Ghost<R, I>>, ghost lastGiven: seq<nat>)
    returns (stages': map<nat, map<nat, R>>, chars': map<nat, Info<I>>, ok: bool, ghost given: seq<nat>,
            ghost placed: seq<Placement>)
    requires pool.Valid() && pool.nextIds == [] && forall i :: 0 <= i < |ghosts| ==> DistinctIds(ghosts[i])
    requires !pool.failed && pool.asked == [] && lastGiven <= pool.usableIds
    modifies pool
    ensures pool.Valid()
    ensures ok ==> |placed| == |ghosts| && AllRendered(ghosts, placed, stages, chars, stages', chars')
                   && given == IdsOf(placed)
    ensures ok ==> && Kept(stages, stages') && |stages'| == |stages| + |ghosts|
                   && Kept(chars, chars') && |chars'| == |chars| + Total(ghosts)
                   && Distinct(given) && |given| == |ghosts| + Total(ghosts)
                   && given <= pool.usableIds && pool.nextIds == [] && !pool.failed && pool.asked == []
                   && (GivenAgain(lastGiven, given) <==> NoneTaken(lastGiven, Slots(ghosts), stages.Keys, chars.Keys))
    ensures !ok ==> pool.usableIds == [] && pool.cur == 0
  {
    hide *;
    stages', chars', ok, given, placed := stages, chars, true, [], [];
    StartOfFrame(pool, ghosts, stages, chars);
    NothingRendered(ghosts, stages, chars);
    ghost var start := pool.start;
    var i := 0;
    while i < |ghosts|
      invariant i <= |ghosts| && pool.Valid() && pool.nextIds == given && !pool.failed && pool.start == start
      invariant Placing(ghosts, i, stages, chars, stages', chars', pool.asked, given)
      invariant |placed| == i && given == IdsOf(placed)
      invariant AllRendered(ghosts, placed, stages, chars, stages', chars')
    {
      ghost var stageId, ids;
      ghost var stagesBefore, charsBefore, asked := stages', chars', pool.asked;
      stages', chars', ok, stageId, ids := PlaceGhost(pool, stages', chars', ghosts[i]);
      if !ok { return; }
      PlacingStep(ghosts, i, stages, chars, stagesBefore, charsBefore, asked, given, stages', chars', stageId, ids);
      RenderedStep(ghosts, placed, Placement(stageId, ids), stages, chars, stagesBefore, charsBefore, stages', chars');
      IdsOfSnoc(placed, Placement(stageId, ids));
      given, placed := given + [stageId] + ids, placed + [Placement(stageId, ids)];
      i := i + 1;
    }
    EndOfFrame(pool, ghosts, stages, chars, stages', chars', lastGiven);
    pool.Swap();
  }
}
