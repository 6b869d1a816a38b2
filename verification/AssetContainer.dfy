/**
 The asset cache (`Container`, game/client-containers/src/container.rs): an insertion-ordered map
 whose entries move to the back when they are used, time-based eviction from the front that stops
 at the first entry to keep, a bounded table of loading tasks and a set of failed keys.

 Loading tasks finish at any time: every call is given the tasks that are finished by then.
 */
module AssetContainer {
  import opened OrderedMaps

  const CONTAINER_MAX_TASKS: nat := 16

  type Key = string

  /** An entry of the linked hash map; times are nanoseconds. */
  datatype Item<+A> = Item(key: Key, item: A, usedLastIn: nat)

  datatype LoadResult<+A> = Loaded(item: A) | LoadFailed

  // ---------------------------------------------------------------- the linked hash map

  function Find<A>(items: seq<Item<A>>, k: Key): (r: nat)
    ensures r <= |items|
    ensures r < |items| ==> items[r].key == k
  {
    if items == [] || items[0].key == k then 0 else 1 + Find(items[1..], k)
  }

  /** It is the first entry with that key. */
  lemma {:induction false} FindFirst<A>(items: seq<Item<A>>, k: Key)
    ensures forall i :: 0 <= i < Find(items, k) ==> items[i].key != k
  {
    if items == [] || items[0].key == k {
    } else {
      FindFirst(items[1..], k);
      forall i | 0 <= i < Find(items, k) ensures items[i].key != k {
        if i > 0 { assert items[i] == items[1..][i - 1]; }
      }
    }
  }

  predicate Has<A>(items: seq<Item<A>>, k: Key) {
    Find(items, k) < |items|
  }

  /** The item of a key that is in the map. */
  function Stored<A>(items: seq<Item<A>>, k: Key): A
    requires Has(items, k)
  {
    items[Find(items, k)].item
  }

  ghost predicate Distinct<A>(items: seq<Item<A>>) {
    forall i, j :: 0 <= i < j < |items| ==> items[i].key != items[j].key
  }

  /** Entries that were used earlier stand further in front. */
  ghost predicate ByUse<A>(items: seq<Item<A>>) {
    forall i, j :: 0 <= i < j < |items| ==> items[i].usedLastIn <= items[j].usedLastIn
  }

  ghost predicate UsedUpTo<A>(items: seq<Item<A>>, time: nat) {
    forall i :: 0 <= i < |items| ==> items[i].usedLastIn <= time
  }

  /** `to_back`, and the time of use is set. */
  function Touch<A>(items: seq<Item<A>>, k: Key, time: nat): seq<Item<A>> {
    var i := Find(items, k);
    if i == |items| then items else items[..i] + items[i + 1..] + [items[i].(usedLastIn := time)]
  }

  /** All keys of a list are touched, in order; missing ones are skipped. */
  function TouchAll<A>(items: seq<Item<A>>, ks: seq<Key>, time: nat): seq<Item<A>> {
    if ks == [] then items else Touch(TouchAll(items, Init(ks), time), Last(ks), time)
  }

  ghost predicate Ordered<A>(items: seq<Item<A>>, time: nat) {
    Distinct(items) && ByUse(items) && UsedUpTo(items, time)
  }

  lemma OrderedLater<A>(items: seq<Item<A>>, time: nat, later: nat)
    requires Ordered(items, time) && time <= later
    ensures Ordered(items, later)
  {
  }

  lemma FindAt<A>(items: seq<Item<A>>, i: nat)
    requires Distinct(items) && i < |items|
    ensures Find(items, items[i].key) == i
  {
    FindFirst(items, items[i].key);
    var j := Find(items, items[i].key);
    hide Find;
    assert j <= i;
  }

  /** `a` is in the map and stands before `b`, if that is in the map at all. */
  ghost predicate StandsBefore<A>(items: seq<Item<A>>, a: Key, b: Key) {
    Has(items, a) && Find(items, a) < Find(items, b)
  }

  lemma HasAt<A>(items: seq<Item<A>>, n: nat)
    requires n < |items|
    ensures Has(items, items[n].key)
  {
    FindFirst(items, items[n].key);
  }

  /** A new entry at the back. */
  lemma {:induction false} PushedOrdered<A>(items: seq<Item<A>>, e: Item<A>)
    requires Ordered(items, e.usedLastIn) && !Has(items, e.key)
    ensures Ordered(items + [e], e.usedLastIn)
  {
    var r := items + [e];
    assert forall n :: 0 <= n < |items| ==> r[n] == items[n];
    assert r[|items|] == e;
    hide Find;
    forall n: nat | n < |items| ensures r[n].key != e.key { HasAt(items, n); }
  }

  lemma {:induction false} FindConcat<A>(a: seq<Item<A>>, b: seq<Item<A>>, q: Key)
    ensures Find(a + b, q) == if Has(a, q) then Find(a, q) else |a| + Find(b, q)
  {
    if a == [] {
      assert a + b == b;
    } else {
      assert (a + b)[1..] == a[1..] + b;
      FindConcat(a[1..], b, q);
    }
  }

  lemma FindOne<A>(e: Item<A>, q: Key)
    ensures Find([e], q) == if e.key == q then 0 else 1
  {
  }

  /** An entry stands between those before it, none of which has its key, and those behind it. */
  lemma {:induction false} SplitAt<A>(items: seq<Item<A>>, k: Key)
    requires Distinct(items) && Has(items, k)
    ensures var i := Find(items, k);
            && items == items[..i] + ([items[i]] + items[i + 1..])
            && !Has(items[..i], k) && !Has(items[i + 1..], k)
  {
    hide *;
    HasIs(items, k);
    var i := Find(items, k);
    KeyOnce(items, i);
    NotThere(items[..i], k);
    NotThere(items[i + 1..], k);
  }

  lemma KeyOnce<A>(items: seq<Item<A>>, i: nat)
    requires Distinct(items) && i < |items|
    ensures forall n :: 0 <= n < |items| && n != i ==> items[n].key != items[i].key
  {
  }

  lemma NotThere<A>(items: seq<Item<A>>, k: Key)
    requires forall n :: 0 <= n < |items| ==> items[n].key != k
    ensures !Has(items, k)
  {
  }

  lemma {:induction false} RemovedOrdered<A>(items: seq<Item<A>>, i: nat, time: nat)
    requires Ordered(items, time) && i < |items|
    ensures Ordered(items[..i] + items[i + 1..], time)
  {
    var r := items[..i] + items[i + 1..];
    assert forall n :: 0 <= n < |r| ==> r[n] == items[if n < i then n else n + 1];
  }

  lemma TouchIs<A>(items: seq<Item<A>>, k: Key, time: nat)
    ensures Has(items, k) ==>
              var i := Find(items, k);
              Touch(items, k, time) == items[..i] + items[i + 1..] + [items[i].(usedLastIn := time)]
    ensures !Has(items, k) ==> Touch(items, k, time) == items
  {
  }

  lemma {:induction false} TouchOrdered<A>(items: seq<Item<A>>, k: Key, time: nat)
    requires Ordered(items, time)
    ensures Ordered(Touch(items, k, time), time)
    ensures |Touch(items, k, time)| == |items|
  {
    OrderedDistinct(items, time);
    hide *;
    TouchIs(items, k, time);
    HasIs(items, k);
    if Has(items, k) {
      var i := Find(items, k);
      SplitAt(items, k);
      RemovedOrdered(items, i, time);
      FindConcat(items[..i], items[i + 1..], k);
      HasIs(items[i + 1..], k);
      HasIs(items[..i] + items[i + 1..], k);
      PushedOrdered(items[..i] + items[i + 1..], items[i].(usedLastIn := time));
    }
  }

  lemma OrderedDistinct<A>(items: seq<Item<A>>, time: nat)
    requires Ordered(items, time)
    ensures Distinct(items)
  {
  }

  lemma HasIs<A>(items: seq<Item<A>>, k: Key)
    ensures Has(items, k) <==> Find(items, k) < |items|
  {
  }

  /** Touching one key moves it to the back and changes nothing else. */
  lemma {:induction false} FindTouch<A>(items: seq<Item<A>>, k: Key, time: nat, q: Key)
    requires Distinct(items)
    ensures var r, i, n := Touch(items, k, time), Find(items, k), Find(items, q);
            && (Has(r, q) <==> Has(items, q))
            && (Has(items, q) ==>
                  if q == k then Find(r, q) == |items| - 1 && r[Find(r, q)] == items[n].(usedLastIn := time)
                  else Find(r, q) == (if n < i then n else n - 1) && r[Find(r, q)] == items[n])
            && |r| == |items|
  {
    hide *;
    TouchIs(items, k, time);
    HasIs(items, k);
    HasIs(items, q);
    HasIs(Touch(items, k, time), q);
    if Has(items, k) {
      var i, n := Find(items, k), Find(items, q);
      var e := items[i].(usedLastIn := time);
      var a, z := items[..i], items[i + 1..];
      SplitAt(items, k);
      FindSplit(a, items[i], e, z, q);
      MovedAt(items, i, e, n);
      assert |a| == i && |z| == |items| - i - 1;
    }
  }

  /** Where a key is found before and after an entry is moved to the back. */
  lemma {:induction false} FindSplit<A>(a: seq<Item<A>>, e: Item<A>, moved: Item<A>, z: seq<Item<A>>, q: Key)
    requires moved.key == e.key && !Has(a, e.key) && !Has(z, e.key)
    ensures Find(a + ([e] + z), q) == if Has(a, q) then Find(a, q) else if e.key == q then |a| else |a| + 1 + Find(z, q)
    ensures Find(a + z + [moved], q)
         == if Has(a, q) then Find(a, q) else if Has(z, q) then |a| + Find(z, q)
            else if e.key == q then |a| + |z| else |a| + |z| + 1
    ensures Find(a, q) <= |a| && Find(z, q) <= |z| && (Has(a, q) <==> Find(a, q) < |a|)
            && (Has(z, q) <==> Find(z, q) < |z|)
  {
    hide *;
    HasIs(a, q);
    HasIs(z, q);
    HasIs([e], q);
    HasIs(a + z, q);
    FindConcat(a, [e] + z, q);
    FindConcat([e], z, q);
    FindConcat(a + z, [moved], q);
    FindConcat(a, z, q);
    FindOne(e, q);
    FindOne(moved, q);
  }

  lemma MovedAt<A>(items: seq<Item<A>>, i: nat, e: Item<A>, n: nat)
    requires i < |items|
    ensures var r := items[..i] + items[i + 1..] + [e];
            && |r| == |items| && r[|items| - 1] == e
            && (n < i ==> r[n] == items[n])
            && (i < n < |items| ==> r[n - 1] == items[n])
  {
  }

  lemma {:induction false} TouchAllOrdered<A>(items: seq<Item<A>>, ks: seq<Key>, time: nat)
    requires Ordered(items, time)
    ensures Ordered(TouchAll(items, ks, time), time) && |TouchAll(items, ks, time)| == |items|
  {
    if ks == [] {
    } else {
      TouchAllOrdered(items, Init(ks), time);
      TouchOrdered(TouchAll(items, Init(ks), time), Last(ks), time);
    }
  }

  /** Touching keys keeps all keys; touched ones carry the new time, others stand where they stood
      relative to each other. */
  lemma {:induction false} FindTouchAll<A>(items: seq<Item<A>>, ks: seq<Key>, time: nat, q: Key)
    requires Ordered(items, time)
    ensures var r := TouchAll(items, ks, time);
            && (Has(r, q) <==> Has(items, q))
            && (Has(items, q) ==> r[Find(r, q)].item == items[Find(items, q)].item)
            && (Has(items, q) && q in ks ==> r[Find(r, q)].usedLastIn == time)
            && (Has(items, q) && q !in ks ==> r[Find(r, q)].usedLastIn == items[Find(items, q)].usedLastIn)
  {
    if ks == [] {
    } else {
      TouchAllOrdered(items, Init(ks), time);
      FindTouchAll(items, Init(ks), time, q);
      FindTouch(TouchAll(items, Init(ks), time), Last(ks), time, q);
    }
  }

  lemma TouchKeepsBefore<A>(items: seq<Item<A>>, k: Key, time: nat, a: Key, b: Key)
    requires Distinct(items) && StandsBefore(items, a, b) && k != a
    ensures StandsBefore(Touch(items, k, time), a, b)
  {
    FindTouch(items, k, time, a);
    FindTouch(items, k, time, b);
  }

  lemma {:induction false} TouchAllKeepsBefore<A>(items: seq<Item<A>>, ks: seq<Key>, time: nat, a: Key, b: Key)
    requires Ordered(items, time) && StandsBefore(items, a, b) && a !in ks
    ensures StandsBefore(TouchAll(items, ks, time), a, b)
  {
    if ks == [] {
    } else {
      TouchAllOrdered(items, Init(ks), time);
      TouchAllKeepsBefore(items, Init(ks), time, a, b);
      TouchKeepsBefore(TouchAll(items, Init(ks), time), Last(ks), time, a, b);
    }
  }

  lemma {:induction false} FindPushed<A>(items: seq<Item<A>>, e: Item<A>, q: Key)
    ensures Has(items, q) ==> Find(items + [e], q) == Find(items, q)
    ensures !Has(items, q) ==> Find(items + [e], q) == |items| + (if q == e.key then 0 else 1)
  {
    FindConcat(items, [e], q);
    FindOne(e, q);
    hide Find;
  }

  // ---------------------------------------------------------------- eviction

  predicate Expired<A>(e: Item<A>, lastUpdate: Option<nat>, lifetime: nat) {
    lastUpdate.Some? && SaturatingSub(lastUpdate.value, e.usedLastIn) > lifetime
  }

  /** How many entries the eviction loop removes from the front. */
  function EvictCount<A>(items: seq<Item<A>>, lastUpdate: Option<nat>, lifetime: nat, default: Key): (n: nat)
    ensures n <= |items|
  {
    if items != [] && Expired(items[0], lastUpdate, lifetime) && items[0].key != default
    then 1 + EvictCount(items[1..], lastUpdate, lifetime, default)
    else 0
  }

  /** Whatever the order, the loop removes the entries up to the first one that is live or the default. */
  lemma {:induction false} EvictsExpiredPrefix<A>(items: seq<Item<A>>, lastUpdate: Option<nat>, lifetime: nat,
                                                  default: Key, i: nat)
    requires i < |items|
    ensures i < EvictCount(items, lastUpdate, lifetime, default)
            <==> forall j :: 0 <= j <= i ==> Expired(items[j], lastUpdate, lifetime) && items[j].key != default
  {
    if Expired(items[0], lastUpdate, lifetime) && items[0].key != default && i > 0 {
      var tl := items[1..];
      assert forall n :: 0 <= n < |tl| ==> tl[n] == items[n + 1];
      EvictsExpiredPrefix(tl, lastUpdate, lifetime, default, i - 1);
      if i < EvictCount(items, lastUpdate, lifetime, default) {
        forall j | 0 <= j <= i ensures Expired(items[j], lastUpdate, lifetime) && items[j].key != default {
          if j > 0 { assert items[j] == tl[j - 1]; }
        }
      }
    }
  }

  /** The loop removes exactly the expired entries that stand before the default entry. */
  ghost predicate EvictsExactly<A>(items: seq<Item<A>>, lastUpdate: Option<nat>, lifetime: nat, default: Key) {
    forall i :: 0 <= i < |items| ==>
      (i < EvictCount(items, lastUpdate, lifetime, default)
       <==> Expired(items[i], lastUpdate, lifetime) && i < Find(items, default))
  }

  /** Before the default entry no expired entry stands behind a live one. */
  ghost predicate NoneHidden<A>(items: seq<Item<A>>, lastUpdate: Option<nat>, lifetime: nat, default: Key) {
    forall i, j :: 0 <= i < j < |items| && j < Find(items, default) && Expired(items[j], lastUpdate, lifetime)
      ==> Expired(items[i], lastUpdate, lifetime)
  }

  /** Whatever the order, eviction is exact if and only if no expired entry hides behind a live one. The
      order by last use rules that out; a clock that runs backwards can bring it about. */
  lemma {:induction false} ExactIffNoneHidden<A>(items: seq<Item<A>>, lastUpdate: Option<nat>, lifetime: nat,
                                                 default: Key)
    ensures EvictsExactly(items, lastUpdate, lifetime, default) <==> NoneHidden(items, lastUpdate, lifetime, default)
  {
    FindFirst(items, default);
    hide EvictCount, Expired, Find;
    if EvictsExactly(items, lastUpdate, lifetime, default) {
      forall i: nat, j: nat | i < j < |items| && j < Find(items, default) && Expired(items[j], lastUpdate, lifetime)
        ensures Expired(items[i], lastUpdate, lifetime)
      {
        EvictsExpiredPrefix(items, lastUpdate, lifetime, default, j);
      }
    }
    if NoneHidden(items, lastUpdate, lifetime, default) {
      forall i: nat | i < |items|
        ensures i < EvictCount(items, lastUpdate, lifetime, default)
                <==> Expired(items[i], lastUpdate, lifetime) && i < Find(items, default)
      {
        EvictsExpiredPrefix(items, lastUpdate, lifetime, default, i);
      }
    }
  }

  /** Such a list, as an entry leaves it that is used while the clock stands earlier than before. */
  lemma ExpiredBehindLive(item: int)
    ensures var items := [Item("a", item, 10), Item("b", item, 0), Item("default", item, 10)];
            && Expired(items[1], Some(10), 5) && Find(items, "b") < Find(items, "default")
            && EvictCount(items, Some(10), 5, "default") == 0
            && !NoneHidden(items, Some(10), 5, "default")
  {
    var items := [Item("a", item, 10), Item("b", item, 0), Item("default", item, 10)];
    assert items[1..][0] == items[1] && items[1..][1..][0] == items[2];
  }

  /** The loop stops at the first entry to keep, yet it removes exactly the expired entries that
      stand before the default entry: no expired entry hides behind a live one. */
  lemma {:induction false} EvictionIsExact<A>(items: seq<Item<A>>, lastUpdate: Option<nat>, lifetime: nat, default: Key,
                                              i: nat)
    requires Distinct(items) && ByUse(items) && i < |items|
    ensures i < EvictCount(items, lastUpdate, lifetime, default)
            <==> Expired(items[i], lastUpdate, lifetime) && i < Find(items, default)
  {
    var e := items[0];
    assert e.usedLastIn <= items[i].usedLastIn;
    if Expired(e, lastUpdate, lifetime) && e.key != default && i > 0 {
      var tl := items[1..];
      assert forall n :: 0 <= n < |tl| ==> tl[n] == items[n + 1];
      EvictionIsExact(tl, lastUpdate, lifetime, default, i - 1);
    }
  }

  lemma KeysDiffer<A>(a: seq<Item<A>>, b: seq<Item<A>>, i: nat, j: nat)
    requires Distinct(a + b) && i < |a| && j < |b|
    ensures a[i].key != b[j].key
  {
    assert (a + b)[i] == a[i] && (a + b)[|a| + j] == b[j];
  }

  lemma NotInBoth<A>(a: seq<Item<A>>, b: seq<Item<A>>, q: Key)
    requires Distinct(a + b)
    ensures !Has(a, q) || !Has(b, q)
  {
    if Has(a, q) && Has(b, q) { KeysDiffer(a, b, Find(a, q), Find(b, q)); }
  }

  lemma OrderedSlice<A>(items: seq<Item<A>>, n: nat, time: nat)
    requires Ordered(items, time) && n <= |items|
    ensures Ordered(items[n..], time)
  {
    var r := items[n..];
    assert forall m :: 0 <= m < |r| ==> r[m] == items[n + m];
  }

  lemma {:induction false} SuffixOrdered<A>(items: seq<Item<A>>, n: nat, time: nat, q: Key)
    requires Ordered(items, time) && n <= |items|
    ensures Ordered(items[n..], time)
    ensures Has(items[n..], q) <==> Has(items, q) && n <= Find(items, q)
    ensures Has(items[n..], q) ==> Find(items[n..], q) == Find(items, q) - n
  {
    OrderedDistinct(items, time);
    hide *;
    OrderedSlice(items, n, time);
    assert items == items[..n] + items[n..];
    NotInBoth(items[..n], items[n..], q);
    FindConcat(items[..n], items[n..], q);
    HasIs(items, q);
    HasIs(items[..n], q);
    HasIs(items[n..], q);
  }

  ghost function Keys<A>(items: seq<Item<A>>): set<Key> {
    set i | 0 <= i < |items| :: items[i].key
  }

  lemma KeysAreFound<A>(items: seq<Item<A>>, k: Key)
    ensures k in Keys(items) <==> Has(items, k)
  {
    FindFirst(items, k);
    hide Find;
    if Has(items, k) { assert items[Find(items, k)].key in Keys(items); }
  }

  ghost predicate EvictedAt<A>(before: seq<Item<A>>, lastUpdate: Option<nat>, lifetime: nat, default: Key, k: Key) {
    && Has(before, k)
    && Expired(before[Find(before, k)], lastUpdate, lifetime)
    && Find(before, k) < Find(before, default)
  }

  /** What one execution of the eviction loop does to one key. */
  lemma {:induction false} EvictsKey<A>(start: seq<Item<A>>, ks: seq<Key>, time: nat, lastUpdate: Option<nat>,
                                        lifetime: nat, default: Key, k: Key)
    requires Ordered(start, time) && Has(start, default)
    requires lastUpdate.Some? ==> lastUpdate.value <= time
    ensures var before := TouchAll(start, ks, time);
            var rest := before[EvictCount(before, lastUpdate, lifetime, default)..];
            && Ordered(rest, time)
            && (Has(rest, k) <==> Has(before, k) && !EvictedAt(before, lastUpdate, lifetime, default, k))
            && (Has(rest, k) ==> Has(start, k))
            && (k == default ==> Has(rest, k))
            && (k in ks && Has(start, k) ==> Has(rest, k))
            && (k !in ks && StandsBefore(start, k, default) && Expired(start[Find(start, k)], lastUpdate, lifetime)
                ==> !Has(rest, k))
  {
    var before := TouchAll(start, ks, time);
    var n := EvictCount(before, lastUpdate, lifetime, default);
    TouchAllOrdered(start, ks, time);
    FindTouchAll(start, ks, time, k);
    FindTouchAll(start, ks, time, default);
    SuffixOrdered(before, n, time, k);
    if Has(before, k) { EvictionIsExact(before, lastUpdate, lifetime, default, Find(before, k)); }
    if k !in ks && StandsBefore(start, k, default) { TouchAllKeepsBefore(start, ks, time, k, default); }
  }

  /** After an update the default entry is the last one. */
  lemma DefaultIsLast<A>(rest: seq<Item<A>>, time: nat, default: Key, k: Key)
    requires Ordered(rest, time) && Has(rest, default)
    ensures var r := Touch(rest, default, time);
            && Ordered(r, time) && Has(r, default)
            && (Has(r, k) <==> Has(rest, k))
            && (Has(r, k) && k != default ==> StandsBefore(r, k, default))
  {
    TouchOrdered(rest, default, time);
    FindTouch(rest, default, time, k);
    FindTouch(rest, default, time, default);
    var r := Touch(rest, default, time);
    assert Has(r, k) ==> r[Find(r, k)].key == k;
  }

  ghost predicate Holds<A>(items: seq<Item<A>>, e: Item<A>) {
    exists j :: 0 <= j < |items| && items[j] == e
  }

  /** What an executed update makes of one entry: the default entry and forced ones are marked as used now;
      any other is removed if the last update found it unused for longer than its lifetime, and it stands
      before the default entry or the default entry was forced; else it stays as it is. */
  ghost predicate Outcome<A>(start: seq<Item<A>>, i: nat, after: seq<Item<A>>, forceUsed: seq<Key>, time: nat,
                             lastUpdate: Option<nat>, lifetime: nat, default: Key)
    requires i < |start|
  {
    var e := start[i];
    if e.key == default || e.key in forceUsed then Holds(after, e.(usedLastIn := time))
    else if && lastUpdate.Some? && lastUpdate.value > e.usedLastIn + lifetime
            && (default in forceUsed || exists d :: i < d < |start| && start[d].key == default)
    then forall j :: 0 <= j < |after| ==> after[j].key != e.key
    else Holds(after, e)
  }

  /** A forced entry ends up behind all that are not. */
  lemma {:induction false} ForcedBehind<A>(items: seq<Item<A>>, ks: seq<Key>, time: nat, a: Key, b: Key)
    requires Ordered(items, time) && Has(items, a) && Has(items, b) && a !in ks && b in ks
    ensures StandsBefore(TouchAll(items, ks, time), a, b)
  {
    var k, front := Last(ks), Init(ks);
    TouchAllOrdered(items, front, time);
    if k == b {
      FindTouchAllHas(items, front, time, a);
      FindTouchAllHas(items, front, time, b);
      FindTouch(TouchAll(items, front, time), b, time, a);
      FindTouch(TouchAll(items, front, time), b, time, b);
    } else {
      ForcedBehind(items, front, time, a, b);
      TouchKeepsBefore(TouchAll(items, front, time), k, time, a, b);
    }
  }

  lemma FindTouchAllHas<A>(items: seq<Item<A>>, ks: seq<Key>, time: nat, q: Key)
    requires Ordered(items, time)
    ensures Has(TouchAll(items, ks, time), q) <==> Has(items, q)
  {
    FindTouchAll(items, ks, time, q);
  }

  /** Which entries are evicted, in terms of the entries before anything is forced. */
  lemma {:induction false} EvictedIff<A>(start: seq<Item<A>>, i: nat, ks: seq<Key>, time: nat, lastUpdate: Option<nat>,
                                         lifetime: nat, default: Key)
    requires Ordered(start, time) && Has(start, default) && i < |start| && start[i].key != default
    requires lastUpdate.Some? ==> lastUpdate.value <= time
    ensures EvictedAt(TouchAll(start, ks, time), lastUpdate, lifetime, default, start[i].key)
            <==> && start[i].key !in ks && lastUpdate.Some? && lastUpdate.value > start[i].usedLastIn + lifetime
                 && (default in ks || exists d :: i < d < |start| && start[d].key == default)
  {
    var k, before := start[i].key, TouchAll(start, ks, time);
    FindAt(start, i);
    FindTouchAll(start, ks, time, k);
    FindTouchAll(start, ks, time, default);
    var d := Find(start, default);
    FindAt(start, d);
    assert (exists d :: i < d < |start| && start[d].key == default) <==> i < d by {
      if d': nat :| i < d' < |start| && start[d'].key == default { FindAt(start, d'); }
    }
    if k !in ks {
      if default in ks {
        ForcedBehind(start, ks, time, k, default);
      } else if i < d {
        TouchAllKeepsBefore(start, ks, time, k, default);
      } else {
        TouchAllKeepsBefore(start, ks, time, default, k);
      }
    }
  }

  lemma HoldsAt<A>(items: seq<Item<A>>, j: nat)
    requires j < |items|
    ensures Holds(items, items[j])
  {
  }

  /** An entry that survives the loop keeps its item and its time of last use. */
  lemma {:induction false} EntryKept<A>(start: seq<Item<A>>, i: nat, ks: seq<Key>, time: nat, n: nat, default: Key)
    requires Ordered(start, time) && i < |start| && n <= |TouchAll(start, ks, time)|
    requires Has(TouchAll(start, ks, time)[n..], start[i].key)
    ensures var e, after := start[i], Touch(TouchAll(start, ks, time)[n..], default, time);
            Holds(after, if e.key == default || e.key in ks then e.(usedLastIn := time) else e)
  {
    OrderedDistinct(start, time);
    HasAt(start, i);
    hide *;
    var k, before := start[i].key, TouchAll(start, ks, time);
    var rest := before[n..];
    FindAt(start, i);
    TouchAllOrdered(start, ks, time);
    FindTouchAll(start, ks, time, k);
    SuffixOrdered(before, n, time, k);
    OrderedDistinct(rest, time);
    FindTouch(rest, default, time, k);
    HasIs(before, k);
    HasIs(rest, k);
    HasIs(Touch(rest, default, time), k);
    HoldsAt(Touch(rest, default, time), Find(Touch(rest, default, time), k));
  }

  // ---------------------------------------------------------------- the container

  /** What an executed update promises for one key, from the items and the untouched keys before it
      to the items after it. */
  ghost predicate KeyUpdated<A>(k: Key, start: seq<Item<A>>, untouched: set<Key>, after: seq<Item<A>>,
                                forceUsed: seq<Key>, time: nat, lastUpdate: Option<nat>, lifetime: nat, default: Key) {
    // kept, unless expired and in front of the default entry
    && (Has(after, k) <==>
          Has(start, k) && !EvictedAt(TouchAll(start, forceUsed, time), lastUpdate, lifetime, default, k))
    // forced entries are kept
    && (k in forceUsed && Has(start, k) ==> Has(after, k))
    // what expired without being touched since the last executed update is removed
    && (k in untouched && k !in forceUsed && Has(start, k) && Expired(start[Find(start, k)], lastUpdate, lifetime)
        ==> !Has(after, k))
  }

  ghost predicate AllUpdated<A>(start: seq<Item<A>>, untouched: set<Key>, after: seq<Item<A>>, forceUsed: seq<Key>,
                                time: nat, lastUpdate: Option<nat>, lifetime: nat, default: Key) {
    && (forall k :: KeyUpdated(k, start, untouched, after, forceUsed, time, lastUpdate, lifetime, default))
    && (forall i :: 0 <= i < |start| ==> Outcome(start, i, after, forceUsed, time, lastUpdate, lifetime, default))
  }

  /** No key of the map is also being loaded or known to have failed. */
  ghost predicate NotTasked<A>(items: seq<Item<A>>, loading: set<Key>, failed: set<Key>) {
    forall k :: Has(items, k) ==> k !in loading && k !in failed
  }

  /** All untouched entries stand before the default entry. */
  ghost predicate InFront<A>(items: seq<Item<A>>, untouched: set<Key>, default: Key) {
    forall k :: k in untouched && Has(items, k) ==> StandsBefore(items, k, default)
  }

  lemma {:induction false} OutcomeIs<A>(start: seq<Item<A>>, i: nat, after: seq<Item<A>>, forceUsed: seq<Key>,
                                        time: nat, lastUpdate: Option<nat>, lifetime: nat, default: Key)
    requires Ordered(start, time) && Has(start, default) && i < |start|
    requires lastUpdate.Some? ==> lastUpdate.value <= time
    requires var before := TouchAll(start, forceUsed, time);
             after == Touch(before[EvictCount(before, lastUpdate, lifetime, default)..], default, time)
    ensures Outcome(start, i, after, forceUsed, time, lastUpdate, lifetime, default)
  {
    var e, before := start[i], TouchAll(start, forceUsed, time);
    var n := EvictCount(before, lastUpdate, lifetime, default);
    EvictsKey(start, forceUsed, time, lastUpdate, lifetime, default, e.key);
    EvictsKey(start, forceUsed, time, lastUpdate, lifetime, default, default);
    DefaultIsLast(before[n..], time, default, e.key);
    FindTouchAllHas(start, forceUsed, time, e.key);
    HasAt(start, i);
    hide Touch, TouchAll, Ordered, EvictCount, StandsBefore, EvictedAt, Expired, Holds;
    if e.key != default { EvictedIff(start, i, forceUsed, time, lastUpdate, lifetime, default); }
    if Has(before[n..], e.key) {
      EntryKept(start, i, forceUsed, time, n, default);
    } else {
      GoneMeans(after, e.key);
    }
  }

  lemma {:induction false} OutcomesAre<A>(start: seq<Item<A>>, after: seq<Item<A>>, forceUsed: seq<Key>, time: nat,
                                          lastUpdate: Option<nat>, lifetime: nat, default: Key)
    requires Ordered(start, time) && Has(start, default)
    requires lastUpdate.Some? ==> lastUpdate.value <= time
    requires var before := TouchAll(start, forceUsed, time);
             after == Touch(before[EvictCount(before, lastUpdate, lifetime, default)..], default, time)
    ensures forall i :: 0 <= i < |start| ==>
              Outcome(start, i, after, forceUsed, time, lastUpdate, lifetime, default)
  {
    hide *;
    forall i | 0 <= i < |start| ensures Outcome(start, i, after, forceUsed, time, lastUpdate, lifetime, default) {
      OutcomeIs(start, i, after, forceUsed, time, lastUpdate, lifetime, default);
    }
  }

  lemma AllOutcomes<A>(start: seq<Item<A>>, untouched: set<Key>, after: seq<Item<A>>, forceUsed: seq<Key>, time: nat,
                       lastUpdate: Option<nat>, lifetime: nat, default: Key)
    requires AllUpdated(start, untouched, after, forceUsed, time, lastUpdate, lifetime, default)
    ensures forall i :: 0 <= i < |start| ==>
              Outcome(start, i, after, forceUsed, time, lastUpdate, lifetime, default)
  {
  }

  lemma GoneMeans<A>(items: seq<Item<A>>, k: Key)
    requires !Has(items, k)
    ensures forall j :: 0 <= j < |items| ==> items[j].key != k
  {
    FindFirst(items, k);
  }

  lemma {:induction false} Updated<A>(start: seq<Item<A>>, untouched: set<Key>, after: seq<Item<A>>,
                                      forceUsed: seq<Key>, time: nat, lastUpdate: Option<nat>, lifetime: nat,
                                      default: Key, loading: set<Key>, failed: set<Key>)
    requires Ordered(start, time) && Has(start, default)
    requires lastUpdate.Some? ==> lastUpdate.value <= time
    requires InFront(start, untouched, default) && NotTasked(start, loading, failed)
    requires var before := TouchAll(start, forceUsed, time);
             after == Touch(before[EvictCount(before, lastUpdate, lifetime, default)..], default, time)
    ensures Ordered(after, time) && Has(after, default)
    ensures AllUpdated(start, untouched, after, forceUsed, time, lastUpdate, lifetime, default)
    ensures NotTasked(after, loading, failed)
    ensures InFront(after, Keys(after) - {default}, default)
  {
    var before := TouchAll(start, forceUsed, time);
    var rest := before[EvictCount(before, lastUpdate, lifetime, default)..];
    EvictsKey(start, forceUsed, time, lastUpdate, lifetime, default, default);
    hide Ordered, StandsBefore, Has, EvictedAt, Touch, TouchAll, Expired;
    DefaultIsLast(rest, time, default, default);
    forall k
      ensures KeyUpdated(k, start, untouched, after, forceUsed, time, lastUpdate, lifetime, default)
      ensures Has(after, k) ==> Has(start, k)
      ensures k in Keys(after) - {default} ==> StandsBefore(after, k, default)
    {
      EvictsKey(start, forceUsed, time, lastUpdate, lifetime, default, k);
      FindTouchAllHas(start, forceUsed, time, k);
      DefaultIsLast(rest, time, default, k);
      KeysAreFound(after, k);
    }
    OutcomesAre(start, after, forceUsed, time, lastUpdate, lifetime, default);
    hide Outcome, KeyUpdated;
  }

  /** The loading table: at most 16 tasks are in flight, and every task spawned since the last
      clear is in flight, has failed or has been loaded. */
  ghost predicate Accounted(loading: set<Key>, failed: set<Key>, spawned: multiset<Key>, loaded: multiset<Key>,
                            default: Key) {
    && default !in loading && default !in failed
    && loading !! failed
    && |loading| <= CONTAINER_MAX_TASKS
    && spawned == multiset(loading) + multiset(failed) + loaded
  }

  lemma NothingInFlight(loading: set<Key>, failed: set<Key>, loaded: multiset<Key>, default: Key)
    requires Accounted(loading, failed, multiset{}, loaded, default)
    ensures loading == {} && failed == {} && loaded == multiset{}
  {
    forall k ensures k !in loading && k !in failed && k !in loaded {
      assert multiset{}[k] == multiset(loading)[k] + multiset(failed)[k] + loaded[k];
    }
  }

  /** A task ends: its key leaves the loading table and is recorded as failed or as loaded. */
  lemma TaskEnds(loading: set<Key>, failed: set<Key>, spawned: multiset<Key>, loaded: multiset<Key>, default: Key,
                 k: Key)
    requires Accounted(loading, failed, spawned, loaded, default) && k in loading
    ensures Accounted(loading - {k}, failed + {k}, spawned, loaded, default)
    ensures Accounted(loading - {k}, failed, spawned, loaded + multiset{k}, default)
    ensures |loading - {k}| == |loading| - 1
  {
    forall q ensures multiset(loading)[q] + multiset(failed)[q]
                     == multiset(loading - {k})[q] + multiset(failed + {k})[q] {}
    assert multiset(loading) + multiset(failed) == multiset(loading - {k}) + multiset(failed + {k});
    assert multiset(loading) == multiset(loading - {k}) + multiset{k};
  }

  lemma NotBoth(loading: set<Key>, failed: set<Key>, spawned: multiset<Key>, loaded: multiset<Key>, default: Key,
                k: Key)
    requires Accounted(loading, failed, spawned, loaded, default) && k in loading
    ensures k !in failed && k != default
  {
  }

  lemma TaskStarts(loading: set<Key>, failed: set<Key>, spawned: multiset<Key>, loaded: multiset<Key>, default: Key,
                   k: Key)
    requires Accounted(loading, failed, spawned, loaded, default)
    requires k !in loading && k !in failed && k != default && |loading| < CONTAINER_MAX_TASKS
    ensures Accounted(loading + {k}, failed, spawned + multiset{k}, loaded, default)
  {
    assert multiset(loading + {k}) == multiset(loading) + multiset{k};
  }

  /** The tables of tasks, and all tasks spawned and ended as loaded since the last clear. */
  datatype Tasks = Tasks(loading: set<Key>, failed: set<Key>, spawned: multiset<Key>, loaded: multiset<Key>)

  /** One call of a run on the tables of tasks: at most one task starts and at most one ends, only
      the task of a key without entry and without failure starts, and failures are remembered. */
  ghost predicate TaskStep<A>(name: Key, hit: bool, polled: Option<Key>, finished: map<Key, LoadResult<A>>,
                              before: Tasks, after: Tasks) {
    match polled
    case None =>
      || after == before
      || (&& name !in before.loading && name !in before.failed && !hit && |before.loading| < CONTAINER_MAX_TASKS
          && after == before.(loading := before.loading + {name}, spawned := before.spawned + multiset{name}))
    case Some(q) =>
      && q in before.loading && q in finished
      && after == before.(loading := before.loading - {q},
                          failed := if finished[q].Loaded? then before.failed else before.failed + {q},
                          loaded := if finished[q].Loaded? then before.loaded + multiset{q} else before.loaded)
  }

  lemma PollStep<A>(name: Key, hit: bool, q: Key, finished: map<Key, LoadResult<A>>, before: Tasks, after: Tasks)
    requires q in before.loading && q in finished && after.spawned == before.spawned
    requires after.loading == before.loading - {q}
    requires if finished[q].Loaded? then after.failed == before.failed && after.loaded == before.loaded + multiset{q}
             else after.failed == before.failed + {q} && after.loaded == before.loaded
    ensures TaskStep(name, hit, Some(q), finished, before, after)
  {
  }

  /** Whose lookup made a task end does not matter. */
  lemma AnyLookup<A>(name: Key, hit: bool, other: Key, otherHit: bool, q: Key, finished: map<Key, LoadResult<A>>,
                     before: Tasks, after: Tasks)
    requires TaskStep(name, hit, Some(q), finished, before, after)
    ensures TaskStep(other, otherHit, Some(q), finished, before, after)
    ensures q in before.loading && after.spawned == before.spawned
  {
  }

  /** What a lookup means for the tables, as far as they are about its key. */
  lemma StepOfKey<A>(name: Key, hit: bool, polled: Option<Key>, finished: map<Key, LoadResult<A>>, before: Tasks,
                     after: Tasks)
    requires TaskStep(name, hit, polled, finished, before, after)
    ensures name in after.failed <==> name in before.failed || (polled == Some(name) && finished[name].LoadFailed?)
    ensures polled == Some(name) ==> name in before.loading && name in finished
    ensures polled == None && name in before.loading ==> name in after.loading
    ensures name in after.loading && name !in before.loading ==>
              name !in before.failed && |before.loading| < CONTAINER_MAX_TASKS
  {
  }

  lemma IdleStep<A>(name: Key, hit: bool, finished: map<Key, LoadResult<A>>, before: Tasks)
    ensures TaskStep(name, hit, None, finished, before, before)
  {
  }

  lemma StartStep<A>(name: Key, finished: map<Key, LoadResult<A>>, before: Tasks)
    requires name !in before.loading && name !in before.failed && |before.loading| < CONTAINER_MAX_TASKS
    ensures TaskStep(name, false, None, finished, before,
                     before.(loading := before.loading + {name}, spawned := before.spawned + multiset{name}))
  {
  }

  /** The parts of the invariant that speak of the entries. */
  ghost predicate EntriesValid<A>(items: seq<Item<A>>, time: nat, default: Key, loading: set<Key>, failed: set<Key>,
                                  untouched: set<Key>) {
    && Ordered(items, time) && Has(items, default)
    && NotTasked(items, loading, failed) && InFront(items, untouched, default)
  }

  lemma EntriesMean<A>(items: seq<Item<A>>, time: nat, default: Key, loading: set<Key>, failed: set<Key>,
                       untouched: set<Key>)
    ensures EntriesValid(items, time, default, loading, failed, untouched)
            <==> && Ordered(items, time) && Has(items, default)
                 && NotTasked(items, loading, failed) && InFront(items, untouched, default)
  {
  }

  lemma TouchedNotTasked<A>(items: seq<Item<A>>, k: Key, time: nat, loading: set<Key>, failed: set<Key>)
    requires Distinct(items) && NotTasked(items, loading, failed)
    ensures NotTasked(Touch(items, k, time), loading, failed)
  {
    hide Has, Distinct, Touch;
    forall q ensures Has(Touch(items, k, time), q) <==> Has(items, q) { FindTouch(items, k, time, q); }
  }

  lemma TouchedInFront<A>(items: seq<Item<A>>, k: Key, time: nat, untouched: set<Key>, default: Key)
    requires Distinct(items) && InFront(items, untouched, default)
    ensures InFront(Touch(items, k, time), untouched - {k}, default)
  {
    hide Has, Distinct, Touch, StandsBefore;
    forall q | q in untouched - {k} && Has(Touch(items, k, time), q)
      ensures StandsBefore(Touch(items, k, time), q, default)
    {
      FindTouch(items, k, time, q);
      TouchKeepsBefore(items, k, time, q, default);
    }
  }

  lemma StoredTouched<A>(items: seq<Item<A>>, k: Key, time: nat)
    requires Distinct(items) && Has(items, k)
    ensures Has(Touch(items, k, time), k) && Stored(Touch(items, k, time), k) == Stored(items, k)
  {
    FindTouch(items, k, time, k);
    hide Find, Touch, Distinct;
  }

  lemma {:induction false} EntryTouched<A>(items: seq<Item<A>>, time: nat, default: Key, loading: set<Key>,
                                           failed: set<Key>, untouched: set<Key>, k: Key)
    requires EntriesValid(items, time, default, loading, failed, untouched)
    ensures EntriesValid(Touch(items, k, time), time, default, loading, failed, untouched - {k})
    ensures Has(items, k) ==> Has(Touch(items, k, time), k)
                              && Stored(Touch(items, k, time), k) == Stored(items, k)
  {
    hide *;
    EntriesMean(items, time, default, loading, failed, untouched);
    EntriesMean(Touch(items, k, time), time, default, loading, failed, untouched - {k});
    OrderedDistinct(items, time);
    TouchOrdered(items, k, time);
    FindTouch(items, k, time, default);
    TouchedNotTasked(items, k, time, loading, failed);
    TouchedInFront(items, k, time, untouched, default);
    if Has(items, k) { StoredTouched(items, k, time); }
  }

  lemma TouchedHas<A>(items: seq<Item<A>>, time: nat, default: Key, loading: set<Key>, failed: set<Key>,
                      untouched: set<Key>, k: Key)
    requires EntriesValid(items, time, default, loading, failed, untouched)
    ensures forall q :: Has(Touch(items, k, time), q) <==> Has(items, q)
  {
    hide Has, NotTasked, InFront, Touch;
    OrderedDistinct(items, time);
    forall q ensures Has(Touch(items, k, time), q) <==> Has(items, q) { FindTouch(items, k, time, q); }
  }

  /** Looking up the default entry leaves every other entry where it stands relative to it. */
  lemma DefaultTouched<A>(items: seq<Item<A>>, time: nat, default: Key, loading: set<Key>, failed: set<Key>,
                          untouched: set<Key>, q: Key)
    requires EntriesValid(items, time, default, loading, failed, untouched)
    ensures EntriesValid(Touch(items, default, time), time, default, loading, failed, untouched)
    ensures Has(Touch(items, default, time), q) <==> Has(items, q)
  {
    assert default !in untouched;
    assert untouched - {default} == untouched;
    EntryTouched(items, time, default, loading, failed, untouched, default);
    FindTouch(items, default, time, q);
  }

  lemma {:induction false} EntryPushed<A>(items: seq<Item<A>>, e: Item<A>, default: Key, loading: set<Key>,
                                          failed: set<Key>, untouched: set<Key>)
    requires EntriesValid(items, e.usedLastIn, default, loading, failed, untouched)
    requires e.key in loading && e.key !in failed
    ensures EntriesValid(items + [e], e.usedLastIn, default, loading - {e.key}, failed, untouched - {e.key})
    ensures Has(items + [e], e.key) && Stored(items + [e], e.key) == e.item
  {
    PushedOrdered(items, e);
    hide Find, Ordered;
    FindPushed(items, e, e.key);
    FindPushed(items, e, default);
    forall q ensures q != e.key ==> (Has(items + [e], q) <==> Has(items, q)) { FindPushed(items, e, q); }
    forall q ensures q in untouched - {e.key} && Has(items, q) ==> StandsBefore(items + [e], q, default) {
      FindPushed(items, e, q);
      FindPushed(items, e, default);
    }
  }

  lemma PushedStays<A>(items: seq<Item<A>>, e: Item<A>, q: Key)
    requires Has(items, q)
    ensures Has(items + [e], q)
  {
    FindPushed(items, e, q);
  }

  lemma PushedHas<A>(items: seq<Item<A>>, e: Item<A>, q: Key)
    requires q != e.key
    ensures Has(items + [e], q) <==> Has(items, q)
  {
    FindPushed(items, e, q);
  }

  lemma HasSomething<A>(items: seq<Item<A>>, q: Key)
    requires Has(items, q)
    ensures items != []
  {
  }

  lemma NotDefault<A>(items: seq<Item<A>>, q: Key, default: Key)
    requires Has(items, default) && !Has(items, q)
    ensures q != default
  {
  }

  lemma TaskFailed<A>(items: seq<Item<A>>, time: nat, default: Key, loading: set<Key>, failed: set<Key>,
                      untouched: set<Key>, k: Key)
    requires EntriesValid(items, time, default, loading, failed, untouched) && k in loading
    ensures EntriesValid(items, time, default, loading - {k}, failed + {k}, untouched) && !Has(items, k)
  {
  }

  lemma TaskSpawned<A>(items: seq<Item<A>>, time: nat, default: Key, loading: set<Key>, failed: set<Key>,
                       untouched: set<Key>, k: Key)
    requires EntriesValid(items, time, default, loading, failed, untouched) && !Has(items, k)
    ensures EntriesValid(items, time, default, loading + {k}, failed, untouched)
  {
  }

  /** The invariant of a container. The default item is waited for before anything else is loaded. */
  ghost predicate StateValid<A>(items: seq<Item<A>>, time: nat, defaultItem: Option<A>, untouched: set<Key>,
                                default: Key, loading: set<Key>, failed: set<Key>, spawned: multiset<Key>,
                                loaded: multiset<Key>) {
    && Accounted(loading, failed, spawned, loaded, default)
    && if defaultItem.Some? then items == [] && spawned == multiset{} && untouched == {}
       else EntriesValid(items, time, default, loading, failed, untouched)
  }

  lemma LoadedState<A>(items: seq<Item<A>>, time: nat, untouched: set<Key>, default: Key, loading: set<Key>,
                       failed: set<Key>, spawned: multiset<Key>, loaded: multiset<Key>)
    ensures StateValid(items, time, None, untouched, default, loading, failed, spawned, loaded)
            <==> && Accounted(loading, failed, spawned, loaded, default)
                 && EntriesValid(items, time, default, loading, failed, untouched)
  {
  }

  lemma StateLater<A>(items: seq<Item<A>>, time: nat, later: nat, defaultItem: Option<A>, untouched: set<Key>,
                      default: Key, loading: set<Key>, failed: set<Key>, spawned: multiset<Key>, loaded: multiset<Key>)
    requires StateValid(items, time, defaultItem, untouched, default, loading, failed, spawned, loaded)
    requires time <= later
    ensures StateValid(items, later, defaultItem, untouched, default, loading, failed, spawned, loaded)
  {
    hide Has, Accounted, NotTasked, InFront, Ordered;
    if defaultItem.None? { OrderedLater(items, time, later); }
  }

  lemma DefaultLoads<A>(items: seq<Item<A>>, time: nat, d: A, untouched: set<Key>, default: Key, loading: set<Key>,
                        failed: set<Key>, spawned: multiset<Key>, loaded: multiset<Key>)
    requires StateValid(items, time, Some(d), untouched, default, loading, failed, spawned, loaded)
    ensures var items' := items + [Item(default, d, 0)];
            && StateValid(items', time, None, untouched, default, loading, failed, spawned, loaded)
            && Has(items', default)
  {
    NothingInFlight(loading, failed, loaded, default);
    assert items + [Item(default, d, 0)] == [Item(default, d, 0)];
    FindOne(Item(default, d, 0), default);
  }

  lemma StateStarts<A>(items: seq<Item<A>>, time: nat, defaultItem: Option<A>, untouched: set<Key>, default: Key,
                       loading: set<Key>, failed: set<Key>, spawned: multiset<Key>, loaded: multiset<Key>)
    requires StateValid(items, time, defaultItem, untouched, default, loading, failed, spawned, loaded)
    ensures defaultItem.Some? ==> items == []
  {
  }

  lemma StateHasDefault<A>(items: seq<Item<A>>, time: nat, untouched: set<Key>, default: Key, loading: set<Key>,
                           failed: set<Key>, spawned: multiset<Key>, loaded: multiset<Key>)
    requires StateValid(items, time, None, untouched, default, loading, failed, spawned, loaded)
    ensures Has(items, default)
  {
    hide Has, Accounted, NotTasked, InFront, Ordered;
  }

  lemma StatePushed<A>(items: seq<Item<A>>, time: nat, untouched: set<Key>, default: Key, loading: set<Key>,
                       failed: set<Key>, spawned: multiset<Key>, loaded: multiset<Key>, q: Key, item: A)
    requires StateValid(items, time, None, untouched, default, loading, failed, spawned, loaded) && q in loading
    ensures var items' := items + [Item(q, item, time)];
            && StateValid(items', time, None, untouched - {q}, default, loading - {q}, failed, spawned,
                          loaded + multiset{q})
            && Has(items', q) && Stored(items', q) == item
  {
    hide EntriesValid, Accounted, Has, Stored;
    TaskEnds(loading, failed, spawned, loaded, default, q);
    NotBoth(loading, failed, spawned, loaded, default, q);
    EntryPushed(items, Item(q, item, time), default, loading, failed, untouched);
  }

  lemma StateFailed<A>(items: seq<Item<A>>, time: nat, untouched: set<Key>, default: Key, loading: set<Key>,
                       failed: set<Key>, spawned: multiset<Key>, loaded: multiset<Key>, q: Key)
    requires StateValid(items, time, None, untouched, default, loading, failed, spawned, loaded) && q in loading
    ensures StateValid(items, time, None, untouched, default, loading - {q}, failed + {q}, spawned, loaded)
    ensures !Has(items, q)
  {
    hide EntriesValid, Accounted, Has;
    TaskEnds(loading, failed, spawned, loaded, default, q);
    TaskFailed(items, time, default, loading, failed, untouched, q);
  }

  lemma StateCleared<A>(items: seq<Item<A>>, time: nat, defaultItem: Option<A>, untouched: set<Key>, default: Key,
                        loading: set<Key>, failed: set<Key>, spawned: multiset<Key>, loaded: multiset<Key>)
    requires StateValid(items, time, defaultItem, untouched, default, loading, failed, spawned, loaded)
    ensures var i := Find(items, default);
            && (defaultItem.Some? ==> i == |items|)
            && (defaultItem.None? ==> i < |items|)
            && StateValid(if i < |items| then [items[i]] else [], time, defaultItem, {}, default, {}, {}, multiset{},
                          multiset{})
  {
    if defaultItem.None? { FindOne(items[Find(items, default)], default); }
  }

  /** Limit on the number of items, and the lifetime that applies above it. */
  datatype MaxItems = MaxItems(count: nat, entryLifetime: nat)

  class Container<A> {
    const defaultKey: Key
    var items: seq<Item<A>>
    var loadingTasks: set<Key>
    var failedTasks: set<Key>
    /** The default item, until its loading is first waited for. */
    var defaultItem: Option<A>
    var lastUpdateTime: Option<nat>
    var lastUpdateIntervalTime: Option<nat>

    /** Since the last clear: every task spawned, and every task that ended as a loaded item. */
    ghost var spawned: multiset<Key>
    ghost var loaded: multiset<Key>
    /** Keys that have not been touched since the last executed update. */
    ghost var untouched: set<Key>

    /** The time that marks an entry as used between two updates. */
    function Now(): nat reads this`lastUpdateTime {
      if lastUpdateTime.Some? then lastUpdateTime.value else 0
    }

    ghost predicate Valid() reads this {
      StateValid(items, Now(), defaultItem, untouched, defaultKey, loadingTasks, failedTasks, spawned, loaded)
    }

    constructor (defaultKey: Key, defaultItem: A)
      ensures Valid() && items == [] && this.defaultKey == defaultKey && this.defaultItem == Some(defaultItem)
    {
      this.defaultKey, this.defaultItem := defaultKey, Some(defaultItem);
      items, loadingTasks, failedTasks := [], {}, {};
      lastUpdateTime, lastUpdateIntervalTime := None, None;
      spawned, loaded, untouched := multiset{}, multiset{}, {};
    }

    /** The items once the default item has been waited for. */
    ghost function WithDefault(): seq<Item<A>> reads this {
      if defaultItem.Some? then items + [Item(defaultKey, defaultItem.value, 0)] else items
    }

    method CheckDefaultLoaded()
      requires Valid()
      modifies this`items, this`defaultItem
      ensures Valid() && defaultItem == None && items == old(WithDefault()) && Has(items, defaultKey)
    {
      hide StateValid, Has;
      if defaultItem.Some? {
        DefaultLoads(items, Now(), defaultItem.value, untouched, defaultKey, loadingTasks, failedTasks, spawned,
                     loaded);
        items := items + [Item(defaultKey, defaultItem.value, 0)];
        defaultItem := None;
      } else {
        StateHasDefault(items, Now(), untouched, defaultKey, loadingTasks, failedTasks, spawned, loaded);
      }
    }

    /** An update that executes removes exactly the expired entries that stand before the default
        entry once the forced ones are moved to the back: never the default entry, never a forced
        one, and every expired entry that was not touched since the last executed update. */
    method Update(curTime: nat, entryLifetime: nat, updateInterval: nat, forceUsed: seq<Key>,
                  maxItems: Option<MaxItems>)
      requires Valid() && Now() <= curTime
      modifies this
      ensures Valid() && lastUpdateTime == Some(curTime)
      ensures loadingTasks == old(loadingTasks) && failedTasks == old(failedTasks)
      ensures spawned == old(spawned) && loaded == old(loaded)
      // an update executes after the interval or above the limit on items, which has a lifetime of its own
      ensures var above := maxItems.Some? && |old(items)| > maxItems.value.count;
              var lifetime := if above then maxItems.value.entryLifetime else entryLifetime;
              if || above || updateInterval == 0 || old(lastUpdateIntervalTime).None?
                 || curTime >= old(lastUpdateIntervalTime).value + updateInterval
              then
                && defaultItem == None && Has(items, defaultKey) && lastUpdateIntervalTime == Some(curTime)
                && untouched == Keys(items) - {defaultKey}
                && (forall i :: 0 <= i < |old(items)| ==>
                      Outcome(old(items), i, items, forceUsed, curTime, old(lastUpdateTime), lifetime, defaultKey))
                && AllUpdated(old(WithDefault()), old(untouched), items, forceUsed, curTime, old(lastUpdateTime),
                              lifetime, defaultKey)
              else
                && items == old(items) && untouched == old(untouched) && defaultItem == old(defaultItem)
                && lastUpdateIntervalTime == old(lastUpdateIntervalTime)
    {
      hide StateValid, EntriesValid, Accounted, Has, Stored, Touch, Keys, AllUpdated, Ordered, NotTasked, InFront;
      var aboveThreshold := maxItems.Some? && |items| > maxItems.value.count;
      if lastUpdateIntervalTime.None? || SaturatingSub(curTime, lastUpdateIntervalTime.value) >= updateInterval
         || aboveThreshold {
        lastUpdateIntervalTime := Some(curTime);
        var lifetime := if aboveThreshold then maxItems.value.entryLifetime else entryLifetime;
        StateStarts(items, Now(), defaultItem, untouched, defaultKey, loadingTasks, failedTasks, spawned, loaded);
        RemoveUnused(curTime, lifetime, forceUsed);
        if old(defaultItem).None? {
          AllOutcomes(old(items), old(untouched), items, forceUsed, curTime, old(lastUpdateTime), lifetime, defaultKey);
        }
      } else {
        StateLater(items, Now(), curTime, defaultItem, untouched, defaultKey, loadingTasks, failedTasks, spawned,
                   loaded);
      }
      lastUpdateTime := Some(curTime);
    }

    /** The executing part of an update. */
    method RemoveUnused(curTime: nat, lifetime: nat, forceUsed: seq<Key>)
      requires Valid() && Now() <= curTime
      modifies this`items, this`untouched, this`defaultItem
      ensures StateValid(items, curTime, None, untouched, defaultKey, loadingTasks, failedTasks, spawned, loaded)
      ensures defaultItem == None && Has(items, defaultKey) && untouched == Keys(items) - {defaultKey}
      ensures AllUpdated(old(WithDefault()), old(untouched), items, forceUsed, curTime, lastUpdateTime, lifetime,
                         defaultKey)
    {
      hide StateValid, EntriesValid, Accounted, Has, Stored, Touch, Keys, AllUpdated, Ordered, NotTasked, InFront;
      CheckDefaultLoaded();
      StateLater(items, Now(), curTime, None, untouched, defaultKey, loadingTasks, failedTasks, spawned, loaded);
      LoadedState(items, curTime, untouched, defaultKey, loadingTasks, failedTasks, spawned, loaded);
      RemoveEntries(curTime, lifetime, forceUsed);
      LoadedState(items, curTime, untouched, defaultKey, loadingTasks, failedTasks, spawned, loaded);
    }

    /** Forced entries to the back, expired ones out, and the default entry to the back. */
    method RemoveEntries(curTime: nat, lifetime: nat, forceUsed: seq<Key>)
      requires EntriesValid(items, curTime, defaultKey, loadingTasks, failedTasks, untouched) && Now() <= curTime
      modifies this`items, this`untouched
      ensures EntriesValid(items, curTime, defaultKey, loadingTasks, failedTasks, untouched) && Has(items, defaultKey)
      ensures untouched == Keys(items) - {defaultKey}
      ensures AllUpdated(old(items), old(untouched), items, forceUsed, curTime, lastUpdateTime, lifetime, defaultKey)
    {
      hide *;
      ghost var start := items;
      EntriesMean(items, curTime, defaultKey, loadingTasks, failedTasks, untouched);
      ForceUsed(forceUsed, curTime);
      EvictFront(lifetime);
      items := Touch(items, defaultKey, curTime);
      NowIs();
      Updated(start, untouched, items, forceUsed, curTime, lastUpdateTime, lifetime, defaultKey, loadingTasks,
              failedTasks);
      untouched := Keys(items) - {defaultKey};
      EntriesMean(items, curTime, defaultKey, loadingTasks, failedTasks, untouched);
    }

    lemma NowIs()
      ensures lastUpdateTime.Some? ==> Now() == lastUpdateTime.value
      ensures lastUpdateTime.None? ==> Now() == 0
    {
    }

    method ForceUsed(forceUsed: seq<Key>, curTime: nat)
      modifies this`items
      ensures items == TouchAll(old(items), forceUsed, curTime)
    {
      var i := 0;
      while i < |forceUsed|
        invariant i <= |forceUsed|
        invariant items == TouchAll(old(items), forceUsed[..i], curTime)
      {
        assert Init(forceUsed[..i + 1]) == forceUsed[..i];
        items := Touch(items, forceUsed[i], curTime);
        i := i + 1;
      }
      assert forceUsed[..i] == forceUsed;
    }

    method EvictFront(lifetime: nat)
      modifies this`items
      ensures items == old(items)[EvictCount(old(items), lastUpdateTime, lifetime, defaultKey)..]
    {
      while items != []
        invariant |items| <= |old(items)| && items == old(items)[|old(items)| - |items|..]
        invariant |old(items)| - |items| + EvictCount(items, lastUpdateTime, lifetime, defaultKey)
               == EvictCount(old(items), lastUpdateTime, lifetime, defaultKey)
        decreases |items|
      {
        if Expired(items[0], lastUpdateTime, lifetime) && items[0].key != defaultKey {
          items := items[1..];
        } else {
          break;
        }
      }
    }

    // ---------------------------------------------------------------- looking up

    twostate predicate TasksStep(name: Key, new polled: Option<Key>, finished: map<Key, LoadResult<A>>) reads this {
      TaskStep(name, Has(old(WithDefault()), name), polled, finished,
               Tasks(old(loadingTasks), old(failedTasks), old(spawned), old(loaded)),
               Tasks(loadingTasks, failedTasks, spawned, loaded))
    }

    /** If the task is finished it ends, and its item becomes the entry at the back. */
    method Poll(q: Key, finished: map<Key, LoadResult<A>>)
      requires Valid() && defaultItem.None? && q in loadingTasks
      modifies this`items, this`loadingTasks, this`failedTasks, this`loaded, this`untouched
      ensures Valid()
      ensures q !in finished ==> && items == old(items) && loadingTasks == old(loadingTasks)
                                 && failedTasks == old(failedTasks) && loaded == old(loaded)
                                 && untouched == old(untouched)
      ensures q in finished ==> TasksStep(q, Some(q), finished)
      ensures q in finished && finished[q].LoadFailed? ==>
                items == old(items) && untouched == old(untouched) && !Has(items, q)
      ensures q in finished && finished[q].Loaded? ==>
                && items == old(items) + [Item(q, finished[q].item, Now())] && untouched == old(untouched) - {q}
                && Has(items, q) && Stored(items, q) == finished[q].item
    {
      hide StateValid, EntriesValid, Accounted, Has, Stored, Touch, Keys, AllUpdated, Ordered, NotTasked, InFront,
           TaskStep;
      ghost var before := Tasks(loadingTasks, failedTasks, spawned, loaded);
      if q in finished {
        match finished[q] {
        case Loaded(item) =>
          StatePushed(items, Now(), untouched, defaultKey, loadingTasks, failedTasks, spawned, loaded, q, item);
          items, loadingTasks := items + [Item(q, item, Now())], loadingTasks - {q};
          loaded, untouched := loaded + multiset{q}, untouched - {q};
        case LoadFailed =>
          StateFailed(items, Now(), untouched, defaultKey, loadingTasks, failedTasks, spawned, loaded, q);
          loadingTasks, failedTasks := loadingTasks - {q}, failedTasks + {q};
        }
        PollStep(q, Has(old(WithDefault()), q), q, finished, before, Tasks(loadingTasks, failedTasks, spawned, loaded));
      }
    }

    /** A task that ended as loaded gives the entry at the back. */
    function Pushed(start: seq<Item<A>>, polled: Option<Key>, finished: map<Key, LoadResult<A>>,
                    time: nat): seq<Item<A>> {
      if polled.Some? && polled.value in finished && finished[polled.value].Loaded?
      then start + [Item(polled.value, finished[polled.value].item, time)]
      else start
    }

    lemma PushedKeeps(start: seq<Item<A>>, polled: Option<Key>, finished: map<Key, LoadResult<A>>, time: nat)
      ensures forall k :: Has(start, k) ==> Has(Pushed(start, polled, finished, time), k)
    {
      hide Has;
      forall k | Has(start, k) ensures Has(Pushed(start, polled, finished, time), k) {
        if polled.Some? && polled.value in finished && finished[polled.value].Loaded? {
          PushedStays(start, Item(polled.value, finished[polled.value].item, time), k);
        }
      }
    }

    /** What a call for a key without entry leaves behind: unless the wanted entry was just loaded,
        the default entry was used. */
    function AfterMiss(start: seq<Item<A>>, name: Key, polled: Option<Key>, finished: map<Key, LoadResult<A>>,
                       time: nat): seq<Item<A>> {
      var pushed := Pushed(start, polled, finished, time);
      if polled == Some(name) && name in finished && finished[name].Loaded? then pushed
      else Touch(pushed, defaultKey, time)
    }

    /** The key has an entry. */
    method Hit(name: Key) returns (r: A)
      requires Valid() && defaultItem.None? && Has(items, name)
      modifies this`items, this`untouched
      ensures Valid() && items == Touch(old(items), name, Now()) && untouched == old(untouched) - {name}
      ensures Has(items, name) && r == Stored(items, name)
      ensures forall k :: Has(items, k) <==> Has(old(items), k)
    {
      hide StateValid, EntriesValid, Accounted, Has, Stored, Touch, Keys, AllUpdated, Ordered, NotTasked, InFront,
           TaskStep;
      LoadedState(items, Now(), untouched, defaultKey, loadingTasks, failedTasks, spawned, loaded);
      EntryTouched(items, Now(), defaultKey, loadingTasks, failedTasks, untouched, name);
      TouchedHas(items, Now(), defaultKey, loadingTasks, failedTasks, untouched, name);
      items, untouched := Touch(items, name, Now()), untouched - {name};
      LoadedState(items, Now(), untouched, defaultKey, loadingTasks, failedTasks, spawned, loaded);
      r := Stored(items, name);
    }

    method UseDefault() returns (r: A)
      requires Valid() && defaultItem.None?
      modifies this`items
      ensures Valid() && items == Touch(old(items), defaultKey, Now()) && r == Stored(items, defaultKey)
      ensures forall k :: Has(items, k) <==> Has(old(items), k)
    {
      hide StateValid, EntriesValid, Accounted, Has, Stored, Touch, Keys, AllUpdated, Ordered, NotTasked, InFront,
           TaskStep;
      LoadedState(items, Now(), untouched, defaultKey, loadingTasks, failedTasks, spawned, loaded);
      forall k ensures Has(Touch(items, defaultKey, Now()), k) <==> Has(items, k) {
        DefaultTouched(items, Now(), defaultKey, loadingTasks, failedTasks, untouched, k);
      }
      DefaultTouched(items, Now(), defaultKey, loadingTasks, failedTasks, untouched, defaultKey);
      items := Touch(items, defaultKey, Now());
      LoadedState(items, Now(), untouched, defaultKey, loadingTasks, failedTasks, spawned, loaded);
      r := Stored(items, defaultKey);
    }

    /** The key has no entry: its own task is polled, or started, or else some other task is polled. */
    method Continue(name: Key, finished: map<Key, LoadResult<A>>) returns (own: bool, ghost polled: Option<Key>)
      requires Valid() && defaultItem.None? && !Has(items, name)
      modifies this`items, this`loadingTasks, this`failedTasks, this`spawned, this`loaded, this`untouched
      ensures Valid()
      ensures TasksStep(name, polled, finished)
      ensures items == Pushed(old(items), polled, finished, Now())
      ensures forall k :: Has(old(items), k) ==> Has(items, k)
      ensures own == Has(items, name) == (name in old(loadingTasks) && name in finished && finished[name].Loaded?)
      ensures name in old(loadingTasks) ==> polled == (if name in finished then Some(name) else None)
      ensures name !in old(loadingTasks) ==> polled != Some(name)
      ensures name !in old(loadingTasks) && name !in old(failedTasks) && |old(loadingTasks)| < 16
              ==> name in loadingTasks && spawned == old(spawned) + multiset{name}
      // when the task can neither be polled nor started, some other one is polled, and ends if it is finished
      ensures name !in old(loadingTasks) && (name in old(failedTasks) || |old(loadingTasks)| >= 16)
              && old(loadingTasks) != {}
              ==> exists q :: q in old(loadingTasks) && polled == (if q in finished then Some(q) else None)
      ensures old(untouched) - (if polled.Some? then {polled.value} else {}) <= untouched <= old(untouched)
    {
      hide StateValid, EntriesValid, Accounted, Has, Stored, Touch, Keys, AllUpdated, Ordered, NotTasked, InFront,
           TaskStep;
      own, polled := false, None;
      ghost var before := Tasks(loadingTasks, failedTasks, spawned, loaded);
      LoadedState(items, Now(), untouched, defaultKey, loadingTasks, failedTasks, spawned, loaded);
      IdleStep(name, false, finished, before);
      if name in loadingTasks {
        if name in finished { polled := Some(name); }
        Poll(name, finished);
        own := name in finished && finished[name].Loaded?;
      } else if |loadingTasks| < CONTAINER_MAX_TASKS && name !in failedTasks {
        StateHasDefault(items, Now(), untouched, defaultKey, loadingTasks, failedTasks, spawned, loaded);
        NotDefault(items, name, defaultKey);
        TaskStarts(loadingTasks, failedTasks, spawned, loaded, defaultKey, name);
        TaskSpawned(items, Now(), defaultKey, loadingTasks, failedTasks, untouched, name);
        StartStep(name, finished, before);
        loadingTasks, spawned := loadingTasks + {name}, spawned + multiset{name};
        LoadedState(items, Now(), untouched, defaultKey, loadingTasks, failedTasks, spawned, loaded);
      } else if loadingTasks != {} {
        var q :| q in loadingTasks;
        if q in finished { polled := Some(q); }
        Poll(q, finished);
        if q in finished {
          AnyLookup(q, Has(old(items), q), name, false, q, finished, before,
                    Tasks(loadingTasks, failedTasks, spawned, loaded));
          if finished[q].Loaded? { PushedHas(old(items), Item(q, finished[q].item, Now()), name); }
        }
      }
      PushedKeeps(old(items), polled, finished, Now());
    }

    /** The entry for a key if it is loaded, the default entry otherwise; a missing entry makes
        loading continue. */
    method GetOrDefault(name: Key, finished: map<Key, LoadResult<A>>) returns (r: A, ghost polled: Option<Key>)
      requires Valid()
      modifies this`items, this`loadingTasks, this`failedTasks, this`defaultItem, this`spawned, this`loaded,
               this`untouched
      ensures Valid() && defaultItem == None
      ensures r == (if Has(items, name) then Stored(items, name) else Stored(items, defaultKey))
      ensures TasksStep(name, polled, finished)
      ensures forall k :: old(Has(WithDefault(), k)) ==> Has(items, k)
      ensures old(Has(WithDefault(), name)) ==>
                && polled == None && spawned == old(spawned)
                && items == Touch(old(WithDefault()), name, Now()) && untouched == old(untouched) - {name}
                && Has(items, name)
      ensures !old(Has(WithDefault(), name)) ==>
                && items == AfterMiss(old(WithDefault()), name, polled, finished, Now())
                && (Has(items, name) <==> name in old(loadingTasks) && name in finished && finished[name].Loaded?)
                && (name in old(loadingTasks) ==> polled == (if name in finished then Some(name) else None))
                && (name !in old(loadingTasks) && name !in old(failedTasks) && |old(loadingTasks)| < 16
                    ==> name in loadingTasks && spawned == old(spawned) + multiset{name})
                && (name !in old(loadingTasks) && (name in old(failedTasks) || |old(loadingTasks)| >= 16)
                    && old(loadingTasks) != {}
                    ==> exists q :: q in old(loadingTasks) && polled == (if q in finished then Some(q) else None))
                && old(untouched) - (if polled.Some? then {polled.value} else {}) <= untouched <= old(untouched)
    {
      hide StateValid, EntriesValid, Accounted, Has, Stored, Touch, Keys, AllUpdated, Ordered, NotTasked, InFront,
           TaskStep;
      CheckDefaultLoaded();
      if Has(items, name) {
        polled := None;
        IdleStep(name, true, finished, Tasks(loadingTasks, failedTasks, spawned, loaded));
        r := Hit(name);
      } else {
        var own;
        own, polled := Continue(name, finished);
        if own {
          r := Stored(items, name);
        } else {
          r := UseDefault();
        }
      }
    }

    /** Waits for the task of the key, which by then has ended with `outcome`. The key is loaded or
        failed afterwards exactly if it was before, its task was running or one could be started:
        with 16 other tasks in flight there is nothing to wait for. */
    method BlockingWaitLoaded(name: Key, finished: map<Key, LoadResult<A>>, outcome: LoadResult<A>,
                              later: map<Key, LoadResult<A>>)
      requires Valid()
      modifies this`items, this`loadingTasks, this`failedTasks, this`defaultItem, this`spawned, this`loaded,
               this`untouched
      ensures Valid()
      ensures Has(items, name) || name in failedTasks
              <==> old(|| Has(WithDefault(), name) || name in failedTasks || name in loadingTasks
                       || |loadingTasks| < CONTAINER_MAX_TASKS)
      ensures old(!Has(WithDefault(), name) && name in loadingTasks && name !in finished)
              ==> (Has(items, name) <==> outcome.Loaded?)
      ensures forall k :: old(Has(WithDefault(), k)) ==> Has(items, k)
    {
      hide StateValid, EntriesValid, Accounted, Has, Stored, Touch, Keys, AllUpdated, Ordered, NotTasked, InFront,
           TaskStep;
      if !Has(items, name) {
        ghost var start, hit := Tasks(loadingTasks, failedTasks, spawned, loaded), Has(WithDefault(), name);
        var _, p1 := GetOrDefault(name, finished);
        ghost var first, hit' := Tasks(loadingTasks, failedTasks, spawned, loaded), Has(items, name);
        StepOfKey(name, hit, p1, finished, start, first);
        var results := later;
        if name in loadingTasks { results := later[name := outcome]; }
        var _, p2 := GetOrDefault(name, results);
        StepOfKey(name, hit', p2, results, first, Tasks(loadingTasks, failedTasks, spawned, loaded));
      } else {
        HasSomething(items, name);
        StateStarts(items, Now(), defaultItem, untouched, defaultKey, loadingTasks, failedTasks, spawned, loaded);
      }
    }

    /** Only the default entry is kept; failures are forgotten. */
    method ClearExceptDefault()
      requires Valid()
      modifies this`items, this`loadingTasks, this`failedTasks, this`spawned, this`loaded, this`untouched
      ensures Valid() && loadingTasks == {} && failedTasks == {}
      ensures items == if defaultItem.Some? then [] else [old(items)[Find(old(items), defaultKey)]]
    {
      hide StateValid, Find;
      StateCleared(items, Now(), defaultItem, untouched, defaultKey, loadingTasks, failedTasks, spawned, loaded);
      var i := Find(items, defaultKey);
      if i < |items| {
        items := [items[i]];
      } else {
        items := [];
      }
      loadingTasks, failedTasks := {}, {};
      spawned, loaded, untouched := multiset{}, multiset{}, {};
    }
  }
}
