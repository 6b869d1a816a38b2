/**
 The ordered map from ticks (Rust's `BTreeMap<u64, V>`) that the recorder, the
 viewer and the replay buffer are built on, as the sequence of its entries in
 key order. Two ordered maps with the same lookups are the same sequence, so
 statements about sequences of entries are statements about maps.

 Everything recurses on the last entry, where ticks usually arrive.
 */
module OrderedMaps {

  datatype Option<+T> = None | Some(value: T)

  datatype Entry<+V> = Entry(key: nat, value: V)

  function Last<T>(s: seq<T>): T
    requires s != []
  {
    s[|s| - 1]
  }

  function Init<T>(s: seq<T>): seq<T>
    requires s != []
  {
    s[..|s| - 1]
  }

  lemma InitConcat<T>(a: seq<T>, b: seq<T>)
    requires b != []
    ensures Init(a + b) == a + Init(b) && Last(a + b) == Last(b)
  {
  }

  predicate Increasing<V>(s: seq<Entry<V>>) {
    |s| <= 1 || (s[|s| - 2].key < s[|s| - 1].key && Increasing(Init(s)))
  }

  /** Every key of `s` is below `k`. */
  predicate Below<V>(s: seq<Entry<V>>, k: int) {
    s == [] || Last(s).key < k
  }

  function Get<V>(s: seq<Entry<V>>, k: nat): Option<V> {
    if s == [] then None
    else if Last(s).key == k then Some(Last(s).value)
    else Get(Init(s), k)
  }

  /** `entry(k)` followed by an assignment. */
  function Put<V>(s: seq<Entry<V>>, k: nat, v: V): (r: seq<Entry<V>>)
    ensures r != []
  {
    if Below(s, k) then s + [Entry(k, v)]
    else if Last(s).key == k then Init(s) + [Entry(k, v)]
    else Put(Init(s), k, v) + [Last(s)]
  }

  /** `BTreeMap::append`: every entry of `b` is inserted into `a`. */
  function Append<V>(a: seq<Entry<V>>, b: seq<Entry<V>>): seq<Entry<V>>
    decreases |b|
  {
    if b == [] then a else Put(Append(a, Init(b)), Last(b).key, Last(b).value)
  }

  /** The number of entries whose key is below `k`: where `split_off` and `range` cut. */
  function LowerBound<V>(s: seq<Entry<V>>, k: nat): (r: nat)
    ensures r <= |s|
  {
    if Below(s, k) then |s| else LowerBound(Init(s), k)
  }

  function Concat<T>(chunks: seq<seq<T>>): seq<T> {
    if chunks == [] then [] else Concat(Init(chunks)) + Last(chunks)
  }

  // ---------------------------------------------------------------- order

  /** Distinct increasing keys are at least as far apart as their positions. */
  lemma {:induction false} KeyGap<V>(s: seq<Entry<V>>, i: nat, j: nat)
    requires Increasing(s) && i <= j < |s|
    ensures s[j].key - s[i].key >= j - i
  {
    if j < |s| - 1 {
      KeyGap(Init(s), i, j);
    } else if i < j {
      KeyGap(Init(s), i, j - 1);
    }
  }

  lemma {:induction false} IncreasingConcat<V>(a: seq<Entry<V>>, b: seq<Entry<V>>)
    ensures Increasing(a + b) <==> Increasing(a) && Increasing(b) && (b == [] || Below(a, b[0].key))
    decreases |b|
  {
    if b == [] {
      assert a + b == a;
    } else {
      InitConcat(a, b);
      IncreasingConcat(a, Init(b));
    }
  }

  lemma IncreasingOne<V>(s: seq<Entry<V>>, e: Entry<V>)
    ensures Increasing(s + [e]) <==> Increasing(s) && Below(s, e.key)
  {
    assert Init(s + [e]) == s;
  }

  lemma IncreasingSlice<V>(s: seq<Entry<V>>, i: nat, j: nat)
    requires Increasing(s) && i <= j <= |s|
    ensures Increasing(s[i..j])
  {
    assert s == s[..i] + (s[i..j] + s[j..]);
    IncreasingConcat(s[..i], s[i..j] + s[j..]);
    IncreasingConcat(s[i..j], s[j..]);
  }

  // ---------------------------------------------------------------- lookups

  lemma {:induction false} GetConcat<V>(a: seq<Entry<V>>, b: seq<Entry<V>>, t: nat)
    ensures Get(a + b, t) == if Get(b, t).Some? then Get(b, t) else Get(a, t)
    decreases |b|
  {
    if b == [] {
      assert a + b == a;
    } else {
      InitConcat(a, b);
      GetConcat(a, Init(b), t);
    }
  }

  /** Every entry of the map is found. */
  lemma {:induction false} GetSome<V>(s: seq<Entry<V>>, i: nat)
    requires Increasing(s) && i < |s|
    ensures Get(s, s[i].key) == Some(s[i].value)
  {
    if i < |s| - 1 {
      KeyGap(s, i, |s| - 1);
      GetSome(Init(s), i);
    }
  }

  /** Whatever is found is an entry of the map. */
  lemma {:induction false} GetFound<V>(s: seq<Entry<V>>, t: nat) returns (i: nat)
    requires Get(s, t).Some?
    ensures i < |s| && s[i] == Entry(t, Get(s, t).value)
  {
    if Last(s).key == t {
      i := |s| - 1;
    } else {
      i := GetFound(Init(s), t);
    }
  }

  lemma {:induction false} GetBeyond<V>(s: seq<Entry<V>>, t: nat)
    requires Increasing(s) && Below(s, t)
    ensures Get(s, t) == None
  {
    if s == [] {
    } else {
      GetBeyond(Init(s), t);
    }
  }

  /** Equal lookups make equal sequences. */
  lemma {:induction false} Canonical<V>(a: seq<Entry<V>>, b: seq<Entry<V>>)
    requires Increasing(a) && Increasing(b)
    requires forall t :: Get(a, t) == Get(b, t)
    ensures a == b
    decreases |a|
  {
    if a == [] {
      if b != [] { GetSome(b, |b| - 1); }
    } else if b == [] {
      GetSome(a, |a| - 1);
    } else {
      SameLast(a, b);
      forall t ensures Get(Init(a), t) == Get(Init(b), t) {
        if t == Last(a).key {
          GetBeyond(Init(a), t);
          GetBeyond(Init(b), t);
        } else {
          assert Get(a, t) == Get(b, t);
        }
      }
      Canonical(Init(a), Init(b));
      assert a == Init(a) + [Last(a)] && b == Init(b) + [Last(b)];
    }
  }

  lemma SameLast<V>(a: seq<Entry<V>>, b: seq<Entry<V>>)
    requires Increasing(a) && Increasing(b) && a != [] && b != []
    requires forall t :: Get(a, t) == Get(b, t)
    ensures Last(a) == Last(b)
  {
    var k, l := Last(a).key, Last(b).key;
    assert Get(a, k) == Get(b, k) && Get(a, l) == Get(b, l);
    if k < l { GetBeyond(a, l); } else if l < k { GetBeyond(b, k); }
  }

  // ---------------------------------------------------------------- insertion

  lemma {:induction false} PutIncreasing<V>(s: seq<Entry<V>>, k: nat, v: V)
    requires Increasing(s)
    ensures Increasing(Put(s, k, v))
    ensures Last(Put(s, k, v)).key == if Below(s, k) then k else Last(s).key
    ensures |s| <= |Put(s, k, v)| <= |s| + 1
  {
    if Below(s, k) {
      IncreasingOne(s, Entry(k, v));
    } else if Last(s).key == k {
      IncreasingOne(Init(s), Entry(k, v));
    } else {
      PutIncreasing(Init(s), k, v);
      IncreasingOne(Put(Init(s), k, v), Last(s));
    }
  }

  /** One binding changes, all others stay. */
  lemma {:induction false} GetPut<V>(s: seq<Entry<V>>, k: nat, v: V, t: nat)
    ensures Get(Put(s, k, v), t) == if t == k then Some(v) else Get(s, t)
  {
    if Below(s, k) {
      assert Init(s + [Entry(k, v)]) == s;
    } else if Last(s).key == k {
      assert Init(Init(s) + [Entry(k, v)]) == Init(s);
    } else {
      GetPut(Init(s), k, v, t);
      assert Init(Put(Init(s), k, v) + [Last(s)]) == Put(Init(s), k, v);
    }
  }

  /** An insertion behind a prefix does not touch the prefix. */
  lemma {:induction false} PutConcat<V>(a: seq<Entry<V>>, b: seq<Entry<V>>, k: nat, v: V)
    requires Below(a, k)
    ensures Put(a + b, k, v) == a + Put(b, k, v)
    decreases |b|
  {
    if b == [] {
      assert a + b == a;
    } else {
      InitConcat(a, b);
      PutConcat(a, Init(b), k, v);
    }
  }

  lemma {:induction false} GetAppend<V>(a: seq<Entry<V>>, b: seq<Entry<V>>, t: nat)
    ensures Get(Append(a, b), t) == if Get(b, t).Some? then Get(b, t) else Get(a, t)
    decreases |b|
  {
    if b == [] {
    } else {
      GetPut(Append(a, Init(b)), Last(b).key, Last(b).value, t);
      GetAppend(a, Init(b), t);
    }
  }

  lemma {:induction false} AppendIncreasing<V>(a: seq<Entry<V>>, b: seq<Entry<V>>)
    requires Increasing(a)
    ensures Increasing(Append(a, b))
    decreases |b|
  {
    if b == [] {
    } else {
      AppendIncreasing(a, Init(b));
      PutIncreasing(Append(a, Init(b)), Last(b).key, Last(b).value);
    }
  }

  /** Two overlapping or touching stretches of one ordered map merge into the stretch they span. */
  lemma AppendSlices<V>(s: seq<Entry<V>>, i: nat, j: nat, k: nat, l: nat)
    requires Increasing(s) && i <= j <= |s| && k <= l <= |s|
    requires i <= l && k <= j
    ensures Append(s[i..j], s[k..l]) == s[Min(i, k)..Max(j, l)]
  {
    IncreasingSlice(s, i, j);
    AppendIncreasing(s[i..j], s[k..l]);
    IncreasingSlice(s, Min(i, k), Max(j, l));
    var r, u := Append(s[i..j], s[k..l]), s[Min(i, k)..Max(j, l)];
    forall t ensures Get(r, t) == Get(u, t) {
      GetAppend(s[i..j], s[k..l], t);
      GetSlice(s, i, j, t);
      GetSlice(s, k, l, t);
      GetSlice(s, Min(i, k), Max(j, l), t);
    }
    Canonical(r, u);
  }

  /** Entries that are older than everything present end up in front. */
  lemma {:induction false} AppendOlder<V>(a: seq<Entry<V>>, b: seq<Entry<V>>)
    requires Increasing(b + a)
    ensures Append(a, b) == b + a
  {
    IncreasingConcat(b, a);
    AppendIncreasing(a, b);
    forall t ensures Get(Append(a, b), t) == Get(b + a, t) {
      GetAppend(a, b, t);
      GetConcat(b, a, t);
      if Get(a, t).Some? && Get(b, t).Some? {
        var i := GetFound(b, t);
        var j := GetFound(a, t);
        assert (b + a)[i] == b[i] && (b + a)[|b| + j] == a[j];
        KeyGap(b + a, i, |b| + j);
      }
    }
    Canonical(Append(a, b), b + a);
  }

  // ---------------------------------------------------------------- cutting

  /** Entry `i` is the last one whose key is at most `k`. */
  ghost predicate IsLastUpTo<V>(s: seq<Entry<V>>, i: nat, k: nat) {
    i < |s| && s[i].key <= k && (i + 1 < |s| ==> k < s[i + 1].key)
  }

  /** What is left of the cut is below `k`, what is right of it is not. */
  lemma {:induction false} LowerBoundCuts<V>(s: seq<Entry<V>>, k: nat, i: nat)
    requires Increasing(s) && i < |s|
    ensures i < LowerBound(s, k) <==> s[i].key < k
  {
    KeyGap(s, i, |s| - 1);
    if !Below(s, k) && i < |s| - 1 {
      LowerBoundCuts(Init(s), k, i);
    }
  }

  lemma RankOf<V>(s: seq<Entry<V>>, i: nat)
    requires Increasing(s) && i < |s|
    ensures LowerBound(s, s[i].key) == i
  {
    LowerBoundCuts(s, s[i].key, i);
    if i > 0 {
      LowerBoundCuts(s, s[i].key, i - 1);
      KeyGap(s, i - 1, i);
    }
  }

  /** A stretch of an ordered map is the map restricted to a range of keys. */
  lemma {:induction false} GetSlice<V>(s: seq<Entry<V>>, i: nat, j: nat, t: nat)
    requires Increasing(s) && i <= j <= |s|
    ensures Get(s[i..j], t) == if i <= LowerBound(s, t) < j then Get(s, t) else None
  {
    IncreasingSlice(s, i, j);
    var n := LowerBound(s, t);
    if Get(s[i..j], t).Some? {
      var m := GetFound(s[i..j], t);
      assert s[i + m] == s[i..j][m];
      RankOf(s, i + m);
      GetSome(s, i + m);
    } else if i <= n < j && Get(s, t).Some? {
      var m := GetFound(s, t);
      RankOf(s, m);
      assert s[i..j][m - i] == s[m];
      GetSome(s[i..j], m - i);
    }
  }

  lemma {:induction false} LowerBoundSlice<V>(s: seq<Entry<V>>, i: nat, j: nat, k: nat)
    requires Increasing(s) && i <= j <= |s|
    ensures LowerBound(s[i..j], k) == Max(Min(LowerBound(s, k), j) - i, 0)
  {
    IncreasingSlice(s, i, j);
    var n := Max(Min(LowerBound(s, k), j) - i, 0);
    if n > 0 {
      assert s[i..j][n - 1] == s[i + n - 1];
      LowerBoundCuts(s, k, i + n - 1);
      LowerBoundCuts(s[i..j], k, n - 1);
    }
    if n < j - i {
      assert s[i..j][n] == s[i + n];
      LowerBoundCuts(s, k, i + n);
      LowerBoundCuts(s[i..j], k, n);
    }
  }

  // ---------------------------------------------------------------- chunks

  lemma ConcatSplit<T>(chunks: seq<seq<T>>)
    requires chunks != []
    ensures Concat(chunks) == Concat(Init(chunks)) + Last(chunks)
  {
  }

  lemma {:induction false} ConcatAppend<T>(a: seq<seq<T>>, b: seq<seq<T>>)
    ensures Concat(a + b) == Concat(a) + Concat(b)
    decreases |b|
  {
    if b == [] {
      assert a + b == a;
    } else {
      InitConcat(a, b);
      ConcatAppend(a, Init(b));
      ConcatSplit(a + b);
      ConcatSplit(b);
      hide Concat, Init, Last;
      Assoc(Concat(a), Concat(Init(b)), Last(b));
    }
  }

  lemma ConcatSnoc<T>(a: seq<seq<T>>, c: seq<T>)
    ensures Concat(a + [c]) == Concat(a) + c
  {
    assert Init(a + [c]) == a;
  }

  lemma ConcatOne<T>(a: seq<T>)
    ensures Concat([a]) == a
  {
    assert Init([a]) == [];
  }

  // ---------------------------------------------------------------- general helpers

  function SaturatingSub(a: nat, b: nat): nat {
    if a < b then 0 else a - b
  }

  lemma SubsetCount<T>(a: set<T>, b: set<T>)
    requires a <= b
    ensures |a| <= |b|
  {
    assert b == a + (b - a);
  }

  lemma Assoc<T>(a: seq<T>, b: seq<T>, c: seq<T>)
    ensures (a + b) + c == a + (b + c)
  {
  }

  lemma MulMonotone(a: nat, b: nat, n: nat)
    requires a <= b
    ensures a * n <= b * n
  {
  }

  lemma DivUnique(x: nat, n: nat, q: nat, r: nat)
    requires n > 0 && r < n && x == n * q + r
    ensures x / n == q && x % n == r
  {
    var q' := x / n;
    assert n * q' <= x < n * q' + n;
    assert (q + 1) * n == n * q + n && (q' + 1) * n == n * q' + n;
    if q < q' {
      MulMonotone(q + 1, q', n);
    } else if q' < q {
      MulMonotone(q' + 1, q, n);
    }
  }

  lemma DivAtLeastOne(x: nat, n: nat)
    requires 0 < n <= x
    ensures x / n >= 1
  {
  }

  lemma SmallQuotient(x: nat, n: nat)
    requires n > 0
    ensures x / n == 0 <==> x < n
  {
    if x < n { DivUnique(x, n, 0, x); } else { DivAtLeastOne(x, n); }
  }

  lemma NextQuotient(x: nat, n: nat)
    requires n > 0
    ensures (x + n) / n == x / n + 1
  {
    DivUnique(x + n, n, x / n + 1, x % n);
  }

  function Min(a: int, b: int): int { if a <= b then a else b }
  function Max(a: int, b: int): int { if a <= b then b else a }
}
