/**
 Loading the parts of an asset (`load_file_part` and `load_file_part_list_and_upload`,
 game/client-containers/src/container.rs): a part that an asset does not bring itself is taken from
 the default asset, and numbered parts are loaded until one is missing, where default parts are
 allowed only until the asset's first own part.

 A path is the text of the joined directories and the part name; decoding a file may fail.
 */
module PartLoader {
  import opened OrderedMaps

  type Path = string

  // ---------------------------------------------------------------- part names

  function Digit(n: nat): char {
    "0123456789"[n % 10]
  }

  function DigitValue(c: char): nat {
    if '0' <= c <= '9' then (c - '0') as int else 0
  }

  function Decimal(n: nat): string {
    if n < 10 then [Digit(n)] else Decimal(n / 10) + [Digit(n)]
  }

  /** The format `{:03}`. */
  function Padded(n: nat): string {
    var d := Decimal(n);
    if |d| == 1 then "00" + d else if |d| == 2 then "0" + d else d
  }

  function Value(s: string): nat {
    if s == "" then 0 else Value(Init(s)) * 10 + DigitValue(Last(s))
  }

  predicate AllDigits(s: string) {
    forall i :: 0 <= i < |s| ==> '0' <= s[i] <= '9'
  }

  lemma {:induction false} DecimalValue(n: nat)
    ensures Value(Decimal(n)) == n && AllDigits(Decimal(n))
  {
    assert DigitValue(Digit(n)) == n % 10;
    if n >= 10 {
      DecimalValue(n / 10);
      assert Init(Decimal(n)) == Decimal(n / 10);
    } else {
      assert Init(Decimal(n)) == "";
    }
  }

  lemma {:induction false} LeadingZero(s: string)
    ensures Value("0" + s) == Value(s)
  {
    if s == "" {
      assert Init("0" + s) == "";
    } else {
      assert Init("0" + s) == "0" + Init(s);
      LeadingZero(Init(s));
    }
  }

  /** The number can be read back from its padded form. */
  lemma {:induction false} PaddedValue(n: nat)
    ensures Value(Padded(n)) == n && AllDigits(Padded(n))
  {
    var d := Decimal(n);
    DecimalValue(n);
    LeadingZero(d);
    LeadingZero("0" + d);
    assert "0" + ("0" + d) == "00" + d;
  }

  lemma {:induction false} DecimalLead(n: nat)
    requires n > 0
    ensures Decimal(n) != "" && Decimal(n)[0] != '0'
  {
    if n >= 10 { DecimalLead(n / 10); }
  }

  /** A padded number has at least three characters, and more only if it starts with another digit than 0. */
  lemma {:induction false} PaddedForm(n: nat)
    ensures |Padded(n)| >= 3 && (|Padded(n)| > 3 ==> Padded(n)[0] != '0')
  {
    if n > 0 { DecimalLead(n); }
  }

  /** Where the extension of the last path component starts, or the end: a dot that is not the first
      character of the component. */
  function ExtensionAt(p: string): (r: nat)
    ensures r <= |p|
  {
    if p == "" || Last(p) == '/' then |p|
    else if Last(p) == '.' && |p| > 1 && p[|p| - 2] != '/' then |p| - 1
    else
      var r := ExtensionAt(Init(p));
      if r == |p| - 1 then |p| else r
  }

  predicate HasExtension(p: string) {
    ExtensionAt(p) < |p|
  }

  /** `set_extension("png")`: an extension that is already there is replaced. */
  function WithPng(p: string): Path {
    p[..ExtensionAt(p)] + ".png"
  }

  /** The path of the numbered part `i`, which is named with `i + 1`. */
  function PartPath(base: string, i: nat): Path {
    WithPng(base + "_" + Padded(i + 1))
  }

  predicate Plain(s: string) {
    forall i :: 0 <= i < |s| ==> s[i] != '.' && s[i] != '/'
  }

  lemma {:induction false} ExtensionBefore(base: string, s: string)
    requires Plain(s)
    ensures ExtensionAt(base + s) == if HasExtension(base) then ExtensionAt(base) else |base + s|
  {
    if s == "" {
      assert base + s == base;
    } else {
      assert Init(base + s) == base + Init(s);
      assert Last(base + s) == Last(s);
      ExtensionBefore(base, Init(s));
    }
  }

  /** The extension starts at the last dot of the last component, unless that is its first character ... */
  lemma {:induction false} ExtensionIs(p: string, k: nat)
    requires k < |p| && p[k] == '.' && forall i :: k < i < |p| ==> p[i] != '.' && p[i] != '/'
    ensures ExtensionAt(p) == if k > 0 && p[k - 1] != '/' then k else |p|
  {
    var base, s := p[..k + 1], p[k + 1..];
    assert p == base + s;
    ExtensionBefore(base, s);
    assert Init(base) == p[..k];
    if k > 0 { assert Last(p[..k]) == p[k - 1]; }
  }

  /** ... and a last component without a dot has none. */
  lemma {:induction false} NoExtension(dir: string, s: string)
    requires (dir == "" || Last(dir) == '/') && Plain(s)
    ensures !HasExtension(dir + s)
  {
    ExtensionBefore(dir, s);
  }

  lemma NumberIsPlain(i: nat)
    ensures Plain("_" + Padded(i + 1))
  {
    PaddedValue(i + 1);
    hide Padded;
  }

  lemma WithPngIs(base: string, s: string)
    requires Plain(s)
    ensures WithPng(base + s) == (if HasExtension(base) then base[..ExtensionAt(base)] else base + s) + ".png"
  {
    ExtensionBefore(base, s);
    hide ExtensionAt;
    assert (base + s)[..|base + s|] == base + s;
    if HasExtension(base) { assert (base + s)[..ExtensionAt(base)] == base[..ExtensionAt(base)]; }
  }

  lemma {:induction false} PartPathIs(base: string, i: nat)
    ensures PartPath(base, i)
            == (if HasExtension(base) then base[..ExtensionAt(base)] else base + ("_" + Padded(i + 1))) + ".png"
  {
    hide Padded, WithPng, ExtensionAt, HasExtension;
    NumberIsPlain(i);
    WithPngIs(base, "_" + Padded(i + 1));
    assert base + ("_" + Padded(i + 1)) == base + "_" + Padded(i + 1);
  }

  lemma Inner(x: string, a: string, b: string, y: string)
    requires x + ("_" + a) + y == x + ("_" + b) + y
    ensures a == b
  {
    assert |x + ("_" + a) + y| == |x| + 1 + |a| + |y|;
    assert |x + ("_" + b) + y| == |x| + 1 + |b| + |y|;
    forall k | 0 <= k < |a| ensures a[k] == b[k] {
      assert a[k] == (x + ("_" + a) + y)[|x| + 1 + k];
      assert b[k] == (x + ("_" + b) + y)[|x| + 1 + k];
    }
  }

  /** Numbered parts have different paths, exactly if the base name has no extension. */
  lemma PathsDiffer(base: string, i: nat, j: nat)
    requires i != j
    ensures PartPath(base, i) != PartPath(base, j) <==> !HasExtension(base)
  {
    hide *;
    PartPathIs(base, i);
    PartPathIs(base, j);
    PaddedValue(i + 1);
    PaddedValue(j + 1);
    if !HasExtension(base) && PartPath(base, i) == PartPath(base, j) {
      Inner(base, Padded(i + 1), Padded(j + 1), ".png");
    }
  }

  // ---------------------------------------------------------------- one part

  datatype Part<+I> = Part(data: I, fromDefault: bool)

  /** The files of an asset and of the default asset, and what decoding a file gives. */
  datatype Assets<!F, !I> = Assets(
    files: map<Path, F>, defaults: map<Path, F>, itemName: string, decode: F -> Option<I>)

  function Decoded<F, I>(a: Assets<F, I>, f: F, fromDefault: bool): Option<Part<I>> {
    var d := a.decode(f);
    if d.Some? then Some(Part(d.value, fromDefault)) else None
  }

  /** The asset's own file wins, even if it cannot be decoded; the default asset has no fallback. */
  function LoadPart<F, I>(a: Assets<F, I>, path: Path, allowDefault: bool): Option<Part<I>> {
    if path in a.files then Decoded(a, a.files[path], false)
    else if a.itemName != "default" && allowDefault && path in a.defaults then Decoded(a, a.defaults[path], true)
    else None
  }

  // ---------------------------------------------------------------- numbered parts

  /** The asset's own part of that number, if it is there and can be decoded. */
  function OwnPart<F, I>(a: Assets<F, I>, base: string, i: nat): Option<I> {
    var p := PartPath(base, i);
    if p in a.files then a.decode(a.files[p]) else None
  }

  /** The part of the default asset, if the asset has no file of its own in its place. */
  function DefaultPart<F, I>(a: Assets<F, I>, base: string, i: nat): Option<I> {
    var p := PartPath(base, i);
    if p !in a.files && a.itemName != "default" && p in a.defaults then a.decode(a.defaults[p]) else None
  }

  /** `parts` are `d` default parts followed by own parts. */
  ghost predicate IsRun<F, I>(a: Assets<F, I>, base: string, d: nat, parts: seq<I>) {
    && d <= |parts|
    && (forall i :: 0 <= i < d ==> DefaultPart(a, base, i) == Some(parts[i]))
    && (forall i :: d <= i < |parts| ==> OwnPart(a, base, i) == Some(parts[i]))
  }

  /** Such a run that cannot be continued. */
  ghost predicate MaximalRun<F, I>(a: Assets<F, I>, base: string, d: nat, parts: seq<I>) {
    && IsRun(a, base, d, parts)
    && OwnPart(a, base, |parts|).None?
    && (d == |parts| ==> DefaultPart(a, base, |parts|).None?)
  }

  lemma NotBoth<F, I>(a: Assets<F, I>, base: string, i: nat)
    ensures OwnPart(a, base, i).None? || DefaultPart(a, base, i).None?
  {
  }

  /** There is only one maximal run. */
  lemma RunIsUnique<F, I>(a: Assets<F, I>, base: string, d1: nat, p1: seq<I>, d2: nat, p2: seq<I>)
    requires MaximalRun(a, base, d1, p1) && MaximalRun(a, base, d2, p2) && |p1| <= |p2|
    ensures d1 == d2 && p1 == p2
  {
    hide OwnPart, DefaultPart;
    if d1 < d2 && d1 < |p1| { NotBoth(a, base, d1); }
    if d2 < d1 { NotBoth(a, base, d2); }
  }

  function PathsBelow(base: string, n: nat): set<Path> {
    if n == 0 then {} else PathsBelow(base, n - 1) + {PartPath(base, n - 1)}
  }

  lemma {:induction false} PathNotBelow(base: string, n: nat, i: nat)
    requires !HasExtension(base) && n <= i
    ensures PartPath(base, i) !in PathsBelow(base, n)
  {
    if n == 0 {
    } else {
      PathNotBelow(base, n - 1, i);
      PathsDiffer(base, n - 1, i);
    }
  }

  lemma {:induction false} PathsCount(base: string, n: nat)
    requires !HasExtension(base)
    ensures |PathsBelow(base, n)| == n
  {
    hide PartPath, HasExtension;
    if n == 0 {
    } else {
      PathsCount(base, n - 1);
      PathNotBelow(base, n - 1, n - 1);
    }
  }

  lemma {:induction false} PathsAreIn(base: string, n: nat, paths: set<Path>)
    requires forall i :: 0 <= i < n ==> PartPath(base, i) in paths
    ensures PathsBelow(base, n) <= paths
  {
    hide PartPath;
    if n == 0 {
    } else {
      PathsAreIn(base, n - 1, paths);
    }
  }

  /** Not more parts can be loaded than there are files. */
  lemma LoadedBound<F, I>(a: Assets<F, I>, base: string, n: nat)
    requires !HasExtension(base)
    requires forall i :: 0 <= i < n ==> PartPath(base, i) in a.files.Keys + a.defaults.Keys
    ensures n <= |a.files.Keys + a.defaults.Keys|
  {
    PathsCount(base, n);
    PathsAreIn(base, n, a.files.Keys + a.defaults.Keys);
    SubsetCount(PathsBelow(base, n), a.files.Keys + a.defaults.Keys);
  }

  /** The loop ends unless the base name has an extension and its one path can be loaded. */
  ghost predicate Ends<F, I>(a: Assets<F, I>, base: string) {
    HasExtension(base) ==> LoadPart(a, PartPath(base, 0), true).None?
  }

  /** Otherwise every number gives the same file, and no run is maximal. */
  lemma EndlessRun<F, I>(a: Assets<F, I>, base: string, d: nat, parts: seq<I>)
    requires !Ends(a, base)
    ensures !MaximalRun(a, base, d, parts)
  {
    var n := |parts|;
    Loads(a, base, 0, true);
    SameParts(a, base, 0, n);
    hide OwnPart, DefaultPart, LoadPart, PartPath, HasExtension;
    if n > 0 { SameParts(a, base, n - 1, n); }
  }

  lemma SameParts<F, I>(a: Assets<F, I>, base: string, i: nat, j: nat)
    requires HasExtension(base)
    ensures OwnPart(a, base, i) == OwnPart(a, base, j) && DefaultPart(a, base, i) == DefaultPart(a, base, j)
  {
    PartPathIs(base, i);
    PartPathIs(base, j);
    hide PartPath, HasExtension;
  }

  lemma Loads<F, I>(a: Assets<F, I>, base: string, i: nat, allowDefault: bool)
    ensures var part := LoadPart(a, PartPath(base, i), allowDefault);
            && (part.None? <==> OwnPart(a, base, i).None? && (allowDefault ==> DefaultPart(a, base, i).None?))
            && (part.Some? ==> (if part.value.fromDefault then DefaultPart(a, base, i) else OwnPart(a, base, i))
                               == Some(part.value.data))
            && (part.Some? && part.value.fromDefault ==> allowDefault)
  {
  }

  lemma LoadedIsFile<F, I>(a: Assets<F, I>, base: string, i: nat)
    requires OwnPart(a, base, i).Some? || DefaultPart(a, base, i).Some?
    ensures PartPath(base, i) in a.files.Keys + a.defaults.Keys
  {
  }

  lemma RunBound<F, I>(a: Assets<F, I>, base: string, d: nat, parts: seq<I>)
    requires IsRun(a, base, d, parts) && !HasExtension(base)
    ensures |parts| <= |a.files.Keys + a.defaults.Keys|
  {
    forall k: nat | k < |parts| ensures PartPath(base, k) in a.files.Keys + a.defaults.Keys {
      LoadedIsFile(a, base, k);
    }
    LoadedBound(a, base, |parts|);
  }

  lemma {:induction false} RunExtends<F, I>(a: Assets<F, I>, base: string, d: nat, parts: seq<I>, data: I,
                                            fromDefault: bool)
    requires IsRun(a, base, d, parts) && (fromDefault ==> d == |parts|)
    requires (if fromDefault then DefaultPart(a, base, |parts|) else OwnPart(a, base, |parts|)) == Some(data)
    ensures IsRun(a, base, if fromDefault then d + 1 else d, parts + [data])
  {
    hide OwnPart, DefaultPart;
    assert forall i :: 0 <= i < |parts| ==> (parts + [data])[i] == parts[i];
  }

  /** What loading the next part makes of a run. */
  lemma {:induction false} RunStep<F, I>(a: Assets<F, I>, base: string, d: nat, parts: seq<I>)
    requires IsRun(a, base, d, parts)
    ensures var part := LoadPart(a, PartPath(base, |parts|), d == |parts|);
            if part.None? then MaximalRun(a, base, d, parts)
            else IsRun(a, base, if part.value.fromDefault then d + 1 else d, parts + [part.value.data])
                 && (part.value.fromDefault ==> d == |parts|)
  {
    hide OwnPart, DefaultPart, LoadPart, PartPath, HasExtension, IsRun;
    Loads(a, base, |parts|, d == |parts|);
    var part := LoadPart(a, PartPath(base, |parts|), d == |parts|);
    if part.Some? { RunExtends(a, base, d, parts, part.value.data, part.value.fromDefault); }
  }

  /** The list is the one maximal run; not even a first part is an error. */
  method LoadPartList<F, I>(a: Assets<F, I>, base: string) returns (r: Option<seq<I>>, ghost d: nat)
    requires Ends(a, base)
    ensures r.None? <==> LoadPart(a, PartPath(base, 0), true).None?
    ensures r.None? ==> MaximalRun(a, base, 0, [])
    ensures r.Some? ==> r.value != [] && MaximalRun(a, base, d, r.value)
  {
    var textures, i, allowDefault := [], 0, true;
    d := 0;
    assert IsRun(a, base, 0, []);
    hide IsRun, MaximalRun, LoadPart, PartPath, HasExtension;
    while true
      invariant i == |textures| && d <= i && (allowDefault <==> d == i)
      invariant IsRun(a, base, d, textures)
      invariant i > 0 ==> !HasExtension(base) && LoadPart(a, PartPath(base, 0), true).Some?
      decreases |a.files.Keys + a.defaults.Keys| - i
    {
      RunStep(a, base, d, textures);
      var part := LoadPart(a, PartPath(base, i), allowDefault);
      if part.None? {
        if i == 0 { return None, 0; } else { break; }
      }
      allowDefault := allowDefault && part.value.fromDefault;
      if part.value.fromDefault { d := d + 1; }
      textures := textures + [part.value.data];
      RunBound(a, base, d, textures);
      i := i + 1;
    }
    r := Some(textures);
  }
}
