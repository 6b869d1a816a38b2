/**
 Key binds as text (game/binds/src/binds.rs): `bind_keys_to_str` prints the names of keys in snake
 case, joined by `+`; `bind_keys_str_to_bind_keys` turns every part back into camel case with a
 sliding window of two characters and looks the name up among keys, mouse buttons and the mouse wheel.

 A key is known by the name its type is serialized with; the sets of names are parameters.
 */
module BindKeys {
  import opened OrderedMaps

  predicate IsUpper(c: char) { 'A' <= c <= 'Z' }

  predicate IsLower(c: char) { 'a' <= c <= 'z' }

  function ToLower(c: char): char {
    if IsUpper(c) then c - 'A' + 'a' else c
  }

  function ToUpper(c: char): char {
    if IsLower(c) then c - 'a' + 'A' else c
  }

  function Lowered(s: string): string {
    if s == "" then "" else [ToLower(s[0])] + Lowered(s[1..])
  }

  function UpperFirst(s: string): string {
    if s == "" then "" else [ToUpper(s[0])] + s[1..]
  }

  // ---------------------------------------------------------------- snake and camel case

  /** Every upper case letter gets an underscore in front. */
  function Underscored(s: string): string {
    if s == "" then "" else (if IsUpper(s[0]) then ['_', s[0]] else [s[0]]) + Underscored(s[1..])
  }

  /** Only the first letter stays without one. */
  function InnerUnderscored(s: string): string {
    if s == "" then "" else [s[0]] + Underscored(s[1..])
  }

  function Snake(s: string): string {
    Lowered(InnerUnderscored(s))
  }

  /** An underscore turns the character after it into upper case, and is dropped; one at the end stays. */
  function WithoutUnderscores(s: string): string {
    if s == "" then ""
    else if s[0] == '_' && |s| > 1 then [ToUpper(s[1])] + WithoutUnderscores(s[2..])
    else [s[0]] + WithoutUnderscores(s[1..])
  }

  function Camel(s: string): string {
    UpperFirst(WithoutUnderscores(s))
  }

  lemma UnderscoredStep(s: string, i: nat, r: string)
    requires i < |s|
    ensures r + Underscored(s[i..]) == (r + (if IsUpper(s[i]) then ['_', s[i]] else [s[i]])) + Underscored(s[i + 1..])
  {
    assert s[i..][1..] == s[i + 1..];
  }

  lemma FirstStep(s: string)
    requires s != ""
    ensures InnerUnderscored(s) == ("" + [s[0]]) + Underscored(s[1..])
  {
  }

  /** `replace_inner_upper_with_underscore`. */
  method ReplaceInnerUpperWithUnderscore(s: string) returns (r: string)
    ensures r == InnerUnderscored(s)
  {
    hide Underscored, InnerUnderscored;
    r := "";
    var index := 0;
    NothingUnderscored(s[|s|..]);
    while index < |s|
      invariant index <= |s|
      invariant index == 0 ==> r == ""
      invariant index > 0 ==> r + Underscored(s[index..]) == InnerUnderscored(s)
    {
      if index == 0 { FirstStep(s); } else { UnderscoredStep(s, index, r); }
      r := r + if index != 0 && IsUpper(s[index]) then ['_', s[index]] else [s[index]];
      index := index + 1;
    }
    if s == "" { NothingUnderscored(s); }
    assert r + "" == r;
  }

  lemma NothingUnderscored(s: string)
    ensures s == "" ==> Underscored(s) == "" && InnerUnderscored(s) == ""
  {
  }

  /** What of the input is read is printed. */
  ghost predicate ReadUpTo(s: string, res: string, i: nat) {
    i <= |s| && WithoutUnderscores(s) == res + WithoutUnderscores(s[i..])
  }

  lemma NothingRead(s: string)
    ensures ReadUpTo(s, "", 0)
    ensures |s| < 2 ==> WithoutUnderscores(s) == s
  {
    assert s[0..] == s;
  }

  lemma ReadNext(s: string, res: string, i: nat)
    requires ReadUpTo(s, res, i) && i < |s|
    ensures if s[i] == '_' && i + 1 < |s| then ReadUpTo(s, res + [ToUpper(s[i + 1])], i + 2)
            else ReadUpTo(s, res + [s[i]], i + 1)
  {
    assert s[i..][1..] == s[i + 1..];
    if s[i] == '_' && i + 1 < |s| {
      assert s[i..][2..] == s[i + 2..];
      Assoc(res, [ToUpper(s[i + 1])], WithoutUnderscores(s[i + 2..]));
    } else {
      Assoc(res, [s[i]], WithoutUnderscores(s[i + 1..]));
    }
  }

  lemma ReadLastTwo(s: string, res: string)
    requires |s| >= 2 && ReadUpTo(s, res, |s| - 2) && s[|s| - 2] != '_'
    ensures ReadUpTo(s, res + [s[|s| - 2], s[|s| - 1]], |s|)
  {
    ReadNext(s, res, |s| - 2);
    ReadNext(s, res + [s[|s| - 2]], |s| - 1);
    assert res + [s[|s| - 2], s[|s| - 1]] == res + [s[|s| - 2]] + [s[|s| - 1]];
  }

  lemma AllRead(s: string, res: string)
    requires ReadUpTo(s, res, |s|)
    ensures WithoutUnderscores(s) == res
  {
  }

  lemma CamelIs(s: string)
    ensures var t := WithoutUnderscores(s);
            Camel(s) == if t == "" then "" else [ToUpper(t[0])] + t[1..]
  {
    hide WithoutUnderscores;
  }

  /** The sliding window of the parser, with the flag that says that the first character of the
      window was already taken, as upper case. */
  method SnakeToCamel(s: string) returns (r: string)
    ensures r == Camel(s)
  {
    hide *;
    NothingRead(s);
    CamelIs(s);
    var n := |s|;
    var lastWasUpper := false;
    var res: string := "";
    var w := 0;
    while w + 1 < n
      invariant w + 1 <= n || w == 0
      invariant w + 1 < n ==> ReadUpTo(s, res, if lastWasUpper then w + 1 else w)
      invariant w + 1 == n >= 2 ==> ReadUpTo(s, res, n)
      invariant (|res| == 0 <==> w == 0) && (lastWasUpper ==> w > 0)
    {
      var c1, c2 := s[w], s[w + 1];
      ReadNext(s, res, if lastWasUpper then w + 1 else w);
      if lastWasUpper {
        lastWasUpper := false;
        if w + 2 == n { res := res + [c2]; }
      } else if c1 == '_' {
        lastWasUpper := true;
        res := res + [ToUpper(c2)];
      } else if w + 2 == n {
        ReadLastTwo(s, res);
        res := res + [c1, c2];
      } else {
        res := res + [c1];
      }
      w := w + 1;
    }
    if n >= 2 { AllRead(s, res); }
    if res == "" {
      r := if n == 0 then "" else [ToUpper(s[0])];
    } else {
      r := [ToUpper(res[0])] + res[1..];
    }
  }

  predicate Free(s: string, c: char) {
    forall i :: 0 <= i < |s| ==> s[i] != c
  }

  lemma CaseRoundTrip(c: char)
    ensures IsUpper(c) ==> ToUpper(ToLower(c)) == c
    ensures ToUpper(ToLower(c)) == c <==> !IsLower(c)
    ensures ToUpper(ToLower(c)) == ToUpper(c)
    ensures ToLower(c) == '_' <==> c == '_'
    ensures ToLower(c) == '+' <==> c == '+'
    ensures ToLower(ToLower(c)) == ToLower(c)
  {
  }

  lemma LoweredFirst(c: char, s: string)
    ensures Lowered([c] + s) == [ToLower(c)] + Lowered(s)
  {
    assert ([c] + s)[1..] == s;
  }

  lemma UnderscoredFirst(s: string)
    requires s != ""
    ensures Underscored(s) == (if IsUpper(s[0]) then ['_'] + ([s[0]] + Underscored(s[1..]))
                                                else [s[0]] + Underscored(s[1..]))
  {
  }

  lemma {:induction false} LoweredStep(s: string)
    requires s != ""
    ensures var u := Lowered(Underscored(s[1..]));
            Lowered(Underscored(s)) == (if IsUpper(s[0]) then ['_', ToLower(s[0])] else [s[0]]) + u
  {
    var tl := Underscored(s[1..]);
    UnderscoredFirst(s);
    LoweredFirst(s[0], tl);
    hide Lowered, Underscored;
    if IsUpper(s[0]) {
      LoweredFirst('_', [s[0]] + tl);
      Assoc(['_'], [ToLower(s[0])], Lowered(tl));
    }
  }

  lemma {:induction false} TailRoundTrip(s: string)
    requires Free(s, '_')
    ensures WithoutUnderscores(Lowered(Underscored(s))) == s
  {
    if s == "" {
    } else {
      TailRoundTrip(s[1..]);
      CaseRoundTrip(s[0]);
      LoweredStep(s);
      var u := Lowered(Underscored(s[1..]));
      hide Lowered, Underscored;
      if IsUpper(s[0]) {
        assert (['_', ToLower(s[0])] + u)[2..] == u;
      } else {
        assert ([s[0]] + u)[1..] == u;
      }
    }
  }

  /** Printing a name in snake case and reading it back only turns its first letter into upper case. */
  lemma SnakeRoundTrip(s: string)
    requires Free(s, '_')
    ensures Camel(Snake(s)) == UpperFirst(s)
    ensures Camel(Snake(s)) == s <==> s == "" || !IsLower(s[0])
  {
    if s != "" {
      var tl := s[1..];
      TailRoundTrip(tl);
      CaseRoundTrip(s[0]);
      assert ([s[0]] + Underscored(tl))[1..] == Underscored(tl);
      var u := Lowered(Underscored(tl));
      assert InnerUnderscored(s) == [s[0]] + Underscored(tl);
      assert Snake(s) == [ToLower(s[0])] + u;
      assert ([ToLower(s[0])] + u)[1..] == u;
      assert s == [s[0]] + tl;
    }
  }

  lemma {:induction false} LoweredTwice(s: string)
    ensures Lowered(Lowered(s)) == Lowered(s)
  {
    if s == "" {
    } else {
      CaseRoundTrip(s[0]);
      LoweredTwice(s[1..]);
      assert Lowered(s)[1..] == Lowered(s[1..]);
    }
  }

  lemma {:induction false} LoweredFree(s: string)
    requires Free(s, '+')
    ensures Free(Lowered(s), '+') && Free(Underscored(s), '+')
  {
    if s == "" {
    } else {
      CaseRoundTrip(s[0]);
      LoweredFree(s[1..]);
    }
  }

  // ---------------------------------------------------------------- keys

  /** A key by its serialized name; a physical key may also be one without a known code. */
  datatype BindKey = Code(name: string) | Unidentified | Mouse(name: string) | Extra(name: string)

  datatype Names = Names(keys: set<string>, mouse: set<string>, extra: set<string>)

  /** Every "Key" in a name is dropped. */
  function RemoveKey(s: string): string {
    if |s| >= 3 && s[..3] == "Key" then RemoveKey(s[3..])
    else if s == "" then ""
    else [s[0]] + RemoveKey(s[1..])
  }

  predicate KeyAt(s: string, i: nat) {
    i + 3 <= |s| && s[i] == 'K' && s[i + 1] == 'e' && s[i + 2] == 'y'
  }

  lemma RemoveStep(s: string)
    requires s != ""
    ensures KeyAt(s, 0) ==> RemoveKey(s) == RemoveKey(s[3..])
    ensures !KeyAt(s, 0) ==> RemoveKey(s) == [s[0]] + RemoveKey(s[1..])
  {
    if |s| >= 3 { assert s[..3] == [s[0], s[1], s[2]]; }
  }

  lemma TailKeyAt(s: string)
    requires s != ""
    ensures forall i :: 0 <= i < |s| ==> KeyAt(s[1..], i) == KeyAt(s, i + 1)
  {
  }

  /** The first "Key" is cut out, and the rest is treated in the same way ... */
  lemma {:induction false} KeyRemoved(s: string, n: nat)
    requires KeyAt(s, n) && forall i :: 0 <= i < n ==> !KeyAt(s, i)
    ensures RemoveKey(s) == s[..n] + RemoveKey(s[n + 3..])
  {
    assert n + 3 <= |s|;
    hide KeyAt, RemoveKey;
    RemoveStep(s);
    if n == 0 {
      assert s[..0] == "";
    } else {
      TailKeyAt(s);
      KeyRemoved(s[1..], n - 1);
      assert s[1..][n + 2..] == s[n + 3..];
      assert s[..n] == [s[0]] + s[1..][..n - 1];
      Assoc([s[0]], s[1..][..n - 1], RemoveKey(s[n + 3..]));
    }
  }

  /** ... and a name without one stays as it is. */
  lemma {:induction false} NoKeyKept(s: string)
    requires forall i :: 0 <= i < |s| ==> !KeyAt(s, i)
    ensures RemoveKey(s) == s
  {
    if s == "" {
    } else {
      hide KeyAt, RemoveKey;
      RemoveStep(s);
      TailKeyAt(s);
      NoKeyKept(s[1..]);
      assert s == [s[0]] + s[1..];
    }
  }

  function WithoutMouse(s: string): string {
    if |s| >= 5 && s[..5] == "Mouse" then s[5..] else s
  }

  /** A "Mouse" in front is dropped, even if nothing follows it. */
  lemma MouseDropped(s: string)
    ensures WithoutMouse("Mouse" + s) == s
    ensures "Mouse" <= s || WithoutMouse(s) == s
  {
  }

  function Text(k: BindKey): string {
    match k
    case Code(name) => Snake(RemoveKey(name))
    case Unidentified => ""
    case Mouse(name) => "mouse_" + Snake(name)
    case Extra(name) => Snake(name)
  }

  /** The lookups of the parser, in order. */
  function Resolve(names: Names, camel: string): Option<BindKey> {
    if camel in names.keys then Some(Code(camel))
    else if WithoutMouse(camel) in names.mouse then Some(Mouse(WithoutMouse(camel)))
    else if camel in names.extra then Some(Extra(camel))
    else if "Key" + camel in names.keys then Some(Code("Key" + camel))
    else None
  }

  function ReadKey(names: Names, text: string): Option<BindKey> {
    Resolve(names, Camel(Lowered(text)))
  }

  /** Names as they are serialized: no separators, and not starting with a lower case letter. */
  predicate CamelName(s: string) {
    Free(s, '_') && Free(s, '+') && (s == "" || !IsLower(s[0]))
  }

  predicate Named(k: BindKey) {
    match k
    case Code(name) => CamelName(RemoveKey(name))
    case Unidentified => true
    case Mouse(name) => name != "" && CamelName(name)
    case Extra(name) => CamelName(name)
  }

  /** The name sets are unambiguous for a key: its text is not the text of an earlier lookup. */
  predicate Unambiguous(names: Names, k: BindKey) {
    match k
    case Code(name) =>
      var m := RemoveKey(name);
      && name in names.keys
      && (|| name == m
          || (name == "Key" + m && m !in names.keys && WithoutMouse(m) !in names.mouse && m !in names.extra))
    case Unidentified => false
    case Mouse(name) => name in names.mouse && "Mouse" + name !in names.keys
    case Extra(name) => name in names.extra && name !in names.keys && WithoutMouse(name) !in names.mouse
  }

  lemma {:induction false} PrefixKept(p: string, x: string)
    requires Free(p, '_')
    ensures WithoutUnderscores(p + x) == p + WithoutUnderscores(x)
  {
    if p == "" {
      assert p + x == x;
    } else {
      PrefixKept(p[1..], x);
      assert (p + x)[1..] == p[1..] + x;
    }
  }

  lemma WithoutFirst(c: char, x: string)
    requires c != '_' || x != ""
    ensures WithoutUnderscores([c] + x)
         == if c == '_' then [ToUpper(x[0])] + WithoutUnderscores(x[1..]) else [c] + WithoutUnderscores(x)
  {
    assert ([c] + x)[1..] == x;
    if x != "" { assert ([c] + x)[2..] == x[1..]; }
  }

  lemma UpperFirstConcat(p: string, x: string)
    requires p != ""
    ensures UpperFirst(p + x) == UpperFirst(p) + x
  {
  }

  lemma {:induction false} CamelPrefix(p: string, x: string)
    requires p != "" && Free(p, '_') && x != "" && x[0] != '_'
    ensures Camel(p + ("_" + x)) == UpperFirst(p) + Camel(x)
  {
    PrefixKept(p, "_" + x);
    WithoutFirst('_', x);
    WithoutFirst(x[0], x[1..]);
    CamelIs(p + ("_" + x));
    CamelIs(x);
    hide WithoutUnderscores, Camel, UpperFirst;
    assert [x[0]] + x[1..] == x;
    UpperFirstConcat(p, [ToUpper(x[0])] + WithoutUnderscores(x[1..]));
    UpperFirstIs(p + ([ToUpper(x[0])] + WithoutUnderscores(x[1..])));
  }

  lemma UpperFirstIs(s: string)
    ensures UpperFirst(s) == if s == "" then "" else [ToUpper(s[0])] + s[1..]
  {
  }

  lemma MousePrefix(x: string)
    requires x != "" && x[0] != '_'
    ensures Camel("mouse_" + x) == "Mouse" + Camel(x)
  {
    CamelPrefix("mouse", x);
    assert UpperFirst("mouse") == "Mouse";
    hide Camel, UpperFirst;
    assert "mouse" + ("_" + x) == "mouse_" + x;
  }

  lemma MouseRoundTrip(name: string)
    requires name != "" && CamelName(name)
    ensures Camel("mouse_" + Snake(name)) == "Mouse" + name
  {
    SnakeRoundTrip(name);
    CaseRoundTrip(name[0]);
    assert Snake(name)[0] == ToLower(name[0]);
    hide Snake, Camel;
    MousePrefix(Snake(name));
  }

  lemma {:induction false} LoweredConcat(a: string, b: string)
    ensures Lowered(a + b) == Lowered(a) + Lowered(b)
  {
    if a == "" {
      assert a + b == b;
    } else {
      LoweredConcat(a[1..], b);
      assert a == [a[0]] + a[1..];
      LoweredFirst(a[0], a[1..]);
      LoweredFirst(a[0], a[1..] + b);
      hide Lowered;
      Assoc([a[0]], a[1..], b);
      Assoc([ToLower(a[0])], Lowered(a[1..]), Lowered(b));
    }
  }

  lemma UnderscoredFirstOf(c: char, s: string)
    ensures Underscored([c] + s) == (if IsUpper(c) then ['_', c] else [c]) + Underscored(s)
  {
    assert ([c] + s)[1..] == s;
  }

  lemma {:induction false} UnderscoredSnoc(s: string, c: char)
    ensures Underscored(s + [c]) == Underscored(s) + if IsUpper(c) then ['_', c] else [c]
  {
    var more := if IsUpper(c) then ['_', c] else [c];
    if s == "" {
      UnderscoredFirstOf(c, "");
      assert s + [c] == [c] + "" && more + "" == more && "" + more == more;
    } else {
      UnderscoredSnoc(s[1..], c);
      UnderscoredFirstOf(s[0], s[1..] + [c]);
      UnderscoredFirstOf(s[0], s[1..]);
      hide Underscored;
      Assoc([s[0]], s[1..], [c]);
      assert s == [s[0]] + s[1..];
      Assoc(if IsUpper(s[0]) then ['_', s[0]] else [s[0]], Underscored(s[1..]), more);
    }
  }

  lemma LoweredOne(c: char)
    ensures Lowered("") == "" && Lowered([c]) == [ToLower(c)] && Lowered(['_', c]) == ['_', ToLower(c)]
  {
    LoweredFirst(c, "");
    LoweredFirst('_', [c]);
    assert [c] + "" == [c] && ['_'] + [c] == ['_', c];
  }

  lemma {:induction false} InnerSnoc(s: string, c: char)
    requires s != ""
    ensures InnerUnderscored(s + [c]) == InnerUnderscored(s) + if IsUpper(c) then ['_', c] else [c]
  {
    UnderscoredSnoc(s[1..], c);
    assert (s + [c])[1..] == s[1..] + [c] && (s + [c])[0] == s[0];
    hide Underscored;
    Assoc([s[0]], Underscored(s[1..]), if IsUpper(c) then ['_', c] else [c]);
  }

  /** Snake case on the characters: the first one is lowered, every later upper case letter becomes an
      underscore and its lower case letter, and everything else stays. */
  lemma {:induction false} SnakeCharacters(s: string, c: char)
    ensures Snake("") == "" && Snake([c]) == [if 'A' <= c <= 'Z' then c - 'A' + 'a' else c]
    ensures s != "" && 'A' <= c <= 'Z' ==> Snake(s + [c]) == Snake(s) + ['_', c - 'A' + 'a']
    ensures s != "" && !('A' <= c <= 'Z') ==> Snake(s + [c]) == Snake(s) + [c]
  {
    LoweredOne(c);
    OneInner(c);
    hide Lowered, InnerUnderscored;
    if s != "" {
      InnerSnoc(s, c);
      LoweredConcat(InnerUnderscored(s), if IsUpper(c) then ['_', c] else [c]);
    }
  }

  lemma OneInner(c: char)
    ensures InnerUnderscored("") == "" && InnerUnderscored([c]) == [c]
  {
    assert [c][1..] == "" && [c] + "" == [c];
  }

  /** The prefix of a letter key is not printed. */
  lemma {:induction false} KeyText(m: string)
    requires forall i :: 0 <= i < |m| ==> !KeyAt(m, i)
    ensures Text(Code("Key" + m)) == Snake(m) == Text(Code(m))
  {
    var s := "Key" + m;
    assert KeyAt(s, 0) && s[3..] == m && s[..0] == "";
    KeyRemoved(s, 0);
    NoKeyKept(m);
  }

  /** What the parser makes of the text of a key: its camel case name, with "Mouse" for buttons. */
  lemma TextReadBack(k: BindKey)
    requires Named(k)
    ensures Camel(Lowered(Text(k))) == match k case Code(name) => RemoveKey(name)
                                               case Unidentified => ""
                                               case Mouse(name) => "Mouse" + name
                                               case Extra(name) => name
  {
    match k
    case Code(name) =>
      LoweredTwice(InnerUnderscored(RemoveKey(name)));
      SnakeRoundTrip(RemoveKey(name));
    case Unidentified =>
    case Mouse(name) =>
      MouseRoundTrip(name);
      LoweredTwice(InnerUnderscored(name));
      LoweredConcat("mouse_", Snake(name));
      assert Lowered("mouse_") == "mouse_";
    case Extra(name) =>
      LoweredTwice(InnerUnderscored(name));
      SnakeRoundTrip(name);
  }

  /** A key is read back from its text exactly if the name sets are unambiguous for it. */
  lemma KeyRoundTrip(names: Names, k: BindKey)
    requires Named(k)
    ensures ReadKey(names, Text(k)) == Some(k) <==> Unambiguous(names, k)
  {
    TextReadBack(k);
    hide Camel, Lowered, Text;
    match k
    case Code(name) => assert |"Key" + RemoveKey(name)| > |RemoveKey(name)|;
    case Unidentified =>
    case Mouse(name) => assert WithoutMouse("Mouse" + name) == name;
    case Extra(name) =>
  }

  // ---------------------------------------------------------------- key lists

  function Joined(texts: seq<string>): string {
    if texts == [] then "" else if |texts| == 1 then texts[0] else Joined(Init(texts)) + "+" + Last(texts)
  }

  function Split(s: string): (r: seq<string>)
    ensures r != []
  {
    if s == "" then [""]
    else
      var r := Split(Init(s));
      if Last(s) == '+' then r + [""] else Init(r) + [Last(r) + [Last(s)]]
  }

  lemma InitSnoc<T>(s: seq<T>, x: T)
    ensures Init(s + [x]) == s && Last(s + [x]) == x
  {
  }

  lemma SplitSnoc(s: string, c: char)
    ensures Split(s + [c]) == if c == '+' then Split(s) + [""] else Init(Split(s)) + [Last(Split(s)) + [c]]
  {
    InitSnoc(s, c);
  }

  lemma {:induction false} SplitLast(s: string, t: string)
    requires Free(t, '+')
    ensures Split(s + t) == Init(Split(s)) + [Last(Split(s)) + t]
  {
    if t == "" {
      assert s + t == s && Last(Split(s)) + t == Last(Split(s));
    } else {
      var t', c := Init(t), Last(t);
      LastIsFree(t);
      hide *;
      SplitLast(s, t');
      Assoc(s, t', [c]);
      SplitSnoc(s + t', c);
      InitSnoc(Init(Split(s)), Last(Split(s)) + t');
      Assoc(Last(Split(s)), t', [c]);
    }
  }

  lemma LastIsFree(t: string)
    requires t != "" && Free(t, '+')
    ensures t == Init(t) + [Last(t)] && Free(Init(t), '+') && Last(t) != '+'
  {
  }

  lemma SplitAfterPlus(s: string, t: string)
    requires Free(t, '+')
    ensures Split(s + "+" + t) == Split(s) + [t]
  {
    SplitSnoc(s, '+');
    SplitLast(s + ['+'], t);
    hide Split, Free;
    InitSnoc(Split(s), "");
    assert "" + t == t;
  }

  lemma SplitOne(t: string)
    requires Free(t, '+')
    ensures Split(t) == [t]
  {
    SplitLast("", t);
    assert "" + t == t;
  }

  lemma {:induction false} SplitJoined(texts: seq<string>)
    requires texts != [] && forall i :: 0 <= i < |texts| ==> Free(texts[i], '+')
    ensures Split(Joined(texts)) == texts
  {
    hide Split, Free;
    var t := Last(texts);
    if |texts| == 1 {
      SplitOne(t);
    } else {
      SplitJoined(Init(texts));
      SplitAfterPlus(Joined(Init(texts)), t);
      assert texts == Init(texts) + [t];
    }
  }

  function Texts(ks: seq<BindKey>): (r: seq<string>)
    ensures |r| == |ks|
  {
    if ks == [] then [] else Texts(Init(ks)) + [Text(Last(ks))]
  }

  function Found(names: Names, texts: seq<string>): seq<BindKey> {
    if texts == [] then []
    else
      var k := ReadKey(names, Last(texts));
      Found(names, Init(texts)) + if k.Some? then [k.value] else []
  }

  /** Parts that are no key are ignored; no key at all is an error. */
  function Parsed(names: Names, s: string): Option<seq<BindKey>> {
    var ks := Found(names, Split(s));
    if ks == [] then None else Some(ks)
  }

  method TextOf(k: BindKey) returns (r: string)
    ensures r == Text(k)
  {
    match k
    case Code(name) =>
      r := ReplaceInnerUpperWithUnderscore(RemoveKey(name));
      r := Lowered(r);
    case Unidentified =>
      r := "";
    case Mouse(name) =>
      r := ReplaceInnerUpperWithUnderscore(name);
      r := "mouse_" + Lowered(r);
    case Extra(name) =>
      r := ReplaceInnerUpperWithUnderscore(name);
      r := Lowered(r);
  }

  lemma JoinedStep(ks: seq<BindKey>, i: nat)
    requires i < |ks|
    ensures Joined(Texts(ks[..0])) + "" == ""
    ensures Joined(Texts(ks[..i + 1])) == Joined(Texts(ks[..i])) + (if i > 0 then "+" else "") + Text(ks[i])
  {
    hide Text;
    assert Init(ks[..i + 1]) == ks[..i];
    assert Init(Texts(ks[..i]) + [Text(ks[i])]) == Texts(ks[..i]);
  }

  method BindKeysToStr(ks: seq<BindKey>) returns (res: string)
    ensures res == Joined(Texts(ks))
  {
    hide *;
    res := "";
    var index := 0;
    if ks == [] { NoKeys(ks); } else { JoinedStep(ks, 0); }
    while index < |ks|
      invariant index <= |ks|
      invariant res == Joined(Texts(ks[..index])) + if 0 < index < |ks| then "+" else ""
    {
      JoinedStep(ks, index);
      var text := TextOf(ks[index]);
      res := res + text;
      assert Joined(Texts(ks[..index + 1])) + "" == res;
      if index + 1 != |ks| { res := res + "+"; }
      index := index + 1;
    }
    assert ks[..index] == ks;
    assert res == Joined(Texts(ks));
  }

  lemma NoKeys(ks: seq<BindKey>)
    requires ks == []
    ensures Joined(Texts(ks[..0])) == ""
  {
  }

  method BindKeysStrToBindKeys(names: Names, s: string) returns (r: Option<seq<BindKey>>)
    ensures r == Parsed(names, s)
  {
    var ks, parts, i := [], Split(s), 0;
    while i < |parts|
      invariant i <= |parts| && ks == Found(names, parts[..i])
    {
      assert Init(parts[..i + 1]) == parts[..i];
      var camel := SnakeToCamel(Lowered(parts[i]));
      var k := Resolve(names, camel);
      if k.Some? { ks := ks + [k.value]; }
      i := i + 1;
    }
    assert parts[..i] == parts;
    r := if ks == [] then None else Some(ks);
  }

  lemma {:induction false} TextsFree(ks: seq<BindKey>)
    requires forall i :: 0 <= i < |ks| ==> Named(ks[i])
    ensures forall i :: 0 <= i < |ks| ==> Free(Texts(ks)[i], '+')
  {
    if ks == [] {
    } else {
      TextsFree(Init(ks));
      TextFree(Last(ks));
    }
  }

  lemma TextFree(k: BindKey)
    requires Named(k)
    ensures Free(Text(k), '+')
  {
    match k
    case Code(name) => SnakeFree(RemoveKey(name));
    case Unidentified =>
    case Mouse(name) => SnakeFree(name);
    case Extra(name) => SnakeFree(name);
  }

  lemma SnakeFree(s: string)
    requires Free(s, '+')
    ensures Free(Snake(s), '+')
  {
    if s != "" {
      LoweredFree(s[1..]);
      LoweredFree(InnerUnderscored(s));
    }
  }

  lemma FoundStep(names: Names, ks: seq<BindKey>)
    requires ks != []
    ensures var k := ReadKey(names, Text(Last(ks)));
            Found(names, Texts(ks)) == Found(names, Texts(Init(ks))) + if k.Some? then [k.value] else []
  {
    assert Init(Texts(ks)) == Texts(Init(ks)) && Last(Texts(ks)) == Text(Last(ks));
  }

  ghost predicate EachRead(names: Names, ks: seq<BindKey>) {
    forall i :: 0 <= i < |ks| ==> ReadKey(names, Text(ks[i])) == Some(ks[i])
  }

  /** Reading gives the keys back exactly if every one of them is read back. */
  lemma {:induction false} FoundTexts(names: Names, ks: seq<BindKey>)
    ensures |Found(names, Texts(ks))| <= |ks|
    ensures Found(names, Texts(ks)) == ks <==> EachRead(names, ks)
  {
    hide ReadKey, Text;
    if ks == [] {
    } else {
      FoundTexts(names, Init(ks));
      FoundStep(names, ks);
      var found := Found(names, Texts(Init(ks)));
      hide Found, Texts;
      assert EachRead(names, ks) <==> EachRead(names, Init(ks)) && ReadKey(names, Text(Last(ks))) == Some(Last(ks));
      hide EachRead;
      SnocEqual(found, ReadKey(names, Text(Last(ks))), ks);
    }
  }

  lemma SnocEqual<T>(found: seq<T>, k: Option<T>, ks: seq<T>)
    requires ks != [] && |found| < |ks|
    ensures found + (if k.Some? then [k.value] else []) == ks <==> found == Init(ks) && k == Some(Last(ks))
  {
    assert ks == Init(ks) + [Last(ks)];
    if k.Some? { InitSnoc(found, k.value); }
  }

  /** Printing and parsing gives a key list back, exactly if it is not empty and the name sets are
      unambiguous for each of its keys. */
  lemma KeyListRoundTrip(names: Names, ks: seq<BindKey>)
    requires forall i :: 0 <= i < |ks| ==> Named(ks[i])
    ensures Parsed(names, Joined(Texts(ks))) == Some(ks)
            <==> ks != [] && forall i :: 0 <= i < |ks| ==> Unambiguous(names, ks[i])
  {
    FoundTexts(names, ks);
    hide Named, Unambiguous, ReadKey, Text, Found, Texts, Joined, Split;
    forall i | 0 <= i < |ks|
      ensures ReadKey(names, Text(ks[i])) == Some(ks[i]) <==> Unambiguous(names, ks[i])
    {
      KeyRoundTrip(names, ks[i]);
    }
    if ks != [] {
      TextsFree(ks);
      SplitJoined(Texts(ks));
    }
  }

  /** A mouse button is printed with a prefix; it is read with the prefix, and without it as well if
      no other key has that name. */
  lemma MousePrefixIsOptional(names: Names, name: string)
    requires name != "" && CamelName(name) && name in names.mouse && name !in names.keys
             && "Mouse" + name !in names.keys
    requires WithoutMouse(name) == name
    ensures Text(Mouse(name)) == "mouse_" + Snake(name)
    ensures ReadKey(names, "mouse_" + Snake(name)) == Some(Mouse(name)) == ReadKey(names, Snake(name))
  {
    KeyRoundTrip(names, Mouse(name));
    TextReadBack(Extra(name));
    hide Snake, Camel, Lowered;
  }
}
