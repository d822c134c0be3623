/**
 * The string under which the ACL trie files a path element (elemToString in
 * gnsi/acltrie/trie.go): the name, then every key whose value is not the
 * wildcard, in sorted order and escaped.
 */
module PathElem {
  import opened Wrappers
  import opened Decimal

  datatype Elem = Elem(name: string, keys: map<string, string>)

  const WILDCARD := "*"

  // ---------------------------------------------------------------------
  // The order of sort.Strings
  // ---------------------------------------------------------------------

  predicate Below(a: string, b: string) {
    if b == [] then false
    else if a == [] then true
    else a[0] < b[0] || (a[0] == b[0] && Below(a[1..], b[1..]))
  }

  lemma {:induction false} BelowTotal(a: string, b: string)
    ensures Below(a, b) || a == b || Below(b, a)
    ensures !(Below(a, b) && Below(b, a))
    ensures !Below(a, a)
    decreases |a|
  {
    if a != [] {
      BelowTotal(a[1..], a[1..]);
      if b != [] {
        BelowTotal(a[1..], b[1..]);
        assert a == [a[0]] + a[1..] && b == [b[0]] + b[1..];
      }
    }
  }

  lemma {:induction false} BelowTransitive(a: string, b: string, c: string)
    requires Below(a, b) && Below(b, c)
    ensures Below(a, c)
    decreases |a|
  {
    if a != [] && a[0] == b[0] == c[0] {
      BelowTransitive(a[1..], b[1..], c[1..]);
    }
  }

  /** The strings agree up to i, and there the first one ends or has the smaller character. */
  ghost predicate DiffersAt(a: string, b: string, i: nat) {
    i <= |a| && i < |b| && a[..i] == b[..i] && (i == |a| || a[i] < b[i])
  }

  /** The order is that of a dictionary. */
  lemma {:induction false} BelowExactlyWhen(a: string, b: string)
    ensures Below(a, b) <==> exists i: nat :: DiffersAt(a, b, i)
    decreases |a|
  {
    if a == [] {
      if b != [] {
        assert DiffersAt(a, b, 0);
      }
    } else if b != [] {
      BelowExactlyWhen(a[1..], b[1..]);
      if a[0] < b[0] {
        assert DiffersAt(a, b, 0);
      } else if a[0] == b[0] {
        if i: nat :| DiffersAt(a[1..], b[1..], i) {
          DifferLater(a, b, i);
        }
        if i: nat :| DiffersAt(a, b, i) {
          DifferLater(a, b, i - 1);
        }
      } else {
        forall i: nat ensures !DiffersAt(a, b, i) {
          assert i > 0 && i <= |a| && i < |b| ==> a[..i][0] != b[..i][0];
        }
      }
    }
  }

  lemma DifferLater(a: string, b: string, i: nat)
    requires a != [] && b != [] && a[0] == b[0]
    ensures DiffersAt(a[1..], b[1..], i) <==> DiffersAt(a, b, i + 1)
  {
    if i < |a| && i + 1 < |b| {
      assert a[..i + 1] == [a[0]] + a[1..][..i];
      assert b[..i + 1] == [b[0]] + b[1..][..i];
    }
  }

  ghost predicate Ascending(ks: seq<string>) {
    forall i, j :: 0 <= i < j < |ks| ==> Below(ks[i], ks[j])
  }

  /** ks lists the elements of s in ascending order. */
  ghost predicate Sorts(ks: seq<string>, s: set<string>) {
    Ascending(ks) && forall k :: k in ks <==> k in s
  }

  lemma HeadIsLeast(a: seq<string>, k: string)
    requires Ascending(a) && a != [] && k in a
    ensures k == a[0] || Below(a[0], k)
  {
    var i :| 0 <= i < |a| && a[i] == k;
  }

  lemma TailSorts(a: seq<string>, s: set<string>)
    requires Sorts(a, s) && a != []
    ensures a[0] in s && Sorts(a[1..], s - {a[0]})
  {
    forall k ensures k in a[1..] <==> k in s - {a[0]} {
      assert k in a <==> k == a[0] || k in a[1..];
      if k in a[1..] {
        var i :| 0 <= i < |a[1..]| && a[1..][i] == k;
        assert Below(a[0], a[i + 1]);
        BelowTotal(a[0], a[0]);
      }
    }
    assert a[0] in a;
  }

  /** A set has one sorted listing, so the text of an element does not depend on the order a map is read in. */
  lemma {:induction false} SortingUnique(a: seq<string>, b: seq<string>, s: set<string>)
    requires Sorts(a, s) && Sorts(b, s)
    ensures a == b && |a| == |s|
    decreases |a|
  {
    if a == [] {
      assert s == {} by {
        assert forall k :: k in s ==> k in a;
      }
      assert forall i :: 0 <= i < |b| ==> b[i] in b;
    } else {
      TailSorts(a, s);
      assert b != [] by {
        assert a[0] in b;
      }
      TailSorts(b, s);
      assert a[0] in b && b[0] in a;
      HeadIsLeast(a, b[0]);
      HeadIsLeast(b, a[0]);
      BelowTotal(a[0], b[0]);
      SortingUnique(a[1..], b[1..], s - {a[0]});
    }
  }

  /** One step of the insertion that sort.Strings is modelled by. */
  method InsertSorted(ks: seq<string>, k: string, ghost s: set<string>) returns (r: seq<string>)
    requires Sorts(ks, s) && k !in s
    ensures Sorts(r, s + {k})
  {
    var i := 0;
    while i < |ks| && Below(ks[i], k)
      invariant 0 <= i <= |ks|
      invariant forall j :: 0 <= j < i ==> Below(ks[j], k)
    {
      i := i + 1;
    }
    r := ks[..i] + [k] + ks[i..];
    SplicedSorts(ks, k, i, s);
  }

  lemma SplicedSorts(ks: seq<string>, k: string, i: nat, s: set<string>)
    requires Sorts(ks, s) && k !in s && i <= |ks|
    requires forall j :: 0 <= j < i ==> Below(ks[j], k)
    requires i < |ks| ==> !Below(ks[i], k)
    ensures Sorts(ks[..i] + [k] + ks[i..], s + {k})
  {
    var r := ks[..i] + [k] + ks[i..];
    forall j | i <= j < |ks| ensures Below(k, ks[j]) {
      assert ks[i] in ks;
      BelowTotal(ks[i], k);
      if i < j {
        BelowTransitive(k, ks[i], ks[j]);
      }
    }
    forall x ensures x in r <==> x in s + {k} {
      assert ks == ks[..i] + ks[i..];
      assert x in r <==> x in ks[..i] || x == k || x in ks[i..];
    }
  }

  method SortStrings(keys: seq<string>, ghost s: set<string>) returns (ks: seq<string>)
    requires forall k :: k in keys <==> k in s
    requires forall i, j :: 0 <= i < j < |keys| ==> keys[i] != keys[j]
    ensures Sorts(ks, s)
  {
    ks := [];
    var i := 0;
    ghost var done: set<string> := {};
    while i < |keys|
      invariant 0 <= i <= |keys|
      invariant forall k :: k in done <==> k in keys[..i]
      invariant Sorts(ks, done)
    {
      assert keys[..i + 1] == keys[..i] + [keys[i]];
      ks := InsertSorted(ks, keys[i], done);
      done := done + {keys[i]};
      i := i + 1;
    }
    assert keys[..|keys|] == keys;
    assert done == s;
  }

  lemma {:induction false} SortingExists(s: set<string>)
    ensures exists ks :: Sorts(ks, s)
    decreases s
  {
    if s == {} {
      assert Sorts([], s);
    } else {
      var k :| k in s;
      SortingExists(s - {k});
      var ks :| Sorts(ks, s - {k});
      var i := Position(ks, k);
      SplicedSorts(ks, k, i, s - {k});
      assert s - {k} + {k} == s;
    }
  }

  lemma {:induction false} Position(ks: seq<string>, k: string) returns (i: nat)
    ensures i <= |ks|
    ensures forall j :: 0 <= j < i ==> Below(ks[j], k)
    ensures i < |ks| ==> !Below(ks[i], k)
  {
    i := 0;
    while i < |ks| && Below(ks[i], k)
      invariant 0 <= i <= |ks|
      invariant forall j :: 0 <= j < i ==> Below(ks[j], k)
    {
      i := i + 1;
    }
  }

  ghost function SortedKeys(s: set<string>): (ks: seq<string>)
    ensures Sorts(ks, s)
  {
    SortingExists(s);
    var ks :| Sorts(ks, s);
    ks
  }

  // ---------------------------------------------------------------------
  // Escaping and rendering
  // ---------------------------------------------------------------------

  /** strings.ReplaceAll of one character. */
  function ReplaceAll(s: string, c: char, text: string): string {
    if s == [] then []
    else ReplaceAll(s[..|s| - 1], c, text) + (if s[|s| - 1] == c then text else [s[|s| - 1]])
  }

  function Escape(v: string): string {
    ReplaceAll(ReplaceAll(v, '=', "\\="), ']', "\\]")
  }

  function Pair(k: string, v: string): string {
    "[" + k + "=" + Escape(v) + "]"
  }

  function Render(name: string, ks: seq<string>, kv: map<string, string>): string
    requires forall k :: k in ks ==> k in kv
  {
    if ks == [] then name
    else
      var k := ks[|ks| - 1];
      Render(name, ks[..|ks| - 1], kv) + Pair(k, kv[k])
  }

  /** The keys an element fixes: a wildcard value says no more than leaving the key out. */
  function SetKeys(kv: map<string, string>): set<string> {
    set k | k in kv && kv[k] != WILDCARD
  }

  predicate Valid(e: Elem) {
    e.name != "" && "" !in e.keys
  }

  ghost function ElemKey(e: Elem): Option<string> {
    if Valid(e) then Some(Render(e.name, SortedKeys(SetKeys(e.keys)), e.keys)) else None
  }

  /** The keys that are not wildcards, read off the map in an arbitrary order, unless one of its keys is empty. */
  method CollectKeys(kv: map<string, string>) returns (keys: Option<seq<string>>)
    ensures keys.Some? <==> "" !in kv
    ensures keys.Some? ==> forall k :: k in keys.value <==> k in SetKeys(kv)
    ensures keys.Some? ==> forall i, j :: 0 <= i < j < |keys.value| ==> keys.value[i] != keys.value[j]
  {
    var ks: seq<string> := [];
    var rest := kv.Keys;
    while rest != {}
      invariant rest <= kv.Keys
      invariant forall k :: k in ks <==> k in SetKeys(kv) && k !in rest
      invariant "" in kv ==> "" in rest
      invariant forall i, j :: 0 <= i < j < |ks| ==> ks[i] != ks[j]
      decreases rest
    {
      var k :| k in rest;
      if k == "" {
        return None;
      }
      if kv[k] != WILDCARD {
        assert k !in ks;
        ks := ks + [k];
      }
      rest := rest - {k};
    }
    return Some(ks);
  }

  method RenderKeys(name: string, ks: seq<string>, kv: map<string, string>) returns (s: string)
    requires forall k :: k in ks ==> k in kv
    ensures s == Render(name, ks, kv)
  {
    s := name;
    var i := 0;
    while i < |ks|
      invariant 0 <= i <= |ks|
      invariant s == Render(name, ks[..i], kv)
    {
      assert ks[..i + 1][..i] == ks[..i];
      s := s + Pair(ks[i], kv[ks[i]]);
      i := i + 1;
    }
    assert ks[..|ks|] == ks;
  }

  /** elemToString. */
  method ElemToString(e: Elem) returns (text: Option<string>, count: nat)
    ensures text == ElemKey(e)
    ensures text.Some? ==> count == |SetKeys(e.keys)|
  {
    if e.name == "" {
      return None, 0;
    }
    var keys := CollectKeys(e.keys);
    if keys == None {
      return None, 0;
    }
    var sorted := SortStrings(keys.value, SetKeys(e.keys));
    SortingUnique(sorted, SortedKeys(SetKeys(e.keys)), SetKeys(e.keys));
    var s := RenderKeys(e.name, sorted, e.keys);
    return Some(s), |sorted|;
  }

  // ---------------------------------------------------------------------
  // The text determines the element
  // ---------------------------------------------------------------------

  function EscapeChar(c: char): string {
    if c == '=' then "\\=" else if c == ']' then "\\]" else [c]
  }

  /** The two replacements in one pass, character by character. */
  function Escaped(v: string): string {
    if v == [] then [] else Escaped(v[..|v| - 1]) + EscapeChar(v[|v| - 1])
  }

  lemma {:induction false} EscapeIsCharwise(v: string)
    ensures Escape(v) == Escaped(v)
    decreases |v|
  {
    if v != [] {
      var init, c := v[..|v| - 1], v[|v| - 1];
      EscapeIsCharwise(init);
      var r := ReplaceAll(init, '=', "\\=");
      if c == '=' {
        assert (r + "\\=")[..|r| + 1] == r + "\\";
        assert (r + "\\")[..|r|] == r;
        assert Escape(v) == ReplaceAll(r + "\\", ']', "\\]") + "=";
        assert Escape(v) == Escape(init) + "\\" + "=";
      } else {
        assert (r + [c])[..|r|] == r;
      }
    }
  }

  /** In an escaped value every '=' and every ']' follows a backslash. */
  lemma {:induction false} EscapedIsGuarded(v: string)
    ensures forall j :: 0 <= j < |Escaped(v)| && (Escaped(v)[j] == '=' || Escaped(v)[j] == ']') ==>
              j > 0 && Escaped(v)[j - 1] == '\\'
    decreases |v|
  {
    if v != [] {
      EscapedIsGuarded(v[..|v| - 1]);
    }
  }

  lemma LastCharUnique(x: string, c: char, y: string, d: char)
    requires x + EscapeChar(c) == y + EscapeChar(d)
    ensures x == y && c == d
  {
    var s := x + EscapeChar(c);
    assert s[|s| - 1] == c == d;
    assert x == s[..|s| - |EscapeChar(c)|] && y == s[..|s| - |EscapeChar(c)|];
  }

  /** Unescaping is possible although the backslash itself is not escaped: it is read from the right. */
  lemma {:induction false} EscapedInjective(v: string, w: string)
    requires Escaped(v) == Escaped(w)
    ensures v == w
    decreases |v|
  {
    if v != [] && w != [] {
      var v', w' := v[..|v| - 1], w[..|w| - 1];
      LastCharUnique(Escaped(v'), v[|v| - 1], Escaped(w'), w[|w| - 1]);
      EscapedInjective(v', w');
      SameEnds(v, w);
    }
  }

  lemma SameEnds(v: string, w: string)
    requires v != [] && w != [] && v[..|v| - 1] == w[..|w| - 1] && v[|v| - 1] == w[|w| - 1]
    ensures v == w
  {
    assert v == v[..|v| - 1] + [v[|v| - 1]] && w == w[..|w| - 1] + [w[|w| - 1]];
  }

  /** A key in which the separators can be found again. */
  predicate PlainKey(k: string) {
    k != "" && '[' !in k && '=' !in k && '\\' !in k
  }

  /** An '=' that separates a key from its value: one that is not escaped. */
  predicate Separator(s: string, j: int) {
    0 < j < |s| && s[j] == '=' && s[j - 1] != '\\'
  }

  lemma LastSeparator(p: string, k: string, v: string)
    requires PlainKey(k)
    ensures var s := p + Pair(k, v);
            Separator(s, |p| + 1 + |k|) && forall j :: Separator(s, j) ==> j <= |p| + 1 + |k|
  {
    var s := p + Pair(k, v);
    var at := |p| + 1 + |k|;
    assert s[at] == '=' && s[at - 1] == k[|k| - 1];
    EscapeIsCharwise(v);
    EscapedIsGuarded(v);
    forall j | at < j < |s| ensures s[j] == '=' ==> s[j - 1] == '\\' {
      assert j < |s| - 1 ==> s[j] == Escaped(v)[j - at - 1];
      assert at < j - 1 ==> s[j - 1] == Escaped(v)[j - at - 2];
    }
  }

  /** The last pair of a text can be taken off again. */
  lemma PairUnique(p: string, k: string, v: string, q: string, l: string, w: string)
    requires PlainKey(k) && PlainKey(l)
    requires p + Pair(k, v) == q + Pair(l, w)
    ensures p == q && k == l && v == w
  {
    SeparatorUnique(p, k, v, q, l, w);
    PairShape(p, k, v);
    PairShape(q, l, w);
    SplitUnique(p, q, k, l, '[');
    EscapeInjective(v, w);
  }

  lemma SeparatorUnique(p: string, k: string, v: string, q: string, l: string, w: string)
    requires PlainKey(k) && PlainKey(l) && p + Pair(k, v) == q + Pair(l, w)
    ensures |p| + 1 + |k| == |q| + 1 + |l|
  {
    LastSeparator(p, k, v);
    LastSeparator(q, l, w);
  }

  lemma PairShape(p: string, k: string, v: string)
    ensures var s, at := p + Pair(k, v), |p| + 1 + |k|;
            at + 1 <= |s| - 1 && p + "[" + k == s[..at] && Escape(v) == s[at + 1..|s| - 1]
  {
  }

  lemma EscapeInjective(v: string, w: string)
    requires Escape(v) == Escape(w)
    ensures v == w
  {
    EscapeIsCharwise(v);
    EscapeIsCharwise(w);
    EscapedInjective(v, w);
  }

  ghost predicate Listed(ks: seq<string>, kv: map<string, string>) {
    forall k :: k in ks ==> k in kv
  }

  ghost predicate PlainKeys(ks: seq<string>) {
    forall k :: k in ks ==> PlainKey(k)
  }

  /** The name m spells out the name n with the first keys of ls, and the keys ks are the rest of them. */
  ghost predicate Poses(m: string, ks: seq<string>, kv: map<string, string>, n: string, ls: seq<string>, lv: map<string, string>)
    requires Listed(ks, kv) && Listed(ls, lv)
  {
    && |ks| <= |ls|
    && ls[|ls| - |ks|..] == ks
    && (forall k :: k in ks ==> k in lv && kv[k] == lv[k])
    && m == Render(n, ls[..|ls| - |ks|], lv)
  }

  lemma {:induction false} RenderSplit(n: string, ls: seq<string>, lv: map<string, string>, i: nat)
    requires Listed(ls, lv) && i <= |ls|
    ensures Render(n, ls, lv) == Render(Render(n, ls[..i], lv), ls[i..], lv)
    decreases |ls|
  {
    if i == |ls| {
      assert ls[..i] == ls;
    } else {
      var init := ls[..|ls| - 1];
      RenderSplit(n, init, lv, i);
      InitSplit(ls, i);
    }
  }

  lemma InitSplit(ls: seq<string>, i: nat)
    requires i < |ls|
    ensures ls[..|ls| - 1][..i] == ls[..i]
    ensures ls[i..][..|ls[i..]| - 1] == ls[..|ls| - 1][i..]
  {
    var rest, init := ls[i..], ls[..|ls| - 1];
    assert |rest[..|rest| - 1]| == |init[i..]|;
    assert forall j :: 0 <= j < |rest| - 1 ==> rest[..|rest| - 1][j] == ls[i + j] == init[i..][j];
  }

  lemma PosingShares(m: string, ks: seq<string>, kv: map<string, string>, n: string, ls: seq<string>, lv: map<string, string>)
    requires Listed(ks, kv) && Listed(ls, lv)
    requires Poses(m, ks, kv, n, ls, lv)
    ensures Render(m, ks, kv) == Render(n, ls, lv)
  {
    RenderSplit(n, ls, lv, |ls| - |ks|);
    RenderDependsOnListed(m, ks, kv, lv);
  }

  lemma PosesLonger(m: string, ks: seq<string>, kv: map<string, string>, n: string, ls: seq<string>, lv: map<string, string>, k: string)
    requires Listed(ks + [k], kv) && Listed(ls + [k], lv) && kv[k] == lv[k]
    requires Poses(m, ks, kv, n, ls, lv)
    ensures Poses(m, ks + [k], kv, n, ls + [k], lv)
  {
    var i := |ls| - |ks|;
    assert (ls + [k])[i..] == ls[i..] + [k];
    assert (ls + [k])[..i] == ls[..i];
  }

  lemma LastShared(m: string, ks: seq<string>, kv: map<string, string>, n: string, ls: seq<string>, lv: map<string, string>)
    returns (ks': seq<string>, ls': seq<string>, k: string)
    requires Listed(ks, kv) && Listed(ls, lv) && PlainKeys(ks) && PlainKeys(ls)
    requires Render(m, ks, kv) == Render(n, ls, lv) && ks != [] && ls != []
    ensures ks == ks' + [k] && ls == ls' + [k] && kv[k] == lv[k]
    ensures Listed(ks', kv) && Listed(ls', lv) && PlainKeys(ks') && PlainKeys(ls')
    ensures Render(m, ks', kv) == Render(n, ls', lv)
  {
    ks', ls', k := ks[..|ks| - 1], ls[..|ls| - 1], ks[|ks| - 1];
    var l := ls[|ls| - 1];
    PairUnique(Render(m, ks', kv), k, kv[k], Render(n, ls', lv), l, lv[l]);
  }

  lemma {:induction false} SharingPoses(m: string, ks: seq<string>, kv: map<string, string>, n: string, ls: seq<string>, lv: map<string, string>)
    requires Listed(ks, kv) && Listed(ls, lv) && PlainKeys(ks) && PlainKeys(ls)
    requires Render(m, ks, kv) == Render(n, ls, lv)
    ensures Poses(m, ks, kv, n, ls, lv) || Poses(n, ls, lv, m, ks, kv)
    decreases |ks|
  {
    if ks == [] {
      assert ls[..|ls|] == ls;
    } else if ls == [] {
      assert ks[..|ks|] == ks;
    } else {
      var ks', ls', k := LastShared(m, ks, kv, n, ls, lv);
      SharingPoses(m, ks', kv, n, ls', lv);
      if Poses(m, ks', kv, n, ls', lv) {
        PosesLonger(m, ks', kv, n, ls', lv, k);
      } else {
        PosesLonger(n, ls', lv, m, ks', kv, k);
      }
    }
  }

  /** A name without '=' spells out nothing but itself. */
  lemma PosesPlainly(m: string, ks: seq<string>, kv: map<string, string>, n: string, ls: seq<string>, lv: map<string, string>)
    requires Listed(ks, kv) && Listed(ls, lv)
    requires '=' !in m && Poses(m, ks, kv, n, ls, lv)
    ensures m == n && ks == ls
  {
    var i := |ls| - |ks|;
    if i > 0 {
      RenderHasSeparator(n, ls[..i], lv);
    }
  }

  lemma RenderHasSeparator(m: string, ks: seq<string>, kv: map<string, string>)
    requires ks != []
    requires forall k :: k in ks ==> k in kv
    ensures '=' in Render(m, ks, kv)
  {
    var k := ks[|ks| - 1];
    var p := Render(m, ks[..|ks| - 1], kv);
    assert (p + Pair(k, kv[k]))[|p| + 1 + |k|] == '=';
  }

  /** Plain keys: what every OpenConfig path has. */
  ghost predicate KeysPlain(e: Elem) {
    forall k :: k in e.keys ==> PlainKey(k)
  }

  /** Names without '=' besides. */
  ghost predicate Plain(e: Elem) {
    '=' !in e.name && KeysPlain(e)
  }

  /** The name of e spells out f up to some of its keys, and e has the rest of them. */
  ghost predicate PosesAs(e: Elem, f: Elem) {
    Poses(e.name, SortedKeys(SetKeys(e.keys)), e.keys, f.name, SortedKeys(SetKeys(f.keys)), f.keys)
  }

  /** Whatever their names are, two elements share a trie node exactly when one of them poses as the other. */
  lemma SharedExactlyWhen(e: Elem, f: Elem)
    requires Valid(e) && Valid(f) && KeysPlain(e) && KeysPlain(f)
    ensures ElemKey(e) == ElemKey(f) <==> PosesAs(e, f) || PosesAs(f, e)
  {
    var ks, ls := SortedKeys(SetKeys(e.keys)), SortedKeys(SetKeys(f.keys));
    if ElemKey(e) == ElemKey(f) {
      SharingPoses(e.name, ks, e.keys, f.name, ls, f.keys);
    }
    if PosesAs(e, f) {
      PosingShares(e.name, ks, e.keys, f.name, ls, f.keys);
    }
    if PosesAs(f, e) {
      PosingShares(f.name, ls, f.keys, e.name, ks, e.keys);
    }
  }

  /** An element with its wildcard keys pruned. */
  function Pruned(e: Elem): Elem {
    Elem(e.name, map k | k in e.keys && e.keys[k] != WILDCARD :: e.keys[k])
  }

  lemma SetKeysOfPruned(e: Elem)
    ensures SetKeys(Pruned(e).keys) == SetKeys(e.keys) == Pruned(e).keys.Keys
  {
  }

  /** Two elements share a trie node exactly when they differ only in wildcard keys, whatever their values are. */
  lemma ElemKeyExactlyWhen(e: Elem, f: Elem)
    requires Valid(e) && Valid(f) && Plain(e) && Plain(f)
    ensures ElemKey(e) == ElemKey(f) <==> Pruned(e) == Pruned(f)
  {
    var ks, ls := SortedKeys(SetKeys(e.keys)), SortedKeys(SetKeys(f.keys));
    if ElemKey(e) == ElemKey(f) {
      SharedExactlyWhen(e, f);
      if PosesAs(e, f) {
        PosesPlainly(e.name, ks, e.keys, f.name, ls, f.keys);
      } else {
        PosesPlainly(f.name, ls, f.keys, e.name, ks, e.keys);
      }
      forall k ensures k in SetKeys(e.keys) <==> k in SetKeys(f.keys) {
        assert k in ks <==> k in ls;
      }
      assert forall k :: k in SetKeys(e.keys) ==> k in ks && e.keys[k] == f.keys[k];
      assert Pruned(e).keys == Pruned(f).keys;
    }
    if Pruned(e) == Pruned(f) {
      SetKeysOfPruned(e);
      SetKeysOfPruned(f);
      SortingUnique(ks, ls, SetKeys(e.keys));
      RenderDependsOnListed(e.name, ks, e.keys, Pruned(e).keys);
      RenderDependsOnListed(f.name, ks, f.keys, Pruned(e).keys);
    }
  }

  lemma {:induction false} RenderDependsOnListed(m: string, ks: seq<string>, kv: map<string, string>, lv: map<string, string>)
    requires forall k :: k in ks ==> k in kv && k in lv && kv[k] == lv[k]
    ensures Render(m, ks, kv) == Render(m, ks, lv)
    decreases |ks|
  {
    if ks != [] {
      RenderDependsOnListed(m, ks[..|ks| - 1], kv, lv);
    }
  }

  /** Names are not escaped, so outside the plain ones every element with a key has a name that poses as it. */
  lemma NamesCanCollide(name: string, k: string, v: string)
    requires name != "" && k != "" && v != WILDCARD
    ensures var e, f := Elem(name + Pair(k, v), map[]), Elem(name, map[k := v]);
            Valid(e) && Valid(f) && ElemKey(e) == ElemKey(f) && Pruned(e) != Pruned(f)
  {
    var e, f := Elem(name + Pair(k, v), map[]), Elem(name, map[k := v]);
    assert SetKeys(e.keys) == {} && SetKeys(f.keys) == {k};
    assert Sorts([], {}) && Sorts([k], {k});
    SortingUnique([], SortedKeys({}), {});
    SortingUnique([k], SortedKeys({k}), {k});
    assert [k][..0] == [];
    assert Render(name, [k], f.keys) == Render(name, [], f.keys) + Pair(k, v);
    assert k in Pruned(f).keys && k !in Pruned(e).keys;
  }
}
