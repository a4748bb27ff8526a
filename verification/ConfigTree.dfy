/**
 Nested configuration values, dotted keys, and what internal/configs promises of turning the one into
 the other and back.
 */
module ConfigTree {

  // A key of a map[any]any: a string or something else
  datatype AnyKey = Str(s: string) | Unnamed(n: int)

  // A value of type any: a nested map of either kind, or anything else, told apart by a number.
  datatype Value = Leaf(v: int) | Map(m: map<string, Value>) | AnyMap(a: map<AnyKey, Value>)

  type Nested = map<string, Value>

  // map[any]any is read as map[string]any; entries under other keys are lost.
  function Children(v: Value): Nested
    requires !v.Leaf?
  {
    if v.Map? then v.m else map k | k in StringKeys(v.a) :: v.a[Str(k)]
  }

  function StringKeys(a: map<AnyKey, Value>): set<string> {
    set k | k in a && k.Str? :: k.s
  }

  // ---------- dotted keys ----------

  type Path = seq<string>

  function Split(key: string): (p: Path)
    ensures |p| > 0
  {
    if key == "" then [""]
    else if key[0] == '.' then [""] + Split(key[1..])
    else var r := Split(key[1..]); [[key[0]] + r[0]] + r[1..]
  }

  function Join(p: Path): string
    requires |p| > 0
  {
    if |p| == 1 then p[0] else p[0] + "." + Join(p[1..])
  }

  predicate DotFree(s: string) {
    '.' !in s
  }

  ghost predicate AllDotFree(p: Path) {
    forall i :: 0 <= i < |p| ==> DotFree(p[i])
  }

  // flattenHelper puts a dot only after a prefix that is not empty.
  function NewKey(prefix: string, key: string): string {
    if prefix == "" then key else prefix + "." + key
  }

  function KeyFrom(prefix: string, p: Path): string
    decreases |p|
  {
    if p == [] then prefix else KeyFrom(NewKey(prefix, p[0]), p[1..])
  }

  function FlatKey(p: Path): string {
    KeyFrom("", p)
  }

  predicate LeadingDot(key: string) {
    |key| > 0 && key[0] == '.'
  }

  lemma {:induction false} JoinSplit(key: string)
    ensures Join(Split(key)) == key
    decreases |key|
  {
    if key != "" {
      JoinSplit(key[1..]);
      var r := Split(key[1..]);
      if key[0] == '.' {
        assert ([""] + r)[1..] == r;
        assert key == "." + key[1..];
      } else {
        assert key == [key[0]] + key[1..];
      }
    }
  }

  lemma {:induction false} SplitDotFree(key: string)
    ensures AllDotFree(Split(key))
    decreases |key|
  {
    if key != "" {
      SplitDotFree(key[1..]);
    }
  }

  lemma {:induction false} SplitPlain(s: string)
    requires DotFree(s)
    ensures Split(s) == [s]
    decreases |s|
  {
    if s != "" {
      assert s[0] in s;
      assert forall c :: c in s[1..] ==> c in s;
      SplitPlain(s[1..]);
      assert [s[0]] + s[1..] == s;
    }
  }

  lemma {:induction false} SplitDot(s: string, t: string)
    requires DotFree(s)
    ensures Split(s + "." + t) == [s] + Split(t)
    decreases |s|
  {
    var u := s + "." + t;
    if s == "" {
      assert u == "." + t && u[1..] == t;
    } else {
      assert s[0] in s;
      assert forall c :: c in s[1..] ==> c in s;
      assert u[1..] == s[1..] + "." + t;
      SplitDot(s[1..], t);
      assert [s[0]] + s[1..] == s;
    }
  }

  lemma {:induction false} SplitJoin(p: Path)
    requires |p| > 0 && AllDotFree(p)
    ensures Split(Join(p)) == p
    decreases |p|
  {
    if |p| == 1 {
      SplitPlain(p[0]);
    } else {
      assert forall i :: 0 <= i < |p| - 1 ==> p[1..][i] == p[i + 1];
      SplitJoin(p[1..]);
      SplitDot(p[0], Join(p[1..]));
    }
  }

  lemma {:induction false} KeyFromPrefix(prefix: string, p: Path)
    requires prefix != "" && |p| > 0
    ensures KeyFrom(prefix, p) == prefix + "." + Join(p)
    decreases |p|
  {
    if |p| > 1 {
      KeyFromPrefix(prefix + "." + p[0], p[1..]);
      assert prefix + "." + p[0] + "." + Join(p[1..]) == prefix + "." + (p[0] + "." + Join(p[1..]));
    }
  }

  // Only leading empty segments are lost in a flat key.
  lemma {:induction false} FlatKeyIsJoin(p: Path)
    requires |p| > 0
    ensures p[0] != "" || |p| == 1 ==> FlatKey(p) == Join(p)
    ensures p[0] == "" && |p| > 1 ==> FlatKey(p) == FlatKey(p[1..])
    ensures |FlatKey(p)| <= |Join(p)|
    decreases |p|
  {
    if p[0] != "" {
      if |p| > 1 {
        KeyFromPrefix(p[0], p[1..]);
      } else {
        assert KeyFrom(p[0], p[1..]) == p[0];
      }
    } else if |p| > 1 {
      FlatKeyIsJoin(p[1..]);
    }
  }

  lemma FlatKeyOfSplit(key: string)
    ensures FlatKey(Split(key)) == key <==> !LeadingDot(key)
  {
    var p := Split(key);
    JoinSplit(key);
    FlatKeyIsJoin(p);
    if LeadingDot(key) {
      assert p == [""] + Split(key[1..]) && p[1..] == Split(key[1..]);
      JoinSplit(key[1..]);
      FlatKeyIsJoin(p[1..]);
    } else if key != "" {
      assert p[0] != "";
    }
  }

  lemma {:induction false} FlatKeyNoLeadingDot(p: Path)
    requires |p| > 0 && AllDotFree(p)
    ensures !LeadingDot(FlatKey(p))
    decreases |p|
  {
    FlatKeyIsJoin(p);
    assert p[0] != "" ==> p[0][0] in p[0];
    if p[0] == "" && |p| > 1 {
      assert forall i :: 0 <= i < |p| - 1 ==> p[1..][i] == p[i + 1];
      FlatKeyNoLeadingDot(p[1..]);
    }
  }

  // ---------- leaves ----------

  ghost predicate LeafAt(n: Nested, p: Path, v: int)
    decreases |p|
  {
    && |p| > 0 && p[0] in n
    && if |p| == 1 then n[p[0]] == Leaf(v)
       else !n[p[0]].Leaf? && LeafAt(Children(n[p[0]]), p[1..], v)
  }

  ghost predicate IsPrefix(p: Path, q: Path) {
    |p| <= |q| && q[..|p|] == p
  }

  lemma {:induction false} LeavesIncomparable(n: Nested, p: Path, v: int, q: Path, w: int)
    requires LeafAt(n, p, v) && LeafAt(n, q, w) && IsPrefix(p, q)
    ensures p == q && v == w
    decreases |p|
  {
    assert p[0] == q[..|p|][0] == q[0];
    if |p| > 1 {
      assert q[1..][..|p| - 1] == q[..|p|][1..];
      LeavesIncomparable(Children(n[p[0]]), p[1..], v, q[1..], w);
      assert q == [q[0]] + q[1..] && p == [p[0]] + p[1..];
    } else {
      assert q == [q[0]] || |q| > 1;
    }
  }

  // What Flatten may return: every leaf's key, each with the value of some leaf of that key. When two
  // leaves share a key the order of iteration decides which value stays.
  ghost predicate Flattened(n: Nested, f: map<string, int>) {
    && (forall k :: k in f ==> exists p :: LeafAt(n, p, f[k]) && FlatKey(p) == k)
    && (forall p, v :: LeafAt(n, p, v) ==> FlatKey(p) in f)
  }

  // The leaves below one key, for each kind of value there. Of a map[any]any those under string keys are
  // found, at the same places.
  lemma LeavesBelow(n: Nested, key: string, p: Path, v: int)
    requires key in n && p != []
    ensures n[key].Leaf? ==> !LeafAt(n, [key] + p, v)
    ensures n[key].Map? ==> (LeafAt(n, [key] + p, v) <==> LeafAt(n[key].m, p, v))
    ensures n[key].AnyMap? ==>
      (LeafAt(n, [key] + p, v) <==> Str(p[0]) in n[key].a && LeafAt(map[p[0] := n[key].a[Str(p[0])]], p, v))
  {
    assert ([key] + p)[1..] == p;
    if n[key].AnyMap? {
      assert p[0] in Children(n[key]) <==> Str(p[0]) in n[key].a;
      if Str(p[0]) in n[key].a {
        SameFirst(Children(n[key]), p, v);
      }
    }
  }

  // Whether there is a leaf at p depends on the entry under p[0] alone.
  lemma SameFirst(n: Nested, p: Path, v: int)
    requires p != [] && p[0] in n
    ensures LeafAt(n, p, v) <==> LeafAt(map[p[0] := n[p[0]]], p, v)
  {
  }

  // A map[any]any in a configuration flattens as the map[string]any of its entries under string keys;
  // whatever it has under other keys changes nothing.
  lemma AnyMapReadsAsMap(n: Nested, key: string, a: map<AnyKey, Value>, m: Nested, f: map<string, int>)
    requires forall k :: Str(k) in a <==> k in m
    requires forall k :: k in m ==> a[Str(k)] == m[k]
    ensures Flattened(n[key := AnyMap(a)], f) <==> Flattened(n[key := Map(m)], f)
  {
    var c := Children(AnyMap(a));
    assert forall k :: k in c <==> Str(k) in a;
    assert c == m;
    assert SameLeaves(n[key := AnyMap(a)], n[key := Map(m)]);
  }

  // ---------- writing one key into a nested map ----------

  function InsertAt(n: Nested, p: Path, v: int): Nested
    requires |p| > 0
    decreases |p|
  {
    if |p| == 1 then n[p[0] := Leaf(v)]
    else
      var child := if p[0] in n && n[p[0]].Map? then n[p[0]].m else map[];
      n[p[0] := Map(InsertAt(child, p[1..], v))]
  }

  // The keys of flat written one after the other.
  function InsertAll(flat: map<string, int>, order: seq<string>): Nested
    requires forall k :: k in order ==> k in flat
    decreases |order|
  {
    if order == [] then map[]
    else
      var last := order[|order| - 1];
      InsertAt(InsertAll(flat, order[..|order| - 1]), Split(last), flat[last])
  }

  // As written by unflattenMap: plain nested maps, none of them empty, under keys without dots.
  ghost predicate Sane(v: Value) {
    match v
    case Leaf(_) => true
    case Map(m) => m != map[] && forall k :: k in m ==> DotFree(k) && Sane(m[k])
    case AnyMap(_) => false
  }

  ghost predicate SaneNested(n: Nested) {
    forall k :: k in n ==> DotFree(k) && Sane(n[k])
  }

  lemma {:induction false} InsertSane(n: Nested, p: Path, v: int)
    requires |p| > 0 && AllDotFree(p) && SaneNested(n)
    ensures SaneNested(InsertAt(n, p, v)) && InsertAt(n, p, v) != map[]
    decreases |p|
  {
    var r := InsertAt(n, p, v);
    assert p[0] in r;
    if |p| > 1 {
      var child: Nested := if p[0] in n && n[p[0]].Map? then n[p[0]].m else map[];
      InsertSane(child, p[1..], v);
    }
  }

  // Writing a path keeps exactly the leaves that are neither above nor below it.
  lemma {:induction false} InsertLeaves(n: Nested, p: Path, v: int, q: Path, w: int)
    requires |p| > 0 && SaneNested(n)
    ensures LeafAt(InsertAt(n, p, v), q, w) <==>
      (q == p && w == v) || (LeafAt(n, q, w) && !IsPrefix(p, q) && !IsPrefix(q, p))
    decreases |p|
  {
    if |q| > 0 && q[0] == p[0] {
      assert p == [p[0]] + p[1..] && q == [q[0]] + q[1..];
      PrefixTail(p, q);
      PrefixTail(q, p);
      if |p| > 1 && |q| > 1 {
        var child: Nested := if p[0] in n && n[p[0]].Map? then n[p[0]].m else map[];
        InsertLeaves(child, p[1..], v, q[1..], w);
      }
    } else if |q| > 0 {
      PrefixHead(p, q);
      PrefixHead(q, p);
    }
  }

  lemma PrefixTail(p: Path, q: Path)
    requires |p| > 0 && |q| > 0 && p[0] == q[0]
    ensures IsPrefix(p, q) <==> IsPrefix(p[1..], q[1..])
  {
    if |p| <= |q| {
      assert q[..|p|] == [q[0]] + q[1..][..|p| - 1];
      assert p == [p[0]] + p[1..];
    }
  }

  lemma PrefixHead(p: Path, q: Path)
    requires |p| > 0 && |q| > 0
    ensures IsPrefix(p, q) ==> p[0] == q[0]
  {
    if |p| <= |q| {
      assert q[..|p|][0] == q[0];
    }
  }

  // ---------- all keys written ----------

  // No key is a dotted prefix of another.
  ghost predicate PrefixFree(flat: map<string, int>) {
    forall k1, k2 :: k1 in flat && k2 in flat && k1 != k2 ==> !IsPrefix(Split(k1), Split(k2))
  }

  ghost predicate SomeOrder(flat: map<string, int>, order: seq<string>) {
    && (forall k :: k in order <==> k in flat)
    && (forall i, j :: 0 <= i < j < |order| ==> order[i] != order[j])
  }

  // Whatever the order, every leaf stems from a key of flat, and if no key is a prefix of another
  // every key becomes a leaf.
  lemma {:induction false} InsertAllLeaves(flat: map<string, int>, order: seq<string>)
    requires forall k :: k in order ==> k in flat
    ensures SaneNested(InsertAll(flat, order))
    ensures forall p, v :: LeafAt(InsertAll(flat, order), p, v) ==>
      exists k :: k in order && p == Split(k) && v == flat[k]
    ensures PrefixFree(flat) ==> forall k :: k in order ==> LeafAt(InsertAll(flat, order), Split(k), flat[k])
    decreases |order|
  {
    if order != [] {
      var front, last := order[..|order| - 1], order[|order| - 1];
      assert order == front + [last];
      InsertAllLeaves(flat, front);
      var n, p := InsertAll(flat, front), Split(last);
      SplitDotFree(last);
      InsertSane(n, p, flat[last]);
      forall q, w | LeafAt(InsertAt(n, p, flat[last]), q, w)
        ensures exists k :: k in order && q == Split(k) && w == flat[k]
      {
        InsertLeaves(n, p, flat[last], q, w);
        if !(q == p && w == flat[last]) {
          var k :| k in front && q == Split(k) && w == flat[k];
          assert k in order;
        }
      }
      if PrefixFree(flat) {
        forall k | k in order
          ensures LeafAt(InsertAt(n, p, flat[last]), Split(k), flat[k])
        {
          InsertLeaves(n, p, flat[last], Split(k), flat[k]);
          if k != last {
            assert k in front;
          }
        }
      }
    }
  }

  // Each key of the result comes from some key of flat.
  lemma KeyOrigin(flat: map<string, int>, order: seq<string>, f: map<string, int>, k: string) returns (k': string)
    requires SomeOrder(flat, order) && Flattened(InsertAll(flat, order), f) && k in f
    ensures k' in flat && FlatKey(Split(k')) == k && f[k] == flat[k'] && !LeadingDot(k)
    ensures LeafAt(InsertAll(flat, order), Split(k'), f[k])
  {
    hide LeafAt, KeyFrom, Split, InsertAll, Sane;
    var n := InsertAll(flat, order);
    InsertAllLeaves(flat, order);
    var p :| LeafAt(n, p, f[k]) && FlatKey(p) == k;
    k' :| k' in order && p == Split(k') && f[k] == flat[k'];
    SplitDotFree(k');
    FlatKeyNoLeadingDot(p);
  }

  lemma KeyKept(flat: map<string, int>, order: seq<string>, f: map<string, int>, k: string)
    requires SomeOrder(flat, order) && Flattened(InsertAll(flat, order), f)
    requires PrefixFree(flat) && k in flat
    ensures LeafAt(InsertAll(flat, order), Split(k), flat[k]) && FlatKey(Split(k)) in f
  {
    hide LeafAt, KeyFrom, Split, InsertAll, Sane, PrefixFree;
    InsertAllLeaves(flat, order);
    assert k in order;
  }

  lemma NoKeyInvented(flat: map<string, int>, order: seq<string>, f: map<string, int>)
    requires SomeOrder(flat, order) && Flattened(InsertAll(flat, order), f)
    requires PrefixFree(flat) && forall k :: k in flat ==> !LeadingDot(k)
    ensures f == flat
  {
    hide LeafAt, FlatKey, Split, InsertAll, Flattened, PrefixFree, SomeOrder;
    forall k | k in flat
      ensures k in f
    {
      KeyKept(flat, order, f, k);
      FlatKeyOfSplit(k);
    }
    forall k | k in f
      ensures k in flat && f[k] == flat[k]
    {
      var k' := KeyOrigin(flat, order, f, k);
      FlatKeyOfSplit(k');
    }
  }

  lemma NoKeyLost(flat: map<string, int>, order: seq<string>, f: map<string, int>)
    requires SomeOrder(flat, order) && Flattened(InsertAll(flat, order), f) && f == flat
    ensures PrefixFree(flat) && forall k :: k in flat ==> !LeadingDot(k)
  {
    hide LeafAt, KeyFrom, Split, InsertAll, Sane, IsPrefix, Flattened;
    var n := InsertAll(flat, order);
    forall k | k in flat
      ensures !LeadingDot(k) && LeafAt(n, Split(k), flat[k])
    {
      var k' := KeyOrigin(flat, order, f, k);
      var k'' := KeyOrigin(flat, order, f, k');
      FlatKeyOfSplit(k');
    }
    forall k1, k2 | k1 in flat && k2 in flat && k1 != k2
      ensures !IsPrefix(Split(k1), Split(k2))
    {
      JoinSplit(k1);
      JoinSplit(k2);
      if IsPrefix(Split(k1), Split(k2)) {
        LeavesIncomparable(n, Split(k1), flat[k1], Split(k2), flat[k2]);
      }
    }
  }

  // A set of flat keys that a nested map can hold: none is a dotted prefix of another and none begins
  // with a dot.
  ghost predicate Holdable(keys: set<string>) {
    && (forall k :: k in keys ==> !LeadingDot(k))
    && (forall k1, k2 :: k1 in keys && k2 in keys && k1 != k2 ==> !IsPrefix(Split(k1), Split(k2)))
  }

  // flatten after unflatten gives back the flat map exactly when its keys can be held together - for
  // every order in which either map is iterated.
  lemma FlattenUndoesUnflatten(flat: map<string, int>, order: seq<string>, f: map<string, int>)
    requires SomeOrder(flat, order) && Flattened(InsertAll(flat, order), f)
    ensures f == flat <==> Holdable(flat.Keys)
  {
    hide Flattened, InsertAll;
    if f == flat {
      NoKeyLost(flat, order, f);
    } else if Holdable(flat.Keys) {
      NoKeyInvented(flat, order, f);
    }
  }

  // ---------- unflatten after flatten ----------

  // Every nested map holds a leaf somewhere.
  lemma {:induction false} SaneHasLeaf(v: Value) returns (p: Path, w: int)
    requires Sane(v) && v.Map?
    ensures LeafAt(v.m, p, w)
    decreases v
  {
    var k :| k in v.m;
    if v.m[k].Leaf? {
      p, w := [k], v.m[k].v;
    } else {
      var q, u := SaneHasLeaf(v.m[k]);
      p, w := [k] + q, u;
      assert p[1..] == q;
    }
  }

  ghost predicate SameLeaves(n1: Nested, n2: Nested) {
    forall p, v :: LeafAt(n1, p, v) <==> LeafAt(n2, p, v)
  }

  // Sane nested maps with the same leaves have the same keys and the same values.
  lemma {:induction false} SameLeavesSameKey(v1: Value, v2: Value, k: string)
    requires v1.Map? && v2.Map? && SaneNested(v1.m) && SaneNested(v2.m) && SameLeaves(v1.m, v2.m) && k in v1.m
    ensures k in v2.m && v1.m[k] == v2.m[k]
    decreases v1
  {
    var x := v1.m[k];
    if x.Leaf? {
      assert LeafAt(v1.m, [k], x.v);
      assert LeafAt(v2.m, [k], x.v);
    } else {
      var q, w := SaneHasLeaf(x);
      assert ([k] + q)[1..] == q;
      assert LeafAt(v1.m, [k] + q, w);
      assert LeafAt(v2.m, [k] + q, w);
      var y := v2.m[k];
      forall p, v
        ensures LeafAt(x.m, p, v) <==> LeafAt(y.m, p, v)
      {
        assert ([k] + p)[1..] == p;
        assert LeafAt(v1.m, [k] + p, v) <==> LeafAt(v2.m, [k] + p, v);
      }
      forall j | j in x.m
        ensures j in y.m && x.m[j] == y.m[j]
      {
        SameLeavesSameKey(x, y, j);
      }
      forall j | j in y.m
        ensures j in x.m
      {
        SubKey(x, y, j);
      }
      assert x.m == y.m;
    }
  }

  lemma SubKey(x: Value, y: Value, j: string)
    requires x.Map? && y.Map? && SaneNested(x.m) && SaneNested(y.m) && SameLeaves(x.m, y.m) && j in y.m
    ensures j in x.m
  {
    if y.m[j].Leaf? {
      assert LeafAt(y.m, [j], y.m[j].v);
      assert LeafAt(x.m, [j], y.m[j].v);
    } else {
      var q, w := SaneHasLeaf(y.m[j]);
      assert ([j] + q)[1..] == q;
      assert LeafAt(y.m, [j] + q, w);
      assert LeafAt(x.m, [j] + q, w);
    }
  }

  lemma SameLeavesEqual(n1: Nested, n2: Nested)
    requires SaneNested(n1) && SaneNested(n2) && SameLeaves(n1, n2)
    ensures n1 == n2
  {
    forall k | k in n1
      ensures k in n2 && n1[k] == n2[k]
    {
      SameLeavesSameKey(Map(n1), Map(n2), k);
    }
    forall k | k in n2
      ensures k in n1
    {
      SubKey(Map(n1), Map(n2), k);
    }
  }

  // A configuration that survives: sane, and no map hidden under the empty key at the top.
  ghost predicate Plain(n: Nested) {
    SaneNested(n) && ("" in n ==> n[""].Leaf?)
  }

  lemma {:induction false} LeafDotFree(n: Nested, p: Path, v: int)
    requires SaneNested(n) && LeafAt(n, p, v)
    ensures AllDotFree(p)
    decreases |p|
  {
    if |p| > 1 {
      LeafDotFree(Children(n[p[0]]), p[1..], v);
      assert p == [p[0]] + p[1..];
    }
  }

  // In a plain configuration the flat key of a leaf is its path with dots, and can be split again.
  lemma PlainKey(n: Nested, p: Path, v: int)
    requires Plain(n) && LeafAt(n, p, v)
    ensures FlatKey(p) == Join(p) && Split(FlatKey(p)) == p
  {
    LeafDotFree(n, p, v);
    FlatKeyIsJoin(p);
    SplitJoin(p);
  }

  lemma PlainFlat(n: Nested, f: map<string, int>, k: string)
    requires Plain(n) && Flattened(n, f) && k in f
    ensures LeafAt(n, Split(k), f[k])
  {
    hide Split, LeafAt, FlatKey, Sane;
    var p :| LeafAt(n, p, f[k]) && FlatKey(p) == k;
    PlainKey(n, p, f[k]);
  }

  lemma PlainPrefixFree(n: Nested, f: map<string, int>)
    requires Plain(n) && Flattened(n, f)
    ensures PrefixFree(f)
  {
    hide Split, LeafAt, FlatKey, Plain, Flattened, IsPrefix;
    forall k1, k2 | k1 in f && k2 in f && k1 != k2
      ensures !IsPrefix(Split(k1), Split(k2))
    {
      PlainFlat(n, f, k1);
      PlainFlat(n, f, k2);
      JoinSplit(k1);
      JoinSplit(k2);
      if IsPrefix(Split(k1), Split(k2)) {
        LeavesIncomparable(n, Split(k1), f[k1], Split(k2), f[k2]);
      }
    }
  }

  lemma PlainLeafKept(n: Nested, f: map<string, int>, p: Path, v: int)
    requires Plain(n) && Flattened(n, f) && LeafAt(n, p, v)
    ensures FlatKey(p) in f && f[FlatKey(p)] == v && Split(FlatKey(p)) == p
  {
    PlainKey(n, p, v);
    PlainFlat(n, f, FlatKey(p));
    LeavesIncomparable(n, p, v, p, f[FlatKey(p)]);
  }

  lemma PlainRestored(n: Nested, f: map<string, int>, order: seq<string>)
    requires Plain(n) && Flattened(n, f) && SomeOrder(f, order)
    ensures InsertAll(f, order) == n
  {
    hide Split, LeafAt, FlatKey, Flattened, PrefixFree, InsertAll, Sane;
    var n' := InsertAll(f, order);
    PlainPrefixFree(n, f);
    InsertAllLeaves(f, order);
    forall p, v
      ensures LeafAt(n', p, v) <==> LeafAt(n, p, v)
    {
      if LeafAt(n', p, v) {
        var k :| k in order && p == Split(k) && v == f[k];
        PlainFlat(n, f, k);
      }
      if LeafAt(n, p, v) {
        PlainLeafKept(n, f, p, v);
        assert FlatKey(p) in order;
      }
    }
    SameLeavesEqual(n', n);
  }

  lemma FlatNoLeadingDot(n: Nested, f: map<string, int>, k: string)
    requires SaneNested(n) && Flattened(n, f) && k in f
    ensures !LeadingDot(k)
  {
    hide FlatKey, LeafAt, Sane;
    var p :| LeafAt(n, p, f[k]) && FlatKey(p) == k;
    LeafDotFree(n, p, f[k]);
    LeafNonEmpty(n, p, f[k]);
    FlatKeyNoLeadingDot(p);
  }

  lemma LeafNonEmpty(n: Nested, p: Path, v: int)
    requires LeafAt(n, p, v)
    ensures |p| > 0
  {
  }

  lemma LeafUnderEmptyKey(n: Nested) returns (p: Path, v: int)
    requires SaneNested(n) && "" in n && !n[""].Leaf?
    ensures LeafAt(n, p, v) && |p| > 1 && p[0] == ""
  {
    var q, w := SaneHasLeaf(n[""]);
    p, v := [""] + q, w;
    assert p[1..] == q;
  }

  lemma RestoredPlain(n: Nested, f: map<string, int>, order: seq<string>)
    requires Flattened(n, f) && SomeOrder(f, order) && InsertAll(f, order) == n
    ensures Plain(n)
  {
    hide Split, FlatKey, PrefixFree, InsertAll, LeafAt, Sane, Flattened;
    InsertAllLeaves(f, order);
    if "" in n && !n[""].Leaf? {
      var p, v := LeafUnderEmptyKey(n);
      var k :| k in order && p == Split(k) && v == f[k];
      LeadingEmpty(k);
      FlatNoLeadingDot(n, f, k);
    }
  }

  lemma LeadingEmpty(k: string)
    requires |Split(k)| > 1 && Split(k)[0] == ""
    ensures LeadingDot(k)
  {
  }

  // unflatten after flatten gives back the nested map exactly when it is plain: no dots in keys, no
  // empty nested map, no map[any]any, and no map under an empty key at the top.
  lemma UnflattenUndoesFlatten(n: Nested, f: map<string, int>, order: seq<string>)
    requires Flattened(n, f) && SomeOrder(f, order)
    ensures InsertAll(f, order) == n <==> Plain(n)
  {
    hide Flattened, InsertAll, Plain;
    if InsertAll(f, order) == n {
      RestoredPlain(n, f, order);
    } else if Plain(n) {
      PlainRestored(n, f, order);
    }
  }

  // ---------- SetVal ----------

  // SetVal flattens the overrides to f, whatever nested map n they are, writes one key and unflattens
  // again. Read back, exactly that key has changed if and only if the keys can be held together.
  lemma SetValChangesOneKey(n: Nested, f: map<string, int>, key: string, v: int, order: seq<string>, f': map<string, int>)
    requires Flattened(n, f)
    requires SomeOrder(f[key := v], order) && Flattened(InsertAll(f[key := v], order), f')
    ensures f' == f[key := v] <==> Holdable(f.Keys + {key})
  {
    hide Flattened, InsertAll, IsPrefix, LeadingDot;
    FlattenUndoesUnflatten(f[key := v], order, f');
    assert f[key := v].Keys == f.Keys + {key};
  }

  // Overrides that could be held remain so exactly if none of them lies above or below the new key.
  lemma SetValOnHoldable(f: map<string, int>, key: string)
    requires Holdable(f.Keys)
    ensures Holdable(f.Keys + {key}) <==>
      !LeadingDot(key) && forall k :: k in f && k != key ==> !IsPrefix(Split(k), Split(key)) && !IsPrefix(Split(key), Split(k))
  {
    hide IsPrefix, LeadingDot, Split;
  }

  // A plain configuration, such as unflattening yields of keys without leading dots, is one of these.
  lemma PlainIsHoldable(n: Nested, f: map<string, int>)
    requires Plain(n) && Flattened(n, f)
    ensures Holdable(f.Keys)
  {
    hide Flattened, Plain, IsPrefix;
    PlainPrefixFree(n, f);
    forall k | k in f
      ensures !LeadingDot(k)
    {
      FlatPlainNoLeadingDot(n, f, k);
    }
  }

  // On a plain configuration, then, SetVal changes exactly the key it is given unless the key begins with a
  // dot or lies above or below another one.
  lemma SetValOnPlain(n: Nested, f: map<string, int>, key: string, v: int, order: seq<string>, f': map<string, int>)
    requires Plain(n) && Flattened(n, f)
    requires SomeOrder(f[key := v], order) && Flattened(InsertAll(f[key := v], order), f')
    ensures f' == f[key := v] <==>
      !LeadingDot(key) && forall k :: k in f && k != key ==> !IsPrefix(Split(k), Split(key)) && !IsPrefix(Split(key), Split(k))
  {
    hide Plain, Flattened, InsertAll, SomeOrder, Holdable, IsPrefix, LeadingDot;
    PlainIsHoldable(n, f);
    SetValOnHoldable(f, key);
    SetValChangesOneKey(n, f, key, v, order, f');
  }

  lemma FlatPlainNoLeadingDot(n: Nested, f: map<string, int>, k: string)
    requires Plain(n) && Flattened(n, f) && k in f
    ensures !LeadingDot(k)
  {
    FlatNoLeadingDot(n, f, k);
  }

  // ---------- where the round trips fail ----------

  lemma SplitSamples()
    ensures Split("a") == ["a"] && Split("a.b") == ["a", "b"]
  {
    SplitPlain("a");
    SplitPlain("b");
    SplitDot("a", "b");
    assert "a.b" == "a" + "." + "b";
  }

  // A value above another one does not survive.
  lemma PrefixKeyLost(order: seq<string>, f: map<string, int>)
    requires var flat := map["a" := 1, "a.b" := 2]; SomeOrder(flat, order) && Flattened(InsertAll(flat, order), f)
    ensures f != map["a" := 1, "a.b" := 2]
  {
    hide Flattened, InsertAll;
    var flat := map["a" := 1, "a.b" := 2];
    SplitSamples();
    assert "a" in flat && "a.b" in flat && "a" != "a.b";
    assert IsPrefix(Split("a"), Split("a.b"));
    FlattenUndoesUnflatten(flat, order, f);
  }

  // A key with a dot comes back as two keys.
  lemma DottedKeySplit(f: map<string, int>, order: seq<string>)
    requires var n: Nested := map["a.b" := Leaf(1)]; Flattened(n, f) && SomeOrder(f, order)
    ensures InsertAll(f, order) != map["a.b" := Leaf(1)]
  {
    hide Flattened, InsertAll;
    var n: Nested := map["a.b" := Leaf(1)];
    assert "a.b" in n && "a.b"[1] == '.';
    UnflattenUndoesFlatten(n, f, order);
  }
}
