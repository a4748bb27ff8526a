/**
 Flatten of internal/configs/configs.go and unflattenMap of internal/configs/overrides.go, over maps
 iterated in any order. The nested maps that unflattenMap builds are objects on the heap, written in
 place as in the source.
 */
module Configs {
  import opened ConfigTree

  // ---------- flatten ----------

  // The flat map that all calls of flattenHelper write to.
  class FlatMap {
    var m: map<string, int>

    constructor ()
      ensures m == map[]
    {
      m := map[];
    }
  }

  // m holds what was in m0, and the keys of the leaves of n that begin with a key in done.
  ghost predicate FlatFrom(m0: map<string, int>, m: map<string, int>, prefix: string, n: Nested, done: set<string>) {
    && (forall k :: k in m0 ==> k in m)
    && (forall k :: k in m ==> (k in m0 && m[k] == m0[k]) || exists p :: LeafAt(n, p, m[k]) && KeyFrom(prefix, p) == k)
    && (forall p, v :: LeafAt(n, p, v) && p[0] in done ==> KeyFrom(prefix, p) in m)
  }

  lemma FlatNothing(m0: map<string, int>, prefix: string, n: Nested)
    ensures FlatFrom(m0, m0, prefix, n, {})
  {
  }

  lemma FlatLeaf(m0: map<string, int>, m: map<string, int>, prefix: string, n: Nested, done: set<string>, key: string)
    requires FlatFrom(m0, m, prefix, n, done) && key in n && n[key].Leaf?
    ensures FlatFrom(m0, m[NewKey(prefix, key) := n[key].v], prefix, n, done + {key})
  {
    var m' := m[NewKey(prefix, key) := n[key].v];
    assert LeafAt(n, [key], n[key].v);
    assert KeyFrom(NewKey(prefix, key), [key][1..]) == NewKey(prefix, key);
    forall p, v | LeafAt(n, p, v) && p[0] in done + {key}
      ensures KeyFrom(prefix, p) in m'
    {
      if p[0] == key {
        assert p == [key];
      }
    }
  }

  lemma FlatNested(m0: map<string, int>, m: map<string, int>, m': map<string, int>, prefix: string, n: Nested, done: set<string>, key: string)
    requires FlatFrom(m0, m, prefix, n, done) && key in n && !n[key].Leaf?
    requires FlatFrom(m, m', NewKey(prefix, key), Children(n[key]), Children(n[key]).Keys)
    ensures FlatFrom(m0, m', prefix, n, done + {key})
  {
    var c := Children(n[key]);
    forall k | k in m' && !(k in m && m'[k] == m[k])
      ensures exists p :: LeafAt(n, p, m'[k]) && KeyFrom(prefix, p) == k
    {
      var q :| LeafAt(c, q, m'[k]) && KeyFrom(NewKey(prefix, key), q) == k;
      var p := [key] + q;
      assert p[1..] == q;
      assert LeafAt(n, p, m'[k]);
    }
    forall p, v | LeafAt(n, p, v) && p[0] in done + {key}
      ensures KeyFrom(prefix, p) in m'
    {
      if p[0] == key {
        assert LeafAt(c, p[1..], v);
      }
    }
  }

  // input is a nested map of either kind.
  method FlattenHelper(prefix: string, input: Value, flatMap: FlatMap)
    requires !input.Leaf?
    modifies flatMap
    ensures FlatFrom(old(flatMap.m), flatMap.m, prefix, Children(input), Children(input).Keys)
    decreases input
  {
    hide FlatFrom, LeafAt, KeyFrom;
    var n := Children(input);
    var todo := n.Keys;
    ghost var done: set<string> := {};
    FlatNothing(flatMap.m, prefix, n);
    while todo != {}
      invariant todo + done == n.Keys
      invariant FlatFrom(old(flatMap.m), flatMap.m, prefix, n, done)
      decreases todo
    {
      var key :| key in todo;
      todo := todo - {key};
      var value := n[key];
      ghost var m := flatMap.m;
      if value.Leaf? {
        flatMap.m := flatMap.m[NewKey(prefix, key) := value.v];
        FlatLeaf(old(flatMap.m), m, prefix, n, done, key);
      } else {
        FlattenHelper(NewKey(prefix, key), value, flatMap);
        FlatNested(old(flatMap.m), m, flatMap.m, prefix, n, done, key);
      }
      done := done + {key};
    }
    assert done == n.Keys;
  }

  method Flatten(input: Nested) returns (f: map<string, int>)
    ensures Flattened(input, f)
  {
    var flatMap := new FlatMap();
    FlattenHelper("", Map(input), flatMap);
    f := flatMap.m;
    FlatIsFlattened(input, f);
  }

  lemma FlatIsFlattened(n: Nested, f: map<string, int>)
    requires FlatFrom(map[], f, "", n, n.Keys)
    ensures Flattened(n, f)
  {
  }

  // ---------- unflatten ----------

  datatype Entry = Scalar(v: int) | Ref(ref: GoMap)

  // A map[string]any on the heap. model is the nested value it stands for.
  class GoMap {
    var entries: map<string, Entry>
    ghost var Repr: set<object>
    ghost var model: Nested

    ghost predicate Valid()
      reads this, Repr
      decreases Repr
      ensures Valid() ==> this in Repr
    {
      && this in Repr
      && (forall k :: k in entries && entries[k].Ref? ==>
            && entries[k].ref in Repr && entries[k].ref.Repr <= Repr && this !in entries[k].ref.Repr
            && entries[k].ref.Valid())
      && (forall j, k :: j in entries && k in entries && j != k && entries[j].Ref? && entries[k].Ref? ==>
            entries[j].ref.Repr !! entries[k].ref.Repr)
      && model.Keys == entries.Keys
      && (forall k :: k in entries ==>
            model[k] == match entries[k] case Scalar(v) => Leaf(v) case Ref(r) => Map(r.model))
    }

    constructor ()
      ensures Valid() && fresh(Repr) && model == map[]
    {
      entries := map[];
      Repr := {this};
      model := map[];
    }

    // One step of the cursor: the map under part, created if there is none.
    method Descend(part: string) returns (next: GoMap)
      requires Valid()
      modifies this
      ensures Valid() && fresh(Repr - old(Repr))
      ensures part in entries && entries[part] == Ref(next)
      ensures next.model == if part in old(model) && old(model)[part].Map? then old(model)[part].m else map[]
      ensures model == old(model)[part := Map(next.model)]
    {
      if part in entries && entries[part].Ref? {
        next := entries[part].ref;
      } else {
        next := new GoMap();
        entries := entries[part := Ref(next)];
        Repr := Repr + next.Repr;
        model := model[part := Map(map[])];
      }
    }

    method Set(part: string, value: int)
      requires Valid()
      modifies this
      ensures Valid() && Repr == old(Repr) && model == old(model)[part := Leaf(value)]
    {
      entries := entries[part := Scalar(value)];
      model := model[part := Leaf(value)];
    }

    // Everything but the map under part, whose objects are R, is as Valid wants it.
    ghost predicate Others(part: string, R: set<object>)
      reads this, Repr - R
    {
      && this in Repr && this !in R && model.Keys == entries.Keys
      && (forall k :: k in entries && k != part && entries[k].Ref? ==>
            && entries[k].ref in Repr - R && entries[k].ref.Repr <= Repr - R && this !in entries[k].ref.Repr
            && entries[k].ref.Valid())
      && (forall k :: k in entries && k != part ==>
            model[k] == match entries[k] case Scalar(v) => Leaf(v) case Ref(r) => Map(r.model))
      && (forall j, k :: j in entries && k in entries && j != k && j != part && k != part && entries[j].Ref? && entries[k].Ref? ==>
            entries[j].ref.Repr !! entries[k].ref.Repr)
    }

    lemma ValidOthers(part: string, next: GoMap)
      requires Valid() && part in entries && entries[part] == Ref(next)
      ensures Others(part, next.Repr) && next.Valid() && next.Repr <= Repr && this !in next.Repr
    {
    }

    // The map under part has changed within its own objects and new ones: so does what this map stands for.
    ghost method Update(part: string, next: GoMap, R: set<object>)
      requires Others(part, R) && part in entries && entries[part] == Ref(next)
      requires next.Valid() && this !in next.Repr && next.Repr !! (Repr - R)
      modifies this`Repr, this`model
      ensures Valid() && Repr == old(Repr) + next.Repr && model == old(model)[part := Map(next.model)]
    {
      Repr := Repr + next.Repr;
      model := model[part := Map(next.model)];
    }

    // The walk along the parts of one key, writing the value under the last.
    method Put(parts: Path, value: int)
      requires Valid() && |parts| > 0
      modifies Repr
      ensures Valid() && fresh(Repr - old(Repr))
      ensures model == InsertAt(old(model), parts, value)
      decreases |parts|, 1
    {
      if |parts| == 1 {
        Set(parts[0], value);
      } else {
        PutBelow(parts[0], parts[1..], value);
      }
    }

    method PutBelow(part: string, rest: Path, value: int)
      requires Valid() && |rest| > 0
      modifies Repr
      ensures Valid() && fresh(Repr - old(Repr))
      ensures model == old(model)[part := Map(InsertAt(
        if part in old(model) && old(model)[part].Map? then old(model)[part].m else map[], rest, value))]
      decreases |rest|, 2
    {
      hide InsertAt, Valid, Others;
      var next := Descend(part);
      ValidOthers(part, next);
      ghost var R := next.Repr;
      next.Put(rest, value);
      Update(part, next, R);
    }
  }

  method UnflattenMap(flat: map<string, int>) returns (nested: GoMap, ghost order: seq<string>)
    ensures fresh(nested.Repr) && nested.Valid()
    ensures SomeOrder(flat, order) && nested.model == InsertAll(flat, order)
  {
    nested := new GoMap();
    order := [];
    var todo := flat.Keys;
    while todo != {}
      invariant nested.Valid() && fresh(nested.Repr)
      invariant forall k :: k in flat ==> (k in order <==> k !in todo)
      invariant todo <= flat.Keys && forall k :: k in order ==> k in flat
      invariant forall i, j :: 0 <= i < j < |order| ==> order[i] != order[j]
      invariant nested.model == InsertAll(flat, order)
      decreases todo
    {
      var key :| key in todo;
      todo := todo - {key};
      nested.Put(Split(key), flat[key]);
      assert (order + [key])[..|order|] == order;
      order := order + [key];
    }
  }
}
