/**
 The indexed priority queue of internal/mapper/mapper.path.go on top of Go's container/heap: a
 binary heap of records in a slice, together with the position of each room's record.
 */
module OpenSets {
  import opened HeapOrder

  datatype NodeRecord = NodeRecord(roomId: int, fScore: int)

  function KeyOf(n: NodeRecord): Key {
    (n.fScore, 0)
  }

  function Keys(items: seq<NodeRecord>): (k: seq<Key>)
    ensures |k| == |items|
  {
    seq(|items|, i requires 0 <= i < |items| => KeyOf(items[i]))
  }

  ghost predicate IndexedBy(items: seq<NodeRecord>, index: map<int, int>) {
    && (forall i :: 0 <= i < |items| ==> items[i].roomId in index && index[items[i].roomId] == i)
    && (forall r :: r in index ==> 0 <= index[r] < |items| && items[index[r]].roomId == r)
  }

  ghost function EntriesOf(items: seq<NodeRecord>, index: map<int, int>): map<int, int>
    requires IndexedBy(items, index)
  {
    map r | r in index :: items[index[r]].fScore
  }

  lemma SwapIndexed(items: seq<NodeRecord>, index: map<int, int>, i: int, j: int)
    requires IndexedBy(items, index) && 0 <= i < |items| && 0 <= j < |items|
    ensures var items' := Swapped(items, i, j);
            var index' := index[items'[i].roomId := i][items'[j].roomId := j];
            IndexedBy(items', index') && EntriesOf(items', index') == EntriesOf(items, index)
  {
    var items' := Swapped(items, i, j);
    var index' := index[items'[i].roomId := i][items'[j].roomId := j];
    assert index'.Keys == index.Keys;
    forall r | r in index
      ensures 0 <= index'[r] < |items'| && items'[index'[r]] == items[index[r]]
    {
    }
  }

  lemma AppendIndexed(items: seq<NodeRecord>, index: map<int, int>, n: NodeRecord)
    requires IndexedBy(items, index) && n.roomId !in index
    ensures IndexedBy(items + [n], index[n.roomId := |items|])
    ensures EntriesOf(items + [n], index[n.roomId := |items|]) == EntriesOf(items, index)[n.roomId := n.fScore]
  {
    var items', index' := items + [n], index[n.roomId := |items|];
    assert forall r :: r in index ==> index'[r] == index[r] && items'[index'[r]] == items[index[r]];
    assert IndexedBy(items', index');
    assert EntriesOf(items', index').Keys == EntriesOf(items, index)[n.roomId := n.fScore].Keys;
  }

  lemma CutIndexed(items: seq<NodeRecord>, index: map<int, int>)
    requires IndexedBy(items, index) && |items| > 0
    ensures var n := |items| - 1;
            IndexedBy(items[..n], index - {items[n].roomId}) &&
            EntriesOf(items[..n], index - {items[n].roomId}) == EntriesOf(items, index) - {items[n].roomId}
  {
    var n := |items| - 1;
    var items', index' := items[..n], index - {items[n].roomId};
    assert forall r :: r in index' ==> index'[r] == index[r] && index[r] != n && items'[index'[r]] == items[index[r]];
    assert IndexedBy(items', index');
    assert EntriesOf(items', index').Keys == (EntriesOf(items, index) - {items[n].roomId}).Keys;
  }

  lemma PutIndexed(items: seq<NodeRecord>, index: map<int, int>, i: int, n: NodeRecord)
    requires IndexedBy(items, index) && 0 <= i < |items| && items[i].roomId == n.roomId
    ensures IndexedBy(items[i := n], index)
    ensures EntriesOf(items[i := n], index) == EntriesOf(items, index)[n.roomId := n.fScore]
  {
    var items' := items[i := n];
    assert forall r :: r in index && r != n.roomId ==> index[r] != i && items'[index[r]] == items[index[r]];
    assert EntriesOf(items', index).Keys == EntriesOf(items, index)[n.roomId := n.fScore].Keys;
  }

  class OpenSet {
    var items: seq<NodeRecord>
    // inOpen and the index field of its records: where in items the room's record is
    var index: map<int, int>

    ghost predicate Indexed()
      reads this
    {
      IndexedBy(items, index)
    }

    ghost predicate Valid()
      reads this
    {
      Indexed() && Heap(Keys(items))
    }

    // The open rooms with their scores.
    ghost function Entries(): map<int, int>
      requires Indexed()
      reads this
    {
      EntriesOf(items, index)
    }

    lemma EmptyEntries()
      requires Valid() && |items| == 0
      ensures Entries() == map[]
    {
      assert forall r :: r !in index;
    }

    constructor ()
      ensures Valid() && Entries() == map[] && index == map[]
    {
      items, index := [], map[];
    }

    method Swap(i: int, j: int)
      requires Indexed() && 0 <= i < |items| && 0 <= j < |items|
      modifies this
      ensures Indexed() && Entries() == old(Entries())
      ensures items == Swapped(old(items), i, j) && Keys(items) == Swapped(Keys(old(items)), i, j)
    {
      SwapIndexed(items, index, i, j);
      items := items[i := items[j]][j := items[i]];
      index := index[items[i].roomId := i];
      index := index[items[j].roomId := j];
    }

    method Up(j0: int)
      requires Indexed() && 0 <= j0 < |items|
      requires HeapAround(Keys(items), j0) && ChildrenInOrder(Keys(items), j0)
      modifies this
      ensures Valid() && Entries() == old(Entries())
    {
      var j := j0;
      while true
        invariant Indexed() && Entries() == old(Entries()) && 0 <= j < |items|
        invariant HeapAround(Keys(items), j) && ChildrenInOrder(Keys(items), j)
        decreases j
      {
        if j == 0 || items[Parent(j)].fScore <= items[j].fScore {
          UpDone(Keys(items), j);
          break;
        }
        var i := Parent(j);
        UpStep(Keys(items), j);
        Swap(i, j);
        j := i;
      }
    }

    // Sift items[i0] down within the first n items. Reports whether it moved; if not, it may still
    // be out of order with its parent.
    method Down(i0: int, n: int) returns (moved: bool)
      requires Indexed() && 0 <= i0 < n <= |items|
      requires HeapAround(Keys(items)[..n], i0)
      modifies this
      ensures Indexed() && Entries() == old(Entries()) && |items| == |old(items)| && items[n..] == old(items[n..])
      ensures moved ==> Heap(Keys(items)[..n])
      ensures !moved ==> items == old(items) && ChildrenInOrder(Keys(items)[..n], i0)
    {
      hide Indexed, Entries, HeapAround, ChildrenInOrder, InOrderAt, Heap, Less, Swapped;
      var i := i0;
      while true
        invariant Indexed() && Entries() == old(Entries())
        invariant |items| == |old(items)| && items[n..] == old(items[n..]) && i0 <= i < n
        invariant HeapAround(Keys(items)[..n], i)
        invariant i == i0 ==> items == old(items)
        invariant i != i0 ==> InOrderAt(Keys(items)[..n], i)
        decreases n - i
      {
        var j := 2 * i + 1;
        if j >= n {
          NoChildren(Keys(items)[..n], i);
          break;
        }
        var j2 := j + 1;
        if j2 < n {
          KeysOrder(items, n, j2, j);
        }
        if j2 < n && items[j2].fScore < items[j].fScore {
          j := j2;
        }
        SmallerChild(Keys(items)[..n], i, j);
        KeysOrder(items, n, j, i);
        if items[i].fScore <= items[j].fScore {
          NoSmallerChild(Keys(items)[..n], i, j);
          break;
        }
        DownStep(Keys(items)[..n], i, j);
        SwappedPrefix(Keys(items), n, i, j);
        SwappedPrefix(items, n, i, j);
        Swap(i, j);
        i := j;
      }
      moved := i > i0;
      if moved {
        UpDone(Keys(items)[..n], i);
      }
    }

    // Two of the first n records are ordered as their keys are.
    lemma KeysOrder(s: seq<NodeRecord>, n: int, i: int, j: int)
      requires 0 <= i < n <= |s| && 0 <= j < n
      ensures Less(Keys(s)[..n][i], Keys(s)[..n][j]) <==> s[i].fScore < s[j].fScore
    {
    }

    method Push(n: NodeRecord)
      requires Valid() && n.roomId !in index
      modifies this
      ensures Valid() && Entries() == old(Entries())[n.roomId := n.fScore]
    {
      hide IndexedBy, EntriesOf, HeapAround, ChildrenInOrder, Heap;
      PushReady(Keys(items), KeyOf(n));
      AppendIndexed(items, index, n);
      assert Keys(items + [n]) == Keys(items) + [KeyOf(n)];
      index := index[n.roomId := |items|];
      items := items + [n];
      Up(|items| - 1);
    }

    lemma FirstIsLeast()
      requires Valid() && |items| > 0
      ensures items[0].roomId in Entries() && Entries()[items[0].roomId] == items[0].fScore
      ensures forall r :: r in Entries() ==> items[0].fScore <= Entries()[r]
    {
      forall r | r in Entries()
        ensures items[0].fScore <= Entries()[r]
      {
        RootIsLeast(Keys(items), index[r]);
      }
    }

    method Pop() returns (n: NodeRecord)
      requires Valid() && |items| > 0
      modifies this
      ensures Valid()
      ensures n.roomId in old(Entries()) && old(Entries())[n.roomId] == n.fScore
      ensures Entries() == old(Entries()) - {n.roomId}
      ensures forall r :: r in old(Entries()) ==> n.fScore <= old(Entries())[r]
    {
      hide IndexedBy, EntriesOf, HeapAround, ChildrenInOrder, InOrderAt;
      n := items[0];
      ghost var k := Keys(items);
      FirstIsLeast();
      var last := |items| - 1;
      Swap(0, last);
      if last > 0 {
        PopReady(k);
        var moved := Down(0, last);
        if !moved {
          UpDone(Keys(items)[..last], 0);
        }
      }
      assert items[last] == n;
      CutIndexed(items, index);
      ghost var k' := Keys(items);
      items := items[..last];
      index := index - {n.roomId};
      assert Keys(items) == k'[..last];
    }

    // update: change the score of an open room and restore the order with heap.Fix.
    method Update(roomId: int, newF: int)
      requires Valid() && roomId in index
      modifies this
      ensures Valid() && Entries() == old(Entries())[roomId := newF]
    {
      var i := index[roomId];
      ghost var k := Keys(items);
      FixReady(k, i, (newF, 0));
      PutIndexed(items, index, i, NodeRecord(roomId, newF));
      items := items[i := NodeRecord(roomId, newF)];
      assert Keys(items) == k[i := (newF, 0)];
      assert Keys(items)[..|items|] == Keys(items);
      var moved := Down(i, |items|);
      assert Keys(items)[..|items|] == Keys(items);
      if !moved {
        Up(i);
      }
    }
  }
}
