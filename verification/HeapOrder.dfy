/**
 The order kept by Go's container/heap, on the keys of the items alone: pairs compared first by their
 first part. An event is keyed by its priority and order, an open room of the path search by its
 fScore (and 0).
 */
module HeapOrder {
  type Key = (int, int)

  predicate Less(a: Key, b: Key) {
    if a.0 == b.0 then a.1 < b.1 else a.0 < b.0
  }

  function Parent(i: int): int
    requires i > 0
  {
    (i - 1) / 2
  }

  ghost predicate InOrderAt(k: seq<Key>, i: int)
    requires 0 <= i < |k|
  {
    i > 0 ==> !Less(k[i], k[Parent(i)])
  }

  ghost predicate Heap(k: seq<Key>) {
    forall i :: 0 <= i < |k| ==> InOrderAt(k, i)
  }

  // In order except perhaps between p and its parent and between p and its children,
  // where the children of p are still no smaller than p's parent.
  ghost predicate HeapAround(k: seq<Key>, p: int) {
    && 0 <= p < |k|
    && (forall i :: 0 < i < |k| && i != p && Parent(i) != p ==> InOrderAt(k, i))
    && (forall i :: 0 < i < |k| && Parent(i) == p && p > 0 ==> !Less(k[i], k[Parent(p)]))
  }

  ghost predicate ChildrenInOrder(k: seq<Key>, p: int) {
    forall i :: 0 < i < |k| && Parent(i) == p ==> InOrderAt(k, i)
  }

  function Swapped<T>(s: seq<T>, i: int, j: int): seq<T>
    requires 0 <= i < |s| && 0 <= j < |s|
  {
    s[i := s[j]][j := s[i]]
  }

  lemma UpStep(k: seq<Key>, j: int)
    requires HeapAround(k, j) && ChildrenInOrder(k, j) && j > 0 && Less(k[j], k[Parent(j)])
    ensures HeapAround(Swapped(k, Parent(j), j), Parent(j))
    ensures ChildrenInOrder(Swapped(k, Parent(j), j), Parent(j))
  {
    var i := Parent(j);
    var k' := Swapped(k, i, j);
    forall m | 0 < m < |k'| && m != i && Parent(m) != i
      ensures InOrderAt(k', m)
    {
      if Parent(m) == j {
        assert !Less(k[m], k[i]);
      } else {
        assert InOrderAt(k, m);
      }
    }
    forall m | 0 < m < |k'| && Parent(m) == i
      ensures InOrderAt(k', m) && (i > 0 ==> !Less(k'[m], k'[Parent(i)]))
    {
      if m != j {
        assert InOrderAt(k, m);
      }
      assert i > 0 ==> InOrderAt(k, i);
    }
  }

  // j is the smaller child of i and smaller than i.
  lemma DownStep(k: seq<Key>, i: int, j: int)
    requires HeapAround(k, i) && 0 < j < |k| && Parent(j) == i && Less(k[j], k[i])
    requires forall m :: 0 < m < |k| && Parent(m) == i ==> !Less(k[m], k[j])
    ensures HeapAround(Swapped(k, i, j), j)
    ensures InOrderAt(Swapped(k, i, j), j) && InOrderAt(Swapped(k, i, j), i)
  {
    var k' := Swapped(k, i, j);
    forall m | 0 < m < |k'| && m != j && Parent(m) != j
      ensures InOrderAt(k', m)
    {
      if m != i && Parent(m) != i {
        assert InOrderAt(k, m);
      }
    }
    forall m | 0 < m < |k'| && Parent(m) == j
      ensures !Less(k'[m], k'[Parent(j)])
    {
      assert InOrderAt(k, m);
    }
  }

  // The smaller child of i, as a sift downwards chooses it
  lemma SmallerChild(k: seq<Key>, i: int, j: int)
    requires 0 <= i && 2 * i + 1 < |k|
    requires j == if 2 * i + 2 < |k| && Less(k[2 * i + 2], k[2 * i + 1]) then 2 * i + 2 else 2 * i + 1
    ensures 0 < j < |k| && Parent(j) == i
    ensures forall m :: 0 < m < |k| && Parent(m) == i ==> !Less(k[m], k[j])
  {
  }

  lemma NoSmallerChild(k: seq<Key>, i: int, j: int)
    requires 0 <= i < |k| && 0 < j < |k| && !Less(k[j], k[i])
    requires forall m :: 0 < m < |k| && Parent(m) == i ==> !Less(k[m], k[j])
    ensures ChildrenInOrder(k, i)
  {
  }

  lemma NoChildren(k: seq<Key>, i: int)
    requires 0 <= i && 2 * i + 1 >= |k|
    ensures ChildrenInOrder(k, i)
  {
  }

  lemma SwappedPrefix<T>(s: seq<T>, n: int, i: int, j: int)
    requires 0 <= i < n <= |s| && 0 <= j < n
    ensures Swapped(s, i, j)[..n] == Swapped(s[..n], i, j)
    ensures |Swapped(s, i, j)| == |s| && Swapped(s, i, j)[n..] == s[n..]
  {
  }

  lemma {:induction false} RootIsLeast(k: seq<Key>, i: int)
    requires Heap(k) && 0 <= i < |k|
    ensures !Less(k[i], k[0])
    decreases i
  {
    if i > 0 {
      RootIsLeast(k, Parent(i));
      assert InOrderAt(k, i);
    }
  }

  // With the last leaf swapped to the root and cut off, only the root can be out of order.
  lemma PopReady(k: seq<Key>)
    requires |k| > 1 && Heap(k)
    ensures HeapAround(Swapped(k, 0, |k| - 1)[..|k| - 1], 0)
  {
    var n := |k| - 1;
    var k' := Swapped(k, 0, n)[..n];
    assert forall i :: 0 < i < n ==> k'[i] == k[i];
    forall i | 0 < i < n && Parent(i) != 0
      ensures InOrderAt(k', i)
    {
      assert InOrderAt(k, i);
    }
  }

  // A new last leaf can only be out of order with its parent.
  lemma PushReady(k: seq<Key>, x: Key)
    requires Heap(k)
    ensures HeapAround(k + [x], |k|) && ChildrenInOrder(k + [x], |k|)
  {
    var k' := k + [x];
    forall i | 0 < i < |k'| && i != |k|
      ensures InOrderAt(k', i)
    {
      assert InOrderAt(k, i);
    }
  }

  // Changing one key leaves the rest in order around it.
  lemma FixReady(k: seq<Key>, p: int, x: Key)
    requires Heap(k) && 0 <= p < |k|
    ensures HeapAround(k[p := x], p)
  {
    var k' := k[p := x];
    forall i | 0 < i < |k'| && i != p && Parent(i) != p
      ensures InOrderAt(k', i)
    {
      assert InOrderAt(k, i);
    }
    forall i | 0 < i < |k'| && Parent(i) == p && p > 0
      ensures !Less(k'[i], k'[Parent(p)])
    {
      assert InOrderAt(k, i) && InOrderAt(k, p);
    }
  }

  lemma UpDone(k: seq<Key>, j: int)
    requires HeapAround(k, j) && ChildrenInOrder(k, j) && InOrderAt(k, j)
    ensures Heap(k)
  {
    forall i | 0 <= i < |k|
      ensures InOrderAt(k, i)
    {
    }
  }
}
