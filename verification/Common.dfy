/**
 What several modules share: the optional value, absolute values, and facts about sequences.
 */
module Common {

  datatype Option<T> = None | Some(value: T)

  function Abs(x: int): nat {
    if x < 0 then -x else x
  }

  function Min(a: int, b: int): int {
    if a < b then a else b
  }

  predicate NoDuplicates<T(==)>(s: seq<T>) {
    forall i, j :: 0 <= i < j < |s| ==> s[i] != s[j]
  }

  lemma NoDuplicatesFirst<T>(s: seq<T>)
    requires s != []
    ensures NoDuplicates(s) <==> NoDuplicates(s[1..]) && s[0] !in s[1..]
  {
    var t := s[1..];
    assert forall i :: 0 <= i < |t| ==> t[i] == s[i + 1];
    if NoDuplicates(t) && s[0] !in t {
      forall i, j | 0 <= i < j < |s|
        ensures s[i] != s[j]
      {
        assert s[j] == t[j - 1];
        if i > 0 {
          assert s[i] == t[i - 1];
        }
      }
    }
  }

  lemma NoDuplicatesLast<T>(s: seq<T>)
    requires s != []
    ensures NoDuplicates(s) <==> NoDuplicates(s[..|s| - 1]) && s[|s| - 1] !in s[..|s| - 1]
  {
    var n := |s| - 1;
    var t := s[..n];
    assert forall i :: 0 <= i < n ==> t[i] == s[i];
    if NoDuplicates(t) && s[n] !in t {
      forall i, j | 0 <= i < j < |s|
        ensures s[i] != s[j]
      {
        assert s[i] == t[i];
        if j < n {
          assert s[j] == t[j];
        }
      }
    }
  }

  lemma {:induction false} SetOfDistinct<T>(s: seq<T>)
    requires NoDuplicates(s)
    ensures |set x | x in s| == |s|
  {
    if s != [] {
      var n := |s| - 1;
      NoDuplicatesLast(s);
      SetOfDistinct(s[..n]);
      assert s == s[..n] + [s[n]];
      assert (set x | x in s) == (set x | x in s[..n]) + {s[n]};
    }
  }

  // s with its first occurrence of x cut out
  function Without<T(==)>(s: seq<T>, x: T): seq<T> {
    if s == [] then [] else if s[0] == x then s[1..] else [s[0]] + Without(s[1..], x)
  }

  lemma {:induction false} WithoutElements<T>(s: seq<T>, x: T)
    requires NoDuplicates(s)
    ensures NoDuplicates(Without(s, x))
    ensures forall y :: y in Without(s, x) <==> y in s && y != x
    decreases |s|
  {
    if s != [] && s[0] != x {
      var t := s[1..];
      assert forall i, j :: 0 <= i < j < |t| ==> t[i] == s[i + 1] && t[j] == s[j + 1];
      WithoutElements(t, x);
      assert s == [s[0]] + t;
      assert forall k :: 0 <= k < |t| ==> t[k] == s[k + 1] && s[0] != s[k + 1];
      assert s[0] !in Without(t, x);
    } else if s != [] {
      assert s == [s[0]] + s[1..];
      assert forall i, j :: 0 <= i < j < |s| - 1 ==> s[1..][i] == s[i + 1] && s[1..][j] == s[j + 1];
    }
  }

  lemma {:induction false} WithoutCut<T>(s: seq<T>, x: T, i: nat)
    requires i < |s| && s[i] == x && forall k :: 0 <= k < i ==> s[k] != x
    ensures Without(s, x) == s[..i] + s[i + 1..]
  {
    if i > 0 {
      WithoutCut(s[1..], x, i - 1);
      assert s[1..][..i - 1] == s[1..i];
    }
  }

  lemma {:induction false} WithoutAbsent<T>(s: seq<T>, x: T)
    requires x !in s
    ensures Without(s, x) == s
  {
    if s != [] {
      WithoutAbsent(s[1..], x);
    }
  }
}
