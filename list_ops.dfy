/**
 * The semantics of the System.Collections.Generic.List<T> operations the light
 * registry relies on (IndexOf, Contains, Remove, Insert, Add) on sequences, and
 * the facts about sorted insertion that InsertLight rests on.
 */
module ListOps {

  /** List.IndexOf: the first index holding x, or -1. */
  function IndexOf<T(==)>(s: seq<T>, x: T): (i: int)
    ensures -1 <= i < |s|
    ensures i == -1 <==> x !in s
    ensures 0 <= i ==> s[i] == x && x !in s[..i]
  {
    if |s| == 0 then -1
    else if s[0] == x then 0
    else
      var j := IndexOf(s[1..], x);
      assert s[1..][..if j < 0 then 0 else j] == s[1..1 + if j < 0 then 0 else j];
      if j < 0 then -1 else j + 1
  }

  /** List.RemoveAt. */
  function RemoveAt<T>(s: seq<T>, i: nat): (r: seq<T>)
    requires i < |s|
    ensures |r| == |s| - 1
    ensures forall k :: 0 <= k < i ==> r[k] == s[k]
    ensures forall k :: i <= k < |r| ==> r[k] == s[k + 1]
  {
    s[..i] + s[i + 1..]
  }

  /** List.Remove: drops the first occurrence of x; without one, nothing changes. */
  function RemoveFirst<T(==)>(s: seq<T>, x: T): seq<T> {
    if x in s then RemoveAt(s, IndexOf(s, x)) else s
  }

  /** List.Insert(i, x). */
  function InsertAt<T>(s: seq<T>, i: nat, x: T): (r: seq<T>)
    requires i <= |s|
    ensures |r| == |s| + 1 && r[i] == x
    ensures forall k :: 0 <= k < i ==> r[k] == s[k]
    ensures forall k :: i < k < |r| ==> r[k] == s[k - 1]
  {
    s[..i] + [x] + s[i..]
  }

  /** Removing the first occurrence takes exactly one copy of x out, or none when absent. */
  lemma RemoveFirstMultiset<T>(s: seq<T>, x: T)
    ensures multiset(RemoveFirst(s, x)) == multiset(s) - multiset{x}
    ensures |RemoveFirst(s, x)| == if x in s then |s| - 1 else |s|
  {
    if x in s {
      var i := IndexOf(s, x);
      calc {
        multiset(s);
        { assert s == s[..i] + [x] + s[i + 1..]; }
        multiset(s[..i]) + multiset{x} + multiset(s[i + 1..]);
      }
      assert RemoveFirst(s, x) == s[..i] + s[i + 1..];
    } else {
      assert multiset(s)[x] == 0;
      assert multiset(s) - multiset{x} == multiset(s);
    }
  }

  /** Removing the first occurrence keeps every other element and its relative order. */
  lemma RemoveFirstIsSubsequence<T>(s: seq<T>, x: T)
    ensures x in s ==> exists i :: 0 <= i < |s| && s[i] == x && x !in s[..i] && RemoveFirst(s, x) == s[..i] + s[i + 1..]
    ensures x !in s ==> RemoveFirst(s, x) == s
  {
    if x in s {
      var i := IndexOf(s, x);
      assert s[i] == x && x !in s[..i] && RemoveFirst(s, x) == s[..i] + s[i + 1..];
    }
  }

  /** Remove only ever drops an element. */
  lemma RemoveFirstSubset<T>(s: seq<T>, x: T)
    ensures forall y :: y in RemoveFirst(s, x) ==> y in s
  {
    RemoveFirstMultiset(s, x);
    forall y | y in RemoveFirst(s, x) ensures y in s {
      assert multiset(RemoveFirst(s, x))[y] > 0;
    }
  }

  /** An element with at most one occurrence is gone after Remove. */
  lemma RemoveFirstSingleOccurrence<T>(s: seq<T>, x: T)
    requires multiset(s)[x] <= 1
    ensures x !in RemoveFirst(s, x)
    ensures forall y :: y != x ==> (y in RemoveFirst(s, x) <==> y in s)
  {
    RemoveFirstMultiset(s, x);
    var r := RemoveFirst(s, x);
    assert multiset(r)[x] == 0;
    forall y | y != x ensures y in r <==> y in s {
      assert multiset(r)[y] == multiset(s)[y];
    }
  }

  /** Remove followed by Add: x ends up last, once, wherever it was. */
  function MoveToEnd<T(==)>(s: seq<T>, x: T): seq<T> {
    var r := RemoveFirst(s, x);
    if x in r then r else r + [x]
  }

  /**
   * For an element present at most once, MoveToEnd leaves exactly one copy of it,
   * in last place, behind every other element in its old relative order.
   */
  lemma MoveToEndSingle<T>(s: seq<T>, x: T)
    requires multiset(s)[x] <= 1
    ensures MoveToEnd(s, x) == RemoveFirst(s, x) + [x]
    ensures multiset(MoveToEnd(s, x))[x] == 1
    ensures x !in RemoveFirst(s, x)
  {
    RemoveFirstSingleOccurrence(s, x);
    RemoveFirstMultiset(s, x);
  }

  /** The index of x's insertion point is unique: any index with the two properties is it. */
  lemma {:induction false} FirstNotLessUnique(keys: seq<int>, key: int, i: nat)
    requires i <= |keys|
    requires forall k :: 0 <= k < i ==> keys[k] < key
    requires i < |keys| ==> key <= keys[i]
    ensures i == FirstNotLess(keys, key)
  {
    if |keys| > 0 && key > keys[0] {
      FirstNotLessUnique(keys[1..], key, i - 1);
    }
  }

  predicate Sorted(s: seq<int>) {
    forall i, j :: 0 <= i < j < |s| ==> s[i] <= s[j]
  }

  /**
   * The position InsertLight's scan stops at: it advances while the key being
   * inserted is strictly greater than the key at the current index.
   */
  function FirstNotLess(keys: seq<int>, key: int): (i: nat)
    ensures i <= |keys|
    ensures forall k :: 0 <= k < i ==> keys[k] < key
    ensures i < |keys| ==> key <= keys[i]
  {
    if |keys| == 0 || key <= keys[0] then 0 else 1 + FirstNotLess(keys[1..], key)
  }

  /**
   * Inserting a key at FirstNotLess keeps a sorted sequence sorted, places the new key
   * in front of every equal key, and behind every smaller one.
   */
  lemma {:induction false} InsertSorted(keys: seq<int>, key: int)
    requires Sorted(keys)
    ensures Sorted(InsertAt(keys, FirstNotLess(keys, key), key))
    ensures forall k :: FirstNotLess(keys, key) <= k < |keys| ==> key <= keys[k]
  {
    var i := FirstNotLess(keys, key);
    var r := InsertAt(keys, i, key);
    forall k | i <= k < |keys| ensures key <= keys[k] {
      assert key <= keys[i] <= keys[k];
    }
    forall a, b | 0 <= a < b < |r| ensures r[a] <= r[b] {
      if b == i {
        assert r[a] == keys[a];
      } else if a == i {
        assert r[b] == keys[b - 1];
      } else if b < i {
      } else if a > i {
        assert r[a] == keys[a - 1] && r[b] == keys[b - 1];
      } else {
        assert a < i < b;
        assert r[a] == keys[a] && r[b] == keys[b - 1];
      }
    }
  }

  /** Deleting one element of a sorted sequence leaves it sorted. */
  lemma RemoveAtSorted(keys: seq<int>, i: nat)
    requires i < |keys| && Sorted(keys)
    ensures Sorted(RemoveAt(keys, i))
  {
    var r := RemoveAt(keys, i);
    forall a, b | 0 <= a < b < |r| ensures r[a] <= r[b] {
      var a' := if a < i then a else a + 1;
      var b' := if b < i then b else b + 1;
      assert r[a] == keys[a'] && r[b] == keys[b'] && a' < b';
    }
  }
}
