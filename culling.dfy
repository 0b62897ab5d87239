/**
 * The numbering SetupCulling gives the lights: the buckets are walked in
 * bucket-major list order, and every live light takes the next culling index and
 * the matching bounding-sphere slot. The facts here are about any sequence of
 * entries with a liveness mask; the light class supplies both.
 */
module Culling {
  import opened Values

  /** The buckets one after the other, as the nested loops visit them. */
  function Flatten<T>(bs: seq<seq<T>>): (flat: seq<T>)
    decreases |bs|
  {
    if |bs| == 0 then [] else Flatten(bs[..|bs| - 1]) + bs[|bs| - 1]
  }

  lemma {:induction false} FlattenAppend<T>(a: seq<seq<T>>, c: seq<seq<T>>)
    ensures Flatten(a + c) == Flatten(a) + Flatten(c)
    decreases |c|
  {
    if |c| > 0 {
      var c' := c[..|c| - 1];
      assert (a + c)[..|a + c| - 1] == a + c';
      FlattenAppend(a, c');
    } else {
      assert a + c == a;
    }
  }

  /** The buckets before b, then the first j entries of bucket b, form a prefix of the walk. */
  lemma FlattenPrefix<T>(bs: seq<seq<T>>, b: nat, j: nat)
    requires b < |bs| && j <= |bs[b]|
    ensures |Flatten(bs[..b])| + j <= |Flatten(bs)|
    ensures Flatten(bs)[..|Flatten(bs[..b])| + j] == Flatten(bs[..b]) + bs[b][..j]
  {
    assert bs == bs[..b] + ([bs[b]] + bs[b + 1..]);
    FlattenAppend(bs[..b], [bs[b]] + bs[b + 1..]);
    FlattenAppend([bs[b]], bs[b + 1..]);
    assert Flatten([bs[b]]) == bs[b] by {
      assert [bs[b]][..0] == [];
    }
  }

  lemma FlattenStep<T>(bs: seq<seq<T>>, b: nat)
    requires b < |bs|
    ensures Flatten(bs[..b + 1]) == Flatten(bs[..b]) + bs[b]
  {
    assert bs[..b + 1][..b] == bs[..b];
  }

  /** The number of live entries among the first n: the culling index entry n would take. */
  function AliveBefore(alive: seq<bool>, n: nat): (c: nat)
    requires n <= |alive|
    ensures c <= n
  {
    if n == 0 then 0 else AliveBefore(alive, n - 1) + (if alive[n - 1] then 1 else 0)
  }

  /** The live entries among the first n, in walk order: the owners of the filled sphere slots. */
  function Survivors<T>(flat: seq<T>, alive: seq<bool>, n: nat): (s: seq<T>)
    requires |alive| == |flat| && n <= |flat|
    ensures |s| == AliveBefore(alive, n)
  {
    if n == 0 then []
    else Survivors(flat, alive, n - 1) + (if alive[n - 1] then [flat[n - 1]] else [])
  }

  /**
   * The sphere array after the first n entries are walked: one slot per bucket
   * entry, the first ones holding the live lights' spheres in walk order, the rest
   * still at their default (None).
   */
  function SpheresAfter<T>(flat: seq<T>, alive: seq<bool>, n: nat): (sp: seq<Option<T>>)
    requires |alive| == |flat| && n <= |flat|
    ensures |sp| == |flat|
  {
    var s := Survivors(flat, alive, n);
    seq(|flat|, k requires 0 <= k < |flat| => if k < |s| then Some(s[k]) else None)
  }

  /** The sphere array SetupCulling hands to the culling group. */
  function Spheres<T>(flat: seq<T>, alive: seq<bool>): (sp: seq<Option<T>>)
    requires |alive| == |flat|
    ensures |sp| == |flat|
  {
    SpheresAfter(flat, alive, |flat|)
  }

  /** Before the walk every slot is at its default. */
  lemma SpheresAfterNone<T>(flat: seq<T>, alive: seq<bool>)
    requires |alive| == |flat|
    ensures SpheresAfter(flat, alive, 0) == seq(|flat|, k => None)
  {
  }

  /** One step of the walk: a live entry fills the next slot, a dead one changes nothing. */
  lemma SpheresAfterStep<T>(flat: seq<T>, alive: seq<bool>, n: nat)
    requires |alive| == |flat| && n < |flat|
    ensures AliveBefore(alive, n) < |flat|
    ensures SpheresAfter(flat, alive, n + 1) ==
      if alive[n] then SpheresAfter(flat, alive, n)[AliveBefore(alive, n) := Some(flat[n])] else SpheresAfter(flat, alive, n)
  {
  }

  /**
   * The culling index x holds after the first n entries are walked: the index given
   * to its last live occurrence, or the index it had before when it has none.
   */
  function AssignedIndex<T(==)>(flat: seq<T>, alive: seq<bool>, x: T, n: nat, initial: int): int
    requires |alive| == |flat| && n <= |flat|
  {
    if n == 0 then initial
    else if alive[n - 1] && flat[n - 1] == x then AliveBefore(alive, n - 1)
    else AssignedIndex(flat, alive, x, n - 1, initial)
  }

  predicate NoDuplicates<T(==)>(s: seq<T>) {
    forall i, j :: 0 <= i < j < |s| ==> s[i] != s[j]
  }

  /** The live entries are numbered consecutively: entry k takes the number of live entries before it. */
  lemma {:induction false} SurvivorAt<T>(flat: seq<T>, alive: seq<bool>, n: nat, k: nat)
    requires |alive| == |flat| && k < n <= |flat| && alive[k]
    ensures AliveBefore(alive, k) < AliveBefore(alive, n)
    ensures Survivors(flat, alive, n)[AliveBefore(alive, k)] == flat[k]
  {
    if n - 1 > k {
      SurvivorAt(flat, alive, n - 1, k);
    }
  }

  /** Every number below the live count is taken by exactly one live entry. */
  lemma {:induction false} SurvivorsAreLive<T>(flat: seq<T>, alive: seq<bool>, n: nat, r: nat)
    requires |alive| == |flat| && n <= |flat| && r < AliveBefore(alive, n)
    ensures exists k :: 0 <= k < n && alive[k] && AliveBefore(alive, k) == r && Survivors(flat, alive, n)[r] == flat[k]
  {
    if r < AliveBefore(alive, n - 1) {
      SurvivorsAreLive(flat, alive, n - 1, r);
      var k :| 0 <= k < n - 1 && alive[k] && AliveBefore(alive, k) == r && Survivors(flat, alive, n - 1)[r] == flat[k];
      assert Survivors(flat, alive, n)[r] == flat[k];
    } else {
      assert alive[n - 1] && AliveBefore(alive, n - 1) == r;
    }
  }

  /** Distinct live entries get distinct numbers, so no two lights share a culling index. */
  lemma RanksDistinct<T>(flat: seq<T>, alive: seq<bool>, k1: nat, k2: nat)
    requires |alive| == |flat| && k1 < k2 < |flat| && alive[k1] && alive[k2]
    ensures AliveBefore(alive, k1) < AliveBefore(alive, k2)
  {
    SurvivorAt(flat, alive, k2, k1);
  }

  /**
   * Without duplicate entries, every live light ends with the number of live
   * entries before it, and its own bounding sphere sits in that slot.
   */
  lemma {:induction false} AssignedIndexOfLive<T>(flat: seq<T>, alive: seq<bool>, k: nat, n: nat, initial: int)
    requires |alive| == |flat| && NoDuplicates(flat) && k < n <= |flat| && alive[k]
    ensures AssignedIndex(flat, alive, flat[k], n, initial) == AliveBefore(alive, k)
    ensures Spheres(flat, alive)[AliveBefore(alive, k)] == Some(flat[k])
  {
    if n - 1 > k {
      AssignedIndexOfLive(flat, alive, k, n - 1, initial);
    } else {
      SurvivorAt(flat, alive, |flat|, k);
    }
  }

  /** A light with no live entry keeps the culling index it had. */
  lemma {:induction false} AssignedIndexOfAbsent<T>(flat: seq<T>, alive: seq<bool>, x: T, n: nat, initial: int)
    requires |alive| == |flat| && n <= |flat|
    requires forall k :: 0 <= k < n && flat[k] == x ==> !alive[k]
    ensures AssignedIndex(flat, alive, x, n, initial) == initial
  {
    if n > 0 {
      AssignedIndexOfAbsent(flat, alive, x, n - 1, initial);
    }
  }

  /** Sphere slot r holds the sphere of live entry k. */
  predicate OwnsSlot<T(==)>(flat: seq<T>, alive: seq<bool>, r: nat, k: nat)
    requires |alive| == |flat|
  {
    k < |flat| && alive[k] && AliveBefore(alive, k) == r && r < |flat| && Spheres(flat, alive)[r] == Some(flat[k])
  }

  /**
   * The sphere slots hold the live entries exactly: the first AliveBefore slots in
   * walk order, then defaults; the number of live entries is at most the number
   * of slots.
   */
  lemma SpheresHoldLiveEntries<T>(flat: seq<T>, alive: seq<bool>)
    requires |alive| == |flat|
    ensures AliveBefore(alive, |flat|) <= |Spheres(flat, alive)|
    ensures forall r :: 0 <= r < |flat| ==>
      (Spheres(flat, alive)[r].Some? <==> r < AliveBefore(alive, |flat|))
    ensures forall r :: 0 <= r < |flat| && Spheres(flat, alive)[r].Some? ==> exists k: nat :: OwnsSlot(flat, alive, r, k)
  {
    forall r | 0 <= r < |flat| && Spheres(flat, alive)[r].Some?
      ensures exists k: nat :: OwnsSlot(flat, alive, r, k)
    {
      SurvivorsAreLive(flat, alive, |flat|, r);
      var k :| 0 <= k < |flat| && alive[k] && AliveBefore(alive, k) == r && Survivors(flat, alive, |flat|)[r] == flat[k];
      assert OwnsSlot(flat, alive, r, k);
    }
  }
}
