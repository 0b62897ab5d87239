/**
 * The editor-only shape-path hash of Light2D (GetShapePathHash): an FNV-1 style
 * fold over the points of the path in 32-bit unchecked arithmetic. A 32-bit
 * value is kept as its unsigned bit pattern, an integer below 2^32; wrap-around
 * of the multiplication is the explicit `% 2^32`, and `^` is the bitwise
 * exclusive or written out bit by bit. How a single point hashes
 * (Vector3.GetHashCode) is a parameter of the model.
 */
module PathHash {
  import opened Values

  const Modulus := 0x1_0000_0000

  /** A 32-bit value, as its unsigned bit pattern. */
  type U32 = x: int | 0 <= x < Modulus

  /** (int)2166136261 under `unchecked`: the FNV offset basis. */
  const FnvOffset: U32 := 0x811C_9DC5
  /** 16777619, the FNV prime. */
  const FnvPrime := 0x0100_0193
  /** The multiplicative inverse of the FNV prime modulo 2^32 (the prime is odd). */
  const FnvPrimeInverse := 0x359C_449B

  function Pow2(n: nat): (p: nat)
    ensures p >= 1
  {
    if n == 0 then 1 else 2 * Pow2(n - 1)
  }

  lemma {:induction false} Pow2Add(a: nat, b: nat)
    ensures Pow2(a + b) == Pow2(a) * Pow2(b)
  {
    if a > 0 {
      Pow2Add(a - 1, b);
    }
  }

  lemma Pow2Is32Bits()
    ensures Pow2(32) == Modulus
  {
    assert Pow2(8) == 256;
    Pow2Add(8, 8);
    Pow2Add(16, 16);
  }

  /** Bitwise exclusive or of the low n bits of a and b. */
  function XorBits(a: nat, b: nat, n: nat): (r: nat)
    ensures r < Pow2(n)
  {
    if n == 0 then 0 else (a % 2 + b % 2) % 2 + 2 * XorBits(a / 2, b / 2, n - 1)
  }

  /** C# `^` on 32-bit values. */
  function Xor(a: U32, b: U32): U32 {
    Pow2Is32Bits();
    XorBits(a, b, 32)
  }

  /** A bit and the rest: x is its low bit plus twice its upper bits. */
  lemma BitSplit(low: nat, rest: nat)
    requires low < 2
    ensures (low + 2 * rest) % 2 == low && (low + 2 * rest) / 2 == rest
  {
  }

  /** Dropping the low bit of an (n + 1)-bit value leaves an n-bit value. */
  lemma HalfBelow(a: nat, n: nat)
    requires a < Pow2(n + 1)
    ensures a / 2 < Pow2(n) && a == a % 2 + 2 * (a / 2)
  {
  }

  /** Exclusive or with the same value twice is the identity on n-bit values. */
  lemma {:induction false} XorBitsTwice(a: nat, v: nat, n: nat)
    requires a < Pow2(n)
    ensures XorBits(XorBits(a, v, n), v, n) == a
  {
    if n > 0 {
      var low := (a % 2 + v % 2) % 2;
      var rest := XorBits(a / 2, v / 2, n - 1);
      var x := low + 2 * rest;
      assert XorBits(a, v, n) == x;
      BitSplit(low, rest);
      HalfBelow(a, n - 1);
      XorBitsTwice(a / 2, v / 2, n - 1);
      ParityCancels(a % 2, v % 2);
      XorBitsStep(x, v, n);
    }
  }

  /** One bit of XorBits: the exclusive or of the low bits, then the rest shifted up. */
  lemma XorBitsStep(a: nat, b: nat, n: nat)
    requires n > 0
    ensures XorBits(a, b, n) == (a % 2 + b % 2) % 2 + 2 * XorBits(a / 2, b / 2, n - 1)
  {
  }

  /** Adding the same bit twice, modulo 2, gives back the first bit. */
  lemma ParityCancels(p: nat, q: nat)
    requires p < 2 && q < 2
    ensures ((p + q) % 2 + q) % 2 == p
  {
  }

  /** 32-bit unchecked multiplication by the FNV prime. */
  function MulPrime(h: U32): U32 {
    (h * FnvPrime) % Modulus
  }

  /** Multiplying by the inverse undoes MulPrime: FnvPrime * FnvPrimeInverse == 1 + 3513497 * 2^32. */
  lemma MulPrimeInvertible(h: U32)
    ensures (MulPrime(h) * FnvPrimeInverse) % Modulus == h
  {
    var x: int := h;
    var k := (x * 16777619) / 0x1_0000_0000;
    var r: int := MulPrime(h);
    assert r == x * 16777619 - k * 0x1_0000_0000;
    assert r * 899433627 == x * 15090354709594113 - k * 3863038012887662592;
    var j := x * 3513497 - k * 899433627;
    assert r * 899433627 == x + j * 0x1_0000_0000;
    ModMultiple(h, j);
  }

  lemma ModMultiple(h: U32, j: int)
    ensures (h + j * Modulus) % Modulus == h
  {
  }

  /** One step of the fold: `hashCode * 16777619 ^ point.GetHashCode()`. */
  function Step(h: U32, pointHash: U32): U32 {
    Xor(MulPrime(h), pointHash)
  }

  /** The hash of a non-null path: the fold of Step over its points, from the offset basis. */
  function Fold(points: seq<Vec3>, pointHash: Vec3 -> U32): U32 {
    if |points| == 0 then FnvOffset
    else Step(Fold(points[..|points| - 1], pointHash), pointHash(points[|points| - 1]))
  }

  /** GetShapePathHash: 0 for a null path, the fold otherwise. */
  function ShapePathHash(path: Option<seq<Vec3>>, pointHash: Vec3 -> U32): U32 {
    match path
    case None => 0
    case Some(points) => Fold(points, pointHash)
  }

  /** The step loses nothing about the running hash: it is injective in it. */
  lemma StepInjective(h1: U32, h2: U32, v: U32)
    requires Step(h1, v) == Step(h2, v)
    ensures h1 == h2
  {
    Pow2Is32Bits();
    XorBitsTwice(MulPrime(h1), v, 32);
    XorBitsTwice(MulPrime(h2), v, 32);
    assert MulPrime(h1) == MulPrime(h2);
    MulPrimeInvertible(h1);
    MulPrimeInvertible(h2);
  }

  /** For distinct point hashes, the step from the same running hash gives distinct results. */
  lemma StepSeparatesPoints(h: U32, v1: U32, v2: U32)
    requires v1 != v2
    ensures Step(h, v1) != Step(h, v2)
  {
    Pow2Is32Bits();
    XorBitsTwice(v1, MulPrime(h), 32);
    XorBitsTwice(v2, MulPrime(h), 32);
    XorCommutes(MulPrime(h), v1, 32);
    XorCommutes(MulPrime(h), v2, 32);
    XorCommutes(Step(h, v1), MulPrime(h), 32);
    XorCommutes(Step(h, v2), MulPrime(h), 32);
  }

  lemma {:induction false} XorCommutes(a: nat, b: nat, n: nat)
    ensures XorBits(a, b, n) == XorBits(b, a, n)
  {
    if n > 0 {
      XorCommutes(a / 2, b / 2, n - 1);
    }
  }

  /**
   * Once two equally long paths differ in their running hash, every later point
   * they share keeps them apart.
   */
  lemma {:induction false} FoldsStayApart(p: seq<Vec3>, q: seq<Vec3>, k: nat, n: nat, pointHash: Vec3 -> U32)
    requires |p| == |q| && k <= n <= |p|
    requires forall i :: k <= i < |p| ==> p[i] == q[i]
    requires Fold(p[..k], pointHash) != Fold(q[..k], pointHash)
    ensures Fold(p[..n], pointHash) != Fold(q[..n], pointHash)
    decreases n - k
  {
    if n > k {
      FoldsStayApart(p, q, k, n - 1, pointHash);
      FoldPrefixStep(p, n, pointHash);
      FoldPrefixStep(q, n, pointHash);
      assert p[n - 1] == q[n - 1];
      if Fold(p[..n], pointHash) == Fold(q[..n], pointHash) {
        StepInjective(Fold(p[..n - 1], pointHash), Fold(q[..n - 1], pointHash), pointHash(p[n - 1]));
      }
    }
  }

  /** The fold of a prefix one point longer is one more step. */
  lemma FoldPrefixStep(p: seq<Vec3>, n: nat, pointHash: Vec3 -> U32)
    requires 0 < n <= |p|
    ensures Fold(p[..n], pointHash) == Step(Fold(p[..n - 1], pointHash), pointHash(p[n - 1]))
  {
    assert p[..n][..n - 1] == p[..n - 1];
  }

  /**
   * Editing one point of a path, so that the point's own hash changes, always
   * changes the path hash: the change detection misses no single-point edit that
   * changes that point's hash.
   */
  lemma SinglePointEditChangesHash(p: seq<Vec3>, q: seq<Vec3>, k: nat, pointHash: Vec3 -> U32)
    requires |p| == |q| && k < |p|
    requires forall i :: 0 <= i < |p| && i != k ==> p[i] == q[i]
    requires pointHash(p[k]) != pointHash(q[k])
    ensures ShapePathHash(Some(p), pointHash) != ShapePathHash(Some(q), pointHash)
  {
    assert p[..k] == q[..k];
    assert p[..k + 1][..k] == p[..k] && q[..k + 1][..k] == q[..k];
    var h := Fold(p[..k], pointHash);
    assert Fold(q[..k], pointHash) == h;
    assert Fold(p[..k + 1], pointHash) == Step(h, pointHash(p[k]));
    assert Fold(q[..k + 1], pointHash) == Step(h, pointHash(q[k]));
    StepSeparatesPoints(h, pointHash(p[k]), pointHash(q[k]));
    FoldsStayApart(p, q, k + 1, |p|, pointHash);
    assert p[..|p|] == p && q[..|q|] == q;
  }

  /** The fold sees a point only through its hash: paths whose points hash alike fold alike. */
  lemma {:induction false} FoldSeesPointHashes(p: seq<Vec3>, q: seq<Vec3>, pointHash: Vec3 -> U32)
    requires |p| == |q|
    requires forall i :: 0 <= i < |p| ==> pointHash(p[i]) == pointHash(q[i])
    ensures Fold(p, pointHash) == Fold(q, pointHash)
  {
    if |p| > 0 {
      var n := |p| - 1;
      FoldSeesPointHashes(p[..n], q[..n], pointHash);
    }
  }

  /**
   * A single-point edit changes the path hash exactly when it changes that point's
   * hash: an edit to a point with the same Vector3.GetHashCode goes unnoticed.
   */
  lemma SinglePointEditHashIff(p: seq<Vec3>, q: seq<Vec3>, k: nat, pointHash: Vec3 -> U32)
    requires |p| == |q| && k < |p|
    requires forall i :: 0 <= i < |p| && i != k ==> p[i] == q[i]
    ensures ShapePathHash(Some(p), pointHash) != ShapePathHash(Some(q), pointHash)
        <==> pointHash(p[k]) != pointHash(q[k])
  {
    if pointHash(p[k]) != pointHash(q[k]) {
      SinglePointEditChangesHash(p, q, k, pointHash);
    } else {
      FoldSeesPointHashes(p, q, pointHash);
    }
  }

  /** Appending a point extends the fold by one step. */
  lemma FoldAppend(points: seq<Vec3>, v: Vec3, pointHash: Vec3 -> U32)
    ensures Fold(points + [v], pointHash) == Step(Fold(points, pointHash), pointHash(v))
  {
    assert (points + [v])[..|points|] == points;
  }
}
