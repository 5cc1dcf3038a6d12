/** The rolling and the weak checksum of config/hive/hivesum.c. */
module RunningSums {
  import opened ByteMemory

  function Sum(s: Image): nat {
    if s == [] then 0 else Sum(s[..|s| - 1]) + s[|s| - 1]
  }

  lemma {:induction false} SumAppend(x: Image, y: Image)
    ensures Sum(x + y) == Sum(x) + Sum(y)
    decreases |y|
  {
    if y == [] {
      assert x + y == x;
    } else {
      assert (x + y)[..|x + y| - 1] == x + y[..|y| - 1];
      SumAppend(x, y[..|y| - 1]);
    }
  }

  lemma SumHead(s: Image)
    requires s != []
    ensures Sum(s) == s[0] + Sum(s[1..])
  {
    assert s == [s[0]] + s[1..];
    SumAppend([s[0]], s[1..]);
    assert Sum([s[0]]) == s[0];
  }

  /** Sliding by one byte drops the first of the window and takes in the next. */
  lemma SlideWindow(data: Image, lo: nat, hi: nat)
    requires lo < hi < |data|
    ensures Sum(data[lo + 1..hi + 1]) == Sum(data[lo..hi]) - data[lo] + data[hi]
  {
    SumHead(data[lo..hi + 1]);
    assert data[lo..hi + 1][1..] == data[lo + 1..hi + 1];
    assert data[lo..hi + 1][..hi - lo] == data[lo..hi];
  }

  /** HiveCalculateRollingChecksum: however long the buffer, the sum of its last window. */
  method RollingChecksumOf(data: Image, window: nat) returns (checksum: nat)
    ensures window == 0 || window > |data| ==> checksum == 0
    ensures 0 < window <= |data| ==> checksum == Sum(data[|data| - window..]) % TWO_32
  {
    hide Sum;
    if |data| == 0 || window == 0 || window > |data| {
      return 0;
    }
    checksum := 0;
    var i := 0;
    EmptySum(data[..0]);
    while i < window
      invariant 0 <= i <= window
      invariant checksum == Sum(data[..i]) % TWO_32
    {
      SumSnoc(data, i);
      checksum := (checksum + data[i]) % TWO_32;
      i := i + 1;
    }
    i := window;
    assert data[0..window] == data[..window];
    while i < |data|
      invariant window <= i <= |data|
      invariant checksum == Sum(data[i - window..i]) % TWO_32
    {
      SlideWindow(data, i - window, i);
      checksum := (checksum - data[i - window] + data[i]) % TWO_32;
      i := i + 1;
    }
    assert data[|data| - window..] == data[i - window..i];
  }

  lemma EmptySum(s: Image)
    ensures |s| == 0 ==> Sum(s) == 0
  {
  }

  lemma SumSnoc(data: Image, i: nat)
    requires i < |data|
    ensures Sum(data[..i + 1]) == Sum(data[..i]) + data[i]
  {
    assert data[..i + 1][..i] == data[..i];
  }

  // ----- The weak checksum

  const WEAK_MODULUS: int := 65521

  /** The sum of the sums of all prefixes: each byte counted once for itself and every later one. */
  function Weighted(s: Image): nat {
    if s == [] then 0 else Weighted(s[..|s| - 1]) + Sum(s)
  }

  function Weak(s: Image): nat {
    Weighted(s) % WEAK_MODULUS * TWO_16 + Sum(s) % WEAK_MODULUS
  }

  /** HiveCalculateWeakChecksum. */
  method WeakChecksumOf(data: Image) returns (checksum: nat)
    ensures checksum == Weak(data) < TWO_32
    ensures checksum == Weighted(data) % 65521 * 0x1_0000 + Sum(data) % 65521
  {
    hide Sum, Weighted;
    EmptySum(data[..0]);
    EmptyWeighted(data[..0]);
    if |data| == 0 {
      assert data == data[..0];
      return 0;
    }
    var sum1, sum2 := 0, 0;
    var i := 0;
    while i < |data|
      invariant 0 <= i <= |data|
      invariant sum1 == Sum(data[..i]) % WEAK_MODULUS
      invariant sum2 == Weighted(data[..i]) % WEAK_MODULUS
    {
      SumSnoc(data, i);
      WeightedSnoc(data, i);
      sum1 := (sum1 + data[i]) % WEAK_MODULUS;
      sum2 := (sum2 + sum1) % WEAK_MODULUS;
      i := i + 1;
    }
    assert data[..i] == data;
    checksum := sum2 * TWO_16 + sum1;
  }

  lemma EmptyWeighted(s: Image)
    ensures |s| == 0 ==> Weighted(s) == 0
  {
  }

  lemma WeightedSnoc(data: Image, i: nat)
    requires i < |data|
    ensures Weighted(data[..i + 1]) == Weighted(data[..i]) + Sum(data[..i + 1])
  {
    assert data[..i + 1][..i] == data[..i];
  }

  lemma {:induction false} WeightedAppend(x: Image, y: Image)
    ensures Weighted(x + y) == Weighted(x) + |y| * Sum(x) + Weighted(y)
    decreases |y|
  {
    if y == [] {
      assert x + y == x;
    } else {
      var init := y[..|y| - 1];
      assert (x + y)[..|x + y| - 1] == x + init;
      WeightedAppend(x, init);
      SumAppend(x, y);
      assert |y| * Sum(x) == |init| * Sum(x) + Sum(x);
    }
  }

  lemma PairSums(a: Byte, b: Byte)
    ensures Sum([a, b]) == a + b && Weighted([a, b]) == 2 * a + b
  {
    assert [a, b][..1] == [a];
    assert Sum([a]) == a && Weighted([a]) == a;
  }

  /** The weak checksum notices two neighbouring bytes changing places. */
  lemma SwapChangesWeak(before: Image, a: Byte, b: Byte, after: Image)
    requires a != b
    ensures Weak(before + [a, b] + after) != Weak(before + [b, a] + after)
  {
    hide Sum, Weighted;
    PairSums(a, b);
    PairSums(b, a);
    AroundPair(before, [a, b], after);
    AroundPair(before, [b, a], after);
    var base := Weighted(before) + 2 * Sum(before) + |after| * (Sum(before) + (a + b)) + Weighted(after);
    assert Weighted(before + [a, b] + after) == base + 2 * a + b;
    assert Weighted(before + [b, a] + after) == base + 2 * b + a;
    CloseResidues(base + 2 * a + b, base + 2 * b + a);
    DistinctHalves(Weighted(before + [a, b] + after) % WEAK_MODULUS, Weighted(before + [b, a] + after) % WEAK_MODULUS,
                   Sum(before + [a, b] + after) % WEAK_MODULUS, Sum(before + [b, a] + after) % WEAK_MODULUS);
  }

  lemma AroundPair(before: Image, s: Image, after: Image)
    ensures Weighted(before + s + after)
         == Weighted(before) + |s| * Sum(before) + Weighted(s) + |after| * (Sum(before) + Sum(s)) + Weighted(after)
    ensures Sum(before + s + after) == Sum(before) + Sum(s) + Sum(after)
  {
    hide Sum, Weighted;
    WeightedAppend(before + s, after);
    WeightedAppend(before, s);
    SumAppend(before, s);
    SumAppend(before + s, after);
  }

  lemma CloseResidues(x: nat, y: nat)
    requires x != y && -WEAK_MODULUS < x - y < WEAK_MODULUS
    ensures x % WEAK_MODULUS != y % WEAK_MODULUS
  {
  }

  lemma DistinctHalves(h: nat, k: nat, l: nat, m: nat)
    requires h != k && l < TWO_16 && m < TWO_16
    ensures h * TWO_16 + l != k * TWO_16 + m
  {
  }

  /** It notices any one byte changing. */
  lemma ByteChangesWeak(before: Image, a: Byte, b: Byte, after: Image)
    requires a != b
    ensures Weak(before + [a] + after) != Weak(before + [b] + after)
  {
    hide Sum, Weighted;
    AroundPair(before, [a], after);
    AroundPair(before, [b], after);
    OneSum(a);
    OneSum(b);
    CloseResidues(Sum(before) + a + Sum(after), Sum(before) + b + Sum(after));
    DistinctLows(Weighted(before + [a] + after) % WEAK_MODULUS, Weighted(before + [b] + after) % WEAK_MODULUS,
                 Sum(before + [a] + after) % WEAK_MODULUS, Sum(before + [b] + after) % WEAK_MODULUS);
  }

  lemma OneSum(a: Byte)
    ensures Sum([a]) == a
  {
  }

  lemma DistinctLows(h: nat, k: nat, l: nat, m: nat)
    requires l != m && l < TWO_16 && m < TWO_16
    ensures h * TWO_16 + l != k * TWO_16 + m
  {
  }
}
