/**
 * Value-level specification of the radix sorts of integer_sort.h.
 *
 * A key function `g` maps every element to a natural number.  A digit is
 * `(g(x) >> off) & (2^w - 1)`, written here as halvings and low bits.
 * `Buckets(s, key, n)` is what a stable counting sort into n buckets
 * produces: the elements whose key is 0, then those whose key is 1, and so
 * on, each bucket in input order.  `RadixSorted(s, g, bits)` is that sort on
 * the low `bits` bits of g.  The two radix sorts reduce to two identities:
 * a stable pass on the next digit after sorting on the low bits sorts on
 * both (LSD), and sorting every top-digit bucket on the low bits sorts on
 * all bits (MSD).
 */
module RadixSpec {

  /** 2^n, the value of `1 << n`. */
  function Pow2(n: nat): (p: nat)
    ensures p >= 1
  {
    if n == 0 then 1 else 2 * Pow2(n - 1)
  }

  lemma {:induction false} Pow2Add(a: nat, b: nat)
    ensures Pow2(a + b) == Pow2(a) * Pow2(b)
    decreases b
  {
    if b > 0 {
      Pow2Add(a, b - 1);
      assert Pow2(a + b) == 2 * Pow2(a + b - 1);
      assert Pow2(b) == 2 * Pow2(b - 1);
    }
  }

  /** `k >> n`: n halvings. */
  function Shr(k: nat, n: nat): nat
  {
    if n == 0 then k else Shr(k / 2, n - 1)
  }

  /** `k & (2^w - 1)`: the low w bits of k. */
  function LowBits(k: nat, w: nat): (r: nat)
    ensures r < Pow2(w)
  {
    if w == 0 then 0 else k % 2 + 2 * LowBits(k / 2, w - 1)
  }

  /** The digit `(k >> off) & (2^w - 1)`. */
  function Digit(k: nat, off: nat, w: nat): (d: nat)
    ensures d < Pow2(w)
  {
    LowBits(Shr(k, off), w)
  }

  /** The arithmetic of one LowBitsSplit step, kept apart from the unfolding. */
  lemma SplitStepArith(c: nat, l: nat, p: nat, x: nat, q: nat)
    requires q == 2 * p
    ensures c + 2 * (l + p * x) == (c + 2 * l) + q * x
  {
  }

  lemma LowBitsSplitStep(k: nat, a: nat, b: nat)
    requires a > 0
    requires LowBits(k / 2, a - 1 + b) == LowBits(k / 2, a - 1) + Pow2(a - 1) * LowBits(Shr(k / 2, a - 1), b)
    ensures LowBits(k, a + b) == LowBits(k, a) + Pow2(a) * LowBits(Shr(k, a), b)
  {
    assert Shr(k, a) == Shr(k / 2, a - 1);
    assert LowBits(k, a + b) == k % 2 + 2 * LowBits(k / 2, a - 1 + b);
    SplitStepArith(k % 2, LowBits(k / 2, a - 1), Pow2(a - 1), LowBits(Shr(k, a), b), Pow2(a));
  }

  lemma {:induction false} LowBitsSplit(k: nat, a: nat, b: nat)
    ensures LowBits(k, a + b) == LowBits(k, a) + Pow2(a) * LowBits(Shr(k, a), b)
    decreases a
  {
    if a > 0 {
      LowBitsSplit(k / 2, a - 1, b);
      LowBitsSplitStep(k, a, b);
    }
  }

  /** The low a+b bits of k are its low a bits plus 2^a times the next b bits. */
  lemma DigitSplit(k: nat, a: nat, b: nat)
    ensures Digit(k, 0, a + b) == Digit(k, 0, a) + Pow2(a) * Digit(k, a, b)
  {
    LowBitsSplit(k, a, b);
  }

  lemma Distrib(p: int, h: int, d: int)
    ensures p * (h + d) == p * h + p * d
  {
  }

  lemma MulAtLeast(p: nat, d: nat)
    requires d >= 1
    ensures p * d >= p
  {
  }

  lemma MulGap(p: nat, y: nat, h: nat)
    requires y > h
    ensures p * y >= p * h + p
  {
    Distrib(p, h, y - h);
    MulAtLeast(p, y - h);
  }

  /** Mixed-radix uniqueness: x + p*y determines x and y when x < p. */
  lemma PairUnique(p: nat, x: nat, y: nat, l: nat, h: nat)
    requires x < p && l < p
    ensures x + p * y == l + p * h <==> x == l && y == h
  {
    if y > h {
      MulGap(p, y, h);
    } else if y < h {
      MulGap(p, h, y);
    }
  }

  /** A key below 2^w is its own w-bit digit at offset 0. */
  lemma {:induction false} LowBitsOfSmall(k: nat, w: nat)
    requires k < Pow2(w)
    ensures LowBits(k, w) == k
    decreases w
  {
    if w > 0 {
      LowBitsOfSmall(k / 2, w - 1);
    }
  }

  lemma DigitOfSmallKey(k: nat, w: nat)
    requires k < Pow2(w)
    ensures Digit(k, 0, w) == k
  {
    LowBitsOfSmall(k, w);
  }

  /** The key `x => (g(x) >> off) & (2^w - 1)` that one counting-sort pass buckets by. */
  function DigitKey<T>(g: T -> nat, off: nat, w: nat): T -> nat
  {
    x => Digit(g(x), off, w)
  }

  lemma DigitKeyAt<T>(g: T -> nat, off: nat, w: nat, x: T)
    ensures DigitKey(g, off, w)(x) == Digit(g(x), off, w)
  {
  }

  /** The elements of s whose key is v, in input order. */
  function Select<T>(s: seq<T>, key: T -> nat, v: nat): seq<T>
    decreases |s|
  {
    if s == [] then []
    else
      var last := s[|s| - 1];
      Select(s[..|s| - 1], key, v) + (if key(last) == v then [last] else [])
  }

  /** Buckets 0 .. n-1 of s by key, concatenated: a stable counting sort into n buckets. */
  function Buckets<T>(s: seq<T>, key: T -> nat, n: nat): seq<T>
    decreases n
  {
    if n == 0 then [] else Buckets(s, key, n - 1) + Select(s, key, n - 1)
  }

  /** s sorted stably on the low `bits` bits of g. */
  function RadixSorted<T>(s: seq<T>, g: T -> nat, bits: nat): seq<T>
  {
    Buckets(s, DigitKey(g, 0, bits), Pow2(bits))
  }

  /**
   * Buckets 0 .. h-1 by the key `top`, each bucketed into p buckets by the
   * key `low`: what the recursive case of the MSD sort has produced after h
   * top buckets.
   */
  function SortedBuckets<T>(s: seq<T>, top: T -> nat, low: T -> nat, p: nat, h: nat): seq<T>
    decreases h
  {
    if h == 0 then []
    else SortedBuckets(s, top, low, p, h - 1) + Buckets(Select(s, top, h - 1), low, p)
  }

  /** On s, the key `full` is `low + p * top` with `low < p`: a key split into two digits. */
  ghost predicate KeySplit<T>(s: seq<T>, full: T -> nat, low: T -> nat, top: T -> nat, p: nat)
  {
    forall i :: 0 <= i < |s| ==> low(s[i]) < p && full(s[i]) == low(s[i]) + p * top(s[i])
  }

  /** r is in non-decreasing key order. */
  ghost predicate SortedBy<T>(r: seq<T>, key: T -> nat)
  {
    forall i, j :: 0 <= i < j < |r| ==> key(r[i]) <= key(r[j])
  }

  /** r is a stable sort of s by g: a permutation, ordered by key, each key's elements in input order. */
  ghost predicate IsStableSortOf<T>(r: seq<T>, s: seq<T>, g: T -> nat)
  {
    && multiset(r) == multiset(s)
    && SortedBy(r, g)
    && (forall k: nat :: Select(r, g, k) == Select(s, g, k))
  }

  // ---------------------------------------------------------------------
  // Select algebra

  /** Every selected element has the selected key. */
  lemma {:induction false} SelectKeys<T>(s: seq<T>, key: T -> nat, v: nat)
    ensures forall x :: x in Select(s, key, v) ==> key(x) == v
    decreases |s|
  {
    if s != [] {
      var p, y := s[..|s| - 1], s[|s| - 1];
      SelectKeys(p, key, v);
      var t := if key(y) == v then [y] else [];
      forall x | x in Select(p, key, v) + t ensures key(x) == v {
      }
    }
  }

  lemma BucketsKeysStep<T>(s: seq<T>, key: T -> nat, n: nat)
    requires n > 0
    requires forall x :: x in Buckets(s, key, n - 1) ==> key(x) < n - 1
    ensures forall x :: x in Buckets(s, key, n) ==> key(x) < n
  {
    var a, b := Buckets(s, key, n - 1), Select(s, key, n - 1);
    SelectKeys(s, key, n - 1);
    assert Buckets(s, key, n) == a + b;
    forall x | x in a + b ensures key(x) < n {
      assert x in a || x in b;
    }
  }

  /** Every element of the first n buckets has a key below n. */
  lemma {:induction false} BucketsKeys<T>(s: seq<T>, key: T -> nat, n: nat)
    ensures forall x :: x in Buckets(s, key, n) ==> key(x) < n
    decreases n
  {
    if n > 0 {
      BucketsKeys(s, key, n - 1);
      BucketsKeysStep(s, key, n);
    }
  }

  lemma AppendEmpty<T>(x: seq<T>)
    ensures x + [] == x && [] + x == x
  {
  }

  lemma AppendAssoc<T>(x: seq<T>, y: seq<T>, z: seq<T>)
    ensures (x + y) + z == x + (y + z)
  {
  }

  lemma {:induction false} SelectAppend<T>(a: seq<T>, b: seq<T>, key: T -> nat, v: nat)
    ensures Select(a + b, key, v) == Select(a, key, v) + Select(b, key, v)
    decreases |b|
  {
    if b == [] {
      assert a + b == a;
    } else {
      var b' := b[..|b| - 1];
      assert (a + b)[..|a + b| - 1] == a + b';
      assert (a + b)[|a + b| - 1] == b[|b| - 1];
      SelectAppend(a, b', key, v);
    }
  }

  lemma SelectSingle<T>(x: T, key: T -> nat, v: nat)
    ensures Select([x], key, v) == if key(x) == v then [x] else []
  {
    assert [x][..0] == [];
  }

  /** Extending a prefix by one element extends its filter by that element or nothing. */
  lemma SelectSnoc<T>(s: seq<T>, key: T -> nat, v: nat, k: nat)
    requires k < |s|
    ensures Select(s[..k + 1], key, v) == Select(s[..k], key, v) + (if key(s[k]) == v then [s[k]] else [])
  {
    assert s[..k + 1][..k] == s[..k];
  }

  /** Filtering a prefix gives a prefix of the filtered sequence. */
  lemma SelectPrefix<T>(s: seq<T>, key: T -> nat, v: nat, k: nat)
    requires k <= |s|
    ensures |Select(s[..k], key, v)| <= |Select(s, key, v)|
    ensures Select(s, key, v)[..|Select(s[..k], key, v)|] == Select(s[..k], key, v)
  {
    assert s == s[..k] + s[k..];
    SelectAppend(s[..k], s[k..], key, v);
  }

  /** Two key filters commute. */
  lemma {:induction false} SelectCommute<T>(s: seq<T>, k1: T -> nat, v1: nat, k2: T -> nat, v2: nat)
    ensures Select(Select(s, k1, v1), k2, v2) == Select(Select(s, k2, v2), k1, v1)
    decreases |s|
  {
    if s != [] {
      var p, x := s[..|s| - 1], s[|s| - 1];
      SelectCommute(p, k1, v1, k2, v2);
      var t1 := if k1(x) == v1 then [x] else [];
      var t2 := if k2(x) == v2 then [x] else [];
      SelectAppend(Select(p, k1, v1), t1, k2, v2);
      SelectAppend(Select(p, k2, v2), t2, k1, v1);
      SelectSingle(x, k1, v1);
      SelectSingle(x, k2, v2);
    }
  }

  /** Filtering twice on the same key keeps something only if both values agree. */
  lemma {:induction false} SelectTwice<T>(s: seq<T>, key: T -> nat, v: nat, u: nat)
    ensures Select(Select(s, key, v), key, u) == if v == u then Select(s, key, v) else []
    decreases |s|
  {
    if s != [] {
      var p, x := s[..|s| - 1], s[|s| - 1];
      SelectTwice(p, key, v, u);
      var t := if key(x) == v then [x] else [];
      SelectAppend(Select(p, key, v), t, key, u);
      SelectSingle(x, key, u);
    }
  }

  /** A key that no element has selects nothing. */
  lemma {:induction false} SelectNone<T>(s: seq<T>, key: T -> nat, v: nat)
    requires forall i :: 0 <= i < |s| ==> key(s[i]) != v
    ensures Select(s, key, v) == []
    decreases |s|
  {
    if s != [] {
      SelectNone(s[..|s| - 1], key, v);
    }
  }

  /** A key that every element has selects everything. */
  lemma {:induction false} SelectAll<T>(s: seq<T>, key: T -> nat, v: nat)
    requires forall i :: 0 <= i < |s| ==> key(s[i]) == v
    ensures Select(s, key, v) == s
    decreases |s|
  {
    if s != [] {
      SelectAll(s[..|s| - 1], key, v);
      assert s[..|s| - 1] + [s[|s| - 1]] == s;
    }
  }

  /** Keys that agree on s filter alike. */
  lemma {:induction false} SelectSameKeys<T>(s: seq<T>, k1: T -> nat, k2: T -> nat, v: nat)
    requires forall i :: 0 <= i < |s| ==> k1(s[i]) == k2(s[i])
    ensures Select(s, k1, v) == Select(s, k2, v)
    decreases |s|
  {
    if s != [] {
      SelectSameKeys(s[..|s| - 1], k1, k2, v);
    }
  }

  /** Keys shifted down by m filter like the original keys shifted up by m. */
  lemma {:induction false} SelectShift<T>(s: seq<T>, h: T -> nat, g: T -> nat, m: nat, v: nat)
    requires forall i :: 0 <= i < |s| ==> g(s[i]) >= m && h(s[i]) == g(s[i]) - m
    ensures Select(s, h, v) == Select(s, g, v + m)
    decreases |s|
  {
    if s != [] {
      SelectShift(s[..|s| - 1], h, g, m, v);
    }
  }

  /** Filtering a bucketed sequence is bucketing the filtered sequence. */
  lemma SelectOfBucketsStep<T>(s: seq<T>, k1: T -> nat, n: nat, k2: T -> nat, v: nat)
    requires n > 0
    requires Select(Buckets(s, k1, n - 1), k2, v) == Buckets(Select(s, k2, v), k1, n - 1)
    ensures Select(Buckets(s, k1, n), k2, v) == Buckets(Select(s, k2, v), k1, n)
  {
    SelectAppend(Buckets(s, k1, n - 1), Select(s, k1, n - 1), k2, v);
    SelectCommute(s, k1, n - 1, k2, v);
  }

  lemma {:induction false} SelectOfBuckets<T>(s: seq<T>, k1: T -> nat, n: nat, k2: T -> nat, v: nat)
    ensures Select(Buckets(s, k1, n), k2, v) == Buckets(Select(s, k2, v), k1, n)
    decreases n
  {
    if n > 0 {
      SelectOfBuckets(s, k1, n - 1, k2, v);
      SelectOfBucketsStep(s, k1, n, k2, v);
    }
  }

  // ---------------------------------------------------------------------
  // What a bucketing is: stable, ordered, a permutation

  /** Bucket v of a bucketing holds exactly bucket v of the input, in input order. */
  lemma BucketsStableStep<T>(s: seq<T>, key: T -> nat, n: nat, v: nat)
    requires n > 0
    requires Select(Buckets(s, key, n - 1), key, v) == if v < n - 1 then Select(s, key, v) else []
    ensures Select(Buckets(s, key, n), key, v) == if v < n then Select(s, key, v) else []
  {
    SelectAppend(Buckets(s, key, n - 1), Select(s, key, n - 1), key, v);
    SelectTwice(s, key, n - 1, v);
    AppendEmpty(Select(s, key, v));
  }

  lemma {:induction false} BucketsStable<T>(s: seq<T>, key: T -> nat, n: nat, v: nat)
    ensures Select(Buckets(s, key, n), key, v) == if v < n then Select(s, key, v) else []
    decreases n
  {
    if n > 0 {
      BucketsStable(s, key, n - 1, v);
      BucketsStableStep(s, key, n, v);
    }
  }

  /** Appending a run of key v to a sorted run of smaller keys stays sorted. */
  lemma SortedAppend<T>(a: seq<T>, b: seq<T>, key: T -> nat, v: nat)
    requires SortedBy(a, key)
    requires forall x :: x in a ==> key(x) < v
    requires forall x :: x in b ==> key(x) == v
    ensures SortedBy(a + b, key)
  {
    var r := a + b;
    forall i, j | 0 <= i < j < |r| ensures key(r[i]) <= key(r[j]) {
      if j < |a| {
        assert r[i] == a[i] && r[j] == a[j];
      } else if i < |a| {
        assert r[i] == a[i] && a[i] in a;
        assert r[j] == b[j - |a|] && b[j - |a|] in b;
      } else {
        assert r[i] == b[i - |a|] && b[i - |a|] in b;
        assert r[j] == b[j - |a|] && b[j - |a|] in b;
      }
    }
  }

  lemma BucketsSortedStep<T>(s: seq<T>, key: T -> nat, n: nat)
    requires n > 0
    requires SortedBy(Buckets(s, key, n - 1), key)
    ensures SortedBy(Buckets(s, key, n - 1) + Select(s, key, n - 1), key)
  {
    BucketsKeys(s, key, n - 1);
    SelectKeys(s, key, n - 1);
    SortedAppend(Buckets(s, key, n - 1), Select(s, key, n - 1), key, n - 1);
  }

  /** A bucketing is ordered by key. */
  lemma {:induction false} BucketsSorted<T>(s: seq<T>, key: T -> nat, n: nat)
    ensures SortedBy(Buckets(s, key, n), key)
    decreases n
  {
    if n > 0 {
      BucketsSorted(s, key, n - 1);
      BucketsSortedStep(s, key, n);
    }
  }

  /** The elements of s whose key is below n, in input order. */
  function KeyBelow<T>(s: seq<T>, key: T -> nat, n: nat): seq<T>
    decreases |s|
  {
    if s == [] then []
    else
      var last := s[|s| - 1];
      KeyBelow(s[..|s| - 1], key, n) + (if key(last) < n then [last] else [])
  }

  lemma {:induction false} KeyBelowStep<T>(s: seq<T>, key: T -> nat, n: nat)
    requires n > 0
    ensures multiset(KeyBelow(s, key, n)) == multiset(KeyBelow(s, key, n - 1)) + multiset(Select(s, key, n - 1))
    decreases |s|
  {
    if s != [] {
      var p, x := s[..|s| - 1], s[|s| - 1];
      KeyBelowStep(p, key, n);
      assert KeyBelow(s, key, n) == KeyBelow(p, key, n) + (if key(x) < n then [x] else []);
    }
  }

  lemma {:induction false} KeyBelowAll<T>(s: seq<T>, key: T -> nat, n: nat)
    requires forall i :: 0 <= i < |s| ==> key(s[i]) < n
    ensures KeyBelow(s, key, n) == s
    decreases |s|
  {
    if s != [] {
      KeyBelowAll(s[..|s| - 1], key, n);
      assert s[..|s| - 1] + [s[|s| - 1]] == s;
    }
  }

  lemma {:induction false} KeyBelowNone<T>(s: seq<T>, key: T -> nat)
    ensures KeyBelow(s, key, 0) == []
    decreases |s|
  {
    if s != [] {
      KeyBelowNone(s[..|s| - 1], key);
    }
  }

  lemma BucketsMultisetStep<T>(s: seq<T>, key: T -> nat, n: nat)
    requires n > 0
    requires multiset(Buckets(s, key, n - 1)) == multiset(KeyBelow(s, key, n - 1))
    ensures multiset(Buckets(s, key, n)) == multiset(KeyBelow(s, key, n))
  {
    KeyBelowStep(s, key, n);
  }

  lemma BucketsMultisetBase<T>(s: seq<T>, key: T -> nat, n: nat)
    requires n == 0
    ensures multiset(Buckets(s, key, n)) == multiset(KeyBelow(s, key, n))
  {
    KeyBelowNone(s, key);
    assert Buckets(s, key, n) == [];
  }

  lemma BucketsMultiset<T>(s: seq<T>, key: T -> nat, n: nat)
    ensures multiset(Buckets(s, key, n)) == multiset(KeyBelow(s, key, n))
  {
    BucketsMultisetBase(s, key, 0);
    var m := 0;
    while m < n
      invariant m <= n
      invariant multiset(Buckets(s, key, m)) == multiset(KeyBelow(s, key, m))
    {
      m := m + 1;
      BucketsMultisetStep(s, key, m);
    }
  }

  /** Bucketing keys that are all below n is a permutation. */
  lemma BucketsPermutation<T>(s: seq<T>, key: T -> nat, n: nat)
    requires forall i :: 0 <= i < |s| ==> key(s[i]) < n
    ensures multiset(Buckets(s, key, n)) == multiset(s)
    ensures |Buckets(s, key, n)| == |s|
  {
    BucketsMultiset(s, key, n);
    KeyBelowAll(s, key, n);
    assert |multiset(Buckets(s, key, n))| == |multiset(s)|;
  }

  /** The length half of BucketsPermutation: the buckets exactly fill the input. */
  lemma BucketsLength<T>(s: seq<T>, key: T -> nat, n: nat)
    requires forall i :: 0 <= i < |s| ==> key(s[i]) < n
    ensures |Buckets(s, key, n)| == |s|
  {
    BucketsPermutation(s, key, n);
  }

  // ---------------------------------------------------------------------
  // Bucket boundaries (the offsets a counting sort returns)

  lemma {:induction false} BucketsPrefix<T>(s: seq<T>, key: T -> nat, h: nat, n: nat)
    requires h <= n
    ensures |Buckets(s, key, h)| <= |Buckets(s, key, n)|
    ensures Buckets(s, key, n)[..|Buckets(s, key, h)|] == Buckets(s, key, h)
    decreases n
  {
    if h < n {
      BucketsPrefix(s, key, h, n - 1);
      var p := Buckets(s, key, n - 1);
      assert Buckets(s, key, n)[..|p|] == p;
    }
  }

  /** Bucket h of a bucketing lies between the sizes of its first h and h+1 buckets. */
  lemma BucketSlice<T>(s: seq<T>, key: T -> nat, h: nat, n: nat)
    requires h < n
    ensures |Buckets(s, key, h)| <= |Buckets(s, key, h + 1)| <= |Buckets(s, key, n)|
    ensures Buckets(s, key, n)[|Buckets(s, key, h)|..|Buckets(s, key, h + 1)|] == Select(s, key, h)
  {
    BucketsPrefix(s, key, h + 1, n);
    var r := Buckets(s, key, n);
    var p := Buckets(s, key, h);
    var q := Buckets(s, key, h + 1);
    assert r[..|q|] == q;
    assert r[|p|..|q|] == q[|p|..];
  }

  /** More buckets never hold fewer elements. */
  lemma {:induction false} BucketsMonotone<T>(s: seq<T>, key: T -> nat, h: nat, n: nat)
    requires h <= n
    ensures |Buckets(s, key, h)| <= |Buckets(s, key, n)|
    decreases n
  {
    if h < n {
      BucketsMonotone(s, key, h, n - 1);
    }
  }

  /** The bucket boundaries of Buckets(s, key, n), shifted by base: n + 1 offsets. */
  function Offsets<T>(s: seq<T>, key: T -> nat, n: nat, base: nat): seq<nat>
    decreases n
  {
    if n == 0 then [base] else Offsets(s, key, n - 1, base) + [base + |Buckets(s, key, n)|]
  }

  /** Offset v is where bucket v starts: after the first v buckets. */
  lemma {:induction false} OffsetsAt<T>(s: seq<T>, key: T -> nat, n: nat, base: nat, v: nat)
    requires v <= n
    ensures |Offsets(s, key, n, base)| == n + 1
    ensures Offsets(s, key, n, base)[v] == base + |Buckets(s, key, v)|
    decreases n
  {
    if n > 0 {
      OffsetsAt(s, key, n - 1, base, if v < n then v else 0);
    }
  }

  /** Offsets i and i + 1 delimit bucket i inside the full bucketing. */
  lemma OffsetsBucket<T>(s: seq<T>, key: T -> nat, n: nat, base: nat, i: nat)
    requires i < n
    ensures |Offsets(s, key, n, base)| == n + 1
    ensures base <= Offsets(s, key, n, base)[i] <= Offsets(s, key, n, base)[i + 1] <= base + |Buckets(s, key, n)|
    ensures Buckets(s, key, n)[Offsets(s, key, n, base)[i] - base..Offsets(s, key, n, base)[i + 1] - base]
      == Select(s, key, i)
  {
    OffsetsAt(s, key, n, base, i);
    OffsetsAt(s, key, n, base, i + 1);
    BucketSlice(s, key, i, n);
  }

  // ---------------------------------------------------------------------
  // The radix-sort identities

  /** Bucketing on zero bits changes nothing (the `key_bits == 0` case). */
  lemma RadixSortedNoBits<T>(s: seq<T>, g: T -> nat)
    ensures RadixSorted(s, g, 0) == s
  {
    forall i | 0 <= i < |s| ensures DigitKey(g, 0, 0)(s[i]) == 0 {
      DigitKeyAt(g, 0, 0, s[i]);
    }
    SelectAll(s, DigitKey(g, 0, 0), 0);
    AppendEmpty(s);
  }

  /** Bucketing an empty sequence gives an empty sequence. */
  lemma {:induction false} BucketsOfEmpty<T>(s: seq<T>, key: T -> nat, n: nat)
    requires s == []
    ensures Buckets(s, key, n) == []
    decreases n
  {
    if n > 0 {
      BucketsOfEmpty(s, key, n - 1);
    }
  }

  /** Sorting on some bits is a permutation. */
  lemma RadixSortedPermutation<T>(s: seq<T>, g: T -> nat, bits: nat)
    ensures multiset(RadixSorted(s, g, bits)) == multiset(s)
    ensures |RadixSorted(s, g, bits)| == |s|
  {
    forall i | 0 <= i < |s| ensures DigitKey(g, 0, bits)(s[i]) < Pow2(bits) {
      DigitKeyAt(g, 0, bits, s[i]);
    }
    BucketsPermutation(s, DigitKey(g, 0, bits), Pow2(bits));
  }

  lemma KeySplitPrefix<T>(s: seq<T>, full: T -> nat, low: T -> nat, top: T -> nat, p: nat)
    requires s != [] && KeySplit(s, full, low, top, p)
    ensures KeySplit(s[..|s| - 1], full, low, top, p)
  {
  }

  /** Filtering on the top digit, then on the low digit, is filtering on the full key. */
  lemma {:induction false} SelectCompose<T>(s: seq<T>, full: T -> nat, low: T -> nat, top: T -> nat, p: nat, l: nat, h: nat)
    requires KeySplit(s, full, low, top, p)
    requires l < p
    ensures Select(Select(s, top, h), low, l) == Select(s, full, l + p * h)
    decreases |s|
  {
    if s != [] {
      var q, x := s[..|s| - 1], s[|s| - 1];
      KeySplitPrefix(s, full, low, top, p);
      SelectCompose(q, full, low, top, p, l, h);
      var t := if top(x) == h then [x] else [];
      SelectAppend(Select(q, top, h), t, low, l);
      SelectSingle(x, low, l);
      PairUnique(p, low(x), top(x), l, h);
    }
  }

  /** Low-key bucket l of top-key bucket h. */
  ghost function SubBucket<T>(s: seq<T>, top: T -> nat, low: T -> nat, h: nat, l: nat): seq<T>
  {
    Select(Select(s, top, h), low, l)
  }

  /** Every low bucket of every top bucket is a bucket of the full key. */
  ghost predicate Composes<T>(s: seq<T>, full: T -> nat, low: T -> nat, top: T -> nat, p: nat)
  {
    forall l: nat, h: nat {:trigger SubBucket(s, top, low, h, l)} ::
      l < p ==> SubBucket(s, top, low, h, l) == Select(s, full, l + p * h)
  }

  lemma ComposesOfSplit<T>(s: seq<T>, full: T -> nat, low: T -> nat, top: T -> nat, p: nat)
    requires KeySplit(s, full, low, top, p)
    ensures Composes(s, full, low, top, p)
  {
    forall l: nat, h: nat | l < p ensures SubBucket(s, top, low, h, l) == Select(s, full, l + p * h) {
      SelectCompose(s, full, low, top, p, l, h);
    }
  }

  /** One more low bucket inside top bucket h is one more bucket of the full key. */
  lemma BucketsSplitLow<T>(s: seq<T>, full: T -> nat, low: T -> nat, top: T -> nat, p: nat, h: nat, l: nat)
    requires 0 < l <= p
    requires SubBucket(s, top, low, h, l - 1) == Select(s, full, (l - 1) + p * h)
    requires Buckets(s, full, p * h + (l - 1))
          == SortedBuckets(s, top, low, p, h) + Buckets(Select(s, top, h), low, l - 1)
    ensures Buckets(s, full, p * h + l) == SortedBuckets(s, top, low, p, h) + Buckets(Select(s, top, h), low, l)
  {
    var n := p * h + l;
    assert n - 1 == p * h + (l - 1) == (l - 1) + p * h;
    AppendAssoc(SortedBuckets(s, top, low, p, h), Buckets(Select(s, top, h), low, l - 1), Select(Select(s, top, h), low, l - 1));
  }

  /** Inside top bucket h, each low bucket is a bucket of the full key. */
  lemma {:induction false} BucketsSplit<T>(s: seq<T>, full: T -> nat, low: T -> nat, top: T -> nat, p: nat, h: nat, l: nat)
    requires Composes(s, full, low, top, p)
    requires l <= p
    requires Buckets(s, full, p * h) == SortedBuckets(s, top, low, p, h)
    ensures Buckets(s, full, p * h + l) == SortedBuckets(s, top, low, p, h) + Buckets(Select(s, top, h), low, l)
    decreases l
  {
    if l == 0 {
      AppendEmpty(SortedBuckets(s, top, low, p, h));
    } else {
      BucketsSplit(s, full, low, top, p, h, l - 1);
      BucketsSplitLow(s, full, low, top, p, h, l);
    }
  }

  lemma BucketsTopStep<T>(s: seq<T>, full: T -> nat, low: T -> nat, top: T -> nat, p: nat, h: nat)
    requires h > 0
    requires Buckets(s, full, p * (h - 1) + p)
          == SortedBuckets(s, top, low, p, h - 1) + Buckets(Select(s, top, h - 1), low, p)
    ensures Buckets(s, full, p * h) == SortedBuckets(s, top, low, p, h)
  {
    Distrib(p, h - 1, 1);
    assert p * (h - 1) + p == p * h;
  }

  /** The first h top buckets, each bucketed by the low key, are the first p * h buckets of the full key. */
  lemma {:induction false} BucketsTop<T>(s: seq<T>, full: T -> nat, low: T -> nat, top: T -> nat, p: nat, h: nat)
    requires Composes(s, full, low, top, p)
    ensures Buckets(s, full, p * h) == SortedBuckets(s, top, low, p, h)
    decreases h
  {
    if h == 0 {
      assert p * h == 0;
    } else {
      BucketsTop(s, full, low, top, p, h - 1);
      BucketsSplit(s, full, low, top, p, h - 1, p);
      BucketsTopStep(s, full, low, top, p, h);
    }
  }

  lemma LsdPrefixStep<T>(s: seq<T>, low: T -> nat, top: T -> nat, p: nat, h: nat)
    requires h > 0
    requires Buckets(Buckets(s, low, p), top, h - 1) == SortedBuckets(s, top, low, p, h - 1)
    ensures Buckets(Buckets(s, low, p), top, h) == SortedBuckets(s, top, low, p, h)
  {
    SelectOfBuckets(s, low, p, top, h - 1);
  }

  /** Bucketing by the top digit after bucketing by the low digit is every top bucket bucketed by the low digit. */
  lemma {:induction false} LsdPrefix<T>(s: seq<T>, low: T -> nat, top: T -> nat, p: nat, h: nat)
    ensures Buckets(Buckets(s, low, p), top, h) == SortedBuckets(s, top, low, p, h)
    decreases h
  {
    if h > 0 {
      LsdPrefix(s, low, top, p, h - 1);
      LsdPrefixStep(s, low, top, p, h);
    }
  }

  /** The w-bit digit keys at offsets 0 and a split the (a+b)-bit key. */
  lemma DigitKeySplit<T>(s: seq<T>, g: T -> nat, a: nat, b: nat)
    ensures KeySplit(s, DigitKey(g, 0, a + b), DigitKey(g, 0, a), DigitKey(g, a, b), Pow2(a))
  {
    forall i | 0 <= i < |s|
      ensures DigitKey(g, 0, a)(s[i]) < Pow2(a)
      ensures DigitKey(g, 0, a + b)(s[i]) == DigitKey(g, 0, a)(s[i]) + Pow2(a) * DigitKey(g, a, b)(s[i])
    {
      DigitKeyAt(g, 0, a, s[i]);
      DigitKeyAt(g, a, b, s[i]);
      DigitKeyAt(g, 0, a + b, s[i]);
      DigitSplit(g(s[i]), a, b);
    }
  }

  /** One more top bucket, sorted on the low b bits. */
  lemma SortedBucketsStep<T>(s: seq<T>, top: T -> nat, g: T -> nat, b: nat, i: nat)
    ensures SortedBuckets(s, top, DigitKey(g, 0, b), Pow2(b), i + 1)
      == SortedBuckets(s, top, DigitKey(g, 0, b), Pow2(b), i) + RadixSorted(Select(s, top, i), g, b)
  {
  }

  /** MSD: sorting each top-digit bucket on the remaining low bits sorts on all bits. */
  lemma MsdBuckets<T>(s: seq<T>, g: T -> nat, a: nat, b: nat)
    ensures SortedBuckets(s, DigitKey(g, a, b), DigitKey(g, 0, a), Pow2(a), Pow2(b)) == RadixSorted(s, g, a + b)
  {
    DigitKeySplit(s, g, a, b);
    ComposesOfSplit(s, DigitKey(g, 0, a + b), DigitKey(g, 0, a), DigitKey(g, a, b), Pow2(a));
    BucketsTop(s, DigitKey(g, 0, a + b), DigitKey(g, 0, a), DigitKey(g, a, b), Pow2(a), Pow2(b));
    Pow2Add(a, b);
  }

  /** LSD: a stable pass on the next b bits after sorting on the low a bits sorts on the low a+b bits. */
  lemma LsdPass<T>(s: seq<T>, g: T -> nat, a: nat, b: nat)
    ensures Buckets(RadixSorted(s, g, a), DigitKey(g, a, b), Pow2(b)) == RadixSorted(s, g, a + b)
  {
    LsdPrefix(s, DigitKey(g, 0, a), DigitKey(g, a, b), Pow2(a), Pow2(b));
    MsdBuckets(s, g, a, b);
  }

  // ---------------------------------------------------------------------
  // From bits to keys

  /**
   * Sorting on the low w bits of keys h = g - m that all fit in w bits (with
   * g >= m) is a stable sort by g.  With m == 0 this says that a radix sort
   * that covers every key bit is a stable sort by key.
   */
  lemma SortedByShift<T>(r: seq<T>, key: T -> nat, g: T -> nat, m: nat)
    requires SortedBy(r, key)
    requires forall x :: x in r ==> g(x) == key(x) + m
    ensures SortedBy(r, g)
  {
    forall i, j | 0 <= i < j < |r| ensures g(r[i]) <= g(r[j]) {
      assert r[i] in r && r[j] in r;
    }
  }

  /** On s, the key h is the key g lowered by m. */
  ghost predicate ShiftedKeys<T>(s: seq<T>, h: T -> nat, g: T -> nat, m: nat)
  {
    forall i :: 0 <= i < |s| ==> g(s[i]) >= m && h(s[i]) == g(s[i]) - m
  }

  /** The keys k1 and k2 agree on s. */
  ghost predicate SameKeys<T>(s: seq<T>, k1: T -> nat, k2: T -> nat)
  {
    forall i :: 0 <= i < |s| ==> k1(s[i]) == k2(s[i])
  }

  /** Under the shifted keys, bucket k of the low-bit sort is bucket k of the input. */
  lemma RadixSortedStableAt<T>(s: seq<T>, g: T -> nat, h: T -> nat, m: nat, w: nat, k: nat)
    requires ShiftedKeys(s, h, g, m) && ShiftedKeys(RadixSorted(s, h, w), h, g, m)
    requires SameKeys(s, DigitKey(h, 0, w), h) && SameKeys(RadixSorted(s, h, w), DigitKey(h, 0, w), h)
    requires forall i :: 0 <= i < |s| ==> h(s[i]) < Pow2(w)
    ensures Select(RadixSorted(s, h, w), g, k) == Select(s, g, k)
  {
    var key := DigitKey(h, 0, w);
    var r := RadixSorted(s, h, w);
    if k < m {
      SelectNone(r, g, k);
      SelectNone(s, g, k);
    } else {
      var v: nat := k - m;
      SelectShift(r, h, g, m, v);
      SelectShift(s, h, g, m, v);
      SelectSameKeys(r, key, h, v);
      SelectSameKeys(s, key, h, v);
      BucketsStable(s, key, Pow2(w), v);
      if v >= Pow2(w) {
        SelectNone(s, h, v);
      }
    }
  }

  lemma RadixSortedIsStableSort<T>(s: seq<T>, g: T -> nat, h: T -> nat, m: nat, w: nat)
    requires forall i :: 0 <= i < |s| ==> g(s[i]) >= m && h(s[i]) == g(s[i]) - m && h(s[i]) < Pow2(w)
    ensures IsStableSortOf(RadixSorted(s, h, w), s, g)
  {
    var key := DigitKey(h, 0, w);
    var r := RadixSorted(s, h, w);
    RadixSortedPermutation(s, h, w);
    forall i | 0 <= i < |s| ensures key(s[i]) == h(s[i]) {
      DigitKeyAt(h, 0, w, s[i]);
      DigitOfSmallKey(h(s[i]), w);
    }
    forall i | 0 <= i < |r|
      ensures g(r[i]) >= m && h(r[i]) == g(r[i]) - m && key(r[i]) == h(r[i])
    {
      assert r[i] in multiset(s);
      var j :| 0 <= j < |s| && s[j] == r[i];
    }
    BucketsSorted(s, key, Pow2(w));
    forall x | x in r ensures g(x) == key(x) + m {
      var i :| 0 <= i < |r| && r[i] == x;
    }
    SortedByShift(r, key, g, m);
    forall k: nat ensures Select(r, g, k) == Select(s, g, k) {
      RadixSortedStableAt(s, g, h, m, w, k);
    }
  }
}
