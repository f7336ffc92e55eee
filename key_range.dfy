/**
 * How `integer_sort_` chooses the key width when the caller passes 0: the
 * smallest and largest key (a min/max reduction), `log2_up` of the key
 * range, and whether the keys are lowered by the smallest key first.  All
 * key arithmetic is on 64-bit `size_t` and is written out modulo 2^64.
 */
module KeyRange {
  import opened RadixSpec

  /** 2^64: `size_t` arithmetic wraps modulo this. */
  const SizeLimit: nat := 0x1_0000_0000_0000_0000

  /** Every key of s is a `size_t`. */
  ghost predicate KeysFit<T>(s: seq<T>, g: T -> nat)
  {
    forall i :: 0 <= i < |s| ==> g(s[i]) < SizeLimit
  }

  // ---------------------------------------------------------------------
  // Bit lengths and log2_up

  /** The number of bits of k: the least b with k < 2^b. */
  function BitLength(k: nat): (b: nat)
    ensures k < Pow2(b)
    ensures b > 0 ==> Pow2(b - 1) <= k
  {
    if k == 0 then 0 else 1 + BitLength(k / 2)
  }

  /** The bit length is the only b with 2^(b-1) <= k < 2^b. */
  lemma {:induction false} BitLengthUnique(k: nat, b: nat)
    requires k < Pow2(b)
    requires b > 0 ==> Pow2(b - 1) <= k
    ensures BitLength(k) == b
    decreases b
  {
    if b > 0 {
      if b > 1 {
        assert Pow2(b - 1) == 2 * Pow2(b - 2);
      }
      BitLengthUnique(k / 2, b - 1);
    }
  }

  /** A bit length is at most n when the value is below 2^n. */
  lemma {:induction false} BitLengthAtMost(k: nat, n: nat)
    requires k < Pow2(n)
    ensures BitLength(k) <= n
    decreases n
  {
    if k > 0 {
      BitLengthAtMost(k / 2, n - 1);
    }
  }

  lemma Pow2Square(n: nat, v: nat)
    requires Pow2(n) == v
    ensures Pow2(2 * n) == v * v
  {
    Pow2Add(n, n);
  }

  lemma Pow2Of64()
    ensures Pow2(64) == SizeLimit
    ensures Pow2(63) == SizeLimit / 2
  {
    assert Pow2(4) == 16;
    Pow2Square(4, 16);
    Pow2Square(8, 256);
    Pow2Square(16, 0x1_0000);
    Pow2Square(32, 0x1_0000_0000);
  }

  /**
   * `log2_up(i)` on a `size_t`: the least b with i <= 2^b, computed as the
   * bit length of i - 1.  For i == 0 the subtraction wraps and the answer
   * is 64.
   */
  function Log2Up(i: nat): (b: nat)
    requires i < SizeLimit
    ensures b <= 64
    ensures i > 0 ==> i <= Pow2(b) && (b > 0 ==> Pow2(b - 1) < i)
    ensures i == 0 ==> b == 64
  {
    Pow2Of64();
    var j := (i + SizeLimit - 1) % SizeLimit;
    assert i == 0 ==> j == SizeLimit - 1;
    assert i > 0 ==> j == i - 1;
    BitLengthAtMost(j, 64);
    if i == 0 then
      BitLengthUnique(j, 64);
      BitLength(j)
    else
      BitLength(j)
  }

  // ---------------------------------------------------------------------
  // The min/max reduction

  /**
   * The smallest key of s, by the `minmaxm` reduction whose identity is the
   * largest `size_t`.
   */
  function MinKey<T>(s: seq<T>, g: T -> nat): (m: nat)
    decreases |s|
  {
    if s == [] then SizeLimit - 1
    else
      var rest := MinKey(s[..|s| - 1], g);
      var k := g(s[|s| - 1]);
      if k < rest then k else rest
  }

  /** The largest key of s, by the `minmaxm` reduction whose identity is 0. */
  function MaxKey<T>(s: seq<T>, g: T -> nat): (m: nat)
    decreases |s|
  {
    if s == [] then 0
    else
      var rest := MaxKey(s[..|s| - 1], g);
      var k := g(s[|s| - 1]);
      if k > rest then k else rest
  }

  /** MinKey and MaxKey bound every key and are keys of s when s is not empty. */
  lemma {:induction false} MinMaxBounds<T>(s: seq<T>, g: T -> nat)
    requires KeysFit(s, g)
    ensures MinKey(s, g) < SizeLimit && MaxKey(s, g) < SizeLimit
    ensures forall i :: 0 <= i < |s| ==> MinKey(s, g) <= g(s[i]) <= MaxKey(s, g)
    ensures s != [] ==> exists i :: 0 <= i < |s| && g(s[i]) == MinKey(s, g)
    ensures s != [] ==> exists i :: 0 <= i < |s| && g(s[i]) == MaxKey(s, g)
    decreases |s|
  {
    if s != [] {
      var p := s[..|s| - 1];
      assert KeysFit(p, g) by {
        forall i | 0 <= i < |p| ensures g(p[i]) < SizeLimit {
          assert p[i] == s[i];
        }
      }
      MinMaxBounds(p, g);
      forall i | 0 <= i < |s| ensures MinKey(s, g) <= g(s[i]) <= MaxKey(s, g) {
        if i < |p| {
          assert s[i] == p[i];
        }
      }
      if p != [] {
        var a :| 0 <= a < |p| && g(p[a]) == MinKey(p, g);
        var b :| 0 <= b < |p| && g(p[b]) == MaxKey(p, g);
        assert s[a] == p[a] && s[b] == p[b];
      }
    }
  }

  // ---------------------------------------------------------------------
  // The key plan of integer_sort_

  /** The keys are sorted as `g(x) - offset` on their low `bits` bits. */
  datatype KeyPlan = KeyPlan(bits: nat, offset: nat)

  /**
   * The plan as integer_sort.h writes it: `log2_up(max - min + 1)` bits, and
   * the keys lowered by min when `min > max / 4`.  Without the lowering the
   * width covers the range but not the keys themselves.
   */
  function PlanAsWritten(mn: nat, mx: nat): (p: KeyPlan)
    requires mn < SizeLimit && mx < SizeLimit
    ensures p.bits <= 64
    ensures p.offset == (if mn > mx / 4 then mn else 0)
  {
    var bits := Log2Up((mx + SizeLimit - mn + 1) % SizeLimit);
    if mn > mx / 4 then KeyPlan(bits, mn) else KeyPlan(bits, 0)
  }

  /**
   * The plan with the width of the unlowered case taken from the largest key,
   * `log2_up(max + 1)`, which is what the key test `min > max / 4` intends.
   */
  function Plan(mn: nat, mx: nat): (p: KeyPlan)
    requires mn < SizeLimit && mx < SizeLimit
    ensures p.bits <= 64
    ensures p.offset == (if mn > mx / 4 then mn else 0)
  {
    if mn > mx / 4 then KeyPlan(Log2Up((mx + SizeLimit - mn + 1) % SizeLimit), mn)
    else KeyPlan(Log2Up((mx + 1) % SizeLimit), 0)
  }

  /** Under the corrected plan every key in [mn, mx] is at least the offset and fits the width once lowered. */
  lemma PlanCoversKeys(mn: nat, mx: nat, k: nat)
    requires mn <= k <= mx < SizeLimit
    ensures Plan(mn, mx).offset <= k
    ensures k - Plan(mn, mx).offset < Pow2(Plan(mn, mx).bits)
  {
    Pow2Of64();
    if mn > mx / 4 {
      assert (mx + SizeLimit - mn + 1) % SizeLimit == mx - mn + 1;
    } else if mx + 1 < SizeLimit {
      assert (mx + 1) % SizeLimit == mx + 1;
    } else {
      assert (mx + 1) % SizeLimit == 0;
    }
  }

  /** The plan as written leaves the key 256 of the keys {1, 256} outside its 8 bits. */
  lemma PlanAsWrittenMissesKey()
    ensures PlanAsWritten(1, 256) == KeyPlan(8, 0)
    ensures 256 - PlanAsWritten(1, 256).offset >= Pow2(PlanAsWritten(1, 256).bits)
  {
    assert (256 + SizeLimit - 1 + 1) % SizeLimit == 256;
    assert (256 + SizeLimit - 1) % SizeLimit == 255;
    assert Pow2(8) == 256 && Pow2(7) == 128;
    BitLengthUnique(255, 8);
  }

  /** The key function of a sequence of plain keys. */
  function Identity(k: nat): nat { k }

  lemma DigitsOf1And256()
    ensures DigitKey(Identity, 0, 8)(1) == 1 && DigitKey(Identity, 0, 8)(256) == 0
  {
    DigitKeyAt(Identity, 0, 8, 1);
    DigitKeyAt(Identity, 0, 8, 256);
    assert LowBits(1, 8) == 1;
    assert LowBits(256, 8) == 0;
  }

  /** A key-ordered permutation of two elements whose keys are out of order swaps them. */
  lemma SortedPairSwaps<T>(s: seq<T>, r: seq<T>, key: T -> nat)
    requires |s| == 2 && key(s[1]) < key(s[0])
    requires multiset(r) == multiset(s) && SortedBy(r, key)
    ensures r == [s[1], s[0]]
  {
    assert |r| == |multiset(r)| == 2;
    assert r[0] in multiset(s) && r[1] in multiset(s);
    assert multiset(r) == multiset{r[0], r[1]} by {
      assert r == [r[0]] + [r[1]];
    }
    assert multiset(s) == multiset{s[0], s[1]} by {
      assert s == [s[0]] + [s[1]];
    }
  }

  /** With the plan as written, the radix sort of the keys [1, 256] is not in key order. */
  lemma AsWrittenSortUnsorted(s: seq<nat>, bits: nat)
    requires |s| == 2 && s[0] == 1 && s[1] == 256
    requires bits == PlanAsWritten(1, 256).bits
    ensures !SortedBy(RadixSorted(s, Identity, bits), Identity)
  {
    PlanAsWrittenMissesKey();
    var key := DigitKey(Identity, 0, bits);
    var r := RadixSorted(s, Identity, bits);
    RadixSortedPermutation(s, Identity, bits);
    BucketsSorted(s, key, Pow2(bits));
    DigitsOf1And256();
    SortedPairSwaps(s, r, key);
    assert Identity(r[0]) > Identity(r[1]);
  }
}
