/**
 * The integer radix sorts of pbbs: a bottom-up sequential radix sort that
 * ping-pongs between two buffers, the wrapper that picks its starting
 * buffer, a top-down recursion on the most significant 8 bits, and the
 * entry points that derive the key width from the key range.
 *
 * A slice is the index range [lo, hi) of an array; the buffers a call works
 * on are the same range of possibly different arrays.  Every method leaves
 * every array unchanged outside its range.
 */
module IntegerSort {
  import opened RadixSpec
  import opened KeyRange

  /** Bits per digit (`radix`). */
  const Radix: nat := 8
  /** Inputs shorter than this are sorted by the sequential radix sort (`1 << 15`). */
  const SmallInput: nat := 32768

  /** Only the elements in [lo, hi) may differ between the two states of an array. */
  ghost predicate SameOutside<T>(now: seq<T>, before: seq<T>, lo: nat, hi: nat)
  {
    |now| == |before| && forall j :: 0 <= j < |now| && !(lo <= j < hi) ==> now[j] == before[j]
  }

  lemma SliceConcat<T>(a: seq<T>, i: nat, j: nat, k: nat)
    requires i <= j <= k <= |a|
    ensures a[i..k] == a[i..j] + a[j..k]
  {
  }

  /** `move_uninitialized(dst[i], src[i])` for every i in [lo, hi). */
  method CopySegment<T>(src: array<T>, dst: array<T>, lo: nat, hi: nat)
    requires src != dst
    requires lo <= hi <= src.Length && hi <= dst.Length
    modifies dst
    ensures dst[lo..hi] == src[lo..hi]
    ensures SameOutside(dst[..], old(dst[..]), lo, hi)
  {
    var i := lo;
    while i < hi
      invariant lo <= i <= hi
      invariant forall j :: lo <= j < i ==> dst[j] == src[j]
      invariant SameOutside(dst[..], old(dst[..]), lo, hi)
    {
      dst[i] := src[i];
      i := i + 1;
    }
    assert dst[lo..hi] == src[lo..hi];
  }

  /**
   * One bucket of the counting sort: the elements of s with key v, appended
   * at dst[start..] after the buckets `done` already written at
   * dst[lo..start].
   */
  method AppendBucket<T>(s: seq<T>, dst: array<T>, lo: nat, key: T -> nat, v: nat,
                         start: nat, ghost done: seq<T>)
    returns (pos: nat)
    requires start == lo + |done|
    requires start + |Select(s, key, v)| <= dst.Length
    requires forall j :: lo <= j < start ==> dst[j] == done[j - lo]
    modifies dst
    ensures pos == start + |Select(s, key, v)|
    ensures forall j :: lo <= j < pos ==> dst[j] == (done + Select(s, key, v))[j - lo]
    ensures SameOutside(dst[..], old(dst[..]), start, pos)
  {
    ghost var out := done + Select(s, key, v);
    pos := start;
    var i := 0;
    while i < |s|
      invariant i <= |s|
      invariant pos == start + |Select(s[..i], key, v)| <= lo + |out|
      invariant forall j :: lo <= j < pos ==> dst[j] == out[j - lo]
      invariant SameOutside(dst[..], old(dst[..]), start, pos)
    {
      SelectSnoc(s, key, v, i);
      SelectPrefix(s, key, v, i + 1);
      if key(s[i]) == v {
        dst[pos] := s[i];
        pos := pos + 1;
      }
      i := i + 1;
    }
    assert s[..|s|] == s;
  }

  /**
   * The stable counting sort every pass relies on (`seq_count_sort_`,
   * `count_sort`): the slice s, read from the input buffer, bucketed by key
   * into dst[lo..lo + |s|]; the offsets are the bucket boundaries.
   */
  method CountSort<T>(s: seq<T>, dst: array<T>, lo: nat, key: T -> nat, nb: nat)
    returns (offsets: seq<nat>)
    requires lo + |s| <= dst.Length
    requires forall i :: 0 <= i < |s| ==> key(s[i]) < nb
    modifies dst
    ensures dst[lo..lo + |s|] == Buckets(s, key, nb)
    ensures SameOutside(dst[..], old(dst[..]), lo, lo + |s|)
    ensures offsets == Offsets(s, key, nb, lo)
  {
    BucketsLength(s, key, nb);
    var pos := lo;
    offsets := [lo];
    ghost var out: seq<T> := [];
    var v := 0;
    while v < nb
      invariant v <= nb
      invariant out == Buckets(s, key, v)
      invariant pos == lo + |out| <= lo + |s|
      invariant forall j :: lo <= j < pos ==> dst[j] == out[j - lo]
      invariant SameOutside(dst[..], old(dst[..]), lo, lo + |s|)
      invariant offsets == Offsets(s, key, v, lo)
    {
      BucketsMonotone(s, key, v + 1, nb);
      pos := AppendBucket(s, dst, lo, key, v, pos, out);
      out := out + Select(s, key, v);
      v := v + 1;
      offsets := offsets + [pos];
    }
    forall k | 0 <= k < |s| ensures dst[lo..lo + |s|][k] == out[k] {
      assert dst[lo + k] == out[k];
    }
    assert dst[lo..lo + |s|] == out;
  }

  /** SameOutside composes across successive updates. */
  lemma SameOutsideTrans<T>(c: seq<T>, b: seq<T>, a: seq<T>, lo: nat, hi: nat)
    requires SameOutside(c, b, lo, hi) && SameOutside(b, a, lo, hi)
    ensures SameOutside(c, a, lo, hi)
  {
  }

  function Min(a: nat, b: nat): nat
  {
    if a < b then a else b
  }

  predicate Odd(n: nat)
  {
    n % 2 == 1
  }

  /** The number of passes seq_radix_sort_ makes on `bits` bits: one per 8-bit digit, the ceiling of bits / 8. */
  function Passes(bits: nat): (p: nat)
    ensures Radix * p >= bits
    ensures Radix * (p - 1) < bits
  {
    (bits + Radix - 1) / Radix
  }

  /** A pass on min(8, bits) bits leaves one pass fewer. */
  lemma PassesStep(bits: nat)
    requires bits > 0
    ensures Passes(bits - Min(Radix, bits)) + 1 == Passes(bits)
  {
    if bits >= Radix {
      assert bits + Radix - 1 == (bits - Radix + Radix - 1) + Radix;
    }
  }

  lemma OddStep(n: nat)
    ensures Odd(n + 1) == !Odd(n)
  {
  }

  /**
   * One pass of seq_radix_sort_: count sort the current buffer a on the
   * digit of w bits at offset off into the other buffer b.  If a holds the
   * input sorted on its low off bits, b then holds it sorted on off + w bits.
   */
  method RadixPass<T>(a: array<T>, b: array<T>, lo: nat, hi: nat, g: T -> nat, off: nat, w: nat,
                      ghost s: seq<T>)
    requires a != b
    requires lo <= hi <= a.Length && hi <= b.Length
    requires a[lo..hi] == RadixSorted(s, g, off)
    modifies b
    ensures b[lo..hi] == RadixSorted(s, g, off + w)
    ensures forall j :: 0 <= j < b.Length && !(lo <= j < hi) ==> b[j] == old(b[j])
  {
    ghost var b0 := b[..];
    var cur := a[lo..hi];
    forall i | 0 <= i < |cur| ensures DigitKey(g, off, w)(cur[i]) < Pow2(w) {
      DigitKeyAt(g, off, w, cur[i]);
    }
    var offsets := CountSort(cur, b, lo, DigitKey(g, off, w), Pow2(w));
    LsdPass(s, g, off, w);
    forall j | 0 <= j < b.Length && !(lo <= j < hi) ensures b[j] == old(b[j]) {
      assert b[..][j] == b0[j];
    }
  }

  /**
   * The pass loop of `seq_radix_sort_`: ceil(bits / 8) passes of at most
   * 8 bits each, the buffers changing roles after every pass.  `swapped`
   * says which buffer holds the result: it is set after an odd number of
   * passes.  `passes` counts the passes made.
   */
  method RadixPasses<T>(inA: array<T>, outA: array<T>, lo: nat, hi: nat, g: T -> nat, bits: nat)
    returns (swapped: bool, ghost passes: nat)
    requires inA != outA
    requires lo <= hi <= inA.Length && hi <= outA.Length
    modifies inA, outA
    ensures passes == Passes(bits)
    ensures swapped == Odd(Passes(bits))
    ensures (if swapped then outA else inA)[lo..hi] == RadixSorted(old(inA[lo..hi]), g, bits)
    ensures SameOutside(inA[..], old(inA[..]), lo, hi)
    ensures SameOutside(outA[..], old(outA[..]), lo, hi)
  {
    ghost var s := inA[lo..hi];
    RadixSortedNoBits(s, g);
    var a, b := inA, outA;
    swapped := false;
    var rest := bits;
    var bitOffset := 0;
    passes := 0;
    while rest > 0
      invariant rest + bitOffset == bits
      invariant passes + Passes(rest) == Passes(bits)
      invariant swapped == Odd(passes)
      invariant if swapped then a == outA && b == inA else a == inA && b == outA
      invariant a[lo..hi] == RadixSorted(s, g, bitOffset)
      invariant forall j :: 0 <= j < inA.Length && !(lo <= j < hi) ==> inA[j] == old(inA[j])
      invariant forall j :: 0 <= j < outA.Length && !(lo <= j < hi) ==> outA[j] == old(outA[j])
    {
      var roundBits := Min(Radix, rest);
      PassesStep(rest);
      OddStep(passes);
      var nextOffset := bitOffset + roundBits;
      RadixPass(a, b, lo, hi, g, bitOffset, roundBits, s);
      a, b := b, a;
      rest := rest - roundBits;
      bitOffset := nextOffset;
      swapped := !swapped;
      passes := passes + 1;
    }
    assert Passes(rest) == 0;
    assert SameOutside(inA[..], old(inA[..]), lo, hi);
    assert SameOutside(outA[..], old(outA[..]), lo, hi);
  }

  /**
   * `seq_radix_sort_`: a bottom-up radix sort of inA[lo..hi] on the low `bits`
   * bits of g.  The result ends in inA when `inplace` and in outA otherwise;
   * the final copy is made exactly when the passes left it in the other
   * buffer, and then both buffers hold it.  An empty slice touches nothing.
   */
  method SeqRadixSortCore<T>(inA: array<T>, outA: array<T>, lo: nat, hi: nat, g: T -> nat, bits: nat,
                             inplace: bool)
    requires inA != outA
    requires lo <= hi <= inA.Length && hi <= outA.Length
    modifies inA, outA
    ensures lo == hi ==> inA[..] == old(inA[..]) && outA[..] == old(outA[..])
    ensures lo < hi && inplace ==> inA[lo..hi] == RadixSorted(old(inA[lo..hi]), g, bits)
    ensures lo < hi && !inplace ==> outA[lo..hi] == RadixSorted(old(inA[lo..hi]), g, bits)
    ensures lo < hi && inplace == Odd(Passes(bits)) ==>
      inA[lo..hi] == outA[lo..hi] == RadixSorted(old(inA[lo..hi]), g, bits)
    ensures SameOutside(inA[..], old(inA[..]), lo, hi)
    ensures SameOutside(outA[..], old(outA[..]), lo, hi)
  {
    if hi == lo {
      return;
    }
    ghost var r := RadixSorted(inA[lo..hi], g, bits);
    var swapped;
    ghost var passes;
    swapped, passes := RadixPasses(inA, outA, lo, hi, g, bits);
    if (inplace && swapped) || (!inplace && !swapped) {
      ghost var a0, b0 := inA[..], outA[..];
      if swapped {
        CopySegment(outA, inA, lo, hi);
        SameOutsideTrans(inA[..], a0, old(inA[..]), lo, hi);
      } else {
        CopySegment(inA, outA, lo, hi);
        SameOutsideTrans(outA[..], b0, old(outA[..]), lo, hi);
      }
    }
  }

  /** `((key_bits-1)/radix) & 1` in size_t arithmetic (key_bits - 1 wraps when key_bits == 0). */
  function OddStart(keyBits: nat): bool
    requires keyBits < SizeLimit
  {
    ((keyBits + SizeLimit - 1) % SizeLimit) / Radix % 2 == 1
  }

  /** The wrapper's parity test says exactly that an even number of passes will run. */
  lemma OddStartParity(keyBits: nat)
    requires keyBits < SizeLimit
    ensures OddStart(keyBits) == !Odd(Passes(keyBits))
  {
    if keyBits == 0 {
      assert (SizeLimit - 1) / Radix == 0x1FFF_FFFF_FFFF_FFFF;
    } else {
      assert (keyBits + SizeLimit - 1) % SizeLimit == keyBits - 1;
      assert Passes(keyBits) == (keyBits - 1) / Radix + 1;
    }
  }

  /**
   * `seq_radix_sort`: when the input buffer is also the temporary buffer
   * (inA == tmpA), the start buffer is chosen by the parity of the pass
   * count so that the result lands in outA without touching the input
   * first; the result is then in both outA and tmpA.  Otherwise it
   * delegates to `seq_radix_sort_` with the caller's `inplace` flag and
   * leaves tmpA alone.
   */
  method SeqRadixSort<T>(inA: array<T>, outA: array<T>, tmpA: array<T>, lo: nat, hi: nat,
                         g: T -> nat, keyBits: nat, inplace: bool)
    requires inA != outA && tmpA != outA
    requires keyBits < SizeLimit
    requires lo <= hi <= inA.Length && hi <= outA.Length && hi <= tmpA.Length
    modifies inA, outA, tmpA
    ensures lo < hi && inA == tmpA ==>
      outA[lo..hi] == tmpA[lo..hi] == RadixSorted(old(inA[lo..hi]), g, keyBits)
    ensures lo < hi && inA != tmpA && inplace ==> inA[lo..hi] == RadixSorted(old(inA[lo..hi]), g, keyBits)
    ensures lo < hi && inA != tmpA && !inplace ==> outA[lo..hi] == RadixSorted(old(inA[lo..hi]), g, keyBits)
    ensures inA != tmpA ==> tmpA[..] == old(tmpA[..])
    ensures lo == hi ==> inA[..] == old(inA[..]) && outA[..] == old(outA[..]) && tmpA[..] == old(tmpA[..])
    ensures SameOutside(inA[..], old(inA[..]), lo, hi)
    ensures SameOutside(outA[..], old(outA[..]), lo, hi)
    ensures SameOutside(tmpA[..], old(tmpA[..]), lo, hi)
  {
    var odd := OddStart(keyBits);
    OddStartParity(keyBits);
    if inA == tmpA {
      if odd {
        // Copying In into Tmp moves every element onto itself.
        SeqRadixSortCore(tmpA, outA, lo, hi, g, keyBits, false);
      } else {
        CopySegment(inA, outA, lo, hi);
        SeqRadixSortCore(outA, tmpA, lo, hi, g, keyBits, true);
      }
    } else {
      SeqRadixSortCore(inA, outA, lo, hi, g, keyBits, inplace);
    }
  }

  /** A change confined to [lo2, hi2) is confined to any range around it. */
  lemma SameOutsideWiden<T>(now: seq<T>, before: seq<T>, lo2: nat, hi2: nat, lo: nat, hi: nat)
    requires SameOutside(now, before, lo2, hi2)
    requires lo <= lo2 && hi2 <= hi
    ensures SameOutside(now, before, lo, hi)
  {
  }

  /** A slice that lies outside the changed range is unchanged. */
  lemma SameOutsideSlice<T>(now: seq<T>, before: seq<T>, lo: nat, hi: nat, x: nat, y: nat)
    requires SameOutside(now, before, lo, hi)
    requires x <= y <= |now|
    requires y <= lo || hi <= x
    ensures now[x..y] == before[x..y]
  {
  }

  /** Splitting a suffix o[start..hi] that equals full[start - lo..] at end. */
  lemma SuffixSplit<T>(o: seq<T>, full: seq<T>, lo: nat, start: nat, end: nat, hi: nat)
    requires lo <= start <= end <= hi <= |o| && |full| == hi - lo
    requires o[start..hi] == full[start - lo..]
    ensures o[start..end] == full[start - lo..end - lo]
    ensures o[end..hi] == full[end - lo..]
  {
    assert o[start..end] == o[start..hi][..end - start];
    assert o[end..hi] == o[start..hi][end - start..];
  }

  /**
   * `integer_sort_r`: sort inA[lo..hi] on the low keyBits bits of g, top
   * down.  The result is in tmpA when `inplace` and in outA otherwise;
   * inA and outA are different buffers, and inA is tmpA when `inplace`.
   */
  method IntegerSortR<T>(inA: array<T>, outA: array<T>, tmpA: array<T>, lo: nat, hi: nat,
                         g: T -> nat, keyBits: nat, inplace: bool)
    requires inA != outA && outA != tmpA
    requires inplace ==> inA == tmpA
    requires keyBits < SizeLimit
    requires lo <= hi <= inA.Length && hi <= outA.Length && hi <= tmpA.Length
    modifies inA, outA, tmpA
    ensures (if inplace then tmpA else outA)[lo..hi] == RadixSorted(old(inA[lo..hi]), g, keyBits)
    ensures SameOutside(inA[..], old(inA[..]), lo, hi)
    ensures SameOutside(outA[..], old(outA[..]), lo, hi)
    ensures SameOutside(tmpA[..], old(tmpA[..]), lo, hi)
    decreases keyBits, 4
  {
    ghost var s := inA[lo..hi];
    if keyBits == 0 {
      RadixSortedNoBits(s, g);
      if !inplace {
        CopySegment(inA, outA, lo, hi);
      }
    } else if hi - lo < SmallInput {
      if lo == hi {
        BucketsOfEmpty(s, DigitKey(g, 0, keyBits), Pow2(keyBits));
      }
      SeqRadixSort(inA, outA, tmpA, lo, hi, g, keyBits, inplace);
    } else if keyBits <= Radix {
      SortOneDigit(inA, outA, tmpA, lo, hi, g, keyBits, inplace);
    } else {
      SortTopDigit(inA, outA, tmpA, lo, hi, g, keyBits, inplace);
    }
  }

  /** `integer_sort_r` with at most 8 key bits: one count sort, copied back when `inplace`. */
  method SortOneDigit<T>(inA: array<T>, outA: array<T>, tmpA: array<T>, lo: nat, hi: nat,
                         g: T -> nat, keyBits: nat, inplace: bool)
    requires inA != outA && outA != tmpA
    requires inplace ==> inA == tmpA
    requires 0 < keyBits <= Radix
    requires lo <= hi <= inA.Length && hi <= outA.Length && hi <= tmpA.Length
    modifies inA, outA
    ensures (if inplace then tmpA else outA)[lo..hi] == RadixSorted(old(inA[lo..hi]), g, keyBits)
    ensures SameOutside(inA[..], old(inA[..]), lo, hi)
    ensures SameOutside(outA[..], old(outA[..]), lo, hi)
    ensures SameOutside(tmpA[..], old(tmpA[..]), lo, hi)
  {
    ghost var s := inA[lo..hi];
    forall i | 0 <= i < |s| ensures DigitKey(g, 0, keyBits)(s[i]) < Pow2(keyBits) {
      DigitKeyAt(g, 0, keyBits, s[i]);
    }
    var offsets := CountSort(inA[lo..hi], outA, lo, DigitKey(g, 0, keyBits), Pow2(keyBits));
    if inplace {
      ghost var a0 := inA[..];
      CopySegment(outA, inA, lo, hi);
      SameOutsideTrans(inA[..], a0, old(inA[..]), lo, hi);
    }
  }

  /**
   * The recursive case of `integer_sort_r`: bucket by the top 8 of the key
   * bits into outA, then sort each bucket on the remaining bits.
   */
  method SortTopDigit<T>(inA: array<T>, outA: array<T>, tmpA: array<T>, lo: nat, hi: nat,
                         g: T -> nat, keyBits: nat, inplace: bool)
    requires inA != outA && outA != tmpA
    requires inplace ==> inA == tmpA
    requires Radix < keyBits < SizeLimit
    requires lo <= hi <= inA.Length && hi <= outA.Length && hi <= tmpA.Length
    modifies outA, tmpA
    ensures (if inplace then tmpA else outA)[lo..hi] == RadixSorted(old(inA[lo..hi]), g, keyBits)
    ensures SameOutside(inA[..], old(inA[..]), lo, hi)
    ensures SameOutside(outA[..], old(outA[..]), lo, hi)
    ensures SameOutside(tmpA[..], old(tmpA[..]), lo, hi)
    decreases keyBits, 3
  {
    var s := inA[lo..hi];
    var shiftBits: nat := keyBits - Radix;
    var buckets := Pow2(Radix);
    var res := if inplace then tmpA else outA;
    var top := DigitKey(g, shiftBits, Radix);
    var offsets := BucketByTop(s, outA, lo, hi, g, shiftBits);
    ghost var b0 := outA[..];
    SortBuckets(outA, tmpA, res, lo, hi, offsets, buckets, g, shiftBits, inplace, s, top, outA[lo..hi]);
    TopDigitDone(s, g, keyBits, shiftBits, top, buckets, res[lo..hi]);
    SameOutsideTrans(outA[..], b0, old(outA[..]), lo, hi);
  }

  /** The first count sort of the recursive case: s into dst[lo..hi], bucketed by the top 8 key bits. */
  method BucketByTop<T>(s: seq<T>, dst: array<T>, lo: nat, hi: nat, g: T -> nat, shift: nat)
    returns (offsets: seq<nat>)
    requires lo + |s| == hi <= dst.Length
    modifies dst
    ensures dst[lo..hi] == Buckets(s, DigitKey(g, shift, Radix), Pow2(Radix))
    ensures offsets == Offsets(s, DigitKey(g, shift, Radix), Pow2(Radix), lo)
    ensures SameOutside(dst[..], old(dst[..]), lo, hi)
  {
    forall i | 0 <= i < |s| ensures DigitKey(g, shift, Radix)(s[i]) < Pow2(Radix) {
      DigitKeyAt(g, shift, Radix, s[i]);
    }
    offsets := CountSort(s, dst, lo, DigitKey(g, shift, Radix), Pow2(Radix));
  }

  /** Sorting every top-digit bucket on the shift low bits sorts on all keyBits bits. */
  lemma TopDigitDone<T>(s: seq<T>, g: T -> nat, keyBits: nat, shift: nat, top: T -> nat, buckets: nat, x: seq<T>)
    requires shift + Radix == keyBits && top == DigitKey(g, shift, Radix) && buckets == Pow2(Radix)
    requires x == SortedBuckets(s, top, DigitKey(g, 0, shift), Pow2(shift), buckets)
    ensures x == RadixSorted(s, g, keyBits)
  {
    MsdBuckets(s, g, shift, Radix);
  }

  /**
   * The bucket loop of `integer_sort_r`: sort every bucket of outA[lo..hi]
   * on the low `shift` bits, into res.
   */
  method SortBuckets<T>(outA: array<T>, tmpA: array<T>, res: array<T>, lo: nat, hi: nat, offsets: seq<nat>, buckets: nat,
                        g: T -> nat, shift: nat, inplace: bool,
                        ghost s: seq<T>, ghost top: T -> nat, ghost full: seq<T>)
    requires outA != tmpA && res == (if inplace then tmpA else outA)
    requires shift < SizeLimit && buckets > 0
    requires lo <= hi <= outA.Length && hi <= tmpA.Length
    requires full == Buckets(s, top, buckets) && outA[lo..hi] == full
    requires offsets == Offsets(s, top, buckets, lo)
    modifies outA, tmpA
    ensures res[lo..hi] == SortedBuckets(s, top, DigitKey(g, 0, shift), Pow2(shift), buckets)
    ensures SameOutside(outA[..], old(outA[..]), lo, hi)
    ensures SameOutside(tmpA[..], old(tmpA[..]), lo, hi)
    decreases shift + 1, 2
  {
    OffsetsAt(s, top, buckets, lo, 0);
    assert res[lo..lo] == [];
    SortBucketsFrom(outA, tmpA, res, lo, hi, offsets, buckets, g, shift, inplace, 0, lo,
                    s, top, full, outA[..], tmpA[..]);
    OffsetsAt(s, top, buckets, lo, buckets);
  }

  /** Buckets i .. buckets-1, with buckets 0 .. i-1 already sorted into res[lo..start]. */
  method SortBucketsFrom<T>(outA: array<T>, tmpA: array<T>, res: array<T>, lo: nat, hi: nat, offsets: seq<nat>,
                            buckets: nat, g: T -> nat, shift: nat, inplace: bool, i: nat, start: nat,
                            ghost s: seq<T>, ghost top: T -> nat, ghost full: seq<T>,
                            ghost out0: seq<T>, ghost tmp0: seq<T>)
    requires outA != tmpA && res == (if inplace then tmpA else outA)
    requires shift < SizeLimit && i <= buckets
    requires lo <= start <= hi <= outA.Length && hi <= tmpA.Length
    requires full == Buckets(s, top, buckets) && |full| == hi - lo
    requires offsets == Offsets(s, top, buckets, lo) && |offsets| == buckets + 1 && offsets[i] == start
    requires res[lo..start] == SortedBuckets(s, top, DigitKey(g, 0, shift), Pow2(shift), i)
    requires outA[start..hi] == full[start - lo..]
    requires SameOutside(outA[..], out0, lo, hi) && SameOutside(tmpA[..], tmp0, lo, hi)
    modifies outA, tmpA
    ensures res[lo..offsets[buckets]] == SortedBuckets(s, top, DigitKey(g, 0, shift), Pow2(shift), buckets)
    ensures SameOutside(outA[..], out0, lo, hi) && SameOutside(tmpA[..], tmp0, lo, hi)
    decreases shift + 1, 1, buckets - i
  {
    if i < buckets {
      var end := offsets[i + 1];
      NextBucket(s, top, g, shift, buckets, lo, i, full, offsets, start, end);
      ghost var done := SortedBuckets(s, top, DigitKey(g, 0, shift), Pow2(shift), i);
      SortBucket(outA, tmpA, res, lo, hi, start, end, g, shift, inplace, full, done, out0, tmp0);
      SortBucketsFrom(outA, tmpA, res, lo, hi, offsets, buckets, g, shift, inplace, i + 1, end,
                      s, top, full, out0, tmp0);
    }
  }

  /** Bucket i occupies [start, end) of the bucketed sequence; sorting it extends the sorted prefix. */
  lemma NextBucket<T>(s: seq<T>, top: T -> nat, g: T -> nat, b: nat, buckets: nat, lo: nat, i: nat,
                      full: seq<T>, offsets: seq<nat>, start: nat, end: nat)
    requires i < buckets && full == Buckets(s, top, buckets) && offsets == Offsets(s, top, buckets, lo)
    requires |offsets| == buckets + 1 && start == offsets[i] && end == offsets[i + 1]
    ensures lo <= start <= end <= lo + |full|
    ensures SortedBuckets(s, top, DigitKey(g, 0, b), Pow2(b), i + 1)
      == SortedBuckets(s, top, DigitKey(g, 0, b), Pow2(b), i) + RadixSorted(full[start - lo..end - lo], g, b)
  {
    OffsetsBucket(s, top, buckets, lo, i);
    assert full[start - lo..end - lo] == Select(s, top, i);
    SortedBucketsStep(s, top, g, b, i);
  }

  /**
   * Sort one bucket, at [start, end) of outA, on the low `shift` bits into
   * res, behind the buckets `done` already sorted into res[lo..start].
   */
  method SortBucket<T>(outA: array<T>, tmpA: array<T>, res: array<T>, lo: nat, hi: nat, start: nat, end: nat,
                       g: T -> nat, shift: nat, inplace: bool,
                       ghost full: seq<T>, ghost done: seq<T>, ghost out0: seq<T>, ghost tmp0: seq<T>)
    requires outA != tmpA && res == (if inplace then tmpA else outA)
    requires shift < SizeLimit
    requires lo <= start <= end <= hi <= outA.Length && hi <= tmpA.Length && |full| == hi - lo
    requires res[lo..start] == done
    requires outA[start..hi] == full[start - lo..]
    requires SameOutside(outA[..], out0, lo, hi) && SameOutside(tmpA[..], tmp0, lo, hi)
    modifies outA, tmpA
    ensures res[lo..end] == done + RadixSorted(full[start - lo..end - lo], g, shift)
    ensures outA[end..hi] == full[end - lo..]
    ensures SameOutside(outA[..], out0, lo, hi) && SameOutside(tmpA[..], tmp0, lo, hi)
    decreases shift + 1, 0
  {
    ghost var a0, b0 := outA[..], tmpA[..];
    SuffixSplit(a0, full, lo, start, end, hi);
    IntegerSortR(outA, tmpA, outA, start, end, g, shift, !inplace);
    BucketDone(outA[..], a0, out0, tmpA[..], b0, tmp0, inplace, lo, start, end, hi, full);
  }

  /** The buffer bookkeeping after sorting one bucket [start, end) of a range [lo, hi). */
  lemma BucketDone<T>(outN: seq<T>, out1: seq<T>, out0: seq<T>, tmpN: seq<T>, tmp1: seq<T>, tmp0: seq<T>,
                      inplace: bool, lo: nat, start: nat, end: nat, hi: nat, full: seq<T>)
    requires lo <= start <= end <= hi <= |out1| && hi <= |tmp1| && |full| == hi - lo
    requires SameOutside(outN, out1, start, end) && SameOutside(tmpN, tmp1, start, end)
    requires SameOutside(out1, out0, lo, hi) && SameOutside(tmp1, tmp0, lo, hi)
    requires out1[end..hi] == full[end - lo..]
    ensures (if inplace then tmpN else outN)[lo..end]
      == (if inplace then tmp1 else out1)[lo..start] + (if inplace then tmpN else outN)[start..end]
    ensures outN[end..hi] == full[end - lo..]
    ensures SameOutside(outN, out0, lo, hi) && SameOutside(tmpN, tmp0, lo, hi)
  {
    var resN := if inplace then tmpN else outN;
    var res1 := if inplace then tmp1 else out1;
    SameOutsideSlice(resN, res1, start, end, lo, start);
    SameOutsideSlice(outN, out1, start, end, end, hi);
    SliceConcat(resN, lo, start, end);
    SameOutsideWiden(outN, out1, start, end, lo, hi);
    SameOutsideWiden(tmpN, tmp1, start, end, lo, hi);
    SameOutsideTrans(outN, out1, out0, lo, hi);
    SameOutsideTrans(tmpN, tmp1, tmp0, lo, hi);
  }

  // ---------------------------------------------------------------------
  // Entry points

  /** What `integer_sort_` does: sort, or abort because In and Out are one buffer. */
  datatype Outcome = Sorted | SameBuffer

  /** The key `g(a) - min_val` in `size_t` arithmetic. */
  function Lowered<T>(g: T -> nat, m: nat): T -> nat
  {
    x => (g(x) + SizeLimit - m) % SizeLimit
  }

  /**
   * `integer_sort_` with `key_bits == 0`: derive the width from the smallest
   * and largest key, lower the keys by the smallest when it is above a
   * quarter of the largest, and sort on the derived width.  The result is a
   * stable sort by the whole key.
   */
  method SortDerivedKeys<T>(inA: array<T>, outA: array<T>, tmpA: array<T>, g: T -> nat, inplace: bool)
    requires inA != outA && outA != tmpA
    requires inplace ==> inA == tmpA
    requires inA.Length <= outA.Length && inA.Length <= tmpA.Length
    requires KeysFit(inA[..], g)
    modifies inA, outA, tmpA
    ensures IsStableSortOf((if inplace then tmpA else outA)[..inA.Length], old(inA[..]), g)
    ensures SameOutside(inA[..], old(inA[..]), 0, inA.Length)
    ensures SameOutside(outA[..], old(outA[..]), 0, inA.Length)
    ensures SameOutside(tmpA[..], old(tmpA[..]), 0, inA.Length)
  {
    var n := inA.Length;
    var s := inA[..];
    assert inA[0..n] == s;
    MinMaxBounds(s, g);
    var mn, mx := MinKey(s, g), MaxKey(s, g);
    var plan := Plan(mn, mx);
    var h := if mn > mx / 4 then Lowered(g, mn) else g;
    PlannedKeysFit(s, g, h, mn, mx, plan);
    IntegerSortR(inA, outA, tmpA, 0, n, h, plan.bits, inplace);
    RadixSortedIsStableSort(s, g, h, plan.offset, plan.bits);
  }

  lemma LoweredAt<T>(g: T -> nat, m: nat, x: T)
    requires m <= g(x) < SizeLimit
    ensures Lowered(g, m)(x) == g(x) - m
  {
    assert g(x) + SizeLimit - m == (g(x) - m) + SizeLimit;
  }

  /** Under the plan, every key of s is at least the offset and, lowered by it, fits the planned width. */
  lemma PlannedKeysFit<T>(s: seq<T>, g: T -> nat, h: T -> nat, mn: nat, mx: nat, plan: KeyPlan)
    requires KeysFit(s, g)
    requires mn < SizeLimit && mx < SizeLimit && plan == Plan(mn, mx)
    requires forall i :: 0 <= i < |s| ==> mn <= g(s[i]) <= mx
    requires h == if mn > mx / 4 then Lowered(g, mn) else g
    ensures forall i :: 0 <= i < |s| ==>
      g(s[i]) >= plan.offset && h(s[i]) == g(s[i]) - plan.offset && h(s[i]) < Pow2(plan.bits)
  {
    forall i | 0 <= i < |s|
      ensures g(s[i]) >= plan.offset && h(s[i]) == g(s[i]) - plan.offset && h(s[i]) < Pow2(plan.bits)
    {
      PlanCoversKeys(mn, mx, g(s[i]));
      if mn > mx / 4 {
        LoweredAt(g, mn, s[i]);
      }
    }
  }

  /**
   * `integer_sort_`: abort when In and Out are the same buffer; otherwise sort
   * In, into Tmp when `inplace` (In is Tmp then) and into Out otherwise.  A
   * key width of 0 means "derive it"; a given width sorts on that many low
   * key bits.
   */
  method IntegerSortCore<T>(inA: array<T>, outA: array<T>, tmpA: array<T>, g: T -> nat, keyBits: nat,
                            inplace: bool)
    returns (outcome: Outcome)
    requires outA != tmpA
    requires inplace ==> inA == tmpA
    requires keyBits < SizeLimit
    requires inA.Length <= outA.Length && inA.Length <= tmpA.Length
    requires KeysFit(inA[..], g)
    modifies inA, outA, tmpA
    ensures outcome == SameBuffer <==> inA == outA
    ensures outcome == SameBuffer ==> inA[..] == old(inA[..]) && tmpA[..] == old(tmpA[..])
    ensures outcome == Sorted && keyBits == 0 ==>
      IsStableSortOf((if inplace then tmpA else outA)[..inA.Length], old(inA[..]), g)
    ensures outcome == Sorted && keyBits > 0 ==>
      (if inplace then tmpA else outA)[..inA.Length] == RadixSorted(old(inA[..]), g, keyBits)
    ensures outcome == Sorted ==> SameOutside(outA[..], old(outA[..]), 0, inA.Length)
    ensures outcome == Sorted ==> SameOutside(tmpA[..], old(tmpA[..]), 0, inA.Length)
  {
    if inA == outA {
      return SameBuffer;
    }
    if keyBits == 0 {
      SortDerivedKeys(inA, outA, tmpA, g, inplace);
    } else {
      assert inA[0..inA.Length] == inA[..];
      IntegerSortR(inA, outA, tmpA, 0, inA.Length, g, keyBits, inplace);
    }
    return Sorted;
  }

  /** `integer_sort_inplace`: sort a in place, through a fresh scratch buffer. */
  method IntegerSortInplace<T(0)>(a: array<T>, g: T -> nat, keyBits: nat)
    requires keyBits < SizeLimit
    requires KeysFit(a[..], g)
    modifies a
    ensures keyBits == 0 ==> IsStableSortOf(a[..], old(a[..]), g)
    ensures keyBits > 0 ==> a[..] == RadixSorted(old(a[..]), g, keyBits)
  {
    var tmp := new T[a.Length];
    var outcome := IntegerSortCore(a, tmp, a, g, keyBits, true);
    assert a[..a.Length] == a[..];
  }

  /**
   * `integer_sort`: sort a into a fresh array.  The input is scratch space
   * for the sequential radix sort on small inputs, so it may be overwritten.
   */
  method IntegerSortCopy<T(0)>(a: array<T>, g: T -> nat, keyBits: nat) returns (r: array<T>)
    requires keyBits < SizeLimit
    requires KeysFit(a[..], g)
    modifies a
    ensures fresh(r) && r.Length == a.Length
    ensures keyBits == 0 ==> IsStableSortOf(r[..], old(a[..]), g)
    ensures keyBits > 0 ==> r[..] == RadixSorted(old(a[..]), g, keyBits)
  {
    r := new T[a.Length];
    var tmp := new T[a.Length];
    var outcome := IntegerSortCore(a, r, tmp, g, keyBits, false);
    assert r[..a.Length] == r[..];
  }
}
