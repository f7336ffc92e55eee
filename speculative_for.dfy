/**
 * The deterministic-reservations driver `speculative_for` (speculative_for.h).
 *
 * The index range [s, e) is run in rounds.  A round fills its slots with the
 * indices that failed in the previous round (in order) followed by fresh
 * indices, asks the step to `reserve` every slot, asks it to `commit` every
 * slot whose reservation succeeded, and carries the slots that reserved but
 * did not commit into the next round.  The round size adapts to the share of
 * slots that failed.
 *
 * The step is given by its answers: `reserve(round, i)` and `commit(round, i)`
 * are what the step's `reserve` and `commit` return for index i in a round.
 * In one round every index occupies one slot, so the answers of any
 * deterministic step over a run are such a pair of functions.
 */
module SpeculativeFor {

  function Min(a: int, b: int): int { if a < b then a else b }
  function Max(a: int, b: int): int { if a < b then b else a }
  function Abs(a: int): nat { if a < 0 then -a else a }

  /** C++ division of `long`s, which truncates toward zero. */
  function TruncDiv(n: int, d: int): (q: int)
    requires d != 0
    ensures Abs(q) * Abs(d) <= Abs(n) < (Abs(q) + 1) * Abs(d)
    ensures q != 0 ==> (q > 0 <==> (n > 0 <==> d > 0))
  {
    var a := Abs(n) / Abs(d);
    DivBounds(Abs(n), Abs(d));
    if (n < 0) != (d < 0) then -a else a
  }

  lemma DivBounds(x: nat, y: nat)
    requires y > 0
    ensures 0 <= x / y
    ensures (x / y) * y <= x < (x / y + 1) * y
  {
    assert x == (x / y) * y + x % y;
  }

  /** A negative `maxTries` is replaced by 100 + 200 * granularity. */
  function EffectiveMaxTries(granularity: int, maxTries: int): (t: int)
    ensures maxTries >= 0 ==> t == maxTries
    ensures maxTries < 0 && granularity >= 0 ==> t >= 100
  {
    if maxTries < 0 then 100 + 200 * granularity else maxTries
  }

  /** `(e - s) / granularity + 1`: enough rounds of `granularity` slots cover the range. */
  function MaxRoundSize(s: int, e: int, granularity: int): (m: int)
    requires granularity != 0
    ensures granularity > 0 && s <= e ==> m >= 1 && (m - 1) * granularity <= e - s < m * granularity
  {
    TruncDiv(e - s, granularity) + 1
  }

  // ---------------------------------------------------------------------
  // Slots, the pack of failed slots, and index ranges

  /** The integers a, a + 1, ..., b - 1. */
  function Range(a: int, b: int): (r: seq<int>)
    requires a <= b
    ensures |r| == b - a
  {
    seq(b - a, i requires 0 <= i < b - a => a + i)
  }

  lemma RangeConcat(a: int, b: int, c: int)
    requires a <= b <= c
    ensures Range(a, b) + Range(b, c) == Range(a, c)
  {
    var r := Range(a, b) + Range(b, c);
    forall i | 0 <= i < c - a ensures r[i] == Range(a, c)[i] {
      if i >= b - a {
        assert r[i] == Range(b, c)[i - (b - a)];
      }
    }
  }

  lemma RangeMember(a: int, b: int, x: int)
    requires a <= b
    requires x in multiset(Range(a, b))
    ensures a <= x < b
  {
    var r := Range(a, b);
    assert x in r;
    var i :| 0 <= i < |r| && r[i] == x;
  }

  /** The indices a round attempts: the carried `hold`, then `done + i` for the later slots i. */
  function Slots(hold: seq<int>, done: int, size: nat): (r: seq<int>)
    ensures |r| == size
  {
    seq(size, i requires 0 <= i < size => if i < |hold| then hold[i] else done + i)
  }

  /** With room for the carried indices, the slots are those indices followed by fresh ones. */
  lemma SlotsSplit(hold: seq<int>, done: int, size: nat)
    requires |hold| <= size
    ensures Slots(hold, done, size) == hold + Range(done + |hold|, done + size)
  {
    var r := hold + Range(done + |hold|, done + size);
    forall i | 0 <= i < size ensures Slots(hold, done, size)[i] == r[i] {
      if i >= |hold| {
        assert r[i] == Range(done + |hold|, done + size)[i - |hold|];
      }
    }
  }

  ghost predicate StrictlyAscending(xs: seq<int>)
  {
    forall i, j :: 0 <= i < j < |xs| ==> xs[i] < xs[j]
  }

  /** Ascending carried indices, all below the first fresh one, give ascending slots. */
  lemma SlotsAscending(hold: seq<int>, done: int, size: nat)
    requires |hold| <= size && StrictlyAscending(hold)
    requires forall x :: x in hold ==> x < done + |hold|
    ensures StrictlyAscending(Slots(hold, done, size))
  {
    var r := Slots(hold, done, size);
    forall i, j | 0 <= i < j < size ensures r[i] < r[j] {
      if i < |hold| && j >= |hold| {
        assert hold[i] in hold;
      }
    }
  }

  /**
   * `pbbs::pack`: the elements of xs whose flag is set, in their order.
   * pbbs::pack is not part of this model; this is its contract.
   */
  function Pack(xs: seq<int>, flags: seq<bool>): seq<int>
    requires |flags| == |xs|
    decreases |xs|
  {
    if xs == [] then []
    else
      var rest := Pack(xs[..|xs| - 1], flags[..|xs| - 1]);
      if flags[|xs| - 1] then rest + [xs[|xs| - 1]] else rest
  }

  function Flip(flags: seq<bool>): (r: seq<bool>)
    ensures |r| == |flags|
    ensures forall i :: 0 <= i < |r| ==> r[i] == !flags[i]
  {
    seq(|flags|, i requires 0 <= i < |flags| => !flags[i])
  }

  /** Packing by a flag and by its negation splits xs into two parts with nothing lost or repeated. */
  lemma {:induction false} PackSplit(xs: seq<int>, flags: seq<bool>)
    requires |flags| == |xs|
    ensures multiset(Pack(xs, flags)) + multiset(Pack(xs, Flip(flags))) == multiset(xs)
    ensures |Pack(xs, flags)| + |Pack(xs, Flip(flags))| == |xs|
    decreases |xs|
  {
    if xs != [] {
      var n := |xs| - 1;
      assert Flip(flags)[..n] == Flip(flags[..n]);
      PackSplit(xs[..n], flags[..n]);
      assert xs == xs[..n] + [xs[n]];
    }
  }

  /** An element is packed exactly when it sits at a flagged position. */
  lemma {:induction false} PackMembers(xs: seq<int>, flags: seq<bool>, x: int)
    requires |flags| == |xs|
    ensures x in Pack(xs, flags) <==> exists i :: 0 <= i < |xs| && flags[i] && xs[i] == x
    decreases |xs|
  {
    if xs != [] {
      var n := |xs| - 1;
      PackMembers(xs[..n], flags[..n], x);
      if exists i :: 0 <= i < |xs| && flags[i] && xs[i] == x {
        var i :| 0 <= i < |xs| && flags[i] && xs[i] == x;
        if i < n {
          assert xs[..n][i] == x && flags[..n][i];
        }
      }
      if x in Pack(xs[..n], flags[..n]) {
        var i :| 0 <= i < n && flags[..n][i] && xs[..n][i] == x;
        assert flags[i] && xs[i] == x;
      }
    }
  }

  /** Packing keeps the order, so it keeps strict ascent. */
  lemma {:induction false} PackAscending(xs: seq<int>, flags: seq<bool>)
    requires |flags| == |xs| && StrictlyAscending(xs)
    ensures StrictlyAscending(Pack(xs, flags))
    decreases |xs|
  {
    if xs != [] {
      var n := |xs| - 1;
      var p := xs[..n];
      assert StrictlyAscending(p);
      PackAscending(p, flags[..n]);
      var rest := Pack(p, flags[..n]);
      forall y | y in rest ensures y < xs[n] {
        PackMembers(p, flags[..n], y);
        var i :| 0 <= i < n && flags[..n][i] && p[i] == y;
      }
      if flags[n] {
        var r := rest + [xs[n]];
        forall i, j | 0 <= i < j < |r| ensures r[i] < r[j] {
          if j == |rest| {
            assert rest[i] in rest;
          }
        }
      }
    }
  }

  // ---------------------------------------------------------------------
  // Round size

  /**
   * `float(numberKeep) / float(size) > .2`.  For size up to 2^24 the
   * quantities are exact floats and the test holds exactly when
   * 5 * numberKeep >= size (one fifth rounds to a float above the double
   * .2); for size 0 the quotient is not a number and the test fails.
   */
  predicate ManyFailed(numberKeep: int, size: int)
  {
    size > 0 && 5 * numberKeep >= size
  }

  /** `float(numberKeep) / float(size) < .1`, by the same reasoning 10 * numberKeep < size. */
  predicate FewFailed(numberKeep: int, size: int)
  {
    size > 0 && 10 * numberKeep < size
  }

  /**
   * Halve the round size when many slots failed, but not below
   * maxRoundSize / 64 + 1 nor below the number of failed slots; double it,
   * up to maxRoundSize, when few did.
   */
  function NextRoundSize(cur: int, maxRoundSize: int, numberKeep: int, size: int): (r: int)
    ensures ManyFailed(numberKeep, size) ==>
              r >= numberKeep && r >= maxRoundSize / 64 + 1 && r >= cur / 2
              && (r == cur / 2 || r == maxRoundSize / 64 + 1 || r == numberKeep)
              && (cur >= numberKeep && cur >= maxRoundSize / 64 + 1 ==> r <= cur)
    ensures FewFailed(numberKeep, size) && !ManyFailed(numberKeep, size) && 0 <= cur <= maxRoundSize ==>
              cur <= r <= maxRoundSize && r <= 2 * cur && (r == 2 * cur || r == maxRoundSize)
    ensures !ManyFailed(numberKeep, size) && !FewFailed(numberKeep, size) ==> r == cur
  {
    if ManyFailed(numberKeep, size) then Max(cur / 2, Max(maxRoundSize / 64 + 1, numberKeep))
    else if FewFailed(numberKeep, size) then Min(cur * 2, maxRoundSize)
    else cur
  }

  /**
   * The new round size stays within [1, maxRoundSize], has room for the
   * failed slots, and never drops below maxRoundSize / 64 + 1.
   */
  lemma RoundSizeBounds(cur: int, maxRoundSize: int, numberKeep: int, size: int)
    requires 0 <= numberKeep <= size <= cur <= maxRoundSize
    requires maxRoundSize >= 1 ==> cur >= 1
    ensures numberKeep <= NextRoundSize(cur, maxRoundSize, numberKeep, size) <= maxRoundSize
    ensures maxRoundSize >= 1 ==> NextRoundSize(cur, maxRoundSize, numberKeep, size) >= 1
    ensures maxRoundSize >= 1 && cur >= maxRoundSize / 64 + 1 ==>
              NextRoundSize(cur, maxRoundSize, numberKeep, size) >= maxRoundSize / 64 + 1
  {
  }

  // ---------------------------------------------------------------------
  // The round loop on values

  /** The driver's parameters once the defaults are filled in, and the step's answers. */
  datatype Config = Config(s: int, e: int, maxTries: int, maxRoundSize: int,
                           reserve: (int, int) -> bool, commit: (int, int) -> bool)

  function MakeConfig(reserve: (int, int) -> bool, commit: (int, int) -> bool,
                      s: int, e: int, granularity: int, maxTries: int): Config
    requires granularity != 0
  {
    Config(s, e, EffectiveMaxTries(granularity, maxTries), MaxRoundSize(s, e, granularity), reserve, commit)
  }

  /**
   * The loop variables, and the indices resolved so far in the order they
   * were resolved (which the source does not keep).
   */
  datatype LoopState = LoopState(round: int, done: int, hold: seq<int>, total: int, cur: int,
                                 resolved: seq<int>)

  function Start(c: Config): LoopState
  {
    LoopState(0, c.s, [], 0, c.maxRoundSize, [])
  }

  /** The answers of the reserve phase. */
  function ReserveAnswers(reserve: (int, int) -> bool, round: int, slots: seq<int>): (r: seq<bool>)
    ensures |r| == |slots|
  {
    seq(|slots|, i requires 0 <= i < |slots| => reserve(round, slots[i]))
  }

  /** The flags after the commit phase: a reserved slot stays when its commit fails. */
  function CommitAnswers(commit: (int, int) -> bool, round: int, slots: seq<int>, reserved: seq<bool>): (r: seq<bool>)
    requires |reserved| == |slots|
    ensures |r| == |slots|
  {
    seq(|slots|, i requires 0 <= i < |slots| => reserved[i] && !commit(round, slots[i]))
  }

  /** A slot is carried into the next round when it reserved and did not commit. */
  function Kept(c: Config, round: int, slots: seq<int>): (k: seq<bool>)
    ensures |k| == |slots|
    ensures forall i :: 0 <= i < |k| ==> (k[i] <==> c.reserve(round, slots[i]) && !c.commit(round, slots[i]))
  {
    CommitAnswers(c.commit, round, slots, ReserveAnswers(c.reserve, round, slots))
  }

  /** `min(currentRoundSize, e - numberDone)`: the slots a round attempts. */
  function RoundSize(c: Config, st: LoopState): nat
    requires st.done < c.e && 0 <= st.cur
  {
    Min(st.cur, c.e - st.done)
  }

  /** The bookkeeping at the end of a round whose slots carried the flags `keep`. */
  function AfterRound(c: Config, st: LoopState, size: nat, slots: seq<int>, keep: seq<bool>): (r: LoopState)
    requires |keep| == |slots| && 0 <= st.cur && 0 <= c.maxRoundSize
    ensures r.round == st.round + 1 && r.cur >= 0
  {
    var hold := Pack(slots, keep);
    LoopState(st.round + 1, st.done + size - |hold|, hold, st.total + size,
              NextRoundSize(st.cur, c.maxRoundSize, |hold|, size),
              st.resolved + Pack(slots, Flip(keep)))
  }

  /** One round of the loop. */
  function RoundStep(c: Config, st: LoopState): (r: LoopState)
    requires st.done < c.e && 0 <= st.cur && 0 <= c.maxRoundSize
    ensures r.round == st.round + 1 && r.cur >= 0
  {
    var size := RoundSize(c, st);
    var slots := Slots(st.hold, st.done, size);
    AfterRound(c, st, size, slots, Kept(c, st.round + 1, slots))
  }

  datatype RunResult = Completed(final: LoopState) | Aborted(last: LoopState)

  /** The loop from st: it ends when every index is done, or aborts after maxTries + 1 rounds. */
  function Run(c: Config, st: LoopState): (r: RunResult)
    requires 0 <= st.cur && 0 <= c.maxRoundSize
    ensures r.Completed? ==> r.final.done >= c.e && r.final.round >= st.round
    ensures r.Aborted? ==> r.last.done < c.e && r.last.round > c.maxTries && r.last.round >= st.round
    decreases c.maxTries + 1 - st.round
  {
    if st.done >= c.e then Completed(st)
    else if st.round > c.maxTries then Aborted(st)
    else Run(c, RoundStep(c, st))
  }

  /** What the loop keeps true from round to round. */
  ghost predicate Inv(c: Config, st: LoopState)
  {
    && 0 <= st.round
    && c.s <= st.done
    && st.done + |st.hold| <= Max(c.s, c.e)
    && |st.hold| <= st.cur <= c.maxRoundSize
    && (c.maxRoundSize >= 1 ==> st.cur >= 1)
    && (c.maxRoundSize >= 1 ==> st.cur >= c.maxRoundSize / 64 + 1)
    && StrictlyAscending(st.hold)
    && multiset(st.resolved) + multiset(st.hold) == multiset(Range(c.s, st.done + |st.hold|))
    && st.total >= st.done + |st.hold| - c.s
  }

  lemma StartInv(c: Config)
    requires c.maxRoundSize >= 0
    ensures Inv(c, Start(c))
  {
    assert Range(c.s, c.s) == [];
  }

  /** The carried indices lie below the first fresh index of the next round. */
  lemma HoldBelow(c: Config, st: LoopState)
    requires Inv(c, st)
    ensures forall x :: x in st.hold ==> x < st.done + |st.hold|
  {
    forall x | x in st.hold ensures x < st.done + |st.hold| {
      assert x in multiset(st.hold);
      RangeMember(c.s, st.done + |st.hold|, x);
    }
  }

  /** The multiset bookkeeping of one round: resolved and carried indices still make up the range. */
  lemma RoundAccounting(s: int, done: int, size: nat, resolved: seq<int>, hold: seq<int>,
                        slots: seq<int>, keep: seq<bool>)
    requires s <= done + |hold| && |hold| <= size && |keep| == size
    requires slots == hold + Range(done + |hold|, done + size)
    requires multiset(resolved) + multiset(hold) == multiset(Range(s, done + |hold|))
    ensures multiset(resolved + Pack(slots, Flip(keep))) + multiset(Pack(slots, keep))
            == multiset(Range(s, done + size))
    ensures |Pack(slots, keep)| + |Pack(slots, Flip(keep))| == size
  {
    var kept, gone := Pack(slots, keep), Pack(slots, Flip(keep));
    PackSplit(slots, keep);
    RangeConcat(s, done + |hold|, done + size);
    MultisetStep(resolved, hold, kept, gone, slots, Range(done + |hold|, done + size),
                 Range(s, done + |hold|), Range(s, done + size));
  }

  lemma MultisetStep(resolved: seq<int>, hold: seq<int>, kept: seq<int>, gone: seq<int>, slots: seq<int>,
                     added: seq<int>, before: seq<int>, after: seq<int>)
    requires multiset(kept) + multiset(gone) == multiset(slots) && slots == hold + added
    requires multiset(resolved) + multiset(hold) == multiset(before) && before + added == after
    ensures multiset(resolved + gone) + multiset(kept) == multiset(after)
  {
    calc {
      multiset(resolved + gone) + multiset(kept);
      multiset(resolved) + (multiset(kept) + multiset(gone));
      multiset(resolved) + multiset(hold + added);
      (multiset(resolved) + multiset(hold)) + multiset(added);
      multiset(before) + multiset(added);
      multiset(before + added);
    }
  }

  /** The order of one round: the carried slots are strictly ascending. */
  lemma RoundOrder(c: Config, st: LoopState, size: nat, keep: seq<bool>)
    requires Inv(c, st) && |st.hold| <= size && |keep| == size
    ensures StrictlyAscending(Pack(Slots(st.hold, st.done, size), keep))
  {
    HoldBelow(c, st);
    SlotsAscending(st.hold, st.done, size);
    PackAscending(Slots(st.hold, st.done, size), keep);
  }

  lemma AfterRoundAccounting(c: Config, st: LoopState, size: nat, slots: seq<int>, keep: seq<bool>)
    requires Inv(c, st) && st.done < c.e && size == RoundSize(c, st)
    requires slots == Slots(st.hold, st.done, size) && |keep| == size
    ensures multiset(st.resolved + Pack(slots, Flip(keep))) + multiset(Pack(slots, keep))
            == multiset(Range(c.s, st.done + size))
    ensures |Pack(slots, keep)| + |Pack(slots, Flip(keep))| == size
  {
    SlotsSplit(st.hold, st.done, size);
    RoundAccounting(c.s, st.done, size, st.resolved, st.hold, slots, keep);
  }

  /** The invariant after a round, from what the round did to the carried and resolved indices. */
  lemma InvAfter(c: Config, st: LoopState, size: nat, kept: seq<int>, gone: seq<int>, r: LoopState)
    requires Inv(c, st) && st.done < c.e && size == RoundSize(c, st)
    requires r == LoopState(st.round + 1, st.done + size - |kept|, kept, st.total + size,
                            NextRoundSize(st.cur, c.maxRoundSize, |kept|, size), st.resolved + gone)
    requires |kept| + |gone| == size && StrictlyAscending(kept)
    requires multiset(st.resolved + gone) + multiset(kept) == multiset(Range(c.s, st.done + size))
    ensures Inv(c, r)
  {
    assert |st.hold| <= size;
    RoundSizeBounds(st.cur, c.maxRoundSize, |kept|, size);
  }

  /** A round keeps the invariant, whatever the step answered. */
  lemma AfterRoundInv(c: Config, st: LoopState, keep: seq<bool>)
    requires Inv(c, st) && st.done < c.e && |keep| == RoundSize(c, st)
    ensures Inv(c, AfterRound(c, st, RoundSize(c, st), Slots(st.hold, st.done, RoundSize(c, st)), keep))
  {
    var size := RoundSize(c, st);
    var slots := Slots(st.hold, st.done, size);
    assert |st.hold| <= size;
    AfterRoundAccounting(c, st, size, slots, keep);
    RoundOrder(c, st, size, keep);
    InvAfter(c, st, size, Pack(slots, keep), Pack(slots, Flip(keep)), AfterRound(c, st, size, slots, keep));
  }

  /** Every round keeps the invariant. */
  lemma RoundPreservesInv(c: Config, st: LoopState)
    requires Inv(c, st) && st.done < c.e
    ensures Inv(c, RoundStep(c, st))
    ensures st.done <= RoundStep(c, st).done && RoundStep(c, st).total == st.total + RoundSize(c, st)
  {
    var size := RoundSize(c, st);
    var slots := Slots(st.hold, st.done, size);
    var keep := Kept(c, st.round + 1, slots);
    assert RoundStep(c, st) == AfterRound(c, st, size, slots, keep);
    AfterRoundAccounting(c, st, size, slots, keep);
    AfterRoundInv(c, st, keep);
  }

  /**
   * A round whose phases filled the slots and flags as the step's answers
   * call for is a RoundStep, and keeps the invariant.
   */
  lemma RoundMatches(c: Config, st: LoopState, size: nat, round: int, slots: seq<int>, flags: seq<bool>)
    requires Inv(c, st) && st.done < c.e
    requires size == Min(st.cur, c.e - st.done) && round == st.round + 1
    requires slots == Slots(st.hold, st.done, size)
    requires flags == CommitAnswers(c.commit, round, slots, ReserveAnswers(c.reserve, round, slots))
    ensures RoundStep(c, st)
            == LoopState(round, st.done + size - |Pack(slots, flags)|, Pack(slots, flags), st.total + size,
                         NextRoundSize(st.cur, c.maxRoundSize, |Pack(slots, flags)|, size),
                         st.resolved + Pack(slots, Flip(flags)))
    ensures Inv(c, RoundStep(c, st))
  {
    RoundPreservesInv(c, st);
  }

  /**
   * A run from a state that keeps the invariant either completes in a state
   * that keeps it, with every index done and no round beyond maxTries + 1,
   * or aborts with work left after a round beyond maxTries.
   */
  lemma {:induction false} RunSound(c: Config, st: LoopState)
    requires c.maxRoundSize >= 0 && Inv(c, st)
    ensures Run(c, st).Completed? ==>
              var f := Run(c, st).final;
              Inv(c, f) && f.done >= c.e && (f.round == st.round || f.round <= c.maxTries + 1)
    ensures Run(c, st).Aborted? ==>
              Run(c, st).last.done < c.e && Run(c, st).last.round > c.maxTries
    decreases c.maxTries + 1 - st.round
  {
    if st.done < c.e && st.round <= c.maxTries {
      RoundPreservesInv(c, st);
      RunSound(c, RoundStep(c, st));
    }
  }

  /**
   * When the driver returns, every index of [s, e) has been resolved exactly
   * once, at least e - s slots were attempted, and at most maxTries + 1
   * rounds ran.
   */
  lemma RunResolvesAll(c: Config)
    requires c.maxRoundSize >= 0
    ensures Run(c, Start(c)).Completed? ==>
              var f := Run(c, Start(c)).final;
              && multiset(f.resolved) == multiset(Range(c.s, Max(c.s, c.e)))
              && f.done == Max(c.s, c.e) && f.hold == []
              && f.total >= c.e - c.s
              && f.round <= Max(0, c.maxTries + 1)
  {
    StartInv(c);
    RunSound(c, Start(c));
  }

  /** With nothing to do, no round runs. */
  lemma EmptyRangeRunsNoRound(c: Config)
    requires c.maxRoundSize >= 0 && c.s >= c.e
    ensures Run(c, Start(c)) == Completed(Start(c))
  {
  }

  // ---------------------------------------------------------------------
  // The driver

  datatype ForOutcome = Finished(totalProcessed: int) | TooManyIterations

  function Report(r: RunResult): ForOutcome
  {
    match r
    case Completed(f) => Finished(f.total)
    case Aborted(_) => TooManyIterations
  }

  /**
   * The first phase of a round: fill the slots and ask the step to reserve
   * each one.
   */
  method ReservePhase(I: array<int>, keep: array<bool>, hold: seq<int>, done: int, size: nat,
                      round: int, reserve: (int, int) -> bool)
    requires size <= I.Length && size <= keep.Length
    modifies I, keep
    ensures I[..size] == Slots(hold, done, size)
    ensures keep[..size] == ReserveAnswers(reserve, round, I[..size])
    ensures I[size..] == old(I[size..]) && keep[size..] == old(keep[size..])
  {
    var i := 0;
    while i < size
      invariant 0 <= i <= size
      invariant forall j :: 0 <= j < i ==> I[j] == (if j < |hold| then hold[j] else done + j)
      invariant forall j :: 0 <= j < i ==> keep[j] == reserve(round, I[j])
      invariant forall j :: i <= j < I.Length ==> I[j] == old(I[j])
      invariant forall j :: i <= j < keep.Length ==> keep[j] == old(keep[j])
    {
      I[i] := if i < |hold| then hold[i] else done + i;
      keep[i] := reserve(round, I[i]);
      i := i + 1;
    }
    assert I[..size] == Slots(hold, done, size);
    assert keep[..size] == ReserveAnswers(reserve, round, I[..size]);
  }

  /**
   * The second phase: ask the step to commit each slot whose reservation
   * succeeded.  `asked[j]` records whether slot j was committed; a slot whose
   * reservation failed never is.
   */
  method CommitPhase(I: array<int>, keep: array<bool>, size: nat, round: int,
                     commit: (int, int) -> bool) returns (ghost asked: seq<bool>)
    requires size <= I.Length && size <= keep.Length
    modifies keep
    ensures asked == old(keep[..size])
    ensures keep[..size] == CommitAnswers(commit, round, I[..size], old(keep[..size]))
    ensures keep[size..] == old(keep[size..])
  {
    asked := [];
    var i := 0;
    while i < size
      invariant 0 <= i <= size && |asked| == i
      invariant forall j :: 0 <= j < i ==> asked[j] == old(keep[j])
      invariant forall j :: 0 <= j < i ==> keep[j] == (old(keep[j]) && !commit(round, I[j]))
      invariant forall j :: i <= j < keep.Length ==> keep[j] == old(keep[j])
    {
      if keep[i] {
        keep[i] := !commit(round, I[i]);
        asked := asked + [true];
      } else {
        asked := asked + [false];
      }
      i := i + 1;
    }
    assert keep[..size] == CommitAnswers(commit, round, I[..size], old(keep[..size]));
  }

  /** Both phases of a round; the slots and the flags that `pack` then reads. */
  method RoundPhases(I: array<int>, keep: array<bool>, hold: seq<int>, done: int, size: nat, round: int,
                     reserve: (int, int) -> bool, commit: (int, int) -> bool)
    returns (slots: seq<int>, flags: seq<bool>)
    requires size <= I.Length && size <= keep.Length
    modifies I, keep
    ensures slots == Slots(hold, done, size)
    ensures flags == CommitAnswers(commit, round, slots, ReserveAnswers(reserve, round, slots))
    ensures I[size..] == old(I[size..]) && keep[size..] == old(keep[size..])
  {
    ReservePhase(I, keep, hold, done, size, round, reserve);
    slots := I[..size];
    ghost var reserved := keep[..size];
    ghost var asked := CommitPhase(I, keep, size, round, commit);
    assert I[..size] == slots;
    flags := keep[..size];
  }

  /**
   * `speculative_for`: run [s, e) with the step's answers `reserve` and
   * `commit`.  It returns the number of slots attempted, or reports that
   * maxTries + 1 rounds did not finish the range.  `resolved` lists the
   * indices in the order the rounds resolved them.
   */
  method SpeculativeForRun(reserve: (int, int) -> bool, commit: (int, int) -> bool,
                           s: int, e: int, granularity: int, maxTries: int)
    returns (outcome: ForOutcome, ghost resolved: seq<int>)
    requires granularity != 0 && MaxRoundSize(s, e, granularity) >= 0
    ensures outcome == Report(Run(MakeConfig(reserve, commit, s, e, granularity, maxTries),
                                  Start(MakeConfig(reserve, commit, s, e, granularity, maxTries))))
    ensures s >= e ==> outcome == Finished(0)
    ensures outcome.Finished? ==>
              outcome.totalProcessed >= e - s && multiset(resolved) == multiset(Range(s, Max(s, e)))
  {
    ghost var c := MakeConfig(reserve, commit, s, e, granularity, maxTries);
    var tries := if maxTries < 0 then 100 + 200 * granularity else maxTries;
    var maxRoundSize := TruncDiv(e - s, granularity) + 1;
    var currentRoundSize := maxRoundSize;
    var I := new int[maxRoundSize];
    var keep := new bool[maxRoundSize];
    var hold: seq<int> := [];
    var round := 0;
    var numberDone := s;
    var numberKeep := 0;
    var totalProcessed := 0;
    resolved := [];
    ghost var st := Start(c);
    StartInv(c);
    RunResolvesAll(c);
    while numberDone < e
      invariant st.round == round && st.done == numberDone && st.hold == hold
      invariant st.total == totalProcessed && st.cur == currentRoundSize && st.resolved == resolved
      invariant numberKeep == |hold|
      invariant Inv(c, st)
      invariant Run(c, st) == Run(c, Start(c))
      decreases tries + 1 - round
    {
      if round > tries {
        outcome := TooManyIterations;
        return;
      }
      ghost var before := st;
      round := round + 1;
      var size := Min(currentRoundSize, e - numberDone);
      totalProcessed := totalProcessed + size;
      var slots, flags := RoundPhases(I, keep, hold, numberDone, size, round, reserve, commit);
      hold := Pack(slots, flags);
      resolved := resolved + Pack(slots, Flip(flags));
      numberKeep := |hold|;
      numberDone := numberDone + size - numberKeep;
      currentRoundSize := NextRoundSize(currentRoundSize, maxRoundSize, numberKeep, size);
      assert c.maxRoundSize == maxRoundSize;
      RoundMatches(c, before, size, round, slots, flags);
      st := RoundStep(c, before);
    }
    outcome := Finished(totalProcessed);
  }
}
