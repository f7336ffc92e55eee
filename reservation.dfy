/**
 * The reservation cell of deterministic reservations (speculative_for.h):
 * an `intT` that holds the smallest index that has claimed it so far, with
 * `max_int` meaning "unclaimed".  A claim is a write-min, so whatever the
 * order of the claims in a round, the smallest claimant wins the cell.
 */
module Reservations {

  /** `intT`, taken as a 32-bit signed integer. */
  newtype IntT = x: int | -0x8000_0000 <= x < 0x8000_0000

  /** `max_int`: the largest intT, the value of an unclaimed cell. */
  const MaxInt: IntT := 0x7FFF_FFFF

  /** `write_min`: the cell keeps the smaller of its value and the claim. */
  function WriteMin(r: IntT, i: IntT): (m: IntT)
    ensures m <= r && m <= i
    ensures m == r || m == i
  {
    if i < r then i else r
  }

  /** The cell after the claims cs, in order. */
  function ClaimAll(r: IntT, cs: seq<IntT>): IntT
    decreases |cs|
  {
    if cs == [] then r else WriteMin(ClaimAll(r, cs[..|cs| - 1]), cs[|cs| - 1])
  }

  /** After a run of claims the cell holds the smallest of its old value and the claims. */
  lemma {:induction false} ClaimAllIsMin(r: IntT, cs: seq<IntT>)
    ensures ClaimAll(r, cs) <= r
    ensures forall k :: 0 <= k < |cs| ==> ClaimAll(r, cs) <= cs[k]
    ensures ClaimAll(r, cs) == r || exists k :: 0 <= k < |cs| && ClaimAll(r, cs) == cs[k]
    decreases |cs|
  {
    if cs != [] {
      var p := cs[..|cs| - 1];
      ClaimAllIsMin(r, p);
      forall k | 0 <= k < |cs| ensures ClaimAll(r, cs) <= cs[k] {
        if k < |p| {
          assert cs[k] == p[k];
        }
      }
      if ClaimAll(r, p) != r && ClaimAll(r, cs) != cs[|cs| - 1] {
        var k :| 0 <= k < |p| && ClaimAll(r, p) == p[k];
        assert cs[k] == p[k];
      }
    }
  }

  /** The outcome of a round of claims does not depend on their order. */
  lemma ClaimAllOrderFree(r: IntT, cs: seq<IntT>, ds: seq<IntT>)
    requires multiset(cs) == multiset(ds)
    ensures ClaimAll(r, cs) == ClaimAll(r, ds)
  {
    ClaimAllIsMin(r, cs);
    ClaimAllIsMin(r, ds);
    var a, b := ClaimAll(r, cs), ClaimAll(r, ds);
    forall k | 0 <= k < |ds| ensures a <= ds[k] {
      assert ds[k] in multiset(cs);
    }
    forall k | 0 <= k < |cs| ensures b <= cs[k] {
      assert cs[k] in multiset(ds);
    }
    if a != r {
      var k :| 0 <= k < |cs| && a == cs[k];
    }
    if b != r {
      var k :| 0 <= k < |ds| && b == ds[k];
    }
  }

  /** `reservation`: one cell. */
  class Reservation {
    var r: IntT

    /** A fresh reservation is unclaimed. */
    constructor ()
      ensures r == MaxInt
      ensures !Reserved()
    {
      r := MaxInt;
    }

    /** `reserve(i)`: claim the cell for i; the smaller claimant keeps it. */
    method Reserve(i: IntT)
      modifies this
      ensures r == WriteMin(old(r), i)
      ensures r <= old(r) && r <= i
    {
      r := WriteMin(r, i);
    }

    /** `reserved()`: some index holds the cell. */
    predicate Reserved()
      reads this
      ensures Reserved() <==> exists i: IntT :: i < MaxInt && Check(i)
    {
      assert r < MaxInt ==> Check(r);
      r < MaxInt
    }

    /** `reset()`: release the cell. */
    method Reset()
      modifies this
      ensures r == MaxInt && !Reserved()
    {
      r := MaxInt;
    }

    /** `check(i)`: i holds the cell. */
    predicate Check(i: IntT)
      reads this
    {
      r == i
    }

    /**
     * `checkReset(i)`: when i holds the cell, release it and answer true;
     * otherwise leave it and answer false.
     */
    method CheckReset(i: IntT) returns (held: bool)
      modifies this
      ensures held == old(Check(i))
      ensures held ==> r == MaxInt
      ensures !held ==> r == old(r)
    {
      if r == i {
        r := MaxInt;
        held := true;
      } else {
        held := false;
      }
    }
  }

  /** `reserveLoc(x, i)`: the same write-min on a bare cell, here element k of an array. */
  method ReserveLoc(cells: array<IntT>, k: nat, i: IntT)
    requires k < cells.Length
    modifies cells
    ensures cells[k] == WriteMin(old(cells[k]), i)
    ensures forall j :: 0 <= j < cells.Length && j != k ==> cells[j] == old(cells[j])
  {
    cells[k] := WriteMin(cells[k], i);
  }

  /** Claiming a fresh cell for every index of cs leaves it reserved by the smallest, if any is below max_int. */
  lemma ClaimedWinner(cs: seq<IntT>)
    ensures forall k :: 0 <= k < |cs| ==> ClaimAll(MaxInt, cs) <= cs[k]
    ensures (exists k :: 0 <= k < |cs| && cs[k] < MaxInt) ==> ClaimAll(MaxInt, cs) < MaxInt
  {
    ClaimAllIsMin(MaxInt, cs);
  }
}
