/**
 * The backoff helper of bclx/bclx/core/util/backoff.hpp: a delay `bk`
 * kept at most `bk_max`, handed out (or a value drawn below it) by each
 * delay call and then doubled or incremented unless that would pass
 * `bk_max`.  The sleeps are left out; the random draw of delay_exp is a
 * parameter.
 */
module Backoff {
  /** The largest uint64_t. */
  const U64Max: nat := 0xFFFF_FFFF_FFFF_FFFF

  /** A uint64_t product or sum, reduced modulo 2^64. */
  function Wrap(x: nat): (r: nat)
    ensures r <= U64Max && (x <= U64Max ==> r == x)
  {
    x % (U64Max + 1)
  }

  function Min(a: nat, b: nat): nat {
    if a <= b then a else b
  }

  /** The clamp every delay call starts with. */
  function Clamp(bk: nat, bkMax: nat): (r: nat)
    ensures r <= bkMax && r <= bk && (bk <= bkMax ==> r == bk)
  {
    if bk > bkMax then bkMax else bk
  }

  /** `if (2 * bk <= bk_max) bk *= 2;`, in uint64_t arithmetic as written. */
  function DoubledAsWritten(bk: nat, bkMax: nat): nat {
    if Wrap(2 * bk) <= bkMax then Wrap(2 * bk) else bk
  }

  /** `if (1 + bk <= bk_max) ++bk;`, in uint64_t arithmetic as written. */
  function IncrementedAsWritten(bk: nat, bkMax: nat): nat {
    if Wrap(1 + bk) <= bkMax then Wrap(1 + bk) else bk
  }

  /** The doubling as intended: twice `bk` when that does not pass `bkMax`. */
  function Doubled(bk: nat, bkMax: nat): (r: nat)
    ensures bk <= bkMax ==> bk <= r <= bkMax
    ensures r == bk || r == 2 * bk
  {
    if 2 * bk <= bkMax then 2 * bk else bk
  }

  /** The increment as intended: one more when that does not pass `bkMax`. */
  function Incremented(bk: nat, bkMax: nat): (r: nat)
    ensures bk <= bkMax ==> bk <= r <= bkMax
    ensures r == bk || r == bk + 1
  {
    if 1 + bk <= bkMax then 1 + bk else bk
  }

  /**
   * With `bk_max` of 2^63 or more, doubling 2^63 wraps to 0, which passes
   * the guard: the delay drops to 0 and stays there, while the intended
   * doubling keeps it.  Below 2^63 the two agree.
   */
  lemma DoubledAsWrittenWraps(bkMax: nat)
    requires 0x8000_0000_0000_0000 <= bkMax <= U64Max
    ensures DoubledAsWritten(0x8000_0000_0000_0000, bkMax) == 0
    ensures DoubledAsWritten(0, bkMax) == 0
    ensures Doubled(0x8000_0000_0000_0000, bkMax) == 0x8000_0000_0000_0000
  {
  }

  lemma DoubledAgrees(bk: nat, bkMax: nat)
    requires bk < 0x8000_0000_0000_0000
    ensures DoubledAsWritten(bk, bkMax) == Doubled(bk, bkMax)
  {
  }

  /**
   * With `bk_max` the largest uint64_t, incrementing it wraps to 0, which
   * passes the guard; the intended increment keeps it.  Below it the two
   * agree.
   */
  lemma IncrementedAsWrittenWraps()
    ensures IncrementedAsWritten(U64Max, U64Max) == 0
    ensures Incremented(U64Max, U64Max) == U64Max
  {
  }

  lemma IncrementedAgrees(bk: nat, bkMax: nat)
    requires bk < U64Max
    ensures IncrementedAsWritten(bk, bkMax) == Incremented(bk, bkMax)
  {
  }

  function Pow2(k: nat): (r: nat)
    ensures r >= 1
  {
    if k == 0 then 1 else 2 * Pow2(k - 1)
  }

  /** The results of `n` successive delay_dbl calls from `bk`. */
  function DblResults(bk: nat, bkMax: nat, n: nat): (rs: seq<nat>)
    ensures |rs| == n
    ensures n > 0 ==> rs[0] == Clamp(bk, bkMax)
    decreases n
  {
    if n == 0 then []
    else
      var r := Clamp(bk, bkMax);
      [r] + DblResults(Doubled(r, bkMax), bkMax, n - 1)
  }

  /** Successive delay_dbl results never decrease and never pass `bk_max`. */
  lemma {:induction false} DblResultsGrow(bk: nat, bkMax: nat, n: nat)
    ensures forall k :: 0 <= k < n ==> DblResults(bk, bkMax, n)[k] <= bkMax
    ensures forall k :: 0 <= k && k + 1 < n ==> DblResults(bk, bkMax, n)[k] <= DblResults(bk, bkMax, n)[k + 1]
    decreases n
  {
    if n > 0 {
      var next := Doubled(Clamp(bk, bkMax), bkMax);
      DblResultsGrow(next, bkMax, n - 1);
      assert DblResults(bk, bkMax, n) == [Clamp(bk, bkMax)] + DblResults(next, bkMax, n - 1);
      if n > 1 {
        assert DblResults(next, bkMax, n - 1)[0] == next;
      }
    }
  }

  /**
   * From a start within `bk_max`, the k-th delay_dbl result is the start
   * times 2^k as long as that is within `bk_max`.
   */
  lemma {:induction false} DblResultsDouble(bk: nat, bkMax: nat, n: nat, k: nat)
    requires bk <= bkMax && k < n && bk * Pow2(k) <= bkMax
    ensures DblResults(bk, bkMax, n)[k] == bk * Pow2(k)
    decreases n
  {
    if k > 0 {
      PowStep(bk, k);
      DblResultsDouble(2 * bk, bkMax, n - 1, k - 1);
      assert DblResults(bk, bkMax, n) == [bk] + DblResults(2 * bk, bkMax, n - 1);
    }
  }

  /** bk * 2^k is (2 * bk) * 2^(k-1), which is at least 2 * bk. */
  lemma PowStep(bk: nat, k: nat)
    requires k > 0
    ensures bk * Pow2(k) == (2 * bk) * Pow2(k - 1) >= 2 * bk
  {
    var p := Pow2(k - 1);
    assert Pow2(k) == 2 * p;
    assert bk * (2 * p) == (2 * bk) * p;
    assert (2 * bk) * p == 2 * bk + (2 * bk) * (p - 1);
  }

  class Backoff {
    var bk: nat       // bk
    var bkMax: nat    // bk_max
    var res: nat      // res, the last delay handed out

    ghost predicate Valid()
      reads this
    {
      bk <= U64Max && bkMax <= U64Max && res <= U64Max
    }

    /** backoff(init, max). */
    constructor (init: nat, max: nat)
      requires init <= U64Max && max <= U64Max
      ensures Valid() && bk == init && bkMax == max
    {
      bk, bkMax := init, max;
      res := 0;
    }

    /**
     * delay_dbl: hands out the clamped delay and doubles it for next time
     * unless that would pass `bk_max`.
     */
    method DelayDbl() returns (r: nat)
      requires Valid()
      modifies this
      ensures Valid() && bkMax == old(bkMax)
      ensures r == res == Clamp(old(bk), bkMax) && bk == Doubled(r, bkMax)
      ensures r <= bk <= bkMax
    {
      if bk > bkMax {
        bk := bkMax;
      }
      res := bk;
      if 2 * bk <= bkMax {
        bk := 2 * bk;
      }
      r := res;
    }

    /**
     * delay_inc: hands out the clamped delay and increments it for next
     * time unless that would pass `bk_max`.
     */
    method DelayInc() returns (r: nat)
      requires Valid()
      modifies this
      ensures Valid() && bkMax == old(bkMax)
      ensures r == res == Clamp(old(bk), bkMax) && bk == Incremented(r, bkMax)
      ensures r <= bk <= bkMax
    {
      if bk > bkMax {
        bk := bkMax;
      }
      res := bk;
      if 1 + bk <= bkMax {
        bk := bk + 1;
      }
      r := res;
    }

    /**
     * delay_exp: hands out `draw`, the uniform draw from [0, bk] after the
     * clamp, and then doubles `bk` as delay_dbl does.
     */
    method DelayExp(draw: nat) returns (r: nat)
      requires Valid() && draw <= Clamp(bk, bkMax)
      modifies this
      ensures Valid() && bkMax == old(bkMax)
      ensures r == res == draw && bk == Doubled(Clamp(old(bk), bkMax), bkMax)
      ensures r <= bk <= bkMax
    {
      if bk > bkMax {
        bk := bkMax;
      }
      res := draw;
      if 2 * bk <= bkMax {
        bk := 2 * bk;
      }
      r := res;
    }
  }
}
