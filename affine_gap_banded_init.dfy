/**
 * Initialisation of the first row and column of a banded dynamic programming
 * matrix under an affine gap scheme (`affine_gap_banded_init_policy`).
 *
 * A matrix entry holds the best score `main` and the horizontal gap score
 * `hz`; the alignment cache holds the running vertical gap score `vt`, the
 * cost of opening a gap (which already includes its first extension) and the
 * cost of each further extension. Two traits say whether leading gaps in the
 * first or in the second sequence are free.
 */
module AffineGapBandedInit {

  /** One entry of a matrix cell: the best score and the horizontal gap score. */
  class Entry {
    var main: int
    var hz: int
  }

  /** The hot values of the alignment cache used by the initialisation. */
  class Cache {
    /** Running vertical gap score. */
    var vt: int
    /** Score of a gap of length one: opening plus the first extension. */
    const gapOpen: int
    /** Score of every further gap position. */
    const gapExtend: int
  }

  /** The band: diagonals `lower` .. `upper` relative to the origin. */
  datatype Band = Band(lower: int, upper: int)

  /** Score of a gap of length `n` under the affine scheme the cache encodes. */
  function LeadingGapCost(gapOpen: int, gapExtend: int, n: nat): int
  {
    if n == 0 then 0 else gapOpen + (n - 1) * gapExtend
  }

  /** Gap score written into the origin: 0 when leading gaps are free, else one gap opening. */
  function OriginGap(gapOpen: int, free: bool): int
  {
    if free then 0 else gapOpen
  }

  /** Running gap score after one more first-column (or first-row) cell. */
  function ExtendedGap(gap: int, gapExtend: int, free: bool): int
  {
    if free then 0 else gap + gapExtend
  }

  /** The vertical score after the origin and `k` first-column cells. */
  function FirstColumnVertical(gapOpen: int, gapExtend: int, freeSecond: bool, k: nat): int
  {
    if k == 0 then OriginGap(gapOpen, freeSecond)
    else ExtendedGap(FirstColumnVertical(gapOpen, gapExtend, freeSecond, k - 1), gapExtend, freeSecond)
  }

  /** The horizontal score stored after the origin and `k` first-row cells. */
  function FirstRowHorizontal(gapOpen: int, gapExtend: int, freeFirst: bool, k: nat): int
  {
    if k == 0 then OriginGap(gapOpen, freeFirst)
    else ExtendedGap(FirstRowHorizontal(gapOpen, gapExtend, freeFirst, k - 1), gapExtend, freeFirst)
  }

  /**
   * Running the column initialisation from the origin: the vertical score after
   * `k` cells is the cost of a leading gap of length `k + 1` (or 0 when leading
   * gaps in the second sequence are free), so the cell in row `i >= 1` receives
   * the cost of a gap of length `i` as its main score.
   */
  lemma {:induction false} FirstColumnIsLeadingGap(gapOpen: int, gapExtend: int, freeSecond: bool, k: nat)
    ensures FirstColumnVertical(gapOpen, gapExtend, freeSecond, k)
         == (if freeSecond then 0 else LeadingGapCost(gapOpen, gapExtend, k + 1))
  {
    if k > 0 {
      FirstColumnIsLeadingGap(gapOpen, gapExtend, freeSecond, k - 1);
      if !freeSecond {
        assert (k - 1) * gapExtend + gapExtend == k * gapExtend;
      }
    }
  }

  /** The same for the first row: the cell in column `j >= 1` receives the cost of a gap of length `j`. */
  lemma {:induction false} FirstRowIsLeadingGap(gapOpen: int, gapExtend: int, freeFirst: bool, k: nat)
    ensures FirstRowHorizontal(gapOpen, gapExtend, freeFirst, k)
         == (if freeFirst then 0 else LeadingGapCost(gapOpen, gapExtend, k + 1))
  {
    if k > 0 {
      FirstRowIsLeadingGap(gapOpen, gapExtend, freeFirst, k - 1);
      if !freeFirst {
        assert (k - 1) * gapExtend + gapExtend == k * gapExtend;
      }
    }
  }

  /** The policy, parameterised by the two free-leading-gap traits. */
  class BandedInitPolicy {
    const freeFirstLeading: bool
    const freeSecondLeading: bool

    constructor (freeFirstLeading: bool, freeSecondLeading: bool)
      ensures this.freeFirstLeading == freeFirstLeading
      ensures this.freeSecondLeading == freeSecondLeading
    {
      this.freeFirstLeading := freeFirstLeading;
      this.freeSecondLeading := freeSecondLeading;
    }

    /** `init_origin_cell`: main 0, and each gap score 0 or one gap opening. */
    method InitOriginCell(cell: Entry, cache: Cache)
      modifies cell, cache
      ensures cell.main == 0
      ensures cache.vt == OriginGap(cache.gapOpen, freeSecondLeading)
      ensures cell.hz == OriginGap(cache.gapOpen, freeFirstLeading)
    {
      cell.main := 0;
      if freeSecondLeading {
        cache.vt := 0;
      } else {
        cache.vt := cache.gapOpen;
      }
      if freeFirstLeading {
        cell.hz := 0;
      } else {
        cell.hz := cache.gapOpen;
      }
    }

    /**
     * `init_column_cell`: the cell takes the running vertical score, the running
     * score grows by one extension (or stays 0), and a horizontal gap opens from
     * the new main score.
     */
    method InitColumnCell(cell: Entry, cache: Cache)
      modifies cell, cache
      ensures cell.main == old(cache.vt)
      ensures cache.vt == ExtendedGap(old(cache.vt), cache.gapExtend, freeSecondLeading)
      ensures cell.hz == cell.main + cache.gapOpen
    {
      cell.main := cache.vt;
      if freeSecondLeading {
        cache.vt := 0;
      } else {
        cache.vt := cache.vt + cache.gapExtend;
      }
      cell.hz := cell.main + cache.gapOpen;
    }

    /**
     * `init_row_cell`: `next` holds the horizontal score of the previous column
     * (shifted by one). The current entry takes it as main score, the vertical
     * score grows by main plus one opening, and the current horizontal score is
     * the previous one extended (or 0). `current` and `next` may be the same entry.
     */
    method InitRowCell(current: Entry, next: Entry, cache: Cache)
      modifies current, cache
      ensures current.main == old(next.hz)
      ensures cache.vt == old(cache.vt) + old(next.hz) + cache.gapOpen
      ensures current.hz == ExtendedGap(old(next.hz), cache.gapExtend, freeFirstLeading)
      ensures current != next ==> next.main == old(next.main) && next.hz == old(next.hz)
    {
      var shifted := next.hz;
      current.main := shifted;
      cache.vt := cache.vt + current.main + cache.gapOpen;
      if freeFirstLeading {
        current.hz := 0;
      } else {
        current.hz := shifted + cache.gapExtend;
      }
    }

    /**
     * The total after `balance_leading_gaps`: the band starts below the origin
     * (`upper < 0`) or right of it (`lower > 0`); unless those leading gaps are
     * free, the score of the gap leading to the band's start is added.
     */
    function BalancedTotal(total: int, band: Band, score: nat -> int): (r: int)
      ensures (freeSecondLeading || band.upper >= 0) && (freeFirstLeading || band.lower <= 0) ==> r == total
      ensures !freeSecondLeading && band.upper < 0 && (freeFirstLeading || band.lower <= 0) ==>
                r == total + score(-band.upper)
      ensures (freeSecondLeading || band.upper >= 0) && !freeFirstLeading && band.lower > 0 ==>
                r == total + score(band.lower)
      ensures !freeSecondLeading && band.upper < 0 && !freeFirstLeading && band.lower > 0 ==>
                r == total + score(-band.upper) + score(band.lower)
    {
      var afterSecond := if !freeSecondLeading && band.upper < 0 then total + score(-band.upper) else total;
      if !freeFirstLeading && band.lower > 0 then afterSecond + score(band.lower) else afterSecond
    }

    /** `balance_leading_gaps`: `total` is updated in place; here it is passed in and returned. */
    method BalanceLeadingGaps(total: int, band: Band, score: nat -> int) returns (balanced: int)
      ensures balanced == BalancedTotal(total, band, score)
    {
      balanced := total;
      if !freeSecondLeading {
        if 0 > band.upper {
          balanced := balanced + score(-band.upper);
        }
      }
      if !freeFirstLeading {
        if band.lower > 0 {
          balanced := balanced + score(band.lower);
        }
      }
    }

    /**
     * When the gap scheme agrees with the cached costs, balancing a band that
     * starts `|upper|` rows below the origin adds exactly the main score that
     * the first-column initialisation gives row `|upper|`.
     */
    lemma BalanceMatchesColumnInit(total: int, band: Band, score: nat -> int, gapOpen: int, gapExtend: int)
      requires forall n: nat :: n >= 1 ==> score(n) == LeadingGapCost(gapOpen, gapExtend, n)
      requires band.upper < 0 && (freeFirstLeading || band.lower <= 0)
      ensures BalancedTotal(total, band, score)
           == total + (if freeSecondLeading then 0
                       else FirstColumnVertical(gapOpen, gapExtend, freeSecondLeading, -band.upper - 1))
    {
      FirstColumnIsLeadingGap(gapOpen, gapExtend, freeSecondLeading, -band.upper - 1);
    }

    /** The same for a band that starts `lower` columns right of the origin and the first row. */
    lemma BalanceMatchesRowInit(total: int, band: Band, score: nat -> int, gapOpen: int, gapExtend: int)
      requires forall n: nat :: n >= 1 ==> score(n) == LeadingGapCost(gapOpen, gapExtend, n)
      requires band.lower > 0 && (freeSecondLeading || band.upper >= 0)
      ensures BalancedTotal(total, band, score)
           == total + (if freeFirstLeading then 0
                       else FirstRowHorizontal(gapOpen, gapExtend, freeFirstLeading, band.lower - 1))
    {
      FirstRowIsLeadingGap(gapOpen, gapExtend, freeFirstLeading, band.lower - 1);
    }
  }
}
