/**
 * The `dna2` struct of the comparison how-to: a single `uint8_t rank`
 * member and the six comparison operators, each a comparison of ranks.
 */
module Dna2Comparison {

  /** The source's `uint8_t`. */
  type Uint8 = x: int | 0 <= x < 256

  datatype Dna2 = Dna2(rank: Uint8)

  /** `operator==`: ranks are equal. */
  predicate Eq(lhs: Dna2, rhs: Dna2): (r: bool)
    ensures r <==> lhs == rhs
  {
    lhs.rank == rhs.rank
  }

  /** `operator!=`: written as the negation of `operator==`. */
  predicate Ne(lhs: Dna2, rhs: Dna2): (r: bool)
    ensures r <==> lhs != rhs
  {
    !Eq(lhs, rhs)
  }

  /** `operator<`. */
  predicate Lt(lhs: Dna2, rhs: Dna2): (r: bool)
    ensures r ==> lhs != rhs
    ensures lhs != rhs ==> r || rhs.rank < lhs.rank
  {
    lhs.rank < rhs.rank
  }

  /** `operator<=`. */
  predicate Le(lhs: Dna2, rhs: Dna2): (r: bool)
    ensures r <==> Lt(lhs, rhs) || lhs == rhs
  {
    lhs.rank <= rhs.rank
  }

  /** `operator>`. */
  predicate Gt(lhs: Dna2, rhs: Dna2): (r: bool)
    ensures r <==> Lt(rhs, lhs)
  {
    lhs.rank > rhs.rank
  }

  /** `operator>=`. */
  predicate Ge(lhs: Dna2, rhs: Dna2): (r: bool)
    ensures r <==> Lt(rhs, lhs) || lhs == rhs
  {
    lhs.rank >= rhs.rank
  }

  /**
   * What `std::totally_ordered` asks of `<` beyond the contracts of the
   * derived operators: a strict total order, with `Eq` for the ties.
   */
  lemma TotallyOrdered(a: Dna2, b: Dna2, c: Dna2)
    ensures !Lt(a, a)
    ensures Lt(a, b) && Lt(b, c) ==> Lt(a, c)
    ensures Lt(a, b) || Eq(a, b) || Lt(b, a)
    ensures Lt(a, b) ==> !Lt(b, a)
  {
  }
}
