/**
 * The two-letter `dna2` alphabet of the "write an alphabet" how-to:
 * rank 0 is 'S' (strong), rank 1 is 'W' (weak).
 */
module Dna2 {

  /** A value of the source's `char` type, as its unsigned index (0..255). */
  type Byte = x: int | 0 <= x < 256

  /** `alphabet_size` of `alphabet_base<dna2, 2>`. */
  const AlphabetSize: nat := 2

  type Rank = r: nat | r < AlphabetSize

  const CharS: Byte := 'S' as int
  const CharW: Byte := 'W' as int
  const CharLowerW: Byte := 'w' as int

  /** `rank_to_char_table`: {'S', 'W'}. */
  const RankToCharTable: seq<Byte> := [CharS, CharW]

  /** `char_to_rank_table`: every entry 0 except those of 'W' and 'w'. */
  function CharToRankTable(): (t: seq<Rank>)
    ensures |t| == 256
  {
    seq(256, c => if c == CharW || c == CharLowerW then 1 else 0)
  }

  /** `rank_to_char`, the table lookup that the source returns from. */
  function RankToChar(rank: Rank): (c: Byte)
    ensures rank == 0 ==> c == CharS
    ensures rank == 1 ==> c == CharW
  {
    RankToCharTable[rank]
  }

  /** `char_to_rank`, the table lookup that the source returns from. */
  function CharToRank(c: Byte): (r: Rank)
    ensures r == 1 <==> c == CharW || c == CharLowerW
  {
    CharToRankTable()[c]
  }

  /** `seqan3::to_lower`: maps 'A'..'Z' to 'a'..'z' and leaves every other char alone. */
  function ToLower(c: Byte): (l: Byte)
    ensures 'A' as int <= c <= 'Z' as int ==> l == c + ('a' as int - 'A' as int)
    ensures !('A' as int <= c <= 'Z' as int) ==> l == c
    ensures !('A' as int <= l <= 'Z' as int)
  {
    if 'A' as int <= c <= 'Z' as int then c + ('a' as int - 'A' as int) else c
  }

  /** The arithmetic form of `rank_to_char`, unreachable after the table's return. */
  function RankToCharArithmetic(rank: Rank): (c: Byte)
    ensures c == CharS || c == CharW
    ensures c == CharW <==> rank == 1
  {
    if rank == 1 then CharW else CharS
  }

  /** The arithmetic form of `char_to_rank`, unreachable after the table's return. */
  function CharToRankArithmetic(c: Byte): (r: Rank)
    ensures r == 1 <==> c == CharW || c == CharLowerW
  {
    if ToLower(c) == CharLowerW then 1 else 0
  }

  /** The two ways the how-to writes each conversion agree on every input. */
  lemma ArithmeticFormsAgree()
    ensures forall r: Rank :: RankToCharArithmetic(r) == RankToChar(r)
    ensures forall c: Byte :: CharToRankArithmetic(c) == CharToRank(c)
  {
  }

  /** Converting a rank to its char and back gives the rank. */
  lemma CharOfRankRoundTrip(r: Rank)
    ensures CharToRank(RankToChar(r)) == r
  {
  }

  /** Only 'S' and 'W' are produced, and a char is the image of a rank exactly when it is one of them. */
  lemma RankToCharImage(c: Byte)
    ensures (exists r: Rank :: RankToChar(r) == c) <==> c == CharS || c == CharW
  {
    if c == CharS { assert RankToChar(0) == c; }
    if c == CharW { assert RankToChar(1) == c; }
  }
}
