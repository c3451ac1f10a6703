/**
 * `kmer_to_string` from the syncmer and minimiser tests: decodes a k-mer
 * packed with 2 bits per `dna4` rank (first letter in the most significant
 * group) back into its ranks.
 */
module KmerDecode {

  /** A `dna4` rank. */
  type Rank = r: nat | r < 4

  /** Largest `uint64_t` value plus one. */
  const Uint64Bound: nat := 0x1_0000_0000_0000_0000

  function Pow4(n: nat): (p: nat)
    ensures p >= 1
  {
    if n == 0 then 1 else 4 * Pow4(n - 1)
  }

  /**
   * The ranks of the lowest `k` 2-bit groups of `x`, most significant group first:
   * the last letter is `x & 3` and the others decode `x >> 2`.
   */
  function Decode(x: nat, k: nat): (r: seq<Rank>)
    ensures |r| == k
  {
    if k == 0 then [] else Decode(x / 4, k - 1) + [x % 4]
  }

  /** 2-bit packing, first rank most significant: the inverse direction of `Decode`. */
  function Pack(s: seq<Rank>): (x: nat)
    ensures x < Pow4(|s|)
  {
    if |s| == 0 then 0 else 4 * Pack(s[..|s| - 1]) + s[|s| - 1]
  }

  /** `kmer_to_string`: fills `result[k-1-i]` with `kmer & 3` and shifts `kmer` right by 2. */
  method KmerToString(kmer: nat, kmerSize: nat) returns (result: seq<Rank>)
    requires kmer < Uint64Bound
    ensures |result| == kmerSize
    ensures forall i :: 0 <= i < kmerSize ==> result[kmerSize - 1 - i] == (kmer / Pow4(i)) % 4
    ensures result == Decode(kmer, kmerSize)
  {
    var letters := new Rank[kmerSize](_ => 0);
    var rest := kmer;
    var i := 0;
    while i < kmerSize
      invariant 0 <= i <= kmerSize
      invariant rest == kmer / Pow4(i)
      invariant forall j :: 0 <= j < i ==> letters[kmerSize - 1 - j] == (kmer / Pow4(j)) % 4
    {
      letters[kmerSize - 1 - i] := rest % 4;
      DivDiv(kmer, Pow4(i), 4);
      rest := rest / 4;
      i := i + 1;
    }
    result := letters[..];
    forall j | 0 <= j < kmerSize
      ensures result[j] == Decode(kmer, kmerSize)[j]
    {
      DecodeIndex(kmer, kmerSize, j);
      assert result[kmerSize - 1 - (kmerSize - 1 - j)] == (kmer / Pow4(kmerSize - 1 - j)) % 4;
    }
  }

  lemma DivDiv(x: nat, a: nat, b: nat)
    requires a > 0 && b > 0
    ensures x / a / b == x / (a * b)
  {
    var q := x / a;
    var r := x % a;
    var q2 := q / b;
    var r2 := q % b;
    assert x == a * q + r;
    assert q == b * q2 + r2;
    assert a * q == a * (b * q2) + a * r2 by {
      MulAdd(a, b * q2, r2);
    }
    assert a * (b * q2) == (a * b) * q2;
    assert a * r2 + r < a * b by {
      assert r2 <= b - 1;
      MulMono(a, r2, b - 1);
      MulAdd(a, b - 1, 1);
    }
    DivModUnique(x, a * b, q2, a * r2 + r);
  }

  lemma MulAdd(a: int, b: int, c: int)
    ensures a * (b + c) == a * b + a * c
  {
  }

  lemma MulMono(a: nat, b: nat, c: nat)
    requires b <= c
    ensures a * b <= a * c
  {
  }

  /** Division with remainder has one answer. */
  lemma DivModUnique(x: int, d: int, q: int, t: int)
    requires d > 0 && 0 <= t < d && x == d * q + t
    ensures x / d == q && x % d == t
  {
    var q0 := x / d;
    var t0 := x % d;
    var k := q - q0;
    assert d * q == d * q0 + d * k;
    assert d * k == t0 - t;
    if k >= 1 {
      MulAtLeast(d, k);
    } else if k <= -1 {
      MulAtLeast(d, -k);
    }
  }

  lemma MulAtLeast(d: int, k: int)
    requires d > 0 && k >= 1
    ensures d * k >= d
  {
    assert d * k == d * (k - 1) + d;
  }

  /** Letter `j` is the 2-bit group `k-1-j` of `x`. */
  lemma {:induction false} DecodeIndex(x: nat, k: nat, j: nat)
    requires j < k
    ensures Decode(x, k)[j] == (x / Pow4(k - 1 - j)) % 4
  {
    if j == k - 1 {
    } else {
      DecodeIndex(x / 4, k - 1, j);
      DivDiv(x, 4, Pow4(k - 2 - j));
    }
  }

  /** Splitting off the lowest 2-bit group of `x % 4m`. */
  lemma ModSplit(x: nat, m: nat)
    requires m > 0
    ensures x % (4 * m) == 4 * ((x / 4) % m) + x % 4
    ensures (x % (4 * m)) / 4 == (x / 4) % m
    ensures (x % (4 * m)) % 4 == x % 4
  {
    var q := x / 4;
    var r := x % 4;
    var a := q / m;
    var b := q % m;
    assert x == 4 * q + r;
    assert q == m * a + b;
    assert x == (4 * m) * a + (4 * b + r);
    DivModUnique(x, 4 * m, a, 4 * b + r);
    DivModUnique(4 * b + r, 4, b, r);
  }

  /** Re-packing the decoded ranks gives the k-mer with its bits above `2k` cleared. */
  lemma {:induction false} PackDecode(x: nat, k: nat)
    ensures Pack(Decode(x, k)) == x % Pow4(k)
  {
    if k > 0 {
      var d := Decode(x, k);
      assert d[..k - 1] == Decode(x / 4, k - 1);
      PackDecode(x / 4, k - 1);
      ModSplit(x, Pow4(k - 1));
    }
  }

  /** Decoding a packed sequence of ranks gives the sequence back. */
  lemma {:induction false} DecodePack(s: seq<Rank>)
    ensures Decode(Pack(s), |s|) == s
  {
    if |s| > 0 {
      var init := s[..|s| - 1];
      DecodePack(init);
      DivModUnique(Pack(s), 4, Pack(init), s[|s| - 1]);
    }
  }

  /** Bits above the lowest `2k` do not influence the result. */
  lemma {:induction false} DecodeIgnoresHighBits(x: nat, k: nat)
    ensures Decode(x, k) == Decode(x % Pow4(k), k)
  {
    if k > 0 {
      ModSplit(x, Pow4(k - 1));
      DecodeIgnoresHighBits(x / 4, k - 1);
    }
  }

  /** The k-mer 0 decodes to `k` letters of rank 0. */
  lemma {:induction false} DecodeZero(k: nat)
    ensures Decode(0, k) == seq(k, _ => 0)
  {
    if k > 0 {
      DecodeZero(k - 1);
    }
  }
}
