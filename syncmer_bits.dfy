/**
 * The rolling k-mer value of the syncmer iterator, `((kmer << 2) | smer) & mask`
 * on `uint64_t`, with a word written as its 64 bits, least significant first.
 * With a mask of the low `2 * w` bits the value depends on the last `w` words only.
 */
module SyncmerBits {

  const WordSize: nat := 64

  /** A `uint64_t` as operated on by shifts and masks: bit `i` is `b[i]`. */
  type Word = b: seq<bool> | |b| == WordSize witness seq(WordSize, _ => false)

  /** The word `0`. */
  function Zero(): Word
  {
    seq(WordSize, _ => false)
  }

  /** `x << 2`: every bit moves up by two places; the top two fall out. */
  function ShiftLeft2(x: Word): Word
  {
    seq(WordSize, i requires 0 <= i < WordSize => i >= 2 && x[i - 2])
  }

  function Or(a: Word, b: Word): Word
  {
    seq(WordSize, i requires 0 <= i < WordSize => a[i] || b[i])
  }

  function And(a: Word, b: Word): Word
  {
    seq(WordSize, i requires 0 <= i < WordSize => a[i] && b[i])
  }

  /**
   * `(1ULL << (2 * w)) - 1`: the low `2 * w` bits set. The shift is defined
   * only for amounts below 64.
   */
  function LowMask(w: nat): Word
    requires 2 * w < WordSize
  {
    seq(WordSize, i => i < 2 * w)
  }

  /** `update_kmer_value`: shift in one word and cut to the mask. */
  function Step(kmer: Word, smer: Word, mask: Word): Word
  {
    And(Or(ShiftLeft2(kmer), smer), mask)
  }

  /** The rolling value after feeding the words of `s`, in order, into `acc`. */
  function Fold(acc: Word, s: seq<Word>, mask: Word): Word
  {
    if |s| == 0 then acc else Step(Fold(acc, s[..|s| - 1], mask), s[|s| - 1], mask)
  }

  /**
   * Bit `i` of the value is set by some word of `s`: the word `j` places from the
   * end has been shifted up by `2 * j`, so its bit `i - 2 * j` lands on bit `i`.
   */
  ghost predicate SetBy(s: seq<Word>, i: nat)
    requires i < WordSize
  {
    exists j :: 0 <= j < |s| && 2 * j <= i && s[|s| - 1 - j][i - 2 * j]
  }

  /** Feeding one more word: bit `i` comes from the new word or from bit `i - 2` before. */
  lemma SetBySnoc(s: seq<Word>, i: nat)
    requires |s| > 0 && i < WordSize
    ensures SetBy(s, i) <==> s[|s| - 1][i] || (i >= 2 && SetBy(s[..|s| - 1], i - 2))
  {
    var t := s[..|s| - 1];
    if SetBy(s, i) {
      var j :| 0 <= j < |s| && 2 * j <= i && s[|s| - 1 - j][i - 2 * j];
      if j > 0 {
        var k := j - 1;
        assert t[|t| - 1 - k] == s[|s| - 1 - j];
        assert 0 <= k < |t| && 2 * k <= i - 2 && t[|t| - 1 - k][(i - 2) - 2 * k];
      }
    }
    if i >= 2 && SetBy(t, i - 2) {
      var j :| 0 <= j < |t| && 2 * j <= i - 2 && t[|t| - 1 - j][(i - 2) - 2 * j];
      var k := j + 1;
      assert s[|s| - 1 - k] == t[|t| - 1 - j];
      assert 0 <= k < |s| && 2 * k <= i && s[|s| - 1 - k][i - 2 * k];
    }
    if s[|s| - 1][i] {
      var k := 0;
      assert 0 <= k < |s| && 2 * k <= i && s[|s| - 1 - k][i - 2 * k];
    }
  }

  /**
   * Starting from zero, bit `i` of the rolling value is set exactly when it lies
   * inside the mask and some word has been shifted onto it.
   */
  lemma {:induction false} FoldBit(s: seq<Word>, w: nat, i: nat)
    requires 2 * w < WordSize && i < WordSize
    ensures Fold(Zero(), s, LowMask(w))[i] <==> i < 2 * w && SetBy(s, i)
    decreases |s|
  {
    if |s| > 0 {
      SetBySnoc(s, i);
      if i >= 2 {
        FoldBit(s[..|s| - 1], w, i - 2);
      }
    }
  }

  /** Below `2 * w`, only the last `w` words can set a bit. */
  lemma SetByWindow(s: seq<Word>, w: nat, i: nat)
    requires w <= |s| && i < 2 * w && 2 * w < WordSize
    ensures SetBy(s, i) <==> SetBy(s[|s| - w..], i)
  {
    var d := s[|s| - w..];
    if SetBy(s, i) {
      var j :| 0 <= j < |s| && 2 * j <= i && s[|s| - 1 - j][i - 2 * j];
      assert d[|d| - 1 - j] == s[|s| - 1 - j];
    }
    if SetBy(d, i) {
      var j :| 0 <= j < |d| && 2 * j <= i && d[|d| - 1 - j][i - 2 * j];
      assert d[|d| - 1 - j] == s[|s| - 1 - j];
    }
  }

  /**
   * The rolling value over everything read so far equals the value of the last
   * `w` words alone: the k-mer value describes exactly the current window.
   */
  lemma RollingValueIsWindowValue(s: seq<Word>, w: nat)
    requires 1 <= w <= |s| && 2 * w < WordSize
    ensures Fold(Zero(), s, LowMask(w)) == Fold(Zero(), s[|s| - w..], LowMask(w))
  {
    var a := Fold(Zero(), s, LowMask(w));
    var b := Fold(Zero(), s[|s| - w..], LowMask(w));
    forall i | 0 <= i < WordSize
      ensures a[i] == b[i]
    {
      FoldBit(s, w, i);
      FoldBit(s[|s| - w..], w, i);
      if i < 2 * w {
        SetByWindow(s, w, i);
      }
    }
  }

  /** Feeding one more word is one more step. */
  lemma FoldSnoc(acc: Word, t: seq<Word>, x: Word, m: Word)
    ensures Fold(acc, t + [x], m) == Step(Fold(acc, t, m), x, m)
  {
    assert (t + [x])[..|t|] == t;
  }

  /** Every step's result lies inside the mask. */
  lemma StepInsideMask(k: Word, x: Word, w: nat)
    requires 2 * w < WordSize
    ensures forall i :: 2 * w <= i < WordSize ==> !Step(k, x, LowMask(w))[i]
  {
  }
}
