/**
 * The syncmer view's iterator. It reads a stream of s-mer hash values
 * (the output of `kmer_hash`, given here as a sequence), keeps a window of
 * `window_size` of them, tracks the value and position of a minimum of the
 * window, and stops only where that position equals the configured offset.
 * Beside it runs a rolling value `((kmer << 2) | smer) & mask`.
 */
module Syncmer {
  import opened SyncmerBits

  const Uint64Bound: nat := 0x1_0000_0000_0000_0000

  /** A hash value of the underlying range (`uint64_t`), compared as a number. */
  type Hash = x: int | 0 <= x < Uint64Bound

  function Min(a: nat, b: nat): nat
  {
    if a <= b then a else b
  }

  function Pow2(n: nat): (p: nat)
    ensures p >= 1
  {
    if n == 0 then 1 else 2 * Pow2(n - 1)
  }

  /** The bits of a hash value: bit `i` is the `i`-th binary digit. */
  function WordOf(h: Hash): Word
  {
    seq(WordSize, i requires 0 <= i < WordSize => (h / Pow2(i)) % 2 == 1)
  }

  /** The hashes as words, converted one by one. */
  function ToWords(s: seq<Hash>): (b: seq<Word>)
    ensures |b| == |s|
  {
    seq(|s|, i requires 0 <= i < |s| => WordOf(s[i]))
  }

  /** Position `i` holds a minimum of `s`. */
  predicate IsMinAt(s: seq<Hash>, i: nat)
  {
    i < |s| && forall j :: 0 <= j < |s| ==> s[i] <= s[j]
  }

  /** Position `i` holds the only minimum of `s`. */
  predicate IsUniqueMinAt(s: seq<Hash>, i: nat)
  {
    i < |s| && forall j :: 0 <= j < |s| && j != i ==> s[i] < s[j]
  }

  /** Position `i` holds the last of the minima of `s`. */
  predicate IsRightmostMinAt(s: seq<Hash>, i: nat)
  {
    IsMinAt(s, i) && forall j :: i < j < |s| ==> s[i] < s[j]
  }

  /** The `windowSize` hashes ending at index `last` of the input. */
  function Window(input: seq<Hash>, windowSize: nat, last: nat): seq<Hash>
    requires windowSize <= last + 1 <= |input|
  {
    input[last + 1 - windowSize .. last + 1]
  }

  /** The last position holding a minimum of `s`, found from the front. */
  function RightmostMin(s: seq<Hash>): (p: nat)
    requires |s| > 0
    ensures IsRightmostMinAt(s, p)
    decreases |s|
  {
    if |s| == 1 then 0
    else
      var q := RightmostMin(s[..|s| - 1]);
      assert forall j :: 0 <= j < |s| - 1 ==> s[..|s| - 1][j] == s[j];
      if s[|s| - 1] <= s[q] then |s| - 1 else q
  }

  /** No position after the last minimum holds a minimum. */
  lemma NoMinAfterRightmost(s: seq<Hash>, p: nat)
    requires IsRightmostMinAt(s, p)
    ensures forall j :: p < j < |s| ==> !IsMinAt(s, j)
  {
    forall j | p < j < |s|
      ensures !IsMinAt(s, j)
    {
      assert s[p] < s[j];
    }
  }

  /** At most one position is the last minimum. */
  lemma RightmostMinUnique(s: seq<Hash>, p: nat, q: nat)
    requires IsRightmostMinAt(s, p) && IsRightmostMinAt(s, q)
    ensures p == q
  {
    NoMinAfterRightmost(s, p);
    NoMinAfterRightmost(s, q);
  }

  /**
   * `std::ranges::min_element(s, std::less_equal{})`: a later element replaces
   * the candidate when it is less than or equal to it, so ties go to the right.
   */
  method MinElementLessEqual(s: seq<Hash>) returns (pos: nat)
    requires |s| > 0
    ensures IsRightmostMinAt(s, pos) && pos == RightmostMin(s)
  {
    pos := 0;
    var i := 1;
    while i < |s|
      invariant 1 <= i <= |s|
      invariant pos < i
      invariant forall j :: 0 <= j < i ==> s[pos] <= s[j]
      invariant forall j :: pos < j < i ==> s[pos] < s[j]
    {
      if s[i] <= s[pos] {
        pos := i;
      }
      i := i + 1;
    }
    RightmostMinUnique(s, pos, RightmostMin(s));
  }

  /**
   * `syncmer_fn`: the window holds `kmer_size - smer_size + 1` s-mers, computed
   * in `size_t`, so a too large `smer_size` wraps around.
   */
  function WindowSizeFor(kmerSize: nat, smerSize: nat): (w: nat)
    requires kmerSize < Uint64Bound && smerSize < 256
    ensures w < Uint64Bound
    ensures 1 <= smerSize <= kmerSize ==> w >= 1 && w + smerSize == kmerSize + 1
    ensures smerSize == kmerSize + 1 ==> w == 0
    ensures smerSize > kmerSize + 1 ==> w >= Uint64Bound - 255
  {
    (kmerSize - smerSize + 1) % Uint64Bound
  }

  /** A minimum somewhere else rules out a unique minimum at `i`. */
  lemma MinElsewhereNotUnique(s: seq<Hash>, p: nat, i: nat)
    requires IsMinAt(s, p) && p != i
    ensures !IsUniqueMinAt(s, i)
  {
    if i < |s| {
      assert s[p] <= s[i];
    }
  }

  /** Sliding the window by one drops its first hash and appends the next input hash. */
  lemma SlideContents(input: seq<Hash>, w: nat, e: nat, vals: seq<Hash>)
    requires 1 <= w <= e < |input| && vals == input[e - w..e]
    ensures vals[1..] + [input[e]] == input[e + 1 - w..e + 1]
  {
  }

  /** A hash strictly below the old minimum is the minimum of the slid window. */
  lemma NewMinimumAtBack(vals: seq<Hash>, p: nat, x: Hash)
    requires IsMinAt(vals, p) && x < vals[p]
    ensures IsMinAt(vals[1..] + [x], |vals| - 1)
  {
    var t := vals[1..] + [x];
    forall j | 0 <= j < |t|
      ensures t[|vals| - 1] <= t[j]
    {
      if j < |vals| - 1 {
        assert t[j] == vals[j + 1];
      }
    }
  }

  /** A minimum that stays in the window keeps being a minimum, one place to the front. */
  lemma MinimumMovesUp(vals: seq<Hash>, p: nat, x: Hash)
    requires IsMinAt(vals, p) && p > 0 && !(x < vals[p])
    ensures IsMinAt(vals[1..] + [x], p - 1) && (vals[1..] + [x])[p - 1] == vals[p]
  {
    var t := vals[1..] + [x];
    forall j | 0 <= j < |t|
      ensures t[p - 1] <= t[j]
    {
      if j < |vals| - 1 {
        assert t[j] == vals[j + 1];
      }
    }
  }

  /** Reading the word at index `e` advances the rolling value of the prefix before it. */
  lemma KmerStep(words: seq<Word>, e: nat, m: Word)
    requires e < |words|
    ensures Step(Fold(Zero(), words[..e], m), words[e], m) == Fold(Zero(), words[..e + 1], m)
  {
    assert words[..e + 1][..e] == words[..e];
  }

  /** The iterator's changing state: everything but the input, the mask and the offset. */
  datatype Cursor = Cursor(
    position: nat,
    smerValue: Hash,
    kmerValue: Word,
    smerValues: seq<Hash>,
    smerPositionOffset: nat)

  /** One past the index of the last hash in the window; at the end the window stays the last one. */
  function WindowEnd(n: nat, position: nat): nat
  {
    if position < n then position + 1 else n
  }

  /** The deque holds the window ending at the iterator and the tracked position is one of its minima. */
  ghost predicate WindowInv(input: seq<Hash>, w: nat, c: Cursor)
  {
    && 1 <= w <= c.position + 1
    && c.position <= |input|
    && w <= WindowEnd(|input|, c.position)
    && c.smerValues == input[WindowEnd(|input|, c.position) - w .. WindowEnd(|input|, c.position)]
    && IsMinAt(c.smerValues, c.smerPositionOffset)
    && c.smerValues[c.smerPositionOffset] == c.smerValue
  }

  /** The rolling value is that of every word read so far. */
  ghost predicate KmerInv(words: seq<Word>, mask: Word, c: Cursor)
  {
    && c.position <= |words|
    && c.kmerValue == Fold(Zero(), words[..WindowEnd(|words|, c.position)], mask)
  }

  /** The state of an iterator over `input` (and its words) with a clamped window of `w` hashes. */
  ghost predicate Inv(input: seq<Hash>, words: seq<Word>, w: nat, mask: Word, c: Cursor)
  {
    && |words| == |input|
    && w <= |input|
    && 2 * w < 64
    && mask == LowMask(w)
    && c.position <= |input|
    && |c.smerValues| == w
    && (w == 0 ==>
          c.smerValues == [] && c.kmerValue == Zero() && c.smerValue == 0 && c.smerPositionOffset == 0)
    && (w > 0 ==> WindowInv(input, w, c) && KmerInv(words, mask, c))
  }

  /**
   * `next_syncmer` on values, from state `c` to state `d` with result `found`:
   * advance by one hash. At the end report success and change nothing else.
   * Otherwise slide the window and the rolling value; rescan for the last minimum
   * if the tracked one was at the front, take the new hash if it is strictly
   * smaller, or else move the tracked position one to the front. The result says
   * whether the tracked position now equals the offset.
   */
  ghost predicate NextSyncmerStep(input: seq<Hash>, words: seq<Word>, mask: Word, offset: nat,
                                  c: Cursor, d: Cursor, found: bool)
    requires |words| == |input|
  {
    && d.position == c.position + 1
    && (d.position >= |input| ==> found && d == c.(position := d.position))
    && (d.position < |input| ==>
          && |c.smerValues| > 0
          && d.smerValues == c.smerValues[1..] + [input[d.position]]
          && d.kmerValue == Step(c.kmerValue, words[d.position], mask)
          && (found <==> d.smerPositionOffset == offset)
          && (c.smerPositionOffset == 0 ==>
                d.smerPositionOffset == RightmostMin(d.smerValues)
                && d.smerValue == d.smerValues[d.smerPositionOffset])
          && (c.smerPositionOffset != 0 && input[d.position] < c.smerValue ==>
                d.smerPositionOffset == |d.smerValues| - 1 && d.smerValue == input[d.position])
          && (c.smerPositionOffset != 0 && !(input[d.position] < c.smerValue) ==>
                d.smerPositionOffset == c.smerPositionOffset - 1 && d.smerValue == c.smerValue))
  }

  /** Stepping at the last hash reaches the end, keeps the invariant and reports success. */
  lemma NextSyncmerStepAtEnd(input: seq<Hash>, words: seq<Word>, w: nat, mask: Word, offset: nat,
                              c: Cursor, d: Cursor, found: bool)
    requires Inv(input, words, w, mask, c) && c.position + 1 == |input|
    requires NextSyncmerStep(input, words, mask, offset, c, d, found)
    ensures Inv(input, words, w, mask, d) && found
  {
  }

  /** The deque after a slide is the next window; with a minimum tracked in it, the window part holds. */
  lemma SlidWindowInv(input: seq<Hash>, w: nat, c: Cursor, d: Cursor)
    requires 1 <= w <= c.position + 1 && d.position == c.position + 1 && d.position < |input|
    requires c.smerValues == input[c.position + 1 - w..c.position + 1]
    requires d.smerValues == c.smerValues[1..] + [input[d.position]]
    requires IsMinAt(d.smerValues, d.smerPositionOffset) && d.smerValues[d.smerPositionOffset] == d.smerValue
    ensures WindowInv(input, w, d)
  {
    SlideContents(input, w, d.position, c.smerValues);
  }

  /** The tracked position after a step inside the input holds a minimum of the new deque. */
  lemma NextSyncmerStepMinimum(input: seq<Hash>, words: seq<Word>, w: nat, mask: Word, offset: nat,
                               c: Cursor, d: Cursor, found: bool)
    requires |words| == |input| && d.position < |input|
    requires IsMinAt(c.smerValues, c.smerPositionOffset) && c.smerValues[c.smerPositionOffset] == c.smerValue
    requires NextSyncmerStep(input, words, mask, offset, c, d, found)
    ensures IsMinAt(d.smerValues, d.smerPositionOffset) && d.smerValues[d.smerPositionOffset] == d.smerValue
  {
    var x := input[d.position];
    if c.smerPositionOffset != 0 {
      if x < c.smerValue {
        NewMinimumAtBack(c.smerValues, c.smerPositionOffset, x);
      } else {
        MinimumMovesUp(c.smerValues, c.smerPositionOffset, x);
      }
    }
  }

  /** The window part of the invariant after a step inside the input. */
  lemma NextSyncmerStepWindow(input: seq<Hash>, words: seq<Word>, w: nat, mask: Word, offset: nat,
                              c: Cursor, d: Cursor, found: bool)
    requires Inv(input, words, w, mask, c) && w > 0 && c.position + 1 < |input|
    requires NextSyncmerStep(input, words, mask, offset, c, d, found)
    ensures WindowInv(input, w, d)
  {
    NextSyncmerStepMinimum(input, words, w, mask, offset, c, d, found);
    SlidWindowInv(input, w, c, d);
  }

  /** The rolling-value part of the invariant after a step inside the input. */
  lemma NextSyncmerStepKmer(input: seq<Hash>, words: seq<Word>, w: nat, mask: Word, offset: nat,
                            c: Cursor, d: Cursor, found: bool)
    requires Inv(input, words, w, mask, c) && w > 0 && c.position + 1 < |input|
    requires NextSyncmerStep(input, words, mask, offset, c, d, found)
    ensures KmerInv(words, mask, d)
  {
    KmerStep(words, c.position + 1, mask);
  }

  /**
   * Stepping inside the input keeps the invariant: the deque becomes the window
   * ending at the new hash, the tracked position a minimum of it and the rolling
   * value that of the longer prefix; the step succeeds exactly when the tracked
   * position is the offset.
   */
  lemma NextSyncmerStepInside(input: seq<Hash>, words: seq<Word>, w: nat, mask: Word, offset: nat,
                              c: Cursor, d: Cursor, found: bool)
    requires Inv(input, words, w, mask, c) && w > 0 && c.position + 1 < |input|
    requires NextSyncmerStep(input, words, mask, offset, c, d, found)
    ensures Inv(input, words, w, mask, d)
    ensures d.smerValues == Window(input, w, c.position + 1)
  {
    NextSyncmerStepWindow(input, words, w, mask, offset, c, d, found);
    NextSyncmerStepKmer(input, words, w, mask, offset, c, d, found);
  }

  /** A window whose tracked minimum is not at the offset has no unique minimum there. */
  lemma SkippedWindow(input: seq<Hash>, words: seq<Word>, w: nat, mask: Word, offset: nat, c: Cursor)
    requires Inv(input, words, w, mask, c) && w > 0 && c.position < |input|
    requires c.smerPositionOffset != offset
    ensures !IsUniqueMinAt(Window(input, w, c.position), offset)
  {
    MinElsewhereNotUnique(c.smerValues, c.smerPositionOffset, offset);
  }

  /** No window ending at an index in `[lo, hi)` has its only minimum at the offset. */
  ghost predicate NoSyncmerIn(input: seq<Hash>, w: nat, offset: nat, lo: nat, hi: nat)
  {
    forall e :: lo <= e < hi && w <= e + 1 <= |input| ==> !IsUniqueMinAt(Window(input, w, e), offset)
  }

  /** One ruled-out window. */
  lemma NoSyncmerAt(input: seq<Hash>, w: nat, offset: nat, e: nat)
    requires w <= e + 1 <= |input| && !IsUniqueMinAt(Window(input, w, e), offset)
    ensures NoSyncmerIn(input, w, offset, e, e + 1)
  {
  }

  /** Adjacent ranges of ruled-out windows join. */
  lemma NoSyncmerJoin(input: seq<Hash>, w: nat, offset: nat, lo: nat, mid: nat, hi: nat)
    requires NoSyncmerIn(input, w, offset, lo, mid) && NoSyncmerIn(input, w, offset, mid, hi)
    ensures NoSyncmerIn(input, w, offset, lo, hi)
  {
  }

  /** After `init` has read the first `w` hashes and picked the last minimum, the invariant holds. */
  lemma FirstWindow(input: seq<Hash>, words: seq<Word>, w: nat, mask: Word, c: Cursor)
    requires |words| == |input| && 1 <= w <= |input| && 2 * w < WordSize && mask == LowMask(w)
    requires c.position == w - 1 && c.smerValues == input[..w]
    requires c.kmerValue == Fold(Zero(), words[..w], mask)
    requires c.smerPositionOffset == RightmostMin(c.smerValues)
    requires c.smerValue == c.smerValues[c.smerPositionOffset]
    ensures Inv(input, words, w, mask, c)
  {
  }

  /** The rolling value equals the value of the words of the current window alone. */
  lemma KmerIsWindowValue(input: seq<Hash>, words: seq<Word>, w: nat, mask: Word, c: Cursor)
    requires Inv(input, words, w, mask, c) && w > 0
    ensures var e := WindowEnd(|input|, c.position);
      c.kmerValue == Fold(Zero(), words[e - w..e], mask)
  {
    var e := WindowEnd(|input|, c.position);
    RollingValueIsWindowValue(words[..e], w);
    assert words[..e][e - w..] == words[e - w..e];
  }

  class SyncmerIterator {
    /** The hash values between `urng_iterator`'s start and `urng_sentinel`. */
    const input: seq<Hash>
    /** The same values as 64-bit words, for the shifts and masks of the k-mer value. */
    const words: seq<Word>
    /** `urng_iterator`, as an index into `input`. */
    var position: nat
    const mask: Word
    const offset: nat
    var smerValue: Hash
    var kmerValue: Word
    /** The deque of the current window's hashes. */
    var smerValues: seq<Hash>
    var smerPositionOffset: nat
    /** The window size after clamping to the input length. */
    ghost const windowSize: nat

    ghost function State(): Cursor
      reads this
    {
      Cursor(position, smerValue, kmerValue, smerValues, smerPositionOffset)
    }

    ghost predicate Valid()
      reads this
    {
      Inv(input, words, windowSize, mask, State())
    }

    /**
     * The range constructor: clamps the window to the input length, builds the
     * mask and runs `init`.
     */
    constructor (input: seq<Hash>, requestedWindowSize: nat, offset: nat)
      requires 2 * Min(requestedWindowSize, |input|) < 64
      ensures Valid()
      ensures this.input == input && this.offset == offset && words == ToWords(input)
      ensures windowSize == Min(requestedWindowSize, |input|)
      ensures windowSize == 0 ==> position == 0
      ensures windowSize > 0 ==> position == |input| || smerPositionOffset == offset
      ensures windowSize > 0 ==> NoSyncmerIn(input, windowSize, offset, windowSize - 1, position)
    {
      this.input := input;
      this.words := ToWords(input);
      this.offset := offset;
      var w := Min(requestedWindowSize, |input|);
      windowSize := w;
      mask := LowMask(w);
      position := 0;
      smerValue := 0;
      kmerValue := Zero();
      smerValues := [];
      smerPositionOffset := 0;
      new;
      Init(w);
    }

    /**
     * `operator==` against the sentinel: the end is where the window's end no
     * longer runs one ahead of the iterator; before it the deque is the window
     * ending at the iterator, and at it the last window of the input.
     */
    function EqualsSentinel(): (r: bool)
      reads this
      requires Valid()
      ensures r <==> WindowEnd(|input|, position) == position
      ensures position < |input| && windowSize > 0 ==> smerValues == Window(input, windowSize, position)
      ensures position == |input| ==> smerValues == input[|input| - windowSize..]
    {
      position == |input|
    }

    /**
     * `operator*`: the k-mer value, which depends on the current window only:
     * it is the rolling value of the window's hashes fed into zero.
     */
    function Value(): (r: Word)
      reads this
      requires Valid()
      ensures windowSize > 0 && words == ToWords(input) ==> r == Fold(Zero(), ToWords(smerValues), mask)
      ensures windowSize == 0 ==> r == Zero()
    {
      if |smerValues| > 0 then
        KmerIsWindowValue(input, words, windowSize, mask, State());
        var e := WindowEnd(|input|, position);
        assert words == ToWords(input) ==> words[e - windowSize..e] == ToWords(smerValues);
        kmerValue
      else
        kmerValue
    }

    /** `get_offset`: the tracked position, which holds a minimum of the window. */
    function GetOffset(): (r: nat)
      reads this
      requires Valid()
      ensures windowSize > 0 ==> IsMinAt(smerValues, r) && smerValues[r] == smerValue
    {
      smerPositionOffset
    }

    /** `update_kmer_value` with the word under the iterator. */
    method UpdateKmerValue()
      requires position < |words|
      modifies this
      ensures position == old(position) && smerValues == old(smerValues)
      ensures kmerValue == Step(old(kmerValue), words[position], mask)
      ensures smerValue == old(smerValue) && smerPositionOffset == old(smerPositionOffset)
    {
      kmerValue := Step(kmerValue, words[position], mask);
    }

    /**
     * `init`: reads the first window, picks its rightmost minimum and, unless
     * that already sits at the offset, moves on to the first syncmer.
     */
    method Init(w: nat)
      requires w == windowSize && w <= |input| && |words| == |input|
      requires 2 * w < 64 && mask == LowMask(w)
      requires position == 0 && smerValues == [] && kmerValue == Zero()
      requires smerValue == 0 && smerPositionOffset == 0
      modifies this
      ensures Valid()
      ensures w == 0 ==> position == 0
      ensures w > 0 ==> position == |input| || smerPositionOffset == offset
      ensures w > 0 ==> NoSyncmerIn(input, w, offset, w - 1, position)
    {
      if w == 0 {
        return;
      }
      ReadFirstWindow(w);
      var p := MinElementLessEqual(smerValues);
      smerValue := smerValues[p];
      smerPositionOffset := p;
      FirstWindow(input, words, w, mask, State());
      if offset != smerPositionOffset {
        SkippedWindow(input, words, w, mask, offset, State());
        NoSyncmerAt(input, w, offset, w - 1);
        NextUniqueSyncmer();
        NoSyncmerJoin(input, w, offset, w - 1, w, position);
      }
    }

    /** The loop of `init`: pushes the first `w` hashes and feeds their words into the k-mer value. */
    method ReadFirstWindow(w: nat)
      requires 1 <= w <= |input| && |words| == |input|
      requires position == 0 && smerValues == [] && kmerValue == Zero()
      modifies this
      ensures position == w - 1 && smerValues == input[..w]
      ensures kmerValue == Fold(Zero(), words[..w], mask)
      ensures smerValue == old(smerValue) && smerPositionOffset == old(smerPositionOffset)
    {
      var i := 0;
      while i < w - 1
        invariant 0 <= i <= w - 1
        invariant position == i
        invariant smerValues == input[..i]
        invariant kmerValue == Fold(Zero(), words[..i], mask)
        invariant smerValue == old(smerValue) && smerPositionOffset == old(smerPositionOffset)
      {
        UpdateKmerValue();
        KmerStep(words, i, mask);
        smerValues := smerValues + [input[position]];
        position := position + 1;
        i := i + 1;
      }
      smerValues := smerValues + [input[position]];
      assert smerValues == input[..w];
      UpdateKmerValue();
      KmerStep(words, w - 1, mask);
    }

    /** `next_syncmer`, proved against `NextSyncmerStep`. */
    method NextSyncmer() returns (found: bool)
      requires |words| == |input| && position < |input|
      requires position + 1 < |input| ==> |smerValues| > 0
      modifies this
      ensures NextSyncmerStep(input, words, mask, offset, old(State()), State(), found)
    {
      position := position + 1;
      if position == |input| {
        return true;
      }
      var newValue := input[position];
      smerValues := smerValues[1..] + [newValue];
      UpdateKmerValue();
      if smerPositionOffset == 0 {
        var p := MinElementLessEqual(smerValues);
        smerValue := smerValues[p];
        smerPositionOffset := p;
        return smerPositionOffset == offset;
      }
      if newValue < smerValue {
        smerValue := newValue;
        smerPositionOffset := |smerValues| - 1;
        return smerPositionOffset == offset;
      }
      smerPositionOffset := smerPositionOffset - 1;
      return smerPositionOffset == offset;
    }

    /**
     * `next_unique_syncmer`, which is also `operator++`: steps until a step
     * reports success. It stops either at the end or at a window whose tracked
     * minimum sits at the offset, and no window it passes over has its only
     * minimum at the offset.
     */
    method NextUniqueSyncmer()
      requires Valid() && position < |input|
      requires windowSize > 0 || position + 1 == |input|
      modifies this
      ensures Valid()
      ensures position > old(position)
      ensures position < |input| ==> smerPositionOffset == offset && IsMinAt(smerValues, offset)
      ensures windowSize > 0 ==> NoSyncmerIn(input, windowSize, offset, old(position) + 1, position)
    {
      var found := Advance();
      while !found
        invariant Valid()
        invariant old(position) < position <= |input|
        invariant found && position < |input| ==> smerPositionOffset == offset
        invariant !found ==> position < |input| && windowSize > 0 && smerPositionOffset != offset
        invariant windowSize > 0 ==> NoSyncmerIn(input, windowSize, offset, old(position) + 1, position)
        decreases |input| - position
      {
        SkippedWindow(input, words, windowSize, mask, offset, State());
        NoSyncmerAt(input, windowSize, offset, position);
        NoSyncmerJoin(input, windowSize, offset, old(position) + 1, position, position + 1);
        found := Advance();
      }
    }

    /** One `next_syncmer` together with what it keeps. */
    method Advance() returns (found: bool)
      requires Valid() && position < |input|
      requires windowSize > 0 || position + 1 == |input|
      modifies this
      ensures Valid()
      ensures position == old(position) + 1
      ensures position == |input| ==> found
      ensures position < |input| ==> (found <==> smerPositionOffset == offset)
    {
      ghost var c := State();
      found := NextSyncmer();
      if position == |input| {
        NextSyncmerStepAtEnd(input, words, windowSize, mask, offset, c, State(), found);
      } else {
        NextSyncmerStepInside(input, words, windowSize, mask, offset, c, State(), found);
      }
    }
  }
}
