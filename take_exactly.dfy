/**
 * `views::take_exactly` and `views::take_exactly_or_throw`: the first `n`
 * elements of a range. On a sized range the target is clamped to the size
 * (or, for the throwing variant, a shorter range is rejected at once); on
 * any other range the view's iterator counts its position up to the target
 * and stops there or where the underlying range ends, throwing in that case
 * for the throwing variant.
 *
 * The underlying range is given by its elements and by the properties of
 * its type that the adaptor asks about; its iterator is an index into the
 * elements.
 */
module TakeExactly {
  import opened Wrappers

  /** The largest `size_t`. */
  const SizeMax: nat := 0xFFFF_FFFF_FFFF_FFFF

  function Min(a: nat, b: nat): nat
  {
    if a <= b then a else b
  }

  /** `std::invalid_argument` at construction, `unexpected_end_of_input` at the end comparison. */
  datatype Error = InvalidArgument | UnexpectedEndOfInput

  /** The concepts and type tests on the underlying range type that the adaptor and the view branch on. */
  datatype RangeTraits = RangeTraits(
    sized: bool,
    forward: bool,
    bidirectional: bool,
    randomAccess: bool,
    contiguous: bool,
    borrowed: bool,
    isStringView: bool,
    isConstString: bool)

  /** The iterator categories refine each other; string types are sized and contiguous. */
  predicate Consistent(t: RangeTraits)
  {
    && (t.bidirectional ==> t.forward)
    && (t.randomAccess ==> t.bidirectional)
    && (t.contiguous ==> t.randomAccess)
    && (t.isStringView ==> t.sized && t.contiguous)
    && (t.isConstString ==> t.sized && t.contiguous)
  }

  /** What `take_exactly_fn` returns, each with the target size it was built with. */
  datatype Taken =
    | Substr(target: nat)        // `string_view::substr(0, target)`
    | StringView(target: nat)    // a `string_view` over the const string's data
    | Span(target: nat)          // a `std::span` over the data
    | Subrange(target: nat)      // `[begin, begin + target)`
    | View(target: nat)          // a `view_take_exactly`

  /**
   * `take_exactly_fn::operator()`: on a sized range the throwing variant
   * rejects a target larger than the size and the other clamps the target;
   * then the result type is chosen from the range's type.
   */
  function TakeExactlyFn(orThrow: bool, traits: RangeTraits, inputLength: nat, targetSize: nat): (r: Result<Taken, Error>)
    requires Consistent(traits)
    ensures r.Failure? <==> orThrow && traits.sized && targetSize > inputLength
    ensures r.Failure? ==> r.error == InvalidArgument
    ensures r.Success? && traits.sized ==> r.value.target == Min(targetSize, inputLength)
    ensures r.Success? && !traits.sized ==> r.value.target == targetSize
    ensures r.Success? && !r.value.View? ==> traits.sized && r.value.target <= inputLength
  {
    if traits.sized && orThrow && targetSize > inputLength then
      Failure(InvalidArgument)
    else
      var target := if traits.sized then Min(targetSize, inputLength) else targetSize;
      if traits.isStringView then Success(Substr(target))
      else if traits.isConstString then Success(StringView(target))
      else if traits.borrowed && traits.contiguous && traits.sized then Success(Span(target))
      else if traits.borrowed && traits.randomAccess && traits.sized then Success(Subrange(target))
      else Success(View(target))
  }

  /** The elements of a result that is not a `view_take_exactly`: the first `target` elements. */
  function DirectContents<T>(input: seq<T>, taken: Taken): (s: seq<T>)
    requires !taken.View? && taken.target <= |input|
  {
    input[..taken.target]
  }

  /** `operator==(sentinel)` of the iterator, on its position and whether the underlying iterator is at the end. */
  function SentinelAt(pos: nat, maxPos: nat, atEnd: bool, orThrow: bool): Result<bool, Error>
  {
    if pos >= maxPos then Success(true)
    else if atEnd then (if orThrow then Failure(UnexpectedEndOfInput) else Success(true))
    else Success(false)
  }

  /**
   * What a consumer of the view reads from position `p` on: the element
   * there, then on from `p + 1`, until the iterator compares equal to the
   * sentinel or the comparison throws.
   */
  ghost function Drain<T>(input: seq<T>, p: nat, maxPos: nat, orThrow: bool): Result<seq<T>, Error>
    requires p <= |input|
    decreases |input| - p
  {
    match SentinelAt(p, maxPos, p == |input|, orThrow)
    case Failure(e) => Failure(e)
    case Success(stop) =>
      if stop then Success([])
      else
        match Drain(input, p + 1, maxPos, orThrow)
        case Failure(e) => Failure(e)
        case Success(rest) => Success([input[p]] + rest)
  }

  /**
   * From any position up to the target, the view yields the elements up to
   * `min(target, |input|)`; the throwing variant instead fails when the
   * input ends before the target.
   */
  lemma {:induction false} DrainFrom<T>(input: seq<T>, p: nat, maxPos: nat, orThrow: bool)
    requires p <= Min(|input|, maxPos)
    ensures orThrow && |input| < maxPos ==> Drain(input, p, maxPos, orThrow) == Failure(UnexpectedEndOfInput)
    ensures !(orThrow && |input| < maxPos) ==> Drain(input, p, maxPos, orThrow) == Success(input[p..Min(|input|, maxPos)])
    decreases |input| - p
  {
    if p < Min(|input|, maxPos) {
      DrainFrom(input, p + 1, maxPos, orThrow);
      if !(orThrow && |input| < maxPos) {
        assert input[p..Min(|input|, maxPos)] == [input[p]] + input[p + 1..Min(|input|, maxPos)];
      }
    }
  }

  /**
   * What the adaptor's result yields: `take_exactly` the first
   * `min(n, |input|)` elements, `take_exactly_or_throw` exactly the first
   * `n`, or `invalid_argument` (sized input) or `unexpected_end_of_input`
   * (other input) when the input is shorter.
   */
  lemma TakeExactlyContents<T>(orThrow: bool, traits: RangeTraits, input: seq<T>, n: nat)
    requires Consistent(traits)
    ensures var r := TakeExactlyFn(orThrow, traits, |input|, n);
      && (r.Success? && !r.value.View? ==> DirectContents(input, r.value) == input[..Min(n, |input|)])
      && (r.Success? && r.value.View? && !(orThrow && |input| < n) ==>
            Drain(input, 0, r.value.target, orThrow) == Success(input[..Min(n, |input|)]))
      && (r.Success? && r.value.View? && orThrow && |input| < n ==>
            !traits.sized && Drain(input, 0, r.value.target, orThrow) == Failure(UnexpectedEndOfInput))
      && (orThrow && n <= |input| ==> r.Success? && r.value.target == n)
  {
    var r := TakeExactlyFn(orThrow, traits, |input|, n);
    if r.Success? && r.value.View? {
      DrainFrom(input, 0, r.value.target, orThrow);
      if traits.sized {
        assert Min(|input|, Min(n, |input|)) == Min(n, |input|);
      }
    }
  }

  /** `--target_size` on a `size_t`: zero wraps around to the largest value. */
  function DecrementSize(s: nat): (r: nat)
    ensures s > 0 ==> r + 1 == s
    ensures s == 0 ==> r == SizeMax
  {
    if s == 0 then SizeMax else s - 1
  }

  /** `view_take_exactly`: the underlying range and the target size. */
  class TakeExactlyView<T> {
    const urange: seq<T>
    const traits: RangeTraits
    const orThrow: bool
    var targetSize: nat

    /** The member initialisers; the size check is `MakeView`. */
    constructor (urange: seq<T>, traits: RangeTraits, orThrow: bool, targetSize: nat)
      ensures this.urange == urange && this.traits == traits && this.orThrow == orThrow
      ensures this.targetSize == targetSize
    {
      this.urange := urange;
      this.traits := traits;
      this.orThrow := orThrow;
      this.targetSize := targetSize;
    }

    /** `size()`: the current target size. */
    function Size(): (n: nat)
      reads this
      ensures n == targetSize
    {
      targetSize
    }

    /**
     * `begin()` when the range is not both random access and sized: an
     * iterator at position 0 that stops at the target and, for a
     * single-pass range, counts the target down as it advances.
     */
    method Begin() returns (it: Iterator<T>)
      requires !(traits.randomAccess && traits.sized)
      ensures fresh(it)
      ensures it.host == this && it.base == 0 && it.pos == 0 && it.maxPos == targetSize
      ensures it.Valid()
    {
      it := new Iterator(this, 0, 0, targetSize);
    }
  }

  /**
   * The constructor of `view_take_exactly`: on a sized range shorter than
   * the target, the throwing variant throws `invalid_argument` and the
   * other clamps the target to the size.
   */
  method MakeView<T>(urange: seq<T>, traits: RangeTraits, orThrow: bool, size: nat)
    returns (r: Result<TakeExactlyView<T>, Error>)
    ensures r.Failure? <==> orThrow && traits.sized && |urange| < size
    ensures r.Failure? ==> r.error == InvalidArgument
    ensures r.Success? ==> fresh(r.value) && r.value.urange == urange && r.value.traits == traits
    ensures r.Success? ==> r.value.orThrow == orThrow
    ensures r.Success? ==> r.value.Size() == if traits.sized then Min(size, |urange|) else size
  {
    var target := size;
    if traits.sized && |urange| < target {
      if orThrow {
        return Failure(InvalidArgument);
      }
      target := |urange|;
    }
    var v := new TakeExactlyView(urange, traits, orThrow, target);
    return Success(v);
  }

  /**
   * The view's iterator: the underlying iterator (`base`, an index into
   * the host's range), the position `pos` counted from `begin()` and the
   * target `maxPos` it stops at.
   */
  class Iterator<T> {
    const host: TakeExactlyView<T>
    var base: nat
    var pos: nat
    const maxPos: nat

    /**
     * The position counts the steps of the underlying iterator, and on a
     * single-pass range the host's target is what is left to the end.
     */
    predicate Valid()
      reads this, host
    {
      && base <= |host.urange|
      && pos == base
      && (!host.traits.forward && pos <= maxPos ==> host.targetSize == maxPos - pos)
    }

    constructor (host: TakeExactlyView<T>, base: nat, pos: nat, maxPos: nat)
      ensures this.host == host && this.base == base && this.pos == pos && this.maxPos == maxPos
    {
      this.host := host;
      this.base := base;
      this.pos := pos;
      this.maxPos := maxPos;
    }

    /** `operator*`: the element the underlying iterator is at. */
    function Deref(): (x: T)
      reads this, host
      requires Valid() && base < |host.urange|
      ensures x == host.urange[pos]
    {
      host.urange[base]
    }

    /** `operator[](n)`: the underlying iterator's `n`-th next element, whatever the target. */
    function Index(n: nat): (x: T)
      reads this, host
      requires Valid() && host.traits.randomAccess && base + n < |host.urange|
      ensures x == host.urange[pos + n]
    {
      host.urange[base + n]
    }

    /**
     * `operator++`: one step of the underlying iterator and of the
     * position; on a single-pass range the host's target also counts down.
     */
    method Increment()
      requires Valid() && base < |host.urange|
      modifies this, host
      ensures Valid()
      ensures base == old(base) + 1 && pos == old(pos) + 1
      ensures host.traits.forward ==> host.targetSize == old(host.targetSize)
      ensures !host.traits.forward ==> host.targetSize == DecrementSize(old(host.targetSize))
    {
      base := base + 1;
      pos := pos + 1;
      if !host.traits.forward {
        host.targetSize := DecrementSize(host.targetSize);
      }
    }

    /** `operator--` on a bidirectional range: one step back of both. */
    method Decrement()
      requires Valid() && host.traits.bidirectional && Consistent(host.traits) && base > 0
      modifies this
      ensures Valid()
      ensures base == old(base) - 1 && pos == old(pos) - 1
    {
      base := base - 1;
      pos := pos - 1;
    }

    /** `operator+=` on a random-access range: both move by `skip`. */
    method AddAssign(skip: int)
      requires Valid() && host.traits.randomAccess && Consistent(host.traits)
      requires 0 <= base + skip <= |host.urange|
      modifies this
      ensures Valid()
      ensures base == old(base) + skip && pos == old(pos) + skip
    {
      base := base + skip;
      pos := pos + skip;
    }

    /** `operator-=` on a random-access range: both move back by `skip`. */
    method SubtractAssign(skip: int)
      requires Valid() && host.traits.randomAccess && Consistent(host.traits)
      requires 0 <= base - skip <= |host.urange|
      modifies this
      ensures Valid()
      ensures base == old(base) - skip && pos == old(pos) - skip
    {
      base := base - skip;
      pos := pos - skip;
    }

    /**
     * `operator==(sentinel)`: equal once the position reaches the target,
     * whatever the range holds; otherwise equal when the underlying range
     * has ended, which the throwing variant reports as
     * `unexpected_end_of_input`.
     */
    method EqualsSentinel() returns (r: Result<bool, Error>)
      requires Valid()
      ensures pos >= maxPos ==> r == Success(true)
      ensures pos < maxPos && base == |host.urange| ==>
        r == if host.orThrow then Failure(UnexpectedEndOfInput) else Success(true)
      ensures pos < maxPos && base < |host.urange| ==> r == Success(false)
      ensures r == SentinelAt(pos, maxPos, pos == |host.urange|, host.orThrow)
    {
      if pos >= maxPos {
        return Success(true);
      }
      if base == |host.urange| {
        if host.orThrow {
          return Failure(UnexpectedEndOfInput);
        }
        return Success(true);
      }
      return Success(false);
    }

    /** `operator==` between iterators of a forward range: the underlying iterators are equal. */
    function EqualsIterator(rhs: Iterator<T>): (r: bool)
      reads this, rhs, host, rhs.host
      requires Valid() && rhs.Valid() && host.traits.forward
      ensures r <==> pos == rhs.pos
    {
      base == rhs.base
    }
  }
}
