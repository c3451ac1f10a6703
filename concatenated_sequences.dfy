/**
 * `concatenated_sequences`: a collection of sequences kept as one flat buffer
 * `data_values` and a delimiter vector `data_delimiters`, where element `i`
 * is the stretch of the buffer between delimiters `i` and `i + 1`.
 *
 * The first half of the module works on values: the representation
 * invariant, the elements a representation stands for, and the canonical
 * representation of a list of sequences (`Concat`, `Offsets`). Every
 * modifier of the container replaces a run of elements by other elements,
 * and `SpliceElements` proves once what such a replacement does to the
 * elements. The second half is the container itself.
 */
module Concatenated {
  import opened Wrappers

  /**
   * The representation invariant: the delimiters start at 0, never decrease
   * and end at the length of the buffer, so there are `size() + 1` of them.
   */
  predicate WellFormed<T>(values: seq<T>, delims: seq<nat>)
  {
    && |delims| >= 1
    && delims[0] == 0
    && delims[|delims| - 1] == |values|
    && forall i, j :: 0 <= i <= j < |delims| ==> delims[i] <= delims[j]
  }

  /** The elements a representation stands for: element `i` is `values[delims[i] .. delims[i + 1]]`. */
  function ElementsOf<T>(values: seq<T>, delims: seq<nat>): (e: seq<seq<T>>)
    requires WellFormed(values, delims)
  {
    seq(|delims| - 1, i requires 0 <= i < |delims| - 1 => values[delims[i]..delims[i + 1]])
  }

  /** All sequences of `rs` one after the other. */
  function Concat<T>(rs: seq<seq<T>>): seq<T>
    decreases |rs|
  {
    if |rs| == 0 then [] else Concat(rs[..|rs| - 1]) + rs[|rs| - 1]
  }

  /** Where each sequence of `rs` starts in `Concat(rs)`, followed by the total length. */
  function Offsets<T>(rs: seq<seq<T>>): (o: seq<nat>)
    ensures |o| == |rs| + 1 && o[0] == 0 && o[|rs|] == |Concat(rs)|
    decreases |rs|
  {
    if |rs| == 0 then [0] else Offsets(rs[..|rs| - 1]) + [|Concat(rs)|]
  }

  /** Extending a prefix of `rs` by one sequence appends it and its end offset. */
  lemma PrefixStep<T>(rs: seq<seq<T>>, i: nat)
    requires i < |rs|
    ensures Concat(rs[..i + 1]) == Concat(rs[..i]) + rs[i]
    ensures Offsets(rs[..i + 1]) == Offsets(rs[..i]) + [Offsets(rs[..i])[i] + |rs[i]|]
  {
    assert rs[..i + 1][..i] == rs[..i];
  }

  /** `count` copies of `value`. */
  function Replicate<T>(value: seq<T>, count: nat): (rs: seq<seq<T>>)
  {
    seq(count, _ => value)
  }

  lemma SliceAppend<T>(x: seq<T>, y: seq<T>, i: nat, j: nat)
    requires i <= j <= |x| + |y|
    ensures j <= |x| ==> (x + y)[i..j] == x[i..j]
    ensures |x| <= i ==> (x + y)[i..j] == y[i - |x|..j - |x|]
  {
  }

  /** Concatenation distributes over appending lists of sequences. */
  lemma {:induction false} ConcatAppend<T>(x: seq<seq<T>>, y: seq<seq<T>>)
    ensures Concat(x + y) == Concat(x) + Concat(y)
    decreases |y|
  {
    if |y| == 0 {
      assert x + y == x;
    } else {
      var y' := y[..|y| - 1];
      assert (x + y)[..|x + y| - 1] == x + y';
      ConcatAppend(x, y');
    }
  }

  /** Offset `i` is the length of the first `i` sequences together. */
  lemma {:induction false} OffsetsAt<T>(rs: seq<seq<T>>, i: nat)
    requires i <= |rs|
    ensures Offsets(rs)[i] == |Concat(rs[..i])|
    decreases |rs|
  {
    if i == |rs| {
      assert rs[..i] == rs;
    } else {
      var p := rs[..|rs| - 1];
      OffsetsAt(p, i);
      assert p[..i] == rs[..i];
    }
  }

  /** A longer prefix of `rs` concatenates to a longer sequence. */
  lemma PrefixConcatGrows<T>(rs: seq<seq<T>>, i: nat, j: nat)
    requires i <= j <= |rs|
    ensures |Concat(rs[..i])| <= |Concat(rs[..j])|
  {
    assert rs[..j] == rs[..i] + rs[i..j];
    ConcatAppend(rs[..i], rs[i..j]);
  }

  /** The offsets never decrease. */
  lemma OffsetsMonotone<T>(rs: seq<seq<T>>, i: nat, j: nat)
    requires i <= j <= |rs|
    ensures Offsets(rs)[i] <= Offsets(rs)[j]
  {
    OffsetsAt(rs, i);
    OffsetsAt(rs, j);
    PrefixConcatGrows(rs, i, j);
  }

  /** Sequence `t` of `rs` sits between offsets `t` and `t + 1` of the concatenation. */
  lemma OffsetsSlice<T>(rs: seq<seq<T>>, t: nat)
    requires t < |rs|
    ensures Offsets(rs)[t] <= Offsets(rs)[t + 1] <= |Concat(rs)|
    ensures Concat(rs)[Offsets(rs)[t]..Offsets(rs)[t + 1]] == rs[t]
  {
    OffsetsAt(rs, t);
    OffsetsAt(rs, t + 1);
    OffsetsMonotone(rs, t + 1, |rs|);
    assert rs[..t + 1][..t] == rs[..t];
    assert rs == rs[..t + 1] + rs[t + 1..];
    ConcatAppend(rs[..t + 1], rs[t + 1..]);
    SliceAppend(Concat(rs[..t + 1]), Concat(rs[t + 1..]), Offsets(rs)[t], Offsets(rs)[t + 1]);
  }

  /** The buffer after replacing elements `a .. b` by `rs`. */
  function SpliceValues<T>(values: seq<T>, delims: seq<nat>, a: nat, b: nat, rs: seq<seq<T>>): seq<T>
    requires WellFormed(values, delims) && a <= b < |delims|
  {
    values[..delims[a]] + Concat(rs) + values[delims[b]..]
  }

  /**
   * The delimiters after replacing elements `a .. b` by `rs`: the first
   * `a + 1` are kept, the new elements get running offsets from `delims[a]`,
   * and those after `b` move by the change in length.
   */
  function SpliceDelimiters<T>(values: seq<T>, delims: seq<nat>, a: nat, b: nat, rs: seq<seq<T>>): (d: seq<nat>)
    requires WellFormed(values, delims) && a <= b < |delims|
    ensures |d| == a + |rs| + |delims| - b
  {
    var o := Offsets(rs);
    delims[..a + 1]
    + seq(|rs|, i requires 0 <= i < |rs| => delims[a] + o[i + 1])
    + seq(|delims| - b - 1, i requires 0 <= i < |delims| - b - 1 => delims[b + 1 + i] - delims[b] + delims[a] + |Concat(rs)|)
  }

  /** Each delimiter of a splice, by the part it falls in. */
  lemma SpliceDelimiterAt<T>(values: seq<T>, delims: seq<nat>, a: nat, b: nat, rs: seq<seq<T>>, k: nat)
    requires WellFormed(values, delims) && a <= b < |delims|
    requires k < a + |rs| + |delims| - b
    ensures k <= a ==> SpliceDelimiters(values, delims, a, b, rs)[k] == delims[k]
    ensures a <= k <= a + |rs| ==> SpliceDelimiters(values, delims, a, b, rs)[k] == delims[a] + Offsets(rs)[k - a]
    ensures a + |rs| <= k ==>
      SpliceDelimiters(values, delims, a, b, rs)[k] == delims[k - a - |rs| + b] - delims[b] + delims[a] + |Concat(rs)|
  {
  }

  /** A splice of a well-formed representation is well formed. */
  lemma SpliceWellFormed<T>(values: seq<T>, delims: seq<nat>, a: nat, b: nat, rs: seq<seq<T>>)
    requires WellFormed(values, delims) && a <= b < |delims|
    ensures WellFormed(SpliceValues(values, delims, a, b, rs), SpliceDelimiters(values, delims, a, b, rs))
  {
    var d := SpliceDelimiters(values, delims, a, b, rs);
    var o := Offsets(rs);
    SpliceDelimiterAt(values, delims, a, b, rs, 0);
    SpliceDelimiterAt(values, delims, a, b, rs, |d| - 1);
    forall i, j | 0 <= i <= j < |d|
      ensures d[i] <= d[j]
    {
      SpliceOrdered(values, delims, a, b, rs, i, j);
    }
  }

  /** The delimiters of a splice never decrease. */
  lemma SpliceOrdered<T>(values: seq<T>, delims: seq<nat>, a: nat, b: nat, rs: seq<seq<T>>, i: nat, j: nat)
    requires WellFormed(values, delims) && a <= b < |delims|
    requires i <= j < |SpliceDelimiters(values, delims, a, b, rs)|
    ensures SpliceDelimiters(values, delims, a, b, rs)[i] <= SpliceDelimiters(values, delims, a, b, rs)[j]
  {
    SpliceDelimiterAt(values, delims, a, b, rs, i);
    SpliceDelimiterAt(values, delims, a, b, rs, j);
    if j <= a {
    } else if i <= a && j <= a + |rs| {
      assert delims[i] <= delims[a];
    } else if i <= a {
      assert delims[i] <= delims[a];
      assert delims[b] <= delims[j - a - |rs| + b];
    } else if j <= a + |rs| {
      OffsetsMonotone(rs, i - a, j - a);
    } else if i <= a + |rs| {
      OffsetsMonotone(rs, i - a, |rs|);
      assert delims[b] <= delims[j - a - |rs| + b];
    } else {
      assert delims[i - a - |rs| + b] <= delims[j - a - |rs| + b];
    }
  }

  /** Element `k < a` of a splice is the old element `k`. */
  lemma SpliceBefore<T>(values: seq<T>, delims: seq<nat>, a: nat, b: nat, rs: seq<seq<T>>, k: nat)
    requires WellFormed(values, delims) && a <= b < |delims| && k < a
    ensures SpliceDelimiters(values, delims, a, b, rs)[k] == delims[k]
    ensures SpliceDelimiters(values, delims, a, b, rs)[k + 1] == delims[k + 1]
    ensures SpliceValues(values, delims, a, b, rs)[delims[k]..delims[k + 1]] == values[delims[k]..delims[k + 1]]
  {
    SpliceDelimiterAt(values, delims, a, b, rs, k);
    SpliceDelimiterAt(values, delims, a, b, rs, k + 1);
    assert delims[k] <= delims[k + 1] <= delims[a];
    SliceAppend(values[..delims[a]], Concat(rs) + values[delims[b]..], delims[k], delims[k + 1]);
  }

  /** Element `a + t` of a splice is `rs[t]`. */
  lemma SpliceInside<T>(values: seq<T>, delims: seq<nat>, a: nat, b: nat, rs: seq<seq<T>>, t: nat)
    requires WellFormed(values, delims) && a <= b < |delims| && t < |rs|
    ensures var d := SpliceDelimiters(values, delims, a, b, rs);
      d[a + t] <= d[a + t + 1] <= |SpliceValues(values, delims, a, b, rs)|
      && SpliceValues(values, delims, a, b, rs)[d[a + t]..d[a + t + 1]] == rs[t]
  {
    var o := Offsets(rs);
    SpliceDelimiterAt(values, delims, a, b, rs, a + t);
    SpliceDelimiterAt(values, delims, a, b, rs, a + t + 1);
    OffsetsSlice(rs, t);
    var head := values[..delims[a]];
    var c := Concat(rs);
    var tail := values[delims[b]..];
    assert SpliceValues(values, delims, a, b, rs) == head + (c + tail);
    SliceAppend(head, c + tail, delims[a] + o[t], delims[a] + o[t + 1]);
    SliceAppend(c, tail, o[t], o[t + 1]);
  }

  /** Element `a + |rs| + u` of a splice is the old element `b + u`. */
  lemma SpliceAfter<T>(values: seq<T>, delims: seq<nat>, a: nat, b: nat, rs: seq<seq<T>>, u: nat)
    requires WellFormed(values, delims) && a <= b && b + u + 1 < |delims|
    ensures var d := SpliceDelimiters(values, delims, a, b, rs);
      d[a + |rs| + u] <= d[a + |rs| + u + 1] <= |SpliceValues(values, delims, a, b, rs)|
      && SpliceValues(values, delims, a, b, rs)[d[a + |rs| + u]..d[a + |rs| + u + 1]]
         == values[delims[b + u]..delims[b + u + 1]]
  {
    SpliceDelimiterAt(values, delims, a, b, rs, a + |rs| + u);
    SpliceDelimiterAt(values, delims, a, b, rs, a + |rs| + u + 1);
    var head := values[..delims[a]];
    var c := Concat(rs);
    var tail := values[delims[b]..];
    assert delims[b] <= delims[b + u] <= delims[b + u + 1];
    var lo := delims[b + u] - delims[b];
    var hi := delims[b + u + 1] - delims[b];
    assert delims[b + u + 1] <= delims[|delims| - 1] == |values|;
    assert |head + c| == delims[a] + |c| && hi <= |tail|;
    var d := SpliceDelimiters(values, delims, a, b, rs);
    assert d[a + |rs| + u] == |head + c| + lo && d[a + |rs| + u + 1] == |head + c| + hi;
    assert SpliceValues(values, delims, a, b, rs) == (head + c) + tail;
    SliceAppend(head + c, tail, |head + c| + lo, |head + c| + hi);
    assert tail[lo..hi] == values[delims[b + u]..delims[b + u + 1]];
  }

  /**
   * Replacing elements `a .. b` of the representation by `rs` gives the
   * elements before `a`, then `rs`, then the elements from `b` on.
   */
  lemma SpliceElements<T>(values: seq<T>, delims: seq<nat>, a: nat, b: nat, rs: seq<seq<T>>)
    requires WellFormed(values, delims) && a <= b < |delims|
    ensures WellFormed(SpliceValues(values, delims, a, b, rs), SpliceDelimiters(values, delims, a, b, rs))
    ensures ElementsOf(SpliceValues(values, delims, a, b, rs), SpliceDelimiters(values, delims, a, b, rs))
         == ElementsOf(values, delims)[..a] + rs + ElementsOf(values, delims)[b..]
  {
    SpliceWellFormed(values, delims, a, b, rs);
    var sv := SpliceValues(values, delims, a, b, rs);
    var sd := SpliceDelimiters(values, delims, a, b, rs);
    var e := ElementsOf(values, delims);
    var want := e[..a] + rs + e[b..];
    var got := ElementsOf(sv, sd);
    assert |got| == |want|;
    forall k | 0 <= k < |got|
      ensures got[k] == want[k]
    {
      if k < a {
        SplicedElementBefore(values, delims, a, b, rs, k);
      } else if k < a + |rs| {
        SplicedElementInside(values, delims, a, b, rs, k);
      } else {
        SplicedElementAfter(values, delims, a, b, rs, k);
      }
    }
  }

  /** Element `k < a` of a splice, as an element: the old element `k`. */
  lemma SplicedElementBefore<T>(values: seq<T>, delims: seq<nat>, a: nat, b: nat, rs: seq<seq<T>>, k: nat)
    requires WellFormed(values, delims) && a <= b < |delims|
    requires WellFormed(SpliceValues(values, delims, a, b, rs), SpliceDelimiters(values, delims, a, b, rs))
    requires k < |ElementsOf(values, delims)[..a] + rs + ElementsOf(values, delims)[b..]|
    requires k < a
    ensures k < |ElementsOf(SpliceValues(values, delims, a, b, rs), SpliceDelimiters(values, delims, a, b, rs))|
    ensures ElementsOf(SpliceValues(values, delims, a, b, rs), SpliceDelimiters(values, delims, a, b, rs))[k]
         == (ElementsOf(values, delims)[..a] + rs + ElementsOf(values, delims)[b..])[k]
  {
    var e := ElementsOf(values, delims);
    var want := e[..a] + rs + e[b..];
    var sv := SpliceValues(values, delims, a, b, rs);
    var sd := SpliceDelimiters(values, delims, a, b, rs);
    SpliceBefore(values, delims, a, b, rs, k);
    ElementAt(sv, sd, k, e[k]);
    assert want[k] == e[k];
  }

  /** Element `a + t` of a splice, as an element: `rs[t]`. */
  lemma SplicedElementInside<T>(values: seq<T>, delims: seq<nat>, a: nat, b: nat, rs: seq<seq<T>>, k: nat)
    requires WellFormed(values, delims) && a <= b < |delims|
    requires WellFormed(SpliceValues(values, delims, a, b, rs), SpliceDelimiters(values, delims, a, b, rs))
    requires k < |ElementsOf(values, delims)[..a] + rs + ElementsOf(values, delims)[b..]|
    requires a <= k < a + |rs|
    ensures k < |ElementsOf(SpliceValues(values, delims, a, b, rs), SpliceDelimiters(values, delims, a, b, rs))|
    ensures ElementsOf(SpliceValues(values, delims, a, b, rs), SpliceDelimiters(values, delims, a, b, rs))[k]
         == (ElementsOf(values, delims)[..a] + rs + ElementsOf(values, delims)[b..])[k]
  {
    var e := ElementsOf(values, delims);
    var want := e[..a] + rs + e[b..];
    var sv := SpliceValues(values, delims, a, b, rs);
    var sd := SpliceDelimiters(values, delims, a, b, rs);
    var t := k - a;
    SpliceInside(values, delims, a, b, rs, t);
    ElementAt(sv, sd, a + t, rs[t]);
    assert want[k] == rs[t];
  }

  /** Element `a + |rs| + u` of a splice, as an element: the old element `b + u`. */
  lemma SplicedElementAfter<T>(values: seq<T>, delims: seq<nat>, a: nat, b: nat, rs: seq<seq<T>>, k: nat)
    requires WellFormed(values, delims) && a <= b < |delims|
    requires WellFormed(SpliceValues(values, delims, a, b, rs), SpliceDelimiters(values, delims, a, b, rs))
    requires k < |ElementsOf(values, delims)[..a] + rs + ElementsOf(values, delims)[b..]|
    requires a + |rs| <= k
    ensures k < |ElementsOf(SpliceValues(values, delims, a, b, rs), SpliceDelimiters(values, delims, a, b, rs))|
    ensures ElementsOf(SpliceValues(values, delims, a, b, rs), SpliceDelimiters(values, delims, a, b, rs))[k]
         == (ElementsOf(values, delims)[..a] + rs + ElementsOf(values, delims)[b..])[k]
  {
    var e := ElementsOf(values, delims);
    var want := e[..a] + rs + e[b..];
    var sv := SpliceValues(values, delims, a, b, rs);
    var sd := SpliceDelimiters(values, delims, a, b, rs);
    var u := k - a - |rs|;
    SpliceAfter(values, delims, a, b, rs, u);
    ElementAt(sv, sd, a + |rs| + u, e[b + u]);
    assert want[k] == e[b + u];
  }

  /** Element `k` of a representation is the stretch between delimiters `k` and `k + 1`. */
  lemma ElementAt<T>(values: seq<T>, delims: seq<nat>, k: nat, x: seq<T>)
    requires WellFormed(values, delims) && k + 1 < |delims|
    requires delims[k] <= delims[k + 1] <= |values| && values[delims[k]..delims[k + 1]] == x
    ensures ElementsOf(values, delims)[k] == x
  {
  }

  /** Splicing `rs` into the empty representation gives its canonical representation. */
  lemma SpliceIntoEmpty<T>(rs: seq<seq<T>>)
    ensures WellFormed<T>([], [0])
    ensures SpliceValues<T>([], [0], 0, 0, rs) == Concat(rs)
    ensures SpliceDelimiters<T>([], [0], 0, 0, rs) == Offsets(rs)
  {
    var empty: seq<T> := [];
    var d := SpliceDelimiters(empty, [0], 0, 0, rs);
    forall k | 0 <= k < |d|
      ensures d[k] == Offsets(rs)[k]
    {
      SpliceDelimiterAt(empty, [0], 0, 0, rs, k);
    }
  }

  /** The canonical representation stands for the list it was built from. */
  lemma CanonicalElements<T>(rs: seq<seq<T>>)
    ensures WellFormed(Concat(rs), Offsets(rs))
    ensures ElementsOf(Concat(rs), Offsets(rs)) == rs
  {
    SpliceIntoEmpty(rs);
    SpliceElements<T>([], [0], 0, 0, rs);
  }

  /** Dropping the last delimiter, and the buffer after it, drops the last element. */
  lemma DropLast<T>(values: seq<T>, delims: seq<nat>)
    requires WellFormed(values, delims) && |delims| >= 2
    ensures WellFormed(values[..delims[|delims| - 2]], delims[..|delims| - 1])
    ensures ElementsOf(values[..delims[|delims| - 2]], delims[..|delims| - 1])
         == ElementsOf(values, delims)[..|delims| - 2]
  {
    var n := |delims| - 1;
    var v' := values[..delims[n - 1]];
    var d' := delims[..n];
    assert WellFormed(v', d');
    forall i | 0 <= i < n - 1
      ensures ElementsOf(v', d')[i] == ElementsOf(values, delims)[i]
    {
      assert delims[i] <= delims[i + 1] <= delims[n - 1];
    }
  }

  /** A representation with at least one element is the one without its last element, then the last element. */
  lemma SplitLast<T>(values: seq<T>, delims: seq<nat>)
    requires WellFormed(values, delims) && |delims| >= 2
    ensures var n := |delims| - 1;
            var last := values[delims[n - 1]..delims[n]];
            && WellFormed(values[..delims[n - 1]], delims[..n])
            && ElementsOf(values, delims) == ElementsOf(values[..delims[n - 1]], delims[..n]) + [last]
            && values == values[..delims[n - 1]] + last
            && delims == delims[..n] + [delims[n]]
  {
    var n := |delims| - 1;
    DropLast(values, delims);
    var e := ElementsOf(values, delims);
    assert e == e[..n - 1] + [e[n - 1]];
    assert delims[n] == |values| && delims[n - 1] <= |values|;
    assert values[delims[n - 1]..delims[n]] == values[delims[n - 1]..];
  }

  /** A well-formed representation is the canonical representation of its elements. */
  lemma {:induction false} RepresentationUnique<T>(values: seq<T>, delims: seq<nat>)
    requires WellFormed(values, delims)
    ensures values == Concat(ElementsOf(values, delims))
    ensures delims == Offsets(ElementsOf(values, delims))
    decreases |delims|
  {
    var e := ElementsOf(values, delims);
    if |delims| == 1 {
      assert e == [];
    } else {
      var n := |delims| - 1;
      var d' := delims[..n];
      var v' := values[..delims[n - 1]];
      SplitLast(values, delims);
      RepresentationUnique(v', d');
      assert e[..|e| - 1] == ElementsOf(v', d');
    }
  }

  /** Two representations are equal exactly when they stand for the same elements. */
  lemma RawEqualIffSameElements<T>(v1: seq<T>, d1: seq<nat>, v2: seq<T>, d2: seq<nat>)
    requires WellFormed(v1, d1) && WellFormed(v2, d2)
    ensures (v1 == v2 && d1 == d2) <==> ElementsOf(v1, d1) == ElementsOf(v2, d2)
  {
    RepresentationUnique(v1, d1);
    RepresentationUnique(v2, d2);
  }

  /** The offset of each sequence grows by the length of the one before. */
  lemma OffsetsStep<T>(rs: seq<seq<T>>, t: nat)
    requires t < |rs|
    ensures Offsets(rs)[t + 1] == Offsets(rs)[t] + |rs[t]|
  {
    OffsetsSlice(rs, t);
  }

  /** Copies of one sequence start at multiples of its length. */
  lemma {:induction false} ReplicateOffsets<T>(value: seq<T>, count: nat, i: nat)
    requires i <= count
    ensures Offsets(Replicate(value, count))[i] == |value| * i
    decreases i
  {
    if i > 0 {
      ReplicateOffsets(value, count, i - 1);
      OffsetsStep(Replicate(value, count), i - 1);
      assert |value| * i == |value| * (i - 1) + |value|;
    }
  }

  /** Replacing no elements by nothing changes nothing. */
  lemma SpliceNothing<T>(values: seq<T>, delims: seq<nat>, a: nat)
    requires WellFormed(values, delims) && a < |delims|
    ensures SpliceValues(values, delims, a, a, []) == values
    ensures SpliceDelimiters(values, delims, a, a, []) == delims
  {
    var d := SpliceDelimiters(values, delims, a, a, []);
    forall k | 0 <= k < |d|
      ensures d[k] == delims[k]
    {
      SpliceDelimiterAt(values, delims, a, a, [], k);
    }
  }

  // Delimiter updates, each a loop of the source over the delimiter vector.

  /** `std::for_each` adding `delta` to every delimiter from index `from` on. */
  method AddToTail(d: seq<nat>, from: nat, delta: nat) returns (r: seq<nat>)
    requires from <= |d|
    ensures |r| == |d|
    ensures forall j :: 0 <= j < from ==> r[j] == d[j]
    ensures forall j :: from <= j < |d| ==> r[j] == d[j] + delta
  {
    r := d;
    var i := from;
    while i < |r|
      invariant from <= i <= |r| == |d|
      invariant forall j :: 0 <= j < from ==> r[j] == d[j]
      invariant forall j :: from <= j < i ==> r[j] == d[j] + delta
      invariant forall j :: i <= j < |d| ==> r[j] == d[j]
    {
      r := r[i := r[i] + delta];
      i := i + 1;
    }
  }

  /** `std::for_each` subtracting `delta` from every delimiter from index `from` on. */
  method SubtractFromTail(d: seq<nat>, from: nat, delta: nat) returns (r: seq<nat>)
    requires from <= |d|
    requires forall j :: from <= j < |d| ==> delta <= d[j]
    ensures |r| == |d|
    ensures forall j :: 0 <= j < from ==> r[j] == d[j]
    ensures forall j :: from <= j < |d| ==> r[j] == d[j] - delta
  {
    r := d;
    var i := from;
    while i < |r|
      invariant from <= i <= |r| == |d|
      invariant forall j :: 0 <= j < from ==> r[j] == d[j]
      invariant forall j :: from <= j < i ==> r[j] == d[j] - delta
      invariant forall j :: i <= j < |d| ==> r[j] == d[j]
    {
      r := r[i := r[i] - delta];
      i := i + 1;
    }
  }

  /** A product of naturals is a natural. */
  lemma ProductOfNaturals(a: nat, b: nat)
    ensures a * b >= 0
  {
  }

  /** The delimiters `insert(pos, count, value)` computes are those of the splice of `count` copies of `value`. */
  lemma InsertCountAgrees<T>(values: seq<T>, delims: seq<nat>, pos: nat, count: nat, value: seq<T>, grown: seq<nat>, nd: seq<nat>)
    requires WellFormed(values, delims) && pos < |delims| && |grown| == |delims| + count == |nd|
    requires grown[..pos + 1] == delims[..pos + 1] && grown[pos + count + 1..] == delims[pos + 1..]
    requires forall k :: pos < k <= pos + count ==> grown[k] == delims[pos] + |value| * (k - pos)
    requires forall j :: 0 <= j < pos + count + 1 ==> nd[j] == grown[j]
    requires forall j :: pos + count + 1 <= j < |grown| ==> nd[j] == grown[j] + |value| * count
    ensures nd == SpliceDelimiters(values, delims, pos, pos, Replicate(value, count))
  {
    var rs := Replicate(value, count);
    var sd := SpliceDelimiters(values, delims, pos, pos, rs);
    ReplicateOffsets(value, count, count);
    forall k | 0 <= k < |nd|
      ensures nd[k] == sd[k]
    {
      SpliceDelimiterAt(values, delims, pos, pos, rs, k);
      if k <= pos {
        assert grown[..pos + 1][k] == delims[..pos + 1][k];
      } else if k <= pos + count {
        ReplicateOffsets(value, count, k - pos);
      } else {
        assert grown[pos + count + 1..][k - pos - count - 1] == delims[pos + 1..][k - pos - count - 1];
      }
    }
  }

  /**
   * The delimiter update of `insert(pos, count, value)`: `count` copies of
   * `delims[pos]` are inserted, the `i`-th of them grows by
   * `|value| * (i + 1)`, and every later delimiter by `|value| * count`.
   * The result is the delimiter vector of the splice that puts `count`
   * copies of `value` before element `pos`.
   */
  method InsertCountDelimiters<T>(values: seq<T>, delims: seq<nat>, pos: nat, count: nat, value: seq<T>)
    returns (nd: seq<nat>)
    requires WellFormed(values, delims) && pos < |delims|
    ensures nd == SpliceDelimiters(values, delims, pos, pos, Replicate(value, count))
  {
    var start := delims[pos];
    var len := |value|;
    nd := delims[..pos] + seq(count, _ => start) + delims[pos..];
    assert nd[..pos + 1] == delims[..pos + 1];
    assert nd[pos + count + 1..] == delims[pos + 1..];
    var i := 0;
    while i < count
      invariant 0 <= i <= count && |nd| == |delims| + count
      invariant nd[..pos + 1] == delims[..pos + 1] && nd[pos + count + 1..] == delims[pos + 1..]
      invariant forall k :: pos < k <= pos + i ==> nd[k] == start + len * (k - pos)
      invariant forall k :: pos + i < k <= pos + count ==> nd[k] == start
    {
      ProductOfNaturals(len, i + 1);
      nd := nd[pos + 1 + i := nd[pos + 1 + i] + len * (i + 1)];
      i := i + 1;
    }
    var grown := nd;
    ProductOfNaturals(len, count);
    nd := AddToTail(nd, pos + count + 1, len * count);
    InsertCountAgrees(values, delims, pos, count, value, grown, nd);
  }


  /**
   * The delimiter update of the range form of `insert`: one copy of
   * `delims[pos]` per inserted sequence, each grown by the running total of
   * the inserted lengths, then every later delimiter by the full total.
   */
  method InsertRangesDelimiters<T>(values: seq<T>, delims: seq<nat>, pos: nat, rs: seq<seq<T>>)
    returns (nd: seq<nat>, fullLen: nat)
    requires WellFormed(values, delims) && pos < |delims|
    ensures fullLen == |Concat(rs)|
    ensures nd == SpliceDelimiters(values, delims, pos, pos, rs)
  {
    var start := delims[pos];
    nd := delims[..pos] + seq(|rs|, _ => start) + delims[pos..];
    fullLen := 0;
    var i := 0;
    while i < |rs|
      invariant 0 <= i <= |rs| && |nd| == |delims| + |rs|
      invariant fullLen == Offsets(rs)[i]
      invariant forall j :: 0 <= j <= pos ==> nd[j] == delims[j]
      invariant forall k :: pos < k <= pos + i ==> nd[k] == start + Offsets(rs)[k - pos]
      invariant forall k :: pos + i < k <= pos + |rs| ==> nd[k] == start
      invariant forall j :: pos + |rs| < j < |nd| ==> nd[j] == delims[j - |rs|]
    {
      OffsetsStep(rs, i);
      fullLen := fullLen + |rs[i]|;
      nd := nd[pos + 1 + i := nd[pos + 1 + i] + fullLen];
      i := i + 1;
    }
    nd := AddToTail(nd, pos + |rs| + 1, fullLen);
    var sd := SpliceDelimiters(values, delims, pos, pos, rs);
    forall k | 0 <= k < |nd|
      ensures nd[k] == sd[k]
    {
      SpliceDelimiterAt(values, delims, pos, pos, rs, k);
    }
  }

  /**
   * The delimiter update of `erase(first, last)`: the sizes of the erased
   * elements are summed, their end delimiters removed, and the sum taken
   * off every later delimiter.
   */
  method EraseDelimiters<T>(values: seq<T>, delims: seq<nat>, first: nat, last: nat)
    returns (nd: seq<nat>, sumSize: nat)
    requires WellFormed(values, delims) && first <= last < |delims|
    ensures sumSize == |Concat(ElementsOf(values, delims)[first..last])|
    ensures nd == SpliceDelimiters(values, delims, first, last, [])
  {
    sumSize := 0;
    var k := first;
    while k < last
      invariant first <= k <= last
      invariant sumSize == delims[k] - delims[first]
    {
      assert delims[first] <= delims[k] <= delims[k + 1];
      sumSize := sumSize + |values[delims[k]..delims[k + 1]]|;
      k := k + 1;
    }
    assert delims[first] <= delims[last];
    nd := delims[..first + 1] + delims[last + 1..];
    forall j | first + 1 <= j < |nd|
      ensures sumSize <= nd[j]
    {
      assert delims[last] <= delims[j - first + last];
    }
    nd := SubtractFromTail(nd, first + 1, sumSize);
    var sd := SpliceDelimiters(values, delims, first, last, []);
    forall j | 0 <= j < |nd|
      ensures nd[j] == sd[j]
    {
      SpliceDelimiterAt(values, delims, first, last, [], j);
    }
    ErasedLength(values, delims, first, last);
  }

  /** Erasing elements `first .. last` leaves the others, in a buffer shorter by their total length. */
  lemma ErasedElements<T>(values: seq<T>, delims: seq<nat>, first: nat, last: nat)
    requires WellFormed(values, delims) && first <= last < |delims|
    ensures delims[first] <= delims[last] <= |values|
    ensures values[..delims[first]] + values[delims[last]..] == SpliceValues(values, delims, first, last, [])
    ensures |SpliceValues(values, delims, first, last, [])| == |values| - |Concat(ElementsOf(values, delims)[first..last])|
    ensures WellFormed(SpliceValues(values, delims, first, last, []), SpliceDelimiters(values, delims, first, last, []))
    ensures ElementsOf(SpliceValues(values, delims, first, last, []), SpliceDelimiters(values, delims, first, last, []))
         == ElementsOf(values, delims)[..first] + ElementsOf(values, delims)[last..]
  {
    var e := ElementsOf(values, delims);
    SpliceElements(values, delims, first, last, []);
    ErasedLength(values, delims, first, last);
    ErasedValues(values, delims, first, last);
    assert e[..first] + [] + e[last..] == e[..first] + e[last..];
  }

  /** Erasing splices nothing in: the buffer loses exactly the erased stretch. */
  lemma ErasedValues<T>(values: seq<T>, delims: seq<nat>, first: nat, last: nat)
    requires WellFormed(values, delims) && first <= last < |delims|
    ensures delims[first] <= delims[last] <= |values|
    ensures values[..delims[first]] + values[delims[last]..] == SpliceValues(values, delims, first, last, [])
  {
    assert Concat<T>([]) == [];
  }

  /** The erased elements together are as long as the stretch between their delimiters. */
  lemma ErasedLength<T>(values: seq<T>, delims: seq<nat>, first: nat, last: nat)
    requires WellFormed(values, delims) && first <= last < |delims|
    ensures delims[first] <= delims[last]
    ensures |Concat(ElementsOf(values, delims)[first..last])| == delims[last] - delims[first]
  {
    var e := ElementsOf(values, delims);
    RepresentationUnique(values, delims);
    assert e[first..last] == e[..last][first..];
    OffsetsAt(e, first);
    OffsetsAt(e, last);
    assert e[..last] == e[..first] + e[first..last];
    ConcatAppend(e[..first], e[first..last]);
  }

  // The raw updates of the single-end modifiers, each shown to be a splice.

  /** `push_back(value)` appends `value` to the buffer and one delimiter: the splice adding `value` at the end. */
  lemma PushBackIsSplice<T>(values: seq<T>, delims: seq<nat>, value: seq<T>)
    requires WellFormed(values, delims)
    ensures var n := |delims| - 1;
      && values + value == SpliceValues(values, delims, n, n, [value])
      && delims + [delims[n] + |value|] == SpliceDelimiters(values, delims, n, n, [value])
  {
    var n := |delims| - 1;
    assert [value][..0] == [];
    assert Concat([value]) == value;
    var sd := SpliceDelimiters(values, delims, n, n, [value]);
    SpliceDelimiterAt(values, delims, n, n, [value], n + 1);
    assert sd == delims + [delims[n] + |value|];
  }

  /**
   * `last_push_back` and `last_append` on an empty container, which the
   * source does not guard against: the buffer becomes the appended values and
   * the only delimiter their count, so the size stays 0 while the buffer is
   * not empty, and the first delimiter is no longer 0.
   */
  lemma LastAppendOnEmptyBreaksRepresentation<T>(value: seq<T>)
    requires |value| > 0
    ensures var values, delims := [] + value, [0][0 := 0 + |value|];
            |delims| - 1 == 0 && |values| == |value| && delims[0] != 0 && !WellFormed(values, delims)
  {
  }

  /**
   * `last_append(value)` appends `value` to the buffer and grows the last
   * delimiter: the splice replacing the last element by itself followed by `value`.
   */
  lemma LastAppendIsSplice<T>(values: seq<T>, delims: seq<nat>, value: seq<T>)
    requires WellFormed(values, delims) && |delims| >= 2
    ensures var n := |delims| - 1;
      var grown := ElementsOf(values, delims)[n - 1] + value;
      && values + value == SpliceValues(values, delims, n - 1, n, [grown])
      && delims[n := delims[n] + |value|] == SpliceDelimiters(values, delims, n - 1, n, [grown])
  {
    var n := |delims| - 1;
    var grown := ElementsOf(values, delims)[n - 1] + value;
    assert [grown][..0] == [];
    assert Concat([grown]) == grown;
    assert values == values[..delims[n - 1]] + values[delims[n - 1]..];
    var sd := SpliceDelimiters(values, delims, n - 1, n, [grown]);
    SpliceDelimiterAt(values, delims, n - 1, n, [grown], n);
    assert sd == delims[..n] + [delims[n] + |value|];
  }

  /** `pop_back()` cuts the last element's length off the buffer and drops one delimiter. */
  lemma PopBackIsSplice<T>(values: seq<T>, delims: seq<nat>)
    requires WellFormed(values, delims) && |delims| >= 2
    ensures var n := |delims| - 1;
      && delims[n - 1] <= delims[n]
      && values[..|values| - (delims[n] - delims[n - 1])] == SpliceValues(values, delims, n - 1, n, [])
      && delims[..n] == SpliceDelimiters(values, delims, n - 1, n, [])
  {
    var n := |delims| - 1;
    assert delims[n - 1] <= delims[n];
  }

  /** `resize(count)` to a smaller size keeps `count + 1` delimiters and the buffer up to the last of them. */
  lemma TruncateIsSplice<T>(values: seq<T>, delims: seq<nat>, count: nat)
    requires WellFormed(values, delims) && count < |delims|
    ensures var n := |delims| - 1;
      && values[..delims[count]] == SpliceValues(values, delims, count, n, [])
      && delims[..count + 1] == SpliceDelimiters(values, delims, count, n, [])
  {
  }

  /** `resize(count)` to a smaller size: the first `count` elements remain. */
  lemma TruncateElements<T>(values: seq<T>, delims: seq<nat>, count: nat)
    requires WellFormed(values, delims) && count < |delims|
    ensures delims[count] <= |values|
    ensures WellFormed(values[..delims[count]], delims[..count + 1])
    ensures ElementsOf(values[..delims[count]], delims[..count + 1]) == ElementsOf(values, delims)[..count]
  {
    var n := |delims| - 1;
    TruncateIsSplice(values, delims, count);
    SpliceElements(values, delims, count, n, []);
    assert ElementsOf(values, delims)[n..] == [];
  }

  /** `resize(count)` to a larger size repeats the last delimiter: the splice adding empty elements. */
  lemma PadIsSplice<T>(values: seq<T>, delims: seq<nat>, extra: nat)
    requires WellFormed(values, delims)
    ensures var n := |delims| - 1;
      && values == SpliceValues(values, delims, n, n, Replicate([], extra))
      && delims + seq(extra, _ => delims[n]) == SpliceDelimiters(values, delims, n, n, Replicate([], extra))
  {
    var n := |delims| - 1;
    var rs: seq<seq<T>> := Replicate([], extra);
    ReplicateOffsets<T>([], extra, extra);
    var sd := SpliceDelimiters(values, delims, n, n, rs);
    forall k | 0 <= k < |sd|
      ensures sd[k] == (delims + seq(extra, _ => delims[n]))[k]
    {
      SpliceDelimiterAt(values, delims, n, n, rs, k);
      if n <= k {
        ReplicateOffsets<T>([], extra, k - n);
      }
    }
  }

  /** `resize(count)` to a larger size: `extra` empty elements follow, and the buffer already ends at the last delimiter. */
  lemma PadElements<T>(values: seq<T>, delims: seq<nat>, extra: nat)
    requires WellFormed(values, delims)
    ensures var d := delims + seq(extra, _ => delims[|delims| - 1]);
            && WellFormed(values, d) && d[|d| - 1] == |values| && values[..|values|] == values
            && ElementsOf(values, d) == ElementsOf(values, delims) + Replicate([], extra)
  {
    var n := |delims| - 1;
    PadIsSplice(values, delims, extra);
    SpliceElements(values, delims, n, n, Replicate([], extra));
    assert ElementsOf(values, delims)[n..] == [];
  }

  /** The error `at` reports: `std::out_of_range`. */
  datatype Error = OutOfRange

  /**
   * The container. `dataValues` is the flat buffer, `dataDelimiters` the
   * delimiter vector; every modifier keeps `Valid()` and is stated both as
   * the source's update of the two fields and as its effect on `Elements()`.
   */
  class ConcatenatedSequences<T(==)> {
    var dataValues: seq<T>
    var dataDelimiters: seq<nat>

    predicate Valid()
      reads this
    {
      WellFormed(dataValues, dataDelimiters)
    }

    /** The sequences the container holds. */
    function Elements(): seq<seq<T>>
      reads this
      requires Valid()
    {
      ElementsOf(dataValues, dataDelimiters)
    }

    /** The default constructor: no elements, delimiters `{0}`. */
    constructor ()
      ensures Valid() && Elements() == []
      ensures dataValues == [] && dataDelimiters == [0]
    {
      dataValues := [];
      dataDelimiters := [0];
    }

    /** The range constructor: appends each sequence of `rngOfRng` and its end delimiter. */
    constructor FromRanges(rngOfRng: seq<seq<T>>)
      ensures Valid() && Elements() == rngOfRng
      ensures dataValues == Concat(rngOfRng) && dataDelimiters == Offsets(rngOfRng)
    {
      var values: seq<T> := [];
      var delims: seq<nat> := [0];
      var i := 0;
      while i < |rngOfRng|
        invariant i <= |rngOfRng|
        invariant values == Concat(rngOfRng[..i]) && delims == Offsets(rngOfRng[..i])
      {
        var val := rngOfRng[i];
        PrefixStep(rngOfRng, i);
        values := values + val;
        delims := delims + [delims[|delims| - 1] + |val|];
        i := i + 1;
      }
      assert rngOfRng[..i] == rngOfRng;
      dataValues := values;
      dataDelimiters := delims;
      new;
      CanonicalElements(rngOfRng);
    }

    /** The constructor from a count and a value: `count` copies of `value`. */
    constructor Filled(count: nat, value: seq<T>)
      ensures Valid() && Elements() == Replicate(value, count)
    {
      dataValues := [];
      dataDelimiters := [0];
      new;
      if count == 0 {
        return;
      }
      Insert(0, count, value);
    }

    /** `assign(rng_of_rng)`: builds a container from the range and swaps it in. */
    method Assign(rngOfRng: seq<seq<T>>)
      modifies this
      ensures Valid() && Elements() == rngOfRng
    {
      var rhs := new ConcatenatedSequences.FromRanges(rngOfRng);
      Swap(rhs);
    }

    /** `size()`: one less than the number of delimiters. */
    function Size(): (n: nat)
      reads this
      requires Valid()
      ensures n == |Elements()|
    {
      |dataDelimiters| - 1
    }

    /** `concat_size()`: the length of the buffer, which is the total length of the elements. */
    function ConcatSize(): (c: nat)
      reads this
      requires Valid()
      ensures c == |Concat(Elements())|
    {
      RepresentationUnique(dataValues, dataDelimiters);
      |dataValues|
    }

    /**
     * `operator[]`: the stretch of the buffer between delimiters `i` and
     * `i + 1`, which is what is left of the buffer once the elements
     * before and after `i` are taken off.
     */
    function Get(i: nat): (r: seq<T>)
      reads this
      requires Valid() && i < Size()
      ensures Concat(Elements()[..i]) + r + Concat(Elements()[i + 1..]) == dataValues
    {
      var e := Elements();
      RepresentationUnique(dataValues, dataDelimiters);
      assert e == e[..i] + [e[i]] + e[i + 1..];
      ConcatAppend(e[..i] + [e[i]], e[i + 1..]);
      ConcatAppend(e[..i], [e[i]]);
      assert [e[i]][..0] == [];
      dataValues[dataDelimiters[i]..dataDelimiters[i + 1]]
    }

    /** `at(i)`: element `i`, or `out_of_range` when `i >= size()`. */
    method At(i: nat) returns (r: Result<seq<T>, Error>)
      requires Valid()
      ensures r.Failure? <==> i >= Size()
      ensures r.Success? ==> r.value == Elements()[i]
      ensures r.Failure? ==> r.error == OutOfRange
    {
      if i >= Size() {
        return Failure(OutOfRange);
      }
      return Success(Get(i));
    }

    /** `clear()`: an empty buffer and the delimiters `{0}`. */
    method Clear()
      requires Valid()
      modifies this
      ensures Valid() && Elements() == []
      ensures dataValues == [] && dataDelimiters == [0]
    {
      dataValues := [];
      dataDelimiters := [0];
    }

    /** `push_back(value)`: a new last element equal to `value`. */
    method PushBack(value: seq<T>)
      requires Valid()
      modifies this
      ensures Valid()
      ensures dataValues == old(dataValues) + value
      ensures dataDelimiters == old(dataDelimiters) + [|old(dataValues)| + |value|]
      ensures Elements() == old(Elements()) + [value]
    {
      var n := |dataDelimiters| - 1;
      PushBackIsSplice(dataValues, dataDelimiters, value);
      SpliceElements(dataValues, dataDelimiters, n, n, [value]);
      assert ElementsOf(dataValues, dataDelimiters)[n..] == [];
      dataValues := dataValues + value;
      dataDelimiters := dataDelimiters + [dataDelimiters[n] + |value|];
    }

    /** `push_back()`: a new, empty last element; only the delimiters change. */
    method PushBackEmpty()
      requires Valid()
      modifies this
      ensures Valid()
      ensures dataValues == old(dataValues)
      ensures dataDelimiters == old(dataDelimiters) + [|old(dataValues)|]
      ensures Elements() == old(Elements()) + [[]]
    {
      var n := |dataDelimiters| - 1;
      PushBackIsSplice(dataValues, dataDelimiters, []);
      SpliceElements(dataValues, dataDelimiters, n, n, [[]]);
      assert ElementsOf(dataValues, dataDelimiters)[n..] == [];
      assert dataValues + [] == dataValues;
      dataDelimiters := dataDelimiters + [dataDelimiters[n]];
    }

    /** `last_push_back(value)`: the last element grows by `value`; the size stays. */
    method LastPushBack(value: T)
      requires Valid() && Size() > 0
      modifies this
      ensures Valid()
      ensures dataValues == old(dataValues) + [value]
      ensures dataDelimiters == old(dataDelimiters)[old(Size()) := |old(dataValues)| + 1]
      ensures Size() == old(Size())
      ensures Elements() == old(Elements())[..old(Size()) - 1] + [old(Elements())[old(Size()) - 1] + [value]]
    {
      var n := |dataDelimiters| - 1;
      LastAppendIsSplice(dataValues, dataDelimiters, [value]);
      SpliceElements(dataValues, dataDelimiters, n - 1, n, [ElementsOf(dataValues, dataDelimiters)[n - 1] + [value]]);
      assert ElementsOf(dataValues, dataDelimiters)[n..] == [];
      dataValues := dataValues + [value];
      dataDelimiters := dataDelimiters[n := dataDelimiters[n] + 1];
    }

    /** `last_append(value)`: the last element grows by the sequence `value`; the size stays. */
    method LastAppend(value: seq<T>)
      requires Valid() && Size() > 0
      modifies this
      ensures Valid()
      ensures dataValues == old(dataValues) + value
      ensures dataDelimiters == old(dataDelimiters)[old(Size()) := |old(dataValues)| + |value|]
      ensures Size() == old(Size())
      ensures Elements() == old(Elements())[..old(Size()) - 1] + [old(Elements())[old(Size()) - 1] + value]
    {
      var n := |dataDelimiters| - 1;
      LastAppendIsSplice(dataValues, dataDelimiters, value);
      SpliceElements(dataValues, dataDelimiters, n - 1, n, [ElementsOf(dataValues, dataDelimiters)[n - 1] + value]);
      assert ElementsOf(dataValues, dataDelimiters)[n..] == [];
      dataValues := dataValues + value;
      dataDelimiters := dataDelimiters[n := dataDelimiters[n] + |value|];
    }

    /** `pop_back()`: the last element goes, and the buffer shrinks by its length. */
    method PopBack()
      requires Valid() && Size() > 0
      modifies this
      ensures Valid()
      ensures |dataValues| == |old(dataValues)| - |old(Elements())[old(Size()) - 1]|
      ensures dataValues == old(dataValues)[..|dataValues|]
      ensures dataDelimiters == old(dataDelimiters)[..old(Size())]
      ensures Elements() == old(Elements())[..old(Size()) - 1]
    {
      var n := |dataDelimiters| - 1;
      PopBackIsSplice(dataValues, dataDelimiters);
      SpliceElements(dataValues, dataDelimiters, n - 1, n, []);
      assert ElementsOf(dataValues, dataDelimiters)[n..] == [];
      var backLength := dataDelimiters[n] - dataDelimiters[n - 1];
      dataValues := dataValues[..|dataValues| - backLength];
      dataDelimiters := dataDelimiters[..n];
    }

    /**
     * `insert(pos, count, value)`: `count` copies of `value` before element
     * `pos`; with `count == 0` nothing changes.
     */
    method Insert(pos: nat, count: nat, value: seq<T>)
      requires Valid() && pos <= Size()
      modifies this
      ensures Valid()
      ensures dataValues == SpliceValues(old(dataValues), old(dataDelimiters), pos, pos, Replicate(value, count))
      ensures dataDelimiters == SpliceDelimiters(old(dataValues), old(dataDelimiters), pos, pos, Replicate(value, count))
      ensures Elements() == old(Elements())[..pos] + Replicate(value, count) + old(Elements())[pos..]
    {
      var rs := Replicate(value, count);
      SpliceElements(dataValues, dataDelimiters, pos, pos, rs);
      if count == 0 {
        SpliceNothing(dataValues, dataDelimiters, pos);
        return;
      }
      var start := dataDelimiters[pos];
      var nd := InsertCountDelimiters(dataValues, dataDelimiters, pos, count, value);
      dataValues := dataValues[..start] + Concat(rs) + dataValues[start..];
      dataDelimiters := nd;
    }

    /** `insert(pos, value)`: one copy of `value` before element `pos`. */
    method InsertOne(pos: nat, value: seq<T>)
      requires Valid() && pos <= Size()
      modifies this
      ensures Valid()
      ensures Elements() == old(Elements())[..pos] + [value] + old(Elements())[pos..]
    {
      Insert(pos, 1, value);
      assert Replicate(value, 1) == [value];
    }

    /**
     * The range form of `insert`: the sequences of `rs`, in order, before
     * element `pos`; an empty `rs` changes nothing.
     */
    method InsertRanges(pos: nat, rs: seq<seq<T>>)
      requires Valid() && pos <= Size()
      modifies this
      ensures Valid()
      ensures dataValues == SpliceValues(old(dataValues), old(dataDelimiters), pos, pos, rs)
      ensures dataDelimiters == SpliceDelimiters(old(dataValues), old(dataDelimiters), pos, pos, rs)
      ensures Elements() == old(Elements())[..pos] + rs + old(Elements())[pos..]
    {
      SpliceElements(dataValues, dataDelimiters, pos, pos, rs);
      if |rs| == 0 {
        SpliceNothing(dataValues, dataDelimiters, pos);
        return;
      }
      var nd, fullLen := InsertRangesDelimiters(dataValues, dataDelimiters, pos, rs);
      var start := dataDelimiters[pos];
      dataValues := dataValues[..start] + Concat(rs) + dataValues[start..];
      dataDelimiters := nd;
    }

    /**
     * `erase(first, last)`: elements `first .. last` go and the buffer
     * loses their total length; an empty range changes nothing.
     */
    method Erase(first: nat, last: nat)
      requires Valid() && first <= last <= Size()
      modifies this
      ensures Valid()
      ensures |dataValues| == |old(dataValues)| - |Concat(old(Elements())[first..last])|
      ensures dataValues == SpliceValues(old(dataValues), old(dataDelimiters), first, last, [])
      ensures dataDelimiters == SpliceDelimiters(old(dataValues), old(dataDelimiters), first, last, [])
      ensures Elements() == old(Elements())[..first] + old(Elements())[last..]
    {
      ErasedElements(dataValues, dataDelimiters, first, last);
      if first == last {
        SpliceNothing(dataValues, dataDelimiters, first);
        return;
      }
      var nd, sumSize := EraseDelimiters(dataValues, dataDelimiters, first, last);
      dataValues := dataValues[..dataDelimiters[first]] + dataValues[dataDelimiters[last]..];
      dataDelimiters := nd;
    }

    /** `erase(pos)`: element `pos` goes. */
    method EraseAt(pos: nat)
      requires Valid() && pos < Size()
      modifies this
      ensures Valid()
      ensures Elements() == old(Elements())[..pos] + old(Elements())[pos + 1..]
    {
      Erase(pos, pos + 1);
    }

    /**
     * `resize(count)`: the delimiter vector is resized to `count + 1`,
     * padding with its last entry, and the buffer is cut to the new last
     * delimiter: the first `count` elements stay, missing ones are empty.
     */
    method Resize(count: nat)
      requires Valid()
      modifies this
      ensures Valid()
      ensures count <= old(Size()) ==> Elements() == old(Elements())[..count]
      ensures count > old(Size()) ==> Elements() == old(Elements()) + Replicate([], count - old(Size()))
    {
      var n := |dataDelimiters| - 1;
      var back := dataDelimiters[n];
      if count <= n {
        TruncateElements(dataValues, dataDelimiters, count);
        dataDelimiters := dataDelimiters[..count + 1];
      } else {
        PadElements(dataValues, dataDelimiters, count - n);
        dataDelimiters := dataDelimiters + seq(count - n, _ => back);
      }
      dataValues := dataValues[..dataDelimiters[|dataDelimiters| - 1]];
    }

    /** `resize(count, value)`: like `resize(count)`, but missing elements are copies of `value`. */
    method ResizeWith(count: nat, value: seq<T>)
      requires Valid()
      modifies this
      ensures Valid()
      ensures count <= old(Size()) ==> Elements() == old(Elements())[..count]
      ensures count > old(Size()) ==> Elements() == old(Elements()) + Replicate(value, count - old(Size()))
    {
      if count < Size() {
        Resize(count);
      } else if count > Size() {
        ghost var e := Elements();
        Insert(Size(), count - Size(), value);
        assert e[|e|..] == [];
      }
    }

    /** `swap(rhs)`: the two containers exchange buffers and delimiters. */
    method Swap(rhs: ConcatenatedSequences<T>)
      modifies this, rhs
      ensures dataValues == old(rhs.dataValues) && dataDelimiters == old(rhs.dataDelimiters)
      ensures rhs.dataValues == old(dataValues) && rhs.dataDelimiters == old(dataDelimiters)
    {
      var values := dataValues;
      var delims := dataDelimiters;
      dataValues := rhs.dataValues;
      dataDelimiters := rhs.dataDelimiters;
      rhs.dataValues := values;
      rhs.dataDelimiters := delims;
    }

    /** `operator==`: both buffers and both delimiter vectors are equal, i.e. the elements are. */
    predicate Equals(rhs: ConcatenatedSequences<T>)
      reads this, rhs
      requires Valid() && rhs.Valid()
      ensures Equals(rhs) <==> Elements() == rhs.Elements()
    {
      RawEqualIffSameElements(dataValues, dataDelimiters, rhs.dataValues, rhs.dataDelimiters);
      dataValues == rhs.dataValues && dataDelimiters == rhs.dataDelimiters
    }
  }
}
