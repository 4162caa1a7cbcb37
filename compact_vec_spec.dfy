/** Pure specification functions for the compact vector model: the value-level
    meaning of `retain`, the `Iterator::all` used by `is_still_compact`, and the
    byte arithmetic behind `dynamic_size_bytes` and `compact_from`. */
module CompactVecSpec {

  datatype Option<T> = None | Some(value: T)

  // ---------------------------------------------------------------------------
  // retain

  /** The elements of `s` that `keep` accepts, in their order in `s`. */
  function Filter<T>(keep: T -> bool, s: seq<T>): (r: seq<T>)
    ensures |r| <= |s|
    ensures forall i :: 0 <= i < |r| ==> keep(r[i])
    decreases |s|
  {
    if s == [] then []
    else
      var init := s[..|s| - 1];

      if keep(s[|s| - 1]) then Filter(keep, init) + [s[|s| - 1]] else Filter(keep, init)
  }

  /** Extending the filtered prefix by one element. */
  lemma FilterStep<T>(keep: T -> bool, s: seq<T>, i: nat)
    requires i < |s|
    ensures Filter(keep, s[..i + 1]) ==
              Filter(keep, s[..i]) + (if keep(s[i]) then [s[i]] else [])
  {
    assert s[..i + 1][..i] == s[..i];
  }

  /** The positions of `s` whose element `keep` accepts, in increasing order. */
  function KeptIndices<T>(keep: T -> bool, s: seq<T>): seq<nat>
    decreases |s|
  {
    if s == [] then []
    else if keep(s[|s| - 1]) then KeptIndices(keep, s[..|s| - 1]) + [|s| - 1]
    else KeptIndices(keep, s[..|s| - 1])
  }

  /** The kept positions are in range, strictly increasing, and are exactly the
      positions whose element `keep` accepts. */
  lemma {:induction false} KeptIndicesExact<T>(keep: T -> bool, s: seq<T>)
    ensures forall k :: 0 <= k < |KeptIndices(keep, s)| ==> KeptIndices(keep, s)[k] < |s|
    ensures forall k, m :: 0 <= k < m < |KeptIndices(keep, s)| ==>
              KeptIndices(keep, s)[k] < KeptIndices(keep, s)[m]
    ensures forall i :: 0 <= i < |s| ==> (i in KeptIndices(keep, s) <==> keep(s[i]))
    decreases |s|
  {
    if s != [] {
      var n := |s| - 1;
      var init := s[..n];
      KeptIndicesExact(keep, init);
      assert forall i :: 0 <= i < n ==> init[i] == s[i];
      var ix, ix0 := KeptIndices(keep, s), KeptIndices(keep, init);
      if keep(s[n]) {
        assert ix == ix0 + [n];
      } else {
        assert ix == ix0;
      }
    }
  }

  /** Position `k` of the filtered sequence holds the element at the `k`-th kept
      position. */
  lemma {:induction false} FilterAtKeptIndices<T>(keep: T -> bool, s: seq<T>)
    ensures |KeptIndices(keep, s)| == |Filter(keep, s)|
    ensures forall k :: 0 <= k < |KeptIndices(keep, s)| ==>
              KeptIndices(keep, s)[k] < |s| && Filter(keep, s)[k] == s[KeptIndices(keep, s)[k]]
    decreases |s|
  {
    if s != [] {
      var n := |s| - 1;
      var init := s[..n];
      FilterAtKeptIndices(keep, init);
      var ix, ix0 := KeptIndices(keep, s), KeptIndices(keep, init);
      var f, f0 := Filter(keep, s), Filter(keep, init);
      if keep(s[n]) {
        assert ix == ix0 + [n] && f == f0 + [s[n]];
        forall k | 0 <= k < |ix0|
          ensures ix[k] < |s| && f[k] == s[ix[k]]
        {
          assert ix[k] == ix0[k] && f[k] == f0[k] && init[ix0[k]] == s[ix0[k]];
        }
      } else {
        assert ix == ix0 && f == f0;
        forall k | 0 <= k < |ix0|
          ensures ix[k] < |s| && f[k] == s[ix[k]]
        {
          assert init[ix0[k]] == s[ix0[k]];
        }
      }
    }
  }

  /** A predicate that accepts every element leaves the sequence as it is. */
  lemma {:induction false} FilterKeepsAll<T>(keep: T -> bool, s: seq<T>)
    requires forall i :: 0 <= i < |s| ==> keep(s[i])
    ensures Filter(keep, s) == s
    decreases |s|
  {
    if s != [] {
      FilterKeepsAll(keep, s[..|s| - 1]);
      assert s[..|s| - 1] + [s[|s| - 1]] == s;
    }
  }

  // ---------------------------------------------------------------------------
  // is_still_compact

  /** `Iterator::all`: does `p` hold of every element, checked front to back. */
  function All<T>(s: seq<T>, p: T -> bool): (r: bool)
    ensures r <==> forall i :: 0 <= i < |s| ==> p(s[i])
    decreases |s|
  {
    if s == [] then true else p(s[0]) && All(s[1..], p)
  }

  // ---------------------------------------------------------------------------
  // dynamic_size_bytes and the layout written by compact_from

  /** Total of a sequence of byte counts, summed front to back. */
  function Sum(sizes: seq<nat>): nat
    decreases |sizes|
  {
    if sizes == [] then 0 else Sum(sizes[..|sizes| - 1]) + sizes[|sizes| - 1]
  }

  /** The dynamic sizes of the elements of `s`, in order. */
  function Sizes<T>(s: seq<T>, dyn: T -> nat): seq<nat>
  {
    seq(|s|, i requires 0 <= i < |s| => dyn(s[i]))
  }

  /** Bytes a vector of capacity `cap` needs outside its inline part: the backing
      array of `cap` slots of `elemSize` bytes, then every live element's own
      dynamic part. */
  function DynamicSize(cap: nat, elemSize: nat, sizes: seq<nat>): nat
  {
    cap * elemSize + Sum(sizes)
  }

  /** Where element `i`'s dynamic part starts: after the backing array (`base`
      bytes) and the dynamic parts of all elements before it. */
  function Offsets(base: nat, sizes: seq<nat>): seq<nat>
  {
    seq(|sizes|, i requires 0 <= i < |sizes| => base + Sum(sizes[..i]))
  }

  /** Summing a prefix never exceeds summing the whole. */
  lemma {:induction false} SumPrefixBounded(sizes: seq<nat>, j: nat)
    requires j <= |sizes|
    ensures Sum(sizes[..j]) <= Sum(sizes)
    decreases |sizes|
  {
    if j < |sizes| {
      var init := sizes[..|sizes| - 1];
      assert init[..j] == sizes[..j];
      SumPrefixBounded(init, j);
    } else {
      assert sizes[..j] == sizes;
    }
  }

  /** The layout has no gaps and no overlaps: the first dynamic part starts right
      after the backing array, each one starts where the previous one ends, and
      the last one ends exactly at `base + Sum(sizes)`. */
  lemma OffsetsContiguous(base: nat, sizes: seq<nat>)
    ensures |Offsets(base, sizes)| == |sizes|
    ensures |sizes| > 0 ==> Offsets(base, sizes)[0] == base
    ensures forall i :: 0 <= i < |sizes| - 1 ==>
              Offsets(base, sizes)[i] + sizes[i] == Offsets(base, sizes)[i + 1]
    ensures |sizes| > 0 ==>
              Offsets(base, sizes)[|sizes| - 1] + sizes[|sizes| - 1] == base + Sum(sizes)
  {
    var o := Offsets(base, sizes);
    forall i | 0 <= i < |sizes|
      ensures base + Sum(sizes[..i]) + sizes[i] == base + Sum(sizes[..i + 1])
    {
      assert sizes[..i + 1][..i] == sizes[..i];
    }
    if |sizes| > 0 {
      assert sizes[..|sizes|] == sizes;
    }
  }

  /** Every element's dynamic part lies inside the region `dynamic_size_bytes`
      reports, after the backing array. */
  lemma OffsetsWithinDynamicSize(cap: nat, elemSize: nat, sizes: seq<nat>)
    ensures forall i :: 0 <= i < |sizes| ==>
              cap * elemSize <= Offsets(cap * elemSize, sizes)[i] &&
              Offsets(cap * elemSize, sizes)[i] + sizes[i] <= DynamicSize(cap, elemSize, sizes)
  {
    forall i | 0 <= i < |sizes|
      ensures Offsets(cap * elemSize, sizes)[i] + sizes[i] <= DynamicSize(cap, elemSize, sizes)
    {
      assert sizes[..i + 1][..i] == sizes[..i];
      SumPrefixBounded(sizes, i + 1);
    }
  }

  /** For elements without dynamic parts (the `Copy` case) the dynamic size is
      just the backing array. */
  lemma {:induction false} NoDynamicPartsSize(cap: nat, elemSize: nat, sizes: seq<nat>)
    requires forall i :: 0 <= i < |sizes| ==> sizes[i] == 0
    ensures DynamicSize(cap, elemSize, sizes) == cap * elemSize
    decreases |sizes|
  {
    if sizes != [] {
      NoDynamicPartsSize(cap, elemSize, sizes[..|sizes| - 1]);
    }
  }
}
