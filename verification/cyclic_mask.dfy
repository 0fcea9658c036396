/** A fixed 0/1 mask of length `N` applied cyclically over a container: the
    element at original position `i` is governed by mask value `i % N`.
    `Slice` drops the elements whose mask value is 0, `Transform` applies a
    function to the elements whose mask value is 1, and `SliceAndTransform`
    does both at once. Containers are sequences; the element-wise function is
    total and pure. */
module CyclicMask {
  import opened Wrappers
  import opened Ascending

  /** The two exceptions the mask throws. */
  datatype MaskError =
    | InvalidArgument  // a constructor argument other than 0 or 1
    | OutOfRange       // `at` with an index at or past `N`

  /** The mask values, in order; `N` is their number. */
  datatype Mask = Mask(bits: seq<int>) {

    /** What the constructor guarantees: `N > 0` and only 0s and 1s. */
    ghost predicate Valid() {
      |bits| > 0 && forall i :: 0 <= i < |bits| ==> bits[i] == 0 || bits[i] == 1
    }
  }

  /** The constructor's check from position `from` on: every value is 0 or 1. */
  function AllBinaryFrom(values: seq<int>, from: nat): (ok: bool)
    requires from <= |values|
    ensures ok <==> forall i :: from <= i < |values| ==> values[i] == 0 || values[i] == 1
    decreases |values| - from
  {
    if from == |values| then true
    else if values[from] != 0 && values[from] != 1 then false
    else AllBinaryFrom(values, from + 1)
  }

  /** The constructor: a mask of the given values, or `InvalidArgument` when
      any of them is neither 0 nor 1. */
  function NewMask(values: seq<int>): (r: Result<Mask, MaskError>)
    requires |values| > 0
    ensures r.Success? <==> forall i :: 0 <= i < |values| ==> values[i] == 0 || values[i] == 1
    ensures r.Success? ==> r.value.bits == values && r.value.Valid()
    ensures r.Failure? ==> r.error == InvalidArgument
  {
    if AllBinaryFrom(values, 0) then Success(Mask(values)) else Failure(InvalidArgument)
  }

  /** `size`: the mask length `N`, which is also the number of indices `at`
      accepts. */
  function Size(m: Mask): (n: nat)
    requires m.Valid()
    ensures n > 0 && n == |m.bits|
    ensures forall i: nat :: At(m, i).Success? <==> i < n
  {
    |m.bits|
  }

  /** `at`: the mask value at `index`, or `OutOfRange` past the end. */
  function At(m: Mask, index: nat): (r: Result<int, MaskError>)
    requires m.Valid()
    ensures r.Success? <==> index < |m.bits|
    ensures r.Success? ==> r.value == m.bits[index] && (r.value == 0 || r.value == 1)
    ensures r.Failure? ==> r.error == OutOfRange
  {
    if index >= |m.bits| then Failure(OutOfRange) else Success(m.bits[index])
  }

  /** The mask value governing original position `i` of a container. */
  function Bit(m: Mask, i: nat): (b: int)
    requires m.Valid()
    ensures b == 0 || b == 1
  {
    m.bits[i % |m.bits|]
  }

  /** The original positions below `n` whose mask value is 1, in ascending
      order: the positions `slice` keeps in a container of length `n`. */
  function KeptIndices(m: Mask, n: nat): (ks: seq<int>)
    requires m.Valid()
    ensures |ks| <= n
    ensures forall k :: 0 <= k < |ks| ==> 0 <= ks[k] < n
  {
    if n == 0 then []
    else KeptIndices(m, n - 1) + (if Bit(m, n - 1) == 1 then [n - 1] else [])
  }

  /** The kept positions are strictly ascending, each lies below `n` with mask
      value 1, and every position below `n` with mask value 1 is among them. */
  lemma {:induction false} KeptIndicesSpec(m: Mask, n: nat)
    requires m.Valid()
    ensures StrictlyAscending(KeptIndices(m, n))
    ensures forall k :: 0 <= k < |KeptIndices(m, n)| ==>
      0 <= KeptIndices(m, n)[k] < n && Bit(m, KeptIndices(m, n)[k]) == 1
    ensures forall i: nat :: i < n && Bit(m, i) == 1 ==> i in Elements(KeptIndices(m, n))
  {
    if n > 0 {
      var front := KeptIndices(m, n - 1);
      KeptIndicesSpec(m, n - 1);
      if Bit(m, n - 1) == 1 {
        var ks := front + [n - 1];
        assert KeptIndices(m, n) == ks;
        assert forall k :: 0 <= k < |front| ==> ks[k] == front[k];
        ElementsSnoc(front, n - 1);
      } else {
        assert KeptIndices(m, n) == front;
      }
    }
  }

  /** Reference definition of the slice: the elements at the kept positions,
      in their original order. */
  function Kept<T>(m: Mask, c: seq<T>): (r: seq<T>)
    requires m.Valid()
  {
    var ks := KeptIndices(m, |c|);
    seq(|ks|, k requires 0 <= k < |ks| => c[ks[k]])
  }

  /** Reference definition of the transform: `f` applied where the mask value
      is 1, the element left as it is where it is 0. */
  function Applied<T>(m: Mask, c: seq<T>, f: T -> T): (r: seq<T>)
    requires m.Valid()
  {
    seq(|c|, i requires 0 <= i < |c| => if Bit(m, i) == 1 then f(c[i]) else c[i])
  }

  /** `f` applied to every element. */
  function MapSeq<T>(f: T -> T, s: seq<T>): (r: seq<T>) {
    seq(|s|, i requires 0 <= i < |s| => f(s[i]))
  }

  /** Extending a container by one element extends the kept elements by that
      element exactly when its mask value is 1. */
  lemma KeptSnoc<T>(m: Mask, c: seq<T>, x: T)
    requires m.Valid()
    ensures Kept(m, c + [x]) == Kept(m, c) + (if Bit(m, |c|) == 1 then [x] else [])
  {
  }

  /** `slice`: the container with every element whose mask value is 0 erased.
      The loop follows the iterator walk of `Mask<N>::slice`: the container being
      edited is `done + rest`, the iterator sits at the start of `rest`, and
      `idx` counts original positions, erased ones included. */
  method Slice<T>(m: Mask, c: seq<T>) returns (r: seq<T>)
    requires m.Valid()
    ensures |r| <= |c|
    ensures c == [] ==> r == []
    ensures var ks := KeptIndices(m, |c|);
      |r| == |ks| && forall k :: 0 <= k < |ks| ==> r[k] == c[ks[k]]
    ensures r == Kept(m, c)
  {
    if c == [] {
      return c;
    }
    var done: seq<T> := [];
    var rest := c;
    var idx: nat := 0;
    while rest != []
      invariant idx <= |c| && rest == c[idx..]
      invariant done == Kept(m, c[..idx])
      invariant |done| <= idx
      decreases |rest|
    {
      var maskVal := m.bits[idx % |m.bits|];
      KeptSnoc(m, c[..idx], rest[0]);
      assert c[..idx + 1] == c[..idx] + [rest[0]];
      if maskVal == 0 {
        rest := rest[1..];  // erase: the iterator moves to the next element
      } else {
        done := done + [rest[0]];
        rest := rest[1..];
      }
      idx := idx + 1;
    }
    assert c[..idx] == c;
    r := done;
  }

  /** `transform`: a new container of the same length with `f` applied where
      the mask value is 1; the input is a value and is left as it was. */
  method Transform<T>(m: Mask, c: seq<T>, f: T -> T) returns (r: seq<T>)
    requires m.Valid()
    ensures |r| == |c|
    ensures forall i :: 0 <= i < |c| ==> r[i] == (if Bit(m, i) == 1 then f(c[i]) else c[i])
    ensures r == Applied(m, c, f)
  {
    r := c;
    var idx := 0;
    while idx < |r|
      invariant |r| == |c| && idx <= |c|
      invariant forall i :: 0 <= i < idx ==> r[i] == (if Bit(m, i) == 1 then f(c[i]) else c[i])
      invariant forall i :: idx <= i < |c| ==> r[i] == c[i]
    {
      if m.bits[idx % |m.bits|] == 1 {
        r := r[idx := f(r[idx])];
      }
      idx := idx + 1;
    }
  }

  /** `slice_and_transform`: a new container holding `f` of each element whose
      mask value is 1, in order. */
  method SliceAndTransform<T>(m: Mask, c: seq<T>, f: T -> T) returns (r: seq<T>)
    requires m.Valid()
    ensures |r| == |KeptIndices(m, |c|)|
    ensures r == MapSeq(f, Kept(m, c))
  {
    r := [];
    var idx := 0;
    while idx < |c|
      invariant idx <= |c|
      invariant r == MapSeq(f, Kept(m, c[..idx]))
    {
      KeptSnoc(m, c[..idx], c[idx]);
      assert c[..idx + 1] == c[..idx] + [c[idx]];
      if m.bits[idx % |m.bits|] == 1 {
        r := r + [f(c[idx])];
      }
      idx := idx + 1;
    }
    assert c[..idx] == c;
  }

  /** Slicing keeps exactly as many elements as there are positions below
      `|c|` whose mask value is 1. */
  lemma KeptCount<T>(m: Mask, c: seq<T>)
    requires m.Valid()
    ensures |Kept(m, c)| == |set i: nat | i < |c| && Bit(m, i) == 1|
  {
    var ks := KeptIndices(m, |c|);
    KeptIndicesSpec(m, |c|);
    AscendingCardinality(ks);
    assert Elements(ks) == set i: nat | i < |c| && Bit(m, i) == 1;
  }

  /** `slice_and_transform` is `transform` followed by `slice`: transforming
      only touches kept positions, and slicing keeps exactly those. */
  lemma SliceAfterTransform<T>(m: Mask, c: seq<T>, f: T -> T)
    requires m.Valid()
    ensures Kept(m, Applied(m, c, f)) == MapSeq(f, Kept(m, c))
  {
    KeptIndicesSpec(m, |c|);
  }

  /** A mask of all ones keeps the whole container. */
  lemma SliceAllOnes<T>(m: Mask, c: seq<T>)
    requires m.Valid()
    requires forall i :: 0 <= i < |m.bits| ==> m.bits[i] == 1
    ensures Kept(m, c) == c
  {
    assert forall i: nat :: i < |c| ==> Bit(m, i) == 1;
    KeptIndicesAll(m, |c|);
  }

  /** With an all-ones mask every position is kept, in order. */
  lemma {:induction false} KeptIndicesAll(m: Mask, n: nat)
    requires m.Valid()
    requires forall i: nat :: i < n ==> Bit(m, i) == 1
    ensures |KeptIndices(m, n)| == n
    ensures forall k :: 0 <= k < n ==> KeptIndices(m, n)[k] == k
  {
    if n > 0 {
      KeptIndicesAll(m, n - 1);
    }
  }
}
