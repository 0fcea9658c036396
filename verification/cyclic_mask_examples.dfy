/** The worked examples of the mask's example driver, checked against the
    model. */
module CyclicMaskExamples {
  import opened Wrappers
  import opened CyclicMask

  /** The constructor accepts `{1, 0, 0}` and rejects a value of 2. */
  lemma ConstructorExamples()
    ensures NewMask([1, 0, 0]) == Success(Mask([1, 0, 0]))
    ensures NewMask([1, 2, 0]) == Failure(InvalidArgument)
  {
  }

  /** Mask `{1, 0, 0}` over `1..7` keeps positions 0, 3 and 6. */
  method SliceExample() returns (r: seq<int>)
    ensures r == [1, 4, 7]
  {
    var m := Mask([1, 0, 0]);
    var c := [1, 2, 3, 4, 5, 6, 7];
    r := Slice(m, c);
    KeptIndicesOfOneZeroZero();
  }

  /** Mask `{1, 0, 0}` keeps positions 0, 3 and 6 of the first seven. */
  lemma KeptIndicesOfOneZeroZero()
    ensures KeptIndices(Mask([1, 0, 0]), 7) == [0, 3, 6]
  {
    var m := Mask([1, 0, 0]);
    assert m.Valid();
    assert Bit(m, 0) == 1 && Bit(m, 1) == 0 && Bit(m, 2) == 0;
    assert Bit(m, 3) == 1 && Bit(m, 4) == 0 && Bit(m, 5) == 0 && Bit(m, 6) == 1;
    assert KeptIndices(m, 1) == [0];
    assert KeptIndices(m, 4) == [0, 3];
  }

  /** Mask `{1, 1, 0}` doubling `10, 20, .., 60` gives `20 40 30 80 100 60`. */
  method TransformExample() returns (r: seq<int>)
    ensures r == [20, 40, 30, 80, 100, 60]
  {
    var m := Mask([1, 1, 0]);
    r := Transform(m, [10, 20, 30, 40, 50, 60], x => x * 2);
    assert Bit(m, 0) == 1 && Bit(m, 1) == 1 && Bit(m, 2) == 0;
    assert Bit(m, 3) == 1 && Bit(m, 4) == 1 && Bit(m, 5) == 0;
  }

  /** Mask `{1, 1, 0}` multiplying `10, 20, .., 60` by ten and keeping only
      the masked elements gives `100 200 400 500`. */
  method SliceAndTransformExample() returns (r: seq<int>)
    ensures r == [100, 200, 400, 500]
  {
    var m := Mask([1, 1, 0]);
    var c := [10, 20, 30, 40, 50, 60];
    r := SliceAndTransform(m, c, x => x * 10);
    KeptIndicesOfOneOneZero();
  }

  /** Mask `{1, 1, 0}` keeps positions 0, 1, 3 and 4 of the first six. */
  lemma KeptIndicesOfOneOneZero()
    ensures KeptIndices(Mask([1, 1, 0]), 6) == [0, 1, 3, 4]
  {
    var m := Mask([1, 1, 0]);
    assert m.Valid();
    assert Bit(m, 0) == 1 && Bit(m, 1) == 1 && Bit(m, 2) == 0;
    assert Bit(m, 3) == 1 && Bit(m, 4) == 1 && Bit(m, 5) == 0;
    assert KeptIndices(m, 1) == [0];
    assert KeptIndices(m, 2) == [0, 1];
    assert KeptIndices(m, 4) == [0, 1, 3];
  }
}
