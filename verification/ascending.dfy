/** Facts about strictly ascending sequences of indices, used wherever an
    operation visits positions in index order (pool teardown, mask selection). */
module Ascending {

  /** Every element is smaller than every later one. */
  ghost predicate StrictlyAscending(xs: seq<int>) {
    forall i, j :: 0 <= i < j < |xs| ==> xs[i] < xs[j]
  }

  /** The set of values a sequence holds. */
  ghost function Elements(xs: seq<int>): set<int> {
    set k | 0 <= k < |xs| :: xs[k]
  }

  /** Appending a value adds exactly that value to the elements. */
  lemma ElementsSnoc(xs: seq<int>, x: int)
    ensures Elements(xs + [x]) == Elements(xs) + {x}
  {
    var ys := xs + [x];
    forall v | v in Elements(xs) ensures v in Elements(ys) {
      var k :| 0 <= k < |xs| && xs[k] == v;
      assert ys[k] == v;
    }
    assert ys[|xs|] == x;
  }

  /** A strictly ascending sequence never repeats a value, so it holds exactly
      as many distinct values as it has elements. */
  lemma {:induction false} AscendingCardinality(xs: seq<int>)
    requires StrictlyAscending(xs)
    ensures |Elements(xs)| == |xs|
  {
    if |xs| > 0 {
      var front := xs[..|xs| - 1];
      var last := xs[|xs| - 1];
      assert xs == front + [last];
      assert StrictlyAscending(front) by {
        forall i, j | 0 <= i < j < |front| ensures front[i] < front[j] {
          assert front[i] == xs[i] && front[j] == xs[j];
        }
      }
      AscendingCardinality(front);
      ElementsSnoc(front, last);
      forall k | 0 <= k < |front| ensures front[k] != last {
        assert xs[k] < xs[|xs| - 1];
      }
      assert last !in Elements(front);
    }
  }
}
