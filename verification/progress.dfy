/** The progress callback's argument, `(i / total) * 100` after the i-th of `total` steps. */
module Progress {
  /** `(i / total) * 100`, the progress reported after the i-th of `total` steps (counted from 1). */
  function Percent(i: nat, total: nat): real
    requires total > 0
  {
    (i as real / total as real) * 100.0
  }

  /** The reports after the first `n` steps. */
  function Reports(n: nat, total: nat): (r: seq<real>)
    requires total > 0
    ensures |r| == n
  {
    seq(n, i requires 0 <= i < n => Percent(i + 1, total))
  }

  /** A later step reports more progress. */
  lemma PercentMonotone(i: nat, j: nat, total: nat)
    requires 0 < total && i < j
    ensures Percent(i, total) < Percent(j, total)
  {
    var t := total as real;
    var x := i as real / t;
    var y := j as real / t;
    assert x * t == i as real;
    assert y * t == j as real;
    assert (y - x) * t > 0.0;
  }

  /** Every report lies in (0, 100], and the last step reports 100. */
  lemma PercentBounds(i: nat, total: nat)
    requires 0 < i <= total
    ensures 0.0 < Percent(i, total) <= 100.0
    ensures i == total ==> Percent(i, total) == 100.0
  {
    var t := total as real;
    var x := i as real / t;
    assert x * t == i as real;
    assert (1.0 - x) * t >= 0.0;
    if i == total {
      assert i as real == t;
      assert x == 1.0 by {
        assert (x - 1.0) * t == 0.0;
      }
    }
  }

  /** The reports rise strictly, stay within (0, 100], and a run that completes every step ends at 100. */
  lemma ReportsRise(n: nat, total: nat)
    requires 0 < total && n <= total
    ensures forall i, j :: 0 <= i < j < n ==> Reports(n, total)[i] < Reports(n, total)[j]
    ensures forall i :: 0 <= i < n ==> 0.0 < Reports(n, total)[i] <= 100.0
    ensures 0 < n == total ==> Reports(n, total)[n - 1] == 100.0
  {
    var r := Reports(n, total);
    forall i, j | 0 <= i < j < n
      ensures r[i] < r[j]
    {
      PercentMonotone(i + 1, j + 1, total);
    }
    forall i | 0 <= i < n
      ensures 0.0 < r[i] <= 100.0
    {
      PercentBounds(i + 1, total);
    }
    if 0 < n == total {
      PercentBounds(n, total);
    }
  }
}
