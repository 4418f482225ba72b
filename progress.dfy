/** The completion percentage printed after each window. */
module Progress {
  import opened Batching

  /**
   * The rounded percentage of windows done, stated over the integers: the integer nearest to
   * 100 * done / total, halves rounded up as Math.round does. Floating-point error at exact halves
   * is not modelled.
   */
  function Percentage(done: nat, total: nat): (p: nat)
    requires total > 0
    ensures 2 * total * p <= 200 * done + total < 2 * total * p + 2 * total
  {
    (200 * done + total) / (2 * total)
  }

  /** Cancelling a positive factor from a strict inequality between products. */
  lemma MulCancelLess(x: nat, a: nat, b: nat)
    requires x > 0
    ensures x * a < x * b ==> a < b
  {
    if b <= a {
      assert x * a - x * b == x * (a - b);
    }
  }

  /** More windows done never gives a smaller percentage. */
  lemma PercentageMonotone(a: nat, b: nat, total: nat)
    requires total > 0 && a <= b
    ensures Percentage(a, total) <= Percentage(b, total)
  {
    var pa, pb := Percentage(a, total), Percentage(b, total);
    assert 2 * total * (pb + 1) == 2 * total * pb + 2 * total;
    MulCancelLess(2 * total, pa, pb + 1);
  }

  /** Done out of total is at most 100, and exactly 100 when everything is done. */
  lemma PercentageRange(done: nat, total: nat)
    requires 0 < total && done <= total
    ensures Percentage(done, total) <= 100
    ensures done == total ==> Percentage(done, total) == 100
  {
    var p := Percentage(done, total);
    MulCancelLess(2 * total, p, 101);
    MulCancelLess(2 * total, 99, p);
  }

  /** The percentages printed for a run of `total` windows, one per window, in window order. */
  function ProgressLog(total: nat): seq<nat> {
    seq(total, k requires 0 <= k < total => Percentage(k + 1, total))
  }

  /** The printed percentages are non-decreasing, lie between 0 and 100, and the last one is 100. */
  lemma ProgressLogShape(total: nat)
    ensures |ProgressLog(total)| == total
    ensures forall j, k :: 0 <= j <= k < total ==> ProgressLog(total)[j] <= ProgressLog(total)[k]
    ensures forall k :: 0 <= k < total ==> ProgressLog(total)[k] <= 100
    ensures total > 0 ==> ProgressLog(total)[total - 1] == 100
  {
    var log := ProgressLog(total);
    forall j, k | 0 <= j <= k < total ensures log[j] <= log[k] {
      PercentageMonotone(j + 1, k + 1, total);
    }
    forall k | 0 <= k < total ensures log[k] <= 100 {
      PercentageRange(k + 1, total);
    }
    if total > 0 {
      PercentageRange(total, total);
    }
  }

  /** Percentages count windows, not items: 25 items in windows of 10 make windows of 10, 10 and 5 and print 33, 67 and 100. */
  lemma TwentyFiveItemsInWindowsOfTen<T>(items: seq<T>)
    requires |items| == 25
    ensures |Chunks(items, 10)| == 3
    ensures |Chunks(items, 10)[0]| == 10 && |Chunks(items, 10)[1]| == 10 && |Chunks(items, 10)[2]| == 5
    ensures ProgressLog(|Chunks(items, 10)|) == [33, 67, 100]
  {
    ChunkCount(items, 10);
    assert CeilDiv(25, 10) == 1 + CeilDiv(15, 10) == 2 + CeilDiv(5, 10) == 3;
    ChunkAt(items, 10, 0);
    ChunkAt(items, 10, 1);
    ChunkAt(items, 10, 2);
    assert Percentage(1, 3) == 33;
    assert Percentage(2, 3) == 67;
    assert Percentage(3, 3) == 100;
  }
}
