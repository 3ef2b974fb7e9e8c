/**
 * The header's progress line: how many habits are completed, out of how
 * many, and the rounded percentage.
 */
module Progress {
  import opened Habits

  /** The figures shown as "c / n completed (p%)". */
  datatype Progress = Progress(completed: nat, total: nat, percentage: nat)

  /** The `completed` flags of the list, in order. */
  function Flags(hs: seq<Habit>): seq<bool> {
    seq(|hs|, i requires 0 <= i < |hs| => hs[i].completed)
  }

  /** The number of completed habits (the length of the list filtered on `completed`). */
  function CompletedCount(hs: seq<Habit>): (c: nat)
    ensures c == multiset(Flags(hs))[true]
    ensures c <= |hs|
    ensures c == 0 <==> forall i :: 0 <= i < |hs| ==> !hs[i].completed
    ensures c == |hs| <==> forall i :: 0 <= i < |hs| ==> hs[i].completed
    decreases |hs|
  {
    if hs == [] then 0
    else
      assert Flags(hs) == [hs[0].completed] + Flags(hs[1..]);
      (if hs[0].completed then 1 else 0) + CompletedCount(hs[1..])
  }

  /**
   * 100 * completed / total rounded to the nearest integer, halves rounded
   * up as Math.round does on non-negative values, and 0 for an empty list.
   */
  function Percentage(completed: nat, total: nat): (p: nat)
    requires completed <= total
    ensures p <= 100
    ensures total == 0 ==> p == 0
    ensures total > 0 ==> total * (2 * p - 1) <= 200 * completed < total * (2 * p + 1)
    ensures completed == 0 ==> p == 0
  {
    if total == 0 then 0
    else
      var p := (200 * completed + total) / (2 * total);
      RoundingBounds(completed, total, p);
      p
  }

  /** What integer division gives for (200 * completed + total) / (2 * total), in the terms of the rounding. */
  lemma RoundingBounds(completed: nat, total: nat, p: int)
    requires completed <= total && total > 0 && p == (200 * completed + total) / (2 * total)
    ensures 0 <= p <= 100
    ensures total * (2 * p - 1) <= 200 * completed < total * (2 * p + 1)
    ensures completed == 0 ==> p == 0
  {
    var a: nat, b: nat := 200 * completed + total, 2 * total;
    assert b * p <= a < b * p + b;
    assert total * (2 * p - 1) == b * p - total;
    assert total * (2 * p + 1) == b * p + total;
    MulMonotone(b, 101, p);
    MulMonotone(b, p, -1);
    MulMonotone(b, 1, p);
  }

  /** The rounding is determined: no other integer lies within one half of 100 * completed / total. */
  lemma PercentageIsNearest(completed: nat, total: nat, q: int)
    requires completed <= total && total > 0
    requires total * (2 * q - 1) <= 200 * completed < total * (2 * q + 1)
    ensures q == Percentage(completed, total)
  {
    var p: int := Percentage(completed, total);
    MulMonotone(total, 2 * q + 1, 2 * p - 1);
    MulMonotone(total, 2 * p + 1, 2 * q - 1);
  }

  /** Multiplying by a natural number keeps the order. */
  lemma MulMonotone(n: nat, x: int, y: int)
    ensures x <= y ==> n * x <= n * y
  {
  }

  /** The progress figures of a habit list. */
  function ProgressOf(hs: seq<Habit>): (r: Progress)
    ensures r.total == |hs| && r.completed <= r.total && r.percentage <= 100
    ensures |hs| == 0 ==> r.percentage == 0
    ensures r.completed == 0 ==> r.percentage == 0
  {
    var c := CompletedCount(hs);
    Progress(c, |hs|, Percentage(c, |hs|))
  }
}
