/**
 * The two per-courier statistics, recomputed from the courier's whole order
 * history: the average completion time and the average number of orders per day.
 */
module Statistics {
  import opened Wrappers
  import opened Sequences
  import opened Models
  import opened Exceptions

  /**
   * `q` is `n / d` rounded to the nearest integer, ties to the even one: the
   * rounding of Python's `timedelta / int` on whole microseconds.
   */
  ghost predicate NearestHalfEven(n: int, d: int, q: int) {
    && -d <= 2 * (q * d - n) <= d
    && (2 * (q * d - n) == d || 2 * (q * d - n) == -d ==> q % 2 == 0)
  }

  /** Divides `n` by a positive `d`, rounding to nearest with ties to even. */
  function DivideAndRound(n: int, d: int): (q: int)
    requires d > 0
    ensures NearestHalfEven(n, d, q)
  {
    var q0 := n / d;
    var r := n % d;
    assert n == q0 * d + r;
    if 2 * r > d then q0 + 1
    else if 2 * r < d then q0
    else if q0 % 2 == 0 then q0
    else q0 + 1
  }

  /** At most one integer is the half-even rounding of `n / d`. */
  lemma NearestHalfEvenUnique(n: int, d: int, q1: int, q2: int)
    requires d > 0
    requires NearestHalfEven(n, d, q1) && NearestHalfEven(n, d, q2)
    ensures q1 == q2
  {
    var e1 := q1 * d - n;
    var e2 := q2 * d - n;
    var k := q1 - q2;
    assert k * d == e1 - e2 by {
      assert q1 * d == q2 * d + k * d;
    }
    SmallMultiple(k, d);
    assert k == 1 ==> 2 * e1 == d && 2 * e2 == -d;
    assert k == -1 ==> 2 * e1 == -d && 2 * e2 == d;
  }

  /** A multiple of a positive `d` lying within `d` of zero is `-d`, `0` or `d`. */
  lemma SmallMultiple(k: int, d: int)
    requires d > 0 && -2 * d <= 2 * (k * d) <= 2 * d
    ensures -1 <= k <= 1
  {
    assert k >= 2 ==> (k - 2) * d >= 0;
    assert k <= -2 ==> (-k - 2) * d >= 0;
  }

  /** An exact mean is returned unrounded. */
  lemma ExactMean(k: int, d: int)
    requires d > 0
    ensures DivideAndRound(k * d, d) == k
  {
    assert NearestHalfEven(k * d, d, k);
    NearestHalfEvenUnique(k * d, d, DivideAndRound(k * d, d), k);
  }

  /** Orders counted by the average completion time: those not in progress. */
  predicate Closed(o: Order) {
    o.status != InProgress
  }

  /** Every closed order of `h` has a completion time. */
  predicate ClosedStamped(h: seq<Order>) {
    forall i :: 0 <= i < |h| && Closed(h[i]) ==> h[i].completedAt.Some?
  }

  /** Every order of `h` has a completion time. */
  predicate AllStamped(h: seq<Order>) {
    forall i :: 0 <= i < |h| ==> h[i].completedAt.Some?
  }

  /** Time from start to completion, in microseconds. */
  function Duration(o: Order): int
    requires o.completedAt.Some?
  {
    o.completedAt.value.micros - o.startedAt.micros
  }

  /** The number of closed orders in `h`. */
  function ClosedCount(h: seq<Order>): nat {
    if h == [] then 0
    else ClosedCount(h[..|h| - 1]) + (if Closed(h[|h| - 1]) then 1 else 0)
  }

  /** The summed durations of the closed orders in `h`. */
  function ClosedTotal(h: seq<Order>): int
    requires ClosedStamped(h)
  {
    if h == [] then 0
    else
      var init := h[..|h| - 1];
      assert forall i :: 0 <= i < |init| ==> init[i] == h[i];
      ClosedTotal(h[..|h| - 1]) + (if Closed(h[|h| - 1]) then Duration(h[|h| - 1]) else 0)
  }

  /** The distinct days of the month on which the orders of `h` were completed. */
  function DaySet(h: seq<Order>): set<int>
    requires AllStamped(h)
  {
    set i | 0 <= i < |h| :: h[i].completedAt.value.day
  }

  /**
   * The courier after its average completion time is recomputed from `h`: the
   * mean duration of the closed orders, or unchanged when there are none. A
   * closed order without a completion time makes the subtraction fail.
   */
  function UpdatedAvgCompleteTime(c: Courier, h: seq<Order>): (r: Result<Courier, Error>)
    ensures r.Err? <==> !ClosedStamped(h)
    ensures r.Err? ==> r.error == NoneAccess
    ensures r.Ok? ==> r.value == c.(avgOrderCompleteTime := r.value.avgOrderCompleteTime)
    ensures r.Ok? && ClosedCount(h) == 0 ==> r.value == c
    ensures r.Ok? && ClosedCount(h) > 0 ==>
      && r.value.avgOrderCompleteTime.Some?
      && NearestHalfEven(ClosedTotal(h), ClosedCount(h), r.value.avgOrderCompleteTime.value)
  {
    if !ClosedStamped(h) then Err(NoneAccess)
    else if ClosedCount(h) == 0 then Ok(c)
    else Ok(c.(avgOrderCompleteTime := Some(DivideAndRound(ClosedTotal(h), ClosedCount(h)))))
  }

  /**
   * The courier after its orders-per-day average is recomputed from `h`: the
   * number of orders divided, rounding down, by the number of distinct days of
   * the month among their completion times, or unchanged when `h` is empty.
   * An order without a completion time makes the `.day` access fail.
   */
  function UpdatedAvgDayOrders(c: Courier, h: seq<Order>): (r: Result<Courier, Error>)
    ensures r.Err? <==> !AllStamped(h)
    ensures r.Err? ==> r.error == NoneAccess
    ensures r.Ok? ==> r.value == c.(avgDayOrders := r.value.avgDayOrders)
    ensures r.Ok? && h == [] ==> r.value == c
    ensures r.Ok? && h != [] ==>
      && |DaySet(h)| > 0
      && r.value.avgDayOrders * |DaySet(h)| <= |h| < (r.value.avgDayOrders + 1) * |DaySet(h)|
  {
    if !AllStamped(h) then Err(NoneAccess)
    else if h == [] then Ok(c)
    else
      assert h[0].completedAt.value.day in DaySet(h);
      Ok(c.(avgDayOrders := |h| / |DaySet(h)|))
  }

  /**
   * The loop of the source: skip in-progress orders, count the others and sum
   * their durations, then store the rounded mean when the count is not zero.
   */
  method UpdateAvgOrderCompleteTime(c: Courier, h: seq<Order>) returns (r: Result<Courier, Error>)
    ensures r == UpdatedAvgCompleteTime(c, h)
  {
    var counter := 0;
    var total := 0;
    var i := 0;
    while i < |h|
      invariant 0 <= i <= |h|
      invariant ClosedStamped(h[..i])
      invariant counter == ClosedCount(h[..i])
      invariant total == ClosedTotal(h[..i])
    {
      var order := h[i];
      assert h[..i + 1][..i] == h[..i];
      if order.status == InProgress {
        i := i + 1;
        continue;
      }
      if order.completedAt.None? {
        return Err(NoneAccess);
      }
      counter := counter + 1;
      total := total + Duration(order);
      i := i + 1;
    }
    assert h[..i] == h;
    if counter != 0 {
      return Ok(c.(avgOrderCompleteTime := Some(DivideAndRound(total, counter))));
    }
    return Ok(c);
  }

  /**
   * The loop of the source: count every order and collect the distinct days of
   * the month of their completion times, then store the truncated quotient.
   */
  method UpdateAvgDayOrders(c: Courier, h: seq<Order>) returns (r: Result<Courier, Error>)
    ensures r == UpdatedAvgDayOrders(c, h)
  {
    var days: seq<int> := [];
    var counter := 0;
    var i := 0;
    while i < |h|
      invariant 0 <= i <= |h|
      invariant counter == i
      invariant AllStamped(h[..i])
      invariant Distinct(days)
      invariant Elements(days) == DaySet(h[..i])
    {
      assert h[..i + 1][..i] == h[..i];
      if h[i].completedAt.None? {
        return Err(NoneAccess);
      }
      counter := counter + 1;
      var day := h[i].completedAt.value.day;
      if day !in days {
        days := days + [day];
      }
      assert DaySet(h[..i + 1]) == DaySet(h[..i]) + {day} by {
        forall x | x in DaySet(h[..i + 1]) ensures x in DaySet(h[..i]) + {day} {
          var k :| 0 <= k < i + 1 && x == h[..i + 1][k].completedAt.value.day;
          if k < i {
            assert h[..i + 1][k] == h[..i][k];
          }
        }
        forall x | x in DaySet(h[..i]) + {day} ensures x in DaySet(h[..i + 1]) {
          if x == day {
            assert h[..i + 1][i] == h[i];
          } else {
            var k :| 0 <= k < i && x == h[..i][k].completedAt.value.day;
            assert h[..i + 1][k] == h[..i][k];
          }
        }
      }
      i := i + 1;
    }
    assert h[..i] == h;
    if counter != 0 {
      DistinctCardinality(days);
      assert h[0].completedAt.value.day in Elements(days);
      return Ok(c.(avgDayOrders := counter / |days|));
    }
    return Ok(c);
  }

  /**
   * Three orders completed on three different days after 10, 20 and 30 minutes:
   * the average time is 20 minutes and the average per day is 1.
   */
  lemma ThreeDaysExample(c: Courier, start: int)
    ensures var minute := 60 * 1000000;
      var h := [
        Order("a", 1, 1, Completed, Timestamp(start, 1), Some(Timestamp(start + 10 * minute, 1))),
        Order("b", 1, 1, Completed, Timestamp(start, 2), Some(Timestamp(start + 20 * minute, 2))),
        Order("c", 1, 1, Completed, Timestamp(start, 3), Some(Timestamp(start + 30 * minute, 3)))];
      && UpdatedAvgCompleteTime(c, h) == Ok(c.(avgOrderCompleteTime := Some(20 * minute)))
      && UpdatedAvgDayOrders(c, h) == Ok(c.(avgDayOrders := 1))
  {
    var minute := 60 * 1000000;
    var h := [
      Order("a", 1, 1, Completed, Timestamp(start, 1), Some(Timestamp(start + 10 * minute, 1))),
      Order("b", 1, 1, Completed, Timestamp(start, 2), Some(Timestamp(start + 20 * minute, 2))),
      Order("c", 1, 1, Completed, Timestamp(start, 3), Some(Timestamp(start + 30 * minute, 3)))];
    var a, b, c := h[0], h[1], h[2];
    assert h == [] + [a] + [b] + [c];
    ClosedAppend([], a);
    ClosedAppend([a], b);
    ClosedAppend([a, b], c);
    assert [a] + [b] == [a, b] && [a, b] + [c] == h;
    assert ClosedCount(h) == 3 && ClosedTotal(h) == 60 * minute;
    ExactMean(20 * minute, 3);
    assert DaySet(h) == {1, 2, 3} by {
      assert h[0].completedAt.value.day == 1;
      assert h[1].completedAt.value.day == 2;
      assert h[2].completedAt.value.day == 3;
    }
  }

  /**
   * Days are bucketed by day of the month only: two orders completed on the 5th
   * of two different months share one bucket, so the average per day is 2.
   */
  lemma SameDayOfMonthExample(c: Courier, t1: int, t2: int)
    ensures var h := [
        Order("a", 1, 1, Completed, Timestamp(t1, 5), Some(Timestamp(t1, 5))),
        Order("b", 1, 1, Completed, Timestamp(t2, 5), Some(Timestamp(t2, 5)))];
      UpdatedAvgDayOrders(c, h) == Ok(c.(avgDayOrders := 2))
  {
    var h := [
      Order("a", 1, 1, Completed, Timestamp(t1, 5), Some(Timestamp(t1, 5))),
      Order("b", 1, 1, Completed, Timestamp(t2, 5), Some(Timestamp(t2, 5)))];
    assert DaySet(h) == {5} by {
      assert h[0].completedAt.value.day == 5;
    }
  }

  /**
   * The statistics of courier `c` are those of a non-empty history `h` of
   * completed orders: the average time is the rounded mean duration over all of
   * `h`, and the orders per day are `|h|` over the distinct completion days of
   * the month, rounded down.
   */
  ghost predicate ReflectsHistory(c: Courier, h: seq<Order>) {
    && |h| > 0
    && (forall i :: 0 <= i < |h| ==> Closed(h[i]) && h[i].completedAt.Some?)
    && ClosedCount(h) == |h|
    && c.avgOrderCompleteTime.Some?
    && NearestHalfEven(ClosedTotal(h), |h|, c.avgOrderCompleteTime.value)
    && c.avgDayOrders * |DaySet(h)| <= |h| < (c.avgDayOrders + 1) * |DaySet(h)|
  }

  /** Appending a closed order adds one to the count and its duration to the total. */
  lemma ClosedAppend(h: seq<Order>, o: Order)
    requires ClosedStamped(h) && Closed(o) && o.completedAt.Some?
    ensures ClosedStamped(h + [o])
    ensures ClosedCount(h + [o]) == ClosedCount(h) + 1
    ensures ClosedTotal(h + [o]) == ClosedTotal(h) + Duration(o)
  {
    assert (h + [o])[..|h|] == h;
  }

  /** When every order is completed, both averages range over the whole history. */
  lemma AllCompletedStatistics(c: Courier, h: seq<Order>)
    requires forall i :: 0 <= i < |h| ==> h[i].status == Completed && h[i].completedAt.Some?
    ensures UpdatedAvgCompleteTime(c, h).Ok? && UpdatedAvgDayOrders(c, h).Ok?
    ensures ClosedCount(h) == |h|
  {
    AllClosedCount(h);
  }

  lemma {:induction false} AllClosedCount(h: seq<Order>)
    requires forall i :: 0 <= i < |h| ==> Closed(h[i])
    ensures ClosedCount(h) == |h|
  {
    if h != [] {
      AllClosedCount(h[..|h| - 1]);
    }
  }
}
