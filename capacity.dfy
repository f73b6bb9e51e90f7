/**
 * The capacity block attached to every event read (eventController.js
 * getEvents, getEventById, getUserRegisteredEvents, getOrganizerEvents and
 * profileController.js getUserEvents): seats total, available, filled and the
 * percentage filled, `Math.round(filled / total * 100)`, in exact arithmetic.
 */
module Capacity {
  import opened Wrappers
  import EventModel

  /**
   * `Math.round(n / d)` for d > 0: the integer q with q <= n/d + 1/2 < q + 1,
   * so halves round up.
   */
  function RoundHalfUp(n: int, d: int): (q: int)
    requires d > 0
    ensures 2 * d * q <= 2 * n + d < 2 * d * q + 2 * d
  {
    var q := (2 * n + d) / (2 * d);
    var r := (2 * n + d) % (2 * d);
    assert 2 * n + d == 2 * d * q + r && 0 <= r < 2 * d;
    q
  }

  /** The rounding characterisation determines the result. */
  lemma RoundHalfUpUnique(n: int, d: int, q: int)
    requires d > 0
    requires 2 * d * q <= 2 * n + d < 2 * d * q + 2 * d
    ensures RoundHalfUp(n, d) == q
  {
    var p := RoundHalfUp(n, d);
    MulLess(2 * d, p, q + 1);
    MulLess(2 * d, q, p + 1);
  }

  /** Cancelling a positive factor from a strict inequality. */
  lemma MulLess(k: int, a: int, b: int)
    requires k > 0 && k * a < k * b
    ensures a < b
  {
    if a >= b {
      MulMono(k, b, a);
    }
  }

  lemma MulMono(k: int, a: int, b: int)
    requires k >= 0 && a <= b
    ensures k * a <= k * b
  {
  }

  /**
   * The percentage filled. A zero total divides by zero (NaN or Infinity in
   * the source): None.
   */
  function PercentageFilled(total: int, available: int): (p: Option<int>)
    ensures p.None? <==> total == 0
    ensures total > 0 ==> p == Some(RoundHalfUp(100 * (total - available), total))
  {
    if total == 0 then None
    else if total > 0 then Some(RoundHalfUp(100 * (total - available), total))
    else Some(RoundHalfUp(-100 * (total - available), -total))
  }

  datatype Capacity = Capacity(total: int, available: int, filled: int, percentageFilled: Option<int>)

  function CapacityOf(e: EventModel.Event): (c: Capacity)
    ensures c.total == e.totalSeats && c.available == e.availableSeats
    ensures c.available + c.filled == c.total
    ensures c.percentageFilled == PercentageFilled(e.totalSeats, e.availableSeats)
  {
    Capacity(e.totalSeats, e.availableSeats, e.totalSeats - e.availableSeats,
             PercentageFilled(e.totalSeats, e.availableSeats))
  }

  /** With `0 <= available <= total` and a positive total the percentage lies in [0, 100]. */
  lemma PercentageInRange(total: int, available: int)
    requires 0 <= available <= total && total > 0
    ensures PercentageFilled(total, available).Some?
    ensures 0 <= PercentageFilled(total, available).value <= 100
  {
    var f := total - available;
    var p := RoundHalfUp(100 * f, total);
    assert 2 * total * p <= 200 * f + total < 2 * total * p + 2 * total;
    assert 2 * total * 0 < 2 * total * (p + 1);
    MulLess(2 * total, 0, p + 1);
    assert 200 * f <= 200 * total;
    MulLess(2 * total, p, 101);
  }

  /** A full event is 100% filled and an empty one 0%. */
  lemma PercentageExtremes(total: int)
    requires total > 0
    ensures PercentageFilled(total, 0) == Some(100)
    ensures PercentageFilled(total, total) == Some(0)
  {
    RoundHalfUpUnique(100 * total, total, 100);
    RoundHalfUpUnique(0, total, 0);
  }

  /** 50 seats with 35 free: 15 filled, 30%. */
  lemma FiftySeatsExample(e: EventModel.Event)
    requires e.totalSeats == 50 && e.availableSeats == 35
    ensures CapacityOf(e) == Capacity(50, 35, 15, Some(30))
  {
  }

  /** Exact halves round up: 1 of 8 seats filled is 12.5%, reported as 13. */
  lemma HalfRoundsUp(e: EventModel.Event)
    requires e.totalSeats == 8 && e.availableSeats == 7
    ensures CapacityOf(e).percentageFilled == Some(13)
  {
  }
}
