/**
 * The one piece of real logic shared by the booking handler and the search
 * filter: whether a booking of a space blocks a query window.  A window bound
 * may be missing (the search filter accepts either bound alone); the booking
 * handler always has both.
 */
module Availability {
  import opened Tables
  import opened Models

  /**
   * The date test applied to one booking, per case of the window:
   *  - both bounds: the half-open intervals intersect, touching ends do not count;
   *  - only `from`: the instant `from` lies in `[dateFrom, dateTo)`;
   *  - only `to`: the instant `to` lies in `(dateFrom, dateTo]`;
   *  - no bound: nothing overlaps.
   */
  predicate Overlaps(b: Booking, wf: Option<int>, wt: Option<int>)
  {
    match (wf, wt)
    case (Some(f), Some(t)) => !(b.dateTo <= f || b.dateFrom >= t)
    case (Some(f), None) => b.dateFrom <= f && b.dateTo > f
    case (None, Some(t)) => b.dateFrom < t && b.dateTo >= t
    case (None, None) => false
  }

  /** Only a CONFIRMED booking takes part in conflict detection. */
  predicate Conflicts(b: Booking, wf: Option<int>, wt: Option<int>)
  {
    b.status == Confirmation && Overlaps(b, wf, wt)
  }

  /** Some booking of `space` conflicts with the window. */
  predicate Busy(bookings: seq<Booking>, space: SpaceId, wf: Option<int>, wt: Option<int>)
  {
    exists b :: b in bookings && b.space == space && Conflicts(b, wf, wt)
  }

  /** `lo <= m < hi`: the instant `m` lies in the half-open interval. */
  predicate Within(m: int, lo: int, hi: int)
  {
    lo <= m < hi
  }

  predicate Available(bookings: seq<Booking>, space: SpaceId, wf: Option<int>, wt: Option<int>)
  {
    !Busy(bookings, space, wf, wt)
  }

  /**
   * For a well-formed booking and window, the two-bound test holds exactly
   * when the half-open intervals share an instant.
   */
  lemma OverlapIsSharedInstant(b: Booking, f: int, t: int)
    requires b.dateFrom < b.dateTo && f < t
    ensures Overlaps(b, Some(f), Some(t)) <==> exists m :: Within(m, b.dateFrom, b.dateTo) && Within(m, f, t)
  {
    if Overlaps(b, Some(f), Some(t)) {
      var m := if b.dateFrom <= f then f else b.dateFrom;
      assert Within(m, b.dateFrom, b.dateTo) && Within(m, f, t);
    }
  }

  /** Back-to-back windows on either side of a booking never overlap it. */
  lemma TouchingEndsDoNotOverlap(b: Booking, f: int, t: int)
    ensures b.dateTo < t ==> !Overlaps(b, Some(b.dateTo), Some(t))
    ensures f < b.dateFrom ==> !Overlaps(b, Some(f), Some(b.dateFrom))
  {
  }

  /**
   * The asymmetry: a booking starting at `m` is hit by `from = m` but not by
   * `to = m`; a booking ending at `m` is hit by `to = m` but not by `from = m`.
   * The instant `m` that differs lies in `(dateFrom, dateTo)` for both.
   */
  lemma OneSidedAsymmetry(b: Booking, m: int)
    requires b.dateFrom < b.dateTo
    ensures b.dateFrom < m < b.dateTo ==> Overlaps(b, Some(m), None) && Overlaps(b, None, Some(m))
    ensures b.dateFrom == m ==> Overlaps(b, Some(m), None) && !Overlaps(b, None, Some(m))
    ensures b.dateTo == m ==> Overlaps(b, None, Some(m)) && !Overlaps(b, Some(m), None)
  {
  }

  /** A one-sided hit is also a hit for every two-bound window that has that bound. */
  lemma OneSidedImpliesBoth(b: Booking, f: int, t: int)
    requires f < t
    ensures Overlaps(b, Some(f), None) ==> Overlaps(b, Some(f), Some(t))
    ensures Overlaps(b, None, Some(t)) ==> Overlaps(b, Some(f), Some(t))
  {
  }

  /**
   * The two-bound test does not look at whether the booking's own range is
   * well formed: a confirmed booking stored with `dateFrom > dateTo` (possible
   * through `Booking.objects.create`, which skips `clean`) still blocks a
   * window that contains neither of its dates.
   */
  lemma ReversedBookingBlocks()
    ensures Conflicts(Booking(0, 0, 0, 500, 300, 0, Confirmation), Some(0), Some(1000))
    ensures forall m :: !Within(m, 500, 300)
  {
  }

  /** Bookings that are not CONFIRMED never make a space busy, whatever the window. */
  lemma {:induction false} UnconfirmedNeverBlock(bookings: seq<Booking>, extra: seq<Booking>, space: SpaceId, wf: Option<int>, wt: Option<int>)
    requires forall k :: 0 <= k < |extra| ==> extra[k].status != Confirmation
    ensures Busy(bookings + extra, space, wf, wt) <==> Busy(bookings, space, wf, wt)
  {
    if Busy(bookings + extra, space, wf, wt) {
      var b :| b in bookings + extra && b.space == space && Conflicts(b, wf, wt);
      assert b in bookings;
    }
    if Busy(bookings, space, wf, wt) {
      var b :| b in bookings && b.space == space && Conflicts(b, wf, wt);
      assert b in bookings + extra;
    }
  }
}
