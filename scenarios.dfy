/**
 * Concrete scenarios of the booking handler and the date filter on 1 January
 * 2025 against one visible space.  Instants are microseconds since
 * 1970-01-01 00:00; the parser is any function that reads the given strings
 * as those whole minutes.
 */
module Scenarios {
  import opened Tables
  import opened Models
  import opened Availability
  import opened Views
  import Filters

  /** 2025-01-01 00:00, 20089 days after the epoch. */
  const Jan1: int := 20089 * 1440 * Minute

  /** 2025-02-01 00:00. */
  const Feb1: int := Jan1 + 31 * 1440 * Minute

  const Hall: Space := Space(1, "Hall", "", 40, [], Building("City", "Street", "1"), true)

  /** A parser that reads the strings these runs use as the intended instants. */
  predicate ReadsClock(parse: string -> Option<int>)
  {
    && parse("2025-01-01 09:00") == Some(Jan1 + 540 * Minute)
    && parse("2025-01-01 10:00") == Some(Jan1 + 600 * Minute)
    && parse("2025-01-01 10:01") == Some(Jan1 + 601 * Minute)
    && parse("2025-01-01 11:00") == Some(Jan1 + 660 * Minute)
    && parse("2025-01-01 12:00") == Some(Jan1 + 720 * Minute)
    && parse("2025-01-01 13:00") == Some(Jan1 + 780 * Minute)
  }

  /** Booking A: [10:00, 12:00) on the hall, confirmed. */
  const A: Booking := Booking(7, 2, 1, Jan1 + 600 * Minute, Jan1 + 720 * Minute, Jan1, Confirmation)

  /**
   * The same user asks twice for the same window: both requests succeed while
   * the bookings are NEW;
   * once the first is confirmed, a third overlapping request is refused.
   */
  method BookTwiceThenConfirm(parse: string -> Option<int>) returns (r1: BookResponse, r2: BookResponse, c: StatusResponse, r3: BookResponse)
    requires ReadsClock(parse)
    ensures r1.Created? && r2.Created? && r1.booking.id != r2.booking.id
    ensures c.Updated?
    ensures r3 == Failed(Occupied)
  {
    var table := new BookingTable();
    var from, to := Some("2025-01-01 10:00"), Some("2025-01-01 12:00");
    r1 := table.Book([Hall], 1, 5, from, to, parse, Jan1);
    r2 := table.Book([Hall], 1, 5, from, to, parse, Jan1);
    assert table.bookings == [r1.booking, r2.booking];
    c := table.Confirm(r1.booking.id, true, Jan1);
    assert table.bookings[0].status == Confirmation && table.bookings[0].space == 1;
    assert table.bookings[0] in table.bookings;
    r3 := table.Book([Hall], 1, 7, Some("2025-01-01 11:00"), Some("2025-01-01 13:00"), parse, Jan1);
  }

  /** Back-to-back: [12:00, 13:00) right after A is accepted. */
  lemma TouchingAccepted(parse: string -> Option<int>)
    requires ReadsClock(parse)
    ensures Decide([Hall], [A], 1, Some("2025-01-01 12:00"), Some("2025-01-01 13:00"), parse) == Accept(Jan1 + 720 * Minute, Jan1 + 780 * Minute)
  {
  }

  /** [09:00, 10:01) takes the first minute of A and is refused. */
  lemma FirstMinuteRefused(parse: string -> Option<int>)
    requires ReadsClock(parse)
    ensures Decide([Hall], [A], 1, Some("2025-01-01 09:00"), Some("2025-01-01 10:01"), parse) == Reject(Occupied)
  {
    assert A in [A];
  }

  /** A reversed range is refused as a range error whatever is booked. */
  lemma ReversedRangeRefused(parse: string -> Option<int>, bookings: seq<Booking>)
    requires ReadsClock(parse)
    ensures Decide([Hall], bookings, 1, Some("2025-01-01 10:00"), Some("2025-01-01 09:00"), parse) == Reject(BadRange)
  {
  }

  /** The search with only `date_to = 11:00` drops the hall, since 11:00 falls inside A. */
  lemma OnlyToHitsBooking(parse: string -> Option<int>)
    requires ReadsClock(parse)
    ensures Hall !in Filters.DateFilter([Hall], [A], None, Some("2025-01-01 11:00"), parse)
  {
    assert A in [A] && Conflicts(A, None, Some(Jan1 + 660 * Minute));
  }

  /** With no date bound the search keeps every space. */
  lemma NoWindowKeepsAll(spaces: seq<Space>, bookings: seq<Booking>, parse: string -> Option<int>)
    ensures Filters.DateFilter(spaces, bookings, None, None, parse) == spaces
  {
  }

  /**
   * A confirmed booking whose end came from a clock read half a minute past
   * 10:00 still blocks a request for [10:00, 11:00).
   */
  lemma HalfMinuteOverrun(parse: string -> Option<int>)
    requires ReadsClock(parse)
    ensures var b := A.(dateFrom := Jan1 + 540 * Minute, dateTo := Jan1 + 600 * Minute + 30_000_000);
      Decide([Hall], [b], 1, Some("2025-01-01 10:00"), Some("2025-01-01 11:00"), parse) == Reject(Occupied)
  {
    var b := A.(dateFrom := Jan1 + 540 * Minute, dateTo := Jan1 + 600 * Minute + 30_000_000);
    assert b in [b];
  }

  /**
   * The per-condition reading of `exclude()` hides a free space: the hall has
   * a confirmed booking on 1 January and a NEW one on 1 February, both
   * [10:00, 12:00).  At 1 February 11:00 no confirmed booking is running, so
   * the per-booking model keeps the hall; the per-condition reading hides it.
   */
  lemma PerConditionHidesFreeHall(parse: string -> Option<int>)
    requires parse("2025-02-01 11:00") == Some(Feb1 + 660 * Minute)
    ensures var feb := A.(id := 8, dateFrom := Feb1 + 600 * Minute, dateTo := Feb1 + 720 * Minute, status := NewBook);
      && Hall in Filters.DateFilter([Hall], [A, feb], Some("2025-02-01 11:00"), None, parse)
      && Hall !in Filters.DateFromFilterPerCondition([Hall], [A, feb], Feb1 + 660 * Minute)
  {
    var feb := A.(id := 8, dateFrom := Feb1 + 600 * Minute, dateTo := Feb1 + 720 * Minute, status := NewBook);
    assert A in [A, feb] && feb in [A, feb];
    assert Filters.HiddenPerCondition([A, feb], Hall.id, Feb1 + 660 * Minute);
  }

  /** `?date_from=%20` alone: the cleaned value is empty, so `date_filter` never runs. */
  lemma BlankDateKeepsAll(qs: seq<Space>, bookings: seq<Booking>, parse: string -> Option<int>)
    ensures Filters.Search(qs, bookings, Filters.SearchParams(None, None, None, None, Some(" "), None), parse) == qs
  {
    assert Filters.Strip(" ") == "";
  }

  /** `?q=%20hall` searches for "hall": the query is stripped before the lookup. */
  lemma PaddedQueryIsStripped(bookings: seq<Booking>, parse: string -> Option<int>)
    ensures Filters.Search([Hall], bookings, Filters.SearchParams(Some(" hall"), None, None, None, None, None), parse) == [Hall]
  {
    var p := Filters.SearchParams(Some(" hall"), None, None, None, None, None);
    assert Filters.LeadingSpaces(" hall") == 1;
    assert " hall"[1..] == "hall";
    assert Filters.TrailingStart("hall") == 4;
    assert "hall"[..4] == "hall";
    assert Filters.Cleaned(p.q) == Some("hall");
    assert Filters.Fold("Hall") == Filters.Fold("hall");
    assert Filters.OccursAt(Filters.Fold("Hall"), Filters.Fold("hall"), 0);
    assert Filters.TextFilters([Hall], p) == Filters.SearchFilter([Hall], "hall");
  }

  /**
   * The same two bookings with only `date_to = 2025-02-01 11:00`: no
   * confirmed booking ends at or after it, yet the per-condition reading
   * hides the hall.
   */
  lemma PerConditionToHidesFreeHall(parse: string -> Option<int>)
    requires parse("2025-02-01 11:00") == Some(Feb1 + 660 * Minute)
    ensures var feb := A.(id := 8, dateFrom := Feb1 + 600 * Minute, dateTo := Feb1 + 720 * Minute, status := NewBook);
      && Hall in Filters.DateFilter([Hall], [A, feb], None, Some("2025-02-01 11:00"), parse)
      && Hall !in Filters.DateToFilterPerCondition([Hall], [A, feb], Feb1 + 660 * Minute)
  {
    var feb := A.(id := 8, dateFrom := Feb1 + 600 * Minute, dateTo := Feb1 + 720 * Minute, status := NewBook);
    assert A in [A, feb] && feb in [A, feb];
    assert Filters.HiddenPerConditionTo([A, feb], Hall.id, Feb1 + 660 * Minute);
  }
}
