/**
 * `SpaceFilter` of backend/bron/filters.py: the search filters over a
 * queryset of spaces.  Each filter returns a new queryset; nothing is changed.
 */
module Filters {
  import opened Tables
  import opened Models
  import opened Availability

  /** Python truthiness of an optional string parameter: present and non-empty. */
  predicate Given(v: Option<string>)
  {
    v.Some? && v.value != ""
  }

  /** `str.isspace` of one character: the characters `str.strip()` removes. */
  predicate IsSpace(c: char)
  {
    || '\t' <= c <= '\r' || '\U{1C}' <= c <= ' ' || c == '\U{85}' || c == '\U{A0}' || c == '\U{1680}'
    || '\U{2000}' <= c <= '\U{200A}' || c == '\U{2028}' || c == '\U{2029}' || c == '\U{202F}'
    || c == '\U{205F}' || c == '\U{3000}'
  }

  /** The number of whitespace characters `s` starts with. */
  function LeadingSpaces(s: string): (i: nat)
    ensures i <= |s|
    ensures forall k :: 0 <= k < i ==> IsSpace(s[k])
    ensures i < |s| ==> !IsSpace(s[i])
  {
    if s == [] || !IsSpace(s[0]) then 0 else 1 + LeadingSpaces(s[1..])
  }

  /** The length of `s` without the whitespace it ends with. */
  function TrailingStart(s: string): (j: nat)
    ensures j <= |s|
    ensures forall k :: j <= k < |s| ==> IsSpace(s[k])
    ensures 0 < j ==> !IsSpace(s[j - 1])
  {
    if s == [] || !IsSpace(s[|s| - 1]) then |s| else TrailingStart(s[..|s| - 1])
  }

  /** `str.strip()`: `s` without its leading and trailing whitespace. */
  function Strip(s: string): (r: string)
    ensures exists i, j ::
              && 0 <= i <= j <= |s| && r == s[i..j]
              && (forall k :: 0 <= k < i ==> IsSpace(s[k])) && (forall k :: j <= k < |s| ==> IsSpace(s[k]))
    ensures r != [] ==> !IsSpace(r[0]) && !IsSpace(r[|r| - 1])
  {
    var i := LeadingSpaces(s);
    var t := s[i..];
    var j := TrailingStart(t);
    assert t[..j] == s[i..i + j];
    t[..j]
  }

  /** Stripping twice is stripping once. */
  lemma StripIdempotent(s: string)
    ensures Strip(Strip(s)) == Strip(s)
  {
    var r := Strip(s);
    if r != [] {
      assert LeadingSpaces(r) == 0;
      assert TrailingStart(r) == |r|;
    }
  }

  /** A value strips to the empty string exactly when it is all whitespace. */
  lemma StripBlank(s: string)
    ensures Strip(s) == "" <==> forall k :: 0 <= k < |s| ==> IsSpace(s[k])
  {
    var i := LeadingSpaces(s);
    if forall k :: 0 <= k < |s| ==> IsSpace(s[k]) {
      assert i == |s|;
    } else {
      var k :| 0 <= k < |s| && !IsSpace(s[k]);
      assert i <= k;
      assert s[i..][k - i] == s[k];
      assert TrailingStart(s[i..]) > k - i;
    }
  }

  /**
   * The value a `CharFilter` receives: `forms.CharField` strips the raw
   * parameter, and the filter runs only when the cleaned value is not empty.
   */
  function Cleaned(v: Option<string>): (r: Option<string>)
    ensures v.None? <==> r.None?
    ensures v.Some? ==> r.value == Strip(v.value)
  {
    if v.None? then None else Some(Strip(v.value))
  }

  /**
   * Case folding for the `icontains`/`iexact` lookups: ASCII letters and the
   * basic Cyrillic capitals (with Ё) map to their lower-case forms.
   */
  function FoldChar(c: char): (r: char)
    ensures ('A' <= c <= 'Z' || 'А' <= c <= 'Я') ==> r as int == c as int + 32
    ensures c == 'Ё' ==> r == 'ё'
    ensures !('A' <= c <= 'Z') && !('А' <= c <= 'Я') && c != 'Ё' ==> r == c
  {
    if 'A' <= c <= 'Z' then (c as int + 32) as char
    else if 'А' <= c <= 'Я' then (c as int + 32) as char
    else if c == 'Ё' then 'ё'
    else c
  }

  function Fold(s: string): (r: string)
    ensures |r| == |s|
    ensures forall k :: 0 <= k < |s| ==> r[k] == FoldChar(s[k])
  {
    seq(|s|, k requires 0 <= k < |s| => FoldChar(s[k]))
  }

  lemma FoldIdempotent(s: string)
    ensures Fold(Fold(s)) == Fold(s)
  {
    assert forall k :: 0 <= k < |s| ==> FoldChar(FoldChar(s[k])) == FoldChar(s[k]);
  }

  predicate OccursAt(hay: string, needle: string, i: int)
  {
    0 <= i <= |hay| - |needle| && hay[i..i + |needle|] == needle
  }

  /** `needle` occurs in `hay` as a contiguous piece. */
  predicate Contains(hay: string, needle: string)
  {
    exists i :: 0 <= i <= |hay| - |needle| && OccursAt(hay, needle, i)
  }

  predicate ContainsIgnoringCase(hay: string, needle: string)
  {
    Contains(Fold(hay), Fold(needle))
  }

  predicate EqualIgnoringCase(a: string, b: string)
  {
    Fold(a) == Fold(b)
  }

  /** `q`: name or description contains `value`, ignoring case. */
  predicate MatchesText(s: Space, value: string)
  {
    ContainsIgnoringCase(s.name, value) || ContainsIgnoringCase(s.description, value)
  }

  function SearchFilter(qs: seq<Space>, value: string): (r: seq<Space>)
    ensures forall s :: s in r <==> s in qs && MatchesText(s, value)
  {
    Filter(qs, (s: Space) => MatchesText(s, value))
  }

  /** Folding the query first changes nothing: the search already ignores case. */
  lemma SearchFilterIgnoresCase(qs: seq<Space>, value: string)
    ensures SearchFilter(qs, Fold(value)) == SearchFilter(qs, value)
  {
    FoldIdempotent(value);
    FilterSame(qs, (s: Space) => MatchesText(s, Fold(value)), (s: Space) => MatchesText(s, value));
  }

  /** `min_capacity`: `capacity >= value`. */
  function MinCapacity(qs: seq<Space>, value: int): (r: seq<Space>)
    ensures forall s :: s in r <==> s in qs && s.capacity >= value
  {
    Filter(qs, (s: Space) => s.capacity >= value)
  }

  /** `city`: the space's building is in `value`, ignoring case. */
  function CityFilter(qs: seq<Space>, value: string): (r: seq<Space>)
    ensures forall s :: s in r <==> s in qs && EqualIgnoringCase(s.building.city, value)
  {
    Filter(qs, (s: Space) => EqualIgnoringCase(s.building.city, value))
  }

  predicate HasItem(s: Space, value: string)
  {
    exists k :: 0 <= k < |s.items| && EqualIgnoringCase(s.items[k], value)
  }

  /** `item`: the space has a feature named `value`, ignoring case. */
  function ItemFilter(qs: seq<Space>, value: string): (r: seq<Space>)
    ensures forall s :: s in r <==> s in qs && HasItem(s, value)
  {
    Filter(qs, (s: Space) => HasItem(s, value))
  }

  /** The window `date_filter` settles on after parsing, or its rejection. */
  datatype DateWindow = Rejected | Window(from: Option<int>, to: Option<int>)

  /**
   * Lines 26-35: each given bound is parsed; a parse failure of either, or a
   * reversed or empty two-bound window, rejects the query.
   */
  function ParseWindow(fromStr: Option<string>, toStr: Option<string>, parse: string -> Option<int>): (w: DateWindow)
    ensures w.Rejected? <==>
      || (Given(fromStr) && parse(fromStr.value).None?)
      || (Given(toStr) && parse(toStr.value).None?)
      || (Given(fromStr) && Given(toStr) && parse(fromStr.value).Some? && parse(toStr.value).Some?
          && parse(fromStr.value).value >= parse(toStr.value).value)
    ensures w.Window? ==> (w.from.Some? <==> Given(fromStr)) && (w.to.Some? <==> Given(toStr))
    ensures w.Window? && w.from.Some? ==> parse(fromStr.value) == w.from
    ensures w.Window? && w.to.Some? ==> parse(toStr.value) == w.to
  {
    var f := if Given(fromStr) then parse(fromStr.value) else None;
    var t := if Given(toStr) then parse(toStr.value) else None;
    if (Given(fromStr) && f.None?) || (Given(toStr) && t.None?) then Rejected
    else if f.Some? && t.Some? && f.value >= t.value then Rejected
    else Window(f, t)
  }

  /**
   * `date_filter`: on rejection the empty queryset; with no bound the
   * queryset itself; otherwise the spaces with no conflicting booking.
   */
  function DateFilter(qs: seq<Space>, bookings: seq<Booking>, fromStr: Option<string>, toStr: Option<string>,
                      parse: string -> Option<int>): (r: seq<Space>)
    ensures forall s :: s in r ==> s in qs
    ensures ParseWindow(fromStr, toStr, parse).Rejected? ==> r == []
    ensures !Given(fromStr) && !Given(toStr) ==> r == qs
    ensures ParseWindow(fromStr, toStr, parse).Window? ==>
      var w := ParseWindow(fromStr, toStr, parse);
      forall s :: s in r <==> s in qs && Available(bookings, s.id, w.from, w.to)
  {
    match ParseWindow(fromStr, toStr, parse)
    case Rejected => []
    case Window(f, t) =>
      if f.None? && t.None? then qs
      else Filter(qs, (s: Space) => Available(bookings, s.id, f, t))
  }

  /** Both bounds: a space is excluded iff a CONFIRMED booking of it intersects `[f, t)`. */
  lemma DateFilterBothBounds(qs: seq<Space>, bookings: seq<Booking>, fs: string, ts: string,
                             parse: string -> Option<int>, f: int, t: int)
    requires fs != "" && ts != "" && parse(fs) == Some(f) && parse(ts) == Some(t) && f < t
    ensures forall s :: s in DateFilter(qs, bookings, Some(fs), Some(ts), parse) <==>
      s in qs && !exists b :: b in bookings && b.space == s.id && b.status == Confirmation
                              && !(b.dateTo <= f || b.dateFrom >= t)
  {
  }

  /** Only `date_from`: excluded iff a CONFIRMED booking has `dateFrom <= f < dateTo`. */
  lemma DateFilterFromOnly(qs: seq<Space>, bookings: seq<Booking>, fs: string, toStr: Option<string>,
                           parse: string -> Option<int>, f: int)
    requires fs != "" && parse(fs) == Some(f) && !Given(toStr)
    ensures forall s :: s in DateFilter(qs, bookings, Some(fs), toStr, parse) <==>
      s in qs && !exists b :: b in bookings && b.space == s.id && b.status == Confirmation
                              && b.dateFrom <= f && b.dateTo > f
  {
    assert ParseWindow(Some(fs), toStr, parse) == Window(Some(f), None);
  }

  /** Only `date_to`: excluded iff a CONFIRMED booking has `dateFrom < t <= dateTo`. */
  lemma DateFilterToOnly(qs: seq<Space>, bookings: seq<Booking>, fromStr: Option<string>, ts: string,
                         parse: string -> Option<int>, t: int)
    requires ts != "" && parse(ts) == Some(t) && !Given(fromStr)
    ensures forall s :: s in DateFilter(qs, bookings, fromStr, Some(ts), parse) <==>
      s in qs && !exists b :: b in bookings && b.space == s.id && b.status == Confirmation
                              && b.dateFrom < t && b.dateTo >= t
  {
    assert ParseWindow(fromStr, Some(ts), parse) == Window(None, Some(t));
  }

  /**
   * The `date_from`-only exclusion as Django documents `exclude()` across the
   * multi-valued `space_books` relation: the three conditions need not be met
   * by the same booking, so a space is hidden when some booking of it is
   * confirmed, some (maybe other) booking starts at or before `f`, and some
   * booking ends after `f`.
   */
  predicate HiddenPerCondition(bookings: seq<Booking>, space: SpaceId, f: int)
  {
    && (exists b :: b in bookings && b.space == space && b.status == Confirmation)
    && (exists b :: b in bookings && b.space == space && b.dateFrom <= f)
    && (exists b :: b in bookings && b.space == space && b.dateTo > f)
  }

  /** Lines 46-50 under the per-condition reading of `exclude()`. */
  function DateFromFilterPerCondition(qs: seq<Space>, bookings: seq<Booking>, f: int): (r: seq<Space>)
    ensures forall s :: s in r <==> s in qs && !HiddenPerCondition(bookings, s.id, f)
  {
    Filter(qs, (s: Space) => !HiddenPerCondition(bookings, s.id, f))
  }

  /** The `date_to`-only exclusion (lines 52-56) under the same per-condition reading. */
  predicate HiddenPerConditionTo(bookings: seq<Booking>, space: SpaceId, t: int)
  {
    && (exists b :: b in bookings && b.space == space && b.status == Confirmation)
    && (exists b :: b in bookings && b.space == space && b.dateFrom < t)
    && (exists b :: b in bookings && b.space == space && b.dateTo >= t)
  }

  /** Lines 52-56 under the per-condition reading of `exclude()`. */
  function DateToFilterPerCondition(qs: seq<Space>, bookings: seq<Booking>, t: int): (r: seq<Space>)
    ensures forall s :: s in r <==> s in qs && !HiddenPerConditionTo(bookings, s.id, t)
  {
    Filter(qs, (s: Space) => !HiddenPerConditionTo(bookings, s.id, t))
  }

  /** With only `date_to`, too, the per-condition reading keeps only spaces that `DateFilter` keeps. */
  lemma PerConditionHidesMoreTo(qs: seq<Space>, bookings: seq<Booking>, ts: string, parse: string -> Option<int>, t: int)
    requires ts != "" && parse(ts) == Some(t)
    ensures forall s :: s in DateToFilterPerCondition(qs, bookings, t) ==> s in DateFilter(qs, bookings, None, Some(ts), parse)
  {
    forall s | s in DateToFilterPerCondition(qs, bookings, t)
      ensures s in DateFilter(qs, bookings, None, Some(ts), parse)
    {
      if Busy(bookings, s.id, None, Some(t)) {
        var b :| b in bookings && b.space == s.id && Conflicts(b, None, Some(t));
        assert HiddenPerConditionTo(bookings, s.id, t);
      }
    }
  }

  /**
   * The per-condition reading hides every space the per-booking reading
   * hides, and maybe more: it keeps only spaces that `DateFilter` keeps.
   */
  lemma PerConditionHidesMore(qs: seq<Space>, bookings: seq<Booking>, fs: string, parse: string -> Option<int>, f: int)
    requires fs != "" && parse(fs) == Some(f)
    ensures forall s :: s in DateFromFilterPerCondition(qs, bookings, f) ==> s in DateFilter(qs, bookings, Some(fs), None, parse)
  {
    forall s | s in DateFromFilterPerCondition(qs, bookings, f)
      ensures s in DateFilter(qs, bookings, Some(fs), None, parse)
    {
      if Busy(bookings, s.id, Some(f), None) {
        var b :| b in bookings && b.space == s.id && Conflicts(b, Some(f), None);
        assert HiddenPerCondition(bookings, s.id, f);
      }
    }
  }

  /**
   * A two-bound search hides at least the spaces that either one-sided search
   * with one of its bounds hides.
   */
  lemma DateFilterBothWithinOneSided(qs: seq<Space>, bookings: seq<Booking>, fs: string, ts: string,
                                     parse: string -> Option<int>)
    requires fs != "" && ts != ""
    ensures forall s :: s in DateFilter(qs, bookings, Some(fs), Some(ts), parse) ==>
      s in DateFilter(qs, bookings, Some(fs), None, parse) && s in DateFilter(qs, bookings, None, Some(ts), parse)
  {
    forall s | s in DateFilter(qs, bookings, Some(fs), Some(ts), parse)
      ensures s in DateFilter(qs, bookings, Some(fs), None, parse) && s in DateFilter(qs, bookings, None, Some(ts), parse)
    {
      var f, t := parse(fs).value, parse(ts).value;
      forall b | b in bookings && b.space == s.id
        ensures !Conflicts(b, Some(f), None) && !Conflicts(b, None, Some(t))
      {
        OneSidedImpliesBoth(b, f, t);
      }
    }
  }

  /** Running `date_filter` on its own output changes nothing. */
  lemma DateFilterIdempotent(qs: seq<Space>, bookings: seq<Booking>, fromStr: Option<string>, toStr: Option<string>,
                             parse: string -> Option<int>)
    ensures DateFilter(DateFilter(qs, bookings, fromStr, toStr, parse), bookings, fromStr, toStr, parse)
         == DateFilter(qs, bookings, fromStr, toStr, parse)
  {
    match ParseWindow(fromStr, toStr, parse)
    case Rejected =>
    case Window(f, t) =>
      if !(f.None? && t.None?) {
        FilterTwice(qs, (s: Space) => Available(bookings, s.id, f, t));
      }
  }

  /**
   * The raw query parameters of the space search, as the request carries
   * them; `None` is a parameter that is absent.  `min_capacity` is taken as
   * already read as a number.
   */
  datatype SearchParams = SearchParams(
    q: Option<string>,
    minCapacity: Option<int>,
    city: Option<string>,
    item: Option<string>,
    dateFrom: Option<string>,
    dateTo: Option<string>)

  /** Some date parameter is given once cleaned, so `date_filter` runs. */
  predicate DatesGiven(p: SearchParams)
  {
    Given(Cleaned(p.dateFrom)) || Given(Cleaned(p.dateTo))
  }

  /**
   * The criteria a space must meet to be listed: each text filter with its
   * cleaned value, the capacity bound, and, when `date_filter` runs, a window
   * parsed from the raw date strings that no confirmed booking of the space
   * conflicts with.
   */
  predicate Qualifies(s: Space, bookings: seq<Booking>, p: SearchParams, parse: string -> Option<int>)
  {
    && (Given(Cleaned(p.q)) ==> MatchesText(s, Cleaned(p.q).value))
    && (p.minCapacity.Some? ==> s.capacity >= p.minCapacity.value)
    && (Given(Cleaned(p.city)) ==> EqualIgnoringCase(s.building.city, Cleaned(p.city).value))
    && (Given(Cleaned(p.item)) ==> HasItem(s, Cleaned(p.item).value))
    && (DatesGiven(p) ==>
          && ParseWindow(p.dateFrom, p.dateTo, parse).Window?
          && Available(bookings, s.id, ParseWindow(p.dateFrom, p.dateTo, parse).from, ParseWindow(p.dateFrom, p.dateTo, parse).to))
  }

  /** `q`, `min_capacity`, `city` and `item`, in field order, each only when given. */
  function TextFilters(qs: seq<Space>, p: SearchParams): (r: seq<Space>)
    ensures forall s :: s in r <==>
      && s in qs
      && (Given(Cleaned(p.q)) ==> MatchesText(s, Cleaned(p.q).value))
      && (p.minCapacity.Some? ==> s.capacity >= p.minCapacity.value)
      && (Given(Cleaned(p.city)) ==> EqualIgnoringCase(s.building.city, Cleaned(p.city).value))
      && (Given(Cleaned(p.item)) ==> HasItem(s, Cleaned(p.item).value))
  {
    var q, city, item := Cleaned(p.q), Cleaned(p.city), Cleaned(p.item);
    var q1 := if Given(q) then SearchFilter(qs, q.value) else qs;
    var q2 := if p.minCapacity.Some? then MinCapacity(q1, p.minCapacity.value) else q1;
    var q3 := if Given(city) then CityFilter(q2, city.value) else q2;
    if Given(item) then ItemFilter(q3, item.value) else q3
  }

  /**
   * The filter set: a space is listed exactly when it is in the queryset
   * and meets every given criterion.  `date_filter` is bound to both
   * `date_from` and `date_to`, so with both given it runs twice; it reads
   * the raw strings, while the decision to run it uses the cleaned ones.
   */
  function Search(qs: seq<Space>, bookings: seq<Booking>, p: SearchParams, parse: string -> Option<int>): (r: seq<Space>)
    ensures forall s :: s in r <==> s in qs && Qualifies(s, bookings, p, parse)
    ensures DatesGiven(p) && ParseWindow(p.dateFrom, p.dateTo, parse).Rejected? ==> r == []
  {
    var q4 := TextFilters(qs, p);
    var q5 := if Given(Cleaned(p.dateFrom)) then DateFilter(q4, bookings, p.dateFrom, p.dateTo, parse) else q4;
    if Given(Cleaned(p.dateTo)) then DateFilter(q5, bookings, p.dateFrom, p.dateTo, parse) else q5
  }

  /**
   * A search by dates alone is exactly one `date_filter` pass when a date is
   * given, and the whole queryset when both dates are blank.
   */
  lemma SearchByDatesOnly(qs: seq<Space>, bookings: seq<Booking>, p: SearchParams, parse: string -> Option<int>)
    requires !Given(Cleaned(p.q)) && p.minCapacity.None? && !Given(Cleaned(p.city)) && !Given(Cleaned(p.item))
    ensures DatesGiven(p) ==> Search(qs, bookings, p, parse) == DateFilter(qs, bookings, p.dateFrom, p.dateTo, parse)
    ensures !DatesGiven(p) ==> Search(qs, bookings, p, parse) == qs
  {
    if Given(Cleaned(p.dateFrom)) && Given(Cleaned(p.dateTo)) {
      DateFilterIdempotent(qs, bookings, p.dateFrom, p.dateTo, parse);
    }
  }
}
