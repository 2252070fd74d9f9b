/**
 * The request handlers of backend/bron/views.py that change or guard table
 * state: `SpaceViewSet.book`, `NewBookingViewSet.conf`/`canc` and its
 * queryset, `set_cover`, `toggle_favourite` and `add_comment`, with the
 * `IsAdminUserCustom` permission.  Each table the handlers write is a class
 * holding the rows as a `seq`.  The clock (`now`) and the date parser are
 * parameters; identities of new rows come from an auto-increment counter.
 */
module Views {
  import opened Tables
  import opened Models
  import opened Availability
  import Filters

  /**
   * `IsAdminUserCustom.has_permission`: signed in, has a profile, and it has
   * the admin flag.  `user.user_profile` is the user's first profile row.
   */
  predicate IsAdmin(profiles: seq<Profile>, actor: Option<UserId>): (r: bool)
    ensures r <==>
      && actor.Some?
      && exists k ::
           && 0 <= k < |profiles| && profiles[k].user == actor.value && profiles[k].adminStatus
           && forall j :: 0 <= j < k ==> profiles[j].user != actor.value
  {
    actor.Some? &&
    match Find(profiles, (p: Profile) => p.user == actor.value)
    case None => false
    case Some(k) => profiles[k].adminStatus
  }

  /** A newly registered user is never an admin. */
  lemma NewUserIsNotAdmin(profiles: seq<Profile>, u: UserId)
    requires forall k :: 0 <= k < |profiles| ==> profiles[k].user != u
    ensures !IsAdmin(profiles + [DefaultProfile(u)], Some(u))
  {
    var p := (q: Profile) => q.user == u;
    var all := profiles + [DefaultProfile(u)];
    var k := Find(all, p);
    assert p(all[|profiles|]);
    assert k.Some? && k.value == |profiles|;
  }

  /** `self.get_object()` on `SpaceViewSet`: the visible space with identity `pk`. */
  function GetVisibleSpace(spaces: seq<Space>, pk: SpaceId): (r: Option<Space>)
    ensures r.Some? ==> r.value in spaces && r.value.isVisible && r.value.id == pk
    ensures r.None? <==> forall s :: s in spaces && s.isVisible ==> s.id != pk
  {
    var visible := CheckVisible(spaces);
    match Find(visible, (s: Space) => s.id == pk)
    case None => None
    case Some(k) => Some(visible[k])
  }

  // ---------------------------------------------------------------------
  // SpaceViewSet.book
  // ---------------------------------------------------------------------

  datatype BookError = SpaceNotFound | BadDateFormat | BadRange | Occupied

  /** The decision `book` reaches before it writes anything. */
  datatype BookDecision = Reject(error: BookError) | Accept(from: int, to: int)

  /**
   * `strptime` of a required request field: a missing field is a `TypeError`
   * and an unparseable one a `ValueError`, and both are caught as a format error.
   */
  function ParseRequired(s: Option<string>, parse: string -> Option<int>): (r: Option<int>)
    ensures s.Some? ==> r == parse(s.value)
    ensures s.None? ==> r.None?
  {
    if s.None? then None else parse(s.value)
  }

  /**
   * The checks of `book` in their order: the space (404), the two dates
   * (400), the range (400), then the conflict lookup among CONFIRMED bookings
   * of this space (400).  Both dates are always present once parsed, so only
   * the two-bound overlap rule is ever applied.
   */
  function Decide(spaces: seq<Space>, bookings: seq<Booking>, pk: SpaceId, fromStr: Option<string>,
                  toStr: Option<string>, parse: string -> Option<int>): (d: BookDecision)
    ensures d == Reject(SpaceNotFound) <==> GetVisibleSpace(spaces, pk).None?
    ensures d == Reject(BadDateFormat) <==>
      GetVisibleSpace(spaces, pk).Some? && (ParseRequired(fromStr, parse).None? || ParseRequired(toStr, parse).None?)
    ensures d == Reject(BadRange) <==>
      && GetVisibleSpace(spaces, pk).Some?
      && ParseRequired(fromStr, parse).Some? && ParseRequired(toStr, parse).Some?
      && ParseRequired(fromStr, parse).value >= ParseRequired(toStr, parse).value
    ensures d == Reject(Occupied) <==>
      && GetVisibleSpace(spaces, pk).Some?
      && ParseRequired(fromStr, parse).Some? && ParseRequired(toStr, parse).Some?
      && var f, t := ParseRequired(fromStr, parse).value, ParseRequired(toStr, parse).value;
      && f < t
      && exists b :: b in bookings && b.space == pk && b.status == Confirmation && !(b.dateTo <= f || b.dateFrom >= t)
    ensures d.Accept? ==>
      && GetVisibleSpace(spaces, pk).Some?
      && ParseRequired(fromStr, parse) == Some(d.from) && ParseRequired(toStr, parse) == Some(d.to)
      && d.from < d.to
      && forall b :: b in bookings && b.space == pk && b.status == Confirmation ==> b.dateTo <= d.from || b.dateFrom >= d.to
  {
    if GetVisibleSpace(spaces, pk).None? then Reject(SpaceNotFound)
    else
      var f := ParseRequired(fromStr, parse);
      var t := ParseRequired(toStr, parse);
      if f.None? || t.None? then Reject(BadDateFormat)
      else if f.value >= t.value then Reject(BadRange)
      else if Busy(bookings, pk, f, t) then Reject(Occupied)
      else Accept(f.value, t.value)
  }

  /** A reversed or empty range is refused whatever the booking table holds. */
  lemma RangeCheckedBeforeConflicts(spaces: seq<Space>, b1: seq<Booking>, b2: seq<Booking>, pk: SpaceId,
                                    fromStr: Option<string>, toStr: Option<string>, parse: string -> Option<int>)
    ensures Decide(spaces, b1, pk, fromStr, toStr, parse) == Reject(BadRange)
        <==> Decide(spaces, b2, pk, fromStr, toStr, parse) == Reject(BadRange)
    ensures Decide(spaces, b1, pk, fromStr, toStr, parse) == Reject(BadDateFormat)
        <==> Decide(spaces, b2, pk, fromStr, toStr, parse) == Reject(BadDateFormat)
  {
  }

  datatype BookResponse = Failed(error: BookError) | Created(booking: Booking)

  /** The HTTP status `book` answers with. */
  function BookStatusCode(r: BookResponse): (code: int)
    ensures code == 201 <==> r.Created?
    ensures code == 404 <==> r == Failed(SpaceNotFound)
    ensures r.Failed? && r.error != SpaceNotFound ==> code == 400
  {
    match r
    case Created(_) => 201
    case Failed(SpaceNotFound) => 404
    case Failed(_) => 400
  }

  /**
   * The NEW bookings starting at or after `cutoff`.  `conf`/`canc` answer
   * with this list for a cutoff read from the clock on each request.  The
   * view set's own `queryset` has the same filter, but its `timezone.now()`
   * is evaluated once, when the class is defined, so its cutoff is the time
   * the server started.
   */
  function PendingBookings(bookings: seq<Booking>, cutoff: int): (r: seq<Booking>)
    ensures forall b :: b in r <==> b in bookings && b.status == NewBook && b.dateFrom >= cutoff
  {
    Filter(bookings, (b: Booking) => b.status == NewBook && b.dateFrom >= cutoff)
  }

  /** The row at `i` with its status column replaced. */
  function WithStatus(bookings: seq<Booking>, i: nat, s: BookingStatus): (r: seq<Booking>)
    requires i < |bookings|
    ensures |r| == |bookings| && r[i].status == s
    ensures r[i].(status := bookings[i].status) == bookings[i]
    ensures forall k :: 0 <= k < |r| && k != i ==> r[k] == bookings[k]
  {
    bookings[i := bookings[i].(status := s)]
  }

  datatype StatusResponse = Forbidden | BookingNotFound | Updated(pending: seq<Booking>)

  /** The booking table with the handlers that insert a booking or change its status. */
  class BookingTable {
    var bookings: seq<Booking>
    var nextId: nat

    /** Identities are distinct and below the auto-increment counter. */
    ghost predicate Valid()
      reads this
    {
      && (forall k :: 0 <= k < |bookings| ==> bookings[k].id < nextId)
      && (forall j, k :: 0 <= j < k < |bookings| ==> bookings[j].id != bookings[k].id)
    }

    constructor ()
      ensures Valid() && bookings == [] && nextId == 0
    {
      bookings, nextId := [], 0;
    }

    /**
     * `SpaceViewSet.book`: on acceptance exactly one NEW booking with the
     * given user, space and dates is appended; every existing row is kept.
     */
    method Book(spaces: seq<Space>, pk: SpaceId, user: UserId, fromStr: Option<string>, toStr: Option<string>,
                parse: string -> Option<int>, now: int) returns (resp: BookResponse)
      requires Valid()
      modifies this
      ensures Valid()
      ensures var d := Decide(spaces, old(bookings), pk, fromStr, toStr, parse);
        && (d.Reject? ==> resp == Failed(d.error) && bookings == old(bookings) && nextId == old(nextId))
        && (d.Accept? ==>
              && resp == Created(NewBooking(old(nextId), user, pk, d.from, d.to, now))
              && bookings == old(bookings) + [resp.booking]
              && nextId == old(nextId) + 1)
    {
      var space := GetVisibleSpace(spaces, pk);
      if space.None? {
        return Failed(SpaceNotFound);
      }
      var dateFrom := ParseRequired(fromStr, parse);
      var dateTo := ParseRequired(toStr, parse);
      if dateFrom.None? || dateTo.None? {
        return Failed(BadDateFormat);
      }
      if dateFrom.value >= dateTo.value {
        return Failed(BadRange);
      }
      var conflict := exists k :: 0 <= k < |bookings| && bookings[k].space == pk && Conflicts(bookings[k], dateFrom, dateTo);
      if conflict {
        return Failed(Occupied);
      }
      var b := NewBooking(nextId, user, pk, dateFrom.value, dateTo.value, now);
      bookings := bookings + [b];
      nextId := nextId + 1;
      resp := Created(b);
    }

    /**
     * The shared body of `conf` and `canc`.  The view's permission class runs
     * before the handler, so a non-admin is refused before the lookup; then a
     * missing booking is 404; otherwise the status is overwritten whatever it was.
     */
    method SetStatus(pk: nat, target: BookingStatus, isAdmin: bool, now: int) returns (resp: StatusResponse)
      requires Valid()
      modifies this`bookings
      ensures Valid()
      ensures !isAdmin ==> resp == Forbidden && bookings == old(bookings)
      ensures isAdmin ==>
        match Find(old(bookings), (b: Booking) => b.id == pk)
        case None => resp == BookingNotFound && bookings == old(bookings)
        case Some(k) => bookings == WithStatus(old(bookings), k, target) && resp == Updated(PendingBookings(bookings, now))
    {
      if !isAdmin {
        return Forbidden;
      }
      var found := Find(bookings, (b: Booking) => b.id == pk);
      if found.None? {
        return BookingNotFound;
      }
      bookings := WithStatus(bookings, found.value, target);
      resp := Updated(PendingBookings(bookings, now));
    }

    /** `conf`: set the status to CONFIRMED ("C"). */
    method Confirm(pk: nat, isAdmin: bool, now: int) returns (resp: StatusResponse)
      requires Valid()
      modifies this`bookings
      ensures Valid()
      ensures !isAdmin ==> resp == Forbidden && bookings == old(bookings)
      ensures isAdmin ==>
        match Find(old(bookings), (b: Booking) => b.id == pk)
        case None => resp == BookingNotFound && bookings == old(bookings)
        case Some(k) => bookings == WithStatus(old(bookings), k, Confirmation) && resp == Updated(PendingBookings(bookings, now))
    {
      resp := SetStatus(pk, Confirmation, isAdmin, now);
    }

    /** `canc`: set the status to CANCELED BEFORE CONFIRMATION ("CBC"), even for a confirmed booking. */
    method Cancel(pk: nat, isAdmin: bool, now: int) returns (resp: StatusResponse)
      requires Valid()
      modifies this`bookings
      ensures Valid()
      ensures !isAdmin ==> resp == Forbidden && bookings == old(bookings)
      ensures isAdmin ==>
        match Find(old(bookings), (b: Booking) => b.id == pk)
        case None => resp == BookingNotFound && bookings == old(bookings)
        case Some(k) => bookings == WithStatus(old(bookings), k, CanceledBeforeConfirmation) && resp == Updated(PendingBookings(bookings, now))
    {
      resp := SetStatus(pk, CanceledBeforeConfirmation, isAdmin, now);
    }
  }

  /** Confirming a well-formed booking makes its own window busy for its space. */
  lemma ConfirmBlocksOwnWindow(bookings: seq<Booking>, i: nat)
    requires i < |bookings| && bookings[i].dateFrom < bookings[i].dateTo
    ensures var b := bookings[i];
      Busy(WithStatus(bookings, i, Confirmation), b.space, Some(b.dateFrom), Some(b.dateTo))
  {
    var r := WithStatus(bookings, i, Confirmation);
    assert r[i] in r;
  }

  /** Confirming never frees a window; cancelling never blocks one. */
  lemma StatusChangeMonotone(bookings: seq<Booking>, i: nat, space: SpaceId, wf: Option<int>, wt: Option<int>)
    requires i < |bookings|
    ensures Busy(bookings, space, wf, wt) ==> Busy(WithStatus(bookings, i, Confirmation), space, wf, wt)
    ensures Busy(WithStatus(bookings, i, CanceledBeforeConfirmation), space, wf, wt) ==> Busy(bookings, space, wf, wt)
  {
    var c := WithStatus(bookings, i, Confirmation);
    var x := WithStatus(bookings, i, CanceledBeforeConfirmation);
    if Busy(bookings, space, wf, wt) {
      var b :| b in bookings && b.space == space && Conflicts(b, wf, wt);
      var k :| 0 <= k < |bookings| && bookings[k] == b;
      assert c[k].space == space && Conflicts(c[k], wf, wt);
      assert c[k] in c;
    }
    if Busy(x, space, wf, wt) {
      var b :| b in x && b.space == space && Conflicts(b, wf, wt);
      var k :| 0 <= k < |x| && x[k] == b;
      assert k != i;
      assert bookings[k] in bookings;
    }
  }

  /**
   * With both bounds, the search keeps a space exactly when `book` would
   * accept the same window for it (the space being visible and the strings
   * parsing the same way in both).
   */
  lemma SearchAgreesWithBook(spaces: seq<Space>, bookings: seq<Booking>, s: Space, fs: string, ts: string,
                             parse: string -> Option<int>)
    requires s in spaces && s.isVisible && (forall o :: o in spaces && o.isVisible && o.id == s.id ==> o == s)
    requires fs != "" && ts != ""
    ensures s in Filters.DateFilter(CheckVisible(spaces), bookings, Some(fs), Some(ts), parse)
        <==> Decide(spaces, bookings, s.id, Some(fs), Some(ts), parse).Accept?
  {
  }

  // ---------------------------------------------------------------------
  // set_cover
  // ---------------------------------------------------------------------

  datatype SpaceImage = SpaceImage(id: nat, space: SpaceId, cover: bool)

  /** `ImageForSpaces.objects.filter(space_id=pk, cover=True).update(cover=False)`. */
  function ClearCovers(images: seq<SpaceImage>, pk: SpaceId): (r: seq<SpaceImage>)
    ensures |r| == |images|
    ensures forall k :: 0 <= k < |r| && r[k].space == pk ==> !r[k].cover
    ensures forall k :: 0 <= k < |r| && images[k].space != pk ==> r[k] == images[k]
    ensures forall k :: 0 <= k < |r| ==> r[k].(cover := images[k].cover) == images[k]
  {
    seq(|images|, k requires 0 <= k < |images| =>
      if images[k].space == pk && images[k].cover then images[k].(cover := false) else images[k])
  }

  datatype CoverResponse = ImageNotFound | CoverForbidden | CoverSet(image: SpaceImage)

  class SpaceImageTable {
    var images: seq<SpaceImage>

    /** Image identities are distinct. */
    ghost predicate Valid()
      reads this
    {
      forall j, k :: 0 <= j < k < |images| ==> images[j].id != images[k].id
    }

    constructor (rows: seq<SpaceImage>)
      requires forall j, k :: 0 <= j < k < |rows| ==> rows[j].id != rows[k].id
      ensures Valid() && images == rows
    {
      images := rows;
    }

    /**
     * `set_cover(pk, image_id)`: 404 unless the image belongs to space `pk`,
     * 403 for a non-admin, else that image becomes the only cover of the
     * space; images of other spaces and every other column are unchanged.
     */
    method SetCover(pk: SpaceId, imageId: nat, isAdmin: bool) returns (resp: CoverResponse)
      requires Valid()
      modifies this
      ensures Valid()
      ensures var k := Find(old(images), (im: SpaceImage) => im.id == imageId && im.space == pk);
        && (k.None? ==> resp == ImageNotFound && images == old(images))
        && (k.Some? && !isAdmin ==> resp == CoverForbidden && images == old(images))
        && (k.Some? && isAdmin ==>
              && |images| == |old(images)|
              && resp == CoverSet(images[k.value])
              && images[k.value].cover
              && (forall j :: 0 <= j < |images| && images[j].space == pk ==> (images[j].cover <==> j == k.value))
              && (forall j :: 0 <= j < |images| && old(images)[j].space != pk ==> images[j] == old(images)[j])
              && (forall j :: 0 <= j < |images| ==> images[j].(cover := old(images)[j].cover) == old(images)[j]))
    {
      var found := Find(images, (im: SpaceImage) => im.id == imageId && im.space == pk);
      if found.None? {
        return ImageNotFound;
      }
      if !isAdmin {
        return CoverForbidden;
      }
      var k := found.value;
      images := ClearCovers(images, pk);
      images := images[k := images[k].(cover := true)];
      resp := CoverSet(images[k]);
    }
  }

  /** The identities of the cover images of a space. */
  function CoverIds(images: seq<SpaceImage>, pk: SpaceId): set<nat>
  {
    set k | 0 <= k < |images| && images[k].space == pk && images[k].cover :: images[k].id
  }

  /** After the two steps of `set_cover`, the chosen image is the space's only cover. */
  lemma SetCoverSingleCover(images: seq<SpaceImage>, pk: SpaceId, k: nat)
    requires k < |images| && images[k].space == pk
    ensures var cleared := ClearCovers(images, pk);
      CoverIds(cleared[k := cleared[k].(cover := true)], pk) == {images[k].id}
  {
    var cleared := ClearCovers(images, pk);
    var r := cleared[k := cleared[k].(cover := true)];
    assert r[k].space == pk && r[k].cover;
    assert images[k].id in CoverIds(r, pk);
  }

  // ---------------------------------------------------------------------
  // toggle_favourite
  // ---------------------------------------------------------------------

  datatype Favourite = Favourite(id: nat, user: UserId, event: Option<EventId>, space: Option<SpaceId>)

  predicate IsFavOf(f: Favourite, user: UserId, pk: SpaceId)
  {
    f.user == user && f.space == Some(pk)
  }

  function FavCount(favs: seq<Favourite>, user: UserId, pk: SpaceId): nat
  {
    Count(favs, (f: Favourite) => IsFavOf(f, user, pk))
  }

  /** The (user, space) pairs the favourite table records. */
  function Pairs(favs: seq<Favourite>): set<(UserId, SpaceId)>
  {
    set k | 0 <= k < |favs| && favs[k].space.Some? :: (favs[k].user, favs[k].space.value)
  }

  datatype ToggleResponse = FavSpaceNotFound | Added | Removed | MultipleFound

  /**
   * The table after the `get_or_create` and the optional `delete` of
   * `toggle_favourite`: a missing pair is inserted with the next identity, a
   * single matching row is deleted, and with several rows `get` fails and
   * nothing changes.
   */
  function Toggled(favs: seq<Favourite>, user: UserId, pk: SpaceId, newId: nat): (r: seq<Favourite>)
    ensures FavCount(favs, user, pk) == 0 ==> r == favs + [Favourite(newId, user, None, Some(pk))]
    ensures FavCount(favs, user, pk) == 1 ==>
      exists k :: 0 <= k < |favs| && IsFavOf(favs[k], user, pk) && r == RemoveAt(favs, k)
    ensures FavCount(favs, user, pk) > 1 ==> r == favs
  {
    var n := FavCount(favs, user, pk);
    if n == 0 then favs + [Favourite(newId, user, None, Some(pk))]
    else if n == 1 then
      var k := Find(favs, (f: Favourite) => IsFavOf(f, user, pk));
      RemoveAt(favs, k.value)
    else favs
  }

  /** A pair is recorded exactly when some row matches it. */
  lemma PairsMatch(favs: seq<Favourite>, user: UserId, pk: SpaceId)
    ensures (user, pk) in Pairs(favs) <==> FavCount(favs, user, pk) != 0
  {
    if (user, pk) in Pairs(favs) {
      var j :| 0 <= j < |favs| && favs[j].space.Some? && (user, pk) == (favs[j].user, favs[j].space.value);
      assert IsFavOf(favs[j], user, pk);
    }
    if FavCount(favs, user, pk) != 0 {
      var j :| 0 <= j < |favs| && IsFavOf(favs[j], user, pk);
      assert (favs[j].user, favs[j].space.value) in Pairs(favs);
    }
  }

  /** Appending a row for a space records its pair. */
  lemma PairsAppend(favs: seq<Favourite>, f: Favourite)
    requires f.space.Some?
    ensures Pairs(favs + [f]) == Pairs(favs) + {(f.user, f.space.value)}
  {
    var r := favs + [f];
    assert r[|favs|] == f;
    forall q | q in Pairs(r) ensures q in Pairs(favs) + {(f.user, f.space.value)} {
      var j :| 0 <= j < |r| && r[j].space.Some? && q == (r[j].user, r[j].space.value);
      if j < |favs| { assert r[j] == favs[j]; }
    }
    forall q | q in Pairs(favs) ensures q in Pairs(r) {
      var j :| 0 <= j < |favs| && favs[j].space.Some? && q == (favs[j].user, favs[j].space.value);
      assert r[j] == favs[j];
    }
  }

  /** Deleting the only row of a pair forgets the pair and no other. */
  lemma PairsRemove(favs: seq<Favourite>, user: UserId, pk: SpaceId, k: nat)
    requires k < |favs| && IsFavOf(favs[k], user, pk)
    requires forall j :: 0 <= j < |favs| && j != k ==> !IsFavOf(favs[j], user, pk)
    ensures Pairs(RemoveAt(favs, k)) == Pairs(favs) - {(user, pk)}
  {
    var r := RemoveAt(favs, k);
    forall q | q in Pairs(r) ensures q in Pairs(favs) - {(user, pk)} {
      var j :| 0 <= j < |r| && r[j].space.Some? && q == (r[j].user, r[j].space.value);
      var src := if j < k then j else j + 1;
      assert r[j] == favs[src] && src != k;
    }
    forall q | q in Pairs(favs) - {(user, pk)} ensures q in Pairs(r) {
      var j :| 0 <= j < |favs| && favs[j].space.Some? && q == (favs[j].user, favs[j].space.value);
      assert j != k;
      var dst := if j < k then j else j - 1;
      assert r[dst] == favs[j];
    }
  }

  /** Deleting the only row of a pair leaves no row for it. */
  lemma CountAfterRemove(favs: seq<Favourite>, user: UserId, pk: SpaceId, k: nat)
    requires k < |favs|
    requires forall j :: 0 <= j < |favs| && j != k ==> !IsFavOf(favs[j], user, pk)
    ensures FavCount(RemoveAt(favs, k), user, pk) == 0
  {
    var r := RemoveAt(favs, k);
    forall j | 0 <= j < |r| ensures !IsFavOf(r[j], user, pk) {
      var src := if j < k then j else j + 1;
      assert r[j] == favs[src] && src != k;
    }
  }

  /** Toggling adds a missing pair and removes a present one; other pairs stay. */
  lemma ToggledPairs(favs: seq<Favourite>, user: UserId, pk: SpaceId, newId: nat)
    requires FavCount(favs, user, pk) <= 1
    ensures (user, pk) !in Pairs(favs) ==> Pairs(Toggled(favs, user, pk, newId)) == Pairs(favs) + {(user, pk)}
    ensures (user, pk) in Pairs(favs) ==> Pairs(Toggled(favs, user, pk, newId)) == Pairs(favs) - {(user, pk)}
    ensures FavCount(Toggled(favs, user, pk, newId), user, pk) == 1 - FavCount(favs, user, pk)
  {
    var p := (f: Favourite) => IsFavOf(f, user, pk);
    var r := Toggled(favs, user, pk, newId);
    PairsMatch(favs, user, pk);
    if FavCount(favs, user, pk) == 0 {
      var f := Favourite(newId, user, None, Some(pk));
      CountAppend(favs, f, p);
      PairsAppend(favs, f);
    } else {
      var k :| 0 <= k < |favs| && IsFavOf(favs[k], user, pk) && r == RemoveAt(favs, k);
      CountOne(favs, p, k);
      PairsRemove(favs, user, pk, k);
      CountAfterRemove(favs, user, pk, k);
    }
  }

  /** Toggling the same favourite twice restores the recorded pairs. */
  lemma ToggleTwiceRestores(favs: seq<Favourite>, user: UserId, pk: SpaceId, id1: nat, id2: nat)
    ensures Pairs(Toggled(Toggled(favs, user, pk, id1), user, pk, id2)) == Pairs(favs)
  {
    if FavCount(favs, user, pk) <= 1 {
      ToggledPairs(favs, user, pk, id1);
      ToggledPairs(Toggled(favs, user, pk, id1), user, pk, id2);
    }
  }

  class FavouriteTable {
    var favourites: seq<Favourite>
    var nextId: nat

    /** Identities are distinct and below the auto-increment counter. */
    ghost predicate Valid()
      reads this
    {
      && (forall k :: 0 <= k < |favourites| ==> favourites[k].id < nextId)
      && (forall j, k :: 0 <= j < k < |favourites| ==> favourites[j].id != favourites[k].id)
    }

    constructor ()
      ensures Valid() && favourites == [] && nextId == 0
    {
      favourites, nextId := [], 0;
    }

    /** `toggle_favourite`: 404 for a space that is not visible, else toggle the (user, space) row. */
    method ToggleFavourite(spaces: seq<Space>, pk: SpaceId, user: UserId) returns (resp: ToggleResponse)
      requires Valid()
      modifies this
      ensures Valid()
      ensures GetVisibleSpace(spaces, pk).None? ==>
        resp == FavSpaceNotFound && favourites == old(favourites) && nextId == old(nextId)
      ensures GetVisibleSpace(spaces, pk).Some? ==>
        && favourites == Toggled(old(favourites), user, pk, old(nextId))
        && var n := FavCount(old(favourites), user, pk);
        && (resp == Added <==> n == 0)
        && (resp == Removed <==> n == 1)
        && (resp == MultipleFound <==> n > 1)
        && nextId == if n == 0 then old(nextId) + 1 else old(nextId)
    {
      var space := GetVisibleSpace(spaces, pk);
      if space.None? {
        return FavSpaceNotFound;
      }
      var n := FavCount(favourites, user, pk);
      if n > 1 {
        return MultipleFound;
      }
      if n == 0 {
        favourites := favourites + [Favourite(nextId, user, None, Some(pk))];
        nextId := nextId + 1;
        return Added;
      }
      var k := Find(favourites, (f: Favourite) => IsFavOf(f, user, pk));
      favourites := RemoveAt(favourites, k.value);
      resp := Removed;
    }
  }

  // ---------------------------------------------------------------------
  // add_comment
  // ---------------------------------------------------------------------

  datatype Review = Review(id: nat, user: UserId, space: SpaceId, text: string, addDate: int, isVisible: bool)

  /** The review right: some CONFIRMED booking of this space by this user. */
  predicate HasConfirmedBooking(bookings: seq<Booking>, user: UserId, pk: SpaceId)
  {
    exists b :: b in bookings && b.user == user && b.space == pk && b.status == Confirmation
  }

  /** Confirming a booking gives its owner the right to review its space. */
  lemma ConfirmGrantsReview(bookings: seq<Booking>, i: nat)
    requires i < |bookings|
    ensures HasConfirmedBooking(WithStatus(bookings, i, Confirmation), bookings[i].user, bookings[i].space)
  {
    var r := WithStatus(bookings, i, Confirmation);
    assert r[i] in r;
  }

  /** NEW bookings (such as the ones `book` inserts) never give the right to review. */
  lemma NewBookingsGrantNothing(bookings: seq<Booking>, b: Booking, user: UserId, pk: SpaceId)
    requires b.status == NewBook
    ensures HasConfirmedBooking(bookings + [b], user, pk) <==> HasConfirmedBooking(bookings, user, pk)
  {
    if HasConfirmedBooking(bookings + [b], user, pk) {
      var c :| c in bookings + [b] && c.user == user && c.space == pk && c.status == Confirmation;
      assert c in bookings;
    }
  }

  datatype CommentResponse = CommentSpaceNotFound | EmptyReview | NotEligible | ReviewCreated(review: Review)

  class ReviewTable {
    var reviews: seq<Review>
    var nextId: nat

    /** Identities are distinct and below the auto-increment counter. */
    ghost predicate Valid()
      reads this
    {
      && (forall k :: 0 <= k < |reviews| ==> reviews[k].id < nextId)
      && (forall j, k :: 0 <= j < k < |reviews| ==> reviews[j].id != reviews[k].id)
    }

    constructor ()
      ensures Valid() && reviews == [] && nextId == 0
    {
      reviews, nextId := [], 0;
    }

    /**
     * `add_comment`: 404 for a space that is not visible, 400 for a missing
     * or empty text, 403 without a CONFIRMED booking of the space, else
     * exactly one visible review is appended.
     */
    method AddComment(spaces: seq<Space>, bookings: seq<Booking>, pk: SpaceId, user: UserId,
                      text: Option<string>, now: int) returns (resp: CommentResponse)
      requires Valid()
      modifies this
      ensures Valid()
      ensures GetVisibleSpace(spaces, pk).None? <==> resp == CommentSpaceNotFound
      ensures resp == EmptyReview <==> GetVisibleSpace(spaces, pk).Some? && (text.None? || text.value == "")
      ensures resp == NotEligible <==>
        GetVisibleSpace(spaces, pk).Some? && text.Some? && text.value != "" && !HasConfirmedBooking(bookings, user, pk)
      ensures resp.ReviewCreated? ==>
        && text.Some?
        && resp.review == Review(old(nextId), user, pk, text.value, now, true)
        && reviews == old(reviews) + [resp.review]
        && nextId == old(nextId) + 1
      ensures !resp.ReviewCreated? ==> reviews == old(reviews) && nextId == old(nextId)
    {
      var space := GetVisibleSpace(spaces, pk);
      if space.None? {
        return CommentSpaceNotFound;
      }
      if text.None? || text.value == "" {
        return EmptyReview;
      }
      var hasBooking := exists k :: 0 <= k < |bookings| && bookings[k].user == user && bookings[k].space == pk
                                    && bookings[k].status == Confirmation;
      if !hasBooking {
        return NotEligible;
      }
      var review := Review(nextId, user, pk, text.value, now, true);
      reviews := reviews + [review];
      nextId := nextId + 1;
      resp := ReviewCreated(review);
    }
  }
}
