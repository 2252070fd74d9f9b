/**
 * The tables of backend/bron/models.py that the booking, review, favourite
 * and event logic works on, their status enumerations and defaults, the
 * `Booking.clean` range check, the visibility manager, `Building.__str__`
 * and the post-save receiver that gives every new user a profile.
 *
 * Instants are microseconds since 1970-01-01 00:00 UTC, the resolution of
 * `timezone.now()`; a date parsed with the format `%Y-%m-%d %H:%M` is a whole
 * number of minutes.  Row identities are `nat`.
 */
module Models {
  import opened Tables

  /** One minute in the unit of instants. */
  const Minute: int := 60_000_000

  type UserId = nat
  type SpaceId = nat
  type EventId = nat
  type OrganizerId = nat

  /** `Booking.Status`: the four codes stored in the three-character column. */
  datatype BookingStatus = NewBook | CanceledBeforeConfirmation | Confirmation | CancelAfterConfirmation

  function BookingCode(s: BookingStatus): (code: string)
    ensures 1 <= |code| <= 3
  {
    match s
    case NewBook => "NB"
    case CanceledBeforeConfirmation => "CBC"
    case Confirmation => "C"
    case CancelAfterConfirmation => "CAC"
  }

  /** Reading the column back: only the four declared codes are statuses. */
  function ParseBookingCode(code: string): (r: Option<BookingStatus>)
    ensures r.Some? <==> code in {"NB", "CBC", "C", "CAC"}
    ensures r.Some? ==> BookingCode(r.value) == code
  {
    if code == "NB" then Some(NewBook)
    else if code == "CBC" then Some(CanceledBeforeConfirmation)
    else if code == "C" then Some(Confirmation)
    else if code == "CAC" then Some(CancelAfterConfirmation)
    else None
  }

  lemma BookingCodeRoundTrip(s: BookingStatus)
    ensures ParseBookingCode(BookingCode(s)) == Some(s)
  {
  }

  /** `Registration.Status`: same shape, but the new state is "NR". */
  datatype RegistrationStatus = NewReg | RegCanceledBeforeConfirmation | RegConfirmation | RegCancelAfterConfirmation

  function RegistrationCode(s: RegistrationStatus): (code: string)
    ensures 1 <= |code| <= 3
  {
    match s
    case NewReg => "NR"
    case RegCanceledBeforeConfirmation => "CBC"
    case RegConfirmation => "C"
    case RegCancelAfterConfirmation => "CAC"
  }

  function ParseRegistrationCode(code: string): (r: Option<RegistrationStatus>)
    ensures r.Some? <==> code in {"NR", "CBC", "C", "CAC"}
    ensures r.Some? ==> RegistrationCode(r.value) == code
  {
    if code == "NR" then Some(NewReg)
    else if code == "CBC" then Some(RegCanceledBeforeConfirmation)
    else if code == "C" then Some(RegConfirmation)
    else if code == "CAC" then Some(RegCancelAfterConfirmation)
    else None
  }

  lemma RegistrationCodeRoundTrip(s: RegistrationStatus)
    ensures ParseRegistrationCode(RegistrationCode(s)) == Some(s)
  {
  }

  datatype Building = Building(city: string, street: string, house: string)

  /** `Building.__str__`: "city, street, house". */
  function BuildingLabel(b: Building): (r: string)
    ensures |r| == |b.city| + |b.street| + |b.house| + 4
    ensures r[..|b.city|] == b.city
    ensures r[|b.city|..|b.city| + 2] == ", "
    ensures r[|b.city| + 2..|b.city| + 2 + |b.street|] == b.street
    ensures r[|r| - |b.house| - 2..|r| - |b.house|] == ", "
    ensures r[|r| - |b.house|..] == b.house
  {
    b.city + ", " + b.street + ", " + b.house
  }

  /** A space with the fields the search filters read; `items` are the names of its features. */
  datatype Space = Space(
    id: SpaceId,
    name: string,
    description: string,
    capacity: int,
    items: seq<string>,
    building: Building,
    isVisible: bool)

  /** A space as created with every defaulted field left alone: capacity 0, hidden. */
  function NewSpace(id: SpaceId, name: string, description: string, building: Building): Space
  {
    Space(id, name, description, 0, [], building, false)
  }

  /** `VisiableManager.get_queryset`: the spaces with `is_visiable` set. */
  function CheckVisible(spaces: seq<Space>): (r: seq<Space>)
    ensures forall s :: s in r <==> s in spaces && s.isVisible
  {
    Filter(spaces, (s: Space) => s.isVisible)
  }

  /** A freshly created space is never listed by the visibility manager. */
  lemma NewSpaceHidden(spaces: seq<Space>, id: SpaceId, name: string, description: string, building: Building)
    ensures NewSpace(id, name, description, building) !in CheckVisible(spaces + [NewSpace(id, name, description, building)])
    ensures forall s :: s in CheckVisible(spaces + [NewSpace(id, name, description, building)]) <==> s in CheckVisible(spaces)
  {
  }

  datatype Booking = Booking(
    id: nat,
    user: UserId,
    space: SpaceId,
    dateFrom: int,
    dateTo: int,
    bookDate: int,
    status: BookingStatus)

  /** `Booking.objects.create(...)` with the status column left at its default. */
  function NewBooking(id: nat, user: UserId, space: SpaceId, dateFrom: int, dateTo: int, bookDate: int): (b: Booking)
    ensures b.status == NewBook && BookingCode(b.status) == "NB"
  {
    Booking(id, user, space, dateFrom, dateTo, bookDate, NewBook)
  }

  /**
   * A booking with both date columns defaulted.  Django calls the
   * `timezone.now` default once per field, so `dateFrom` and `dateTo` are two
   * successive clock reads `first <= second`.
   */
  function DefaultDatesBooking(id: nat, user: UserId, space: SpaceId, first: int, second: int, bookDate: int): Booking
  {
    NewBooking(id, user, space, first, second, bookDate)
  }

  datatype CleanResult = CleanOk | ValidationError(message: string)

  /** `Booking.clean`: the start must come strictly before the end. */
  function Clean(b: Booking): (r: CleanResult)
    ensures r.ValidationError? <==> b.dateFrom >= b.dateTo
  {
    if b.dateFrom >= b.dateTo then ValidationError("Дата начала должна быть раньше даты окончания")
    else CleanOk
  }

  /**
   * With both dates defaulted, `clean` rejects exactly when the two clock
   * reads fall on the same instant; any later second read passes.
   */
  lemma DefaultDatesClean(id: nat, user: UserId, space: SpaceId, first: int, second: int, bookDate: int)
    requires first <= second
    ensures Clean(DefaultDatesBooking(id, user, space, first, second, bookDate)).ValidationError? <==> first == second
  {
  }

  datatype Registration = Registration(id: nat, user: UserId, event: EventId, regDate: int, status: RegistrationStatus)

  /** `Registration.objects.create(...)` with the status column left at its default. */
  function NewRegistration(id: nat, user: UserId, event: EventId, regDate: int): (r: Registration)
    ensures r.status == NewReg && RegistrationCode(r.status) == "NR"
  {
    Registration(id, user, event, regDate, NewReg)
  }

  datatype Event = Event(
    id: EventId,
    name: string,
    description: string,
    date: int,
    space: SpaceId,
    org: OrganizerId,
    addDate: int,
    isVisible: bool)

  datatype Organizer = Organizer(id: OrganizerId, name: string, head: UserId)

  datatype Profile = Profile(user: UserId, patronymic: string, telephone: string, orgStatus: bool, adminStatus: bool)

  /** The profile row `Profile.objects.create(user=instance)` inserts. */
  function DefaultProfile(user: UserId): (p: Profile)
    ensures p.user == user && !p.orgStatus && !p.adminStatus
  {
    Profile(user, "", "", false, false)
  }

  /** The user and profile tables together with the `post_save` receivers on User. */
  class Accounts {
    var users: seq<UserId>
    var profiles: seq<Profile>
    var nextUserId: nat

    /** Every user has exactly one profile, and every profile belongs to a user. */
    ghost predicate Valid()
      reads this
    {
      && (forall i :: 0 <= i < |users| ==> users[i] < nextUserId)
      && (forall i, j :: 0 <= i < j < |users| ==> users[i] != users[j])
      && (forall i :: 0 <= i < |profiles| ==> profiles[i].user in users)
      && (forall u :: u in users ==> ProfileCount(profiles, u) == 1)
    }

    constructor ()
      ensures Valid() && users == [] && profiles == []
    {
      users, profiles, nextUserId := [], [], 0;
    }

    /** `create_user_profile`: on a creating save, insert the user's profile. */
    method CreateUserProfile(user: UserId, created: bool)
      modifies this`profiles
      ensures profiles == if created then old(profiles) + [DefaultProfile(user)] else old(profiles)
    {
      if created {
        profiles := profiles + [DefaultProfile(user)];
      }
    }

    /**
     * Creating a user: insert the user row, then run the receiver with
     * `created` set.  (`save_user_profile` only re-saves that profile.)
     */
    method CreateUser() returns (u: UserId)
      requires Valid()
      modifies this
      ensures Valid()
      ensures u !in old(users) && users == old(users) + [u]
      ensures profiles == old(profiles) + [DefaultProfile(u)]
      ensures ProfileCount(profiles, u) == 1
    {
      u := nextUserId;
      users := users + [u];
      nextUserId := nextUserId + 1;
      ghost var before := profiles;
      CreateUserProfile(u, true);
      forall v | v in users
        ensures ProfileCount(profiles, v) == 1
      {
        ProfileCountAppend(before, DefaultProfile(u), v);
        if v != u {
          assert v in old(users);
        } else {
          assert ProfileCount(before, u) == 0 by {
            ProfileCountZero(before, u);
          }
        }
      }
    }
  }

  function ProfileCount(profiles: seq<Profile>, u: UserId): nat
  {
    Count(profiles, (p: Profile) => p.user == u)
  }

  lemma ProfileCountAppend(profiles: seq<Profile>, p: Profile, u: UserId)
    ensures ProfileCount(profiles + [p], u) == ProfileCount(profiles, u) + (if p.user == u then 1 else 0)
  {
    CountAppend(profiles, p, (q: Profile) => q.user == u);
  }

  lemma ProfileCountZero(profiles: seq<Profile>, u: UserId)
    requires forall i :: 0 <= i < |profiles| ==> profiles[i].user != u
    ensures ProfileCount(profiles, u) == 0
  {
  }
}
