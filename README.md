# bronitech booking core in Dafny

A model of the booking back end of bronitech, a Django service for reserving
rooms ("spaces") and publishing events. It covers:

- the status enumerations, defaults and validation of the tables
  (`backend/bron/models.py`);
- the space search filter set, including the date filter
  (`backend/bron/filters.py`);
- the request handlers that create bookings, confirm or cancel them, choose
  cover images, toggle favourites and accept reviews
  (`backend/bron/views.py`);
- the bulk actions of the administration site (`backend/bron/admin.py`).

Modules:

- `Tables` (tables.dfy): A table or queryset is a `seq` of rows in table order. `Filter` stands for `filter`/`exclude`, `Find` for `get`, `Count` for a row count.
- `Models` (models.dfy): Status codes and their round trip, `Building.__str__`, the visibility manager, `Booking.clean`, and the user/profile tables as a class.
- `Availability` (availability.dfy): The one conflict rule shared by the search and the booking handler, with its two-bound and one-sided cases.
- `Filters` (filters.dfy): `SpaceFilter`: text, capacity, city, feature and date filters, and the composed search.
- `Views` (views.dfy): One class per table the handlers write (bookings, space images, favourites, reviews), each with the handler methods.
- `Admin` (admin.dfy): The event and registration tables with the admin actions as methods, and the organiser check.
- `Scenarios` (scenarios.dfy): Concrete scenarios on 1 January 2025: two pending bookings, then a confirmation, then a refused overlap; touching and overlapping windows; a booking that ends half a minute past the hour; the one-sided search; blank and padded search parameters; the per-condition reading of the date filter.

### Conventions

- Instants are integers counting microseconds since 1970-01-01 00:00 UTC, the resolution of `timezone.now()`. `Models.Minute` is 60 000 000 of them. A date the request parser reads with `'%Y-%m-%d %H:%M'` is a whole number of minutes; clock reads and the stored dates built from them need not be.
- Date parsing (`strptime` followed by `make_aware`) is a parameter `parse: string -> Option<int>`. `None` means the string does not parse.
- The clock (`timezone.now()`) is a parameter `now`.
- Row identities are `nat` and come from an auto-increment counter held by each table class.
- Admin rights reach a handler as a boolean `isAdmin`. Its meaning, as `IsAdminUserCustom` computes it from the profile table, is `Views.IsAdmin`.

### Where the code decides differently from a plain reading

- **`conf`/`canc` check permission before lookup.** The handler bodies look up the booking first and check admin rights second. But the permission class `IsAdminUserCustom` is declared on the view set and on both actions, and the framework evaluates it before the handler runs. So a non-admin gets 403 even for a booking that does not exist. `Views.BookingTable.SetStatus` follows that order.
- **`set_cover` order depends on the view set.** Of the two copies, `SpaceViewSet.set_cover` (views.py:775-801) has no permission class for admins, so a missing image is 404 before the 403. That copy is the one modelled. The copy on the hidden-space view set (views.py:466-492) has admin permission on the view set, so it refuses non-admins first.
- **Default booking dates come from two clock reads.** `date_from` and `date_to` both default to `timezone.now`, and Django calls the default once per field. The two dates are therefore successive clock reads `first <= second`, not one shared instant. `Booking.clean` refuses such a row exactly when the two reads coincide (`Models.DefaultDatesClean`); at microsecond resolution that happens only when both reads fall in the same microsecond.
- **The date filter's `exclude` is read per booking.** It runs over the multi-valued `space_books` relation. The model reads it as "some single booking meets all the conditions", the test the booking handler applies, and that reading is what `Filters.DateFilter` and everything built on it implement. Django documents, for every backend, that the conditions of one `exclude()` across a multi-valued relation need not be met by the same related row. Under that reading, with only `date_from` given, a space is hidden when one booking is confirmed, another starts at or before the instant and a third ends after it. Example: a confirmed booking on 1 January [10:00, 12:00) and a NEW booking on 1 February [10:00, 12:00); with `date_from = 2025-02-01 11:00` no confirmed booking is running, yet the space is hidden. `Filters.DateFromFilterPerCondition` models that reading of filters.py:46-50, `Filters.PerConditionHidesMore` proves it hides at least what the per-booking reading hides, and `Scenarios.PerConditionHidesFreeHall` is the example above. The `date_to` branch (filters.py:52-56) has the same shape and the same pair: `Filters.DateToFilterPerCondition`, `Filters.PerConditionHidesMoreTo` and `Scenarios.PerConditionToHidesFreeHall`. See "## Findings".
- **Search parameters are cleaned before the filters see them.** Each `CharFilter` runs its value through `forms.CharField`, which strips surrounding whitespace (`str.strip`), and the filter is skipped when the cleaned value is empty. So `?q=%20hall` searches for "hall" (`Scenarios.PaddedQueryIsStripped`). `date_filter` re-reads the raw strings from `self.data`, but whether it runs is decided on the cleaned ones: `?date_from=%20` alone keeps every space (`Scenarios.BlankDateKeepsAll`), while `?date_from=%20&date_to=...` runs it on the raw blank and rejects the query.
- **The view set's list has a frozen cutoff.** `NewBookingViewSet.queryset` (views.py:888-891) calls `timezone.now()` once, when the class is defined, so its list keeps the NEW bookings starting after the server started. `conf` and `canc` (views.py:917-920, 947-950) read the clock on every request. `Views.PendingBookings` is the filter of both, for a cutoff given as a parameter; the model's `conf`/`canc` pass the request's `now`. This is read from the code, not executed.
- **Case folding depends on the database.** `icontains`/`iexact` are modelled as folding ASCII letters and the basic Cyrillic capitals (А–Я, Ё) to lower case. What the database actually folds depends on its backend and collation.
- **A reversed booking still blocks.** A confirmed booking stored with `date_from > date_to` can exist, because `objects.create` never calls `clean`. It still blocks every window that the two-bound test matches (`Availability.ReversedBookingBlocks`).
- **No reverse cancel transition in the handlers.** `canc` sets "CBC" whatever the prior status, and no handler in views.py sets "CAC". The admin change form for bookings (admin.py:104-110, registered at admin.py:214) leaves `status` editable, because its `readonly_fields` line is commented out, so an administrator can store any of the four codes there. The model follows the handlers; the form is listed under "## Left out".

## Model

| member | source | states |
|---|---|---|
| `Models.BookingCode` | backend/bron/models.py:147-151 | Each booking status is stored as a code of one to three characters. |
| `Models.ParseBookingCode` | backend/bron/models.py:147-151 | Exactly the four declared codes NB, CBC, C, CAC read back as a status, and each reads back to a status whose code it is. |
| `Models.BookingCodeRoundTrip` | backend/bron/models.py:147-151 | Storing a status and reading it back gives the same status. |
| `Models.RegistrationCode` | backend/bron/models.py:270-274 | Each registration status is stored as a code of one to three characters. |
| `Models.ParseRegistrationCode` | backend/bron/models.py:270-274 | Exactly NR, CBC, C, CAC read back as a registration status, consistently with `RegistrationCode`. |
| `Models.RegistrationCodeRoundTrip` | backend/bron/models.py:270-274 | The registration status round trip is the identity. |
| `Models.BuildingLabel` | backend/bron/models.py:59-60 | The label is city, ", ", street, ", ", house, and has exactly their lengths plus four. |
| `Models.CheckVisible` | backend/bron/models.py:76-81 | The manager lists exactly the spaces whose visibility flag is set. |
| `Models.NewSpace` | backend/bron/models.py:89-94 | Definition, no contract: a space created with capacity 0, no features and the visibility flag at its default False. |
| `Models.NewSpaceHidden` | backend/bron/models.py:89-94 | A space created with capacity and visibility at their defaults is not listed, and adding it changes nothing the manager lists. |
| `Models.NewBooking` | backend/bron/models.py:158 | A booking created without a status is NEW, stored as "NB". |
| `Models.Clean` | backend/bron/models.py:168-173 | Validation fails exactly when the start is not strictly before the end. |
| `Models.DefaultDatesBooking` | backend/bron/models.py:155-158 | Definition, no contract: a booking created with both dates left to their defaults, which are two successive clock reads, and the status at NEW. |
| `Models.DefaultDatesClean` | backend/bron/models.py:155-156 | With both dates defaulted from two clock reads, validation fails exactly when the two reads are equal. |
| `Models.NewRegistration` | backend/bron/models.py:279 | A registration created without a status is new, stored as "NR". |
| `Models.DefaultProfile` | backend/bron/models.py:15-21 | The inserted profile belongs to the user, and neither its organiser flag nor its admin flag is set. |
| `Models.Accounts.CreateUserProfile` | backend/bron/models.py:30-36 | One default profile is appended on a creating save, and nothing otherwise. |
| `Models.Accounts.CreateUser` | backend/bron/models.py:30-36 | A new user gets a fresh identity and exactly one profile. Every user keeps exactly one profile, and every profile still belongs to a user. |
| `Availability.Overlaps` | backend/bron/filters.py:37-56 | Definition, no contract: the date test per window shape. Both bounds: not (dateTo <= from or dateFrom >= to). Only `from`: dateFrom <= from < dateTo. Only `to`: dateFrom < to <= dateTo. No bound: never. |
| `Availability.Conflicts` | backend/bron/views.py:827-836 | Definition, no contract: the booking is CONFIRMED and overlaps the window. |
| `Availability.Busy` | backend/bron/views.py:827-836 | Definition, no contract: some booking of the space conflicts with the window. |
| `Availability.OverlapIsSharedInstant` | backend/bron/filters.py:37-44 | For well-formed ranges, the two-bound test holds exactly when the half-open booking interval and the window share an instant. |
| `Availability.TouchingEndsDoNotOverlap` | backend/bron/views.py:832-836 | A window that starts where a booking ends, or ends where it starts, does not overlap it. |
| `Availability.OneSidedAsymmetry` | backend/bron/filters.py:45-56 | Strictly inside a booking, both one-sided tests hit. At its ends they differ: a booking starting at m is hit by `from = m` but not by `to = m`, and a booking ending at m is hit by `to = m` but not by `from = m`. |
| `Availability.OneSidedImpliesBoth` | backend/bron/filters.py:37-56 | A booking hit by a one-sided window is also hit by every two-bound window with that bound. |
| `Availability.ReversedBookingBlocks` | backend/bron/views.py:827-836 | A confirmed booking with reversed dates contains no instant, yet it still conflicts with a window around it. |
| `Availability.UnconfirmedNeverBlock` | backend/bron/views.py:827-830 | Adding bookings that are not confirmed never changes whether a space is busy, whatever the window. |
| `Filters.Given` | backend/bron/filters.py:29-30 | Definition, no contract: Python truthiness of an optional string, present and not empty. |
| `Filters.IsSpace` | backend/bron/filters.py:8-13 | Definition, no contract: the characters Python's `str.isspace` accepts, which `str.strip` removes. |
| `Filters.Strip` | backend/bron/filters.py:8-13 | The cleaned value is a contiguous piece of the raw one; everything cut off on either side is whitespace, and a non-empty result neither starts nor ends with whitespace. |
| `Filters.StripIdempotent` | backend/bron/filters.py:8-13 | Stripping twice is stripping once. |
| `Filters.StripBlank` | backend/bron/filters.py:8-13 | A value cleans to the empty string, and so skips its filter, exactly when it is all whitespace. |
| `Filters.Cleaned` | backend/bron/filters.py:8-13 | An absent parameter stays absent; a present one becomes its stripped text. |
| `Filters.FoldChar` | backend/bron/filters.py:20 | Each ASCII capital and each Cyrillic capital А–Я folds to the letter 32 code points higher, its lower-case form; Ё folds to ё. Every other character is left alone. |
| `Filters.Fold` | backend/bron/filters.py:20 | Folding keeps the length and folds every character. |
| `Filters.FoldIdempotent` | backend/bron/filters.py:20 | Folding twice is folding once. |
| `Filters.SearchFilter` | backend/bron/filters.py:19-20 | Exactly the spaces whose name or description contains the text, ignoring case. |
| `Filters.SearchFilterIgnoresCase` | backend/bron/filters.py:19-20 | Searching for the folded text gives the same result as searching for the text. |
| `Filters.MinCapacity` | backend/bron/filters.py:9 | Exactly the spaces whose capacity is at least the value. |
| `Filters.CityFilter` | backend/bron/filters.py:10 | Exactly the spaces whose building's city equals the value, ignoring case. |
| `Filters.ItemFilter` | backend/bron/filters.py:22-23 | Exactly the spaces that have a feature with that name, ignoring case. |
| `Filters.ParseWindow` | backend/bron/filters.py:26-35 | The query is rejected exactly when a given bound does not parse, or both parse and the start is not before the end. Otherwise each bound is present exactly when it was given, with its parsed value. |
| `Filters.DateFilter` | backend/bron/filters.py:25-58 | Rejection gives the empty queryset and no bound gives the queryset itself. Otherwise the result is exactly the spaces with no conflicting confirmed booking. |
| `Filters.DateFilterBothBounds` | backend/bron/filters.py:37-44 | With both bounds, a space is dropped exactly when a confirmed booking of it satisfies not (dateTo <= from or dateFrom >= to). |
| `Filters.DateFilterFromOnly` | backend/bron/filters.py:45-50 | With only `date_from`, a space is dropped exactly when a confirmed booking has dateFrom <= from < dateTo. |
| `Filters.DateFilterToOnly` | backend/bron/filters.py:51-56 | With only `date_to`, a space is dropped exactly when a confirmed booking has dateFrom < to <= dateTo. |
| `Filters.DateFilterBothWithinOneSided` | backend/bron/filters.py:37-56 | A two-bound search drops every space that either one-sided search on one of its bounds drops. |
| `Filters.DateFilterIdempotent` | backend/bron/filters.py:25-58 | Applying the date filter to its own result changes nothing. |
| `Filters.TextFilters` | backend/bron/filters.py:8-11 | Exactly the spaces of the queryset that meet each text and capacity criterion given, the text criteria on cleaned values. |
| `Filters.Search` | backend/bron/filters.py:7-17 | A space is listed exactly when it is in the queryset and meets every given criterion: the cleaned text values, the capacity, and, when a cleaned date is given, a window parsed from the raw dates in which it has no conflicting confirmed booking. A rejected window lists nothing. |
| `Filters.SearchByDatesOnly` | backend/bron/filters.py:12-13 | With only dates given, the double run of the date filter equals one pass; with both dates blank after cleaning, the queryset is returned whole. |
| `Filters.DateFromFilterPerCondition` | backend/bron/filters.py:46-50 | Under the per-condition reading of `exclude()`, a space is kept exactly when not all three conditions are met by bookings of it, each by any booking. |
| `Filters.PerConditionHidesMore` | backend/bron/filters.py:46-50 | Every space the per-condition reading keeps is kept by the per-booking `DateFilter`. |
| `Filters.DateToFilterPerCondition` | backend/bron/filters.py:52-56 | Under the per-condition reading, with only `date_to`, a space is kept exactly when not all three conditions are met by bookings of it, each by any booking. |
| `Filters.PerConditionHidesMoreTo` | backend/bron/filters.py:52-56 | With only `date_to`, every space the per-condition reading keeps is kept by the per-booking `DateFilter`. |
| `Views.IsAdmin` | backend/bron/views.py:187-202 | Permission holds exactly when a user is signed in and the first profile row of that user has the admin flag. |
| `Views.NewUserIsNotAdmin` | backend/bron/views.py:187-202 | A user whose only profile is the default one fails the admin permission. |
| `Views.GetVisibleSpace` | backend/bron/views.py:498 | The lookup finds a visible space with that identity, and finds nothing exactly when no visible space has it. |
| `Views.ParseRequired` | backend/bron/views.py:818-822 | A missing field never parses. A present one gives exactly what the parser reads from it. |
| `Views.Decide` | backend/bron/views.py:815-849 | In order: 404 exactly when the space is not visible; then a format error exactly when a date is missing or unparseable; then a range error exactly when start >= end; then a conflict exactly when a confirmed booking of the space intersects the window. Acceptance carries the parsed window, and no confirmed booking of the space overlaps it. |
| `Views.RangeCheckedBeforeConflicts` | backend/bron/views.py:818-825 | Format and range errors do not depend on the booking table. |
| `Views.BookStatusCode` | backend/bron/views.py:815-858 | 201 exactly for a created booking, 404 exactly for a missing space, 400 for every other refusal. |
| `Views.PendingBookings` | backend/bron/views.py:888-891 | Exactly the NEW bookings starting at or after the cutoff. |
| `Views.WithStatus` | backend/bron/views.py:914-915 | Only the chosen row changes, and only in its status column. |
| `Views.BookingTable.Book` | backend/bron/views.py:803-858 | A refusal leaves the table alone. An acceptance appends exactly one NEW booking of this user and space with the parsed dates and a fresh identity. |
| `Views.BookingTable.SetStatus` | backend/bron/views.py:894-952 | A non-admin is refused with no change. A missing booking is 404 with no change. Otherwise only that booking's status becomes the target, and the answer lists the pending bookings at `now`. |
| `Views.BookingTable.Confirm` | backend/bron/views.py:894-922 | `SetStatus` with target CONFIRMED. |
| `Views.BookingTable.Cancel` | backend/bron/views.py:924-952 | `SetStatus` with target CBC, whatever the booking's prior status. |
| `Views.ConfirmBlocksOwnWindow` | backend/bron/views.py:914-915 | After confirmation, a booking's own window is busy for its space. |
| `Views.StatusChangeMonotone` | backend/bron/views.py:914-915 | Confirming never frees a window, and cancelling never blocks one. |
| `Views.SearchAgreesWithBook` | backend/bron/filters.py:37-44 | With both dates given, the date filter keeps a visible space exactly when `book` would accept that window for it, including when a date does not parse (both refuse). |
| `Views.ClearCovers` | backend/bron/views.py:796 | No image of the space is a cover afterwards. Other spaces' images are untouched, and only the cover column changes. |
| `Views.SpaceImageTable.SetCover` | backend/bron/views.py:775-801 | 404 when the image is not one of the space's, then 403 for a non-admin, with no change in either case. Otherwise the chosen image is the space's only cover, other spaces' images are unchanged, and nothing but the cover column changes. |
| `Views.SetCoverSingleCover` | backend/bron/views.py:796-799 | After the two steps, the set of the space's cover images is exactly the chosen one. |
| `Views.Toggled` | backend/bron/views.py:608-612 | No row: one is added. One row: it is removed. Several rows: nothing changes. |
| `Views.ToggledPairs` | backend/bron/views.py:594-612 | With at most one row for the pair, toggling adds a missing pair or removes a present one, and leaves every other pair alone. |
| `Views.ToggleTwiceRestores` | backend/bron/views.py:594-612 | Toggling the same favourite twice restores the recorded pairs, whatever the table holds. |
| `Views.FavouriteTable.ToggleFavourite` | backend/bron/views.py:594-612 | 404 with no change for a space that is not visible. Otherwise the table is toggled, and the answer is added, removed, or the multiple-rows failure exactly as the prior count is 0, 1, or more. |
| `Views.HasConfirmedBooking` | backend/bron/views.py:632-636 | Definition, no contract: some booking by this user of this space is CONFIRMED. |
| `Views.ConfirmGrantsReview` | backend/bron/views.py:632-636 | Confirming a booking gives its owner the right to review the space. |
| `Views.NewBookingsGrantNothing` | backend/bron/views.py:632-636 | Bookings created by `book` never give that right. |
| `Views.ReviewTable.AddComment` | backend/bron/views.py:614-647 | 404 exactly for a missing space; 400 exactly for a missing or empty text; 403 exactly when no confirmed booking of the space by the user exists. Otherwise one visible review with the text is appended, and nothing changes on any refusal. |
| `Admin.Selected` | backend/bron/admin.py:133-134 | The queryset holds exactly the ticked events. |
| `Admin.CopyOf` | backend/bron/admin.py:135-139 | Definition, no contract: the row with the new identity, the date a week later, hidden, and stamped with `now`; its properties are `Admin.CopyKeepsDetails`. |
| `Admin.Copies` | backend/bron/admin.py:135-139 | One copy per fetched event, in order, numbered consecutively. |
| `Admin.CopyKeepsDetails` | backend/bron/admin.py:135-139 | A copy keeps name, description, space and organiser, is seven days later, is hidden, and has a new identity and addition date. |
| `Admin.Hidden` | backend/bron/admin.py:141-143 | Exactly the ticked events become hidden, and nothing else changes. |
| `Admin.HiddenIdempotent` | backend/bron/admin.py:141-143 | Hiding twice is hiding once, and no ticked event remains visible. |
| `Admin.VisibleEvents` | backend/bron/models.py:222 | Exactly the events with the visibility flag. |
| `Admin.CopiesNotShown` | backend/bron/admin.py:135-139 | Duplicating never changes the visible events. |
| `Admin.Shifted` | backend/bron/admin.py:145-148 | Exactly the ticked events move one day later, and nothing else changes. |
| `Admin.SetDateById` | backend/bron/admin.py:148 | Only the rows with that identity get the new date. |
| `Admin.EventTable.DuplicateEvent` | backend/bron/admin.py:133-139 | The originals are unchanged, and the copies of the ticked events are appended under fresh identities. |
| `Admin.EventTable.DeactivateEvents` | backend/bron/admin.py:141-143 | The table becomes `Hidden` of the old one. |
| `Admin.EventTable.PlusDay` | backend/bron/admin.py:145-148 | The per-row updates by identity together give `Shifted` of the old table. |
| `Admin.UpdatesUpTo` | backend/bron/admin.py:146-148 | Definition, no contract: the table after the first i per-row updates `filter(id=...).update(date=date + 1 day)` of the fetched queryset. |
| `Admin.UpdatesShift` | backend/bron/admin.py:146-148 | With identities distinct, the updates for the first i fetched events move exactly those events one day later. |
| `Admin.ShiftStep` | backend/bron/admin.py:147-148 | One update by the fetched identity extends the shifted rows by that identity. |
| `Admin.ShiftedSelection` | backend/bron/admin.py:146-148 | Shifting the fetched rows is shifting the selection. |
| `Admin.RegistrationTable.DeleteCanceled` | backend/bron/admin.py:186-188 | Whatever is ticked, the table keeps exactly its non-cancelled rows in order. |
| `Admin.PurgeKeepsActive` | backend/bron/admin.py:186-188 | Afterwards every row is NR or C, every NR or C row is kept, and purging again changes nothing. |
| `Admin.OrgMessage` | backend/bron/admin.py:168-174 | A warning exactly when the organiser has an event. The text starts with the organiser's name. |
| `Admin.CheckOrgEvents` | backend/bron/admin.py:168-174 | One message per ticked organiser, in order: a warning exactly for those with an event, information otherwise. |
| `Scenarios.BookTwiceThenConfirm` | backend/bron/views.py:803-922 | Two requests by the same user for the same window both create bookings under different identities. The first is confirmed, and then an overlapping third request is refused as occupied. |
| `Scenarios.TouchingAccepted` | backend/bron/views.py:832-836 | [12:00, 13:00) right after a confirmed [10:00, 12:00) is accepted. |
| `Scenarios.FirstMinuteRefused` | backend/bron/views.py:832-849 | [09:00, 10:01) against a confirmed [10:00, 12:00) is refused as occupied. |
| `Scenarios.ReversedRangeRefused` | backend/bron/views.py:824-825 | 10:00 to 09:00 is a range error whatever is booked. |
| `Scenarios.OnlyToHitsBooking` | backend/bron/filters.py:51-56 | A search with only `date_to = 11:00` drops a space confirmed for [10:00, 12:00). |
| `Scenarios.NoWindowKeepsAll` | backend/bron/filters.py:58 | Without date bounds the date filter keeps every space. |
| `Scenarios.HalfMinuteOverrun` | backend/bron/views.py:832-849 | A confirmed booking ending at 10:00 and thirty seconds makes [10:00, 11:00) occupied. |
| `Scenarios.PerConditionToHidesFreeHall` | backend/bron/filters.py:52-56 | With the same two bookings, `date_to = 2025-02-01 11:00` keeps the hall under the per-booking reading and hides it under the per-condition one. |
| `Scenarios.PerConditionHidesFreeHall` | backend/bron/filters.py:46-50 | With a confirmed January booking and a NEW February booking, `date_from = 2025-02-01 11:00` keeps the hall under the per-booking reading and hides it under the per-condition one. |
| `Scenarios.BlankDateKeepsAll` | backend/bron/filters.py:12-13 | A lone `date_from` of one blank keeps the whole queryset. |
| `Scenarios.PaddedQueryIsStripped` | backend/bron/filters.py:8 | `q = " hall"` finds the space named "Hall". |

## Findings

| source | as written | input that shows it | evidently intended | confidence | as-written member | corrected member |
|---|---|---|---|---|---|---|
| backend/bron/filters.py:46-50 | One `exclude()` over the multi-valued `space_books` relation, whose three conditions Django may match on different bookings of the space | A confirmed booking 2025-01-01 [10:00, 12:00) and a NEW booking 2025-02-01 [10:00, 12:00) of one space; `date_from = 2025-02-01 11:00` | Hide a space only when one confirmed booking of it covers `date_from` | not executed; rests on Django's documented behaviour of `exclude()`, not on generated SQL | `Filters.DateFromFilterPerCondition`, `Scenarios.PerConditionHidesFreeHall` | `Filters.DateFilter`, `Filters.DateFilterFromOnly` |
| backend/bron/filters.py:52-56 | The same `exclude()` shape for the `date_to`-only branch | The same two bookings; `date_to = 2025-02-01 11:00` | Hide a space only when one confirmed booking of it covers the instant just before `date_to` | not executed; rests on Django's documented behaviour of `exclude()`, not on generated SQL | `Filters.DateToFilterPerCondition`, `Scenarios.PerConditionToHidesFreeHall` | `Filters.DateFilter`, `Filters.DateFilterToOnly` |

## Left out

- The admin change form for bookings (admin.py:104-110) can set any status, CAC included, and edit the dates. Those free edits are not modelled; only the handlers' status changes are.
- `Views.ReviewTable.AddComment`: the `review` field is taken as a string. A truthy JSON value that is not a string (a number, a list) passes the emptiness check in views.py:627-630 too, and what the create then stores is not modelled.
- `Views.SpaceImageTable.SetCover`: models `SpaceViewSet.set_cover` (views.py:775-801) only, which answers 404 before 403. The copy in `SpaceHiddenViewSet` (views.py:466-492) has the admin permission on its view set, so it answers 403 before 404; that order is not modelled.
- Authentication and the 401 answers: handlers get the signed-in user as a value. A caller who is not signed in is not modelled; only the admin flag is.
- Serializers and response bodies beyond the status and the rows they carry are not modelled.
- Ordering is not modelled. Querysets keep table order, not `order_by`/`Meta.ordering`, so ids of copies follow table order.
- `get_object` on the space view set also applies the search filters from the query string. The model looks the space up among the visible spaces only.
- The race between the conflict check and the insert in `book` is not modelled. Each handler runs as one atomic step; concurrency is out of scope.
- Parsing of `'%Y-%m-%d %H:%M'`, `make_aware` and time zones are the abstract `parse` parameter.
- `now` is one value per operation. `duplicate_event` stamps every copy with the same `now`, although each save reads the clock anew.
- A non-numeric `pk` or `image_id`, and a non-numeric `min_capacity`: the framework's 404/400 answers for these are not modelled.
- `Views.ParseRequired`: a date field that is present but not a string (a JSON number, say) is not modelled; it fails as a format error like an unparseable string.
- `Filters.ItemFilter`: the join through `items_id` can list a space once per matching feature. The model keeps each space once.
- `Filters.FoldChar`: folds only ASCII and basic Cyrillic letters. Full Unicode case folding and collation are the database's.
- `Filters.DateFilter`: implements the per-booking reading of `exclude()` across `space_books`, not the per-condition behaviour Django documents; so `Views.SearchAgreesWithBook` holds for that reading, not necessarily for the code as deployed. All three branches (filters.py:38-44, 46-50, 52-56) put several conditions on `space_books` in one `exclude()`, so Django's per-condition reading applies to each of them alike. It is modelled for the two one-sided branches; the two-bound branch, whose inner `~(...)` makes the SQL Django generates harder to state, has no as-written member.
- `Filters.Search`: an invalid form (a `min_capacity` that is not a number) and the framework's answer to it are not modelled.
- `Filters.MinCapacity`: the value is an integer, not the decimal `NumberFilter` accepts.
- `Admin.CopyOf`: the copy's features (rows of the through table), images and attachment file are not modelled. The event row carries none of them, and Django does not copy the through table.
- `save_user_profile` only re-saves the profile row, so it changes no modelled state. Every user has a profile by the invariant of `Models.Accounts`.
- Review text longer than the 1023-character column is not modelled; whether it is refused depends on the database.
- The `elif` branches of the conflict query in `book` (views.py:837-846) cannot run, because both dates are set by then. The model applies only the two-bound rule there.
- The other handlers and views (PDF and QR generation, statistics, uploads, deletions and edits, user views), and the `week_ago`/`now` module constants of the statistics, are not part of this model.
