/**
 * The bulk actions of the administration site in backend/bron/admin.py:
 * copying, hiding and shifting events, purging cancelled registrations, and
 * the per-organiser event check.  An action receives the rows the
 * administrator ticked as a set of identities; the queryset it iterates is
 * those rows in table order, fetched once when the loop starts.
 */
module Admin {
  import opened Tables
  import opened Models

  /** `timedelta(days=1)` and `timedelta(weeks=1)` in microseconds. */
  const Day: int := 1440 * Minute
  const Week: int := 7 * Day

  /** The selected rows as the action's queryset sees them. */
  function Selected(events: seq<Event>, selected: set<EventId>): (r: seq<Event>)
    ensures forall e :: e in r <==> e in events && e.id in selected
    ensures DistinctIds(events) ==> DistinctIds(r)
  {
    var p := (e: Event) => e.id in selected;
    SelectedDistinct(events, p);
    Filter(events, p)
  }

  /**
   * The row one iteration of `duplicate_event` inserts: `pk = None` makes the
   * save an insert under the next identity, the date moves a week, the copy is
   * hidden, and `add_date` (auto_now_add) is stamped again.
   */
  function CopyOf(e: Event, id: EventId, now: int): Event
  {
    e.(id := id, date := e.date + Week, isVisible := false, addDate := now)
  }

  /** The copies of `src`, numbered from `firstId` in iteration order. */
  function Copies(src: seq<Event>, firstId: nat, now: int): (r: seq<Event>)
    ensures |r| == |src|
    ensures forall k :: 0 <= k < |r| ==> r[k] == CopyOf(src[k], firstId + k, now)
  {
    seq(|src|, k requires 0 <= k < |src| => CopyOf(src[k], firstId + k, now))
  }

  /** One more iteration of `duplicate_event` appends one more copy. */
  lemma CopiesSnoc(src: seq<Event>, i: nat, firstId: nat, now: int)
    requires i < |src|
    ensures Copies(src[..i + 1], firstId, now) == Copies(src[..i], firstId, now) + [CopyOf(src[i], firstId + i, now)]
  {
    var a, b := Copies(src[..i + 1], firstId, now), Copies(src[..i], firstId, now) + [CopyOf(src[i], firstId + i, now)];
    assert |a| == |b|;
    forall k | 0 <= k < |a| ensures a[k] == b[k] {
      assert src[..i + 1][k] == src[k];
      if k < i { assert src[..i][k] == src[k]; }
    }
  }

  /** One iteration of `duplicate_event`, on the rows inserted so far. */
  lemma DuplicateStep(rows0: seq<Event>, queryset: seq<Event>, i: nat, id0: nat, id: nat, now: int, rows: seq<Event>)
    requires i < |queryset| && id == id0 + i && rows == rows0 + Copies(queryset[..i], id0, now)
    ensures rows + [CopyOf(queryset[i], id, now)] == rows0 + Copies(queryset[..i + 1], id0, now)
  {
    CopiesSnoc(queryset, i, id0, now);
    assert rows + [CopyOf(queryset[i], id, now)] == rows0 + (Copies(queryset[..i], id0, now) + [CopyOf(queryset[i], id, now)]);
  }

  /** A row inserted under the counter's value keeps identities distinct and below the advanced counter. */
  lemma FreshAppend(events: seq<Event>, e: Event, n: nat)
    requires DistinctIds(events) && (forall k :: 0 <= k < |events| ==> events[k].id < n) && e.id == n
    ensures DistinctIds(events + [e]) && forall k :: 0 <= k < |events| + 1 ==> (events + [e])[k].id < n + 1
  {
  }

  /** A copy keeps the name, description, place and organiser, and is a week later. */
  lemma CopyKeepsDetails(e: Event, id: EventId, now: int)
    ensures var c := CopyOf(e, id, now);
      && c.name == e.name && c.description == e.description && c.space == e.space && c.org == e.org
      && c.date - e.date == 7 * Day && !c.isVisible && c.id == id && c.addDate == now
  {
  }

  /** `event.is_visiable = False` on the selected rows; nothing else changes. */
  function Hidden(events: seq<Event>, selected: set<EventId>): (r: seq<Event>)
    ensures |r| == |events|
    ensures forall k :: 0 <= k < |r| ==> r[k] == if events[k].id in selected then events[k].(isVisible := false) else events[k]
  {
    seq(|events|, k requires 0 <= k < |events| =>
      if events[k].id in selected then events[k].(isVisible := false) else events[k])
  }

  /** The events shown to visitors. */
  function VisibleEvents(events: seq<Event>): (r: seq<Event>)
    ensures forall e :: e in r <==> e in events && e.isVisible
  {
    Filter(events, (e: Event) => e.isVisible)
  }

  /** Hiding the selection twice is hiding it once, and no selected event stays visible. */
  lemma HiddenIdempotent(events: seq<Event>, selected: set<EventId>)
    ensures Hidden(Hidden(events, selected), selected) == Hidden(events, selected)
    ensures forall e :: e in VisibleEvents(Hidden(events, selected)) ==> e.id !in selected && e in events
  {
    var h := Hidden(events, selected);
    forall e | e in VisibleEvents(h) ensures e.id !in selected && e in events {
      var k :| 0 <= k < |h| && h[k] == e;
      assert h[k] == events[k];
    }
  }

  /** Copies are hidden, so duplicating never changes what visitors see. */
  lemma CopiesNotShown(events: seq<Event>, src: seq<Event>, firstId: nat, now: int)
    ensures forall e :: e in VisibleEvents(events + Copies(src, firstId, now)) <==> e in VisibleEvents(events)
  {
    var c := Copies(src, firstId, now);
    forall e | e in VisibleEvents(events + c) ensures e in events {
      var k :| 0 <= k < |events + c| && (events + c)[k] == e;
      if k >= |events| {
        assert e == c[k - |events|];
      }
    }
  }

  /** `event.date + timedelta(days=1)` on the selected rows. */
  function Shifted(events: seq<Event>, selected: set<EventId>): (r: seq<Event>)
    ensures |r| == |events|
    ensures forall k :: 0 <= k < |r| ==> r[k] == if events[k].id in selected then events[k].(date := events[k].date + Day) else events[k]
  {
    seq(|events|, k requires 0 <= k < |events| =>
      if events[k].id in selected then events[k].(date := events[k].date + Day) else events[k])
  }

  /** `Event.objects.filter(id=id).update(date=d)`. */
  function SetDateById(events: seq<Event>, id: EventId, d: int): (r: seq<Event>)
    ensures |r| == |events|
    ensures forall k :: 0 <= k < |r| ==> r[k] == if events[k].id == id then events[k].(date := d) else events[k]
  {
    seq(|events|, k requires 0 <= k < |events| => if events[k].id == id then events[k].(date := d) else events[k])
  }

  /** Identities distinct: a lookup by id names one row. */
  ghost predicate DistinctIds(events: seq<Event>)
  {
    forall j, k :: 0 <= j < k < |events| ==> events[j].id != events[k].id
  }

  /** The identities of the rows of `s`. */
  function Ids(s: seq<Event>): set<EventId>
  {
    set k | 0 <= k < |s| :: s[k].id
  }

  /** Distinct identities stay distinct in a subsequence chosen by `Filter`. */
  lemma {:induction false} SelectedDistinct(events: seq<Event>, p: Event -> bool)
    ensures DistinctIds(events) ==> DistinctIds(Filter(events, p))
  {
    if events != [] && DistinctIds(events) {
      SelectedDistinct(events[1..], p);
      var rest := Filter(events[1..], p);
      if p(events[0]) {
        var r := Filter(events, p);
        assert r == [events[0]] + rest;
        forall j | 0 < j < |r| ensures r[j].id != r[0].id {
          assert r[j] in rest;
          assert r[j] in events[1..];
        }
      }
    }
  }

  class EventTable {
    var events: seq<Event>
    var nextId: nat

    ghost predicate Valid()
      reads this
    {
      && DistinctIds(events)
      && (forall k :: 0 <= k < |events| ==> events[k].id < nextId)
    }

    constructor ()
      ensures Valid() && events == [] && nextId == 0
    {
      events, nextId := [], 0;
    }

    /**
     * `duplicate_event`: one hidden copy a week later per selected event,
     * inserted under fresh identities after every existing row; the
     * originals are unchanged.
     */
    method DuplicateEvent(selected: set<EventId>, now: int)
      requires Valid()
      modifies this
      ensures Valid()
      ensures events == old(events) + Copies(Selected(old(events), selected), old(nextId), now)
      ensures nextId == old(nextId) + |Selected(old(events), selected)|
    {
      var rows, id := events, nextId;
      var queryset := Selected(rows, selected);
      ghost var rows0, id0 := rows, id;
      for i := 0 to |queryset|
        invariant rows == rows0 + Copies(queryset[..i], id0, now)
        invariant id == id0 + i
        invariant DistinctIds(rows) && forall k :: 0 <= k < |rows| ==> rows[k].id < id
      {
        var copy := CopyOf(queryset[i], id, now);
        DuplicateStep(rows0, queryset, i, id0, id, now, rows);
        FreshAppend(rows, copy, id);
        rows := rows + [copy];
        id := id + 1;
      }
      assert queryset[..|queryset|] == queryset;
      events, nextId := rows, id;
    }

    /** `deactivate_events`: a single update hiding the selected rows. */
    method DeactivateEvents(selected: set<EventId>)
      requires Valid()
      modifies this`events
      ensures Valid()
      ensures events == Hidden(old(events), selected)
    {
      events := Hidden(events, selected);
    }

    /**
     * `plus_day`: for each fetched event, an update by identity to its
     * fetched date plus one day.  With identities distinct this moves every
     * selected event exactly one day and leaves the rest alone.
     */
    method PlusDay(selected: set<EventId>)
      requires Valid()
      modifies this`events
      ensures Valid()
      ensures events == Shifted(old(events), selected)
    {
      var rows := events;
      ghost var rows0 := rows;
      var queryset := Selected(rows, selected);
      for i := 0 to |queryset|
        invariant rows == UpdatesUpTo(rows0, queryset, i)
      {
        var e := queryset[i];
        rows := SetDateById(rows, e.id, e.date + Day);
      }
      UpdatesShift(rows0, queryset, |queryset|);
      ShiftedSelection(rows0, selected, queryset);
      ShiftedValid(rows0, selected, nextId);
      events := rows;
    }
  }

  /** The table after the first `i` updates of `plus_day`, each to a fetched date plus one day. */
  function UpdatesUpTo(events: seq<Event>, queryset: seq<Event>, i: nat): seq<Event>
    requires i <= |queryset|
  {
    if i == 0 then events
    else SetDateById(UpdatesUpTo(events, queryset, i - 1), queryset[i - 1].id, queryset[i - 1].date + Day)
  }

  /** With identities distinct, the first `i` updates shift exactly the first `i` fetched rows. */
  lemma {:induction false} UpdatesShift(events: seq<Event>, queryset: seq<Event>, i: nat)
    requires DistinctIds(events) && DistinctIds(queryset) && i <= |queryset|
    requires forall e :: e in queryset ==> e in events
    ensures UpdatesUpTo(events, queryset, i) == Shifted(events, Ids(queryset[..i]))
  {
    if i == 0 {
      ShiftedNone(events, Ids(queryset[..0]));
    } else {
      UpdatesShift(events, queryset, i - 1);
      ShiftStep(events, queryset, i - 1);
    }
  }

  /**
   * One iteration of `plus_day`: the update by the fetched row's identity
   * extends the set of shifted rows by that identity.
   */
  lemma ShiftStep(events: seq<Event>, queryset: seq<Event>, i: nat)
    requires DistinctIds(events) && DistinctIds(queryset) && i < |queryset|
    requires forall e :: e in queryset ==> e in events
    ensures var e := queryset[i];
      SetDateById(Shifted(events, Ids(queryset[..i])), e.id, e.date + Day) == Shifted(events, Ids(queryset[..i + 1]))
  {
    var e := queryset[i];
    var done := Ids(queryset[..i]);
    assert e.id !in done by {
      forall j | 0 <= j < i ensures queryset[..i][j].id != e.id {
        assert queryset[..i][j] == queryset[j];
      }
    }
    assert Ids(queryset[..i + 1]) == done + {e.id} by {
      assert queryset[..i + 1] == queryset[..i] + [e];
    }
    assert e in events;
    var m :| 0 <= m < |events| && events[m] == e;
    forall k | 0 <= k < |events| && events[k].id == e.id
      ensures events[k] == e
    {
      assert k == m;
    }
  }

  /** Shifting the fetched rows is shifting the selection. */
  lemma ShiftedSelection(events: seq<Event>, selected: set<EventId>, queryset: seq<Event>)
    requires queryset == Selected(events, selected)
    ensures Shifted(events, Ids(queryset[..|queryset|])) == Shifted(events, selected)
  {
    assert queryset[..|queryset|] == queryset;
    forall x | x in Ids(queryset) ensures x in selected {
      var j :| 0 <= j < |queryset| && queryset[j].id == x;
      assert queryset[j] in queryset;
    }
    forall k | 0 <= k < |events| && events[k].id in selected ensures events[k].id in Ids(queryset) {
      assert events[k] in queryset;
      var j :| 0 <= j < |queryset| && queryset[j] == events[k];
    }
  }

  /** Moving dates keeps every identity where it was. */
  lemma ShiftedValid(events: seq<Event>, selected: set<EventId>, bound: nat)
    requires DistinctIds(events) && forall k :: 0 <= k < |events| ==> events[k].id < bound
    ensures DistinctIds(Shifted(events, selected))
    ensures forall k :: 0 <= k < |events| ==> Shifted(events, selected)[k].id < bound
  {
    var r := Shifted(events, selected);
    forall j, k | 0 <= j < k < |r| ensures r[j].id != r[k].id {
      assert r[j].id == events[j].id && r[k].id == events[k].id;
    }
  }

  /** Shifting no identity changes nothing. */
  lemma ShiftedNone(events: seq<Event>, none: set<EventId>)
    requires none == {}
    ensures Shifted(events, none) == events
  {
  }

  /** A registration is cancelled when it is "CBC" or "CAC". */
  predicate IsCanceled(r: Registration)
  {
    r.status == RegCanceledBeforeConfirmation || r.status == RegCancelAfterConfirmation
  }

  class RegistrationTable {
    var regs: seq<Registration>

    constructor (rows: seq<Registration>)
      ensures regs == rows
    {
      regs := rows;
    }

    /**
     * `delete_canceled`: the ticked rows are ignored, and every cancelled
     * registration in the table is deleted; the rest keep their order.
     */
    method DeleteCanceled(selected: set<nat>)
      modifies this
      ensures regs == Filter(old(regs), (r: Registration) => !IsCanceled(r))
    {
      regs := Filter(regs, (r: Registration) => !IsCanceled(r));
    }
  }

  /** After the purge no cancelled row is left, and every "NR" or "C" row is kept. */
  lemma PurgeKeepsActive(regs: seq<Registration>)
    ensures var r := Filter(regs, (x: Registration) => !IsCanceled(x));
      && (forall k :: 0 <= k < |r| ==> r[k].status == NewReg || r[k].status == RegConfirmation)
      && (forall x :: x in regs && !IsCanceled(x) ==> x in r)
      && Filter(r, (x: Registration) => !IsCanceled(x)) == r
  {
    FilterTwice(regs, (x: Registration) => !IsCanceled(x));
  }

  datatype Message = Warning(text: string) | Info(text: string)

  predicate HasEvents(events: seq<Event>, org: OrganizerId)
  {
    exists k :: 0 <= k < |events| && events[k].org == org
  }

  /** The message `check_org_events` sends for one organiser. */
  function OrgMessage(o: Organizer, events: seq<Event>): (m: Message)
    ensures m.Warning? <==> HasEvents(events, o.id)
    ensures |m.text| > |o.name| && m.text[..|o.name|] == o.name
  {
    if HasEvents(events, o.id) then Warning(o.name + " — есть мероприятия")
    else Info(o.name + " — мероприятий нет")
  }

  /**
   * `check_org_events`: one message per selected organiser, in order; a
   * warning exactly for those that organise at least one event.
   */
  method CheckOrgEvents(orgs: seq<Organizer>, events: seq<Event>) returns (msgs: seq<Message>)
    ensures |msgs| == |orgs|
    ensures forall k :: 0 <= k < |orgs| ==> msgs[k] == OrgMessage(orgs[k], events)
    ensures forall k :: 0 <= k < |orgs| ==> (msgs[k].Warning? <==> exists j :: 0 <= j < |events| && events[j].org == orgs[k].id)
  {
    msgs := [];
    for i := 0 to |orgs|
      invariant |msgs| == i
      invariant forall k :: 0 <= k < i ==> msgs[k] == OrgMessage(orgs[k], events)
    {
      var found := false;
      for j := 0 to |events|
        invariant found <==> exists m :: 0 <= m < j && events[m].org == orgs[i].id
      {
        if events[j].org == orgs[i].id {
          found := true;
        }
      }
      var m := if found then Warning(orgs[i].name + " — есть мероприятия") else Info(orgs[i].name + " — мероприятий нет");
      msgs := msgs + [m];
    }
  }
}
