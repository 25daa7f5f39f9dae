/** CalendarManager: records an event with a ten-minute alert in the system
    calendar, creating a local calendar account first when none exists, and
    deletes events by title. Every store request's outcome is an explicit
    reply flag, so each procedure is specified for every null or -1 answer the
    provider may give. */
module CalendarManager {
  import opened JavaTypes
  import opened CalendarStore

  /** One hour in milliseconds. */
  const ONE_HOUR: Int64 := 1 * 60 * 60 * 1000

  /** The fixed attributes of the account the manager creates. */
  const CALENDARS_NAME: string := "test"
  const CALENDARS_ACCOUNT_NAME: string := "test@gmail.com"
  const CALENDARS_ACCOUNT_TYPE: string := "com.android.exchange"
  const CALENDARS_DISPLAY_NAME: string := "测试账户"
  /** android.graphics.Color.BLUE (0xFF0000FF read as a signed int). */
  const COLOR_BLUE: int := -16776961
  /** CalendarContract.Calendars.CAL_ACCESS_OWNER. */
  const CAL_ACCESS_OWNER: int := 700

  /** The time zone written into every event. */
  const EVENT_TIME_ZONE: string := "Asia/Shanghai"
  /** The reminder fires this many minutes before the start. */
  const REMINDER_MINUTES: int := 10
  /** CalendarContract.Reminders.METHOD_ALERT. */
  const METHOD_ALERT: int := 1

  /** The provider's answers to account resolution: whether the first query
      returns a cursor, whether the account insert returns a uri, and whether
      the query after the insert returns a cursor. */
  datatype AccountReplies = AccountReplies(query: bool, insert: bool, requery: bool)

  /** The provider's answers to the requests of one event insertion. */
  datatype EventReplies = EventReplies(account: AccountReplies, eventInsert: bool, reminderInsert: bool)

  /** The tables after an account operation, and the id it returned (-1 on failure). */
  datatype Resolution = Resolution(tables: Tables, id: int)

  // ---------------------------------------------------------------------------
  // Account resolution

  /** What checkCalendarAccount returns for the tables `t`. */
  function CheckedAccount(t: Tables, answered: bool): int
  {
    if !answered then -1
    else if |t.calendars| > 0 then t.calendars[0].id
    else -1
  }

  /** The column values of the account the manager creates; `hostZone` is the
      host's default time zone id. */
  function DefaultAccount(hostZone: string): (c: Calendar)
    ensures c.accountName == CALENDARS_ACCOUNT_NAME == "test@gmail.com"
    ensures c.ownerAccount == c.accountName
    ensures c.visible == 1 && c.syncEvents == 1 && c.canOrganizerRespond == 0
    ensures c.accessLevel == CAL_ACCESS_OWNER && c.timeZone == hostZone
  {
    Calendar(
      name := CALENDARS_NAME,
      accountName := CALENDARS_ACCOUNT_NAME,
      accountType := CALENDARS_ACCOUNT_TYPE,
      displayName := CALENDARS_DISPLAY_NAME,
      visible := 1,
      color := COLOR_BLUE,
      accessLevel := CAL_ACCESS_OWNER,
      syncEvents := 1,
      timeZone := hostZone,
      ownerAccount := CALENDARS_ACCOUNT_NAME,
      canOrganizerRespond := 0)
  }

  /** What addCalendarAccount does to the tables `t` and returns. */
  function AddedAccount(t: Tables, hostZone: string, accepted: bool): (r: Resolution)
    ensures t.Valid() ==> r.tables.Valid()
    ensures r.id == -1 <==> !accepted
    ensures r.id != -1 ==> r.tables == t.WithCalendar(DefaultAccount(hostZone)) && r.id == t.nextId
    ensures r.id == -1 ==> r.tables == t
  {
    if accepted then Resolution(t.WithCalendar(DefaultAccount(hostZone)), t.nextId)
    else Resolution(t, -1)
  }

  /** What checkAndAddCalendarAccount does to the tables `t` and returns. */
  function ResolvedAccount(t: Tables, hostZone: string, r: AccountReplies): (res: Resolution)
    ensures t.Valid() ==> res.tables.Valid()
    // On success the id is that of the first calendar row; on failure it is -1.
    ensures res.id >= 0 ==> res.tables.calendars != [] && res.id == res.tables.calendars[0].id
    ensures res.id < 0 ==> res.id == -1
    // At most the one default account is added, and only calendars change.
    ensures res.tables == t || res.tables == t.WithCalendar(DefaultAccount(hostZone))
    // An account found by the first query is reused and nothing is inserted.
    ensures r.query && t.calendars != [] ==> res == Resolution(t, t.calendars[0].id)
  {
    var oldId := CheckedAccount(t, r.query);
    if oldId >= 0 then Resolution(t, oldId)
    else
      var added := AddedAccount(t, hostZone, r.insert);
      if added.id >= 0 then Resolution(added.tables, CheckedAccount(added.tables, r.requery))
      else Resolution(t, -1)
  }

  /** An account created by addCalendarAccount in an empty Calendars table is
      the one the next answered query finds. */
  lemma AddedAccountIsFound(t: Tables, hostZone: string)
    requires t.calendars == []
    ensures CheckedAccount(AddedAccount(t, hostZone, true).tables, true) == AddedAccount(t, hostZone, true).id >= 0
  {
  }

  /** When no account is visible, resolution inserts exactly one default
      account; with the re-query answered, it returns the id of the first
      calendar row, which is the new account's when the table was empty. */
  lemma ResolveCreatesOneAccount(t: Tables, hostZone: string, r: AccountReplies)
    requires !r.query || t.calendars == []
    requires r.insert
    ensures ResolvedAccount(t, hostZone, r).tables == t.WithCalendar(DefaultAccount(hostZone))
    ensures r.requery ==> ResolvedAccount(t, hostZone, r).id == (t.calendars + [Row(t.nextId, DefaultAccount(hostZone))])[0].id
    ensures r.requery && t.calendars == [] ==> ResolvedAccount(t, hostZone, r).id == t.nextId
    ensures !r.requery ==> ResolvedAccount(t, hostZone, r).id == -1
  {
  }

  /** When no account is visible and the insert is rejected, resolution fails
      and changes nothing. */
  lemma ResolveFailsWithoutAccount(t: Tables, hostZone: string, r: AccountReplies)
    requires !r.query || t.calendars == []
    requires !r.insert
    ensures ResolvedAccount(t, hostZone, r) == Resolution(t, -1)
  {
  }

  /** Resolving twice yields the same account and no second insert, provided
      the second query is answered. */
  lemma ResolveIsStable(t: Tables, hostZone: string, r1: AccountReplies, r2: AccountReplies)
    requires ResolvedAccount(t, hostZone, r1).id >= 0
    requires r2.query
    ensures ResolvedAccount(ResolvedAccount(t, hostZone, r1).tables, hostZone, r2) == ResolvedAccount(t, hostZone, r1)
  {
  }

  // ---------------------------------------------------------------------------
  // Event creation

  /** The column values of the event addCalendarEvent inserts. */
  function NewEvent(calId: int, title: Option<string>, description: Option<string>, beginTime: Int64): (e: Event)
    ensures e.calendarId == calId && e.title == title && e.description == description
    ensures e.dtStart == beginTime && e.dtEnd == AddLong(beginTime, ONE_HOUR)
    ensures e.hasAlarm == 1 && e.timeZone == EVENT_TIME_ZONE
  {
    Event(
      calendarId := calId,
      title := title,
      description := description,
      dtStart := beginTime,
      dtEnd := AddLong(beginTime, ONE_HOUR),
      hasAlarm := 1,
      timeZone := EVENT_TIME_ZONE)
  }

  /** For every start time up to an hour before the largest `long`, the event
      ends exactly one hour after it starts. */
  lemma EventLastsOneHour(calId: int, title: Option<string>, description: Option<string>, beginTime: Int64)
    requires beginTime <= LONG_MAX - ONE_HOUR
    ensures NewEvent(calId, title, description, beginTime).dtEnd == beginTime + 3_600_000
    ensures NewEvent(calId, title, description, beginTime).dtEnd > NewEvent(calId, title, description, beginTime).dtStart
  {
  }

  /** Within the last hour of the `long` range, `start + ONE_HOUR` wraps
      around and the event ends before it starts. */
  lemma EventEndWrapsNearLongMax(calId: int, title: Option<string>, description: Option<string>, beginTime: Int64)
    requires beginTime > LONG_MAX - ONE_HOUR
    ensures NewEvent(calId, title, description, beginTime).dtEnd < NewEvent(calId, title, description, beginTime).dtStart
  {
  }

  /** The column values of the reminder attached to event `eventId`. */
  function AlertReminder(eventId: int): (m: Reminder)
    ensures m.eventId == eventId && m.minutes == 10 && m.alarmMethod == METHOD_ALERT
  {
    Reminder(eventId := eventId, minutes := REMINDER_MINUTES, alarmMethod := METHOD_ALERT)
  }

  /** What addCalendarEvent does to the tables `t`. */
  function AfterAddEvent(t: Tables, hostZone: string, title: Option<string>, description: Option<string>,
                         beginTime: Int64, r: EventReplies): (u: Tables)
    ensures t.Valid() ==> u.Valid()
    ensures u.calendars == ResolvedAccount(t, hostZone, r.account).tables.calendars
    // No account: no event and no reminder.
    ensures ResolvedAccount(t, hostZone, r.account).id < 0 ==> u.events == t.events && u.reminders == t.reminders
    // An event is added exactly when the account resolves and the provider accepts it.
    ensures u.events != t.events <==> ResolvedAccount(t, hostZone, r.account).id >= 0 && r.eventInsert
    ensures u.events != t.events ==>
      var acc := ResolvedAccount(t, hostZone, r.account);
      u.events == t.events + [Row(acc.tables.nextId, NewEvent(acc.id, title, description, beginTime))]
    // A reminder is added only after the event, keyed by the new event's id.
    ensures u.reminders != t.reminders <==> u.events != t.events && r.reminderInsert
    ensures u.reminders != t.reminders ==>
      var eventId := u.events[|u.events| - 1].id;
      u.reminders == t.reminders + [Row(eventId + 1, AlertReminder(eventId))]
  {
    var acc := ResolvedAccount(t, hostZone, r.account);
    if acc.id < 0 then acc.tables
    else if !r.eventInsert then acc.tables
    else
      var eventId := acc.tables.nextId;
      var withEvent := acc.tables.WithEvent(NewEvent(acc.id, title, description, beginTime));
      if !r.reminderInsert then withEvent
      else withEvent.WithReminder(AlertReminder(eventId))
  }

  /** When every request succeeds, the call adds exactly one event, one hour
      long for an ordinary start time, owned by the resolved account, and
      exactly one ten-minute alert reminder that refers to it. */
  lemma AddEventAllAccepted(t: Tables, hostZone: string, title: Option<string>, description: Option<string>,
                            beginTime: Int64, r: EventReplies)
    requires ResolvedAccount(t, hostZone, r.account).id >= 0
    requires r.eventInsert && r.reminderInsert
    requires beginTime <= LONG_MAX - ONE_HOUR
    ensures var u := AfterAddEvent(t, hostZone, title, description, beginTime, r);
      && |u.events| == |t.events| + 1 && |u.reminders| == |t.reminders| + 1
      && var e := u.events[|u.events| - 1];
      && e.values.calendarId == ResolvedAccount(t, hostZone, r.account).id
      && e.values.dtEnd == e.values.dtStart + 3_600_000 == beginTime + 3_600_000
      && u.reminders[|u.reminders| - 1].values == Reminder(e.id, 10, METHOD_ALERT)
  {
    EventLastsOneHour(ResolvedAccount(t, hostZone, r.account).id, title, description, beginTime);
  }

  // ---------------------------------------------------------------------------
  // Delete by title

  /** deleteCalendarEvent's test for one row: the argument is not empty and
      equals the row's title (a null title never matches). */
  predicate Matches(row: Row<Event>, title: Option<string>)
  {
    !IsEmpty(title) && JavaEquals(title.value, row.values.title)
  }

  /** The index of the first matching row whose delete the provider refuses,
      or |rows| when there is none: where the scan stops. */
  function StopAt(rows: seq<Row<Event>>, title: Option<string>, refused: set<nat>): (k: nat)
    ensures k <= |rows|
    ensures forall j :: 0 <= j < k ==> !(Matches(rows[j], title) && rows[j].id in refused)
    ensures k < |rows| ==> Matches(rows[k], title) && rows[k].id in refused
  {
    if rows == [] then 0
    else if Matches(rows[0], title) && rows[0].id in refused then 0
    else 1 + StopAt(rows[1..], title, refused)
  }

  /** The ids of the matching rows among `rows`. */
  function MatchedIds(rows: seq<Row<Event>>, title: Option<string>): set<nat>
  {
    set i | 0 <= i < |rows| && Matches(rows[i], title) :: rows[i].id
  }

  /** What deleteCalendarEvent does to the tables `t`: nothing when the query
      returns null; otherwise every matching event before the stop point is
      removed. */
  function AfterDeleteByTitle(t: Tables, title: Option<string>, answered: bool, refused: set<nat>): (u: Tables)
    ensures t.Valid() ==> u.Valid()
    ensures u.calendars == t.calendars && u.reminders == t.reminders && u.nextId == t.nextId
    ensures forall x :: x in u.events ==> x in t.events
    ensures !answered ==> u == t
  {
    if !answered then t
    else
      var doomed := MatchedIds(t.events[..StopAt(t.events, title, refused)], title);
      WithoutKeepsIds(t.events, doomed, t.nextId);
      assert forall x :: x in Without(t.events, doomed) ==> x in t.events by {
        forall x | x in Without(t.events, doomed)
          ensures x in t.events
        {
          InWithout(t.events, doomed, x);
        }
      }
      t.(events := Without(t.events, doomed))
  }

  /** The events whose title does not match, in their order. */
  function OtherTitles(rows: seq<Row<Event>>, title: Option<string>): seq<Row<Event>>
  {
    if rows == [] then []
    else (if Matches(rows[0], title) then [] else [rows[0]]) + OtherTitles(rows[1..], title)
  }

  lemma {:induction false} WithoutMatchedIsOtherTitles(rows: seq<Row<Event>>, ids: set<nat>, title: Option<string>)
    requires forall i :: 0 <= i < |rows| ==> (rows[i].id in ids <==> Matches(rows[i], title))
    ensures Without(rows, ids) == OtherTitles(rows, title)
  {
    if rows != [] {
      WithoutMatchedIsOtherTitles(rows[1..], ids, title);
    }
  }

  /** With unique ids, a row's id is among the matched ids of a prefix exactly
      when the row lies in that prefix and matches. */
  lemma MatchedIdsOfPrefix(rows: seq<Row<Event>>, title: Option<string>, k: nat, j: nat)
    requires forall a, b :: 0 <= a < b < |rows| ==> rows[a].id != rows[b].id
    requires k <= |rows| && j < |rows|
    ensures rows[j].id in MatchedIds(rows[..k], title) <==> j < k && Matches(rows[j], title)
  {
    if rows[j].id in MatchedIds(rows[..k], title) {
      var i :| 0 <= i < k && Matches(rows[..k][i], title) && rows[..k][i].id == rows[j].id;
      assert rows[i] == rows[..k][i];
    }
    if j < k && Matches(rows[j], title) {
      assert rows[..k][j] == rows[j];
    }
  }

  /** With a null or empty title nothing is deleted. */
  lemma DeleteEmptyTitleIsNoop(t: Tables, title: Option<string>, answered: bool, refused: set<nat>)
    requires IsEmpty(title)
    ensures AfterDeleteByTitle(t, title, answered, refused) == t
  {
    if answered {
      var doomed := MatchedIds(t.events[..StopAt(t.events, title, refused)], title);
      assert doomed == {};
      WithoutNothing(t.events, doomed);
    }
  }

  /** Which events a delete removes: exactly the matching ones before the stop
      point. The refused event and everything after it stay, and so do events
      with another title or none. */
  lemma DeleteRemovesMatchesBeforeStop(t: Tables, title: Option<string>, refused: set<nat>, j: nat)
    requires t.Valid()
    requires j < |t.events|
    ensures var u := AfterDeleteByTitle(t, title, true, refused);
      t.events[j] !in u.events <==> j < StopAt(t.events, title, refused) && Matches(t.events[j], title)
  {
    var k := StopAt(t.events, title, refused);
    MatchedIdsOfPrefix(t.events, title, k, j);
    InWithout(t.events, MatchedIds(t.events[..k], title), t.events[j]);
  }

  /** When the provider refuses no delete, exactly the events titled `title`
      are removed and the rest keep their order. */
  lemma DeleteAllMatching(t: Tables, title: Option<string>, refused: set<nat>)
    requires t.Valid()
    requires forall i :: 0 <= i < |t.events| && Matches(t.events[i], title) ==> t.events[i].id !in refused
    ensures AfterDeleteByTitle(t, title, true, refused).events == OtherTitles(t.events, title)
  {
    var s := t.events;
    var k := StopAt(s, title, refused);
    assert k == |s|;
    var doomed := MatchedIds(s[..k], title);
    forall i | 0 <= i < |s|
      ensures s[i].id in doomed <==> Matches(s[i], title)
    {
      MatchedIdsOfPrefix(s, title, k, i);
    }
    WithoutMatchedIsOtherTitles(s, doomed, title);
  }

  // ---------------------------------------------------------------------------
  // The procedures, run against the provider

  /** checkCalendarAccount: the id of the first calendar row, or -1 when the
      query returns null or no rows. The store is only read. */
  method CheckCalendarAccount(p: CalendarProvider, answered: bool) returns (id: int)
    ensures id == CheckedAccount(p.State(), answered)
    ensures id >= 0 <==> answered && p.calendars != []
    ensures id >= 0 ==> id == p.calendars[0].id
    ensures id < 0 ==> id == -1
  {
    var cursor := p.QueryCalendars(answered);
    if cursor.None? {
      return -1;
    }
    var count := |cursor.value|;
    if count > 0 {
      id := cursor.value[0].id;
    } else {
      id := -1;
    }
  }

  /** addCalendarAccount: inserts the default account; the new row's id, or -1
      when the insert returns null. */
  method AddCalendarAccount(p: CalendarProvider, hostZone: string, accepted: bool) returns (id: int)
    requires p.Valid()
    modifies p
    ensures p.Valid()
    ensures Resolution(p.State(), id) == AddedAccount(old(p.State()), hostZone, accepted)
  {
    var uri := p.InsertCalendar(DefaultAccount(hostZone), accepted);
    id := if uri.None? then -1 else uri.value;
  }

  /** checkAndAddCalendarAccount: reuse the first account, or add one and query again. */
  method CheckAndAddCalendarAccount(p: CalendarProvider, hostZone: string, replies: AccountReplies) returns (id: int)
    requires p.Valid()
    modifies p
    ensures p.Valid()
    ensures Resolution(p.State(), id) == ResolvedAccount(old(p.State()), hostZone, replies)
  {
    var oldId := CheckCalendarAccount(p, replies.query);
    if oldId >= 0 {
      return oldId;
    }
    var addId := AddCalendarAccount(p, hostZone, replies.insert);
    if addId >= 0 {
      id := CheckCalendarAccount(p, replies.requery);
    } else {
      id := -1;
    }
  }

  /** addCalendarEvent: resolve the account, insert the event, then its reminder. */
  method AddCalendarEvent(p: CalendarProvider, hostZone: string, title: Option<string>, description: Option<string>,
                          beginTime: Int64, replies: EventReplies)
    requires p.Valid()
    modifies p
    ensures p.Valid()
    ensures p.State() == AfterAddEvent(old(p.State()), hostZone, title, description, beginTime, replies)
  {
    var calId := CheckAndAddCalendarAccount(p, hostZone, replies.account);
    if calId < 0 {
      return;
    }
    var newEvent := p.InsertEvent(NewEvent(calId, title, description, beginTime), replies.eventInsert);
    if newEvent.None? {
      return;
    }
    var uri := p.InsertReminder(AlertReminder(newEvent.value), replies.reminderInsert);
    if uri.None? {
      return;
    }
  }

  lemma MatchedIdsStep(rows: seq<Row<Event>>, title: Option<string>, i: nat)
    requires i < |rows|
    ensures MatchedIds(rows[..i + 1], title)
         == MatchedIds(rows[..i], title) + (if Matches(rows[i], title) then {rows[i].id} else {})
  {
    var before, after := rows[..i], rows[..i + 1];
    assert before == after[..i];
    assert after[i] == rows[i];
  }

  /** deleteCalendarEvent: scan every event and delete each one titled `title`,
      stopping at the first delete that answers -1. `refused` holds the ids of
      the events whose delete the provider answers with -1. */
  method DeleteCalendarEvent(p: CalendarProvider, title: Option<string>, answered: bool, refused: set<nat>)
    requires p.Valid()
    modifies p
    ensures p.Valid()
    ensures p.State() == AfterDeleteByTitle(old(p.State()), title, answered, refused)
  {
    ghost var t0 := p.State();
    var cursor := p.QueryEvents(answered);
    if cursor.None? {
      return;
    }
    var rows := cursor.value;
    ghost var deleted: set<nat> := {};
    assert MatchedIds(rows[..0], title) == deleted;
    WithoutNothing(rows, deleted);
    var i := 0;
    if |rows| > 0 {
      while i < |rows|
        invariant 0 <= i <= |rows|
        invariant i <= StopAt(rows, title, refused)
        invariant deleted == MatchedIds(rows[..i], title)
        invariant p.Valid()
        invariant p.State() == t0.(events := Without(rows, deleted))
      {
        var row := rows[i];
        MatchedIdsStep(rows, title, i);
        ghost var deletedNext := deleted + (if Matches(row, title) then {row.id} else {});
        assert deletedNext == MatchedIds(rows[..i + 1], title);
        if !IsEmpty(title) && JavaEquals(title.value, row.values.title) {
          var count := p.DeleteEvent(row.id, row.id !in refused);
          if count == -1 {
            assert StopAt(rows, title, refused) == i;
            return;
          }
          WithoutTwice(rows, deleted, {row.id});
          assert deletedNext == deleted + {row.id};
          assert p.events == Without(rows, deletedNext);
        } else {
          assert deletedNext == deleted;
        }
        deleted := deletedNext;
        i := i + 1;
      }
    }
    assert rows[..i] == rows;
  }
}
