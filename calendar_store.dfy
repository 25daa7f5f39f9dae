/** An abstract stand-in for Android's calendar content provider: three tables
    (calendars, events, reminders) of rows in storage order, a counter that
    hands out fresh row ids, and request methods whose outcome (a cursor or
    null, a new row's uri or null, a row count or -1) is chosen by an explicit
    reply flag given by the caller. */
module CalendarStore {
  import opened JavaTypes

  /** The columns of a Calendars row that the manager writes. */
  datatype Calendar = Calendar(
    name: string,
    accountName: string,
    accountType: string,
    displayName: string,
    visible: int,
    color: int,
    accessLevel: int,
    syncEvents: int,
    timeZone: string,
    ownerAccount: string,
    canOrganizerRespond: int)

  /** The columns of an Events row that the manager writes or reads. */
  datatype Event = Event(
    calendarId: int,
    title: Option<string>,
    description: Option<string>,
    dtStart: Int64,
    dtEnd: Int64,
    hasAlarm: int,
    timeZone: string)

  /** The columns of a Reminders row that the manager writes. */
  datatype Reminder = Reminder(eventId: int, minutes: int, alarmMethod: int)

  /** A stored row: the id the provider assigned and the column values. */
  datatype Row<T> = Row(id: nat, values: T)

  /** Every row id lies below `next` and no two rows share an id. */
  ghost predicate IdsBelow<T>(rows: seq<Row<T>>, next: nat)
  {
    && (forall i :: 0 <= i < |rows| ==> rows[i].id < next)
    && (forall i, j :: 0 <= i < j < |rows| ==> rows[i].id != rows[j].id)
  }

  /** `rows` without the rows whose id is in `ids`, the rest in their order. */
  function Without<T(!new)>(rows: seq<Row<T>>, ids: set<nat>): (r: seq<Row<T>>)
    ensures |r| <= |rows|
  {
    if rows == [] then []
    else (if rows[0].id in ids then [] else [rows[0]]) + Without(rows[1..], ids)
  }

  /** A row survives the removal exactly when its id is not removed. */
  lemma {:induction false} InWithout<T(!new)>(rows: seq<Row<T>>, ids: set<nat>, x: Row<T>)
    ensures x in Without(rows, ids) <==> x in rows && x.id !in ids
  {
    if rows != [] {
      InWithout(rows[1..], ids, x);
      assert x in rows <==> x == rows[0] || x in rows[1..];
    }
  }

  lemma {:induction false} WithoutNothing<T(!new)>(rows: seq<Row<T>>, ids: set<nat>)
    requires forall i :: 0 <= i < |rows| ==> rows[i].id !in ids
    ensures Without(rows, ids) == rows
  {
    if rows != [] {
      WithoutNothing(rows[1..], ids);
    }
  }

  /** Two removals in a row are one removal of both id sets. */
  lemma {:induction false} WithoutTwice<T(!new)>(rows: seq<Row<T>>, a: set<nat>, b: set<nat>)
    ensures Without(Without(rows, a), b) == Without(rows, a + b)
  {
    if rows != [] {
      WithoutTwice(rows[1..], a, b);
      var w := Without(rows, a);
      if rows[0].id in a {
        assert w == Without(rows[1..], a);
      } else {
        assert w == [rows[0]] + Without(rows[1..], a);
        assert w != [] && w[0] == rows[0] && w[1..] == Without(rows[1..], a);
      }
    }
  }

  /** The whole provider: the three tables and the next fresh id. */
  datatype Tables = Tables(
    calendars: seq<Row<Calendar>>,
    events: seq<Row<Event>>,
    reminders: seq<Row<Reminder>>,
    nextId: nat)
  {
    /** Ids are unique within each table and all lie below `nextId`. */
    ghost predicate Valid()
    {
      IdsBelow(calendars, nextId) && IdsBelow(events, nextId) && IdsBelow(reminders, nextId)
    }

    /** The tables after the provider accepted the insert of calendar `c`. */
    function WithCalendar(c: Calendar): (t: Tables)
      ensures Valid() ==> t.Valid()
      ensures t.calendars == calendars + [Row(nextId, c)] && t.nextId == nextId + 1
      ensures t.events == events && t.reminders == reminders
    {
      Tables(calendars + [Row(nextId, c)], events, reminders, nextId + 1)
    }

    /** The tables after the provider accepted the insert of event `e`. */
    function WithEvent(e: Event): (t: Tables)
      ensures Valid() ==> t.Valid()
      ensures t.events == events + [Row(nextId, e)] && t.nextId == nextId + 1
      ensures t.calendars == calendars && t.reminders == reminders
    {
      Tables(calendars, events + [Row(nextId, e)], reminders, nextId + 1)
    }

    /** The tables after the provider accepted the insert of reminder `m`. */
    function WithReminder(m: Reminder): (t: Tables)
      ensures Valid() ==> t.Valid()
      ensures t.reminders == reminders + [Row(nextId, m)] && t.nextId == nextId + 1
      ensures t.calendars == calendars && t.events == events
    {
      Tables(calendars, events, reminders + [Row(nextId, m)], nextId + 1)
    }
  }

  lemma WithoutKeepsIds<T(!new)>(rows: seq<Row<T>>, ids: set<nat>, next: nat)
    ensures IdsBelow(rows, next) ==> IdsBelow(Without(rows, ids), next)
    decreases rows
  {
    if rows != [] {
      WithoutKeepsIds(rows[1..], ids, next);
      if IdsBelow(rows, next) && rows[0].id !in ids {
        var rest := Without(rows[1..], ids);
        forall k | 0 <= k < |rest|
          ensures rest[k].id != rows[0].id
        {
          InWithout(rows[1..], ids, rest[k]);
        }
        assert Without(rows, ids) == [rows[0]] + rest;
      }
    }
  }

  /** The content provider, seen through the requests the manager makes. */
  class CalendarProvider {
    var calendars: seq<Row<Calendar>>
    var events: seq<Row<Event>>
    var reminders: seq<Row<Reminder>>
    var nextId: nat

    function State(): Tables
      reads this
    {
      Tables(calendars, events, reminders, nextId)
    }

    ghost predicate Valid()
      reads this
    {
      State().Valid()
    }

    /** A provider that already holds the tables `t`. */
    constructor (t: Tables)
      requires t.Valid()
      ensures Valid() && State() == t
    {
      calendars, events, reminders, nextId := t.calendars, t.events, t.reminders, t.nextId;
    }

    /** An unfiltered query of the Calendars table: null when `answered` is false,
        otherwise a cursor over every row in storage order. */
    method QueryCalendars(answered: bool) returns (cursor: Option<seq<Row<Calendar>>>)
      ensures answered <==> cursor.Some?
      ensures answered ==> cursor.value == calendars
    {
      cursor := if answered then Some(calendars) else None;
    }

    /** An unfiltered query of the Events table. */
    method QueryEvents(answered: bool) returns (cursor: Option<seq<Row<Event>>>)
      ensures answered <==> cursor.Some?
      ensures answered ==> cursor.value == events
    {
      cursor := if answered then Some(events) else None;
    }

    /** Insert into Calendars; the result is the new row's id (its uri), or
        null when the provider rejects the insert. */
    method InsertCalendar(c: Calendar, accepted: bool) returns (uri: Option<nat>)
      requires Valid()
      modifies this
      ensures Valid()
      ensures accepted ==> uri == Some(old(nextId)) && State() == old(State()).WithCalendar(c)
      ensures !accepted ==> uri == None && State() == old(State())
    {
      if accepted {
        uri := Some(nextId);
        calendars, nextId := calendars + [Row(nextId, c)], nextId + 1;
      } else {
        uri := None;
      }
    }

    /** Insert into Events. */
    method InsertEvent(e: Event, accepted: bool) returns (uri: Option<nat>)
      requires Valid()
      modifies this
      ensures Valid()
      ensures accepted ==> uri == Some(old(nextId)) && State() == old(State()).WithEvent(e)
      ensures !accepted ==> uri == None && State() == old(State())
    {
      if accepted {
        uri := Some(nextId);
        events, nextId := events + [Row(nextId, e)], nextId + 1;
      } else {
        uri := None;
      }
    }

    /** Insert into Reminders. */
    method InsertReminder(m: Reminder, accepted: bool) returns (uri: Option<nat>)
      requires Valid()
      modifies this
      ensures Valid()
      ensures accepted ==> uri == Some(old(nextId)) && State() == old(State()).WithReminder(m)
      ensures !accepted ==> uri == None && State() == old(State())
    {
      if accepted {
        uri := Some(nextId);
        reminders, nextId := reminders + [Row(nextId, m)], nextId + 1;
      } else {
        uri := None;
      }
    }

    /** Delete the event with id `id`: the number of rows removed, or -1 when
        the provider refuses. */
    method DeleteEvent(id: nat, accepted: bool) returns (count: int)
      requires Valid()
      modifies this
      ensures Valid()
      ensures accepted ==> count == |old(events)| - |events| >= 0
      ensures accepted ==> State() == old(State()).(events := Without(old(events), {id}))
      ensures !accepted ==> count == -1 && State() == old(State())
    {
      if accepted {
        WithoutKeepsIds(events, {id}, nextId);
        var kept := Without(events, {id});
        count := |events| - |kept|;
        events := kept;
      } else {
        count := -1;
      }
    }
  }
}
