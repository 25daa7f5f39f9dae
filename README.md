# CalendarDemo calendar manager, modelled in Dafny

CalendarDemo is an Android app that records events with reminders in the device's system calendar. Its logic is the static class `CalendarManager`, which talks to the calendar content provider:

- **Account resolution.** `checkCalendarAccount` returns the id of the first calendar row, or -1. `addCalendarAccount` inserts one local account with fixed attributes. `checkAndAddCalendarAccount` reuses an existing account or adds one and queries again.
- **Event creation.** `addCalendarEvent` resolves the account and fails closed without one. It inserts a one-hour event in the "Asia/Shanghai" zone with the alarm flag set. When that insert succeeds it attaches one 10-minute alert reminder keyed by the new event's id.
- **Delete by title.** `deleteCalendarEvent` scans every event and deletes each one whose title equals the non-empty argument. It stops at the first delete that answers -1; the deletions made before that stay.

`CalendarRemindModel` is a mutable record with a getter and a setter per field and the `isAllDay()` test.

The project has four modules:

- `JavaTypes` (`java_types.dfy`) holds Java's nullable references (`Option`), `int`/`long` ranges, `long` addition with wrap-around, `TextUtils.isEmpty` and `String.equals`.
- `CalendarStore` (`calendar_store.dfy`) stands in for the content provider. The class `CalendarProvider` holds the Calendars, Events and Reminders tables as sequences of rows in storage order, plus a counter for fresh row ids. Its abstract state is the datatype `Tables`. Each request takes an explicit reply flag that decides whether the provider answers with a cursor or null, a row uri or null, and a row count or -1. So every procedure is specified for every null or -1 answer the provider can give.
- `CalendarManager` (`calendar_manager.dfy`) holds the five procedures as methods on a provider. Each method is proved to leave the provider in the state given by a function of the old state (`ResolvedAccount`, `AfterAddEvent`, `AfterDeleteByTitle`, ...). The lemmas about those functions state what the procedures promise.
- `RemindModel` (`remind_model.dfy`) models `CalendarRemindModel` as a class with the same fields. Each setter is proved to change only its own field.

The event's end time is `start + ONE_HOUR` in Java `long` arithmetic. The model writes out the wrap-around: for every start up to one hour before `Long.MAX_VALUE`, the event lasts exactly one hour (`EventLastsOneHour`). Within the last hour of the `long` range, the end wraps around and comes before the start (`EventEndWrapsNearLongMax`).

## Model

| member | source | states |
|---|---|---|
| `CalendarManager.CheckCalendarAccount` | app/src/main/java/com/changxiao/calendardemo/CalendarManager.java:61-78 | The result is -1 exactly when the query returns null or no rows. Otherwise it is the id of the first calendar row. The store is only read. |
| `CalendarManager.DefaultAccount` | app/src/main/java/com/changxiao/calendardemo/CalendarManager.java:80-104 | The created account has account name "test@gmail.com" and the owner account equal to it. It has visible = 1, sync_events = 1, can_organizer_respond = 0, owner access, and the host's time zone. |
| `CalendarManager.AddedAccount` | app/src/main/java/com/changxiao/calendardemo/CalendarManager.java:90-116 | The result is -1 exactly when the insert answers null, and then nothing changes. Otherwise exactly the default account row is appended under a fresh id, and that id is returned. |
| `CalendarManager.AddCalendarAccount` | app/src/main/java/com/changxiao/calendardemo/CalendarManager.java:90-116 | The provider's new state and the returned id are those of `AddedAccount`. |
| `CalendarManager.AddedAccountIsFound` | app/src/main/java/com/changxiao/calendardemo/CalendarManager.java:61-78 | Round trip: in an empty Calendars table, the account that addCalendarAccount creates is the one the next answered query finds. |
| `CalendarManager.ResolvedAccount` | app/src/main/java/com/changxiao/calendardemo/CalendarManager.java:124-136 | A non-negative result is the id of the first calendar row afterwards; any other result is -1. At most the one default account is added, and events and reminders are untouched. An account found by the first query is reused with nothing inserted, even when its id is 0. |
| `CalendarManager.ResolveCreatesOneAccount` | app/src/main/java/com/changxiao/calendardemo/CalendarManager.java:128-131 | When the first check finds nothing and the insert succeeds, exactly one default account row is added. The result is the re-queried first id, which is the new row's when the table was empty. If the re-query returns null, the result is -1. |
| `CalendarManager.ResolveFailsWithoutAccount` | app/src/main/java/com/changxiao/calendardemo/CalendarManager.java:128-134 | When the first check finds nothing and the insert answers null, the result is -1 and no row is added. |
| `CalendarManager.ResolveIsStable` | app/src/main/java/com/changxiao/calendardemo/CalendarManager.java:124-136 | After a successful resolution, a second one whose query is answered returns the same id and inserts no second account. |
| `CalendarManager.CheckAndAddCalendarAccount` | app/src/main/java/com/changxiao/calendardemo/CalendarManager.java:124-136 | The provider's new state and the returned id are those of `ResolvedAccount`. |
| `JavaTypes.AddLong` | app/src/main/java/com/changxiao/calendardemo/CalendarManager.java:162 | Java `long` addition: the exact sum when it fits, a sum above LONG_MAX less 2^64, and a sum below LONG_MIN plus 2^64. |
| `CalendarManager.NewEvent` | app/src/main/java/com/changxiao/calendardemo/CalendarManager.java:153-168 | The inserted event carries the title, description and calendar id it is given. Its dtstart is the begin time and its dtend is begin + ONE_HOUR as a Java `long`. It has has_alarm = 1 and time zone "Asia/Shanghai". |
| `CalendarManager.EventLastsOneHour` | app/src/main/java/com/changxiao/calendardemo/CalendarManager.java:159-166 | For every begin time up to Long.MAX_VALUE - 3,600,000, dtend = begin + 3,600,000 > dtstart. |
| `CalendarManager.EventEndWrapsNearLongMax` | app/src/main/java/com/changxiao/calendardemo/CalendarManager.java:162 | For a begin time within one hour of Long.MAX_VALUE, the sum wraps around and dtend < dtstart. |
| `CalendarManager.AlertReminder` | app/src/main/java/com/changxiao/calendardemo/CalendarManager.java:176-180 | The reminder refers to the given event id, with minutes = 10 and method = ALERT. |
| `CalendarManager.AfterAddEvent` | app/src/main/java/com/changxiao/calendardemo/CalendarManager.java:145-186 | With no account (id < 0), no event and no reminder are added. An event is added exactly when the account resolves and the insert is accepted, and it is `NewEvent` for the resolved account under a fresh id. A reminder is added exactly when the event was added and the reminder insert is accepted. It is one `AlertReminder` keyed by the new event's id. Calendars change only as in `ResolvedAccount`. |
| `CalendarManager.AddEventAllAccepted` | app/src/main/java/com/changxiao/calendardemo/CalendarManager.java:145-186 | When every request succeeds, the call adds exactly one event and exactly one reminder. The event belongs to the resolved account and lasts one hour. The reminder is a 10-minute alert on that event's id. |
| `CalendarManager.AddCalendarEvent` | app/src/main/java/com/changxiao/calendardemo/CalendarManager.java:145-186 | The provider's new state is `AfterAddEvent` of its old state. |
| `CalendarManager.StopAt` | app/src/main/java/com/changxiao/calendardemo/CalendarManager.java:201-210 | The scan stops at the first matching event whose delete answers -1, or runs past the end when there is none. No earlier event is both matching and refused. |
| `CalendarManager.AfterDeleteByTitle` | app/src/main/java/com/changxiao/calendardemo/CalendarManager.java:194-219 | Only the Events table changes, and only by losing rows. A null cursor changes nothing. |
| `CalendarManager.DeleteEmptyTitleIsNoop` | app/src/main/java/com/changxiao/calendardemo/CalendarManager.java:203 | With a null or empty title, nothing is deleted. |
| `CalendarManager.DeleteRemovesMatchesBeforeStop` | app/src/main/java/com/changxiao/calendardemo/CalendarManager.java:201-210 | An event is removed exactly when it matches the title and comes before the stop point. The deletions made before a refused delete remain. The refused event, every later event, and events with another title or a null title all stay. |
| `CalendarManager.DeleteAllMatching` | app/src/main/java/com/changxiao/calendardemo/CalendarManager.java:199-212 | When no delete is refused, the Events table afterwards is exactly the events whose title differs from the argument, in their old order. |
| `CalendarManager.DeleteCalendarEvent` | app/src/main/java/com/changxiao/calendardemo/CalendarManager.java:194-219 | The cursor loop, with invariants, leaves the provider in the state `AfterDeleteByTitle` gives. |
| `CalendarStore.Without` | app/src/main/java/com/changxiao/calendardemo/CalendarManager.java:205-206 | Deleting rows by id never lengthens a table. |
| `CalendarStore.InWithout` | app/src/main/java/com/changxiao/calendardemo/CalendarManager.java:205-206 | A row survives a delete by id exactly when its id is not among those deleted. |
| `CalendarStore.WithoutTwice` | app/src/main/java/com/changxiao/calendardemo/CalendarManager.java:201-210 | Deleting one id set and then another equals deleting their union, so the one-by-one deletes of the loop add up. |
| `CalendarStore.CalendarProvider.QueryCalendars` | app/src/main/java/com/changxiao/calendardemo/CalendarManager.java:62 | The query returns null exactly when unanswered. Otherwise it returns every calendar row in storage order. |
| `CalendarStore.CalendarProvider.QueryEvents` | app/src/main/java/com/changxiao/calendardemo/CalendarManager.java:195 | The query returns null exactly when unanswered. Otherwise it returns every event row in storage order. |
| `CalendarStore.CalendarProvider.InsertCalendar` | app/src/main/java/com/changxiao/calendardemo/CalendarManager.java:113-114 | An accepted insert appends the row under a fresh id and returns that id. A rejected one returns null and changes nothing. |
| `CalendarStore.CalendarProvider.InsertEvent` | app/src/main/java/com/changxiao/calendardemo/CalendarManager.java:170 | An accepted insert appends the event under a fresh id and returns that id. A rejected one returns null and changes nothing. |
| `CalendarStore.CalendarProvider.InsertReminder` | app/src/main/java/com/changxiao/calendardemo/CalendarManager.java:181 | An accepted insert appends the reminder under a fresh id. A rejected one returns null and changes nothing. |
| `CalendarStore.CalendarProvider.DeleteEvent` | app/src/main/java/com/changxiao/calendardemo/CalendarManager.java:205-206 | An accepted delete removes the event with that id and returns the number of rows removed. A refused one returns -1 and changes nothing. |
| `RemindModel.AllDayOnlyForOne` | app/src/main/java/com/changxiao/calendardemo/CalendarRemindModel.java:120-122 | isAllDay() holds exactly for allDay == 1 (TYPE_TRUE). The values 0, 2 and every other value give false. |
| `RemindModel.CalendarRemindModel.constructor` | app/src/main/java/com/changxiao/calendardemo/CalendarRemindModel.java:15-26 | A fresh model has Java's default field values: null strings and zero numbers. So allDay = 0 and isAllDay() is false. |
| `RemindModel.CalendarRemindModel.SetTitle` | app/src/main/java/com/changxiao/calendardemo/CalendarRemindModel.java:28-34 | getTitle() returns the value set. Every other field, and isAllDay(), is unchanged. |
| `RemindModel.CalendarRemindModel.SetDescription` | app/src/main/java/com/changxiao/calendardemo/CalendarRemindModel.java:36-42 | getDescription() returns the value set. Every other field, and isAllDay(), is unchanged. |
| `RemindModel.CalendarRemindModel.SetStartDate` | app/src/main/java/com/changxiao/calendardemo/CalendarRemindModel.java:44-50 | getStartDate() returns the value set. Every other field, and isAllDay(), is unchanged. |
| `RemindModel.CalendarRemindModel.SetEndDate` | app/src/main/java/com/changxiao/calendardemo/CalendarRemindModel.java:52-58 | getEndDate() returns the value set. Every other field, and isAllDay(), is unchanged. |
| `RemindModel.CalendarRemindModel.SetLocation` | app/src/main/java/com/changxiao/calendardemo/CalendarRemindModel.java:60-66 | getLocation() returns the value set. Every other field, and isAllDay(), is unchanged. |
| `RemindModel.CalendarRemindModel.SetTimeZone` | app/src/main/java/com/changxiao/calendardemo/CalendarRemindModel.java:68-74 | getTimeZone() returns the value set. Every other field, and isAllDay(), is unchanged. |
| `RemindModel.CalendarRemindModel.SetHasAlarm` | app/src/main/java/com/changxiao/calendardemo/CalendarRemindModel.java:76-82 | getHasAlarm() returns the value set. Every other field, and isAllDay(), is unchanged. |
| `RemindModel.CalendarRemindModel.SetAllDay` | app/src/main/java/com/changxiao/calendardemo/CalendarRemindModel.java:84-90 | getAllDay() returns the value set, and afterwards isAllDay() is `v == 1`. Every other field is unchanged. |
| `RemindModel.CalendarRemindModel.SetEventStatus` | app/src/main/java/com/changxiao/calendardemo/CalendarRemindModel.java:92-98 | getEventStatus() returns the value set. Every other field, and isAllDay(), is unchanged. |
| `RemindModel.CalendarRemindModel.SetAvailability` | app/src/main/java/com/changxiao/calendardemo/CalendarRemindModel.java:100-106 | getAvailability() returns the value set. Every other field, and isAllDay(), is unchanged. |
| `RemindModel.CalendarRemindModel.SetAccessLevel` | app/src/main/java/com/changxiao/calendardemo/CalendarRemindModel.java:108-114 | getAccessLevel() returns the value set. Every other field, and isAllDay(), is unchanged. |
| `RemindModel.AllDayScenario` | app/src/main/java/com/changxiao/calendardemo/CalendarRemindModel.java:88-90 | A client that uses only the class's contracts: a fresh model is not all-day. After setAllDay(v), and then other setters, it is all-day exactly when v is 1. |

## Left out

- MainActivity.java is not part of this model. It holds button wiring, the runtime-permission request and a Toast.
- Content-provider plumbing is reduced to the abstract store in `CalendarStore`. This covers `ContentResolver`, `Uri` parsing, `ContentUris`, `CalendarContract` column names and cursor positioning. It also covers the `CALLER_IS_SYNCADAPTER` / account query parameters on the account insert (lines 106-111) and closing cursors in `finally`.
- The provider's own validation is not modelled. It could reject an event with an unknown calendar id, or cascade the deletion of an event's reminders. Instead, every request's outcome is a reply flag chosen by the caller, and a delete removes only the event row.
- The provider's row ids come from one counter shared by the three tables; Android numbers each table separately. Only freshness matters to the manager.
- Row ids are unbounded naturals. `Cursor.getInt` narrows a 64-bit `_ID` to a Java `int` (lines 69 and 204), and that narrowing of ids of 2^31 and above is not modelled.
- `TimeZone.getDefault().getID()` is the parameter `hostZone`. `Color.BLUE` is the constant `COLOR_BLUE`.
- The `java.util.Calendar` round trip at lines 159-163 is the identity on epoch milliseconds, so it is written as plain `long` arithmetic.
- EventModel.java, CalendarModel.java and ReminderModel.java are not part of this model. They are field holders that no modelled code uses.
- Calls from several threads racing on the shared store are not modelled. Each procedure runs as one uninterrupted call.
- The created account is named "test@gmail.com" and every event's time zone is "Asia/Shanghai"; the model uses these constants as they are.
- `deleteCalendarEvent` returns nothing, so a scan that stops early is not reported to its caller. The stop shows only in which events remain.
- Exceptions thrown by the provider's query, insert or delete are not modelled. An example is a SecurityException when the calendar permissions are missing. Such an exception leaves these procedures, and rows inserted earlier in the same call stay.
