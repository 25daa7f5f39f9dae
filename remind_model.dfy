/** CalendarRemindModel: a mutable record of one reminder-carrying event, with
    a getter and a setter per field and the all-day test. */
module RemindModel {
  import opened JavaTypes

  const TYPE_FALSE: Int32 := 0
  const TYPE_TRUE: Int32 := 1

  /** The values of all fields of a CalendarRemindModel at one moment. */
  datatype Fields = Fields(
    title: Option<string>,
    description: Option<string>,
    startDate: Int64,
    endDate: Int64,
    location: Option<string>,
    timeZone: Option<string>,
    hasAlarm: Int32,
    allDay: Int32,
    eventStatus: Int32,
    availability: Int32,
    accessLevel: Int32)

  /** The fields of a freshly constructed model: Java's defaults. */
  const DEFAULT_FIELDS: Fields := Fields(None, None, 0, 0, None, None, 0, 0, 0, 0, 0)

  /** The all-day test over a stored flag: only TYPE_TRUE counts. */
  predicate AllDayFlag(allDay: Int32)
  {
    allDay == TYPE_TRUE
  }

  /** 1 is the one all-day value; 0, 2 and every other value are not. */
  lemma AllDayOnlyForOne(allDay: Int32)
    ensures AllDayFlag(allDay) <==> allDay == 1
    ensures allDay == TYPE_FALSE || allDay == 2 ==> !AllDayFlag(allDay)
  {
  }

  class CalendarRemindModel {
    var title: Option<string>
    var description: Option<string>
    var startDate: Int64
    var endDate: Int64
    var location: Option<string>
    var timeZone: Option<string>
    var hasAlarm: Int32
    var allDay: Int32
    var eventStatus: Int32
    var availability: Int32
    var accessLevel: Int32

    function Snapshot(): Fields
      reads this
    {
      Fields(title, description, startDate, endDate, location, timeZone,
             hasAlarm, allDay, eventStatus, availability, accessLevel)
    }

    constructor ()
      ensures Snapshot() == DEFAULT_FIELDS
      ensures allDay == 0 && !IsAllDay()
    {
      title, description, location, timeZone := None, None, None, None;
      startDate, endDate := 0, 0;
      hasAlarm, allDay, eventStatus, availability, accessLevel := 0, 0, 0, 0, 0;
    }

    /** isAllDay(): true iff the stored flag is TYPE_TRUE. */
    predicate IsAllDay()
      reads this
    {
      AllDayFlag(allDay)
    }

    function GetTitle(): Option<string> reads this { title }
    function GetDescription(): Option<string> reads this { description }
    function GetStartDate(): Int64 reads this { startDate }
    function GetEndDate(): Int64 reads this { endDate }
    function GetLocation(): Option<string> reads this { location }
    function GetTimeZone(): Option<string> reads this { timeZone }
    function GetHasAlarm(): Int32 reads this { hasAlarm }
    function GetAllDay(): Int32 reads this { allDay }
    function GetEventStatus(): Int32 reads this { eventStatus }
    function GetAvailability(): Int32 reads this { availability }
    function GetAccessLevel(): Int32 reads this { accessLevel }

    method SetTitle(v: Option<string>)
      modifies this
      ensures Snapshot() == old(Snapshot()).(title := v)
      ensures GetTitle() == v && IsAllDay() == old(IsAllDay())
    {
      title := v;
    }

    method SetDescription(v: Option<string>)
      modifies this
      ensures Snapshot() == old(Snapshot()).(description := v)
      ensures GetDescription() == v && IsAllDay() == old(IsAllDay())
    {
      description := v;
    }

    method SetStartDate(v: Int64)
      modifies this
      ensures Snapshot() == old(Snapshot()).(startDate := v)
      ensures GetStartDate() == v && IsAllDay() == old(IsAllDay())
    {
      startDate := v;
    }

    method SetEndDate(v: Int64)
      modifies this
      ensures Snapshot() == old(Snapshot()).(endDate := v)
      ensures GetEndDate() == v && IsAllDay() == old(IsAllDay())
    {
      endDate := v;
    }

    method SetLocation(v: Option<string>)
      modifies this
      ensures Snapshot() == old(Snapshot()).(location := v)
      ensures GetLocation() == v && IsAllDay() == old(IsAllDay())
    {
      location := v;
    }

    method SetTimeZone(v: Option<string>)
      modifies this
      ensures Snapshot() == old(Snapshot()).(timeZone := v)
      ensures GetTimeZone() == v && IsAllDay() == old(IsAllDay())
    {
      timeZone := v;
    }

    method SetHasAlarm(v: Int32)
      modifies this
      ensures Snapshot() == old(Snapshot()).(hasAlarm := v)
      ensures GetHasAlarm() == v && IsAllDay() == old(IsAllDay())
    {
      hasAlarm := v;
    }

    /** The one setter that can change isAllDay(): afterwards it is `v == 1`. */
    method SetAllDay(v: Int32)
      modifies this
      ensures Snapshot() == old(Snapshot()).(allDay := v)
      ensures GetAllDay() == v && (IsAllDay() <==> v == 1)
    {
      allDay := v;
    }

    method SetEventStatus(v: Int32)
      modifies this
      ensures Snapshot() == old(Snapshot()).(eventStatus := v)
      ensures GetEventStatus() == v && IsAllDay() == old(IsAllDay())
    {
      eventStatus := v;
    }

    method SetAvailability(v: Int32)
      modifies this
      ensures Snapshot() == old(Snapshot()).(availability := v)
      ensures GetAvailability() == v && IsAllDay() == old(IsAllDay())
    {
      availability := v;
    }

    method SetAccessLevel(v: Int32)
      modifies this
      ensures Snapshot() == old(Snapshot()).(accessLevel := v)
      ensures GetAccessLevel() == v && IsAllDay() == old(IsAllDay())
    {
      accessLevel := v;
    }
  }

  /** A fresh model is not all-day; after setAllDay(v) it is all-day exactly
      when v is 1, whatever else was set before. */
  method AllDayScenario(v: Int32, start: Int64) returns (before: bool, after: bool)
    ensures !before
    ensures after <==> v == 1
  {
    var m := new CalendarRemindModel();
    before := m.IsAllDay();
    m.SetStartDate(start);
    m.SetAllDay(v);
    m.SetTitle(Some("standup"));
    after := m.IsAllDay();
  }
}
