/** GET /calendar/week: the requesting user's week, Sunday to Saturday,
    around the `day` query parameter. */
module Calendar {
  import opened Outcomes
  import SlotCodec
  import opened Schedules
  import opened WeekWindow

  /** The response body: the window's first day and its seven days. */
  datatype WeekView = WeekView(startDate: int, days: seq<DayBlocks>)

  /** getWeeklyCalendar. `day` is the `day` query parameter: absent and the
      empty string are both refused as missing; a string that does not parse
      as a date is refused as malformed. The acting user is `userId`. */
  method GetWeeklyCalendar(store: Store, userId: int, day: Option<DateText>) returns (r: Result<WeekView>)
    ensures day.None? || day == Some(EmptyText) <==> r == Err(MissingDay)
    ensures day == Some(Malformed) <==> r == Err(MalformedDate)
    ensures r.Ok? <==> day.Some? && day.value.OnDay?
    ensures r.Ok? ==>
      var start := WeekStart(day.value.day);
      r.value == WeekView(start, WeekOf(store, userId, start))
  {
    if day.None? || day.value.EmptyText? {
      return Err(MissingDay);
    }
    if day.value.Malformed? {
      return Err(MalformedDate);
    }
    var baseDate := day.value.day;
    var startDate := baseDate - Weekday(baseDate);
    var endDate := startDate + 6;
    // findMany: this user's rows dated within [startDate, endDate]
    var schedules := Rows(store, {userId}, startDate, endDate);
    var days: seq<DayBlocks> := [];
    for i := 0 to 7
      invariant |days| == i
      invariant forall k :: 0 <= k < i ==> days[k] == WeekOf(store, userId, startDate)[k]
    {
      var current := startDate + i;
      var key := ScheduleKey(userId, current);
      var blocks;
      if key in schedules {
        blocks := SlotCodec.BinaryToBlocks(schedules[key]);
      } else {
        blocks := NoBlocks();
      }
      assert key in schedules <==> key in store;
      assert blocks == BlocksOn(store, userId, current);
      days := days + [DayBlocks(current, blocks)];
    }
    return Ok(WeekView(startDate, days));
  }
}
