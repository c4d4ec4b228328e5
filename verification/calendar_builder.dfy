/** The builder's pipeline with the I/O removed: validate the date window,
    check the roster size, generate the fixtures, enumerate the slots and
    assign the fixtures to them. */
module CalendarBuilder {
  import opened CalendarTypes
  import opened Ordering
  import opened Validation
  import opened MatchGenerator
  import opened SlotEnumerator
  import opened SlotAssigner

  /** One run on an already parsed window and an already loaded roster. The
      window is checked before the roster, and both before any scheduling
      work. On success game `k` of the fixture list is played in slot `k` of
      the window, every game lies in the window on a Friday, Saturday or Sunday
      at one of the kick-off times, and the schedule is already in the
      (date, time) order the report sorts by. */
  method Build(teams: seq<Team>, start: int, end: int) returns (r: Result<seq<ScheduledGame>>)
    ensures start >= end ==> r == Failure(StartNotBeforeEnd)
    ensures 0 < end - start < 7 ==> r == Failure(PeriodTooShort)
    ensures end - start >= 7 && |teams| < 2 ==> r == Failure(InsufficientTeams)
    ensures end - start >= 7 && |teams| >= 2 ==>
              (r.Success? <==> |teams| * (|teams| - 1) <= |FindAvailableSlots(start, end)|)
    ensures end - start >= 7 && |teams| >= 2 && r.Failure? ==> r.error == InsufficientSlots
    ensures r.Success? ==>
              |r.value| == |teams| * (|teams| - 1) &&
              forall k :: 0 <= k < |r.value| ==>
                r.value[k] == Place(FindAvailableSlots(start, end)[k], GenerateGames(teams)[k])
    ensures r.Success? ==> forall k :: 0 <= k < |r.value| ==>
              start <= r.value[k].date <= end && IsGameDay(r.value[k].date) && r.value[k].time in GameTimes
    ensures r.Success? ==> StrictlyAscending(r.value)
  {
    var window := ValidateWindow(start, end);
    if window.Fail? {
      return Failure(window.error);
    }
    var roster := RequireTeams(teams);
    if roster.Failure? {
      return Failure(roster.error);
    }
    var games := GenerateGames(roster.value);
    var slots := FindAvailableSlots(start, end);
    ghost var host;
    r, host := ScheduleGames(games, slots);
    if r.Success? {
      ScheduleFollowsSlots(start, end, games, r.value);
    }
  }

  /** A schedule that puts game `k` in slot `k` of the window inherits the
      slots' dates, times and order. */
  lemma ScheduleFollowsSlots(start: int, end: int, games: seq<Match>, out: seq<ScheduledGame>)
    requires |out| == |games| <= |FindAvailableSlots(start, end)|
    requires forall k :: 0 <= k < |out| ==> out[k] == Place(FindAvailableSlots(start, end)[k], games[k])
    ensures forall k :: 0 <= k < |out| ==>
              start <= out[k].date <= end && IsGameDay(out[k].date) && out[k].time in GameTimes
    ensures StrictlyAscending(out)
  {
    var slots := FindAvailableSlots(start, end);
    SlotsInClockOrder(start, end);
    forall i, j | 0 <= i < j < |out|
      ensures KeyLess(out[i].date, out[i].time, out[j].date, out[j].time)
    {
      assert KeyLess(slots[i].date, slots[i].time, slots[j].date, slots[j].time);
    }
  }

  /** An accepted window covers at least eight dates and so at least nine slots. */
  lemma AcceptedWindowYieldsNineSlots(start: int, end: int)
    requires ValidateWindow(start, end).Pass?
    ensures end - start + 1 >= 8
    ensures |FindAvailableSlots(start, end)| >= 9
  {
    WeekLongWindowSlots(start, end);
  }

  /** Two or three teams play at most six games, which every accepted window
      has room for; from four teams on, a one-week window can be too short. */
  lemma SmallRosterFits(teams: seq<Team>, start: int, end: int)
    requires 2 <= |teams| <= 3
    requires ValidateWindow(start, end).Pass?
    ensures |GenerateGames(teams)| <= |FindAvailableSlots(start, end)|
  {
    AcceptedWindowYieldsNineSlots(start, end);
    var n := |teams|;
    var games := |GenerateGames(teams)|;
    assert games == n * (n - 1);
    if n == 2 {
      assert games == 2;
    } else {
      assert games == 6;
    }
  }

  /** Twelve games from four teams do not fit in the nine slots of an
      eight-date window that starts on a Monday. */
  lemma FourTeamsOneWeekFails(teams: seq<Team>, start: int)
    requires |teams| == 4
    requires WDay(start) == 1
    ensures ValidateWindow(start, start + 7).Pass?
    ensures |FindAvailableSlots(start, start + 7)| < |GenerateGames(teams)|
  {
    SevenDaysHoldThreeGameDays(start);
    GameDayCountSplit(start, start + 6, start + 7);
    WDayAfter(start, 6);
    WDaySuccessor(start + 6);
    assert GameDayCount(start + 7, start + 7) == 0;
  }
}
