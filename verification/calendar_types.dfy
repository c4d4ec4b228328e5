/** Entities, policy constants and error kinds of the calendar builder.

    Dates are day numbers (Julian day numbers, as Ruby's `Date#jd`), so the
    successor of a date is `d + 1` and the difference of two dates is a plain
    subtraction. Times of day are the strings of the weekly pattern. */
module CalendarTypes {

  /** A roster entry. Identity is positional: two equal records are still two teams. */
  datatype Team = Team(name: string, city: string)

  /** One leg of a pairing: `home` receives `away`. */
  datatype Match = Match(home: Team, away: Team)

  /** A playable (date, time) opportunity; `index` is its running number in the enumeration. */
  datatype Slot = Slot(date: int, time: string, index: nat)

  /** A match placed in a slot. */
  datatype ScheduledGame = ScheduledGame(date: int, time: string, game: Match)

  /** The failures the builder reports; each one aborts the run. */
  datatype CalendarError =
    | StartNotBeforeEnd   // start date on or after the end date
    | PeriodTooShort      // fewer than 7 days between the two dates
    | InsufficientTeams   // fewer than 2 teams on the roster
    | InsufficientSlots   // fewer playable slots than matches
    | NonFiniteCeiling    // `(0.0 / 0).ceil` with no games and no slots

  datatype Result<T> = Success(value: T) | Failure(error: CalendarError)

  datatype Outcome = Pass | Fail(error: CalendarError)

  /** Weekdays on which games are played, in Ruby's numbering (0 = Sunday): Friday, Saturday, Sunday. */
  const GameDays: seq<int> := [5, 6, 0]

  /** Kick-off times of a game day, in the order they are enumerated. */
  const GameTimes: seq<string> := ["12:00", "15:00", "18:00"]

  /** How many games one slot may host at most. */
  const MaxSimultaneousGames: nat := 2

  /** Ruby's `Date#wday` on a Julian day number: `(jd + 1) % 7`, 0 = Sunday.
      Ruby's `%` floors and Dafny's is Euclidean; for the positive divisor 7
      they agree on every integer. */
  function WDay(jd: int): (w: int)
    ensures 0 <= w < 7
  {
    (jd + 1) % 7
  }

  /** The date falls on one of the game weekdays. */
  predicate IsGameDay(jd: int) {
    WDay(jd) in GameDays
  }

  /** Read as a weekday range: the game days are the two days that close the
      week (Friday, Saturday) and the one that opens it (Sunday). */
  lemma GameDayIsWeekend(jd: int)
    ensures IsGameDay(jd) <==> WDay(jd) == 0 || 5 <= WDay(jd)
  {
  }

  /** The scheduled entry for `game` held in `slot`. */
  function Place(slot: Slot, game: Match): ScheduledGame {
    ScheduledGame(slot.date, slot.time, game)
  }

  /** The scheduled entry keeps the slot's date and time and the game, and
      nothing else: the slot's running number is dropped. */
  lemma PlaceKeepsDateTimeGame(s: Slot, t: Slot, g: Match, h: Match)
    ensures Place(s, g) == Place(t, h) <==> s.date == t.date && s.time == t.time && g == h
    ensures Place(s, g).date == s.date && Place(s, g).time == s.time && Place(s, g).game == g
  {
  }

  /** Position of a kick-off time in the weekly time list. */
  function TimeRank(t: string): (k: nat)
    requires t in GameTimes
    ensures k < |GameTimes| && GameTimes[k] == t
  {
    if t == GameTimes[0] then 0 else if t == GameTimes[1] then 1 else 2
  }

  /** Two reference dates pin the numbering to the calendar: 1 January 2000
      (Julian day 2451545) was a Saturday and 1 January 1970 (Julian day
      2440588) a Thursday. */
  lemma WDayAnchors()
    ensures WDay(2451545) == 6 && IsGameDay(2451545)
    ensures WDay(2440588) == 4 && !IsGameDay(2440588)
  {
  }

  /** Consecutive days advance the weekday by one, wrapping Saturday to Sunday. */
  lemma WDaySuccessor(jd: int)
    ensures WDay(jd + 1) == (WDay(jd) + 1) % 7
  {
  }
}
