# Tournament calendar builder — scheduling core in Dafny

This project models the scheduling core of `CalendarBuilder`, a Ruby script
that turns a roster of teams and a date window into a double round-robin
calendar. It covers four steps:

- **Window validation.** The start date must be strictly before the end date,
  and the two must be at least 7 days apart.
- **Roster guard.** At least two teams are required.
- **Match generation.** Every pair of roster positions `i < j` is taken in
  `combination(2)` order. Each pair yields `teams[i]` at home to `teams[j]`,
  then the return leg.
- **Slot enumeration.** Every date from start to end is visited. Each Friday,
  Saturday and Sunday gives one slot per kick-off time (12:00, 15:00, 18:00),
  and the slots are numbered with a running `index`.
- **Slot assignment.** This is a greedy pass over the slots. It places at most
  `MAX_SIMULTANEOUS_GAMES = 2` games per slot, in fixture order. It stops
  filling a slot once the running total reaches `(slot.index + 1) *
  games_per_slot`, where `games_per_slot = ceil(games / slots)`. It fails up
  front when there are fewer slots than games.

Dates are Julian day numbers. Ruby's `Date#wday` is `(jd + 1) % 7`. Ruby's
`%` floors and Dafny's is Euclidean, but the two agree for the positive
divisor 7. Kick-off times are kept as the source's strings. This lets the
report's `sort_by { [date, time] }` be argued with string order. Strings are
compared here character by character, by code point. Ruby compares the UTF-8
bytes, which gives the same order: UTF-8 preserves code-point order, and the
kick-off times are ASCII. Teams are `{name, city}` records identified by
position, so duplicate entries are still distinct teams.

Main results:

- **The even-spread policy collapses.** Line 75 guarantees `slots >= games`,
  and the roster guard gives `games >= 2`. So `games_per_slot` is always 1,
  and the pacing cutoff fires after every placement. Game `k` therefore lands
  in slot `k` (`SlotAssigner.ScheduleGames`). The capacity of 2 is never
  reached, and the games fill the earliest slots of the window rather than
  being spread over it.
- **The report's re-sort changes nothing.** The assigned list is already
  strictly ascending by (date, time) (`CalendarBuilder.Build`). A strictly
  ascending list has exactly one ascending permutation
  (`Ordering.SortedPermutationUnique`).

Files, one module each:

| file | module | concern |
|---|---|---|
| calendar_types.dfy | CalendarTypes | entities, constants, error kinds, weekday |
| ordering.dfy | Ordering | string and (date, time) order, uniqueness of the sorted order |
| validation.dfy | Validation | window check, roster-size guard |
| match_generator.dfy | MatchGenerator | `combination(2)` and the two legs per pair |
| slot_enumerator.dfy | SlotEnumerator | slot enumeration and game-day counting |
| slot_assigner.dfy | SlotAssigner | the assignment pass |
| calendar_builder.dfy | CalendarBuilder | the pipeline and window-size consequences |

## Model

| member | source | states |
|---|---|---|
| CalendarTypes.WDay | labs/lab2/build_calendar.rb:109 | Ruby's `Date#wday` on a Julian day number, `(jd + 1) % 7`. Every date gets a weekday number in 0..6, with 0 = Sunday. |
| CalendarTypes.WDayAnchors | labs/lab2/build_calendar.rb:109 | Checks the weekday numbering against the calendar: Julian day 2451545 (1 January 2000) is a Saturday and a game day. Julian day 2440588 (1 January 1970) is a Thursday and not a game day. |
| CalendarTypes.WDaySuccessor | labs/lab2/build_calendar.rb:109 | The day after a date has the next weekday number, with Saturday (6) wrapping to Sunday (0). |
| CalendarTypes.GameDayIsWeekend | labs/lab2/build_calendar.rb:6 | `GAME_DAYS.include?(wday)` holds exactly for Sunday (0) and for Friday and Saturday (5 and 6). |
| CalendarTypes.PlaceKeepsDateTimeGame | labs/lab2/build_calendar.rb:87-91 | A scheduled entry holds the slot's date and time and the game, and nothing else. Two entries are equal exactly when those three agree; the slot's running number is not kept. |
| Validation.ValidateWindow | labs/lab2/build_calendar.rb:39-42 | The window is accepted exactly when the end is at least 7 days after the start. A start on or after the end reports the ordering error. A gap of 1 to 6 days reports the too-short error. |
| Validation.RequireTeams | labs/lab2/build_calendar.rb:58 | The roster passes, unchanged, exactly when it has at least two teams. Otherwise the run fails with the insufficient-teams error. |
| MatchGenerator.PairsFrom | labs/lab2/build_calendar.rb:64 | Every pair yielded from `(i, j)` on has first position < second position < n. No pair comes before `(i, j)`, and the pairs are strictly increasing in lexicographic order. |
| MatchGenerator.PairsFromLength | labs/lab2/build_calendar.rb:64 | Gives the number of pairs yielded from `(i, j)`: the rest of row `i` plus all later rows. |
| MatchGenerator.PairsFromComplete | labs/lab2/build_calendar.rb:64 | Every pair `a < b < n` at or after `(i, j)` is yielded. |
| MatchGenerator.Combination2 | labs/lab2/build_calendar.rb:64 | `combination(2)` on n positions gives n(n-1)/2 pairs in strictly increasing lexicographic order, each with first position < second position < n. |
| MatchGenerator.Combination2Complete | labs/lab2/build_calendar.rb:64 | Every pair of positions a < b < n occurs among the pairs of `combination(2)`, at a returned position. |
| MatchGenerator.GamesOf | labs/lab2/build_calendar.rb:64-67 | Emits two games per pair. Game 2p is `teams[i]` at home to `teams[j]` for pair p = (i, j), and game 2p+1 is the return leg. |
| MatchGenerator.GenerateGames | labs/lab2/build_calendar.rb:62-67 | A roster of n teams yields exactly n(n-1) games. |
| MatchGenerator.GameAtPositions | labs/lab2/build_calendar.rb:64-66 | Game k is played between two distinct roster positions. Its home and away teams are the teams at those positions. |
| MatchGenerator.EveryOrderedPairOnce | labs/lab2/build_calendar.rb:64-66 | Every ordered pair of distinct positions (home, away) is played in exactly one game. |
| MatchGenerator.ReturnLegFollows | labs/lab2/build_calendar.rb:65-66 | For positions i < j, game `teams[i]` v `teams[j]` sits at an even position and its return leg comes right after it. |
| MatchGenerator.ThreeTeamFixtures | labs/lab2/build_calendar.rb:62-67 | Three teams A, B, C give (A,B), (B,A), (A,C), (C,A), (B,C), (C,B). |
| SlotEnumerator.SlotsOnDate | labs/lab2/build_calendar.rb:110-113 | A game day gives one slot per kick-off time. The k-th slot has the k-th time of the list, and the running numbers are consecutive. The day's slots ascend in time-list order. |
| SlotEnumerator.SlotsFrom | labs/lab2/build_calendar.rb:108-116 | The dates d..last give 3 slots per game day. Each slot is dated in range, falls on a Friday, Saturday or Sunday, has a listed time, and has index = start index + position. |
| SlotEnumerator.SlotsFromAscending | labs/lab2/build_calendar.rb:108-116 | The slots of d..last are strictly ascending by (date, time-list position). |
| SlotEnumerator.SlotsFromComplete | labs/lab2/build_calendar.rb:108-116 | Every kick-off time of every game day in d..last appears among the slots of d..last. |
| SlotEnumerator.EverySlotEnumerated | labs/lab2/build_calendar.rb:103-119 | Every (game day in the window, kick-off time) pair is a slot of the window. Its `index` is its position. |
| SlotEnumerator.FindAvailableSlots | labs/lab2/build_calendar.rb:103-119 | The window's slots number 3 × (game days in the window). Each lies in [start, end] on a game day at a listed time, has `index` equal to its position, and the slots are strictly ascending by (date, time position). |
| SlotEnumerator.GameDayCountSplit | labs/lab2/build_calendar.rb:108-116 | The game-day count of a date range is the sum of the counts of its two halves. |
| SlotEnumerator.GameDayCountZero | labs/lab2/build_calendar.rb:109 | The game-day count is zero exactly when no date in the range is a Friday, Saturday or Sunday. |
| SlotEnumerator.NoSlotsIffNoGameDay | labs/lab2/build_calendar.rb:108-118 | The window yields no slot exactly when none of its dates is a Friday, Saturday or Sunday. |
| SlotEnumerator.SevenDaysHoldThreeGameDays | labs/lab2/build_calendar.rb:6 | Any 7 consecutive dates hold exactly 3 game days. |
| SlotEnumerator.WDayAfter | labs/lab2/build_calendar.rb:109 | k days later (k < 7), the weekday number has advanced by k modulo 7. |
| SlotEnumerator.WeekLongWindowSlots | labs/lab2/build_calendar.rb:103-119 | A window of at least 7 dates yields at least 9 slots. |
| SlotEnumerator.SlotsInClockOrder | labs/lab2/build_calendar.rb:108-116 | The enumerated slots are strictly ascending in the (date, time string) order the report sorts by. |
| Ordering.GameTimesLexOrdered | labs/lab2/build_calendar.rb:7 | The kick-off time strings are in strictly increasing string order. |
| Ordering.StrLessIrreflexive | labs/lab2/build_calendar.rb:131 | No time string sorts before itself. |
| Ordering.StrLessAsymmetric | labs/lab2/build_calendar.rb:131 | Two time strings never each sort before the other. |
| Ordering.StrLessIsLexicographic | labs/lab2/build_calendar.rb:131 | The recursive string comparison is the usual lexicographic order. `a` sorts before `b` exactly when, at the first position where they differ, `a` ends or has the smaller character. |
| Ordering.StrLessTotal | labs/lab2/build_calendar.rb:131 | Two different strings are always ordered one way or the other. |
| Ordering.StrLessTransitive | labs/lab2/build_calendar.rb:131 | String order is transitive. |
| Ordering.KeyLessTrichotomy | labs/lab2/build_calendar.rb:131 | Any two `[date, time]` keys are equal or strictly ordered one way, never both ways, and an equal key is not strictly before itself. |
| Ordering.KeyLeIffNotGreater | labs/lab2/build_calendar.rb:131 | A `[date, time]` key is at or before another exactly when it is not strictly after it. |
| Ordering.KeyLessTransitive | labs/lab2/build_calendar.rb:131 | The strict `[date, time]` order is transitive. |
| Ordering.SortedPermutationUnique | labs/lab2/build_calendar.rb:131 | Take a list strictly ascending by (date, time). Any ascending permutation of it is the list itself, so re-sorting it for the report leaves the order unchanged. |
| Ordering.SameHead | labs/lab2/build_calendar.rb:131 | An ascending permutation of a strictly ascending list starts with the same game as that list. |
| SlotAssigner.CeilDiv | labs/lab2/build_calendar.rb:78 | The result r is the ceiling of a / b: b(r-1) < a <= b·r. |
| SlotAssigner.GamesPerSlotIsOne | labs/lab2/build_calendar.rb:75-78 | With 1 <= games <= slots, the even-spread target `games_per_slot` is 1. |
| SlotAssigner.PacingTarget | labs/lab2/build_calendar.rb:96 | The running total at which filling a slot stops is never below one share. For the first slot it is exactly one share, and with a share of one game it is the number of slots up to and including this one. |
| SlotAssigner.PacingTargetStep | labs/lab2/build_calendar.rb:96 | Each next slot's stopping total is one share (`games_per_slot`) above the previous slot's. |
| SlotAssigner.FillSlot | labs/lab2/build_calendar.rb:84-97 | One slot takes the next games in order. It takes at least one while games remain and at most `MAX_SIMULTANEOUS_GAMES`. It stops exactly when the games run out, the slot is full, or the running total reaches `(index + 1) * games_per_slot`, and not at an earlier placement. |
| SlotAssigner.ScheduleGames | labs/lab2/build_calendar.rb:71-101 | It fails exactly when slots < games, before any placement (or on 0/0 for the ceiling). On success every game appears once, in input order, in a slot, at nondecreasing slot positions, with at most 2 games per slot. When slot indexes equal their positions, game k is in slot k, so each slot hosts at most one game and slots past the last game stay empty. |
| SlotAssigner.AssignInOrder | labs/lab2/build_calendar.rb:83-99 | The walk over the slots places every game exactly once, in fixture order, in a slot of the list, at nondecreasing slot positions, with at most 2 games per slot. With a target of one game per slot and slot indexes equal to positions, game k goes to slot k. |
| SlotAssigner.HostAppend | labs/lab2/build_calendar.rb:86 | Filling a fresh slot with at most 2 games keeps every slot within capacity. |
| SlotAssigner.PlaceBlock | labs/lab2/build_calendar.rb:83-97 | The games placed in slot s extend the in-order, capacity-respecting placement from the slots before s to the slots up to s. |
| CalendarBuilder.Build | labs/lab2/build_calendar.rb:19-23 | The window is checked before the roster, and both before scheduling. With a valid window and roster, the run succeeds exactly when n(n-1) <= the number of slots, and otherwise fails for lack of slots. On success game k of the fixture list is in slot k. Every game lies in the window on a game day at a listed time, and the list is strictly ascending by (date, time). |
| CalendarBuilder.ScheduleFollowsSlots | labs/lab2/build_calendar.rb:108-116 | A schedule that puts game k in slot k of the window lies in the window, on game days, at listed times, and is strictly ascending by (date, time). |
| CalendarBuilder.AcceptedWindowYieldsNineSlots | labs/lab2/build_calendar.rb:39-42 | An accepted window covers at least 8 dates and at least 9 slots. |
| CalendarBuilder.SmallRosterFits | labs/lab2/build_calendar.rb:75 | Two or three teams always fit in an accepted window. |
| CalendarBuilder.FourTeamsOneWeekFails | labs/lab2/build_calendar.rb:75 | Four teams (12 games) do not fit in the 9 slots of an accepted 8-date window starting on a Monday. |

## Left out

- The roster-file existence check, reading the roster file, writing the calendar file and the console messages (labs/lab2/build_calendar.rb:25, 38, 46, 59, 68, 121-152). These are file and console I/O.
- Parsing dates with `Date.strptime` and its error (lines 30-35). This is a library call. Dates are taken as already-parsed day numbers.
- The roster-line regular expression (line 49). The roster is taken as an already-loaded sequence of `{name, city}` records. Only the count guard at line 58 is modelled.
- The report layout: banners, `center`, `sprintf` padding, and the weekday and month name tables (lines 121-164). This is text formatting with no scheduling meaning. Only the order produced by the `sort_by` at line 131 is modelled.
- The command-line argument check and the exit path (lines 168-180).
- SlotAssigner.CeilDiv: `(a.to_f / b).ceil` uses floating point and is modelled as integer ceiling division. This is exact for counts far below 2^53. The one floating-point effect kept is that `0.0 / 0` has no ceiling: with no games and no slots, `ScheduleGames` fails with `NonFiniteCeiling`. A run cannot reach that case, because at least 2 teams give at least 2 games.
- The insufficient-slots error carries no counts, because the source's message (line 75) has none.
- Repeated runs giving identical output is not stated as a lemma. Every operation here is a pure function of its inputs, or a method without hidden state.
