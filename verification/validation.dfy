/** The checks the builder makes before any scheduling work: the date window
    and the size of the roster. */
module Validation {
  import opened CalendarTypes

  /** The date-range part of the input validation: the start must precede the
      end, and the two must be at least a week apart. The two checks run in
      that order, so the first one that fails names the error. */
  function ValidateWindow(start: int, end: int): (r: Outcome)
    ensures r.Pass? <==> end - start >= 7
    ensures r == Fail(StartNotBeforeEnd) <==> start >= end
    ensures r == Fail(PeriodTooShort) <==> 0 < end - start < 7
  {
    if start >= end then Fail(StartNotBeforeEnd)
    else if end - start < 7 then Fail(PeriodTooShort)
    else Pass
  }

  /** The roster guard run after loading: fewer than two teams is fatal;
      otherwise the roster passes through unchanged. */
  function RequireTeams(teams: seq<Team>): (r: Result<seq<Team>>)
    ensures r.Success? <==> |teams| >= 2
    ensures r.Success? ==> r.value == teams
    ensures r.Failure? ==> r.error == InsufficientTeams
  {
    if |teams| < 2 then Failure(InsufficientTeams) else Success(teams)
  }
}
