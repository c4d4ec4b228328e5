/** Enumeration of the playable slots of a date window: every date from the
    start to the end inclusive, and on each Friday, Saturday and Sunday one slot
    per kick-off time, numbered in the order they are produced. */
module SlotEnumerator {
  import opened CalendarTypes
  import opened Ordering

  /** Number of game days among the dates `lo..hi`, counted one date at a time. */
  function GameDayCount(lo: int, hi: int): nat
    decreases if lo <= hi then hi - lo + 1 else 0
  {
    if lo > hi then 0
    else (if IsGameDay(lo) then 1 else 0) + GameDayCount(lo + 1, hi)
  }

  /** Slot order within a window: by date, then by position in the time list. */
  predicate SlotBefore(s: Slot, t: Slot)
    requires s.time in GameTimes && t.time in GameTimes
  {
    s.date < t.date || (s.date == t.date && TimeRank(s.time) < TimeRank(t.time))
  }

  /** The slots of game day `d`, one per kick-off time, numbered from `index`:
      the `k`-th slot carries the `k`-th time of the list, so the day's slots
      run in time-list order with consecutive running numbers. */
  function SlotsOnDate(d: int, index: nat): (r: seq<Slot>)
    ensures |r| == |GameTimes|
    ensures forall k :: 0 <= k < |r| ==>
              r[k].date == d && r[k].time in GameTimes && TimeRank(r[k].time) == k &&
              r[k].index == index + k
    ensures forall i, j :: 0 <= i < j < |r| ==> SlotBefore(r[i], r[j])
  {
    seq(|GameTimes|, k requires 0 <= k < |GameTimes| => Slot(d, GameTimes[k], index + k))
  }

  /** The slots of the dates `d..last`, numbered from `index`. */
  function SlotsFrom(d: int, last: int, index: nat): (r: seq<Slot>)
    ensures |r| == |GameTimes| * GameDayCount(d, last)
    ensures forall k :: 0 <= k < |r| ==>
              d <= r[k].date <= last && IsGameDay(r[k].date) &&
              r[k].time in GameTimes && r[k].index == index + k
    decreases if d <= last then last - d + 1 else 0
  {
    if d > last then []
    else if IsGameDay(d) then SlotsOnDate(d, index) + SlotsFrom(d + 1, last, index + |GameTimes|)
    else SlotsFrom(d + 1, last, index)
  }

  /** All slots of the window `start..end`; `index` is the running number from 0. */
  function FindAvailableSlots(start: int, end: int): (r: seq<Slot>)
    ensures |r| == |GameTimes| * GameDayCount(start, end)
    ensures forall k :: 0 <= k < |r| ==>
              start <= r[k].date <= end && IsGameDay(r[k].date) &&
              r[k].time in GameTimes && r[k].index == k
    ensures forall i, j :: 0 <= i < j < |r| ==> SlotBefore(r[i], r[j])
  {
    SlotsFromAscending(start, end, 0);
    SlotsFrom(start, end, 0)
  }

  /** The slots of `d..last` come out strictly ascending by (date, time-list position). */
  lemma {:induction false} SlotsFromAscending(d: int, last: int, index: nat)
    ensures forall i, j :: 0 <= i < j < |SlotsFrom(d, last, index)| ==>
              SlotBefore(SlotsFrom(d, last, index)[i], SlotsFrom(d, last, index)[j])
    decreases if d <= last then last - d + 1 else 0
  {
    if d <= last {
      if IsGameDay(d) {
        var today, rest := SlotsOnDate(d, index), SlotsFrom(d + 1, last, index + |GameTimes|);
        SlotsFromAscending(d + 1, last, index + |GameTimes|);
        var r := today + rest;
        assert SlotsFrom(d, last, index) == r;
        forall i, j | 0 <= i < j < |r|
          ensures SlotBefore(r[i], r[j])
        {
          if j >= |today| && i < |today| {
            assert r[i].date == d < rest[j - |today|].date == r[j].date;
          } else if i >= |today| {
            assert r[i] == rest[i - |today|] && r[j] == rest[j - |today|];
          }
        }
      } else {
        SlotsFromAscending(d + 1, last, index);
      }
    }
  }

  /** Every kick-off time of every game day in `d..last` is enumerated; the
      time is given by its position `rank` in the time list. */
  lemma {:induction false} SlotsFromComplete(d: int, last: int, index: nat, day: int, rank: nat)
    returns (k: nat)
    requires d <= day <= last && IsGameDay(day) && rank < |GameTimes|
    ensures k < |SlotsFrom(d, last, index)|
    ensures SlotsFrom(d, last, index)[k] == Slot(day, GameTimes[rank], index + k)
    decreases last - d, 1
  {
    if d == day {
      k := rank;
      SlotsFromHead(d, last, index, k);
    } else {
      k := SlotsFromCompleteLater(d, last, index, day, rank);
    }
  }

  /** The case of a game day after the first date: it is found past the
      first date's slots. */
  lemma {:induction false} SlotsFromCompleteLater(d: int, last: int, index: nat, day: int, rank: nat)
    returns (k: nat)
    requires d < day <= last && IsGameDay(day) && rank < |GameTimes|
    ensures k < |SlotsFrom(d, last, index)|
    ensures SlotsFrom(d, last, index)[k] == Slot(day, GameTimes[rank], index + k)
    decreases last - d, 0
  {
    if IsGameDay(d) {
      var j := SlotsFromComplete(d + 1, last, index + |GameTimes|, day, rank);
      SlotsFromAfterGameDay(d, last, index, j);
      k := |GameTimes| + j;
    } else {
      k := SlotsFromComplete(d + 1, last, index, day, rank);
      SlotsFromSkipsOffDay(d, last, index);
    }
  }

  /** A date that is not a game day contributes no slot. */
  lemma SlotsFromSkipsOffDay(d: int, last: int, index: nat)
    requires d <= last && !IsGameDay(d)
    ensures SlotsFrom(d, last, index) == SlotsFrom(d + 1, last, index)
  {
  }

  /** On a game day the first slots are that day's, in time-list order. */
  lemma SlotsFromHead(d: int, last: int, index: nat, k: nat)
    requires d <= last && IsGameDay(d) && k < |GameTimes|
    ensures k < |SlotsFrom(d, last, index)|
    ensures SlotsFrom(d, last, index)[k] == Slot(d, GameTimes[k], index + k)
  {
    var today := SlotsOnDate(d, index);
    assert SlotsFrom(d, last, index) == today + SlotsFrom(d + 1, last, index + |GameTimes|);
    assert TimeRank(today[k].time) == k;
  }

  /** Past the slots of game day `d` come the slots of the dates after it. */
  lemma SlotsFromAfterGameDay(d: int, last: int, index: nat, j: nat)
    requires d <= last && IsGameDay(d)
    requires j < |SlotsFrom(d + 1, last, index + |GameTimes|)|
    ensures |GameTimes| + j < |SlotsFrom(d, last, index)|
    ensures SlotsFrom(d, last, index)[|GameTimes| + j] == SlotsFrom(d + 1, last, index + |GameTimes|)[j]
  {
    assert SlotsFrom(d, last, index) ==
           SlotsOnDate(d, index) + SlotsFrom(d + 1, last, index + |GameTimes|);
  }

  /** Every (game day of the window, kick-off time) pair is one of the window's slots. */
  lemma EverySlotEnumerated(start: int, end: int, day: int, t: string) returns (k: nat)
    requires start <= day <= end && IsGameDay(day) && t in GameTimes
    ensures k < |FindAvailableSlots(start, end)|
    ensures FindAvailableSlots(start, end)[k] == Slot(day, t, k)
  {
    k := SlotsFromComplete(start, end, 0, day, TimeRank(t));
  }

  /** Splitting a range of dates splits its game-day count. */
  lemma {:induction false} GameDayCountSplit(lo: int, mid: int, hi: int)
    requires lo - 1 <= mid <= hi
    ensures GameDayCount(lo, hi) == GameDayCount(lo, mid) + GameDayCount(mid + 1, hi)
    decreases mid - lo + 1
  {
    if mid >= lo {
      GameDayCountSplit(lo + 1, mid, hi);
    }
  }

  lemma {:induction false} GameDayCountZero(lo: int, hi: int)
    ensures GameDayCount(lo, hi) == 0 <==> forall d :: lo <= d <= hi ==> !IsGameDay(d)
    decreases if lo <= hi then hi - lo + 1 else 0
  {
    if lo <= hi {
      GameDayCountZero(lo + 1, hi);
    }
  }

  /** The window has no slot exactly when none of its dates is a Friday,
      Saturday or Sunday. */
  lemma NoSlotsIffNoGameDay(start: int, end: int)
    ensures |FindAvailableSlots(start, end)| == 0 <==> forall d :: start <= d <= end ==> !IsGameDay(d)
  {
    GameDayCountZero(start, end);
  }

  /** Any seven consecutive dates hold one Friday, one Saturday and one Sunday. */
  lemma SevenDaysHoldThreeGameDays(d: int)
    ensures GameDayCount(d, d + 6) == 3
  {
    SevenDayUnfold(d);
    WDayAfter(d, 1); WDayAfter(d, 2); WDayAfter(d, 3);
    WDayAfter(d, 4); WDayAfter(d, 5); WDayAfter(d, 6);
    WeekFlagSum(WDay(d));
  }

  function GameDayFlag(w: int): nat {
    if w in GameDays then 1 else 0
  }

  lemma SevenDayUnfold(d: int)
    ensures GameDayCount(d, d + 6) ==
      GameDayFlag(WDay(d)) + GameDayFlag(WDay(d + 1)) + GameDayFlag(WDay(d + 2)) +
      GameDayFlag(WDay(d + 3)) + GameDayFlag(WDay(d + 4)) + GameDayFlag(WDay(d + 5)) +
      GameDayFlag(WDay(d + 6))
  {
    assert GameDayCount(d + 7, d + 6) == 0;
    assert GameDayCount(d + 6, d + 6) == GameDayFlag(WDay(d + 6)) + GameDayCount(d + 7, d + 6);
    assert GameDayCount(d + 5, d + 6) == GameDayFlag(WDay(d + 5)) + GameDayCount(d + 6, d + 6);
    assert GameDayCount(d + 4, d + 6) == GameDayFlag(WDay(d + 4)) + GameDayCount(d + 5, d + 6);
    assert GameDayCount(d + 3, d + 6) == GameDayFlag(WDay(d + 3)) + GameDayCount(d + 4, d + 6);
    assert GameDayCount(d + 2, d + 6) == GameDayFlag(WDay(d + 2)) + GameDayCount(d + 3, d + 6);
    assert GameDayCount(d + 1, d + 6) == GameDayFlag(WDay(d + 1)) + GameDayCount(d + 2, d + 6);
    assert GameDayCount(d, d + 6) == GameDayFlag(WDay(d)) + GameDayCount(d + 1, d + 6);
  }

  /** Wrapping weekday `w + k` back into 0..6. */
  function Wrap(x: int): int {
    if x < 7 then x else x - 7
  }

  /** Whatever weekday a week starts on, three of its seven days are game days. */
  lemma WeekFlagSum(w: int)
    requires 0 <= w < 7
    ensures GameDayFlag(w) + GameDayFlag(Wrap(w + 1)) + GameDayFlag(Wrap(w + 2)) +
            GameDayFlag(Wrap(w + 3)) + GameDayFlag(Wrap(w + 4)) + GameDayFlag(Wrap(w + 5)) +
            GameDayFlag(Wrap(w + 6)) == 3
  {
  }

  lemma WDayAfter(d: int, k: int)
    requires 0 <= k < 7
    ensures WDay(d + k) == Wrap(WDay(d) + k)
  {
    var q := (d + 1) / 7;
    assert d + 1 == 7 * q + WDay(d);
    if WDay(d) + k < 7 {
      assert d + k + 1 == 7 * q + (WDay(d) + k);
    } else {
      assert d + k + 1 == 7 * (q + 1) + (WDay(d) + k - 7);
    }
  }

  /** Every window at least a week long offers at least nine slots. */
  lemma WeekLongWindowSlots(start: int, end: int)
    requires end - start >= 6
    ensures |FindAvailableSlots(start, end)| >= 9
  {
    SevenDaysHoldThreeGameDays(start);
    GameDayCountSplit(start, start + 6, end);
  }

  /** Slots come out in increasing (date, time) order as the report sorts them. */
  lemma SlotsInClockOrder(start: int, end: int)
    ensures forall i, j :: 0 <= i < j < |FindAvailableSlots(start, end)| ==>
              KeyLess(FindAvailableSlots(start, end)[i].date, FindAvailableSlots(start, end)[i].time,
                      FindAvailableSlots(start, end)[j].date, FindAvailableSlots(start, end)[j].time)
  {
    GameTimesLexOrdered();
  }
}
