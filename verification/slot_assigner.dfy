/** Placement of the fixture list into the slots: a greedy pass over the slots
    that puts up to `MaxSimultaneousGames` games in each, in fixture order,
    and stops filling a slot once the running total reaches the pacing target
    `(slot.index + 1) * gamesPerSlot`. */
module SlotAssigner {
  import opened CalendarTypes

  /** Ceiling of `a / b`, the integer value of Ruby's `(a.to_f / b).ceil`. */
  function CeilDiv(a: nat, b: nat): (r: nat)
    requires b > 0
    ensures b * (r - 1) < a <= b * r
  {
    (a + b - 1) / b
  }

  /** With at least as many slots as games, and at least one game, the even
      spread target is one game per slot. */
  lemma GamesPerSlotIsOne(games: nat, slots: nat)
    requires 1 <= games <= slots
    ensures CeilDiv(games, slots) == 1
  {
    var r := CeilDiv(games, slots);
    MulLessCancel(slots, r - 1, 1);
    MulLessCancel(slots, 0, r);
  }

  /** Multiplying by a positive factor preserves strict order both ways. */
  lemma MulLessCancel(b: int, x: int, y: int)
    requires b > 0
    ensures b * x < b * y <==> x < y
  {
    if x < y {
      assert b * y == b * x + b * (y - x);
    } else {
      assert b * x == b * y + b * (x - y);
    }
  }

  /** Every slot's `index` is its position in the slot list. */
  predicate IndexedByPosition(slots: seq<Slot>) {
    forall k :: 0 <= k < |slots| ==> slots[k].index == k
  }

  /** The running total at which filling `slot` stops early: the even share
      of every slot up to and including this one. The first slot's target is
      one share, and with a share of one game it is the number of slots so far. */
  function PacingTarget(slot: Slot, gamesPerSlot: nat): (r: nat)
    ensures slot.index == 0 ==> r == gamesPerSlot
    ensures gamesPerSlot <= r
    ensures gamesPerSlot == 1 ==> r == slot.index + 1
  {
    (slot.index + 1) * gamesPerSlot
  }

  /** Each next slot's target is one share above the previous slot's. */
  lemma PacingTargetStep(s: Slot, t: Slot, gamesPerSlot: nat)
    requires t.index == s.index + 1
    ensures PacingTarget(t, gamesPerSlot) == PacingTarget(s, gamesPerSlot) + gamesPerSlot
  {
  }

  /** Filling one slot: starting at game `gameIndex`, place games into `slot`
      until the games run out, the slot holds `MaxSimultaneousGames`, or the
      running total reaches the pacing target `(slot.index + 1) * gamesPerSlot`,
      whichever comes first. At least one game is placed while any remain. */
  method FillSlot(games: seq<Match>, slot: Slot, gameIndex: nat, gamesPerSlot: nat)
    returns (placed: seq<ScheduledGame>, next: nat)
    requires gameIndex <= |games|
    ensures gameIndex <= next <= |games|
    ensures next - gameIndex <= MaxSimultaneousGames
    ensures next == gameIndex <==> gameIndex == |games|
    ensures next > gameIndex ==>
              next == |games| || next - gameIndex == MaxSimultaneousGames ||
              next >= PacingTarget(slot, gamesPerSlot)
    ensures next > gameIndex + 1 ==> next - 1 < PacingTarget(slot, gamesPerSlot)
    ensures gamesPerSlot == 1 && slot.index == gameIndex < |games| ==> next == gameIndex + 1
    ensures |placed| == next - gameIndex
    ensures forall j :: 0 <= j < |placed| ==> placed[j] == Place(slot, games[gameIndex + j])
  {
    placed := [];
    next := gameIndex;
    var gamesInSlot := 0;
    while next < |games| && gamesInSlot < MaxSimultaneousGames
      invariant gameIndex <= next <= |games|
      invariant gamesInSlot == next - gameIndex <= MaxSimultaneousGames
      invariant |placed| == gamesInSlot
      invariant forall j :: 0 <= j < |placed| ==> placed[j] == Place(slot, games[gameIndex + j])
      invariant next > gameIndex ==> next < PacingTarget(slot, gamesPerSlot)
    {
      placed := placed + [Place(slot, games[next])];
      next := next + 1;
      gamesInSlot := gamesInSlot + 1;
      if next >= PacingTarget(slot, gamesPerSlot) {
        break;
      }
    }
  }

  /** The assignment pass. Fails before placing anything when there are fewer
      slots than games; with no games and no slots the ceiling of `0.0 / 0`
      is undefined and fails too. On success every game is placed once, in
      order; the ghost `host[k]` is the position of the slot game `k` went to.
      When slot indexes are their positions the target is one game per slot,
      the pacing cutoff fires after every placement, and game `k` lands in
      slot `k`. */
  method ScheduleGames(games: seq<Match>, slots: seq<Slot>)
    returns (r: Result<seq<ScheduledGame>>, ghost host: seq<nat>)
    ensures r.Failure? <==> |slots| < |games| || |slots| == 0
    ensures |slots| < |games| ==> r == Failure(InsufficientSlots)
    ensures |slots| == |games| == 0 ==> r == Failure(NonFiniteCeiling)
    ensures r.Success? ==> |r.value| == |games| == |host|
    ensures r.Success? ==> forall k :: 0 <= k < |games| ==>
              host[k] < |slots| && r.value[k] == Place(slots[host[k]], games[k])
    ensures r.Success? ==> forall k :: 0 < k < |host| ==> host[k - 1] <= host[k]
    ensures r.Success? ==> forall x :: multiset(host)[x] <= MaxSimultaneousGames
    ensures r.Success? && IndexedByPosition(slots) ==> forall k :: 0 <= k < |games| ==>
              host[k] == k && r.value[k] == Place(slots[k], games[k])
  {
    if |slots| < |games| {
      return Failure(InsufficientSlots), [];
    }
    if |slots| == 0 {
      return Failure(NonFiniteCeiling), [];
    }
    var gamesPerSlot := CeilDiv(|games|, |slots|);
    if |games| > 0 {
      GamesPerSlotIsOne(|games|, |slots|);
    }
    var scheduled;
    scheduled, host := AssignInOrder(games, slots, gamesPerSlot);
    r := Success(scheduled);
  }

  /** The walk over the slots once enough of them are known to exist: each
      slot takes the next games through `FillSlot` until every game is
      placed. The source leaves the walk right after the slot that placed the
      last game; testing for that before the next slot instead is the second
      conjunct of the loop guard. Every slot takes at least one game while
      games remain, so all are placed. With a target of one game per slot
      and indexes equal to positions, game `k` goes to slot `k`. */
  method AssignInOrder(games: seq<Match>, slots: seq<Slot>, gamesPerSlot: nat)
    returns (scheduled: seq<ScheduledGame>, ghost host: seq<nat>)
    requires |games| <= |slots|
    ensures |scheduled| == |games|
    ensures forall k :: 0 <= k < |games| ==> scheduled[k].game == games[k]
    ensures gamesPerSlot == 1 && IndexedByPosition(slots) ==>
              forall k :: 0 <= k < |games| ==> scheduled[k] == Place(slots[k], games[k])
    ensures |host| == |games|
    ensures forall k :: 0 <= k < |games| ==>
              host[k] < |slots| && scheduled[k] == Place(slots[host[k]], games[k])
    ensures forall k :: 0 < k < |host| ==> host[k - 1] <= host[k]
    ensures forall x :: multiset(host)[x] <= MaxSimultaneousGames
    ensures gamesPerSlot == 1 && IndexedByPosition(slots) ==> forall k :: 0 <= k < |games| ==> host[k] == k
  {
    ghost var collapse := IndexedByPosition(slots) && gamesPerSlot == 1;
    scheduled := [];
    var gameIndex := 0;
    host := [];
    var s := 0;
    while s < |slots| && gameIndex < |games|
      invariant s <= gameIndex <= |games|
      invariant |scheduled| == gameIndex
      invariant PlacedBefore(games, slots, scheduled, host, s)
      invariant collapse ==> gameIndex == s && forall k :: 0 <= k < |host| ==> host[k] == k
    {
      var placed, next := FillSlot(games, slots[s], gameIndex, gamesPerSlot);
      ghost var hosted := seq(|placed|, _ => s);
      PlaceBlock(games, slots, scheduled, host, s, placed, hosted);
      scheduled := scheduled + placed;
      host := host + hosted;
      gameIndex := next;
      s := s + 1;
    }
  }

  /** The games placed so far sit, in order, in slots before position `bound`,
      at nondecreasing slot positions and within every slot's capacity. */
  ghost predicate PlacedBefore(games: seq<Match>, slots: seq<Slot>, scheduled: seq<ScheduledGame>,
                               host: seq<nat>, bound: nat)
  {
    && |scheduled| == |host| <= |games|
    && bound <= |slots|
    && (forall k :: 0 <= k < |host| ==> host[k] < bound && scheduled[k] == Place(slots[host[k]], games[k]))
    && (forall k :: 0 < k < |host| ==> host[k - 1] <= host[k])
    && (forall x :: multiset(host)[x] <= MaxSimultaneousGames)
  }

  /** Filling slot `s` with the next games extends the placement to slot `s + 1`. */
  lemma PlaceBlock(games: seq<Match>, slots: seq<Slot>, scheduled: seq<ScheduledGame>, host: seq<nat>,
                   s: nat, placed: seq<ScheduledGame>, hosted: seq<nat>)
    requires PlacedBefore(games, slots, scheduled, host, s)
    requires s < |slots|
    requires |scheduled| + |placed| <= |games|
    requires |placed| == |hosted| <= MaxSimultaneousGames
    requires forall j :: 0 <= j < |placed| ==> placed[j] == Place(slots[s], games[|scheduled| + j])
    requires forall j :: 0 <= j < |hosted| ==> hosted[j] == s
    ensures PlacedBefore(games, slots, scheduled + placed, host + hosted, s + 1)
  {
    HostAppend(host, s, hosted);
    var sc, h := scheduled + placed, host + hosted;
    forall k | 0 <= k < |h|
      ensures h[k] < s + 1 && sc[k] == Place(slots[h[k]], games[k])
    {
      if k >= |host| {
        assert h[k] == hosted[k - |host|];
        assert sc[k] == placed[k - |host|];
      }
    }
  }

  /** Appending a run of at most `MaxSimultaneousGames` copies of a slot
      position that no earlier game used keeps every slot within capacity. */
  lemma HostAppend(host: seq<nat>, s: nat, hosted: seq<nat>)
    requires forall k :: 0 <= k < |host| ==> host[k] < s
    requires forall x :: multiset(host)[x] <= MaxSimultaneousGames
    requires |hosted| <= MaxSimultaneousGames
    requires forall k :: 0 <= k < |hosted| ==> hosted[k] == s
    ensures forall x :: multiset(host + hosted)[x] <= MaxSimultaneousGames
  {
    assert s !in multiset(host);
    assert multiset(hosted)[s] == |hosted| by {
      assert multiset(hosted) == multiset(seq(|hosted|, _ => s)) by {
        assert hosted == seq(|hosted|, _ => s);
      }
      ConstantMultiset(s, |hosted|);
    }
    forall x
      ensures multiset(host + hosted)[x] <= MaxSimultaneousGames
    {
      assert multiset(host + hosted) == multiset(host) + multiset(hosted);
      if x != s {
        assert x !in multiset(hosted);
      }
    }
  }

  lemma {:induction false} ConstantMultiset(s: nat, n: nat)
    ensures multiset(seq(n, _ => s))[s] == n
  {
    if n > 0 {
      ConstantMultiset(s, n - 1);
      assert seq(n, _ => s) == seq(n - 1, _ => s) + [s];
    }
  }
}
