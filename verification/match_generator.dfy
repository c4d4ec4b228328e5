/** The double round-robin: every pair of roster positions meets twice, once
    with each side at home. Pairs are taken as Ruby's `combination(2)` takes
    them, by position, so equal roster entries are still distinct teams. */
module MatchGenerator {
  import opened CalendarTypes

  /** Lexicographic order on position pairs. */
  predicate PairLess(p: (nat, nat), q: (nat, nat)) {
    p.0 < q.0 || (p.0 == q.0 && p.1 < q.1)
  }

  predicate PairLe(p: (nat, nat), q: (nat, nat)) {
    p == q || PairLess(p, q)
  }

  /** The position pairs `combination(2)` yields from `(i, j)` on: `(i, j)`,
      `(i, j + 1)`, ..., then the rows of `i + 1`, `i + 2`, ... */
  function PairsFrom(i: nat, j: nat, n: nat): (r: seq<(nat, nat)>)
    requires i < j
    ensures forall k :: 0 <= k < |r| ==> r[k].0 < r[k].1 < n
    ensures forall k :: 0 <= k < |r| ==> PairLe((i, j), r[k])
    ensures forall k, l :: 0 <= k < l < |r| ==> PairLess(r[k], r[l])
    decreases n - i, n - j
  {
    if i >= n then []
    else if j >= n then PairsFrom(i + 1, i + 2, n)
    else [(i, j)] + PairsFrom(i, j + 1, n)
  }

  lemma {:induction false} PairsFromLength(i: nat, j: nat, n: nat)
    requires i < j <= n
    ensures 2 * |PairsFrom(i, j, n)| == 2 * (n - j) + (n - i - 1) * (n - i - 2)
    decreases n - i, n - j
  {
    if j == n {
      if i + 2 <= n {
        PairsFromLength(i + 1, i + 2, n);
      }
    } else {
      PairsFromLength(i, j + 1, n);
    }
  }

  lemma {:induction false} PairsFromComplete(i: nat, j: nat, n: nat, a: nat, b: nat)
    requires i < j && a < b < n
    requires PairLe((i, j), (a, b))
    ensures (a, b) in PairsFrom(i, j, n)
    decreases n - i, n - j
  {
    if j >= n {
      PairsFromComplete(i + 1, i + 2, n, a, b);
    } else if (a, b) != (i, j) {
      PairsFromComplete(i, j + 1, n, a, b);
    }
  }

  /** `combination(2)` over `n` positions: pairs `i < j` in lexicographic
      order, `n * (n - 1) / 2` of them (all of them: `Combination2Complete`). */
  function Combination2(n: nat): (r: seq<(nat, nat)>)
    ensures 2 * |r| == n * (n - 1)
    ensures forall k :: 0 <= k < |r| ==> r[k].0 < r[k].1 < n
    ensures forall k, l :: 0 <= k < l < |r| ==> PairLess(r[k], r[l])
  {
    if n == 0 then []
    else
      PairsFromLength(0, 1, n);
      PairsFrom(0, 1, n)
  }

  /** Every pair of positions `a < b` is among the pairs of `combination(2)`. */
  lemma Combination2Complete(n: nat, a: nat, b: nat) returns (p: nat)
    requires a < b < n
    ensures p < |Combination2(n)| && Combination2(n)[p] == (a, b)
  {
    PairsFromComplete(0, 1, n, a, b);
    var pairs := PairsFrom(0, 1, n);
    assert Combination2(n) == pairs;
    p :| 0 <= p < |pairs| && pairs[p] == (a, b);
  }

  /** Both legs of each pair, in pair order: `home = teams[i], away = teams[j]`,
      then the return leg. */
  function GamesOf(teams: seq<Team>, pairs: seq<(nat, nat)>): (r: seq<Match>)
    requires forall k :: 0 <= k < |pairs| ==> pairs[k].0 < |teams| && pairs[k].1 < |teams|
    ensures |r| == 2 * |pairs|
    ensures forall k :: 0 <= k < |pairs| ==>
              r[2 * k] == Match(teams[pairs[k].0], teams[pairs[k].1]) &&
              r[2 * k + 1] == Match(teams[pairs[k].1], teams[pairs[k].0])
  {
    if |pairs| == 0 then []
    else
      var (x, y) := pairs[0];
      [Match(teams[x], teams[y]), Match(teams[y], teams[x])] + GamesOf(teams, pairs[1..])
  }

  /** The full fixture list of the roster. */
  function GenerateGames(teams: seq<Team>): (r: seq<Match>)
    ensures |r| == |teams| * (|teams| - 1)
  {
    GamesOf(teams, Combination2(|teams|))
  }

  /** The (home, away) positions of game `k` of an `n`-team roster. */
  function HomeAway(n: nat, k: nat): (nat, nat)
    requires k < n * (n - 1)
  {
    var pairs := Combination2(n);
    var p := pairs[k / 2];
    if k % 2 == 0 then p else (p.1, p.0)
  }

  /** Game `k` is played between the teams at `HomeAway(n, k)`, two distinct
      positions of the roster. */
  lemma GameAtPositions(teams: seq<Team>, k: nat)
    requires k < |GenerateGames(teams)|
    ensures HomeAway(|teams|, k).0 < |teams| && HomeAway(|teams|, k).1 < |teams|
    ensures HomeAway(|teams|, k).0 != HomeAway(|teams|, k).1
    ensures GenerateGames(teams)[k] == Match(teams[HomeAway(|teams|, k).0], teams[HomeAway(|teams|, k).1])
  {
    var pairs := Combination2(|teams|);
    var games := GamesOf(teams, pairs);
    assert GenerateGames(teams) == games;
    var p := k / 2;
    assert p < |pairs|;
    var (i, j) := pairs[p];
    assert i < j < |teams|;
    // Naming which leg `k` is keeps the solver from searching the
    // arithmetic of `k / 2` and `k % 2` on its own.
    if k % 2 == 0 {
      LegAt(teams, pairs, p);
      assert k == 2 * p;
    } else {
      LegAt(teams, pairs, p);
      assert k == 2 * p + 1;
    }
  }

  /** The two games of pair `p`, as `GamesOf` lays them out. */
  lemma LegAt(teams: seq<Team>, pairs: seq<(nat, nat)>, p: nat)
    requires forall k :: 0 <= k < |pairs| ==> pairs[k].0 < |teams| && pairs[k].1 < |teams|
    requires p < |pairs|
    ensures GamesOf(teams, pairs)[2 * p] == Match(teams[pairs[p].0], teams[pairs[p].1])
    ensures GamesOf(teams, pairs)[2 * p + 1] == Match(teams[pairs[p].1], teams[pairs[p].0])
  {
  }

  /** Every ordered pair of distinct positions plays exactly one game. */
  lemma EveryOrderedPairOnce(n: nat, h: nat, a: nat)
    requires h < n && a < n && h != a
    ensures exists k :: 0 <= k < n * (n - 1) && HomeAway(n, k) == (h, a)
    ensures forall k, l ::
              (0 <= k < n * (n - 1) && 0 <= l < n * (n - 1) &&
               HomeAway(n, k) == (h, a) && HomeAway(n, l) == (h, a)) ==> k == l
  {
    var pairs := Combination2(n);
    var lo, hi := if h < a then h else a, if h < a then a else h;
    var p := Combination2Complete(n, lo, hi);
    var k := if h < a then 2 * p else 2 * p + 1;
    assert k / 2 == p;
    assert HomeAway(n, k) == (h, a);
    forall k1, l1 | 0 <= k1 < n * (n - 1) && 0 <= l1 < n * (n - 1) &&
                    HomeAway(n, k1) == (h, a) && HomeAway(n, l1) == (h, a)
      ensures k1 == l1
    {
      assert k1 == 2 * (k1 / 2) + k1 % 2;
      assert l1 == 2 * (l1 / 2) + l1 % 2;
      assert k1 % 2 == l1 % 2;
      assert pairs[k1 / 2] == pairs[l1 / 2];
      assert k1 / 2 == l1 / 2;
    }
  }

  /** For positions `i < j`, the game `teams[i]` v `teams[j]` is played at an
      even position `k` and its return leg immediately after it. */
  lemma ReturnLegFollows(teams: seq<Team>, i: nat, j: nat) returns (k: nat)
    requires i < j < |teams|
    ensures k % 2 == 0 && k + 1 < |GenerateGames(teams)|
    ensures GenerateGames(teams)[k] == Match(teams[i], teams[j])
    ensures GenerateGames(teams)[k + 1] == Match(teams[j], teams[i])
  {
    var pairs := Combination2(|teams|);
    var p := Combination2Complete(|teams|, i, j);
    var games := GamesOf(teams, pairs);
    assert GenerateGames(teams) == games;
    k := 2 * p;
    assert games[k] == Match(teams[i], teams[j]) && games[k + 1] == Match(teams[j], teams[i]);
  }

  /** Three teams give six games, the two legs of (A, B), then of (A, C), then of (B, C). */
  lemma ThreeTeamFixtures(a: Team, b: Team, c: Team)
    ensures GenerateGames([a, b, c]) ==
      [Match(a, b), Match(b, a), Match(a, c), Match(c, a), Match(b, c), Match(c, b)]
  {
    var pairs := [(0, 1), (0, 2), (1, 2)];
    assert Combination2(3) == pairs;
    var g := GamesOf([a, b, c], pairs);
    assert GenerateGames([a, b, c]) == g;
    assert g[0] == Match(a, b) && g[1] == Match(b, a);
    assert g[2] == Match(a, c) && g[3] == Match(c, a);
    assert g[4] == Match(b, c) && g[5] == Match(c, b);
  }
}
