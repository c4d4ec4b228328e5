/** The order the report sorts by: Ruby's `sort_by { [date, time] }` compares
    the date first and then the time string. Strings are modelled as sequences
    of characters compared by code point; Ruby compares the UTF-8 bytes, and
    the two orders agree (UTF-8 preserves code-point order), in particular on
    the ASCII kick-off times. */
module Ordering {
  import opened CalendarTypes

  /** Ruby's `String#<=>` less-than: lexicographic by character, a proper
      prefix first (`StrLessIsLexicographic` gives the closed form). */
  predicate StrLess(a: string, b: string)
    decreases |a|
  {
    if |a| == 0 then |b| > 0
    else if |b| == 0 then false
    else if a[0] < b[0] then true
    else a[0] == b[0] && StrLess(a[1..], b[1..])
  }

  predicate StrLe(a: string, b: string) {
    a == b || StrLess(a, b)
  }

  /** `a` and `b` agree on their first `k` characters, and position `k` is
      where `a` ends while `b` goes on, or where `a` has the smaller character. */
  predicate FirstDifferenceFavours(a: string, b: string, k: nat) {
    && k <= |a| && k <= |b| && a[..k] == b[..k]
    && ((k == |a| && k < |b|) || (k < |a| && k < |b| && a[k] < b[k]))
  }

  /** The recursive comparison is the textbook lexicographic order: `a` sorts
      before `b` exactly when the first difference favours `a`. */
  lemma {:induction false} StrLessIsLexicographic(a: string, b: string)
    ensures StrLess(a, b) <==> exists k: nat :: FirstDifferenceFavours(a, b, k)
    decreases |a|
  {
    if |a| == 0 {
      if |b| > 0 {
        assert FirstDifferenceFavours(a, b, 0);
      }
    } else if |b| == 0 {
    } else if a[0] < b[0] {
      assert FirstDifferenceFavours(a, b, 0);
    } else if a[0] == b[0] {
      StrLessIsLexicographic(a[1..], b[1..]);
      if StrLess(a, b) {
        var k: nat :| FirstDifferenceFavours(a[1..], b[1..], k);
        assert a[..k + 1] == [a[0]] + a[1..][..k];
        assert b[..k + 1] == [b[0]] + b[1..][..k];
        assert FirstDifferenceFavours(a, b, k + 1);
      }
      if exists k: nat :: FirstDifferenceFavours(a, b, k) {
        var k: nat :| FirstDifferenceFavours(a, b, k);
        assert k != 0;
        assert a[1..][..k - 1] == a[..k][1..];
        assert b[1..][..k - 1] == b[..k][1..];
        assert FirstDifferenceFavours(a[1..], b[1..], k - 1);
      }
    }
  }

  lemma {:induction false} StrLessIrreflexive(a: string)
    ensures !StrLess(a, a)
    decreases |a|
  {
    if |a| > 0 {
      StrLessIrreflexive(a[1..]);
    }
  }

  lemma {:induction false} StrLessAsymmetric(a: string, b: string)
    ensures !(StrLess(a, b) && StrLess(b, a))
    decreases |a|
  {
    if |a| > 0 && |b| > 0 && a[0] == b[0] {
      StrLessAsymmetric(a[1..], b[1..]);
    }
  }

  /** Two different strings are always ordered one way or the other. */
  lemma {:induction false} StrLessTotal(a: string, b: string)
    ensures a == b || StrLess(a, b) || StrLess(b, a)
    decreases |a|
  {
    if |a| > 0 && |b| > 0 && a[0] == b[0] {
      StrLessTotal(a[1..], b[1..]);
      if a[1..] == b[1..] {
        assert a == [a[0]] + a[1..] && b == [b[0]] + b[1..];
      }
    }
  }

  lemma {:induction false} StrLessTransitive(a: string, b: string, c: string)
    requires StrLess(a, b) && StrLess(b, c)
    ensures StrLess(a, c)
    decreases |a|
  {
    if |a| > 0 && a[0] == b[0] && b[0] == c[0] {
      StrLessTransitive(a[1..], b[1..], c[1..]);
    }
  }

  /** The kick-off times are listed in increasing string order, so sorting by
      the time string agrees with the order of the time list. */
  lemma GameTimesLexOrdered()
    ensures forall i, j :: 0 <= i < j < |GameTimes| ==> StrLess(GameTimes[i], GameTimes[j])
  {
  }

  /** (date, time) strictly before (date', time'). */
  predicate KeyLess(d1: int, t1: string, d2: int, t2: string) {
    d1 < d2 || (d1 == d2 && StrLess(t1, t2))
  }

  /** (date, time) at or before (date', time'). */
  predicate KeyLe(d1: int, t1: string, d2: int, t2: string) {
    d1 < d2 || (d1 == d2 && StrLe(t1, t2))
  }

  lemma KeyLeNotGreater(d1: int, t1: string, d2: int, t2: string)
    requires KeyLe(d1, t1, d2, t2)
    ensures !KeyLess(d2, t2, d1, t1)
  {
    if d1 == d2 {
      StrLessIrreflexive(t1);
      StrLessAsymmetric(t1, t2);
    }
  }

  /** Any two keys are equal or strictly ordered one way, and never two of these at once. */
  lemma KeyLessTrichotomy(d1: int, t1: string, d2: int, t2: string)
    ensures KeyLess(d1, t1, d2, t2) || (d1 == d2 && t1 == t2) || KeyLess(d2, t2, d1, t1)
    ensures !(KeyLess(d1, t1, d2, t2) && KeyLess(d2, t2, d1, t1))
    ensures d1 == d2 && t1 == t2 ==> !KeyLess(d1, t1, d2, t2)
  {
    StrLessTotal(t1, t2);
    StrLessAsymmetric(t1, t2);
    StrLessIrreflexive(t1);
  }

  /** A key is at or before another exactly when it is not after it. */
  lemma KeyLeIffNotGreater(d1: int, t1: string, d2: int, t2: string)
    ensures KeyLe(d1, t1, d2, t2) <==> !KeyLess(d2, t2, d1, t1)
  {
    KeyLessTrichotomy(d1, t1, d2, t2);
  }

  lemma KeyLessTransitive(d1: int, t1: string, d2: int, t2: string, d3: int, t3: string)
    requires KeyLess(d1, t1, d2, t2) && KeyLess(d2, t2, d3, t3)
    ensures KeyLess(d1, t1, d3, t3)
  {
    if d1 == d2 == d3 {
      StrLessTransitive(t1, t2, t3);
    }
  }

  predicate StrictlyAscending(s: seq<ScheduledGame>) {
    forall i, j :: 0 <= i < j < |s| ==> KeyLess(s[i].date, s[i].time, s[j].date, s[j].time)
  }

  /** What `sort_by` guarantees of its output: every element at or before every later one. */
  predicate Ascending(s: seq<ScheduledGame>) {
    forall i, j :: 0 <= i < j < |s| ==> KeyLe(s[i].date, s[i].time, s[j].date, s[j].time)
  }

  /** A strictly ascending list has exactly one ascending permutation: itself.
      Whatever sorting algorithm produces `b`, re-sorting an already strictly
      ordered schedule leaves it unchanged. */
  lemma {:induction false} SortedPermutationUnique(a: seq<ScheduledGame>, b: seq<ScheduledGame>)
    requires StrictlyAscending(a)
    requires Ascending(b)
    requires multiset(a) == multiset(b)
    ensures a == b
    decreases |a|
  {
    if |a| == 0 {
      assert |b| == |multiset(b)| == 0;
    } else {
      SameHead(a, b);
      DropHead(a, b);
      SortedPermutationUnique(a[1..], b[1..]);
      assert a == [a[0]] + a[1..];
      assert b == [b[0]] + b[1..];
    }
  }

  /** The least element of a strictly ascending list heads every ascending
      permutation of it. */
  lemma SameHead(a: seq<ScheduledGame>, b: seq<ScheduledGame>)
    requires StrictlyAscending(a) && Ascending(b)
    requires multiset(a) == multiset(b)
    requires |a| > 0
    ensures |b| > 0 && a[0] == b[0]
  {
    assert |b| == |multiset(b)| == |multiset(a)| == |a|;
    assert a[0] in multiset(b);
    var k :| 0 <= k < |b| && b[k] == a[0];
    assert b[0] in multiset(a);
    var m :| 0 <= m < |a| && a[m] == b[0];
    if m != 0 {
      KeyLeNotGreater(b[0].date, b[0].time, b[k].date, b[k].time);
      assert false;
    }
  }

  lemma DropHead(a: seq<ScheduledGame>, b: seq<ScheduledGame>)
    requires |a| > 0 && |b| > 0 && a[0] == b[0]
    requires multiset(a) == multiset(b)
    ensures multiset(a[1..]) == multiset(b[1..])
  {
    assert a == [a[0]] + a[1..];
    assert b == [b[0]] + b[1..];
    assert multiset(a[1..]) == multiset(a) - multiset{a[0]};
    assert multiset(b[1..]) == multiset(b) - multiset{b[0]};
  }
}
