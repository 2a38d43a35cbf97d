/**
 Settlement ranking and scoring. Every roster member arrives with one status
 (finished, timed out or forfeited) and the figures that status carries; the
 standings are sorted stably with the match comparator, numbered from 1, and
 given points: the players who did not forfeit share the row of the points
 table for their number in rank order, each forfeiter loses a fixed penalty.
 The top-ranked non-forfeiter, if any, wins. Each participant's durable
 aggregate then absorbs the result.
 */
module Ranking {
  import opened Options
  import Tier

  type UserId = string

  datatype Status = Finished | TimedOut | Forfeited

  /** Sort priority of a status: finishers first, forfeiters last. */
  function Priority(s: Status): int {
    match s
    case Finished => 0
    case TimedOut => 1
    case Forfeited => 2
  }

  /** One roster member's figures at settlement. `seat` is the member's
      position in the roster, the order the standings are listed in before
      sorting; `finishedAt` is the finish or drop instant in epoch
      milliseconds, absent for a player who timed out. */
  datatype Standing = Standing(
    seat: nat,
    userId: UserId,
    name: string,
    status: Status,
    wpm: int,
    accuracy: int,
    errorCount: int,
    progress: int,
    timeTaken: int,
    finishedAt: Option<int>)

  // ---------------------------------------------------------------------------
  // The comparator
  // ---------------------------------------------------------------------------

  /** Three-way comparison of display names, character code by character code
      (negative: `a` sorts first). */
  function NameCompare(a: string, b: string): (c: int)
    ensures -1 <= c <= 1
  {
    if |a| == 0 && |b| == 0 then 0
    else if |a| == 0 then -1
    else if |b| == 0 then 1
    else if a[0] < b[0] then -1
    else if a[0] > b[0] then 1
    else NameCompare(a[1..], b[1..])
  }

  /** The instant a forfeiter dropped; 0 when none is recorded. */
  function DropTime(e: Standing): int {
    if e.finishedAt.Some? then e.finishedAt.value else 0
  }

  /** The settlement comparator: negative when `a` ranks ahead of `b`, zero
      when the comparator cannot tell them apart. */
  function Compare(a: Standing, b: Standing): int {
    if Priority(a.status) != Priority(b.status) then Priority(a.status) - Priority(b.status)
    else if a.status == Forfeited && b.status == Forfeited then DropTime(b) - DropTime(a)
    else if b.wpm != a.wpm then b.wpm - a.wpm
    else if b.accuracy != a.accuracy then b.accuracy - a.accuracy
    else if b.progress != a.progress then b.progress - a.progress
    else if a.timeTaken != b.timeTaken then a.timeTaken - b.timeTaken
    else NameCompare(a.name, b.name)
  }

  lemma {:induction false} NameCompareAntisymmetric(a: string, b: string)
    ensures NameCompare(a, b) == -NameCompare(b, a)
    ensures NameCompare(a, b) == 0 <==> a == b
  {
    if |a| > 0 && |b| > 0 && a[0] == b[0] {
      NameCompareAntisymmetric(a[1..], b[1..]);
      if a[1..] == b[1..] {
        assert a == [a[0]] + a[1..] && b == [b[0]] + b[1..];
      }
    }
  }

  lemma {:induction false} NameCompareTransitive(a: string, b: string, c: string)
    requires NameCompare(a, b) < 0 && NameCompare(b, c) < 0
    ensures NameCompare(a, c) < 0
  {
    if |a| > 0 && |b| > 0 && |c| > 0 && a[0] == b[0] && b[0] == c[0] {
      NameCompareTransitive(a[1..], b[1..], c[1..]);
    }
  }

  /** The comparator is consistent in both argument orders. */
  lemma CompareAntisymmetric(a: Standing, b: Standing)
    ensures Compare(a, b) < 0 <==> Compare(b, a) > 0
    ensures Compare(a, b) == 0 <==> Compare(b, a) == 0
  {
    NameCompareAntisymmetric(a.name, b.name);
  }

  /** The comparator is transitive, so it is a total preorder and any stable
      sort with it is well defined. */
  lemma CompareTransitive(a: Standing, b: Standing, c: Standing)
    ensures Compare(a, b) <= 0 && Compare(b, c) <= 0 ==> Compare(a, c) <= 0
    ensures Compare(a, b) < 0 && Compare(b, c) <= 0 ==> Compare(a, c) < 0
    ensures Compare(a, b) <= 0 && Compare(b, c) < 0 ==> Compare(a, c) < 0
  {
    NameCompareAntisymmetric(a.name, b.name);
    NameCompareAntisymmetric(b.name, c.name);
    NameCompareAntisymmetric(a.name, c.name);
    if NameCompare(a.name, b.name) < 0 && NameCompare(b.name, c.name) < 0 {
      NameCompareTransitive(a.name, b.name, c.name);
    }
  }

  /** `a` ranks ahead of `b`: the comparator says so, or cannot tell them
      apart and `a` came first in the roster (the sort is stable). */
  predicate Precedes(a: Standing, b: Standing) {
    Compare(a, b) < 0 || (Compare(a, b) == 0 && a.seat < b.seat)
  }

  lemma PrecedesTransitive(a: Standing, b: Standing, c: Standing)
    requires Precedes(a, b) && Precedes(b, c)
    ensures Precedes(a, c)
  {
    CompareTransitive(a, b, c);
    CompareAntisymmetric(a, b);
    CompareAntisymmetric(b, c);
  }

  /** Standings listed in ranking order. */
  predicate Ordered(s: seq<Standing>) {
    forall i, j :: 0 <= i < j < |s| ==> Precedes(s[i], s[j])
  }

  /** Standings listed in roster order. */
  predicate SeatsIncreasing(s: seq<Standing>) {
    forall i, j :: 0 <= i < j < |s| ==> s[i].seat < s[j].seat
  }

  // ---------------------------------------------------------------------------
  // Stable sorting
  // ---------------------------------------------------------------------------

  /** Insert `x` before the first standing it beats, after all it ties with. */
  function Insert(x: Standing, s: seq<Standing>): seq<Standing> {
    if |s| == 0 then [x]
    else if Compare(x, s[0]) < 0 then [x] + s
    else [s[0]] + Insert(x, s[1..])
  }

  lemma {:induction false} InsertOrdered(x: Standing, s: seq<Standing>)
    requires Ordered(s)
    requires forall y :: y in s ==> y.seat < x.seat
    ensures multiset(Insert(x, s)) == multiset(s) + multiset{x}
    ensures Ordered(Insert(x, s))
  {
    if |s| == 0 {
    } else if Compare(x, s[0]) < 0 {
      assert s == [s[0]] + s[1..];
      InsertFront(x, s);
    } else {
      InsertOrdered(x, s[1..]);
      assert multiset(s) == multiset{s[0]} + multiset(s[1..]) by {
        assert s == [s[0]] + s[1..];
      }
      assert Precedes(s[0], x) by {
        CompareAntisymmetric(x, s[0]);
      }
      InsertBehind(x, s, Insert(x, s[1..]));
    }
  }

  /** A standing that beats the head of an ordered list may go in front. */
  lemma InsertFront(x: Standing, s: seq<Standing>)
    requires Ordered(s) && |s| > 0 && Compare(x, s[0]) < 0
    ensures Ordered([x] + s)
  {
    var r := [x] + s;
    forall i, j | 0 <= i < j < |r|
      ensures Precedes(r[i], r[j])
    {
      if i == 0 && j > 1 {
        PrecedesTransitive(x, s[0], s[j - 1]);
      }
    }
  }

  /** The head of an ordered list stays in front of the tail with `x`
      inserted, when it precedes `x`. */
  lemma InsertBehind(x: Standing, s: seq<Standing>, t: seq<Standing>)
    requires Ordered(s) && |s| > 0 && Precedes(s[0], x)
    requires Ordered(t) && multiset(t) == multiset(s[1..]) + multiset{x}
    ensures Ordered([s[0]] + t)
  {
    var r := [s[0]] + t;
    forall i, j | 0 <= i < j < |r|
      ensures Precedes(r[i], r[j])
    {
      if i == 0 {
        var z := r[j];
        assert z in multiset(t);
        if z != x {
          assert z in multiset(s[1..]);
          var k :| 0 <= k < |s[1..]| && s[1..][k] == z;
          assert s[k + 1] == z;
        }
      }
    }
  }

  /** The standings in ranking order. Sorting rearranges without adding or
      losing anyone, and, from roster order, yields the order in which each
      standing precedes the next: by comparator, ties kept in roster order. */
  function SortStandings(s: seq<Standing>): (r: seq<Standing>)
    ensures multiset(r) == multiset(s)
    ensures |r| == |s|
    ensures SeatsIncreasing(s) ==> Ordered(r)
  {
    if |s| == 0 then []
    else
      var init := s[..|s| - 1];
      var last := s[|s| - 1];
      var sorted := SortStandings(init);
      assert s == init + [last];
      SortedBelowLast(s, sorted);
      InsertOrderedIf(last, sorted, SeatsIncreasing(s));
      Insert(last, sorted)
  }

  lemma SortedBelowLast(s: seq<Standing>, sorted: seq<Standing>)
    requires |s| > 0 && multiset(sorted) == multiset(s[..|s| - 1])
    ensures SeatsIncreasing(s) ==> forall y :: y in sorted ==> y.seat < s[|s| - 1].seat
  {
    if SeatsIncreasing(s) {
      forall y | y in sorted ensures y.seat < s[|s| - 1].seat {
        assert y in multiset(s[..|s| - 1]);
        var k :| 0 <= k < |s| - 1 && s[..|s| - 1][k] == y;
        assert s[k] == y;
      }
    }
  }

  lemma InsertOrderedIf(x: Standing, s: seq<Standing>, cond: bool)
    requires cond ==> Ordered(s) && forall y :: y in s ==> y.seat < x.seat
    ensures multiset(Insert(x, s)) == multiset(s) + multiset{x}
    ensures |Insert(x, s)| == |s| + 1
    ensures cond ==> Ordered(Insert(x, s))
  {
    InsertCount(x, s);
    if cond {
      InsertOrdered(x, s);
    }
  }

  lemma {:induction false} InsertCount(x: Standing, s: seq<Standing>)
    ensures multiset(Insert(x, s)) == multiset(s) + multiset{x}
    ensures |Insert(x, s)| == |s| + 1
  {
    if |s| > 0 && Compare(x, s[0]) >= 0 {
      InsertCount(x, s[1..]);
      assert s == [s[0]] + s[1..];
    }
  }

  /** Within one roster, the ranking order is a strict total order: of two
      different standings with different seats, one precedes the other. */
  lemma PrecedesTotal(a: Standing, b: Standing)
    requires a.seat != b.seat
    ensures Precedes(a, b) || Precedes(b, a)
    ensures !(Precedes(a, b) && Precedes(b, a))
  {
    CompareAntisymmetric(a, b);
  }

  /** Distinct seats throughout a list. */
  predicate SeatsDistinct(s: seq<Standing>) {
    forall i, j :: 0 <= i < j < |s| ==> s[i].seat != s[j].seat
  }

  /** Any two orderings of the same roster standings in ranking order are the
      same list: every stable sort with this comparator gives one result. */
  lemma {:induction false} OrderedUnique(a: seq<Standing>, b: seq<Standing>)
    requires multiset(a) == multiset(b)
    requires SeatsDistinct(a)
    requires Ordered(a) && Ordered(b)
    ensures a == b
  {
    assert |a| == |b| by {
      assert |multiset(a)| == |a| && |multiset(b)| == |b|;
    }
    if |a| > 0 {
      OrderedSameHead(a, b);
      OrderedTails(a, b);
      OrderedUnique(a[1..], b[1..]);
      assert a == [a[0]] + a[1..] && b == [b[0]] + b[1..];
    }
  }

  lemma OrderedSameHead(a: seq<Standing>, b: seq<Standing>)
    requires multiset(a) == multiset(b) && |a| > 0 && |b| > 0
    requires SeatsDistinct(a)
    requires Ordered(a) && Ordered(b)
    ensures a[0] == b[0]
  {
    assert a[0] in multiset(b);
    assert b[0] in multiset(a);
    var i :| 0 <= i < |b| && b[i] == a[0];
    var j :| 0 <= j < |a| && a[j] == b[0];
    if a[0] != b[0] {
      assert Precedes(b[0], b[i]);
      assert Precedes(a[0], a[j]);
      PrecedesTotal(a[0], a[j]);
      assert false;
    }
  }

  lemma OrderedTails(a: seq<Standing>, b: seq<Standing>)
    requires multiset(a) == multiset(b) && |a| > 0 && |b| > 0 && a[0] == b[0]
    requires SeatsDistinct(a)
    requires Ordered(a) && Ordered(b)
    ensures multiset(a[1..]) == multiset(b[1..])
    ensures SeatsDistinct(a[1..]) && Ordered(a[1..]) && Ordered(b[1..])
  {
    assert a == [a[0]] + a[1..] && b == [b[0]] + b[1..];
    assert multiset(a) == multiset(a[1..]) + multiset{a[0]};
    assert multiset(b) == multiset(b[1..]) + multiset{a[0]};
    CancelOne(multiset(a[1..]), multiset(b[1..]), a[0]);
  }

  lemma CancelOne<T>(m: multiset<T>, n: multiset<T>, x: T)
    requires m + multiset{x} == n + multiset{x}
    ensures m == n
  {
    assert forall y :: m[y] == (m + multiset{x})[y] - multiset{x}[y];
  }

  // ---------------------------------------------------------------------------
  // Placements and points
  // ---------------------------------------------------------------------------

  /** Points lost by a player who forfeits. */
  const ForfeitPenalty: int := 2

  /** Points for 1st, 2nd, ... place among the players who did not forfeit,
      for 1 to 4 such players. */
  function PointsByActiveCount(k: int): Option<seq<int>> {
    if k == 1 then Some([10])
    else if k == 2 then Some([10, 5])
    else if k == 3 then Some([10, 6, 3])
    else if k == 4 then Some([10, 6, 3, 1])
    else None
  }

  /** The row used for k non-forfeiters; counts without a row use [10]. */
  function PointTable(k: int): seq<int> {
    PointsByActiveCount(k).GetOr([10])
  }

  /** Points for a place in a row; places past the row's end earn 0. */
  function PointsAt(table: seq<int>, place: nat): int {
    if place < |table| then table[place] else 0
  }

  /** A ranked standing: 1-based placement, points earned, whether it won. */
  datatype Ranked = Ranked(standing: Standing, placement: nat, points: int, won: bool)

  /** Number of standings that did not forfeit. */
  function ActiveCount(s: seq<Standing>): (k: nat)
    ensures k <= |s|
  {
    if |s| == 0 then 0
    else (if s[0].status != Forfeited then 1 else 0) + ActiveCount(s[1..])
  }

  /** The first standing that did not forfeit. */
  function FirstActive(s: seq<Standing>): (f: Option<Standing>)
    ensures f.Some? <==> ActiveCount(s) > 0
    ensures f.Some? ==> f.value in s && f.value.status != Forfeited
  {
    if |s| == 0 then None
    else if s[0].status != Forfeited then Some(s[0])
    else FirstActive(s[1..])
  }

  /** Walk the sorted standings, numbering places from `index + 1` and handing
      out the row's points to non-forfeiters from position `cursor` on. */
  function Place(entries: seq<Standing>, index: nat, cursor: nat, table: seq<int>,
                 winner: Option<UserId>): (r: seq<Ranked>)
    ensures |r| == |entries|
  {
    if |entries| == 0 then []
    else
      var e := entries[0];
      var points := if e.status == Forfeited then -ForfeitPenalty else PointsAt(table, cursor);
      var next := if e.status == Forfeited then cursor else cursor + 1;
      [Ranked(e, index + 1, points, winner == Some(e.userId))]
        + Place(entries[1..], index + 1, next, table, winner)
  }

  /** Number places, share points and pick the winner for standings already
      in ranking order. */
  function AssignPoints(sorted: seq<Standing>): (r: seq<Ranked>)
    ensures |r| == |sorted|
  {
    Place(sorted, 0, 0, PointTable(ActiveCount(sorted)), WinnerOf(sorted))
  }

  /** The settlement ranking of a roster's standings. */
  function Rank(standings: seq<Standing>): seq<Ranked> {
    AssignPoints(SortStandings(standings))
  }

  /** Each ranked entry carries the standing at its position, its 1-based
      place, the penalty if it forfeited and otherwise the points for its place
      among non-forfeiters, and the winner flag exactly when it is the winner. */
  lemma {:induction false} PlaceSpec(entries: seq<Standing>, index: nat, cursor: nat, table: seq<int>,
                                     winner: Option<UserId>, i: nat)
    requires i < |entries|
    ensures var r := Place(entries, index, cursor, table, winner)[i];
      && r.standing == entries[i]
      && r.placement == index + i + 1
      && r.points == (if entries[i].status == Forfeited then -ForfeitPenalty
                      else PointsAt(table, cursor + ActiveCount(entries[..i])))
      && r.won == (winner == Some(entries[i].userId))
  {
    if i > 0 {
      var next := if entries[0].status == Forfeited then cursor else cursor + 1;
      PlaceSpec(entries[1..], index + 1, next, table, winner, i - 1);
      assert entries[..i] == [entries[0]] + entries[1..][..i - 1];
    } else {
      assert entries[..0] == [];
    }
  }

  /** Sum of the points a row awards to places from..to-1. */
  function RowSum(table: seq<int>, from: nat, to: nat): int
    decreases to - from
  {
    if from >= to then 0 else PointsAt(table, from) + RowSum(table, from + 1, to)
  }

  /** Total points awarded to non-forfeiters. */
  function ActivePoints(r: seq<Ranked>): int {
    if |r| == 0 then 0
    else (if r[0].standing.status != Forfeited then r[0].points else 0) + ActivePoints(r[1..])
  }

  lemma {:induction false} PlaceActivePoints(entries: seq<Standing>, index: nat, cursor: nat,
                                             table: seq<int>, winner: Option<UserId>)
    ensures ActivePoints(Place(entries, index, cursor, table, winner))
            == RowSum(table, cursor, cursor + ActiveCount(entries))
  {
    if |entries| > 0 {
      var next := if entries[0].status == Forfeited then cursor else cursor + 1;
      PlaceActivePoints(entries[1..], index + 1, next, table, winner);
    }
  }

  /** With 1 to 4 players who did not forfeit, their points add up to the
      whole row: 10, 15, 19 or 20. */
  lemma ActivePointsTotal(sorted: seq<Standing>)
    requires 1 <= ActiveCount(sorted) <= 4
    ensures ActivePoints(AssignPoints(sorted)) == RowSum(PointTable(ActiveCount(sorted)), 0, ActiveCount(sorted))
    ensures ActivePoints(AssignPoints(sorted)) == [10, 15, 19, 20][ActiveCount(sorted) - 1]
  {
    var k := ActiveCount(sorted);
    PlaceActivePoints(sorted, 0, 0, PointTable(k), WinnerOf(sorted));
    var t := PointTable(k);
    assert RowSum(t, 4, 4) == 0;
    assert RowSum(t, 3, 4) == PointsAt(t, 3);
    assert RowSum(t, 2, 4) == PointsAt(t, 2) + PointsAt(t, 3);
    assert RowSum(t, 3, 3) == 0;
    assert RowSum(t, 2, 3) == PointsAt(t, 2);
    assert RowSum(t, 2, 2) == 0;
    assert RowSum(t, 1, 2) == PointsAt(t, 1);
    assert RowSum(t, 1, 1) == 0;
  }

  /** In ranking order every forfeiter comes after every non-forfeiter, and
      finishers come before players who timed out. */
  lemma OrderedStatuses(s: seq<Standing>, i: nat, j: nat)
    requires Ordered(s) && i < j < |s|
    ensures Priority(s[i].status) <= Priority(s[j].status)
    ensures s[i].status == Forfeited ==> s[j].status == Forfeited
  {
    assert Precedes(s[i], s[j]);
  }

  /** Forfeiters sorted among themselves: a later drop ranks higher, equal drop
      instants keep roster order. */
  lemma OrderedForfeiters(s: seq<Standing>, i: nat, j: nat)
    requires Ordered(s) && i < j < |s|
    requires s[i].status == Forfeited && s[j].status == Forfeited
    ensures DropTime(s[i]) >= DropTime(s[j])
    ensures DropTime(s[i]) == DropTime(s[j]) ==> s[i].seat < s[j].seat
  {
    assert Precedes(s[i], s[j]);
  }

  /** Non-forfeiters of the same status sorted among themselves: wpm down,
      then accuracy down, progress down, time up, name up. */
  lemma OrderedPerformers(s: seq<Standing>, i: nat, j: nat)
    requires Ordered(s) && i < j < |s|
    requires s[i].status == s[j].status != Forfeited
    ensures var a, b := s[i], s[j];
      && a.wpm >= b.wpm
      && (a.wpm == b.wpm ==> a.accuracy >= b.accuracy)
      && (a.wpm == b.wpm && a.accuracy == b.accuracy ==> a.progress >= b.progress)
      && ((a.wpm == b.wpm && a.accuracy == b.accuracy && a.progress == b.progress)
            ==> a.timeTaken <= b.timeTaken)
      && ((a.wpm == b.wpm && a.accuracy == b.accuracy && a.progress == b.progress
           && a.timeTaken == b.timeTaken) ==> NameCompare(a.name, b.name) <= 0)
  {
    assert Precedes(s[i], s[j]);
  }

  /** Standings of a roster: listed in roster order with distinct users. */
  predicate RosterStandings(s: seq<Standing>) {
    && SeatsIncreasing(s)
    && forall i, j :: 0 <= i < j < |s| ==> s[i].userId != s[j].userId
  }

  /** The standings a ranking lists, in its order. */
  function Standings(r: seq<Ranked>): (s: seq<Standing>)
    ensures |s| == |r|
    ensures forall i :: 0 <= i < |r| ==> s[i] == r[i].standing
  {
    if |r| == 0 then [] else [r[0].standing] + Standings(r[1..])
  }

  /** The winner chosen for standings in ranking order. */
  function WinnerOf(sorted: seq<Standing>): Option<UserId> {
    var first := FirstActive(sorted);
    if first.Some? && first.value.userId != "" then Some(first.value.userId) else None
  }

  /** One entry of a settlement ranking: its place is its position plus one,
      a forfeiter gets the penalty, anyone else the row's points for its
      position, and it won exactly when it is first, did not forfeit and has
      an id. */
  lemma RankEntry(standings: seq<Standing>, i: nat)
    requires RosterStandings(standings)
    requires i < |standings|
    ensures var r := Rank(standings);
      && |r| == |standings|
      && r[i].standing == SortStandings(standings)[i]
      && r[i].placement == i + 1
      && (r[i].standing.status == Forfeited ==> r[i].points == -ForfeitPenalty)
      && (r[i].standing.status != Forfeited ==>
            r[i].points == PointsAt(PointTable(ActiveCount(standings)), i))
      && (r[i].won <==> i == 0 && r[i].standing.status != Forfeited && r[i].standing.userId != "")
  {
    var sorted := SortStandings(standings);
    assert ActiveCount(sorted) == ActiveCount(standings) by {
      SortActive(standings);
    }
    AssignedEntry(sorted, i);
    WinnerOfSorted(standings, sorted, i);
  }

  /** One entry of the points assigned to standings in ranking order. */
  lemma AssignedEntry(sorted: seq<Standing>, i: nat)
    requires Ordered(sorted)
    requires i < |sorted|
    ensures var r := AssignPoints(sorted);
      && |r| == |sorted|
      && r[i].standing == sorted[i]
      && r[i].placement == i + 1
      && (sorted[i].status == Forfeited ==> r[i].points == -ForfeitPenalty)
      && (sorted[i].status != Forfeited ==> r[i].points == PointsAt(PointTable(ActiveCount(sorted)), i))
      && (r[i].won <==> WinnerOf(sorted) == Some(sorted[i].userId))
  {
    var table := PointTable(ActiveCount(sorted));
    PlaceSpec(sorted, 0, 0, table, WinnerOf(sorted), i);
    if sorted[i].status != Forfeited {
      ActivePrefix(sorted, i);
    }
  }

  /** The winner of sorted roster standings is the entry at position i exactly
      when i is the first position, it did not forfeit and it has an id. */
  lemma WinnerOfSorted(standings: seq<Standing>, sorted: seq<Standing>, i: nat)
    requires RosterStandings(standings)
    requires sorted == SortStandings(standings)
    requires i < |sorted|
    ensures WinnerOf(sorted) == Some(sorted[i].userId) <==>
            i == 0 && sorted[i].status != Forfeited && sorted[i].userId != ""
  {
    assert Ordered(sorted);
    FirstActiveOfOrdered(sorted);
    if i > 0 && WinnerOf(sorted) == Some(sorted[i].userId) {
      DistinctUsersSorted(standings, sorted, 0, i);
    }
  }

  /** The outcome of ranking a roster's standings: everybody ranked once, in
      ranking order, places 1..n without gaps, the penalty for each forfeiter,
      the row's points in rank order for the others, and the winner flag on
      the first entry exactly when it did not forfeit (and has an id). */
  lemma RankSpec(standings: seq<Standing>)
    requires RosterStandings(standings)
    ensures var r := Rank(standings);
      && |r| == |standings|
      && multiset(Standings(r)) == multiset(standings)
      && Ordered(Standings(r))
      && (forall i :: 0 <= i < |r| ==> r[i].placement == i + 1)
      && (forall i :: 0 <= i < |r| && r[i].standing.status == Forfeited ==> r[i].points == -ForfeitPenalty)
      && (forall i :: 0 <= i < |r| && r[i].standing.status != Forfeited ==>
            r[i].points == PointsAt(PointTable(ActiveCount(standings)), i))
      && (forall i :: 0 <= i < |r| ==>
            (r[i].won <==> i == 0 && r[i].standing.status != Forfeited && r[i].standing.userId != ""))
  {
    var r := Rank(standings);
    forall i | 0 <= i < |r|
      ensures r[i].standing == SortStandings(standings)[i]
      ensures r[i].placement == i + 1
      ensures r[i].standing.status == Forfeited ==> r[i].points == -ForfeitPenalty
      ensures r[i].standing.status != Forfeited ==>
                r[i].points == PointsAt(PointTable(ActiveCount(standings)), i)
      ensures r[i].won <==> i == 0 && r[i].standing.status != Forfeited && r[i].standing.userId != ""
    {
      RankEntry(standings, i);
    }
    assert Standings(r) == SortStandings(standings);
  }

  /** Inserting a standing adds one to the count exactly when it did not
      forfeit. */
  lemma {:induction false} InsertActive(x: Standing, s: seq<Standing>)
    ensures ActiveCount(Insert(x, s))
            == ActiveCount(s) + (if x.status != Forfeited then 1 else 0)
  {
    if |s| == 0 {
      assert [x][1..] == [];
    } else if Compare(x, s[0]) < 0 {
      assert ([x] + s)[1..] == s;
    } else {
      InsertActive(x, s[1..]);
      assert ([s[0]] + Insert(x, s[1..]))[1..] == Insert(x, s[1..]);
    }
  }

  /** Sorting does not change how many standings did not forfeit. */
  lemma {:induction false} SortActive(s: seq<Standing>)
    ensures ActiveCount(SortStandings(s)) == ActiveCount(s)
    decreases |s|
  {
    if |s| > 0 {
      var init := s[..|s| - 1];
      var last := s[|s| - 1];
      assert SortStandings(s) == Insert(last, SortStandings(init));
      SortActive(init);
      InsertActive(last, SortStandings(init));
      ActiveCountSnoc(s);
    }
  }

  /** The count of a non-empty list is the count of all but its last entry,
      plus one when the last entry did not forfeit. */
  lemma ActiveCountSnoc(s: seq<Standing>)
    requires |s| > 0
    ensures ActiveCount(s) == ActiveCount(s[..|s| - 1])
                              + (if s[|s| - 1].status != Forfeited then 1 else 0)
  {
    var last := s[|s| - 1];
    assert s == s[..|s| - 1] + [last];
    ActiveCountConcat(s[..|s| - 1], [last]);
    assert [last][1..] == [];
  }

  lemma {:induction false} ActiveCountConcat(a: seq<Standing>, b: seq<Standing>)
    ensures ActiveCount(a + b) == ActiveCount(a) + ActiveCount(b)
  {
    if |a| > 0 {
      assert (a + b)[1..] == a[1..] + b;
      ActiveCountConcat(a[1..], b);
    } else {
      assert a + b == b;
    }
  }

  /** In ranking order a non-forfeiter at position i has only non-forfeiters
      ahead of it. */
  lemma ActivePrefix(s: seq<Standing>, i: nat)
    requires Ordered(s) && i < |s| && s[i].status != Forfeited
    ensures ActiveCount(s[..i]) == i
  {
    forall k | 0 <= k < i ensures s[k].status != Forfeited {
      OrderedStatuses(s, k, i);
    }
    ActivePrefixRec(s, i);
  }

  lemma {:induction false} ActivePrefixRec(s: seq<Standing>, i: nat)
    requires i <= |s|
    requires forall k :: 0 <= k < i ==> s[k].status != Forfeited
    ensures ActiveCount(s[..i]) == i
  {
    if i > 0 {
      ActivePrefixRec(s, i - 1);
      assert s[..i] == s[..i - 1] + [s[i - 1]];
      ActiveCountConcat(s[..i - 1], [s[i - 1]]);
      assert [s[i - 1]][1..] == [];
    } else {
      assert s[..0] == [];
    }
  }

  /** In ranking order the first non-forfeiter, if any, is the first entry. */
  lemma FirstActiveOfOrdered(s: seq<Standing>)
    requires Ordered(s)
    ensures FirstActive(s).Some? ==> |s| > 0 && FirstActive(s).value == s[0]
  {
    if FirstActive(s).Some? && s[0].status == Forfeited {
      var f := FirstActive(s).value;
      var k :| 0 <= k < |s| && s[k] == f;
      OrderedStatuses(s, 0, k);
    }
  }

  /** Sorting keeps users distinct. */
  lemma DistinctUsersSorted(standings: seq<Standing>, sorted: seq<Standing>, i: nat, j: nat)
    requires RosterStandings(standings) && multiset(sorted) == multiset(standings)
    requires i < j < |sorted|
    ensures sorted[i].userId != sorted[j].userId
  {
    assert sorted[i] in multiset(standings) && sorted[j] in multiset(standings);
    var a :| 0 <= a < |standings| && standings[a] == sorted[i];
    var b :| 0 <= b < |standings| && standings[b] == sorted[j];
    if a == b {
      MultisetDistinctPositions(sorted, i, j, standings);
    }
  }

  /** Two positions of a permutation of a list with distinct seats hold
      different standings. */
  lemma MultisetDistinctPositions(s: seq<Standing>, i: nat, j: nat, t: seq<Standing>)
    requires i < j < |s| && multiset(s) == multiset(t) && SeatsIncreasing(t)
    ensures s[i] != s[j]
  {
    if s[i] == s[j] {
      RepeatedTwice(s, i, j);
      AtMostOnce(t, s[i]);
    }
  }

  lemma RepeatedTwice(s: seq<Standing>, i: nat, j: nat)
    requires i < j < |s| && s[i] == s[j]
    ensures multiset(s)[s[i]] >= 2
  {
    assert s == s[..j] + s[j..];
    assert s[..j][i] == s[i];
    assert s[j..][0] == s[j];
    assert multiset(s) == multiset(s[..j]) + multiset(s[j..]);
  }

  lemma {:induction false} AtMostOnce(t: seq<Standing>, x: Standing)
    requires SeatsIncreasing(t)
    ensures multiset(t)[x] <= 1
  {
    if |t| > 0 {
      assert t == [t[0]] + t[1..];
      assert multiset(t) == multiset{t[0]} + multiset(t[1..]);
      AtMostOnce(t[1..], x);
      if x == t[0] {
        assert x !in t[1..] by {
          forall k | 0 <= k < |t[1..]| ensures t[1..][k] != x {
            assert t[1..][k] == t[k + 1];
          }
        }
      }
    }
  }

  // ---------------------------------------------------------------------------
  // Per-user aggregates
  // ---------------------------------------------------------------------------

  /** The durable per-user figures a settlement updates. */
  datatype UserAggregate = UserAggregate(
    points: int,
    tier: string,
    tournamentsPlayed: int,
    wins: int,
    losses: int,
    totalWins: int)

  /** Apply one ranked result to its user's aggregate: the point total moves
      by the points earned but never below zero, the tier follows the new
      total, and the match counts once, as a win or as a loss. */
  function ApplyResult(u: UserAggregate, r: Ranked): (u': UserAggregate)
    ensures u'.points >= 0 && u'.points >= u.points + r.points
    ensures u'.points == 0 || u'.points == u.points + r.points
    ensures 1 <= Tier.TierWeight(u'.tier) <= 5
    ensures u'.tier == Tier.Ladder[Tier.Reached(Tier.Thresholds, u'.points)]
    ensures u'.tournamentsPlayed == u.tournamentsPlayed + 1
    ensures u'.wins + u'.losses == u.wins + u.losses + 1
    ensures u'.wins == u.wins + 1 <==> r.won
    ensures u'.losses == u.losses + 1 <==> !r.won
    ensures u'.wins >= u.wins && u'.losses >= u.losses
    ensures u'.totalWins - u.totalWins == u'.wins - u.wins
  {
    var updated := if u.points + r.points > 0 then u.points + r.points else 0;
    UserAggregate(
      updated,
      Tier.CalculateTier(updated),
      u.tournamentsPlayed + 1,
      u.wins + (if r.won then 1 else 0),
      u.losses + (if r.won then 0 else 1),
      u.totalWins + (if r.won then 1 else 0))
  }

  /** Settle every ranked result into the stored aggregates, in rank order;
      a result whose user no longer exists is skipped. */
  function SettleUsers(users: map<UserId, UserAggregate>, results: seq<Ranked>): (m: map<UserId, UserAggregate>)
    ensures m.Keys == users.Keys
  {
    if |results| == 0 then users
    else
      var r := results[0];
      var id := r.standing.userId;
      var users' := if id in users then users[id := ApplyResult(users[id], r)] else users;
      SettleUsers(users', results[1..])
  }

  /** With one result per user, each stored user with a result has exactly that
      result applied once, and every other stored user is left alone. */
  lemma {:induction false} SettleUsersSpec(users: map<UserId, UserAggregate>, results: seq<Ranked>, id: UserId)
    requires forall i, j :: 0 <= i < j < |results| ==> results[i].standing.userId != results[j].standing.userId
    requires id in users
    ensures (forall i :: 0 <= i < |results| ==> results[i].standing.userId != id)
            ==> SettleUsers(users, results)[id] == users[id]
    ensures forall i :: (0 <= i < |results| && results[i].standing.userId == id)
                        ==> SettleUsers(users, results)[id] == ApplyResult(users[id], results[i])
  {
    if |results| > 0 {
      var r := results[0];
      var rid := r.standing.userId;
      var users' := if rid in users then users[rid := ApplyResult(users[rid], r)] else users;
      SettleUsersSpec(users', results[1..], id);
      forall i | 0 <= i < |results| && results[i].standing.userId == id
        ensures SettleUsers(users, results)[id] == ApplyResult(users[id], results[i])
      {
        if i > 0 {
          assert results[1..][i - 1] == results[i];
        } else {
          assert forall k :: 0 <= k < |results[1..]| ==> results[1..][k].standing.userId != id by {
            forall k | 0 <= k < |results[1..]| ensures results[1..][k].standing.userId != id {
              assert results[1..][k] == results[k + 1];
            }
          }
        }
      }
      if forall i :: 0 <= i < |results| ==> results[i].standing.userId != id {
        assert forall k :: 0 <= k < |results[1..]| ==> results[1..][k].standing.userId != id by {
          forall k | 0 <= k < |results[1..]| ensures results[1..][k].standing.userId != id {
            assert results[1..][k] == results[k + 1];
          }
        }
      }
    }
  }

  /** Number of results flagged as won. */
  function WinCount(r: seq<Ranked>): nat {
    if |r| == 0 then 0 else (if r[0].won then 1 else 0) + WinCount(r[1..])
  }

  /** A settled match awards exactly one win when somebody did not forfeit
      (and has an id), and none otherwise. */
  lemma OneWinner(standings: seq<Standing>)
    requires RosterStandings(standings)
    ensures var r := Rank(standings);
      WinCount(r) == if |r| > 0 && r[0].standing.status != Forfeited && r[0].standing.userId != "" then 1 else 0
  {
    RankSpec(standings);
    var r := Rank(standings);
    if |r| > 0 {
      WinCountTail(r[1..]);
      forall k | 0 <= k < |r[1..]| ensures !r[1..][k].won {
        assert r[1..][k] == r[k + 1];
      }
    }
  }

  lemma {:induction false} WinCountTail(r: seq<Ranked>)
    ensures (forall k :: 0 <= k < |r| ==> !r[k].won) ==> WinCount(r) == 0
  {
    if |r| > 0 {
      WinCountTail(r[1..]);
      if forall k :: 0 <= k < |r| ==> !r[k].won {
        assert forall k :: 0 <= k < |r[1..]| ==> !r[1..][k].won by {
          forall k | 0 <= k < |r[1..]| ensures !r[1..][k].won {
            assert r[1..][k] == r[k + 1];
          }
        }
      }
    }
  }
}
