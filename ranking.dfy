/**
 * The ranking step of `Race.finishRace` and the ordering of `Race.getRaceResults`.
 * SQL's `RANK() OVER (ORDER BY finished_at ASC, wpm DESC)` over a race's
 * finished rows gives each row 1 + the number of rows strictly ahead of it:
 * ties share a rank and the following rank is skipped.
 */
module Ranking {
  import opened Common
  import opened Tables

  /** `finished_at ASC`: an earlier time first, and NULL before any time (MySQL's order). */
  predicate EarlierTime(a: Option<int>, b: Option<int>)
  {
    match (a, b)
    case (None, Some(_)) => true
    case (Some(x), Some(y)) => x < y
    case _ => false
  }

  /** `q` sorts strictly before `p` under `finished_at ASC, wpm DESC`. */
  predicate Ahead(q: Participant, p: Participant)
  {
    EarlierTime(q.finishedAt, p.finishedAt) || (q.finishedAt == p.finishedAt && q.wpm > p.wpm)
  }

  /** Same sort key: neither row sorts before the other. */
  predicate SameKey(q: Participant, p: Participant)
  {
    q.finishedAt == p.finishedAt && q.wpm == p.wpm
  }

  /** A row the window function ranks: `race_id = ? AND finished = TRUE`. */
  predicate Ranked(p: Participant, raceId: nat)
  {
    p.raceId == raceId && p.finished
  }

  /** The number of ranked rows of `ps`. */
  function RankedCount(ps: seq<Participant>, raceId: nat): nat
  {
    if |ps| == 0 then 0
    else RankedCount(ps[..|ps| - 1], raceId) + (if Ranked(ps[|ps| - 1], raceId) then 1 else 0)
  }

  /** The number of ranked rows of `ps` strictly ahead of `p`. */
  function CountAhead(ps: seq<Participant>, raceId: nat, p: Participant): nat
  {
    if |ps| == 0 then 0
    else
      var q := ps[|ps| - 1];
      CountAhead(ps[..|ps| - 1], raceId, p) + (if Ranked(q, raceId) && Ahead(q, p) then 1 else 0)
  }

  /** The `position_value` RANK() gives `p`. */
  function RankOf(ps: seq<Participant>, raceId: nat, p: Participant): nat
  {
    1 + CountAhead(ps, raceId, p)
  }

  /** The ranking UPDATE on one row: ranked rows get their rank, other rows are untouched. */
  function AssignPosition(ps: seq<Participant>, raceId: nat, row: Participant): Participant
  {
    if Ranked(row, raceId) then row.(position := Some(RankOf(ps, raceId, row))) else row
  }

  /** The ranking UPDATE on the whole table. */
  function AssignPositions(ps: seq<Participant>, raceId: nat): seq<Participant>
  {
    seq(|ps|, i requires 0 <= i < |ps| => AssignPosition(ps, raceId, ps[i]))
  }

  // ---------------------------------------------------------------------------
  // The sort order

  /** The two sort keys are ordered by a strict weak order: exactly one of
      "q ahead", "p ahead", "same key" holds, and "ahead" is transitive. */
  lemma AheadIsStrictWeakOrder(a: Participant, b: Participant, c: Participant)
    ensures !Ahead(a, a)
    ensures (Ahead(a, b) ==> !Ahead(b, a) && !SameKey(a, b))
    ensures (!Ahead(a, b) && !Ahead(b, a)) <==> SameKey(a, b)
    ensures Ahead(a, b) && Ahead(b, c) ==> Ahead(a, c)
  {
  }

  /** Only the sort key of `p` matters to how many rows are ahead of it. */
  lemma {:induction false} CountAheadByKey(ps: seq<Participant>, raceId: nat, p: Participant, p': Participant)
    requires SameKey(p, p')
    ensures CountAhead(ps, raceId, p) == CountAhead(ps, raceId, p')
  {
    if |ps| > 0 {
      CountAheadByKey(ps[..|ps| - 1], raceId, p, p');
    }
  }

  /** Nothing is ahead of `p` exactly when the count is zero. */
  lemma {:induction false} CountAheadZero(ps: seq<Participant>, raceId: nat, p: Participant)
    ensures CountAhead(ps, raceId, p) == 0 <==> forall q :: q in ps && Ranked(q, raceId) ==> !Ahead(q, p)
  {
    if |ps| > 0 {
      CountAheadZero(ps[..|ps| - 1], raceId, p);
      assert ps == ps[..|ps| - 1] + [ps[|ps| - 1]];
    }
  }

  /** A ranked row strictly ahead of `p` is counted against `p`, and so is everything ahead of it. */
  lemma {:induction false} CountAheadGrows(ps: seq<Participant>, raceId: nat, q: Participant, p: Participant)
    requires Ranked(q, raceId) && Ahead(q, p)
    ensures CountAhead(ps, raceId, q) + (if q in ps then 1 else 0) <= CountAhead(ps, raceId, p)
  {
    if |ps| > 0 {
      var init, x := ps[..|ps| - 1], ps[|ps| - 1];
      assert ps == init + [x];
      CountAheadGrows(init, raceId, q, p);
      AheadIsStrictWeakOrder(x, q, p);
    }
  }

  /** A ranked row is not ahead of itself, so it never counts more rows ahead than
      there are other ranked rows. */
  lemma {:induction false} CountAheadBelowRanked(ps: seq<Participant>, raceId: nat, p: Participant)
    ensures CountAhead(ps, raceId, p) + (if p in ps && Ranked(p, raceId) then 1 else 0) <= RankedCount(ps, raceId)
  {
    if |ps| > 0 {
      var init, x := ps[..|ps| - 1], ps[|ps| - 1];
      assert ps == init + [x];
      CountAheadBelowRanked(init, raceId, p);
    }
  }

  // ---------------------------------------------------------------------------
  // RANK() properties

  /** Every finished participant's rank lies between 1 and the number of finished participants. */
  lemma RankBounds(ps: seq<Participant>, raceId: nat, p: Participant)
    requires p in ps && Ranked(p, raceId)
    ensures 1 <= RankOf(ps, raceId, p) <= RankedCount(ps, raceId)
  {
    CountAheadBelowRanked(ps, raceId, p);
  }

  /** Ranks follow the order in both directions: a finished participant has a lower
      rank than another exactly when it finished earlier, or at the same time with a higher WPM. */
  lemma RankOrder(ps: seq<Participant>, raceId: nat, q: Participant, p: Participant)
    requires q in ps && Ranked(q, raceId) && p in ps && Ranked(p, raceId)
    ensures RankOf(ps, raceId, q) < RankOf(ps, raceId, p) <==> Ahead(q, p)
  {
    AheadIsStrictWeakOrder(q, p, p);
    if Ahead(q, p) {
      CountAheadGrows(ps, raceId, q, p);
    } else if Ahead(p, q) {
      CountAheadGrows(ps, raceId, p, q);
    } else {
      CountAheadByKey(ps, raceId, q, p);
    }
  }

  /** Ties share a rank: participants with the same finishing time and WPM get the same position. */
  lemma TiesShareRank(ps: seq<Participant>, raceId: nat, q: Participant, p: Participant)
    requires SameKey(q, p)
    ensures RankOf(ps, raceId, q) == RankOf(ps, raceId, p)
  {
    CountAheadByKey(ps, raceId, q, p);
  }

  /** When anyone finished, someone has rank 1. */
  lemma {:induction false} SomeoneRanksFirst(ps: seq<Participant>, raceId: nat)
    requires RankedCount(ps, raceId) > 0
    ensures exists p :: p in ps && Ranked(p, raceId) && RankOf(ps, raceId, p) == 1
  {
    var init, x := ps[..|ps| - 1], ps[|ps| - 1];
    assert ps == init + [x];
    if RankedCount(init, raceId) == 0 {
      assert Ranked(x, raceId);
      CountAheadZero(init, raceId, x);
      forall q | q in init && Ranked(q, raceId) ensures false {
        CountAheadBelowRanked(init, raceId, q);
      }
      assert CountAhead(ps, raceId, x) == 0;
    } else {
      SomeoneRanksFirst(init, raceId);
      var m :| m in init && Ranked(m, raceId) && RankOf(init, raceId, m) == 1;
      CountAheadZero(init, raceId, m);
      if Ranked(x, raceId) && Ahead(x, m) {
        CountAheadZero(init, raceId, x);
        forall q | q in init && Ranked(q, raceId) ensures !Ahead(q, x) {
          AheadIsStrictWeakOrder(q, x, m);
        }
        assert CountAhead(ps, raceId, x) == 0;
      } else {
        assert CountAhead(ps, raceId, m) == 0;
      }
    }
  }

  /** A and B finish together with 50 and 80 WPM, C later at 999 WPM: the finishing
      time decides first, WPM breaks the tie, so the ranks are B 1, A 2, C 3. */
  lemma RankingExample(raceId: nat, t1: int, t2: int)
    requires t1 < t2
    ensures
      var a := Participant(1, raceId, 10, 0, 50, 100, true, Some(t1), None);
      var b := Participant(2, raceId, 11, 0, 80, 100, true, Some(t1), None);
      var c := Participant(3, raceId, 12, 0, 999, 100, true, Some(t2), None);
      var ps := [a, b, c];
      RankOf(ps, raceId, b) == 1 && RankOf(ps, raceId, a) == 2 && RankOf(ps, raceId, c) == 3
  {
    var a := Participant(1, raceId, 10, 0, 50, 100, true, Some(t1), None);
    var b := Participant(2, raceId, 11, 0, 80, 100, true, Some(t1), None);
    var c := Participant(3, raceId, 12, 0, 999, 100, true, Some(t2), None);
    var ps := [a, b, c];
    assert ps[..2] == [a, b] && [a, b][..1] == [a] && [a][..0] == [];
    assert Ahead(a, c) && Ahead(b, c) && Ahead(b, a) && !Ahead(a, b) && !Ahead(a, a) && !Ahead(b, b);
    assert CountAhead([], raceId, b) == 0;
    assert CountAhead([a], raceId, a) == 0;
    assert CountAhead([a], raceId, b) == 0;
    assert CountAhead([a], raceId, c) == 1;
    assert CountAhead([a, b], raceId, a) == 1;
    assert CountAhead([a, b], raceId, b) == 0;
    assert CountAhead([a, b], raceId, c) == 2;
  }

  // ---------------------------------------------------------------------------
  // Reading the results back

  /** `position_value ASC`: NULL first, then by rank. */
  predicate PositionAtMost(a: Option<nat>, b: Option<nat>)
  {
    a.None? || (b.Some? && a.value <= b.value)
  }

  predicate SortedByPosition(s: seq<Participant>)
  {
    forall i, j :: 0 <= i < j < |s| ==> PositionAtMost(s[i].position, s[j].position)
  }

  function InsertByPosition(x: Participant, s: seq<Participant>): (r: seq<Participant>)
    requires SortedByPosition(s)
    ensures SortedByPosition(r)
    ensures multiset(r) == multiset(s) + multiset{x}
    ensures forall y :: y in r <==> y in s || y == x
  {
    if |s| == 0 then [x]
    else if PositionAtMost(x.position, s[0].position) then [x] + s
    else
      var rest := InsertByPosition(x, s[1..]);
      assert s == [s[0]] + s[1..];
      assert forall y :: y in rest ==> PositionAtMost(s[0].position, y.position);
      SortedCons(s[0], rest);
      [s[0]] + rest
  }

  lemma SortedCons(x: Participant, s: seq<Participant>)
    requires SortedByPosition(s)
    requires forall y :: y in s ==> PositionAtMost(x.position, y.position)
    ensures SortedByPosition([x] + s)
  {
    var r := [x] + s;
    forall i, j | 0 <= i < j < |r| ensures PositionAtMost(r[i].position, r[j].position) {
      if i > 0 {
        assert r[i] == s[i - 1] && r[j] == s[j - 1];
      } else {
        assert r[j] == s[j - 1];
      }
    }
  }

  /** `ORDER BY position_value ASC`: a sorted permutation (SQL leaves the order of equal keys open). */
  function SortByPosition(s: seq<Participant>): (r: seq<Participant>)
    ensures SortedByPosition(r)
    ensures multiset(r) == multiset(s)
  {
    if |s| == 0 then []
    else
      assert s == [s[0]] + s[1..];
      InsertByPosition(s[0], SortByPosition(s[1..]))
  }

  /** The rows of `WHERE race_id = ? AND finished = TRUE`, in table order. */
  function FinishedRows(ps: seq<Participant>, raceId: nat): (r: seq<Participant>)
    ensures |r| == RankedCount(ps, raceId)
    ensures forall p :: p in r <==> p in ps && Ranked(p, raceId)
  {
    if |ps| == 0 then []
    else
      assert ps == ps[..|ps| - 1] + [ps[|ps| - 1]];
      FinishedRows(ps[..|ps| - 1], raceId) + (if Ranked(ps[|ps| - 1], raceId) then [ps[|ps| - 1]] else [])
  }

  /** `Race.getRaceResults`: exactly the race's finished rows, by position ascending. */
  function RaceResults(ps: seq<Participant>, raceId: nat): (r: seq<Participant>)
    ensures SortedByPosition(r)
    ensures |r| == RankedCount(ps, raceId)
    ensures forall p :: p in r <==> p in ps && Ranked(p, raceId)
  {
    var rows := FinishedRows(ps, raceId);
    var r := SortByPosition(rows);
    assert forall p :: p in r <==> p in multiset(rows);
    assert |r| == |multiset(r)| == |multiset(rows)| == |rows|;
    r
  }

  /** Ranking changes no row's rank key and no row's membership of the ranked set. */
  lemma {:induction false} CountAheadSameKeys(a: seq<Participant>, b: seq<Participant>, raceId: nat, p: Participant)
    requires |a| == |b|
    requires forall i :: 0 <= i < |a| ==> Ranked(a[i], raceId) == Ranked(b[i], raceId) && SameKey(a[i], b[i])
    ensures CountAhead(a, raceId, p) == CountAhead(b, raceId, p)
  {
    if |a| > 0 {
      CountAheadSameKeys(a[..|a| - 1], b[..|b| - 1], raceId, p);
    }
  }

  /** After the ranking UPDATE, every finished row's `position_value` is its RANK()
      in the table as it now stands, and it stems from a row of the old table with the same key. */
  lemma AssignedPosition(ps: seq<Participant>, raceId: nat, x: Participant)
    requires x in AssignPositions(ps, raceId) && Ranked(x, raceId)
    ensures x.position == Some(RankOf(AssignPositions(ps, raceId), raceId, x))
    ensures exists y :: y in ps && Ranked(y, raceId) && SameKey(y, x)
  {
    var t := AssignPositions(ps, raceId);
    var k :| 0 <= k < |t| && t[k] == x;
    CountAheadByKey(ps, raceId, ps[k], x);
    CountAheadSameKeys(ps, t, raceId, x);
    assert ps[k] in ps;
  }

  /** The results of a ranked race list nobody after a participant they finished ahead of,
      and each result carries its rank. */
  lemma ResultsInFinishingOrder(ps: seq<Participant>, raceId: nat)
    ensures var t := AssignPositions(ps, raceId);
      var r := RaceResults(t, raceId);
      && (forall i :: 0 <= i < |r| ==> r[i].position == Some(RankOf(t, raceId, r[i])))
      && (forall i, j :: 0 <= i < j < |r| ==> !Ahead(r[j], r[i]))
  {
    var t := AssignPositions(ps, raceId);
    var r := RaceResults(t, raceId);
    forall i | 0 <= i < |r| ensures r[i].position == Some(RankOf(t, raceId, r[i])) {
      AssignedPosition(ps, raceId, r[i]);
    }
    forall i, j | 0 <= i < j < |r| ensures !Ahead(r[j], r[i]) {
      if Ahead(r[j], r[i]) {
        AssignedPosition(ps, raceId, r[i]);
        AssignedPosition(ps, raceId, r[j]);
        var y :| y in ps && Ranked(y, raceId) && SameKey(y, r[j]);
        CountAheadSameKeys(ps, t, raceId, r[i]);
        CountAheadSameKeys(ps, t, raceId, r[j]);
        CountAheadByKey(ps, raceId, y, r[j]);
        CountAheadGrows(ps, raceId, y, r[i]);
        assert false;
      }
    }
  }
}
