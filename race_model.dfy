/**
 * The race store (`Race` model): the queries and updates that the race
 * controller and the live keystroke handler run against the `races` and
 * `race_participants` tables. Each mutator does its guard reads first and then
 * changes the tables in place; `now` stands for SQL's `NOW()`.
 */
module RaceModel {
  import opened Common
  import opened Tables
  import opened Ranking

  /** The errors the store throws. */
  datatype RaceError =
    | RaceNotFound
    | RaceAlreadyStarted
    | AlreadyJoined
    | RaceFull
    | NotCreator
    | DeleteStarted

  /** The message each thrown error carries. */
  function Message(e: RaceError): string
  {
    match e
    case RaceNotFound => "Race not found"
    case RaceAlreadyStarted => "Race has already started"
    case AlreadyJoined => "Already joined this race"
    case RaceFull => "Race is full"
    case NotCreator => "Only the race creator can delete this race"
    case DeleteStarted => "Cannot delete a race that has already started"
  }

  // ---------------------------------------------------------------------------
  // findAvailable

  /** A row of `findAvailable`: the race joined with its sentence, and its roster size. */
  datatype AvailableRace = AvailableRace(details: RaceDetails, currentParticipants: nat)

  /** Whether a race is listed: not started, competitive, its sentence present
      (inner join) and its roster below the maximum (HAVING). */
  predicate Open(race: Race, ss: seq<Sentence>, ps: seq<Participant>)
  {
    && !race.started && race.raceType == Competitive
    && FindSentence(ss, race.sentenceId).Some?
    && |Roster(ps, race.id)| < race.maxParticipants
  }

  /** The listed row for a race. */
  function Listing(race: Race, ss: seq<Sentence>, ps: seq<Participant>): AvailableRace
    requires FindSentence(ss, race.sentenceId).Some?
  {
    var s := FindSentence(ss, race.sentenceId).value;
    AvailableRace(RaceDetails(race, s.content, s.difficulty), |Roster(ps, race.id)|)
  }

  /** All open races, newest first (`ORDER BY created_at DESC`). */
  function OpenRaces(rs: seq<Race>, ss: seq<Sentence>, ps: seq<Participant>): (r: seq<AvailableRace>)
    ensures |r| <= |rs|
    ensures forall a :: a in r <==> exists race :: race in rs && Open(race, ss, ps) && a == Listing(race, ss, ps)
  {
    if |rs| == 0 then []
    else
      var init, last := rs[..|rs| - 1], rs[|rs| - 1];
      assert rs == init + [last];
      (if Open(last, ss, ps) then [Listing(last, ss, ps)] else []) + OpenRaces(init, ss, ps)
  }

  /** `Race.findAvailable(limit = 10)`: the first `limit` open races. The limit is spliced
      into the SQL text, so a negative one is a syntax error (`None`). */
  function FindAvailable(rs: seq<Race>, ss: seq<Sentence>, ps: seq<Participant>, limit: Option<int>)
    : (r: Option<seq<AvailableRace>>)
    ensures r.None? <==> limit.Some? && limit.value < 0
    ensures r.Some? ==>
      var n := if limit.Some? then limit.value else 10;
      && |r.value| == (if |OpenRaces(rs, ss, ps)| < n then |OpenRaces(rs, ss, ps)| else n)
      && r.value == OpenRaces(rs, ss, ps)[..|r.value|]
      && forall a :: a in r.value ==>
           && a.details.race in rs && Open(a.details.race, ss, ps)
           && a.currentParticipants == |Roster(ps, a.details.race.id)|
  {
    var n := if limit.Some? then limit.value else 10;
    if n < 0 then None
    else
      var all := OpenRaces(rs, ss, ps);
      var k := if |all| < n then |all| else n;
      assert forall a :: a in all[..k] ==> a in all;
      Some(all[..k])
  }

  /** The newest open race is listed first, and a race that is not open is never listed. */
  lemma {:induction false} NewestListedFirst(rs: seq<Race>, race: Race, ss: seq<Sentence>, ps: seq<Participant>)
    ensures Open(race, ss, ps) ==> OpenRaces(rs + [race], ss, ps) == [Listing(race, ss, ps)] + OpenRaces(rs, ss, ps)
    ensures !Open(race, ss, ps) ==> OpenRaces(rs + [race], ss, ps) == OpenRaces(rs, ss, ps)
  {
    assert (rs + [race])[..|rs + [race]| - 1] == rs;
  }

  // ---------------------------------------------------------------------------
  // The new table contents each UPDATE / DELETE produces

  /** `UPDATE races SET started = TRUE, started_at = NOW() WHERE race_id = ? AND started = FALSE`. */
  function StartedRaces(rs: seq<Race>, raceId: nat, now: int): (r: seq<Race>)
    ensures |r| == |rs|
    ensures forall i :: 0 <= i < |rs| ==>
      && r[i].id == rs[i].id && r[i].maxParticipants == rs[i].maxParticipants
      && r[i].started == (rs[i].started || rs[i].id == raceId)
      && (rs[i].id != raceId || rs[i].started ==> r[i] == rs[i])
      && (rs[i].id == raceId && !rs[i].started ==> r[i] == rs[i].(started := true, startedAt := Some(now)))
  {
    seq(|rs|, i requires 0 <= i < |rs| =>
      if rs[i].id == raceId && !rs[i].started then rs[i].(started := true, startedAt := Some(now)) else rs[i])
  }

  /** `UPDATE races SET finished = TRUE, finished_at = NOW() WHERE race_id = ?`. */
  function FinishedRaces(rs: seq<Race>, raceId: nat, now: int): (r: seq<Race>)
    ensures |r| == |rs|
    ensures forall i :: 0 <= i < |rs| ==>
      && r[i].id == rs[i].id && r[i].maxParticipants == rs[i].maxParticipants && r[i].finished
           == (rs[i].finished || rs[i].id == raceId)
      && (rs[i].id != raceId ==> r[i] == rs[i])
      && (rs[i].id == raceId ==> r[i].finishedAt == Some(now) && r[i].started == rs[i].started)
  {
    seq(|rs|, i requires 0 <= i < |rs| =>
      if rs[i].id == raceId then rs[i].(finished := true, finishedAt := Some(now)) else rs[i])
  }

  /** The progress UPDATE on one row. */
  function ProgressRow(p: Participant, raceId: nat, userId: nat, wpm: int, accuracy: int, finished: bool, now: int): Participant
  {
    if p.raceId == raceId && p.userId == userId then
      if finished then p.(wpm := wpm, accuracy := accuracy, finished := true, finishedAt := Some(now))
      else p.(wpm := wpm, accuracy := accuracy)
    else p
  }

  /** The progress UPDATE on the whole table. */
  function ProgressApplied(ps: seq<Participant>, raceId: nat, userId: nat, wpm: int, accuracy: int, finished: bool, now: int)
    : (r: seq<Participant>)
    ensures |r| == |ps|
    ensures forall i :: 0 <= i < |ps| ==>
      && r[i].id == ps[i].id && r[i].raceId == ps[i].raceId && r[i].userId == ps[i].userId
      && (ps[i].finished ==> r[i].finished)
      && (ps[i].raceId == raceId && ps[i].userId == userId ==>
            && r[i].wpm == wpm && r[i].accuracy == accuracy
            && r[i].finished == (ps[i].finished || finished)
            && r[i].finishedAt == (if finished then Some(now) else ps[i].finishedAt)
            && r[i].position == ps[i].position && r[i].joinedAt == ps[i].joinedAt)
      && (ps[i].raceId != raceId || ps[i].userId != userId ==> r[i] == ps[i])
  {
    seq(|ps|, i requires 0 <= i < |ps| => ProgressRow(ps[i], raceId, userId, wpm, accuracy, finished, now))
  }

  /** A race starts once: a second start finds it started, reports no change and leaves
      the table as the first start left it. */
  lemma {:induction false} StartOnce(rs: seq<Race>, raceId: nat, t1: int, t2: int)
    requires FindRace(rs, raceId).Some?
    ensures var once := StartedRaces(rs, raceId, t1);
      && FindRace(once, raceId).Some? && FindRace(once, raceId).value.started
      && StartedRaces(once, raceId, t2) == once
  {
    var once := StartedRaces(rs, raceId, t1);
    StartedFound(rs, raceId, t1);
    assert StartedRaces(once, raceId, t2) == once;
  }

  /** Starting the race just inserted with a fresh id changes that row only. */
  lemma StartedFresh(rs: seq<Race>, x: Race, now: int)
    requires RaceIdsBelow(rs, x.id) && !x.started
    ensures StartedRaces(rs + [x], x.id, now) == rs + [x.(started := true, startedAt := Some(now))]
  {
    var r := StartedRaces(rs + [x], x.id, now);
    forall i | 0 <= i < |rs| ensures r[i] == rs[i] {
      assert rs[i] in rs && (rs + [x])[i] == rs[i];
    }
    assert r[|rs|] == x.(started := true, startedAt := Some(now));
  }

  /** After a start, the lookup finds the race started. */
  lemma {:induction false} StartedFound(rs: seq<Race>, raceId: nat, now: int)
    requires FindRace(rs, raceId).Some?
    ensures FindRace(StartedRaces(rs, raceId, now), raceId).Some?
    ensures FindRace(StartedRaces(rs, raceId, now), raceId).value.started
  {
    if rs[0].id != raceId {
      StartedFound(rs[1..], raceId, now);
      assert StartedRaces(rs, raceId, now)[1..] == StartedRaces(rs[1..], raceId, now);
    }
  }

  /** `DELETE FROM races WHERE race_id = ?`. */
  function WithoutRace(rs: seq<Race>, raceId: nat): (r: seq<Race>)
    ensures forall x :: x in r <==> x in rs && x.id != raceId
  {
    if |rs| == 0 then []
    else
      assert rs == [rs[0]] + rs[1..];
      (if rs[0].id == raceId then [] else [rs[0]]) + WithoutRace(rs[1..], raceId)
  }

  /** The cascade of that DELETE on `race_participants`. */
  function WithoutEntries(ps: seq<Participant>, raceId: nat): (r: seq<Participant>)
    ensures forall x :: x in r <==> x in ps && x.raceId != raceId
  {
    if |ps| == 0 then []
    else
      assert ps == ps[..|ps| - 1] + [ps[|ps| - 1]];
      var last := ps[|ps| - 1];
      WithoutEntries(ps[..|ps| - 1], raceId) + (if last.raceId == raceId then [] else [last])
  }

  // ---------------------------------------------------------------------------
  // Frame lemmas used to re-establish the table invariants

  /** Appending a race row leaves every earlier lookup as it was and makes a fresh id findable. */
  lemma {:induction false} FindRaceAppend(rs: seq<Race>, x: Race, id: nat)
    ensures FindRace(rs + [x], id) ==
      if FindRace(rs, id).Some? then FindRace(rs, id) else if x.id == id then Some(x) else None
  {
    if |rs| > 0 {
      assert (rs + [x])[1..] == rs[1..] + [x];
      FindRaceAppend(rs[1..], x, id);
    }
  }

  /** Rewriting race rows without changing id or capacity keeps what a lookup finds
      up to those two columns. */
  lemma {:induction false} FindRaceRewritten(a: seq<Race>, b: seq<Race>, id: nat)
    requires |a| == |b|
    requires forall i :: 0 <= i < |a| ==> a[i].id == b[i].id && a[i].maxParticipants == b[i].maxParticipants
    ensures FindRace(a, id).Some? <==> FindRace(b, id).Some?
    ensures FindRace(a, id).Some? ==> FindRace(a, id).value.maxParticipants == FindRace(b, id).value.maxParticipants
  {
    if |a| > 0 && a[0].id != id {
      FindRaceRewritten(a[1..], b[1..], id);
    }
  }

  /** Deleting one race's rows leaves every other lookup as it was. */
  lemma {:induction false} FindRaceWithout(rs: seq<Race>, raceId: nat, id: nat)
    ensures FindRace(WithoutRace(rs, raceId), id) == if id == raceId then None else FindRace(rs, id)
  {
    var w := WithoutRace(rs, raceId);
    if id != raceId && |rs| > 0 {
      var rest := WithoutRace(rs[1..], raceId);
      FindRaceWithout(rs[1..], raceId, id);
      if rs[0].id == raceId {
        assert w == rest;
      } else {
        assert w == [rs[0]] + rest;
        assert w[0] == rs[0] && w[1..] == rest;
      }
    }
  }

  /** A new row extends the user's entries in its own race only. */
  lemma {:induction false} EntriesAppend(ps: seq<Participant>, x: Participant, raceId: nat, userId: nat)
    ensures Entries(ps + [x], raceId, userId) ==
      Entries(ps, raceId, userId) + (if x.raceId == raceId && x.userId == userId then [x] else [])
  {
    assert (ps + [x])[..|ps + [x]| - 1] == ps;
  }

  /** Rewriting rows without touching their race and user keeps every roster's size
      and every user's number of entries. */
  lemma {:induction false} RowsRewritten(a: seq<Participant>, b: seq<Participant>, raceId: nat, userId: nat)
    requires |a| == |b| && forall i :: 0 <= i < |a| ==> a[i].raceId == b[i].raceId && a[i].userId == b[i].userId
    ensures |Roster(a, raceId)| == |Roster(b, raceId)|
    ensures |Entries(a, raceId, userId)| == |Entries(b, raceId, userId)|
  {
    if |a| > 0 {
      RowsRewritten(a[..|a| - 1], b[..|b| - 1], raceId, userId);
    }
  }

  /** Removing the rows of one race leaves every other race's roster as it was. */
  lemma {:induction false} RosterWithoutEntries(ps: seq<Participant>, raceId: nat, other: nat)
    requires other != raceId
    ensures Roster(WithoutEntries(ps, raceId), other) == Roster(ps, other)
  {
    if |ps| > 0 {
      var init, last := ps[..|ps| - 1], ps[|ps| - 1];
      RosterWithoutEntries(init, raceId, other);
      var w := WithoutEntries(init, raceId);
      assert WithoutEntries(ps, raceId) == w + (if last.raceId == raceId then [] else [last]);
      if last.raceId != raceId {
        RosterAppend(w, last, other);
      } else {
        assert WithoutEntries(ps, raceId) == w;
      }
    }
  }

  /** Removing the rows of one race gives no user more entries in any race. */
  lemma {:induction false} EntriesWithoutEntries(ps: seq<Participant>, raceId: nat, other: nat, userId: nat)
    ensures |Entries(WithoutEntries(ps, raceId), other, userId)| <= |Entries(ps, other, userId)|
  {
    if |ps| > 0 {
      var init, last := ps[..|ps| - 1], ps[|ps| - 1];
      EntriesWithoutEntries(init, raceId, other, userId);
      var w := WithoutEntries(init, raceId);
      assert WithoutEntries(ps, raceId) == w + (if last.raceId == raceId then [] else [last]);
      if last.raceId != raceId {
        EntriesAppend(w, last, other, userId);
      } else {
        assert WithoutEntries(ps, raceId) == w;
      }
    }
  }

  /** A race id that no row references has an empty roster. */
  lemma {:induction false} EmptyRoster(ps: seq<Participant>, raceId: nat)
    requires forall p :: p in ps ==> p.raceId != raceId
    ensures Roster(ps, raceId) == []
  {
    if |ps| > 0 {
      var init := ps[..|ps| - 1];
      assert forall p :: p in init ==> p in ps;
      EmptyRoster(init, raceId);
      assert ps[|ps| - 1] in ps;
    }
  }

  /** Appending a row for a race that exists, for a user not yet on its roster and
      while the roster has room, keeps every participant invariant. */
  lemma AppendKeeps(rs: seq<Race>, ps: seq<Participant>, row: Participant, next: nat)
    requires ParticipantIdsBelow(ps, next) && OneEntryPerUser(ps) && FinishedRowsStamped(ps)
    requires EntriesReferenceRaces(rs, ps) && RostersWithinCapacity(rs, ps)
    requires row.id == next > 0 && !row.finished && FindRace(rs, row.raceId).Some?
    requires !IsOnRoster(ps, row.raceId, row.userId)
    requires |Roster(ps, row.raceId)| < FindRace(rs, row.raceId).value.maxParticipants
    ensures ParticipantIdsBelow(ps + [row], next + 1) && OneEntryPerUser(ps + [row])
    ensures FinishedRowsStamped(ps + [row])
    ensures EntriesReferenceRaces(rs, ps + [row]) && RostersWithinCapacity(rs, ps + [row])
  {
    var qs := ps + [row];
    forall raceId, userId ensures |Entries(qs, raceId, userId)| <= 1 {
      EntriesAppend(ps, row, raceId, userId);
    }
    forall raceId | FindRace(rs, raceId).Some?
      ensures |Roster(qs, raceId)| == 0 || |Roster(qs, raceId)| <= FindRace(rs, raceId).value.maxParticipants
    {
      RosterAppend(ps, row, raceId);
    }
  }

  /** Rewriting race rows without changing id or capacity keeps the race invariants. */
  lemma RaceRowsKept(a: seq<Race>, b: seq<Race>, ps: seq<Participant>, next: nat)
    requires |a| == |b|
    requires forall i :: 0 <= i < |a| ==> a[i].id == b[i].id && a[i].maxParticipants == b[i].maxParticipants
    requires RaceIdsBelow(a, next) && EntriesReferenceRaces(a, ps) && RostersWithinCapacity(a, ps)
    ensures RaceIdsBelow(b, next) && EntriesReferenceRaces(b, ps) && RostersWithinCapacity(b, ps)
  {
    forall x | x in b ensures 0 < x.id < next {
      var i :| 0 <= i < |b| && b[i] == x;
      assert a[i] in a;
    }
    forall p | p in ps ensures FindRace(b, p.raceId).Some? {
      FindRaceRewritten(a, b, p.raceId);
    }
    forall raceId | FindRace(b, raceId).Some?
      ensures |Roster(ps, raceId)| == 0 || |Roster(ps, raceId)| <= FindRace(b, raceId).value.maxParticipants
    {
      FindRaceRewritten(a, b, raceId);
    }
  }

  /** Rewriting participant rows without changing id, race or user, and keeping finished
      rows stamped, keeps every participant invariant. */
  lemma ParticipantRowsKept(rs: seq<Race>, a: seq<Participant>, b: seq<Participant>, next: nat)
    requires |a| == |b|
    requires forall i :: 0 <= i < |a| ==>
      a[i].id == b[i].id && a[i].raceId == b[i].raceId && a[i].userId == b[i].userId
    requires forall i :: 0 <= i < |b| && b[i].finished ==> b[i].finishedAt.Some?
    requires ParticipantIdsBelow(a, next) && OneEntryPerUser(a)
    requires EntriesReferenceRaces(rs, a) && RostersWithinCapacity(rs, a)
    ensures ParticipantIdsBelow(b, next) && OneEntryPerUser(b)
    ensures EntriesReferenceRaces(rs, b) && RostersWithinCapacity(rs, b) && FinishedRowsStamped(b)
  {
    forall p | p in b ensures 0 < p.id < next && FindRace(rs, p.raceId).Some? {
      var i :| 0 <= i < |b| && b[i] == p;
      assert a[i] in a;
    }
    forall raceId, userId ensures |Entries(b, raceId, userId)| <= 1 {
      RowsRewritten(a, b, raceId, userId);
    }
    forall raceId | FindRace(rs, raceId).Some?
      ensures |Roster(b, raceId)| == 0 || |Roster(b, raceId)| <= FindRace(rs, raceId).value.maxParticipants
    {
      RowsRewritten(a, b, raceId, 0);
    }
  }

  /** Deleting a race together with its participant rows keeps the race and
      participant invariants. */
  lemma DeleteKeeps(rs: seq<Race>, ps: seq<Participant>, raceId: nat)
    requires OneEntryPerUser(ps) && EntriesReferenceRaces(rs, ps) && RostersWithinCapacity(rs, ps)
    ensures var rs', ps' := WithoutRace(rs, raceId), WithoutEntries(ps, raceId);
      OneEntryPerUser(ps') && EntriesReferenceRaces(rs', ps') && RostersWithinCapacity(rs', ps')
  {
    var rs', ps' := WithoutRace(rs, raceId), WithoutEntries(ps, raceId);
    forall other, userId ensures |Entries(ps', other, userId)| <= 1 {
      EntriesWithoutEntries(ps, raceId, other, userId);
    }
    forall p | p in ps' ensures FindRace(rs', p.raceId).Some? {
      FindRaceWithout(rs, raceId, p.raceId);
    }
    forall other | FindRace(rs', other).Some?
      ensures |Roster(ps', other)| == 0 || |Roster(ps', other)| <= FindRace(rs', other).value.maxParticipants
    {
      FindRaceWithout(rs, raceId, other);
      RosterWithoutEntries(ps, raceId, other);
    }
  }

  // ---------------------------------------------------------------------------
  // Operations

  /** `Race.create`: inserts a race, with `race_type` 'competitive' and
      `max_participants` 5 when those arguments are undefined. */
  method Create(db: Database, createdBy: nat, sentenceId: nat, raceType: Option<string>, maxParticipants: Option<int>, now: int)
    returns (raceId: nat)
    requires db.Valid()
    modifies db
    ensures db.Valid()
    ensures raceId == old(db.nextRaceId) && db.nextRaceId == raceId + 1
    ensures db.races == old(db.races) + [Race(raceId, createdBy, sentenceId,
      if raceType.Some? then raceType.value else Competitive,
      if maxParticipants.Some? then maxParticipants.value else 5,
      false, false, now, None, None)]
    ensures db.sentences == old(db.sentences) && db.participants == old(db.participants)
    ensures db.nextSentenceId == old(db.nextSentenceId) && db.nextParticipantId == old(db.nextParticipantId)
  {
    var kind := if raceType.Some? then raceType.value else Competitive;
    var max := if maxParticipants.Some? then maxParticipants.value else 5;
    raceId := db.nextRaceId;
    var race := Race(raceId, createdBy, sentenceId, kind, max, false, false, now, None, None);
    ghost var rs, ps := db.races, db.participants;
    forall p | p in ps ensures p.raceId != raceId {
      assert FindRace(rs, p.raceId).value in rs;
    }
    EmptyRoster(ps, raceId);
    forall id ensures FindRace(rs + [race], id) ==
      if FindRace(rs, id).Some? then FindRace(rs, id) else if id == raceId then Some(race) else None
    {
      FindRaceAppend(rs, race, id);
    }
    db.races := db.races + [race];
    db.nextRaceId := raceId + 1;
  }

  /** The error `addParticipant` raises, if any: its four guards in order. */
  function JoinCheck(rs: seq<Race>, ss: seq<Sentence>, ps: seq<Participant>, raceId: nat, userId: nat)
    : (r: Option<RaceError>)
    ensures var found := FindById(rs, ss, raceId);
      && (r == Some(RaceNotFound) <==> found.None?)
      && (r == Some(RaceAlreadyStarted) <==> found.Some? && found.value.race.started)
      && (r == Some(AlreadyJoined) <==> found.Some? && !found.value.race.started && IsOnRoster(ps, raceId, userId))
      && (r == Some(RaceFull) <==>
            found.Some? && !found.value.race.started && !IsOnRoster(ps, raceId, userId)
            && |Roster(ps, raceId)| >= found.value.race.maxParticipants)
      && (r.None? <==>
            found.Some? && !found.value.race.started && !IsOnRoster(ps, raceId, userId)
            && |Roster(ps, raceId)| < found.value.race.maxParticipants)
  {
    match FindById(rs, ss, raceId)
    case None => Some(RaceNotFound)
    case Some(found) =>
      if found.race.started then Some(RaceAlreadyStarted)
      else if IsOnRoster(ps, raceId, userId) then Some(AlreadyJoined)
      else if |Roster(ps, raceId)| >= found.race.maxParticipants then Some(RaceFull)
      else None
  }

  /** A race just inserted with a fresh id is found, has nobody on its roster, and so
      refuses a join only when its sentence is missing or its maximum is not positive. */
  lemma FreshRaceJoin(rs: seq<Race>, ss: seq<Sentence>, ps: seq<Participant>, x: Race, userId: nat)
    requires RaceIdsBelow(rs, x.id) && EntriesReferenceRaces(rs, ps) && !x.started
    ensures FindRace(rs + [x], x.id) == Some(x)
    ensures Roster(ps, x.id) == [] && !IsOnRoster(ps, x.id, userId)
    ensures JoinCheck(rs + [x], ss, ps, x.id, userId) ==
      if FindSentence(ss, x.sentenceId).None? then Some(RaceNotFound)
      else if x.maxParticipants <= 0 then Some(RaceFull)
      else None
  {
    FindRaceAppend(rs, x, x.id);
    forall p | p in ps ensures p.raceId != x.id {
      assert FindRace(rs, p.raceId).value in rs;
    }
    EmptyRoster(ps, x.id);
    EntriesWithinRoster(ps, x.id, userId);
  }

  /** A user's entries in a race are among that race's roster. */
  lemma {:induction false} EntriesWithinRoster(ps: seq<Participant>, raceId: nat, userId: nat)
    ensures |Entries(ps, raceId, userId)| <= |Roster(ps, raceId)|
  {
    if |ps| > 0 {
      EntriesWithinRoster(ps[..|ps| - 1], raceId, userId);
    }
  }

  /** `Race.addParticipant`: the guards run in order (missing race, started race,
      duplicate user, full race) and only a join that passes all four inserts a row. */
  method AddParticipant(db: Database, raceId: nat, userId: nat, now: int) returns (r: Result<nat, RaceError>)
    requires db.Valid()
    modifies db
    ensures db.Valid()
    ensures r.Err? <==> JoinCheck(old(db.races), old(db.sentences), old(db.participants), raceId, userId).Some?
    ensures r.Err? ==> JoinCheck(old(db.races), old(db.sentences), old(db.participants), raceId, userId) == Some(r.error)
    ensures r.Ok? ==>
      |Roster(db.participants, raceId)| == |Roster(old(db.participants), raceId)| + 1
        <= FindRace(old(db.races), raceId).value.maxParticipants
    ensures r.Err? ==> unchanged(db)
    ensures r.Ok? ==>
      && r.value == old(db.nextParticipantId) && db.nextParticipantId == r.value + 1
      && db.participants == old(db.participants) + [Participant(r.value, raceId, userId, now, 0, 0, false, None, None)]
      && db.races == old(db.races) && db.sentences == old(db.sentences)
      && db.nextRaceId == old(db.nextRaceId) && db.nextSentenceId == old(db.nextSentenceId)
  {
    var race := FindById(db.races, db.sentences, raceId);
    if race.None? {
      return Err(RaceNotFound);
    }
    if race.value.race.started {
      return Err(RaceAlreadyStarted);
    }
    if IsOnRoster(db.participants, raceId, userId) {
      return Err(AlreadyJoined);
    }
    var count := |Roster(db.participants, raceId)|;
    if count >= race.value.race.maxParticipants {
      return Err(RaceFull);
    }
    var id := db.nextParticipantId;
    var row := Participant(id, raceId, userId, now, 0, 0, false, None, None);
    ghost var ps := db.participants;
    AppendKeeps(db.races, ps, row, id);
    RosterAppend(ps, row, raceId);
    db.participants := db.participants + [row];
    db.nextParticipantId := id + 1;
    r := Ok(id);
  }

  /** `Race.startRace`: the guarded UPDATE changes the race only while it is not
      started, and reports whether it changed a row. */
  method StartRace(db: Database, raceId: nat, now: int) returns (changed: bool)
    requires db.Valid()
    modifies db
    ensures db.Valid()
    ensures changed <==> FindRace(old(db.races), raceId).Some? && !FindRace(old(db.races), raceId).value.started
    ensures db.races == StartedRaces(old(db.races), raceId, now)
    ensures db.sentences == old(db.sentences) && db.participants == old(db.participants)
    ensures db.nextSentenceId == old(db.nextSentenceId) && db.nextRaceId == old(db.nextRaceId)
    ensures db.nextParticipantId == old(db.nextParticipantId)
  {
    var found := FindRace(db.races, raceId);
    changed := found.Some? && !found.value.started;
    ghost var rs := db.races;
    db.races := StartedRaces(db.races, raceId, now);
    RaceRowsKept(rs, db.races, db.participants, db.nextRaceId);
  }

  /** `Race.updateParticipantProgress`: overwrites WPM and accuracy of the user's row;
      when `finished` is set it also sets the flag and re-stamps the time. */
  method UpdateParticipantProgress(db: Database, raceId: nat, userId: nat, wpm: int, accuracy: int, finished: bool, now: int)
    returns (matched: bool)
    requires db.Valid()
    modifies db
    ensures db.Valid()
    ensures matched <==> IsOnRoster(old(db.participants), raceId, userId)
    ensures db.participants == ProgressApplied(old(db.participants), raceId, userId, wpm, accuracy, finished, now)
    ensures db.races == old(db.races) && db.sentences == old(db.sentences)
    ensures db.nextSentenceId == old(db.nextSentenceId) && db.nextRaceId == old(db.nextRaceId)
    ensures db.nextParticipantId == old(db.nextParticipantId)
  {
    matched := IsOnRoster(db.participants, raceId, userId);
    ghost var ps := db.participants;
    db.participants := ProgressApplied(db.participants, raceId, userId, wpm, accuracy, finished, now);
    forall i | 0 <= i < |db.participants| && db.participants[i].finished
      ensures db.participants[i].finishedAt.Some?
    {
      assert ps[i] in ps;
    }
    ParticipantRowsKept(db.races, ps, db.participants, db.nextParticipantId);
  }

  /** `Race.finishRace`: first ranks the race's finished rows with RANK(), then marks
      the race finished; reports whether the race row exists. */
  method FinishRace(db: Database, raceId: nat, now: int) returns (found: bool)
    requires db.Valid()
    modifies db
    ensures db.Valid()
    ensures found <==> FindRace(old(db.races), raceId).Some?
    ensures db.participants == AssignPositions(old(db.participants), raceId)
    ensures db.races == FinishedRaces(old(db.races), raceId, now)
    ensures db.sentences == old(db.sentences)
    ensures db.nextSentenceId == old(db.nextSentenceId) && db.nextRaceId == old(db.nextRaceId)
    ensures db.nextParticipantId == old(db.nextParticipantId)
  {
    ghost var ps := db.participants;
    db.participants := AssignPositions(db.participants, raceId);
    forall i | 0 <= i < |db.participants| && db.participants[i].finished
      ensures db.participants[i].finishedAt.Some?
    {
      assert ps[i] in ps;
    }
    ParticipantRowsKept(db.races, ps, db.participants, db.nextParticipantId);
    found := FindRace(db.races, raceId).Some?;
    ghost var rs := db.races;
    db.races := FinishedRaces(db.races, raceId, now);
    RaceRowsKept(rs, db.races, db.participants, db.nextRaceId);
  }

  /** `Race.deleteRace`: only the creator may delete, and only before the start;
      the race's participant rows go with it. */
  method DeleteRace(db: Database, raceId: nat, userId: nat) returns (r: Result<bool, RaceError>)
    requires db.Valid()
    modifies db
    ensures db.Valid()
    ensures var found := FindById(old(db.races), old(db.sentences), raceId);
      && (r == Err(RaceNotFound) <==> found.None?)
      && (r == Err(NotCreator) <==> found.Some? && found.value.race.createdBy != userId)
      && (r == Err(DeleteStarted) <==> found.Some? && found.value.race.createdBy == userId && found.value.race.started)
      && (r.Ok? <==> found.Some? && found.value.race.createdBy == userId && !found.value.race.started)
    ensures r.Err? ==> unchanged(db)
    ensures r.Ok? ==>
      && r.value
      && db.races == WithoutRace(old(db.races), raceId)
      && db.participants == WithoutEntries(old(db.participants), raceId)
      && db.sentences == old(db.sentences)
      && db.nextSentenceId == old(db.nextSentenceId) && db.nextRaceId == old(db.nextRaceId)
      && db.nextParticipantId == old(db.nextParticipantId)
  {
    var race := FindById(db.races, db.sentences, raceId);
    if race.None? {
      return Err(RaceNotFound);
    }
    if race.value.race.createdBy != userId {
      return Err(NotCreator);
    }
    if race.value.race.started {
      return Err(DeleteStarted);
    }
    ghost var rs, ps := db.races, db.participants;
    db.races := WithoutRace(db.races, raceId);
    db.participants := WithoutEntries(db.participants, raceId);
    DeleteKeeps(rs, ps, raceId);
    r := Ok(true);
  }
}
