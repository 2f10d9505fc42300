/**
 * The three tables the race and sentence models read and write: `sentences`,
 * `races` and `race_participants`. Each table is a sequence of rows in insertion
 * order; AUTO_INCREMENT ids start at 1 and grow with insertion, so ordering by
 * `created_at` / `joined_at` is ordering by insertion (the clock is taken to
 * be monotone). Query functions here are the SELECTs both models share.
 */
module Tables {
  import opened Common

  /** A row of `sentences`. */
  datatype Sentence = Sentence(
    id: nat, content: string, difficulty: string, createdBy: nat, usageCount: nat, createdAt: int)

  /** A row of `races`. `started` and `finished` are the two lifecycle flags. */
  datatype Race = Race(
    id: nat, createdBy: nat, sentenceId: nat, raceType: string, maxParticipants: int,
    started: bool, finished: bool, createdAt: int, startedAt: Option<int>, finishedAt: Option<int>)

  /** A row of `race_participants`; `position` is `position_value`, NULL until ranked. */
  datatype Participant = Participant(
    id: nat, raceId: nat, userId: nat, joinedAt: int, wpm: int, accuracy: int,
    finished: bool, finishedAt: Option<int>, position: Option<nat>)

  /** What `Race.findById` returns: the race row joined with its sentence. */
  datatype RaceDetails = RaceDetails(race: Race, sentenceContent: string, difficulty: string)

  const Competitive: string := "competitive"
  const Practice: string := "practice"

  // ---------------------------------------------------------------------------
  // Lookups

  /** The row of `sentences` with the given id, if any. */
  function FindSentence(ss: seq<Sentence>, id: nat): (r: Option<Sentence>)
    ensures r.Some? ==> r.value in ss && r.value.id == id
    ensures r.None? ==> forall s :: s in ss ==> s.id != id
  {
    if |ss| == 0 then None
    else if ss[0].id == id then Some(ss[0])
    else FindSentence(ss[1..], id)
  }

  /** The row of `races` with the given id, if any. */
  function FindRace(rs: seq<Race>, id: nat): (r: Option<Race>)
    ensures r.Some? ==> r.value in rs && r.value.id == id
    ensures r.None? ==> forall x :: x in rs ==> x.id != id
  {
    if |rs| == 0 then None
    else if rs[0].id == id then Some(rs[0])
    else FindRace(rs[1..], id)
  }

  /** `Race.findById`: an inner join of the race with its sentence, so a race whose
      sentence row is missing is not found. */
  function FindById(rs: seq<Race>, ss: seq<Sentence>, raceId: nat): (r: Option<RaceDetails>)
    ensures r.Some? <==> FindRace(rs, raceId).Some? && FindSentence(ss, FindRace(rs, raceId).value.sentenceId).Some?
    ensures r.Some? ==> r.value.race in rs && r.value.race.id == raceId
  {
    match FindRace(rs, raceId)
    case None => None
    case Some(race) =>
      match FindSentence(ss, race.sentenceId)
      case None => None
      case Some(s) => Some(RaceDetails(race, s.content, s.difficulty))
  }

  /** `Race.getParticipants`: the rows of one race, in join order. */
  function Roster(ps: seq<Participant>, raceId: nat): (r: seq<Participant>)
    ensures |r| <= |ps|
    ensures forall p :: p in r <==> p in ps && p.raceId == raceId
  {
    if |ps| == 0 then []
    else
      assert ps == ps[..|ps| - 1] + [ps[|ps| - 1]];
      Roster(ps[..|ps| - 1], raceId) + (if ps[|ps| - 1].raceId == raceId then [ps[|ps| - 1]] else [])
  }

  /** A new row extends the roster of its own race only. */
  lemma {:induction false} RosterAppend(ps: seq<Participant>, x: Participant, raceId: nat)
    ensures Roster(ps + [x], raceId) == Roster(ps, raceId) + (if x.raceId == raceId then [x] else [])
  {
    assert (ps + [x])[..|ps + [x]| - 1] == ps;
  }

  /** The rows of the race that belong to the user (the `existing` query of addParticipant). */
  function Entries(ps: seq<Participant>, raceId: nat, userId: nat): (r: seq<Participant>)
    ensures |r| <= |ps|
    ensures forall p :: p in r <==> p in ps && p.raceId == raceId && p.userId == userId
  {
    if |ps| == 0 then []
    else
      assert ps == ps[..|ps| - 1] + [ps[|ps| - 1]];
      var last := ps[|ps| - 1];
      Entries(ps[..|ps| - 1], raceId, userId) + (if last.raceId == raceId && last.userId == userId then [last] else [])
  }

  /** Whether the user has a row in the race. */
  predicate IsOnRoster(ps: seq<Participant>, raceId: nat, userId: nat)
  {
    |Entries(ps, raceId, userId)| > 0
  }

  /** The number of finished rows (`participants.filter(p => p.finished).length`). */
  function FinishedCount(ps: seq<Participant>): (n: nat)
    ensures n <= |ps|
    ensures n == |ps| <==> forall p :: p in ps ==> p.finished
  {
    if |ps| == 0 then 0
    else (if ps[0].finished then 1 else 0) + FinishedCount(ps[1..])
  }

  // ---------------------------------------------------------------------------
  // Table invariants

  /** AUTO_INCREMENT: every id in use is positive and below the next id to hand out. */
  ghost predicate SentenceIdsBelow(ss: seq<Sentence>, next: nat)
  {
    forall s :: s in ss ==> 0 < s.id < next
  }

  ghost predicate RaceIdsBelow(rs: seq<Race>, next: nat)
  {
    forall r :: r in rs ==> 0 < r.id < next
  }

  ghost predicate ParticipantIdsBelow(ps: seq<Participant>, next: nat)
  {
    forall p :: p in ps ==> 0 < p.id < next
  }

  /** A user has at most one row per race. */
  ghost predicate OneEntryPerUser(ps: seq<Participant>)
  {
    forall raceId, userId :: |Entries(ps, raceId, userId)| <= 1
  }

  /** Every participant row belongs to a race that exists (deleting a race cascades). */
  ghost predicate EntriesReferenceRaces(rs: seq<Race>, ps: seq<Participant>)
  {
    forall p :: p in ps ==> FindRace(rs, p.raceId).Some?
  }

  /** A finished row carries its finishing time. */
  ghost predicate FinishedRowsStamped(ps: seq<Participant>)
  {
    forall p :: p in ps && p.finished ==> p.finishedAt.Some?
  }

  /** No roster is larger than its race's `max_participants` (an empty roster is
      allowed even when the maximum is zero or negative). */
  ghost predicate RostersWithinCapacity(rs: seq<Race>, ps: seq<Participant>)
  {
    forall raceId :: FindRace(rs, raceId).Some? ==>
      |Roster(ps, raceId)| == 0 || |Roster(ps, raceId)| <= FindRace(rs, raceId).value.maxParticipants
  }

  /** The database the models share. */
  class Database {
    var sentences: seq<Sentence>
    var races: seq<Race>
    var participants: seq<Participant>
    var nextSentenceId: nat
    var nextRaceId: nat
    var nextParticipantId: nat

    ghost predicate Valid()
      reads this
    {
      && nextSentenceId > 0 && nextRaceId > 0 && nextParticipantId > 0
      && SentenceIdsBelow(sentences, nextSentenceId)
      && RaceIdsBelow(races, nextRaceId)
      && ParticipantIdsBelow(participants, nextParticipantId)
      && OneEntryPerUser(participants)
      && EntriesReferenceRaces(races, participants)
      && FinishedRowsStamped(participants)
      && RostersWithinCapacity(races, participants)
    }

    /** Empty tables; AUTO_INCREMENT starts at 1. */
    constructor ()
      ensures Valid()
      ensures sentences == [] && races == [] && participants == []
      ensures nextSentenceId == 1 && nextRaceId == 1 && nextParticipantId == 1
    {
      sentences, races, participants := [], [], [];
      nextSentenceId, nextRaceId, nextParticipantId := 1, 1, 1;
    }
  }
}
