/**
 * The HTTP race handlers. Each runs for the authenticated user `userId`, reads
 * and writes the shared tables through the store, emits through the socket hub,
 * and answers with a status and a JSON body; `now` stands for SQL's `NOW()`.
 */
module RaceController {
  import opened Common
  import opened Tables
  import opened Ranking
  import opened Rooms
  import RaceModel
  import SentenceModel

  /** The data part of a JSON answer. */
  datatype Body =
    | NoBody
    | RaceWithParticipants(race: RaceDetails, participants: seq<Participant>)
    | RaceOnly(race: RaceDetails)
    | Results(results: seq<Participant>)

  /** A JSON answer: status code, the `success` flag, an optional `message`, and data. */
  datatype Response = Response(status: nat, success: bool, message: Option<string>, body: Body)

  function Fail(status: nat, message: string): Response
  {
    Response(status, false, Some(message), NoBody)
  }

  /** The sentence a new race uses: the requested one when `sentenceId` is truthy,
      otherwise a random one (which counts as a use of it); `None` when there is none. */
  method ChooseSentence(db: Database, sentenceId: Option<nat>) returns (chosen: Option<nat>)
    requires db.Valid()
    modifies db
    ensures db.Valid()
    ensures TruthyNumber(sentenceId) ==> chosen == sentenceId && unchanged(db)
    ensures !TruthyNumber(sentenceId) ==> (chosen.None? <==> |old(db.sentences)| == 0)
    ensures chosen.None? ==> unchanged(db)
    ensures !TruthyNumber(sentenceId) && chosen.Some? ==>
      && FindSentence(old(db.sentences), chosen.value).Some?
      && db.sentences == SentenceModel.Bumped(old(db.sentences), chosen.value)
    ensures db.races == old(db.races) && db.participants == old(db.participants)
    ensures db.nextSentenceId == old(db.nextSentenceId) && db.nextRaceId == old(db.nextRaceId)
    ensures db.nextParticipantId == old(db.nextParticipantId)
  {
    if TruthyNumber(sentenceId) {
      return sentenceId;
    }
    ghost var pool := SentenceModel.Candidates(db.sentences, None);
    if |pool| > 0 {
      assert pool[0] in pool;
    }
    var random := SentenceModel.GetRandomSentence(db, None);
    if random.None? {
      return None;
    }
    chosen := Some(random.value.id);
  }

  /** Inserts a race for `createdBy` and joins its creator to it: the join is refused
      only when the race's sentence is missing or its maximum is not positive, since
      the fresh race has nobody on it and has not started. */
  method OpenRace(db: Database, createdBy: nat, sentenceId: nat, raceType: string, maxParticipants: int, now: int)
    returns (raceId: nat, joined: Result<nat, RaceModel.RaceError>)
    requires db.Valid()
    modifies db
    ensures db.Valid()
    ensures raceId == old(db.nextRaceId)
    ensures db.races == old(db.races)
      + [Race(raceId, createdBy, sentenceId, raceType, maxParticipants, false, false, now, None, None)]
    ensures db.sentences == old(db.sentences)
    ensures db.nextSentenceId == old(db.nextSentenceId) && db.nextRaceId == old(db.nextRaceId) + 1
    ensures db.nextParticipantId == old(db.nextParticipantId) + if joined.Ok? then 1 else 0
    ensures joined.Err? <==> FindSentence(old(db.sentences), sentenceId).None? || maxParticipants <= 0
    ensures joined.Err? ==>
      && db.participants == old(db.participants)
      && joined.error == if FindSentence(old(db.sentences), sentenceId).None? then RaceModel.RaceNotFound
                         else RaceModel.RaceFull
    ensures joined.Ok? ==>
      && joined.value == old(db.nextParticipantId)
      && db.participants == old(db.participants)
           + [Participant(joined.value, raceId, createdBy, now, 0, 0, false, None, None)]
      && Roster(db.participants, raceId) == [Participant(joined.value, raceId, createdBy, now, 0, 0, false, None, None)]
      && IsOnRoster(db.participants, raceId, createdBy)
      && FindById(db.races, db.sentences, raceId).Some?
  {
    ghost var rs, ss, ps := db.races, db.sentences, db.participants;
    raceId := RaceModel.Create(db, createdBy, sentenceId, Some(raceType), Some(maxParticipants), now);
    ghost var race := Race(raceId, createdBy, sentenceId, raceType, maxParticipants, false, false, now, None, None);
    RaceModel.FreshRaceJoin(rs, ss, ps, race, createdBy);
    joined := RaceModel.AddParticipant(db, raceId, createdBy, now);
    if joined.Ok? {
      var row := Participant(joined.value, raceId, createdBy, now, 0, 0, false, None, None);
      RosterAppend(ps, row, raceId);
      EntriesAppendRow(ps, row);
    }
  }

  /** `createRace`: picks the sentence (404 when none can be drawn), inserts the race
      with `raceType || 'competitive'` and `maxParticipants || 5`, joins the creator
      and announces the race to every connection. A failing join answers 500 with the
      store's message and leaves the new race in place without participants. */
  method CreateRace(db: Database, hub: Hub, userId: nat, sentenceId: Option<nat>,
                    raceType: Option<string>, maxParticipants: Option<int>, now: int)
    returns (res: Response)
    requires db.Valid()
    modifies db, hub
    ensures db.Valid()
    ensures hub.rooms == old(hub.rooms)
    ensures !TruthyNumber(sentenceId) && |old(db.sentences)| == 0 ==>
      res == Fail(404, "No sentences available") && unchanged(db) && hub.log == old(hub.log)
    ensures TruthyNumber(sentenceId) || |old(db.sentences)| > 0 ==>
      && |db.races| == |old(db.races)| + 1 && db.races[..|old(db.races)|] == old(db.races)
      && var race := db.races[|old(db.races)|];
      && race == Race(old(db.nextRaceId), userId, race.sentenceId,
           if Truthy(raceType) then raceType.value else Competitive,
           if TruthyNumber(maxParticipants) then maxParticipants.value else 5,
           false, false, now, None, None)
      && (TruthyNumber(sentenceId) ==> race.sentenceId == sentenceId.value && db.sentences == old(db.sentences))
      && (!TruthyNumber(sentenceId) ==>
            && FindSentence(old(db.sentences), race.sentenceId).Some?
            && db.sentences == SentenceModel.Bumped(old(db.sentences), race.sentenceId))
      && (res.status == 201 <==> FindSentence(old(db.sentences), race.sentenceId).Some? && race.maxParticipants > 0)
      && (res.status == 201 ==>
            && db.participants == old(db.participants)
               + [Participant(old(db.nextParticipantId), race.id, userId, now, 0, 0, false, None, None)]
            && Roster(db.participants, race.id)
               == [Participant(old(db.nextParticipantId), race.id, userId, now, 0, 0, false, None, None)]
            && IsOnRoster(db.participants, race.id, userId)
            && FindById(db.races, db.sentences, race.id).Some?
            && res == Response(201, true, None,
                 RaceWithParticipants(FindById(db.races, db.sentences, race.id).value, Roster(db.participants, race.id)))
            && hub.log == old(hub.log) + [Event(Everyone,
                 RaceCreated(FindById(db.races, db.sentences, race.id).value, Roster(db.participants, race.id)))])
      && (res.status != 201 ==>
            && db.participants == old(db.participants) && hub.log == old(hub.log)
            && res == Fail(500, if FindSentence(old(db.sentences), race.sentenceId).None? then "Race not found"
                                else "Race is full"))
  {
    var chosen := ChooseSentence(db, sentenceId);
    if chosen.None? {
      return Fail(404, "No sentences available");
    }
    if !TruthyNumber(sentenceId) {
      SentenceModel.BumpedFind(old(db.sentences), chosen.value);
    }
    var kind := if Truthy(raceType) then raceType.value else Competitive;
    var max := if TruthyNumber(maxParticipants) then maxParticipants.value else 5;
    var raceId, joined := OpenRace(db, userId, chosen.value, kind, max, now);
    if joined.Err? {
      return Fail(500, RaceModel.Message(joined.error));
    }
    var details := FindById(db.races, db.sentences, raceId);
    var participants := Roster(db.participants, raceId);
    hub.EmitToAll(RaceCreated(details.value, participants));
    res := Response(201, true, None, RaceWithParticipants(details.value, participants));
  }

  /** `getRace`: 404 for an unknown race, otherwise the race with its roster. */
  method GetRace(db: Database, raceId: nat) returns (res: Response)
    ensures FindById(db.races, db.sentences, raceId).None? <==> res == Fail(404, "Race not found")
    ensures FindById(db.races, db.sentences, raceId).Some? ==>
      res == Response(200, true, None,
        RaceWithParticipants(FindById(db.races, db.sentences, raceId).value, Roster(db.participants, raceId)))
  {
    var race := FindById(db.races, db.sentences, raceId);
    if race.None? {
      return Fail(404, "Race not found");
    }
    var participants := Roster(db.participants, raceId);
    res := Response(200, true, None, RaceWithParticipants(race.value, participants));
  }

  /** `joinRace`: a refused join answers 400 with the store's message and changes
      nothing; an accepted one tells the race's room who joined and answers with the
      race and its new roster. */
  method JoinRace(db: Database, hub: Hub, userId: nat, raceId: nat, now: int) returns (res: Response)
    requires db.Valid()
    modifies db, hub
    ensures db.Valid()
    ensures hub.rooms == old(hub.rooms)
    ensures var refusal := RaceModel.JoinCheck(old(db.races), old(db.sentences), old(db.participants), raceId, userId);
      && (refusal.Some? ==>
            res == Fail(400, RaceModel.Message(refusal.value)) && unchanged(db) && hub.log == old(hub.log))
      && (refusal.None? ==>
            && db.participants == old(db.participants)
                 + [Participant(old(db.nextParticipantId), raceId, userId, now, 0, 0, false, None, None)]
            && db.races == old(db.races) && db.sentences == old(db.sentences)
            && IsOnRoster(db.participants, raceId, userId)
            && FindById(db.races, db.sentences, raceId).Some?
            && res == Response(200, true, None,
                 RaceWithParticipants(FindById(db.races, db.sentences, raceId).value, Roster(db.participants, raceId)))
            && hub.log == old(hub.log) + [Event(Room(raceId, old(hub.Members(raceId))),
                 ParticipantJoined(raceId, Roster(db.participants, raceId), userId))])
  {
    ghost var ps := db.participants;
    var joined := RaceModel.AddParticipant(db, raceId, userId, now);
    if joined.Err? {
      return Fail(400, RaceModel.Message(joined.error));
    }
    EntriesAppendRow(ps, Participant(joined.value, raceId, userId, now, 0, 0, false, None, None));
    var race := FindById(db.races, db.sentences, raceId);
    var participants := Roster(db.participants, raceId);
    hub.EmitToRoom(raceId, ParticipantJoined(raceId, participants, userId));
    res := Response(200, true, None, RaceWithParticipants(race.value, participants));
  }

  /** A row appended for a user puts that user on its race. */
  lemma EntriesAppendRow(ps: seq<Participant>, row: Participant)
    ensures IsOnRoster(ps + [row], row.raceId, row.userId)
  {
    var es := Entries(ps + [row], row.raceId, row.userId);
    assert row in ps + [row];
    assert row in es;
  }

  /** `startRace`: 404 for an unknown race, then 403 for anyone but its creator, then
      a 200 with `success: false` for a race already started; only a start that passes
      all three starts the race and announces a three-second countdown to its room. */
  method StartRace(db: Database, hub: Hub, userId: nat, raceId: nat, now: int) returns (res: Response)
    requires db.Valid()
    modifies db, hub
    ensures db.Valid()
    ensures hub.rooms == old(hub.rooms)
    ensures var found := FindById(old(db.races), old(db.sentences), raceId);
      && (found.None? ==> res == Fail(404, "Race not found"))
      && (found.Some? && found.value.race.createdBy != userId ==>
            res == Fail(403, "Only the race creator can start the race"))
      && (found.Some? && found.value.race.createdBy == userId && found.value.race.started ==>
            res == Fail(200, "Race has already started"))
      && (found.None? || found.value.race.createdBy != userId || found.value.race.started ==>
            unchanged(db) && hub.log == old(hub.log))
      && (found.Some? && found.value.race.createdBy == userId && !found.value.race.started ==>
            && res == Response(200, true, Some("Race started"), NoBody)
            && db.races == RaceModel.StartedRaces(old(db.races), raceId, now)
            && FindRace(db.races, raceId).Some? && FindRace(db.races, raceId).value.started
            && db.participants == old(db.participants) && db.sentences == old(db.sentences)
            && hub.log == old(hub.log) + [Event(Room(raceId, old(hub.Members(raceId))), RaceStarting(raceId, 3))])
  {
    var race := FindById(db.races, db.sentences, raceId);
    if race.None? {
      return Fail(404, "Race not found");
    }
    if race.value.race.createdBy != userId {
      return Fail(403, "Only the race creator can start the race");
    }
    if race.value.race.started {
      return Fail(200, "Race has already started");
    }
    RaceModel.StartedFound(db.races, raceId, now);
    var _ := RaceModel.StartRace(db, raceId, now);
    hub.EmitToRoom(raceId, RaceStarting(raceId, 3));
    res := Response(200, true, Some("Race started"), NoBody);
  }

  /** `getRaceResults`: 404 for an unknown race, 400 while it has not finished,
      otherwise its finished participants in rank order. */
  method GetRaceResults(db: Database, raceId: nat) returns (res: Response)
    ensures var found := FindById(db.races, db.sentences, raceId);
      && (found.None? <==> res == Fail(404, "Race not found"))
      && (found.Some? && !found.value.race.finished <==> res == Fail(400, "Race has not finished yet"))
      && (found.Some? && found.value.race.finished ==>
            res == Response(200, true, None, Results(RaceResults(db.participants, raceId))))
  {
    var race := FindById(db.races, db.sentences, raceId);
    if race.None? {
      return Fail(404, "Race not found");
    }
    if !race.value.race.finished {
      return Fail(400, "Race has not finished yet");
    }
    var results := RaceResults(db.participants, raceId);
    res := Response(200, true, None, Results(results));
  }

  /** `createPracticeRace`: a solo race (`practice`, at most one participant) that the
      creator joins and that starts at once; nothing is emitted. */
  method CreatePracticeRace(db: Database, userId: nat, sentenceId: Option<nat>, now: int) returns (res: Response)
    requires db.Valid()
    modifies db
    ensures db.Valid()
    ensures !TruthyNumber(sentenceId) && |old(db.sentences)| == 0 ==>
      res == Fail(404, "No sentences available") && unchanged(db)
    ensures TruthyNumber(sentenceId) || |old(db.sentences)| > 0 ==>
      && |db.races| == |old(db.races)| + 1 && db.races[..|old(db.races)|] == old(db.races)
      && var race := db.races[|old(db.races)|];
      && race.id == old(db.nextRaceId) && race.createdBy == userId
      && race.raceType == Practice && race.maxParticipants == 1 && !race.finished
      && (TruthyNumber(sentenceId) ==> race.sentenceId == sentenceId.value && db.sentences == old(db.sentences))
      && (!TruthyNumber(sentenceId) ==>
            && FindSentence(old(db.sentences), race.sentenceId).Some?
            && db.sentences == SentenceModel.Bumped(old(db.sentences), race.sentenceId))
      && (res.status == 201 <==> FindSentence(old(db.sentences), race.sentenceId).Some?)
      && (res.status == 201 ==>
            && race.started && race.startedAt == Some(now)
            && db.participants == old(db.participants)
               + [Participant(old(db.nextParticipantId), race.id, userId, now, 0, 0, false, None, None)]
            && Roster(db.participants, race.id)
               == [Participant(old(db.nextParticipantId), race.id, userId, now, 0, 0, false, None, None)]
            && FindById(db.races, db.sentences, race.id).Some?
            && res == Response(201, true, None, RaceOnly(FindById(db.races, db.sentences, race.id).value)))
      && (res.status != 201 ==>
            && !race.started && db.participants == old(db.participants)
            && res == Fail(500, "Race not found"))
  {
    var chosen := ChooseSentence(db, sentenceId);
    if chosen.None? {
      return Fail(404, "No sentences available");
    }
    if !TruthyNumber(sentenceId) {
      SentenceModel.BumpedFind(old(db.sentences), chosen.value);
    }
    var raceId, joined := OpenRace(db, userId, chosen.value, Practice, 1, now);
    if joined.Err? {
      return Fail(500, RaceModel.Message(joined.error));
    }
    ghost var rs := old(db.races);
    ghost var race := Race(raceId, userId, chosen.value, Practice, 1, false, false, now, None, None);
    var _ := RaceModel.StartRace(db, raceId, now);
    RaceModel.StartedFresh(rs, race, now);
    RaceModel.FindRaceAppend(rs, race.(started := true, startedAt := Some(now)), raceId);
    var details := FindById(db.races, db.sentences, raceId);
    res := Response(201, true, None, RaceOnly(details.value));
  }
}
