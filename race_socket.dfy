/**
 * The live race handlers of the socket server: `join-race`, `keystroke` and
 * `leave-race`. Each handler runs for one authenticated connection `conn`
 * whose user is `userId`; `now` stands for the database's `NOW()`.
 */
module RaceSocket {
  import opened Common
  import opened Tables
  import opened Ranking
  import opened Metrics
  import opened RaceModel
  import opened Rooms

  /** `participants.some(p => p.user_id === userId)` over the race's roster. */
  predicate OnRoster(ps: seq<Participant>, raceId: nat, userId: nat)
  {
    exists p :: p in Roster(ps, raceId) && p.userId == userId
  }

  /** The roster check agrees with the store's own duplicate-entry query. */
  lemma OnRosterIffEntries(ps: seq<Participant>, raceId: nat, userId: nat)
    ensures OnRoster(ps, raceId, userId) <==> IsOnRoster(ps, raceId, userId)
  {
    var es := Entries(ps, raceId, userId);
    if |es| > 0 {
      assert es[0] in es;
      assert es[0] in Roster(ps, raceId);
    }
  }

  /** `join-race`: the connection always enters the room, and is told whether it
      watches as a spectator, which it does exactly when its user is not on the roster. */
  method JoinRace(db: Database, hub: Hub, conn: ConnId, userId: nat, raceId: nat)
    modifies hub
    ensures hub.Members(raceId) == old(hub.Members(raceId)) + {conn}
    ensures forall other :: other != raceId ==> hub.Members(other) == old(hub.Members(other))
    ensures hub.log == old(hub.log) + [Event(Connection(conn),
      JoinedRace(raceId, !IsOnRoster(db.participants, raceId, userId)))]
  {
    hub.Join(conn, raceId);
    var participants := Roster(db.participants, raceId);
    var isParticipant := exists p :: p in participants && p.userId == userId;
    OnRosterIffEntries(db.participants, raceId, userId);
    hub.EmitTo(conn, JoinedRace(raceId, !isParticipant));
  }

  /** `leave-race`: the connection leaves the room and nothing else happens. */
  method LeaveRace(hub: Hub, conn: ConnId, raceId: nat)
    modifies hub
    ensures hub.Members(raceId) == old(hub.Members(raceId)) - {conn}
    ensures forall other :: other != raceId ==> hub.Members(other) == old(hub.Members(other))
    ensures hub.log == old(hub.log)
  {
    hub.Leave(conn, raceId);
  }

  /** The completion rule applied after an end-of-text keystroke: everyone on the
      roster has finished, or the race is a practice race. */
  predicate CompletesRace(ps: seq<Participant>, race: Race)
  {
    FinishedCount(Roster(ps, race.id)) == |Roster(ps, race.id)| || race.raceType == Practice
  }

  /** `keystroke`: an unknown race is ignored. Otherwise the metrics are computed from
      the client's position, elapsed time and error count (`errors || 0`); the user's
      row is updated, finished exactly when the position reaches the sentence's length;
      progress goes to the race's room; and an end-of-text keystroke that completes
      the race ranks it, marks it finished and sends the results to the room. Nothing
      checks that the race has started, has not finished, or that the user is on it. */
  method Keystroke(db: Database, hub: Hub, userId: nat, raceId: nat,
                   position: int, timestamp: int, errors: Option<int>, now: int)
    requires db.Valid()
    modifies db, hub
    ensures db.Valid()
    ensures hub.rooms == old(hub.rooms)
    ensures db.nextSentenceId == old(db.nextSentenceId) && db.nextRaceId == old(db.nextRaceId)
    ensures db.nextParticipantId == old(db.nextParticipantId)
    ensures FindById(old(db.races), old(db.sentences), raceId).None? ==>
      unchanged(db) && hub.log == old(hub.log)
    ensures FindById(old(db.races), old(db.sentences), raceId).Some? ==>
      var details := FindById(old(db.races), old(db.sentences), raceId).value;
      var len := |details.sentenceContent|;
      var wpm := CalculateWpm(timestamp, position);
      var accuracy := CalculateAccuracy(if errors.Some? then errors.value else 0, position);
      var updated := ProgressApplied(old(db.participants), raceId, userId, wpm, accuracy, position >= len, now);
      var progress := Event(Room(raceId, old(hub.Members(raceId))),
        ParticipantProgress(userId, CalculateProgress(position, len), position, wpm, accuracy));
      && db.sentences == old(db.sentences)
      && (position >= len && CompletesRace(updated, details.race) ==>
            && db.participants == AssignPositions(updated, raceId)
            && db.races == FinishedRaces(old(db.races), raceId, now)
            && hub.log == old(hub.log) + [progress]
                 + [Event(Room(raceId, old(hub.Members(raceId))), RaceFinished(raceId, RaceResults(db.participants, raceId)))])
      && (!(position >= len && CompletesRace(updated, details.race)) ==>
            && db.participants == updated
            && db.races == old(db.races)
            && hub.log == old(hub.log) + [progress])
  {
    var found := FindById(db.races, db.sentences, raceId);
    if found.None? {
      return;
    }
    var race := found.value;
    ghost var members := hub.Members(raceId);
    var len := |race.sentenceContent|;
    var progress := CalculateProgress(position, len);
    var wpm := CalculateWpm(timestamp, position);
    var accuracy := CalculateAccuracy(if errors.Some? then errors.value else 0, position);
    ghost var updated := ProgressApplied(db.participants, raceId, userId, wpm, accuracy, position >= len, now);
    ghost var event := Event(Room(raceId, members), ParticipantProgress(userId, progress, position, wpm, accuracy));
    var _ := UpdateParticipantProgress(db, raceId, userId, wpm, accuracy, position >= len, now);
    assert db.participants == updated;
    hub.EmitToRoom(raceId, ParticipantProgress(userId, progress, position, wpm, accuracy));
    assert hub.log == old(hub.log) + [event];
    assert race.race.id == raceId;
    if position >= len {
      FinishIfComplete(db, hub, race.race, now);
      assert hub.Members(raceId) == members;
    }
  }

  /** The tail of `keystroke` after an end-of-text keystroke: when the completion rule
      holds the race is ranked, marked finished and its results sent to its room. */
  method FinishIfComplete(db: Database, hub: Hub, race: Race, now: int)
    requires db.Valid()
    modifies db, hub
    ensures db.Valid()
    ensures hub.rooms == old(hub.rooms)
    ensures db.sentences == old(db.sentences)
    ensures db.nextSentenceId == old(db.nextSentenceId) && db.nextRaceId == old(db.nextRaceId)
    ensures db.nextParticipantId == old(db.nextParticipantId)
    ensures CompletesRace(old(db.participants), race) ==>
      && db.participants == AssignPositions(old(db.participants), race.id)
      && db.races == FinishedRaces(old(db.races), race.id, now)
      && hub.log == old(hub.log) + [Event(Room(race.id, old(hub.Members(race.id))),
                                          RaceFinished(race.id, RaceResults(db.participants, race.id)))]
    ensures !CompletesRace(old(db.participants), race) ==> unchanged(db) && hub.log == old(hub.log)
  {
    var participants := Roster(db.participants, race.id);
    var finishedCount := FinishedCount(participants);
    if finishedCount == |participants| || race.raceType == Practice {
      var _ := FinishRace(db, race.id, now);
      var results := RaceResults(db.participants, race.id);
      hub.EmitToRoom(race.id, RaceFinished(race.id, results));
    }
  }

  /** `race-finished` is not a one-shot event: once every row on the roster has
      finished, a later end-of-text keystroke from anyone completes the race again, so
      the race is ranked and announced once more. */
  lemma CompletionRepeats(ps: seq<Participant>, race: Race, userId: nat,
                          wpm: int, accuracy: int, finished: bool, now: int)
    requires forall p :: p in Roster(ps, race.id) ==> p.finished
    ensures CompletesRace(ProgressApplied(ps, race.id, userId, wpm, accuracy, finished, now), race)
  {
    var updated := ProgressApplied(ps, race.id, userId, wpm, accuracy, finished, now);
    forall p | p in Roster(updated, race.id) ensures p.finished {
      var i :| 0 <= i < |updated| && updated[i] == p;
      assert ps[i] in Roster(ps, race.id);
    }
  }

  /** In a competitive race the completion rule holds exactly when every row on the
      roster has finished; a practice race completes on any end-of-text keystroke. */
  lemma CompletionRule(ps: seq<Participant>, race: Race)
    ensures race.raceType != Practice ==>
      (CompletesRace(ps, race) <==> forall p :: p in Roster(ps, race.id) ==> p.finished)
    ensures race.raceType == Practice ==> CompletesRace(ps, race)
  {
  }
}
