/**
 * The Socket.io side of the server as the race code sees it: rooms named
 * `race-<raceId>` that connections join and leave, and an append-only log of
 * every event emitted, each with the audience it was sent to. A room event
 * records the room's members at the moment of the emit.
 */
module Rooms {
  import opened Tables
  import opened Metrics

  /** A socket connection. */
  type ConnId = nat

  /** Who an emit reaches: every connection (`io.emit`), the members of a race's
      room (`io.to('race-<id>').emit`), or one connection (`socket.emit`). */
  datatype Audience = Everyone | Room(raceId: nat, members: set<ConnId>) | Connection(conn: ConnId)

  /** The events the server emits, with their payloads. */
  datatype Payload =
    | RaceCreated(race: RaceDetails, participants: seq<Participant>)
    | ParticipantJoined(raceId: nat, participants: seq<Participant>, newParticipant: nat)
    | RaceStarting(raceId: nat, countdown: int)
    | ParticipantProgress(userId: nat, progress: Percent, position: int, wpm: int, accuracy: int)
    | RaceFinished(raceId: nat, results: seq<Participant>)
    | JoinedRace(raceId: nat, spectator: bool)

  datatype Event = Event(audience: Audience, payload: Payload)

  /** Whether a connection receives an event. */
  predicate Reaches(e: Event, conn: ConnId)
  {
    match e.audience
    case Everyone => true
    case Room(_, members) => conn in members
    case Connection(c) => c == conn
  }

  /** The room memberships and the event log. */
  class Hub {
    var rooms: map<nat, set<ConnId>>
    var log: seq<Event>

    /** The connections in a race's room. */
    function Members(raceId: nat): (r: set<ConnId>)
      reads this
      ensures raceId !in rooms ==> r == {}
    {
      if raceId in rooms then rooms[raceId] else {}
    }

    /** No rooms and nothing emitted yet. */
    constructor ()
      ensures rooms == map[] && log == []
    {
      rooms := map[];
      log := [];
    }

    /** `socket.join('race-<raceId>')`: adds the connection to that room only. */
    method Join(conn: ConnId, raceId: nat)
      modifies this
      ensures Members(raceId) == old(Members(raceId)) + {conn}
      ensures forall other :: other != raceId ==> Members(other) == old(Members(other))
      ensures log == old(log)
    {
      rooms := rooms[raceId := Members(raceId) + {conn}];
    }

    /** `socket.leave('race-<raceId>')`: removes the connection from that room only. */
    method Leave(conn: ConnId, raceId: nat)
      modifies this
      ensures Members(raceId) == old(Members(raceId)) - {conn}
      ensures forall other :: other != raceId ==> Members(other) == old(Members(other))
      ensures log == old(log)
    {
      rooms := rooms[raceId := Members(raceId) - {conn}];
    }

    /** `io.to('race-<raceId>').emit(...)`: one event to the room's current members. */
    method EmitToRoom(raceId: nat, p: Payload)
      modifies this
      ensures log == old(log) + [Event(Room(raceId, Members(raceId)), p)]
      ensures rooms == old(rooms)
    {
      log := log + [Event(Room(raceId, Members(raceId)), p)];
    }

    /** `io.emit(...)`: one event to every connection. */
    method EmitToAll(p: Payload)
      modifies this
      ensures log == old(log) + [Event(Everyone, p)]
      ensures rooms == old(rooms)
    {
      log := log + [Event(Everyone, p)];
    }

    /** `socket.emit(...)`: one event to one connection. */
    method EmitTo(conn: ConnId, p: Payload)
      modifies this
      ensures log == old(log) + [Event(Connection(conn), p)]
      ensures rooms == old(rooms)
    {
      log := log + [Event(Connection(conn), p)];
    }
  }
}
