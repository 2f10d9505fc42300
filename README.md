# typeracer: the race lifecycle, in Dafny

This project models the server core of a multiplayer typing-race application.
Players create races over stored sentences and join them, and a race's creator
starts it. Each keystroke is sent over a socket, scored (progress, words per minute,
accuracy) and broadcast to the race's room. The race finishes when everyone on it
has reached the end of the text, or at once in a solo practice race. Finishing ranks
the finished players with SQL `RANK()`. Admins manage the sentence pool behind a
role gate.

The model is organised like the server:

- `Tables` holds the three tables the core touches: `sentences`, `races` and
  `race_participants`. Each is a sequence in insertion order, inside one `Database`
  object together with the AUTO_INCREMENT counters. `Database.Valid()` is the
  invariant every operation keeps:
  - ids are positive and below their counters;
  - a user has at most one row per race;
  - every participant row belongs to a race;
  - a finished row has a finish time;
  - no roster grows past its race's maximum.
- `RaceModel` (`Race.js`) holds the race store's operations: the pure selections as
  functions, the mutators as methods on the `Database`.
- `Ranking` defines `finishRace`'s `RANK() OVER (ORDER BY finished_at ASC, wpm DESC)`
  and `getRaceResults`' ordering, and proves what a rank means.
- `Metrics` holds the three scoring functions of `raceSocket.js`, in exact arithmetic.
  `Math.round` is modelled exactly.
- `Rooms` models Socket.io as a `Hub` object: room memberships, plus an append-only
  log of emitted events. Each event records its audience; a room event records the
  room's members at the moment of the emit.
- `RaceSocket` holds the `join-race`, `keystroke` and `leave-race` handlers.
- `RaceController` and `SentenceController` hold the HTTP handlers, as methods
  returning a status, a `success` flag, an optional message and the data.
- `SentenceModel` (`Sentence.js`) holds the content checks, `String.prototype.trim`,
  the UPDATE field list, the filtered listing and count, and the random pick.
- `Admin` is the 401/403/next gate.
- `Common` holds `Option`/`Result` and JavaScript truthiness: `Truthy`,
  `TruthyNumber`, and `||` with a default. A destructuring default
  (`limit = 10`) applies only to an absent value, while `x || d` also replaces
  `""` and `0`; the model keeps the two apart.

`NOW()` is a parameter `now`. The random choice of `ORDER BY RAND()` is a
nondeterministic pick (`:|`) among the candidate rows. MySQL's `LIKE '%x%'` is a
parameter `like`. A table's `created_at`/`joined_at` order is its insertion order.

Behaviour the model reproduces as the code has it:

- The `keystroke` handler checks neither that the race has started nor that it has
  not finished, and does not check that the sender is on it.
  - An unstarted race can therefore finish.
  - `race-finished` can fire again on a later end-of-text keystroke
    (`RaceSocket.CompletionRepeats`).
  - Nothing in the keystroke handler ties finishing to a start, and the model keeps
    it that way.
- Accuracy is not clamped. More errors than typed characters give a negative value
  (`Metrics.AccuracyNotClamped`). The value is not clamped to 0–100, and the model
  does not clamp it either.
- `createRace` inserts the race before joining its creator. When that join is
  refused, the answer is 500 and the race stays, with nobody on it. The join is
  refused when the chosen sentence does not exist or the maximum is not positive,
  for example `maxParticipants: -1`.
- The ranking UPDATE joins ranked rows back on `user_id` alone. This agrees with
  ranking per row only because a user has at most one row per race, which
  `addParticipant` guarantees and `Database.Valid()` carries.

## Model

| member | source | states |
|---|---|---|
| Metrics.Round | server/socket/raceSocket.js:106 | `Math.round(n / d)` as an integer within half a unit of the exact quotient, ties rounding up |
| Metrics.CalculateProgress | server/socket/raceSocket.js:98-100 | the percentage times the text length is 100 times the position; a zero length gives a non-finite value |
| Metrics.ProgressBounds | server/socket/raceSocket.js:98-100 | progress lies in 0–100 for a position inside the text, and reaches 100 exactly when the position reaches the text's length |
| Metrics.CalculateWpm | server/socket/raceSocket.js:102-107 | 0 when the elapsed time is 0; otherwise the rounding of (position / 5) / (elapsed / 60000) |
| Metrics.WpmNonNegative | server/socket/raceSocket.js:102-107 | WPM is never negative for a positive elapsed time and a non-negative position |
| Metrics.WpmMonotone | server/socket/raceSocket.js:102-107 | at a fixed elapsed time, typing further never lowers WPM |
| Metrics.CalculateAccuracy | server/socket/raceSocket.js:109-113 | 100 when nothing was typed; otherwise the rounding of 100 · (typed − errors) / typed |
| Metrics.AccuracyInRange | server/socket/raceSocket.js:109-113 | with 0 ≤ errors ≤ typed, accuracy lies in 0–100 |
| Metrics.AccuracyNotClamped | server/socket/raceSocket.js:111-112 | with enough more errors than typed characters, accuracy is negative: nothing clamps it |
| Tables.FindRace | server/models/Race.js:16-28 | the lookup by `race_id` returns a row of the table with that id, or nothing when no row has it |
| Tables.FindById | server/models/Race.js:16-28 | `findById` finds a race exactly when its row exists and its sentence exists (inner join); the race returned is that row |
| Tables.Roster | server/models/Race.js:91-102 | `getParticipants`: exactly the rows of the race, in join order |
| Tables.Entries | server/models/Race.js:62-65 | the duplicate-entry query: exactly the race's rows for that user |
| RaceModel.OpenRaces | server/models/Race.js:30-48 | the not-started competitive races whose sentence exists and whose roster is below its maximum, each with its participant count |
| RaceModel.FindAvailable | server/models/Race.js:30-48 | `findAvailable`: the first `limit` (default 10 when absent) open races, newest first; a negative `limit` is an SQL error |
| RaceModel.NewestListedFirst | server/models/Race.js:42 | a race inserted after the others, if open, heads the listing |
| RaceModel.Create | server/models/Race.js:4-14 | `Race.create` appends one race with the next id, `competitive` and 5 taken when the type or maximum is absent, not started, not finished; nothing else changes |
| RaceModel.JoinCheck | server/models/Race.js:50-79 | the refusal `addParticipant` raises, guard by guard in order (missing race, started, already joined, full), each as an if-and-only-if |
| RaceModel.AddParticipant | server/models/Race.js:50-89 | a refused join changes nothing; an accepted one appends exactly one fresh row for (race, user) with zero scores and keeps the roster within the maximum |
| RaceModel.FreshRaceJoin | server/models/Race.js:50-79 | a race just created has nobody on it, so joining it fails only for a missing sentence or a non-positive maximum |
| RaceModel.StartedRaces | server/models/Race.js:104-113 | the guarded UPDATE sets `started` and `started_at` on the race's row only while it is not started, and touches no other row |
| RaceModel.StartRace | server/models/Race.js:104-113 | reports a change exactly when the race exists and had not started; the table becomes the guarded UPDATE's result |
| RaceModel.StartOnce | server/models/Race.js:104-113 | starting again changes nothing: a race starts at most once |
| RaceModel.StartedFound | server/models/Race.js:104-113 | after a start, the race is found started |
| RaceModel.ProgressApplied | server/models/Race.js:115-134 | WPM and accuracy of the user's row in the race are overwritten; `finished` is set and `finished_at` re-stamped only when the flag is set, and never cleared; other rows are unchanged |
| RaceModel.UpdateParticipantProgress | server/models/Race.js:115-134 | reports a match exactly when the user is on the race; the participant table becomes the UPDATE's result |
| RaceModel.FinishedRaces | server/models/Race.js:153-157 | the race's row is marked finished with `finished_at = now`; other rows are unchanged |
| RaceModel.FinishRace | server/models/Race.js:136-161 | first every finished row of the race gets its RANK(), then the race is marked finished; reports whether the race row exists |
| RaceModel.WithoutEntries | server/models/Race.js:192 | the cascade removes exactly the race's participant rows |
| RaceModel.DeleteRace | server/models/Race.js:176-197 | refuses, in order, a missing race, a caller who is not its creator and a started race, changing nothing; otherwise removes the race and its participants |
| Ranking.AheadIsStrictWeakOrder | server/models/Race.js:142 | the order (earlier `finished_at`, NULL first; then higher WPM) is a strict weak order |
| Ranking.RankBounds | server/models/Race.js:141-144 | a finished participant's rank lies between 1 and the number of finished participants |
| Ranking.RankOrder | server/models/Race.js:141-144 | one finished participant ranks better than another exactly when it is ahead in the sort order |
| Ranking.TiesShareRank | server/models/Race.js:142 | rows with equal finishing time and WPM share a rank |
| Ranking.SomeoneRanksFirst | server/models/Race.js:142 | when anyone finished, someone has rank 1 |
| Ranking.RankingExample | server/models/Race.js:142 | a tie at the same time goes to the higher WPM, and the next rank counts both tied rows |
| Ranking.AssignedPosition | server/models/Race.js:138-150 | after the ranking UPDATE each finished row carries its rank in the updated table; unfinished rows are untouched |
| Ranking.RaceResults | server/models/Race.js:163-174 | `getRaceResults`: exactly the race's finished rows, sorted by position ascending |
| Ranking.SortByPosition | server/models/Race.js:169 | `ORDER BY position_value ASC` is a sorted permutation of its input |
| Ranking.ResultsInFinishingOrder | server/models/Race.js:136-174 | after a finish, results come in finishing order, each with its rank |
| Rooms.Hub.Join | server/socket/raceSocket.js:11 | the connection is added to that race's room only, and nothing is emitted |
| Rooms.Hub.Leave | server/socket/raceSocket.js:85 | the connection is removed from that race's room only, and nothing is emitted |
| Rooms.Hub.EmitToRoom | server/socket/raceSocket.js:54 | one event is appended, addressed to the room's current members; memberships are unchanged |
| Rooms.Hub.EmitToAll | server/controllers/raceController.js:41 | one event addressed to every connection is appended; memberships are unchanged |
| Rooms.Hub.EmitTo | server/socket/raceSocket.js:19-25 | one event addressed to the one connection is appended; memberships are unchanged |
| RaceSocket.OnRosterIffEntries | server/socket/raceSocket.js:15-16 | the handler's `participants.some(...)` check agrees with the store's duplicate-entry query |
| RaceSocket.JoinRace | server/socket/raceSocket.js:8-31 | the connection always joins the room, and is told it is a spectator exactly when its user is not on the roster; no table changes |
| RaceSocket.Keystroke | server/socket/raceSocket.js:34-81 | an unknown race changes nothing. Otherwise the sender's row gets WPM, accuracy and `finished` iff position ≥ text length, and progress goes to the room. An end-of-text keystroke that completes the race ranks it, finishes it and sends the results to the room |
| RaceSocket.FinishIfComplete | server/socket/raceSocket.js:63-77 | when everyone on the roster finished, or the race is practice, the race is ranked, marked finished and `race-finished` is emitted once; otherwise nothing happens |
| RaceSocket.CompletionRepeats | server/socket/raceSocket.js:63-77 | once all rows on a roster are finished, any later end-of-text keystroke completes the race again |
| RaceSocket.CompletionRule | server/socket/raceSocket.js:63-66 | a competitive race completes exactly when every row on its roster is finished; a practice race completes on any end-of-text keystroke |
| RaceSocket.LeaveRace | server/socket/raceSocket.js:84-87 | only the room membership changes; nothing is emitted |
| RaceController.ChooseSentence | server/controllers/raceController.js:10-22 | a truthy `sentenceId` is used as given; otherwise a random sentence is drawn and its use counted, and nothing is found only on an empty table |
| RaceController.CreateRace | server/controllers/raceController.js:6-61 | 404 on an empty sentence table with no change. Otherwise one race is added with the `||` defaults; a given sentence id leaves the sentences alone, a drawn one is counted as used. 201 exactly when its sentence exists and its maximum is positive: the creator's row is the one participant row appended, and one `race-created` goes to everyone. Else 500 with the join's message, no participant row and nothing emitted |
| RaceController.GetRace | server/controllers/raceController.js:84-112 | 404 exactly when the race is not found; otherwise the race with its roster |
| RaceController.JoinRace | server/controllers/raceController.js:115-154 | a refused join answers 400 with its message and changes nothing; an accepted one adds the user and emits one `participant-joined` to the room |
| RaceController.StartRace | server/controllers/raceController.js:158-207 | 404, then 403 for a non-creator, then 200 with `success: false` for a started race, all without change or emit; otherwise the race starts and one `race-starting` with countdown 3 goes to its room |
| RaceController.GetRaceResults | server/controllers/raceController.js:210-242 | 404 for a missing race, 400 exactly while it is not finished, otherwise its ranked results |
| RaceController.CreatePracticeRace | server/controllers/raceController.js:245-291 | 404 on an empty sentence table with no change. Otherwise a `practice` race with maximum 1 is added; a given sentence id leaves the sentences alone, a drawn one is counted as used. When its sentence exists, the creator's row is the one participant row appended and the race is started at once (201); otherwise 500 with no participant row. Nothing is emitted |
| SentenceModel.Trim | server/controllers/sentenceController.js:17 | `trim` returns the infix after the leading whitespace, with only whitespace cut off the end; the result neither starts nor ends with whitespace |
| SentenceModel.TrimEmptyIffBlank | server/models/Sentence.js:8 | the trim is empty exactly when the string is all whitespace |
| SentenceModel.TrimIdempotent | server/controllers/sentenceController.js:17 | trimming twice is trimming once |
| SentenceModel.CheckContent | server/models/Sentence.js:8-14 | blank content is "cannot be empty"; other content shorter than 10 is "too short"; otherwise accepted |
| SentenceModel.Create | server/models/Sentence.js:4-23 | absent or blank content and short content are refused with no change; otherwise one row with the next id, difficulty `medium` when absent, and usage 0 is appended |
| SentenceModel.FieldList | server/models/Sentence.js:104-120 | the SET list holds content first, then difficulty, each exactly when provided; it is empty only when neither is |
| SentenceModel.Update | server/models/Sentence.js:92-128 | content checks apply only to provided content; no fields is an error; otherwise exactly the provided fields of the matching row change, and the result says whether a row matched |
| SentenceModel.AssignFieldList | server/models/Sentence.js:104-124 | applying the built SET list sets exactly the provided fields |
| SentenceModel.Delete | server/models/Sentence.js:130-134 | the row is gone, and the result says whether one matched |
| SentenceModel.Conditions | server/models/Sentence.js:48-56 | a difficulty filter exactly when `difficulty` is truthy and a search filter exactly when `search` is truthy, difficulty first |
| SentenceModel.FindAll | server/models/Sentence.js:37-72 | LIMIT only for a truthy limit and OFFSET only for a truthy offset under it; the page is the matching rows' window; a negative value is an SQL error |
| SentenceModel.GetCount | server/models/Sentence.js:74-90 | at most the table's size, and the whole table when neither `difficulty` nor `search` is truthy |
| SentenceModel.CountMatchesListing | server/models/Sentence.js:74-90 | the count equals the unpaged listing's length and bounds every page |
| SentenceModel.GetRandomSentence | server/models/Sentence.js:136-164 | nothing only on an empty table. A row of the difficulty when one exists, its use counted. Otherwise any row, with no count |
| SentenceModel.BumpCountsOneUse | server/models/Sentence.js:155-160 | the picked row's `usage_count` goes up by exactly one |
| SentenceController.TotalPages | server/controllers/sentenceController.js:67 | `Math.ceil(total / limit)`: the least page count covering `total` for a positive limit; no number for a zero limit |
| SentenceController.PageWindow | server/controllers/sentenceController.js:41-58 | with defaults resolved, page p is the window from (p − 1) · limit to p · limit of the filtered listing |
| SentenceController.PagesAdjacent | server/controllers/sentenceController.js:48 | consecutive pages are adjacent windows: together they are the listing's next stretch |
| SentenceController.EveryRowOnAPage | server/controllers/sentenceController.js:48-67 | each row of the listing is on some page between 1 and `totalPages` |
| SentenceController.CreateSentence | server/controllers/sentenceController.js:5-36 | falsy content answers 400 with no change; the store's refusals answer 500 with their messages and no change; otherwise the trimmed content is appended under the next id with `difficulty \|\| 'medium'` and answered 201. Races and participants are untouched |
| SentenceController.GetAllSentences | server/controllers/sentenceController.js:39-77 | page 1 and limit 20 when absent, offset (page − 1) · limit; the answer holds the page, the total count and `totalPages`, or 500 when the store refuses the page |
| SentenceController.GetSentence | server/controllers/sentenceController.js:80-104 | 404 exactly when no row has the id; otherwise that row |
| SentenceController.UpdateSentence | server/controllers/sentenceController.js:107-138 | provided content is trimmed before validation; store refusals answer 500 with no change; an unmatched id answers 404; otherwise the updated row with the provided fields set. Races, participants and id counters are untouched |
| SentenceController.DeleteSentence | server/controllers/sentenceController.js:141-165 | 404 exactly when no row matched; the row is gone either way; races, participants and id counters are untouched |
| SentenceController.GetRandomSentence | server/controllers/sentenceController.js:168-196 | 404 exactly on an empty table; otherwise only the id, content and difficulty of a stored row. When rows match the asked difficulty one of them is picked and its use counted; otherwise nothing changes. Races, participants and id counters are untouched |
| Admin.AdminGate | server/middleware/admin.js:1-19 | 401 exactly without a user, 403 exactly for a user whose role is not `admin`, and the request passes exactly for an admin |

## Left out

- The MySQL driver and SQL text. The tables are sequences, and only the queries' meaning is kept. The schema is not part of this model. Foreign keys other than the participant cascade named at `Race.js:192` are not modelled, and neither are column defaults beyond those the inserts rely on.
- The `users` table. The joins that add `username`/`created_by_username` are left out, and a participant's username does not appear in any payload.
- `LIKE` matching is a parameter. `ORDER BY RAND()` is a nondeterministic pick. An `ORDER BY` tie's order is left open, and insertion order stands in for time order.
- Concurrency. Each handler runs to completion, so the non-atomic check-then-insert of `addParticipant` cannot interleave with another request.
- Floating point. Progress, WPM and accuracy use exact rationals and `Math.round` on them; IEEE rounding of the intermediate divisions is not modelled.
- Text length counts Unicode scalar values (Dafny `char`), not the UTF-16 code units JavaScript counts.
- Query-string coercion. `page`, `limit` and ids arrive as already-parsed integers, so `"0"`, `NaN` and non-numeric input are not modelled, and neither is the throw of `trim` on non-string content.
- The catch-all `try/catch` paths for database failures are not modelled: `race-error` in `join-race`, the logged keystroke error, and the handlers' generic 500 messages. A thrown store validation error is modelled through `Result`.
- `req.io` is assumed present, so the emits guarded by `if (req.io)` always happen.
- JWT authentication, bcrypt, the seeding and admin scripts, Express routing and middleware wiring, console logging, and the `disconnect` handler, which only logs.
- `getAvailableRaces`, `getSentenceStatistics` and `Sentence.getStatistics` lie outside the modelled core.
- `Sentence.findById` is the store's lookup `Tables.FindSentence` without the username join.
- RaceSocket.Keystroke: one `now` stands for each `NOW()` of a keystroke (the progress update and the finish), which the database would evaluate separately.
