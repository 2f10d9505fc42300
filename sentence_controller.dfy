/**
 * The HTTP sentence handlers: the admin-only create, list, read, update and delete,
 * and the public random pick. Each answers with a status and a JSON body; a store
 * error that the handler catches becomes a 500.
 */
module SentenceController {
  import opened Common
  import opened Tables
  import opened SentenceModel

  /** The `pagination` object of a listing. `totalPages` is `Math.ceil(total / limit)`,
      which JSON renders as `null` when the division is by zero. */
  datatype Pagination = Pagination(page: int, limit: int, total: nat, totalPages: Option<int>)

  /** The data part of a JSON answer. */
  datatype Body =
    | NoBody
    | One(sentence: Sentence)
    | Page(sentences: seq<Sentence>, pagination: Pagination)
    | Picked(sentenceId: nat, content: string, difficulty: string)

  /** A JSON answer: status code, the `success` flag, an optional `message`, and data. */
  datatype Response = Response(status: nat, success: bool, message: Option<string>, body: Body)

  function Fail(status: nat, message: string): Response
  {
    Response(status, false, Some(message), NoBody)
  }

  // ---------------------------------------------------------------------------
  // Pagination arithmetic

  /** `Math.ceil(total / limit)`, `None` when `limit` is zero. */
  function TotalPages(total: nat, limit: int): (r: Option<int>)
    ensures r.None? <==> limit == 0
    ensures limit > 0 ==> 0 <= r.value && (r.value - 1) * limit < total <= r.value * limit
    ensures limit < 0 ==> r.value <= 0 && r.value * limit <= total < (r.value - 1) * limit
  {
    if limit == 0 then None
    else if limit > 0 then Some((total + limit - 1) / limit)
    else Some(-(total / -limit))
  }

  /** The rows of a filtered listing, newest first, before any paging. */
  function Listing(ss: seq<Sentence>, difficulty: Option<string>, search: Option<string>,
                   like: (string, string) -> bool): (r: seq<Sentence>)
    ensures |r| == GetCount(ss, difficulty, search, like)
  {
    Selected(ss, Conditions(difficulty, search), like)
  }

  /** With a positive page size, page `page` (from 1) is the window of the listing
      from `(page - 1) * limit` to `page * limit`, cut at the listing's end. */
  lemma PageWindow(ss: seq<Sentence>, difficulty: Option<string>, search: Option<string>,
                   like: (string, string) -> bool, page: int, limit: int)
    requires limit > 0 && page >= 1
    ensures var all := Listing(ss, difficulty, search, like);
      var lo := Min((page - 1) * limit, |all|);
      var hi := Min(page * limit, |all|);
      && lo <= hi
      && FindAll(ss, Filters(difficulty, search, Some(limit), Some((page - 1) * limit)), like) == Some(all[lo..hi])
  {
    var all := Listing(ss, difficulty, search, like);
    var skip := (page - 1) * limit;
    assert skip >= 0 && page * limit == skip + limit;
    var r := FindAll(ss, Filters(difficulty, search, Some(limit), Some(skip)), like);
    assert r.Some?;
    if skip < |all| {
      assert |r.value| == Min(limit, |all| - skip);
      assert skip + |r.value| == Min(page * limit, |all|);
      assert r.value == all[skip..Min(page * limit, |all|)];
      assert Min(skip, |all|) == skip;
    } else {
      assert Min(page * limit, |all|) == |all| == Min(skip, |all|);
      assert all[|all|..|all|] == [];
    }
  }

  /** Pages tile the listing: consecutive pages are adjacent windows of it. */
  lemma PagesAdjacent(ss: seq<Sentence>, difficulty: Option<string>, search: Option<string>,
                      like: (string, string) -> bool, page: int, limit: int)
    requires limit > 0 && page >= 1
    ensures var all := Listing(ss, difficulty, search, like);
      var here := FindAll(ss, Filters(difficulty, search, Some(limit), Some((page - 1) * limit)), like);
      var next := FindAll(ss, Filters(difficulty, search, Some(limit), Some(page * limit)), like);
      && here.Some? && next.Some?
      && here.value + next.value == all[Min((page - 1) * limit, |all|)..Min((page + 1) * limit, |all|)]
  {
    var all := Listing(ss, difficulty, search, like);
    PageWindow(ss, difficulty, search, like, page, limit);
    PageWindow(ss, difficulty, search, like, page + 1, limit);
    assert (page + 1 - 1) * limit == page * limit;
    assert (page + 1) * limit == page * limit + limit;
    var lo, mid, hi := Min((page - 1) * limit, |all|), Min(page * limit, |all|), Min((page + 1) * limit, |all|);
    assert all[lo..mid] + all[mid..hi] == all[lo..hi];
  }

  /** Every row of the listing is on one of the pages `1 .. totalPages`. */
  lemma EveryRowOnAPage(ss: seq<Sentence>, difficulty: Option<string>, search: Option<string>,
                        like: (string, string) -> bool, limit: int, i: int)
    requires limit > 0
    requires 0 <= i < |Listing(ss, difficulty, search, like)|
    ensures var all := Listing(ss, difficulty, search, like);
      var page := i / limit + 1;
      && 1 <= page <= TotalPages(|all|, limit).value
      && all[i] in FindAll(ss, Filters(difficulty, search, Some(limit), Some((page - 1) * limit)), like).value
  {
    var all := Listing(ss, difficulty, search, like);
    var page := i / limit + 1;
    PageOfRow(i, limit, |all|);
    PageWindow(ss, difficulty, search, like, page, limit);
    var lo := (page - 1) * limit;
    assert all[lo..Min(page * limit, |all|)][i - lo] == all[i];
  }

  /** Row `i` lies inside the window of page `i / limit + 1`, and that page is not past
      the last one. */
  lemma PageOfRow(i: nat, limit: int, total: nat)
    requires limit > 0 && i < total
    ensures var page := i / limit + 1;
      && (page - 1) * limit <= i < page * limit
      && page <= TotalPages(total, limit).value
  {
    var q := i / limit;
    assert q * limit <= i < q * limit + limit;
  }

  // ---------------------------------------------------------------------------
  // Handlers

  /** `createSentence`: a falsy content is refused with 400; otherwise the trimmed
      content is stored with `difficulty || 'medium'`, a store error answering 500 with
      its message and a stored row 201 with that row. */
  method CreateSentence(db: Database, userId: nat, content: Option<string>, difficulty: Option<string>, now: int)
    returns (res: Response)
    requires db.Valid()
    modifies db
    ensures db.Valid()
    ensures !Truthy(content) ==> res == Fail(400, "Sentence content is required") && unchanged(db)
    ensures Truthy(content) && Blank(content.value) ==>
      res == Fail(500, "Sentence content cannot be empty") && unchanged(db)
    ensures Truthy(content) && !Blank(content.value) && |Trim(content.value)| < 10 ==>
      res == Fail(500, "Sentence must be at least 10 characters long") && unchanged(db)
    ensures Truthy(content) && !Blank(content.value) && |Trim(content.value)| >= 10 ==>
      && db.sentences == old(db.sentences)
           + [Sentence(old(db.nextSentenceId), Trim(content.value), OrString(difficulty, Medium), userId, 0, now)]
      && res == Response(201, true, Some("Sentence created successfully"), One(db.sentences[|old(db.sentences)|]))
      && db.nextSentenceId == old(db.nextSentenceId) + 1
    ensures db.races == old(db.races) && db.participants == old(db.participants)
    ensures db.nextRaceId == old(db.nextRaceId) && db.nextParticipantId == old(db.nextParticipantId)
  {
    if !Truthy(content) {
      return Fail(400, "Sentence content is required");
    }
    TrimEmptyIffBlank(content.value);
    TrimIdempotent(content.value);
    TrimBlank(content.value);
    var created := Create(db, Some(Trim(content.value)), Some(OrString(difficulty, Medium)), userId, now);
    if created.Err? {
      return Fail(500, Message(created.error));
    }
    var row := db.sentences[|db.sentences| - 1];
    forall s | s in old(db.sentences) ensures s.id != row.id {
    }
    FindSentenceAppend(old(db.sentences), row);
    var stored := FindSentence(db.sentences, created.value);
    res := Response(201, true, Some("Sentence created successfully"), One(stored.value));
  }

  /** A string is blank exactly when its trim is. */
  lemma TrimBlank(s: string)
    ensures Blank(Trim(s)) <==> Blank(s)
  {
    TrimEmptyIffBlank(s);
    TrimEmptyIffBlank(Trim(s));
    TrimIdempotent(s);
  }

  /** `getAllSentences`: `page` and `limit` default to 1 and 20 when absent; the page
      starts at `(page - 1) * limit`; the answer carries the page of the filtered
      listing, the count of the whole listing, and the number of pages. A page the
      store refuses to read answers 500. */
  method GetAllSentences(db: Database, page: Option<int>, limit: Option<int>,
                         difficulty: Option<string>, search: Option<string>, like: (string, string) -> bool)
    returns (res: Response)
    ensures var p := if page.Some? then page.value else 1;
      var l := if limit.Some? then limit.value else 20;
      var rows := FindAll(db.sentences, Filters(difficulty, search, Some(l), Some((p - 1) * l)), like);
      && (rows.None? <==> res == Fail(500, "Error fetching sentences"))
      && (rows.Some? ==>
            var total := GetCount(db.sentences, difficulty, search, like);
            res == Response(200, true, None, Page(rows.value, Pagination(p, l, total, TotalPages(total, l)))))
  {
    var p := if page.Some? then page.value else 1;
    var l := if limit.Some? then limit.value else 20;
    var offset := (p - 1) * l;
    var rows := FindAll(db.sentences, Filters(difficulty, search, Some(l), Some(offset)), like);
    var total := GetCount(db.sentences, difficulty, search, like);
    if rows.None? {
      return Fail(500, "Error fetching sentences");
    }
    res := Response(200, true, None, Page(rows.value, Pagination(p, l, total, TotalPages(total, l))));
  }

  /** `getSentence`: the row under the id, or 404. */
  method GetSentence(db: Database, sentenceId: nat) returns (res: Response)
    ensures FindSentence(db.sentences, sentenceId).None? <==> res == Fail(404, "Sentence not found")
    ensures FindSentence(db.sentences, sentenceId).Some? ==>
      res.status == 200 && res.body.One? && res.body.sentence in db.sentences && res.body.sentence.id == sentenceId
  {
    var found := FindSentence(db.sentences, sentenceId);
    if found.None? {
      return Fail(404, "Sentence not found");
    }
    res := Response(200, true, None, One(found.value));
  }

  /** `updateSentence`: a provided content is trimmed before the store validates it; a
      store error answers 500 with its message, an id that matches no row 404, and an
      update the row with the provided fields set. */
  method UpdateSentence(db: Database, sentenceId: nat, content: Option<string>, difficulty: Option<string>)
    returns (res: Response)
    requires db.Valid()
    modifies db
    ensures db.Valid()
    ensures content.Some? && Blank(content.value) ==>
      res == Fail(500, "Sentence content cannot be empty") && unchanged(db)
    ensures content.Some? && !Blank(content.value) && |Trim(content.value)| < 10 ==>
      res == Fail(500, "Sentence must be at least 10 characters long") && unchanged(db)
    ensures content.None? && difficulty.None? ==> res == Fail(500, "No fields to update") && unchanged(db)
    ensures var trimmed := if content.Some? then Some(Trim(content.value)) else None;
      (content.Some? ==> !Blank(content.value) && |Trim(content.value)| >= 10) && (content.Some? || difficulty.Some?)
      ==>
      && db.sentences == Edited(old(db.sentences), sentenceId, trimmed, difficulty)
      && (FindSentence(old(db.sentences), sentenceId).None? ==> res == Fail(404, "Sentence not found"))
      && (FindSentence(old(db.sentences), sentenceId).Some? ==>
            && res.status == 200 && res.message == Some("Sentence updated successfully") && res.body.One?
            && res.body.sentence.id == sentenceId
            && res.body.sentence.content
               == (if content.Some? then Trim(content.value) else FindSentence(old(db.sentences), sentenceId).value.content)
            && res.body.sentence.difficulty
               == (if difficulty.Some? then difficulty.value else FindSentence(old(db.sentences), sentenceId).value.difficulty))
    ensures db.races == old(db.races) && db.participants == old(db.participants)
    ensures db.nextRaceId == old(db.nextRaceId) && db.nextParticipantId == old(db.nextParticipantId)
    ensures db.nextSentenceId == old(db.nextSentenceId)
  {
    var trimmed := if content.Some? then Some(Trim(content.value)) else None;
    if content.Some? {
      TrimEmptyIffBlank(content.value);
      TrimBlank(content.value);
    }
    var updated := Update(db, sentenceId, trimmed, difficulty);
    if updated.Err? {
      return Fail(500, Message(updated.error));
    }
    if !updated.value {
      return Fail(404, "Sentence not found");
    }
    EditedFind(old(db.sentences), sentenceId, trimmed, difficulty);
    var stored := FindSentence(db.sentences, sentenceId);
    res := Response(200, true, Some("Sentence updated successfully"), One(stored.value));
  }

  /** `deleteSentence`: 404 when no row matched, otherwise the row is gone. */
  method DeleteSentence(db: Database, sentenceId: nat) returns (res: Response)
    requires db.Valid()
    modifies db
    ensures db.Valid()
    ensures db.sentences == WithoutSentence(old(db.sentences), sentenceId)
    ensures FindSentence(old(db.sentences), sentenceId).None? <==> res == Fail(404, "Sentence not found")
    ensures FindSentence(old(db.sentences), sentenceId).Some? ==>
      res == Response(200, true, Some("Sentence deleted successfully"), NoBody)
    ensures db.races == old(db.races) && db.participants == old(db.participants)
    ensures db.nextRaceId == old(db.nextRaceId) && db.nextParticipantId == old(db.nextParticipantId)
    ensures db.nextSentenceId == old(db.nextSentenceId)
  {
    var deleted := Delete(db, sentenceId);
    if !deleted {
      return Fail(404, "Sentence not found");
    }
    res := Response(200, true, Some("Sentence deleted successfully"), NoBody);
  }

  /** `getRandomSentence`: 404 on an empty table, otherwise the id, content and
      difficulty of a drawn row (of the requested difficulty when one has it). */
  method GetRandomSentence(db: Database, difficulty: Option<string>) returns (res: Response)
    requires db.Valid()
    modifies db
    ensures db.Valid()
    ensures |old(db.sentences)| == 0 <==> res == Fail(404, "No sentences available")
    ensures |old(db.sentences)| > 0 ==>
      && res.status == 200 && res.success && res.body.Picked?
      && exists s :: s in old(db.sentences) && res.body == Picked(s.id, s.content, s.difficulty)
    ensures Truthy(difficulty) && |Candidates(old(db.sentences), difficulty)| > 0 ==>
      res.body.Picked? && res.body.difficulty == difficulty.value
    ensures var primary := Candidates(old(db.sentences), difficulty);
      && (|primary| > 0 ==>
            && res.body.Picked?
            && (exists s :: s in primary && res.body == Picked(s.id, s.content, s.difficulty))
            && db.sentences == Bumped(old(db.sentences), res.body.sentenceId))
      && (|primary| == 0 ==> unchanged(db))
    ensures db.races == old(db.races) && db.participants == old(db.participants)
    ensures db.nextRaceId == old(db.nextRaceId) && db.nextParticipantId == old(db.nextParticipantId)
    ensures db.nextSentenceId == old(db.nextSentenceId)
  {
    var picked := SentenceModel.GetRandomSentence(db, difficulty);
    if picked.None? {
      return Fail(404, "No sentences available");
    }
    var s := picked.value;
    res := Response(200, true, None, Picked(s.id, s.content, s.difficulty));
  }
}
