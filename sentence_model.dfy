/**
 * The sentence store (`Sentence` model): content validation, the writes to the
 * `sentences` table, the filtered listing and count used for pagination, and the
 * random pick that races draw their text from.
 */
module SentenceModel {
  import opened Common
  import opened Tables

  const Medium: string := "medium"

  // ---------------------------------------------------------------------------
  // String.prototype.trim

  /** The characters `trim` removes: ECMAScript WhiteSpace and LineTerminator. */
  predicate IsWhitespace(c: char)
  {
    || c == '\t' || c == '\n' || c == '\U{000B}' || c == '\U{000C}' || c == '\r' || c == ' '
    || c == '\U{00A0}' || c == '\U{1680}' || ('\U{2000}' <= c <= '\U{200A}')
    || c == '\U{2028}' || c == '\U{2029}' || c == '\U{202F}' || c == '\U{205F}'
    || c == '\U{3000}' || c == '\U{FEFF}'
  }

  /** Whether a string consists of whitespace only (the empty string included). */
  predicate Blank(s: string)
  {
    forall i :: 0 <= i < |s| ==> IsWhitespace(s[i])
  }

  /** The number of leading whitespace characters. */
  function Leading(s: string): (n: nat)
    ensures n <= |s|
    ensures forall i :: 0 <= i < n ==> IsWhitespace(s[i])
    ensures n < |s| ==> !IsWhitespace(s[n])
  {
    if |s| > 0 && IsWhitespace(s[0]) then 1 + Leading(s[1..]) else 0
  }

  /** Drops leading whitespace. */
  function TrimStart(s: string): (r: string)
    ensures r == s[Leading(s)..]
  {
    if |s| > 0 && IsWhitespace(s[0]) then TrimStart(s[1..]) else s
  }

  /** Drops trailing whitespace. */
  function TrimEnd(s: string): (r: string)
    ensures |r| <= |s| && r == s[..|r|]
    ensures forall i :: |r| <= i < |s| ==> IsWhitespace(s[i])
    ensures |r| > 0 ==> !IsWhitespace(r[|r| - 1])
  {
    if |s| > 0 && IsWhitespace(s[|s| - 1]) then TrimEnd(s[..|s| - 1]) else s
  }

  /** `s.trim()`: the infix left after cutting the leading and the trailing whitespace;
      it neither starts nor ends with whitespace. */
  function Trim(s: string): (r: string)
    ensures Leading(s) + |r| <= |s| && r == s[Leading(s)..Leading(s) + |r|]
    ensures forall k :: Leading(s) + |r| <= k < |s| ==> IsWhitespace(s[k])
    ensures |r| > 0 ==> !IsWhitespace(r[0]) && !IsWhitespace(r[|r| - 1])
  {
    TrimEnd(TrimStart(s))
  }

  /** A string trims to nothing exactly when it is blank. */
  lemma TrimEmptyIffBlank(s: string)
    ensures |Trim(s)| == 0 <==> Blank(s)
  {
    var r := Trim(s);
    if |r| > 0 {
      assert s[Leading(s)] == r[0];
    }
  }

  /** Trimming twice trims nothing more. */
  lemma TrimIdempotent(s: string)
    ensures Trim(Trim(s)) == Trim(s)
  {
    var r := Trim(s);
    if |r| > 0 {
      assert TrimStart(r) == r;
      assert TrimEnd(r) == r;
    }
  }

  // ---------------------------------------------------------------------------
  // Validation

  /** The errors the store throws. */
  datatype SentenceError = ContentEmpty | TooShort | NoFields

  function Message(e: SentenceError): string
  {
    match e
    case ContentEmpty => "Sentence content cannot be empty"
    case TooShort => "Sentence must be at least 10 characters long"
    case NoFields => "No fields to update"
  }

  /** The two content checks, in order: not empty or whitespace-only, then at least
      10 characters long (the untrimmed length is measured). */
  function CheckContent(content: string): (r: Option<SentenceError>)
    ensures r == Some(ContentEmpty) <==> Blank(content)
    ensures r == Some(TooShort) <==> !Blank(content) && |content| < 10
    ensures r.None? <==> !Blank(content) && |content| >= 10
  {
    TrimEmptyIffBlank(content);
    if content == "" || |Trim(content)| == 0 then Some(ContentEmpty)
    else if |content| < 10 then Some(TooShort)
    else None
  }

  // ---------------------------------------------------------------------------
  // The UPDATE statement's field list

  /** One `column = ?` of the SET list. */
  datatype Assignment = SetContent(content: string) | SetDifficulty(difficulty: string)

  /** `update` collects the SET list by pushing one assignment per provided field. */
  method FieldList(content: Option<string>, difficulty: Option<string>) returns (updates: seq<Assignment>)
    ensures |updates| == 0 <==> content.None? && difficulty.None?
    ensures forall c :: SetContent(c) in updates <==> content == Some(c)
    ensures forall d :: SetDifficulty(d) in updates <==> difficulty == Some(d)
    ensures content.Some? ==> updates[0] == SetContent(content.value)
    ensures updates == (if content.Some? then [SetContent(content.value)] else [])
      + (if difficulty.Some? then [SetDifficulty(difficulty.value)] else [])
  {
    updates := [];
    if content.Some? {
      updates := updates + [SetContent(content.value)];
    }
    if difficulty.Some? {
      updates := updates + [SetDifficulty(difficulty.value)];
    }
  }

  /** The SET list applied to one row, assignment by assignment. */
  function Assign(s: Sentence, updates: seq<Assignment>): Sentence
    decreases |updates|
  {
    if |updates| == 0 then s
    else
      var u := updates[0];
      var s' := match u
        case SetContent(c) => s.(content := c)
        case SetDifficulty(d) => s.(difficulty := d);
      Assign(s', updates[1..])
  }

  /** The table after `UPDATE sentences SET … WHERE sentence_id = ?`. */
  function Edited(ss: seq<Sentence>, sentenceId: nat, content: Option<string>, difficulty: Option<string>)
    : (r: seq<Sentence>)
    ensures |r| == |ss|
    ensures forall i :: 0 <= i < |ss| ==>
      && (ss[i].id != sentenceId ==> r[i] == ss[i])
      && (ss[i].id == sentenceId ==>
            && r[i].content == (if content.Some? then content.value else ss[i].content)
            && r[i].difficulty == (if difficulty.Some? then difficulty.value else ss[i].difficulty)
            && r[i].id == ss[i].id && r[i].createdBy == ss[i].createdBy
            && r[i].usageCount == ss[i].usageCount && r[i].createdAt == ss[i].createdAt)
  {
    seq(|ss|, i requires 0 <= i < |ss| =>
      if ss[i].id != sentenceId then ss[i]
      else
        var s := ss[i];
        var s := if content.Some? then s.(content := content.value) else s;
        if difficulty.Some? then s.(difficulty := difficulty.value) else s)
  }

  /** `UPDATE sentences SET usage_count = usage_count + 1 WHERE sentence_id = ?`. */
  function Bumped(ss: seq<Sentence>, sentenceId: nat): (r: seq<Sentence>)
    ensures |r| == |ss|
    ensures forall i :: 0 <= i < |ss| ==>
      && (ss[i].id != sentenceId ==> r[i] == ss[i])
      && (ss[i].id == sentenceId ==> r[i] == ss[i].(usageCount := ss[i].usageCount + 1))
  {
    seq(|ss|, i requires 0 <= i < |ss| =>
      if ss[i].id == sentenceId then ss[i].(usageCount := ss[i].usageCount + 1) else ss[i])
  }

  /** `DELETE FROM sentences WHERE sentence_id = ?`. */
  function WithoutSentence(ss: seq<Sentence>, sentenceId: nat): (r: seq<Sentence>)
    ensures forall s :: s in r <==> s in ss && s.id != sentenceId
  {
    if |ss| == 0 then []
    else
      assert ss == [ss[0]] + ss[1..];
      (if ss[0].id == sentenceId then [] else [ss[0]]) + WithoutSentence(ss[1..], sentenceId)
  }

  // ---------------------------------------------------------------------------
  // Listing and counting

  /** A WHERE condition `findAll` and `getCount` add. `ContentLike(x)` is
      `content LIKE '%x%'`. */
  datatype Condition = DifficultyIs(difficulty: string) | ContentLike(search: string)

  /** The conditions both queries select: a difficulty filter when `difficulty` is
      truthy, then a search filter when `search` is truthy. */
  function Conditions(difficulty: Option<string>, search: Option<string>): (r: seq<Condition>)
    ensures forall d :: DifficultyIs(d) in r <==> Truthy(difficulty) && d == difficulty.value
    ensures forall x :: ContentLike(x) in r <==> Truthy(search) && x == search.value
    ensures |r| <= 2 && (|r| == 2 ==> r[0].DifficultyIs? && r[1].ContentLike?)
  {
    (if Truthy(difficulty) then [DifficultyIs(difficulty.value)] else [])
      + (if Truthy(search) then [ContentLike(search.value)] else [])
  }

  /** Whether a row meets one condition; `like(content, x)` is MySQL's LIKE '%x%'. */
  predicate Meets(s: Sentence, c: Condition, like: (string, string) -> bool)
  {
    match c
    case DifficultyIs(d) => s.difficulty == d
    case ContentLike(x) => like(s.content, x)
  }

  /** Whether a row meets every condition. */
  predicate MeetsAll(s: Sentence, cs: seq<Condition>, like: (string, string) -> bool)
  {
    forall i :: 0 <= i < |cs| ==> Meets(s, cs[i], like)
  }

  /** The matching rows, newest first (`ORDER BY created_at DESC`). */
  function Selected(ss: seq<Sentence>, cs: seq<Condition>, like: (string, string) -> bool): (r: seq<Sentence>)
    ensures |r| <= |ss|
    ensures forall s :: s in r <==> s in ss && MeetsAll(s, cs, like)
  {
    if |ss| == 0 then []
    else
      var init, last := ss[..|ss| - 1], ss[|ss| - 1];
      assert ss == init + [last];
      (if MeetsAll(last, cs, like) then [last] else []) + Selected(init, cs, like)
  }

  /** The `filters` object of `findAll`. */
  datatype Filters = Filters(difficulty: Option<string>, search: Option<string>, limit: Option<int>, offset: Option<int>)

  /** `Sentence.findAll`: LIMIT is added only for a truthy limit, and OFFSET only for a
      truthy offset under a LIMIT. Both are spliced into the SQL text, so a negative
      value is a syntax error (`None`). */
  function FindAll(ss: seq<Sentence>, filters: Filters, like: (string, string) -> bool): (r: Option<seq<Sentence>>)
    ensures var all := Selected(ss, Conditions(filters.difficulty, filters.search), like);
      && (r.None? <==> TruthyNumber(filters.limit)
                       && (filters.limit.value < 0 || (TruthyNumber(filters.offset) && filters.offset.value < 0)))
      && (r.Some? && !TruthyNumber(filters.limit) ==> r.value == all)
      && (r.Some? && TruthyNumber(filters.limit) ==>
            var skip := if TruthyNumber(filters.offset) then filters.offset.value else 0;
            && |r.value| <= filters.limit.value
            && (skip >= |all| ==> r.value == [])
            && (skip < |all| ==> |r.value| == Min(filters.limit.value, |all| - skip)
                                 && r.value == all[skip..skip + |r.value|]))
  {
    var all := Selected(ss, Conditions(filters.difficulty, filters.search), like);
    if !TruthyNumber(filters.limit) then Some(all)
    else
      var limit := filters.limit.value;
      var offset := if TruthyNumber(filters.offset) then filters.offset.value else 0;
      if limit < 0 || offset < 0 then None
      else
        var rest := if offset < |all| then all[offset..] else [];
        Some(rest[..Min(limit, |rest|)])
  }

  function Min(a: int, b: int): int
  {
    if a < b then a else b
  }

  /** `Sentence.getCount`: the number of rows meeting the same conditions as
      `findAll`; without filters it counts the whole table. */
  function GetCount(ss: seq<Sentence>, difficulty: Option<string>, search: Option<string>, like: (string, string) -> bool)
    : (n: nat)
    ensures n <= |ss|
    ensures !Truthy(difficulty) && !Truthy(search) ==> n == |ss|
  {
    SelectedUnfiltered(ss, like);
    |Selected(ss, Conditions(difficulty, search), like)|
  }

  /** With no conditions every row is selected. */
  lemma {:induction false} SelectedUnfiltered(ss: seq<Sentence>, like: (string, string) -> bool)
    ensures |Selected(ss, [], like)| == |ss|
  {
    if |ss| > 0 {
      SelectedUnfiltered(ss[..|ss| - 1], like);
    }
  }

  /** The count is the length of the unpaged listing with the same filters, and a page
      never holds more rows than the count. */
  lemma CountMatchesListing(ss: seq<Sentence>, filters: Filters, like: (string, string) -> bool)
    ensures !TruthyNumber(filters.limit) ==>
      FindAll(ss, filters, like) == Some(Selected(ss, Conditions(filters.difficulty, filters.search), like))
      && |FindAll(ss, filters, like).value| == GetCount(ss, filters.difficulty, filters.search, like)
    ensures FindAll(ss, filters, like).Some? ==>
      |FindAll(ss, filters, like).value| <= GetCount(ss, filters.difficulty, filters.search, like)
  {
  }

  // ---------------------------------------------------------------------------
  // Operations on the table

  /** `Sentence.create`: validates the content, defaults the difficulty to 'medium'
      when it is undefined, and inserts the row. */
  method Create(db: Database, content: Option<string>, difficulty: Option<string>, createdBy: nat, now: int)
    returns (r: Result<nat, SentenceError>)
    requires db.Valid()
    modifies db
    ensures db.Valid()
    ensures r == Err(ContentEmpty) <==> content.None? || Blank(content.value)
    ensures r == Err(TooShort) <==> content.Some? && !Blank(content.value) && |content.value| < 10
    ensures r.Ok? <==> content.Some? && !Blank(content.value) && |content.value| >= 10
    ensures r.Err? ==> unchanged(db)
    ensures r.Ok? ==>
      && r.value == old(db.nextSentenceId) && db.nextSentenceId == r.value + 1
      && db.sentences == old(db.sentences) + [Sentence(r.value, content.value,
           if difficulty.Some? then difficulty.value else Medium, createdBy, 0, now)]
      && db.races == old(db.races) && db.participants == old(db.participants)
      && db.nextRaceId == old(db.nextRaceId) && db.nextParticipantId == old(db.nextParticipantId)
  {
    if content.None? {
      return Err(ContentEmpty);
    }
    var check := CheckContent(content.value);
    if check.Some? {
      return Err(check.value);
    }
    var id := db.nextSentenceId;
    var kind := if difficulty.Some? then difficulty.value else Medium;
    db.sentences := db.sentences + [Sentence(id, content.value, kind, createdBy, 0, now)];
    db.nextSentenceId := id + 1;
    r := Ok(id);
  }

  /** `Sentence.update`: validates the content only when it is provided, refuses an
      update with no fields, and reports whether a row matched. */
  method Update(db: Database, sentenceId: nat, content: Option<string>, difficulty: Option<string>)
    returns (r: Result<bool, SentenceError>)
    requires db.Valid()
    modifies db
    ensures db.Valid()
    ensures r == Err(ContentEmpty) <==> content.Some? && Blank(content.value)
    ensures r == Err(TooShort) <==> content.Some? && !Blank(content.value) && |content.value| < 10
    ensures r == Err(NoFields) <==> content.None? && difficulty.None?
    ensures r.Err? ==> unchanged(db)
    ensures r.Ok? ==>
      && (r.value <==> FindSentence(old(db.sentences), sentenceId).Some?)
      && db.sentences == Edited(old(db.sentences), sentenceId, content, difficulty)
      && db.races == old(db.races) && db.participants == old(db.participants)
      && db.nextSentenceId == old(db.nextSentenceId) && db.nextRaceId == old(db.nextRaceId)
      && db.nextParticipantId == old(db.nextParticipantId)
  {
    if content.Some? {
      var check := CheckContent(content.value);
      if check.Some? {
        return Err(check.value);
      }
    }
    var updates := FieldList(content, difficulty);
    if |updates| == 0 {
      return Err(NoFields);
    }
    var ss := db.sentences;
    var found := FindSentence(db.sentences, sentenceId).Some?;
    db.sentences := seq(|ss|, i requires 0 <= i < |ss| =>
      if ss[i].id == sentenceId then Assign(ss[i], updates) else ss[i]);
    forall i | 0 <= i < |ss| && ss[i].id == sentenceId
      ensures Assign(ss[i], updates) == Edited(ss, sentenceId, content, difficulty)[i]
    {
      AssignFieldList(ss[i], content, difficulty);
    }
    assert db.sentences == Edited(ss, sentenceId, content, difficulty);
    forall s | s in db.sentences ensures 0 < s.id < db.nextSentenceId {
      var i :| 0 <= i < |ss| && db.sentences[i] == s;
      assert ss[i] in ss;
    }
    r := Ok(found);
  }

  /** Applying the SET list that `FieldList` builds sets exactly the provided fields. */
  lemma AssignFieldList(s: Sentence, content: Option<string>, difficulty: Option<string>)
    ensures var updates := (if content.Some? then [SetContent(content.value)] else [])
      + (if difficulty.Some? then [SetDifficulty(difficulty.value)] else []);
      var s' := if content.Some? then s.(content := content.value) else s;
      Assign(s, updates) == if difficulty.Some? then s'.(difficulty := difficulty.value) else s'
  {
    if content.Some? && difficulty.Some? {
      var updates := [SetContent(content.value), SetDifficulty(difficulty.value)];
      var s1 := s.(content := content.value);
      assert updates[1..] == [SetDifficulty(difficulty.value)];
      assert [SetDifficulty(difficulty.value)][1..] == [];
      assert Assign(s1, [SetDifficulty(difficulty.value)]) == s1.(difficulty := difficulty.value);
      assert Assign(s, updates) == Assign(s1, updates[1..]);
    } else if content.Some? {
      assert [SetContent(content.value)][1..] == [];
    } else if difficulty.Some? {
      assert [SetDifficulty(difficulty.value)][1..] == [];
    }
  }

  /** `Sentence.delete`: removes the row and reports whether one matched. */
  method Delete(db: Database, sentenceId: nat) returns (deleted: bool)
    requires db.Valid()
    modifies db
    ensures db.Valid()
    ensures deleted <==> FindSentence(old(db.sentences), sentenceId).Some?
    ensures db.sentences == WithoutSentence(old(db.sentences), sentenceId)
    ensures FindSentence(db.sentences, sentenceId).None?
    ensures db.races == old(db.races) && db.participants == old(db.participants)
    ensures db.nextSentenceId == old(db.nextSentenceId) && db.nextRaceId == old(db.nextRaceId)
    ensures db.nextParticipantId == old(db.nextParticipantId)
  {
    deleted := FindSentence(db.sentences, sentenceId).Some?;
    db.sentences := WithoutSentence(db.sentences, sentenceId);
  }

  /** The rows `getRandomSentence` draws from: those of the difficulty when it is
      truthy, all rows otherwise. */
  function Candidates(ss: seq<Sentence>, difficulty: Option<string>): (r: seq<Sentence>)
    ensures forall s :: s in r <==> s in ss && (Truthy(difficulty) ==> s.difficulty == difficulty.value)
  {
    Selected(ss, Conditions(difficulty, None), (c, x) => true)
  }

  /** `Sentence.getRandomSentence`: picks a row at random among the candidates and
      counts its use. When a truthy difficulty matches nothing it falls back to any
      row, and that fallback does not count the use. */
  method GetRandomSentence(db: Database, difficulty: Option<string>) returns (r: Option<Sentence>)
    requires db.Valid()
    modifies db
    ensures db.Valid()
    ensures r.None? <==> |old(db.sentences)| == 0
    ensures r.Some? ==> r.value in old(db.sentences)
    ensures var primary := Candidates(old(db.sentences), difficulty);
      && (|primary| > 0 ==> r.Some? && r.value in primary
                            && db.sentences == Bumped(old(db.sentences), r.value.id))
      && (|primary| == 0 ==> unchanged(db))
    ensures db.races == old(db.races) && db.participants == old(db.participants)
    ensures db.nextSentenceId == old(db.nextSentenceId) && db.nextRaceId == old(db.nextRaceId)
    ensures db.nextParticipantId == old(db.nextParticipantId)
  {
    var rows := Candidates(db.sentences, difficulty);
    if |rows| == 0 && Truthy(difficulty) {
      if |db.sentences| == 0 {
        return None;
      }
      assert db.sentences[0] in db.sentences;
      var any :| any in db.sentences;
      return Some(any);
    }
    if |rows| > 0 {
      assert rows[0] in rows;
      var pick :| pick in rows;
      BumpedKeepsIds(db.sentences, pick.id, db.nextSentenceId);
      db.sentences := Bumped(db.sentences, pick.id);
      return Some(pick);
    }
    r := None;
  }

  /** Counting a use changes no id. */
  lemma BumpedKeepsIds(ss: seq<Sentence>, id: nat, next: nat)
    requires SentenceIdsBelow(ss, next)
    ensures SentenceIdsBelow(Bumped(ss, id), next)
  {
    var b := Bumped(ss, id);
    forall s | s in b ensures 0 < s.id < next {
      var i :| 0 <= i < |b| && b[i] == s;
      assert ss[i] in ss;
    }
  }

  /** The use count of the picked row goes up by exactly one and no other row changes. */
  lemma BumpCountsOneUse(ss: seq<Sentence>, s: Sentence)
    requires s in ss
    ensures FindSentence(Bumped(ss, s.id), s.id).Some?
    ensures FindSentence(ss, s.id).Some?
    ensures FindSentence(Bumped(ss, s.id), s.id).value
      == FindSentence(ss, s.id).value.(usageCount := FindSentence(ss, s.id).value.usageCount + 1)
  {
    BumpedFind(ss, s.id);
  }

  lemma {:induction false} BumpedFind(ss: seq<Sentence>, id: nat)
    ensures FindSentence(Bumped(ss, id), id).Some? <==> FindSentence(ss, id).Some?
    ensures FindSentence(ss, id).Some? ==>
      FindSentence(Bumped(ss, id), id).value
        == FindSentence(ss, id).value.(usageCount := FindSentence(ss, id).value.usageCount + 1)
  {
    if |ss| > 0 && ss[0].id != id {
      BumpedFind(ss[1..], id);
      assert Bumped(ss, id)[1..] == Bumped(ss[1..], id);
    }
  }

  /** After an edit the row is still found under its id, with the provided fields set
      and every other column kept. */
  lemma {:induction false} EditedFind(ss: seq<Sentence>, id: nat, content: Option<string>, difficulty: Option<string>)
    ensures FindSentence(Edited(ss, id, content, difficulty), id).Some? <==> FindSentence(ss, id).Some?
    ensures FindSentence(ss, id).Some? ==>
      var before := FindSentence(ss, id).value;
      var after := FindSentence(Edited(ss, id, content, difficulty), id).value;
      && after.content == (if content.Some? then content.value else before.content)
      && after.difficulty == (if difficulty.Some? then difficulty.value else before.difficulty)
      && after.id == id && after.createdBy == before.createdBy
      && after.usageCount == before.usageCount && after.createdAt == before.createdAt
  {
    if |ss| > 0 && ss[0].id != id {
      EditedFind(ss[1..], id, content, difficulty);
      assert Edited(ss, id, content, difficulty)[1..] == Edited(ss[1..], id, content, difficulty);
    }
  }

  /** A row inserted under a fresh id is the one found under that id. */
  lemma {:induction false} FindSentenceAppend(ss: seq<Sentence>, x: Sentence)
    requires forall s :: s in ss ==> s.id != x.id
    ensures FindSentence(ss + [x], x.id) == Some(x)
  {
    if |ss| > 0 {
      assert ss[0] in ss;
      assert (ss + [x])[1..] == ss[1..] + [x];
      FindSentenceAppend(ss[1..], x);
    }
  }
}
