// The two partial updates: which text and arguments they build from the fields that are present, and what the
// database does with them.
module DynamicSql {
  import opened Basics
  import opened Wrappers
  import opened SqlText

  datatype Statement = Statement(text: string, args: seq<Value>)

  datatype Error = NotFound | Forbidden

  // ----- Threads (packages/forum) -----

  datatype ThreadInput = ThreadInput(imageURL: Option<string>, lastPostAt: Option<string>, postCount: Option<int>,
                                     isPinned: Option<bool>, isLocked: Option<bool>)

  // The row a thread-ownership query returned: its author, and whether the asking user is an administrator.
  datatype Ownership = Ownership(author: nat, isAdmin: bool)

  function TextArg(field: Option<string>): Option<Value> {
    match field case Some(v) => Some(Text(v)) case None => None
  }

  function IntArg(field: Option<int>): Option<Value> {
    match field case Some(v) => Some(Int(v)) case None => None
  }

  function FlagArg(field: Option<bool>): Option<Value> {
    match field case Some(v) => Some(Flag(v)) case None => None
  }

  type Field = (string, Option<Value>)

  // The columns a caller asked to change: the present fields, on top of `row`.
  function WithFields(row: Row, fields: seq<Field>): Row {
    if |fields| == 0 then row
    else
      var (col, value) := fields[|fields| - 1];
      var earlier := WithFields(row, fields[..|fields| - 1]);
      if value.Some? then earlier[col := value.value] else earlier
  }

  predicate FreshColumns(row: Row, fields: seq<Field>) {
    && (forall i :: 0 <= i < |fields| ==> IsName(fields[i].0) && fields[i].0 !in row)
    && (forall i, j :: 0 <= i < j < |fields| ==> fields[i].0 != fields[j].0)
  }

  lemma {:induction false} WithFieldsAddsOnlyThose(row: Row, fields: seq<Field>, col: string)
    requires col !in row && forall i :: 0 <= i < |fields| ==> fields[i].0 != col
    ensures col !in WithFields(row, fields)
    decreases |fields|
  {
    if |fields| > 0 {
      WithFieldsAddsOnlyThose(row, fields[..|fields| - 1], col);
    }
  }

  predicate Holds(row: Row, col: string, field: Option<Value>) {
    if field.Some? then col in row && row[col] == field.value else col !in row
  }

  lemma {:induction false} FieldsHold(row: Row, fields: seq<Field>)
    requires FreshColumns(row, fields)
    ensures row.Keys <= WithFields(row, fields).Keys
    ensures forall col :: col in row ==> WithFields(row, fields)[col] == row[col]
    ensures forall i :: 0 <= i < |fields| ==> Holds(WithFields(row, fields), fields[i].0, fields[i].1)
    ensures forall col :: col in WithFields(row, fields) ==>
      col in row || exists i :: 0 <= i < |fields| && fields[i].0 == col
    decreases |fields|
  {
    if |fields| > 0 {
      var earlier := fields[..|fields| - 1];
      var col := fields[|fields| - 1].0;
      FieldsHold(row, earlier);
      assert col !in WithFields(row, earlier) by {
        WithFieldsAddsOnlyThose(row, earlier, col);
      }
      forall i | 0 <= i < |fields| - 1
        ensures Holds(WithFields(row, fields), fields[i].0, fields[i].1)
      {
        assert earlier[i] == fields[i];
      }
      forall c | c in WithFields(row, fields) && c !in row ensures exists i :: 0 <= i < |fields| && fields[i].0 == c {
        if c != col {
          var i :| 0 <= i < |earlier| && earlier[i].0 == c;
          assert fields[i].0 == c;
        }
      }
    }
  }

  function ThreadFields(input: ThreadInput): seq<Field> {
    [("image_url", TextArg(input.imageURL)), ("last_post_at", TextArg(input.lastPostAt)),
     ("post_count", IntArg(input.postCount)), ("is_pinned", FlagArg(input.isPinned)),
     ("is_locked", FlagArg(input.isLocked))]
  }

  function ThreadChanges(input: ThreadInput, now: int): Row {
    WithFields(map["updated_at" := Instant(now)], ThreadFields(input))
  }

  // Column by column: the update time, each present field under its own name, and nothing else.
  lemma ThreadChangesAreTheInput(input: ThreadInput, now: int)
    ensures var row := ThreadChanges(input, now);
      && Holds(row, "updated_at", Some(Instant(now)))
      && Holds(row, "image_url", TextArg(input.imageURL))
      && Holds(row, "last_post_at", TextArg(input.lastPostAt))
      && Holds(row, "post_count", IntArg(input.postCount))
      && Holds(row, "is_pinned", FlagArg(input.isPinned))
      && Holds(row, "is_locked", FlagArg(input.isLocked))
    ensures ThreadChanges(input, now).Keys
            <= {"updated_at", "image_url", "last_post_at", "post_count", "is_pinned", "is_locked"}
  {
    var fields := ThreadFields(input);
    ThreadColumnsAreFresh(input, now);
    FieldsHold(map["updated_at" := Instant(now)], fields);
    assert Holds(ThreadChanges(input, now), fields[0].0, fields[0].1);
    assert Holds(ThreadChanges(input, now), fields[1].0, fields[1].1);
    assert Holds(ThreadChanges(input, now), fields[2].0, fields[2].1);
    assert Holds(ThreadChanges(input, now), fields[3].0, fields[3].1);
    assert Holds(ThreadChanges(input, now), fields[4].0, fields[4].1);
  }

  method JoinClauses(head: string, setClauses: seq<string>) returns (query: string)
    ensures query == head + Join(", ", setClauses)
  {
    query := head;
    for i := 0 to |setClauses|
      invariant query == head + Join(", ", setClauses[..i])
    {
      assert setClauses[..i + 1][..i] == setClauses[..i];
      if i > 0 {
        query := query + ", ";
      }
      query := query + setClauses[i];
    }
    assert setClauses[..|setClauses|] == setClauses;
  }

  method UpdateThread(setClauses: seq<string>, args: seq<Value>) returns (s: Statement)
    ensures s == Statement(UpdateText("threads", setClauses), args)
  {
    var query := JoinClauses("UPDATE threads SET ", setClauses);
    query := query + " WHERE id = $1";
    s := Statement(query, args);
  }

  // The "if the field is present" blocks, one after the other: a clause, its argument, the next placeholder number.
  method AddFields(setClauses: seq<string>, args: seq<Value>, argIdx: nat, fields: seq<Field>,
                   ghost sets: seq<Assignment>, ghost now: int, ghost row: Row)
    returns (setClauses': seq<string>, args': seq<Value>, ghost sets': seq<Assignment>)
    requires Built(setClauses, args, sets, now, row)
    requires FreshColumns(row, fields)
    requires argIdx == |args| + 1
    ensures Built(setClauses', args', sets', now, WithFields(row, fields))
    ensures args <= args'
  {
    setClauses', args', sets' := setClauses, args, sets;
    var argIdx' := argIdx;
    for i := 0 to |fields|
      invariant Built(setClauses', args', sets', now, WithFields(row, fields[..i]))
      invariant args <= args' && argIdx' == |args'| + 1
    {
      assert fields[..i + 1][..i] == fields[..i];
      var (col, value) := fields[i];
      if value.Some? {
        WithFieldsAddsOnlyThose(row, fields[..i], col);
        AppendClause(setClauses', args', sets', now, WithFields(row, fields[..i]), col, value.value);
        sets' := sets' + [Assignment(col, Param(argIdx'))];
        setClauses' := setClauses' + [SetClause(col, argIdx')];
        args' := args' + [value.value];
        argIdx' := argIdx' + 1;
      }
    }
    assert fields[..|fields|] == fields;
  }

  // Column names are lower-case words.
  lemma ColumnNames()
    ensures IsName("image_url") && IsName("last_post_at") && IsName("post_count")
    ensures IsName("is_pinned") && IsName("is_locked")
    ensures IsName("display_name") && IsName("bio") && IsName("website") && IsName("avatar_url")
  {
  }

  predicate AllDiffer(cols: seq<string>) {
    forall i, j :: 0 <= i < j < |cols| ==> cols[i] != cols[j]
  }

  // The fourth letter tells the columns of a thread apart, but for two of different lengths.
  lemma ThreadColumnsDiffer()
    ensures AllDiffer(["image_url", "last_post_at", "post_count", "is_pinned", "is_locked", "updated_at"])
  {
    assert "image_url"[3] == 'g' && "is_pinned"[3] == 'p' && "is_locked"[3] == 'l' && "updated_at"[3] == 'a';
    assert "last_post_at"[3] == 't' && "post_count"[3] == 't' && |"last_post_at"| != |"post_count"|;
  }

  lemma ThreadColumnsAreFresh(input: ThreadInput, now: int)
    ensures FreshColumns(map["updated_at" := Instant(now)], ThreadFields(input))
  {
    ColumnNames();
    ThreadColumnsDiffer();
    var cols := ["image_url", "last_post_at", "post_count", "is_pinned", "is_locked", "updated_at"];
    FreshIfDifferent(ThreadFields(input), cols, now);
  }

  lemma FreshIfDifferent(fields: seq<Field>, cols: seq<string>, now: int)
    requires |cols| == |fields| + 1 && AllDiffer(cols) && cols[|fields|] == "updated_at"
    requires forall i :: 0 <= i < |fields| ==> fields[i].0 == cols[i] && IsName(cols[i])
    ensures FreshColumns(map["updated_at" := Instant(now)], fields)
  {
  }

  lemma ThreadStart(threadID: nat, now: int)
    ensures Built(["updated_at = NOW()"], [Key(threadID)], [Assignment("updated_at", Now)], now,
                  map["updated_at" := Instant(now)])
  {
    var sets := [Assignment("updated_at", Now)];
    assert sets[..0] == [];
  }

  // Owner or administrator only. On success the statement, run at any moment on any table of threads, changes
  // just the row `threadID`, and in it just the fields that are present and the update time.
  method UpdateThreadFields(ownership: Option<Ownership>, userID: nat, threadID: nat, input: ThreadInput,
                            ghost now: int)
    returns (r: Result<Statement, Error>)
    ensures ownership == None ==> r == Err(NotFound)
    ensures ownership.Some? ==>
      (r.Ok? <==> ownership.value.author == userID || ownership.value.isAdmin) && (r.Err? ==> r.error == Forbidden)
    ensures r.Ok? ==> forall t :: Run("threads", r.value.text, r.value.args, now, t)
                                  == Some(Patched(t, threadID, ThreadChanges(input, now)))
  {
    if ownership == None {
      return Err(NotFound);
    }
    if ownership.value.author != userID && !ownership.value.isAdmin {
      return Err(Forbidden);
    }
    ThreadStart(threadID, now);
    ghost var sets := [Assignment("updated_at", Now)];
    var setClauses, args, argIdx := ["updated_at = NOW()"], [Key(threadID)], 2;
    ghost var c0: Row := map["updated_at" := Instant(now)];
    ThreadColumnsAreFresh(input, now);
    setClauses, args, sets := AddFields(setClauses, args, argIdx, ThreadFields(input), sets, now, c0);
    var s := UpdateThread(setClauses, args);
    forall t ensures Run("threads", s.text, s.args, now, t) == Some(Patched(t, threadID, ThreadChanges(input, now))) {
      BuiltStatementRuns("threads", setClauses, args, sets, now, ThreadChanges(input, now), threadID, t);
    }
    r := Ok(s);
  }

  // ----- Profiles -----

  datatype ProfileInput = ProfileInput(username: Option<string>, displayName: Option<string>,
                                       avatarURL: Option<string>, bio: Option<string>, website: Option<string>)

  // A username selects the full upsert, whose text is fixed; otherwise a partial update is built.
  datatype ProfileWrite =
    | Full(id: nat, username: string, displayName: Option<string>, avatarURL: Option<string>)
    | Partial(statement: Statement)

  function ProfileFields(input: ProfileInput): seq<Field> {
    [("display_name", TextArg(input.displayName)), ("bio", TextArg(input.bio)),
     ("website", TextArg(input.website)), ("avatar_url", TextArg(input.avatarURL))]
  }

  function ProfileChanges(input: ProfileInput, now: int): Row {
    WithFields(map["updated_at" := Instant(now)], ProfileFields(input))
  }

  lemma ProfileColumnsDiffer()
    ensures AllDiffer(["display_name", "bio", "website", "avatar_url", "updated_at"])
  {
    assert "display_name"[0] == 'd' && "bio"[0] == 'b' && "website"[0] == 'w' && "avatar_url"[0] == 'a';
    assert "updated_at"[0] == 'u';
  }

  lemma ProfileColumnsAreFresh(input: ProfileInput, now: int)
    ensures FreshColumns(map["updated_at" := Instant(now)], ProfileFields(input))
  {
    ColumnNames();
    ProfileColumnsDiffer();
    FreshIfDifferent(ProfileFields(input), ["display_name", "bio", "website", "avatar_url", "updated_at"], now);
  }

  lemma ProfileChangesAreTheInput(input: ProfileInput, now: int)
    ensures var row := ProfileChanges(input, now);
      && Holds(row, "updated_at", Some(Instant(now)))
      && Holds(row, "display_name", TextArg(input.displayName))
      && Holds(row, "bio", TextArg(input.bio))
      && Holds(row, "website", TextArg(input.website))
      && Holds(row, "avatar_url", TextArg(input.avatarURL))
    ensures ProfileChanges(input, now).Keys <= {"updated_at", "display_name", "bio", "website", "avatar_url"}
  {
    var fields := ProfileFields(input);
    ProfileColumnsAreFresh(input, now);
    FieldsHold(map["updated_at" := Instant(now)], fields);
    assert Holds(ProfileChanges(input, now), fields[0].0, fields[0].1);
    assert Holds(ProfileChanges(input, now), fields[1].0, fields[1].1);
    assert Holds(ProfileChanges(input, now), fields[2].0, fields[2].1);
    assert Holds(ProfileChanges(input, now), fields[3].0, fields[3].1);
  }

  method UpdateProfilePartial(setClauses: seq<string>, args: seq<Value>) returns (s: Statement)
    ensures s == Statement(UpdateText("profiles", setClauses), args)
  {
    var query := JoinClauses("UPDATE profiles SET ", setClauses);
    query := query + " WHERE id = $1";
    s := Statement(query, args);
  }

  lemma ProfileStart(userID: nat, now: int, later: int)
    ensures Built(["updated_at = $2"], [Key(userID), Instant(now)], [Assignment("updated_at", Param(2))], later,
                  map["updated_at" := Instant(now)])
  {
    var sets := [Assignment("updated_at", Param(2))];
    assert sets[..0] == [];
    assert Decimal(2) == "2";
    assert SetClause("updated_at", 2) == "updated_at = $2";
  }

  // Users write their own profile only. Here the update time is an argument, read from the clock before the
  // statement runs at time `later`.
  method UpsertProfile(userID: nat, profileID: nat, input: ProfileInput, now: int, ghost later: int)
    returns (r: Result<ProfileWrite, Error>)
    ensures r.Err? <==> userID != profileID
    ensures r.Err? ==> r.error == Forbidden
    ensures r.Ok? ==> (r.value.Full? <==> input.username.Some?)
    ensures r.Ok? && r.value.Full? ==>
      r.value == Full(profileID, input.username.value, input.displayName, input.avatarURL)
    ensures r.Ok? && r.value.Partial? ==>
      forall t :: Run("profiles", r.value.statement.text, r.value.statement.args, later, t)
                  == Some(Patched(t, profileID, ProfileChanges(input, now)))
  {
    if userID != profileID {
      return Err(Forbidden);
    }
    if input.username.Some? {
      return Ok(Full(userID, input.username.value, input.displayName, input.avatarURL));
    }
    ProfileStart(userID, now, later);
    ghost var sets := [Assignment("updated_at", Param(2))];
    var setClauses, args, argIdx := ["updated_at = $2"], [Key(userID), Instant(now)], 3;
    ghost var c0: Row := map["updated_at" := Instant(now)];
    ProfileColumnsAreFresh(input, now);
    setClauses, args, sets := AddFields(setClauses, args, argIdx, ProfileFields(input), sets, later, c0);
    var s := UpdateProfilePartial(setClauses, args);
    forall t ensures Run("profiles", s.text, s.args, later, t)
                     == Some(Patched(t, profileID, ProfileChanges(input, now))) {
      BuiltStatementRuns("profiles", setClauses, args, sets, later, ProfileChanges(input, now), profileID, t);
    }
    r := Ok(Partial(s));
  }
}
