/**
 * The waitlist signup endpoint (`POST /api/waitlist`) and the table it
 * writes. The database is abstract: a flag per schema object, the rows in
 * insertion order and the next value of the SERIAL `id` sequence. A backend
 * failure is a parameter naming the first SQL statement that fails, and the
 * clock that fills `created_at` is a parameter too.
 *
 * `Signup` states what one call does to the database and what it answers;
 * `WaitlistTable.Post` runs the same steps as statements against a table
 * object and is proved to agree with it.
 */
module WaitlistStore {
  import opened Common

  /** Width of the `email` and `name` columns, `VARCHAR(255)`. */
  const ColumnWidth: nat := 255

  /** First value handed out by the SERIAL `id` column. */
  const FirstId: nat := 1

  /**
   * Last value the sequence behind SERIAL hands out: the column is a
   * PostgreSQL `integer`, and `nextval` fails once this value is used.
   */
  const MaxSerial: nat := 2147483647

  const JoinedMessage: string := "Successfully joined the waitlist!"
  const InvalidEmailError: string := "Valid email is required"
  const DuplicateEmailError: string := "This email is already on the waitlist"
  const JoinFailedError: string := "Failed to join waitlist. Please try again."

  /** One row of the `waitlist` table. */
  datatype Entry = Entry(id: nat, email: string, name: Option<string>, createdAt: Timestamp)

  /** The database as the endpoint sees it. */
  datatype Db = Db(tableExists: bool, indexExists: bool, rows: seq<Entry>, nextId: nat)

  /** A database in which no signup has run yet: no table, a fresh sequence. */
  const NoDatabase: Db := Db(false, false, [], FirstId)

  /** The parsed request body; `Unparsable` is a body `request.json()` cannot destructure. */
  datatype Body = Unparsable | Body(email: Option<string>, name: Option<string>)

  /** The three SQL statements one signup issues, in order. */
  datatype Statement = CreateTableStatement | CreateIndexStatement | InsertStatement

  /** The JSON object of a response: `{ message }` or `{ error }`. */
  datatype Payload = Message(message: string) | Error(error: string)

  datatype Response = Response(status: nat, payload: Payload)

  const Joined: Response := Response(200, Message(JoinedMessage))
  const InvalidEmail: Response := Response(400, Error(InvalidEmailError))
  const AlreadyJoined: Response := Response(409, Error(DuplicateEmailError))
  const JoinFailed: Response := Response(500, Error(JoinFailedError))

  /**
   * What the INSERT statement reports: the new row, SQLSTATE 23505, a value
   * the columns refuse, or a sequence with no value left (SQLSTATE 2200H).
   */
  datatype InsertOutcome = Inserted(entry: Entry) | UniqueViolation | ValueRejected | SequenceExhausted

  /** The database after one call, and the response sent. */
  datatype Outcome = Outcome(db: Db, response: Response)

  /**
   * The only check the endpoint makes: an email is present, non-empty and
   * contains '@'. The emptiness test adds nothing: containing '@' is the
   * whole condition.
   */
  predicate ValidEmail(email: Option<string>): (ok: bool)
    ensures ok <==> email.Some? && '@' in email.value
  {
    email.Some? && email.value != "" && '@' in email.value
  }

  /** `name || null`: an absent or empty name is stored as NULL. */
  function NameToStore(name: Option<string>): (stored: Option<string>)
    ensures stored != Some("")
    ensures stored.Some? <==> name.Some? && name.value != ""
    ensures stored.Some? ==> stored == name
  {
    if name.Some? && name.value != "" then name else None
  }

  predicate AllSpaces(s: string)
  {
    forall c :: c in s ==> c == ' '
  }

  /**
   * Assignment of a text value to a `VARCHAR(255)` column: a NUL character is
   * refused, a longer value is refused unless everything past the width is
   * spaces, in which case those spaces are cut off.
   */
  function ToVarchar(s: string): (r: Option<string>)
    ensures r.Some? ==> |r.value| <= ColumnWidth && '\0' !in r.value
    ensures r.Some? ==> r.value <= s && AllSpaces(s[|r.value|..])
    ensures r.Some? && s != "" ==> r.value != ""
    ensures |s| <= ColumnWidth && '\0' !in s ==> r == Some(s)
    ensures '\0' in s ==> r == None
    ensures |s| > ColumnWidth && '\0' !in s && AllSpaces(s[ColumnWidth..]) ==> r == Some(s[..ColumnWidth])
    ensures |s| > ColumnWidth && !AllSpaces(s[ColumnWidth..]) ==> r == None
  {
    if '\0' in s then None
    else if |s| <= ColumnWidth then Some(s)
    else if AllSpaces(s[ColumnWidth..]) then Some(s[..ColumnWidth])
    else None
  }

  /** The emails present in a list of rows. */
  function Emails(rows: seq<Entry>): (emails: set<string>)
    ensures forall e :: e in rows ==> e.email in emails
    ensures forall m :: m in emails ==> exists e :: e in rows && e.email == m
  {
    set e | e in rows :: e.email
  }

  /** What every stored row satisfies: the columns' constraints plus the endpoint's own checks. */
  predicate WellFormed(e: Entry)
  {
    FirstId <= e.id
    && '@' in e.email && |e.email| <= ColumnWidth && '\0' !in e.email
    && (e.name.Some? ==> e.name.value != "" && |e.name.value| <= ColumnWidth && '\0' !in e.name.value)
  }

  /**
   * The table's invariant: UNIQUE emails, SERIAL ids that grow with the
   * insertion order and stay below the sequence's next value, a sequence
   * within the `integer` range, no table (hence no rows and an untouched
   * sequence) before the first CREATE, and the email index in place once
   * there are rows.
   */
  predicate Consistent(db: Db): (ok: bool)
  {
    (!db.tableExists ==> db == NoDatabase)
    && (db.rows != [] ==> db.indexExists)
    && FirstId <= db.nextId <= MaxSerial + 1
    && (forall i, j :: 0 <= i < j < |db.rows| ==> db.rows[i].email != db.rows[j].email)
    && (forall i, j :: 0 <= i < j < |db.rows| ==> db.rows[i].id < db.rows[j].id)
    && (forall e :: e in db.rows ==> WellFormed(e) && e.id < db.nextId)
  }

  /**
   * In a consistent table `email` and `id` are both keys: two rows that
   * agree on either one are the same row, and there are as many distinct
   * emails as rows.
   */
  lemma RowsKeyedByEmailAndId(db: Db)
    requires Consistent(db)
    ensures forall i, j :: 0 <= i < |db.rows| && 0 <= j < |db.rows| && db.rows[i].email == db.rows[j].email ==> i == j
    ensures forall i, j :: 0 <= i < |db.rows| && 0 <= j < |db.rows| && db.rows[i].id == db.rows[j].id ==> i == j
    ensures |Emails(db.rows)| == |db.rows|
  {
    DistinctEmailsCount(db.rows);
  }

  /** Appending a row adds its email to the emails present. */
  lemma EmailsAppend(init: seq<Entry>, last: Entry)
    ensures Emails(init + [last]) == Emails(init) + {last.email}
  {
    var rows := init + [last];
    forall e | e in rows ensures e in init || e == last {
      var k :| 0 <= k < |rows| && rows[k] == e;
      if k < |init| {
        assert init[k] == e;
      }
    }
  }

  /** An email that no row carries is not among the emails present. */
  lemma EmailAbsent(rows: seq<Entry>, m: string)
    requires forall k :: 0 <= k < |rows| ==> rows[k].email != m
    ensures m !in Emails(rows)
  {
    forall e | e in rows ensures e.email != m {
      var k :| 0 <= k < |rows| && rows[k] == e;
    }
  }

  /** Rows with pairwise distinct emails have one email each. */
  lemma {:induction false} DistinctEmailsCount(rows: seq<Entry>)
    requires forall i, j :: 0 <= i < j < |rows| ==> rows[i].email != rows[j].email
    ensures |Emails(rows)| == |rows|
  {
    if rows != [] {
      var init := rows[..|rows| - 1];
      var last := rows[|rows| - 1];
      assert rows == init + [last];
      assert forall i, j :: 0 <= i < j < |init| ==> init[i].email != init[j].email;
      assert forall k :: 0 <= k < |init| ==> init[k].email != last.email;
      DistinctEmailsCount(init);
      EmailAbsent(init, last.email);
      EmailsAppend(init, last);
    }
  }

  /** `CREATE TABLE IF NOT EXISTS waitlist (...)`. */
  function CreateTableIfNotExists(db: Db): (r: Db)
    requires Consistent(db)
    ensures Consistent(r) && r.tableExists
    ensures r.rows == db.rows && r.nextId == db.nextId && r.indexExists == db.indexExists
    ensures db.tableExists ==> r == db
  {
    db.(tableExists := true)
  }

  /** `CREATE INDEX IF NOT EXISTS idx_waitlist_email ON waitlist(email)`. */
  function CreateIndexIfNotExists(db: Db): (r: Db)
    requires Consistent(db) && db.tableExists
    ensures Consistent(r) && r.indexExists
    ensures r.rows == db.rows && r.nextId == db.nextId && r.tableExists
    ensures db.indexExists ==> r == db
  {
    db.(indexExists := true)
  }

  /** Cutting off trailing spaces keeps the '@' the endpoint checked for. */
  lemma AtSurvivesTruncation(s: string)
    requires '@' in s && |s| > ColumnWidth && AllSpaces(s[ColumnWidth..])
    ensures '@' in s[..ColumnWidth]
  {
    forall k | ColumnWidth <= k < |s|
      ensures s[k] == ' '
    {
      assert s[ColumnWidth..][k - ColumnWidth] == s[k];
      assert s[k] in s[ColumnWidth..];
    }
    var i :| 0 <= i < |s| && s[i] == '@';
    assert s[..ColumnWidth][i] == '@';
  }

  /**
   * The name column's value (itself NULL or a text), or `None` when the name
   * cannot be stored.
   */
  function NameColumn(name: Option<string>): (col: Option<Option<string>>)
    ensures name.None? ==> col == Some(None)
    ensures col.Some? && name.Some? ==>
      col.value.Some? && col.value.value <= name.value && |col.value.value| <= ColumnWidth && '\0' !in col.value.value
    ensures name.Some? && |name.value| <= ColumnWidth && '\0' !in name.value ==> col == Some(name)
    ensures name.Some? && '\0' in name.value ==> col == None
    ensures name.Some? && |name.value| > ColumnWidth && '\0' !in name.value && AllSpaces(name.value[ColumnWidth..]) ==>
      col == Some(Some(name.value[..ColumnWidth]))
    ensures name.Some? && |name.value| > ColumnWidth && !AllSpaces(name.value[ColumnWidth..]) ==> col == None
  {
    if name.None? then Some(None)
    else if ToVarchar(name.value).Some? then Some(Some(ToVarchar(name.value).value))
    else None
  }

  /**
   * `INSERT INTO waitlist (email, name) VALUES (...)`: the values are coerced
   * to the column types first; then the sequence hands out an id, or fails
   * when it has none left; the id is spent even when the UNIQUE check on
   * `email` then refuses the row.
   */
  function InsertRow(db: Db, email: string, name: Option<string>, now: Timestamp): (out: (Db, InsertOutcome))
    requires Consistent(db) && db.tableExists && db.indexExists && '@' in email && name != Some("")
    ensures Consistent(out.0) && out.0.tableExists == db.tableExists && out.0.indexExists == db.indexExists
    ensures out.1.Inserted? <==>
      ToVarchar(email).Some? && NameColumn(name).Some? && db.nextId <= MaxSerial && ToVarchar(email).value !in Emails(db.rows)
    ensures out.1.UniqueViolation? <==>
      ToVarchar(email).Some? && NameColumn(name).Some? && db.nextId <= MaxSerial && ToVarchar(email).value in Emails(db.rows)
    ensures out.1.SequenceExhausted? <==> ToVarchar(email).Some? && NameColumn(name).Some? && db.nextId > MaxSerial
    ensures out.1.Inserted? ==>
      out.1.entry == Entry(db.nextId, ToVarchar(email).value, NameColumn(name).value, now)
      && out.0.rows == db.rows + [out.1.entry] && out.0.nextId == db.nextId + 1
    ensures out.1.UniqueViolation? ==> out.0.rows == db.rows && out.0.nextId == db.nextId + 1
    ensures out.1.ValueRejected? || out.1.SequenceExhausted? ==> out.0 == db
  {
    var email' := ToVarchar(email);
    var name' := NameColumn(name);
    if email'.None? || name'.None? then (db, ValueRejected)
    else if db.nextId > MaxSerial then (db, SequenceExhausted)
    else if email'.value in Emails(db.rows) then (db.(nextId := db.nextId + 1), UniqueViolation)
    else
      var entry := Entry(db.nextId, email'.value, name'.value, now);
      assert WellFormed(entry) by {
        if |email| > ColumnWidth {
          AtSurvivesTruncation(email);
        }
      }
      (db.(rows := db.rows + [entry], nextId := db.nextId + 1), Inserted(entry))
  }

  /** The response for what the INSERT reported: 23505 is a 409, any other error a 500. */
  function Answer(outcome: InsertOutcome): (response: Response)
    ensures response == Joined <==> outcome.Inserted?
    ensures response == AlreadyJoined <==> outcome.UniqueViolation?
    ensures response == JoinFailed <==> outcome.ValueRejected? || outcome.SequenceExhausted?
  {
    match outcome
    case Inserted(_) => Joined
    case UniqueViolation => AlreadyJoined
    case ValueRejected => JoinFailed
    case SequenceExhausted => JoinFailed
  }

  /** The request gets past validation and the backend runs every statement. */
  predicate Attempted(body: Body, failing: Option<Statement>)
  {
    body.Body? && ValidEmail(body.email) && failing.None?
  }

  /** The email as it would be stored, when it can be stored at all. */
  function StoredEmail(body: Body): Option<string>
    requires body.Body? && ValidEmail(body.email)
  {
    ToVarchar(body.email.value)
  }

  /** Both values fit their columns. */
  predicate Storable(body: Body)
    requires body.Body? && ValidEmail(body.email)
  {
    StoredEmail(body).Some? && NameColumn(NameToStore(body.name)).Some?
  }

  /**
   * One `POST` call: validate, create the schema if absent, insert, and map
   * the outcome to a status. Every response other than 200 leaves the rows
   * as they were; a 400 or an unparsable body issues no statement at all.
   * Once the id sequence is used up, every valid request is answered 500.
   */
  function Signup(db: Db, body: Body, failing: Option<Statement>, now: Timestamp): (out: Outcome)
    requires Consistent(db)
    ensures Consistent(out.db)
    ensures out.response in {Joined, InvalidEmail, AlreadyJoined, JoinFailed}
    ensures out.response == InvalidEmail <==> body.Body? && !ValidEmail(body.email)
    ensures out.response == InvalidEmail || body.Unparsable? ==> out.db == db
    ensures failing == Some(CreateTableStatement) ==> out.db == db
    ensures out.response == AlreadyJoined <==>
      Attempted(body, failing) && Storable(body) && db.nextId <= MaxSerial && StoredEmail(body).value in Emails(db.rows)
    ensures out.response == Joined <==>
      Attempted(body, failing) && Storable(body) && db.nextId <= MaxSerial && StoredEmail(body).value !in Emails(db.rows)
    ensures out.response == Joined || out.response == AlreadyJoined ==> out.db.nextId == db.nextId + 1
    ensures out.response == Joined ==>
      out.db.rows == db.rows + [Entry(db.nextId, StoredEmail(body).value, NameColumn(NameToStore(body.name)).value, now)]
    ensures out.response != Joined ==> out.db.rows == db.rows
    ensures db.nextId <= out.db.nextId
    ensures body.Body? && ValidEmail(body.email) && failing != Some(CreateTableStatement) ==> out.db.tableExists
  {
    if body.Unparsable? then Outcome(db, JoinFailed)
    else if !ValidEmail(body.email) then Outcome(db, InvalidEmail)
    else
      match failing
      case Some(CreateTableStatement) => Outcome(db, JoinFailed)
      case Some(CreateIndexStatement) => Outcome(CreateTableIfNotExists(db), JoinFailed)
      case Some(InsertStatement) => Outcome(CreateIndexIfNotExists(CreateTableIfNotExists(db)), JoinFailed)
      case None =>
        var schema := CreateIndexIfNotExists(CreateTableIfNotExists(db));
        var (after, outcome) := InsertRow(schema, body.email.value, NameToStore(body.name), now);
        Outcome(after, Answer(outcome))
  }

  /** One request in a history of requests. */
  datatype Call = Call(body: Body, failing: Option<Statement>, now: Timestamp)

  /** The database after handling `calls` one after another. */
  function Replay(db: Db, calls: seq<Call>): (r: Db)
    requires Consistent(db)
    decreases |calls|
  {
    if calls == [] then db
    else Replay(Signup(db, calls[0].body, calls[0].failing, calls[0].now).db, calls[1..])
  }

  /**
   * After any history of signups the table is still consistent (emails
   * distinct, ids increasing), no row has been changed or removed, and every
   * row added carries an id the sequence had not yet handed out.
   */
  lemma {:induction false} ReplayKeepsTable(db: Db, calls: seq<Call>)
    requires Consistent(db)
    decreases |calls|
    ensures Consistent(Replay(db, calls))
    ensures db.rows <= Replay(db, calls).rows
    ensures db.nextId <= Replay(db, calls).nextId
    ensures forall i :: |db.rows| <= i < |Replay(db, calls).rows| ==> db.nextId <= Replay(db, calls).rows[i].id
  {
    if calls != [] {
      var next := Signup(db, calls[0].body, calls[0].failing, calls[0].now).db;
      ReplayKeepsTable(next, calls[1..]);
      assert Replay(db, calls) == Replay(next, calls[1..]);
      assert db.rows <= next.rows;
      var r := Replay(db, calls);
      forall i | |db.rows| <= i < |r.rows|
        ensures db.nextId <= r.rows[i].id
      {
        if i >= |next.rows| {
          assert next.nextId <= r.rows[i].id;
        } else {
          assert r.rows[i] == next.rows[i];
          assert r.rows[i] in next.rows;
        }
      }
    }
  }

  /**
   * A successful signup leaves exactly one row with the stored email, and a
   * second signup with the same email, under any name that fits the column,
   * is answered 409 without adding a row, as long as the id sequence has a
   * value left for it.
   */
  lemma SecondSignupRejected(db: Db, email: string, name: Option<string>, name2: Option<string>, t1: Timestamp, t2: Timestamp)
    requires Consistent(db)
    requires Signup(db, Body(Some(email), name), None, t1).response == Joined
    requires NameColumn(NameToStore(name2)).Some?
    ensures var db1 := Signup(db, Body(Some(email), name), None, t1).db;
      && |db1.rows| == |db.rows| + 1
      && db1.rows[|db.rows|].email == ToVarchar(email).value
      && (forall i :: 0 <= i < |db.rows| ==> db1.rows[i].email != ToVarchar(email).value)
      && Signup(db1, Body(Some(email), name2), None, t2).db.rows == db1.rows
      && (db.nextId < MaxSerial ==> Signup(db1, Body(Some(email), name2), None, t2).response == AlreadyJoined)
  {
    var body := Body(Some(email), name);
    var db1 := Signup(db, body, None, t1).db;
    var stored := ToVarchar(email).value;
    assert db1.rows == db.rows + [Entry(db.nextId, stored, NameColumn(NameToStore(name)).value, t1)];
    assert db1.rows[|db.rows|] in db1.rows;
    assert stored in Emails(db1.rows);
  }

  /**
   * Once the sequence has handed out its last id, no request is accepted or
   * reported as a duplicate any more: a valid request gets 500, and no row
   * is added.
   */
  lemma ExhaustedSequenceRefusesSignups(db: Db, body: Body, failing: Option<Statement>, now: Timestamp)
    requires Consistent(db) && db.nextId > MaxSerial
    ensures Signup(db, body, failing, now).response in {InvalidEmail, JoinFailed}
    ensures Signup(db, body, failing, now).db.rows == db.rows
  {
  }

  /**
   * A 409 finds the table and its index already in place: it changes nothing
   * but the sequence, which moves on by one.
   */
  lemma DuplicateOnlySpendsId(db: Db, body: Body, failing: Option<Statement>, now: Timestamp)
    requires Consistent(db)
    requires Signup(db, body, failing, now).response == AlreadyJoined
    ensures db.tableExists && db.indexExists
    ensures Signup(db, body, failing, now).db == db.(nextId := db.nextId + 1)
  {
    assert db.rows != [];
  }

  /** One duplicate signup: answered 409, rows kept, one id spent. */
  lemma DuplicateSignup(db: Db, c: Call, email: string)
    requires Consistent(db) && db.nextId <= MaxSerial
    requires c.failing == None && c.body.Body? && c.body.email == Some(email)
    requires NameColumn(NameToStore(c.body.name)).Some?
    requires ValidEmail(Some(email)) && ToVarchar(email).Some? && ToVarchar(email).value in Emails(db.rows)
    ensures Signup(db, c.body, c.failing, c.now).response == AlreadyJoined
    ensures Signup(db, c.body, c.failing, c.now).db.rows == db.rows
    ensures Signup(db, c.body, c.failing, c.now).db.nextId == db.nextId + 1
  {
  }

  /**
   * A 409 spends an id: a run of duplicate signups, under any names that fit
   * the column, leaves the rows as they were and moves the sequence on by one
   * per call, so duplicates alone can use the sequence up.
   */
  lemma {:induction false} DuplicatesSpendIds(db: Db, email: string, calls: seq<Call>)
    requires Consistent(db)
    requires forall c :: c in calls ==>
      c.failing == None && c.body.Body? && c.body.email == Some(email) && NameColumn(NameToStore(c.body.name)).Some?
    requires ValidEmail(Some(email)) && ToVarchar(email).Some? && ToVarchar(email).value in Emails(db.rows)
    requires db.nextId + |calls| <= MaxSerial + 1
    ensures Replay(db, calls).rows == db.rows
    ensures Replay(db, calls).nextId == db.nextId + |calls|
    decreases |calls|
  {
    if calls != [] {
      assert calls[0] in calls;
      DuplicateSignup(db, calls[0], email);
      var next := Signup(db, calls[0].body, calls[0].failing, calls[0].now).db;
      assert forall c :: c in calls[1..] ==> c in calls;
      DuplicatesSpendIds(next, email, calls[1..]);
    }
  }

  /** Running the schema step a second time changes nothing. */
  lemma SchemaStepIdempotent(db: Db)
    requires Consistent(db)
    ensures var once := CreateIndexIfNotExists(CreateTableIfNotExists(db));
      CreateIndexIfNotExists(CreateTableIfNotExists(once)) == once && once.rows == db.rows
  {
  }

  /** The only syntactic check is the '@': the one-character email "@" is accepted. */
  lemma BareAtSignJoins(now: Timestamp)
    ensures Signup(NoDatabase, Body(Some("@"), None), None, now).response == Joined
  {
    assert '@' in "@";
    assert ToVarchar("@") == Some("@");
  }

  /** An empty name is stored as NULL, not as an empty string. */
  lemma EmptyNameStoredAsNull(db: Db, email: string, now: Timestamp)
    requires Consistent(db)
    requires Signup(db, Body(Some(email), Some("")), None, now).response == Joined
    ensures Signup(db, Body(Some(email), Some("")), None, now).db.rows[|db.rows|].name == None
  {
  }

  /** The table after "a@x.com" signs up as Alice on a fresh database. */
  lemma AliceJoins(t1: Timestamp)
    ensures Signup(NoDatabase, Body(Some("a@x.com"), Some("Alice")), None, t1)
      == Outcome(Db(true, true, [Entry(FirstId, "a@x.com", Some("Alice"), t1)], FirstId + 1), Joined)
  {
    assert '@' in "a@x.com";
    assert ToVarchar("a@x.com") == Some("a@x.com");
    assert ToVarchar("Alice") == Some("Alice");
  }

  /**
   * "a@x.com" as Alice, then "a@x.com" as Bob: the second call is refused as
   * a duplicate and Alice's row stays the only one.
   */
  lemma DuplicateExample(t1: Timestamp, t2: Timestamp)
    ensures var first := Signup(NoDatabase, Body(Some("a@x.com"), Some("Alice")), None, t1);
      var second := Signup(first.db, Body(Some("a@x.com"), Some("Bob")), None, t2);
      second.response == AlreadyJoined && second.db.rows == [Entry(FirstId, "a@x.com", Some("Alice"), t1)]
  {
    AliceJoins(t1);
    assert ToVarchar("Bob") == Some("Bob");
  }

  /** Uniqueness is exact string equality: "A@x.com" is not a duplicate of "a@x.com". */
  lemma EmailsAreCaseSensitive(t1: Timestamp, t2: Timestamp)
    ensures var first := Signup(NoDatabase, Body(Some("a@x.com"), Some("Alice")), None, t1);
      Signup(first.db, Body(Some("A@x.com"), None), None, t2).response == Joined
  {
    AliceJoins(t1);
    assert '@' in "A@x.com";
    assert ToVarchar("A@x.com") == Some("A@x.com");
    assert "A@x.com" !in Emails([Entry(FirstId, "a@x.com", Some("Alice"), t1)]);
  }

  /**
   * The table object the endpoint writes through. Its fields are the
   * database state; each statement is a method, and `Post` is the handler.
   */
  class WaitlistTable {
    var tableExists: bool
    var indexExists: bool
    var rows: seq<Entry>
    var nextId: nat

    function State(): Db
      reads this
    {
      Db(tableExists, indexExists, rows, nextId)
    }

    ghost predicate Valid()
      reads this
    {
      Consistent(State())
    }

    /** A database before the first signup: the table does not exist yet. */
    constructor ()
      ensures Valid() && State() == NoDatabase
    {
      tableExists, indexExists, rows, nextId := false, false, [], FirstId;
    }

    method CreateTable()
      requires Valid()
      modifies this
      ensures Valid() && State() == CreateTableIfNotExists(old(State()))
    {
      tableExists := true;
    }

    method CreateIndex()
      requires Valid() && tableExists
      modifies this
      ensures Valid() && State() == CreateIndexIfNotExists(old(State()))
    {
      indexExists := true;
    }

    method Insert(email: string, name: Option<string>, now: Timestamp) returns (outcome: InsertOutcome)
      requires Valid() && tableExists && indexExists && '@' in email && name != Some("")
      modifies this
      ensures Valid() && (State(), outcome) == InsertRow(old(State()), email, name, now)
    {
      var email' := ToVarchar(email);
      var name' := NameColumn(name);
      if email'.None? || name'.None? {
        return ValueRejected;
      }
      if nextId > MaxSerial {
        return SequenceExhausted;
      }
      var id := nextId;
      nextId := nextId + 1;
      if email'.value in Emails(rows) {
        return UniqueViolation;
      }
      var entry := Entry(id, email'.value, name'.value, now);
      assert WellFormed(entry) by {
        if |email| > ColumnWidth {
          AtSurvivesTruncation(email);
        }
      }
      rows := rows + [entry];
      outcome := Inserted(entry);
    }

    /** The `POST` handler: one awaited statement after another, errors mapped to statuses. */
    method Post(body: Body, failing: Option<Statement>, now: Timestamp) returns (response: Response)
      requires Valid()
      modifies this
      ensures Valid()
      ensures Outcome(State(), response) == Signup(old(State()), body, failing, now)
    {
      ghost var start := State();
      if body.Unparsable? {
        return JoinFailed;
      }
      if !ValidEmail(body.email) {
        return InvalidEmail;
      }
      if failing == Some(CreateTableStatement) {
        return JoinFailed;
      }
      CreateTable();
      if failing == Some(CreateIndexStatement) {
        return JoinFailed;
      }
      CreateIndex();
      if failing == Some(InsertStatement) {
        return JoinFailed;
      }
      assert failing == None by {
        match failing {
          case None =>
          case Some(st) =>
            match st {
              case CreateTableStatement =>
              case CreateIndexStatement =>
              case InsertStatement =>
            }
        }
      }
      assert State() == CreateIndexIfNotExists(CreateTableIfNotExists(start));
      var outcome := Insert(body.email.value, NameToStore(body.name), now);
      response := Answer(outcome);
    }
  }
}
