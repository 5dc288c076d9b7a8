/**
 * The waitlist listing endpoint (`GET /api/waitlist/list`): every row of the
 * table, newest `created_at` first, with its count, wrapped in a `success`
 * flag. It only reads the database, so it is a function of the database
 * state; whether the backend answers is a parameter.
 *
 * `ORDER BY created_at DESC` leaves the order of rows with equal timestamps
 * to the database. `OrderByNewest` fixes one such order; `IsListing` is what
 * any answer of the database satisfies, and `ListingIsUnique` shows that it
 * pins the answer down once the timestamps differ.
 */
module WaitlistListing {
  import opened Common
  import opened WaitlistStore

  const FetchFailedError: string := "Failed to fetch waitlist data"

  /**
   * The JSON answer: `{ success: true, data, count }` or, with status 500,
   * `{ success: false, error }`. A row of `data` has exactly the columns
   * `id`, `name`, `email` and `created_at`, which are the fields of `Entry`.
   */
  datatype ListResponse = Listed(data: seq<Entry>, count: nat) | ListFailed(status: nat, error: string)
  {
    /** The `success` flag of the JSON answer. */
    predicate Success()
    {
      Listed?
    }
  }

  /** Each row is no newer than the one before it. */
  predicate NewestFirst(s: seq<Entry>)
  {
    forall i :: 0 < i < |s| ==> s[i - 1].createdAt >= s[i].createdAt
  }

  /** In a newest-first sequence every row is at least as new as every later one. */
  lemma {:induction false} NewestFirstPairwise(s: seq<Entry>, i: nat, j: nat)
    requires NewestFirst(s) && i <= j < |s|
    ensures s[i].createdAt >= s[j].createdAt
    decreases j - i
  {
    if i < j {
      NewestFirstPairwise(s, i + 1, j);
    }
  }

  /** A correct answer to the SELECT: all rows, each as often as stored, newest first. */
  predicate IsListing(rows: seq<Entry>, data: seq<Entry>)
  {
    multiset(data) == multiset(rows) && NewestFirst(data)
  }

  /** Puts `e` into a newest-first sequence, ahead of rows with the same timestamp. */
  function InsertByCreatedAt(e: Entry, s: seq<Entry>): (r: seq<Entry>)
    requires NewestFirst(s)
    ensures NewestFirst(r)
    ensures multiset(r) == multiset(s) + multiset{e}
    ensures |r| == |s| + 1 && (r[0] == e || (s != [] && r[0] == s[0]))
    decreases |s|
  {
    if s == [] || e.createdAt >= s[0].createdAt then [e] + s
    else
      assert s == [s[0]] + s[1..];
      [s[0]] + InsertByCreatedAt(e, s[1..])
  }

  /** `ORDER BY created_at DESC` over the rows in table order. */
  function OrderByNewest(rows: seq<Entry>): (r: seq<Entry>)
    ensures IsListing(rows, r)
  {
    if rows == [] then []
    else
      assert rows == [rows[0]] + rows[1..];
      InsertByCreatedAt(rows[0], OrderByNewest(rows[1..]))
  }

  /**
   * One `GET` call. The SELECT fails when the backend is unreachable and
   * also when no signup has yet created the table; a failure returns no
   * rows at all.
   */
  function Get(db: Db, reachable: bool): (r: ListResponse)
    ensures r.Success() <==> reachable && db.tableExists
    ensures r.Success() ==> IsListing(db.rows, r.data) && r.count == |r.data|
    ensures !r.Success() ==> r == ListFailed(500, FetchFailedError)
  {
    if !reachable || !db.tableExists then ListFailed(500, FetchFailedError)
    else
      var data := OrderByNewest(db.rows);
      Listed(data, |data|)
  }

  /** An existing but empty table is listed as an empty success, not as an error. */
  lemma EmptyTableListsNothing(db: Db)
    requires db.tableExists && db.rows == []
    ensures Get(db, true) == Listed([], 0)
  {
    var data := Get(db, true).data;
    assert |multiset(data)| == 0;
  }

  /** Rows that share a timestamp are the same row. */
  predicate DistinctTimes(s: seq<Entry>)
  {
    forall i, j :: 0 <= i < |s| && 0 <= j < |s| && s[i].createdAt == s[j].createdAt ==> s[i] == s[j]
  }

  /** Two newest-first orders of the same rows with distinct timestamps start with the same row. */
  lemma SameNewest(a: seq<Entry>, b: seq<Entry>)
    requires a != [] && multiset(a) == multiset(b) && DistinctTimes(a)
    requires NewestFirst(a) && NewestFirst(b)
    ensures b != [] && a[0] == b[0]
  {
    assert a[0] in multiset(b);
    var k :| 0 <= k < |b| && b[k] == a[0];
    assert b[0] in multiset(a);
    var j :| 0 <= j < |a| && a[j] == b[0];
    NewestFirstPairwise(a, 0, j);
    NewestFirstPairwise(b, 0, k);
  }

  lemma TailNewestFirst(a: seq<Entry>)
    requires a != [] && NewestFirst(a)
    ensures NewestFirst(a[1..])
  {
    forall i | 0 < i < |a| - 1 ensures a[1..][i - 1].createdAt >= a[1..][i].createdAt {
      assert a[1..][i - 1] == a[i] && a[1..][i] == a[i + 1];
    }
  }

  /** Dropping the same first row from two orders of the same rows leaves the same rows. */
  lemma SameTails(a: seq<Entry>, b: seq<Entry>)
    requires a != [] && b != [] && a[0] == b[0] && multiset(a) == multiset(b)
    ensures multiset(a[1..]) == multiset(b[1..])
  {
    assert a == [a[0]] + a[1..];
    assert b == [b[0]] + b[1..];
    assert multiset(a) == multiset{a[0]} + multiset(a[1..]);
    assert multiset(b) == multiset{a[0]} + multiset(b[1..]);
    assert multiset(a[1..]) == multiset(a) - multiset{a[0]};
  }

  /** With distinct timestamps there is only one newest-first order of a collection of rows. */
  lemma {:induction false} ListingIsUnique(a: seq<Entry>, b: seq<Entry>)
    requires multiset(a) == multiset(b) && DistinctTimes(a)
    requires NewestFirst(a) && NewestFirst(b)
    ensures a == b
    decreases |a|
  {
    if a == [] {
      assert |multiset(b)| == 0;
    } else {
      SameNewest(a, b);
      SameTails(a, b);
      TailNewestFirst(a);
      TailNewestFirst(b);
      assert DistinctTimes(a[1..]) by {
        forall i, j | 0 <= i < |a| - 1 && 0 <= j < |a| - 1 && a[1..][i].createdAt == a[1..][j].createdAt
          ensures a[1..][i] == a[1..][j]
        {
          assert a[1..][i] == a[i + 1] && a[1..][j] == a[j + 1];
        }
      }
      ListingIsUnique(a[1..], b[1..]);
      assert a == [a[0]] + a[1..];
      assert b == [b[0]] + b[1..];
    }
  }

  /**
   * Three signups at times t1 < t2 < t3 are listed as the third, the second,
   * then the first.
   */
  lemma ThreeSignupsNewestFirst(db: Db, e1: Entry, e2: Entry, e3: Entry)
    requires db.tableExists && db.rows == [e1, e2, e3]
    requires e1.createdAt < e2.createdAt < e3.createdAt
    ensures Get(db, true).data == [e3, e2, e1]
  {
    var listed := [e3, e2, e1];
    assert multiset(db.rows) == multiset(listed);
    assert NewestFirst(listed);
    assert DistinctTimes(listed);
    ListingIsUnique(listed, Get(db, true).data);
  }

  /** A table holding one row is listed as exactly that row. */
  lemma SingleRowListing(db: Db, e: Entry)
    requires db.tableExists && db.rows == [e]
    ensures Get(db, true) == Listed([e], 1)
  {
    var data := Get(db, true).data;
    assert |data| == |multiset(data)| == 1;
    assert data[0] in multiset(data);
  }

  /**
   * A successful signup is visible to the next listing: it lists one row
   * more than before, among them the new row, and no other row with its email.
   */
  lemma SignupThenListed(db: Db, email: string, name: Option<string>, now: Timestamp)
    requires Consistent(db)
    requires Signup(db, Body(Some(email), name), None, now).response == Joined
    ensures var after := Signup(db, Body(Some(email), name), None, now).db;
      var joined := Entry(db.nextId, ToVarchar(email).value, NameColumn(NameToStore(name)).value, now);
      var r := Get(after, true);
      && r.Success() && r.count == |db.rows| + 1
      && (exists k :: 0 <= k < |r.data| && r.data[k] == joined)
      && (forall k :: 0 <= k < |r.data| && r.data[k].email == joined.email ==> r.data[k] == joined)
  {
    var after := Signup(db, Body(Some(email), name), None, now).db;
    var joined := Entry(db.nextId, ToVarchar(email).value, NameColumn(NameToStore(name)).value, now);
    assert after.rows == db.rows + [joined];
    var r := Get(after, true);
    assert after.rows[|db.rows|] == joined;
    assert joined in multiset(r.data);
    assert |r.data| == |multiset(r.data)| == |multiset(after.rows)|;
    RowsKeyedByEmailAndId(after);
    forall k | 0 <= k < |r.data| && r.data[k].email == joined.email
      ensures r.data[k] == joined
    {
      assert r.data[k] in multiset(after.rows);
      var j :| 0 <= j < |after.rows| && after.rows[j] == r.data[k];
    }
  }

  /** After Alice and then Bob sign up with "a@x.com", the listing shows Alice alone. */
  lemma DuplicateExampleListsAlice(t1: Timestamp, t2: Timestamp)
    ensures var first := Signup(NoDatabase, Body(Some("a@x.com"), Some("Alice")), None, t1);
      var second := Signup(first.db, Body(Some("a@x.com"), Some("Bob")), None, t2);
      Get(second.db, true) == Listed([Entry(FirstId, "a@x.com", Some("Alice"), t1)], 1)
  {
    DuplicateExample(t1, t2);
    var first := Signup(NoDatabase, Body(Some("a@x.com"), Some("Alice")), None, t1);
    var second := Signup(first.db, Body(Some("a@x.com"), Some("Bob")), None, t2);
    assert '@' in "a@x.com";
    SingleRowListing(second.db, Entry(FirstId, "a@x.com", Some("Alice"), t1));
  }
}
