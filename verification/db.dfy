/**
 * The `links` store of lib/db.ts: the in-memory table used in development
 * when no database URL is set, the stand-in that fails every statement when
 * the URL is missing outside development, and `ensureSchema`'s once-only
 * table creation. The SQL statements the source sniffs out of query text
 * become one typed method each.
 */
module Db {
  import opened Wrappers
  import opened Text
  import Seqs

  /** One row of the `links` table. `createdAt` is the ISO-8601 text `toISOString` produced. */
  datatype Row = Row(code: string, targetUrl: string, clicks: nat, createdAt: string, lastClicked: Option<string>)

  /** An error thrown by a statement: its `message` and the `code` property set on it, if any. */
  datatype DbError = DbError(message: string, sqlState: Option<string>)

  /** The PostgreSQL SQLSTATE for a unique-constraint violation. */
  const UniqueViolation: string := "23505"

  /** What the in-memory INSERT throws for a code already in the table. */
  const DuplicateKey: DbError := DbError("duplicate key value violates unique constraint", Some(UniqueViolation))

  /** What every statement throws when the database URL is missing outside development (one message, written as three literals). */
  const MissingUrl: DbError :=
    DbError("DATABASE_URL is " + "missing. Set it" + " in .env to use the API.", None)

  /** `DATABASE_URL` is set to a non-empty string (JavaScript truthiness). */
  predicate Configured(url: Option<string>)
  {
    url.Some? && url.value != ""
  }

  /** The three implementations the module can bind `db` to when it loads. */
  datatype Backend = Neon | Unconfigured | InMemory

  /** `db`: the Neon client for a configured URL, else the in-memory table in development, else a stand-in that throws. */
  function SelectBackend(url: Option<string>, nodeEnv: Option<string>): (b: Backend)
    ensures b == Neon <==> Configured(url)
    ensures b == InMemory <==> !Configured(url) && nodeEnv == Some("development")
  {
    if Configured(url) then Neon
    else if nodeEnv != Some("development") then Unconfigured
    else InMemory
  }

  /** No two rows share a code: the primary-key constraint. */
  predicate UniqueCodes(rows: seq<Row>)
  {
    forall i, j :: 0 <= i < j < |rows| ==> rows[i].code != rows[j].code
  }

  /** No two rows share a target URL: the policy the create handler's pre-check keeps. */
  predicate OneRowPerTarget(rows: seq<Row>)
  {
    forall i, j :: 0 <= i < j < |rows| ==> rows[i].targetUrl != rows[j].targetUrl
  }

  predicate HasCode(rows: seq<Row>, code: string)
  {
    exists i :: 0 <= i < |rows| && rows[i].code == code
  }

  /** `store.findIndex(r => r.code === code)`, with `None` for -1. */
  function FindIndex(rows: seq<Row>, code: string): (r: Option<nat>)
    ensures r.Some? ==> r.value < |rows| && rows[r.value].code == code
    ensures r.Some? ==> forall k :: 0 <= k < r.value ==> rows[k].code != code
    ensures r.None? <==> !HasCode(rows, code)
  {
    if |rows| == 0 then None
    else if rows[0].code == code then Some(0)
    else
      match FindIndex(rows[1..], code)
      case None =>
        assert forall k :: 1 <= k < |rows| ==> rows[k] == rows[1..][k - 1];
        None
      case Some(i) => Some(i + 1)
  }

  // ---------------------------------------------------------------- selects

  /** The rows of `SELECT * FROM links WHERE target_url = target`, in table order. */
  function WithTarget(rows: seq<Row>, target: string): seq<Row>
  {
    Seqs.Filter(rows, (r: Row) => r.targetUrl == target)
  }

  /** The rows of `SELECT * FROM links WHERE code = code`, in table order. */
  function WithCode(rows: seq<Row>, code: string): seq<Row>
  {
    Seqs.Filter(rows, (r: Row) => r.code == code)
  }

  /** Under unique codes, selecting by code yields the one row with that code, or nothing. */
  lemma {:induction false} WithCodeIsLookup(rows: seq<Row>, code: string)
    requires UniqueCodes(rows)
    ensures WithCode(rows, code) == match FindIndex(rows, code)
                                    case None => []
                                    case Some(i) => [rows[i]]
  {
    if rows != [] {
      WithCodeIsLookup(rows[1..], code);
      assert WithCode(rows, code) == (if rows[0].code == code then [rows[0]] else []) + WithCode(rows[1..], code);
      if rows[0].code == code {
        assert !HasCode(rows[1..], code) by {
          forall k | 0 <= k < |rows[1..]| ensures rows[1..][k].code != code {
            assert rows[1..][k] == rows[k + 1];
          }
        }
      }
    }
  }

  /** A target with a row is found by the target select, the first such row leading. */
  lemma {:induction false} WithTargetFirst(rows: seq<Row>, target: string, i: nat)
    requires i < |rows| && rows[i].targetUrl == target
    requires forall k :: 0 <= k < i ==> rows[k].targetUrl != target
    ensures WithTarget(rows, target) != [] && WithTarget(rows, target)[0] == rows[i]
    decreases i
  {
    if i > 0 {
      WithTargetFirst(rows[1..], target, i - 1);
    }
  }

  // ------------------------------------------------------------ select all

  /** `(b.created_at || "") > (a.created_at || "")` is false: `a` was created no earlier than `b`. */
  predicate NewerOrSame(a: Row, b: Row)
  {
    !LexLess(a.createdAt, b.createdAt)
  }

  /** Ordered by `created_at` descending. */
  predicate NewestFirst(rows: seq<Row>)
  {
    forall i, j :: 0 <= i < j < |rows| ==> NewerOrSame(rows[i], rows[j])
  }

  lemma NewestFirstCons(r: Row, rows: seq<Row>)
    requires NewestFirst(rows)
    requires forall x | x in rows :: NewerOrSame(r, x)
    ensures NewestFirst([r] + rows)
  {
    forall i, j | 0 <= i < j < |[r] + rows| ensures NewerOrSame(([r] + rows)[i], ([r] + rows)[j]) {
      if i == 0 {
        assert ([r] + rows)[j] == rows[j - 1];
      }
    }
  }

  /** Places `r` in front of the first row it is at least as new as. */
  function InsertByCreated(r: Row, sorted: seq<Row>): (result: seq<Row>)
    requires NewestFirst(sorted)
    ensures NewestFirst(result)
    ensures multiset(result) == multiset(sorted) + multiset{r}
  {
    if sorted == [] || NewerOrSame(r, sorted[0]) then
      assert forall x | x in sorted :: NewerOrSame(r, x) by {
        forall x | x in sorted ensures NewerOrSame(r, x) {
          var j :| 0 <= j < |sorted| && sorted[j] == x;
          if j > 0 {
            NotLessTransitive(r.createdAt, sorted[0].createdAt, x.createdAt);
          }
        }
      }
      NewestFirstCons(r, sorted);
      [r] + sorted
    else
      var rest := InsertByCreated(r, sorted[1..]);
      assert sorted == [sorted[0]] + sorted[1..];
      assert NewerOrSame(sorted[0], r) by {
        if LexLess(sorted[0].createdAt, r.createdAt) {
          LexLessTransitive(r.createdAt, sorted[0].createdAt, r.createdAt);
          LexLessIrreflexive(r.createdAt);
        }
      }
      assert forall x | x in rest :: NewerOrSame(sorted[0], x) by {
        forall x | x in rest ensures NewerOrSame(sorted[0], x) {
          assert x in multiset(rest);
          if x != r {
            assert x in sorted[1..];
          }
        }
      }
      NewestFirstCons(sorted[0], rest);
      [sorted[0]] + rest
  }

  /** `store.slice().sort(...)`: a copy of the table, newest first. */
  function SortNewestFirst(rows: seq<Row>): (sorted: seq<Row>)
    ensures NewestFirst(sorted)
    ensures multiset(sorted) == multiset(rows)
  {
    if rows == [] then []
    else
      assert rows == [rows[0]] + rows[1..];
      InsertByCreated(rows[0], SortNewestFirst(rows[1..]))
  }

  // ---------------------------------------------------------------- delete

  /** The table after `store.splice(store.findIndex(...), 1)`: the first row with `code` gone. */
  function WithoutCode(rows: seq<Row>, code: string): (r: seq<Row>)
    ensures !HasCode(rows, code) ==> r == rows
    ensures HasCode(rows, code) ==> |r| == |rows| - 1
  {
    match FindIndex(rows, code)
    case None => rows
    case Some(i) => rows[..i] + rows[i + 1..]
  }

  /** Removing position `i` keeps every other row and nothing else. */
  lemma RemoveAtMembers(rows: seq<Row>, i: nat)
    requires i < |rows|
    ensures forall x | x in rows[..i] + rows[i + 1..] :: x in rows
    ensures forall k | 0 <= k < |rows| && k != i :: rows[k] in rows[..i] + rows[i + 1..]
  {
    var r := rows[..i] + rows[i + 1..];
    forall k | 0 <= k < |rows| && k != i ensures rows[k] in r {
      if k < i {
        assert r[k] == rows[k];
      } else {
        assert r[k - 1] == rows[k];
      }
    }
  }

  /** Removing a position from a table with unique codes leaves unique codes. */
  lemma RemoveAtUnique(rows: seq<Row>, i: nat)
    requires i < |rows| && UniqueCodes(rows)
    ensures UniqueCodes(rows[..i] + rows[i + 1..])
  {
    var r := rows[..i] + rows[i + 1..];
    forall p, q | 0 <= p < q < |r| ensures r[p].code != r[q].code {
      var p', q' := if p < i then p else p + 1, if q < i then q else q + 1;
      assert r[p] == rows[p'] && r[q] == rows[q'];
    }
  }

  /** Under unique codes, no row left after removing position `i` has the code of the removed row. */
  lemma RemoveAtDropsCode(rows: seq<Row>, i: nat)
    requires i < |rows| && UniqueCodes(rows)
    ensures forall x | x in rows[..i] + rows[i + 1..] :: x.code != rows[i].code
  {
    var r := rows[..i] + rows[i + 1..];
    forall x | x in r ensures x.code != rows[i].code {
      var m :| 0 <= m < |r| && r[m] == x;
      var m' := if m < i then m else m + 1;
      assert r[m] == rows[m'] && m' != i;
    }
  }

  /**
   * Deleting under unique codes removes exactly the row with `code`: every
   * other row stays, in the same relative order, and codes stay unique.
   */
  lemma WithoutCodeKeepsOthers(rows: seq<Row>, code: string)
    requires UniqueCodes(rows)
    ensures forall x | x in WithoutCode(rows, code) :: x in rows && x.code != code
    ensures forall x | x in rows && x.code != code :: x in WithoutCode(rows, code)
    ensures UniqueCodes(WithoutCode(rows, code))
    ensures Seqs.IsSubsequence(WithoutCode(rows, code), rows)
  {
    match FindIndex(rows, code)
    case None =>
      Seqs.SubsequenceReflexive(rows);
    case Some(i) =>
      RemoveAtMembers(rows, i);
      RemoveAtUnique(rows, i);
      RemoveAtDropsCode(rows, i);
      Seqs.RemoveAtIsSubsequence(rows, i);
      forall x | x in rows && x.code != code ensures x in rows[..i] + rows[i + 1..] {
        var k :| 0 <= k < |rows| && rows[k] == x;
      }
  }

  /** Deleting twice leaves the same table as deleting once. */
  lemma WithoutCodeIdempotent(rows: seq<Row>, code: string)
    requires UniqueCodes(rows)
    ensures WithoutCode(WithoutCode(rows, code), code) == WithoutCode(rows, code)
  {
    WithoutCodeKeepsOthers(rows, code);
  }

  // ------------------------------------------------------------- the table

  /** The `db` tag bound when no database URL is set: in development a table in memory, otherwise a stand-in that throws. */
  class LinkDb {
    const backend: Backend
    var rows: seq<Row>

    ghost predicate Valid()
      reads this
    {
      && backend != Neon
      && UniqueCodes(rows)
      && (backend == Unconfigured ==> rows == [])
    }

    /** The module load: the table starts empty. */
    constructor (url: Option<string>, nodeEnv: Option<string>)
      requires !Configured(url)
      ensures Valid()
      ensures backend == SelectBackend(url, nodeEnv) && rows == []
    {
      backend := SelectBackend(url, nodeEnv);
      rows := [];
    }

    /** `SELECT * FROM links ORDER BY created_at DESC`. */
    method SelectAll() returns (r: Result<seq<Row>, DbError>)
      requires Valid()
      ensures backend == Unconfigured ==> r == Failure(MissingUrl)
      ensures backend == InMemory ==> r.Success? && NewestFirst(r.value) && multiset(r.value) == multiset(rows)
    {
      if backend == Unconfigured {
        return Failure(MissingUrl);
      }
      r := Success(SortNewestFirst(rows));
    }

    /** `SELECT * FROM links WHERE target_url = target`. */
    method SelectByTarget(target: string) returns (r: Result<seq<Row>, DbError>)
      requires Valid()
      ensures backend == Unconfigured ==> r == Failure(MissingUrl)
      ensures backend == InMemory ==> r == Success(WithTarget(rows, target))
      ensures r.Success? ==> forall x | x in r.value :: x in rows && x.targetUrl == target
      ensures r.Success? ==> forall x | x in rows && x.targetUrl == target :: x in r.value
      ensures r.Success? ==> Seqs.IsSubsequence(r.value, rows)
    {
      if backend == Unconfigured {
        return Failure(MissingUrl);
      }
      Seqs.FilterIsSubsequence(rows, (x: Row) => x.targetUrl == target);
      r := Success(WithTarget(rows, target));
    }

    /** `SELECT * FROM links WHERE code = code`: the row with that code, or none. */
    method SelectByCode(code: string) returns (r: Result<seq<Row>, DbError>)
      requires Valid()
      ensures backend == Unconfigured ==> r == Failure(MissingUrl)
      ensures backend == InMemory ==> r == Success(WithCode(rows, code))
      ensures r.Success? ==> match FindIndex(rows, code)
                             case None => r.value == []
                             case Some(i) => r.value == [rows[i]]
    {
      if backend == Unconfigured {
        return Failure(MissingUrl);
      }
      WithCodeIsLookup(rows, code);
      r := Success(WithCode(rows, code));
    }

    /** `INSERT INTO links (code, target_url) VALUES (code, targetUrl) RETURNING *`, at time `now`. */
    method Insert(code: string, targetUrl: string, now: string) returns (r: Result<Row, DbError>)
      requires Valid()
      modifies this
      ensures Valid()
      ensures backend == Unconfigured ==> r == Failure(MissingUrl) && rows == old(rows)
      ensures backend == InMemory && HasCode(old(rows), code) ==> r == Failure(DuplicateKey) && rows == old(rows)
      ensures backend == InMemory && !HasCode(old(rows), code) ==>
                var row := Row(code, targetUrl, 0, now, None);
                r == Success(row) && rows == old(rows) + [row]
    {
      if backend == Unconfigured {
        return Failure(MissingUrl);
      }
      if FindIndex(rows, code).Some? {
        return Failure(DuplicateKey);
      }
      var row := Row(code, targetUrl, 0, now, None);
      rows := rows + [row];
      r := Success(row);
    }

    /** `DELETE FROM links WHERE code = code`: returns no rows, whether or not the code was there. */
    method DeleteByCode(code: string) returns (r: Result<seq<Row>, DbError>)
      requires Valid()
      modifies this
      ensures Valid()
      ensures backend == Unconfigured ==> r == Failure(MissingUrl) && rows == old(rows)
      ensures backend == InMemory ==> r == Success([]) && rows == WithoutCode(old(rows), code)
    {
      if backend == Unconfigured {
        return Failure(MissingUrl);
      }
      WithoutCodeKeepsOthers(rows, code);
      var index := FindIndex(rows, code);
      if index.Some? {
        rows := rows[..index.value] + rows[index.value + 1..];
      }
      r := Success([]);
    }
  }

  // --------------------------------------------------------- ensureSchema

  /** The result of the CREATE TABLE statement, or the message it failed with. */
  type Outcome = Result<(), string>

  /** `ensureSchema` and the `schemaReady` promise it memoises. */
  class SchemaGuard {
    const url: Option<string>
    /** `schemaReady`: `None` until the first configured call, then the settled CREATE TABLE outcome. */
    var schemaReady: Option<Outcome>
    /** How many CREATE TABLE statements have been issued. */
    ghost var creations: nat

    ghost predicate Valid()
      reads this
    {
      creations == if schemaReady.Some? then 1 else 0
    }

    constructor (url: Option<string>)
      ensures Valid() && this.url == url && schemaReady == None
    {
      this.url := url;
      schemaReady := None;
      creations := 0;
    }

    /**
     * `ensureSchema()`: fails at once without a database URL; otherwise runs
     * CREATE TABLE on the first call only (`create` is what that statement
     * would yield) and hands every later call the same outcome.
     */
    method EnsureSchema(create: Outcome) returns (r: Outcome)
      requires Valid()
      modifies this
      ensures Valid() && creations <= 1
      ensures !Configured(url) ==> r == Failure(MissingUrl.message) && schemaReady == old(schemaReady)
      ensures Configured(url) && old(schemaReady) == None ==> schemaReady == Some(create) && r == create
      ensures Configured(url) && old(schemaReady) != None ==> schemaReady == old(schemaReady) && r == schemaReady.value
      ensures old(schemaReady) != None ==> creations == old(creations)
    {
      if !Configured(url) {
        return Failure(MissingUrl.message);
      }
      if schemaReady == None {
        schemaReady := Some(create);
        creations := creations + 1;
      }
      r := schemaReady.value;
    }
  }
}
