/**
 * The `/api/link` route handlers: `POST` creates a link, `GET` lists them.
 * Both run against the `db` binding of the store module; the request body's
 * `targetUrl` and `code` arrive as arguments, the URL parser, the random
 * draws and the clock as parameters.
 */
module LinkRoute {
  import opened Wrappers
  import opened Text
  import opened Shortener
  import opened Db

  /** The JSON responses `POST` returns. */
  datatype PostResponse =
    | Created(row: Row)                     // 200, the inserted row
    | InvalidUrl                            // 400
    | InvalidCustomCode                     // 400
    | AlreadyShortened(existingCode: string) // 409, with the code already pointing at the target
    | CodeExists                            // 409
    | DatabaseError                         // 500

  /** The HTTP status of the response. */
  function Status(r: PostResponse): int
  {
    match r
    case Created(_) => 200
    case InvalidUrl | InvalidCustomCode => 400
    case AlreadyShortened(_) | CodeExists => 409
    case DatabaseError => 500
  }

  /** The `error` field of the response body. */
  function ErrorMessage(r: PostResponse): Option<string>
  {
    match r
    case Created(_) => None
    case InvalidUrl => Some("Invalid URL")
    case InvalidCustomCode => Some("Invalid custom code. Use 3\U{2013}10 chars: letters, numbers, - or _")
    case AlreadyShortened(_) => Some("URL already shortened")
    case CodeExists => Some("Code already exists")
    case DatabaseError => Some("Database error")
  }

  /** Only a created link is answered with 200, and only its body has no `error` field. */
  lemma OnlyCreationSucceeds()
    ensures forall r: PostResponse :: Status(r) == 200 <==> r.Created?
    ensures forall r: PostResponse :: ErrorMessage(r).None? <==> r.Created?
  {
  }

  /** `code && code.trim() !== ""`: the body carries a custom code that is not blank. */
  predicate HasCustomCode(code: Option<string>)
  {
    code.Some? && code.value != "" && Trim(code.value) != ""
  }

  /** `shortCode`: the trimmed custom code if there is one, else a fresh six-character code. */
  function ChosenCode(code: Option<string>, rand: nat -> Unit): string
  {
    if HasCustomCode(code) then Trim(code.value) else GenerateCode(DefaultCodeLength, rand)
  }

  /** `code && !isValidCode(shortCode)`: the check that turns a request away with 400. */
  predicate RejectsCustomCode(code: Option<string>, rand: nat -> Unit)
  {
    code.Some? && code.value != "" && !IsValidCode(Some(ChosenCode(code, rand)))
  }

  /**
   * The handler rejects exactly the non-blank custom codes that fail
   * `isValidCode`; a blank one is replaced by a generated code and passes.
   */
  lemma RejectsCustomCodeIff(code: Option<string>, rand: nat -> Unit)
    ensures RejectsCustomCode(code, rand) <==> HasCustomCode(code) && !IsValidCode(code)
  {
    if code.Some? && code.value != "" {
      if HasCustomCode(code) {
        IsValidCodeIgnoresWhitespace(code.value);
      } else {
        DefaultCodeIsValid(rand);
      }
    }
  }

  /** Whatever code the handler goes on to insert passes `isValidCode`. */
  lemma ChosenCodeIsValid(code: Option<string>, rand: nat -> Unit)
    requires !RejectsCustomCode(code, rand)
    ensures IsValidCode(Some(ChosenCode(code, rand)))
  {
    if !HasCustomCode(code) {
      DefaultCodeIsValid(rand);
    }
  }

  /** The `catch` block: a message mentioning "duplicate key" is a 409, anything else a 500. */
  function CaughtResponse(e: DbError): PostResponse
  {
    if Contains(e.message, "duplicate key") then CodeExists else DatabaseError
  }

  /** The store's duplicate-key error maps to 409 and its missing-URL error to 500. */
  lemma CaughtResponses()
    ensures CaughtResponse(DuplicateKey) == CodeExists
    ensures CaughtResponse(MissingUrl) == DatabaseError
  {
    DuplicateKeyIsCaught();
    MissingUrlIsNotCaught();
  }

  lemma DuplicateKeyIsCaught()
    ensures Contains(DuplicateKey.message, "duplicate key")
  {
    assert "duplicate key" <= DuplicateKey.message;
  }

  lemma MissingUrlIsNotCaught()
    ensures !Contains(MissingUrl.message, "duplicate key")
  {
    var message := MissingUrl.message;
    MissingUrlLacksLowerD();
    NotContainsWithoutFirstChar(message, "duplicate key");
  }

  /** The missing-URL message has no lower-case `d`, the first letter of "duplicate key". */
  lemma MissingUrlLacksLowerD()
    ensures 'd' !in MissingUrl.message
  {
    assert 'd' !in "DATABASE_URL is ";
    assert 'd' !in "missing. Set it";
    assert 'd' !in " in .env to use the API.";
  }

  /** Appending a row whose target no row has keeps one row per target. */
  lemma AppendNewTarget(rows: seq<Row>, row: Row)
    requires OneRowPerTarget(rows)
    requires forall x | x in rows :: x.targetUrl != row.targetUrl
    ensures OneRowPerTarget(rows + [row])
  {
    forall i, j | 0 <= i < j < |rows + [row]|
      ensures (rows + [row])[i].targetUrl != (rows + [row])[j].targetUrl
    {
      if j == |rows| {
        assert (rows + [row])[i] in rows;
      }
    }
  }

  /**
   * `POST /api/link` with body `{targetUrl, code}`: validate the URL, choose
   * and validate the code, refuse a target that already has a link, insert.
   */
  method Post(db: LinkDb, targetUrl: string, code: Option<string>,
              parse: string -> Option<string>, rand: nat -> Unit, now: string)
    returns (resp: PostResponse)
    requires db.Valid()
    modifies db
    ensures db.Valid()
    ensures !resp.Created? ==> db.rows == old(db.rows)
    ensures OneRowPerTarget(old(db.rows)) ==> OneRowPerTarget(db.rows)
    ensures !IsValidUrl(targetUrl, parse) ==> resp == InvalidUrl
    ensures IsValidUrl(targetUrl, parse) && HasCustomCode(code) && !IsValidCode(code) ==> resp == InvalidCustomCode
    ensures IsValidUrl(targetUrl, parse) && !RejectsCustomCode(code, rand) && db.backend == Unconfigured ==>
              resp == DatabaseError
    ensures IsValidUrl(targetUrl, parse) && !RejectsCustomCode(code, rand) && db.backend == InMemory ==>
              var existing := WithTarget(old(db.rows), targetUrl);
              var shortCode := ChosenCode(code, rand);
              if existing != [] then resp == AlreadyShortened(existing[0].code)
              else if HasCode(old(db.rows), shortCode) then resp == CodeExists
              else resp == Created(Row(shortCode, targetUrl, 0, now, None)) && db.rows == old(db.rows) + [resp.row]
    ensures resp.Created? ==> IsValidCode(Some(resp.row.code)) && resp.row.targetUrl == targetUrl && resp.row.clicks == 0
  {
    if !IsValidUrl(targetUrl, parse) {
      return InvalidUrl;
    }
    var shortCode := ChosenCode(code, rand);
    RejectsCustomCodeIff(code, rand);
    if code.Some? && code.value != "" && !IsValidCode(Some(shortCode)) {
      return InvalidCustomCode;
    }
    ChosenCodeIsValid(code, rand);
    CaughtResponses();
    var existing := db.SelectByTarget(targetUrl);
    if existing.Failure? {
      return CaughtResponse(existing.error);
    }
    if |existing.value| > 0 {
      return AlreadyShortened(existing.value[0].code);
    }
    ghost var before := db.rows;
    var inserted := db.Insert(shortCode, targetUrl, now);
    if inserted.Failure? {
      return CaughtResponse(inserted.error);
    }
    if OneRowPerTarget(before) {
      AppendNewTarget(before, inserted.value);
    }
    resp := Created(inserted.value);
  }

  /** The response of `GET /api/link`: the rows, or the error thrown out of the handler (a 500). */
  datatype GetResponse = Links(links: seq<Row>) | Unhandled(error: DbError)

  /** `GET /api/link`: every link, newest first. */
  method Get(db: LinkDb) returns (resp: GetResponse)
    requires db.Valid()
    ensures db.backend == InMemory ==>
              resp.Links? && NewestFirst(resp.links) && multiset(resp.links) == multiset(db.rows)
    ensures db.backend == Unconfigured ==> resp == Unhandled(MissingUrl)
  {
    var links := db.SelectAll();
    match links
    case Success(rows) => resp := Links(rows);
    case Failure(e) => resp := Unhandled(e);
  }
}
