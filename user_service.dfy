/**
 * The user registry service: listing users, looking one up by id, and
 * registering a new user with check-then-insert duplicate detection.
 */
module UserService {
  import opened Wrappers
  import opened Models
  import opened UserSerializer

  const BadRequest: int := 400
  const NotFound: int := 404
  const InternalServerError: int := 500

  /** What an error is about; the message text is not modelled. */
  datatype ErrorKind =
    | EmailAlreadyRegistered
    | UsernameAlreadyRegistered
    | UserNotFound
    | NoUsersFound
      /** "An error occurred while fetching the user", carrying the caught exception. */
    | FetchFailed(cause: HttpError)
      /** "An error occurred while creating the user": an exception other than an HTTP one. */
    | CreateFailed

  /** An HTTP exception: a status code and what it reports. */
  datatype HttpError = HttpError(status: int, kind: ErrorKind)

  /**
   * The lookups' generic `except Exception` handler: whatever was raised inside
   * `try`, including an HTTP exception, resurfaces as a 500 wrapping it.
   */
  function CatchAsFetchError(e: HttpError): HttpError
  {
    HttpError(InternalServerError, FetchFailed(e))
  }

  // ---------------------------------------------------------------------------
  // The password hasher

  /**
   * The bcrypt context, left abstract: a hash function and its verifier.
   * `hash` yields nothing where the hasher raises (bcrypt refuses a password
   * containing a NUL character). The salt drawn by each call is part of the
   * context that call is given.
   */
  datatype CryptContext = CryptContext(hash: string -> Option<string>, verify: (string, string) -> bool)

  function HashPassword(ctx: CryptContext, password: string): Option<string>
  {
    ctx.hash(password)
  }

  function VerifyPassword(ctx: CryptContext, plain: string, hashed: string): bool
  {
    ctx.verify(plain, hashed)
  }

  /** What bcrypt promises: a password verifies against its own hash. */
  ghost predicate VerifiesOwnHash(ctx: CryptContext)
  {
    forall p :: ctx.hash(p).Some? ==> ctx.verify(p, ctx.hash(p).value)
  }

  /** An assumption about the hasher: a hash never equals the password it was made from. */
  ghost predicate NeverPlaintext(ctx: CryptContext)
  {
    forall p :: ctx.hash(p).Some? ==> ctx.hash(p).value != p
  }

  /** What bcrypt does with a password containing a NUL character: it raises. */
  ghost predicate RejectsNul(ctx: CryptContext)
  {
    forall p :: '\0' in p ==> ctx.hash(p).None?
  }

  // ---------------------------------------------------------------------------
  // Queries over the table

  /** A `WHERE` condition on one of the unique columns. */
  datatype Criterion = IdIs(id: int) | UsernameIs(username: string) | EmailIs(email: string)

  predicate Matches(u: DBUser, c: Criterion)
  {
    match c
    case IdIs(id) => u.id == id
    case UsernameIs(name) => u.username == name
    case EmailIs(email) => u.email == email
  }

  /** Some row of the table satisfies the condition. */
  predicate Exists(rows: seq<DBUser>, c: Criterion)
  {
    exists i :: 0 <= i < |rows| && Matches(rows[i], c)
  }

  /** `select(DBUser).filter(c)`: the matching rows, in table order. */
  function Select(rows: seq<DBUser>, c: Criterion): (r: seq<DBUser>)
    ensures |r| <= |rows|
    ensures forall u :: u in r ==> u in rows && Matches(u, c)
    ensures forall i :: 0 <= i < |rows| && Matches(rows[i], c) ==> rows[i] in r
  {
    if rows == [] then []
    else if Matches(rows[0], c) then [rows[0]] + Select(rows[1..], c)
    else Select(rows[1..], c)
  }

  /** `.scalars().first()`: the first row of a result, or nothing. */
  function First(r: seq<DBUser>): Option<DBUser>
  {
    if r == [] then None else Some(r[0])
  }

  /** A query's first row exists exactly when some row matches, and it is a matching row of the table. */
  lemma FirstOfSelect(rows: seq<DBUser>, c: Criterion)
    ensures First(Select(rows, c)).Some? <==> Exists(rows, c)
    ensures First(Select(rows, c)).Some? ==>
      First(Select(rows, c)).value in rows && Matches(First(Select(rows, c)).value, c)
  {
  }

  /** A filter that no row satisfies yields no rows. */
  lemma NoMatchSelectsNothing(rows: seq<DBUser>, c: Criterion)
    requires forall k :: 0 <= k < |rows| ==> !Matches(rows[k], c)
    ensures Select(rows, c) == []
  {
  }

  /** On a table unique in id, username and e-mail, a filter on one of them yields at most one row. */
  lemma {:induction false} SelectAtMostOne(rows: seq<DBUser>, c: Criterion)
    requires UniqueColumns(rows)
    ensures |Select(rows, c)| <= 1
  {
    if rows != [] {
      var tail := rows[1..];
      assert UniqueColumns(tail) by {
        forall i, j | 0 <= i < j < |tail|
          ensures tail[i].id != tail[j].id && tail[i].username != tail[j].username && tail[i].email != tail[j].email
        {
          assert tail[i] == rows[i + 1] && tail[j] == rows[j + 1];
        }
      }
      SelectAtMostOne(tail, c);
      if Matches(rows[0], c) {
        // No later row can share rows[0]'s value in a unique column.
        forall k | 0 <= k < |tail| ensures !Matches(tail[k], c) {
          assert tail[k] == rows[k + 1];
        }
        NoMatchSelectsNothing(tail, c);
      }
    }
  }

  // ---------------------------------------------------------------------------
  // get_all_users and get_user_by_id

  /**
   * `get_all_users`: every row when the table is non-empty. On an empty table
   * the 404 "No users found" is caught and the caller sees a 500.
   */
  function GetAllUsers(rows: seq<DBUser>): (r: Result<seq<DBUser>, HttpError>)
    ensures r.Success? <==> |rows| > 0
    ensures r.Success? ==> forall u :: u in rows <==> u in r.value
    ensures r.Success? ==> |r.value| == |rows|
    ensures r.Failure? ==>
      r.error == HttpError(InternalServerError, FetchFailed(HttpError(NotFound, NoUsersFound)))
  {
    if |rows| > 0 then Success(rows)
    else Failure(CatchAsFetchError(HttpError(NotFound, NoUsersFound)))
  }

  /**
   * `get_user_by_id`: the row with that id when there is one. Otherwise the
   * 404 "User not found" is caught and the caller sees a 500.
   */
  function GetUserById(rows: seq<DBUser>, userId: int): (r: Result<DBUser, HttpError>)
    ensures r.Success? <==> Exists(rows, IdIs(userId))
    ensures r.Success? ==> r.value in rows && r.value.id == userId
    ensures r.Failure? ==>
      r.error == HttpError(InternalServerError, FetchFailed(HttpError(NotFound, UserNotFound)))
  {
    FirstOfSelect(rows, IdIs(userId));
    var found := First(Select(rows, IdIs(userId)));
    if found.Some? then Success(found.value)
    else Failure(CatchAsFetchError(HttpError(NotFound, UserNotFound)))
  }

  /** On a table with unique ids, the lookup returns exactly the row carrying the id. */
  lemma GetUserByIdFindsRow(rows: seq<DBUser>, i: nat)
    requires UniqueColumns(rows) && i < |rows|
    ensures GetUserById(rows, rows[i].id) == Success(rows[i])
  {
  }

  /** Neither lookup ever lets its 404 reach the caller: every failure is a 500. */
  lemma LookupsNeverReportNotFound(rows: seq<DBUser>, userId: int)
    ensures GetAllUsers(rows).Failure? ==> GetAllUsers(rows).error.status == InternalServerError
    ensures GetUserById(rows, userId).Failure? ==> GetUserById(rows, userId).error.status == InternalServerError
  {
  }

  // ---------------------------------------------------------------------------
  // create_user

  /**
   * The table's contents together with the id sequence behind the
   * autoincrementing primary key: the next insert receives `nextId`.
   */
  datatype Table = Table(rows: seq<DBUser>, nextId: int)

  /**
   * The table invariant: the unique columns and the bio bound the schema
   * declares, and every id below the sequence, which registration keeps.
   */
  predicate TableInvariant(t: Table)
  {
    UniqueColumns(t.rows) &&
    (forall i :: 0 <= i < |t.rows| ==> WellFormed(t.rows[i]) && t.rows[i].id < t.nextId)
  }

  /** The table PostgreSQL starts with: no rows, and the sequence at 1. */
  const EmptyTable: Table := Table([], 1)

  /**
   * `create_user`: the e-mail is checked before the username, and either
   * duplicate raises a 400 that is re-raised unchanged. Otherwise the password
   * is hashed; if the hasher raises, the generic handler turns it into a 500
   * before anything is added. Otherwise one row is appended, built from the
   * request with the hashed password and the column defaults, and the
   * sequence advances.
   */
  function Create(t: Table, req: UserCreate, ctx: CryptContext, now: int): (r: (Result<DBUser, HttpError>, Table))
    ensures r.0.Failure? <==>
      Exists(t.rows, EmailIs(req.email)) || Exists(t.rows, UsernameIs(req.username)) ||
      ctx.hash(req.password).None?
    ensures Exists(t.rows, EmailIs(req.email)) ==>
      r.0 == Failure(HttpError(BadRequest, EmailAlreadyRegistered))
    ensures !Exists(t.rows, EmailIs(req.email)) && Exists(t.rows, UsernameIs(req.username)) ==>
      r.0 == Failure(HttpError(BadRequest, UsernameAlreadyRegistered))
    ensures (!Exists(t.rows, EmailIs(req.email)) && !Exists(t.rows, UsernameIs(req.username)) &&
             ctx.hash(req.password).None?) ==>
      r.0 == Failure(HttpError(InternalServerError, CreateFailed))
    ensures r.0.Failure? ==> r.1 == t
    ensures r.0.Success? ==> r.1 == Table(t.rows + [r.0.value], t.nextId + 1)
  {
    FirstOfSelect(t.rows, EmailIs(req.email));
    FirstOfSelect(t.rows, UsernameIs(req.username));
    var emailMatch := First(Select(t.rows, EmailIs(req.email)));
    var usernameMatch := First(Select(t.rows, UsernameIs(req.username)));
    if emailMatch.Some? then
      (Failure(HttpError(BadRequest, EmailAlreadyRegistered)), t)
    else if usernameMatch.Some? then
      (Failure(HttpError(BadRequest, UsernameAlreadyRegistered)), t)
    else
      var hashed := HashPassword(ctx, req.password);
      if hashed.None? then
        (Failure(HttpError(InternalServerError, CreateFailed)), t)
      else
        var newUser := NewUser(t.nextId, req.username, req.email, hashed.value, now);
        (Success(newUser), Table(t.rows + [newUser], t.nextId + 1))
  }

  /**
   * A successful registration stores the request's username and e-mail, the
   * hash of its password, the next id, and the defaults of every other column.
   */
  lemma CreatedRow(t: Table, req: UserCreate, ctx: CryptContext, now: int)
    requires Create(t, req, ctx, now).0.Success?
    ensures var u := Create(t, req, ctx, now).0.value;
      u.id == t.nextId && u.username == req.username && u.email == req.email &&
      ctx.hash(req.password) == Some(u.password) &&
      u.role == User && RoleValue(u.role) == "user" && u.profilePicture == "default.jpg" &&
      !u.isVerified && u.bio == None && u.phoneNumber == None && u.createdAt == now
  {
  }

  /**
   * A failure of `create_user` is a 400 exactly when it reports a duplicate,
   * re-raised untouched by the handler, and a 500 exactly when the hasher raised.
   */
  lemma CreateFailureStatus(t: Table, req: UserCreate, ctx: CryptContext, now: int)
    requires Create(t, req, ctx, now).0.Failure?
    ensures var e := Create(t, req, ctx, now).0.error;
      (e.status == BadRequest && e.kind in {EmailAlreadyRegistered, UsernameAlreadyRegistered}) ||
      e == HttpError(InternalServerError, CreateFailed)
    ensures Create(t, req, ctx, now).0.error.status == BadRequest <==>
      Exists(t.rows, EmailIs(req.email)) || Exists(t.rows, UsernameIs(req.username))
  {
  }

  /**
   * A password of eight characters ending in NUL passes `UserCreate`'s
   * constraints, yet a hasher that refuses NUL makes registration on an empty
   * table fail with the 500 of the generic handler.
   */
  lemma NulPasswordReachesServerError(ctx: CryptContext, emailCheck: string -> Option<string>, now: int)
    requires RejectsNul(ctx)
    requires emailCheck("a@b.c") == Some("a@b.c")
    ensures var form := RegistrationForm("alice", "a@b.c", "abcdefg\0", "abcdefg\0");
      Validate(form, emailCheck).Success? &&
      Create(EmptyTable, Validate(form, emailCheck).value, ctx, now) ==
        (Failure(HttpError(InternalServerError, CreateFailed)), EmptyTable)
  {
    var pw := "abcdefg\0";
    assert pw[7] == '\0';
    assert ctx.hash(pw).None?;
  }

  /** When both the e-mail and the username are taken, the e-mail error is the one reported. */
  lemma EmailCheckedFirst(t: Table, req: UserCreate, ctx: CryptContext, now: int)
    requires Exists(t.rows, EmailIs(req.email)) && Exists(t.rows, UsernameIs(req.username))
    ensures Create(t, req, ctx, now) == (Failure(HttpError(BadRequest, EmailAlreadyRegistered)), t)
  {
  }

  /** A successful registration keeps every earlier row in place and unchanged. */
  lemma CreateKeepsExistingRows(t: Table, req: UserCreate, ctx: CryptContext, now: int)
    ensures var t' := Create(t, req, ctx, now).1;
      |t'.rows| >= |t.rows| && t'.rows[..|t.rows|] == t.rows &&
      |t'.rows| <= |t.rows| + 1
  {
  }

  /** The table invariant survives registration, whatever its outcome. */
  lemma CreatePreservesInvariant(t: Table, req: UserCreate, ctx: CryptContext, now: int)
    requires TableInvariant(t)
    ensures TableInvariant(Create(t, req, ctx, now).1)
  {
  }

  /** Under a hasher that never returns its input, the stored password is never the submitted one. */
  lemma CreateNeverStoresPlaintext(t: Table, req: UserCreate, ctx: CryptContext, now: int)
    requires NeverPlaintext(ctx)
    requires Create(t, req, ctx, now).0.Success?
    ensures Create(t, req, ctx, now).0.value.password != req.password
  {
  }

  /** Under a hasher whose verifier accepts its own hashes, the submitted password verifies against the stored one. */
  lemma CreatedPasswordVerifies(t: Table, req: UserCreate, ctx: CryptContext, now: int)
    requires VerifiesOwnHash(ctx)
    requires Create(t, req, ctx, now).0.Success?
    ensures VerifyPassword(ctx, req.password, Create(t, req, ctx, now).0.value.password)
  {
  }

  /** Registering the same request twice fails the second time with the e-mail error. */
  lemma SecondRegistrationFails(t: Table, req: UserCreate, ctx: CryptContext, now: int, later: int)
    requires Create(t, req, ctx, now).0.Success?
    ensures var t' := Create(t, req, ctx, now).1;
      Create(t', req, ctx, later) == (Failure(HttpError(BadRequest, EmailAlreadyRegistered)), t')
  {
    var t' := Create(t, req, ctx, now).1;
    assert Matches(t'.rows[|t.rows|], EmailIs(req.email));
  }

  // ---------------------------------------------------------------------------
  // The table as the service sees it

  /** The `users` table, updated in place by registration. */
  class UserTable {
    var rows: seq<DBUser>
    var nextId: int

    function State(): Table
      reads this
    {
      Table(rows, nextId)
    }

    predicate Valid()
      reads this
    {
      TableInvariant(State())
    }

    constructor ()
      ensures Valid() && State() == EmptyTable
    {
      rows := [];
      nextId := 1;
    }

    /**
     * `create_user` against this table: look up the e-mail and the username,
     * report a duplicate, hash the password (a hasher exception becomes a
     * 500), or insert the new row; `commit` and `refresh` add
     * nothing observable.
     */
    method CreateUser(req: UserCreate, ctx: CryptContext, now: int) returns (r: Result<DBUser, HttpError>)
      requires Valid()
      modifies this
      ensures Valid()
      ensures (r, State()) == Create(old(State()), req, ctx, now)
    {
      CreatePreservesInvariant(State(), req, ctx, now);
      FirstOfSelect(rows, EmailIs(req.email));
      FirstOfSelect(rows, UsernameIs(req.username));
      var emailMatch := First(Select(rows, EmailIs(req.email)));
      var usernameMatch := First(Select(rows, UsernameIs(req.username)));
      if emailMatch.Some? {
        return Failure(HttpError(BadRequest, EmailAlreadyRegistered));
      }
      if usernameMatch.Some? {
        return Failure(HttpError(BadRequest, UsernameAlreadyRegistered));
      }
      var hashed := HashPassword(ctx, req.password);
      if hashed.None? {
        return Failure(HttpError(InternalServerError, CreateFailed));
      }
      var newUser := NewUser(nextId, req.username, req.email, hashed.value, now);
      rows := rows + [newUser];
      nextId := nextId + 1;
      r := Success(newUser);
    }
  }
}
