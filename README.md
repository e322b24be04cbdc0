# User registry model

A Dafny model of the user registry at the heart of the e-commerce backend:
the `users` table (`DBUser` and its `Role` enumeration), the `UserCreate`
registration input with its field constraints, and the three service
operations `create_user`, `get_user_by_id` and `get_all_users`.

- `wrappers.dfy` — `Option` and `Result`.
- `models.dfy` (module `Models`) — `Role` and its string values, the `DBUser`
  record with its column defaults, the bio length bound and the uniqueness of
  `id`, `username` and `email`.
- `user_serializer.dfy` (module `UserSerializer`) — `UserCreate` validation:
  a username of 3 to 50 characters matching `^[a-zA-Z0-9_]+$`, an e-mail
  accepted by the e-mail validator, a password of 8 to 128 characters. Each
  constrained string is checked in pydantic's order (minimum length, maximum
  length, pattern), every field is checked, and the errors are listed in field
  order. The `password_confirm` argument the registration mutation passes is
  not a declared field and is ignored.
- `user_service.dfy` (module `UserService`) — the service. The database is an
  in-memory table: a sequence of rows plus the id sequence behind the
  autoincrementing key. `UserTable` is the table updated in place by
  `CreateUser`, which is proved against the pure function `Create`; the
  lookups are functions of the table's rows, as the source passes the session
  in. Queries are `Select` (a `WHERE` filter on one column) followed by
  `First` (`.scalars().first()`).

Errors are an `HttpError(status, kind)`. Duplicate registrations raise 400s
that `create_user`'s handler re-raises unchanged, the e-mail check first. The
lookups raise their 404 inside `try`, where the generic `except Exception`
catches it: the caller sees a 500 whose kind `FetchFailed` wraps the 404.
In `create_user`, an exception raised while hashing the password reaches the
generic handler and becomes a 500 `CreateFailed`, before anything is added.

The bcrypt context is a `CryptContext` holding two function values: `hash`,
which yields the digest or nothing where the hasher raises, and `verify`. The
salt each call draws belongs to the context that call is given, so two
registrations may use different contexts. Three facts about the hasher are
predicates that the lemmas needing them take as hypotheses: bcrypt's promise
that a password verifies against its own hash (`VerifiesOwnHash`), its refusal
of a password containing a NUL character (`RejectsNul`), and the assumption
that a hash never equals its password (`NeverPlaintext`), which bcrypt does
not itself promise. The e-mail
validator is a parameter `emailCheck: string -> Option<string>` that yields
the normalised address or nothing. The creation timestamp is a parameter
`now`.

## Model

| member | source | states |
|---|---|---|
| Models.RoleValueRoundTrip | database/models.py:10-13 | there are exactly three roles, with values "admin", "user", "moderator"; looking a value up succeeds exactly on those three and inverts the member-to-value map |
| Models.NewUser | database/models.py:27-34 | a row built from username, e-mail and password hash carries those three values and the given id, and has role `user`, picture "default.jpg", `is_verified` false, no bio, no phone number and the given creation time, and satisfies the 500-character bio bound |
| UserSerializer.PatternMatchesIff | serializers/user_serializer.py:7 | the anchored pattern `^[a-zA-Z0-9_]+$` matches exactly the non-empty strings whose every character is a letter, digit or underscore |
| UserSerializer.OneBadCharacterRejects | serializers/user_serializer.py:7 | one character outside `[a-zA-Z0-9_]`, at any position, makes the pattern fail |
| UserSerializer.CheckString | serializers/user_serializer.py:7-9 | a constrained string passes iff its length is within bounds and (when a pattern applies) it matches; too short is reported before too long, and both before a pattern mismatch, which is reported exactly when the length is in bounds and the pattern fails |
| UserSerializer.CheckUsername | serializers/user_serializer.py:7 | a username passes iff it has 3 to 50 characters, all from `[a-zA-Z0-9_]` |
| UserSerializer.CheckPassword | serializers/user_serializer.py:9 | a password passes iff it has 8 to 128 characters; no pattern error can arise |
| UserSerializer.Validate | serializers/user_serializer.py:6-9 | `UserCreate` is built iff all three field constraints hold, carrying the username, the normalised e-mail and the password; otherwise the error list is non-empty, ordered by field declaration with at most one entry per field, names exactly the fields that fail, and gives for each the first violation its field check reports |
| UserSerializer.ErrorListShape | serializers/user_serializer.py:6-9 | the combined error list of the three fields is non-empty when one fails, ordered by field, and holds exactly each failing field's violation |
| UserSerializer.ValidateIgnoresPasswordConfirm | serializers/user_serializer.py:6-9 | the extra `password_confirm` argument never changes the outcome of validation, since no declared field or validator reads it |
| UserService.Select | services/user_service.py:52-58 | a filtered query returns only rows of the table that satisfy the condition, and every such row |
| UserService.FirstOfSelect | services/user_service.py:28-29 | the first row of a filtered query exists exactly when some row satisfies the condition, and is a matching row of the table |
| UserService.SelectAtMostOne | database/models.py:19-30 | on a table unique in `id`, `username` and `email`, a filter on any of them yields at most one row |
| UserService.GetAllUsers | services/user_service.py:9-20 | succeeds iff the table is non-empty, returning all its rows; on an empty table the 404 "No users found" is caught and surfaces as a 500 wrapping it |
| UserService.GetUserById | services/user_service.py:23-36 | succeeds iff some row has the id, returning such a row; otherwise the 404 "User not found" is caught and surfaces as a 500 wrapping it |
| UserService.GetUserByIdFindsRow | services/user_service.py:25-30 | on a table with unique ids the lookup returns exactly the row carrying the id |
| UserService.LookupsNeverReportNotFound | services/user_service.py:9-36 | neither lookup can fail with a 404: every failure the caller sees is a 500 |
| UserService.Create | services/user_service.py:50-82 | registration fails iff the e-mail or the username is already taken or the hasher raises; a taken e-mail gives 400 "Email already registered", otherwise a taken username gives 400 "Username already registered", otherwise a hasher exception gives the 500 "An error occurred while creating the user"; a failure leaves the table unchanged; a success appends exactly the returned row and advances the id sequence |
| UserService.CreatedRow | services/user_service.py:66-74 | the new row carries the next id, the request's username and e-mail, the hash of its password, role `user`, picture "default.jpg", `is_verified` false, no bio, no phone number and the creation time |
| UserService.CreateFailureStatus | services/user_service.py:61-82 | every failure of registration is either a 400 for a duplicate e-mail or username, re-raised unchanged by the handler, or the generic 500; it is a 400 exactly when a duplicate exists |
| UserService.NulPasswordReachesServerError | services/user_service.py:66-82 | a password of eight characters ending in NUL passes `UserCreate`'s constraints, yet with a hasher that refuses NUL, registration on an empty table fails with the generic 500 and adds nothing |
| UserService.EmailCheckedFirst | services/user_service.py:61-64 | when both the e-mail and the username are taken, the e-mail error is reported and the table is unchanged |
| UserService.CreateKeepsExistingRows | services/user_service.py:66-73 | registration keeps every earlier row in place and unchanged and adds at most one row |
| UserService.CreatePreservesInvariant | services/user_service.py:52-74 | a table unique in id, username and e-mail, with bounded bios and ids below the sequence, stays so after registration |
| UserService.CreateNeverStoresPlaintext | services/user_service.py:66-70 | with a hasher that never returns its input, the stored password differs from the submitted one |
| UserService.CreatedPasswordVerifies | services/user_service.py:42-47 | with a hasher whose verifier accepts its own hashes, the submitted password verifies against the stored hash |
| UserService.SecondRegistrationFails | services/user_service.py:52-62 | after a successful registration, the same request fails with 400 "Email already registered" and changes nothing |
| UserService.UserTable.constructor | database/models.py:19-26 | the table starts empty with the id sequence at 1, and satisfies the table invariant |
| UserService.UserTable.CreateUser | services/user_service.py:50-74 | the in-place registration returns what `Create` returns and leaves the table in the state `Create` gives, keeping the table invariant |

## Left out

- Password hashing: bcrypt itself is not modelled; `hash_password` and `verify_password` apply the abstract functions of a `CryptContext`, and its properties (verifying its own hashes, refusing NUL, never returning the input) are hypotheses of the lemmas that use them, not facts. The per-call salt is not a separate input: it is folded into the context each call receives.
- E-mail format: the e-mail validator is a parameter; its rules and its normalisation are not modelled.
- Database failures: an exception raised by the store during a query, `commit` or `refresh` (which every operation turns into a 500) is not modelled; the store never fails here, and `commit`/`refresh` add nothing observable.
- Concurrency: the check-then-insert race between two simultaneous registrations is not modelled; the model is sequential.
- Row order: rows are kept in insertion order and `.first()` takes the first match, where the database promises no order; on a table with unique columns at most one row matches, so the lookups' result does not depend on it.
- Integer width: ids are unbounded; the overflow of the 32-bit `Integer` key sequence is not modelled.
- Message texts: errors carry a status and a kind, not the `detail` string built with `str(exc)`.
- Creation time: `datetime.utcnow()` is the parameter `now`.
- The schema migration (which declares `phone_number` non-nullable while the model declares it nullable), admin registration, routing, the query-language wiring (`map_user`, `created_at` formatting), and the product catalogue are not part of this model.
