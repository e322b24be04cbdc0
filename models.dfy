/**
 * The `users` table: the `Role` enumeration and the `DBUser` record with its
 * column defaults, nullability, length bound and uniqueness constraints.
 */
module Models {
  import opened Wrappers

  /** The three roles a user may have; the database stores each by its name, which equals its value. */
  datatype Role = Admin | User | Moderator

  /** The string value of each enumeration member. */
  function RoleValue(r: Role): string
  {
    match r
    case Admin => "admin"
    case User => "user"
    case Moderator => "moderator"
  }

  /** Looks an enumeration member up by its value, as `Role(value)` does. */
  function RoleFromValue(s: string): Option<Role>
  {
    if s == "admin" then Some(Admin)
    else if s == "user" then Some(User)
    else if s == "moderator" then Some(Moderator)
    else None
  }

  /** Value lookup succeeds exactly on the three member values and inverts RoleValue. */
  lemma RoleValueRoundTrip(r: Role, s: string)
    ensures RoleFromValue(RoleValue(r)) == Some(r)
    ensures RoleFromValue(s) == Some(r) <==> s == RoleValue(r)
    ensures RoleFromValue(s).Some? <==> s in {"admin", "user", "moderator"}
  {
  }

  const BioMaxLength: nat := 500
  const DefaultProfilePicture: string := "default.jpg"
  const DefaultRole: Role := User
  const DefaultIsVerified: bool := false

  /**
   * One row of `users`. Non-nullable columns are plain values; the nullable
   * `bio` and `phone_number` are options. `createdAt` is a UTC timestamp.
   */
  datatype DBUser = DBUser(
    id: int,
    username: string,
    bio: Option<string>,
    password: string,
    email: string,
    profilePicture: string,
    role: Role,
    phoneNumber: Option<string>,
    isVerified: bool,
    createdAt: int)

  /** The column constraint on a single row: `bio` holds at most 500 characters. */
  predicate WellFormed(u: DBUser)
  {
    u.bio.Some? ==> |u.bio.value| <= BioMaxLength
  }

  /** `id`, `username` and `email` are each unique across the table. */
  predicate UniqueColumns(rows: seq<DBUser>)
  {
    forall i, j :: 0 <= i < j < |rows| ==>
      rows[i].id != rows[j].id &&
      rows[i].username != rows[j].username &&
      rows[i].email != rows[j].email
  }

  /**
   * The row the database holds after inserting a user built from a username,
   * an e-mail and a password hash only: every other column takes its default.
   */
  function NewUser(id: int, username: string, email: string, passwordHash: string, now: int): (u: DBUser)
    ensures WellFormed(u)
    ensures u.id == id && u.username == username && u.email == email && u.password == passwordHash
    ensures u.role == User && u.profilePicture == "default.jpg" && !u.isVerified
    ensures u.bio == None && u.phoneNumber == None && u.createdAt == now
  {
    DBUser(id, username, None, passwordHash, email, DefaultProfilePicture,
           DefaultRole, None, DefaultIsVerified, now)
  }
}
