/** The `User` entity: a row of the `users` table, its field constraints, the builder
    default of its active flag, and its create/update timestamp hooks. Timestamps are
    readings of an abstract clock. */
module UserModel {
  import opened Constraints
  import Email

  /** The active flag is stored as a one-character string. */
  const ACTIVE: string := "Y"
  const INACTIVE: string := "N"

  datatype User = User(
    userId: int,
    username: string,
    fullName: string,
    email: string,
    isActive: string,
    createdAt: int,
    updatedAt: int)

  /** The builder: every field given, except that `isActive` takes its default. */
  function Build(userId: int, username: string, fullName: string, email: string, createdAt: int, updatedAt: int): (u: User)
    ensures u.isActive == ACTIVE
    ensures u.userId == userId && u.username == username && u.fullName == fullName && u.email == email
    ensures u.createdAt == createdAt && u.updatedAt == updatedAt
  {
    User(userId, username, fullName, email, ACTIVE, createdAt, updatedAt)
  }

  // ---------------------------------------------------------------------------
  // Field constraints

  /** `[a-zA-Z0-9._-]` */
  predicate IsUsernameChar(c: char) {
    IsAsciiLetter(c) || IsAsciiDigit(c) || c == '.' || c == '_' || c == '-'
  }

  /** `@NotBlank`, `@Pattern("^[a-zA-Z0-9._-]+$")` and `@Size(min = 5, max = 50)`. */
  predicate ValidUsername(s: string) {
    && !IsBlank(s)
    && 0 < |s| && (forall i | 0 <= i < |s| :: IsUsernameChar(s[i]))
    && 5 <= |s| <= 50
  }

  /** `@NotBlank` and `@Size(min = 5, max = 100)`. */
  predicate ValidFullName(s: string) {
    !IsBlank(s) && 5 <= |s| <= 100
  }

  /** `@NotBlank`, `@ValidEmail` and `@Size(min = 5, max = 100)`. */
  predicate ValidEmailAddress(s: string) {
    !IsBlank(s) && Email.IsValidEmail(s) && 5 <= |s| <= 100
  }

  /** The three fields a client supplies, and the ones the services copy from a request body. */
  predicate ValidFields(u: User) {
    ValidUsername(u.username) && ValidFullName(u.fullName) && ValidEmailAddress(u.email)
  }

  /** The username pattern already rules out a blank string, so a username is valid exactly
      when it has 5 to 50 characters from the allowed set. */
  lemma ValidUsernameIff(s: string)
    ensures ValidUsername(s) <==> 5 <= |s| <= 50 && forall i | 0 <= i < |s| :: IsUsernameChar(s[i])
  {
    if 5 <= |s| && IsUsernameChar(s[0]) {
      NotBlankWitness(s, 0);
    }
  }

  /** The email pattern needs six characters and cannot be blank, so an address is valid
      exactly when it matches the pattern and has at most 100 characters. */
  lemma ValidEmailAddressIff(s: string)
    ensures ValidEmailAddress(s) <==> Email.IsValidEmail(s) && |s| <= 100
  {
    if Email.IsValidEmail(s) {
      Email.ValidEmailIsLongAndNotBlank(s);
    }
  }

  // ---------------------------------------------------------------------------
  // Lifecycle hooks

  /** `@PrePersist`: both timestamps take the same reading of the clock; nothing else changes. */
  function OnCreate(u: User, now: int): (r: User)
    ensures r.createdAt == r.updatedAt == now
    ensures r.(createdAt := u.createdAt, updatedAt := u.updatedAt) == u
  {
    u.(createdAt := now, updatedAt := now)
  }

  /** `@PreUpdate`: only `updatedAt` changes; `createdAt` is never rewritten. */
  function OnUpdate(u: User, now: int): (r: User)
    ensures r.updatedAt == now
    ensures r.(updatedAt := u.updatedAt) == u
  {
    u.(updatedAt := now)
  }

  /** Updates after the insert never move the creation time, and the update time is the
      last clock reading. This is the hooks' own frame contracts composed over a series of
      updates; the service contracts state the same fact one call at a time. */
  lemma {:induction false} CreatedAtSurvivesUpdates(u: User, created: int, updates: seq<int>)
    ensures StampAll(OnCreate(u, created), updates).createdAt == created
    ensures |updates| > 0 ==> StampAll(OnCreate(u, created), updates).updatedAt == updates[|updates| - 1]
  {
    if |updates| > 0 {
      CreatedAtSurvivesUpdates(u, created, updates[..|updates| - 1]);
    }
  }

  /** The row after a series of updates at the given clock readings. */
  function StampAll(u: User, updates: seq<int>): User {
    if |updates| == 0 then u else OnUpdate(StampAll(u, updates[..|updates| - 1]), updates[|updates| - 1])
  }
}
