/** The user service over the `users` table. The table is a map from id to row; the
    repository's derived queries are lookups in that map, and `save` is a write that the
    storage layer checks against the table's unique constraints. Every method is one
    transaction: when it fails, the table is as it was before. */
module UserServices {
  import opened Outcomes
  import opened UserModel

  // ---------------------------------------------------------------------------
  // Queries over the table (the repository's derived finders)

  /** `existsByUsername`: some row, active or not, has this username. */
  predicate UsernameTaken(users: map<int, User>, name: string) {
    exists id | id in users :: users[id].username == name
  }

  /** `existsByEmail`: some row, active or not, has this email. */
  predicate EmailTaken(users: map<int, User>, email: string) {
    exists id | id in users :: users[id].email == email
  }

  /** A row other than `id` has this username. */
  predicate UsernameHeldElsewhere(users: map<int, User>, id: int, name: string) {
    exists k | k in users && k != id :: users[k].username == name
  }

  /** A row other than `id` has this email. */
  predicate EmailHeldElsewhere(users: map<int, User>, id: int, email: string) {
    exists k | k in users && k != id :: users[k].email == email
  }

  // ---------------------------------------------------------------------------
  // The table's invariant

  /** The unique constraint on `username` spans every row, active or not. */
  ghost predicate UniqueUsernames(users: map<int, User>) {
    forall i, j | i in users && j in users && users[i].username == users[j].username :: i == j
  }

  /** The unique constraint on `email` spans every row, active or not. */
  ghost predicate UniqueEmails(users: map<int, User>) {
    forall i, j | i in users && j in users && users[i].email == users[j].email :: i == j
  }

  /** Each row is stored under its own id, an id the identity column has already handed
      out; its flag is "Y" or "N"; and both unique constraints hold. */
  ghost predicate TableInvariant(users: map<int, User>, nextId: int) {
    && 1 <= nextId
    && (forall id | id in users ::
          && users[id].userId == id
          && 1 <= id < nextId
          && (users[id].isActive == ACTIVE || users[id].isActive == INACTIVE))
    && UniqueUsernames(users)
    && UniqueEmails(users)
  }

  /** Under the unique constraints a username, and an email, picks out at most one row, so
      the finders by username and by email have at most one answer. */
  lemma AtMostOneRowPerKey(users: map<int, User>, name: string, email: string)
    requires UniqueUsernames(users) && UniqueEmails(users)
    ensures |set id | id in users && users[id].username == name| <= 1
    ensures |set id | id in users && users[id].email == email| <= 1
  {
    var byName := set id | id in users && users[id].username == name;
    if UsernameTaken(users, name) {
      var id :| id in users && users[id].username == name;
      assert forall x :: x in byName <==> x == id;
      assert byName == {id};
    } else {
      assert forall x :: x !in byName;
      assert byName == {};
    }
    var byEmail := set id | id in users && users[id].email == email;
    if EmailTaken(users, email) {
      var id :| id in users && users[id].email == email;
      assert forall x :: x in byEmail <==> x == id;
      assert byEmail == {id};
    } else {
      assert forall x :: x !in byEmail;
      assert byEmail == {};
    }
  }

  /** No row was added or removed, and every row but `id` is as it was. */
  ghost predicate OnlyRowChanged(before: map<int, User>, after: map<int, User>, id: int) {
    before.Keys == after.Keys && forall k | k in before && k != id :: after[k] == before[k]
  }

  /** Row `id` was revived at time `now`: it is active again, keeps its id and creation
      time, and carries the new update time. */
  ghost predicate Revived(before: map<int, User>, after: map<int, User>, id: int, now: int) {
    && OnlyRowChanged(before, after, id)
    && id in before
    && after[id].userId == id
    && after[id].isActive == ACTIVE
    && after[id].createdAt == before[id].createdAt
    && after[id].updatedAt == now
  }

  class UserService {
    /** The `users` table. */
    var users: map<int, User>
    /** The next value of the identity column. */
    var nextId: int

    ghost predicate Valid()
      reads this
    {
      TableInvariant(users, nextId)
    }

    /** Every row satisfies the entity's field constraints. */
    ghost predicate RowsWellFormed()
      reads this
    {
      forall id | id in users :: ValidFields(users[id])
    }

    /** `findByUserIdAndIsActive(id, "Y")` finds a row. */
    predicate IsActiveUser(id: int)
      reads this
    {
      id in users && users[id].isActive == ACTIVE
    }

    constructor ()
      ensures Valid() && RowsWellFormed()
      ensures users == map[] && nextId == 1
    {
      users := map[];
      nextId := 1;
    }

    // -------------------------------------------------------------------------
    // Repository access

    /** `findByUsername`: the row with this username, active or not. */
    method FindByUsername(name: string) returns (found: Option<User>)
      requires Valid()
      ensures found.Some? <==> UsernameTaken(users, name)
      ensures found.Some? ==>
        found.value.userId in users && users[found.value.userId] == found.value && found.value.username == name
    {
      if UsernameTaken(users, name) {
        var id :| id in users && users[id].username == name;
        found := Some(users[id]);
      } else {
        found := None;
      }
    }

    /** `findByEmail`: the row with this email, active or not. */
    method FindByEmail(email: string) returns (found: Option<User>)
      requires Valid()
      ensures found.Some? <==> EmailTaken(users, email)
      ensures found.Some? ==>
        found.value.userId in users && users[found.value.userId] == found.value && found.value.email == email
    {
      if EmailTaken(users, email) {
        var id :| id in users && users[id].email == email;
        found := Some(users[id]);
      } else {
        found := None;
      }
    }

    /** `save` of a new row: the identity column assigns the next id, the create hook stamps
        the row, and the storage layer rejects it if its username or email is on any row. */
    method Insert(u: User, now: int) returns (r: Result<User>)
      requires Valid()
      requires u.isActive == ACTIVE || u.isActive == INACTIVE
      modifies this
      ensures Valid()
      ensures UsernameTaken(old(users), u.username) || EmailTaken(old(users), u.email) ==>
        r == Err(StorageConflict) && users == old(users) && nextId == old(nextId)
      ensures !UsernameTaken(old(users), u.username) && !EmailTaken(old(users), u.email) ==>
        && r == Ok(OnCreate(u.(userId := old(nextId)), now))
        && old(nextId) !in old(users)
        && users == old(users)[old(nextId) := r.value]
        && nextId == old(nextId) + 1
    {
      if UsernameTaken(users, u.username) || EmailTaken(users, u.email) {
        return Err(StorageConflict);
      }
      var row := OnCreate(u.(userId := nextId), now);
      assert forall k | k in users :: users[k].username != row.username && users[k].email != row.email;
      users := users[nextId := row];
      nextId := nextId + 1;
      r := Ok(row);
    }

    /** `save` of a row that is already stored: the storage layer rejects it if another row
        has its username or email; otherwise the update hook stamps it, but only when one of
        its columns changed. */
    method Save(u: User, now: int) returns (r: Result<User>)
      requires Valid()
      requires u.userId in users
      requires u.isActive == ACTIVE || u.isActive == INACTIVE
      modifies this
      ensures Valid() && nextId == old(nextId)
      ensures UsernameHeldElsewhere(old(users), u.userId, u.username) || EmailHeldElsewhere(old(users), u.userId, u.email) ==>
        r == Err(StorageConflict) && users == old(users)
      ensures !UsernameHeldElsewhere(old(users), u.userId, u.username) && !EmailHeldElsewhere(old(users), u.userId, u.email) ==>
        && r == Ok(if u == old(users)[u.userId] then u else OnUpdate(u, now))
        && users == old(users)[u.userId := r.value]
    {
      if UsernameHeldElsewhere(users, u.userId, u.username) || EmailHeldElsewhere(users, u.userId, u.email) {
        return Err(StorageConflict);
      }
      var row := if u == users[u.userId] then u else OnUpdate(u, now);
      users := users[u.userId := row];
      r := Ok(row);
    }

    // -------------------------------------------------------------------------
    // The service

    /** `createUser`. The username is looked up first, over every row: an inactive match is
        revived with the candidate's email and full name, an active one is a duplicate. Only
        when no row has the username is the email looked up, with the same two outcomes
        (a revival there takes the candidate's username). Otherwise the candidate is inserted
        as an active row. Of the candidate only username, email and full name are read. */
    method CreateUser(candidate: User, now: int) returns (r: Result<User>)
      requires Valid()
      modifies this
      ensures Valid()
      ensures old(users).Keys <= users.Keys
      ensures old(RowsWellFormed()) && ValidFields(candidate) ==> RowsWellFormed()
      // A username match decides the outcome on its own.
      ensures forall id | id in old(users) && old(users)[id].username == candidate.username ::
        if old(users)[id].isActive == INACTIVE then
          if EmailHeldElsewhere(old(users), id, candidate.email) then
            r == Err(StorageConflict) && users == old(users) && nextId == old(nextId)
          else
            && Revived(old(users), users, id, now)
            && r == Ok(users[id])
            && users[id].username == old(users)[id].username
            && users[id].email == candidate.email
            && users[id].fullName == candidate.fullName
            && nextId == old(nextId)
        else
          r == Err(AlreadyExists("User", "username")) && users == old(users) && nextId == old(nextId)
      // Otherwise an email match decides it.
      ensures !UsernameTaken(old(users), candidate.username) ==>
        forall id | id in old(users) && old(users)[id].email == candidate.email ::
          if old(users)[id].isActive == INACTIVE then
            && Revived(old(users), users, id, now)
            && r == Ok(users[id])
            && users[id].username == candidate.username
            && users[id].email == old(users)[id].email
            && users[id].fullName == candidate.fullName
            && nextId == old(nextId)
          else
            r == Err(AlreadyExists("User", "email")) && users == old(users) && nextId == old(nextId)
      // Neither matches: exactly one new active row.
      ensures !UsernameTaken(old(users), candidate.username) && !EmailTaken(old(users), candidate.email) ==>
        var id := old(nextId);
        && id !in old(users)
        && id in users
        && users == old(users)[id := users[id]]
        && nextId == id + 1
        && r == Ok(users[id])
        && users[id].userId == id
        && users[id].username == candidate.username
        && users[id].email == candidate.email
        && users[id].fullName == candidate.fullName
        && users[id].isActive == ACTIVE
        && users[id].createdAt == users[id].updatedAt == now
    {
      var byUsername := FindByUsername(candidate.username);
      if byUsername.Some? {
        var existing := byUsername.value;
        if existing.isActive == INACTIVE {
          existing := existing.(isActive := ACTIVE, email := candidate.email, fullName := candidate.fullName);
          r := Save(existing, now);
          return;
        } else {
          return Err(AlreadyExists("User", "username"));
        }
      }
      var byEmail := FindByEmail(candidate.email);
      if byEmail.Some? {
        var existing := byEmail.value;
        if existing.isActive == INACTIVE {
          existing := existing.(isActive := ACTIVE, username := candidate.username, fullName := candidate.fullName);
          r := Save(existing, now);
          return;
        } else {
          return Err(AlreadyExists("User", "email"));
        }
      }
      var user := candidate.(isActive := ACTIVE);
      r := Insert(user, now);
    }

    /** `getAllUsers`: every row, or only the active ones. */
    method GetAllUsers(includeInactive: bool) returns (result: set<User>)
      ensures forall u :: u in result <==> u in users.Values && (includeInactive || u.isActive == ACTIVE)
    {
      if includeInactive {
        result := users.Values;
      } else {
        result := set u | u in users.Values && u.isActive == ACTIVE;
      }
    }

    /** `getUserById`: the row with this id, visible only while it is active. */
    method GetUserById(id: int) returns (r: Result<User>)
      ensures r.Ok? <==> IsActiveUser(id)
      ensures r.Ok? ==> r.value == users[id] && r.value.isActive == ACTIVE
      ensures r.Err? ==> r.error == NotFound("User", "id")
    {
      if id in users && users[id].isActive == ACTIVE {
        r := Ok(users[id]);
      } else {
        r := Err(NotFound("User", "id"));
      }
    }

    /** `getUserByUsername`: the active row with this username. */
    method GetUserByUsername(name: string) returns (r: Result<User>)
      requires Valid()
      ensures r.Ok? <==> exists id | id in users :: users[id].username == name && users[id].isActive == ACTIVE
      ensures r.Ok? ==> r.value in users.Values && r.value.username == name && r.value.isActive == ACTIVE
      ensures r.Err? ==> r.error == NotFound("User", "username")
    {
      if exists id | id in users :: users[id].username == name && users[id].isActive == ACTIVE {
        var id :| id in users && users[id].username == name && users[id].isActive == ACTIVE;
        r := Ok(users[id]);
      } else {
        r := Err(NotFound("User", "username"));
      }
    }

    /** `getUserByEmail`: the active row with this email. */
    method GetUserByEmail(email: string) returns (r: Result<User>)
      requires Valid()
      ensures r.Ok? <==> exists id | id in users :: users[id].email == email && users[id].isActive == ACTIVE
      ensures r.Ok? ==> r.value in users.Values && r.value.email == email && r.value.isActive == ACTIVE
      ensures r.Err? ==> r.error == NotFound("User", "email")
    {
      if exists id | id in users :: users[id].email == email && users[id].isActive == ACTIVE {
        var id :| id in users && users[id].email == email && users[id].isActive == ACTIVE;
        r := Ok(users[id]);
      } else {
        r := Err(NotFound("User", "email"));
      }
    }

    /** `updateUserById`: the row is found whatever its flag. A new username or email is
        refused when any row already has it; an unchanged one is not checked. Username, email
        and full name are overwritten; the flag and creation time are kept. */
    method UpdateUserById(id: int, updated: User, now: int) returns (r: Result<User>)
      requires Valid()
      modifies this
      ensures Valid() && nextId == old(nextId) && users.Keys == old(users).Keys
      ensures old(RowsWellFormed()) && ValidFields(updated) ==> RowsWellFormed()
      ensures id !in old(users) ==> r == Err(NotFound("User", "id")) && users == old(users)
      ensures id in old(users) ==>
        var before := old(users)[id];
        if before.username != updated.username && UsernameTaken(old(users), updated.username) then
          r == Err(AlreadyExists("User", "username")) && users == old(users)
        else if before.email != updated.email && EmailTaken(old(users), updated.email) then
          r == Err(AlreadyExists("User", "email")) && users == old(users)
        else
          && OnlyRowChanged(old(users), users, id)
          && r == Ok(users[id])
          && users[id].userId == id
          && users[id].username == updated.username
          && users[id].email == updated.email
          && users[id].fullName == updated.fullName
          && users[id].isActive == before.isActive
          && users[id].createdAt == before.createdAt
          && users[id].updatedAt ==
               if before.username == updated.username && before.email == updated.email && before.fullName == updated.fullName
               then before.updatedAt else now
    {
      if id !in users {
        return Err(NotFound("User", "id"));
      }
      var existing := users[id];
      if existing.username != updated.username && UsernameTaken(users, updated.username) {
        return Err(AlreadyExists("User", "username"));
      }
      if existing.email != updated.email && EmailTaken(users, updated.email) {
        return Err(AlreadyExists("User", "email"));
      }
      existing := existing.(username := updated.username, email := updated.email, fullName := updated.fullName);
      r := Save(existing, now);
    }

    /** `deleteUserById`: a soft delete. A missing id is not found, an inactive row is refused;
        otherwise only that row's flag turns to "N" (and its update time is stamped). */
    method DeleteUserById(id: int, now: int) returns (r: Result<()>)
      requires Valid()
      modifies this
      ensures Valid() && nextId == old(nextId) && users.Keys == old(users).Keys
      ensures old(RowsWellFormed()) ==> RowsWellFormed()
      ensures id !in old(users) ==> r == Err(NotFound("User", "id")) && users == old(users)
      ensures id in old(users) && old(users)[id].isActive == INACTIVE ==>
        r == Err(UserInactive) && users == old(users)
      ensures id in old(users) && old(users)[id].isActive != INACTIVE ==>
        r == Ok(()) && users == old(users)[id := old(users)[id].(isActive := INACTIVE, updatedAt := now)]
    {
      if id !in users {
        return Err(NotFound("User", "id"));
      }
      var user := users[id];
      if user.isActive == INACTIVE {
        return Err(UserInactive);
      }
      user := user.(isActive := INACTIVE);
      var saved := Save(user, now);
      r := Ok(());
    }

    /** `existsById`: an active row has this id. */
    method ExistsById(id: int) returns (b: bool)
      ensures b <==> id in users && users[id].isActive == ACTIVE
    {
      b := id in users && users[id].isActive == ACTIVE;
    }
  }
}
