/** User administration over the `all_users` list of the `users` store:
    `createUser.cjs` (append with a duplicate-username check) and `getUsers.cjs`
    (a projection without password hashes). */
module Accounts {
  import opened Common
  import opened Http

  /** A user as stored, with the bcrypt hash of the password. */
  datatype StoredUser = StoredUser(id: string, username: string, passwordHash: string,
                                   role: string, createdAt: string)

  /** A user as `getUsers` answers with it: the stored user without its hash. */
  datatype SafeUser = SafeUser(id: string, username: string, role: string, createdAt: string)

  /** The body of a successful `createUser`. */
  datatype CreatedUser = CreatedUser(id: string, username: string, role: string)

  function Safe(u: StoredUser): SafeUser {
    SafeUser(u.id, u.username, u.role, u.createdAt)
  }

  /** No two stored users share a username. */
  predicate UniqueUsernames(users: seq<StoredUser>) {
    forall i, j :: 0 <= i < j < |users| ==> users[i].username != users[j].username
  }

  predicate HasUsername(users: seq<StoredUser>, name: string) {
    exists i :: 0 <= i < |users| && users[i].username == name
  }

  /** `role || 'user'`. */
  function RoleOrDefault(role: Option<string>): (r: string)
    ensures r != ""
    ensures Truthy(role) ==> r == role.value
    ensures !Truthy(role) ==> r == "user"
  {
    if Truthy(role) then role.value else "user"
  }

  /** The `getUsers` handler over the stored list (`None` when nothing is stored;
      `readOk` false when the store read throws, which the try block turns into 500). */
  function GetUsers(verb: string, user: Option<Principal>, stored: Option<seq<StoredUser>>,
                    readOk: bool): (r: Result<seq<SafeUser>>)
    ensures verb != "GET" ==> r == Err(MethodNotAllowed)
    ensures verb == "GET" && !IsAdminCaller(user) ==> r == Err(Forbidden)
    ensures verb == "GET" && IsAdminCaller(user) && !readOk ==> r == Err(InternalError)
    ensures verb == "GET" && IsAdminCaller(user) && readOk ==> r.Ok?
    ensures r.Ok? ==> readOk && IsAdminCaller(user)
    ensures r.Ok? ==> |r.value| == |stored.GetOr([])|
    ensures r.Ok? ==> forall k :: 0 <= k < |r.value| ==>
              var u := stored.GetOr([])[k];
              r.value[k] == SafeUser(u.id, u.username, u.role, u.createdAt)
  {
    if verb != "GET" then Err(MethodNotAllowed)
    else if !IsAdminCaller(user) then Err(Forbidden)
    else if !readOk then Err(InternalError)
    else
      var users := stored.GetOr([]);
      Ok(seq(|users|, k requires 0 <= k < |users| => Safe(users[k])))
  }

  /** The users store, `all_users` in the `users` blob store. */
  class UsersBlob {
    var allUsers: Option<seq<StoredUser>>

    constructor ()
      ensures allUsers == None
    {
      allUsers := None;
    }

    /** The `createUser` handler. `freshId`, `passwordHash` and `now` stand for
        `uuidv4()`, `bcrypt.hash(password, 10)` and the ISO time; `readOk` and `writeOk`
        say whether the store calls succeed (a failure throws into the 500 branch). */
    method CreateUser(verb: string, user: Option<Principal>, username: Option<string>,
                      password: Option<string>, role: Option<string>, freshId: string,
                      passwordHash: string, now: string, readOk: bool, writeOk: bool)
      returns (res: Result<CreatedUser>)
      modifies this
      ensures verb != "POST" ==> res == Err(MethodNotAllowed)
      ensures verb == "POST" && !IsAdminCaller(user) ==> res == Err(Forbidden)
      ensures verb == "POST" && IsAdminCaller(user) && (!Truthy(username) || !Truthy(password)) ==>
                res == Err(BadRequest)
      ensures verb == "POST" && IsAdminCaller(user) && Truthy(username) && Truthy(password) ==>
                var users := old(allUsers).GetOr([]);
                if !readOk then res == Err(InternalError)
                else if HasUsername(users, username.value) then res == Err(BadRequest)
                else if !writeOk then res == Err(InternalError)
                else
                  && res == Ok(CreatedUser(freshId, username.value, RoleOrDefault(role)))
                  && allUsers == Some(users + [StoredUser(freshId, username.value, passwordHash,
                                                          RoleOrDefault(role), now)])
      ensures res.Err? ==> allUsers == old(allUsers)
      ensures res.Ok? && UniqueUsernames(old(allUsers).GetOr([])) ==>
                allUsers.Some? && UniqueUsernames(allUsers.value)
    {
      if verb != "POST" {
        return Err(MethodNotAllowed);
      }
      if !IsAdminCaller(user) {
        return Err(Forbidden);
      }
      if !Truthy(username) || !Truthy(password) {
        return Err(BadRequest);
      }
      if !readOk {
        return Err(InternalError);
      }
      var users := allUsers.GetOr([]);
      if HasUsername(users, username.value) {
        return Err(BadRequest);
      }
      var newUser := StoredUser(freshId, username.value, passwordHash, RoleOrDefault(role), now);
      users := users + [newUser];
      if !writeOk {
        return Err(InternalError);
      }
      allUsers := Some(users);
      res := Ok(CreatedUser(newUser.id, newUser.username, newUser.role));
    }
  }

  /** Appending a user whose name is new keeps the usernames unique. */
  lemma AppendKeepsUnique(users: seq<StoredUser>, u: StoredUser)
    requires UniqueUsernames(users) && !HasUsername(users, u.username)
    ensures UniqueUsernames(users + [u])
  {
  }

  /** After a successful creation the listing ends with the new user, role included,
      and everything before it is the old listing. */
  lemma ListingAfterCreate(admin: Principal, users: seq<StoredUser>, u: StoredUser)
    requires IsAdmin(admin)
    ensures var before := GetUsers("GET", Some(admin), Some(users), true);
            var after := GetUsers("GET", Some(admin), Some(users + [u]), true);
            && after.Ok? && before.Ok?
            && after.value == before.value + [SafeUser(u.id, u.username, u.role, u.createdAt)]
  {
    var before := GetUsers("GET", Some(admin), Some(users), true);
    var after := GetUsers("GET", Some(admin), Some(users + [u]), true);
    assert forall k :: 0 <= k < |users| ==> (users + [u])[k] == users[k];
    assert after.value == before.value + [Safe(u)];
  }
}
