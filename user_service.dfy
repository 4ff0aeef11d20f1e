/** The user store and its queries (services/UserService.java). The JPA
    repository is a map keyed by the unique `email` column (entities/User.java:18). */
module Users {
  import opened Common

  type UserId = nat

  /** A user as the API receives and returns it; every field may be null. */
  datatype User = User(
    id: Option<UserId>,
    name: Option<string>,
    email: Option<string>,
    password: Option<string>,
    isAdmin: Option<bool>)

  /** The database refused the row. */
  datatype StoreError = ConstraintViolation

  /** The NOT NULL columns of the users table are all present. */
  predicate Storable(u: User)
  {
    u.name.Some? && u.email.Some? && u.password.Some? && u.isAdmin.Some?
  }

  class UserService {
    /** The users table, keyed by email. */
    var users: map<string, User>
    /** The next value of the identity column. */
    var nextId: UserId

    /** Every row is stored under its own email and satisfies the NOT NULL constraints. */
    ghost predicate Valid()
      reads this
    {
      forall e | e in users :: users[e].email == Some(e) && Storable(users[e])
    }

    constructor ()
      ensures Valid() && users == map[]
    {
      users := map[];
      nextId := 0;
    }

    /** Whether some stored user has email `email`. */
    function ExistsByEmail(email: string): (b: bool)
      reads this
      requires Valid()
      ensures b <==> exists e | e in users :: users[e].email == Some(email)
    {
      email in users
    }

    /** `authenticateByEmail`: the stored user with this email when the
        stored password equals `password` exactly, otherwise null. A null
        email or password never authenticates. */
    function AuthenticateByEmail(email: Option<string>, password: Option<string>): (r: Option<User>)
      reads this
      requires Valid()
      ensures r.Some? ==> email.Some? && email.value in users && r.value == users[email.value]
      ensures r.Some? ==> r.value.email == email && r.value.password == password && password.Some?
      ensures r.None? <==> forall e | e in users :: users[e].email != email || users[e].password != password
    {
      if email.None? || email.value !in users then None
      else
        var u := users[email.value];
        if u.password == password then Some(u) else None
    }

    /** `createUser`: saves `user` under a fresh identity. A row the database
        refuses (a NOT NULL column missing, or an email already stored)
        fails with `ConstraintViolation` and changes nothing. */
    method CreateUser(user: User) returns (r: Result<User, StoreError>)
      requires Valid()
      modifies this
      ensures Valid()
      ensures !Storable(user) || user.email.value in old(users) ==>
                r == Failure(ConstraintViolation) && unchanged(this)
      ensures Storable(user) && user.email.value !in old(users) ==>
                && r == Success(user.(id := Some(old(nextId))))
                && users == old(users)[user.email.value := r.value]
                && nextId == old(nextId) + 1
      ensures r.Success? ==> ExistsByEmail(user.email.value)
      ensures r.Success? ==> AuthenticateByEmail(user.email, user.password) == Some(r.value)
    {
      if !Storable(user) || user.email.value in users {
        return Failure(ConstraintViolation);
      }
      var saved := user.(id := Some(nextId));
      users := users[user.email.value := saved];
      nextId := nextId + 1;
      r := Success(saved);
    }
  }
}
