/**
 * The user table that `register` writes to. `login` and `me` only read it and
 * are the functions `Auth.Login` and `Auth.Me` of its `State()`.
 */
module AuthStore {
  import opened Common
  import Auth

  class UserStore {
    var users: seq<Auth.User>
    var nextId: Id

    function State(): Auth.Users
      reads this
    {
      Auth.Users(users, nextId)
    }

    ghost predicate Valid()
      reads this
    {
      Auth.UsersValid(State())
    }

    constructor ()
      ensures State() == Auth.Users([], 0) && Valid()
    {
      users, nextId := [], 0;
    }

    /** POST /api/auth/register: validate, reject a known email, hash, derive the username, insert. */
    method Register(email: Option<string>, password: Option<string>, hash: string -> string) returns (code: int, message: string)
      modifies this
      ensures Auth.Registration(code, message, State()) == Auth.Register(old(State()), email, password, hash)
      ensures old(Valid()) ==> Valid()
    {
      ghost var before := State();
      if !Given(email) || !Given(password) {
        return BAD_REQUEST, Auth.FIELDS_REQUIRED;
      }
      var existing := Auth.FindUserByEmail(users, email.value);
      if existing.Some? {
        return CONFLICT, Auth.USER_EXISTS;
      }
      var hashedPassword := hash(password.value);
      var username := Auth.UsernameOf(email.value);
      users := users + [Auth.User(nextId, email.value, hashedPassword, username, true)];
      nextId := nextId + 1;
      code, message := CREATED, Auth.REGISTERED;
      if Auth.UsersValid(before) {
        Auth.RegisterKeepsValid(before, email, password, hash);
      }
    }
  }
}
