/**
 * The authentication controller as a decision procedure over the user table:
 * `register` (whose write is performed by `AuthStore.UserStore.Register`),
 * `login` and `me`. Password hashing, hash comparison and token signing are
 * foreign libraries and enter as function parameters about which nothing is
 * assumed.
 */
module Auth {
  import opened Common
  import opened Strings

  datatype User = User(id: Id, email: string, password: string, username: string, isVerified: bool)

  /** The user table and the source of fresh user ids. */
  datatype Users = Users(rows: seq<User>, nextId: Id)

  /** What `me` selects of a user. */
  datatype Profile = Profile(email: string, username: string)

  datatype Registration = Registration(code: int, message: string, users: Users)

  datatype LoginReply = LoginReply(code: int, message: string, token: Option<string>)

  const FIELDS_REQUIRED := "Email and password are required"
  const USER_EXISTS := "User already exists"
  const REGISTERED := "User registered, check your email to verify your account"
  const INVALID_CREDENTIALS := "Invalid credentials"
  const NOT_VERIFIED := "Please verify your email before logging in"

  /** Emails are unique (the `findUnique` lookups rely on it) and ids are unique and drawn from the counter. */
  ghost predicate UsersValid(users: Users)
  {
    && (forall u :: u in users.rows ==> u.id < users.nextId)
    && (forall j, k :: 0 <= j < k < |users.rows| ==> users.rows[j].email != users.rows[k].email)
    && (forall j, k :: 0 <= j < k < |users.rows| ==> users.rows[j].id != users.rows[k].id)
  }

  /** `email.split("@")[0]`: the part of the email before its first '@', or all of it when there is none. */
  function UsernameOf(email: string): (u: string)
    ensures u <= email && '@' !in u
    ensures |u| < |email| ==> email[|u|] == '@'
    ensures '@' !in email ==> u == email
  {
    Split(email, '@')[0]
  }

  /** `findUnique({ where: { email } })` */
  function FindUserByEmail(rows: seq<User>, email: string): (r: Option<nat>)
    ensures r.Some? ==> r.value < |rows| && rows[r.value].email == email
    ensures r.None? <==> forall k :: 0 <= k < |rows| ==> rows[k].email != email
  {
    FirstIndex(rows, (u: User) => u.email == email)
  }

  /** The decision and the write of `register`; `hash` is `bcrypt.hashSync(·, 10)`. */
  function Register(users: Users, email: Option<string>, password: Option<string>, hash: string -> string): (o: Registration)
    ensures o.code in {BAD_REQUEST, CONFLICT, CREATED}
    ensures o.code == BAD_REQUEST <==> !Given(email) || !Given(password)
    ensures o.code == CONFLICT <==>
      Given(email) && Given(password) && exists k :: 0 <= k < |users.rows| && users.rows[k].email == email.value
    ensures o.code != CREATED ==> o.users == users
    ensures o.code == CREATED ==>
      && |o.users.rows| == |users.rows| + 1
      && o.users.rows[..|users.rows|] == users.rows
      && o.users.rows[|users.rows|] == User(users.nextId, email.value, hash(password.value), UsernameOf(email.value), true)
      && o.users.nextId > users.nextId
  {
    if !Given(email) || !Given(password) then
      Registration(BAD_REQUEST, FIELDS_REQUIRED, users)
    else if FindUserByEmail(users.rows, email.value).Some? then
      Registration(CONFLICT, USER_EXISTS, users)
    else
      var user := User(users.nextId, email.value, hash(password.value), UsernameOf(email.value), true);
      Registration(CREATED, REGISTERED, Users(users.rows + [user], users.nextId + 1))
  }

  /**
   * `login`: `compare` is `bcrypt.compareSync(password, stored)` and `sign`
   * builds the token for a user id. Reads the table and never writes it.
   */
  function Login(users: Users, email: Option<string>, password: Option<string>,
                 compare: (string, string) -> bool, sign: Id -> string): (r: LoginReply)
    requires UsersValid(users)
    ensures r.code in {OK, BAD_REQUEST, UNAUTHORIZED, FORBIDDEN}
    ensures r.code == BAD_REQUEST <==> !Given(email) || !Given(password)
    ensures r.token.Some? <==> r.code == OK
    ensures r.code == UNAUTHORIZED ==> r.message == INVALID_CREDENTIALS
    ensures r.code == UNAUTHORIZED <==>
      Given(email) && Given(password) &&
      forall u :: u in users.rows && u.email == email.value ==> !compare(password.value, u.password)
    ensures r.code == FORBIDDEN ==>
      exists u :: u in users.rows && u.email == email.value && compare(password.value, u.password) && !u.isVerified
    ensures r.code == OK ==>
      exists u :: u in users.rows && u.email == email.value && compare(password.value, u.password) && u.isVerified
                  && r.token == Some(sign(u.id))
  {
    if !Given(email) || !Given(password) then
      LoginReply(BAD_REQUEST, FIELDS_REQUIRED, None)
    else
      match FindUserByEmail(users.rows, email.value)
      case None => LoginReply(UNAUTHORIZED, INVALID_CREDENTIALS, None)
      case Some(i) =>
        var user := users.rows[i];
        if !compare(password.value, user.password) then
          LoginReply(UNAUTHORIZED, INVALID_CREDENTIALS, None)
        else if !user.isVerified then
          LoginReply(FORBIDDEN, NOT_VERIFIED, None)
        else
          LoginReply(OK, "", Some(sign(user.id)))
  }

  /** `me`: always 200, with the user's email and username, or `null` when no user has this id. */
  function Me(users: Users, userId: Id): (r: (int, Option<Profile>))
    ensures r.0 == OK
    ensures r.1.None? <==> forall u :: u in users.rows ==> u.id != userId
    ensures r.1.Some? ==> exists u :: u in users.rows && u.id == userId && r.1.value == Profile(u.email, u.username)
  {
    match FirstIndex(users.rows, (u: User) => u.id == userId)
    case None =>
      assert forall u :: u in users.rows ==> u.id != userId by {
        forall u | u in users.rows ensures u.id != userId {
          var k :| 0 <= k < |users.rows| && users.rows[k] == u;
        }
      }
      (OK, None)
    case Some(i) =>
      var u := users.rows[i];
      (OK, Some(Profile(u.email, u.username)))
  }

  // ----- Properties -----

  /** The username of `local@domain` is `local` when `local` has no '@'. */
  lemma UsernameOfAddress(local: string, domain: string)
    requires '@' !in local
    ensures UsernameOf(local + "@" + domain) == local
  {
    var email := local + "@" + domain;
    assert email[..|local|] == local && email[|local|] == '@';
  }

  /** A successful registration keeps emails and ids unique. */
  lemma RegisterKeepsValid(users: Users, email: Option<string>, password: Option<string>, hash: string -> string)
    requires UsersValid(users)
    ensures UsersValid(Register(users, email, password, hash).users)
  {
    var o := Register(users, email, password, hash);
    if o.code == CREATED {
      var rows := o.users.rows;
      var n := |users.rows|;
      forall j, k | 0 <= j < k < |rows|
        ensures rows[j].email != rows[k].email && rows[j].id != rows[k].id
      {
        if k == n {
          assert rows[j] == users.rows[j];
          assert users.rows[j] in users.rows;
        } else {
          assert rows[j] == users.rows[j] && rows[k] == users.rows[k];
        }
      }
      forall u | u in rows ensures u.id < o.users.nextId {
        var k :| 0 <= k < |rows| && rows[k] == u;
        if k < n {
          assert rows[k] == users.rows[k];
          assert users.rows[k] in users.rows;
        }
      }
    }
  }

  /**
   * An unknown email and a known email with a wrong password get the same
   * reply, so login does not reveal which emails are registered.
   */
  lemma UnknownEmailAndWrongPasswordLookAlike(
    users: Users, unknown: string, known: string, password: string,
    compare: (string, string) -> bool, sign: Id -> string)
    requires UsersValid(users)
    requires unknown != "" && known != "" && password != ""
    requires forall u :: u in users.rows ==> u.email != unknown
    requires exists u :: u in users.rows && u.email == known && !compare(password, u.password)
    ensures Login(users, Some(unknown), Some(password), compare, sign)
         == Login(users, Some(known), Some(password), compare, sign)
         == LoginReply(UNAUTHORIZED, INVALID_CREDENTIALS, None)
  {
    var u :| u in users.rows && u.email == known && !compare(password, u.password);
    forall v | v in users.rows && v.email == known ensures !compare(password, v.password) {
      var j :| 0 <= j < |users.rows| && users.rows[j] == v;
      var k :| 0 <= k < |users.rows| && users.rows[k] == u;
      assert j == k;
    }
  }

  /**
   * Register stores `isVerified: true`, so a user who has just registered can
   * log in at once (provided `compare` accepts the password against its own
   * hash) and receives a token for the new id.
   */
  lemma RegisteredUserCanLogIn(
    users: Users, email: string, password: string,
    hash: string -> string, compare: (string, string) -> bool, sign: Id -> string)
    requires UsersValid(users)
    requires compare(password, hash(password))
    requires Register(users, Some(email), Some(password), hash).code == CREATED
    ensures var after := Register(users, Some(email), Some(password), hash).users;
      Login(after, Some(email), Some(password), compare, sign) == LoginReply(OK, "", Some(sign(users.nextId)))
  {
    var after := Register(users, Some(email), Some(password), hash).users;
    RegisterKeepsValid(users, Some(email), Some(password), hash);
    var n := |users.rows|;
    assert after.rows[n].email == email;
    assert FindUserByEmail(after.rows, email) == Some(n) by {
      forall k | 0 <= k < n ensures after.rows[k].email != email {
        assert after.rows[k] == users.rows[k];
      }
    }
  }
}
