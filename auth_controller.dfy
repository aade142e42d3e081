/**
 * `signup` of server/src/controllers/authController.ts: validate the body,
 * refuse a taken username or email, insert an unverified user with a hashed
 * password, then store the issued refresh token on it with a second save.
 */
module AuthController {
  import opened Wrappers
  import opened UserModel

  /** The bcrypt cost factor passed to `bcrypt.hash`. */
  const SaltRounds := 10

  /** The JSON body fields; `None` when the field is absent. */
  datatype SignupRequest = SignupRequest(username: Option<string>, email: Option<string>, password: Option<string>)

  /** A body field is falsy in JavaScript when it is absent or the empty string. */
  function Falsy(v: Option<string>): (falsy: bool)
    ensures !falsy <==> exists s: string :: v == Some(s) && |s| > 0
  {
    v.None? || v.value == ""
  }

  /** `!username || !email || !password`. */
  function MissingField(body: SignupRequest): (missing: bool)
    ensures !missing <==>
      && body.username.Some? && body.username.value != ""
      && body.email.Some? && body.email.value != ""
      && body.password.Some? && body.password.value != ""
  {
    Falsy(body.username) || Falsy(body.email) || Falsy(body.password)
  }

  datatype SignupResponse =
    | MissingFields
    | Taken
    | Failed
    | Created(userId: int, accessToken: string, refreshToken: string)
  {
    function Status(): int {
      match this
      case MissingFields => 400
      case Taken => 400
      case Failed => 500
      case Created(_, _, _) => 201
    }

    function Message(): string {
      match this
      case MissingFields => "All fields are required"
      case Taken => "Username or email already taken"
      case Failed => "Error creating user"
      case Created(_, _, _) => "User created successfully"
    }
  }

  /**
   * `signup`. The random bcrypt salt is the parameter `salt`. The token
   * signers (`generateAccessToken`, `generateRefreshToken`) are parameters
   * from the new user's id to a token, `None` when `jwt.sign` throws (its
   * secret is unset); the throw happens after the first save, so the new
   * row stays, without a refresh token, and the answer is 500.
   */
  method Signup(repo: UserRepository, body: SignupRequest, salt: string,
                signAccess: int -> Option<string>, signRefresh: int -> Option<string>)
    returns (resp: SignupResponse)
    requires repo.Valid()
    modifies repo
    ensures repo.Valid()
    ensures MissingField(body) ==> resp == MissingFields && unchanged(repo)
    ensures !MissingField(body) && UsernameOrEmailTaken(old(repo.rows), body.username.value, body.email.value) ==>
      resp == Taken && unchanged(repo)
    ensures !MissingField(body) && !UsernameOrEmailTaken(old(repo.rows), body.username.value, body.email.value) ==>
      var id := old(repo.nextId);
      var inserted := NewUser(id, body.username.value, body.email.value, Bcrypt(SaltRounds, salt, body.password.value));
      && repo.nextId == id + 1
      && (signAccess(id).None? || signRefresh(id).None? ==>
            resp == Failed && repo.rows == old(repo.rows) + [inserted])
      && (signAccess(id).Some? && signRefresh(id).Some? ==>
            && resp == Created(id, signAccess(id).value, signRefresh(id).value)
            && repo.rows == old(repo.rows) + [inserted.(refreshToken := signRefresh(id))])
  {
    if MissingField(body) {
      return MissingFields;
    }
    var username, email, password := body.username.value, body.email.value, body.password.value;
    if UsernameOrEmailTaken(repo.rows, username, email) {
      return Taken;
    }
    var hashed := Bcrypt(SaltRounds, salt, password);
    var newUser := NewUser(0, username, email, hashed);
    var id := repo.Insert(newUser);
    newUser := newUser.(id := id);
    var accessToken := signAccess(id);
    if accessToken.None? {
      return Failed;
    }
    var refreshToken := signRefresh(id);
    if refreshToken.None? {
      return Failed;
    }
    newUser := newUser.(refreshToken := refreshToken);
    repo.Update(|repo.rows| - 1, newUser);
    resp := Created(id, accessToken.value, refreshToken.value);
  }

  /**
   * A new account is created unverified, owns the hash of the submitted
   * password (never the password itself), and its stored refresh token is
   * the one returned; a second signup with the same username is refused.
   */
  method SignupScenario() returns (first: SignupResponse, second: SignupResponse, stored: User)
    ensures first.Created? && first.Status() == 201 && first.userId == 1
    ensures stored.id == first.userId && !stored.verified
    ensures stored.password == Bcrypt(SaltRounds, "salt", "pw") && stored.refreshToken == Some(first.refreshToken)
    ensures second == Taken && second.Status() == 400
  {
    var repo := new UserRepository();
    var signAccess := (id: int) => Some("access");
    var signRefresh := (id: int) => Some("refresh");
    first := Signup(repo, SignupRequest(Some("alice"), Some("a@x.com"), Some("pw")), "salt", signAccess, signRefresh);
    stored := repo.rows[0];
    assert repo.rows[0].username == "alice";
    second := Signup(repo, SignupRequest(Some("alice"), Some("b@x.com"), Some("pw2")), "salt", signAccess, signRefresh);
  }

  /**
   * With the refresh-token secret unset, signup answers 500 but keeps the new
   * row, so retrying the same username is then refused as taken.
   */
  method UnsetSecretScenario() returns (first: SignupResponse, retry: SignupResponse, stored: User)
    ensures first == Failed && first.Status() == 500
    ensures stored.username == "alice" && stored.refreshToken.None?
    ensures retry == Taken && retry.Status() == 400
  {
    var repo := new UserRepository();
    var signAccess := (id: int) => Some("access");
    var signRefresh := (id: int) => None;
    first := Signup(repo, SignupRequest(Some("alice"), Some("a@x.com"), Some("pw")), "salt", signAccess, signRefresh);
    stored := repo.rows[0];
    retry := Signup(repo, SignupRequest(Some("alice"), Some("a@x.com"), Some("pw")), "salt", signAccess, signRefresh);
  }
}
