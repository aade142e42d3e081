/** `getProfile` of server/src/controllers/usercontroller.ts: a lookup and a projection that drops secrets. */
module UserController {
  import opened Wrappers
  import opened UserModel

  /** 404 `User not found`, 500 `Failed to fetch profile`, or 200 with exactly `{ id, username, email }`. */
  datatype ProfileResponse =
    | UserNotFound
    | ProfileFailed
    | Profile(id: int, username: string, email: string)
  {
    function Status(): int {
      match this
      case Profile(_, _, _) => 200
      case UserNotFound => 404
      case ProfileFailed => 500
    }
  }

  /**
   * `getProfile`: reads the user table and never writes it. An id outside
   * the `integer` key column makes the lookup fail, which is a 500.
   */
  function GetProfile(users: seq<User>, userId: int): (r: ProfileResponse)
    ensures r == ProfileFailed <==> !IsInt32(userId)
    ensures r == UserNotFound <==> IsInt32(userId) && !UserExists(users, userId)
    ensures r.Profile? ==>
      exists k :: 0 <= k < |users| && users[k].id == userId && r == Profile(users[k].id, users[k].username, users[k].email)
  {
    if !IsInt32(userId) then ProfileFailed
    else
      match FindUser(users, userId)
      case None => UserNotFound
      case Some(u) => Profile(u.id, u.username, u.email)
  }

  /** With distinct ids, the profile of a stored user is that user's id, username and email. */
  lemma ProfileOfStoredUser(users: seq<User>, k: nat)
    requires DistinctIds(users) && k < |users|
    ensures IsInt32(users[k].id) ==> GetProfile(users, users[k].id) == Profile(users[k].id, users[k].username, users[k].email)
    ensures !IsInt32(users[k].id) ==> GetProfile(users, users[k].id) == ProfileFailed
  {
    var r := GetProfile(users, users[k].id);
    if !IsInt32(users[k].id) {
      return;
    }
    var j :| 0 <= j < |users| && users[j].id == users[k].id && r == Profile(users[j].id, users[j].username, users[j].email);
    assert j == k;
  }

  /**
   * The response does not depend on the password hash, the verified flag or
   * any token column: two tables that agree on ids, usernames and emails give
   * the same profile.
   */
  lemma {:induction false} ProfileIgnoresSecrets(users: seq<User>, others: seq<User>, userId: int)
    requires |users| == |others|
    requires forall k :: 0 <= k < |users| ==>
      users[k].id == others[k].id && users[k].username == others[k].username && users[k].email == others[k].email
    ensures GetProfile(users, userId) == GetProfile(others, userId)
  {
    if users != [] && users[0].id != userId {
      ProfileIgnoresSecrets(users[1..], others[1..], userId);
    }
  }
}
