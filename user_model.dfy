/**
 * The `User` entity of server/src/models/User.ts and the table that holds it.
 * Column constraints (`unique`, `default`, `nullable`, the generated key) become
 * the table's invariant `Valid()`; nullable columns become `Option`s.
 */
module UserModel {
  import opened Wrappers

  /**
   * The stored form of a password. bcrypt is one-way; here its output is a
   * symbolic term over its inputs (cost, random salt, plaintext), so the only
   * thing the model can do with it is compare it, never read a password back.
   */
  datatype PasswordHash = Bcrypt(rounds: nat, salt: string, plaintext: string)

  datatype User = User(
    id: int,
    username: string,
    email: string,
    password: PasswordHash,
    verified: bool,
    verificationToken: Option<string>,
    refreshToken: Option<string>,
    passwordResetToken: Option<string>,
    passwordResetExpires: Option<int>)

  /** A user as `create({ username, email, password })` builds it: every other column takes its default. */
  function NewUser(id: int, username: string, email: string, password: PasswordHash): (u: User)
    ensures u.id == id && u.username == username && u.email == email && u.password == password
    ensures !u.verified
    ensures u.verificationToken.None? && u.refreshToken.None?
    ensures u.passwordResetToken.None? && u.passwordResetExpires.None?
  {
    User(id, username, email, password, false, None, None, None, None)
  }

  predicate DistinctIds(users: seq<User>) {
    forall i, j :: 0 <= i < j < |users| ==> users[i].id != users[j].id
  }

  predicate UniqueUsernames(users: seq<User>) {
    forall i, j :: 0 <= i < j < |users| ==> users[i].username != users[j].username
  }

  predicate UniqueEmails(users: seq<User>) {
    forall i, j :: 0 <= i < j < |users| ==> users[i].email != users[j].email
  }

  /** The store-wide invariant the `unique` columns and the generated primary key maintain. */
  predicate WellFormed(users: seq<User>) {
    DistinctIds(users) && UniqueUsernames(users) && UniqueEmails(users)
  }

  /**
   * The values a Postgres `integer` column holds: the generated keys, and a
   * favourite's `mediaId` and `userId`. A query that compares such a column
   * with a number outside this range fails with an out-of-range error
   * instead of matching nothing.
   */
  predicate IsInt32(n: int) {
    -0x8000_0000 <= n < 0x8000_0000
  }

  predicate UserExists(users: seq<User>, id: int) {
    exists k :: 0 <= k < |users| && users[k].id == id
  }

  /** Some stored user has this username or this email (`findOne({ where: [{ username }, { email }] })`). */
  function UsernameOrEmailTaken(users: seq<User>, username: string, email: string): (taken: bool)
    ensures taken <==>
      (exists k :: 0 <= k < |users| && users[k].username == username) ||
      (exists k :: 0 <= k < |users| && users[k].email == email)
  {
    exists k :: 0 <= k < |users| && (users[k].username == username || users[k].email == email)
  }

  /** Appending a user whose username and email are not taken, under a fresh id, keeps the table well formed. */
  lemma UntakenKeepsUnique(users: seq<User>, u: User)
    requires WellFormed(users)
    requires !UsernameOrEmailTaken(users, u.username, u.email)
    requires forall k :: 0 <= k < |users| ==> users[k].id != u.id
    ensures WellFormed(users + [u])
  {
    var r := users + [u];
    forall i, j | 0 <= i < j < |r|
      ensures r[i].id != r[j].id && r[i].username != r[j].username && r[i].email != r[j].email
    {
      assert r[i] == users[i];
      if j < |users| {
        assert r[j] == users[j];
      }
    }
  }

  /** The user row with the given id, if any (`findOne({ where: { id } })`). */
  function FindUser(users: seq<User>, id: int): (r: Option<User>)
    ensures r.Some? <==> UserExists(users, id)
    ensures r.Some? ==> r.value in users && r.value.id == id
  {
    if users == [] then None
    else if users[0].id == id then Some(users[0])
    else
      var r := FindUser(users[1..], id);
      assert forall k :: 1 <= k < |users| ==> users[k] == users[1..][k - 1];
      r
  }

  /** The table after deleting the row of user `id`. */
  function WithoutUser(users: seq<User>, id: int): (r: seq<User>)
    ensures forall u :: u in r <==> u in users && u.id != id
  {
    if users == [] then []
    else (if users[0].id == id then [] else [users[0]]) + WithoutUser(users[1..], id)
  }

  /** The user table: rows in storage order and the next value of the key sequence. */
  class UserRepository {
    var rows: seq<User>
    var nextId: int

    ghost predicate Valid()
      reads this
    {
      && 1 <= nextId
      && (forall k :: 0 <= k < |rows| ==> 1 <= rows[k].id < nextId)
      && WellFormed(rows)
    }

    constructor ()
      ensures Valid() && rows == [] && nextId == 1
    {
      rows := [];
      nextId := 1;
    }

    /** `save` of a new entity: an INSERT that takes the next generated key. */
    method Insert(u: User) returns (id: int)
      requires Valid()
      requires !UsernameOrEmailTaken(rows, u.username, u.email)
      modifies this
      ensures Valid()
      ensures id == old(nextId) && nextId == old(nextId) + 1
      ensures rows == old(rows) + [u.(id := id)]
    {
      id := nextId;
      UntakenKeepsUnique(rows, u.(id := id));
      rows := rows + [u.(id := id)];
      nextId := nextId + 1;
    }

    /** `save` of an entity already stored at position `k`: an UPDATE of that row, keyed by its id. */
    method Update(k: nat, u: User)
      requires Valid()
      requires k < |rows| && rows[k].id == u.id
      requires rows[k].username == u.username && rows[k].email == u.email
      modifies this
      ensures Valid()
      ensures nextId == old(nextId) && rows == old(rows)[k := u]
    {
      rows := rows[k := u];
    }
  }
}
