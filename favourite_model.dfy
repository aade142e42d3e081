/**
 * The `Favourite` entity of server/src/models/Favourite.ts and its table.
 * The many-to-one `user` relation is the foreign key `userId`, with
 * `onDelete: 'CASCADE'`.
 */
module FavouriteModel {
  import UserModel

  /** The column's declared type `'image' | 'video'`. */
  datatype MediaType = Image | Video

  datatype Favourite = Favourite(
    id: int,
    mediaId: int,
    mediaUrl: string,
    mediaType: MediaType,
    userId: int)

  predicate DistinctIds(favs: seq<Favourite>) {
    forall i, j :: 0 <= i < j < |favs| ==> favs[i].id != favs[j].id
  }

  /** At most one favourite per (user, mediaId): kept by the controller's check, not by the schema. */
  predicate OnePerUserMedia(favs: seq<Favourite>) {
    forall i, j :: 0 <= i < j < |favs| ==> favs[i].userId != favs[j].userId || favs[i].mediaId != favs[j].mediaId
  }

  /** Every favourite references an existing user (the foreign key). */
  predicate OwnersExist(favs: seq<Favourite>, users: seq<UserModel.User>) {
    forall i :: 0 <= i < |favs| ==> UserModel.UserExists(users, favs[i].userId)
  }

  /** Whether the user holds a favourite of this media. */
  predicate Holds(favs: seq<Favourite>, userId: int, mediaId: int) {
    exists k :: 0 <= k < |favs| && favs[k].userId == userId && favs[k].mediaId == mediaId
  }

  /** The favourites owned by a user, in storage order (the `user.favorites` relation). */
  function FavouritesOf(favs: seq<Favourite>, userId: int): (r: seq<Favourite>)
    ensures forall f :: multiset(r)[f] == if f.userId == userId then multiset(favs)[f] else 0
  {
    if favs == [] then []
    else
      assert favs == [favs[0]] + favs[1..];
      (if favs[0].userId == userId then [favs[0]] else []) + FavouritesOf(favs[1..], userId)
  }

  /** The favourites not owned by a user, in storage order. */
  function FavouritesNotOf(favs: seq<Favourite>, userId: int): (r: seq<Favourite>)
    ensures forall f :: multiset(r)[f] == if f.userId == userId then 0 else multiset(favs)[f]
  {
    if favs == [] then []
    else
      assert favs == [favs[0]] + favs[1..];
      (if favs[0].userId == userId then [] else [favs[0]]) + FavouritesNotOf(favs[1..], userId)
  }

  /**
   * Deleting user `userId`: the user row goes and, by the cascade, every
   * favourite it owns, and nothing else.
   */
  function DeleteUser(users: seq<UserModel.User>, favs: seq<Favourite>, userId: int): (r: (seq<UserModel.User>, seq<Favourite>))
    ensures forall u :: u in r.0 <==> u in users && u.id != userId
    ensures forall f :: f in r.1 <==> f in favs && f.userId != userId
    ensures forall f: Favourite :: f.userId != userId ==> multiset(r.1)[f] == multiset(favs)[f]
  {
    (UserModel.WithoutUser(users, userId), FavouritesNotOf(favs, userId))
  }

  /** After the cascade, every remaining favourite still has its owner. */
  lemma CascadeKeepsOwners(users: seq<UserModel.User>, favs: seq<Favourite>, userId: int)
    requires OwnersExist(favs, users)
    ensures OwnersExist(DeleteUser(users, favs, userId).1, DeleteUser(users, favs, userId).0)
  {
    var (users', favs') := DeleteUser(users, favs, userId);
    forall i | 0 <= i < |favs'| ensures UserModel.UserExists(users', favs'[i].userId) {
      var f := favs'[i];
      assert f in favs';
      var j :| 0 <= j < |favs| && favs[j] == f;
      var k :| 0 <= k < |users| && users[k].id == f.userId;
      assert users[k] in users';
      var k' :| 0 <= k' < |users'| && users'[k'] == users[k];
    }
  }

  /** Removing one favourite (as `deleteFavorite` does) leaves every remaining favourite with its owner. */
  lemma RemoveKeepsOwners(favs: seq<Favourite>, users: seq<UserModel.User>, k: nat)
    requires k < |favs| && OwnersExist(favs, users)
    ensures OwnersExist(favs[..k] + favs[k + 1..], users)
  {
    var rest := favs[..k] + favs[k + 1..];
    forall i | 0 <= i < |rest| ensures UserModel.UserExists(users, rest[i].userId) {
      assert rest[i] == favs[if i < k then i else i + 1];
    }
  }

  /** Generated keys: a table with distinct, positive keys below the sequence's next value. */
  class FavouriteRepository {
    var rows: seq<Favourite>
    var nextId: int

    ghost predicate Valid()
      reads this
    {
      && 1 <= nextId
      && (forall k :: 0 <= k < |rows| ==> 1 <= rows[k].id < nextId)
      && DistinctIds(rows)
    }

    constructor ()
      ensures Valid() && rows == [] && nextId == 1
    {
      rows := [];
      nextId := 1;
    }

    /**
     * `save` of a new favourite: an INSERT that draws the next key and
     * succeeds only when the owner exists; the drawn key is spent either way.
     */
    method Insert(mediaId: int, mediaUrl: string, mediaType: MediaType, userId: int, users: seq<UserModel.User>)
      returns (saved: bool)
      requires Valid()
      modifies this
      ensures Valid()
      ensures saved == UserModel.UserExists(users, userId)
      ensures nextId == old(nextId) + 1
      ensures rows == if saved then old(rows) + [Favourite(old(nextId), mediaId, mediaUrl, mediaType, userId)] else old(rows)
    {
      saved := UserModel.UserExists(users, userId);
      if saved {
        rows := rows + [Favourite(nextId, mediaId, mediaUrl, mediaType, userId)];
      }
      nextId := nextId + 1;
    }

    /** `remove` of the stored favourite at position `k`: a DELETE keyed by its id, which no other row shares. */
    method Remove(k: nat)
      requires Valid() && k < |rows|
      modifies this
      ensures Valid()
      ensures nextId == old(nextId) && rows == old(rows)[..k] + old(rows)[k + 1..]
    {
      rows := rows[..k] + rows[k + 1..];
    }
  }
}
