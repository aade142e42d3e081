/**
 * The handlers of server/src/controllers/favouriteController.ts over the
 * favourite table. Each handler is one atomic step: a status code (or a JSON
 * value) and a change, or no change, to the table. The requesting user's id
 * is the one the access-token gate put on the request.
 */
module FavouriteController {
  import opened Wrappers
  import opened Ecma
  import UserModel
  import opened FavouriteModel

  /** Responses of the two handlers that write to the table. */
  datatype Outcome =
    | Added
    | AlreadyFavorited
    | AddFailed
    | Removed
    | InvalidPixabayId
    | FavoriteNotFound
    | DeleteFailed
  {
    function Status(): int {
      match this
      case Added => 201
      case AlreadyFavorited => 400
      case AddFailed => 500
      case Removed => 200
      case InvalidPixabayId => 400
      case FavoriteNotFound => 404
      case DeleteFailed => 500
    }

    function Message(): string {
      match this
      case Added => "Favorite added successfully"
      case AlreadyFavorited => "Already favorited"
      case AddFailed => "Failed to add favorite"
      case Removed => "Favorite removed successfully"
      case InvalidPixabayId => "Invalid pixabay ID"
      case FavoriteNotFound => "Favorite not found"
      case DeleteFailed => "Failed to delete favorite"
    }
  }

  // ---------------------------------------------------------------------------
  // Listing a user's favourites

  /** `Holds` on a non-empty table: the first row, or a later one. */
  lemma HoldsUnfold(favs: seq<Favourite>, userId: int, mediaId: int)
    requires favs != []
    ensures Holds(favs, userId, mediaId) <==>
      (favs[0].userId == userId && favs[0].mediaId == mediaId) || Holds(favs[1..], userId, mediaId)
  {
    if Holds(favs, userId, mediaId) && !(favs[0].userId == userId && favs[0].mediaId == mediaId) {
      var k :| 0 <= k < |favs| && favs[k].userId == userId && favs[k].mediaId == mediaId;
      assert favs[1..][k - 1] == favs[k];
    }
    if Holds(favs[1..], userId, mediaId) {
      var k :| 0 <= k < |favs| - 1 && favs[1..][k].userId == userId && favs[1..][k].mediaId == mediaId;
      assert favs[k + 1] == favs[1..][k];
    }
  }

  /** The listing `favourites.map((favourite) => favourite.mediaId)`: the `mediaId` of each favourite the user owns, in storage order. */
  function MediaIdsOf(favs: seq<Favourite>, userId: int): (ids: seq<int>)
    ensures forall m :: m in ids <==> Holds(favs, userId, m)
  {
    if favs == [] then []
    else
      var rest := MediaIdsOf(favs[1..], userId);
      assert forall m :: Holds(favs, userId, m) <==>
        (favs[0].userId == userId && favs[0].mediaId == m) || Holds(favs[1..], userId, m) by {
        forall m ensures Holds(favs, userId, m) <==>
          (favs[0].userId == userId && favs[0].mediaId == m) || Holds(favs[1..], userId, m) {
          HoldsUnfold(favs, userId, m);
        }
      }
      (if favs[0].userId == userId then [favs[0].mediaId] else []) + rest
  }

  /** One listed id per favourite the user owns. */
  lemma {:induction false} FavoriteIdsOnePerRecord(favs: seq<Favourite>, userId: int)
    ensures |MediaIdsOf(favs, userId)| == |FavouritesOf(favs, userId)|
  {
    if favs != [] {
      FavoriteIdsOnePerRecord(favs[1..], userId);
    }
  }

  predicate NoDuplicates(ids: seq<int>) {
    forall i, j :: 0 <= i < j < |ids| ==> ids[i] != ids[j]
  }

  /** A value not in a duplicate-free list can be put in front of it. */
  lemma ConsNoDuplicates(m: int, ids: seq<int>)
    requires NoDuplicates(ids) && m !in ids
    ensures NoDuplicates([m] + ids)
  {
    var r := [m] + ids;
    forall i, j | 0 <= i < j < |r| ensures r[i] != r[j] {
      assert r[j] == ids[j - 1];
      if i > 0 {
        assert r[i] == ids[i - 1];
      }
    }
  }

  /** Under the one-per-(user, mediaId) invariant a user's listed ids are pairwise distinct. */
  lemma {:induction false} FavoriteIdsDistinct(favs: seq<Favourite>, userId: int)
    requires OnePerUserMedia(favs)
    ensures NoDuplicates(MediaIdsOf(favs, userId))
  {
    if favs != [] {
      var tail := favs[1..];
      assert OnePerUserMedia(tail) by {
        forall i, j | 0 <= i < j < |tail| ensures tail[i].userId != tail[j].userId || tail[i].mediaId != tail[j].mediaId {
          assert tail[i] == favs[i + 1] && tail[j] == favs[j + 1];
        }
      }
      FavoriteIdsDistinct(tail, userId);
      var rest := MediaIdsOf(tail, userId);
      if favs[0].userId == userId {
        ConsNoDuplicates(favs[0].mediaId, rest);
        assert MediaIdsOf(favs, userId) == [favs[0].mediaId] + rest;
      } else {
        assert MediaIdsOf(favs, userId) == rest;
      }
    }
  }

  /** One item of the `getFavorites` response: `{ id: mediaId, url: mediaUrl, mediaType }`. */
  datatype Detail = Detail(id: int, url: string, mediaType: MediaType)

  /** The listing of `getFavorites`: the user's favourites as details, each taken from one of the user's rows. */
  function DetailsOf(favs: seq<Favourite>, userId: int): (details: seq<Detail>)
    ensures forall d :: d in details ==>
      exists f :: f in favs && f.userId == userId && d == Detail(f.mediaId, f.mediaUrl, f.mediaType)
  {
    if favs == [] then []
    else
      var f := favs[0];
      var rest := DetailsOf(favs[1..], userId);
      assert forall g :: g in favs[1..] ==> g in favs;
      (if f.userId == userId then [Detail(f.mediaId, f.mediaUrl, f.mediaType)] else []) + rest
  }

  /** The two listings agree: same length, and the i-th detail carries the i-th id. */
  lemma {:induction false} FavoritesAlignWithIds(favs: seq<Favourite>, userId: int)
    ensures var ids := MediaIdsOf(favs, userId);
      var details := DetailsOf(favs, userId);
      |details| == |ids| && forall i :: 0 <= i < |ids| ==> details[i].id == ids[i]
  {
    if favs != [] {
      FavoritesAlignWithIds(favs[1..], userId);
    }
  }

  /** `rows.map((favourite) => ({ id: favourite.mediaId, url: favourite.mediaUrl, mediaType: favourite.mediaType }))`. */
  function Details(rows: seq<Favourite>): (details: seq<Detail>)
    ensures |details| == |rows|
    ensures forall i :: 0 <= i < |rows| ==> details[i] == Detail(rows[i].mediaId, rows[i].mediaUrl, rows[i].mediaType)
  {
    if rows == [] then [] else [Detail(rows[0].mediaId, rows[0].mediaUrl, rows[0].mediaType)] + Details(rows[1..])
  }

  /** The details listed are the user's favourites, one for one and in order, each mapped to its `{ id, url, mediaType }`. */
  lemma {:induction false} DetailsMapFavourites(favs: seq<Favourite>, userId: int)
    ensures DetailsOf(favs, userId) == Details(FavouritesOf(favs, userId))
  {
    if favs != [] {
      DetailsMapFavourites(favs[1..], userId);
      var f, mine := favs[0], FavouritesOf(favs[1..], userId);
      if f.userId == userId {
        assert ([f] + mine)[1..] == mine;
      }
    }
  }

  /** A listing response: 200 with its items, or 500 when the lookup by user fails. */
  datatype Listing<T> = Listed(items: seq<T>) | ListingFailed
  {
    function Status(): int {
      if Listed? then 200 else 500
    }
  }

  /**
   * `getFavoriteIds`: the ids of the user's favourites, or 500 when the user
   * id does not fit the `integer` column the query compares it with.
   */
  function GetFavoriteIds(favs: seq<Favourite>, userId: int): (r: Listing<int>)
    ensures r.ListingFailed? <==> !UserModel.IsInt32(userId)
    ensures r.Listed? ==> forall m :: m in r.items <==> Holds(favs, userId, m)
    ensures r.Listed? ==> |r.items| == |FavouritesOf(favs, userId)|
  {
    if !UserModel.IsInt32(userId) then ListingFailed
    else
      FavoriteIdsOnePerRecord(favs, userId);
      Listed(MediaIdsOf(favs, userId))
  }

  /** `getFavorites`: each of the user's favourites as `{ id, url, mediaType }`, in order, or 500 as for the ids. */
  function GetFavorites(favs: seq<Favourite>, userId: int): (r: Listing<Detail>)
    ensures r.ListingFailed? <==> !UserModel.IsInt32(userId)
    ensures r.Listed? ==> var mine := FavouritesOf(favs, userId);
      && |r.items| == |mine|
      && forall i :: 0 <= i < |mine| ==> r.items[i] == Detail(mine[i].mediaId, mine[i].mediaUrl, mine[i].mediaType)
  {
    if !UserModel.IsInt32(userId) then ListingFailed
    else
      DetailsMapFavourites(favs, userId);
      Listed(DetailsOf(favs, userId))
  }

  // ---------------------------------------------------------------------------
  // Adding and deleting

  /**
   * Whether a lookup by (user, mediaId) can run: both values fit the
   * `integer` columns they are compared with. Otherwise the query fails
   * and the handler answers 500.
   */
  predicate InRange(userId: int, mediaId: int) {
    UserModel.IsInt32(userId) && UserModel.IsInt32(mediaId)
  }

  /** `findOne({ where: { user: { id: userId }, mediaId } })`: the first matching row, by position. */
  function FindOne(favs: seq<Favourite>, userId: int, mediaId: int): (r: Option<nat>)
    ensures r.Some? <==> Holds(favs, userId, mediaId)
    ensures r.Some? ==> r.value < |favs| && favs[r.value].userId == userId && favs[r.value].mediaId == mediaId
  {
    if favs == [] then None
    else if favs[0].userId == userId && favs[0].mediaId == mediaId then Some(0)
    else
      var r := FindOne(favs[1..], userId, mediaId);
      HoldsUnfold(favs, userId, mediaId);
      if r.Some? then Some(r.value + 1) else None
  }

  /**
   * `addFavorite`: refuses a second favourite of the same media for the same
   * user (whatever its url or type), otherwise saves one new row owned by the
   * user. The save fails (500) when the owner row does not exist; the
   * lookup itself fails (500, before any save) when the user id or `mediaId`
   * does not fit its `integer` column.
   */
  method AddFavorite(repo: FavouriteRepository, users: seq<UserModel.User>,
                     userId: int, mediaId: int, mediaType: MediaType, mediaUrl: string)
    returns (out: Outcome)
    requires repo.Valid()
    modifies repo
    ensures repo.Valid()
    ensures !InRange(userId, mediaId) ==>
      out == AddFailed && repo.rows == old(repo.rows) && repo.nextId == old(repo.nextId)
    ensures InRange(userId, mediaId) && Holds(old(repo.rows), userId, mediaId) ==>
      out == AlreadyFavorited && repo.rows == old(repo.rows) && repo.nextId == old(repo.nextId)
    ensures InRange(userId, mediaId) && !Holds(old(repo.rows), userId, mediaId) && !UserModel.UserExists(users, userId) ==>
      out == AddFailed && repo.rows == old(repo.rows) && repo.nextId == old(repo.nextId) + 1
    ensures InRange(userId, mediaId) && !Holds(old(repo.rows), userId, mediaId) && UserModel.UserExists(users, userId) ==>
      && out == Added
      && repo.rows == old(repo.rows) + [Favourite(old(repo.nextId), mediaId, mediaUrl, mediaType, userId)]
      && repo.nextId == old(repo.nextId) + 1
    ensures OnePerUserMedia(old(repo.rows)) ==> OnePerUserMedia(repo.rows)
    ensures OwnersExist(old(repo.rows), users) ==> OwnersExist(repo.rows, users)
  {
    if !InRange(userId, mediaId) {
      return AddFailed;
    }
    var existing := FindOne(repo.rows, userId, mediaId);
    if existing.Some? {
      return AlreadyFavorited;
    }
    var saved := repo.Insert(mediaId, mediaUrl, mediaType, userId, users);
    out := if saved then Added else AddFailed;
  }

  /**
   * The duplicate check keys on (user, mediaId) only: another user's
   * favourite of the same media never blocks this user.
   */
  lemma OtherUsersDoNotBlock(favs: seq<Favourite>, f: Favourite, userId: int, mediaId: int)
    requires f.userId != userId
    ensures Holds(favs + [f], userId, mediaId) <==> Holds(favs, userId, mediaId)
  {
    if Holds(favs, userId, mediaId) {
      var k :| 0 <= k < |favs| && favs[k].userId == userId && favs[k].mediaId == mediaId;
      assert (favs + [f])[k] == favs[k];
    }
  }

  /** The table without its row at position `k`. */
  lemma RemoveLeavesNoDuplicate(favs: seq<Favourite>, k: nat)
    requires k < |favs| && OnePerUserMedia(favs)
    ensures var rest := favs[..k] + favs[k + 1..];
      && OnePerUserMedia(rest)
      && !Holds(rest, favs[k].userId, favs[k].mediaId)
      && multiset(rest) + multiset{favs[k]} == multiset(favs)
  {
    var rest := favs[..k] + favs[k + 1..];
    forall i, j | 0 <= i < j < |rest|
      ensures rest[i].userId != rest[j].userId || rest[i].mediaId != rest[j].mediaId
    {
      assert rest[i] == favs[if i < k then i else i + 1];
      assert rest[j] == favs[if j < k then j else j + 1];
    }
    forall m | 0 <= m < |rest|
      ensures rest[m].userId != favs[k].userId || rest[m].mediaId != favs[k].mediaId
    {
      assert rest[m] == favs[if m < k then m else m + 1];
    }
    assert favs == favs[..k] + [favs[k]] + favs[k + 1..];
  }

  /**
   * `deleteFavorite`: parses the path parameter with `parseInt(s, 10)`;
   * NaN is 400, a user id or number outside the `integer` columns' range
   * makes the lookup fail (500), no matching favourite of the user is 404, otherwise
   * the first match is removed and nothing else changes.
   */
  method DeleteFavorite(repo: FavouriteRepository, userId: int, pixabayId: string)
    returns (out: Outcome)
    requires repo.Valid()
    modifies repo
    ensures repo.Valid() && repo.nextId == old(repo.nextId)
    ensures DeleteEffect(old(repo.rows), repo.rows, userId, ParseInt(pixabayId), out)
  {
    var parsed := ParseInt(pixabayId);
    out := DeleteParsed(repo, userId, parsed);
  }

  /**
   * What `deleteFavorite` does once the id is parsed (`None` being NaN):
   * the outcome, the new table, and that the one-per-(user, mediaId)
   * invariant survives and leaves no record for the deleted key.
   */
  ghost predicate DeleteEffect(before: seq<Favourite>, after: seq<Favourite>, userId: int, parsed: Option<int>, out: Outcome) {
    && (parsed.None? ==> out == InvalidPixabayId && after == before)
    && (parsed.Some? && !InRange(userId, parsed.value) ==> out == DeleteFailed && after == before)
    && (parsed.Some? && InRange(userId, parsed.value) && !Holds(before, userId, parsed.value) ==>
          out == FavoriteNotFound && after == before)
    && (parsed.Some? && InRange(userId, parsed.value) && Holds(before, userId, parsed.value) ==>
          && out == Removed
          && var k := FindOne(before, userId, parsed.value).value;
             after == before[..k] + before[k + 1..])
    && (OnePerUserMedia(before) ==>
          && OnePerUserMedia(after)
          && (out == Removed ==> !Holds(after, userId, parsed.value)))
  }

  /** The lookup and removal of `deleteFavorite`, after the id has been parsed. */
  method DeleteParsed(repo: FavouriteRepository, userId: int, parsed: Option<int>)
    returns (out: Outcome)
    requires repo.Valid()
    modifies repo
    ensures repo.Valid() && repo.nextId == old(repo.nextId)
    ensures DeleteEffect(old(repo.rows), repo.rows, userId, parsed, out)
  {
    if parsed.None? {
      return InvalidPixabayId;
    }
    if !InRange(userId, parsed.value) {
      return DeleteFailed;
    }
    var found := FindOne(repo.rows, userId, parsed.value);
    if found.None? {
      return FavoriteNotFound;
    }
    var k := found.value;
    if OnePerUserMedia(repo.rows) {
      RemoveLeavesNoDuplicate(repo.rows, k);
    }
    repo.Remove(k);
    out := Removed;
  }

  // ---------------------------------------------------------------------------
  // Top favourites

  /** The row limit of the top-favourites query. */
  const TopLimit := 30

  /** One row of `getTopFavorites`: a (mediaId, mediaUrl) group and its size. */
  datatype TopRow = TopRow(mediaId: int, mediaUrl: string, count: nat)

  /** `COUNT(favourite.mediaId)` over the group of this (mediaId, mediaUrl), all users together. */
  function PairCount(favs: seq<Favourite>, mediaId: int, mediaUrl: string): nat {
    if favs == [] then 0
    else (if favs[0].mediaId == mediaId && favs[0].mediaUrl == mediaUrl then 1 else 0)
         + PairCount(favs[1..], mediaId, mediaUrl)
  }

  /** A stored favourite's group is never empty. */
  lemma {:induction false} PairCountPositive(favs: seq<Favourite>, k: nat)
    requires k < |favs|
    ensures PairCount(favs, favs[k].mediaId, favs[k].mediaUrl) >= 1
  {
    if k > 0 {
      assert favs[1..][k - 1] == favs[k];
      PairCountPositive(favs[1..], k - 1);
    }
  }

  /** Whether some stored favourite has this (mediaId, mediaUrl). */
  predicate Occurs(favs: seq<Favourite>, p: (int, string)) {
    exists k :: 0 <= k < |favs| && favs[k].mediaId == p.0 && favs[k].mediaUrl == p.1
  }

  /** The distinct (mediaId, mediaUrl) pairs of the table, in order of first occurrence: `GROUP BY`. */
  function Pairs(favs: seq<Favourite>): (ps: seq<(int, string)>)
    ensures forall i, j :: 0 <= i < j < |ps| ==> ps[i] != ps[j]
    ensures forall p :: p in ps <==> Occurs(favs, p)
  {
    if favs == [] then []
    else
      var init := favs[..|favs| - 1];
      var last := favs[|favs| - 1];
      var ps := Pairs(init);
      var p := (last.mediaId, last.mediaUrl);
      assert forall q :: Occurs(favs, q) <==> Occurs(init, q) || q == p by {
        forall q | Occurs(init, q) ensures Occurs(favs, q) {
          var k :| 0 <= k < |init| && init[k].mediaId == q.0 && init[k].mediaUrl == q.1;
          assert favs[k] == init[k];
        }
        forall q | Occurs(favs, q) && q != p ensures Occurs(init, q) {
          var k :| 0 <= k < |favs| && favs[k].mediaId == q.0 && favs[k].mediaUrl == q.1;
          assert init[k] == favs[k];
        }
      }
      if p in ps then ps else ps + [p]
  }

  function Key(row: TopRow): (int, string) {
    (row.mediaId, row.mediaUrl)
  }

  predicate DistinctKeys(rows: seq<TopRow>) {
    forall i, j :: 0 <= i < j < |rows| ==> Key(rows[i]) != Key(rows[j])
  }

  predicate SortedByCount(rows: seq<TopRow>) {
    forall i, j :: 0 <= i < j < |rows| ==> rows[i].count >= rows[j].count
  }

  /** One row per group with its count, groups in order of first occurrence. */
  function Groups(favs: seq<Favourite>): (rows: seq<TopRow>)
    ensures DistinctKeys(rows)
    ensures forall row :: row in rows ==> Occurs(favs, Key(row)) && row.count == PairCount(favs, row.mediaId, row.mediaUrl)
    ensures forall p :: Occurs(favs, p) ==> TopRow(p.0, p.1, PairCount(favs, p.0, p.1)) in rows
  {
    var ps := Pairs(favs);
    var rows := seq(|ps|, i requires 0 <= i < |ps| => TopRow(ps[i].0, ps[i].1, PairCount(favs, ps[i].0, ps[i].1)));
    assert forall i :: 0 <= i < |rows| ==> Key(rows[i]) == ps[i];
    assert forall p :: Occurs(favs, p) ==> TopRow(p.0, p.1, PairCount(favs, p.0, p.1)) in rows by {
      forall p | Occurs(favs, p) ensures TopRow(p.0, p.1, PairCount(favs, p.0, p.1)) in rows {
        var i :| 0 <= i < |ps| && ps[i] == p;
        assert rows[i] == TopRow(p.0, p.1, PairCount(favs, p.0, p.1));
      }
    }
    rows
  }

  /** Inserts `x` after every row whose count is at least its own. */
  function InsertByCount(x: TopRow, rows: seq<TopRow>): (r: seq<TopRow>)
    requires SortedByCount(rows)
    ensures SortedByCount(r)
    ensures multiset(r) == multiset(rows) + multiset{x}
  {
    if rows == [] then [x]
    else if rows[0].count >= x.count then
      assert rows == [rows[0]] + rows[1..];
      var r' := InsertByCount(x, rows[1..]);
      HeadBoundsInsertion(x, rows, r');
      [rows[0]] + r'
    else
      [x] + rows
  }

  /** The head of a sorted list, at least `x`, can stand before the insertion of `x` into the rest. */
  lemma HeadBoundsInsertion(x: TopRow, rows: seq<TopRow>, r': seq<TopRow>)
    requires rows != [] && SortedByCount(rows) && rows[0].count >= x.count
    requires SortedByCount(r') && multiset(r') == multiset(rows[1..]) + multiset{x}
    ensures SortedByCount([rows[0]] + r')
  {
    forall j | 0 <= j < |r'| ensures rows[0].count >= r'[j].count {
      assert r'[j] in multiset(r');
      if r'[j] != x {
        assert r'[j] in multiset(rows[1..]);
        var m :| 0 <= m < |rows| - 1 && rows[1..][m] == r'[j];
        assert rows[m + 1] == r'[j];
      }
    }
  }

  /** A row whose key no row of a key-distinct list has can be put in front of it. */
  lemma ConsKeysDistinct(h: TopRow, rows: seq<TopRow>)
    requires DistinctKeys(rows)
    requires forall j :: 0 <= j < |rows| ==> Key(rows[j]) != Key(h)
    ensures DistinctKeys([h] + rows)
  {
    var r := [h] + rows;
    forall i, j | 0 <= i < j < |r| ensures Key(r[i]) != Key(r[j]) {
      assert r[j] == rows[j - 1];
      if i > 0 {
        assert r[i] == rows[i - 1];
      }
    }
  }

  /** Inserting a row whose key is new keeps the keys distinct. */
  lemma {:induction false} InsertKeepsKeysDistinct(x: TopRow, rows: seq<TopRow>)
    requires SortedByCount(rows) && DistinctKeys(rows)
    requires forall j :: 0 <= j < |rows| ==> Key(rows[j]) != Key(x)
    ensures DistinctKeys(InsertByCount(x, rows))
  {
    if rows == [] {
    } else if rows[0].count >= x.count {
      var tail := rows[1..];
      assert DistinctKeys(tail) by {
        forall i, j | 0 <= i < j < |tail| ensures Key(tail[i]) != Key(tail[j]) {
          assert tail[i] == rows[i + 1] && tail[j] == rows[j + 1];
        }
      }
      assert forall j :: 0 <= j < |tail| ==> tail[j] == rows[j + 1];
      InsertKeepsKeysDistinct(x, tail);
      var r' := InsertByCount(x, tail);
      forall j | 0 <= j < |r'| ensures Key(r'[j]) != Key(rows[0]) {
        assert r'[j] in multiset(r');
        if r'[j] != x {
          assert r'[j] in multiset(tail);
          var m :| 0 <= m < |tail| && tail[m] == r'[j];
        }
      }
      ConsKeysDistinct(rows[0], r');
    } else {
      ConsKeysDistinct(x, rows);
    }
  }

  /** Insertion sort by descending count. */
  function SortByCount(rows: seq<TopRow>): (r: seq<TopRow>)
    ensures SortedByCount(r)
    ensures multiset(r) == multiset(rows)
  {
    if rows == [] then []
    else
      assert rows == [rows[0]] + rows[1..];
      InsertByCount(rows[0], SortByCount(rows[1..]))
  }

  /** Sorting keeps distinct keys distinct. */
  lemma {:induction false} SortKeepsKeysDistinct(rows: seq<TopRow>)
    requires DistinctKeys(rows)
    ensures DistinctKeys(SortByCount(rows))
  {
    if rows != [] {
      var tail := rows[1..];
      assert DistinctKeys(tail) by {
        forall i, j | 0 <= i < j < |tail| ensures Key(tail[i]) != Key(tail[j]) {
          assert tail[i] == rows[i + 1] && tail[j] == rows[j + 1];
        }
      }
      SortKeepsKeysDistinct(tail);
      var sorted := SortByCount(tail);
      forall j | 0 <= j < |sorted| ensures Key(sorted[j]) != Key(rows[0]) {
        assert sorted[j] in multiset(sorted);
        var m :| 0 <= m < |tail| && tail[m] == sorted[j];
        assert rows[m + 1] == sorted[j];
      }
      InsertKeepsKeysDistinct(rows[0], SortByCount(tail));
    }
  }

  /**
   * `getTopFavorites`: group all favourites by (mediaId, mediaUrl), count,
   * order by count descending, keep the first 30 rows. SQL leaves the order
   * of equal counts open; this model keeps one admissible order.
   */
  function GetTopFavorites(favs: seq<Favourite>): (top: seq<TopRow>)
    ensures |top| <= TopLimit
  {
    Limit(SortByCount(Groups(favs)))
  }

  /** `LIMIT 30`: the first 30 rows, or all of them when there are fewer. */
  function Limit(rows: seq<TopRow>): (r: seq<TopRow>)
    ensures |r| == (if |rows| <= TopLimit then |rows| else TopLimit) && r == rows[..|r|]
  {
    if |rows| <= TopLimit then rows else rows[..TopLimit]
  }

  /** A row of a sorted list survives the limit, or the limit is full of rows counting at least as much. */
  lemma LimitKeepsOrBeats(rows: seq<TopRow>, i: nat)
    requires SortedByCount(rows) && i < |rows|
    ensures var top := Limit(rows);
      || (i < |top| && top[i] == rows[i])
      || (|top| == TopLimit && rows[i].count <= top[TopLimit - 1].count)
  {
    var top := Limit(rows);
    if i >= TopLimit {
      assert top[TopLimit - 1] == rows[TopLimit - 1];
    }
  }

  /** Every row is a group that occurs, with its true count, and no group appears twice. */
  lemma TopFavoritesRowsAreGroups(favs: seq<Favourite>)
    ensures var top := GetTopFavorites(favs);
      && DistinctKeys(top)
      && forall i :: 0 <= i < |top| ==>
           top[i].count == PairCount(favs, top[i].mediaId, top[i].mediaUrl) && top[i].count >= 1
  {
    var ranked := SortByCount(Groups(favs));
    var top := GetTopFavorites(favs);
    SortKeepsKeysDistinct(Groups(favs));
    forall i | 0 <= i < |top|
      ensures top[i].count == PairCount(favs, top[i].mediaId, top[i].mediaUrl) && top[i].count >= 1
    {
      assert top[i] == ranked[i] && ranked[i] in multiset(ranked);
      assert ranked[i] in Groups(favs);
      var k :| 0 <= k < |favs| && favs[k].mediaId == top[i].mediaId && favs[k].mediaUrl == top[i].mediaUrl;
      PairCountPositive(favs, k);
    }
  }

  /** Rows come in non-increasing order of count. */
  lemma TopFavoritesOrdered(favs: seq<Favourite>)
    ensures SortedByCount(GetTopFavorites(favs))
  {
    var ranked := SortByCount(Groups(favs));
    var top := GetTopFavorites(favs);
    assert forall i :: 0 <= i < |top| ==> top[i] == ranked[i];
  }

  /**
   * No group is lost except to the limit: every stored favourite's group has
   * a row, or all 30 rows are taken and its count is at most the last row's.
   */
  lemma TopFavoritesOmitOnlySmaller(favs: seq<Favourite>)
    ensures var top := GetTopFavorites(favs);
      forall k :: 0 <= k < |favs| ==>
        || (exists i :: 0 <= i < |top| && Key(top[i]) == (favs[k].mediaId, favs[k].mediaUrl))
        || (|top| == TopLimit && PairCount(favs, favs[k].mediaId, favs[k].mediaUrl) <= top[TopLimit - 1].count)
  {
    var top := GetTopFavorites(favs);
    forall k | 0 <= k < |favs|
      ensures || (exists i :: 0 <= i < |top| && Key(top[i]) == (favs[k].mediaId, favs[k].mediaUrl))
              || (|top| == TopLimit && PairCount(favs, favs[k].mediaId, favs[k].mediaUrl) <= top[TopLimit - 1].count)
    {
      var p := (favs[k].mediaId, favs[k].mediaUrl);
      assert Occurs(favs, p);
      GroupKeptOrBeaten(favs, p);
    }
  }

  /** The ranking step for one occurring group: it keeps its row, or the limit is full of rows counting at least as much. */
  lemma GroupKeptOrBeaten(favs: seq<Favourite>, p: (int, string))
    requires Occurs(favs, p)
    ensures var top := GetTopFavorites(favs);
      || (exists i :: 0 <= i < |top| && Key(top[i]) == p)
      || (|top| == TopLimit && PairCount(favs, p.0, p.1) <= top[TopLimit - 1].count)
  {
    var ranked := SortByCount(Groups(favs));
    var top := Limit(ranked);
    var row := TopRow(p.0, p.1, PairCount(favs, p.0, p.1));
    assert row in multiset(ranked);
    var i :| 0 <= i < |ranked| && ranked[i] == row;
    LimitKeepsOrBeats(ranked, i);
    if i < |top| && top[i] == ranked[i] {
      assert Key(top[i]) == p;
    }
  }

  // ---------------------------------------------------------------------------
  // A session

  /**
   * Favouriting media 42 twice keeps one record; deleting it through the
   * route path `"42"` once removes it, and again finds nothing.
   */
  method FavouriteSession() returns (first: Outcome, second: Outcome, removed: Outcome, again: Outcome)
    ensures first == Added && first.Status() == 201
    ensures second == AlreadyFavorited && second.Status() == 400
    ensures removed == Removed && removed.Status() == 200
    ensures again == FavoriteNotFound && again.Status() == 404
  {
    var users := [UserModel.NewUser(1, "alice", "a@x.com", UserModel.Bcrypt(10, "salt", "pw"))];
    assert UserModel.UserExists(users, 1) by { assert users[0].id == 1; }
    var repo := new FavouriteRepository();
    first := AddFavorite(repo, users, 1, 42, Image, "https://cdn.example/42.jpg");
    assert Holds(repo.rows, 1, 42) by { assert repo.rows[0].userId == 1 && repo.rows[0].mediaId == 42; }
    second := AddFavorite(repo, users, 1, 42, Video, "https://cdn.example/42.mp4");
    assert OnePerUserMedia(repo.rows);
    removed, again := DeleteTwice(repo, 1, 42);
  }

  /**
   * Deleting a media the user holds through the route path `String(mediaId)`:
   * the first request removes it, a repeat of the same request finds nothing.
   */
  method DeleteTwice(repo: FavouriteRepository, userId: int, mediaId: int) returns (removed: Outcome, again: Outcome)
    requires repo.Valid() && OnePerUserMedia(repo.rows)
    requires InRange(userId, mediaId) && Holds(repo.rows, userId, mediaId)
    modifies repo
    ensures removed == Removed && again == FavoriteNotFound
  {
    var path := IntToString(mediaId);
    ParseIntRoundTrip(mediaId);
    removed := DeleteFavorite(repo, userId, path);
    again := DeleteFavorite(repo, userId, path);
  }

  /**
   * A token claiming user id 2^31, one past the `integer` column: adding a
   * favourite fails before anything is saved or a key is drawn, and the
   * listing fails too.
   */
  method OutOfRangeUserSession() returns (added: Outcome, nextId: int, ids: Listing<int>)
    ensures added == AddFailed && added.Status() == 500 && nextId == 1
    ensures ids == ListingFailed && ids.Status() == 500
  {
    var repo := new FavouriteRepository();
    added := AddFavorite(repo, [], 0x8000_0000, 42, Image, "https://cdn.example/42.jpg");
    nextId := repo.nextId;
    ids := GetFavoriteIds(repo.rows, 0x8000_0000);
  }
}
