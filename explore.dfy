/**
 * The client-side logic of client/src/pages/explore.tsx: the in-place
 * shuffle, the image-and-video merge, the paging guards, the page count and
 * the blank-query guard of the search form.
 */
module Explore {
  import opened Wrappers
  import opened Ecma

  // ---------------------------------------------------------------------
  // shuffleArray: Fisher-Yates, recorded as the sequence of swaps it makes

  /** `[s[i], s[j]] = [s[j], s[i]]` on a value. */
  function Swap<T>(s: seq<T>, i: nat, j: nat): (r: seq<T>)
    requires i < |s| && j < |s|
    ensures |r| == |s| && r[i] == s[j] && r[j] == s[i]
    ensures forall k :: 0 <= k < |s| && k != i && k != j ==> r[k] == s[k]
  {
    s[i := s[j]][j := s[i]]
  }

  lemma SwapPermutes<T>(s: seq<T>, i: nat, j: nat)
    requires i < |s| && j < |s|
    ensures multiset(Swap(s, i, j)) == multiset(s)
  {
  }

  predicate SwapsInBounds(n: nat, swaps: seq<(nat, nat)>) {
    forall k :: 0 <= k < |swaps| ==> swaps[k].0 < n && swaps[k].1 < n
  }

  /** The sequence after applying `swaps` in order. */
  function ApplySwaps<T>(s: seq<T>, swaps: seq<(nat, nat)>): (r: seq<T>)
    requires SwapsInBounds(|s|, swaps)
    ensures |r| == |s|
  {
    if swaps == [] then s
    else
      var last := swaps[|swaps| - 1];
      Swap(ApplySwaps(s, swaps[..|swaps| - 1]), last.0, last.1)
  }

  /** Applying one more swap is swapping the result of the earlier ones. */
  lemma ApplyOneMoreSwap<T>(s: seq<T>, swaps: seq<(nat, nat)>, i: nat, j: nat)
    requires SwapsInBounds(|s|, swaps) && i < |s| && j < |s|
    ensures SwapsInBounds(|s|, swaps + [(i, j)])
    ensures ApplySwaps(s, swaps + [(i, j)]) == Swap(ApplySwaps(s, swaps), i, j)
  {
    assert (swaps + [(i, j)])[..|swaps|] == swaps;
  }

  /** Any sequence of swaps is a permutation: no hit is lost or duplicated. */
  lemma {:induction false} ApplySwapsPermutes<T>(s: seq<T>, swaps: seq<(nat, nat)>)
    requires SwapsInBounds(|s|, swaps)
    ensures multiset(ApplySwaps(s, swaps)) == multiset(s)
  {
    if swaps != [] {
      var last := swaps[|swaps| - 1];
      ApplySwapsPermutes(s, swaps[..|swaps| - 1]);
      SwapPermutes(ApplySwaps(s, swaps[..|swaps| - 1]), last.0, last.1);
    }
  }

  /**
   * The swaps Fisher-Yates makes on `n` elements: step `k` swaps position
   * `n - 1 - k` with a position at or below it, for `k` from 0 while the
   * position is above 0.
   */
  predicate FisherYatesSwaps(n: nat, swaps: seq<(nat, nat)>) {
    && |swaps| == (if n == 0 then 0 else n - 1)
    && forall k :: 0 <= k < |swaps| ==> swaps[k].0 == n - 1 - k && swaps[k].1 <= swaps[k].0
  }

  /**
   * `shuffleArray`: shuffles in place and returns the same array. The random
   * choice `Math.floor(Math.random() * (i + 1))` is any `j` in `[0, i]`.
   */
  method ShuffleArray<T>(a: array<T>) returns (r: array<T>, ghost swaps: seq<(nat, nat)>)
    modifies a
    ensures r == a
    ensures FisherYatesSwaps(a.Length, swaps) && SwapsInBounds(a.Length, swaps)
    ensures a[..] == ApplySwaps(old(a[..]), swaps)
    ensures multiset(a[..]) == multiset(old(a[..]))
    ensures a.Length <= 1 ==> a[..] == old(a[..])
  {
    if a.Length == 0 {
      return a, [];
    }
    ghost var original := a[..];
    var i := a.Length - 1;
    swaps := [];
    while i > 0
      invariant 0 <= i < a.Length && |swaps| == a.Length - 1 - i
      invariant forall k :: 0 <= k < |swaps| ==> swaps[k].0 == a.Length - 1 - k && swaps[k].1 <= swaps[k].0
      invariant SwapsInBounds(a.Length, swaps)
      invariant a[..] == ApplySwaps(original, swaps)
    {
      var j :| 0 <= j <= i;
      ghost var before := a[..];
      a[i], a[j] := a[j], a[i];
      assert a[..] == Swap(before, i, j);
      ApplyOneMoreSwap(original, swaps, i, j);
      swaps := swaps + [(i, j)];
      i := i - 1;
    }
    assert FisherYatesSwaps(a.Length, swaps);
    ApplySwapsPermutes(original, swaps);
    r := a;
  }

  // ---------------------------------------------------------------------
  // Merging image and video hits

  /**
   * A Pixabay hit: its fields, and `isVideo`, which images do not carry and
   * videos get set to `true` when merged.
   */
  datatype Hit<P> = Hit(fields: P, isVideo: Option<bool>)
  {
    /** The card renders a `<video>` exactly when `result.isVideo` is truthy. */
    predicate RendersVideo() {
      isVideo == Some(true)
    }
  }

  /** `{ ...video, isVideo: true }` for each video hit. */
  function MarkVideos<P>(videos: seq<Hit<P>>): (marked: seq<Hit<P>>)
    ensures |marked| == |videos|
    ensures forall i :: 0 <= i < |videos| ==> marked[i] == videos[i].(isVideo := Some(true))
  {
    if videos == [] then [] else [videos[0].(isVideo := Some(true))] + MarkVideos(videos[1..])
  }

  /** `[...imageHits, ...videoHits.map(...)]`: images first, then the flagged videos. */
  function MergeHits<P>(images: seq<Hit<P>>, videos: seq<Hit<P>>): (merged: seq<Hit<P>>)
    ensures |merged| == |images| + |videos|
    ensures merged[..|images|] == images
    ensures forall i :: 0 <= i < |videos| ==>
      merged[|images| + i].fields == videos[i].fields && merged[|images| + i].RendersVideo()
  {
    images + MarkVideos(videos)
  }

  /** The number of cards that render as a video. */
  function VideoCards<P>(s: seq<Hit<P>>): (n: nat)
    ensures n <= |s|
  {
    if s == [] then 0 else (if s[0].RendersVideo() then 1 else 0) + VideoCards(s[1..])
  }

  lemma {:induction false} VideoCardsAppend<P>(s: seq<Hit<P>>, t: seq<Hit<P>>)
    ensures VideoCards(s + t) == VideoCards(s) + VideoCards(t)
  {
    if s != [] {
      assert (s + t)[0] == s[0] && (s + t)[1..] == s[1..] + t;
      VideoCardsAppend(s[1..], t);
    } else {
      assert s + t == t;
    }
  }

  lemma {:induction false} AllMarkedAreVideoCards<P>(videos: seq<Hit<P>>)
    ensures VideoCards(MarkVideos(videos)) == |videos|
  {
    if videos != [] {
      assert MarkVideos(videos)[1..] == MarkVideos(videos[1..]);
      AllMarkedAreVideoCards(videos[1..]);
    }
  }

  lemma {:induction false} NoVideoCards<P>(s: seq<Hit<P>>)
    requires forall i :: 0 <= i < |s| ==> s[i].isVideo.None?
    ensures VideoCards(s) == 0
  {
    if s != [] {
      NoVideoCards(s[1..]);
    }
  }

  /** Image hits carry no `isVideo`, so the merged feed shows exactly one video card per video hit. */
  lemma MergedVideoCards<P>(images: seq<Hit<P>>, videos: seq<Hit<P>>)
    requires forall i :: 0 <= i < |images| ==> images[i].isVideo.None?
    ensures VideoCards(MergeHits(images, videos)) == |videos|
  {
    VideoCardsAppend(images, MarkVideos(videos));
    NoVideoCards(images);
    AllMarkedAreVideoCards(videos);
  }

  /** `shuffleArray([...images, ...videos])` as done by both fetchers. */
  method CombineAndShuffle<P>(images: seq<Hit<P>>, videos: seq<Hit<P>>) returns (results: array<Hit<P>>)
    ensures fresh(results)
    ensures multiset(results[..]) == multiset(MergeHits(images, videos))
  {
    var merged := MergeHits(images, videos);
    var a := new Hit<P>[|merged|](i requires 0 <= i < |merged| => merged[i]);
    assert a[..] == merged;
    ghost var swaps;
    results, swaps := ShuffleArray(a);
  }

  // ---------------------------------------------------------------------
  // Paging

  datatype Move = NextPage | PreviousPage

  /** `handleNextPage` / `handlePreviousPage`: move one page unless at the edge. */
  function Step(page: int, totalPages: int, m: Move): (r: int)
    ensures m.NextPage? ==> page <= r <= page + 1 && (r == page + 1 <==> page < totalPages)
    ensures m.PreviousPage? ==> page - 1 <= r <= page && (r == page - 1 <==> page > 1)
    ensures 1 <= page <= Max(1, totalPages) ==> 1 <= r <= Max(1, totalPages)
  {
    match m
    case NextPage => if page < totalPages then page + 1 else page
    case PreviousPage => if page > 1 then page - 1 else page
  }

  /** The page after pressing the buttons in order: each press moves at most one page. */
  function Navigate(page: int, totalPages: int, moves: seq<Move>): (r: int)
    ensures page - |moves| <= r <= page + |moves|
    decreases |moves|
  {
    if moves == [] then page else Navigate(Step(page, totalPages, moves[0]), totalPages, moves[1..])
  }

  function Max(a: int, b: int): int {
    if a < b then b else a
  }

  /** However the buttons are pressed, the page stays between 1 and the page count (1 when there are none). */
  lemma {:induction false} NavigationStaysInRange(page: int, totalPages: int, moves: seq<Move>)
    requires 1 <= page <= Max(1, totalPages)
    ensures 1 <= Navigate(page, totalPages, moves) <= Max(1, totalPages)
    decreases |moves|
  {
    if moves != [] {
      NavigationStaysInRange(Step(page, totalPages, moves[0]), totalPages, moves[1..]);
    }
  }

  /** Ceiling of `n / d` for a positive divisor. */
  function CeilDiv(n: nat, d: nat): (q: nat)
    requires d > 0
    ensures q * d >= n && (q == 0 || (q - 1) * d < n)
  {
    (n + d - 1) / d
  }

  /** Images and videos requested per page. */
  const ImagesPerPage := 50
  const VideosPerPage := 15

  /** The number of hits of a `totalHits` result set on page `page` (from 1) at `perPage` per page. */
  function PageHits(totalHits: nat, perPage: nat, page: nat): nat
    requires page >= 1
  {
    if totalHits <= (page - 1) * perPage then 0
    else if totalHits - (page - 1) * perPage < perPage then totalHits - (page - 1) * perPage
    else perPage
  }

  /** The page count as computed after a search: `ceil(max(imageTotal / 10, videoTotal / 5))`. */
  function TotalPagesAsWritten(imageTotalHits: nat, videoTotalHits: nat): (n: nat)
    ensures n * 10 >= imageTotalHits && n * 5 >= videoTotalHits
    ensures n == 0 || (n - 1) * 10 < imageTotalHits || (n - 1) * 5 < videoTotalHits
  {
    Max(CeilDiv(imageTotalHits, 10), CeilDiv(videoTotalHits, 5))
  }

  /** Fifty images and no videos: five pages are offered, but page 2 holds nothing. */
  lemma TotalPagesAsWrittenOvercounts()
    ensures TotalPagesAsWritten(50, 0) == 5
    ensures PageHits(50, ImagesPerPage, 2) + PageHits(0, VideosPerPage, 2) == 0
  {
  }

  /** The page count that matches the page sizes requested. */
  function TotalPages(imageTotalHits: nat, videoTotalHits: nat): (n: nat)
    ensures n * ImagesPerPage >= imageTotalHits && n * VideosPerPage >= videoTotalHits
    ensures n == 0 || (n - 1) * ImagesPerPage < imageTotalHits || (n - 1) * VideosPerPage < videoTotalHits
  {
    Max(CeilDiv(imageTotalHits, ImagesPerPage), CeilDiv(videoTotalHits, VideosPerPage))
  }

  lemma PageHitsPositive(totalHits: nat, perPage: nat, page: nat)
    requires perPage > 0 && page >= 1
    ensures PageHits(totalHits, perPage, page) > 0 <==> page <= CeilDiv(totalHits, perPage)
  {
    var q := CeilDiv(totalHits, perPage);
    if page <= q {
      MulMonotone(page - 1, q - 1, perPage);
    } else {
      MulMonotone(q, page - 1, perPage);
    }
  }

  lemma MulMonotone(a: nat, b: nat, c: nat)
    requires a <= b
    ensures a * c <= b * c
  {
    assert b * c == a * c + (b - a) * c;
  }

  /** A page holds at least one image or video exactly when it is within the page count. */
  lemma PagesWithinCountHoldHits(imageTotalHits: nat, videoTotalHits: nat, page: nat)
    requires page >= 1
    ensures PageHits(imageTotalHits, ImagesPerPage, page) + PageHits(videoTotalHits, VideosPerPage, page) > 0
      <==> page <= TotalPages(imageTotalHits, videoTotalHits)
  {
    PageHitsPositive(imageTotalHits, ImagesPerPage, page);
    PageHitsPositive(videoTotalHits, VideosPerPage, page);
  }

  // ---------------------------------------------------------------------
  // The search form

  /** The page a search fetch asks for, or `None` when the query is blank and nothing is fetched. */
  function SearchRequest(query: string, page: int): (request: Option<int>)
    ensures request.None? <==> AllWhitespace(query)
    ensures request.Some? ==> request.value == page
  {
    TrimEmptyIffBlank(query);
    if Trim(query) == "" then None else Some(page)
  }

  /** The state of the explore page that its handlers read and write. */
  class ExplorePage {
    var query: string
    var page: int
    var totalPages: int

    constructor ()
      ensures query == "" && page == 1 && totalPages == 1
    {
      query := "";
      page := 1;
      totalPages := 1;
    }

    /** The input's `onChange`. */
    method SetQuery(q: string)
      modifies this`query
      ensures query == q
    {
      query := q;
    }

    /**
     * `handleSearch` as written: `setPage(1)` is deferred to the next render,
     * so the fetch it awaits reads the page of the current render.
     */
    method HandleSearchAsWritten() returns (request: Option<int>)
      modifies this`page
      ensures request == SearchRequest(query, old(page))
      ensures page == if request.Some? then 1 else old(page)
    {
      request := SearchRequest(query, page);
      if request.Some? {
        page := 1;
      }
    }

    /** `handleSearch` with the fetch for page 1 that resetting the page is meant to give. */
    method HandleSearch() returns (request: Option<int>)
      modifies this`page
      ensures request == SearchRequest(query, 1)
      ensures page == if request.Some? then 1 else old(page)
    {
      request := SearchRequest(query, 1);
      if request.Some? {
        page := 1;
      }
    }

    /** The `[page]` effect: refetch the current page unless the query is blank. */
    method PageEffect() returns (request: Option<int>)
      ensures request == SearchRequest(query, page)
      ensures request.Some? ==> request.value == page
    {
      request := SearchRequest(query, page);
    }

    method HandleNextPage()
      modifies this`page
      ensures page == Step(old(page), totalPages, NextPage)
    {
      if page < totalPages {
        page := page + 1;
      }
    }

    method HandlePreviousPage()
      modifies this`page
      ensures page == Step(old(page), totalPages, PreviousPage)
    {
      if page > 1 {
        page := page - 1;
      }
    }

    /** `setTotalPages` after a successful search as written: ten images and five videos a page. */
    method ReceiveTotalsAsWritten(imageTotalHits: nat, videoTotalHits: nat)
      modifies this`totalPages
      ensures totalPages == TotalPagesAsWritten(imageTotalHits, videoTotalHits)
    {
      totalPages := TotalPagesAsWritten(imageTotalHits, videoTotalHits);
    }

    /** `setTotalPages` with the page sizes the fetches request, fifty images and fifteen videos. */
    method ReceiveTotals(imageTotalHits: nat, videoTotalHits: nat)
      modifies this`totalPages
      ensures totalPages == TotalPages(imageTotalHits, videoTotalHits)
    {
      totalPages := TotalPages(imageTotalHits, videoTotalHits);
    }
  }

  /** On page 3, a search as written fetches page 3 of the new query while the page shown becomes 1. */
  method StaleSearchPageScenario() returns (request: Option<int>, shown: int)
    ensures request == Some(3) && shown == 1
  {
    var p := new ExplorePage();
    p.SetQuery("cats");
    p.totalPages := 5;
    p.HandleNextPage();
    p.HandleNextPage();
    assert p.page == 3;
    assert !AllWhitespace(p.query) by { assert !IsWhitespace(p.query[0]); }
    request := p.HandleSearchAsWritten();
    shown := p.page;
  }
}
