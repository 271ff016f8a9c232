/** The fetch-and-cache layer: `fetchShows`, `fetchEpisodes` and the step of `setup` that
    stores the show list. The network is a parameter: the response the API would give. */
module DataStore {
  import opened Basics
  import opened Catalog
  import opened ShowSort

  /** `cachedEpisodes`: show id to the episodes fetched for it. */
  type EpisodeCache = map<int, seq<Episode>>

  /** One `fetchEpisodes` call: what it returns or throws, the cache afterwards, and
      whether it sent a request. */
  datatype EpisodeFetch = EpisodeFetch(result: Result<seq<Episode>>, cache: EpisodeCache, requested: bool)

  /** `fetchEpisodes(showId)`, with `response` standing for what the episodes endpoint
      would answer. An entry present in the cache (even an empty list, which is truthy
      in JavaScript) is served without a request. */
  function FetchEpisodes(cache: EpisodeCache, showId: int, response: Result<seq<Episode>>): (f: EpisodeFetch)
    ensures showId in cache ==> !f.requested && f.result == Ok(cache[showId]) && f.cache == cache
    ensures showId !in cache ==> f.requested && f.result == response
    ensures f.result.Ok? ==> showId in f.cache && f.cache[showId] == f.result.value
    ensures f.result.Err? ==> f.cache == cache
    ensures f.cache.Keys == cache.Keys + (if f.result.Ok? then {showId} else {})
    ensures forall k | k in cache :: k in f.cache && f.cache[k] == cache[k]
  {
    if showId in cache then EpisodeFetch(Ok(cache[showId]), cache, false)
    else
      match response
      case Err(status) => EpisodeFetch(Err(status), cache, true)
      case Ok(data) => EpisodeFetch(Ok(data), cache[showId := data], true)
  }

  /** A failed fetch leaves nothing behind, so asking again sends a new request. */
  lemma FailedFetchIsRetried(cache: EpisodeCache, showId: int, failed: Result<seq<Episode>>, next: Result<seq<Episode>>)
    requires showId !in cache && failed.Err?
    ensures FetchEpisodes(FetchEpisodes(cache, showId, failed).cache, showId, next).requested
  {
  }

  /** A successful fetch is served from the cache afterwards, with the same episodes. */
  lemma FetchedEpisodesAreReused(cache: EpisodeCache, showId: int, first: Result<seq<Episode>>, next: Result<seq<Episode>>)
    requires first.Ok?
    ensures var f := FetchEpisodes(cache, showId, first);
            var g := FetchEpisodes(f.cache, showId, next);
            !g.requested && g.result == f.result && g.cache == f.cache
  {
  }

  /** One call of a session: the show asked for and what the network would answer. */
  datatype Call = Call(showId: int, response: Result<seq<Episode>>)

  /** A request that reached the network, and whether it succeeded. */
  datatype Request = Request(showId: int, succeeded: bool)

  /** A sequence of calls, one after the other: the final cache and the requests sent. */
  function RunCalls(cache: EpisodeCache, calls: seq<Call>): (r: (EpisodeCache, seq<Request>))
    decreases |calls|
  {
    if |calls| == 0 then (cache, [])
    else
      var f := FetchEpisodes(cache, calls[0].showId, calls[0].response);
      var rest := RunCalls(f.cache, calls[1..]);
      var sent := if f.requested then [Request(calls[0].showId, f.result.Ok?)] else [];
      (rest.0, sent + rest.1)
  }

  function SuccessesFor(log: seq<Request>, showId: int): nat
  {
    if |log| == 0 then 0
    else (if log[0].showId == showId && log[0].succeeded then 1 else 0) + SuccessesFor(log[1..], showId)
  }

  /** A show already cached is never requested again and its entry never changes. */
  lemma {:induction false} CachedShowNeverRequested(cache: EpisodeCache, calls: seq<Call>, showId: int)
    requires showId in cache
    ensures forall i | 0 <= i < |RunCalls(cache, calls).1| :: RunCalls(cache, calls).1[i].showId != showId
    ensures showId in RunCalls(cache, calls).0 && RunCalls(cache, calls).0[showId] == cache[showId]
    decreases |calls|
  {
    if |calls| > 0 {
      var f := FetchEpisodes(cache, calls[0].showId, calls[0].response);
      CachedShowNeverRequested(f.cache, calls[1..], showId);
    }
  }

  /** Over a whole session each show's episodes are fetched successfully at most once:
      the cache only grows, and a cached entry is never re-fetched. */
  lemma {:induction false} AtMostOneSuccessfulFetch(cache: EpisodeCache, calls: seq<Call>, showId: int)
    ensures SuccessesFor(RunCalls(cache, calls).1, showId) <= 1
    decreases |calls|
  {
    if |calls| > 0 {
      var f := FetchEpisodes(cache, calls[0].showId, calls[0].response);
      var rest := RunCalls(f.cache, calls[1..]);
      var sent := if f.requested then [Request(calls[0].showId, f.result.Ok?)] else [];
      var log := sent + rest.1;
      assert log == RunCalls(cache, calls).1;
      if f.requested && calls[0].showId == showId && f.result.Ok? {
        CachedShowNeverRequested(f.cache, calls[1..], showId);
        NoRequestsNoSuccesses(rest.1, showId);
        assert log[1..] == rest.1;
      } else {
        AtMostOneSuccessfulFetch(f.cache, calls[1..], showId);
        if f.requested {
          assert log[1..] == rest.1;
          assert !(log[0].showId == showId && log[0].succeeded);
        } else {
          assert log == rest.1;
        }
      }
    }
  }

  lemma {:induction false} NoRequestsNoSuccesses(log: seq<Request>, showId: int)
    requires forall i | 0 <= i < |log| :: log[i].showId != showId
    ensures SuccessesFor(log, showId) == 0
  {
    if |log| > 0 {
      NoRequestsNoSuccesses(log[1..], showId);
    }
  }

  /** One `fetchShows` call: what it returns or throws, and whether it sent a request. */
  datatype ShowsFetch = ShowsFetch(result: Result<seq<Show>>, requested: bool)

  /** `fetchShows()`: serves `cachedShows` when set. It never writes the cache itself. */
  function FetchShows(cached: Option<seq<Show>>, response: Result<seq<Show>>): (f: ShowsFetch)
    ensures f.requested <==> cached.None?
    ensures cached.Some? ==> f.result == Ok(cached.value)
    ensures cached.None? ==> f.result == response
  {
    match cached
    case Some(shows) => ShowsFetch(Ok(shows), false)
    case None => ShowsFetch(response, true)
  }

  /** The state `setup` leaves: the cached shows, what it renders, and whether it sent a request. */
  datatype ShowsLoad = ShowsLoad(cached: Option<seq<Show>>, result: Result<seq<Show>>, requested: bool)

  /** `cachedShows = await fetchShows()` followed by `sortShowsAlphabetically(cachedShows)`.
      The sort works in place, so the cache itself ends up sorted. A failure throws before
      the assignment and leaves the cache as it was. */
  function LoadShows(leq: (string, string) -> bool, cached: Option<seq<Show>>, response: Result<seq<Show>>): (l: ShowsLoad)
    requires TotalPreorder(leq)
    ensures l.requested <==> cached.None?
    ensures cached.Some? || response.Ok? ==> l.result.Ok?
    ensures l.result.Err? ==> l.cached == cached && l.result == response
    ensures l.result.Ok? ==> l.cached == Some(l.result.value) && SortedByName(leq, l.result.value)
    ensures l.result.Ok? && cached.Some? ==> multiset(l.result.value) == multiset(cached.value)
    ensures l.result.Ok? && cached.None? ==>
      response.Ok? && multiset(l.result.value) == multiset(response.value)
  {
    var f := FetchShows(cached, response);
    match f.result
    case Err(status) => ShowsLoad(cached, Err(status), f.requested)
    case Ok(shows) =>
      var sorted := SortShowsAlphabetically(leq, shows);
      ShowsLoad(Some(sorted), Ok(sorted), f.requested)
  }

  /** Once the shows are loaded, a later `fetchShows` sends no request and returns them sorted. */
  lemma LoadedShowsAreReused(leq: (string, string) -> bool, cached: Option<seq<Show>>, response: Result<seq<Show>>, next: Result<seq<Show>>)
    requires TotalPreorder(leq)
    requires LoadShows(leq, cached, response).result.Ok?
    ensures var l := LoadShows(leq, cached, response);
            var f := FetchShows(l.cached, next);
            !f.requested && f.result == l.result && SortedByName(leq, f.result.value)
  {
  }
}
