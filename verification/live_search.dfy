/** The filter behind the search box: the `input` handler installed by `liveSearch`. */
module LiveSearch {
  import opened Basics
  import opened Text
  import opened Seqs
  import opened Catalog

  /** `searchBar.value.toLowerCase().trim()`: the lower-cased query with only the white
      space around it removed. */
  function NormaliseTerm(query: string): (term: string)
    ensures exists i, j | 0 <= i <= j <= |query| ::
      term == ToLower(query)[i..j] && AllSpace(query[..i]) && AllSpace(query[j..])
    ensures forall i | 0 <= i < |term| :: !IsUpper(term[i])
    ensures term == [] || (!IsSpace(term[0]) && !IsSpace(term[|term| - 1]))
  {
    TrimOfLower(query);
    Trim(ToLower(query))
  }

  /** Case-insensitive `includes` on an optional field: a missing field never matches. */
  predicate FieldMatches(field: Option<string>, term: string) {
    field.Some? && Contains(ToLower(field.value), term)
  }

  /** The callback of the episode filter: name or summary contains the term. Every
      episode matches the empty term, and one without a summary is judged on its name. */
  predicate EpisodeMatches(ep: Episode, term: string)
    ensures term == [] ==> EpisodeMatches(ep, term)
    ensures ep.summary.None? ==> (EpisodeMatches(ep, term) <==> Contains(ToLower(ep.name), term))
  {
    Contains(ToLower(ep.name), term) || FieldMatches(ep.summary, term)
  }

  /** The callback of the show filter: name, summary or joined genres contain the term.
      Every show matches the empty term, and so does a show with any single genre that
      contains it. */
  predicate ShowMatches(show: Show, term: string)
    ensures term == [] ==> ShowMatches(show, term)
    ensures (exists g | 0 <= g < |show.genres| :: Contains(ToLower(show.genres[g]), term)) ==> ShowMatches(show, term)
  {
    GenreMatchLifts(show.genres, term);
    || Contains(ToLower(show.name), term)
    || FieldMatches(show.summary, term)
    || Contains(ToLower(Join(show.genres, ", ")), term)
  }

  /** A genre containing the term makes the lower-cased, `", "`-joined genres contain it. */
  lemma GenreMatchLifts(genres: seq<string>, term: string)
    ensures (exists g | 0 <= g < |genres| :: Contains(ToLower(genres[g]), term)) ==>
      Contains(ToLower(Join(genres, ", ")), term)
  {
    if g :| 0 <= g < |genres| && Contains(ToLower(genres[g]), term) {
      var joined := Join(genres, ", ");
      JoinContainsPart(genres, ", ", g);
      var i :| OccursAt(joined, genres[g], i);
      OccursLower(joined, genres[g], i);
      ContainsIffOccurs(ToLower(genres[g]), term);
      var j :| OccursAt(ToLower(genres[g]), term, j);
      OccursTransitive(ToLower(joined), ToLower(genres[g]), term, i, j);
      ContainsIffOccurs(ToLower(joined), term);
    }
  }

  /** The episodes kept for a query: exactly those that match, in their original order. */
  function FilterEpisodes(episodes: seq<Episode>, query: string): (r: seq<Episode>)
    ensures forall i | 0 <= i < |r| :: r[i] in episodes && EpisodeMatches(r[i], NormaliseTerm(query))
    ensures forall i | 0 <= i < |episodes| :: EpisodeMatches(episodes[i], NormaliseTerm(query)) ==> episodes[i] in r
    ensures forall e :: multiset(r)[e] == if EpisodeMatches(e, NormaliseTerm(query)) then multiset(episodes)[e] else 0
    ensures IsSubsequence(r, episodes)
  {
    var term := NormaliseTerm(query);
    FilterIsSubsequence(ep => EpisodeMatches(ep, term), episodes);
    FilterCounts(ep => EpisodeMatches(ep, term), episodes);
    Filter(ep => EpisodeMatches(ep, term), episodes)
  }

  /** The shows kept for a query: exactly those that match on name, summary or genres, in order. */
  function FilterShows(shows: seq<Show>, query: string): (r: seq<Show>)
    ensures forall i | 0 <= i < |r| :: r[i] in shows && ShowMatches(r[i], NormaliseTerm(query))
    ensures forall i | 0 <= i < |shows| :: ShowMatches(shows[i], NormaliseTerm(query)) ==> shows[i] in r
    ensures forall s :: multiset(r)[s] == if ShowMatches(s, NormaliseTerm(query)) then multiset(shows)[s] else 0
    ensures IsSubsequence(r, shows)
  {
    var term := NormaliseTerm(query);
    FilterIsSubsequence(s => ShowMatches(s, term), shows);
    FilterCounts(s => ShowMatches(s, term), shows);
    Filter(s => ShowMatches(s, term), shows)
  }

  /** What the handler renders: an episode page while episodes are loaded, otherwise a show page. */
  datatype Page = EpisodesPage(episodes: seq<Episode>) | ShowsPage(shows: seq<Show>)

  /** One `input` event on the search bar. */
  function OnSearchInput(allShows: seq<Show>, allEpisodes: seq<Episode>, query: string): (page: Page)
    ensures page.EpisodesPage? <==> |allEpisodes| > 0
    ensures page.EpisodesPage? ==> IsSubsequence(page.episodes, allEpisodes)
    ensures page.EpisodesPage? ==> forall e ::
      multiset(page.episodes)[e] == if EpisodeMatches(e, NormaliseTerm(query)) then multiset(allEpisodes)[e] else 0
    ensures page.ShowsPage? ==> IsSubsequence(page.shows, allShows)
    ensures page.ShowsPage? ==> forall s ::
      multiset(page.shows)[s] == if ShowMatches(s, NormaliseTerm(query)) then multiset(allShows)[s] else 0
  {
    if |allEpisodes| > 0 then EpisodesPage(FilterEpisodes(allEpisodes, query))
    else ShowsPage(FilterShows(allShows, query))
  }

  /** Clearing the search box restores the whole list of whichever page is showing. */
  lemma BlankInputRestoresPage(allShows: seq<Show>, allEpisodes: seq<Episode>, query: string)
    requires AllSpace(query)
    ensures OnSearchInput(allShows, allEpisodes, query) ==
      if |allEpisodes| > 0 then EpisodesPage(allEpisodes) else ShowsPage(allShows)
  {
    BlankQueryKeepsAllEpisodes(allEpisodes, query);
    BlankQueryKeepsAllShows(allShows, query);
  }

  /** A query normalises to the empty term exactly when it is empty or all white space. */
  lemma BlankQueryNormalisesToEmpty(query: string)
    ensures NormaliseTerm(query) == [] <==> AllSpace(query)
  {
    ToLowerKeepsSpaces(query);
    TrimEmptyIffBlank(ToLower(query));
  }

  /** An empty or white-space query shows every episode. */
  lemma BlankQueryKeepsAllEpisodes(episodes: seq<Episode>, query: string)
    requires AllSpace(query)
    ensures FilterEpisodes(episodes, query) == episodes
  {
    BlankQueryNormalisesToEmpty(query);
    forall i | 0 <= i < |episodes|
      ensures EpisodeMatches(episodes[i], [])
    {
      ContainsEmpty(ToLower(episodes[i].name));
    }
    FilterKeepsAll(ep => EpisodeMatches(ep, []), episodes);
  }

  /** An empty or white-space query shows every show. */
  lemma BlankQueryKeepsAllShows(shows: seq<Show>, query: string)
    requires AllSpace(query)
    ensures FilterShows(shows, query) == shows
  {
    BlankQueryNormalisesToEmpty(query);
    forall i | 0 <= i < |shows|
      ensures ShowMatches(shows[i], [])
    {
      ContainsEmpty(ToLower(shows[i].name));
    }
    FilterKeepsAll(s => ShowMatches(s, []), shows);
  }

  /** Searching the result again with the same query changes nothing. */
  lemma SearchEpisodesIdempotent(episodes: seq<Episode>, query: string)
    ensures FilterEpisodes(FilterEpisodes(episodes, query), query) == FilterEpisodes(episodes, query)
  {
    FilterIdempotent(ep => EpisodeMatches(ep, NormaliseTerm(query)), episodes);
  }

  lemma SearchShowsIdempotent(shows: seq<Show>, query: string)
    ensures FilterShows(FilterShows(shows, query), query) == FilterShows(shows, query)
  {
    FilterIdempotent(s => ShowMatches(s, NormaliseTerm(query)), shows);
  }

  /** The search is case-insensitive in the query: only its lower-case form matters. */
  lemma SearchIgnoresQueryCase(episodes: seq<Episode>, shows: seq<Show>, query: string)
    ensures FilterEpisodes(episodes, ToLower(query)) == FilterEpisodes(episodes, query)
    ensures FilterShows(shows, ToLower(query)) == FilterShows(shows, query)
  {
    ToLowerIdempotent(query);
    assert NormaliseTerm(ToLower(query)) == NormaliseTerm(query);
  }

  /** An episode without a summary is matched on its name alone. */
  lemma EpisodeWithoutSummaryMatchesOnName(episodes: seq<Episode>, query: string, ep: Episode)
    requires ep in episodes && ep.summary.None?
    ensures ep in FilterEpisodes(episodes, query) <==> Contains(ToLower(ep.name), NormaliseTerm(query))
  {
  }

  /** A show whose genre contains the term (case-insensitively) is kept, because each genre
      is part of the `", "`-joined genre text the handler searches. */
  lemma ShowKeptWhenGenreMatches(shows: seq<Show>, query: string, show: Show, g: nat)
    requires show in shows && g < |show.genres|
    requires Contains(ToLower(show.genres[g]), NormaliseTerm(query))
    ensures show in FilterShows(shows, query)
  {
    assert ShowMatches(show, NormaliseTerm(query));
  }

}
