/** The records the TVMaze API returns, reduced to the fields the browser computes on:
    ids, names, genres, summaries, and season and episode numbers. Fields that are only
    displayed (status, rating, runtime, image, url) are left out. */
module Catalog {
  import opened Basics

  datatype Show = Show(
    id: int,
    name: string,
    genres: seq<string>,
    summary: Option<string>)

  datatype Episode = Episode(
    id: int,
    season: int,
    number: int,
    name: string,
    summary: Option<string>)
}
