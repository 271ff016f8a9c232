/** `sortShowsAlphabetically`: `shows.sort((a, b) => a.name.localeCompare(b.name))`.
    The locale-aware comparison is abstracted as any total preorder on names. */
module ShowSort {
  import opened Catalog

  /** `leq(a, b)` holds when `a.localeCompare(b) <= 0`: every pair of names is comparable
      and the comparison is transitive. Distinct names may compare equal. */
  ghost predicate TotalPreorder(leq: (string, string) -> bool) {
    && (forall a, b :: leq(a, b) || leq(b, a))
    && (forall a, b, c :: leq(a, b) && leq(b, c) ==> leq(a, c))
  }

  predicate SortedByName(leq: (string, string) -> bool, s: seq<Show>) {
    forall i, j | 0 <= i < j < |s| :: leq(s[i].name, s[j].name)
  }

  /** Places `x` before the first show it does not sort after. */
  function InsertByName(leq: (string, string) -> bool, x: Show, s: seq<Show>): (r: seq<Show>)
    ensures multiset(r) == multiset(s) + multiset{x}
  {
    if |s| == 0 then [x]
    else if leq(x.name, s[0].name) then
      assert s == [s[0]] + s[1..];
      [x] + s
    else
      assert s == [s[0]] + s[1..];
      [s[0]] + InsertByName(leq, x, s[1..])
  }

  /** Inserting into a sorted list keeps it sorted. */
  lemma {:induction false} InsertKeepsSorted(leq: (string, string) -> bool, x: Show, s: seq<Show>)
    requires TotalPreorder(leq) && SortedByName(leq, s)
    ensures SortedByName(leq, InsertByName(leq, x, s))
  {
    var r := InsertByName(leq, x, s);
    if |s| == 0 {
    } else if leq(x.name, s[0].name) {
      forall j | 0 <= j < |s|
        ensures leq(x.name, s[j].name)
      {
        if j > 0 {
          assert leq(s[0].name, s[j].name);
        }
      }
      assert r == [x] + s;
    } else {
      var tail := InsertByName(leq, x, s[1..]);
      InsertKeepsSorted(leq, x, s[1..]);
      assert leq(s[0].name, x.name);
      forall j | 0 <= j < |tail|
        ensures leq(s[0].name, tail[j].name)
      {
        assert tail[j] in multiset(tail);
        if tail[j] != x {
          assert tail[j] in multiset(s[1..]);
          var k :| 0 <= k < |s[1..]| && s[1..][k] == tail[j];
          assert s[k + 1] == tail[j];
        }
      }
      assert r == [s[0]] + tail;
    }
  }

  /** The sorted shows: a permutation of the input, non-decreasing by name. */
  function SortShowsAlphabetically(leq: (string, string) -> bool, shows: seq<Show>): (r: seq<Show>)
    requires TotalPreorder(leq)
    ensures SortedByName(leq, r)
    ensures multiset(r) == multiset(shows)
    ensures |r| == |shows|
  {
    if |shows| == 0 then []
    else
      var rest := SortShowsAlphabetically(leq, shows[1..]);
      InsertKeepsSorted(leq, shows[0], rest);
      assert shows == [shows[0]] + shows[1..];
      InsertByName(leq, shows[0], rest)
  }

  /** A list already in order is left exactly as it is. */
  lemma {:induction false} SortKeepsSorted(leq: (string, string) -> bool, shows: seq<Show>)
    requires TotalPreorder(leq) && SortedByName(leq, shows)
    ensures SortShowsAlphabetically(leq, shows) == shows
  {
    if |shows| > 0 {
      SortKeepsSorted(leq, shows[1..]);
      if |shows| > 1 {
        assert leq(shows[0].name, shows[1..][0].name);
      }
      assert shows == [shows[0]] + shows[1..];
    }
  }

  /** Sorting twice is sorting once. */
  lemma SortIdempotent(leq: (string, string) -> bool, shows: seq<Show>)
    requires TotalPreorder(leq)
    ensures SortShowsAlphabetically(leq, SortShowsAlphabetically(leq, shows)) == SortShowsAlphabetically(leq, shows)
  {
    SortKeepsSorted(leq, SortShowsAlphabetically(leq, shows));
  }
}
