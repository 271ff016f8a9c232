/** The `change` handler that `setupEpisodeSelector` installs on the episode drop-down.
    The handler reads its list of cards back from the episode container, that is, from
    whatever is displayed when the event fires, not from the show's full episode list. */
module EpisodeSelector {
  import opened Basics
  import opened Seqs

  /** An episode card as the handler sees it: its `data-episode-id` and its markup. */
  datatype Card = Card(id: string, html: string)

  /** The cards in the container and the number the count line reports. */
  datatype View = View(displayed: seq<Card>, count: int)

  predicate HasId(cards: seq<Card>, id: string) {
    exists k | 0 <= k < |cards| :: cards[k].id == id
  }

  predicate UniqueIds(cards: seq<Card>) {
    forall i, j | 0 <= i < j < |cards| :: cards[i].id != cards[j].id
  }

  /** `Array.prototype.find` on the card id: the index of the first card carrying `id`. */
  function FindCard(cards: seq<Card>, id: string): (r: Option<nat>)
    ensures r.Some? <==> HasId(cards, id)
    ensures r.Some? ==> r.value < |cards| && cards[r.value].id == id
    ensures r.Some? ==> forall k | 0 <= k < r.value :: cards[k].id != id
  {
    if |cards| == 0 then None
    else if cards[0].id == id then Some(0)
    else
      match FindCard(cards[1..], id)
      case None => None
      case Some(k) => Some(k + 1)
  }

  /** The handler as written. An empty id ("All Episodes") re-renders every card in `shown`;
      a found id shows that one card; an unknown id leaves `shown` in place. The count is
      1 for any non-empty id, found or not. */
  function SelectEpisode(shown: seq<Card>, episodeId: string): (v: View)
    ensures episodeId == "" ==> v.displayed == shown && v.count == |shown|
    ensures episodeId != "" ==> v.count == 1
    ensures episodeId != "" && HasId(shown, episodeId) ==>
      exists k | 0 <= k < |shown| ::
        && v.displayed == [shown[k]]
        && shown[k].id == episodeId
        && forall m | 0 <= m < k :: shown[m].id != episodeId
    ensures !HasId(shown, episodeId) ==> v.displayed == shown
  {
    if episodeId != "" then
      match FindCard(shown, episodeId)
      case Some(k) => View([shown[k]], 1)
      case None => View(shown, 1)
    else View(shown, |shown|)
  }

  /** An unknown id on a list of other than one card reports a count the view does not have.
      The app never reaches this case: the cards and the drop-down are built from the same
      list, so an id is missing from the container only after a pin, when exactly one card
      is shown and the count 1 is right. */
  lemma UnknownIdMiscounts(shown: seq<Card>, episodeId: string)
    requires episodeId != "" && !HasId(shown, episodeId) && |shown| != 1
    ensures SelectEpisode(shown, episodeId).count != |SelectEpisode(shown, episodeId).displayed|
  {
  }

  /** Running the handler a second time for the same event changes nothing, so the extra
      listeners that each opened show adds leave the view as one run would. */
  lemma SelectEpisodeRepeatable(shown: seq<Card>, episodeId: string)
    ensures SelectEpisode(SelectEpisode(shown, episodeId).displayed, episodeId) == SelectEpisode(shown, episodeId)
  {
    var v := SelectEpisode(shown, episodeId);
    if episodeId != "" && HasId(shown, episodeId) {
      assert v.displayed[0].id == episodeId;
      assert FindCard(v.displayed, episodeId) == Some(0);
    }
  }

  /** A run of selections, each one applied to what the previous one left displayed. */
  function Replay(shown: seq<Card>, ids: seq<string>): (v: View)
    decreases |ids|
  {
    if |ids| == 0 then View(shown, |shown|)
    else if |ids| == 1 then SelectEpisode(shown, ids[0])
    else Replay(SelectEpisode(shown, ids[0]).displayed, ids[1..])
  }

  /** Once one card is pinned, every later selection, of another episode or of "All
      Episodes", keeps showing that card alone. */
  lemma {:induction false} PinIsSticky(all: seq<Card>, pinId: string, later: seq<string>)
    requires pinId != "" && HasId(all, pinId)
    ensures Replay(SelectEpisode(all, pinId).displayed, later).displayed == SelectEpisode(all, pinId).displayed
    decreases |later|
  {
    var pinned := SelectEpisode(all, pinId).displayed;
    assert |pinned| == 1;
    if |later| > 0 {
      var next := SelectEpisode(pinned, later[0]).displayed;
      if later[0] != "" && HasId(pinned, later[0]) {
        assert pinned[0].id == later[0];
        assert next == pinned;
      }
      if |later| > 1 {
        PinIsSticky(all, pinId, later[1..]);
      }
    }
  }

  /** Two episodes, the first pinned, then the second chosen: the first stays on screen. */
  lemma PinIsStickyExample()
    ensures
      var all := [Card("1", "<div>1</div>"), Card("2", "<div>2</div>")];
      Replay(all, ["1", "2"]) == View([Card("1", "<div>1</div>")], 1)
  {
    var all := [Card("1", "<div>1</div>"), Card("2", "<div>2</div>")];
    assert FindCard(all, "1") == Some(0);
    assert FindCard([all[0]], "2") == None;
  }

  /** Selection as evidently intended: drawn from the show's full list every time, with a
      count that is the number of cards displayed. An unknown id shows nothing. */
  function SelectFromAll(all: seq<Card>, episodeId: string): (v: View)
    ensures v.count == |v.displayed|
    ensures episodeId == "" ==> v.displayed == all
    ensures episodeId != "" && HasId(all, episodeId) ==>
      exists k | 0 <= k < |all| ::
        && v.displayed == [all[k]]
        && all[k].id == episodeId
        && forall m | 0 <= m < k :: all[m].id != episodeId
    ensures episodeId != "" && !HasId(all, episodeId) ==> v.displayed == []
  {
    if episodeId == "" then View(all, |all|)
    else
      match FindCard(all, episodeId)
      case Some(k) => View([all[k]], 1)
      case None => View([], 0)
  }

  /** With unique ids, the corrected selection is the filter "card id equals the selected id"
      over the full list, whatever was selected before. */
  lemma {:induction false} SelectionIsIdFilter(all: seq<Card>, episodeId: string)
    requires UniqueIds(all) && episodeId != ""
    ensures SelectFromAll(all, episodeId).displayed == Filter((c: Card) => c.id == episodeId, all)
    decreases |all|
  {
    var p := (c: Card) => c.id == episodeId;
    if |all| > 0 {
      assert UniqueIds(all[1..]);
      SelectionIsIdFilter(all[1..], episodeId);
      if all[0].id == episodeId {
        assert !HasId(all[1..], episodeId);
      } else {
        assert HasId(all, episodeId) <==> HasId(all[1..], episodeId) by {
          if HasId(all, episodeId) {
            var k :| 0 <= k < |all| && all[k].id == episodeId;
            assert all[1..][k - 1].id == episodeId;
          }
        }
      }
    }
  }
}
