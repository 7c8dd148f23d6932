/** `CourseFavorites` of courses.js: a list of course titles kept in
    `localStorage` under `courseFavorites` as JSON, toggled by the heart
    button of each card. */
module CourseFavorites {
  import opened Wrappers
  import opened Sequences
  import JsonStrings
  import Notify

  const StorageKey := "courseFavorites"

  /** What the constructor finds: the favourites, or a stored text that is
      not the compact JSON of an array of strings or `null`. The page never
      writes such a text; on it the script either throws, falls back to `[]`
      or keeps a value that is not a list of titles. */
  datatype Loaded = Favourites(list: seq<string>) | Unreadable

  /** `JSON.parse(localStorage.getItem('courseFavorites')) || []`. A missing
      key reads as `null`, which parses to `null` and falls back to `[]`. */
  function LoadFavorites(stored: Option<string>): (l: Loaded)
    ensures stored.None? ==> l == Favourites([])
    ensures stored == Some("null") ==> l == Favourites([])
    ensures stored.Some? && stored.value != "null" ==>
      (l.Favourites? <==> JsonStrings.DecodeArray(stored.value).Some?)
    ensures l.Favourites? && stored.Some? && stored.value != "null" ==>
      l.list == JsonStrings.DecodeArray(stored.value).value
  {
    match stored
    case None => Favourites([])
    case Some(text) =>
      if text == "null" then Favourites([])
      else
        match JsonStrings.DecodeArray(text)
        case Some(xs) => Favourites(xs)
        case None => Unreadable
  }

  /** The heart icon of a card's button: outlined (`far`) or filled (`fas`). */
  datatype Heart = Outline | Filled

  /** The result of a click: the favourites, the text written to storage,
      the icon of the button and the toast. */
  datatype Toggled = Toggled(favourites: seq<string>, stored: string, heart: Heart, toast: Notify.Notification)

  /** `indexOf`: the first position of `x`. */
  function IndexOf(xs: seq<string>, x: string): (r: Option<nat>)
    ensures r.None? <==> x !in xs
    ensures r.Some? ==> r.value < |xs| && xs[r.value] == x && x !in xs[..r.value]
  {
    if |xs| == 0 then None
    else if xs[0] == x then Some(0)
    else
      var r := IndexOf(xs[1..], x);
      assert xs == [xs[0]] + xs[1..];
      if r.None? then None
      else
        assert xs[..r.value + 1] == [xs[0]] + xs[1..][..r.value];
        Some(r.value + 1)
  }

  /** `toggleFavorite(card, button)` for the card titled `id`: remove its
      first occurrence, or append it; save; announce. */
  function ToggleFavorite(favs: seq<string>, id: string): (t: Toggled)
    ensures id in favs ==>
      && (exists i | 0 <= i < |favs| :: favs[i] == id && id !in favs[..i] && t.favourites == RemoveAt(favs, i))
      && t.heart == Outline
      && t.toast == Notify.ShowNotification("Removed from favorites", Some("success"))
    ensures id !in favs ==>
      && t.favourites == favs + [id]
      && t.heart == Filled
      && t.toast == Notify.ShowNotification("Added to favorites", Some("success"))
    ensures t.stored == JsonStrings.EncodeArray(t.favourites)
  {
    var index := IndexOf(favs, id);
    var after := if index.Some? then RemoveAt(favs, index.value) else favs + [id];
    var heart := if index.Some? then Outline else Filled;
    var message := if index.Some? then "Removed from favorites" else "Added to favorites";
    Toggled(after, JsonStrings.EncodeArray(after), heart, Notify.ShowNotification(message, Some("success")))
  }

  /** On a list without repeats a click flips the membership of the clicked
      title, leaves every other title alone and keeps the list free of
      repeats. */
  lemma ToggleFlipsMembership(favs: seq<string>, id: string)
    requires Distinct(favs)
    ensures var after := ToggleFavorite(favs, id).favourites;
      && Distinct(after)
      && (id in after <==> id !in favs)
      && forall other | other != id :: (other in after <==> other in favs)
  {
    if id in favs {
      var i := IndexOf(favs, id).value;
      RemoveAtMembers(favs, i);
      RemoveAtDistinct(favs, i);
    } else {
      AppendFreshDistinct(favs, id);
    }
  }

  lemma AppendFreshDistinct(favs: seq<string>, id: string)
    requires Distinct(favs) && id !in favs
    ensures Distinct(favs + [id])
  {
    var r := favs + [id];
    forall a, b | 0 <= a < b < |r| ensures r[a] != r[b] {
      if b == |favs| {
        assert r[a] == favs[a];
      } else {
        assert r[a] == favs[a] && r[b] == favs[b];
      }
    }
  }

  /** Favouriting a course and un-favouriting it again gives back the list
      and the stored text. */
  lemma ToggleTwiceRestores(favs: seq<string>, id: string)
    requires id !in favs
    ensures var twice := ToggleFavorite(ToggleFavorite(favs, id).favourites, id);
      twice.favourites == favs && twice.stored == JsonStrings.EncodeArray(favs)
  {
    var once := ToggleFavorite(favs, id).favourites;
    assert once == favs + [id];
    assert once[|favs|] == id;
    RemoveLastAppended(favs, id);
  }

  /** What a click saves is what the next page load reads. */
  lemma SavedFavouritesReload(favs: seq<string>, id: string)
    ensures var t := ToggleFavorite(favs, id);
      LoadFavorites(Some(t.stored)) == Favourites(t.favourites)
  {
    var t := ToggleFavorite(favs, id);
    JsonStrings.ArrayRoundTrip(t.favourites);
    assert t.stored[0] == '[';
  }

  /** `updateFavoriteStates()`: the heart of every card whose title is a
      favourite is filled; the others keep the icon they have. */
  function UpdateFavoriteStates(titles: seq<string>, hearts: seq<Heart>, favs: seq<string>): (r: seq<Heart>)
    requires |titles| == |hearts|
    ensures |r| == |hearts|
    ensures forall i | 0 <= i < |r| :: titles[i] in favs ==> r[i] == Filled
    ensures forall i | 0 <= i < |r| :: titles[i] !in favs ==> r[i] == hearts[i]
  {
    seq(|hearts|, i requires 0 <= i < |hearts| => if titles[i] in favs then Filled else hearts[i])
  }

  /** On a fresh page, where every heart starts outlined, the hearts show
      exactly the favourites. */
  lemma FreshPageShowsFavourites(titles: seq<string>, favs: seq<string>)
    ensures var hearts := seq(|titles|, _ => Outline);
      var r := UpdateFavoriteStates(titles, hearts, favs);
      forall i | 0 <= i < |titles| :: (r[i] == Filled <==> titles[i] in favs)
  {
  }
}
