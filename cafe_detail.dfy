/**
 * The café detail page: which café the route shows, whether it is saved in
 * some collection, the price text, the key-facility chips, the review search
 * and the "no matching reviews" notice, and saving through the picker.
 */
module CafeDetail {
  import opened Wrappers
  import opened Text
  import opened Seqs
  import opened Catalog
  import opened CollectionsContext

  // ---------------------------------------------------------------- which café

  /** The position of the first café with id `id`, as `Array.prototype.find` scans. */
  function FindIndex(catalog: seq<Cafe>, id: string): (k: Option<nat>)
    ensures k.Some? ==> k.value < |catalog| && catalog[k.value].id == id
    ensures k.Some? ==> forall j :: 0 <= j < k.value ==> catalog[j].id != id
    ensures k.None? ==> forall j :: 0 <= j < |catalog| ==> catalog[j].id != id
  {
    if catalog == [] then None
    else if catalog[0].id == id then Some(0)
    else match FindIndex(catalog[1..], id) {
      case None => None
      case Some(k) => Some(k + 1)
    }
  }

  /**
   * The café shown for route parameter `routeId` (None when the route has no
   * id or no café has it, and the page shows its not-found text).
   */
  function FindCafe(catalog: seq<Cafe>, routeId: Option<string>): (cafe: Option<Cafe>)
    ensures cafe.None? <==> routeId.None? || forall j :: 0 <= j < |catalog| ==> catalog[j].id != routeId.value
    ensures cafe.Some? ==> exists i :: (0 <= i < |catalog| && catalog[i] == cafe.value && catalog[i].id == routeId.value &&
      forall j :: 0 <= j < i ==> catalog[j].id != routeId.value)
  {
    if routeId.None? then None
    else match FindIndex(catalog, routeId.value) {
      case None => None
      case Some(k) => Some(catalog[k])
    }
  }

  // ---------------------------------------------------------------- saved

  /** The id `isSaved` looks for: the café's id, or '' when there is no café. */
  function SavedKey(cafe: Option<Cafe>): string {
    match cafe
    case None => ""
    case Some(c) => c.id
  }

  /** `isSaved`: some collection holds the key. */
  predicate IsSaved(cols: seq<Collection>, cafe: Option<Cafe>) {
    exists i :: 0 <= i < |cols| && SavedKey(cafe) in cols[i].cafeIds
  }

  /**
   * Saving a café into collection `collectionId` makes it saved exactly when
   * it was saved already or a collection with that id exists.
   */
  lemma SavedAfterAdd(cols: seq<Collection>, cafe: Cafe, collectionId: string)
    ensures IsSaved(AddCafe(cols, cafe.id, collectionId), Some(cafe)) <==>
      IsSaved(cols, Some(cafe)) || exists i :: 0 <= i < |cols| && cols[i].id == collectionId
  {
    var r := AddCafe(cols, cafe.id, collectionId);
    if i :| 0 <= i < |cols| && cols[i].id == collectionId {
      assert cafe.id in r[i].cafeIds;
    }
    if i :| 0 <= i < |cols| && cafe.id in cols[i].cafeIds {
      assert cafe.id in r[i].cafeIds;
    }
    if i :| 0 <= i < |r| && cafe.id in r[i].cafeIds {
      assert cafe.id in cols[i].cafeIds || cols[i].id == collectionId;
    }
  }

  /** `onSelect` of the page's picker: `addCafeToCollection(cafe.id, collectionId)`. */
  method SaveToCollection(store: Store, cafe: Cafe, collectionId: string)
    requires store.Valid()
    modifies store
    ensures store.Valid()
    ensures store.collections == AddCafe(old(store.collections), cafe.id, collectionId)
    ensures IsSaved(store.collections, Some(cafe)) <==>
      old(IsSaved(store.collections, Some(cafe))) ||
      exists i :: 0 <= i < |store.collections| && store.collections[i].id == collectionId
  {
    SavedAfterAdd(store.collections, cafe, collectionId);
    store.AddCafeToCollection(cafe.id, collectionId);
  }

  // ---------------------------------------------------------------- price text

  const DefaultPriceText := "Rp 50k - 100k"

  function PriceRangeMap(): map<string, string> {
    map["$" := "Rp 25k - 50k", "$$" := "Rp 50k - 100k", "$$$" := "Rp 100k - 200k"]
  }

  /** `priceRangeMap[cafe.priceRange] ?? 'Rp 50k - 100k'`. */
  function PriceRangeText(priceRange: string): (text: string)
    ensures text == "Rp 25k - 50k" <==> priceRange == "$"
    ensures text == "Rp 100k - 200k" <==> priceRange == "$$$"
    ensures text == "Rp 50k - 100k" <==> priceRange != "$" && priceRange != "$$$"
  {
    if priceRange in PriceRangeMap() then PriceRangeMap()[priceRange] else DefaultPriceText
  }

  // ---------------------------------------------------------------- key facilities

  const KeyFacilityOrder: seq<string> := ["Wifi", "Socket", "Parking", "Prayer Room", "Live Music", "Outdoor", "Toilet"]

  /** The fixed order names each key facility once. */
  lemma KeyFacilityOrderDistinct()
    ensures NoDuplicates(KeyFacilityOrder)
  {
  }

  /**
   * The chips above the tabs: key facilities the café has, in the fixed order,
   * the first four of them (`slice(0, 4)`).
   */
  function KeyFacilities(facilities: seq<string>): (chips: seq<string>)
    ensures |chips| <= 4
    ensures IsSubsequence(chips, KeyFacilityOrder)
    ensures forall f :: f in chips ==> f in facilities
    ensures |chips| < 4 ==> forall f :: f in KeyFacilityOrder && f in facilities ==> f in chips
    ensures forall i, j :: 0 <= i < j < |KeyFacilityOrder| && KeyFacilityOrder[i] in facilities && KeyFacilityOrder[j] in chips ==>
      KeyFacilityOrder[i] in chips
  {
    var p := (f: string) => f in facilities;
    var present := Filter(KeyFacilityOrder, p);
    var k := if |present| <= 4 then |present| else 4;
    KeyChipsOrdered(facilities, p, k);
    KeyChipsNoSkip(facilities, p, k);
    present[..k]
  }

  /** The first `k` key facilities present are in key order, each one the café has, and all of them when fewer than four. */
  lemma KeyChipsOrdered(facilities: seq<string>, p: string -> bool, k: nat)
    requires forall f :: p(f) <==> f in facilities
    requires k == if |Filter(KeyFacilityOrder, p)| <= 4 then |Filter(KeyFacilityOrder, p)| else 4
    ensures IsSubsequence(Filter(KeyFacilityOrder, p)[..k], KeyFacilityOrder)
    ensures forall f :: f in Filter(KeyFacilityOrder, p)[..k] ==> f in facilities
    ensures k < 4 ==> forall f :: f in KeyFacilityOrder && f in facilities ==> f in Filter(KeyFacilityOrder, p)[..k]
  {
    FilterPrefix(KeyFacilityOrder, p, k);
  }

  /** The first `k` key facilities present skip none that comes before one of them. */
  lemma KeyChipsNoSkip(facilities: seq<string>, p: string -> bool, k: nat)
    requires forall f :: p(f) <==> f in facilities
    requires k <= |Filter(KeyFacilityOrder, p)|
    ensures forall i, j :: (0 <= i < j < |KeyFacilityOrder| && KeyFacilityOrder[i] in facilities &&
      KeyFacilityOrder[j] in Filter(KeyFacilityOrder, p)[..k]) ==> KeyFacilityOrder[i] in Filter(KeyFacilityOrder, p)[..k]
  {
    KeyFacilityOrderDistinct();
    FilterPrefixNoSkip(KeyFacilityOrder, p, k);
  }

  /** Brew Haven lists Toilet before Prayer Room; the chips follow the fixed order instead. */
  lemma BrewHavenChips()
    ensures KeyFacilities(BrewHaven().facilities) == ["Wifi", "Socket", "Prayer Room", "Toilet"]
  {
    var fs := BrewHaven().facilities;
    BrewHavenKeyFacilities(fs);
  }

  lemma BrewHavenKeyFacilities(fs: seq<string>)
    requires fs == ["Wifi", "Socket", "Toilet", "Prayer Room"]
    ensures Filter(KeyFacilityOrder, f => f in fs) == ["Wifi", "Socket", "Prayer Room", "Toilet"]
  {
    var p := (f: string) => f in fs;
    var tail: seq<string> := ["Parking", "Prayer Room", "Live Music", "Outdoor", "Toilet"];
    assert KeyFacilityOrder == ["Wifi", "Socket"] + tail;
    BrewHavenKeyTail(fs);
    assert p("Wifi") && p("Socket");
    FilterConcat(["Wifi", "Socket"], tail, p);
    assert Filter(["Wifi", "Socket"], p) == ["Wifi", "Socket"] by {
      assert ["Wifi", "Socket"][1..] == ["Socket"];
    }
  }

  lemma BrewHavenKeyTail(fs: seq<string>)
    requires fs == ["Wifi", "Socket", "Toilet", "Prayer Room"]
    ensures Filter(["Parking", "Prayer Room", "Live Music", "Outdoor", "Toilet"], f => f in fs) == ["Prayer Room", "Toilet"]
  {
    var p := (f: string) => f in fs;
    var last: seq<string> := ["Live Music", "Outdoor", "Toilet"];
    assert !p("Live Music") && !p("Outdoor") && p("Toilet") && !p("Parking") && p("Prayer Room");
    assert Filter(last, p) == ["Toilet"] by {
      assert last[1..] == ["Outdoor", "Toilet"];
      assert last[1..][1..] == ["Toilet"];
    }
    var s: seq<string> := ["Parking", "Prayer Room"] + last;
    assert s == ["Parking", "Prayer Room", "Live Music", "Outdoor", "Toilet"];
    assert s[1..] == ["Prayer Room"] + last;
    assert s[1..][1..] == last;
  }

  // ---------------------------------------------------------------- reviews

  /** The reviewer's name or the comment, lower-cased, contains the lower-cased query. */
  predicate ReviewMatches(r: Review, query: string) {
    Contains(ToLower(r.user), ToLower(query)) || Contains(ToLower(r.comment), ToLower(query))
  }

  /** The filter callback: an empty term keeps every review. */
  predicate ReviewKept(r: Review, term: string) {
    term == "" || Contains(ToLower(r.user), term) || Contains(ToLower(r.comment), term)
  }

  /** The reviews listed for `query`, in their original order. */
  function FilterReviews(reviews: seq<Review>, query: string): (shown: seq<Review>)
    ensures query == "" ==> shown == reviews
    ensures IsSubsequence(shown, reviews)
    ensures forall r :: r in shown <==> r in reviews && ReviewMatches(r, query)
    ensures forall r :: multiset(shown)[r] == if ReviewMatches(r, query) then multiset(reviews)[r] else 0
  {
    var term := ToLower(query);
    FilterSpec(reviews, r => ReviewKept(r, term));
    assert forall r :: ReviewKept(r, term) == ReviewMatches(r, query);
    if query == "" then
      FilterKeepsAll(reviews, r => ReviewKept(r, term));
      Filter(reviews, r => ReviewKept(r, term))
    else
      Filter(reviews, r => ReviewKept(r, term))
  }

  /** The "no matching reviews" notice: there are reviews, a query, and no review matches it. */
  predicate ShowNoMatch(reviews: seq<Review>, query: string) {
    |reviews| > 0 && !(exists i :: 0 <= i < |reviews| && ReviewMatches(reviews[i], query)) && query != ""
  }

  /** The notice appears exactly when there are reviews and none of them is listed. */
  lemma NoMatchIffNothingShown(reviews: seq<Review>, query: string)
    ensures ShowNoMatch(reviews, query) <==> |reviews| > 0 && FilterReviews(reviews, query) == []
  {
    var shown := FilterReviews(reviews, query);
    if shown != [] {
      assert shown[0] in shown;
    }
    if i :| 0 <= i < |reviews| && ReviewMatches(reviews[i], query) {
      assert reviews[i] in shown;
    }
  }

  /** What the reviews tab shows. */
  datatype ReviewsView = NoReviewsYet | Listing(shown: seq<Review>, noMatchNotice: bool)

  function ReviewsPanel(reviews: seq<Review>, query: string): (view: ReviewsView)
    ensures view == NoReviewsYet <==> reviews == []
    ensures view.Listing? ==> view.shown == FilterReviews(reviews, query)
    ensures view.Listing? ==> (view.noMatchNotice <==> view.shown == [])
  {
    NoMatchIffNothingShown(reviews, query);
    if |reviews| > 0 then Listing(FilterReviews(reviews, query), ShowNoMatch(reviews, query)) else NoReviewsYet
  }
}
