# Cafe collections — a Dafny model

This project models the part of the cafe-finder client that holds state and logic.
That part is the collections store, where a user groups cafés into named lists. It also covers the pure
logic of the three screens that use the store or the café catalogue:

- **`CollectionsContext`** (`collections_context.dfy`) holds the collections.
  - The store starts with two seeded collections.
  - `createCollection` trims the name, rejects a blank one, and appends a collection with a clock-derived id.
  - `addCafeToCollection` adds a café id to the matching collection unless the id is already there.
  - The store is a `class Store` whose `collections` field the two methods replace.
  - The invariant `Valid()` says every collection has a non-empty trimmed name and no repeated café id.
- **`CollectionPicker`** (`collection_picker.dfy`) is the "save to a collection" dialog.
  - It covers the case-insensitive name filter, the disabled state of the Add button, the two empty-list messages and the "N saved cafe(s)" caption.
  - The dialog's own state (open flag, search box, new-name box) is a `class PickerDialog`.
  - `HandleCreate` and `HandleSelect` change that state and the store.
- **`CafeDetail`** (`cafe_detail.dfy`) is the café page.
  - It covers finding the café for the route id and the "saved" marker.
  - It covers the price-range text with its default, and the at most four "key facility" chips.
  - It covers the review search box, the "no reviews yet" message and the "no review matches" notice.
  - `SaveToCollection` models the picker's `onSelect` callback on this page.
- **`SearchPage`** (`search.dfy`) is the search screen.
  - It covers the case-insensitive search over names and addresses, the "N found" count, and the facility chips toggled in and out of a list.
  - The toggled chips do not filter anything.

Support modules:
- `Text` gives ASCII models of JavaScript's `trim`, `toLowerCase`, `includes` and the decimal rendering of a number in a template literal.
- `Seqs` gives a generic `Filter`, specified by `FilterSpec` and shown unique by `FilterUnique`, plus subsequence facts.
- `Catalog` holds the four demo cafés.
- `Wrappers` holds `Option`.

`Date.now()` becomes a `now: nat` parameter, so the id of a new collection is `"col-" + Decimal(now)`.

## Model

| member | source | states |
|---|---|---|
| CollectionsContext.InitialCollections | client/src/context/CollectionsContext.tsx:13-16 | The seed: "col-1" "Weekday Work Spots" holding cafés "1" and "3", and "col-2" "Brunch with Friends" holding café "2"; its invariant is the next row |
| CollectionsContext.InitialCollectionsValid | client/src/context/CollectionsContext.tsx:13-16 | The two seeded collections have non-empty trimmed names, no repeated café ids, and distinct ids |
| CollectionsContext.ClockIdsDistinct | client/src/context/CollectionsContext.tsx:24 | Collections created at different clock readings get different ids |
| CollectionsContext.NewCollection | client/src/context/CollectionsContext.tsx:21-27 | `createCollection` returns nothing exactly when the name is all whitespace; otherwise it returns a collection with the clock id, the trimmed name and no cafés, and that collection is well formed |
| CollectionsContext.AppendPreservesInvariants | client/src/context/CollectionsContext.tsx:25 | Appending a well-formed collection with a fresh id keeps every collection well formed and the ids distinct |
| CollectionsContext.AddCafe | client/src/context/CollectionsContext.tsx:29-37 | The list keeps its length, order, ids and names; only a collection whose id matches gains the café at the end, and only if it did not already hold it |
| CollectionsContext.AddCafeMembership | client/src/context/CollectionsContext.tsx:31-35 | After the add, the matching collection holds the café |
| CollectionsContext.AddCafeUnknownId | client/src/context/CollectionsContext.tsx:31-35 | An id no collection has leaves the list unchanged |
| CollectionsContext.AddCafeAlreadyPresent | client/src/context/CollectionsContext.tsx:32 | A café already in the target collection leaves the list unchanged |
| CollectionsContext.AddCafeIdempotent | client/src/context/CollectionsContext.tsx:32-34 | Adding the same café to the same collection twice is the same as adding it once |
| CollectionsContext.AddCafePreservesInvariants | client/src/context/CollectionsContext.tsx:29-37 | Adding keeps every collection well formed, with no repeated café id, and keeps the ids distinct |
| CollectionsContext.AddCafeTwiceOnce | client/src/context/CollectionsContext.tsx:32-33 | After two identical adds, the target collection holds the café exactly once |
| CollectionsContext.OccursOnce | client/src/context/CollectionsContext.tsx:32 | In a list with no repeats, a member occurs exactly once |
| CollectionsContext.SeedScenario | client/src/context/CollectionsContext.tsx:13-16 | Adding café "4" to "col-1" of the seed gives `["1","3","4"]` and leaves "col-2" alone |
| CollectionsContext.CreateScenario | client/src/context/CollectionsContext.tsx:22-24 | Creating "  Morning Runs  " yields the name "Morning Runs" with no cafés |
| CollectionsContext.MorningRunsTrim | client/src/context/CollectionsContext.tsx:22 | `trim` removes the two leading and two trailing spaces of "  Morning Runs  " |
| CollectionsContext.MorningRunsLeading | client/src/context/CollectionsContext.tsx:22 | The leading whitespace run of "  Morning Runs  " has length 2 |
| CollectionsContext.MorningRunsTrailing | client/src/context/CollectionsContext.tsx:22 | The trailing whitespace run of "Morning Runs  " has length 2 |
| CollectionsContext.Store.constructor | client/src/context/CollectionsContext.tsx:18-19 | The store starts from the seeded collections and satisfies its invariant |
| CollectionsContext.Store.CreateCollection | client/src/context/CollectionsContext.tsx:21-27 | A blank name returns nothing and changes nothing; otherwise the new collection is returned and appended, and the invariant holds |
| CollectionsContext.Store.AddCafeToCollection | client/src/context/CollectionsContext.tsx:29-37 | The new list is `AddCafe` of the old one, and the invariant holds |
| CollectionPicker.FilterCollections | client/src/components/CollectionPicker.tsx:35-38 | The shown collections are those whose lower-cased name includes the lower-cased search, in list order, each as often as in the list |
| CollectionPicker.EmptySearchShowsAll | client/src/components/CollectionPicker.tsx:36 | An empty search shows every collection |
| CollectionPicker.SearchIgnoresCase | client/src/components/CollectionPicker.tsx:36 | Searches that differ only in letter case show the same collections |
| CollectionPicker.AddDisabled | client/src/components/CollectionPicker.tsx:83 | The Add button is disabled exactly when the new name is all whitespace |
| CollectionPicker.EmptyMessage | client/src/components/CollectionPicker.tsx:91-96 | A message appears exactly when nothing matches: "No collections yet" exactly when there are no collections, and "No collections match" exactly when there are collections but none matches |
| CollectionPicker.EmptySearchNeverNoMatch | client/src/components/CollectionPicker.tsx:91-96 | With an empty search the "no match" message never appears |
| CollectionPicker.CountLabel | client/src/components/CollectionPicker.tsx:109 | The caption is the decimal count followed by " saved cafe" when the count is 1 and " saved cafes" otherwise; its leading digits parse back to the count, and it ends in "s" exactly when the count is not 1 |
| CollectionPicker.PickerDialog.constructor | client/src/components/CollectionPicker.tsx:31-33 | The dialog starts with both text boxes empty and nothing selected |
| CollectionPicker.PickerDialog.HandleCreate | client/src/components/CollectionPicker.tsx:40-49 | A blank name changes nothing; otherwise the trimmed collection is appended to the store and selected, the dialog closes, and both boxes are cleared |
| CollectionPicker.PickerDialog.HandleSelect | client/src/components/CollectionPicker.tsx:51-54 | Selecting reports the id and closes the dialog; the text boxes and the store are unchanged |
| CafeDetail.FindIndex | client/src/pages/CafeDetail.tsx:24 | The index found is the first café with that id; none is found only when no café has it |
| CafeDetail.FindCafe | client/src/pages/CafeDetail.tsx:21-24 | There is no café (the "not found" page, line 32) exactly when the route has no id or no café has that id; otherwise it is the first café with that id |
| CafeDetail.IsSaved | client/src/pages/CafeDetail.tsx:30 | The heart is filled when some collection's café list includes the café's id (the key is the empty string when there is no café); its behaviour under saving is the next row |
| CafeDetail.SavedAfterAdd | client/src/pages/CafeDetail.tsx:30 | After adding the café to a collection, it is marked saved exactly when it was saved before or a collection with that id exists |
| CafeDetail.SaveToCollection | client/src/pages/CafeDetail.tsx:347 | Choosing a collection in the picker adds this café to it, keeps the store invariant, and marks the café saved exactly when it was saved or the collection exists |
| CafeDetail.PriceRangeText | client/src/pages/CafeDetail.tsx:14-18 | "$" shows "Rp 25k - 50k", "$$$" shows "Rp 100k - 200k", and every other code shows the default "Rp 50k - 100k" (line 35), each in both directions |
| CafeDetail.KeyFacilities | client/src/pages/CafeDetail.tsx:104 | At most four chips, in the fixed key-facility order, each one the café has; no key facility the café has is skipped in favour of a later one, so the chips are the first four it has; when fewer than four are shown, every key facility the café has is shown |
| CafeDetail.KeyFacilityOrderDistinct | client/src/pages/CafeDetail.tsx:104 | The fixed key-facility list names each facility once |
| CafeDetail.KeyChipsOrdered | client/src/pages/CafeDetail.tsx:104 | The first k present key facilities are in key order and present, and all of them when k is below four |
| CafeDetail.KeyChipsNoSkip | client/src/pages/CafeDetail.tsx:104 | The first k present key facilities include every present key facility that comes before one of them |
| CafeDetail.BrewHavenChips | client/src/pages/CafeDetail.tsx:104 | Brew Haven shows Wifi, Socket, Prayer Room and Toilet, in that order |
| CafeDetail.BrewHavenKeyFacilities | client/src/pages/CafeDetail.tsx:104 | The key facilities present in Brew Haven's list, in key order, are Wifi, Socket, Prayer Room and Toilet |
| CafeDetail.BrewHavenKeyTail | client/src/pages/CafeDetail.tsx:104 | Of the last five key facilities, Brew Haven has Prayer Room and Toilet |
| CafeDetail.FilterReviews | client/src/pages/CafeDetail.tsx:293-301 | An empty query keeps every review; otherwise the kept reviews are those whose lower-cased author or comment includes the lower-cased query, in order, each as often as before |
| CafeDetail.ShowNoMatch | client/src/pages/CafeDetail.tsx:318 | The notice condition as written: the café has reviews, none matches the lower-cased query, and the query is not empty; the next row relates it to the listed reviews |
| CafeDetail.NoMatchIffNothingShown | client/src/pages/CafeDetail.tsx:318 | The "no review matches" notice appears exactly when the café has reviews and the filter keeps none |
| CafeDetail.ReviewsPanel | client/src/pages/CafeDetail.tsx:293-320 | The panel shows "no reviews yet" exactly when the café has none; otherwise it lists the filtered reviews, with the notice exactly when that list is empty |
| SearchPage.SearchCafes | client/src/pages/Search.tsx:22-25 | The results are the cafés whose lower-cased name or address includes the lower-cased query, in catalogue order, each as often as in the catalogue |
| SearchPage.EmptyQueryShowsAll | client/src/pages/Search.tsx:22-25 | An empty query lists the whole catalogue |
| SearchPage.QueryIgnoresCase | client/src/pages/Search.tsx:22-25 | Queries that differ only in letter case list the same cafés |
| SearchPage.FoundCount | client/src/pages/Search.tsx:60 | The "N found" count is the number of catalogue positions whose café matches the query; it never exceeds the catalogue, and equals it exactly when every café matches |
| SearchPage.MatchCount | client/src/pages/Search.tsx:22-25 | The number of results is the number of catalogue positions whose café matches |
| SearchPage.GardenScenario | client/src/pages/Search.tsx:22-25 | Searching the demo catalogue for "garden" finds Garden Bistro alone |
| SearchPage.GardenMatches | client/src/pages/Search.tsx:22-25 | "garden" matches Garden Bistro and none of the other three demo cafés |
| SearchPage.BrewHavenMisses | client/src/pages/Search.tsx:23-24 | "garden" is in neither Brew Haven's name nor its address |
| SearchPage.BrewHavenTextMisses | client/src/pages/Search.tsx:23-24 | Neither "brew haven" nor "jl. merdeka no. 45, jakarta" includes "garden" |
| SearchPage.MinimalistCoffeeMisses | client/src/pages/Search.tsx:23-24 | "garden" is in neither Minimalist Coffee's name nor its address |
| SearchPage.MinimalistCoffeeTextMisses | client/src/pages/Search.tsx:23-24 | Neither "minimalist coffee" nor "jl. sudirman kav 5, jakarta" includes "garden" |
| SearchPage.RetroBeansMisses | client/src/pages/Search.tsx:23-24 | "garden" is in neither Retro Beans' name nor its address |
| SearchPage.RetroBeansTextMisses | client/src/pages/Search.tsx:23-24 | Neither "retro beans" nor "jl. kemang raya, jakarta" includes "garden" |
| SearchPage.GardenBistroMatches | client/src/pages/Search.tsx:23 | Garden Bistro's lower-cased name includes "garden" |
| SearchPage.MissingLetter | client/src/pages/Search.tsx:23-24 | A text that lacks a letter of the query in both cases does not include the query after lower-casing |
| SearchPage.ToggleFacility | client/src/pages/Search.tsx:27-31 | The facility ends up selected exactly when it was not; other facilities keep their counts; a present one is removed (every copy), an absent one is appended at the end |
| SearchPage.ToggleTwiceRestores | client/src/pages/Search.tsx:27-31 | Toggling an unselected facility on and off again restores the exact list |
| SearchPage.FilteredCafes | client/src/pages/Search.tsx:22-25 | The page lists, in catalogue order, the cafés that match the state's query, each as often as it appears in the catalogue |
| SearchPage.SelectionsDoNotFilter | client/src/pages/Search.tsx:19-25 | The facility and price selections never change the listed cafés |
| Text.Trim | client/src/context/CollectionsContext.tsx:22 | `trim` removes a whitespace-only prefix and suffix and leaves a string whose ends are not whitespace |
| Text.TrimBlank | client/src/context/CollectionsContext.tsx:22-23 | A name trims to nothing exactly when it is all whitespace |
| Text.BlankTrimsToNothing | client/src/context/CollectionsContext.tsx:22-23 | An all-whitespace name trims to nothing |
| Text.NothingLeftIsBlank | client/src/context/CollectionsContext.tsx:22-23 | A name that trims to nothing is all whitespace |
| Text.TrimTrimmed | client/src/context/CollectionsContext.tsx:22 | A name already without surrounding whitespace is unchanged by `trim` |
| Text.TrimIdempotent | client/src/context/CollectionsContext.tsx:22 | Trimming twice is trimming once |
| Text.LeadingWhitespace | client/src/context/CollectionsContext.tsx:22 | The leading run counted is all whitespace, and the character after it is not |
| Text.TrailingWhitespace | client/src/context/CollectionsContext.tsx:22 | The trailing run counted is all whitespace, and the character before it is not |
| Text.ToLower | client/src/components/CollectionPicker.tsx:36 | `toLowerCase` maps each ASCII capital to its small letter and keeps every other character; its properties are the next two rows |
| Text.ToLowerSpec | client/src/components/CollectionPicker.tsx:36 | `toLowerCase` keeps the length, yields no upper-case letter, and leaves lower-case text unchanged |
| Text.ToLowerIdempotent | client/src/components/CollectionPicker.tsx:36 | Lower-casing twice is lower-casing once |
| Text.Contains | client/src/components/CollectionPicker.tsx:36 | `includes`: the needle is a prefix of the text or of one of its tails; the next row gives the offset-based characterisation |
| Text.ContainsIffOccurs | client/src/components/CollectionPicker.tsx:36 | `includes` holds exactly when the needle occurs at some offset of the text |
| Text.OccursShift | client/src/components/CollectionPicker.tsx:36 | An occurrence in the tail of a text is an occurrence one place further in the whole |
| Text.ContainsEmpty | client/src/components/CollectionPicker.tsx:36 | Every text includes the empty string |
| Text.ContainsChar | client/src/pages/Search.tsx:23-24 | Every character of an included string occurs in the text that includes it |
| Text.LowerAbsent | client/src/pages/Search.tsx:23-24 | A letter absent from a text in both cases is absent from its lower-cased form |
| Text.Decimal | client/src/context/CollectionsContext.tsx:24 | A number renders as a non-empty string of digits, a single digit exactly for numbers below ten, starting with "0" only for zero and never with a leading zero |
| Text.DecimalRoundTrip | client/src/context/CollectionsContext.tsx:24 | Parsing the rendering of a number gives the number back |
| Text.DecimalInjective | client/src/context/CollectionsContext.tsx:24 | Different numbers render differently |
| Seqs.Filter | client/src/pages/Search.tsx:22-25 | `Array.prototype.filter`: the elements that pass, in order; specified by the next two rows |
| Seqs.FilterSpec | client/src/pages/Search.tsx:22-25 | `filter` keeps exactly the elements that pass, in order, each as often as it occurs, and never lengthens the list |
| Seqs.FilterUnique | client/src/pages/Search.tsx:22-25 | Any subsequence that keeps exactly the passing elements with their counts is the filtered list |
| Seqs.FilterExt | client/src/components/CollectionPicker.tsx:36 | Predicates that agree on the list filter it the same way |
| Seqs.FilterKeepsAll | client/src/pages/Search.tsx:60 | Filtering keeps the whole list exactly when every element passes, which is exactly when the length is unchanged |
| Seqs.FilterConcat | client/src/pages/Search.tsx:29 | Filtering a concatenation is concatenating the filtered parts |
| Seqs.FilterLength | client/src/pages/Search.tsx:60 | The length of a filtered list is the number of positions whose element passes |
| Seqs.FilterPrefix | client/src/pages/CafeDetail.tsx:104 | A prefix of a filtered list is a subsequence of passing elements, and all passing elements when it is the whole |
| Seqs.FilterPrefixClosed | client/src/pages/CafeDetail.tsx:104 | In a prefix of a filtered duplicate-free list, an element passing earlier than one of the prefix's elements is in the prefix |
| Seqs.FilterPrefixNoSkip | client/src/pages/CafeDetail.tsx:104 | The same, for all pairs of positions at once |
| Seqs.SubsequenceCounts | client/src/pages/Search.tsx:22-25 | A subsequence holds no element more often than the list it comes from |
| Seqs.PrefixIsSubsequence | client/src/pages/CafeDetail.tsx:104 | A prefix (`slice(0, 4)`) is a subsequence |
| Seqs.SubsequenceTrans | client/src/pages/CafeDetail.tsx:104 | A subsequence of a subsequence is a subsequence |

## Left out

- Rendering, styling, animation, the image carousel, icons and the bottom navigation are not modelled. They are layout with no logic the store depends on.
- Routing (`useRoute`, `setLocation`) is not modelled. The route parameter becomes an `Option<string>` argument of `FindCafe`.
- The maps link and `window.open` are not modelled, because they are I/O.
- The React context plumbing is not modelled: the provider, `useMemo`, and the error `useCollections` throws outside a provider. `Store` stands for the one provider instance.
- `setState` updater functions are modelled as direct assignments to `Store.collections`. React's batching and re-rendering are not modelled.
- The picker's `onSelect` and `onOpenChange` callbacks are not modelled as callbacks. They become the `selected` log and the `open` flag of `PickerDialog`. On the café page, `onSelect` is modelled as `SaveToCollection`.
- `Date.now()` is the `now` parameter, so the model does not read a clock.
  - Two creations at the same millisecond would get the same id, so `Store.CreateCollection` does not promise distinct ids.
  - `AppendPreservesInvariants` states distinctness only for a fresh id.
  - A reading of 1 or 2 would collide with the seeded "col-1" and "col-2".
- Text.Trim: models JavaScript `trim` on ASCII whitespace only (space, tab, line feed, vertical tab, form feed, carriage return). The Unicode spaces JavaScript also strips are not modelled.
- Text.ToLowerSpec: models `toLowerCase` on ASCII letters only; no other Unicode case mapping is modelled.
- CafeDetail.PriceRangeText: a price code that names a property every JavaScript object inherits (such as "toString") would make `priceRangeMap[code]` something other than `undefined`. The model treats every code outside the map as the default.
- `cafe.id || ''` in `isSaved` is modelled by `SavedKey`. When no café is found, the key is the empty string.
- Café fields other than id, name, address, price range, facilities and reviews are not modelled: the coordinates, rating, images, hours, distance and menu are not used by the modelled logic.
- The search page's facility chips (toggled by `ToggleFacility`) and price slider change state (`SearchState`), but the page never uses them to filter. `SelectionsDoNotFilter` states this.
- The Environment checkboxes of the filter drawer are bound to no state at all, so they are not modelled.
- The picker's optional `title` and `allowCreate` props are not modelled. `PickerDialog` always allows creation, as with the default `allowCreate = true`. With `allowCreate` false the new-name row is not rendered, so `handleCreate` cannot fire. The only caller, the café page, uses the defaults apart from its own title.
- The Auth, Profile, Home, Favorites and Order pages and `App.tsx` are not part of this model. They only display data or navigate.
