/**
 * The search page: a case-insensitive search over café names and addresses,
 * and the facility chips of the filter drawer, toggled in and out of a list.
 */
module SearchPage {
  import opened Text
  import opened Seqs
  import opened Catalog

  // ---------------------------------------------------------------- the café search

  /** The lower-cased name or address contains the lower-cased query. */
  predicate CafeMatches(c: Cafe, query: string) {
    Contains(ToLower(c.name), ToLower(query)) || Contains(ToLower(c.address), ToLower(query))
  }

  /** `filteredCafes`: the catalogue's cafés that match the query, in catalogue order. */
  function SearchCafes(catalog: seq<Cafe>, query: string): (found: seq<Cafe>)
    ensures IsSubsequence(found, catalog)
    ensures forall c :: c in found <==> c in catalog && CafeMatches(c, query)
    ensures forall c :: multiset(found)[c] == if CafeMatches(c, query) then multiset(catalog)[c] else 0
  {
    FilterSpec(catalog, c => CafeMatches(c, query));
    Filter(catalog, c => CafeMatches(c, query))
  }

  /** An empty query lists the whole catalogue. */
  lemma EmptyQueryShowsAll(catalog: seq<Cafe>)
    ensures SearchCafes(catalog, "") == catalog
  {
    forall c | c in catalog ensures CafeMatches(c, "") {
      ContainsEmpty(ToLower(c.name));
    }
    FilterKeepsAll(catalog, c => CafeMatches(c, ""));
  }

  /** Queries that differ only in letter case find the same cafés. */
  lemma QueryIgnoresCase(catalog: seq<Cafe>, q1: string, q2: string)
    requires ToLower(q1) == ToLower(q2)
    ensures SearchCafes(catalog, q1) == SearchCafes(catalog, q2)
  {
    FilterExt(catalog, c => CafeMatches(c, q1), c => CafeMatches(c, q2));
  }

  /**
   * The "N found" count: the number of catalogue positions whose café matches,
   * never more than the catalogue, and all of it exactly when every café matches.
   */
  function FoundCount(catalog: seq<Cafe>, query: string): (n: nat)
    ensures n == |MatchingPositions(catalog, query)|
    ensures n <= |catalog|
    ensures n == |catalog| <==> forall c :: c in catalog ==> CafeMatches(c, query)
  {
    MatchCount(catalog, query);
    FilterSpec(catalog, c => CafeMatches(c, query));
    FilterKeepsAll(catalog, c => CafeMatches(c, query));
    |SearchCafes(catalog, query)|
  }

  /** The catalogue positions whose café matches the query. */
  ghost function MatchingPositions(catalog: seq<Cafe>, query: string): set<int> {
    set i | 0 <= i < |catalog| && CafeMatches(catalog[i], query)
  }

  /** The number of results is the number of catalogue positions whose café matches. */
  lemma MatchCount(catalog: seq<Cafe>, query: string)
    ensures |SearchCafes(catalog, query)| == |MatchingPositions(catalog, query)|
  {
    var p := (c: Cafe) => CafeMatches(c, query);
    FilterLength(catalog, p);
    assert SearchCafes(catalog, query) == Filter(catalog, p);
    assert PassingPositions(catalog, p) == MatchingPositions(catalog, query);
  }

  /** Searching the demo catalogue for "garden" finds Garden Bistro alone. */
  lemma GardenScenario()
    ensures SearchCafes(Cafes(), "garden") == [GardenBistro()]
  {
    var q := "garden";
    GardenMatches(q);
    KeepOnlySecond(BrewHaven(), GardenBistro(), MinimalistCoffee(), RetroBeans(), (c: Cafe) => CafeMatches(c, q));
  }

  /** Filtering four elements of which only the second passes leaves that one. */
  lemma KeepOnlySecond<T>(a: T, b: T, c: T, d: T, p: T -> bool)
    requires !p(a) && p(b) && !p(c) && !p(d)
    ensures Filter([a, b, c, d], p) == [b]
  {
    assert Filter([d], p) == [] by { assert [d][1..] == []; }
    assert Filter([c, d], p) == [] by { assert [c, d][1..] == [d]; }
    assert Filter([b, c, d], p) == [b] by { assert [b, c, d][1..] == [c, d]; }
    assert [a, b, c, d][1..] == [b, c, d];
  }

  /** Which demo cafés the query "garden" matches. */
  lemma GardenMatches(q: string)
    requires q == "garden"
    ensures !CafeMatches(BrewHaven(), q) && CafeMatches(GardenBistro(), q)
    ensures !CafeMatches(MinimalistCoffee(), q) && !CafeMatches(RetroBeans(), q)
  {
    BrewHavenMisses(q);
    MinimalistCoffeeMisses(q);
    RetroBeansMisses(q);
    GardenBistroMatches(q);
  }

  lemma BrewHavenMisses(q: string)
    requires q == "garden"
    ensures !CafeMatches(BrewHaven(), q)
  {
    BrewHavenTextMisses(q, BrewHaven().name, BrewHaven().address);
  }

  lemma BrewHavenTextMisses(q: string, name: string, address: string)
    requires q == "garden" && name == "Brew Haven" && address == "Jl. Merdeka No. 45, Jakarta"
    ensures !Contains(ToLower(name), ToLower(q)) && !Contains(ToLower(address), ToLower(q))
  {
    GardenLetters(q);
    MissingLetter(name, q, 'g');
    MissingLetter(address, q, 'g');
  }

  lemma MinimalistCoffeeMisses(q: string)
    requires q == "garden"
    ensures !CafeMatches(MinimalistCoffee(), q)
  {
    MinimalistCoffeeTextMisses(q, MinimalistCoffee().name, MinimalistCoffee().address);
  }

  lemma MinimalistCoffeeTextMisses(q: string, name: string, address: string)
    requires q == "garden" && name == "Minimalist Coffee" && address == "Jl. Sudirman Kav 5, Jakarta"
    ensures !Contains(ToLower(name), ToLower(q)) && !Contains(ToLower(address), ToLower(q))
  {
    GardenLetters(q);
    MissingLetter(name, q, 'g');
    MissingLetter(address, q, 'g');
  }

  lemma RetroBeansMisses(q: string)
    requires q == "garden"
    ensures !CafeMatches(RetroBeans(), q)
  {
    RetroBeansTextMisses(q, RetroBeans().name, RetroBeans().address);
  }

  lemma RetroBeansTextMisses(q: string, name: string, address: string)
    requires q == "garden" && name == "Retro Beans" && address == "Jl. Kemang Raya, Jakarta"
    ensures !Contains(ToLower(name), ToLower(q)) && !Contains(ToLower(address), ToLower(q))
  {
    GardenLetters(q);
    MissingLetter(name, q, 'd');
    MissingLetter(address, q, 'd');
  }

  lemma GardenLetters(q: string)
    requires q == "garden"
    ensures 'g' in ToLower(q) && 'd' in ToLower(q)
  {
    assert ToLower(q) == q by { ToLowerSpec(q); }
    assert ToLower(q)[0] == 'g' && ToLower(q)[3] == 'd';
  }

  lemma GardenBistroMatches(q: string)
    requires q == "garden"
    ensures CafeMatches(GardenBistro(), q)
  {
    assert ToLower(q) == q by { ToLowerSpec(q); }
    var name := ToLower(GardenBistro().name);
    assert name[..6] == q;
    assert q <= name;
  }

  /** A text lacking, in either case, a letter of the query does not contain the query. */
  lemma MissingLetter(s: string, query: string, letter: char)
    requires 'a' <= letter <= 'z' && letter in ToLower(query)
    requires letter !in s && (letter as int - 32) as char !in s
    ensures !Contains(ToLower(s), ToLower(query))
  {
    LowerAbsent(s, letter);
    if Contains(ToLower(s), ToLower(query)) {
      ContainsChar(ToLower(s), ToLower(query), letter);
    }
  }

  // ---------------------------------------------------------------- the facility chips

  /** `toggleFacility`: remove every occurrence when present, else append at the end. */
  function ToggleFacility(selected: seq<string>, facility: string): (r: seq<string>)
    ensures facility in r <==> facility !in selected
    ensures forall f :: f != facility ==> multiset(r)[f] == multiset(selected)[f]
    ensures facility in selected ==> IsSubsequence(r, selected)
    ensures facility !in selected ==> |r| == |selected| + 1 && r[..|selected|] == selected && r[|selected|..] == [facility]
  {
    if facility in selected then
      FilterSpec(selected, f => f != facility);
      Filter(selected, f => f != facility)
    else
      selected + [facility]
  }

  /** Toggling a facility on and off again restores the list exactly. */
  lemma ToggleTwiceRestores(selected: seq<string>, facility: string)
    requires facility !in selected
    ensures ToggleFacility(ToggleFacility(selected, facility), facility) == selected
  {
    var p := (f: string) => f != facility;
    FilterConcat(selected, [facility], p);
    FilterKeepsAll(selected, p);
  }

  /** The page state: the query, the drawer, and the drawer's selections, which the search ignores. */
  datatype SearchState = SearchState(query: string, showFilters: bool, facilities: seq<string>, priceRange: seq<int>)

  /** The results the page lists for a state. */
  function FilteredCafes(catalog: seq<Cafe>, st: SearchState): (listed: seq<Cafe>)
    ensures IsSubsequence(listed, catalog)
    ensures forall c :: c in listed <==> c in catalog && CafeMatches(c, st.query)
    ensures forall c :: multiset(listed)[c] == if CafeMatches(c, st.query) then multiset(catalog)[c] else 0
  {
    SearchCafes(catalog, st.query)
  }

  /** Facility and price selections never change the listed cafés. */
  lemma SelectionsDoNotFilter(catalog: seq<Cafe>, st: SearchState, facilities: seq<string>, priceRange: seq<int>)
    ensures FilteredCafes(catalog, st.(facilities := facilities, priceRange := priceRange)) == FilteredCafes(catalog, st)
  {
  }
}
