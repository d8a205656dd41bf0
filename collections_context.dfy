/**
 * The in-memory collections store: an ordered list of named collections of
 * café ids, seeded with two examples, with `createCollection` and
 * `addCafeToCollection`. The store's state is the `collections` field of
 * `Store`; the updaters the source hands to `setCollections` are the pure
 * functions `NewCollection` and `AddCafe`.
 */
module CollectionsContext {
  import opened Wrappers
  import opened Text
  import opened Seqs

  datatype Collection = Collection(id: string, name: string, cafeIds: seq<string>)

  function InitialCollections(): seq<Collection> {
    [Collection("col-1", "Weekday Work Spots", ["1", "3"]),
     Collection("col-2", "Brunch with Friends", ["2"])]
  }

  /** What every collection in the store satisfies: a non-blank trimmed name and no café twice. */
  predicate WellFormed(c: Collection) {
    c.name != "" && IsTrimmed(c.name) && NoDuplicates(c.cafeIds)
  }

  predicate AllWellFormed(cols: seq<Collection>) {
    forall i :: 0 <= i < |cols| ==> WellFormed(cols[i])
  }

  predicate UniqueIds(cols: seq<Collection>) {
    forall i, j :: 0 <= i < j < |cols| ==> cols[i].id != cols[j].id
  }

  lemma InitialCollectionsValid()
    ensures AllWellFormed(InitialCollections()) && UniqueIds(InitialCollections())
  {
    assert IsTrimmed("Weekday Work Spots");
    assert IsTrimmed("Brunch with Friends");
  }

  // ---------------------------------------------------------------- createCollection

  /** The id `col-${Date.now()}` for a clock reading of `now` milliseconds. */
  function ClockId(now: nat): string {
    "col-" + Decimal(now)
  }

  /** Two creations at different clock readings get different ids. */
  lemma ClockIdsDistinct(a: nat, b: nat)
    requires a != b
    ensures ClockId(a) != ClockId(b)
  {
    if ClockId(a) == ClockId(b) {
      assert Decimal(a) == ClockId(a)[4..];
      assert Decimal(b) == ClockId(b)[4..];
      DecimalInjective(a, b);
    }
  }

  /** The collection `createCollection(name)` builds at clock reading `now`, or None for a blank name. */
  function NewCollection(name: string, now: nat): (r: Option<Collection>)
    ensures r.None? <==> AllWhitespace(name)
    ensures r.Some? ==> r.value == Collection(ClockId(now), Trim(name), []) && WellFormed(r.value)
  {
    TrimBlank(name);
    var trimmed := Trim(name);
    if trimmed == "" then None else Some(Collection(ClockId(now), trimmed, []))
  }

  /** Appending a well-formed collection whose id is new keeps the list well formed with unique ids. */
  lemma AppendPreservesInvariants(cols: seq<Collection>, c: Collection)
    requires AllWellFormed(cols) && UniqueIds(cols) && WellFormed(c)
    requires forall i :: 0 <= i < |cols| ==> cols[i].id != c.id
    ensures AllWellFormed(cols + [c]) && UniqueIds(cols + [c])
  {
  }

  // ---------------------------------------------------------------- addCafeToCollection

  /** One step of the `map` in `addCafeToCollection`. */
  function WithCafe(c: Collection, cafeId: string, collectionId: string): Collection {
    if c.id == collectionId && cafeId !in c.cafeIds then c.(cafeIds := c.cafeIds + [cafeId]) else c
  }

  /** The list `addCafeToCollection(cafeId, collectionId)` leaves behind. */
  function AddCafe(cols: seq<Collection>, cafeId: string, collectionId: string): (r: seq<Collection>)
    ensures |r| == |cols|
    ensures forall i :: 0 <= i < |r| ==> r[i].id == cols[i].id && r[i].name == cols[i].name
    ensures forall i :: 0 <= i < |r| && cols[i].id != collectionId ==> r[i] == cols[i]
    ensures forall i :: 0 <= i < |r| && cols[i].id == collectionId ==>
      r[i].cafeIds == if cafeId in cols[i].cafeIds then cols[i].cafeIds else cols[i].cafeIds + [cafeId]
  {
    seq(|cols|, i requires 0 <= i < |cols| => WithCafe(cols[i], cafeId, collectionId))
  }

  /** After the call the café is in every collection with the given id. */
  lemma AddCafeMembership(cols: seq<Collection>, cafeId: string, collectionId: string, i: int)
    requires 0 <= i < |cols| && cols[i].id == collectionId
    ensures cafeId in AddCafe(cols, cafeId, collectionId)[i].cafeIds
  {
  }

  /** An unknown collection id changes nothing. */
  lemma AddCafeUnknownId(cols: seq<Collection>, cafeId: string, collectionId: string)
    requires forall i :: 0 <= i < |cols| ==> cols[i].id != collectionId
    ensures AddCafe(cols, cafeId, collectionId) == cols
  {
  }

  /** Adding a café that every matching collection already holds changes nothing. */
  lemma AddCafeAlreadyPresent(cols: seq<Collection>, cafeId: string, collectionId: string)
    requires forall i :: 0 <= i < |cols| && cols[i].id == collectionId ==> cafeId in cols[i].cafeIds
    ensures AddCafe(cols, cafeId, collectionId) == cols
  {
  }

  /** A second identical call changes nothing. */
  lemma AddCafeIdempotent(cols: seq<Collection>, cafeId: string, collectionId: string)
    ensures AddCafe(AddCafe(cols, cafeId, collectionId), cafeId, collectionId) == AddCafe(cols, cafeId, collectionId)
  {
    AddCafeAlreadyPresent(AddCafe(cols, cafeId, collectionId), cafeId, collectionId);
  }

  /** The store's invariants survive `addCafeToCollection`. */
  lemma AddCafePreservesInvariants(cols: seq<Collection>, cafeId: string, collectionId: string)
    requires AllWellFormed(cols)
    ensures AllWellFormed(AddCafe(cols, cafeId, collectionId))
    ensures UniqueIds(cols) ==> UniqueIds(AddCafe(cols, cafeId, collectionId))
  {
    var r := AddCafe(cols, cafeId, collectionId);
    forall i | 0 <= i < |r| ensures WellFormed(r[i]) {
      assert WellFormed(cols[i]);
    }
  }

  /** Two identical calls leave the café in the target collection exactly once. */
  lemma AddCafeTwiceOnce(cols: seq<Collection>, cafeId: string, collectionId: string, i: int)
    requires AllWellFormed(cols)
    requires 0 <= i < |cols| && cols[i].id == collectionId
    ensures multiset(AddCafe(AddCafe(cols, cafeId, collectionId), cafeId, collectionId)[i].cafeIds)[cafeId] == 1
  {
    AddCafeIdempotent(cols, cafeId, collectionId);
    AddCafePreservesInvariants(cols, cafeId, collectionId);
    var ids := AddCafe(cols, cafeId, collectionId)[i].cafeIds;
    assert NoDuplicates(ids) && cafeId in ids;
    OccursOnce(ids, cafeId);
  }

  lemma {:induction false} OccursOnce(s: seq<string>, x: string)
    requires NoDuplicates(s) && x in s
    ensures multiset(s)[x] == 1
  {
    assert s == [s[0]] + s[1..];
    if s[0] == x {
      assert x !in s[1..];
    } else {
      OccursOnce(s[1..], x);
    }
  }

  /** Adding café "4" to the seeded "col-1" gives ["1", "3", "4"] and leaves "col-2" alone. */
  lemma SeedScenario()
    ensures AddCafe(InitialCollections(), "4", "col-1") ==
      [Collection("col-1", "Weekday Work Spots", ["1", "3", "4"]),
       Collection("col-2", "Brunch with Friends", ["2"])]
  {
    var cols := InitialCollections();
    var r := AddCafe(cols, "4", "col-1");
    assert "4" !in cols[0].cafeIds;
    assert cols[1].id != "col-1";
    assert r[0] == Collection("col-1", "Weekday Work Spots", ["1", "3"] + ["4"]);
    assert r[1] == cols[1];
    assert ["1", "3"] + ["4"] == ["1", "3", "4"];
    assert |r| == 2;
  }

  /** `createCollection("  Morning Runs  ")` builds a collection named exactly "Morning Runs" with no cafés. */
  lemma CreateScenario(now: nat)
    ensures NewCollection("  Morning Runs  ", now) == Some(Collection(ClockId(now), "Morning Runs", []))
  {
    MorningRunsTrim("  Morning Runs  ");
  }

  lemma MorningRunsTrim(s: string)
    requires s == "  Morning Runs  "
    ensures Trim(s) == "Morning Runs"
  {
    MorningRunsLeading(s);
    var t := s[2..];
    assert t == "Morning Runs  ";
    MorningRunsTrailing(t);
    assert t[..|t| - 2] == "Morning Runs";
  }

  lemma MorningRunsLeading(s: string)
    requires s == "  Morning Runs  "
    ensures LeadingWhitespace(s) == 2
  {
    var u := s[1..][1..];
    assert u == "Morning Runs  ";
    assert LeadingWhitespace(u) == 0;
    assert LeadingWhitespace(s[1..]) == 1;
  }

  lemma MorningRunsTrailing(t: string)
    requires t == "Morning Runs  "
    ensures TrailingWhitespace(t) == 2
  {
    var init := t[..|t| - 1];
    var u := init[..|init| - 1];
    assert u == "Morning Runs";
    assert TrailingWhitespace(u) == 0;
    assert TrailingWhitespace(init) == 1;
  }

  // ---------------------------------------------------------------- the store

  /** The provider's `collections` state and its two operations. */
  class Store {
    var collections: seq<Collection>

    ghost predicate Valid()
      reads this
    {
      AllWellFormed(collections)
    }

    /** The provider starts from the seeded collections. */
    constructor ()
      ensures Valid() && collections == InitialCollections()
    {
      collections := InitialCollections();
      InitialCollectionsValid();
    }

    /**
     * `createCollection(name)` at clock reading `now`: a blank name returns None
     * and changes nothing; otherwise the new collection is appended and returned.
     */
    method CreateCollection(name: string, now: nat) returns (created: Option<Collection>)
      requires Valid()
      modifies this
      ensures Valid()
      ensures AllWhitespace(name) ==> created == None && collections == old(collections)
      ensures !AllWhitespace(name) ==>
        created == Some(Collection(ClockId(now), Trim(name), [])) &&
        collections == old(collections) + [created.value]
    {
      created := NewCollection(name, now);
      if created.Some? {
        collections := collections + [created.value];
      }
    }

    /** `addCafeToCollection(cafeId, collectionId)`. */
    method AddCafeToCollection(cafeId: string, collectionId: string)
      requires Valid()
      modifies this
      ensures Valid()
      ensures collections == AddCafe(old(collections), cafeId, collectionId)
    {
      AddCafePreservesInvariants(collections, cafeId, collectionId);
      collections := AddCafe(collections, cafeId, collectionId);
    }
  }
}
