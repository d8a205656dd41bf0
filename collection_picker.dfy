/**
 * The "save to a collection" dialog: a case-insensitive search over the
 * collection names, an inline "new collection" field, the empty-state and
 * count labels, and the two handlers that create or pick a collection.
 */
module CollectionPicker {
  import opened Wrappers
  import opened Text
  import opened Seqs
  import opened CollectionsContext

  // ---------------------------------------------------------------- the name search

  /** The lower-cased name contains the lower-cased search text. */
  predicate NameMatches(c: Collection, search: string) {
    Contains(ToLower(c.name), ToLower(search))
  }

  /** `filtered`: the collections whose name matches the search, in list order. */
  function FilterCollections(cols: seq<Collection>, search: string): (r: seq<Collection>)
    ensures IsSubsequence(r, cols)
    ensures forall c :: c in r <==> c in cols && NameMatches(c, search)
    ensures forall c :: multiset(r)[c] == if NameMatches(c, search) then multiset(cols)[c] else 0
  {
    FilterSpec(cols, c => NameMatches(c, search));
    Filter(cols, c => NameMatches(c, search))
  }

  /** An empty search shows every collection. */
  lemma EmptySearchShowsAll(cols: seq<Collection>)
    ensures FilterCollections(cols, "") == cols
  {
    forall c | c in cols ensures NameMatches(c, "") {
      ContainsEmpty(ToLower(c.name));
    }
    FilterKeepsAll(cols, c => NameMatches(c, ""));
  }

  /** Searches that differ only in letter case show the same collections. */
  lemma SearchIgnoresCase(cols: seq<Collection>, s1: string, s2: string)
    requires ToLower(s1) == ToLower(s2)
    ensures FilterCollections(cols, s1) == FilterCollections(cols, s2)
  {
    FilterExt(cols, c => NameMatches(c, s1), c => NameMatches(c, s2));
  }

  // ---------------------------------------------------------------- labels and guards

  /** The Add button is disabled while the new name is blank. */
  function AddDisabled(newName: string): (disabled: bool)
    ensures disabled <==> AllWhitespace(newName)
  {
    TrimBlank(newName);
    Trim(newName) == ""
  }

  const NoCollectionsYet := "No collections yet. Create one to get started."
  const NoCollectionsMatch := "No collections match that search."

  /** The message shown in place of the list, if any. */
  function EmptyMessage(cols: seq<Collection>, search: string): (m: Option<string>)
    ensures m.Some? <==> forall c :: c in cols ==> !NameMatches(c, search)
    ensures m == Some(NoCollectionsYet) <==> cols == []
    ensures m == Some(NoCollectionsMatch) <==> cols != [] && forall c :: c in cols ==> !NameMatches(c, search)
  {
    var shown := FilterCollections(cols, search);
    assert shown != [] ==> shown[0] in shown;
    if |shown| == 0 then
      Some(if |cols| == 0 then NoCollectionsYet else NoCollectionsMatch)
    else
      None
  }

  /** With an empty search the "no match" message never appears. */
  lemma EmptySearchNeverNoMatch(cols: seq<Collection>)
    ensures EmptyMessage(cols, "") != Some(NoCollectionsMatch)
  {
    if cols != [] {
      EmptySearchShowsAll(cols);
      assert cols[0] in FilterCollections(cols, "");
    }
  }

  /** The count line under a collection: "N saved cafe", with an "s" unless N is exactly one. */
  function CountLabel(n: nat): (caption: string)
    ensures caption == Decimal(n) + (if n == 1 then " saved cafe" else " saved cafes")
    ensures |Decimal(n)| < |caption| && caption[..|Decimal(n)|] == Decimal(n)
    ensures ParseDecimal(caption[..|Decimal(n)|]) == n
    ensures caption[|caption| - 1] == 's' <==> n != 1
  {
    DecimalRoundTrip(n);
    Decimal(n) + " saved cafe" + (if n == 1 then "" else "s")
  }

  // ---------------------------------------------------------------- the dialog

  /**
   * The dialog's state. `open` is the flag the parent passes in and clears
   * through `onOpenChange(false)`; `selected` lists, in order, the ids handed
   * to the parent's `onSelect` callback.
   */
  class PickerDialog {
    const store: Store
    var open: bool
    var search: string
    var newName: string
    var selected: seq<string>

    constructor (store: Store, open: bool)
      ensures this.store == store && this.open == open
      ensures search == "" && newName == "" && selected == []
    {
      this.store := store;
      this.open := open;
      search := "";
      newName := "";
      selected := [];
    }

    /**
     * `handleCreate`: a blank new name does nothing at all; otherwise the
     * collection is created, its id goes to `onSelect`, the dialog closes and
     * both text fields are cleared.
     */
    method HandleCreate(now: nat)
      requires store.Valid()
      modifies this, store
      ensures store.Valid()
      ensures AllWhitespace(old(newName)) ==>
        store.collections == old(store.collections) && selected == old(selected) &&
        open == old(open) && newName == old(newName) && search == old(search)
      ensures !AllWhitespace(old(newName)) ==>
        var c := Collection(ClockId(now), Trim(old(newName)), []);
        store.collections == old(store.collections) + [c] && selected == old(selected) + [c.id] &&
        !open && newName == "" && search == ""
    {
      if AddDisabled(newName) {
        return;
      }
      var created := store.CreateCollection(newName, now);
      if created.Some? {
        selected := selected + [created.value.id];
        open := false;
        newName := "";
        search := "";
      }
    }

    /** `handleSelect(id)`: the id goes to `onSelect`, then the dialog closes. */
    method HandleSelect(id: string)
      modifies this
      ensures selected == old(selected) + [id] && !open
      ensures search == old(search) && newName == old(newName)
    {
      selected := selected + [id];
      open := false;
    }
  }
}
