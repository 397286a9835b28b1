/** The rental workflow as functions from the catalogue before a request to
    the catalogue after it and the view the handler renders. The store's
    methods are proved to perform exactly these transitions; the lemmas
    here state what the transitions guarantee. */
module Rental {
  import opened Items

  /** The catalogue after a request and the view rendered for it. */
  datatype Transition = Transition(after: seq<Item>, view: View)

  /** Where the rent handler's search loop stops: the first item with
      the id, or -1 when there is none. */
  function FirstIndex(s: seq<Item>, id: ItemId): (p: int)
    ensures -1 <= p < |s|
    ensures p == -1 <==> forall i :: 0 <= i < |s| ==> s[i].itemId != id
    ensures p >= 0 ==> s[p].itemId == id && forall i :: 0 <= i < p ==> s[i].itemId != id
  {
    if s == [] then -1
    else if s[0].itemId == id then 0
    else
      var q := FirstIndex(s[1..], id);
      if q == -1 then -1 else q + 1
  }

  /** With distinct ids, the item carrying the id is the one found. */
  lemma FirstIndexOfDistinct(s: seq<Item>, id: ItemId, k: int)
    requires DistinctIds(s) && 0 <= k < |s| && s[k].itemId == id
    ensures FirstIndex(s, id) == k
  {
  }

  /** `numDays >= minRental` as JavaScript evaluates it on the result of
      parseInt: `None` stands for NaN, and a comparison with NaN is false. */
  predicate MeetsMinimum(numDays: Option<int>, minRental: int)
  {
    numDays.Some? && numDays.value >= minRental
  }

  /** POST /rental-catalogue/:id. */
  function Rent(s: seq<Item>, id: ItemId, numDays: Option<int>): Transition
  {
    var p := FirstIndex(s, id);
    if p == -1 then Transition(s, ErrorView(ItemNotFound))
    else if MeetsMinimum(numDays, s[p].minRental) then
      var t := s[p := s[p].(isRented := true)];
      Transition(t, CatalogueView(RentedItems(t)))
    else Transition(s, ErrorView(MinimumNotMet))
  }

  /** Every flag cleared, everything else kept. */
  function ClearAll(s: seq<Item>): (r: seq<Item>)
    ensures SameListing(s, r) && NoneRented(r)
  {
    seq(|s|, i requires 0 <= i < |s| => s[i].(isRented := false))
  }

  /** POST /return: checkRentedItems decides, then every flag is cleared. */
  function ReturnAll(s: seq<Item>): Transition
  {
    if NoneRented(s) then Transition(s, ErrorView(NothingToReturn))
    else
      var t := ClearAll(s);
      Transition(t, CatalogueView(t))
  }

  // ---------------------------------------------------------------------
  // Rent
  // ---------------------------------------------------------------------

  /** An id no item carries is reported as not found, whatever numDays is,
      and the catalogue does not change. */
  lemma RentUnknownId(s: seq<Item>, id: ItemId, numDays: Option<int>)
    requires forall i :: 0 <= i < |s| ==> s[i].itemId != id
    ensures Rent(s, id, numDays) == Transition(s, ErrorView(ItemNotFound))
  {
  }

  /** Renting for at least the minimum sets that item's flag and nothing
      else, and renders the rented items: exactly the rented items of the new
      catalogue, in catalogue order, including the one just rented and every
      item that was rented before. */
  lemma RentSucceeds(s: seq<Item>, id: ItemId, numDays: Option<int>, k: int)
    requires DistinctIds(s) && 0 <= k < |s| && s[k].itemId == id
    requires MeetsMinimum(numDays, s[k].minRental)
    ensures var t := Rent(s, id, numDays);
      && t.after == s[k := s[k].(isRented := true)]
      && SameListing(s, t.after) && DistinctIds(t.after)
      && t.view == CatalogueView(RentedItems(t.after))
      && t.after[k] in t.view.items
      && (forall x :: x in t.view.items <==> x in t.after && x.isRented)
      && IsSubsequence(t.view.items, t.after)
      && (forall x :: x in RentedItems(s) ==> x in t.view.items)
  {
    FirstIndexOfDistinct(s, id, k);
    var t := Rent(s, id, numDays);
    assert SameListing(s, t.after) by {
      forall i | 0 <= i < |s| ensures s[i].(isRented := t.after[i].isRented) == t.after[i] {
        if i == k { assert t.after[k] == s[k].(isRented := true); }
      }
    }
    SameListingKeepsDistinctIds(s, t.after);
    forall x ensures x in t.view.items <==> x in t.after && x.isRented {
      RentedAvailableCharacterized(t.after, x);
    }
    RentedAvailableCharacterized(t.after, t.after[k]);
    forall x | x in RentedItems(s) ensures x in t.view.items {
      RentedAvailableCharacterized(s, x);
      var j :| 0 <= j < |s| && s[j] == x;
      assert t.after[j] == x;
    }
  }

  /** Renting for fewer days than the minimum, or for a number of days that
      is not a number, fails and leaves the catalogue as it was. */
  lemma RentBelowMinimum(s: seq<Item>, id: ItemId, numDays: Option<int>, k: int)
    requires DistinctIds(s) && 0 <= k < |s| && s[k].itemId == id
    requires numDays.None? || numDays.value < s[k].minRental
    ensures Rent(s, id, numDays) == Transition(s, ErrorView(MinimumNotMet))
  {
    FirstIndexOfDistinct(s, id, k);
  }

  /** Rent changes at most the rental flags, so ids stay distinct. */
  lemma RentKeepsListing(s: seq<Item>, id: ItemId, numDays: Option<int>)
    requires DistinctIds(s)
    ensures SameListing(s, Rent(s, id, numDays).after)
    ensures DistinctIds(Rent(s, id, numDays).after)
  {
    var p := FirstIndex(s, id);
    if p != -1 && MeetsMinimum(numDays, s[p].minRental) {
      RentSucceeds(s, id, numDays, p);
    }
  }

  /** Rent never clears a flag: only ReturnAll makes an item available. */
  lemma RentOnlySetsFlags(s: seq<Item>, id: ItemId, numDays: Option<int>, i: int)
    requires 0 <= i < |s| && s[i].isRented
    ensures |Rent(s, id, numDays).after| == |s| && Rent(s, id, numDays).after[i].isRented
  {
  }

  /** Renting an item that is already rented succeeds (there is no guard
      against it) and leaves the catalogue exactly as it was. */
  lemma RentAlreadyRented(s: seq<Item>, id: ItemId, numDays: Option<int>, k: int)
    requires DistinctIds(s) && 0 <= k < |s| && s[k].itemId == id && s[k].isRented
    requires MeetsMinimum(numDays, s[k].minRental)
    ensures Rent(s, id, numDays) == Transition(s, CatalogueView(RentedItems(s)))
  {
    FirstIndexOfDistinct(s, id, k);
    assert s[k := s[k].(isRented := true)] == s;
  }

  /** Repeating a rent request changes nothing further and renders the same view. */
  lemma RentIdempotent(s: seq<Item>, id: ItemId, numDays: Option<int>)
    requires DistinctIds(s)
    ensures var t := Rent(s, id, numDays); Rent(t.after, id, numDays) == t
  {
    var p := FirstIndex(s, id);
    if p != -1 && MeetsMinimum(numDays, s[p].minRental) {
      RentSucceeds(s, id, numDays, p);
      var t := Rent(s, id, numDays);
      RentAlreadyRented(t.after, id, numDays, p);
    }
  }

  // ---------------------------------------------------------------------
  // Return all
  // ---------------------------------------------------------------------

  /** With something rented, returning clears every flag, keeps everything
      else, and renders the whole catalogue. */
  lemma ReturnAllClears(s: seq<Item>)
    requires !NoneRented(s)
    ensures var t := ReturnAll(s);
      && SameListing(s, t.after)
      && (forall i :: 0 <= i < |t.after| ==> !t.after[i].isRented)
      && t.view == CatalogueView(t.after)
  {
  }

  /** With nothing rented, returning fails and changes nothing. */
  lemma ReturnAllNothingRented(s: seq<Item>)
    requires NoneRented(s)
    ensures ReturnAll(s) == Transition(s, ErrorView(NothingToReturn))
  {
  }

  /** ReturnAll succeeds exactly when RentedItems is non-empty. */
  lemma ReturnAllSucceedsIff(s: seq<Item>)
    ensures ReturnAll(s).view.CatalogueView? <==> RentedItems(s) != []
  {
    NoneRentedIffRentedEmpty(s);
  }

  /** A second return immediately after a first one always fails and leaves
      the catalogue as the first one did. */
  lemma ReturnAllTwice(s: seq<Item>)
    ensures var t := ReturnAll(s);
      ReturnAll(t.after) == Transition(t.after, ErrorView(NothingToReturn))
  {
  }

  // ---------------------------------------------------------------------
  // A scenario on the seed catalogue
  // ---------------------------------------------------------------------

  /** Renting the JBL headphone for two days succeeds (its minimum is two),
      after which it is not among the available items; returning everything
      restores the seed catalogue, and the headphone is available again. */
  lemma JblScenario(ids: seq<ItemId>)
    requires |ids| == 6 && forall i, j :: 0 <= i < j < 6 ==> ids[i] != ids[j]
    ensures var s0 := SeedItems(ids);
      var r := Rent(s0, ids[3], Some(2));
      var b := ReturnAll(r.after);
      && r.view.CatalogueView?
      && (forall x :: x in AvailableItems(r.after) ==> x.itemId != ids[3])
      && b.view.CatalogueView?
      && b.after == s0
      && s0[3] in AvailableItems(b.after)
  {
    var s0 := SeedItems(ids);
    RentSucceeds(s0, ids[3], Some(2), 3);
    var r := Rent(s0, ids[3], Some(2));
    forall x | x in AvailableItems(r.after) ensures x.itemId != ids[3] {
      RentedAvailableCharacterized(r.after, x);
      var j :| 0 <= j < |r.after| && r.after[j] == x;
      if j != 3 { assert r.after[j] == s0[j]; }
    }
    assert !NoneRented(r.after) by { assert r.after[3].isRented; }
    var b := ReturnAll(r.after);
    assert b.after == s0;
    RentedAvailableCharacterized(b.after, s0[3]);
  }
}
